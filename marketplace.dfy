/**
 * The marketplace grid's two queries over the catalog: the search-and-sort
 * query run by the search box and the sort control, and the category-only
 * query run by the filter buttons. The model returns the products the grid
 * shows, in the order it shows them; building the card markup is left out.
 */
module Marketplace {
  import opened Wrappers
  import opened Text
  import opened Seqs
  import opened Catalog
  import opened Sorting

  /** What the query reads from the page: the search box's text, the sort
      control's value and the active filter button's `data-filter`, each
      `None` when the element is missing from the page. */
  datatype Controls = Controls(
    searchInput: Option<string>,
    sortSelect: Option<string>,
    activeFilter: Option<string>)
  {
    /** The lower-cased search text; a missing box searches for "". */
    function Search(): (q: string)
      ensures searchInput.None? ==> q == ""
      ensures searchInput.Some? ==> q == Lower(searchInput.value)
    {
      Lower(searchInput.GetOr(""))
    }

    /** The sort order; a missing control or an empty value means "name". */
    function Key(): (key: SortKey)
      ensures sortSelect.None? ==> key == Name
      ensures sortSelect.Some? && sortSelect.value != "" ==> key == ParseSortKey(sortSelect.value)
      ensures sortSelect == Some("") ==> key == Name
    {
      var v := sortSelect.GetOr("");
      ParseSortKey(if v == "" then "name" else v)
    }

    /** The category filter; no active button, or one with an empty
        `data-filter`, means "all". */
    function Filter(): (f: string)
      ensures f != ""
      ensures activeFilter.None? || activeFilter == Some("") ==> f == "all"
      ensures activeFilter.Some? && activeFilter.value != "" ==> f == activeFilter.value
    {
      var f := activeFilter.GetOr("");
      if f == "" then "all" else f
    }
  }

  /** The product's name or location includes the (lower-cased) search text,
      ignoring the case of the product's text. */
  predicate MatchesSearch(p: Product, search: string) {
    Contains(Lower(p.name), search) || Contains(Lower(p.location), search)
  }

  /** The search ignores case: a product whose name or location includes the
      typed text verbatim matches it. */
  lemma ExactMatchIsFound(p: Product, typed: string)
    requires Contains(p.name, typed) || Contains(p.location, typed)
    ensures MatchesSearch(p, Lower(typed))
  {
    if Contains(p.name, typed) {
      ContainsLower(p.name, typed);
    } else {
      ContainsLower(p.location, typed);
    }
  }

  /** The search ignores letter case: a product whose name or location holds
      the typed text in any mix of upper and lower case matches it. */
  lemma MatchIgnoresCase(p: Product, typed: string, i: int)
    requires OccursAtIgnoringCase(p.name, typed, i) || OccursAtIgnoringCase(p.location, typed, i)
    ensures MatchesSearch(p, Lower(typed))
  {
    if OccursAtIgnoringCase(p.name, typed, i) {
      ContainsLowerIgnoringCase(p.name, typed, i);
    } else {
      ContainsLowerIgnoringCase(p.location, typed, i);
    }
  }

  /** The product belongs to the filter's category, or the filter is "all". */
  predicate MatchesFilter(p: Product, filter: string) {
    filter == "all" || p.category == filter
  }

  predicate Selected(p: Product, search: string, filter: string) {
    MatchesSearch(p, search) && MatchesFilter(p, filter)
  }

  /** The `marketplaceData.filter(...)` step: a fresh sequence of the selected
      products in catalog order. */
  function Selection(catalog: seq<Product>, search: string, filter: string): (kept: seq<Product>)
    ensures forall p :: p in kept <==> p in catalog && MatchesSearch(p, search) && MatchesFilter(p, filter)
  {
    var selected := p => Selected(p, search, filter);
    FilterKeepsSelected(catalog, selected, search, filter);
    Seqs.Filter(catalog, selected)
  }

  lemma FilterKeepsSelected(catalog: seq<Product>, selected: Product -> bool, search: string, filter: string)
    requires forall p :: selected(p) == Selected(p, search, filter)
    ensures forall p :: p in Seqs.Filter(catalog, selected) <==> p in catalog && Selected(p, search, filter)
  {
    forall p {
      FilterMembers(catalog, selected, p);
    }
  }

  /** Selection keeps exactly the products that match both the search and
      the filter, each as often as the catalog has it. */
  lemma SelectionCount(catalog: seq<Product>, search: string, filter: string, p: Product)
    ensures multiset(Selection(catalog, search, filter))[p] ==
      if Selected(p, search, filter) then multiset(catalog)[p] else 0
  {
    FilterCount(catalog, q => Selected(q, search, filter), p);
  }

  /** What the grid shows after a query: every product that matches both the
      search and the filter, and nothing else, each once per catalog entry,
      in ascending order of the key. */
  lemma QueryResult(catalog: seq<Product>, search: string, filter: string, key: SortKey)
    ensures var shown := StableSort(KeyOrder(key), Selection(catalog, search, filter));
      && (forall p :: p in shown <==> p in catalog && MatchesSearch(p, search) && MatchesFilter(p, filter))
      && (forall p :: multiset(shown)[p] ==
            (if Selected(p, search, filter) then multiset(catalog)[p] else 0))
      && Sorted(KeyOrder(key), shown)
  {
    var kept := Selection(catalog, search, filter);
    StableSortPermutation(KeyOrder(key), kept);
    StableSortSorted(KeyOrder(key), kept);
    var shown := StableSort(KeyOrder(key), kept);
    forall p
      ensures multiset(shown)[p] == if Selected(p, search, filter) then multiset(catalog)[p] else 0
      ensures p in shown <==> p in catalog && Selected(p, search, filter)
    {
      SelectionCount(catalog, search, filter, p);
      assert p in shown <==> p in multiset(shown);
      assert p in catalog <==> p in multiset(catalog);
    }
  }

  /** What ascending order means for each key: prices non-decreasing for
      "price-low", non-increasing for "price-high", and locations or names in
      `localeCompare` order for "location" and the default. */
  lemma SortedMeaning(key: SortKey, s: seq<Product>)
    requires Sorted(KeyOrder(key), s)
    ensures key == PriceLow ==> forall i, j :: 0 <= i < j < |s| ==> s[i].price <= s[j].price
    ensures key == PriceHigh ==> forall i, j :: 0 <= i < j < |s| ==> s[i].price >= s[j].price
    ensures key == Location ==>
      forall i, j :: 0 <= i < j < |s| ==> LocaleCompare(s[i].location, s[j].location) <= 0
    ensures key == Name ==>
      forall i, j :: 0 <= i < j < |s| ==> LocaleCompare(s[i].name, s[j].name) <= 0
  {
    forall i, j | 0 <= i < j < |s|
      ensures Compare(key, s[i], s[j]) <= 0
    {
    }
  }

  /** `filterAndSortMarketplace`: select, copy into a fresh array, sort that
      array in place with the chosen comparator, and return what the grid
      shows. The catalog itself is a value and cannot change. */
  method FilterAndSortMarketplace(catalog: seq<Product>, controls: Controls)
    returns (shown: seq<Product>)
    ensures shown == StableSort(KeyOrder(controls.Key()), Selection(catalog, controls.Search(), controls.Filter()))
    ensures forall p :: p in shown <==>
      p in catalog && MatchesSearch(p, controls.Search()) && MatchesFilter(p, controls.Filter())
    ensures Sorted(KeyOrder(controls.Key()), shown)
    ensures controls.Key() == PriceLow ==>
      forall i, j :: 0 <= i < j < |shown| ==> shown[i].price <= shown[j].price
    ensures controls.Key() == PriceHigh ==>
      forall i, j :: 0 <= i < j < |shown| ==> shown[i].price >= shown[j].price
  {
    var search, filter, key := controls.Search(), controls.Filter(), controls.Key();
    var kept := Selection(catalog, search, filter);
    var a := new Product[|kept|](i requires 0 <= i < |kept| => kept[i]);
    assert a[..] == kept;
    SortInPlace(a, KeyOrder(key));
    shown := a[..];
    QueryResult(catalog, search, filter, key);
    SortedMeaning(key, shown);
  }

  /** An empty search with the "all" filter selects the whole catalog. */
  lemma EmptySearchSelectsAll(catalog: seq<Product>)
    ensures Selection(catalog, "", "all") == catalog
  {
    forall i | 0 <= i < |catalog|
      ensures Selected(catalog[i], "", "all")
    {
      ContainsEmpty(Lower(catalog[i].name));
    }
    FilterAllPass(catalog, p => Selected(p, "", "all"));
  }

  /** With no search text and no category filter the grid shows the whole
      catalog, each product once, reordered by the sort key. */
  lemma EmptySearchShowsCatalog(catalog: seq<Product>, sortSelect: Option<string>)
    ensures var c := Controls(Some(""), sortSelect, Some("all"));
      multiset(StableSort(KeyOrder(c.Key()), Selection(catalog, c.Search(), c.Filter()))) == multiset(catalog)
  {
    var c := Controls(Some(""), sortSelect, Some("all"));
    assert c.Search() == "";
    EmptySearchSelectsAll(catalog);
    StableSortPermutation(KeyOrder(c.Key()), catalog);
  }

  /** `renderMarketplace(filter)`: the filter buttons' path, which neither
      searches nor sorts. "all" shows the catalog as it is; any other filter
      the products of that category in catalog order. */
  function RenderMarketplace(catalog: seq<Product>, filter: string): (shown: seq<Product>)
    ensures |shown| <= |catalog|
    ensures forall i :: 0 <= i < |shown| ==> filter == "all" || shown[i].category == filter
  {
    if filter == "all" then catalog else Seqs.Filter(catalog, (q: Product) => q.category == filter)
  }

  /** The category-only query keeps catalog order and keeps exactly the
      products of the category, each as often as the catalog has it. */
  lemma RenderMarketplaceKeeps(catalog: seq<Product>, filter: string, p: Product)
    ensures Subsequence(RenderMarketplace(catalog, filter), catalog)
    ensures multiset(RenderMarketplace(catalog, filter))[p] ==
      if filter == "all" || p.category == filter then multiset(catalog)[p] else 0
    ensures filter == "all" ==> RenderMarketplace(catalog, filter) == catalog
  {
    if filter == "all" {
      FilterSubsequence(catalog, _ => true);
      FilterAllPass(catalog, _ => true);
    } else {
      FilterSubsequence(catalog, (q: Product) => q.category == filter);
      FilterCount(catalog, (q: Product) => q.category == filter, p);
    }
  }

  /** A filter button and the search-and-sort query with an empty search and
      the same button active show the same products, differing at most in
      order. */
  lemma RenderMatchesQuery(catalog: seq<Product>, filter: string, sortSelect: Option<string>, p: Product)
    requires filter != ""
    ensures var c := Controls(Some(""), sortSelect, Some(filter));
      multiset(RenderMarketplace(catalog, filter))[p] ==
      multiset(StableSort(KeyOrder(c.Key()), Selection(catalog, c.Search(), c.Filter())))[p]
  {
    var c := Controls(Some(""), sortSelect, Some(filter));
    assert c.Search() == "" && c.Filter() == filter;
    RenderMarketplaceKeeps(catalog, filter, p);
    StableSortPermutation(KeyOrder(c.Key()), Selection(catalog, "", filter));
    FilterCount(catalog, q => Selected(q, "", filter), p);
    ContainsEmpty(Lower(p.name));
  }
}
