/**
 * The four orders of the marketplace's sort control, and the sort the page
 * applies with them. `Array.prototype.sort` is stable (section 23.1.3.30 of
 * ECMA-262, 2023 edition; stable since the 2019 edition), so the model sorts
 * by stable insertion: StableSort is the specification, SortInPlace the
 * in-place array version proved equal to it.
 */
module Sorting {
  import opened Text
  import opened Catalog
  import opened Seqs

  /** The values of the sort control the script distinguishes. */
  datatype SortKey = Name | PriceLow | PriceHigh | Location

  /** The `switch` on the sort control's value: three values select their
      order and every other value falls to the `default` order, by name. */
  function ParseSortKey(value: string): (key: SortKey)
    ensures key == PriceLow <==> value == "price-low"
    ensures key == PriceHigh <==> value == "price-high"
    ensures key == Location <==> value == "location"
    ensures key == Name <==> value !in {"price-low", "price-high", "location"}
  {
    match value
    case "price-low" => PriceLow
    case "price-high" => PriceHigh
    case "location" => Location
    case _ => Name
  }

  /** The comparator handed to `sort` for each key: negative when `a` goes
      before `b`, zero when they tie, positive when `a` goes after `b`. The
      price keys compare prices upwards or downwards; the others compare
      locations or names with `localeCompare`. */
  function Compare(key: SortKey, a: Product, b: Product): (r: int)
    ensures key == PriceLow ==> (r < 0 <==> a.price < b.price) && (r == 0 <==> a.price == b.price)
    ensures key == PriceHigh ==> (r < 0 <==> a.price > b.price) && (r == 0 <==> a.price == b.price)
    ensures key == Location ==> r == LocaleCompare(a.location, b.location)
    ensures key == Name ==> r == LocaleCompare(a.name, b.name)
  {
    match key
    case PriceLow => a.price - b.price
    case PriceHigh => b.price - a.price
    case Location => LocaleCompare(a.location, b.location)
    case Name => LocaleCompare(a.name, b.name)
  }

  /** The comparator is consistent, as `sort` requires: its sign flips with
      its operands, and "no later than" and "tied with" are transitive. For
      the string keys this uses only the order laws of `localeCompare`. */
  lemma CompareLaws(key: SortKey, a: Product, b: Product, c: Product)
    ensures Compare(key, a, b) < 0 <==> Compare(key, b, a) > 0
    ensures Compare(key, a, b) == 0 <==> Compare(key, b, a) == 0
    ensures Compare(key, a, b) <= 0 && Compare(key, b, c) <= 0 ==> Compare(key, a, c) <= 0
    ensures Compare(key, a, b) == 0 && Compare(key, b, c) == 0 ==> Compare(key, a, c) == 0
  {
    match key
    case Location =>
      StringOrderLaws(a.location, b.location, c.location);
    case Name =>
      StringOrderLaws(a.name, b.name, c.name);
    case _ =>
  }

  /** The consistency laws for `localeCompare`, from antisymmetry and
      transitivity alone. */
  lemma StringOrderLaws(x: string, y: string, z: string)
    ensures LocaleCompare(x, y) < 0 <==> LocaleCompare(y, x) > 0
    ensures LocaleCompare(x, y) == 0 <==> LocaleCompare(y, x) == 0
    ensures LocaleCompare(x, y) <= 0 && LocaleCompare(y, z) <= 0 ==> LocaleCompare(x, z) <= 0
    ensures LocaleCompare(x, y) == 0 && LocaleCompare(y, z) == 0 ==> LocaleCompare(x, z) == 0
  {
    LocaleCompareAntisymmetric(x, y);
    LocaleCompareAntisymmetric(y, z);
    LocaleCompareAntisymmetric(x, z);
    if LocaleCompare(x, y) <= 0 && LocaleCompare(y, z) <= 0 {
      LocaleCompareTransitive(x, y, z);
    }
    if LocaleCompare(x, y) == 0 && LocaleCompare(y, z) == 0 {
      LocaleCompareTransitive(z, y, x);
    }
  }

  /** A comparator in the sense of `Array.prototype.sort`. */
  type Comparator = (Product, Product) -> int

  /** `cmp` is consistent, as `sort` requires: its sign flips with its
      operands, and "no later than" and "tied with" are transitive. */
  ghost predicate Consistent(cmp: Comparator) {
    && (forall a, b :: cmp(a, b) < 0 <==> cmp(b, a) > 0)
    && (forall a, b :: cmp(a, b) == 0 <==> cmp(b, a) == 0)
    && (forall a, b, c :: cmp(a, b) <= 0 && cmp(b, c) <= 0 ==> cmp(a, c) <= 0)
    && (forall a, b, c :: cmp(a, b) == 0 && cmp(b, c) == 0 ==> cmp(a, c) == 0)
  }

  /** The comparator `sort` is given for `key`: consistent, as the generic
      sorting lemmas below require, and agreeing with `Compare`. */
  function KeyOrder(key: SortKey): (cmp: Comparator)
    ensures Consistent(cmp)
    ensures forall a, b :: cmp(a, b) == Compare(key, a, b)
  {
    var cmp := (a: Product, b: Product) => Compare(key, a, b);
    ConsistentByLaws(key, cmp);
    cmp
  }

  lemma ConsistentByLaws(key: SortKey, cmp: Comparator)
    requires forall a, b :: cmp(a, b) == Compare(key, a, b)
    ensures Consistent(cmp)
  {
    forall a, b, c {
      CompareLaws(key, a, b, c);
    }
  }

  /** `s` is in ascending order under `cmp`. */
  ghost predicate Sorted(cmp: Comparator, s: seq<Product>) {
    forall i, j :: 0 <= i < j < |s| ==> cmp(s[i], s[j]) <= 0
  }

  /** The elements of `s` that tie with `v` under `cmp`, in their order in `s`. */
  function Ties(cmp: Comparator, s: seq<Product>, v: Product): seq<Product> {
    Filter(s, e => cmp(e, v) == 0)
  }

  /** Insert `x` into `r` after every element it does not strictly precede:
      one element longer (InsertCount, InsertAt, InsertSorted and InsertTies
      say what it holds and where `x` goes). */
  function Insert(cmp: Comparator, r: seq<Product>, x: Product): (t: seq<Product>)
    ensures |t| == |r| + 1
    decreases |r|
  {
    if r == [] || cmp(x, r[|r| - 1]) >= 0 then r + [x]
    else Insert(cmp, r[..|r| - 1], x) + [r[|r| - 1]]
  }

  /** Stable insertion sort: each element in turn, from the first, is inserted
      into the sorted prefix before it. The length is kept
      (StableSortPermutation, StableSortSorted and StableSortStable say what
      it holds and in which order). */
  function StableSort(cmp: Comparator, s: seq<Product>): (t: seq<Product>)
    ensures |t| == |s|
  {
    if s == [] then [] else Insert(cmp, StableSort(cmp, s[..|s| - 1]), s[|s| - 1])
  }

  lemma {:induction false} InsertCount(cmp: Comparator, r: seq<Product>, x: Product)
    ensures multiset(Insert(cmp, r, x)) == multiset(r) + multiset{x}
  {
    if r != [] && cmp(x, r[|r| - 1]) < 0 {
      InsertCount(cmp, r[..|r| - 1], x);
      assert r == r[..|r| - 1] + [r[|r| - 1]];
    }
  }

  /** Appending an element that no element precedes keeps a sequence sorted. */
  lemma SortedSnoc(cmp: Comparator, s: seq<Product>, y: Product)
    requires Sorted(cmp, s)
    requires forall i :: 0 <= i < |s| ==> cmp(s[i], y) <= 0
    ensures Sorted(cmp, s + [y])
  {
    var u := s + [y];
    forall i, j | 0 <= i < j < |u|
      ensures cmp(u[i], u[j]) <= 0
    {
      assert u[i] == s[i];
      if j < |s| {
        assert u[j] == s[j];
      }
    }
  }

  lemma {:induction false} InsertSorted(cmp: Comparator, r: seq<Product>, x: Product)
    requires Consistent(cmp)
    requires Sorted(cmp, r)
    ensures Sorted(cmp, Insert(cmp, r, x))
  {
    if r == [] {
    } else if cmp(x, r[|r| - 1]) >= 0 {
      var last := r[|r| - 1];
      forall i | 0 <= i < |r|
        ensures cmp(r[i], x) <= 0
      {
      }
      SortedSnoc(cmp, r, x);
    } else {
      var init, last := r[..|r| - 1], r[|r| - 1];
      var t := Insert(cmp, init, x);
      assert Sorted(cmp, init);
      InsertSorted(cmp, init, x);
      InsertCount(cmp, init, x);
      forall i | 0 <= i < |t|
        ensures cmp(t[i], last) <= 0
      {
        assert t[i] in multiset(t);
        if t[i] != x {
          assert t[i] in init;
        } else {
        }
      }
      SortedSnoc(cmp, t, last);
    }
  }

  lemma TiesConcat(cmp: Comparator, a: seq<Product>, b: seq<Product>, v: Product)
    ensures Ties(cmp, a + b, v) == Ties(cmp, a, v) + Ties(cmp, b, v)
  {
    FilterConcat(a, b, e => cmp(e, v) == 0);
  }

  /** Inserting `x` appends it to its own tie class and leaves the order of
      every tie class unchanged. */
  lemma {:induction false} InsertTies(cmp: Comparator, r: seq<Product>, x: Product, v: Product)
    requires Consistent(cmp)
    ensures Ties(cmp, Insert(cmp, r, x), v) == Ties(cmp, r, v) + Ties(cmp, [x], v)
  {
    if r == [] || cmp(x, r[|r| - 1]) >= 0 {
      TiesConcat(cmp, r, [x], v);
    } else {
      var init, last := r[..|r| - 1], r[|r| - 1];
      assert r == init + [last];
      InsertTies(cmp, init, x, v);
      TiesConcat(cmp, Insert(cmp, init, x), [last], v);
      TiesConcat(cmp, init, [last], v);
      TiesSwap(cmp, x, last, v);
    }
  }

  /** Two elements that do not tie with each other never both tie with `v`. */
  lemma TiesSwap(cmp: Comparator, x: Product, y: Product, v: Product)
    requires Consistent(cmp)
    requires cmp(x, y) < 0
    ensures Ties(cmp, [x], v) + Ties(cmp, [y], v) == Ties(cmp, [y], v) + Ties(cmp, [x], v)
  {
    if cmp(x, v) == 0 {
      assert Ties(cmp, [y], v) == [];
    } else {
      assert Ties(cmp, [x], v) == [];
    }
  }

  /** The sorted result is a permutation of the input. */
  lemma {:induction false} StableSortPermutation(cmp: Comparator, s: seq<Product>)
    ensures multiset(StableSort(cmp, s)) == multiset(s)
    ensures |StableSort(cmp, s)| == |s|
  {
    if s != [] {
      var init := s[..|s| - 1];
      StableSortPermutation(cmp, init);
      InsertCount(cmp, StableSort(cmp, init), s[|s| - 1]);
      assert s == init + [s[|s| - 1]];
    }
  }

  /** The sorted result is ascending under the key. */
  lemma {:induction false} StableSortSorted(cmp: Comparator, s: seq<Product>)
    requires Consistent(cmp)
    ensures Sorted(cmp, StableSort(cmp, s))
  {
    if s != [] {
      StableSortSorted(cmp, s[..|s| - 1]);
      InsertSorted(cmp, StableSort(cmp, s[..|s| - 1]), s[|s| - 1]);
    }
  }

  /** Stability: elements that tie under the key keep their input order. */
  lemma {:induction false} StableSortStable(cmp: Comparator, s: seq<Product>, v: Product)
    requires Consistent(cmp)
    ensures Ties(cmp, StableSort(cmp, s), v) == Ties(cmp, s, v)
  {
    if s != [] {
      var init := s[..|s| - 1];
      StableSortStable(cmp, init, v);
      InsertTies(cmp, StableSort(cmp, init), s[|s| - 1], v);
      assert s == init + [s[|s| - 1]];
      TiesConcat(cmp, init, [s[|s| - 1]], v);
    }
  }

  /** Where insertion puts `x`: right after the last element it does not
      strictly precede, that is, in front of the run of elements at the end of
      `r` that it strictly precedes. */
  lemma {:induction false} InsertAt(cmp: Comparator, r: seq<Product>, j: int, x: Product)
    requires 0 <= j <= |r|
    requires j == 0 || cmp(x, r[j - 1]) >= 0
    requires forall k :: j <= k < |r| ==> cmp(x, r[k]) < 0
    ensures Insert(cmp, r, x) == r[..j] + [x] + r[j..]
    decreases |r|
  {
    if j < |r| {
      var init := r[..|r| - 1];
      InsertAt(cmp, init, j, x);
      assert init[..j] == r[..j];
      assert init[j..] + [r[|r| - 1]] == r[j..];
    } else {
      assert r[..j] == r;
    }
  }

  /** The array after one pass holds the prefix, `x`, then the shifted rest. */
  lemma ShiftedLayout(b: seq<Product>, r: seq<Product>, i: int, j: int, x: Product)
    requires 0 <= j <= i == |r| < |b|
    requires forall k :: 0 <= k < j ==> b[k] == r[k]
    requires b[j] == x
    requires forall k :: j < k <= i ==> b[k] == r[k - 1]
    ensures b[..i + 1] == r[..j] + [x] + r[j..i]
  {
  }

  /** The shifting half of one insertion pass: the elements of the sorted
      prefix `a[..i]` that `x` strictly precedes move one place right, leaving
      a hole at `j` where `x` belongs. */
  method ShiftRight(a: array<Product>, i: int, x: Product, cmp: Comparator) returns (j: int)
    requires 0 <= i < a.Length
    modifies a
    ensures 0 <= j <= i
    ensures forall k :: 0 <= k < j ==> a[k] == old(a[k])
    ensures forall k :: j < k <= i ==> a[k] == old(a[k - 1])
    ensures forall k :: i < k < a.Length ==> a[k] == old(a[k])
    ensures j == 0 || cmp(x, old(a[j - 1])) >= 0
    ensures forall k :: j <= k < i ==> cmp(x, old(a[k])) < 0
  {
    ghost var r := a[..i];
    j := i;
    while j > 0 && cmp(x, a[j - 1]) < 0
      invariant 0 <= j <= i
      invariant forall k :: 0 <= k < j ==> a[k] == r[k]
      invariant forall k :: j < k <= i ==> a[k] == r[k - 1]
      invariant forall k :: i < k < a.Length ==> a[k] == old(a[k])
      invariant forall k :: j <= k < i ==> cmp(x, r[k]) < 0
    {
      a[j] := a[j - 1];
      j := j - 1;
    }
  }

  /** One pass of insertion sort: `a[i]` is moved left past every element of
      the sorted prefix `a[..i]` that it strictly precedes. */
  method InsertInPlace(a: array<Product>, i: int, cmp: Comparator)
    requires 0 <= i < a.Length
    modifies a
    ensures a[..i + 1] == Insert(cmp, old(a[..i]), old(a[i]))
    ensures forall k :: i < k < a.Length ==> a[k] == old(a[k])
  {
    var x := a[i];
    ghost var r := a[..i];
    var j := ShiftRight(a, i, x, cmp);
    InsertAt(cmp, r, j, x);
    a[j] := x;
    ShiftedLayout(a[..], r, i, j, x);
  }

  /** Sorting one more element inserts it into the sorted prefix. */
  lemma StableSortPrefix(cmp: Comparator, s: seq<Product>, i: int)
    requires 0 <= i < |s|
    ensures StableSort(cmp, s[..i + 1]) == Insert(cmp, StableSort(cmp, s[..i]), s[i])
  {
    assert s[..i + 1][..i] == s[..i];
  }

  /** `a.sort(cmp)`, by insertion: the array ends up holding the stable sort
      of what it held. */
  method SortInPlace(a: array<Product>, cmp: Comparator)
    modifies a
    ensures a[..] == StableSort(cmp, old(a[..]))
  {
    ghost var s := a[..];
    var i := 0;
    while i < a.Length
      invariant 0 <= i <= a.Length
      invariant a[..i] == StableSort(cmp, s[..i])
      invariant forall k :: i <= k < a.Length ==> a[k] == s[k]
    {
      InsertInPlace(a, i, cmp);
      StableSortPrefix(cmp, s, i);
      i := i + 1;
    }
    assert a[..] == a[..a.Length] && s[..a.Length] == s;
  }
}
