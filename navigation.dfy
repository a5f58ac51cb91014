/**
 * `setActiveNavigation`: from the page's path to the id of the navigation
 * link to highlight. Finding the element and adding its `active` class are
 * left to the page.
 */
module Navigation {
  import opened JsObject

  /** The page-name table of the navigation highlighter. */
  const PageMap: map<string, string> := map[
    "index.html" := "nav-home",
    "marketplace.html" := "nav-marketplace",
    "tracking.html" := "nav-tracking",
    "about.html" := "nav-about"
  ]

  /** Where the run of non-slash characters ending at `j` starts. */
  function SegmentStart(path: string, j: nat): (i: nat)
    requires j <= |path|
    ensures i <= j
    ensures forall k :: i <= k < j ==> path[k] != '/'
    ensures i == 0 || path[i - 1] == '/'
  {
    if j > 0 && path[j - 1] != '/' then SegmentStart(path, j - 1) else j
  }

  /** A slash-free run from `i` to `j` that starts after a slash or at the
      start is the run `SegmentStart` finds. */
  lemma SegmentStartAt(path: string, i: nat, j: nat)
    requires i <= j <= |path|
    requires forall k :: i <= k < j ==> path[k] != '/'
    requires i == 0 || path[i - 1] == '/'
    ensures SegmentStart(path, j) == i
  {
  }

  /** `path.split('/').pop()`: the piece of `path` after its last slash, or
      all of `path` when it has none. */
  function LastSegment(path: string): (seg: string)
    ensures '/' !in seg
    ensures |seg| <= |path| && seg == path[|path| - |seg|..]
    ensures |seg| == |path| || path[|path| - |seg| - 1] == '/'
  {
    path[SegmentStart(path, |path|)..]
  }

  /** The file name after the directory's slash is the last segment. */
  lemma LastSegmentOfFile(dir: string, name: string)
    requires '/' !in name
    ensures LastSegment(dir + "/" + name) == name
  {
    var path := dir + "/" + name;
    SegmentStartAt(path, |dir| + 1, |path|);
  }

  /** The current page's name; an empty last segment (a path ending in a
      slash) names the home page. */
  function CurrentPage(path: string): (page: string)
    ensures page != "" && '/' !in page
    ensures LastSegment(path) != "" ==> page == LastSegment(path)
    ensures LastSegment(path) == "" ==> page == "index.html"
  {
    var seg := LastSegment(path);
    HomeHasNoSlash();
    if seg == "" then "index.html" else seg
  }

  lemma HomeHasNoSlash()
    ensures '/' !in "index.html"
  {
    assert "index.html" == ['i', 'n', 'd', 'e', 'x', '.', 'h', 't', 'm', 'l'];
  }

  /** `pageMap[page] || pageMap['index.html']` with the table's own entries
      only: the page's link, or the home link for a page the table does not
      name. */
  function NavIdFor(page: string): (id: string)
    ensures id in PageMap.Values
    ensures page in PageMap ==> id == PageMap[page]
    ensures page !in PageMap ==> id == "nav-home"
  {
    if page in PageMap then PageMap[page] else PageMap["index.html"]
  }

  /** Each link belongs to exactly one page name, and the home link also to
      every name the table lacks. */
  lemma NavIdForTable(page: string)
    ensures NavIdFor(page) == "nav-marketplace" <==> page == "marketplace.html"
    ensures NavIdFor(page) == "nav-tracking" <==> page == "tracking.html"
    ensures NavIdFor(page) == "nav-about" <==> page == "about.html"
    ensures NavIdFor(page) == "nav-home" <==> page !in {"marketplace.html", "tracking.html", "about.html"}
  {
    PageMapInjective();
  }

  /** The navigation id for the page at `path`: the table's link for the
      path's last segment, and the home link for any segment the table lacks,
      the empty one included. */
  function ActiveNavId(path: string): (id: string)
    ensures LastSegment(path) in PageMap ==> id == PageMap[LastSegment(path)]
    ensures LastSegment(path) !in PageMap ==> id == "nav-home"
  {
    PageLookup(path);
    NavIdFor(CurrentPage(path))
  }

  lemma PageLookup(path: string)
    ensures var seg := LastSegment(path);
      && (seg in PageMap ==> NavIdFor(CurrentPage(path)) == PageMap[seg])
      && (seg !in PageMap ==> NavIdFor(CurrentPage(path)) == "nav-home")
  {
    SegmentLookup(LastSegment(path), CurrentPage(path));
  }

  /** Looking up the page an empty segment stands for is the same as looking
      up the segment itself and falling back to the home link. */
  lemma SegmentLookup(seg: string, page: string)
    requires seg != "" ==> page == seg
    requires seg == "" ==> page == "index.html"
    ensures seg in PageMap ==> NavIdFor(page) == PageMap[seg]
    ensures seg !in PageMap ==> NavIdFor(page) == "nav-home"
  {
    NoEmptyPageName();
  }

  lemma NoEmptyPageName()
    ensures "" !in PageMap
  {
    assert PageMap.Keys == {"index.html", "marketplace.html", "tracking.html", "about.html"};
    assert |"index.html"| > 0 && |"marketplace.html"| > 0 && |"tracking.html"| > 0 && |"about.html"| > 0;
  }

  /** Each of the four pages lights its own link and nothing else does; every
      other page name, and an empty one, lights the home link. */
  lemma ActiveNavIdTable(path: string)
    ensures ActiveNavId(path) == "nav-marketplace" <==> LastSegment(path) == "marketplace.html"
    ensures ActiveNavId(path) == "nav-tracking" <==> LastSegment(path) == "tracking.html"
    ensures ActiveNavId(path) == "nav-about" <==> LastSegment(path) == "about.html"
    ensures ActiveNavId(path) == "nav-home" <==>
      LastSegment(path) !in {"marketplace.html", "tracking.html", "about.html"}
  {
    var seg := LastSegment(path);
    NavIdForTable(CurrentPage(path));
    if seg == "" {
      assert "" != "marketplace.html" && "" != "tracking.html" && "" != "about.html";
    }
  }

  /** The four page names map to four different links. */
  lemma PageMapInjective()
    ensures forall p, q :: p in PageMap && q in PageMap && PageMap[p] == PageMap[q] ==> p == q
    ensures "" !in PageMap
  {
    assert forall p :: p in PageMap ==> p in {"index.html", "marketplace.html", "tracking.html", "about.html"};
    assert "index.html"[0] != "about.html"[0];
  }

  /** No page name of the table is an inherited property name. */
  lemma PageNamesNotInherited()
    ensures forall p :: p in PageMap ==> p !in ObjectPrototypeProperties
  {
    assert "isPrototypeOf"[0] != "tracking.html"[0];
    assert "__defineGetter__"[0] != "marketplace.html"[0];
  }

  /** The marketplace page in any directory lights the marketplace link. */
  lemma MarketplacePage(dir: string)
    ensures ActiveNavId(dir + "/marketplace.html") == "nav-marketplace"
  {
    LastSegmentOfFile(dir, "marketplace.html");
    assert dir + "/" + "marketplace.html" == dir + "/marketplace.html";
    assert "marketplace.html" in PageMap;
  }

  /** Which link the script highlights, if any. */
  datatype Highlight = Link(id: string) | NoLink

  /** The lookup as written: `pageMap[currentPage] || pageMap['index.html']`.
      A page name that is an Object.prototype property finds a function or an
      object instead of an id; no element has the id it converts to, so no
      link is highlighted. */
  function HighlightAsWritten(path: string): (h: Highlight)
    ensures CurrentPage(path) in ObjectPrototypeProperties ==> h == NoLink
    ensures CurrentPage(path) !in ObjectPrototypeProperties ==> h == Link(ActiveNavId(path))
  {
    PageNamesNotInherited();
    match Get(PageMap, CurrentPage(path))
    case Own(id) => Link(id)
    case Inherited(_) => NoLink
    case Absent => Link(PageMap["index.html"])
  }

  /** A page named `toString` highlights nothing, where the fallback to the
      home link was meant. */
  lemma ToStringPageHighlightsNothing()
    ensures HighlightAsWritten("/toString") == NoLink
    ensures ActiveNavId("/toString") == "nav-home"
  {
    LastSegmentOfFile("", "toString");
    assert "" + "/" + "toString" == "/toString";
  }
}
