/**
  The artwork listing of an account: which links on a listing page are artworks,
  how the walk de-duplicates them across pages, and how the "next page" control
  is chosen (`get_total_pages` and the pagination step of `download_all`). The
  browser is replaced by what it shows: the hrefs of a page's anchors and, for
  each search for the next-page control, the candidates it finds.
*/
module Listing {
  import opened Wrappers
  import opened Text

  const SiteRoot: string := "https://www.pixiv.net"
  const ArtworkPath: string := "/en/artworks/"

  // ---------------------------------------------------------------------------
  // artwork links

  /** The run of digits at the end of `s`. */
  function TrailingDigits(s: string): (d: string)
    ensures |d| <= |s|
    decreases |s|
  {
    if |s| > 0 && IsAsciiDigit(s[|s| - 1]) then TrailingDigits(s[..|s| - 1]) + [s[|s| - 1]]
    else ""
  }

  /** The trailing run is a suffix of digits that cannot be extended to the left. */
  lemma {:induction false} TrailingDigitsShape(s: string)
    ensures var d := TrailingDigits(s);
      && d == s[|s| - |d|..] && AllDigits(d)
      && (|d| == |s| || !IsAsciiDigit(s[|s| - |d| - 1]))
    decreases |s|
  {
    if |s| > 0 && IsAsciiDigit(s[|s| - 1]) {
      var init := s[..|s| - 1];
      TrailingDigitsShape(init);
      var d := TrailingDigits(init);
      TrailingDigitsStep(s);
      assert init[|init| - |d|..] == s[|s| - 1 - |d|..|s| - 1];
      assert s[|s| - 1 - |d|..] == s[|s| - 1 - |d|..|s| - 1] + [s[|s| - 1]];
    }
  }

  /** `/en/artworks/\d+` right at the end of `s`. */
  predicate EndsWithArtworkId(s: string)
  {
    var d := TrailingDigits(s);
    |d| > 0 && EndsWith(s[..|s| - |d|], ArtworkPath)
  }

  /** `re.search(r"/en/artworks/\d+$", href)`; `$` also matches just before a final newline. */
  predicate IsArtworkHref(href: string)
  {
    EndsWithArtworkId(href) || (|href| > 0 && href[|href| - 1] == '\n' && EndsWithArtworkId(href[..|href| - 1]))
  }

  /** An artwork path after any prefix is an artwork link. */
  lemma ArtworkHrefAccepted(prefix: string, id: string)
    requires IsDecimal(id)
    ensures IsArtworkHref(prefix + ArtworkPath + id)
  {
    var s := prefix + ArtworkPath + id;
    TrailingDigitsOf(prefix + ArtworkPath, id);
    assert s[..|s| - |id|] == prefix + ArtworkPath;
  }

  /** A link that ends in neither a digit nor a newline is no artwork link. */
  lemma ArtworkHrefRejected(href: string)
    requires |href| > 0 && !IsAsciiDigit(href[|href| - 1]) && href[|href| - 1] != '\n'
    ensures !IsArtworkHref(href)
  {
  }

  lemma {:induction false} TrailingDigitsOf(x: string, d: string)
    requires AllDigits(d)
    requires x == [] || !IsAsciiDigit(x[|x| - 1])
    ensures TrailingDigits(x + d) == d
    decreases |d|
  {
    if |d| > 0 {
      var init := d[..|d| - 1];
      TrailingDigitsOf(x, init);
      assert (x + d)[..|x + d| - 1] == x + init;
      TrailingDigitsStep(x + d);
      assert d == init + [d[|d| - 1]];
    } else {
      assert x + d == x;
    }
  }

  lemma TrailingDigitsStep(s: string)
    requires |s| > 0 && IsAsciiDigit(s[|s| - 1])
    ensures TrailingDigits(s) == TrailingDigits(s[..|s| - 1]) + [s[|s| - 1]]
  {
  }

  /** The artwork URLs a listing page links to, from its hrefs in document order. */
  function LinkedArtworks(hrefs: seq<string>): (r: set<string>)
    ensures forall u :: u in r ==> exists k :: 0 <= k < |hrefs| && IsArtworkHref(hrefs[k]) && u == SiteRoot + hrefs[k]
    decreases |hrefs|
  {
    if hrefs == [] then {}
    else
      var last := hrefs[|hrefs| - 1];
      var before := LinkedArtworks(hrefs[..|hrefs| - 1]);
      assert forall k :: 0 <= k < |hrefs| - 1 ==> hrefs[..|hrefs| - 1][k] == hrefs[k];
      before + (if IsArtworkHref(last) then {SiteRoot + last} else {})
  }

  /** One more href of a page adds its artwork URL, if it is one. */
  lemma LinkedArtworksStep(hrefs: seq<string>, i: nat)
    requires i < |hrefs|
    ensures LinkedArtworks(hrefs[..i + 1])
         == LinkedArtworks(hrefs[..i]) + (if IsArtworkHref(hrefs[i]) then {SiteRoot + hrefs[i]} else {})
  {
    assert hrefs[..i + 1][..i] == hrefs[..i];
  }

  /** Every artwork href of a page contributes its full URL. */
  lemma {:induction false} LinkedArtworksComplete(hrefs: seq<string>, k: nat)
    requires k < |hrefs| && IsArtworkHref(hrefs[k])
    ensures SiteRoot + hrefs[k] in LinkedArtworks(hrefs)
    decreases |hrefs|
  {
    if k < |hrefs| - 1 {
      LinkedArtworksComplete(hrefs[..|hrefs| - 1], k);
    }
  }

  /** What has been seen after walking `pages` (each given by its hrefs) from `seen0`. */
  function SeenAfter(seen0: set<string>, pages: seq<seq<string>>): set<string>
    decreases |pages|
  {
    if pages == [] then seen0 else SeenAfter(seen0, pages[..|pages| - 1]) + LinkedArtworks(pages[|pages| - 1])
  }

  /** The artworks page k adds: those it links to that no earlier page did. */
  function NewOnPage(seen0: set<string>, pages: seq<seq<string>>, k: nat): set<string>
    requires k < |pages|
  {
    LinkedArtworks(pages[k]) - SeenAfter(seen0, pages[..k])
  }

  lemma {:induction false} SeenAfterGrows(seen0: set<string>, pages: seq<seq<string>>, k: nat)
    requires k <= |pages|
    ensures SeenAfter(seen0, pages[..k]) <= SeenAfter(seen0, pages)
    decreases |pages|
  {
    if k < |pages| {
      SeenAfterGrows(seen0, pages[..|pages| - 1], k);
      assert pages[..|pages| - 1][..k] == pages[..k];
    } else {
      assert pages[..k] == pages;
    }
  }

  /**
    The walk never queues an artwork twice: the sets of new artworks of two
    different pages are disjoint, and none of them was seen before the walk.
  */
  lemma NewPagesDisjoint(seen0: set<string>, pages: seq<seq<string>>, k: nat, l: nat)
    requires k < l < |pages|
    ensures NewOnPage(seen0, pages, k) !! NewOnPage(seen0, pages, l)
    ensures NewOnPage(seen0, pages, k) !! seen0
  {
    var prefix := pages[..l];
    SeenAfterGrows(seen0, prefix, k + 1);
    assert prefix[..k + 1] == pages[..k + 1];
    assert pages[..k + 1][..k] == pages[..k];
    assert SeenAfter(seen0, pages[..k + 1]) == SeenAfter(seen0, pages[..k]) + LinkedArtworks(pages[k]);
    SeenAfterGrows(seen0, pages[..k], 0);
    assert pages[..k][..0] == [];
  }

  // ---------------------------------------------------------------------------
  // the next-page control

  /** What one search for the next-page control sees. */
  datatype NextLookup = NextLookup(
    navShown: bool,                  // the pagination bar appeared in time
    candidates: seq<Option<string>>, // hrefs of the matching anchors, in document order (None: no href)
    urlChanged: bool)                // after the click, the URL changed in time

  /** `f"?p={page_num + 1}"`. */
  function NextPageMarker(pageNum: nat): string
  {
    "?p=" + NatToString(pageNum + 1)
  }

  /** The candidate's href names the page after `pageNum`. */
  predicate PointsToNext(href: Option<string>, pageNum: nat)
  {
    href.Some? && Contains(href.value, NextPageMarker(pageNum))
  }

  predicate HasNext(candidates: seq<Option<string>>, pageNum: nat)
  {
    exists k :: 0 <= k < |candidates| && PointsToNext(candidates[k], pageNum)
  }

  /** The search finds the control and the click moves on. */
  predicate FindsNext(view: NextLookup, pageNum: nat)
  {
    HasNext(view.candidates, pageNum) && view.urlChanged
  }

  /** The walk advances from `pageNum`: the bar is there, and the search finds the control and moves on. */
  predicate Advances(view: NextLookup, pageNum: nat)
  {
    view.navShown && FindsNext(view, pageNum)
  }

  /** The first candidate whose href holds `?p=<pageNum + 1>`; None when there is none. */
  method SelectNext(candidates: seq<Option<string>>, pageNum: nat) returns (chosen: Option<nat>)
    ensures chosen.Some? ==>
      && chosen.value < |candidates|
      && PointsToNext(candidates[chosen.value], pageNum)
      && forall k :: 0 <= k < chosen.value ==> !PointsToNext(candidates[k], pageNum)
    ensures chosen.None? <==> !HasNext(candidates, pageNum)
  {
    var marker := NextPageMarker(pageNum);
    chosen := None;
    var i := 0;
    while i < |candidates|
      invariant 0 <= i <= |candidates|
      invariant forall k :: 0 <= k < i ==> !PointsToNext(candidates[k], pageNum)
    {
      var href := candidates[i];
      if href.Some? && Contains(href.value, marker) {
        chosen := Some(i);
        return;
      }
      i := i + 1;
    }
  }

  /**
    `get_total_pages`: the number of the page the walk stops on. `views[k - 1]`
    is what the walk sees on page k; the listing is the pages `views` covers.
    The result is 1 plus the number of pages the walk advanced from, in a row.
  */
  method TotalPages(views: seq<NextLookup>) returns (pages: nat)
    ensures 1 <= pages <= |views| + 1
    ensures forall k :: 0 <= k < pages - 1 ==> Advances(views[k], k + 1)
    ensures pages <= |views| ==> !Advances(views[pages - 1], pages)
  {
    var pageNum := 1;
    while pageNum <= |views|
      invariant 1 <= pageNum <= |views| + 1
      invariant forall k :: 0 <= k < pageNum - 1 ==> Advances(views[k], k + 1)
    {
      var view := views[pageNum - 1];
      if !view.navShown || |view.candidates| == 0 {
        break;
      }
      var next := SelectNext(view.candidates, pageNum);
      if next.None? || !view.urlChanged {
        break;
      }
      pageNum := pageNum + 1;
    }
    pages := pageNum;
  }

  /**
    `?p=<n + 1>` is looked for as a substring, so on page 1 a link to page 20
    (or 21, ...) is taken for the link to page 2 when it comes first.
  */
  lemma LongerPageNumberAccepted(prefix: string)
    ensures PointsToNext(Some(prefix + "?p=20"), 1)
    ensures PointsToNext(Some(prefix + "?p=2"), 1)
  {
    assert NatToString(2) == "2";
    assert NextPageMarker(1) == "?p=2";
    ContainsInfix(prefix, "?p=2", "0");
    assert prefix + "?p=20" == prefix + "?p=2" + "0";
    ContainsInfix(prefix, "?p=2", "");
    assert prefix + "?p=2" == prefix + "?p=2" + "";
  }
}
