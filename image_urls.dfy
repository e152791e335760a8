/**
  How `get_image_urls` turns what it reads on an artwork page into the list of
  original-image URLs. The three strings it pulls out of the page are inputs:
  the text of the span in the "Preview" element, the `content` of the og:image
  meta tag, and the first match of the original-image pattern in the page
  source (given by its groups). The two searches it runs over the og:image
  content (`_p(\d+)\.` and the date path) are modelled.
*/
module ImageUrls {
  import opened Wrappers
  import opened Text

  const PximgHost: string := "i.pximg.net"
  const OriginalPrefix: string := "https://i.pximg.net/img-original/img/"
  /** The extension assumed when the URL is rebuilt from the og:image date path. */
  const FallbackExtension: string := "png"
  const Extensions: set<string> := {"png", "jpg", "jpeg", "gif"}

  /** `\d{4}/\d{2}/\d{2}/\d{2}/\d{2}/\d{2}`: upload year, month, day, hour, minute, second. */
  predicate IsDatePath(d: string)
  {
    |d| == 19 &&
    forall i :: 0 <= i < 19 ==> if i in {4, 7, 10, 13, 16} then d[i] == '/' else IsAsciiDigit(d[i])
  }

  /**
    The first match of `https://i\.pximg\.net/img-original/img/<date path>/(\d+_p\d+\.(png|jpg|jpeg|gif))`
    in the page source, by its parts.
  */
  datatype OriginalMatch = OriginalMatch(datePath: string, illustId: string, page: string, ext: string)
  {
    /** The matched text, `group(0)`. */
    function Matched(): string
    {
      OriginalPrefix + datePath + "/" + illustId + "_p" + page + "." + ext
    }

    /** What the pattern guarantees of its parts. */
    predicate WellFormed()
    {
      IsDatePath(datePath) && IsDecimal(illustId) && IsDecimal(page) && ext in Extensions
    }
  }

  datatype ExtractError =
    | MalformedPageCount  // `int()` of the preview field raised: the generic handler also ends the session
    | NoDatePath          // og:image on i.pximg.net but without a date path
    | NoImagePattern      // neither the original-image pattern nor an i.pximg.net og:image

  // ---------------------------------------------------------------------------
  // page count

  /**
    The page count the preview span gives: 1 without a span or without '/' in
    its text, else `int()` of the field after the first '/'; None where `int()` raises.
  */
  function PreviewPageCount(preview: Option<string>): Option<int>
  {
    match preview
    case None => Some(1)
    case Some(text) =>
      if '/' in text then
        var fields := Split(text, "/");
        assert |fields| >= 2 by { SecondPiece(text, '/'); }
        ParseInt(fields[1])
      else Some(1)
  }

  /** `_p(\d+)\.` matched at the start of `s`: the number it captures. */
  function PageIndexAt(s: string): Option<nat>
  {
    if StartsWith(s, "_p") then
      var digits := LeadingDigits(s[2..]);
      if |digits| > 0 && 2 + |digits| < |s| && s[2 + |digits|] == '.' then Some(DigitsValue(digits))
      else None
    else None
  }

  /** `re.search(r"_p(\d+)\.", s)`: the number captured by the leftmost match. */
  function SearchPageIndex(s: string): Option<nat>
    decreases |s|
  {
    if |s| == 0 then None
    else if PageIndexAt(s).Some? then PageIndexAt(s)
    else SearchPageIndex(s[1..])
  }

  /**
    The og:image correction: only while the count is still 1, and only for an
    i.pximg.net image whose name holds `_p<K>.`, the count becomes max(1, K + 1).
  */
  function AdjustedByOgImage(count: int, ogImage: Option<string>): (r: int)
    ensures r >= count
    ensures count != 1 ==> r == count
    ensures ogImage.None? || !Contains(ogImage.value, PximgHost) ==> r == count
    ensures count == 1 && ogImage.Some? && Contains(ogImage.value, PximgHost) ==>
      r == match SearchPageIndex(ogImage.value) case Some(k) => k + 1 case None => 1
  {
    if ogImage.Some? && Contains(ogImage.value, PximgHost) && count == 1 then
      match SearchPageIndex(ogImage.value)
      case Some(k) => if count < k + 1 then k + 1 else count
      case None => count
    else count
  }

  /** The page count of the artwork; None where `int()` raises on the preview field. */
  function PageCount(preview: Option<string>, ogImage: Option<string>): Option<int>
  {
    match PreviewPageCount(preview)
    case None => None
    case Some(count) => Some(AdjustedByOgImage(count, ogImage))
  }

  // ---------------------------------------------------------------------------
  // base URL and extension

  /** `img/(\d{4}/\d{2}/\d{2}/\d{2}/\d{2}/\d{2})` matched at the start of `s`: the date path. */
  function DatePathAt(s: string): Option<string>
  {
    if StartsWith(s, "img/") && |s| >= 23 && IsDatePath(s[4..23]) then Some(s[4..23]) else None
  }

  /** `re.search` of the date-path pattern: the date path of the leftmost match. */
  function SearchDatePath(s: string): (r: Option<string>)
    ensures r.Some? ==> IsDatePath(r.value)
    ensures |s| < 23 ==> r.None?
    decreases |s|
  {
    if |s| == 0 then None
    else if DatePathAt(s).Some? then DatePathAt(s)
    else SearchDatePath(s[1..])
  }

  /**
    The URL prefix before `_p<i>.` and the extension: from the original-image
    match when there is one, else rebuilt from the og:image date path and the
    artwork id (the last segment of the artwork URL) with extension png.
  */
  function BaseAndExtension(artworkUrl: string, ogImage: Option<string>, original: Option<OriginalMatch>)
    : Result<(string, string), ExtractError>
  {
    match original
    case Some(m) => Success((BeforeLast(m.Matched(), "_p"), LastSegment(m.ext, '.')))
    case None =>
      var illustId := LastSegment(artworkUrl, '/');
      if ogImage.Some? && Contains(ogImage.value, PximgHost) then
        match SearchDatePath(ogImage.value)
        case Some(datePath) => Success((OriginalPrefix + datePath + "/" + illustId, FallbackExtension))
        case None => Failure(NoDatePath)
      else Failure(NoImagePattern)
  }

  // ---------------------------------------------------------------------------
  // the list

  /** The URL of page `i` of an artwork: `<base>_p<i>.<ext>`. */
  function PageUrl(base: string, ext: string, i: nat): string
  {
    base + "_p" + NatToString(i) + "." + ext
  }

  /** `[f"{base}_p{i}.{ext}" for i in range(count)]`. */
  function ImageUrlList(base: string, ext: string, count: int): (urls: seq<string>)
    ensures |urls| == if count > 0 then count else 0
    decreases if count > 0 then count else 0
  {
    if count <= 0 then [] else ImageUrlList(base, ext, count - 1) + [PageUrl(base, ext, count - 1)]
  }

  /**
    The URL derivation of `get_image_urls` once the artwork page is loaded. A
    success with an empty list (a page count below 1) is what the caller
    reports as "Failed to extract image URLs".
  */
  function DeriveImageUrls(artworkUrl: string, preview: Option<string>, ogImage: Option<string>,
                           original: Option<OriginalMatch>): Result<seq<string>, ExtractError>
  {
    match PageCount(preview, ogImage)
    case None => Failure(MalformedPageCount)
    case Some(count) =>
      match BaseAndExtension(artworkUrl, ogImage, original)
      case Failure(e) => Failure(e)
      case Success((base, ext)) => Success(ImageUrlList(base, ext, count))
  }

  // ---------------------------------------------------------------------------
  // properties

  /** The pages of one artwork have pairwise different URLs. */
  lemma PageUrlsDistinct(base: string, ext: string, i: nat, j: nat)
    requires i != j
    ensures PageUrl(base, ext, i) != PageUrl(base, ext, j)
  {
    var p := base + "_p";
    var di, dj := NatToString(i), NatToString(j);
    var x, y := di + "." + ext, dj + "." + ext;
    assert PageUrl(base, ext, i) == p + x && PageUrl(base, ext, j) == p + y;
    assert x != y by {
      if |di| < |dj| {
        assert x[|di|] == '.' && y[|di|] == dj[|di|];
      } else if |dj| < |di| {
        assert y[|dj|] == '.' && x[|dj|] == di[|dj|];
      } else {
        assert di != dj by {
          if di == dj {
            NatToStringInjective(i, j);
          }
        }
        assert di == x[..|di|] && dj == y[..|dj|];
      }
    }
    assert (p + x)[|p|..] == x && (p + y)[|p|..] == y;
  }

  /** Entry i of the list is page i's URL. */
  lemma {:induction false} ImageUrlListEntries(base: string, ext: string, count: int)
    ensures forall i :: 0 <= i < |ImageUrlList(base, ext, count)| ==>
              ImageUrlList(base, ext, count)[i] == PageUrl(base, ext, i)
    decreases if count > 0 then count else 0
  {
    if count > 0 {
      ImageUrlListEntries(base, ext, count - 1);
      var prev := ImageUrlList(base, ext, count - 1);
      assert ImageUrlList(base, ext, count) == prev + [PageUrl(base, ext, count - 1)];
    }
  }

  /**
    Entry i of the list is page i's URL, the list is as long as the page count
    (none when it is below 1), and no two entries coincide.
  */
  lemma ImageUrlListShape(base: string, ext: string, count: int)
    ensures |ImageUrlList(base, ext, count)| == if count > 0 then count else 0
    ensures forall i :: 0 <= i < |ImageUrlList(base, ext, count)| ==>
              ImageUrlList(base, ext, count)[i] == PageUrl(base, ext, i)
    ensures forall i, j :: 0 <= i < j < |ImageUrlList(base, ext, count)| ==>
              ImageUrlList(base, ext, count)[i] != ImageUrlList(base, ext, count)[j]
  {
    var urls := ImageUrlList(base, ext, count);
    ImageUrlListEntries(base, ext, count);
    forall i, j | 0 <= i < j < |urls| ensures urls[i] != urls[j] {
      PageUrlsDistinct(base, ext, i, j);
    }
  }

  /** The id and the extension of a well-formed match hold none of the separators. */
  lemma MatchParts(m: OriginalMatch)
    requires m.WellFormed()
    ensures '/' !in m.illustId && '_' !in m.illustId
    ensures '/' !in m.ext && '_' !in m.ext && '.' !in m.ext
  {
    assert forall k :: 0 <= k < |m.illustId| ==> IsAsciiDigit(m.illustId[k]);
    assert m.ext == "png" || m.ext == "jpg" || m.ext == "jpeg" || m.ext == "gif";
  }

  /** The base cut from a well-formed original-image match is the URL up to the artwork id. */
  lemma OriginalBase(m: OriginalMatch)
    requires m.WellFormed()
    ensures BeforeLast(m.Matched(), "_p") == OriginalPrefix + m.datePath + "/" + m.illustId
    ensures LastSegment(m.ext, '.') == m.ext
  {
    var a := OriginalPrefix + m.datePath + "/" + m.illustId;
    var b := m.page + "." + m.ext;
    assert m.Matched() == a + "_p" + b;
    MatchParts(m);
    assert '_' !in b by {
      assert forall k :: 0 <= k < |b| ==> b[k] == '.' || IsAsciiDigit(b[k]) || b[k] in m.ext;
    }
    RFindAfter(a, "_p", b);
    LastSegmentWhole(m.ext, '.');
  }

  /** The page count read from a preview such as "1/12": the field after the first '/'. */
  lemma PreviewCountIsSecondField(text: string)
    requires '/' in text
    ensures PreviewPageCount(Some(text)) == ParseInt(BeforeFirst(AfterFirst(text, '/'), '/'))
  {
    SecondPiece(text, '/');
  }

  /** "<i>/<n>" gives n pages, whatever og:image says, when n is not 1. */
  lemma PreviewCountWins(i: nat, n: nat, ogImage: Option<string>)
    requires n != 1
    ensures PageCount(Some(NatToString(i) + "/" + NatToString(n)), ogImage) == Some(n)
  {
    var text := NatToString(i) + "/" + NatToString(n);
    assert text[|NatToString(i)|] == '/';
    ContainsChar(NatToString(i), '/');
    ContainsChar(NatToString(n), '/');
    assert '/' !in NatToString(i) && '/' !in NatToString(n);
    CutAtFirst(NatToString(i), '/', NatToString(n));
    PreviewCountIsSecondField(text);
    BeforeFirstWhole(NatToString(n), '/');
    ParseIntOfNatToString(n);
  }

  /** `_p<k>.` at the very start is matched there, and read as k. */
  lemma PageIndexAtNumber(k: nat, rest: string)
    ensures PageIndexAt("_p" + NatToString(k) + "." + rest) == Some(k)
  {
    var s := "_p" + NatToString(k) + "." + rest;
    var d := NatToString(k);
    assert s == "_p" + (d + ("." + rest));
    assert s[2..] == d + ("." + rest);
    LeadingDigitsOf(d, "." + rest);
    assert s[2 + |d|] == '.';
    DigitsValueOfNatToString(k);
  }

  /** A text that does not start with '_' is searched from its second character on. */
  lemma SearchPageIndexStep(s: string)
    requires |s| > 0 && s[0] != '_'
    ensures SearchPageIndex(s) == SearchPageIndex(s[1..])
  {
    assert !StartsWith(s, "_p");
  }

  /** The search skips a text without '_'. */
  lemma {:induction false} SearchSkips(a: string, t: string)
    requires '_' !in a
    ensures SearchPageIndex(a + t) == SearchPageIndex(t)
    decreases |a|
  {
    if |a| > 0 {
      assert (a + t)[0] == a[0];
      SearchPageIndexStep(a + t);
      SearchSkips(a[1..], t);
      assert (a + t)[1..] == a[1..] + t;
    } else {
      assert a + t == t;
    }
  }

  /** `_p<k>.` after a text without '_' is found, and read as k. */
  lemma SearchPageIndexAfter(a: string, k: nat, rest: string)
    requires '_' !in a
    ensures SearchPageIndex(a + "_p" + NatToString(k) + "." + rest) == Some(k)
  {
    var t := "_p" + NatToString(k) + "." + rest;
    PageIndexAtNumber(k, rest);
    SearchSkips(a, t);
    assert a + "_p" + NatToString(k) + "." + rest == a + t;
  }

  /** The file name of page i: `<id>_p<i>.<ext>`, the part after the last '/'. */
  lemma PageFileName(prefix: string, id: string, ext: string, i: nat)
    requires '/' !in id && '/' !in ext
    ensures LastSegment(PageUrl(prefix + "/" + id, ext, i), '/') == id + "_p" + NatToString(i) + "." + ext
  {
    var tail := id + "_p" + NatToString(i) + "." + ext;
    assert '/' !in tail by {
      assert forall k :: 0 <= k < |tail| ==>
        tail[k] in id || tail[k] == '_' || tail[k] == 'p' || tail[k] == '.' || IsAsciiDigit(tail[k]) || tail[k] in ext;
    }
    assert PageUrl(prefix + "/" + id, ext, i) == prefix + ['/'] + tail;
    LastSegmentAfter(prefix, '/', tail);
  }

  /** Once the count and the base are known, the list is the one built from them. */
  lemma DeriveSucceeds(artworkUrl: string, preview: Option<string>, ogImage: Option<string>,
                       original: Option<OriginalMatch>, base: string, ext: string)
    requires PageCount(preview, ogImage).Some?
    requires BaseAndExtension(artworkUrl, ogImage, original) == Success((base, ext))
    ensures DeriveImageUrls(artworkUrl, preview, ogImage, original)
      == Success(ImageUrlList(base, ext, PageCount(preview, ogImage).value))
  {
  }

  /** Every entry of a list under `<prefix>/<id>` is page i's URL and is stored under its own file name. */
  lemma ListFileNames(prefix: string, id: string, ext: string, count: int)
    requires '/' !in id && '/' !in ext
    ensures var urls := ImageUrlList(prefix + "/" + id, ext, count);
      forall i :: 0 <= i < |urls| ==>
        && urls[i] == prefix + "/" + id + "_p" + NatToString(i) + "." + ext
        && LastSegment(urls[i], '/') == id + "_p" + NatToString(i) + "." + ext
  {
    var urls := ImageUrlList(prefix + "/" + id, ext, count);
    ImageUrlListEntries(prefix + "/" + id, ext, count);
    forall i | 0 <= i < |urls|
      ensures urls[i] == prefix + "/" + id + "_p" + NatToString(i) + "." + ext
      ensures LastSegment(urls[i], '/') == id + "_p" + NatToString(i) + "." + ext
    {
      assert urls[i] == PageUrl(prefix + "/" + id, ext, i);
      PageFileName(prefix, id, ext, i);
    }
  }

  /**
    With an original-image match, page i is
    `https://i.pximg.net/img-original/img/<date path>/<id>_p<i>.<ext>`, stored as
    `<id>_p<i>.<ext>`, and the page number written into that file name is read
    back as i by the same `_p(\d+)\.` search applied to og:image.
  */
  lemma OriginalImageUrls(artworkUrl: string, preview: Option<string>, ogImage: Option<string>, m: OriginalMatch)
    requires m.WellFormed() && PageCount(preview, ogImage).Some?
    ensures var urls := DeriveImageUrls(artworkUrl, preview, ogImage, Some(m));
      var count := PageCount(preview, ogImage).value;
      && urls.Success?
      && |urls.value| == (if count > 0 then count else 0)
      && forall i :: 0 <= i < |urls.value| ==>
           && urls.value[i] == OriginalPrefix + m.datePath + "/" + m.illustId + "_p" + NatToString(i) + "." + m.ext
           && LastSegment(urls.value[i], '/') == m.illustId + "_p" + NatToString(i) + "." + m.ext
           && SearchPageIndex(LastSegment(urls.value[i], '/')) == Some(i)
  {
    OriginalBase(m);
    var count := PageCount(preview, ogImage).value;
    var prefix := OriginalPrefix + m.datePath;
    DeriveSucceeds(artworkUrl, preview, ogImage, Some(m), prefix + "/" + m.illustId, m.ext);
    var urls := ImageUrlList(prefix + "/" + m.illustId, m.ext, count);
    MatchParts(m);
    ListFileNames(prefix, m.illustId, m.ext, count);
    forall i | 0 <= i < |urls|
      ensures SearchPageIndex(m.illustId + "_p" + NatToString(i) + "." + m.ext) == Some(i)
    {
      SearchPageIndexAfter(m.illustId, i, m.ext);
    }
  }

  /**
    Without an original-image match, an i.pximg.net og:image with a date path
    gives `count` URLs under that date path, named after the artwork id, all png;
    a single-page artwork gets exactly one.
  */
  lemma FallbackImageUrls(artworkUrl: string, preview: Option<string>, og: string)
    requires PageCount(preview, Some(og)).Some?
    requires Contains(og, PximgHost) && SearchDatePath(og).Some?
    ensures var urls := DeriveImageUrls(artworkUrl, preview, Some(og), None);
      var count := PageCount(preview, Some(og)).value;
      var id := LastSegment(artworkUrl, '/');
      && urls.Success?
      && |urls.value| == (if count > 0 then count else 0)
      && (count == 1 ==> |urls.value| == 1)
      && forall i :: 0 <= i < |urls.value| ==>
           && urls.value[i] == OriginalPrefix + SearchDatePath(og).value + "/" + id + "_p" + NatToString(i) + "." + FallbackExtension
           && LastSegment(urls.value[i], '/') == id + "_p" + NatToString(i) + "." + FallbackExtension
  {
    var count := PageCount(preview, Some(og)).value;
    var id := LastSegment(artworkUrl, '/');
    var prefix := OriginalPrefix + SearchDatePath(og).value;
    assert BaseAndExtension(artworkUrl, Some(og), None) == Success((prefix + "/" + id, FallbackExtension));
    DeriveSucceeds(artworkUrl, preview, Some(og), None, prefix + "/" + id, FallbackExtension);
    LastSegmentAvoids(artworkUrl, '/');
    ListFileNames(prefix, id, FallbackExtension, count);
  }

  /** Without the original-image pattern and without an i.pximg.net og:image there is nothing to derive. */
  lemma NoPatternNoUrls(artworkUrl: string, preview: Option<string>, ogImage: Option<string>)
    requires PageCount(preview, ogImage).Some?
    requires ogImage.None? || !Contains(ogImage.value, PximgHost)
    ensures DeriveImageUrls(artworkUrl, preview, ogImage, None) == Failure(NoImagePattern)
  {
  }

  /** A preview field that `int()` rejects loses the artwork whatever else the page holds. */
  lemma MalformedCountFails(artworkUrl: string, text: string, ogImage: Option<string>, original: Option<OriginalMatch>)
    requires '/' in text && ParseInt(BeforeFirst(AfterFirst(text, '/'), '/')).None?
    ensures DeriveImageUrls(artworkUrl, Some(text), ogImage, original) == Failure(MalformedPageCount)
  {
    PreviewCountIsSecondField(text);
  }

  /**
    Without a preview span, an i.pximg.net og:image whose name holds `_p<k>.`
    (after a part without '_') gives the count k + 1.
  */
  lemma PageCountFromOgImage(a: string, k: nat, rest: string)
    requires '_' !in a
    requires Contains(a + "_p" + NatToString(k) + "." + rest, PximgHost)
    ensures PageCount(None, Some(a + "_p" + NatToString(k) + "." + rest)) == Some(k + 1)
  {
    SearchPageIndexAfter(a, k, rest);
  }

  /** An og:image off i.pximg.net leaves the preview count as it is; without both, the count is 1. */
  lemma PageCountDefault(preview: Option<string>, og: string)
    requires !Contains(og, PximgHost)
    ensures PageCount(preview, Some(og)) == PreviewPageCount(preview)
    ensures PageCount(None, Some(og)) == Some(1) && PageCount(None, None) == Some(1)
  {
  }

  /**
    The date-path search finds the leftmost position where the pattern
    matches, and finds nothing only when it matches nowhere.
  */
  lemma {:induction false} SearchDatePathLeftmost(s: string)
    ensures SearchDatePath(s).Some? ==>
      exists i :: 0 <= i < |s| && DatePathAt(s[i..]) == SearchDatePath(s) &&
        forall j :: 0 <= j < i ==> DatePathAt(s[j..]).None?
    ensures SearchDatePath(s).None? ==> forall i :: 0 <= i < |s| ==> DatePathAt(s[i..]).None?
    decreases |s|
  {
    if |s| > 0 && DatePathAt(s).None? {
      var t := s[1..];
      SearchDatePathLeftmost(t);
      assert forall i :: 1 <= i <= |s| ==> s[i..] == t[i - 1..];
      if SearchDatePath(s).Some? {
        var i :| 0 <= i < |t| && DatePathAt(t[i..]) == SearchDatePath(t) &&
          forall j :: 0 <= j < i ==> DatePathAt(t[j..]).None?;
        assert s[i + 1..] == t[i..];
        assert forall j :: 0 <= j < i + 1 ==> DatePathAt(s[j..]).None? by {
          forall j | 0 <= j < i + 1
            ensures DatePathAt(s[j..]).None?
          {
            if j > 0 {
              assert s[j..] == t[j - 1..];
            } else {
              assert s[j..] == s;
            }
          }
        }
      } else {
        forall i | 0 <= i < |s|
          ensures DatePathAt(s[i..]).None?
        {
          if i > 0 {
            assert s[i..] == t[i - 1..];
          } else {
            assert s[i..] == s;
          }
        }
      }
    } else if |s| > 0 {
      assert s[0..] == s;
    }
  }

  /** Conversely, a match with none before it is the one the search returns. */
  lemma SearchDatePathFinds(s: string, i: nat)
    requires i < |s| && DatePathAt(s[i..]).Some?
    requires forall j :: 0 <= j < i ==> DatePathAt(s[j..]).None?
    ensures SearchDatePath(s) == DatePathAt(s[i..])
  {
    SearchDatePathLeftmost(s);
    var i' :| 0 <= i' < |s| && DatePathAt(s[i'..]) == SearchDatePath(s) &&
      forall j :: 0 <= j < i' ==> DatePathAt(s[j..]).None?;
    assert i' == i;
  }

  /** The date path right after `img/` at the start of the text is the one found. */
  lemma SearchDatePathAt(d: string, rest: string)
    requires IsDatePath(d)
    ensures SearchDatePath("img/" + d + rest) == Some(d)
  {
    var s := "img/" + d + rest;
    assert s[..4] == "img/";
    assert s[4..23] == d;
  }

  /** The date-path pattern matches at no position of `s`. */
  predicate NoDatePathIn(s: string)
  {
    forall i :: 0 <= i < |s| ==> DatePathAt(s[i..]).None?
  }

  /** A text where the pattern matches nowhere is one where the search finds nothing. */
  lemma NoDatePathNotFound(s: string)
    requires NoDatePathIn(s)
    ensures SearchDatePath(s).None?
  {
    SearchDatePathLeftmost(s);
  }

  /**
    Without an original-image match, an i.pximg.net og:image that holds no date
    path loses the artwork with "No date path found".
  */
  lemma NoDatePathFails(artworkUrl: string, preview: Option<string>, og: string)
    requires PageCount(preview, Some(og)).Some?
    requires Contains(og, PximgHost) && NoDatePathIn(og)
    ensures DeriveImageUrls(artworkUrl, preview, Some(og), None) == Failure(NoDatePath)
  {
    NoDatePathNotFound(og);
  }
}
