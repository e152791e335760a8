/**
  The checks on what the user types before a search or a single-artwork
  download starts (`search_user_id` and `start_download_url`).
*/
module Inputs {
  import opened Wrappers
  import opened Text

  const ArtworkUrlPrefix: string := "https://www.pixiv.net/en/artworks/"

  /** `user_id.isdigit()`: the user ID is a non-empty run of digits, taken as typed. */
  predicate IsValidUserId(userId: string)
  {
    IsDecimal(userId)
  }

  /**
    `re.match(r"https://www\.pixiv\.net/en/artworks/\d+", url)` on the stripped
    entry: the URL only has to begin with the artwork prefix and a digit.
  */
  predicate MatchesArtworkUrl(url: string)
  {
    StartsWith(url, ArtworkUrlPrefix) && |url| > |ArtworkUrlPrefix| && IsAsciiDigit(url[|ArtworkUrlPrefix|])
  }

  /** The URL a single-artwork download starts from, or None when the entry is rejected. */
  function AcceptArtworkUrl(entry: string): (r: Option<string>)
    ensures r.Some? <==> MatchesArtworkUrl(Strip(entry))
    ensures r.Some? ==> r.value == Strip(entry) && StartsWith(r.value, ArtworkUrlPrefix)
  {
    var url := Strip(entry);
    if url != [] && MatchesArtworkUrl(url) then Some(url) else None
  }

  /** Every user ID written in decimal is accepted, and its number reads back. */
  lemma UserIdOfNumber(n: nat)
    ensures IsValidUserId(NatToString(n))
    ensures ParseInt(NatToString(n)) == Some(n)
  {
    ParseIntOfNatToString(n);
  }

  /** A blank entry, a sign or surrounding blanks make the user ID invalid. */
  lemma UserIdRejects(s: string)
    ensures !IsValidUserId("")
    ensures !IsValidUserId("-" + s)
    ensures !IsValidUserId(" " + s)
  {
    assert ("-" + s)[0] == '-';
    assert (" " + s)[0] == ' ';
  }

  /**
    A canonical artwork URL is accepted as it is, and its
    last '/'-segment is the artwork's number.
  */
  lemma CanonicalArtworkUrl(n: nat)
    ensures AcceptArtworkUrl(ArtworkUrlPrefix + NatToString(n)) == Some(ArtworkUrlPrefix + NatToString(n))
    ensures LastSegment(ArtworkUrlPrefix + NatToString(n), '/') == NatToString(n)
  {
    var id := NatToString(n);
    var url := ArtworkUrlPrefix + id;
    assert url[0] == ArtworkUrlPrefix[0] == 'h';
    assert !IsSpace(url[0]);
    assert url[|url| - 1] == id[|id| - 1];
    assert !IsSpace(url[|url| - 1]);
    assert url[..|ArtworkUrlPrefix|] == ArtworkUrlPrefix;
    assert url[|ArtworkUrlPrefix|] == id[0];
    assert '/' !in id;
    LastSegmentAfter(ArtworkUrlPrefix[..|ArtworkUrlPrefix| - 1], '/', id);
    assert ArtworkUrlPrefix[..|ArtworkUrlPrefix| - 1] + ['/'] + id == url;
  }

  /**
    The match is anchored only at the start: anything may follow the first digit,
    and the last '/'-segment (the illust ID of the `png` fallback) is then not the number.
  */
  lemma PrefixMatchOnly(rest: string)
    requires '/' !in rest
    ensures MatchesArtworkUrl(ArtworkUrlPrefix + "1/" + rest)
    ensures LastSegment(ArtworkUrlPrefix + "1/" + rest, '/') == rest
  {
    var url := ArtworkUrlPrefix + "1/" + rest;
    assert url[..|ArtworkUrlPrefix|] == ArtworkUrlPrefix;
    assert url[|ArtworkUrlPrefix|] == '1';
    LastSegmentAfter(ArtworkUrlPrefix + "1", '/', rest);
    assert ArtworkUrlPrefix + "1" + ['/'] + rest == url;
  }
}
