/**
  The session cookie the user pastes in (`save_cookie_string`) and the `Cookie`
  request header rebuilt from the stored cookies (`save_cookie_string` and
  `load_cookies`). The text form is a browser's `name=value; name=value` string;
  the JSON form is an exported cookie list, whose decoding (`json.loads`) is an
  input of the model.
*/
module Cookies {
  import opened Wrappers
  import opened Text

  /** The domain stamped on every cookie parsed from the text form. */
  const CookieDomain: string := ".pixiv.net"

  /** What separates two cookies in the text form and in the header. */
  const PartSeparator: string := "; "

  /** A stored cookie. Cookies from the JSON form keep the domain they came with, if any. */
  datatype Cookie = Cookie(name: string, value: string, domain: Option<string>)

  /** One element of a decoded JSON array: an object with string fields, or anything else. */
  datatype JsonValue = JsonObject(fields: map<string, string>) | JsonOther

  datatype CookieError =
    | NoCookieString          // the input is empty or blank
    | InvalidJson             // the input starts with '[' but json.loads rejects it
    | InvalidJsonCookieFormat // some element is not an object with "name" and "value"
    | NoNameValuePair         // no "; "-separated part of the text holds '='
    | NoValidCookies          // the parsed list is empty

  /** The parts that hold '=', in their original order. */
  function PairsOnly(parts: seq<string>): (r: seq<string>)
    ensures |r| <= |parts|
    ensures forall i :: 0 <= i < |r| ==> '=' in r[i]
    ensures r == [] <==> forall i :: 0 <= i < |parts| ==> '=' !in parts[i]
    ensures (forall i :: 0 <= i < |parts| ==> '=' in parts[i]) ==> r == parts
    ensures forall x :: x in r <==> x in parts && '=' in x
    decreases |parts|
  {
    if parts == [] then []
    else
      var rest := PairsOnly(parts[1..]);
      assert forall i :: 1 <= i < |parts| ==> parts[i] == parts[1..][i - 1];
      if '=' in parts[0] then
        assert parts == [parts[0]] + parts[1..];
        [parts[0]] + rest
      else rest
  }

  /** A single part is kept exactly when it holds '='. */
  lemma PairsOnlySingle(p: string)
    ensures PairsOnly([p]) == if '=' in p then [p] else []
  {
    assert [p][1..] == [];
  }

  /** Unfolding the filter once: the first part, then the rest. */
  lemma PairsOnlyStep(parts: seq<string>)
    requires parts != []
    ensures PairsOnly(parts) == PairsOnly([parts[0]]) + PairsOnly(parts[1..])
  {
    PairsOnlySingle(parts[0]);
  }

  /** The filter keeps the order of the parts: it works part by part, left to right. */
  lemma {:induction false} PairsOnlyOrder(a: seq<string>, b: seq<string>)
    ensures PairsOnly(a + b) == PairsOnly(a) + PairsOnly(b)
    decreases |a|
  {
    if a == [] {
      assert a + b == b;
    } else {
      var ab := a + b;
      var head := PairsOnly([a[0]]);
      assert ab[0] == a[0] && ab[1..] == a[1..] + b;
      PairsOnlyOrder(a[1..], b);
      PairsOnlyStep(ab);
      PairsOnlyStep(a);
      ConcatAssociative(head, PairsOnly(a[1..]), PairsOnly(b));
    }
  }

  /** The "; "-separated parts of a cookie string that hold '='. */
  function NameValueParts(text: string): seq<string>
  {
    PairsOnly(Split(text, PartSeparator))
  }

  /** A cookie from one `name=value` part: cut at the first '='. */
  function CookieOfPart(part: string): (c: Cookie)
    requires '=' in part
    ensures c.name + "=" + c.value == part
    ensures '=' !in c.name
    ensures c.domain == Some(CookieDomain)
  {
    Cookie(BeforeFirst(part, '='), AfterFirst(part, '='), Some(CookieDomain))
  }

  predicate IsJsonCookie(v: JsonValue)
  {
    v.JsonObject? && "name" in v.fields && "value" in v.fields
  }

  function CookieOfJson(v: JsonValue): Cookie
    requires IsJsonCookie(v)
  {
    Cookie(v.fields["name"], v.fields["value"],
           if "domain" in v.fields then Some(v.fields["domain"]) else None)
  }

  /** The text form of a cookie string: not blank once stripped, and not a JSON array. */
  predicate IsTextForm(text: string)
  {
    text != [] && !StartsWith(text, "[")
  }

  /**
    Turns the pasted string into the cookie list, or says why it is rejected.
    `jsonLoads` stands for `json.loads`: None where it raises.
  */
  function ParseCookieString(input: string, jsonLoads: string -> Option<seq<JsonValue>>)
    : (r: Result<seq<Cookie>, CookieError>)
    ensures r == Failure(NoCookieString) <==> Strip(input) == []
    ensures r.Success? ==> |r.value| > 0
  {
    var text := Strip(input);
    if text == [] then Failure(NoCookieString)
    else if StartsWith(text, "[") then ParseJsonCookies(jsonLoads(text))
    else ParseTextCookies(text)
  }

  /** Only an empty or blank input is refused as no cookie string at all. */
  lemma BlankInputRejected(input: string, jsonLoads: string -> Option<seq<JsonValue>>)
    ensures ParseCookieString(input, jsonLoads) == Failure(NoCookieString)
        <==> forall i :: 0 <= i < |input| ==> IsSpace(input[i])
  {
    var blank := Strip(input) == [];
    assert blank <==> forall i :: 0 <= i < |input| ==> IsSpace(input[i]);
  }

  /** The JSON form, once decoded (None: `json.loads` raised). */
  function ParseJsonCookies(loaded: Option<seq<JsonValue>>): (r: Result<seq<Cookie>, CookieError>)
    ensures r.Success? <==> loaded.Some? && |loaded.value| > 0 && forall i :: 0 <= i < |loaded.value| ==> IsJsonCookie(loaded.value[i])
    ensures r.Success? ==> |r.value| == |loaded.value| && forall i :: 0 <= i < |r.value| ==> r.value[i] == CookieOfJson(loaded.value[i])
    ensures r.Failure? ==> r.error in {InvalidJson, InvalidJsonCookieFormat, NoValidCookies}
  {
    match loaded
    case None => Failure(InvalidJson)
    case Some(values) =>
      if !(forall i :: 0 <= i < |values| ==> IsJsonCookie(values[i])) then Failure(InvalidJsonCookieFormat)
      else if |values| == 0 then Failure(NoValidCookies)
      else Success(seq(|values|, i requires 0 <= i < |values| => CookieOfJson(values[i])))
  }

  /** The text form: one cookie per "; "-separated part that holds '='. */
  function ParseTextCookies(text: string): (r: Result<seq<Cookie>, CookieError>)
    ensures r.Success? || r == Failure(NoNameValuePair)
    ensures r.Success? ==> |r.value| > 0
  {
    var parts := NameValueParts(text);
    if |parts| == 0 then Failure(NoNameValuePair)
    else Success(seq(|parts|, i requires 0 <= i < |parts| => CookieOfPart(parts[i])))
  }

  /**
    The text form is rejected exactly when none of its "; "-separated parts
    holds '='; otherwise each such part becomes one cookie, in order, cut at
    its first '=' and stamped with the pixiv domain.
  */
  lemma ParseTextForm(input: string, jsonLoads: string -> Option<seq<JsonValue>>)
    requires IsTextForm(Strip(input))
    ensures var r := ParseCookieString(input, jsonLoads);
      var parts := NameValueParts(Strip(input));
      && (r == Failure(NoNameValuePair) <==>
            forall i :: 0 <= i < |Split(Strip(input), PartSeparator)| ==>
              '=' !in Split(Strip(input), PartSeparator)[i])
      && (r.Success? ==>
            && |r.value| == |parts|
            && forall i :: 0 <= i < |parts| ==>
                 && r.value[i].name + "=" + r.value[i].value == parts[i]
                 && '=' !in r.value[i].name
                 && r.value[i].domain == Some(CookieDomain))
  {
  }

  /**
    An input that starts with '[' once stripped is read as JSON only: it is
    accepted exactly when it decodes to a non-empty list of objects that all
    hold "name" and "value", and each object then gives one cookie, in order.
  */
  lemma ParseJsonForm(input: string, jsonLoads: string -> Option<seq<JsonValue>>)
    requires StartsWith(Strip(input), "[")
    ensures ParseCookieString(input, jsonLoads) == ParseJsonCookies(jsonLoads(Strip(input)))
    ensures var r := ParseCookieString(input, jsonLoads);
      var loaded := jsonLoads(Strip(input));
      && (r.Success? <==> loaded.Some? && |loaded.value| > 0
                          && forall i :: 0 <= i < |loaded.value| ==> IsJsonCookie(loaded.value[i]))
      && (r.Success? ==> r.value == seq(|loaded.value|, i requires 0 <= i < |loaded.value| => CookieOfJson(loaded.value[i])))
      && (r == Failure(InvalidJson) <==> loaded.None?)
  {
  }

  /** The `name=value` text of each cookie, in order. */
  function Pairs(cookies: seq<Cookie>): seq<string>
  {
    seq(|cookies|, i requires 0 <= i < |cookies| => cookies[i].name + "=" + cookies[i].value)
  }

  /** The value of the `Cookie` request header for the stored cookies. */
  function CookieHeader(cookies: seq<Cookie>): string
  {
    Join(Pairs(cookies), PartSeparator)
  }

  /** Only a JSON array can end with an empty cookie list; it is then rejected. */
  lemma EmptyListOnlyFromJson(input: string, jsonLoads: string -> Option<seq<JsonValue>>)
    requires ParseCookieString(input, jsonLoads) == Failure(NoValidCookies)
    ensures StartsWith(Strip(input), "[") && jsonLoads(Strip(input)) == Some([])
  {
  }

  /**
    For the text form, the header rebuilt from the parsed cookies is the input's
    `name=value` parts joined again by "; ": exactly the input (stripped) when every
    part holds '='.
  */
  lemma HeaderOfParsedText(input: string, jsonLoads: string -> Option<seq<JsonValue>>)
    requires IsTextForm(Strip(input))
    requires ParseCookieString(input, jsonLoads).Success?
    ensures CookieHeader(ParseCookieString(input, jsonLoads).value)
         == Join(NameValueParts(Strip(input)), PartSeparator)
    ensures (forall i :: 0 <= i < |Split(Strip(input), PartSeparator)| ==>
               '=' in Split(Strip(input), PartSeparator)[i])
         ==> CookieHeader(ParseCookieString(input, jsonLoads).value) == Strip(input)
  {
    var cookies := ParseCookieString(input, jsonLoads).value;
    var parts := NameValueParts(Strip(input));
    assert Pairs(cookies) == parts;
    JoinSplit(Strip(input), PartSeparator);
  }

  /** A cookie list that survives the trip through the header text. */
  predicate HeaderSafe(cookies: seq<Cookie>)
  {
    && |cookies| > 0
    && (forall i :: 0 <= i < |cookies| ==>
          && cookies[i].domain == Some(CookieDomain)
          && '=' !in cookies[i].name
          && !Contains(cookies[i].name, PartSeparator)
          && !Contains(cookies[i].value, PartSeparator))
    // the header must neither be stripped nor look like JSON
    && (cookies[0].name == [] || (!IsSpace(cookies[0].name[0]) && cookies[0].name[0] != '['))
    && (var v := cookies[|cookies| - 1].value; v == [] || !IsSpace(v[|v| - 1]))
  }

  /** A text with a character in it that the needle cannot hold splits any occurrence to one side. */
  lemma {:induction false} ContainsAcross(a: string, c: char, b: string, t: string)
    requires c !in t && !Contains(a, t) && !Contains(b, t)
    ensures !Contains(a + [c] + b, t)
    decreases |a|
  {
    var s := a + [c] + b;
    if |a| == 0 {
      assert s == [c] + b && s[1..] == b;
      assert |t| > 0 by { assert !StartsWith(b, t); }
      assert !StartsWith(s, t) by { assert s[0] == c && c != t[0]; }
    } else {
      ContainsAcross(a[1..], c, b, t);
      assert s[1..] == a[1..] + [c] + b;
      assert !StartsWith(s, t) by {
        if |t| <= |a| {
          assert s[..|t|] == a[..|t|];
        } else {
          assert s[|a|] == c && c != t[|a|];
        }
      }
    }
  }

  lemma {:induction false} JoinFirstChar(parts: seq<string>, sep: string)
    requires |parts| > 0 && |parts[0]| > 0
    ensures |Join(parts, sep)| > 0 && Join(parts, sep)[0] == parts[0][0]
  {
  }

  lemma {:induction false} JoinLastChar(parts: seq<string>, sep: string)
    requires |parts| > 0 && |parts[|parts| - 1]| > 0
    ensures var j := Join(parts, sep); |j| > 0 && j[|j| - 1] == parts[|parts| - 1][|parts[|parts| - 1]| - 1]
    decreases |parts|
  {
    if |parts| > 1 {
      JoinLastChar(parts[1..], sep);
    }
  }

  /** The first and last characters of a `name=value` pair. */
  lemma PairEnds(c: Cookie)
    ensures var p := c.name + "=" + c.value;
      && |p| > 0
      && p[0] == (if c.name == [] then '=' else c.name[0])
      && p[|p| - 1] == (if c.value == [] then '=' else c.value[|c.value| - 1])
  {
  }

  /** The header starts with the first pair's first character and ends with the last pair's last. */
  lemma HeaderEnds(cookies: seq<Cookie>)
    requires |cookies| > 0
    ensures var h := CookieHeader(cookies); var v := cookies[|cookies| - 1].value;
      && |h| > 0
      && h[0] == (if cookies[0].name == [] then '=' else cookies[0].name[0])
      && h[|h| - 1] == (if v == [] then '=' else v[|v| - 1])
  {
    var pairs := Pairs(cookies);
    var n := |cookies| - 1;
    PairEnds(cookies[0]);
    PairEnds(cookies[n]);
    assert pairs[0] == cookies[0].name + "=" + cookies[0].value;
    assert pairs[n] == cookies[n].name + "=" + cookies[n].value;
    JoinFirstChar(pairs, PartSeparator);
    JoinLastChar(pairs, PartSeparator);
  }

  /** The header of a header-safe list is left alone by `strip` and is not taken for JSON. */
  lemma HeaderIsTextForm(cookies: seq<Cookie>)
    requires HeaderSafe(cookies)
    ensures Strip(CookieHeader(cookies)) == CookieHeader(cookies)
    ensures IsTextForm(CookieHeader(cookies))
  {
    var header := CookieHeader(cookies);
    HeaderEnds(cookies);
    assert !IsSpace(header[0]) && header[0] != '[';
    assert header[..1] != "[" by {
      assert header[..1][0] == header[0];
    }
  }

  /** The parts of the header of a header-safe list are its `name=value` pairs. */
  lemma HeaderParts(cookies: seq<Cookie>)
    requires HeaderSafe(cookies)
    ensures NameValueParts(CookieHeader(cookies)) == Pairs(cookies)
  {
    var pairs := Pairs(cookies);
    forall i | 0 <= i < |pairs|
      ensures !Contains(pairs[i], PartSeparator) && '=' in pairs[i]
    {
      ContainsAcross(cookies[i].name, '=', cookies[i].value, PartSeparator);
      assert pairs[i] == cookies[i].name + ['='] + cookies[i].value;
    }
    SplitJoin(pairs, PartSeparator);
  }

  /** Each `name=value` pair of a header-safe list reads back as its cookie. */
  lemma CookiesOfPairs(cookies: seq<Cookie>)
    requires HeaderSafe(cookies)
    ensures forall i :: 0 <= i < |cookies| ==>
      '=' in Pairs(cookies)[i] && CookieOfPart(Pairs(cookies)[i]) == cookies[i]
  {
    var pairs := Pairs(cookies);
    forall i | 0 <= i < |pairs|
      ensures '=' in pairs[i] && CookieOfPart(pairs[i]) == cookies[i]
    {
      CutAtFirst(cookies[i].name, '=', cookies[i].value);
      assert pairs[i] == cookies[i].name + ['='] + cookies[i].value;
    }
  }

  /** Parsing the header of a header-safe cookie list gives the list back. */
  lemma ParseHeaderRoundTrip(cookies: seq<Cookie>, jsonLoads: string -> Option<seq<JsonValue>>)
    requires HeaderSafe(cookies)
    ensures ParseCookieString(CookieHeader(cookies), jsonLoads) == Success(cookies)
  {
    var pairs := Pairs(cookies);
    HeaderIsTextForm(cookies);
    HeaderParts(cookies);
    CookiesOfPairs(cookies);
    var parsed := seq(|pairs|, i requires 0 <= i < |pairs| => CookieOfPart(pairs[i]));
    assert parsed == cookies;
  }
}
