/**
  The few operations of Python's `str` that the downloader relies on, written
  over `seq<char>`: `in`, `startswith`, `split` (with and without a limit),
  `rsplit(sep, 1)`, `join`, `strip`, `isdigit`, `int(...)` and `str(n)`.
  Characters are compared as code points; only the ASCII part of Python's
  whitespace and digit classes is modelled.
*/
module Text {
  import opened Wrappers

  predicate IsAsciiDigit(c: char) { '0' <= c <= '9' }

  predicate AllDigits(s: string) { forall i :: 0 <= i < |s| ==> IsAsciiDigit(s[i]) }

  /** `s.isdigit()`: non-empty and made of digits only. */
  predicate IsDecimal(s: string) { |s| > 0 && AllDigits(s) }

  /** `c.isspace()` for the ASCII range: blank, \t \n \v \f \r and the separators 0x1C-0x1F. */
  predicate IsSpace(c: char) { c == ' ' || 9 <= c as int <= 13 || 28 <= c as int <= 31 }

  predicate StartsWith(s: string, p: string) { |p| <= |s| && s[..|p|] == p }

  predicate EndsWith(s: string, p: string) { |p| <= |s| && s[|s| - |p|..] == p }

  /** `t in s` on strings: `t` occurs somewhere in `s`. */
  predicate Contains(s: string, t: string)
    decreases |s|
  {
    StartsWith(s, t) || (|s| > 0 && Contains(s[1..], t))
  }

  /** A separator whose first character does not occur again in it ("; ", "_p", "/"),
      so that two occurrences can never overlap. */
  predicate Unbordered(sep: string)
  {
    |sep| > 0 && forall i :: 1 <= i < |sep| ==> sep[i] != sep[0]
  }

  lemma {:induction false} ContainsChar(s: string, c: char)
    ensures Contains(s, [c]) <==> c in s
    decreases |s|
  {
    if |s| > 0 {
      ContainsChar(s[1..], c);
      assert s == [s[0]] + s[1..];
    }
  }

  lemma {:induction false} ContainsInfix(a: string, t: string, b: string)
    ensures Contains(a + t + b, t)
    decreases |a|
  {
    if |a| == 0 {
      assert (a + t + b)[..|t|] == t;
    } else {
      ContainsInfix(a[1..], t, b);
      assert (a + t + b)[1..] == a[1..] + t + b;
    }
  }

  // ---------------------------------------------------------------------------
  // split / join

  /** `s.split(sep)`: the pieces between the occurrences of `sep`, found left to right. */
  function Split(s: string, sep: string): (parts: seq<string>)
    requires |sep| > 0
    ensures |parts| >= 1
    decreases |s|
  {
    if |s| == 0 then [""]
    else if StartsWith(s, sep) then [""] + Split(s[|sep|..], sep)
    else
      var rest := Split(s[1..], sep);
      [[s[0]] + rest[0]] + rest[1..]
  }

  /** `sep.join(parts)`. */
  function Join(parts: seq<string>, sep: string): string
    decreases |parts|
  {
    if |parts| == 0 then ""
    else if |parts| == 1 then parts[0]
    else parts[0] + sep + Join(parts[1..], sep)
  }

  /** A split at an occurrence of the separator starts with an empty piece. */
  lemma SplitSepStep(s: string, sep: string)
    requires |sep| > 0 && |s| > 0 && StartsWith(s, sep)
    ensures Split(s, sep) == [""] + Split(s[|sep|..], sep)
  {
  }

  /** Away from an occurrence of the separator, the first character joins the first piece. */
  lemma SplitCharStep(s: string, sep: string)
    requires |sep| > 0 && |s| > 0 && !StartsWith(s, sep)
    ensures Split(s, sep) == [[s[0]] + Split(s[1..], sep)[0]] + Split(s[1..], sep)[1..]
  {
  }

  /** Joining the pieces of a split gives the string back. */
  lemma {:induction false} JoinSplit(s: string, sep: string)
    requires |sep| > 0
    ensures Join(Split(s, sep), sep) == s
    decreases |s|
  {
    if |s| == 0 {
    } else if StartsWith(s, sep) {
      JoinSplit(s[|sep|..], sep);
      JoinSplitSep(s, sep);
    } else {
      JoinSplit(s[1..], sep);
      JoinSplitChar(s, sep);
    }
  }

  lemma JoinSplitSep(s: string, sep: string)
    requires |sep| > 0 && |s| > 0 && StartsWith(s, sep)
    requires Join(Split(s[|sep|..], sep), sep) == s[|sep|..]
    ensures Join(Split(s, sep), sep) == s
  {
    SplitSepStep(s, sep);
    JoinEmptyFirst(Split(s[|sep|..], sep), sep);
    assert s == sep + s[|sep|..];
  }

  /** An empty first part puts the separator in front of the join. */
  lemma JoinEmptyFirst(parts: seq<string>, sep: string)
    requires |parts| > 0
    ensures Join([""] + parts, sep) == sep + Join(parts, sep)
  {
    JoinCons("", parts, sep);
    assert "" + sep == sep;
  }

  lemma JoinSplitChar(s: string, sep: string)
    requires |sep| > 0 && |s| > 0 && !StartsWith(s, sep)
    requires Join(Split(s[1..], sep), sep) == s[1..]
    ensures Join(Split(s, sep), sep) == s
  {
    SplitCharStep(s, sep);
    JoinPrepend(s[0], Split(s[1..], sep), sep);
    assert s == [s[0]] + s[1..];
  }

  /** Putting a character in front of the first part puts it in front of the join. */
  lemma JoinPrepend(c: char, parts: seq<string>, sep: string)
    requires |parts| > 0
    ensures Join([[c] + parts[0]] + parts[1..], sep) == [c] + Join(parts, sep)
  {
    var head := [c] + parts[0];
    if |parts| == 1 {
      assert [head] + parts[1..] == [head];
    } else {
      var more := Join(parts[1..], sep);
      JoinCons(head, parts[1..], sep);
      JoinCons(parts[0], parts[1..], sep);
      assert parts == [parts[0]] + parts[1..];
      assert head + sep + more == [c] + (parts[0] + sep + more);
    }
  }

  lemma JoinCons(p: string, parts: seq<string>, sep: string)
    requires |parts| > 0
    ensures Join([p] + parts, sep) == p + sep + Join(parts, sep)
  {
    assert ([p] + parts)[1..] == parts;
  }

  lemma {:induction false} SplitWithoutSep(x: string, sep: string)
    requires |sep| > 0 && !Contains(x, sep)
    ensures Split(x, sep) == [x]
    decreases |x|
  {
    if |x| > 0 {
      SplitWithoutSep(x[1..], sep);
      assert x == [x[0]] + x[1..];
    }
  }

  /** A non-empty part without the separator, followed by the separator, does not start with it. */
  lemma PartNotSep(x: string, sep: string, r: string)
    requires Unbordered(sep) && !Contains(x, sep) && |x| > 0
    ensures !StartsWith(x + sep + r, sep)
  {
    var s := x + sep + r;
    if |x| >= |sep| {
      assert s[..|sep|] == x[..|sep|];
      assert !StartsWith(x, sep);
    } else {
      assert s[|x|] == sep[0] && sep[|x|] != sep[0];
    }
  }

  /** A part that holds no separator is split off intact from what follows it. */
  lemma {:induction false} SplitAfterPart(x: string, sep: string, r: string)
    requires Unbordered(sep) && !Contains(x, sep)
    ensures Split(x + sep + r, sep) == [x] + Split(r, sep)
    decreases |x|
  {
    var s := x + sep + r;
    if |x| == 0 {
      assert s == sep + r;
      assert s[..|sep|] == sep;
      SplitSepStep(s, sep);
      assert s[|sep|..] == r;
    } else {
      PartNotSep(x, sep, r);
      SplitCharStep(s, sep);
      assert s[1..] == x[1..] + sep + r;
      SplitAfterPart(x[1..], sep, r);
      ConsFirstPiece(x[0], x[1..], Split(r, sep));
      assert s[0] == x[0];
      assert x == [x[0]] + x[1..];
    }
  }

  lemma ConsFirstPiece(c: char, y: string, tail: seq<string>)
    ensures [[c] + ([y] + tail)[0]] + ([y] + tail)[1..] == [[c] + y] + tail
  {
    assert ([y] + tail)[1..] == tail;
  }

  /** Splitting a join gives the parts back when no part holds the separator. */
  lemma {:induction false} SplitJoin(parts: seq<string>, sep: string)
    requires Unbordered(sep) && |parts| >= 1
    requires forall i :: 0 <= i < |parts| ==> !Contains(parts[i], sep)
    ensures Split(Join(parts, sep), sep) == parts
    decreases |parts|
  {
    if |parts| == 1 {
      SplitWithoutSep(parts[0], sep);
    } else {
      SplitJoin(parts[1..], sep);
      SplitAfterPart(parts[0], sep, Join(parts[1..], sep));
      assert parts == [parts[0]] + parts[1..];
    }
  }

  /** With a one-character separator, the split of `a + c + b` is the split of `a` then that of `b`. */
  lemma {:induction false} SplitAround(a: string, c: char, b: string)
    ensures Split(a + [c] + b, [c]) == Split(a, [c]) + Split(b, [c])
    decreases |a|
  {
    var s := a + [c] + b;
    if |a| == 0 {
      assert s == [c] + b;
      assert s[..1] == [c];
      assert s[1..] == b;
    } else {
      assert s[1..] == a[1..] + [c] + b;
      assert s[0] == a[0];
      SplitAround(a[1..], c, b);
      if a[0] == c {
        assert s[..1] == [c] && a[..1] == [c];
      } else {
        assert s[..1] != [c] && a[..1] != [c];
      }
    }
  }

  /** No piece of a split on one character holds that character. */
  lemma {:induction false} SplitPiecesAvoid(s: string, c: char)
    ensures forall i :: 0 <= i < |Split(s, [c])| ==> c !in Split(s, [c])[i]
    decreases |s|
  {
    if |s| > 0 {
      SplitPiecesAvoid(s[1..], c);
      if s[..1] == [c] {
        assert s[0] == c;
      } else {
        assert s[0] != c;
      }
    }
  }

  // ---------------------------------------------------------------------------
  // split(c, 1), split(c)[1], split(c)[-1] and rsplit(sep, 1)

  /** `s.split(c, 1)[0]`: the text before the first `c` (all of `s` when there is none). */
  function BeforeFirst(s: string, c: char): (r: string)
    ensures c !in r && StartsWith(s, r)
    ensures |r| == |s| || s[|r|] == c
    decreases |s|
  {
    if |s| == 0 || s[0] == c then "" else [s[0]] + BeforeFirst(s[1..], c)
  }

  /** Without `c`, the text before the first `c` is all of `s`. */
  lemma BeforeFirstWhole(s: string, c: char)
    requires c !in s
    ensures BeforeFirst(s, c) == s
  {
    var r := BeforeFirst(s, c);
    assert |r| == |s|;
    assert r == s[..|r|];
  }

  /** `s.split(c, 1)[1]` for an `s` that holds `c`: the text after its first `c`. */
  function AfterFirst(s: string, c: char): (r: string)
    requires c in s
    ensures s == BeforeFirst(s, c) + [c] + r
    decreases |s|
  {
    if s[0] == c then s[1..] else AfterFirst(s[1..], c)
  }

  /** Cutting `n + c + v` at its first `c` gives `n` and `v` back when `n` holds no `c`. */
  lemma {:induction false} CutAtFirst(n: string, c: char, v: string)
    requires c !in n
    ensures BeforeFirst(n + [c] + v, c) == n
    ensures AfterFirst(n + [c] + v, c) == v
    decreases |n|
  {
    var s := n + [c] + v;
    if |n| > 0 {
      CutAtFirst(n[1..], c, v);
      assert s[1..] == n[1..] + [c] + v;
      assert n == [n[0]] + n[1..];
    } else {
      assert s == [c] + v;
    }
  }

  /** The first piece of a split on one character is the text before its first occurrence. */
  lemma {:induction false} FirstPiece(s: string, c: char)
    ensures Split(s, [c])[0] == BeforeFirst(s, c)
    decreases |s|
  {
    if |s| > 0 {
      FirstPiece(s[1..], c);
      if s[0] == c {
        assert s[..1] == [c];
      } else {
        assert s[..1] != [c];
      }
    }
  }

  /** `s.split(c)[1]` exists when `c` occurs in `s`: the field between its first and second `c`. */
  lemma SecondPiece(s: string, c: char)
    requires c in s
    ensures |Split(s, [c])| >= 2
    ensures Split(s, [c])[1] == BeforeFirst(AfterFirst(s, c), c)
  {
    var a := BeforeFirst(s, c);
    var b := AfterFirst(s, c);
    SplitAround(a, c, b);
    ContainsChar(a, c);
    SplitWithoutSep(a, [c]);
    FirstPiece(b, c);
  }

  /** `s.split(c)[-1]`: the text after the last `c` (all of `s` when there is none). */
  function LastSegment(s: string, c: char): string
  {
    var parts := Split(s, [c]);
    parts[|parts| - 1]
  }

  lemma LastSegmentAvoids(s: string, c: char)
    ensures c !in LastSegment(s, c)
  {
    SplitPiecesAvoid(s, c);
  }

  /** A text without `c` is its own last segment. */
  lemma LastSegmentWhole(s: string, c: char)
    requires c !in s
    ensures LastSegment(s, c) == s
  {
    ContainsChar(s, c);
    SplitWithoutSep(s, [c]);
  }

  /** The last segment of `a + c + b` is `b` when `b` holds no `c`. */
  lemma LastSegmentAfter(a: string, c: char, b: string)
    requires c !in b
    ensures LastSegment(a + [c] + b, c) == b
  {
    SplitAround(a, c, b);
    ContainsChar(b, c);
    SplitWithoutSep(b, [c]);
  }

  /** Regrouping a concatenation, stated once so that the proofs using it stay small. */
  lemma ConcatAssociative<T>(x: seq<T>, y: seq<T>, z: seq<T>)
    ensures x + (y + z) == (x + y) + z
  {
  }

  lemma PrefixSlice(s: string, n: nat, i: nat, j: nat)
    requires i <= j <= n <= |s|
    ensures s[..n][i..j] == s[i..j]
  {
  }

  /** `s.rfind(sep)`: where the last occurrence of `sep` in `s` starts. */
  function RFind(s: string, sep: string): (r: Option<nat>)
    ensures r.Some? ==> r.value + |sep| <= |s| && s[r.value..r.value + |sep|] == sep
    decreases |s|
  {
    if |s| < |sep| then None
    else if EndsWith(s, sep) then Some(|s| - |sep|)
    else if |s| == 0 then None
    else
      var r := RFind(s[..|s| - 1], sep);
      if r.Some? then
        PrefixSlice(s, |s| - 1, r.value, r.value + |sep|);
        r
      else r
  }

  /** `sep` occurs in `s` starting at position `j`. */
  predicate OccursAt(s: string, sep: string, j: int)
  {
    0 <= j && j + |sep| <= |s| && s[j..j + |sep|] == sep
  }

  /** `rfind` finds the last occurrence of `sep`, and finds nothing only when `sep` does not occur. */
  lemma {:induction false} RFindLast(s: string, sep: string)
    ensures RFind(s, sep).Some? ==> OccursAt(s, sep, RFind(s, sep).value)
    ensures RFind(s, sep).Some? ==> forall j :: RFind(s, sep).value < j ==> !OccursAt(s, sep, j)
    ensures RFind(s, sep).None? ==> forall j :: !OccursAt(s, sep, j)
    decreases |s|
  {
    if |s| >= |sep| && !EndsWith(s, sep) && |s| > 0 {
      var init := s[..|s| - 1];
      RFindLast(init, sep);
      RFindStep(s, sep);
      forall j | OccursAt(s, sep, j)
        ensures OccursAt(init, sep, j)
      {
        assert j + |sep| < |s| by {
          assert s[j..j + |sep|] == sep;
        }
        PrefixSlice(s, |s| - 1, j, j + |sep|);
      }
    }
  }

  /** `s.rsplit(sep, 1)[0]`: the text before the last `sep` (all of `s` when there is none). */
  function BeforeLast(s: string, sep: string): string
  {
    match RFind(s, sep)
    case Some(i) => s[..i]
    case None => s
  }

  /** The last `sep` of `a + sep + b` is the one after `a` when `b` cannot hold one. */
  lemma {:induction false} RFindAfter(a: string, sep: string, b: string)
    requires Unbordered(sep) && sep[0] !in b
    ensures RFind(a + sep + b, sep) == Some(|a|)
    decreases |b|
  {
    var s := a + sep + b;
    if |b| == 0 {
      assert s == a + sep;
      assert EndsWith(s, sep) by {
        assert s[|s| - |sep|..] == sep;
      }
    } else {
      var b' := b[..|b| - 1];
      NoSepAtEnd(a, sep, b);
      RFindStep(s, sep);
      assert s[..|s| - 1] == a + sep + b';
      assert sep[0] !in b' by {
        assert forall i :: 0 <= i < |b'| ==> b'[i] == b[i];
      }
      RFindAfter(a, sep, b');
    }
  }

  lemma RFindStep(s: string, sep: string)
    requires |s| > 0 && |s| >= |sep| && !EndsWith(s, sep)
    ensures RFind(s, sep) == RFind(s[..|s| - 1], sep)
  {
  }

  /** `a + sep + b` does not end with `sep` when `b` is not empty and cannot hold one. */
  lemma NoSepAtEnd(a: string, sep: string, b: string)
    requires Unbordered(sep) && sep[0] !in b && |b| > 0
    ensures !EndsWith(a + sep + b, sep)
  {
    var s := a + sep + b;
    if |b| >= |sep| {
      assert s[|s| - |sep|] == b[|b| - |sep|];
    } else {
      assert s[|s| - |sep|] == sep[|b|];
    }
    assert s[|s| - |sep|..][0] != sep[0];
  }

  // ---------------------------------------------------------------------------
  // strip

  function StripLeft(s: string): (r: string)
    ensures |r| <= |s| && r == s[|s| - |r|..]
    ensures forall i :: 0 <= i < |s| - |r| ==> IsSpace(s[i])
    ensures r == [] || !IsSpace(r[0])
    decreases |s|
  {
    if |s| > 0 && IsSpace(s[0]) then StripLeft(s[1..]) else s
  }

  function StripRight(s: string): (r: string)
    ensures |r| <= |s| && r == s[..|r|]
    ensures forall i :: |r| <= i < |s| ==> IsSpace(s[i])
    ensures r == [] || !IsSpace(r[|r| - 1])
    decreases |s|
  {
    if |s| > 0 && IsSpace(s[|s| - 1]) then StripRight(s[..|s| - 1]) else s
  }

  /** `r` stands at position `a` of `s` with only whitespace before and after it. */
  predicate TrimmedAt(s: string, a: nat, r: string)
  {
    && a + |r| <= |s| && r == s[a..a + |r|]
    && (forall i :: 0 <= i < a ==> IsSpace(s[i]))
    && (forall i :: a + |r| <= i < |s| ==> IsSpace(s[i]))
  }

  /** `s.strip()`: `s` without its leading and trailing whitespace. */
  function Strip(s: string): (r: string)
    ensures r == [] <==> forall i :: 0 <= i < |s| ==> IsSpace(s[i])
    ensures r != [] ==> !IsSpace(r[0]) && !IsSpace(r[|r| - 1])
    ensures |s| == 0 || (!IsSpace(s[0]) && !IsSpace(s[|s| - 1])) ==> r == s
    ensures exists a :: TrimmedAt(s, a, r)
  {
    StripFacts(s);
    StripRight(StripLeft(s))
  }

  /** Strip is the only window of `s` that has whitespace around it and none at its own ends. */
  lemma StripUnique(s: string, a: nat, t: string)
    requires TrimmedAt(s, a, t) && t != [] && !IsSpace(t[0]) && !IsSpace(t[|t| - 1])
    ensures Strip(s) == t
  {
    var r := Strip(s);
    assert s[a] == t[0] && s[a + |t| - 1] == t[|t| - 1];
    assert r != [] by {
      assert !IsSpace(s[a]);
    }
    var b: nat :| TrimmedAt(s, b, r);
    assert s[b] == r[0] && s[b + |r| - 1] == r[|r| - 1];
    assert a == b;
    assert |r| == |t|;
  }

  lemma StripFacts(s: string)
    ensures var r := StripRight(StripLeft(s));
      && (r == [] <==> forall i :: 0 <= i < |s| ==> IsSpace(s[i]))
      && (r != [] ==> !IsSpace(r[0]) && !IsSpace(r[|r| - 1]))
      && (|s| == 0 || (!IsSpace(s[0]) && !IsSpace(s[|s| - 1])) ==> r == s)
      && exists a :: TrimmedAt(s, a, r)
  {
    var l := StripLeft(s);
    var r := StripRight(l);
    TrimmedWindow(s, l, r);
    if |s| == 0 || (!IsSpace(s[0]) && !IsSpace(s[|s| - 1])) {
      assert l == s;
    }
    if r == [] {
      assert |l| == 0;
    } else {
      assert r[0] == l[0];
    }
  }

  lemma PrefixOfSuffix<T>(s: seq<T>, a: nat, n: nat)
    requires a + n <= |s|
    ensures s[a..][..n] == s[a..a + n]
  {
  }

  /**
    Cutting whitespace from the front and then from the back of `s` keeps one
    window of `s` with only whitespace on either side.
  */
  lemma TrimmedWindow(s: string, l: string, r: string)
    requires |l| <= |s| && l == s[|s| - |l|..] && forall i :: 0 <= i < |s| - |l| ==> IsSpace(s[i])
    requires |r| <= |l| && r == l[..|r|] && forall i :: |r| <= i < |l| ==> IsSpace(l[i])
    ensures exists a :: TrimmedAt(s, a, r)
  {
    var a := |s| - |l|;
    PrefixOfSuffix(s, a, |r|);
    forall i | a + |r| <= i < |s| ensures IsSpace(s[i]) {
      assert s[i] == l[i - a];
    }
    assert TrimmedAt(s, a, r);
  }

  // ---------------------------------------------------------------------------
  // str(n) and int(s)

  function DigitChar(d: nat): (c: char)
    requires d < 10
    ensures IsAsciiDigit(c)
  {
    (48 + d) as char
  }

  function DigitValue(c: char): nat
    requires IsAsciiDigit(c)
  {
    c as int - 48
  }

  /** `str(n)` for a natural number: its decimal digits, without leading zeros. */
  function NatToString(n: nat): (r: string)
    ensures IsDecimal(r)
    ensures r[0] == '0' ==> n == 0
    decreases n
  {
    if n < 10 then [DigitChar(n)] else NatToString(n / 10) + [DigitChar(n % 10)]
  }

  /** The number a string of digits denotes in base 10. */
  function DigitsValue(s: string): nat
    requires AllDigits(s)
    decreases |s|
  {
    if |s| == 0 then 0 else 10 * DigitsValue(s[..|s| - 1]) + DigitValue(s[|s| - 1])
  }

  /** Reading the digits `str(n)` prints gives `n` back. */
  lemma {:induction false} DigitsValueOfNatToString(n: nat)
    ensures DigitsValue(NatToString(n)) == n
    decreases n
  {
    if n >= 10 {
      DigitsValueOfNatToString(n / 10);
      var s := NatToString(n);
      assert s[..|s| - 1] == NatToString(n / 10);
    }
  }

  /** Different numbers print differently. */
  lemma NatToStringInjective(m: nat, n: nat)
    requires NatToString(m) == NatToString(n)
    ensures m == n
  {
    DigitsValueOfNatToString(m);
    DigitsValueOfNatToString(n);
  }

  /** The run of digits at the start of `s` (what a greedy `\d+` consumes). */
  function LeadingDigits(s: string): (d: string)
    ensures AllDigits(d) && StartsWith(s, d)
    ensures |d| == |s| || !IsAsciiDigit(s[|d|])
    decreases |s|
  {
    if |s| > 0 && IsAsciiDigit(s[0]) then [s[0]] + LeadingDigits(s[1..]) else ""
  }

  lemma {:induction false} LeadingDigitsOf(d: string, rest: string)
    requires AllDigits(d)
    requires rest == [] || !IsAsciiDigit(rest[0])
    ensures LeadingDigits(d + rest) == d
    decreases |d|
  {
    if |d| > 0 {
      LeadingDigitsOf(d[1..], rest);
      assert (d + rest)[1..] == d[1..] + rest;
      assert d == [d[0]] + d[1..];
    } else {
      assert d + rest == rest;
    }
  }

  /** `int(s)` for base-10 text: surrounding whitespace and one sign allowed; None where
      Python raises ValueError. */
  function ParseInt(s: string): Option<int>
  {
    var t := Strip(s);
    if |t| > 0 && (t[0] == '+' || t[0] == '-') then
      if IsDecimal(t[1..]) then
        var magnitude: int := DigitsValue(t[1..]);
        Some(if t[0] == '-' then -magnitude else magnitude)
      else None
    else if IsDecimal(t) then Some(DigitsValue(t))
    else None
  }

  /** `int(str(n)) == n`. */
  lemma ParseIntOfNatToString(n: nat)
    ensures ParseInt(NatToString(n)) == Some(n)
  {
    var s := NatToString(n);
    assert !IsSpace(s[0]) && !IsSpace(s[|s| - 1]);
    DigitsValueOfNatToString(n);
  }
}
