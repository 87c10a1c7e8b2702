/**
 * String helpers shared by the backend (.NET) and frontend (JavaScript) models:
 * decimal rendering, single-character split and join, whitespace trimming,
 * ordinal find-and-replace and ASCII lower-casing.
 */
module Text {

  /* ---------------------------------------------------------------------
   * Decimal rendering of integers (`int.ToString()`, template literals)
   * ------------------------------------------------------------------- */

  predicate IsDigit(c: char) {
    '0' <= c <= '9'
  }

  predicate AllDigits(s: string) {
    forall i :: 0 <= i < |s| ==> IsDigit(s[i])
  }

  function DigitChar(d: nat): (c: char)
    requires d < 10
    ensures IsDigit(c) && c as int - '0' as int == d
  {
    ('0' as int + d) as char
  }

  /** The shortest decimal rendering of `n`, with no leading zero. */
  function NatToString(n: nat): (s: string)
    ensures |s| >= 1 && AllDigits(s)
    ensures s[0] == '0' ==> n == 0
    decreases n
  {
    if n < 10 then [DigitChar(n)] else NatToString(n / 10) + [DigitChar(n % 10)]
  }

  /** The number a string of decimal digits denotes. */
  function DigitsValue(s: string): nat
    requires AllDigits(s)
  {
    if |s| == 0 then 0 else DigitsValue(s[..|s| - 1]) * 10 + (s[|s| - 1] as int - '0' as int)
  }

  /** Reading back a rendered natural number gives the number. */
  lemma {:induction false} NatToStringRoundTrip(n: nat)
    ensures DigitsValue(NatToString(n)) == n
    decreases n
  {
    if n >= 10 {
      var s := NatToString(n);
      assert s[..|s| - 1] == NatToString(n / 10);
      NatToStringRoundTrip(n / 10);
    }
  }

  /** Distinct numbers render as distinct strings. */
  lemma NatToStringInjective(a: nat, b: nat)
    ensures NatToString(a) == NatToString(b) ==> a == b
  {
    NatToStringRoundTrip(a);
    NatToStringRoundTrip(b);
  }

  /** `int.ToString()` / JavaScript `String(n)` for an integer. */
  function IntToString(i: int): string {
    if i < 0 then "-" + NatToString(-i) else NatToString(i)
  }

  /** What `int.Parse` accepts: an optional minus sign and at least one digit. */
  predicate IsIntText(s: string) {
    || (|s| >= 1 && AllDigits(s))
    || (|s| >= 2 && s[0] == '-' && AllDigits(s[1..]))
  }

  function IntValue(s: string): int
    requires IsIntText(s)
  {
    if |s| >= 1 && AllDigits(s) then DigitsValue(s) as int else -(DigitsValue(s[1..]) as int)
  }

  /** A rendered integer consists of digits and a leading minus sign. */
  lemma IntToStringChars(i: int)
    ensures forall k :: 0 <= k < |IntToString(i)| ==> IntToString(i)[k] == '-' || IsDigit(IntToString(i)[k])
  {
    var n := NatToString(if i < 0 then -i else i);
    assert AllDigits(n);
    if i < 0 {
      assert IntToString(i) == "-" + n;
    }
  }

  /** Parsing a rendered integer gives the integer back, negatives included. */
  lemma IntToStringRoundTrip(i: int)
    ensures IsIntText(IntToString(i))
    ensures IntValue(IntToString(i)) == i
  {
    if i < 0 {
      var s := IntToString(i);
      assert s[1..] == NatToString(-i);
      assert !IsDigit(s[0]);
      NatToStringRoundTrip(-i);
    } else {
      NatToStringRoundTrip(i);
    }
  }
  /** `text` is a number followed by `unit`, and the number reads back as `n`. */
  predicate ShowsCount(text: string, n: int, unit: string) {
    && |text| > |unit|
    && text[|text| - |unit|..] == unit
    && IsIntText(text[..|text| - |unit|])
    && IntValue(text[..|text| - |unit|]) == n
  }

  /** `${n} unit` */
  function CountText(n: int, unit: string): (r: string)
    ensures ShowsCount(r, n, unit)
  {
    var digits := IntToString(n);
    IntToStringRoundTrip(n);
    var r := digits + unit;
    assert r[..|r| - |unit|] == digits;
    assert r[|r| - |unit|..] == unit;
    r
  }


  /* ---------------------------------------------------------------------
   * Split on one character (`String.Split(char)`, JavaScript `split(c)`)
   * ------------------------------------------------------------------- */

  /** Position of the first `c` in `s`, or `|s|` when there is none. */
  function IndexOf(s: string, c: char): (i: nat)
    ensures i <= |s|
    ensures i < |s| ==> s[i] == c
    ensures forall j :: 0 <= j < i ==> s[j] != c
  {
    if |s| == 0 || s[0] == c then 0 else 1 + IndexOf(s[1..], c)
  }

  /**
   * The pieces between occurrences of `sep`. Both platforms agree on a single
   * character separator: an empty string gives one empty piece, and adjacent
   * separators give empty pieces.
   */
  function Split(s: string, sep: char): (parts: seq<string>)
    ensures |parts| >= 1
    ensures forall k :: 0 <= k < |parts| ==> sep !in parts[k]
    decreases |s|
  {
    var i := IndexOf(s, sep);
    if i == |s| then [s] else [s[..i]] + Split(s[i + 1..], sep)
  }

  function Join(parts: seq<string>, sep: char): string
    requires |parts| >= 1
  {
    if |parts| == 1 then parts[0] else parts[0] + [sep] + Join(parts[1..], sep)
  }

  /** The first piece is the text before the first separator. */
  lemma SplitHead(s: string, sep: char)
    ensures Split(s, sep)[0] == s[..IndexOf(s, sep)]
    ensures BeforeFirst(s, sep, Split(s, sep)[0])
    ensures sep !in s ==> Split(s, sep) == [s]
  {
  }

  /** `r` is the text of `s` before the first `c`, or all of `s` without one. */
  predicate BeforeFirst(s: string, c: char, r: string) {
    r <= s && c !in r && (|r| < |s| ==> s[|r|] == c)
  }

  /** Joining a piece in front of others puts one separator after it. */
  lemma JoinCons(p: string, q: seq<string>, sep: char)
    requires |q| >= 1
    ensures Join([p] + q, sep) == p + [sep] + Join(q, sep)
  {
    assert ([p] + q)[1..] == q;
  }

  /** Joining the pieces with the separator restores the original string. */
  lemma {:induction false} JoinSplit(s: string, sep: char)
    ensures Join(Split(s, sep), sep) == s
    decreases |s|
  {
    var i := IndexOf(s, sep);
    if i < |s| {
      var rest := s[i + 1..];
      var pieces := Split(rest, sep);
      assert Split(s, sep) == [s[..i]] + pieces;
      assert Join([s[..i]] + pieces, sep) == s[..i] + [sep] + rest by {
        JoinCons(s[..i], pieces, sep);
        JoinSplit(rest, sep);
      }
      assert s == s[..i] + [sep] + rest by {
        assert s == s[..i] + [s[i]] + rest;
      }
    }
  }

  /** The first separator after a separator-free piece is the one that ends it. */
  lemma FirstSeparator(p: string, rest: string, sep: char)
    requires sep !in p
    ensures IndexOf(p + [sep] + rest, sep) == |p|
  {
    var s := p + [sep] + rest;
    forall j | 0 <= j < |p| ensures s[j] != sep {
      assert s[j] == p[j];
    }
    assert s[|p|] == sep;
  }

  /** Splitting a separator-free piece followed by a separator splits off that piece. */
  lemma SplitCons(p: string, rest: string, sep: char)
    requires sep !in p
    ensures Split(p + [sep] + rest, sep) == [p] + Split(rest, sep)
  {
    var s := p + [sep] + rest;
    FirstSeparator(p, rest, sep);
    assert s[..|p|] == p;
    assert s[|p| + 1..] == rest;
  }

  /** Splitting a join of separator-free pieces gives the pieces back. */
  lemma {:induction false} SplitJoin(parts: seq<string>, sep: char)
    requires |parts| >= 1
    requires forall k :: 0 <= k < |parts| ==> sep !in parts[k]
    ensures Split(Join(parts, sep), sep) == parts
    decreases |parts|
  {
    var p := parts[0];
    if |parts| == 1 {
      SplitHead(p, sep);
    } else {
      var tail := parts[1..];
      assert Join(parts, sep) == p + [sep] + Join(tail, sep);
      SplitCons(p, Join(tail, sep), sep);
      assert forall k :: 0 <= k < |tail| ==> sep !in tail[k] by {
        forall k | 0 <= k < |tail| ensures sep !in tail[k] {
          assert tail[k] == parts[k + 1];
        }
      }
      SplitJoin(tail, sep);
      assert parts == [p] + tail;
    }
  }

  /** Joining two lists of pieces puts one separator between their joins. */
  lemma {:induction false} JoinAppend(a: seq<string>, b: seq<string>, sep: char)
    requires |a| >= 1 && |b| >= 1
    ensures Join(a + b, sep) == Join(a, sep) + [sep] + Join(b, sep)
    decreases |a|
  {
    if |a| == 1 {
      assert (a + b)[1..] == b;
    } else {
      assert (a + b)[1..] == a[1..] + b;
      JoinAppend(a[1..], b, sep);
    }
  }

  /** Splitting `a.b` splits `a` and `b` separately: a path prefix is a prefix of pieces. */
  lemma SplitAppend(a: string, b: string, sep: char)
    ensures Split(a + [sep] + b, sep) == Split(a, sep) + Split(b, sep)
  {
    var pa := Split(a, sep);
    var pb := Split(b, sep);
    JoinSplit(a, sep);
    JoinSplit(b, sep);
    JoinAppend(pa, pb, sep);
    SplitJoin(pa + pb, sep);
  }

  /* ---------------------------------------------------------------------
   * Whitespace trimming (`String.Trim()`, JavaScript `trim()`)
   * ------------------------------------------------------------------- */

  /** `char.IsWhiteSpace` of .NET: the space separators, line and paragraph separators, U+0009–U+000D, U+0085 and U+00A0. */
  predicate DotNetWhiteSpace(c: char) {
    || '\t' <= c <= '\r'
    || c == ' ' || c == '\U{0085}' || c == '\U{00A0}' || c == '\U{1680}'
    || '\U{2000}' <= c <= '\U{200A}'
    || c == '\U{2028}' || c == '\U{2029}' || c == '\U{202F}' || c == '\U{205F}' || c == '\U{3000}'
  }

  /** The characters JavaScript's `trim` removes: WhiteSpace and LineTerminator of ECMA-262, which include U+FEFF but not U+0085. */
  predicate JsWhiteSpace(c: char) {
    || '\t' <= c <= '\r'
    || c == ' ' || c == '\U{00A0}' || c == '\U{1680}'
    || '\U{2000}' <= c <= '\U{200A}'
    || c == '\U{2028}' || c == '\U{2029}' || c == '\U{202F}' || c == '\U{205F}' || c == '\U{3000}'
    || c == '\U{FEFF}'
  }

  /** `t` neither starts nor ends with white space. */
  predicate NoOuterSpace(t: string, ws: char -> bool) {
    t == [] || (!ws(t[0]) && !ws(t[|t| - 1]))
  }

  /** Every character of `t` is white space. */
  predicate AllSpace(t: string, ws: char -> bool) {
    forall j :: 0 <= j < |t| ==> ws(t[j])
  }

  /** `r` sits in `s` with nothing but white space before and after it. */
  ghost predicate SpaceAround(s: string, r: string, ws: char -> bool) {
    exists i: nat :: MatchAt(s, i, r) && AllSpace(s[..i], ws) && AllSpace(s[i + |r|..], ws)
  }

  /** `s` without its leading white space: a suffix of `s` starting at a non-space. */
  function TrimStart(s: string, ws: char -> bool): (r: string)
    ensures |r| <= |s| && r == s[|s| - |r|..]
    ensures AllSpace(s[..|s| - |r|], ws)
    ensures r == [] || !ws(r[0])
  {
    if |s| > 0 && ws(s[0]) then
      var r := TrimStart(s[1..], ws);
      assert s[..|s| - |r|] == [s[0]] + s[1..][..|s| - 1 - |r|];
      AllSpaceConcat([s[0]], s[1..][..|s| - 1 - |r|], ws);
      r
    else s
  }

  /** `s` without its trailing white space: a prefix of `s` ending at a non-space. */
  function TrimEnd(s: string, ws: char -> bool): (r: string)
    ensures |r| <= |s| && r == s[..|r|]
    ensures AllSpace(s[|r|..], ws)
    ensures r == [] || !ws(r[|r| - 1])
  {
    if |s| > 0 && ws(s[|s| - 1]) then
      var r := TrimEnd(s[..|s| - 1], ws);
      assert s[|r|..] == s[..|s| - 1][|r|..] + [s[|s| - 1]];
      AllSpaceConcat(s[..|s| - 1][|r|..], [s[|s| - 1]], ws);
      r
    else s
  }

  /**
   * `s` without leading and trailing white space: the infix of `s` between
   * the first and the last non-space, empty exactly when `s` is all space.
   */
  function Trim(s: string, ws: char -> bool): (r: string)
    ensures SpaceAround(s, r, ws)
    ensures NoOuterSpace(r, ws)
    ensures r == [] <==> AllSpace(s, ws)
  {
    var a := TrimStart(s, ws);
    var r := TrimEnd(a, ws);
    TrimInfix(s, a, r, ws);
    TrimEmpty(s, a, r, ws);
    TrimEnds(s, a, r, ws);
    r
  }

  lemma TrimEnds(s: string, a: string, r: string, ws: char -> bool)
    requires a == TrimStart(s, ws) && r == TrimEnd(a, ws)
    ensures NoOuterSpace(r, ws)
  {
    if r != [] {
      assert r[0] == a[0];
    }
  }

  /** Slicing a suffix is slicing the whole string further along. */
  lemma SuffixSlices(s: string, i: nat, k: nat)
    requires i + k <= |s|
    ensures s[i..][..k] == s[i..i + k]
    ensures s[i..][k..] == s[i + k..]
  {
  }

  lemma TrimInfix(s: string, a: string, r: string, ws: char -> bool)
    requires a == TrimStart(s, ws) && r == TrimEnd(a, ws)
    ensures SpaceAround(s, r, ws)
  {
    var i := |s| - |a|;
    SuffixSlices(s, i, |r|);
    assert MatchAt(s, i, r);
    assert AllSpace(s[..i], ws);
    assert AllSpace(s[i + |r|..], ws);
  }

  lemma TrimEmpty(s: string, a: string, r: string, ws: char -> bool)
    requires a == TrimStart(s, ws) && r == TrimEnd(a, ws)
    ensures r == [] <==> AllSpace(s, ws)
  {
    var i := |s| - |a|;
    if r == [] {
      assert AllSpace(a, ws) by {
        assert a[|r|..] == a;
      }
      AllSpaceSplit(s, i, ws);
    } else {
      assert !ws(s[i]) by {
        assert s[i] == a[0] == r[0];
      }
    }
  }

  /** A string whose two halves are all white space is all white space. */
  lemma AllSpaceSplit(s: string, i: nat, ws: char -> bool)
    requires i <= |s| && AllSpace(s[..i], ws) && AllSpace(s[i..], ws)
    ensures AllSpace(s, ws)
  {
    assert s == s[..i] + s[i..];
    AllSpaceConcat(s[..i], s[i..], ws);
  }

  lemma AllSpaceConcat(x: string, y: string, ws: char -> bool)
    requires AllSpace(x, ws) && AllSpace(y, ws)
    ensures AllSpace(x + y, ws)
  {
    forall j | 0 <= j < |x + y| ensures ws((x + y)[j]) {
      if j >= |x| { assert (x + y)[j] == y[j - |x|]; }
    }
  }

  /** A string that neither starts nor ends with white space is its own trim. */
  lemma TrimNoop(s: string, ws: char -> bool)
    requires NoOuterSpace(s, ws)
    ensures Trim(s, ws) == s
  {
    if s != [] {
      assert TrimStart(s, ws) == s;
      assert TrimEnd(s, ws) == s;
    }
  }

  /** Trimming twice is trimming once. */
  lemma TrimIdempotent(s: string, ws: char -> bool)
    ensures Trim(Trim(s, ws), ws) == Trim(s, ws)
  {
    TrimNoop(Trim(s, ws), ws);
  }

  /* ---------------------------------------------------------------------
   * Ordinal find-and-replace (`String.Replace(string, string)`)
   * ------------------------------------------------------------------- */

  /** `pat` occurs in `s` starting at position `i`. */
  predicate MatchAt(s: string, i: nat, pat: string) {
    i + |pat| <= |s| && s[i..i + |pat|] == pat
  }

  /** One differing character rules out an occurrence. */
  lemma Mismatch(s: string, i: nat, pat: string, k: nat)
    requires k < |pat| && i + k < |s| && s[i + k] != pat[k]
    ensures !MatchAt(s, i, pat)
  {
    if i + |pat| <= |s| {
      assert s[i..i + |pat|][k] == s[i + k];
    }
  }

  /**
   * Replaces occurrences of `pat` scanning left to right; an occurrence is
   * consumed whole, overlapping occurrences are skipped and the inserted text
   * is not scanned again.
   */
  function Replace(s: string, pat: string, rep: string): (r: string)
    requires |pat| > 0
    ensures |rep| == |pat| ==> |r| == |s|
    ensures forall c :: c in r ==> c in s || c in rep
    decreases |s|
  {
    if |s| < |pat| then s
    else if s[..|pat|] == pat then rep + Replace(s[|pat|..], pat, rep)
    else [s[0]] + Replace(s[1..], pat, rep)
  }

  /** An occurrence in the tail is an occurrence one position further on. */
  lemma MatchShift(s: string, i: nat, pat: string)
    requires |s| > 0
    ensures MatchAt(s[1..], i, pat) <==> MatchAt(s, i + 1, pat)
  {
    if i + |pat| <= |s| - 1 {
      assert s[1..][i..i + |pat|] == s[i + 1..i + 1 + |pat|];
    }
  }

  /** A string in which `pat` does not occur is left unchanged. */
  lemma {:induction false} ReplaceNoMatch(s: string, pat: string, rep: string)
    requires |pat| > 0
    requires forall i: nat :: !MatchAt(s, i, pat)
    ensures Replace(s, pat, rep) == s
    decreases |s|
  {
    if |s| >= |pat| {
      assert !MatchAt(s, 0, pat);
      forall i: nat ensures !MatchAt(s[1..], i, pat) {
        MatchShift(s, i, pat);
      }
      ReplaceNoMatch(s[1..], pat, rep);
      assert s[..|pat|] != pat;
      assert [s[0]] + s[1..] == s;
    }
  }

  /** An occurrence at the front is replaced, and scanning resumes after it. */
  lemma ReplaceAtFront(y: string, pat: string, rep: string)
    requires |pat| > 0
    ensures Replace(pat + y, pat, rep) == rep + Replace(y, pat, rep)
  {
    assert (pat + y)[..|pat|] == pat;
    assert (pat + y)[|pat|..] == y;
  }

  /** A prefix in which no occurrence starts is copied unchanged. */
  lemma {:induction false} ReplaceSkip(x: string, y: string, pat: string, rep: string)
    requires |pat| > 0
    requires forall i :: 0 <= i < |x| ==> !MatchAt(x + y, i, pat)
    ensures Replace(x + y, pat, rep) == x + Replace(y, pat, rep)
    decreases |x|
  {
    if |x| > 0 {
      var s := x + y;
      assert s[1..] == x[1..] + y;
      assert Replace(s[1..], pat, rep) == x[1..] + Replace(y, pat, rep) by {
        forall i | 0 <= i < |x[1..]| ensures !MatchAt(x[1..] + y, i, pat) {
          MatchShift(s, i, pat);
        }
        ReplaceSkip(x[1..], y, pat, rep);
      }
      if |s| < |pat| {
        assert Replace(y, pat, rep) == y;
        assert Replace(s, pat, rep) == s;
      } else {
        assert Replace(s, pat, rep) == [s[0]] + Replace(s[1..], pat, rep) by {
          assert !MatchAt(s, 0, pat);
        }
        assert [s[0]] + x[1..] == x;
        assert [s[0]] + (x[1..] + Replace(y, pat, rep)) == x + Replace(y, pat, rep);
      }
    } else {
      assert x + y == y;
    }
  }

  /* ---------------------------------------------------------------------
   * Lower-casing (`ToLowerInvariant`, restricted to ASCII letters)
   * ------------------------------------------------------------------- */

  predicate IsUpperAscii(c: char) {
    'A' <= c <= 'Z'
  }

  function LowerChar(c: char): char {
    if IsUpperAscii(c) then (c as int + 32) as char else c
  }

  /** Upper-case ASCII letters become lower case; every other character is kept. */
  function ToLowerInvariant(s: string): (r: string)
    ensures |r| == |s|
    ensures forall i :: 0 <= i < |s| ==> !IsUpperAscii(r[i])
    ensures forall i :: 0 <= i < |s| ==> (r[i] == s[i] <==> !IsUpperAscii(s[i]))
  {
    seq(|s|, i requires 0 <= i < |s| => LowerChar(s[i]))
  }

  /* ---------------------------------------------------------------------
   * Substring test (JavaScript `String.prototype.includes`)
   * ------------------------------------------------------------------- */

  /** `needle` occurs somewhere in `s`. */
  ghost predicate Occurs(s: string, needle: string) {
    exists i: nat :: MatchAt(s, i, needle)
  }

  function Contains(s: string, needle: string): (b: bool)
    ensures b == Occurs(s, needle)
    decreases |s|
  {
    if MatchAt(s, 0, needle) then true
    else if |s| == 0 then false
    else
      var b := Contains(s[1..], needle);
      assert forall i: nat :: MatchAt(s[1..], i, needle) <==> MatchAt(s, i + 1, needle) by {
        forall i: nat ensures MatchAt(s[1..], i, needle) <==> MatchAt(s, i + 1, needle) {
          MatchShift(s, i, needle);
        }
      }
      assert b ==> exists i: nat :: MatchAt(s, i, needle) by {
        if b {
          var i: nat :| MatchAt(s[1..], i, needle);
          assert MatchAt(s, i + 1, needle);
        }
      }
      assert (exists i: nat :: MatchAt(s, i, needle)) ==> b by {
        if exists i: nat :: MatchAt(s, i, needle) {
          var i: nat :| MatchAt(s, i, needle);
          assert i != 0;
          assert MatchAt(s[1..], i - 1, needle);
        }
      }
      b
  }
}
