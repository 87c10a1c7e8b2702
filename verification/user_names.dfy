/**
 * User names for accounts created through Google: a display name is
 * normalised, and when the result is already taken the least numeric suffix
 * from 2 upwards that gives a free name is appended.
 */
module UserNames {
  import opened Text

  /** The per-character effect of replacing spaces by dots and lower-casing. */
  function NormaliseChar(c: char): char {
    LowerChar(if c == ' ' then '.' else c)
  }

  /**
   * `baseName.Trim().Replace(" ", ".").ToLowerInvariant()`: as long as the
   * trimmed name, and empty only for a name that is all white space.
   */
  function Normalise(baseName: string): (r: string)
    ensures |r| == |Trim(baseName, DotNetWhiteSpace)|
    ensures r == [] <==> AllSpace(baseName, DotNetWhiteSpace)
  {
    DotLower(Trim(baseName, DotNetWhiteSpace))
  }

  /** The last two steps of `Normalise`: spaces become dots, letters lower case. */
  function DotLower(t: string): (r: string)
    ensures |r| == |t|
  {
    ToLowerInvariant(Replace(t, " ", "."))
  }

  /** Replacing a one-character pattern acts character by character. */
  lemma {:induction false} ReplaceSpaceByDot(s: string)
    ensures Replace(s, " ", ".") == seq(|s|, i requires 0 <= i < |s| => if s[i] == ' ' then '.' else s[i])
    decreases |s|
  {
    if |s| > 0 {
      ReplaceSpaceByDot(s[1..]);
      if s[..1] == " " {
        assert s[0] == ' ';
      } else {
        assert s[0] != ' ';
      }
    }
  }

  /** `DotLower` maps every character through `NormaliseChar`. */
  lemma DotLowerChars(t: string)
    ensures DotLower(t) == seq(|t|, i requires 0 <= i < |t| => NormaliseChar(t[i]))
  {
    ReplaceSpaceByDot(t);
  }

  /** A name without spaces and capitals is left alone by `DotLower`. */
  lemma DotLowerFixes(n: string)
    requires ' ' !in n
    requires forall i :: 0 <= i < |n| ==> !IsUpperAscii(n[i])
    ensures DotLower(n) == n
  {
    DotLowerChars(n);
    forall i | 0 <= i < |n| ensures NormaliseChar(n[i]) == n[i] {
      assert n[i] != ' ';
    }
  }

  /** Replacing spaces and lower-casing never produces white space from a non-space. */
  lemma NormaliseCharKeepsText(c: char)
    requires !DotNetWhiteSpace(c)
    ensures !DotNetWhiteSpace(NormaliseChar(c))
  {
  }

  /**
   * The shape of a normalised name: no plain space, no upper-case ASCII
   * letter, and no white space at either end.
   */
  predicate NormalForm(n: string) {
    && ' ' !in n
    && (forall i :: 0 <= i < |n| ==> !IsUpperAscii(n[i]))
    && NoOuterSpace(n, DotNetWhiteSpace)
  }

  /** `DotLower` of a trimmed string is in normal form. */
  lemma DotLowerShape(t: string)
    requires NoOuterSpace(t, DotNetWhiteSpace)
    ensures NormalForm(DotLower(t))
  {
    var n := DotLower(t);
    DotLowerChars(t);
    forall i | 0 <= i < |n| ensures n[i] != ' ' && !IsUpperAscii(n[i]) {
      assert n[i] == NormaliseChar(t[i]);
    }
    if n != [] {
      NormaliseCharKeepsText(t[0]);
      NormaliseCharKeepsText(t[|t| - 1]);
    }
  }

  /** Every normalised name is in normal form. */
  lemma NormalisedShape(baseName: string)
    ensures NormalForm(Normalise(baseName))
  {
    DotLowerShape(Trim(baseName, DotNetWhiteSpace));
  }

  /** A name in normal form is left unchanged by normalisation. */
  lemma NormaliseFixes(n: string)
    requires NormalForm(n)
    ensures Normalise(n) == n
  {
    assert Trim(n, DotNetWhiteSpace) == n by {
      TrimNoop(n, DotNetWhiteSpace);
    }
    DotLowerFixes(n);
  }

  /** Normalising a normalised name changes nothing. */
  lemma NormaliseIdempotent(baseName: string)
    ensures Normalise(Normalise(baseName)) == Normalise(baseName)
  {
    NormalisedShape(baseName);
    NormaliseFixes(Normalise(baseName));
  }

  /** The name tried with suffix `k`: `$"{userName}{suffix}"`. */
  function Candidate(base: string, k: nat): (r: string)
    ensures |r| > |base| && r[..|base|] == base
    ensures AllDigits(r[|base|..]) && DigitsValue(r[|base|..]) == k
  {
    var digits := NatToString(k);
    NatToStringRoundTrip(k);
    assert (base + digits)[|base|..] == digits;
    base + digits
  }

  lemma CandidateInjective(base: string, j: nat, k: nat)
    ensures Candidate(base, j) == Candidate(base, k) ==> j == k
  {
    if Candidate(base, j) == Candidate(base, k) {
      assert NatToString(j) == Candidate(base, j)[|base|..];
      assert NatToString(k) == Candidate(base, k)[|base|..];
      NatToStringInjective(j, k);
    }
  }

  /** The candidates with suffixes 2 .. k-1, all found taken before suffix k is tried. */
  function Tried(base: string, k: nat): set<string> {
    set j | 2 <= j < k :: Candidate(base, j)
  }

  /** Trying one more suffix adds one new candidate to those tried. */
  lemma TriedStep(base: string, k: nat)
    requires k >= 2
    ensures Tried(base, k + 1) == Tried(base, k) + {Candidate(base, k)}
    ensures Candidate(base, k) !in Tried(base, k)
  {
    var c := Candidate(base, k);
    assert Tried(base, k + 1) == Tried(base, k) + {c};
  }

  /** The loop's variant: taken names not yet tried, plus one before the first suffix. */
  function Untried(taken: set<string>, base: string, suffix: nat): nat {
    |taken - Tried(base, suffix)| + (if suffix == 1 then 1 else 0)
  }

  /** The name probed at step `suffix`: the base itself, then the candidates from 2. */
  function Probe(base: string, suffix: nat): string {
    if suffix == 1 then base else Candidate(base, suffix)
  }

  /** Probing a taken name brings the search closer to its end. */
  lemma ProbeProgress(taken: set<string>, base: string, suffix: nat)
    requires suffix >= 1
    requires Probe(base, suffix) in taken
    requires Tried(base, suffix) <= taken
    ensures Untried(taken, base, suffix + 1) < Untried(taken, base, suffix)
    ensures Tried(base, suffix + 1) <= taken
  {
    if suffix >= 2 {
      TriedStep(base, suffix);
      TriedShrinks(taken, base, suffix);
    } else {
      assert Tried(base, 2) == {};
      assert Tried(base, 1) == {};
    }
  }

  /** Every candidate below `k` is taken exactly when the tried ones are. */
  lemma TriedAllTaken(taken: set<string>, base: string, k: nat)
    ensures Tried(base, k) <= taken <==> forall j :: 2 <= j < k ==> Candidate(base, j) in taken
  {
    if Tried(base, k) <= taken {
      forall j | 2 <= j < k ensures Candidate(base, j) in taken {
        assert Candidate(base, j) in Tried(base, k);
      }
    }
  }

  /** `m` is the least suffix from 2 upwards whose candidate is free. */
  predicate LeastFreeSuffix(taken: set<string>, base: string, m: nat) {
    && m >= 2
    && Candidate(base, m) !in taken
    && forall j :: 2 <= j < m ==> Candidate(base, j) in taken
  }

  /** At most one suffix is the least free one. */
  lemma LeastFreeSuffixUnique(taken: set<string>, base: string, m1: nat, m2: nat)
    requires LeastFreeSuffix(taken, base, m1) && LeastFreeSuffix(taken, base, m2)
    ensures m1 == m2
  {
  }

  /** The measure of the search: fewer taken names remain untried after a taken probe. */
  lemma TriedShrinks(taken: set<string>, base: string, k: nat)
    requires k >= 2
    requires Candidate(base, k) in taken
    ensures |taken - Tried(base, k + 1)| < |taken - Tried(base, k)|
  {
    var c := Candidate(base, k);
    TriedStep(base, k);
    assert taken - Tried(base, k + 1) == (taken - Tried(base, k)) - {c};
  }

  /** The least free suffix at or above `k`, given that those below `k` are taken. */
  function FreeSuffix(taken: set<string>, base: string, k: nat): (m: nat)
    requires k >= 2
    ensures m >= k && Candidate(base, m) !in taken
    ensures forall j :: k <= j < m ==> Candidate(base, j) in taken
    decreases |taken - Tried(base, k)|
  {
    if Candidate(base, k) !in taken then k
    else
      TriedShrinks(taken, base, k);
      FreeSuffix(taken, base, k + 1)
  }

  /** The first free name among `base`, `base2`, `base3`, ... */
  function FreeName(taken: set<string>, base: string): (r: string)
    ensures r !in taken
    ensures base !in taken ==> r == base
    ensures base in taken ==> exists m :: LeastFreeSuffix(taken, base, m) && r == Candidate(base, m)
  {
    if base !in taken then base
    else
      var m := FreeSuffix(taken, base, 2);
      assert LeastFreeSuffix(taken, base, m);
      Candidate(base, m)
  }

  /**
   * The user name `GenerateUniqueUserName` returns: the normalised base when
   * it is free, otherwise the base with the least free suffix appended.
   */
  function UniqueUserName(taken: set<string>, baseName: string): (r: string)
    ensures r !in taken
    ensures Normalise(baseName) !in taken ==> r == Normalise(baseName)
    ensures Normalise(baseName) in taken ==>
      exists m :: LeastFreeSuffix(taken, Normalise(baseName), m) && r == Candidate(Normalise(baseName), m)
  {
    FreeName(taken, Normalise(baseName))
  }

  /** The generator never appends the suffix 1. */
  lemma NeverSuffixOne(taken: set<string>, baseName: string)
    ensures UniqueUserName(taken, baseName) != Normalise(baseName) + "1"
  {
    var base := Normalise(baseName);
    var r := UniqueUserName(taken, baseName);
    assert NatToString(1) == "1";
    if base in taken {
      var m :| LeastFreeSuffix(taken, base, m) && r == Candidate(base, m);
      CandidateInjective(base, m, 1);
    }
  }

  /**
   * `GenerateUniqueUserName` of the controller: normalise the name, then
   * search for a free one.
   */
  method GenerateUniqueUserName(taken: set<string>, baseName: string) returns (userName: string)
    ensures userName !in taken
    ensures userName == UniqueUserName(taken, baseName)
  {
    var base := Normalise(baseName);
    userName := ProbeSuffixes(taken, base);
  }

  /**
   * The search loop of the controller: probe the base, then suffixes 2, 3,
   * ... until a name is free. It terminates because the taken names are
   * finitely many and distinct suffixes give distinct names.
   */
  method ProbeSuffixes(taken: set<string>, base: string) returns (userName: string)
    ensures userName !in taken
    ensures base !in taken ==> userName == base
    ensures base in taken ==> exists m :: LeastFreeSuffix(taken, base, m) && userName == Candidate(base, m)
    ensures userName == FreeName(taken, base)
  {
    if base !in taken {
      return base;
    }
    var suffix: nat := 1;
    var temp := base;
    while temp in taken
      invariant suffix >= 1
      invariant temp == Probe(base, suffix)
      invariant Tried(base, suffix) <= taken
      decreases Untried(taken, base, suffix)
    {
      ProbeProgress(taken, base, suffix);
      suffix := suffix + 1;
      temp := Probe(base, suffix);
    }
    ProbeFinds(taken, base, suffix);
    userName := temp;
  }

  /** When the loop stops at a free candidate, it has found the least free suffix. */
  lemma ProbeFinds(taken: set<string>, base: string, suffix: nat)
    requires base in taken && suffix >= 1
    requires Tried(base, suffix) <= taken
    requires Probe(base, suffix) !in taken
    ensures LeastFreeSuffix(taken, base, suffix)
    ensures Candidate(base, suffix) == FreeName(taken, base)
  {
    TriedAllTaken(taken, base, suffix);
    var m := FreeSuffix(taken, base, 2);
    assert LeastFreeSuffix(taken, base, m);
    LeastFreeSuffixUnique(taken, base, suffix, m);
  }
}
