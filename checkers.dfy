/**
 * The partition predicates.  The seed search is split into five partitions,
 * each fixing the first four or five steps of a code up to relabelling of the
 * digits (in digit numbers: 01020, 01021, 01023, 0120, 0123).  The "In"
 * predicates look forward from a position and say whether the window there
 * can be relabelled to the partition's set start; the "ForLower" predicates
 * look backward from a position and say whether the window ending there
 * could be relabelled into the set start of a partition searched earlier.
 * Steps are single-bit masks; only their equalities matter here.
 */
module Checkers {

  /** checkStepsIn01020: the first, third and fifth steps are equal. */
  predicate In01020(s: seq<nat>, i: nat)
    requires i + 4 < |s|
  {
    s[i] == s[i + 2] && s[i + 2] == s[i + 4]
  }

  /** checkStepsIn01021: the first equals the third and the second equals the fifth. */
  predicate In01021(s: seq<nat>, i: nat)
    requires i + 4 < |s|
  {
    s[i] == s[i + 2] && s[i + 1] == s[i + 4]
  }

  /** checkStepsIn01023: the first equals the third and the fifth differs from the first two. */
  predicate In01023(s: seq<nat>, i: nat)
    requires i + 4 < |s|
  {
    s[i] == s[i + 2] && s[i + 4] != s[i] && s[i + 4] != s[i + 1]
  }

  /** checkStepsIn0120: the first equals the fourth. */
  predicate In0120(s: seq<nat>, i: nat)
    requires i + 3 < |s|
  {
    s[i] == s[i + 3]
  }

  /** checkStepsIn0123: the first differs from the third and the fourth from the first two. */
  predicate In0123(s: seq<nat>, i: nat)
    requires i + 3 < |s|
  {
    s[i] != s[i + 2] && s[i + 3] != s[i] && s[i + 3] != s[i + 1]
  }

  /** checkStepsForLower01021: the window of five ending at i starts 010 and ends with its first step. */
  predicate ForLower01021(s: seq<nat>, i: nat)
    requires 4 <= i < |s|
  {
    s[i - 4] == s[i - 2] && s[i - 2] == s[i]
  }

  /** checkStepsForLower01023: the window of five ending at i starts 010 and ends with one of its first two steps. */
  predicate ForLower01023(s: seq<nat>, i: nat)
    requires 4 <= i < |s|
  {
    s[i - 4] == s[i - 2] && (s[i] == s[i - 4] || s[i] == s[i - 3])
  }

  /** checkStepsForLower0120: the window of three ending at i has equal ends. */
  predicate ForLower0120(s: seq<nat>, i: nat)
    requires 2 <= i < |s|
  {
    s[i - 2] == s[i]
  }

  /** checkStepsForLower0123: the window of four ending at i has its first step again in third or fourth place. */
  predicate ForLower0123(s: seq<nat>, i: nat)
    requires 3 <= i < |s|
  {
    s[i - 3] == s[i - 1] || s[i - 3] == s[i]
  }

  /**
   * The reference notion: the k steps of s from i have the same equality
   * pattern as pat, that is, a relabelling of the digits turns one into the
   * other.
   */
  predicate SamePattern(s: seq<nat>, i: nat, pat: seq<nat>)
    requires i + |pat| <= |s|
  {
    forall a, b :: 0 <= a < |pat| && 0 <= b < |pat| ==> (s[i + a] == s[i + b] <==> pat[a] == pat[b])
  }

  /** No two adjacent steps of the window are equal, as in every code. */
  predicate AdjacentDistinct(w: seq<nat>)
  {
    forall a :: 0 <= a < |w| - 1 ==> w[a] != w[a + 1]
  }

  /**
   * No steps a b a b in the window: those four steps would return to the
   * value before them, which a code never does.
   */
  predicate NoSquare(w: seq<nat>)
  {
    forall a :: 0 <= a < |w| - 3 ==> !(w[a] == w[a + 2] && w[a + 1] == w[a + 3])
  }

  lemma AdjacentAt(s: seq<nat>, i: nat, k: nat, a: nat)
    requires i + k <= |s| && AdjacentDistinct(s[i..i + k]) && a + 1 < k
    ensures s[i + a] != s[i + a + 1]
  {
    var w := s[i..i + k];
    assert w[a] != w[a + 1];
  }

  lemma NoSquareAt(s: seq<nat>, i: nat, k: nat, a: nat)
    requires i + k <= |s| && NoSquare(s[i..i + k]) && a + 3 < k
    ensures !(s[i + a] == s[i + a + 2] && s[i + a + 1] == s[i + a + 3])
  {
    var w := s[i..i + k];
    assert !(w[a] == w[a + 2] && w[a + 1] == w[a + 3]);
  }

  /** Digit patterns of the five set starts. */
  const Pat01020: seq<nat> := [0, 1, 0, 2, 0]
  const Pat01021: seq<nat> := [0, 1, 0, 2, 1]
  const Pat01023: seq<nat> := [0, 1, 0, 2, 3]
  const Pat0120: seq<nat> := [0, 1, 2, 0]
  const Pat0123: seq<nat> := [0, 1, 2, 3]

  lemma In01020Pattern(s: seq<nat>, i: nat)
    requires i + 4 < |s| && AdjacentDistinct(s[i..i + 5]) && NoSquare(s[i..i + 5])
    ensures In01020(s, i) <==> SamePattern(s, i, Pat01020)
  {
    AdjacentAt(s, i, 5, 0);
    AdjacentAt(s, i, 5, 2);
    NoSquareAt(s, i, 5, 0);
    if SamePattern(s, i, Pat01020) {
      assert s[i] == s[i + 2] by { assert Pat01020[0] == Pat01020[2]; }
      assert s[i + 2] == s[i + 4] by { assert Pat01020[2] == Pat01020[4]; }
    }
  }

  lemma In01021Pattern(s: seq<nat>, i: nat)
    requires i + 4 < |s| && AdjacentDistinct(s[i..i + 5])
    ensures In01021(s, i) <==> SamePattern(s, i, Pat01021)
  {
    AdjacentAt(s, i, 5, 0);
    AdjacentAt(s, i, 5, 2);
    AdjacentAt(s, i, 5, 3);
    if SamePattern(s, i, Pat01021) {
      assert s[i] == s[i + 2] by { assert Pat01021[0] == Pat01021[2]; }
      assert s[i + 1] == s[i + 4] by { assert Pat01021[1] == Pat01021[4]; }
    }
  }

  lemma In01023Pattern(s: seq<nat>, i: nat)
    requires i + 4 < |s| && AdjacentDistinct(s[i..i + 5]) && NoSquare(s[i..i + 5])
    ensures In01023(s, i) <==> SamePattern(s, i, Pat01023)
  {
    AdjacentAt(s, i, 5, 0);
    AdjacentAt(s, i, 5, 2);
    AdjacentAt(s, i, 5, 3);
    NoSquareAt(s, i, 5, 0);
    if SamePattern(s, i, Pat01023) {
      assert s[i] == s[i + 2] by { assert Pat01023[0] == Pat01023[2]; }
      assert s[i + 4] != s[i] by { assert Pat01023[4] != Pat01023[0]; }
      assert s[i + 4] != s[i + 1] by { assert Pat01023[4] != Pat01023[1]; }
    }
  }

  lemma In0120Pattern(s: seq<nat>, i: nat)
    requires i + 3 < |s| && AdjacentDistinct(s[i..i + 4])
    ensures In0120(s, i) <==> SamePattern(s, i, Pat0120)
  {
    AdjacentAt(s, i, 4, 0);
    AdjacentAt(s, i, 4, 1);
    AdjacentAt(s, i, 4, 2);
    if SamePattern(s, i, Pat0120) {
      assert s[i] == s[i + 3] by { assert Pat0120[0] == Pat0120[3]; }
    }
  }

  lemma In0123Pattern(s: seq<nat>, i: nat)
    requires i + 3 < |s| && AdjacentDistinct(s[i..i + 4])
    ensures In0123(s, i) <==> SamePattern(s, i, Pat0123)
  {
    AdjacentAt(s, i, 4, 0);
    AdjacentAt(s, i, 4, 1);
    AdjacentAt(s, i, 4, 2);
    if SamePattern(s, i, Pat0123) {
      assert s[i] != s[i + 2] by { assert Pat0123[0] != Pat0123[2]; }
      assert s[i + 3] != s[i] by { assert Pat0123[3] != Pat0123[0]; }
      assert s[i + 3] != s[i + 1] by { assert Pat0123[3] != Pat0123[1]; }
    }
  }

  /** With distinct first two steps, at most one of the three five-step partitions applies. */
  lemma FiveStepExclusive(s: seq<nat>, i: nat)
    requires i + 4 < |s| && s[i] != s[i + 1]
    ensures !(In01020(s, i) && In01021(s, i))
    ensures !(In01020(s, i) && In01023(s, i))
    ensures !(In01021(s, i) && In01023(s, i))
  {
  }

  /** The two four-step partitions never both apply. */
  lemma FourStepExclusive(s: seq<nat>, i: nat)
    requires i + 3 < |s|
    ensures !(In0120(s, i) && In0123(s, i))
  {
  }

  /** The check of the 01021 partition rejects exactly the windows of the 01020 partition. */
  lemma Lower01021Is01020(s: seq<nat>, i: nat)
    requires 4 <= i < |s|
    ensures ForLower01021(s, i) <==> In01020(s, i - 4)
  {
  }

  /** The check of the 01023 partition rejects exactly the windows of the two partitions before it. */
  lemma Lower01023IsEarlier(s: seq<nat>, i: nat)
    requires 4 <= i < |s|
    ensures ForLower01023(s, i) <==> In01020(s, i - 4) || In01021(s, i - 4)
  {
  }

  /** Whatever the 01021 check rejects, the 01023 check rejects too. */
  lemma Lower01021Implies01023(s: seq<nat>, i: nat)
    requires 4 <= i < |s|
    ensures ForLower01021(s, i) ==> ForLower01023(s, i)
  {
  }

  /** Whatever the 0120 check rejects one position earlier, the 0123 check rejects. */
  lemma Lower0120Implies0123(s: seq<nat>, i: nat)
    requires 3 <= i < |s|
    ensures ForLower0120(s, i - 1) ==> ForLower0123(s, i)
  {
  }

  /** The five partitions, with the constants of their search threads. */
  datatype Partition = P01020 | P01021 | P01023 | P0120 | P0123

  /** The set start as step masks. */
  function SetSteps(p: Partition): (r: seq<nat>)
    ensures |r| == (if p.P0120? || p.P0123? then 4 else 5)
  {
    match p
    case P01020 => [1, 2, 1, 4, 1]
    case P01021 => [1, 2, 1, 4, 2]
    case P01023 => [1, 2, 1, 4, 8]
    case P0120 => [1, 2, 4, 1]
    case P0123 => [1, 2, 4, 8]
  }

  /** How far the lower check looks back; zero when the partition has none. */
  function StepsBack(p: Partition): (r: nat)
    ensures r < |SetSteps(p)|
  {
    match p
    case P01020 => 0
    case P01021 => 4
    case P01023 => 4
    case P0120 => 2
    case P0123 => 3
  }

  /** Whether the partition runs a lower check (all but the first). */
  predicate HasLowerCheck(p: Partition)
  {
    !p.P01020?
  }

  /** The partition's In predicate. */
  predicate InPartition(p: Partition, s: seq<nat>, i: nat)
    requires i + |SetSteps(p)| <= |s|
  {
    match p
    case P01020 => In01020(s, i)
    case P01021 => In01021(s, i)
    case P01023 => In01023(s, i)
    case P0120 => In0120(s, i)
    case P0123 => In0123(s, i)
  }

  /** The partition's lower check at position i. */
  predicate LowerCheck(p: Partition, s: seq<nat>, i: nat)
    requires StepsBack(p) <= i < |s|
  {
    match p
    case P01020 => false
    case P01021 => ForLower01021(s, i)
    case P01023 => ForLower01023(s, i)
    case P0120 => ForLower0120(s, i)
    case P0123 => ForLower0123(s, i)
  }

  /** How many digits the partition's set start uses; the rest are permuted by its extra queue. */
  function FixedDigits(p: Partition): nat
  {
    if p.P01023? || p.P0123? then 4 else 3
  }

  /**
   * Each set start satisfies its own In predicate, is not rejected by its
   * own lower check, and uses exactly FixedDigits different masks.
   */
  lemma SetStartsConsistent(p: Partition)
    ensures InPartition(p, SetSteps(p), 0)
    ensures |SetSteps(p)| - 1 >= StepsBack(p) ==> !LowerCheck(p, SetSteps(p), |SetSteps(p)| - 1)
    ensures |set x | x in SetSteps(p)| == FixedDigits(p)
  {
    var s := SetSteps(p);
    match p
    case P01020 => assert (set x | x in s) == {1, 2, 4};
    case P01021 => assert (set x | x in s) == {1, 2, 4};
    case P01023 => assert (set x | x in s) == {1, 2, 4, 8};
    case P0120 => assert (set x | x in s) == {1, 2, 4};
    case P0123 => assert (set x | x in s) == {1, 2, 4, 8};
  }

  /** Read as digit numbers, each set start has its partition's pattern. */
  lemma SetStartsMatchPatterns()
    ensures SamePattern(SetSteps(P01020), 0, Pat01020) && SamePattern(SetSteps(P01021), 0, Pat01021)
    ensures SamePattern(SetSteps(P01023), 0, Pat01023) && SamePattern(SetSteps(P0120), 0, Pat0120)
    ensures SamePattern(SetSteps(P0123), 0, Pat0123)
  {
  }
}
