/**
 * The backtracking machinery shared by both code searches.  A candidate is
 * an array of step masks; the buffer holds the values the walk reaches (0
 * first, then each value XOR the next step) and a flag per value says whether
 * the checked prefix has reached it.  Checking moves forward one step at a
 * time; incrementing moves back to the step to change, doubles its mask and
 * refills everything after it from the lowest sequence.
 */
module CodeSearch {
  import opened Bits
  import opened Numerals
  import opened PermQueue
  import opened Chimera
  import opened Counting

  /** The values the walk reaches: 0, then each value XOR the next step. */
  function Walk(t: seq<nat>): (w: seq<nat>)
    ensures |w| == |t| + 1 && w[0] == 0
  {
    if |t| == 0 then [0]
    else
      var w' := Walk(t[..|t| - 1]);
      w' + [Xor(w'[|t| - 1], t[|t| - 1])]
  }

  lemma WalkSnoc(t: seq<nat>, s: nat)
    requires s < |t|
    ensures Walk(t[..s + 1]) == Walk(t[..s]) + [Xor(Walk(t[..s])[s], t[s])]
  {
    assert t[..s + 1][..s] == t[..s];
  }

  /** The walk of a shorter prefix is a prefix of the walk. */
  lemma {:induction false} WalkPrefix(t: seq<nat>, k: nat, j: nat)
    requires j <= k <= |t|
    ensures Walk(t[..k])[..j + 1] == Walk(t[..j])
    decreases k - j
  {
    if j < k {
      WalkSnoc(t, k - 1);
      WalkPrefix(t, k - 1, j);
      assert Walk(t[..k])[..j + 1] == Walk(t[..k - 1])[..j + 1];
    } else {
      assert Walk(t[..k])[..j + 1] == Walk(t[..k]);
    }
  }

  /** Every step of the first k is a step mask for n digits. */
  ghost predicate Masks(t: seq<nat>, k: nat, n: nat)
  {
    k <= |t| && forall i :: 0 <= i < k ==> IsStepMask(t[i], n)
  }

  /** With step masks, the walk stays below 2^n. */
  lemma {:induction false} WalkBound(t: seq<nat>, k: nat, n: nat)
    requires Masks(t, k, n)
    ensures forall j :: 0 <= j <= k ==> Walk(t[..k])[j] < Pow2(n)
    decreases k
  {
    if k > 0 {
      WalkBound(t, k - 1, n);
      WalkSnoc(t, k - 1);
      StepMaskBelow(t[k - 1], n);
      XorBound(Walk(t[..k - 1])[k - 1], t[k - 1], n);
    }
  }

  /**
   * The state both searches keep while checking position s: the steps are
   * masks, the buffer holds the walk of the first s steps, that walk never
   * repeats a value, and the flags mark exactly the values it reached after
   * the start.
   */
  ghost predicate Frame(t: seq<nat>, b: seq<nat>, f: seq<bool>, s: nat, n: nat)
  {
    s < Pow2(n) && |b| == Pow2(n) + 1 && |f| == Pow2(n) && Masks(t, Pow2(n), n)
    && b[..s + 1] == Walk(t[..s]) && AllDistinct(b[..s + 1])
    && forall v :: 0 <= v < Pow2(n) ==> (f[v] <==> v in b[1..s + 1])
  }

  /** Changing only steps from s on keeps the frame at s. */
  lemma FrameKeep(t: seq<nat>, t': seq<nat>, b: seq<nat>, f: seq<bool>, s: nat, n: nat)
    requires Frame(t, b, f, s, n) && Masks(t', Pow2(n), n) && t'[..s] == t[..s]
    ensures Frame(t', b, f, s, n)
  {
  }

  /** Stepping back one position: the last value reached is unflagged. */
  lemma FrameBack(t: seq<nat>, b: seq<nat>, f: seq<bool>, s: nat, n: nat)
    requires Frame(t, b, f, s, n) && s > 0
    ensures b[s] < Pow2(n) && Frame(t, b, f[b[s] := false], s - 1, n)
  {
    WalkPrefix(t, s, s - 1);
    assert b[..s] == b[..s + 1][..s];
    WalkBound(t, s, n);
    assert b[s] == Walk(t[..s])[s];
    assert b[s] !in b[1..s] by {
      forall i | 1 <= i < s
        ensures b[i] != b[s]
      {
        assert b[..s + 1][i] != b[..s + 1][s];
      }
    }
    assert b[1..s + 1] == b[1..s] + [b[s]];
  }

  /** Stepping forward past a fresh non-zero value v. */
  lemma FrameForward(t: seq<nat>, b: seq<nat>, f: seq<bool>, s: nat, n: nat, v: nat)
    requires Frame(t, b, f, s, n) && s + 1 < Pow2(n)
    requires v == Xor(b[s], t[s]) && v != 0 && v < Pow2(n) && !f[v]
    ensures Frame(t, b[s + 1 := v], f[v := true], s + 1, n)
  {
    var b' := b[s + 1 := v];
    WalkSnoc(t, s);
    assert b'[..s + 2] == b[..s + 1] + [v];
    assert b[..s + 1][0] == 0;
    var c := b'[..s + 2];
    forall i, j | 0 <= i < j < s + 2
      ensures c[i] != c[j]
    {
      if j == s + 1 && i > 0 {
        assert b[..s + 1][i] in b[1..s + 1];
      } else if j < s + 1 {
        assert b[..s + 1][i] != b[..s + 1][j];
      }
    }
    assert b'[1..s + 2] == b[1..s + 1] + [v];
  }

  /**
   * Pigeonhole: a walk whose first 2^n values are distinct and below 2^n
   * reaches every value below 2^n.
   */
  lemma Pigeonhole(b: seq<nat>, n: nat, v: nat)
    requires |b| == Pow2(n) && AllDistinct(b) && (forall i :: 0 <= i < |b| ==> b[i] < Pow2(n)) && v < Pow2(n)
    ensures v in b
  {
    var S := set i | 0 <= i < |b| :: b[i];
    var R := Below(Pow2(n));
    BelowCard(Pow2(n));
    DistinctCard(b);
    assert S <= R;
    if v !in S {
      assert S <= R - {v};
      SubsetCard(S, R - {v});
    }
  }

  /**
   * At the last position, a fresh non-zero value cannot exist: every value
   * below 2^n has been reached.
   */
  lemma NoFreshAtEnd(t: seq<nat>, b: seq<nat>, f: seq<bool>, n: nat, v: nat)
    requires Frame(t, b, f, Pow2(n) - 1, n) && v < Pow2(n) && v != 0
    ensures f[v]
  {
    var s := Pow2(n) - 1;
    WalkBound(t, s, n);
    Pigeonhole(b[..s + 1], n, v);
    var i :| 0 <= i < s + 1 && b[..s + 1][i] == v;
    assert b[1..s + 1][i - 1] == v;
  }

  /** The step before position s; the source's guard entry 0 before the first. */
  function PrevStep(t: seq<nat>, s: nat): nat
    requires s <= |t|
  {
    if s == 0 then 0 else t[s - 1]
  }

  /**
   * The fixed steps before the limit step, and the limit step: every fixed step
   * can be incremented (none is the highest mask), and doubling the last fixed
   * step never gives the step before it.
   */
  ghost predicate StartShape(P: seq<nat>, limit: nat, n: nat)
  {
    n >= 2 && |P| >= 1 && IsStepMask(limit, n)
    && (forall i :: 0 <= i < |P| ==> IsStepMask(P[i], n) && P[i] != Pow2(n - 1))
    && 2 * P[|P| - 1] != PrevStep(P, |P| - 1)
  }

  /** The digit numbers of steps: Ctz of each mask. */
  function Logs(t: seq<nat>): (ds: seq<nat>)
    ensures |ds| == |t|
  {
    seq(|t|, i requires 0 <= i < |t| => Ctz(t[i]))
  }

  /** The masks of the first 2^n steps as base-n digits. */
  lemma LogsDigits(t: seq<nat>, n: nat)
    requires Masks(t, Pow2(n), n)
    ensures IsDigits(Logs(t[..Pow2(n)]), n)
  {
    forall i | 0 <= i < Pow2(n)
      ensures Ctz(t[i]) < n
    {
      StepMaskIsPow2(t[i], n);
    }
  }

  /**
   * A candidate that agrees with another before position s and has a larger
   * mask at s has a larger numeral: the search only moves upward.
   */
  lemma CandidateIncreases(t: seq<nat>, t': seq<nat>, s: nat, n: nat)
    requires Masks(t, Pow2(n), n) && Masks(t', Pow2(n), n) && s < Pow2(n)
    requires t'[..s] == t[..s] && t'[s] > t[s]
    ensures Num(Logs(t[..Pow2(n)]), n) < Num(Logs(t'[..Pow2(n)]), n)
  {
    var x, y := Logs(t[..Pow2(n)]), Logs(t'[..Pow2(n)]);
    assert x[..s] == y[..s] by {
      forall i | 0 <= i < s
        ensures x[i] == y[i]
      {
        assert t[..s][i] == t'[..s][i];
      }
    }
    MaskLogIncreases(t[s], t'[s], n);
    assert x[s] == Ctz(t[s]) && y[s] == Ctz(t'[s]);
    LogsDigits(t, n);
    LogsDigits(t', n);
    DigitsIncrease(x, y, s, n);
  }

  /** A larger step mask has a larger digit number. */
  lemma MaskLogIncreases(a: nat, b: nat, n: nat)
    requires IsStepMask(a, n) && IsStepMask(b, n) && a < b
    ensures Ctz(a) < Ctz(b)
  {
    StepMaskIsPow2(a, n);
    StepMaskIsPow2(b, n);
    if Ctz(b) < Ctz(a) {
      Pow2Monotone(Ctz(b), Ctz(a));
    }
  }

  /** Equal digits before s and a larger digit at s: a larger numeral. */
  lemma DigitsIncrease(x: seq<nat>, y: seq<nat>, s: nat, n: nat)
    requires |x| == |y| && s < |x| && IsDigits(x, n) && IsDigits(y, n)
    requires x[..s] == y[..s] && x[s] < y[s]
    ensures Num(x, n) < Num(y, n)
  {
    assert x[s..][0] < y[s..][0];
    LexLessFrom(x, y, s);
    LexLessNum(x, y, n);
  }

  /**
   * t differs from t0 only from position s on, has a larger mask at s, and
   * keeps the entries past the first 2^n.
   */
  ghost predicate Raised(t0: seq<nat>, t: seq<nat>, s: nat, n: nat)
  {
    s < Pow2(n) <= |t0| == |t| && t[..s] == t0[..s] && t[s] > t0[s] && t[Pow2(n)..] == t0[Pow2(n)..]
  }

  /** After the increment the set start P + [limit] is intact past s, or the limit step changed. */
  ghost predicate Classified(t: seq<nat>, s: nat, P: seq<nat>, limit: nat)
  {
    |P| < |t| && ((|P| < s && t[..|P| + 1] == P + [limit]) || (s <= |P| && t[|P|] != limit))
  }

  /**
   * The increment: back over every highest mask, double the mask there, and
   * again while it equals the step before it; then refill the rest from the
   * lowest sequence.  Starting past the limit step with the set start intact,
   * it either stays past the limit step with the set start intact or changes
   * the limit step.
   */
  method Increment(test: array<nat>, bffr: array<nat>, flags: array<bool>, lowest: array<nat>, s0: nat, n: nat,
                   ghost P: seq<nat>, ghost limit: nat)
    returns (s: nat)
    requires StartShape(P, limit, n) && lowest[..] == Lowest(n) && test != lowest
    requires Frame(test[..], bffr[..], flags[..], s0, n)
    requires |P| < s0 && test[..|P|] == P && test[|P|] == limit
    modifies test, flags
    ensures Frame(test[..], bffr[..], flags[..], s, n)
    ensures s <= s0 && Raised(old(test[..]), test[..], s, n)
    ensures test[s] != PrevStep(test[..], s)
    ensures test[s + 1..Pow2(n)] == Lowest(n)[..Pow2(n) - 1 - s]
    ensures Classified(test[..], s, P, limit)
  {
    ghost var t0 := test[..];
    s := BumpLoop(test, bffr, flags, s0, n, P, limit);
    ghost var t1 := test[..];
    Refill(test, lowest, s, n);
    RefillKeeps(t0, t1, test[..], bffr[..], flags[..], s, n, P, limit);
  }

  /** The value-level facts the refill keeps. */
  lemma RefillKeeps(t0: seq<nat>, t1: seq<nat>, t: seq<nat>, b: seq<nat>, f: seq<bool>, s: nat, n: nat,
                    P: seq<nat>, limit: nat)
    requires StartShape(P, limit, n) && Frame(t1, b, f, s, n) && Raised(t0, t1, s, n)
    requires t1[s] != PrevStep(t1, s)
    requires BumpExit(t1, s, P, limit, n)
    requires t == t1[..s + 1] + Lowest(n)[..Pow2(n) - 1 - s] + t1[Pow2(n)..]
    ensures Frame(t, b, f, s, n) && Raised(t0, t, s, n) && t[s] != PrevStep(t, s)
    ensures t[s + 1..Pow2(n)] == Lowest(n)[..Pow2(n) - 1 - s]
    ensures Classified(t, s, P, limit)
  {
    RefillParts(t1, t, s, n);
    RefillMasks(t1, t, s, n);
    FrameKeep(t1, t, b, f, s, n);
    var L := |P|;
    if s == L - 1 {
      assert t[L] == t[s + 1..Pow2(n)][0];
      Pow2Monotone(0, n - 1);
      assert Lowest(n)[0] == 1;
    } else if L < s {
      assert t[..L + 1] == t[..s][..L + 1];
    }
  }

  lemma RefillParts(t1: seq<nat>, t: seq<nat>, s: nat, n: nat)
    requires n >= 1 && s < Pow2(n) <= |t1|
    requires t == t1[..s + 1] + Lowest(n)[..Pow2(n) - 1 - s] + t1[Pow2(n)..]
    ensures |t| == |t1| && t[..s + 1] == t1[..s + 1] && t[..s] == t1[..s] && t[s] == t1[s]
    ensures t[s + 1..Pow2(n)] == Lowest(n)[..Pow2(n) - 1 - s] && t[Pow2(n)..] == t1[Pow2(n)..]
  {
    assert t[..s + 1] == t1[..s + 1];
    assert t[..s] == t1[..s + 1][..s];
  }

  lemma RefillMasks(t1: seq<nat>, t: seq<nat>, s: nat, n: nat)
    requires n >= 1 && s < Pow2(n) && Masks(t1, Pow2(n), n) && |t| == |t1|
    requires t[..s + 1] == t1[..s + 1] && t[s + 1..Pow2(n)] == Lowest(n)[..Pow2(n) - 1 - s]
    ensures Masks(t, Pow2(n), n)
  {
    LowestSteps(n);
    forall i | 0 <= i < Pow2(n)
      ensures IsStepMask(t[i], n)
    {
      if i > s {
        assert t[i] == t[s + 1..Pow2(n)][i - s - 1];
      } else {
        assert t[i] == t1[..s + 1][i];
      }
    }
  }

  /** Where the repetition loop of the increment can stop. */
  ghost predicate BumpExit(t: seq<nat>, s: nat, P: seq<nat>, limit: nat, n: nat)
  {
    var L := |P|;
    L < Pow2(n) <= |t| && s < |t| && L >= 1 && n >= 1
    && ((L < s && t[..L + 1] == P + [limit])
        || (s == L && t[..L] == P && t[L] > limit)
        || (s == L - 1 && limit == Pow2(n - 1)))
  }

  /** memcpy of the lowest sequence into the steps after s. */
  method Refill(test: array<nat>, lowest: array<nat>, s: nat, n: nat)
    requires n >= 1 && lowest[..] == Lowest(n) && test != lowest && s < Pow2(n) <= test.Length
    modifies test
    ensures test[..] == old(test[..s + 1]) + Lowest(n)[..Pow2(n) - 1 - s] + old(test[Pow2(n)..])
  {
    forall j | s + 1 <= j < Pow2(n) {
      test[j] := lowest[j - s - 1];
    }
    assert test[..] == old(test[..s + 1]) + Lowest(n)[..Pow2(n) - 1 - s] + old(test[Pow2(n)..]);
  }

  /**
   * The state at the head of the repetition loop: only steps from s on have
   * changed, the step at s has not decreased, the fixed steps are intact, and
   * the limit step is intact unless s is at it, where it may instead equal the
   * fixed step before it and exceed the limit.
   */
  ghost predicate RepState(t0: seq<nat>, t: seq<nat>, s: nat, s0: nat, P: seq<nat>, limit: nat, n: nat)
  {
    var L := |P|;
    1 <= L <= s <= s0 < Pow2(n) <= |t| == |t0| && t[..s] == t0[..s] && t[s] >= t0[s]
    && t[Pow2(n)..] == t0[Pow2(n)..] && t[..L] == P
    && (L < s ==> t[L] == limit)
    && (s == L ==> t[L] == limit || (t[L] == P[L - 1] && t[L] > limit))
  }

  /** The repetition loop of the increment (its goto): descend, double, and again on a repeat. */
  method BumpLoop(test: array<nat>, bffr: array<nat>, flags: array<bool>, s0: nat, n: nat,
                  ghost P: seq<nat>, ghost limit: nat)
    returns (s: nat)
    requires StartShape(P, limit, n) && Frame(test[..], bffr[..], flags[..], s0, n)
    requires |P| < s0 && test[..|P|] == P && test[|P|] == limit
    modifies test, flags
    ensures Frame(test[..], bffr[..], flags[..], s, n)
    ensures s <= s0 && Raised(old(test[..]), test[..], s, n)
    ensures test[s] != PrevStep(test[..], s)
    ensures BumpExit(test[..], s, P, limit, n)
  {
    ghost var t0 := test[..];
    s := s0;
    var done := false;
    while !done
      invariant Frame(test[..], bffr[..], flags[..], s, n)
      invariant !done ==> RepState(t0, test[..], s, s0, P, limit, n)
      invariant done ==> s <= s0 && Raised(t0, test[..], s, n) && test[s] != PrevStep(test[..], s)
      invariant done ==> BumpExit(test[..], s, P, limit, n)
      decreases !done, s, Pow2(n) - test[s]
    {
      StepMaskBelow(test[s], n);
      ghost var before := test[s];
      ghost var s1 := s;
      s, done := BumpStep(test, bffr, flags, s, n, P, limit, t0, s0);
      if !done && s == s1 {
        StepMaskBelow(test[s], n);
      }
    }
  }

  /** One pass of the repetition loop: descend, double, and report whether it is a repeat. */
  method BumpStep(test: array<nat>, bffr: array<nat>, flags: array<bool>, s1: nat, n: nat,
                  ghost P: seq<nat>, ghost limit: nat, ghost t0: seq<nat>, ghost s0: nat)
    returns (s: nat, done: bool)
    requires StartShape(P, limit, n) && Frame(test[..], bffr[..], flags[..], s1, n)
    requires RepState(t0, test[..], s1, s0, P, limit, n)
    modifies test, flags
    ensures Frame(test[..], bffr[..], flags[..], s, n)
    ensures s <= s1 && (s == s1 ==> test[s] > old(test[s]))
    ensures !done ==> RepState(t0, test[..], s, s0, P, limit, n)
    ensures done ==> s <= s0 && Raised(t0, test[..], s, n) && test[s] != PrevStep(test[..], s)
    ensures done ==> BumpExit(test[..], s, P, limit, n)
  {
    ghost var L := |P|;
    s := Descend(test, bffr, flags, s1, n, P, limit);
    ghost var t1 := test[..];
    StepMaskShift(test[s], n);
    test[s] := test[s] * 2;
    ghost var t2 := test[..];
    BumpFacts(t0, t1, t2, s1, s, s0, P, limit, n);
    FrameBump(t1, t2, bffr[..], flags[..], s, n);
    done := test[s] != PrevStep(test[..], s);
  }

  /** Doubling the mask at s keeps the frame at s. */
  lemma FrameBump(t1: seq<nat>, t2: seq<nat>, b: seq<nat>, f: seq<bool>, s: nat, n: nat)
    requires n >= 1 && Frame(t1, b, f, s, n) && t1[s] != Pow2(n - 1) && t2 == t1[s := 2 * t1[s]]
    ensures Frame(t2, b, f, s, n)
  {
    StepMaskShift(t1[s], n);
    assert t2[..s] == t1[..s];
    FrameKeep(t1, t2, b, f, s, n);
  }

  /** What one descend-and-double keeps, on values. */
  lemma BumpFacts(t0: seq<nat>, t1: seq<nat>, t2: seq<nat>, s1: nat, s: nat, s0: nat,
                  P: seq<nat>, limit: nat, n: nat)
    requires StartShape(P, limit, n) && RepState(t0, t1, s1, s0, P, limit, n)
    requires |P| - 1 <= s <= s1 && t1[s] != Pow2(n - 1) && (s < |P| ==> s == |P| - 1 && limit == Pow2(n - 1))
    requires IsStepMask(t1[s], n) && t2 == t1[s := 2 * t1[s]]
    ensures t2[s] > t1[s] && t2[..s] == t1[..s] && t2[Pow2(n)..] == t1[Pow2(n)..]
    ensures t2[s] == PrevStep(t2, s) ==> RepState(t0, t2, s, s0, P, limit, n)
    ensures t2[s] != PrevStep(t2, s) ==> Raised(t0, t2, s, n) && BumpExit(t2, s, P, limit, n)
  {
    var L := |P|;
    assert t2[..s] == t1[..s];
    assert t2[Pow2(n)..] == t1[Pow2(n)..];
    StepMaskBelow(t1[s], n);
    assert t2[..s] == t0[..s] by {
      assert t1[..s] == t1[..s1][..s];
      assert t0[..s] == t0[..s1][..s];
    }
    if s < s1 {
      assert t1[s] == t1[..s1][s];
    }
    if L <= s {
      assert t2[..L] == t2[..s][..L];
      assert t1[..L] == t1[..s][..L];
    }
    if s == L - 1 {
      assert t2[..s] == P[..s] by {
        assert t1[..L][..s] == t1[..s];
      }
      assert t1[s] == P[s] by {
        assert t1[..L][s] == t1[s];
      }
    }
    if L < s {
      assert t2[..L + 1] == P + [limit] by {
        assert t2[..L + 1] == t2[..s][..L + 1];
        assert t2[..L + 1][..L] == t2[..L];
      }
    }
  }

  /**
   * The back-stepping loop of the increment: leave every highest mask,
   * unflagging the value it reached.  It stops at a fixed step at the
   * earliest, and goes below the limit step only when the limit step is the
   * highest mask.
   */
  method Descend(test: array<nat>, bffr: array<nat>, flags: array<bool>, s0: nat, n: nat,
                 ghost P: seq<nat>, ghost limit: nat)
    returns (s: nat)
    requires StartShape(P, limit, n) && Frame(test[..], bffr[..], flags[..], s0, n)
    requires |P| <= s0 && test[..|P|] == P
    ensures test[..|P|] == P
    requires |P| < s0 ==> test[|P|] == limit
    requires s0 == |P| ==> test[|P|] == limit || test[|P|] == P[|P| - 1]
    modifies flags
    ensures Frame(test[..], bffr[..], flags[..], s, n)
    ensures s <= s0 && |P| - 1 <= s && test[s] != Pow2(n - 1)
    ensures s < |P| ==> s == |P| - 1 && limit == Pow2(n - 1)
    ensures forall j :: s < j <= s0 ==> test[j] == Pow2(n - 1)
  {
    s := s0;
    while test[s] == Pow2(n - 1)
      invariant Frame(test[..], bffr[..], flags[..], s, n)
      invariant s <= s0 && |P| - 1 <= s
      invariant s < |P| ==> s == |P| - 1 && limit == Pow2(n - 1)
      invariant forall j :: s < j <= s0 ==> test[j] == Pow2(n - 1)
      invariant s < |P| ==> test[s] == P[s]
      decreases s
    {
      FrameBack(test[..], bffr[..], flags[..], s, n);
      s := s - 1;
      flags[bffr[s + 1]] := false;
    }
  }

  /**
   * A cyclic Gray code of 2^n steps: every step is a single-digit mask, the
   * walk reaches 2^n different values and the last step returns it to 0.
   */
  ghost predicate IsGrayCycle(c: seq<nat>, n: nat)
  {
    |c| == Pow2(n) && Masks(c, |c|, n) && AllDistinct(Walk(c)[..|c|]) && Walk(c)[|c|] == 0
  }

  /** A walk whose steps all leave bit d clear never sets bit d. */
  lemma {:induction false} WalkKeepsBit(t: seq<nat>, d: nat)
    requires forall i :: 0 <= i < |t| ==> Bit(t[i], d) == 0
    ensures forall j :: 0 <= j <= |t| ==> Bit(Walk(t)[j], d) == 0
    decreases |t|
  {
    if |t| == 0 {
      ZeroBit(d);
    } else {
      var t' := t[..|t| - 1];
      WalkKeepsBit(t', d);
      XorKeepsBit(Walk(t')[|t| - 1], t[|t| - 1], d);
    }
  }

  /**
   * A cyclic Gray code of length 2^n flips each of the n bits somewhere: a
   * bit no step flips stays clear along the whole walk, yet the walk visits
   * all 2^n values, 2^d among them.
   */
  lemma FlipsBit(c: seq<nat>, n: nat, d: nat)
    requires IsGrayCycle(c, n) && d < n
    ensures d in Logs(c)
  {
    if d !in Logs(c) {
      forall i | 0 <= i < |c|
        ensures Bit(c[i], d) == 0
      {
        StepMaskIsPow2(c[i], n);
        assert Logs(c)[i] == Ctz(c[i]);
        Pow2Bit(Ctz(c[i]), d);
      }
      WalkKeepsBit(c, d);
      WalkBound(c, |c|, n);
      assert c[..|c|] == c;
      var w := Walk(c)[..|c|];
      Pow2Monotone(d, n);
      Pigeonhole(w, n, Pow2(d));
      var j :| 0 <= j < |w| && w[j] == Pow2(d);
      Pow2Bit(d, d);
      assert false;
    }
  }

  /** Every digit below n occurs among the steps of a cyclic Gray code of length 2^n. */
  lemma FlipsEveryBit(c: seq<nat>, n: nat)
    requires IsGrayCycle(c, n)
    ensures forall d :: 0 <= d < n ==> d in Logs(c)
  {
    forall d | 0 <= d < n
      ensures d in Logs(c)
    {
      FlipsBit(c, n, d);
    }
  }

  /** The sequence number of a candidate read as base-n digits: the order the search follows. */
  ghost function Rank(t: seq<nat>, n: nat): nat
    requires Pow2(n) <= |t|
  {
    Num(Logs(t[..Pow2(n)]), n)
  }

  lemma RankBound(t: seq<nat>, n: nat)
    requires Masks(t, Pow2(n), n)
    ensures Rank(t, n) < Pow(n, Pow2(n))
  {
    LogsDigits(t, n);
    NumBound(Logs(t[..Pow2(n)]), n);
  }

  /** The candidates found, in the order found, have strictly increasing sequence numbers. */
  ghost predicate Increasing(cs: seq<seq<nat>>, n: nat)
  {
    (forall i :: 0 <= i < |cs| ==> Pow2(n) <= |cs[i]|)
    && forall i, j :: 0 <= i < j < |cs| ==> Rank(cs[i], n) < Rank(cs[j], n)
  }

  /** Strictly increasing sequence numbers make the codes pairwise different. */
  lemma IncreasingDistinct(cs: seq<seq<nat>>, n: nat)
    requires Increasing(cs, n)
    ensures AllDistinct(cs)
  {
    forall i, j | 0 <= i < j < |cs|
      ensures cs[i] != cs[j]
    {
      assert Rank(cs[i], n) < Rank(cs[j], n);
    }
  }

  /** Appending a candidate ranked above every earlier one keeps the order. */
  lemma IncreasingSnoc(cs: seq<seq<nat>>, c: seq<nat>, n: nat)
    requires Increasing(cs, n) && Pow2(n) <= |c|
    requires forall i :: 0 <= i < |cs| ==> Rank(cs[i], n) < Rank(c, n)
    ensures Increasing(cs + [c], n)
  {
    var cs' := cs + [c];
    forall i, j | 0 <= i < j < |cs'|
      ensures Rank(cs'[i], n) < Rank(cs'[j], n)
    {
      if j < |cs| {
        assert cs'[i] == cs[i] && cs'[j] == cs[j];
      } else {
        assert cs'[i] == cs[i];
      }
    }
  }

  /** In a cyclic Gray code no step repeats the step before it. */
  lemma GrayAdjacent(c: seq<nat>, n: nat, k: nat)
    requires IsGrayCycle(c, n) && n >= 2 && k + 1 < |c|
    ensures c[k] != c[k + 1]
  {
    var w := Walk(c);
    WalkPrefix(c, |c|, k + 2);
    WalkPrefix(c, |c|, k + 1);
    WalkSnoc(c, k + 1);
    WalkSnoc(c, k);
    WalkPrefix(c, k + 1, k);
    assert c[..|c|] == c;
    assert w[k + 1] == Xor(w[k], c[k]) by {
      assert w[..k + 2] == Walk(c[..k + 1]);
    }
    assert w[k + 2] == Xor(w[k + 1], c[k + 1]) by {
      assert w[..k + 3] == Walk(c[..k + 2]);
    }
    XorCancel(w[k], c[k]);
    assert c[k] == c[k + 1] ==> w[k + 2] == w[k];
    var u := w[..|c|];
    if k + 2 < |c| {
      assert u[k] != u[k + 2];
    } else {
      Pow2Monotone(1, n);
      assert u[0] != u[k];
    }
  }

  /** Writing the buffer past position s + 1 keeps the frame at s. */
  lemma FrameScratch(t: seq<nat>, b: seq<nat>, f: seq<bool>, s: nat, n: nat, v: nat)
    requires Frame(t, b, f, s, n)
    ensures Frame(t, b[s + 1 := v], f, s, n)
  {
    assert b[s + 1 := v][..s + 1] == b[..s + 1];
  }

  /**
   * At the last position, a walk that returns to 0 makes the candidate a
   * cyclic Gray code.
   */
  lemma FrameClosed(t: seq<nat>, b: seq<nat>, f: seq<bool>, n: nat)
    requires Frame(t, b, f, Pow2(n) - 1, n) && Xor(b[Pow2(n) - 1], t[Pow2(n) - 1]) == 0
    ensures IsGrayCycle(t[..Pow2(n)], n)
  {
    var len := Pow2(n);
    var c := t[..len];
    assert c[..len - 1] == t[..len - 1];
    assert c[..len] == c;
    WalkSnoc(c, len - 1);
    assert Walk(c)[..len] == b[..len];
  }
}
