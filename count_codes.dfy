/**
 * The first counting program: one search per second step (2, 4, ...,
 * LAST_DIGIT_STEP), each counting the cyclic Gray codes that begin with step
 * 1 and then that step, and a main routine that adds the counts.  The search
 * walks the candidates in increasing sequence-number order, checking each from
 * the first step it still has to check, and after a valid code moves on by
 * incrementing only its last one or two steps.
 */
module CountCodes {
  import opened Bits
  import opened Numerals
  import opened PermQueue
  import opened Chimera
  import opened CodeSearch

  lemma XorOneEven(v: nat)
    requires v > 0 && v % 2 == 0
    ensures Xor(1, v) == v + 1
  {
  }

  /** The first two checks always pass: step 1 reaches 1, and the second step a value above 1. */
  lemma StartFresh(t: seq<nat>, b: seq<nat>, f: seq<bool>, s: nat, n: nat, limit: nat)
    requires Frame(t, b, f, s, n) && s <= 1 && t[..2] == [1, limit] && IsStepMask(limit, n) && limit != 1
    ensures Xor(b[s], t[s]) != 0 && Xor(b[s], t[s]) < Pow2(n) && !f[Xor(b[s], t[s])]
  {
    assert t[0] == 1 && t[1] == limit by {
      assert t[..2][0] == t[0] && t[..2][1] == t[1];
    }
    StepMaskIsPow2(limit, n);
    assert Pow2(n) == 2 * Pow2(n - 1);
    if s == 1 {
      assert t[..1] == [1];
      assert Walk(t[..1]) == [0, 1] by {
        assert t[..1][..0] == [];
      }
      assert b[1] == b[..2][1];
      XorOneEven(limit);
      assert b[1..2] == [1];
    }
  }

  /** Clearing the flag of 0 changes nothing: the walk never returns to 0 before the end. */
  lemma FrameClearZero(t: seq<nat>, b: seq<nat>, f: seq<bool>, s: nat, n: nat)
    requires Frame(t, b, f, s, n)
    ensures Frame(t, b, f[0 := false], s, n)
  {
    assert 0 !in b[1..s + 1] by {
      forall i | 1 <= i < s + 1
        ensures b[i] != 0
      {
        assert b[..s + 1][0] != b[..s + 1][i];
      }
    }
  }

  /**
   * The checking loop: from position s0, compute each next value; stop at an
   * early 0 or a value already reached (invalid), or at the final 0 (valid).
   */
  method Check(test: array<nat>, bffr: array<nat>, flags: array<bool>, s0: nat, n: nat, ghost limit: nat)
    returns (s: nat, valid: bool)
    requires IsStepMask(limit, n) && limit != 1
    requires Frame(test[..], bffr[..], flags[..], s0, n) && test[..2] == [1, limit]
    modifies bffr, flags
    ensures Frame(test[..], bffr[..], flags[..], s, n) && s0 <= s && 2 <= s
    ensures valid ==> s == Pow2(n) - 1 && bffr[Pow2(n)] == 0 && IsGrayCycle(test[..Pow2(n)], n)
  {
    var len := Pow2(n);
    s := s0;
    while true
      invariant Frame(test[..], bffr[..], flags[..], s, n) && s0 <= s
      decreases len - s
    {
      WalkBound(test[..], s, n);
      assert bffr[s] == Walk(test[..][..s])[s];
      StepMaskBelow(test[s], n);
      XorBound(bffr[s], test[s], n);
      var v := Xor(bffr[s], test[s]);
      if s <= 1 {
        StartFresh(test[..], bffr[..], flags[..], s, n, limit);
      }
      FrameScratch(test[..], bffr[..], flags[..], s, n, v);
      bffr[s + 1] := v;
      if v == 0 {
        if s < len - 1 {
          return s, false;
        }
        FrameClosed(test[..], bffr[..], flags[..], n);
        return s, true;
      }
      if s == len - 1 {
        NoFreshAtEnd(test[..], bffr[..], flags[..], n, v);
      }
      if flags[v] {
        return s, false;
      }
      FrameForward(test[..], bffr[..], flags[..], s, n, v);
      flags[v] := true;
      s := s + 1;
    }
  }

  /**
   * Moving on from a valid code: a valid code never repeats a step, so only
   * the last step can be the highest mask; that one becomes 1 and the step
   * before it is doubled, otherwise the last step is doubled.
   */
  method AdvanceValid(test: array<nat>, bffr: array<nat>, flags: array<bool>, n: nat) returns (s: nat)
    requires n >= 2 && test.Length == Pow2(n)
    requires Frame(test[..], bffr[..], flags[..], Pow2(n) - 1, n) && bffr[Pow2(n)] == 0 && IsGrayCycle(test[..], n)
    modifies test, flags
    ensures Frame(test[..], bffr[..], flags[..], s, n) && Pow2(n) - 2 <= s
    ensures Raised(old(test[..]), test[..], s, n)
  {
    ghost var t0, f0 := test[..], flags[..];
    var len := Pow2(n);
    s := len - 1;
    if test[s] == Pow2(n - 1) {
      AdvanceLast(t0, bffr[..], f0, n);
      test[s] := 1;
      s := s - 1;
      flags[bffr[len]] := false;
    } else {
      AdvanceOne(t0, bffr[..], f0, n);
    }
    test[s] := test[s] * 2;
    flags[bffr[s + 1]] := false;
  }

  /** The last step is not the highest mask: doubling it keeps the frame. */
  lemma AdvanceOne(t0: seq<nat>, b: seq<nat>, f: seq<bool>, n: nat)
    requires n >= 2 && |t0| == Pow2(n) && Frame(t0, b, f, Pow2(n) - 1, n) && b[Pow2(n)] == 0
    requires t0[Pow2(n) - 1] != Pow2(n - 1)
    ensures Frame(t0[Pow2(n) - 1 := 2 * t0[Pow2(n) - 1]], b, f[0 := false], Pow2(n) - 1, n)
    ensures Raised(t0, t0[Pow2(n) - 1 := 2 * t0[Pow2(n) - 1]], Pow2(n) - 1, n)
  {
    var s := Pow2(n) - 1;
    FrameClearZero(t0, b, f, s, n);
    FrameBump(t0, t0[s := 2 * t0[s]], b, f[0 := false], s, n);
    StepMaskBelow(t0[s], n);
    assert t0[s := 2 * t0[s]][..s] == t0[..s];
  }

  /**
   * The last step is the highest mask: it becomes 1 and the step before it,
   * which differs from it, is doubled.
   */
  lemma AdvanceLast(t0: seq<nat>, b: seq<nat>, f: seq<bool>, n: nat)
    requires n >= 2 && |t0| == Pow2(n) && Frame(t0, b, f, Pow2(n) - 1, n) && b[Pow2(n)] == 0
    requires IsGrayCycle(t0, n) && t0[Pow2(n) - 1] == Pow2(n - 1)
    ensures b[Pow2(n) - 1] < Pow2(n)
    ensures var s := Pow2(n) - 2; var t := t0[s + 1 := 1][s := 2 * t0[s]];
      Frame(t, b, f[0 := false][b[s + 1] := false], s, n) && Raised(t0, t, s, n)
  {
    Pow2Monotone(1, n);
    var s := Pow2(n) - 2;
    GrayAdjacent(t0, n, s);
    FrameClearZero(t0, b, f, s + 1, n);
    FrameBack(t0, b, f[0 := false], s + 1, n);
    var t1 := t0[s + 1 := 1];
    var t := t1[s := 2 * t0[s]];
    assert Masks(t1, Pow2(n), n) by {
      assert IsStepMask(1, n);
    }
    assert t1[..s] == t0[..s];
    FrameKeep(t0, t1, b, f[0 := false][b[s + 1] := false], s, n);
    FrameBump(t1, t, b, f[0 := false][b[s + 1] := false], s, n);
    StepMaskBelow(t0[s], n);
    assert t[..s] == t0[..s];
  }

  /**
   * The loop state of the search: the codes found are valid, begin with the
   * set start, come in increasing order and all rank below the candidate t.
   */
  ghost predicate Found(codes: seq<seq<nat>>, count: nat, t: seq<nat>, n: nat, startStep: nat)
  {
    Pow2(n) <= |t| && count == |codes| && Increasing(codes, n)
    && (forall i :: 0 <= i < |codes| ==> IsGrayCycle(codes[i], n) && codes[i][..2] == [1, startStep])
    && (forall i :: 0 <= i < |codes| ==> Rank(codes[i], n) < Rank(t, n))
  }

  /** As Found, but the last code may be the candidate itself. */
  ghost predicate FoundUpTo(codes: seq<seq<nat>>, count: nat, t: seq<nat>, n: nat, startStep: nat)
  {
    Pow2(n) <= |t| && count == |codes| && Increasing(codes, n)
    && (forall i :: 0 <= i < |codes| ==> IsGrayCycle(codes[i], n) && codes[i][..2] == [1, startStep])
    && (forall i :: 0 <= i < |codes| ==> Rank(codes[i], n) <= Rank(t, n))
  }

  /** Moving to a higher candidate puts every code found strictly below it. */
  lemma FoundRaised(codes: seq<seq<nat>>, count: nat, t: seq<nat>, t': seq<nat>, s: nat, n: nat, startStep: nat)
    requires FoundUpTo(codes, count, t, n, startStep) && Masks(t, Pow2(n), n) && Masks(t', Pow2(n), n)
    requires Raised(t, t', s, n)
    ensures Found(codes, count, t', n, startStep) && Rank(t, n) < Rank(t', n)
  {
    CandidateIncreases(t, t', s, n);
  }

  /** Recording a valid candidate. */
  lemma FoundSnoc(codes: seq<seq<nat>>, count: nat, t: seq<nat>, n: nat, startStep: nat)
    requires Found(codes, count, t, n, startStep) && |t| == Pow2(n)
    requires IsGrayCycle(t, n) && t[..2] == [1, startStep]
    ensures FoundUpTo(codes + [t], count + 1, t, n, startStep)
  {
    IncreasingSnoc(codes, t, n);
  }

  /** One pass of the search loop: check the candidate, count it if valid, and move on. */
  method SearchStep(test: array<nat>, bffr: array<nat>, flags: array<bool>, lowest: array<nat>,
                    s0: nat, n: nat, startStep: nat, count0: nat, ghost codes0: seq<seq<nat>>)
    returns (s: nat, count: nat, ghost codes: seq<seq<nat>>)
    requires n >= 2 && lowest[..] == Lowest(n) && IsStepMask(startStep, n) && startStep != 1
    requires test.Length == Pow2(n) && test != lowest
    requires Frame(test[..], bffr[..], flags[..], s0, n) && test[..2] == [1, startStep]
    requires Found(codes0, count0, test[..], n, startStep)
    modifies test, bffr, flags
    ensures Frame(test[..], bffr[..], flags[..], s, n)
    ensures test[1] == startStep ==> test[..2] == [1, startStep]
    ensures Found(codes, count, test[..], n, startStep) && Rank(old(test[..]), n) < Rank(test[..], n)
  {
    var valid;
    s, valid := Check(test, bffr, flags, s0, n, startStep);
    ghost var before := test[..];
    assert before[..Pow2(n)] == before;
    if valid {
      s, count, codes := RecordValid(test, bffr, flags, n, startStep, count0, codes0);
    } else {
      count, codes := count0, codes0;
      s := SkipInvalid(test, bffr, flags, lowest, s, n, startStep, count0, codes0);
    }
  }

  /** A valid candidate: record it, then move to the next candidate. */
  method RecordValid(test: array<nat>, bffr: array<nat>, flags: array<bool>, n: nat, startStep: nat,
                     count0: nat, ghost codes0: seq<seq<nat>>)
    returns (s: nat, count: nat, ghost codes: seq<seq<nat>>)
    requires n >= 2 && test.Length == Pow2(n)
    requires Frame(test[..], bffr[..], flags[..], Pow2(n) - 1, n) && bffr[Pow2(n)] == 0 && IsGrayCycle(test[..], n)
    requires test[..2] == [1, startStep] && Found(codes0, count0, test[..], n, startStep)
    modifies test, flags
    ensures count == count0 + 1 && codes == codes0 + [old(test[..])]
    ensures Frame(test[..], bffr[..], flags[..], s, n)
    ensures test[1] == startStep ==> test[..2] == [1, startStep]
    ensures Found(codes, count, test[..], n, startStep) && Rank(old(test[..]), n) < Rank(test[..], n)
  {
    ghost var before := test[..];
    FoundSnoc(codes0, count0, before, n, startStep);
    count, codes := count0 + 1, codes0 + [before];
    s := AdvanceValid(test, bffr, flags, n);
    assert test[..2] == test[..s][..2];
    FoundRaised(codes, count, before, test[..], s, n, startStep);
  }

  /** An invalid candidate: skip past every candidate that shares its failing prefix. */
  method SkipInvalid(test: array<nat>, bffr: array<nat>, flags: array<bool>, lowest: array<nat>,
                     s0: nat, n: nat, startStep: nat, count: nat, ghost codes: seq<seq<nat>>)
    returns (s: nat)
    requires n >= 2 && lowest[..] == Lowest(n) && IsStepMask(startStep, n) && startStep != 1
    requires test.Length == Pow2(n) && test != lowest
    requires Frame(test[..], bffr[..], flags[..], s0, n) && 2 <= s0 && test[..2] == [1, startStep]
    requires Found(codes, count, test[..], n, startStep)
    modifies test, flags
    ensures Frame(test[..], bffr[..], flags[..], s, n)
    ensures test[1] == startStep ==> test[..2] == [1, startStep]
    ensures Found(codes, count, test[..], n, startStep) && Rank(old(test[..]), n) < Rank(test[..], n)
  {
    ghost var before := test[..];
    assert FoundUpTo(codes, count, before, n, startStep);
    s := Increment(test, bffr, flags, lowest, s0, n, [1], startStep);
    FoundRaised(codes, count, before, test[..], s, n, startStep);
  }

  /**
   * calculateCodesWithSetStart: counts the cyclic Gray codes that begin with
   * step 1 and then startStep.  codes lists them in the order found.
   */
  method CalculateCodesWithSetStart(n: nat, startStep: nat, lowest: array<nat>)
    returns (count: nat, ghost codes: seq<seq<nat>>)
    requires n >= 2 && lowest[..] == Lowest(n) && IsStepMask(startStep, n) && startStep != 1
    ensures count == |codes| && Increasing(codes, n)
    ensures forall i :: 0 <= i < |codes| ==> IsGrayCycle(codes[i], n) && codes[i][..2] == [1, startStep]
  {
    var len := Pow2(n);
    var test, bffr, flags := Start(n, startStep, lowest);
    var s: nat := 0;
    count, codes := 0, [];
    while test[1] == startStep
      invariant Frame(test[..], bffr[..], flags[..], s, n) && test.Length == len
      invariant test[1] == startStep ==> test[..2] == [1, startStep]
      invariant Found(codes, count, test[..], n, startStep)
      decreases Pow(n, len) - Rank(test[..], n)
    {
      RankBound(test[..], n);
      s, count, codes := SearchStep(test, bffr, flags, lowest, s, n, startStep, count, codes);
      RankBound(test[..], n);
    }
  }

  /** The start: steps 1, startStep, then the lowest sequence; no value reached yet. */
  method Start(n: nat, startStep: nat, lowest: array<nat>)
    returns (test: array<nat>, bffr: array<nat>, flags: array<bool>)
    requires n >= 2 && lowest[..] == Lowest(n) && IsStepMask(startStep, n)
    ensures fresh(test) && fresh(bffr) && fresh(flags) && test.Length == Pow2(n)
    ensures Frame(test[..], bffr[..], flags[..], 0, n) && test[..2] == [1, startStep]
  {
    var len := Pow2(n);
    Pow2Monotone(1, n);
    test := new nat[len](_ => 0);
    test[0] := 1;
    test[1] := startStep;
    forall j | 2 <= j < len {
      test[j] := lowest[j - 2];
    }
    bffr := new nat[len + 1](_ => 0);
    flags := new bool[len](_ => false);
    LowestSteps(n);
    assert Masks(test[..], len, n) by {
      forall i | 0 <= i < len
        ensures IsStepMask(test[i], n)
      {
        if i >= 2 {
          assert test[i] == Lowest(n)[i - 2];
        }
      }
    }
    assert test[..2] == [1, startStep];
    assert bffr[..1] == [0];
  }

  /** The runs are joined in order of second step: codes from different runs differ there. */
  lemma DistinctAppend(found: seq<seq<nat>>, codes: seq<seq<nat>>, i: nat)
    requires AllDistinct(found) && AllDistinct(codes)
    requires forall c :: c in found ==> 2 <= |c| && c[1] < Pow2(i)
    requires forall c :: c in codes ==> 2 <= |c| && c[1] == Pow2(i)
    ensures AllDistinct(found + codes)
  {
    var all := found + codes;
    forall a, b | 0 <= a < b < |all|
      ensures all[a] != all[b]
    {
      if b < |found| {
        assert all[a] == found[a] && all[b] == found[b];
      } else if a >= |found| {
        assert all[a] == codes[a - |found|] && all[b] == codes[b - |found|];
      } else {
        assert all[a] in found && all[b] in codes;
      }
    }
  }

  /** Appending the codes of start step 2^i keeps the list of codes found distinct and bounded by 2^(i+1). */
  lemma FoundStep(n: nat, i: nat, found: seq<seq<nat>>, codes: seq<seq<nat>>)
    requires 1 <= i < n && AllDistinct(found)
    requires forall c :: c in found ==> IsGrayCycle(c, n) && c[0] == 1 && c[1] != 1 && c[1] < Pow2(i)
    requires Increasing(codes, n)
    requires forall j :: 0 <= j < |codes| ==> IsGrayCycle(codes[j], n) && codes[j][..2] == [1, Pow2(i)]
    ensures AllDistinct(found + codes)
    ensures forall c :: c in found + codes ==> IsGrayCycle(c, n) && c[0] == 1 && c[1] != 1 && c[1] < Pow2(i + 1)
  {
    IncreasingDistinct(codes, n);
    Pow2Monotone(0, i);
    forall c | c in codes
      ensures 2 <= |c| && c[0] == 1 && c[1] == Pow2(i)
    {
      var k :| 0 <= k < |codes| && codes[k] == c;
      assert c[..2] == [1, Pow2(i)];
    }
    DistinctAppend(found, codes, i);
    Pow2Monotone(i, i + 1);
  }

  /**
   * main: one search per second step 2^i for i from 1 to NUM_DIGITS - 1, the
   * total of their counts, and the tentative total NUM_DIGITS times that.
   * found lists every code counted: they are pairwise different cyclic Gray
   * codes beginning with step 1 and a different second step.
   */
  method CountAll(n: nat) returns (totalCount: nat, tentative: nat, ghost found: seq<seq<nat>>)
    requires n >= 1
    ensures totalCount == |found| && AllDistinct(found) && tentative == n * totalCount
    ensures n == 1 ==> found == []
    ensures forall c :: c in found ==> IsGrayCycle(c, n) && c[0] == 1 && c[1] != 1
  {
    var lowest := BuildLowest(n);
    totalCount, found := 0, [];
    var i := 1;
    while i < n
      invariant 1 <= i <= n && totalCount == |found| && AllDistinct(found) && lowest[..] == Lowest(n)
      invariant i == 1 ==> found == []
      invariant forall c :: c in found ==> IsGrayCycle(c, n) && c[0] == 1 && c[1] != 1 && c[1] < Pow2(i)
    {
      Pow2IsStepMask(i, n);
      Pow2Monotone(0, i);
      var count, codes := CalculateCodesWithSetStart(n, Pow2(i), lowest);
      FoundStep(n, i, found, codes);
      found := found + codes;
      totalCount := totalCount + count;
      i := i + 1;
    }
    tentative := n * totalCount;
  }
}
