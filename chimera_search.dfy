/**
 * The code and seed search of the chimera program (calculateCodesWithSetStart).
 * One search per partition: the candidates begin with the partition's set
 * start and the search ends when the last set step changes.  Beyond the
 * shared checks, a partition with a lower check rejects a candidate as soon
 * as the steps ending at the position being checked match an earlier
 * partition, and a valid code is checked once more across its end, with the
 * first steps of the set start appended after it.  A valid code that passes
 * the seed test is stored as a seed: the digit number of each of its steps.
 */
module ChimeraSearch {
  import opened Bits
  import opened Numerals
  import opened PermQueue
  import opened Checkers
  import opened Chimera
  import opened CodeSearch
  import opened RotationCheck

  /** The set start without its last step, and that last step, the limit step. */
  function Fixed(p: Partition): (r: seq<nat>)
    ensures |r| == |SetSteps(p)| - 1
  {
    SetSteps(p)[..|SetSteps(p)| - 1]
  }

  function Limit(p: Partition): nat
  {
    SetSteps(p)[|SetSteps(p)| - 1]
  }

  lemma Pow2AtLeast16(n: nat)
    requires n >= 4
    ensures Pow2(n) >= 16 && Pow2(n - 1) >= 8
  {
    if n > 4 {
      Pow2Monotone(4, n);
      Pow2Monotone(3, n - 1);
    }
  }

  /** For four digits or more the set start can be searched: its steps are masks and can be incremented. */
  lemma SetStartShape(p: Partition, n: nat)
    requires n >= 4
    ensures StartShape(Fixed(p), Limit(p), n)
    ensures forall i :: 0 <= i < |SetSteps(p)| ==> IsStepMask(SetSteps(p)[i], n)
    ensures StepsBack(p) <= |SetSteps(p)|
  {
    Pow2AtLeast16(n);
    Pow2IsStepMask(0, n);
    Pow2IsStepMask(1, n);
    Pow2IsStepMask(2, n);
    Pow2IsStepMask(3, n);
    assert Pow2(1) == 2 && Pow2(2) == 4 && Pow2(3) == 8;
  }

  /** The exclusive ors met on the walks of the set starts. */
  lemma XorFacts()
    ensures Xor(0, 1) == 1 && Xor(1, 2) == 3 && Xor(3, 1) == 2 && Xor(2, 4) == 6 && Xor(3, 4) == 7
    ensures Xor(6, 1) == 7 && Xor(6, 2) == 4 && Xor(6, 8) == 14 && Xor(7, 1) == 6 && Xor(7, 8) == 15
  {
    assert Xor(0, 1) == 1 && Xor(1, 0) == 1 && Xor(1, 1) == 0 && Xor(0, 2) == 2 && Xor(1, 2) == 3;
    assert Xor(1, 0) == 1 && Xor(3, 1) == 2;
    assert Xor(2, 4) == 6 && Xor(3, 4) == 7;
    assert Xor(3, 0) == 3 && Xor(6, 1) == 7 && Xor(3, 1) == 2 && Xor(6, 2) == 4;
    assert Xor(3, 4) == 7 && Xor(6, 8) == 14;
    assert Xor(7, 1) == 6;
    assert Xor(3, 2) == 1 && Xor(1, 1) == 0 && Xor(7, 8) == 15;
  }

  lemma WalkStep(t: seq<nat>, x: nat, w: seq<nat>)
    requires Walk(t) == w && |w| > 0
    ensures Walk(t + [x]) == w + [Xor(w[|w| - 1], x)]
  {
    assert (t + [x])[..|t|] == t;
  }

  lemma WalkPrefix12()
    ensures Walk([1, 2]) == [0, 1, 3]
  {
    XorFacts();
    assert Walk([]) == [0];
    assert [] + [1] == [1];
    WalkStep([], 1, [0]);
    assert [1] + [2] == [1, 2];
    WalkStep([1], 2, [0, 1]);
  }

  lemma WalkPrefix1214()
    ensures Walk([1, 2, 1, 4]) == [0, 1, 3, 2, 6]
  {
    XorFacts();
    WalkPrefix12();
    assert [1, 2] + [1] == [1, 2, 1] && [1, 2, 1] + [4] == [1, 2, 1, 4];
    WalkStep([1, 2], 1, [0, 1, 3]);
    WalkStep([1, 2, 1], 4, [0, 1, 3, 2]);
  }

  lemma WalkPrefix124()
    ensures Walk([1, 2, 4]) == [0, 1, 3, 7]
  {
    XorFacts();
    WalkPrefix12();
    assert [1, 2] + [4] == [1, 2, 4];
    WalkStep([1, 2], 4, [0, 1, 3]);
  }

  /** The walks of the five set starts. */
  lemma SetStartWalks(p: Partition)
    ensures p == P01020 ==> Walk(SetSteps(p)) == [0, 1, 3, 2, 6, 7]
    ensures p == P01021 ==> Walk(SetSteps(p)) == [0, 1, 3, 2, 6, 4]
    ensures p == P01023 ==> Walk(SetSteps(p)) == [0, 1, 3, 2, 6, 14]
    ensures p == P0120 ==> Walk(SetSteps(p)) == [0, 1, 3, 7, 6]
    ensures p == P0123 ==> Walk(SetSteps(p)) == [0, 1, 3, 7, 15]
  {
    XorFacts();
    var S := SetSteps(p);
    if |S| == 5 {
      WalkPrefix1214();
      assert S == [1, 2, 1, 4] + [S[4]];
      WalkStep([1, 2, 1, 4], S[4], [0, 1, 3, 2, 6]);
    } else {
      WalkPrefix124();
      assert S == [1, 2, 4] + [S[3]];
      WalkStep([1, 2, 4], S[3], [0, 1, 3, 7]);
    }
  }

  /** The walk of each set start reaches different values, all below 16. */
  lemma SetStartWalk(p: Partition)
    ensures AllDistinct(Walk(SetSteps(p)))
    ensures forall i :: 0 <= i < |Walk(SetSteps(p))| ==> Walk(SetSteps(p))[i] < 16
  {
    SetStartWalks(p);
  }

  lemma FixedLimit(p: Partition, t: seq<nat>)
    requires |SetSteps(p)| <= |t| && t[..|SetSteps(p)|] == SetSteps(p)
    ensures Fixed(p) + [Limit(p)] == SetSteps(p)
    ensures t[..|Fixed(p)|] == Fixed(p) && t[|Fixed(p)|] == Limit(p)
  {
    var S := SetSteps(p);
    assert t[..|S| - 1] == t[..|S|][..|S| - 1];
    assert t[|S| - 1] == t[..|S|][|S| - 1];
  }

  /** No lower check fires at the positions from to to - 1. */
  predicate NoLowerIn(p: Partition, t: seq<nat>, from: nat, to: nat)
    requires StepsBack(p) <= from && to <= |t|
  {
    forall i :: from <= i < to ==> !LowerCheck(p, t, i)
  }

  /** The lower check at i reads only the steps up to i. */
  lemma LowerLocal(p: Partition, t: seq<nat>, t': seq<nat>, i: nat, s: nat)
    requires StepsBack(p) <= i < s <= |t| && s <= |t'| && t[..s] == t'[..s]
    ensures LowerCheck(p, t, i) == LowerCheck(p, t', i)
  {
    assert forall j :: 0 <= j < s ==> t[j] == t[..s][j] && t'[j] == t'[..s][j];
  }

  lemma NoLowerKeep(p: Partition, t: seq<nat>, t': seq<nat>, from: nat, to: nat, s: nat)
    requires StepsBack(p) <= from && to <= s <= |t| && s <= |t'| && t[..s] == t'[..s]
    requires NoLowerIn(p, t, from, to)
    ensures NoLowerIn(p, t', from, to)
  {
    forall i | from <= i < to
      ensures !LowerCheck(p, t', i)
    {
      LowerLocal(p, t, t', i, s);
    }
  }

  /**
   * What the search demands of a seed: a cyclic Gray code that begins with the
   * set start; no lower check fires from the end of the set start on, across
   * the end of the code into the first set steps appended after it; and no
   * window the seed test examines is below it.
   */
  ghost predicate IsSeedCode(p: Partition, c: seq<nat>, n: nat, Q: seq<(nat, nat)>)
  {
    IsGrayCycle(c, n) && 16 <= |c| && |Q| >= 1 && c[..|SetSteps(p)|] == SetSteps(p)
    && NoLowerIn(p, c + SetSteps(p)[..StepsBack(p)], |SetSteps(p)|, |c| + StepsBack(p))
    && SeedPasses(p, c, Q)
  }

  /**
   * The loop state of the search: the seeds found are the digits of valid
   * seed codes, found in increasing order and all below the candidate t.
   */
  ghost predicate SeedsFound(p: Partition, seeds: seq<seq<nat>>, codes: seq<seq<nat>>, t: seq<nat>, n: nat,
                             Q: seq<(nat, nat)>)
  {
    Pow2(n) <= |t| && |seeds| == |codes| && Increasing(codes, n)
    && (forall i :: 0 <= i < |codes| ==> IsSeedCode(p, codes[i], n, Q) && seeds[i] == Logs(codes[i]))
    && (forall i :: 0 <= i < |codes| ==> Rank(codes[i], n) < Rank(t, n))
  }

  /** As SeedsFound, but the last code may be the candidate itself. */
  ghost predicate SeedsUpTo(p: Partition, seeds: seq<seq<nat>>, codes: seq<seq<nat>>, t: seq<nat>, n: nat,
                            Q: seq<(nat, nat)>)
  {
    Pow2(n) <= |t| && |seeds| == |codes| && Increasing(codes, n)
    && (forall i :: 0 <= i < |codes| ==> IsSeedCode(p, codes[i], n, Q) && seeds[i] == Logs(codes[i]))
    && (forall i :: 0 <= i < |codes| ==> Rank(codes[i], n) <= Rank(t, n))
  }

  /** Moving to a higher candidate puts every seed found strictly below it. */
  lemma SeedsRaised(p: Partition, seeds: seq<seq<nat>>, codes: seq<seq<nat>>, t: seq<nat>, t': seq<nat>, s: nat,
                    n: nat, Q: seq<(nat, nat)>)
    requires SeedsUpTo(p, seeds, codes, t, n, Q) && Masks(t, Pow2(n), n) && Masks(t', Pow2(n), n)
    requires Raised(t, t', s, n)
    ensures SeedsFound(p, seeds, codes, t', n, Q) && Rank(t, n) < Rank(t', n)
  {
    CandidateIncreases(t, t', s, n);
  }

  /** Recording a seed. */
  lemma SeedsSnoc(p: Partition, seeds: seq<seq<nat>>, codes: seq<seq<nat>>, t: seq<nat>, n: nat,
                  Q: seq<(nat, nat)>)
    requires SeedsFound(p, seeds, codes, t, n, Q) && Pow2(n) <= |t| && IsSeedCode(p, t[..Pow2(n)], n, Q)
    ensures SeedsUpTo(p, seeds + [Logs(t[..Pow2(n)])], codes + [t[..Pow2(n)]], t, n, Q)
  {
    var c := t[..Pow2(n)];
    assert c[..Pow2(n)] == c;
    assert Rank(c, n) == Rank(t, n);
    IncreasingSnoc(codes, c, n);
  }

  lemma WalkFullPrefix(S: seq<nat>, j: nat)
    requires j <= |S|
    ensures Walk(S)[..j + 1] == Walk(S[..j])
  {
    assert S[..|S|] == S;
    WalkPrefix(S, |S|, j);
  }

  /** Step i of the walk exclusive-ors in the i-th step. */
  lemma WalkAt(c: seq<nat>, i: nat)
    requires i < |c|
    ensures Walk(c)[i + 1] == Xor(Walk(c)[i], c[i])
  {
    WalkFullPrefix(c, i + 1);
    WalkFullPrefix(c, i);
    assert c[..i + 1][..i] == c[..i];
  }

  /** The walk of the cycle c read around it twice: the value before step i of c + c. */
  ghost function CycleValue(c: seq<nat>, i: nat): nat
    requires 0 < |c| && i < 2 * |c|
  {
    if i < |c| then Walk(c)[i] else Walk(c)[i - |c|]
  }

  /** Around a cyclic Gray code, each step exclusive-ors in the next step of c + c. */
  lemma CycleStep(c: seq<nat>, n: nat, i: nat)
    requires IsGrayCycle(c, n) && 0 < |c| && i + 1 < 2 * |c|
    ensures CycleValue(c, i + 1) == Xor(CycleValue(c, i), (c + c)[i])
  {
    if i + 1 <= |c| {
      WalkAt(c, i);
    } else {
      WalkAt(c, i - |c|);
    }
  }

  /** Values fewer than |c| steps apart around a cyclic Gray code differ. */
  lemma CycleDistinct(c: seq<nat>, n: nat, i: nat, j: nat)
    requires IsGrayCycle(c, n) && i < j < 2 * |c| && j - i < |c|
    ensures CycleValue(c, i) != CycleValue(c, j)
  {
    var w := Walk(c)[..|c|];
    var a := if i < |c| then i else i - |c|;
    var b := if j < |c| then j else j - |c|;
    assert a != b && CycleValue(c, i) == w[a] && CycleValue(c, j) == w[b];
  }

  /** Steps x y x y around a cyclic Gray code would bring the walk back to where it was. */
  lemma SquareReturns(c: seq<nat>, n: nat, i: nat)
    requires IsGrayCycle(c, n) && 0 < |c| && i + 4 < 2 * |c|
    requires (c + c)[i] == (c + c)[i + 2] && (c + c)[i + 1] == (c + c)[i + 3]
    ensures CycleValue(c, i + 4) == CycleValue(c, i)
  {
    var u, x, y := CycleValue(c, i), (c + c)[i], (c + c)[i + 1];
    CycleStep(c, n, i);
    CycleStep(c, n, i + 1);
    CycleStep(c, n, i + 2);
    CycleStep(c, n, i + 3);
    XorSquare(u, x, y);
  }

  /**
   * A cyclic Gray code of at least five steps has clean windows: no step
   * twice in a row and no steps a b a b, also across the end of the cycle.
   */
  lemma GrayCycleClean(c: seq<nat>, n: nat)
    requires IsGrayCycle(c, n) && 5 <= |c|
    ensures CleanWindows(c)
  {
    var s := c + c;
    forall k | 0 <= k < |c|
      ensures CleanWindow(s, k)
    {
      var w := s[k..k + 5];
      forall a | 0 <= a < 4
        ensures w[a] != w[a + 1]
      {
        var i := k + a;
        if s[i] == s[i + 1] {
          CycleStep(c, n, i);
          CycleStep(c, n, i + 1);
          XorCancel(CycleValue(c, i), s[i]);
          CycleDistinct(c, n, i, i + 2);
          assert false;
        }
      }
      forall a | 0 <= a < 2
        ensures !(w[a] == w[a + 2] && w[a + 1] == w[a + 3])
      {
        var i := k + a;
        if s[i] == s[i + 2] && s[i + 1] == s[i + 3] {
          SquareReturns(c, n, i);
          CycleDistinct(c, n, i, i + 4);
          assert false;
        }
      }
    }
  }

  /** Inside a fixed start S, the walk so far is a prefix of the walk of S. */
  lemma StartWalkPrefix(t: seq<nat>, b: seq<nat>, s: nat, S: seq<nat>)
    requires s < |S| <= |t| && s < |b| && t[..|S|] == S && b[..s + 1] == Walk(t[..s])
    ensures b[..s + 1] == Walk(S)[..s + 1] && Xor(b[s], t[s]) == Walk(S)[s + 1]
  {
    assert t[..s] == S[..s] by {
      assert t[..s] == t[..|S|][..s];
    }
    assert t[s] == S[s] by {
      assert t[s] == t[..|S|][s];
    }
    WalkFullPrefix(S, s);
    WalkFullPrefix(S, s + 1);
    WalkSnoc(S, s);
    assert Walk(S)[s + 1] == Walk(S)[..s + 2][s + 1];
    assert b[s] == b[..s + 1][s];
  }

  /** The first set steps always pass: each reaches a new value, below 16. */
  lemma SetStepFresh(t: seq<nat>, b: seq<nat>, f: seq<bool>, s: nat, p: Partition, n: nat)
    requires n >= 4 && Frame(t, b, f, s, n) && s < |SetSteps(p)| <= |t| && t[..|SetSteps(p)|] == SetSteps(p)
    ensures Xor(b[s], t[s]) != 0 && Xor(b[s], t[s]) < Pow2(n) && !f[Xor(b[s], t[s])] && s + 1 < Pow2(n)
  {
    Pow2AtLeast16(n);
    StartWalkPrefix(t, b, s, SetSteps(p));
    SetStartWalk(p);
    var w := Walk(SetSteps(p));
    var v := Xor(b[s], t[s]);
    assert v == w[s + 1];
    var reached := b[1..s + 1];
    forall i | 0 <= i < |reached|
      ensures reached[i] != w[s + 1]
    {
      assert reached[i] == b[..s + 1][i + 1];
      assert b[..s + 1][i + 1] == w[i + 1];
    }
    assert v !in reached;
  }

  /**
   * The first candidate: the set start, then the lowest sequence, then the
   * first StepsBack set steps again (read by the lower checks across the end).
   */
  function FirstCandidate(p: Partition, n: nat): (t: seq<nat>)
    requires n >= 4
    ensures |t| == Pow2(n) + StepsBack(p) && t[..|SetSteps(p)|] == SetSteps(p)
    ensures t[Pow2(n)..] == SetSteps(p)[..StepsBack(p)]
    ensures Masks(t, Pow2(n), n)
  {
    Pow2AtLeast16(n);
    SetStartShape(p, n);
    LowestSteps(n);
    var S := SetSteps(p);
    var t := S + Lowest(n)[..Pow2(n) - |S|] + S[..StepsBack(p)];
    assert t[..|S|] == S;
    assert t[Pow2(n)..] == S[..StepsBack(p)];
    assert forall i :: |S| <= i < Pow2(n) ==> t[i] == Lowest(n)[i - |S|];
    t
  }

  /** Laying out the first candidate. */
  method Layout(n: nat, p: Partition, lowest: array<nat>) returns (test: array<nat>)
    requires n >= 4 && lowest[..] == Lowest(n)
    ensures fresh(test) && test[..] == FirstCandidate(p, n)
  {
    var len := Pow2(n);
    var S := SetSteps(p);
    var m := |S|;
    var sb := StepsBack(p);
    Pow2AtLeast16(n);
    test := new nat[len + sb](_ => 0);
    forall j | 0 <= j < m {
      test[j] := S[j];
    }
    forall j | m <= j < len {
      test[j] := lowest[j - m];
    }
    forall j | len <= j < len + sb {
      test[j] := S[j - len];
    }
    assert test[..] == S + Lowest(n)[..len - m] + S[..sb];
  }

  /**
   * The start of a search: the first candidate laid out, then the walk of
   * the set start marked in the buffer and the flags.
   */
  method Start(n: nat, p: Partition, lowest: array<nat>) returns (test: array<nat>, bffr: array<nat>, flags: array<bool>)
    requires n >= 4 && lowest[..] == Lowest(n)
    ensures fresh(test) && fresh(bffr) && fresh(flags)
    ensures test[..] == FirstCandidate(p, n) && 16 <= Pow2(n)
    ensures Frame(test[..], bffr[..], flags[..], |SetSteps(p)|, n)
  {
    var len := Pow2(n);
    Pow2AtLeast16(n);
    test := Layout(n, p, lowest);
    bffr := new nat[len + 1](_ => 0);
    flags := new bool[len](_ => false);
    ghost var t := FirstCandidate(p, n);
    assert bffr[..1] == [0];
    var s := 0;
    while s < |SetSteps(p)|
      invariant s <= |SetSteps(p)| && test[..] == t && Frame(t, bffr[..], flags[..], s, n)
    {
      SetStepFresh(t, bffr[..], flags[..], s, p, n);
      var v := Xor(bffr[s], test[s]);
      FrameForward(t, bffr[..], flags[..], s, n, v);
      bffr[s + 1] := v;
      flags[v] := true;
      s := s + 1;
    }
  }

  /**
   * One step of the checking loop past the lower check: the next value of the
   * walk is stored; the step stops the search at an early 0 or a value already
   * reached (invalid) and at the final 0 (valid), and otherwise marks the value.
   */
  method NextValue(test: array<nat>, bffr: array<nat>, flags: array<bool>, s: nat, n: nat)
    returns (stop: bool, valid: bool)
    requires Frame(test[..], bffr[..], flags[..], s, n) && test != bffr
    modifies bffr, flags
    ensures !stop ==> !valid && s + 1 < Pow2(n) && Frame(test[..], bffr[..], flags[..], s + 1, n)
    ensures stop ==> Frame(test[..], bffr[..], flags[..], s, n)
    ensures valid ==> s == Pow2(n) - 1 && bffr[Pow2(n)] == 0 && IsGrayCycle(test[..Pow2(n)], n)
  {
    var len := Pow2(n);
    WalkBound(test[..], s, n);
    assert bffr[s] == Walk(test[..][..s])[s];
    StepMaskBelow(test[s], n);
    XorBound(bffr[s], test[s], n);
    var v := Xor(bffr[s], test[s]);
    FrameScratch(test[..], bffr[..], flags[..], s, n, v);
    bffr[s + 1] := v;
    if v == 0 {
      if s < len - 1 {
        return true, false;
      }
      FrameClosed(test[..], bffr[..], flags[..], n);
      return true, true;
    }
    if s == len - 1 {
      NoFreshAtEnd(test[..], bffr[..], flags[..], n, v);
    }
    if flags[v] {
      return true, false;
    }
    FrameForward(test[..], bffr[..], flags[..], s, n, v);
    flags[v] := true;
    return false, false;
  }

  /**
   * The checking loop: from s0, run the lower check at each position, then
   * compute the next value; stop when the check fires, at an early 0 or a
   * value already reached (invalid), or at the final 0 (valid).
   */
  method Validate(test: array<nat>, bffr: array<nat>, flags: array<bool>, s0: nat, p: Partition, n: nat)
    returns (s: nat, valid: bool)
    requires Frame(test[..], bffr[..], flags[..], s0, n) && |SetSteps(p)| <= s0 && test != bffr
    requires NoLowerIn(p, test[..], |SetSteps(p)|, s0)
    modifies bffr, flags
    ensures Frame(test[..], bffr[..], flags[..], s, n) && s0 <= s
    ensures NoLowerIn(p, test[..], |SetSteps(p)|, s)
    ensures valid ==> s == Pow2(n) - 1 && NoLowerIn(p, test[..], |SetSteps(p)|, s + 1)
    ensures valid ==> bffr[Pow2(n)] == 0 && IsGrayCycle(test[..Pow2(n)], n)
  {
    ghost var t := test[..];
    s := s0;
    while true
      invariant test[..] == t && Frame(t, bffr[..], flags[..], s, n) && s0 <= s
      invariant NoLowerIn(p, t, |SetSteps(p)|, s)
      decreases Pow2(n) - s
    {
      if HasLowerCheck(p) && LowerCheck(p, test[..], s) {
        return s, false;
      }
      assert NoLowerIn(p, t, |SetSteps(p)|, s + 1);
      var stop;
      stop, valid := NextValue(test, bffr, flags, s, n);
      if stop {
        return;
      }
      s := s + 1;
    }
  }

  /** The extra check of a valid code: the lower check at the last step and across the end. */
  method SpecialCheck(test: array<nat>, p: Partition, len: nat) returns (lower: bool)
    requires 16 <= len && test.Length == len + StepsBack(p)
    ensures lower <==> exists i :: len - 1 <= i < test.Length && LowerCheck(p, test[..], i)
  {
    var i := len - 1;
    while i < test.Length
      invariant len - 1 <= i <= test.Length
      invariant forall j :: len - 1 <= j < i ==> !LowerCheck(p, test[..], j)
    {
      if LowerCheck(p, test[..], i) {
        return true;
      }
      i := i + 1;
    }
    return false;
  }

  /**
   * After a valid code the last three steps are forced, so the search backs
   * up three steps before incrementing, clearing the values they reached.
   */
  method SkipBack(test: array<nat>, bffr: array<nat>, flags: array<bool>, n: nat) returns (s: nat)
    requires n >= 4 && Frame(test[..], bffr[..], flags[..], Pow2(n) - 1, n)
    modifies flags
    ensures s == Pow2(n) - 4 && Frame(test[..], bffr[..], flags[..], s, n)
  {
    var len := Pow2(n);
    Pow2AtLeast16(n);
    FrameBack(test[..], bffr[..], flags[..], len - 1, n);
    flags[bffr[len - 1]] := false;
    FrameBack(test[..], bffr[..], flags[..], len - 2, n);
    flags[bffr[len - 2]] := false;
    FrameBack(test[..], bffr[..], flags[..], len - 3, n);
    flags[bffr[len - 3]] := false;
    s := len - 4;
  }

  /** The stored seed: the digit number (log2) of each step of the code. */
  method SeedDigits(test: array<nat>, n: nat) returns (seed: seq<nat>)
    requires Pow2(n) <= test.Length && Masks(test[..], Pow2(n), n)
    ensures seed == Logs(test[..Pow2(n)]) && IsDigits(seed, n)
    ensures forall i :: 0 <= i < Pow2(n) ==> Pow2(seed[i]) == test[i]
  {
    seed := [];
    var i := 0;
    while i < Pow2(n)
      invariant i <= Pow2(n) && seed == Logs(test[..i])
    {
      seed := seed + [Ctz(test[i])];
      i := i + 1;
    }
    assert test[..Pow2(n)] == test[..i];
    LogsDigits(test[..], n);
    forall i | 0 <= i < Pow2(n)
      ensures Pow2(seed[i]) == test[i]
    {
      StepMaskIsPow2(test[i], n);
    }
  }

  /** A valid code that passed every check is a seed code. */
  lemma SeedCodeFacts(p: Partition, t: seq<nat>, n: nat, Q: seq<(nat, nat)>)
    requires 16 <= Pow2(n) && |Q| >= 1 && |t| == Pow2(n) + StepsBack(p) && t[Pow2(n)..] == SetSteps(p)[..StepsBack(p)]
    requires IsGrayCycle(t[..Pow2(n)], n) && t[..|SetSteps(p)|] == SetSteps(p)
    requires NoLowerIn(p, t, |SetSteps(p)|, Pow2(n))
    requires forall i :: Pow2(n) - 1 <= i < |t| ==> !LowerCheck(p, t, i)
    requires SeedPasses(p, t[..Pow2(n)], Q)
    ensures IsSeedCode(p, t[..Pow2(n)], n, Q)
  {
    var c := t[..Pow2(n)];
    var S := SetSteps(p);
    assert t == c + t[Pow2(n)..];
    assert c[..|S|] == S by {
      assert c[..|S|] == t[..|S|];
    }
    forall i | |S| <= i < |c| + StepsBack(p)
      ensures !LowerCheck(p, c + S[..StepsBack(p)], i)
    {
      if i < Pow2(n) - 1 {
        assert !LowerCheck(p, t, i);
      }
    }
  }

  /** A seed code passes the special check across its end. */
  lemma SeedCodeTail(p: Partition, t: seq<nat>, n: nat, Q: seq<(nat, nat)>)
    requires 16 <= Pow2(n) && |t| == Pow2(n) + StepsBack(p) && t[Pow2(n)..] == SetSteps(p)[..StepsBack(p)]
    requires IsSeedCode(p, t[..Pow2(n)], n, Q)
    ensures forall i :: Pow2(n) - 1 <= i < |t| ==> !LowerCheck(p, t, i)
  {
    assert t == t[..Pow2(n)] + t[Pow2(n)..];
  }

  /**
   * The checks of a valid code: the special check across the end (for the
   * partitions that have one) and the seed test.  The code is recorded
   * exactly when it is a seed code.
   */
  method RecordSeed(test: array<nat>, queue: array<(nat, nat)>, p: Partition, n: nat,
                    seeds0: seq<seq<nat>>, ghost codes0: seq<seq<nat>>)
    returns (seeds: seq<seq<nat>>, ghost codes: seq<seq<nat>>)
    requires 16 <= Pow2(n) && queue.Length >= 1
    requires test.Length == Pow2(n) + StepsBack(p) && test[Pow2(n)..] == SetSteps(p)[..StepsBack(p)]
    requires test[..|SetSteps(p)|] == SetSteps(p) && IsGrayCycle(test[..Pow2(n)], n)
    requires NoLowerIn(p, test[..], |SetSteps(p)|, Pow2(n))
    requires SeedsFound(p, seeds0, codes0, test[..], n, queue[..])
    ensures IsSeedCode(p, test[..Pow2(n)], n, queue[..]) ==>
      seeds == seeds0 + [Logs(test[..Pow2(n)])] && codes == codes0 + [test[..Pow2(n)]]
    ensures !IsSeedCode(p, test[..Pow2(n)], n, queue[..]) ==> seeds == seeds0 && codes == codes0
    ensures SeedsUpTo(p, seeds, codes, test[..], n, queue[..])
  {
    ghost var t := test[..];
    ghost var Q := queue[..];
    var len := Pow2(n);
    seeds, codes := seeds0, codes0;
    var lower := false;
    if HasLowerCheck(p) {
      lower := SpecialCheck(test, p, len);
    }
    if lower {
      if IsSeedCode(p, t[..len], n, Q) {
        SeedCodeTail(p, t, n, Q);
      }
      return;
    }
    var isSeed := SeedCheck(test, p, len, queue);
    if isSeed {
      SeedCodeFacts(p, t, n, Q);
      var seed := SeedDigits(test, n);
      SeedsSnoc(p, seeds, codes, t, n, Q);
      seeds, codes := seeds + [seed], codes + [t[..len]];
    }
  }

  /**
   * The checks of one candidate: the checking loop, then for a valid code
   * the special and seed checks, after which the three forced last steps are
   * backed over.
   */
  method CheckCandidate(test: array<nat>, bffr: array<nat>, flags: array<bool>, queue: array<(nat, nat)>,
                        s0: nat, p: Partition, n: nat, seeds0: seq<seq<nat>>, ghost codes0: seq<seq<nat>>)
    returns (s: nat, seeds: seq<seq<nat>>, ghost codes: seq<seq<nat>>)
    requires n >= 4 && queue.Length >= 1 && test != bffr
    requires test.Length == Pow2(n) + StepsBack(p) && test[Pow2(n)..] == SetSteps(p)[..StepsBack(p)]
    requires Frame(test[..], bffr[..], flags[..], s0, n) && |SetSteps(p)| <= s0 && test[..|SetSteps(p)|] == SetSteps(p)
    requires NoLowerIn(p, test[..], |SetSteps(p)|, s0)
    requires SeedsFound(p, seeds0, codes0, test[..], n, queue[..])
    modifies bffr, flags
    ensures Frame(test[..], bffr[..], flags[..], s, n) && |SetSteps(p)| <= s
    ensures NoLowerIn(p, test[..], |SetSteps(p)|, s)
    ensures SeedsUpTo(p, seeds, codes, test[..], n, queue[..])
  {
    Pow2AtLeast16(n);
    var valid;
    s, valid := Validate(test, bffr, flags, s0, p, n);
    seeds, codes := seeds0, codes0;
    if valid {
      seeds, codes := RecordSeed(test, queue, p, n, seeds, codes);
      s := SkipBack(test, bffr, flags, n);
    }
  }

  /** One pass of the search loop: check the candidate, then increment it. */
  method SearchStep(test: array<nat>, bffr: array<nat>, flags: array<bool>, lowest: array<nat>, queue: array<(nat, nat)>,
                    s0: nat, p: Partition, n: nat, seeds0: seq<seq<nat>>, ghost codes0: seq<seq<nat>>)
    returns (s: nat, seeds: seq<seq<nat>>, ghost codes: seq<seq<nat>>)
    requires n >= 4 && lowest[..] == Lowest(n) && queue.Length >= 1 && test != bffr && test != lowest
    requires test.Length == Pow2(n) + StepsBack(p) && test[Pow2(n)..] == SetSteps(p)[..StepsBack(p)]
    requires Frame(test[..], bffr[..], flags[..], s0, n) && |SetSteps(p)| <= s0 && test[..|SetSteps(p)|] == SetSteps(p)
    requires NoLowerIn(p, test[..], |SetSteps(p)|, s0)
    requires SeedsFound(p, seeds0, codes0, test[..], n, queue[..])
    modifies test, bffr, flags
    ensures Frame(test[..], bffr[..], flags[..], s, n)
    ensures test.Length == Pow2(n) + StepsBack(p) && test[Pow2(n)..] == SetSteps(p)[..StepsBack(p)]
    ensures test[|SetSteps(p)| - 1] == Limit(p) ==>
      |SetSteps(p)| <= s && test[..|SetSteps(p)|] == SetSteps(p) && NoLowerIn(p, test[..], |SetSteps(p)|, s)
    ensures SeedsFound(p, seeds, codes, test[..], n, queue[..]) && Rank(old(test[..]), n) < Rank(test[..], n)
  {
    var s1;
    s1, seeds, codes := CheckCandidate(test, bffr, flags, queue, s0, p, n, seeds0, codes0);
    s := Advance(test, bffr, flags, lowest, queue, s1, p, n, seeds, codes);
  }

  /** The second half of a pass: increment the checked candidate to the next one. */
  method Advance(test: array<nat>, bffr: array<nat>, flags: array<bool>, lowest: array<nat>, queue: array<(nat, nat)>,
                 s1: nat, p: Partition, n: nat, seeds: seq<seq<nat>>, ghost codes: seq<seq<nat>>)
    returns (s: nat)
    requires n >= 4 && lowest[..] == Lowest(n) && test != bffr && test != lowest
    requires test.Length == Pow2(n) + StepsBack(p) && test[Pow2(n)..] == SetSteps(p)[..StepsBack(p)]
    requires Frame(test[..], bffr[..], flags[..], s1, n) && |SetSteps(p)| <= s1
    requires test[..|SetSteps(p)|] == SetSteps(p)
    requires NoLowerIn(p, test[..], |SetSteps(p)|, s1)
    requires SeedsUpTo(p, seeds, codes, test[..], n, queue[..])
    modifies test, flags
    ensures Frame(test[..], bffr[..], flags[..], s, n)
    ensures test.Length == Pow2(n) + StepsBack(p) && test[Pow2(n)..] == SetSteps(p)[..StepsBack(p)]
    ensures test[|SetSteps(p)| - 1] == Limit(p) ==>
      |SetSteps(p)| <= s && test[..|SetSteps(p)|] == SetSteps(p) && NoLowerIn(p, test[..], |SetSteps(p)|, s)
    ensures SeedsFound(p, seeds, codes, test[..], n, queue[..]) && Rank(old(test[..]), n) < Rank(test[..], n)
  {
    ghost var Q := queue[..];
    ghost var before := test[..];
    SetStartShape(p, n);
    FixedLimit(p, before);
    s := Increment(test, bffr, flags, lowest, s1, n, Fixed(p), Limit(p));
    SeedsRaised(p, seeds, codes, before, test[..], s, n, Q);
    if test[|SetSteps(p)| - 1] == Limit(p) {
      FixedLimit(p, SetSteps(p));
      assert |SetSteps(p)| <= s;
      NoLowerKeep(p, before, test[..], |SetSteps(p)|, s, s);
    }
  }

  /**
   * calculateCodesWithSetStart: the seeds whose code begins with the set start
   * of p, in the order found, as digit numbers.  codes holds the codes.
   */
  method CalculateCodesWithSetStart(n: nat, p: Partition, lowest: array<nat>, queue: array<(nat, nat)>)
    returns (seeds: seq<seq<nat>>, ghost codes: seq<seq<nat>>)
    requires n >= 4 && lowest[..] == Lowest(n) && queue.Length >= 1
    ensures |seeds| == |codes| && Increasing(codes, n)
    ensures forall i :: 0 <= i < |codes| ==> IsSeedCode(p, codes[i], n, queue[..]) && seeds[i] == Logs(codes[i])
  {
    var len := Pow2(n);
    var test, bffr, flags := Start(n, p, lowest);
    var s: nat := |SetSteps(p)|;
    seeds, codes := [], [];
    while test[|SetSteps(p)| - 1] == Limit(p)
      invariant Frame(test[..], bffr[..], flags[..], s, n)
      invariant test.Length == len + StepsBack(p) && test[len..] == SetSteps(p)[..StepsBack(p)]
      invariant test[|SetSteps(p)| - 1] == Limit(p) ==>
        |SetSteps(p)| <= s && test[..|SetSteps(p)|] == SetSteps(p) && NoLowerIn(p, test[..], |SetSteps(p)|, s)
      invariant SeedsFound(p, seeds, codes, test[..], n, queue[..])
      decreases Pow(n, len) - Rank(test[..], n)
    {
      RankBound(test[..], n);
      s, seeds, codes := SearchStep(test, bffr, flags, lowest, queue, s, p, n, seeds, codes);
      RankBound(test[..], n);
    }
  }

  /**
   * A stored seed is the least of the relabellings of its rotations that
   * begin with the set start: no rotation of the code, with its masks
   * exchanged in any way, that starts with the set start is below it.
   */
  lemma SeedCodeMinimal(p: Partition, c: seq<nat>, n: nat, k: nat, qv: seq<(nat, nat)>)
    requires FixedDigits(p) <= n && IsSeedCode(p, c, n, SearchQueue(p, n))
    requires k < |c| && PairsIn(qv, MaskSet(n)) && Run(Rot(c, k), qv)[..|SetSteps(p)|] == SetSteps(p)
    ensures !LexLess(Run(Rot(c, k), qv), c)
  {
    forall i | 0 <= i < |c|
      ensures c[i] in MaskSet(n)
    {
      StepMaskIsPow2(c[i], n);
    }
    PassedHasNoLowerVariant(p, c, n, k, qv);
  }

  /**
   * The seed test decides exactly minimality: a cyclic Gray code passes it
   * when, and only when, no rotation of it with its masks exchanged so that
   * it starts with the set start is below it.
   */
  lemma SeedTestExact(p: Partition, c: seq<nat>, n: nat)
    requires FixedDigits(p) <= n && IsGrayCycle(c, n) && 5 <= |c|
    ensures SeedPasses(p, c, SearchQueue(p, n)) <==>
      forall k: nat, qv: seq<(nat, nat)> ::
        (k < |c| && PairsIn(qv, MaskSet(n)) && Run(Rot(c, k), qv)[..|SetSteps(p)|] == SetSteps(p))
        ==> !LexLess(Run(Rot(c, k), qv), c)
  {
    forall i | 0 <= i < |c|
      ensures c[i] in MaskSet(n)
    {
      StepMaskIsPow2(c[i], n);
    }
    GrayCycleClean(c, n);
    SeedPassesExactly(p, c, n);
  }
}
