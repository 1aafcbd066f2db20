/**
 * The seed test of the chimera search.  A valid code T is a seed when no
 * relabelled rotation that the test examines is lexicographically below it.
 * The test doubles T so that every rotation is a window of the copy, and for
 * each rotation k whose window lies in the partition it relabels the whole
 * copy so that the window starts with the set start, compares, and then runs
 * the partition's queue of swaps over the copy, comparing after each.  The
 * relabellings accumulate over the rotations: the copy is never reset.
 */
module RotationCheck {
  import opened Bits
  import opened Numerals
  import opened PermQueue
  import opened Checkers
  import opened Chimera

  /** No sequence of vs is lexicographically below T. */
  predicate NoneLower(vs: seq<seq<nat>>, T: seq<nat>)
  {
    forall i :: 0 <= i < |vs| ==> !LexLess(vs[i], T)
  }

  lemma NoneLowerAppend(a: seq<seq<nat>>, b: seq<seq<nat>>, T: seq<nat>)
    ensures NoneLower(a + b, T) <==> NoneLower(a, T) && NoneLower(b, T)
  {
    if NoneLower(a, T) && NoneLower(b, T) {
      forall i | 0 <= i < |a + b|
        ensures !LexLess((a + b)[i], T)
      {
        if i >= |a| {
          assert (a + b)[i] == b[i - |a|];
        }
      }
    }
    if NoneLower(a + b, T) {
      forall i | 0 <= i < |b|
        ensures !LexLess(b[i], T)
      {
        assert (a + b)[|a| + i] == b[i];
      }
      forall i | 0 <= i < |a|
        ensures !LexLess(a[i], T)
      {
        assert (a + b)[i] == a[i];
      }
    }
  }

  /**
   * The relabelling that makes the window at k start with S: for each c from
   * the given one, if position k + c does not hold S[c], the two labels are
   * exchanged throughout the copy.
   */
  function MatchStart(copy: seq<nat>, k: nat, S: seq<nat>, c: nat): (r: seq<nat>)
    requires k + |S| <= |copy|
    ensures |r| == |copy|
    decreases |S| - c
  {
    if c >= |S| then copy
    else MatchStart(if copy[k + c] != S[c] then Swap(copy, copy[k + c], S[c]) else copy, k, S, c + 1)
  }

  /** The windows at k of len steps compared after each swap of queue from index q on. */
  function QueueWindows(copy: seq<nat>, k: nat, len: nat, queue: seq<(nat, nat)>, q: nat): (ws: seq<seq<nat>>)
    requires k + len <= |copy|
    decreases |queue| - q
  {
    if q >= |queue| then []
    else
      var c := Swap(copy, queue[q].0, queue[q].1);
      [c[k..k + len]] + QueueWindows(c, k, len, queue, q + 1)
  }

  /**
   * Every window the seed test compares with the code, from rotation k on,
   * when the doubled copy currently holds copy.  The queue's first entry is the
   * placeholder that the test skips.
   */
  function Windows(p: Partition, copy: seq<nat>, k: nat, len: nat, queue: seq<(nat, nat)>): (ws: seq<seq<nat>>)
    requires |copy| == 2 * len && len >= 5 && |queue| >= 1
    decreases len - k
  {
    if k >= len then []
    else if !InPartition(p, copy, k) then Windows(p, copy, k + 1, len, queue)
    else
      var c := MatchStart(copy, k, SetSteps(p), 0);
      [c[k..k + len]] + QueueWindows(c, k, len, queue, 1) + Windows(p, Run(c, queue[1..]), k + 1, len, queue)
  }

  /** What is left to compare once the swaps before q have been made at rotation k. */
  function QueueTail(p: Partition, copy: seq<nat>, k: nat, len: nat, queue: seq<(nat, nat)>, q: nat): seq<seq<nat>>
    requires |copy| == 2 * len && len >= 5 && |queue| >= 1 && k < len && q <= |queue|
  {
    QueueWindows(copy, k, len, queue, q) + Windows(p, Run(copy, queue[q..]), k + 1, len, queue)
  }

  lemma WindowsSplit(p: Partition, copy: seq<nat>, k: nat, len: nat, queue: seq<(nat, nat)>)
    requires |copy| == 2 * len && len >= 5 && |queue| >= 1 && k < len && InPartition(p, copy, k)
    ensures var c := MatchStart(copy, k, SetSteps(p), 0);
      Windows(p, copy, k, len, queue) == [c[k..k + len]] + QueueTail(p, c, k, len, queue, 1)
  {
  }

  lemma WindowsMatched(p: Partition, copy: seq<nat>, k: nat, len: nat, queue: seq<(nat, nat)>, c: seq<nat>)
    requires |copy| == 2 * len && len >= 5 && |queue| >= 1 && k < len && InPartition(p, copy, k)
    requires c == MatchStart(copy, k, SetSteps(p), 0)
    ensures |c| == 2 * len
    ensures Windows(p, copy, k, len, queue)
      == [c[k..k + len]] + QueueWindows(c, k, len, queue, 1) + Windows(p, Run(c, queue[1..]), k + 1, len, queue)
  {
  }

  lemma QueueTailStep(p: Partition, copy: seq<nat>, k: nat, len: nat, queue: seq<(nat, nat)>, q: nat)
    requires |copy| == 2 * len && len >= 5 && |queue| >= 1 && k < len && q < |queue|
    ensures var c := Swap(copy, queue[q].0, queue[q].1);
      QueueTail(p, copy, k, len, queue, q) == [c[k..k + len]] + QueueTail(p, c, k, len, queue, q + 1)
  {
    assert queue[q..][0] == queue[q] && queue[q..][1..] == queue[q + 1..];
  }

  lemma QueueTailEnd(p: Partition, copy: seq<nat>, k: nat, len: nat, queue: seq<(nat, nat)>)
    requires |copy| == 2 * len && len >= 5 && |queue| >= 1 && k < len
    ensures QueueTail(p, copy, k, len, queue, |queue|) == Windows(p, copy, k + 1, len, queue)
  {
    assert queue[|queue|..] == [];
  }

  /** The relabelling loop of the seed test: the copy gets the set start at k. */
  method MatchSetStart(copy: array<nat>, k: nat, S: seq<nat>)
    requires k + |S| <= copy.Length
    modifies copy
    ensures copy[..] == MatchStart(old(copy[..]), k, S, 0)
  {
    var c := 0;
    while c < |S|
      invariant c <= |S| && MatchStart(copy[..], k, S, c) == MatchStart(old(copy[..]), k, S, 0)
    {
      ghost var before := copy[..];
      assert MatchStart(before, k, S, c)
        == MatchStart(if before[k + c] != S[c] then Swap(before, before[k + c], S[c]) else before, k, S, c + 1);
      if copy[k + c] != S[c] {
        SwapLabels(copy, copy[k + c], S[c], copy.Length);
        assert before[..copy.Length] == before && before[copy.Length..] == [];
        assert copy[..] == Swap(before, before[k + c], S[c]);
      }
      c := c + 1;
    }
  }

  /**
   * The swaps of the queue after the set start has been matched at rotation k,
   * each followed by a comparison; stops at the first window below the code.
   */
  method QueueCheck(copy: array<nat>, test: array<nat>, p: Partition, k: nat, len: nat, queue: array<(nat, nat)>)
    returns (lower: bool)
    requires copy != test && copy.Length == 2 * len && k < len && 5 <= len <= test.Length && queue.Length >= 1
    modifies copy
    ensures NoneLower(QueueTail(p, old(copy[..]), k, len, queue[..], 1), test[..len])
      <==> !lower && NoneLower(Windows(p, copy[..], k + 1, len, queue[..]), test[..len])
  {
    ghost var T := test[..len];
    ghost var Q := queue[..];
    ghost var c0 := copy[..];
    var q := 1;
    while q < queue.Length
      invariant 1 <= q <= queue.Length && copy.Length == 2 * len
      invariant NoneLower(QueueTail(p, c0, k, len, Q, 1), T) <==> NoneLower(QueueTail(p, copy[..], k, len, Q, q), T)
      decreases queue.Length - q
    {
      QueueTailStep(p, copy[..], k, len, Q, q);
      ghost var before := copy[..];
      SwapLabels(copy, queue[q].0, queue[q].1, 2 * len);
      assert before[..2 * len] == before && before[2 * len..] == [];
      assert copy[..] == Swap(before, Q[q].0, Q[q].1);
      lower := IsLower(copy[k..k + len], test[..len], len);
      assert copy[k..k + len][..len] == copy[k..k + len] && test[..len][..len] == T;
      NoneLowerAppend([copy[k..k + len]], QueueTail(p, copy[..], k, len, Q, q + 1), T);
      if lower {
        assert !NoneLower([copy[k..k + len]], T) by {
          assert [copy[k..k + len]][0] == copy[k..k + len];
        }
        assert !NoneLower(QueueTail(p, before, k, len, Q, q), T);
        return true;
      }
      q := q + 1;
    }
    QueueTailEnd(p, copy[..], k, len, Q);
    return false;
  }

  /** One rotation of the seed test: skip it, or match the set start and compare each relabelling. */
  method RotationStep(copy: array<nat>, test: array<nat>, p: Partition, k: nat, len: nat, queue: array<(nat, nat)>)
    returns (lower: bool)
    requires copy != test && copy.Length == 2 * len && k < len && 5 <= len <= test.Length && queue.Length >= 1
    modifies copy
    ensures NoneLower(Windows(p, old(copy[..]), k, len, queue[..]), test[..len])
      <==> !lower && NoneLower(Windows(p, copy[..], k + 1, len, queue[..]), test[..len])
  {
    ghost var T := test[..len];
    ghost var Q := queue[..];
    if !InPartition(p, copy[..], k) {
      return false;
    }
    WindowsSplit(p, copy[..], k, len, Q);
    MatchSetStart(copy, k, SetSteps(p));
    ghost var c := copy[..];
    lower := IsLower(copy[k..k + len], test[..len], len);
    assert copy[k..k + len][..len] == copy[k..k + len] && test[..len][..len] == T;
    NoneLowerAppend([copy[k..k + len]], QueueTail(p, c, k, len, Q, 1), T);
    if lower {
      assert !NoneLower([c[k..k + len]], T) by {
        assert [c[k..k + len]][0] == c[k..k + len];
      }
    } else {
      assert NoneLower([c[k..k + len]], T);
      lower := QueueCheck(copy, test, p, k, len, queue);
    }
  }

  /** The code T passes the seed test: none of the windows examined is below it. */
  predicate SeedPasses(p: Partition, T: seq<nat>, Q: seq<(nat, nat)>)
    requires 5 <= |T| && |Q| >= 1
  {
    NoneLower(Windows(p, T + T, 0, |T|, Q), T)
  }

  /**
   * The seed test.  The result is true exactly when none of the windows
   * examined is below the code, the first len steps of test.
   */
  method SeedCheck(test: array<nat>, p: Partition, len: nat, queue: array<(nat, nat)>) returns (isSeed: bool)
    requires 5 <= len <= test.Length && queue.Length >= 1
    ensures isSeed <==> SeedPasses(p, test[..len], queue[..])
  {
    ghost var T := test[..len];
    ghost var Q := queue[..];
    ghost var W := Windows(p, T + T, 0, len, Q);
    var copy := new nat[2 * len];
    forall j | 0 <= j < len {
      copy[j] := test[j];
    }
    forall j | len <= j < 2 * len {
      copy[j] := test[j - len];
    }
    assert copy[..] == T + T;
    assert test[..len] == T;
    assert queue[..] == Q;
    assert Windows(p, copy[..], 0, len, queue[..]) == W;
    var k := 0;
    while k < len
      invariant k <= len && copy.Length == 2 * len && test[..len] == T && queue[..] == Q
      invariant NoneLower(W, T) <==> NoneLower(Windows(p, copy[..], k, len, Q), T)
      decreases len - k
    {
      var lower := RotationStep(copy, test, p, k, len, queue);
      if lower {
        return false;
      }
      k := k + 1;
    }
    return true;
  }

  /**
   * v is a relabelled rotation of T: the rotation by k with swaps of labels
   * from M applied in order.
   */
  ghost predicate IsVariant(v: seq<nat>, T: seq<nat>, M: set<nat>)
  {
    exists k: nat, qs: seq<(nat, nat)> :: k < |T| && PairsIn(qs, M) && v == Run(Rot(T, k), qs)
  }

  /** v begins with S. */
  predicate StartsWith(v: seq<nat>, S: seq<nat>)
  {
    |S| <= |v| && v[..|S|] == S
  }

  lemma SwapSlice(x: seq<nat>, a: nat, b: nat, i: nat, j: nat)
    requires i <= j <= |x|
    ensures Swap(x, a, b)[i..j] == Swap(x[i..j], a, b)
  {
  }

  /** Relabelling commutes with taking a window. */
  lemma {:induction false} RunSlice(x: seq<nat>, qs: seq<(nat, nat)>, i: nat, j: nat)
    requires i <= j <= |x|
    ensures Run(x, qs)[i..j] == Run(x[i..j], qs)
    decreases |qs|
  {
    if |qs| > 0 {
      SwapSlice(x, qs[0].0, qs[0].1, i, j);
      RunSlice(Swap(x, qs[0].0, qs[0].1), qs[1..], i, j);
    }
  }

  /** Two runs of swaps in a row are one run of both lists. */
  lemma {:induction false} RunConcat(x: seq<nat>, a: seq<(nat, nat)>, b: seq<(nat, nat)>)
    ensures Run(Run(x, a), b) == Run(x, a + b)
    decreases |a|
  {
    if |a| == 0 {
      assert a + b == b;
    } else {
      assert (a + b)[0] == a[0] && (a + b)[1..] == a[1..] + b;
      RunConcat(Swap(x, a[0].0, a[0].1), a[1..], b);
    }
  }

  /** Every entry of s lies in M. */
  predicate Within(s: seq<nat>, M: set<nat>)
  {
    forall i :: 0 <= i < |s| ==> s[i] in M
  }

  lemma SwapWithin(s: seq<nat>, a: nat, b: nat, M: set<nat>)
    requires Within(s, M) && a in M && b in M
    ensures Within(Swap(s, a, b), M)
  {
  }

  /**
   * Matching the set start is a run of swaps; when the copy and the set
   * start hold labels of M only, so do the swaps.
   */
  lemma {:induction false} MatchStartRun(copy: seq<nat>, k: nat, S: seq<nat>, c: nat, M: set<nat>) returns (qs: seq<(nat, nat)>)
    requires k + |S| <= |copy|
    ensures MatchStart(copy, k, S, c) == Run(copy, qs)
    ensures Within(copy, M) && Within(S, M) ==> PairsIn(qs, M)
    decreases |S| - c
  {
    if c >= |S| {
      qs := [];
    } else if copy[k + c] != S[c] {
      var sw := (copy[k + c], S[c]);
      if Within(copy, M) && Within(S, M) {
        SwapWithin(copy, sw.0, sw.1, M);
      }
      var rest := MatchStartRun(Swap(copy, sw.0, sw.1), k, S, c + 1, M);
      qs := [sw] + rest;
      assert qs[0] == sw && qs[1..] == rest;
      if Within(copy, M) && Within(S, M) {
        PairsConcat([sw], rest, M);
      }
    } else {
      qs := MatchStartRun(copy, k, S, c + 1, M);
    }
  }

  lemma DoubledWindow(T: seq<nat>, k: nat)
    requires k < |T|
    ensures (T + T)[k..k + |T|] == Rot(T, k)
  {
    assert (T + T)[k..k + |T|] == T[k..] + T[..k];
  }

  /** A window of the doubled code relabelled by swaps of masks is a variant of the code. */
  lemma WindowVariant(T: seq<nat>, n: nat, qs: seq<(nat, nat)>, k: nat)
    requires k < |T| && PairsIn(qs, MaskSet(n))
    ensures IsVariant(Run(T + T, qs)[k..k + |T|], T, MaskSet(n))
  {
    RunSlice(T + T, qs, k, k + |T|);
    DoubledWindow(T, k);
    assert Run(T + T, qs)[k..k + |T|] == Run(Rot(T, k), qs);
  }

  /** Every sequence of ws is a variant of T that begins with S. */
  ghost predicate AllVariants(ws: seq<seq<nat>>, T: seq<nat>, M: set<nat>, S: seq<nat>)
  {
    forall i :: 0 <= i < |ws| ==> IsVariant(ws[i], T, M) && StartsWith(ws[i], S)
  }

  lemma ConsVariants(w: seq<nat>, ws: seq<seq<nat>>, T: seq<nat>, M: set<nat>, S: seq<nat>)
    requires IsVariant(w, T, M) && StartsWith(w, S) && AllVariants(ws, T, M, S)
    ensures AllVariants([w] + ws, T, M, S)
  {
    forall i | 0 <= i < |[w] + ws|
      ensures IsVariant(([w] + ws)[i], T, M) && StartsWith(([w] + ws)[i], S)
    {
      if i == 0 {
        assert ([w] + ws)[i] == w;
      } else {
        assert ([w] + ws)[i] == ws[i - 1];
      }
    }
  }

  /** A window of len steps at k begins with S when the copy reads S at k. */
  lemma FrontStarts(c: seq<nat>, k: nat, len: nat, S: seq<nat>)
    requires k + len <= |c| && |S| <= len && c[k..k + |S|] == S
    ensures StartsWith(c[k..k + len], S)
  {
    assert c[k..k + len][..|S|] == c[k..k + |S|];
  }

  lemma AllVariantsConcat3(w: seq<seq<nat>>, a: seq<seq<nat>>, b: seq<seq<nat>>, d: seq<seq<nat>>, T: seq<nat>, M: set<nat>, S: seq<nat>)
    requires w == a + b + d && AllVariants(a, T, M, S) && AllVariants(b, T, M, S) && AllVariants(d, T, M, S)
    ensures AllVariants(w, T, M, S)
  {
    AllVariantsConcat(a, b, T, M, S);
    AllVariantsConcat(a + b, d, T, M, S);
  }

  lemma AllVariantsConcat(a: seq<seq<nat>>, b: seq<seq<nat>>, T: seq<nat>, M: set<nat>, S: seq<nat>)
    requires AllVariants(a, T, M, S) && AllVariants(b, T, M, S)
    ensures AllVariants(a + b, T, M, S)
  {
    forall i | 0 <= i < |a + b|
      ensures IsVariant((a + b)[i], T, M) && StartsWith((a + b)[i], S)
    {
      if i < |a| {
        assert (a + b)[i] == a[i];
      } else {
        assert (a + b)[i] == b[i - |a|];
      }
    }
  }

  /** Exchanging two labels that S does not use keeps a window that reads S. */
  lemma SwapKeepsStart(x: seq<nat>, a: nat, b: nat, k: nat, S: seq<nat>)
    requires k + |S| <= |x| && x[k..k + |S|] == S && a !in S && b !in S
    ensures Swap(x, a, b)[k..k + |S|] == S
  {
    forall i | 0 <= i < |S|
      ensures Swap(x, a, b)[k..k + |S|][i] == S[i]
    {
      assert x[k + i] == x[k..k + |S|][i];
    }
  }

  /** A run of swaps keeps equal labels equal and different labels different. */
  lemma RunEq(s: seq<nat>, qs: seq<(nat, nat)>, i: nat, j: nat)
    requires i < |s| && j < |s|
    ensures Run(s, qs)[i] == Run(s, qs)[j] <==> s[i] == s[j]
  {
    RunAt(s, qs, i);
    RunAt(s, qs, j);
    if Act(qs, s[i]) == Act(qs, s[j]) {
      ActInjective(qs, s[i], s[j]);
    }
  }

  /**
   * Every window of five steps of the cycle T, read in T + T, has no step
   * twice in a row and no steps a b a b, as in every cyclic Gray code.
   */
  ghost predicate CleanWindows(T: seq<nat>)
  {
    forall k :: 0 <= k < |T| ==> CleanWindow(T + T, k)
  }

  /** The five steps of s from k have no step twice in a row and no steps a b a b. */
  predicate CleanWindow(s: seq<nat>, k: nat)
  {
    k + 5 <= |s| && AdjacentDistinct(s[k..k + 5]) && NoSquare(s[k..k + 5])
  }

  /** Relabelling keeps the windows clean. */
  lemma CleanAt(T: seq<nat>, qs: seq<(nat, nat)>, k: nat)
    requires 5 <= |T| && CleanWindows(T) && k < |T|
    ensures AdjacentDistinct(Run(T + T, qs)[k..k + 5]) && NoSquare(Run(T + T, qs)[k..k + 5])
  {
    var s := T + T;
    var u := s[k..k + 5];
    var v := Run(s, qs)[k..k + 5];
    assert CleanWindow(s, k);
    forall a | 0 <= a < 4
      ensures v[a] != v[a + 1]
    {
      assert u[a] != u[a + 1];
      RunEq(s, qs, k + a, k + a + 1);
    }
    forall a | 0 <= a < 2
      ensures !(v[a] == v[a + 2] && v[a + 1] == v[a + 3])
    {
      assert !(u[a] == u[a + 2] && u[a + 1] == u[a + 3]);
      assert u[a] == s[k + a] && u[a + 2] == s[k + a + 2] && u[a + 1] == s[k + a + 1] && u[a + 3] == s[k + a + 3];
      RunEq(s, qs, k + a, k + a + 2);
      RunEq(s, qs, k + a + 1, k + a + 3);
    }
  }

  lemma PatternTrans(x: seq<nat>, k: nat, pat: seq<nat>, S: seq<nat>)
    requires k + |pat| <= |x| && |S| == |pat| && SamePattern(x, k, pat) && SamePattern(S, 0, pat)
    ensures SamePattern(x, k, S)
  {
    forall a, b | 0 <= a < |S| && 0 <= b < |S|
      ensures x[k + a] == x[k + b] <==> S[a] == S[b]
    {
      assert x[k + a] == x[k + b] <==> pat[a] == pat[b];
      assert S[0 + a] == S[0 + b] <==> pat[a] == pat[b];
    }
  }

  /** On a clean window, the partition test means the window has the set start's pattern. */
  lemma InPartitionPattern(p: Partition, x: seq<nat>, k: nat)
    requires k + 5 <= |x| && AdjacentDistinct(x[k..k + 5]) && NoSquare(x[k..k + 5]) && InPartition(p, x, k)
    ensures SamePattern(x, k, SetSteps(p))
  {
    SetStartsMatchPatterns();
    var y, z := x[k..k + 4], x[k..k + 5];
    forall a | 0 <= a < 3
      ensures y[a] != y[a + 1]
    {
      assert z[a] != z[a + 1];
    }
    match p
    case P01020 =>
      In01020Pattern(x, k);
      PatternTrans(x, k, Pat01020, SetSteps(p));
    case P01021 =>
      In01021Pattern(x, k);
      PatternTrans(x, k, Pat01021, SetSteps(p));
    case P01023 =>
      In01023Pattern(x, k);
      PatternTrans(x, k, Pat01023, SetSteps(p));
    case P0120 =>
      In0120Pattern(x, k);
      PatternTrans(x, k, Pat0120, SetSteps(p));
    case P0123 =>
      In0123Pattern(x, k);
      PatternTrans(x, k, Pat0123, SetSteps(p));
  }

  /**
   * The swaps of the reduced queue exchange masks that the set start does
   * not use: L is the set of their labels.
   */
  lemma QueueAvoidsStart(p: Partition, n: nat) returns (L: set<nat>)
    requires FixedDigits(p) <= n
    ensures PairsIn(SearchQueue(p, n)[1..], L)
    ensures forall x :: x in L ==> x in MaskSet(n) && x !in SetSteps(p)
  {
    var F := MaskLabels(n, FixedDigits(p));
    L := set k | 0 <= k < |F| :: F[k];
    forall x | x in L
      ensures x in MaskSet(n) && x !in SetSteps(p)
    {
      LabelSplit(p, n, x);
    }
    QPairs(F);
    assert SearchQueue(p, n)[1..] == Q(F);
  }

  lemma {:induction false} QueueWindowsVariants(T: seq<nat>, n: nat, S: seq<nat>, L: set<nat>, qs: seq<(nat, nat)>,
                                                k: nat, Q: seq<(nat, nat)>, q: nat)
    requires k < |T| && |S| <= |T| && 1 <= q <= |Q| && PairsIn(qs, MaskSet(n)) && Run(T + T, qs)[k..k + |S|] == S
    requires PairsIn(Q[1..], L) && forall x :: x in L ==> x in MaskSet(n) && x !in S
    ensures AllVariants(QueueWindows(Run(T + T, qs), k, |T|, Q, q), T, MaskSet(n), S)
    decreases |Q| - q
  {
    if q < |Q| {
      var qs' := QueueSwapStep(T, n, S, L, qs, k, Q, q);
      var c := Run(T + T, qs');
      QueueWindowsVariants(T, n, S, L, qs', k, Q, q + 1);
      WindowVariant(T, n, qs', k);
      FrontStarts(c, k, |T|, S);
      ConsVariants(c[k..k + |T|], QueueWindows(c, k, |T|, Q, q + 1), T, MaskSet(n), S);
      QueueWindowsCons(Run(T + T, qs), c, k, |T|, Q, q);
    }
  }

  /** One swap of the queue extends the run of mask swaps and keeps the set start in front. */
  lemma QueueSwapStep(T: seq<nat>, n: nat, S: seq<nat>, L: set<nat>, qs: seq<(nat, nat)>, k: nat, Q: seq<(nat, nat)>, q: nat)
    returns (qs': seq<(nat, nat)>)
    requires k < |T| && |S| <= |T| && 1 <= q < |Q| && PairsIn(qs, MaskSet(n)) && Run(T + T, qs)[k..k + |S|] == S
    requires PairsIn(Q[1..], L) && forall x :: x in L ==> x in MaskSet(n) && x !in S
    ensures qs' == qs + [Q[q]] && PairsIn(qs', MaskSet(n)) && Run(T + T, qs')[k..k + |S|] == S
    ensures Run(T + T, qs') == Swap(Run(T + T, qs), Q[q].0, Q[q].1)
  {
    assert Q[1..][q - 1] == Q[q];
    qs' := qs + [Q[q]];
    RunConcat(T + T, qs, [Q[q]]);
    assert PairsIn([Q[q]], MaskSet(n));
    PairsConcat(qs, [Q[q]], MaskSet(n));
    SwapKeepsStart(Run(T + T, qs), Q[q].0, Q[q].1, k, S);
  }

  lemma QueueWindowsCons(x: seq<nat>, c: seq<nat>, k: nat, len: nat, Q: seq<(nat, nat)>, q: nat)
    requires k + len <= |x| && q < |Q| && c == Swap(x, Q[q].0, Q[q].1)
    ensures QueueWindows(x, k, len, Q, q) == [c[k..k + len]] + QueueWindows(c, k, len, Q, q + 1)
  {
  }

  /**
   * The copy always holds the doubled code relabelled by swaps of masks, so
   * every window examined is a variant; on a clean cycle each also begins
   * with the set start.
   */
  lemma {:induction false} WindowsVariants(p: Partition, T: seq<nat>, n: nat, L: set<nat>, qs: seq<(nat, nat)>, k: nat)
    requires 5 <= |T| && FixedDigits(p) <= n && Within(T, MaskSet(n)) && CleanWindows(T) && PairsIn(qs, MaskSet(n))
    requires PairsIn(SearchQueue(p, n)[1..], L) && forall x :: x in L ==> x in MaskSet(n) && x !in SetSteps(p)
    ensures AllVariants(Windows(p, Run(T + T, qs), k, |T|, SearchQueue(p, n)), T, MaskSet(n), SetSteps(p))
    decreases |T| - k, 1
  {
    var Q := SearchQueue(p, n);
    var S := SetSteps(p);
    var x := Run(T + T, qs);
    if k < |T| {
      if !InPartition(p, x, k) {
        WindowsVariants(p, T, n, L, qs, k + 1);
        assert Windows(p, x, k, |T|, Q) == Windows(p, x, k + 1, |T|, Q);
      } else {
        MatchedWindowsVariants(p, T, n, L, qs, k);
      }
    }
  }

  /** WindowsVariants at a rotation the partition test accepts. */
  lemma {:induction false} MatchedWindowsVariants(p: Partition, T: seq<nat>, n: nat, L: set<nat>, qs: seq<(nat, nat)>, k: nat)
    requires 5 <= |T| && FixedDigits(p) <= n && Within(T, MaskSet(n)) && CleanWindows(T) && PairsIn(qs, MaskSet(n))
    requires PairsIn(SearchQueue(p, n)[1..], L) && forall x :: x in L ==> x in MaskSet(n) && x !in SetSteps(p)
    requires k < |T| && InPartition(p, Run(T + T, qs), k)
    ensures AllVariants(Windows(p, Run(T + T, qs), k, |T|, SearchQueue(p, n)), T, MaskSet(n), SetSteps(p))
    decreases |T| - k, 0
  {
    var Q := SearchQueue(p, n);
    var S := SetSteps(p);
    var c, rs := MatchedVariants(p, T, n, L, qs, k);
    WindowsVariants(p, T, n, L, rs, k + 1);
    MatchedWindowsSplit(p, Run(T + T, qs), c, k, T, MaskSet(n), Q);
  }

  /** The windows at an accepted rotation are variants when the matched window, its queue windows and the later ones are. */
  lemma MatchedWindowsSplit(p: Partition, x: seq<nat>, c: seq<nat>, k: nat, T: seq<nat>, M: set<nat>, Q: seq<(nat, nat)>)
    requires 5 <= |T| && |x| == 2 * |T| && |Q| >= 1 && k < |T| && InPartition(p, x, k)
    requires c == MatchStart(x, k, SetSteps(p), 0) && |c| == 2 * |T|
    requires IsVariant(c[k..k + |T|], T, M) && |SetSteps(p)| <= |T| && c[k..k + |SetSteps(p)|] == SetSteps(p)
    requires AllVariants(QueueWindows(c, k, |T|, Q, 1), T, M, SetSteps(p))
    requires AllVariants(Windows(p, Run(c, Q[1..]), k + 1, |T|, Q), T, M, SetSteps(p))
    ensures AllVariants(Windows(p, x, k, |T|, Q), T, M, SetSteps(p))
  {
    var S := SetSteps(p);
    WindowsMatched(p, x, k, |T|, Q, c);
    OneVariant(c, k, |T|, T, M, S);
    AllVariantsConcat3(Windows(p, x, k, |T|, Q), [c[k..k + |T|]], QueueWindows(c, k, |T|, Q, 1), Windows(p, Run(c, Q[1..]), k + 1, |T|, Q), T, M, S);
  }

  /**
   * A rotation in the partition: the matched copy c and its queue windows are
   * variants that begin with the set start, and after the queue the copy is
   * again the doubled code relabelled by swaps of masks, rs.
   */
  lemma MatchedVariants(p: Partition, T: seq<nat>, n: nat, L: set<nat>, qs: seq<(nat, nat)>, k: nat)
    returns (c: seq<nat>, rs: seq<(nat, nat)>)
    requires 5 <= |T| && FixedDigits(p) <= n && Within(T, MaskSet(n)) && CleanWindows(T) && PairsIn(qs, MaskSet(n))
    requires PairsIn(SearchQueue(p, n)[1..], L) && forall x :: x in L ==> x in MaskSet(n) && x !in SetSteps(p)
    requires k < |T| && InPartition(p, Run(T + T, qs), k)
    ensures c == MatchStart(Run(T + T, qs), k, SetSteps(p), 0)
    ensures |c| == 2 * |T| && IsVariant(c[k..k + |T|], T, MaskSet(n)) && c[k..k + |SetSteps(p)|] == SetSteps(p)
    ensures AllVariants(QueueWindows(c, k, |T|, SearchQueue(p, n), 1), T, MaskSet(n), SetSteps(p))
    ensures PairsIn(rs, MaskSet(n)) && Run(T + T, rs) == Run(c, SearchQueue(p, n)[1..])
  {
    var M := MaskSet(n);
    var Q := SearchQueue(p, n);
    var S := SetSteps(p);
    var ms := MatchedPrefix(p, T, n, qs, k);
    c := Run(T + T, qs + ms);
    QueueWithin(p, n);
    WindowVariant(T, n, qs + ms, k);
    QueueWindowsVariants(T, n, S, L, qs + ms, k, Q, 1);
    RunConcat(T + T, qs + ms, Q[1..]);
    PairsConcat(qs + ms, Q[1..], M);
    rs := qs + ms + Q[1..];
  }

  /** A window that is a variant and reads S at its front is, alone, a list of variants beginning with S. */
  lemma OneVariant(c: seq<nat>, k: nat, len: nat, T: seq<nat>, M: set<nat>, S: seq<nat>)
    requires k + len <= |c| && |S| <= len && IsVariant(c[k..k + len], T, M) && c[k..k + |S|] == S
    ensures AllVariants([c[k..k + len]], T, M, S)
  {
    var w := c[k..k + len];
    assert w[..|S|] == c[k..k + |S|];
  }

  /** Matching a clean window in the partition is a run of swaps of masks, and the window then reads the set start. */
  lemma MatchedPrefix(p: Partition, T: seq<nat>, n: nat, qs: seq<(nat, nat)>, k: nat) returns (ms: seq<(nat, nat)>)
    requires 5 <= |T| && FixedDigits(p) <= n && Within(T, MaskSet(n)) && CleanWindows(T) && PairsIn(qs, MaskSet(n))
    requires k < |T| && InPartition(p, Run(T + T, qs), k)
    ensures PairsIn(qs + ms, MaskSet(n)) && Run(T + T, qs + ms) == MatchStart(Run(T + T, qs), k, SetSteps(p), 0)
    ensures Run(T + T, qs + ms)[k..k + |SetSteps(p)|] == SetSteps(p)
  {
    var M := MaskSet(n);
    var S := SetSteps(p);
    var x := Run(T + T, qs);
    DoubledWithin(T, M);
    RunWithin(T + T, qs, M);
    QueueWithin(p, n);
    ms := MatchStartRun(x, k, S, 0, M);
    RunConcat(T + T, qs, ms);
    PairsConcat(qs, ms, M);
    CleanAt(T, qs, k);
    InPartitionPattern(p, x, k);
    MatchStartPrefix(x, k, S, 0);
  }

  /**
   * A code the seed test rejects has a rotation that, relabelled by swaps of
   * masks so that it begins with the set start, is below it.
   */
  lemma RejectedHasLowerVariant(p: Partition, T: seq<nat>, n: nat)
    requires 5 <= |T| && FixedDigits(p) <= n && Within(T, MaskSet(n)) && CleanWindows(T)
    requires !SeedPasses(p, T, SearchQueue(p, n))
    ensures exists k: nat, qv: seq<(nat, nat)> ::
              (k < |T| && PairsIn(qv, MaskSet(n))
               && Run(Rot(T, k), qv)[..|SetSteps(p)|] == SetSteps(p) && LexLess(Run(Rot(T, k), qv), T))
  {
    var L := QueueAvoidsStart(p, n);
    WindowsVariants(p, T, n, L, [], 0);
    assert Run(T + T, []) == T + T;
    var ws := Windows(p, T + T, 0, |T|, SearchQueue(p, n));
    var i :| 0 <= i < |ws| && LexLess(ws[i], T);
    assert IsVariant(ws[i], T, MaskSet(n)) && StartsWith(ws[i], SetSteps(p));
    var k: nat, qv: seq<(nat, nat)> :| k < |T| && PairsIn(qv, MaskSet(n)) && ws[i] == Run(Rot(T, k), qv);
  }

  /** The masks of n digits: the labels the steps of a code take. */
  function MaskSet(n: nat): set<nat>
  {
    set d | 0 <= d < n :: Pow2(d)
  }

  /** The swap queue of partition p's seed test: the placeholder, then the swaps over the masks the set start leaves free. */
  function SearchQueue(p: Partition, n: nat): (r: seq<(nat, nat)>)
    requires FixedDigits(p) <= n
    ensures |r| >= 1 && r[0] == Dummy
  {
    [Dummy] + Q(MaskLabels(n, FixedDigits(p)))
  }

  /**
   * The masks of n digits fall into two disjoint parts: the masks of the set
   * start, 2^0 .. 2^(FixedDigits(p) - 1), and the labels of the reduced queue.
   */
  lemma LabelSplit(p: Partition, n: nat, x: nat)
    requires FixedDigits(p) <= n
    ensures var F := MaskLabels(n, FixedDigits(p));
      (x in MaskSet(n) <==> x in SetSteps(p) || x in set k | 0 <= k < |F| :: F[k])
      && !(x in SetSteps(p) && x in set k | 0 <= k < |F| :: F[k])
  {
    var low := FixedDigits(p);
    var F := MaskLabels(n, low);
    var LF := set k | 0 <= k < |F| :: F[k];
    StartMasks(p, x);
    LabelsAbove(n, low, x);
    assert x in LF <==> exists k :: 0 <= k < |F| && F[k] == x;
    MaskDigits(n, low, x);
    if x in SetSteps(p) && x in LF {
      var d1 :| 0 <= d1 < low && x == Pow2(d1);
      var d2 :| low <= d2 < n && x == Pow2(d2);
      Pow2Injective(d1, d2);
    }
  }

  /** A mask of n digits is a mask below low or a mask from low up. */
  lemma MaskDigits(n: nat, low: nat, x: nat)
    requires low <= n
    ensures x in MaskSet(n) <==>
      (exists d :: 0 <= d < low && x == Pow2(d)) || (exists d :: low <= d < n && x == Pow2(d))
  {
    if x in MaskSet(n) {
      var d :| 0 <= d < n && x == Pow2(d);
      if d < low {
        assert exists e :: 0 <= e < low && x == Pow2(e);
      } else {
        assert exists e :: low <= e < n && x == Pow2(e);
      }
    }
    if exists d :: 0 <= d < low && x == Pow2(d) {
      var d :| 0 <= d < low && x == Pow2(d);
      assert Pow2(d) in MaskSet(n);
    }
    if exists d :: low <= d < n && x == Pow2(d) {
      var d :| low <= d < n && x == Pow2(d);
      assert Pow2(d) in MaskSet(n);
    }
  }

  /** The labels of a reduced queue are the masks 2^low .. 2^(n-1). */
  lemma LabelsAbove(n: nat, low: nat, x: nat)
    requires low <= n
    ensures var F := MaskLabels(n, low);
      (exists k :: 0 <= k < |F| && F[k] == x) <==> exists d :: low <= d < n && x == Pow2(d)
  {
    var F := MaskLabels(n, low);
    if exists k :: 0 <= k < |F| && F[k] == x {
      var k :| 0 <= k < |F| && F[k] == x;
      assert low <= n - 1 - k < n && x == Pow2(n - 1 - k);
    }
    if exists d :: low <= d < n && x == Pow2(d) {
      var d :| low <= d < n && x == Pow2(d);
      assert F[n - 1 - d] == x;
    }
  }

  /** The set start uses exactly the masks 2^0 .. 2^(FixedDigits(p) - 1). */
  lemma StartMasks(p: Partition, x: nat)
    ensures x in SetSteps(p) <==> exists d :: 0 <= d < FixedDigits(p) && x == Pow2(d)
  {
    var S := SetSteps(p);
    assert Pow2(0) == 1 && Pow2(1) == 2 && Pow2(2) == 4 && Pow2(3) == 8;
    if x in S {
      var d := if x == 1 then 0 else if x == 2 then 1 else if x == 4 then 2 else 3;
      assert 0 <= d < FixedDigits(p) && x == Pow2(d);
    }
    if exists d :: 0 <= d < FixedDigits(p) && x == Pow2(d) {
      var d :| 0 <= d < FixedDigits(p) && x == Pow2(d);
      StartHasMasks(p);
      if d == 0 {
        assert x == 1;
      } else if d == 1 {
        assert x == 2;
      } else if d == 2 {
        assert x == 4;
      } else {
        assert x == 8 && FixedDigits(p) == 4;
      }
    }
  }

  /** The masks a set start has: 1, 2, 4, and 8 when it fixes four digits. */
  lemma StartHasMasks(p: Partition)
    ensures 1 in SetSteps(p) && 2 in SetSteps(p) && 4 in SetSteps(p)
    ensures FixedDigits(p) == 4 ==> 8 in SetSteps(p)
  {
    var S := SetSteps(p);
    assert S[0] == 1 && S[1] == 2;
    match p
    case P01020 => assert S[3] == 4;
    case P01021 => assert S[3] == 4;
    case P01023 => assert S[3] == 4 && S[4] == 8;
    case P0120 => assert S[2] == 4;
    case P0123 => assert S[2] == 4 && S[3] == 8;
  }

  /** The masks of the set start and of the reduced queue are masks of n digits. */
  lemma QueueWithin(p: Partition, n: nat)
    requires FixedDigits(p) <= n
    ensures Within(SetSteps(p), MaskSet(n))
    ensures PairsIn(SearchQueue(p, n)[1..], MaskSet(n))
  {
    var F := MaskLabels(n, FixedDigits(p));
    var LF := set k | 0 <= k < |F| :: F[k];
    forall i | 0 <= i < |SetSteps(p)|
      ensures SetSteps(p)[i] in MaskSet(n)
    {
      LabelSplit(p, n, SetSteps(p)[i]);
    }
    forall x | x in LF
      ensures x in MaskSet(n)
    {
      LabelSplit(p, n, x);
    }
    QPairs(F);
    assert SearchQueue(p, n)[1..] == Q(F);
  }

  lemma DoubledWithin(T: seq<nat>, M: set<nat>)
    requires Within(T, M)
    ensures Within(T + T, M)
  {
    forall i | 0 <= i < 2 * |T|
      ensures (T + T)[i] in M
    {
      if i >= |T| {
        assert (T + T)[i] == T[i - |T|];
      }
    }
  }

  /** Swaps between labels of M keep a sequence within M. */
  lemma RunWithin(s: seq<nat>, qs: seq<(nat, nat)>, M: set<nat>)
    requires Within(s, M) && PairsIn(qs, M)
    ensures Within(Run(s, qs), M)
  {
    forall i | 0 <= i < |s|
      ensures Run(s, qs)[i] in M
    {
      RunAt(s, qs, i);
      ActWithin(qs, M, s[i]);
    }
  }

  /** Distinct labels stay distinct under a run of swaps. */
  lemma ActInjective(qs: seq<(nat, nat)>, x: nat, y: nat)
    requires Act(qs, x) == Act(qs, y)
    ensures x == y
  {
    ActUndo(qs, x);
    ActUndo(qs, y);
  }

  /** A run of swaps keeps the equality pattern of every window. */
  lemma RunPattern(s: seq<nat>, qs: seq<(nat, nat)>, k: nat, S: seq<nat>)
    requires k + |S| <= |s|
    ensures SamePattern(Run(s, qs), k, S) <==> SamePattern(s, k, S)
  {
    forall a, b | k <= a < k + |S| && k <= b < k + |S|
      ensures Run(s, qs)[a] == Run(s, qs)[b] <==> s[a] == s[b]
    {
      RunAt(s, qs, a);
      RunAt(s, qs, b);
      if Act(qs, s[a]) == Act(qs, s[b]) {
        ActInjective(qs, s[a], s[b]);
      }
    }
  }

  lemma SlicePattern(s: seq<nat>, k: nat, len: nat, S: seq<nat>)
    requires k + len <= |s| && |S| <= len
    ensures SamePattern(s[k..k + len], 0, S) <==> SamePattern(s, k, S)
  {
  }

  /** A window with the equality pattern of the set start lies in the partition. */
  lemma PatternInPartition(p: Partition, s: seq<nat>, i: nat)
    requires i + |SetSteps(p)| <= |s| && SamePattern(s, i, SetSteps(p))
    ensures InPartition(p, s, i)
  {
    var S := SetSteps(p);
    assert s[i + 0] == s[i + 2] <==> S[0] == S[2];
    assert s[i + 0] == s[i + |S| - 1] <==> S[0] == S[|S| - 1];
    assert s[i + 1] == s[i + |S| - 1] <==> S[1] == S[|S| - 1];
    if |S| == 5 {
      assert s[i + 2] == s[i + 4] <==> S[2] == S[4];
    }
  }

  /**
   * Matching a window that has the pattern of S: each swap puts S[c] at
   * position k + c and leaves the positions already matched alone.
   */
  lemma {:induction false} MatchStartPrefix(copy: seq<nat>, k: nat, S: seq<nat>, c: nat)
    requires k + |S| <= |copy| && c <= |S|
    requires SamePattern(copy, k, S) && copy[k..k + c] == S[..c]
    ensures MatchStart(copy, k, S, c)[k..k + |S|] == S
    decreases |S| - c
  {
    if c < |S| {
      var y := if copy[k + c] != S[c] then Swap(copy, copy[k + c], S[c]) else copy;
      if copy[k + c] != S[c] {
        assert Swap(copy, copy[k + c], S[c]) == Run(copy, [(copy[k + c], S[c])]);
        RunPattern(copy, [(copy[k + c], S[c])], k, S);
      }
      forall i | 0 <= i <= c
        ensures y[k + i] == S[i]
      {
        if i < c {
          assert copy[k + i] == copy[k..k + c][i] == S[i];
          assert copy[k + i] == copy[k + c] <==> S[i] == S[c];
        }
      }
      assert y[k..k + c + 1] == S[..c + 1];
      MatchStartPrefix(y, k, S, c + 1);
    } else {
      assert copy[k..k + |S|] == copy[k..k + c];
    }
  }

  /**
   * The windows compared after the swaps of queue from q on: the m-th of
   * them is the window after queue[q..m + 1].
   */
  lemma {:induction false} QueueWindowsAt(c: seq<nat>, k: nat, len: nat, queue: seq<(nat, nat)>, q: nat, m: nat)
    requires k + len <= |c| && q <= m < |queue|
    ensures m - q < |QueueWindows(c, k, len, queue, q)|
    ensures QueueWindows(c, k, len, queue, q)[m - q] == Run(c, queue[q..m + 1])[k..k + len]
    decreases m - q
  {
    var c' := Swap(c, queue[q].0, queue[q].1);
    assert queue[q..m + 1][0] == queue[q] && queue[q..m + 1][1..] == queue[q + 1..m + 1];
    if m == q {
      assert queue[q + 1..m + 1] == [];
    } else {
      QueueWindowsAt(c', k, len, queue, q + 1, m);
    }
  }

  /**
   * A test that compares nothing below T from rotation j on, with the copy
   * holding the doubled code relabelled by swaps of masks, reaches every
   * later rotation k with the copy so relabelled too.
   */
  lemma {:induction false} ReachRotation(p: Partition, T: seq<nat>, n: nat, qs: seq<(nat, nat)>, j: nat, k: nat) returns (rs: seq<(nat, nat)>)
    requires |T| >= 5 && FixedDigits(p) <= n && Within(T, MaskSet(n)) && PairsIn(qs, MaskSet(n))
    requires j <= k < |T| && NoneLower(Windows(p, Run(T + T, qs), j, |T|, SearchQueue(p, n)), T)
    ensures PairsIn(rs, MaskSet(n)) && NoneLower(Windows(p, Run(T + T, rs), k, |T|, SearchQueue(p, n)), T)
    decreases k - j
  {
    if j == k {
      rs := qs;
    } else {
      var qs' := ReachNext(p, T, n, qs, j);
      rs := ReachRotation(p, T, n, qs', j + 1, k);
    }
  }

  /** One rotation of the test: the copy after it is again the doubled code relabelled by swaps of masks. */
  lemma ReachNext(p: Partition, T: seq<nat>, n: nat, qs: seq<(nat, nat)>, j: nat) returns (rs: seq<(nat, nat)>)
    requires |T| >= 5 && FixedDigits(p) <= n && Within(T, MaskSet(n)) && PairsIn(qs, MaskSet(n))
    requires j < |T| && NoneLower(Windows(p, Run(T + T, qs), j, |T|, SearchQueue(p, n)), T)
    ensures PairsIn(rs, MaskSet(n)) && NoneLower(Windows(p, Run(T + T, rs), j + 1, |T|, SearchQueue(p, n)), T)
  {
    var Q := SearchQueue(p, n);
    var x := Run(T + T, qs);
    if !InPartition(p, x, j) {
      assert Windows(p, x, j, |T|, Q) == Windows(p, x, j + 1, |T|, Q);
      rs := qs;
    } else {
      rs := ReachMatched(p, T, n, qs, j);
    }
  }

  /** A rotation in the partition: the copy is matched to the set start and then run through the queue. */
  lemma ReachMatched(p: Partition, T: seq<nat>, n: nat, qs: seq<(nat, nat)>, j: nat) returns (rs: seq<(nat, nat)>)
    requires |T| >= 5 && FixedDigits(p) <= n && Within(T, MaskSet(n)) && PairsIn(qs, MaskSet(n))
    requires j < |T| && InPartition(p, Run(T + T, qs), j)
    requires NoneLower(Windows(p, Run(T + T, qs), j, |T|, SearchQueue(p, n)), T)
    ensures PairsIn(rs, MaskSet(n)) && NoneLower(Windows(p, Run(T + T, rs), j + 1, |T|, SearchQueue(p, n)), T)
  {
    var M := MaskSet(n);
    var Q := SearchQueue(p, n);
    var ss := MatchedCompared(p, T, n, qs, j);
    QueueWithin(p, n);
    RunConcat(T + T, ss, Q[1..]);
    PairsConcat(ss, Q[1..], M);
    rs := ss + Q[1..];
  }

  /** The relabelling that undoes the swaps ss and then makes the swaps qv. */
  function Rho(ss: seq<(nat, nat)>, qv: seq<(nat, nat)>, y: nat): nat
  {
    Act(qv, Act(Undo(ss), y))
  }

  lemma RhoInjective(ss: seq<(nat, nat)>, qv: seq<(nat, nat)>, x: nat, y: nat)
    requires Rho(ss, qv, x) == Rho(ss, qv, y)
    ensures x == y
  {
    ActInjective(qv, Act(Undo(ss), x), Act(Undo(ss), y));
    ActInjective(Undo(ss), x, y);
  }

  lemma RhoWithin(ss: seq<(nat, nat)>, qv: seq<(nat, nat)>, M: set<nat>, y: nat)
    requires PairsIn(ss, M) && PairsIn(qv, M)
    ensures y in M <==> Rho(ss, qv, y) in M
  {
    UndoPairs(ss, M);
    ActWithin(Undo(ss), M, y);
    ActWithin(qv, M, Act(Undo(ss), y));
  }

  /**
   * When the copy Run(T + T, ss) shows the set start at k and the variant
   * Run(Rot(T, k), qv) starts with it, the relabelling from the copy to the
   * variant fixes every label of the set start.
   */
  lemma RhoFixesStart(p: Partition, T: seq<nat>, ss: seq<(nat, nat)>, k: nat, qv: seq<(nat, nat)>, i: nat)
    requires 5 <= |T| && k < |T| && i < |SetSteps(p)|
    requires Run(T + T, ss)[k..k + |SetSteps(p)|] == SetSteps(p)
    requires Run(Rot(T, k), qv)[..|SetSteps(p)|] == SetSteps(p)
    ensures Rho(ss, qv, SetSteps(p)[i]) == SetSteps(p)[i]
  {
    var S := SetSteps(p);
    var t := (T + T)[k + i];
    assert Run(T + T, ss)[k + i] == Run(T + T, ss)[k..k + |S|][i] == S[i];
    RunAt(T + T, ss, k + i);
    ActUndo(ss, t);
    DoubledWindow(T, k);
    assert Rot(T, k)[i] == (T + T)[k..k + |T|][i] == t;
    assert Run(Rot(T, k), qv)[i] == Run(Rot(T, k), qv)[..|S|][i] == S[i];
    RunAt(Rot(T, k), qv, i);
  }

  /**
   * The arrangement of the free masks that the relabelling calls for: b
   * holds at i the image of F[i].  It lists the free masks once each.
   */
  lemma TargetArrangement(p: Partition, T: seq<nat>, n: nat, ss: seq<(nat, nat)>, k: nat, qv: seq<(nat, nat)>, b: seq<nat>)
    requires 5 <= |T| && k < |T| && FixedDigits(p) <= n && PairsIn(ss, MaskSet(n)) && PairsIn(qv, MaskSet(n))
    requires Run(T + T, ss)[k..k + |SetSteps(p)|] == SetSteps(p)
    requires Run(Rot(T, k), qv)[..|SetSteps(p)|] == SetSteps(p)
    requires var F := MaskLabels(n, FixedDigits(p));
      b == seq(|F|, i requires 0 <= i < |F| => Rho(ss, qv, F[i]))
    ensures var F := MaskLabels(n, FixedDigits(p));
      AllDistinct(b) && Rearranges(F, b, set k | 0 <= k < |F| :: F[k])
  {
    var F := MaskLabels(n, FixedDigits(p));
    var LF := set k | 0 <= k < |F| :: F[k];
    var S := SetSteps(p);
    var M := MaskSet(n);
    LabelsDistinct(n, FixedDigits(p));
    forall i, j | 0 <= i < j < |b|
      ensures b[i] != b[j]
    {
      if b[i] == b[j] {
        RhoInjective(ss, qv, F[i], F[j]);
      }
    }
    forall i | 0 <= i < |F|
      ensures b[i] in LF
    {
      assert F[i] in LF;
      LabelSplit(p, n, F[i]);
      RhoWithin(ss, qv, M, F[i]);
      LabelSplit(p, n, b[i]);
      if b[i] in S {
        var c :| 0 <= c < |S| && S[c] == b[i];
        RhoFixesStart(p, T, ss, k, qv, c);
        RhoInjective(ss, qv, F[i], S[c]);
      }
    }
  }

  /**
   * When the first j swaps of the reduced queue take the free masks to b,
   * they relabel every mask as the relabelling from the copy to the variant
   * does: the free masks by the choice of j, the masks of the set start by
   * leaving them alone.
   */
  lemma AgreeAt(p: Partition, T: seq<nat>, n: nat, ss: seq<(nat, nat)>, k: nat, qv: seq<(nat, nat)>, j: nat, y: nat)
    requires 5 <= |T| && k < |T| && FixedDigits(p) <= n
    requires Run(T + T, ss)[k..k + |SetSteps(p)|] == SetSteps(p)
    requires Run(Rot(T, k), qv)[..|SetSteps(p)|] == SetSteps(p)
    requires var F := MaskLabels(n, FixedDigits(p));
      j <= |Q(F)| && Run(F, Q(F)[..j]) == seq(|F|, i requires 0 <= i < |F| => Rho(ss, qv, F[i]))
    requires y in MaskSet(n)
    ensures Act(Q(MaskLabels(n, FixedDigits(p)))[..j], y) == Rho(ss, qv, y)
  {
    var F := MaskLabels(n, FixedDigits(p));
    var LF := set k | 0 <= k < |F| :: F[k];
    var S := SetSteps(p);
    var tau := Q(F)[..j];
    LabelSplit(p, n, y);
    if y in LF {
      var i :| 0 <= i < |F| && F[i] == y;
      RunAt(F, tau, i);
    } else {
      var c :| 0 <= c < |S| && S[c] == y;
      RhoFixesStart(p, T, ss, k, qv, c);
      QPairs(F);
      PairsSlice(Q(F), 0, j, LF);
      assert Q(F)[0..j] == tau;
      ActWithin(tau, LF, y);
    }
  }

  /**
   * Some prefix of the reduced queue relabels the copy Run(T + T, ss) so
   * that its window at k is the variant Run(Rot(T, k), qv).
   */
  lemma Relabelling(p: Partition, T: seq<nat>, n: nat, ss: seq<(nat, nat)>, k: nat, qv: seq<(nat, nat)>) returns (j: nat)
    requires 5 <= |T| && k < |T| && FixedDigits(p) <= n && Within(T, MaskSet(n))
    requires PairsIn(ss, MaskSet(n)) && PairsIn(qv, MaskSet(n))
    requires Run(T + T, ss)[k..k + |SetSteps(p)|] == SetSteps(p)
    requires Run(Rot(T, k), qv)[..|SetSteps(p)|] == SetSteps(p)
    ensures var F := MaskLabels(n, FixedDigits(p));
      j <= |Q(F)| && Run(Run(T + T, ss), Q(F)[..j])[k..k + |T|] == Run(Rot(T, k), qv)
  {
    var F := MaskLabels(n, FixedDigits(p));
    var M := MaskSet(n);
    var b := seq(|F|, i requires 0 <= i < |F| => Rho(ss, qv, F[i]));
    TargetArrangement(p, T, n, ss, k, qv, b);
    LabelsDistinct(n, FixedDigits(p));
    assert Holds(F, F) by {
      forall i | 0 <= i < |F|
        ensures F[i] in F
      {
      }
    }
    QCovers(F, F, b);
    var V := Visits(F, Q(F));
    j :| 0 <= j < |V| && V[j] == b;
    VisitsAt(F, Q(F), j);
    var tau := Q(F)[..j];
    var c := Run(T + T, ss);
    var v := Run(Rot(T, k), qv);
    forall i | 0 <= i < |T|
      ensures Run(c, tau)[k..k + |T|][i] == v[i]
    {
      RelabelledAt(p, T, n, ss, k, qv, j, i);
    }
  }

  /** Entry i of the window at k of the relabelled copy is entry i of the variant. */
  lemma RelabelledAt(p: Partition, T: seq<nat>, n: nat, ss: seq<(nat, nat)>, k: nat, qv: seq<(nat, nat)>, j: nat, i: nat)
    requires 5 <= |T| && k < |T| && FixedDigits(p) <= n && Within(T, MaskSet(n))
    requires PairsIn(ss, MaskSet(n))
    requires Run(T + T, ss)[k..k + |SetSteps(p)|] == SetSteps(p)
    requires Run(Rot(T, k), qv)[..|SetSteps(p)|] == SetSteps(p)
    requires var F := MaskLabels(n, FixedDigits(p));
      j <= |Q(F)| && Run(F, Q(F)[..j]) == seq(|F|, i requires 0 <= i < |F| => Rho(ss, qv, F[i]))
    requires i < |T|
    ensures Run(Run(T + T, ss), Q(MaskLabels(n, FixedDigits(p)))[..j])[k + i] == Run(Rot(T, k), qv)[i]
  {
    var M := MaskSet(n);
    var tau := Q(MaskLabels(n, FixedDigits(p)))[..j];
    var c := Run(T + T, ss);
    DoubledWithin(T, M);
    DoubledWindow(T, k);
    var t := (T + T)[k + i];
    assert Rot(T, k)[i] == (T + T)[k..k + |T|][i] == t;
    RunAt(c, tau, k + i);
    RunAt(T + T, ss, k + i);
    ActWithin(ss, M, t);
    AgreeAt(p, T, n, ss, k, qv, j, c[k + i]);
    ActUndo(ss, t);
    RunAt(Rot(T, k), qv, i);
  }

  /** A window that some relabelling turns into the set start has the set start's pattern in every relabelled copy. */
  lemma StartPattern(p: Partition, T: seq<nat>, rs: seq<(nat, nat)>, k: nat, qv: seq<(nat, nat)>)
    requires 5 <= |T| && k < |T| && Run(Rot(T, k), qv)[..|SetSteps(p)|] == SetSteps(p)
    ensures SamePattern(Run(T + T, rs), k, SetSteps(p))
  {
    var S := SetSteps(p);
    var v := Run(Rot(T, k), qv);
    forall a | 0 <= a < |S|
      ensures v[a] == S[a]
    {
      assert v[a] == v[..|S|][a];
    }
    assert SamePattern(v, 0, S);
    RunPattern(Rot(T, k), qv, 0, S);
    DoubledWindow(T, k);
    SlicePattern(T + T, k, |T|, S);
    RunPattern(T + T, rs, k, S);
  }

  /**
   * At a rotation k that the test reaches with nothing below T compared so
   * far, no relabelling of the rotation by swaps of masks that starts with
   * the set start is below T.
   */
  lemma RotationNoneLower(p: Partition, T: seq<nat>, n: nat, rs: seq<(nat, nat)>, k: nat, qv: seq<(nat, nat)>)
    requires 5 <= |T| && k < |T| && FixedDigits(p) <= n && Within(T, MaskSet(n)) && PairsIn(rs, MaskSet(n))
    requires NoneLower(Windows(p, Run(T + T, rs), k, |T|, SearchQueue(p, n)), T)
    requires PairsIn(qv, MaskSet(n)) && Run(Rot(T, k), qv)[..|SetSteps(p)|] == SetSteps(p)
    ensures !LexLess(Run(Rot(T, k), qv), T)
  {
    var ss := ComparedAt(p, T, n, rs, k, qv);
    var j := Relabelling(p, T, n, ss, k, qv);
    var F := MaskLabels(n, FixedDigits(p));
    assert SearchQueue(p, n)[1..] == Q(F);
    WindowNotLower(Run(T + T, ss), k, |T|, SearchQueue(p, n), Q(F), j, T);
  }

  /** A window after the first j swaps of the queue past its placeholder is one the test compared. */
  lemma WindowNotLower(c: seq<nat>, k: nat, len: nat, queue: seq<(nat, nat)>, rest: seq<(nat, nat)>, j: nat, T: seq<nat>)
    requires k + len <= |c| && |queue| >= 1 && queue[1..] == rest && j <= |rest|
    requires NoneLower([c[k..k + len]], T) && NoneLower(QueueWindows(c, k, len, queue, 1), T)
    ensures !LexLess(Run(c, rest[..j])[k..k + len], T)
  {
    if j == 0 {
      assert rest[..0] == [];
      assert [c[k..k + len]][0] == Run(c, rest[..j])[k..k + len];
    } else {
      QueueWindowsAt(c, k, len, queue, 1, j);
      assert queue[1..j + 1] == rest[..j];
    }
  }

  /**
   * What the test compares at such a rotation: the copy, relabelled by swaps
   * of masks so that it shows the set start at k, and then after each swap
   * of the reduced queue.
   */
  lemma ComparedAt(p: Partition, T: seq<nat>, n: nat, rs: seq<(nat, nat)>, k: nat, qv: seq<(nat, nat)>) returns (ss: seq<(nat, nat)>)
    requires 5 <= |T| && k < |T| && FixedDigits(p) <= n && Within(T, MaskSet(n)) && PairsIn(rs, MaskSet(n))
    requires NoneLower(Windows(p, Run(T + T, rs), k, |T|, SearchQueue(p, n)), T)
    requires Run(Rot(T, k), qv)[..|SetSteps(p)|] == SetSteps(p)
    ensures PairsIn(ss, MaskSet(n)) && Run(T + T, ss)[k..k + |SetSteps(p)|] == SetSteps(p)
    ensures NoneLower([Run(T + T, ss)[k..k + |T|]], T)
    ensures NoneLower(QueueWindows(Run(T + T, ss), k, |T|, SearchQueue(p, n), 1), T)
  {
    var x := Run(T + T, rs);
    StartPattern(p, T, rs, k, qv);
    PatternInPartition(p, x, k);
    MatchStartPrefix(x, k, SetSteps(p), 0);
    ss := MatchedCompared(p, T, n, rs, k);
  }

  /** A rotation in the partition: the windows compared right after matching the set start. */
  lemma MatchedCompared(p: Partition, T: seq<nat>, n: nat, rs: seq<(nat, nat)>, k: nat) returns (ss: seq<(nat, nat)>)
    requires 5 <= |T| && k < |T| && FixedDigits(p) <= n && Within(T, MaskSet(n)) && PairsIn(rs, MaskSet(n))
    requires InPartition(p, Run(T + T, rs), k)
    requires NoneLower(Windows(p, Run(T + T, rs), k, |T|, SearchQueue(p, n)), T)
    ensures PairsIn(ss, MaskSet(n)) && Run(T + T, ss) == MatchStart(Run(T + T, rs), k, SetSteps(p), 0)
    ensures NoneLower([Run(T + T, ss)[k..k + |T|]], T)
    ensures NoneLower(QueueWindows(Run(T + T, ss), k, |T|, SearchQueue(p, n), 1), T)
    ensures NoneLower(Windows(p, Run(Run(T + T, ss), SearchQueue(p, n)[1..]), k + 1, |T|, SearchQueue(p, n)), T)
  {
    var M := MaskSet(n);
    var x := Run(T + T, rs);
    MatchedParts(p, T, x, k, SearchQueue(p, n));
    DoubledWithin(T, M);
    RunWithin(T + T, rs, M);
    QueueWithin(p, n);
    var ms := MatchStartRun(x, k, SetSteps(p), 0, M);
    RunConcat(T + T, rs, ms);
    PairsConcat(rs, ms, M);
    ss := rs + ms;
  }

  /** The windows of a rotation in the partition, split into the matched copy, its queue windows and the next rotations. */
  lemma MatchedParts(p: Partition, T: seq<nat>, x: seq<nat>, k: nat, SQ: seq<(nat, nat)>)
    requires |T| >= 5 && |x| == 2 * |T| && |SQ| >= 1 && k < |T| && InPartition(p, x, k)
    requires NoneLower(Windows(p, x, k, |T|, SQ), T)
    ensures var c := MatchStart(x, k, SetSteps(p), 0);
      NoneLower([c[k..k + |T|]], T) && NoneLower(QueueWindows(c, k, |T|, SQ, 1), T)
      && NoneLower(Windows(p, Run(c, SQ[1..]), k + 1, |T|, SQ), T)
  {
    var c := MatchStart(x, k, SetSteps(p), 0);
    WindowsSplit(p, x, k, |T|, SQ);
    NoneLowerAppend([c[k..k + |T|]], QueueTail(p, c, k, |T|, SQ, 1), T);
    NoneLowerAppend(QueueWindows(c, k, |T|, SQ, 1), Windows(p, Run(c, SQ[1..]), k + 1, |T|, SQ), T);
  }

  /**
   * The converse of RejectedHasLowerVariant: when the seed test passes T,
   * every relabelling by swaps of masks of every rotation of T that starts
   * with the set start is at least T.
   */
  lemma PassedHasNoLowerVariant(p: Partition, T: seq<nat>, n: nat, k: nat, qv: seq<(nat, nat)>)
    requires 5 <= |T| && FixedDigits(p) <= n && Within(T, MaskSet(n)) && SeedPasses(p, T, SearchQueue(p, n))
    requires k < |T| && PairsIn(qv, MaskSet(n)) && Run(Rot(T, k), qv)[..|SetSteps(p)|] == SetSteps(p)
    ensures !LexLess(Run(Rot(T, k), qv), T)
  {
    assert Run(T + T, []) == T + T;
    var rs := ReachRotation(p, T, n, [], 0, k);
    RotationNoneLower(p, T, n, rs, k, qv);
  }

  /**
   * Both directions at once: on a clean cycle of masks, the seed test passes
   * exactly when no rotation relabelled by swaps of masks to begin with the
   * set start is below the code.
   */
  lemma SeedPassesExactly(p: Partition, T: seq<nat>, n: nat)
    requires 5 <= |T| && FixedDigits(p) <= n && Within(T, MaskSet(n)) && CleanWindows(T)
    ensures SeedPasses(p, T, SearchQueue(p, n)) <==>
      forall k: nat, qv: seq<(nat, nat)> ::
        (k < |T| && PairsIn(qv, MaskSet(n)) && Run(Rot(T, k), qv)[..|SetSteps(p)|] == SetSteps(p))
        ==> !LexLess(Run(Rot(T, k), qv), T)
  {
    if SeedPasses(p, T, SearchQueue(p, n)) {
      forall k: nat, qv: seq<(nat, nat)> | k < |T| && PairsIn(qv, MaskSet(n))
        && Run(Rot(T, k), qv)[..|SetSteps(p)|] == SetSteps(p)
        ensures !LexLess(Run(Rot(T, k), qv), T)
      {
        PassedHasNoLowerVariant(p, T, n, k, qv);
      }
    } else {
      RejectedHasLowerVariant(p, T, n);
    }
  }
}
