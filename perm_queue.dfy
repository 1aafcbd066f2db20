/**
 * The queue of label swaps that walks through every relabelling of a code.
 * addQueueSwaps writes, for n labels, n! - 1 transpositions such that applying
 * them one after another, starting from any arrangement of the labels, passes
 * through n! pairwise different arrangements.  The same routine is used with
 * digit numbers (addQueueSwaps) and with step masks (addQueueSwapsMasks); the
 * model is generic in the label values.
 */
module PermQueue {

  function Fact(n: nat): (r: nat)
    ensures r >= 1
  {
    if n == 0 then 1 else n * Fact(n - 1)
  }

  /** The swaps addQueueSwaps appends for the labels ind. */
  function Q(ind: seq<nat>): seq<(nat, nat)>
    decreases |ind|, 1, 0
  {
    if |ind| == 2 then [(ind[0], ind[1])]
    else if |ind| <= 1 then []
    else Blocks(ind, |ind| - 1, ind[..|ind| - 1])
  }

  /**
   * What the loop of addQueueSwaps appends from iteration i downwards: the
   * swaps for the labels rec, the swap (ind[i], ind[i-1]), then the remaining
   * iterations with ind[i] put back into rec in place of ind[i-1]; after the
   * last iteration, the final recursive call.
   */
  function Blocks(ind: seq<nat>, i: nat, rec: seq<nat>): seq<(nat, nat)>
    requires i < |ind| && |rec| == |ind| - 1
    decreases |ind|, 0, i
  {
    if i == 0 then Q(rec)
    else Q(rec) + [(ind[i], ind[i - 1])] + Blocks(ind, i - 1, rec[i - 1 := ind[i]])
  }

  lemma {:induction false} QLength(ind: seq<nat>)
    ensures |Q(ind)| == Fact(|ind|) - 1
    decreases |ind|, 1, 0
  {
    if |ind| > 2 {
      BlocksLength(ind, |ind| - 1, ind[..|ind| - 1]);
    }
  }

  lemma {:induction false} BlocksLength(ind: seq<nat>, i: nat, rec: seq<nat>)
    requires i < |ind| && |rec| == |ind| - 1
    ensures |Blocks(ind, i, rec)| == (i + 1) * Fact(|ind| - 1) - 1
    decreases |ind|, 0, i
  {
    QLength(rec);
    if i > 0 {
      var rec' := rec[i - 1 := ind[i]];
      var B := Blocks(ind, i - 1, rec');
      BlocksLength(ind, i - 1, rec');
      assert Blocks(ind, i, rec) == Q(rec) + [(ind[i], ind[i - 1])] + B;
      BlockArith(|Q(rec)|, |B|, i, Fact(|ind| - 1), |Blocks(ind, i, rec)|);
    }
  }

  lemma BlockArith(q: int, b: int, i: int, f: int, total: int)
    requires q == f - 1 && b == i * f - 1 && total == q + 1 + b
    ensures total == (i + 1) * f - 1
  {
  }

  /**
   * Writes the swaps for the labels ind into queue from index `from` on,
   * returning how many were written; nothing else in the queue changes.
   */
  method AddQueueSwaps(n: nat, from: nat, queue: array<(nat, nat)>, ind: seq<nat>) returns (added: nat)
    requires |ind| == n && from + Fact(n) - 1 <= queue.Length
    modifies queue
    ensures added == Fact(n) - 1
    ensures queue[..] == old(queue[..])[..from] + Q(ind) + old(queue[..])[from + added..]
    decreases n, 1
  {
    if n == 2 {
      ghost var q0 := queue[..];
      QSmall(ind);
      queue[from] := (ind[0], ind[1]);
      assert queue[..] == q0[from := (ind[0], ind[1])];
      SpliceWrite(q0, [], (ind[0], ind[1]), from, q0);
      return 1;
    } else if n <= 1 {
      QSmall(ind);
      assert queue[..] == queue[..][..from] + [] + queue[..][from..];
      return 0;
    }
    ghost var done;
    var cur, rec;
    cur, rec, done := AddBlocks(n, from, queue, ind);
    QLength(rec);
    ghost var q0 := queue[..];
    var a := AddQueueSwaps(n - 1, cur, queue, rec);
    SpliceLast(old(queue[..]), done, Q(rec), from, cur, q0, queue[..]);
    cur := cur + a;
    added := cur - from;
    assert done + Q(rec) == Q(ind) && from + added == cur;
  }

  /** The queues for one or two labels, and their lengths. */
  lemma QSmall(ind: seq<nat>)
    requires |ind| <= 2
    ensures |ind| == 2 ==> Q(ind) == [(ind[0], ind[1])] && Fact(2) - 1 == 1
    ensures |ind| <= 1 ==> Q(ind) == [] && Fact(|ind|) - 1 == 0
  {
  }

  /**
   * The loop of addQueueSwaps: for i from n - 1 down to 1, the swaps for the
   * labels rec and the swap (ind[i], ind[i - 1]); what is left of Q(ind) is
   * the swaps of the final recursive call on the returned rec.
   */
  method AddBlocks(n: nat, from: nat, queue: array<(nat, nat)>, ind: seq<nat>)
    returns (cur: nat, rec: seq<nat>, ghost done: seq<(nat, nat)>)
    requires n >= 3 && |ind| == n && from + Fact(n) - 1 <= queue.Length
    modifies queue
    ensures |rec| == n - 1 && done + Q(rec) == Q(ind)
    ensures cur == from + |done| && cur + Fact(n - 1) - 1 == from + Fact(n) - 1
    ensures queue[..] == old(queue[..])[..from] + done + old(queue[..])[cur..]
    decreases n, 0
  {
    cur := from;
    rec := ind[..n - 1];
    var i := n - 1;
    ghost var end := from + Fact(n) - 1;
    ghost var orig := queue[..];
    done := [];
    QLength(ind);
    assert Q(ind) == Blocks(ind, n - 1, rec);
    assert queue[..] == orig[..from] + done + orig[cur..];
    while i > 0
      invariant 0 <= i <= n - 1 && |rec| == n - 1 && from <= cur <= end
      invariant |done| == cur - from && cur + |Blocks(ind, i, rec)| == end
      invariant done + Blocks(ind, i, rec) == Q(ind)
      invariant queue[..] == orig[..from] + done + orig[cur..]
    {
      BlocksStep(ind, i, rec, done);
      ghost var q0 := queue[..];
      var a := AddBlock(n - 1, cur, queue, rec, ind[i], ind[i - 1]);
      SpliceLast(orig, done, Q(rec) + [(ind[i], ind[i - 1])], from, cur, q0, queue[..]);
      done := done + (Q(rec) + [(ind[i], ind[i - 1])]);
      cur := cur + a + 1;
      rec := rec[i - 1 := ind[i]];
      i := i - 1;
    }
    assert Blocks(ind, 0, rec) == Q(rec);
    QLength(rec);
  }

  /** One pass of the loop of addQueueSwaps: the swaps for rec, then the swap (x, y). */
  method AddBlock(m: nat, cur: nat, queue: array<(nat, nat)>, rec: seq<nat>, x: nat, y: nat) returns (a: nat)
    requires |rec| == m && cur + Fact(m) <= queue.Length
    modifies queue
    ensures a == Fact(m) - 1
    ensures queue[..] == old(queue[..])[..cur] + (Q(rec) + [(x, y)]) + old(queue[..])[cur + a + 1..]
    decreases m, 2
  {
    ghost var q0 := queue[..];
    a := AddQueueSwaps(m, cur, queue, rec);
    QLength(rec);
    ghost var q1 := queue[..];
    queue[cur + a] := (x, y);
    assert queue[..] == q1[cur + a := (x, y)];
    SpliceWrite(q0, Q(rec), (x, y), cur, q1);
  }

  /** One loop iteration of addQueueSwaps appends a block and leaves the remaining iterations. */
  lemma BlocksStep(ind: seq<nat>, i: nat, rec: seq<nat>, before: seq<(nat, nat)>)
    requires 0 < i < |ind| && |rec| == |ind| - 1 && before + Blocks(ind, i, rec) == Q(ind)
    ensures before + (Q(rec) + [(ind[i], ind[i - 1])]) + Blocks(ind, i - 1, rec[i - 1 := ind[i]]) == Q(ind)
    ensures |Q(rec)| == Fact(|rec|) - 1
    ensures |Blocks(ind, i, rec)| == |Q(rec)| + 1 + |Blocks(ind, i - 1, rec[i - 1 := ind[i]])|
  {
    QLength(rec);
    assert Blocks(ind, i, rec) == Q(rec) + [(ind[i], ind[i - 1])] + Blocks(ind, i - 1, rec[i - 1 := ind[i]]);
  }

  /** A segment written at cur followed by one more entry. */
  lemma SpliceWrite<T>(q0: seq<T>, seg: seq<T>, x: T, cur: nat, q1: seq<T>)
    requires cur + |seg| < |q0| && q1 == q0[..cur] + seg + q0[cur + |seg|..]
    ensures q1[cur + |seg| := x] == q0[..cur] + (seg + [x]) + q0[cur + |seg| + 1..]
  {
  }

  /** The array after writing seg at cur, described from the original contents. */
  lemma SpliceLast<T>(orig: seq<T>, done: seq<T>, seg: seq<T>, from: nat, cur: nat, q0: seq<T>, q1: seq<T>)
    requires from <= cur && cur + |seg| <= |orig| && |done| == cur - from
    requires q0 == orig[..from] + done + orig[cur..]
    requires q1 == q0[..cur] + seg + q0[cur + |seg|..]
    ensures q1 == orig[..from] + (done + seg) + orig[cur + |seg|..]
  {
    assert q0[..cur] == orig[..from] + done;
    assert q0[cur + |seg|..] == orig[cur + |seg|..];
  }

  /** The swap routine on values: every a becomes b and every b becomes a. */
  function Swap(s: seq<nat>, a: nat, b: nat): (r: seq<nat>)
    ensures |r| == |s|
  {
    seq(|s|, k requires 0 <= k < |s| => if s[k] == a then b else if s[k] == b then a else s[k])
  }

  /** Swapping the same two labels twice restores the sequence. */
  lemma SwapInvolution(s: seq<nat>, a: nat, b: nat)
    ensures Swap(Swap(s, a, b), a, b) == s
  {
  }

  /** The arrangements passed through when the swaps qs are applied to s in order, s included. */
  function Visits(s: seq<nat>, qs: seq<(nat, nat)>): (vs: seq<seq<nat>>)
    ensures |vs| == |qs| + 1 && vs[0] == s
    ensures forall k :: 0 <= k < |vs| ==> |vs[k]| == |s|
    decreases |qs|
  {
    [s] + (if |qs| == 0 then [] else Visits(Swap(s, qs[0].0, qs[0].1), qs[1..]))
  }

  /** The arrangement reached after all of qs. */
  function Run(s: seq<nat>, qs: seq<(nat, nat)>): (r: seq<nat>)
    ensures |r| == |s|
    decreases |qs|
  {
    if |qs| == 0 then s else Run(Swap(s, qs[0].0, qs[0].1), qs[1..])
  }

  predicate AllDistinct<T(==)>(xs: seq<T>)
  {
    forall i, j :: 0 <= i < j < |xs| ==> xs[i] != xs[j]
  }

  /**
   * s is a rearrangement of a that moves only the labels in L: it has no
   * repeated entry, every label of L occurs in it, and positions holding a
   * label outside L keep it.
   */
  predicate Arr(a: seq<nat>, s: seq<nat>, L: set<nat>)
  {
    |s| == |a| && AllDistinct(s) && (forall x :: x in L ==> x in s)
    && (forall p {:trigger a[p]} :: 0 <= p < |a| && a[p] !in L ==> s[p] == a[p])
  }

  predicate PairsIn(qs: seq<(nat, nat)>, L: set<nat>)
  {
    forall k :: 0 <= k < |qs| ==> qs[k].0 in L && qs[k].1 in L
  }

  lemma ArrTrans(a: seq<nat>, s: seq<nat>, t: seq<nat>, L: set<nat>)
    requires Arr(a, s, L) && Arr(s, t, L)
    ensures Arr(a, t, L)
  {
  }

  lemma SwapArr(s: seq<nat>, x: nat, y: nat, L: set<nat>)
    requires AllDistinct(s) && x in L && y in L && (forall z :: z in L ==> z in s)
    ensures Arr(s, Swap(s, x, y), L)
  {
    var r := Swap(s, x, y);
    forall z | z in L
      ensures z in r
    {
      var p :| 0 <= p < |s| && s[p] == z;
      if z == x {
        var q :| 0 <= q < |s| && s[q] == y;
        assert r[q] == z;
      } else if z == y {
        var q :| 0 <= q < |s| && s[q] == x;
        assert r[q] == z;
      } else {
        assert r[p] == z;
      }
    }
  }

  lemma {:induction false} VisitsArr(s: seq<nat>, qs: seq<(nat, nat)>, L: set<nat>)
    requires AllDistinct(s) && (forall z :: z in L ==> z in s) && PairsIn(qs, L)
    ensures forall k :: 0 <= k < |qs| + 1 ==> Arr(s, Visits(s, qs)[k], L)
    ensures Run(s, qs) == Visits(s, qs)[|qs|]
    decreases |qs|
  {
    assert Arr(s, s, L);
    if |qs| > 0 {
      var s1 := Swap(s, qs[0].0, qs[0].1);
      SwapArr(s, qs[0].0, qs[0].1, L);
      PairsTail(qs, L);
      VisitsArr(s1, qs[1..], L);
      var V, V1 := Visits(s, qs), Visits(s1, qs[1..]);
      VisitsTail(s, qs);
      forall k | 1 <= k < |qs| + 1
        ensures Arr(s, V[k], L)
      {
        ArrTrans(s, s1, V1[k - 1], L);
      }
    }
  }

  lemma PairsTail(qs: seq<(nat, nat)>, L: set<nat>)
    requires |qs| > 0 && PairsIn(qs, L)
    ensures PairsIn(qs[1..], L)
  {
    forall k | 0 <= k < |qs| - 1
      ensures qs[1..][k].0 in L && qs[1..][k].1 in L
    {
      assert qs[1..][k] == qs[k + 1];
    }
  }

  /** After the first swap, the visits are those of the rest of the queue. */
  lemma VisitsTail(s: seq<nat>, qs: seq<(nat, nat)>)
    requires |qs| > 0
    ensures var s1 := Swap(s, qs[0].0, qs[0].1);
      (forall k :: 1 <= k < |qs| + 1 ==> Visits(s, qs)[k] == Visits(s1, qs[1..])[k - 1])
      && Run(s, qs) == Run(s1, qs[1..])
  {
  }

  lemma {:induction false} VisitsAppend(s: seq<nat>, xs: seq<(nat, nat)>, ys: seq<(nat, nat)>)
    ensures Visits(s, xs + ys) == Visits(s, xs) + Visits(Run(s, xs), ys)[1..]
    decreases |xs|
  {
    if |xs| == 0 {
      assert xs + ys == ys;
    } else {
      assert (xs + ys)[1..] == xs[1..] + ys;
      VisitsAppend(Swap(s, xs[0].0, xs[0].1), xs[1..], ys);
    }
  }

  lemma {:induction false} QPairs(ind: seq<nat>)
    ensures PairsIn(Q(ind), set k | 0 <= k < |ind| :: ind[k])
    decreases |ind|, 1, 0
  {
    if |ind| > 2 {
      BlocksPairs(ind, |ind| - 1, ind[..|ind| - 1]);
    }
  }

  lemma {:induction false} BlocksPairs(ind: seq<nat>, i: nat, rec: seq<nat>)
    requires i < |ind| && |rec| == |ind| - 1
    requires forall k :: 0 <= k < |rec| ==> rec[k] in ind
    ensures PairsIn(Blocks(ind, i, rec), set k | 0 <= k < |ind| :: ind[k])
    decreases |ind|, 0, i
  {
    var L := set k | 0 <= k < |ind| :: ind[k];
    QPairs(rec);
    var R := Q(rec);
    forall k | 0 <= k < |R|
      ensures R[k].0 in L && R[k].1 in L
    {
      assert R[k].0 in set j | 0 <= j < |rec| :: rec[j];
      assert R[k].1 in set j | 0 <= j < |rec| :: rec[j];
    }
    if i > 0 {
      assert ind[i] in L && ind[i - 1] in L;
      BlocksPairs(ind, i - 1, rec[i - 1 := ind[i]]);
      var B := Blocks(ind, i - 1, rec[i - 1 := ind[i]]);
      assert Blocks(ind, i, rec) == R + [(ind[i], ind[i - 1])] + B;
    }
  }

  /** Every label of ind occurs in s. */
  predicate Holds(s: seq<nat>, ind: seq<nat>)
  {
    forall k {:trigger ind[k] in s} :: 0 <= k < |ind| ==> ind[k] in s
  }

  /**
   * Applying the queue for the labels ind to an arrangement a holding each of
   * them passes through Fact(|ind|) arrangements, no two of them equal.
   */
  lemma {:induction false} QVisits(ind: seq<nat>, a: seq<nat>)
    requires AllDistinct(ind) && AllDistinct(a) && Holds(a, ind)
    ensures |Visits(a, Q(ind))| == Fact(|ind|)
    ensures AllDistinct(Visits(a, Q(ind)))
    decreases |ind|, 1, 0
  {
    QLength(ind);
    var m := |ind|;
    if m == 2 {
      assert ind[0] in a;
      var p :| 0 <= p < |a| && a[p] == ind[0];
      assert Visits(a, Q(ind))[1][p] == ind[1];
    } else if m > 2 {
      assert ind[m - 1] in a;
      var p :| 0 <= p < |a| && a[p] == ind[m - 1];
      assert ind[..m - 1] == ind[..m - 1] + ind[m..];
      BlocksVisits(ind, m - 1, ind[..m - 1], a, p);
    }
  }

  lemma {:induction false} BlocksVisits(ind: seq<nat>, i: nat, rec: seq<nat>, a: seq<nat>, p: nat)
    requires AllDistinct(ind) && i < |ind| && rec == ind[..i] + ind[i + 1..]
    requires AllDistinct(a) && Holds(a, ind) && p < |a| && a[p] == ind[i]
    ensures AllDistinct(Visits(a, Blocks(ind, i, rec)))
    ensures forall k :: 0 <= k < |Visits(a, Blocks(ind, i, rec))| ==> Visits(a, Blocks(ind, i, rec))[k][p] in ind[..i + 1]
    decreases |ind|, 0, i
  {
    var R := Q(rec);
    var V1 := Visits(a, R);
    LeaveOut(ind, i, rec, a);
    QVisits(rec, a);
    FirstBlock(rec, a, p);
    if i == 0 {
      assert Blocks(ind, i, rec) == R;
    } else {
      var a' := Swap(Run(a, R), ind[i], ind[i - 1]);
      var rec' := rec[i - 1 := ind[i]];
      assert rec' == ind[..i - 1] + ind[i..];
      NextStart(ind, i, rec, a, p);
      BlocksVisits(ind, i - 1, rec', a', p);
      BlocksCompose(ind, i, rec, a, p, a', Blocks(ind, i - 1, rec'));
    }
  }

  /** The visits of iteration i followed by those of the later iterations. */
  lemma BlocksCompose(ind: seq<nat>, i: nat, rec: seq<nat>, a: seq<nat>, p: nat, a': seq<nat>, B: seq<(nat, nat)>)
    requires 0 < i < |ind| && |rec| == |ind| - 1 && AllDistinct(ind) && p < |a|
    requires a' == Swap(Run(a, Q(rec)), ind[i], ind[i - 1]) && B == Blocks(ind, i - 1, rec[i - 1 := ind[i]])
    requires AllDistinct(Visits(a, Q(rec)))
    requires forall k :: 0 <= k < |Visits(a, Q(rec))| ==> Visits(a, Q(rec))[k][p] == ind[i]
    requires AllDistinct(Visits(a', B))
    requires forall k :: 0 <= k < |Visits(a', B)| ==> Visits(a', B)[k][p] in ind[..i]
    ensures AllDistinct(Visits(a, Blocks(ind, i, rec)))
    ensures forall k :: 0 <= k < |Visits(a, Blocks(ind, i, rec))| ==> Visits(a, Blocks(ind, i, rec))[k][p] in ind[..i + 1]
  {
    var V1, V2 := Visits(a, Q(rec)), Visits(a', B);
    assert forall k :: 0 <= k < |V1| ==> p < |V1[k]| && V1[k][p] == ind[i];
    assert |a'| == |a|;
    assert forall k :: 0 <= k < |V2| ==> p < |V2[k]| && V2[k][p] in ind[..i];
    NotBefore(ind, i);
    ComposeShape(ind, i, rec, a, a', B);
    DistinctConcat(V1, V2, p, ind[i], ind[..i], Visits(a, Blocks(ind, i, rec)), ind[..i + 1]);
  }

  /** Distinct labels: label i is not among the ones before it. */
  lemma NotBefore(ind: seq<nat>, i: nat)
    requires AllDistinct(ind) && i < |ind|
    ensures ind[i] !in ind[..i] && ind[..i + 1] == ind[..i] + [ind[i]]
  {
    forall j | 0 <= j < i
      ensures ind[..i][j] != ind[i]
    {
      assert ind[j] != ind[i];
    }
  }

  /** The visits of iteration i are those of the recursive call, then those after the swap. */
  lemma ComposeShape(ind: seq<nat>, i: nat, rec: seq<nat>, a: seq<nat>, a': seq<nat>, B: seq<(nat, nat)>)
    requires 0 < i < |ind| && |rec| == |ind| - 1
    requires a' == Swap(Run(a, Q(rec)), ind[i], ind[i - 1]) && B == Blocks(ind, i - 1, rec[i - 1 := ind[i]])
    ensures Visits(a, Blocks(ind, i, rec)) == Visits(a, Q(rec)) + Visits(a', B)
  {
    var R := Q(rec);
    var sw := (ind[i], ind[i - 1]);
    assert Blocks(ind, i, rec) == R + ([sw] + B);
    VisitsAppend(a, R, [sw] + B);
    assert ([sw] + B)[1..] == B;
  }

  /** rec is ind with entry i left out. */
  lemma LeaveOut(ind: seq<nat>, i: nat, rec: seq<nat>, a: seq<nat>)
    requires AllDistinct(ind) && i < |ind| && rec == ind[..i] + ind[i + 1..] && Holds(a, ind)
    ensures AllDistinct(rec) && Holds(a, rec)
    ensures ind[i] !in rec
  {
    forall k | 0 <= k < |rec|
      ensures rec[k] == ind[if k < i then k else k + 1]
    {
    }
  }

  /** During the recursive call a label outside rec, here the one at p, stays where it is. */
  lemma FirstBlock(rec: seq<nat>, a: seq<nat>, p: nat)
    requires AllDistinct(a) && Holds(a, rec) && p < |a| && a[p] !in rec
    ensures forall k :: 0 <= k < |Visits(a, Q(rec))| ==> Visits(a, Q(rec))[k][p] == a[p]
    ensures Arr(a, Run(a, Q(rec)), set k | 0 <= k < |rec| :: rec[k])
  {
    var L := set k | 0 <= k < |rec| :: rec[k];
    QPairs(rec);
    VisitsArr(a, Q(rec), L);
    assert a[p] !in L;
  }

  /** The arrangement the next iteration starts from holds ind[i-1] at p. */
  lemma NextStart(ind: seq<nat>, i: nat, rec: seq<nat>, a: seq<nat>, p: nat)
    requires AllDistinct(ind) && 0 < i < |ind| && rec == ind[..i] + ind[i + 1..]
    requires AllDistinct(a) && Holds(a, ind) && p < |a| && a[p] == ind[i]
    requires AllDistinct(rec) && Holds(a, rec) && ind[i] !in rec
    requires Arr(a, Run(a, Q(rec)), set k | 0 <= k < |rec| :: rec[k])
    ensures AllDistinct(Swap(Run(a, Q(rec)), ind[i], ind[i - 1]))
    ensures Holds(Swap(Run(a, Q(rec)), ind[i], ind[i - 1]), ind)
    ensures Swap(Run(a, Q(rec)), ind[i], ind[i - 1])[p] == ind[i - 1]
  {
    var e := Run(a, Q(rec));
    var L := set k | 0 <= k < |rec| :: rec[k];
    assert a[p] !in L;
    assert e[p] == ind[i];
    assert Holds(e, ind) by {
      forall k | 0 <= k < |ind|
        ensures ind[k] in e
      {
        if k != i {
          assert ind[k] == rec[if k < i then k else k - 1];
          assert ind[k] in L;
        }
      }
    }
    var Lind := set k | 0 <= k < |ind| :: ind[k];
    assert ind[i] in Lind && ind[i - 1] in Lind;
    assert forall z :: z in Lind ==> z in e;
    SwapArr(e, ind[i], ind[i - 1], Lind);
    var a' := Swap(e, ind[i], ind[i - 1]);
    forall k | 0 <= k < |ind|
      ensures ind[k] in a'
    {
      assert ind[k] in Lind;
    }
  }

  /** Two runs of pairwise different arrangements told apart at position p are pairwise different together. */
  lemma DistinctConcat(V1: seq<seq<nat>>, V2: seq<seq<nat>>, p: nat, x: nat, others: seq<nat>,
                       V: seq<seq<nat>>, S: seq<nat>)
    requires AllDistinct(V1) && AllDistinct(V2) && x !in others
    requires forall k :: 0 <= k < |V1| ==> p < |V1[k]| && V1[k][p] == x
    requires forall k :: 0 <= k < |V2| ==> p < |V2[k]| && V2[k][p] in others
    requires V == V1 + V2 && S == others + [x]
    ensures AllDistinct(V)
    ensures forall k :: 0 <= k < |V| ==> p < |V[k]| && V[k][p] in S
  {
    forall u, w | 0 <= u < w < |V|
      ensures V[u] != V[w]
    {
      if u < |V1| && w >= |V1| {
        assert V[w] == V2[w - |V1|];
      } else if u >= |V1| {
        assert V[u] == V2[u - |V1|] && V[w] == V2[w - |V1|];
      }
    }
    forall k | 0 <= k < |V|
      ensures p < |V[k]| && V[k][p] in S
    {
      if k >= |V1| {
        assert V[k] == V2[k - |V1|];
      }
    }
  }

  /** Where the label x ends up after the swaps qs are applied in order. */
  function Act(qs: seq<(nat, nat)>, x: nat): nat
    decreases |qs|
  {
    if |qs| == 0 then x
    else Act(qs[1..], if x == qs[0].0 then qs[0].1 else if x == qs[0].1 then qs[0].0 else x)
  }

  /** A run of swaps relabels every position on its own: position i gets the image of its label. */
  lemma {:induction false} RunAt(s: seq<nat>, qs: seq<(nat, nat)>, i: nat)
    requires i < |s|
    ensures Run(s, qs)[i] == Act(qs, s[i])
    decreases |qs|
  {
    if |qs| > 0 {
      RunAt(Swap(s, qs[0].0, qs[0].1), qs[1..], i);
    }
  }

  lemma {:induction false} ActConcat(a: seq<(nat, nat)>, b: seq<(nat, nat)>, x: nat)
    ensures Act(a + b, x) == Act(b, Act(a, x))
    decreases |a|
  {
    if |a| == 0 {
      assert a + b == b;
    } else {
      assert (a + b)[0] == a[0] && (a + b)[1..] == a[1..] + b;
      var y := if x == a[0].0 then a[0].1 else if x == a[0].1 then a[0].0 else x;
      ActConcat(a[1..], b, y);
    }
  }

  /** The swaps of qs in reverse order. */
  function Undo(qs: seq<(nat, nat)>): (r: seq<(nat, nat)>)
    ensures |r| == |qs|
    decreases |qs|
  {
    if |qs| == 0 then [] else Undo(qs[1..]) + [qs[0]]
  }

  /** Undoing the swaps restores every label, in either order. */
  lemma {:induction false} ActUndo(qs: seq<(nat, nat)>, x: nat)
    ensures Act(Undo(qs), Act(qs, x)) == x
    ensures Act(qs, Act(Undo(qs), x)) == x
    decreases |qs|
  {
    if |qs| > 0 {
      var a, b := qs[0].0, qs[0].1;
      var y := if x == a then b else if x == b then a else x;
      ActUndo(qs[1..], y);
      ActConcat(Undo(qs[1..]), [qs[0]], Act(qs, x));
      var z := Act(Undo(qs[1..]), x);
      ActUndo(qs[1..], x);
      ActConcat(Undo(qs[1..]), [qs[0]], x);
      var z' := if z == a then b else if z == b then a else z;
      assert Act(Undo(qs), x) == z';
      assert Act(qs, z') == Act(qs[1..], z);
    }
  }

  /** The labels moved by swaps within L stay within L; the others stay put. */
  lemma {:induction false} ActWithin(qs: seq<(nat, nat)>, L: set<nat>, x: nat)
    requires PairsIn(qs, L)
    ensures x in L <==> Act(qs, x) in L
    ensures x !in L ==> Act(qs, x) == x
    decreases |qs|
  {
    if |qs| > 0 {
      PairsTail(qs, L);
      var y := if x == qs[0].0 then qs[0].1 else if x == qs[0].1 then qs[0].0 else x;
      ActWithin(qs[1..], L, y);
    }
  }

  lemma {:induction false} UndoPairs(qs: seq<(nat, nat)>, L: set<nat>)
    requires PairsIn(qs, L)
    ensures PairsIn(Undo(qs), L)
    decreases |qs|
  {
    if |qs| > 0 {
      PairsTail(qs, L);
      UndoPairs(qs[1..], L);
      var u := Undo(qs[1..]) + [qs[0]];
      forall k | 0 <= k < |u|
        ensures u[k].0 in L && u[k].1 in L
      {
        if k < |u| - 1 {
          assert u[k] == Undo(qs[1..])[k];
        }
      }
    }
  }

  lemma PairsConcat(a: seq<(nat, nat)>, b: seq<(nat, nat)>, L: set<nat>)
    requires PairsIn(a, L) && PairsIn(b, L)
    ensures PairsIn(a + b, L)
  {
    forall k | 0 <= k < |a + b|
      ensures (a + b)[k].0 in L && (a + b)[k].1 in L
    {
      if k >= |a| {
        assert (a + b)[k] == b[k - |a|];
      }
    }
  }

  lemma PairsSlice(qs: seq<(nat, nat)>, i: nat, j: nat, L: set<nat>)
    requires i <= j <= |qs| && PairsIn(qs, L)
    ensures PairsIn(qs[i..j], L)
  {
    forall k | 0 <= k < j - i
      ensures qs[i..j][k].0 in L && qs[i..j][k].1 in L
    {
      assert qs[i..j][k] == qs[i + k];
    }
  }

  /** The arrangement visited after j swaps is the run of the first j swaps. */
  lemma {:induction false} VisitsAt(s: seq<nat>, qs: seq<(nat, nat)>, j: nat)
    requires j <= |qs|
    ensures Visits(s, qs)[j] == Run(s, qs[..j])
    decreases |qs|
  {
    if j > 0 {
      VisitsTail(s, qs);
      VisitsAt(Swap(s, qs[0].0, qs[0].1), qs[1..], j - 1);
      assert qs[..j][0] == qs[0] && qs[..j][1..] == qs[1..][..j - 1];
    } else {
      assert qs[..0] == [];
    }
  }

  /**
   * b rearranges a within L: b holds a label of L exactly where a does, and
   * every other position keeps its label.
   */
  predicate Rearranges(a: seq<nat>, b: seq<nat>, L: set<nat>)
  {
    |b| == |a| && forall p :: 0 <= p < |a| ==> (a[p] in L <==> b[p] in L) && (a[p] !in L ==> b[p] == a[p])
  }

  /** A run of swaps within L rearranges within L. */
  lemma RunRearranges(a: seq<nat>, qs: seq<(nat, nat)>, L: set<nat>)
    requires PairsIn(qs, L)
    ensures Rearranges(a, Run(a, qs), L)
  {
    forall p | 0 <= p < |a|
      ensures (a[p] in L <==> Run(a, qs)[p] in L) && (a[p] !in L ==> Run(a, qs)[p] == a[p])
    {
      RunAt(a, qs, p);
      ActWithin(qs, L, a[p]);
    }
  }

  lemma RearrangesTrans(a: seq<nat>, b: seq<nat>, c: seq<nat>, L: set<nat>)
    requires Rearranges(a, b, L) && Rearranges(b, c, L)
    ensures Rearranges(a, c, L)
  {
    forall p | 0 <= p < |a|
      ensures (a[p] in L <==> c[p] in L) && (a[p] !in L ==> c[p] == a[p])
    {
      assert (a[p] in L <==> b[p] in L) && (b[p] in L <==> c[p] in L);
    }
  }

  lemma RearrangesSym(a: seq<nat>, b: seq<nat>, L: set<nat>)
    requires Rearranges(a, b, L)
    ensures Rearranges(b, a, L)
  {
    forall p | 0 <= p < |b|
      ensures (b[p] in L <==> a[p] in L) && (b[p] !in L ==> a[p] == b[p])
    {
      assert (a[p] in L <==> b[p] in L);
    }
  }

  /**
   * The other half of QVisits: applying the queue for the labels ind to an
   * arrangement a holding each of them passes through every arrangement that
   * rearranges a within those labels.
   */
  lemma {:induction false} QCovers(ind: seq<nat>, a: seq<nat>, b: seq<nat>)
    requires AllDistinct(ind) && AllDistinct(a) && Holds(a, ind)
    requires AllDistinct(b) && Rearranges(a, b, set k | 0 <= k < |ind| :: ind[k])
    ensures b in Visits(a, Q(ind))
    decreases |ind|, 1, 0, 0
  {
    var L := set k | 0 <= k < |ind| :: ind[k];
    var m := |ind|;
    if m <= 1 {
      CoversOne(ind, a, b);
    } else if m == 2 {
      CoversTwo(ind, a, b);
    } else {
      assert ind[m - 1] in a;
      var p :| 0 <= p < |a| && a[p] == ind[m - 1];
      assert ind[..m - 1] == ind[..m - 1] + ind[m..];
      assert b[p] in ind[..m] by {
        assert a[p] in L;
        assert ind[..m] == ind;
      }
      BlocksCovers(ind, m - 1, ind[..m - 1], a, p, b);
    }
  }

  /** With at most one label the queue is empty and the only arrangement is a itself. */
  lemma CoversOne(ind: seq<nat>, a: seq<nat>, b: seq<nat>)
    requires |ind| <= 1 && Rearranges(a, b, set k | 0 <= k < |ind| :: ind[k])
    ensures b in Visits(a, Q(ind))
  {
    var L := set k | 0 <= k < |ind| :: ind[k];
    assert |ind| == 1 ==> L == {ind[0]};
    assert |ind| == 0 ==> L == {};
    forall p | 0 <= p < |a|
      ensures b[p] == a[p]
    {
    }
    assert b == a;
    assert Visits(a, Q(ind))[0] == a;
  }

  /** With two labels the queue is one swap, and an arrangement either keeps them or exchanges them. */
  lemma CoversTwo(ind: seq<nat>, a: seq<nat>, b: seq<nat>)
    requires |ind| == 2 && AllDistinct(ind) && AllDistinct(a) && Holds(a, ind)
    requires AllDistinct(b) && Rearranges(a, b, set k | 0 <= k < |ind| :: ind[k])
    ensures b in Visits(a, Q(ind))
  {
    assert ind[0] in a;
    var p0 :| 0 <= p0 < |a| && a[p0] == ind[0];
    assert ind[1] in a;
    var p1 :| 0 <= p1 < |a| && a[p1] == ind[1];
    TwoOthers(ind, a, b, p0, p1);
    var V := Visits(a, Q(ind));
    assert V[0] == a && V[1] == Swap(a, ind[0], ind[1]);
    if b[p0] == ind[0] {
      assert b == V[0];
    } else {
      assert b == V[1];
    }
  }

  /** With two labels at p0 and p1, the rest of the arrangement is fixed and the two either stay or exchange. */
  lemma TwoOthers(ind: seq<nat>, a: seq<nat>, b: seq<nat>, p0: nat, p1: nat)
    requires |ind| == 2 && AllDistinct(ind) && AllDistinct(a)
    requires AllDistinct(b) && Rearranges(a, b, set k | 0 <= k < |ind| :: ind[k])
    requires p0 < |a| && a[p0] == ind[0] && p1 < |a| && a[p1] == ind[1]
    ensures b[p0] == ind[0] ==> b == a
    ensures b[p0] != ind[0] ==> b == Swap(a, ind[0], ind[1])
  {
    var L := set k | 0 <= k < |ind| :: ind[k];
    assert L == {ind[0], ind[1]} by {
      assert ind[0] in L && ind[1] in L;
    }
    forall p | 0 <= p < |a| && p != p0 && p != p1
      ensures b[p] == a[p] && a[p] != ind[0] && a[p] != ind[1]
    {
    }
    assert b[p0] in L && b[p1] in L;
  }

  /** The arrangements reached by iteration i of addQueueSwaps onwards: those holding ind[..i + 1] at p. */
  lemma {:induction false} BlocksCovers(ind: seq<nat>, i: nat, rec: seq<nat>, a: seq<nat>, p: nat, b: seq<nat>)
    requires AllDistinct(ind) && i < |ind| && rec == ind[..i] + ind[i + 1..]
    requires AllDistinct(a) && Holds(a, ind) && p < |a| && a[p] == ind[i]
    requires AllDistinct(b) && Rearranges(a, b, set k | 0 <= k < |ind| :: ind[k]) && b[p] in ind[..i + 1]
    ensures b in Visits(a, Blocks(ind, i, rec))
    decreases |ind|, 0, i, 2
  {
    if b[p] == ind[i] {
      CoversFirst(ind, i, rec, a, p, b);
    } else {
      CoversSecond(ind, i, rec, a, p, b);
    }
  }

  /** The arguments of BlocksCovers for iteration i: a holds ind[i] at p, and b rearranges a keeping one of ind[..i + 1] there. */
  predicate Ready(ind: seq<nat>, i: nat, a: seq<nat>, p: nat, b: seq<nat>)
  {
    AllDistinct(ind) && i < |ind| && AllDistinct(a) && Holds(a, ind) && p < |a| && a[p] == ind[i]
    && AllDistinct(b) && Rearranges(a, b, set k | 0 <= k < |ind| :: ind[k]) && b[p] in ind[..i + 1]
  }

  /** When b moves ind[i] away from p, iteration i reaches b after its first block. */
  lemma {:induction false} CoversSecond(ind: seq<nat>, i: nat, rec: seq<nat>, a: seq<nat>, p: nat, b: seq<nat>)
    requires AllDistinct(ind) && i < |ind| && rec == ind[..i] + ind[i + 1..]
    requires AllDistinct(a) && Holds(a, ind) && p < |a| && a[p] == ind[i]
    requires AllDistinct(b) && Rearranges(a, b, set k | 0 <= k < |ind| :: ind[k]) && b[p] in ind[..i + 1] && b[p] != ind[i]
    ensures b in Visits(a, Blocks(ind, i, rec))
    decreases |ind|, 0, i, 1
  {
    assert 0 < i && b[p] in ind[..i] by {
      NotBefore(ind, i);
    }
    var a' := Swap(Run(a, Q(rec)), ind[i], ind[i - 1]);
    var rec' := rec[i - 1 := ind[i]];
    RecNext(ind, i, rec);
    NextCovers(ind, i, rec, a, p, b, a');
    CoversLater(ind, i, rec, a, p, b, a', rec');
  }

  /** The first block of iteration i, which keeps ind[i] at p, reaches b. */
  lemma {:induction false} CoversFirst(ind: seq<nat>, i: nat, rec: seq<nat>, a: seq<nat>, p: nat, b: seq<nat>)
    requires AllDistinct(ind) && i < |ind| && rec == ind[..i] + ind[i + 1..]
    requires AllDistinct(a) && Holds(a, ind) && p < |a| && a[p] == ind[i]
    requires AllDistinct(b) && Rearranges(a, b, set k | 0 <= k < |ind| :: ind[k]) && b[p] == ind[i]
    ensures b in Visits(a, Blocks(ind, i, rec))
    decreases |ind|, 0, i, 0
  {
    LeaveOut(ind, i, rec, a);
    RearrangesLeaveOut(ind, i, rec, a, b, p);
    QCovers(rec, a, b);
    if i > 0 {
      InBlocks(ind, i, rec, a, b, Swap(Run(a, Q(rec)), ind[i], ind[i - 1]), rec[i - 1 := ind[i]], true);
    } else {
      assert Blocks(ind, i, rec) == Q(rec);
    }
  }

  /** The later blocks of iteration i, which start from a', reach b. */
  lemma {:induction false} CoversLater(ind: seq<nat>, i: nat, rec: seq<nat>, a: seq<nat>, p: nat, b: seq<nat>, a': seq<nat>, rec': seq<nat>)
    requires AllDistinct(ind) && 0 < i < |ind| && |rec| == |ind| - 1
    requires a' == Swap(Run(a, Q(rec)), ind[i], ind[i - 1]) && rec' == rec[i - 1 := ind[i]]
    requires rec' == ind[..i - 1] + ind[i..] && ind[..i] == ind[..i - 1 + 1]
    requires Ready(ind, i - 1, a', p, b)
    ensures b in Visits(a, Blocks(ind, i, rec))
    decreases |ind|, 0, i, 0
  {
    BlocksCovers(ind, i - 1, rec', a', p, b);
    InBlocks(ind, i, rec, a, b, a', rec', false);
  }

  /** An arrangement visited by the first block, or by the later ones, is visited by iteration i. */
  lemma InBlocks(ind: seq<nat>, i: nat, rec: seq<nat>, a: seq<nat>, b: seq<nat>, a': seq<nat>, rec': seq<nat>, first: bool)
    requires 0 < i < |ind| && |rec| == |ind| - 1
    requires a' == Swap(Run(a, Q(rec)), ind[i], ind[i - 1]) && rec' == rec[i - 1 := ind[i]]
    requires first ==> b in Visits(a, Q(rec))
    requires !first ==> b in Visits(a', Blocks(ind, i - 1, rec'))
    ensures b in Visits(a, Blocks(ind, i, rec))
  {
    ComposeShape(ind, i, rec, a, a', Blocks(ind, i - 1, rec'));
  }

  /** The labels of the next iteration: ind with entry i - 1 left out. */
  lemma RecNext(ind: seq<nat>, i: nat, rec: seq<nat>)
    requires 0 < i < |ind| && rec == ind[..i] + ind[i + 1..]
    ensures rec[i - 1 := ind[i]] == ind[..i - 1] + ind[i..] && ind[..i] == ind[..i - 1 + 1]
  {
  }

  /** The arrangement the next iteration starts from is one that b still rearranges. */
  lemma NextCovers(ind: seq<nat>, i: nat, rec: seq<nat>, a: seq<nat>, p: nat, b: seq<nat>, a': seq<nat>)
    requires AllDistinct(ind) && 0 < i < |ind| && rec == ind[..i] + ind[i + 1..]
    requires AllDistinct(a) && Holds(a, ind) && p < |a| && a[p] == ind[i]
    requires AllDistinct(b) && Rearranges(a, b, set k | 0 <= k < |ind| :: ind[k]) && b[p] in ind[..i]
    requires a' == Swap(Run(a, Q(rec)), ind[i], ind[i - 1])
    ensures Ready(ind, i - 1, a', p, b)
  {
    var L := set k | 0 <= k < |ind| :: ind[k];
    var R := Q(rec);
    LeaveOut(ind, i, rec, a);
    FirstBlock(rec, a, p);
    NextStart(ind, i, rec, a, p);
    RunSwapLast(a, R, (ind[i], ind[i - 1]));
    assert PairsIn(R + [(ind[i], ind[i - 1])], L) by {
      QPairs(rec);
      RecIn(ind, i, rec);
      assert ind[i] in L && ind[i - 1] in L;
      PairsConcat(R, [(ind[i], ind[i - 1])], L);
    }
    RunRearranges(a, R + [(ind[i], ind[i - 1])], L);
    RearrangesSym(a, a', L);
    RearrangesTrans(a', a, b, L);
  }

  /** The pairs of the queue for rec lie within the labels of ind. */
  lemma RecIn(ind: seq<nat>, i: nat, rec: seq<nat>)
    requires i < |ind| && rec == ind[..i] + ind[i + 1..] && PairsIn(Q(rec), set k | 0 <= k < |rec| :: rec[k])
    ensures PairsIn(Q(rec), set k | 0 <= k < |ind| :: ind[k])
  {
    var L := set k | 0 <= k < |ind| :: ind[k];
    forall x | x in set k | 0 <= k < |rec| :: rec[k]
      ensures x in L
    {
      var k :| 0 <= k < |rec| && rec[k] == x;
      assert rec[k] == ind[if k < i then k else k + 1];
    }
  }

  lemma RunSwapLast(s: seq<nat>, qs: seq<(nat, nat)>, x: (nat, nat))
    ensures Run(s, qs + [x]) == Swap(Run(s, qs), x.0, x.1)
  {
    forall i | 0 <= i < |s|
      ensures Run(s, qs + [x])[i] == Swap(Run(s, qs), x.0, x.1)[i]
    {
      RunAt(s, qs + [x], i);
      RunAt(s, qs, i);
      ActConcat(qs, [x], s[i]);
    }
  }

  /** An arrangement that keeps ind[i] at p rearranges a within the other labels. */
  lemma RearrangesLeaveOut(ind: seq<nat>, i: nat, rec: seq<nat>, a: seq<nat>, b: seq<nat>, p: nat)
    requires AllDistinct(ind) && i < |ind| && rec == ind[..i] + ind[i + 1..]
    requires Rearranges(a, b, set k | 0 <= k < |ind| :: ind[k])
    requires AllDistinct(a) && AllDistinct(b) && p < |a| && a[p] == ind[i] && b[p] == ind[i]
    ensures Rearranges(a, b, set k | 0 <= k < |rec| :: rec[k])
  {
    var L := set k | 0 <= k < |ind| :: ind[k];
    var Lr := set k | 0 <= k < |rec| :: rec[k];
    forall x
      ensures x in Lr <==> x in L && x != ind[i]
    {
      if x in Lr {
        var k :| 0 <= k < |rec| && rec[k] == x;
        assert rec[k] == ind[if k < i then k else k + 1];
      }
      if x in L && x != ind[i] {
        var k :| 0 <= k < |ind| && ind[k] == x;
        assert x == rec[if k < i then k else k - 1];
      }
    }
  }
}
