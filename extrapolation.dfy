/**
 * The extrapolation of one seed into the number of codes it stands for.  Each
 * of the n! relabellings of the seed, in queue order, is checked against the
 * table of relabellings kept so far: if no rotation of it is there, it is a
 * new one and its sequence number is stored.  The count of stored
 * relabellings, times the number of distinct rotations of the seed (len, or
 * len / 2 when its two halves agree), is what the seed contributes.  The
 * count stops early at the milestones n! / 2^k, as the program does.
 */
module Extrapolation {
  import opened Bits
  import opened Numerals
  import opened PermQueue
  import opened Probing
  import opened GmpTable
  import opened Chimera
  import opened Counting
  import opened Relabellings

  /** The odd part of a positive number and its trailing zeros: x = OddPart(x) * 2^Ctz(x). */
  lemma {:induction false} CtzFactor(x: nat)
    requires x > 0
    ensures x % Pow2(Ctz(x)) == 0 && (x / Pow2(Ctz(x))) % 2 == 1
    decreases x
  {
    if x % 2 == 1 {
      DivModUnique(x, x, 0, 1);
    } else {
      CtzFactor(x / 2);
      var c := Ctz(x / 2);
      var o := (x / 2) / Pow2(c);
      assert x / 2 == o * Pow2(c);
      assert x == o * Pow2(c + 1);
      DivModUnique(x, o, 0, Pow2(c + 1));
    }
  }

  /** The milestone i: n! halved Ctz(n!) - i times. */
  function Half(q: nat, i: nat): nat
    requires q > 0 && i <= Ctz(q)
  {
    q / Pow2(Ctz(q) - i)
  }

  /**
   * The milestones are the odd part of q times 1, 2, 4, ...: the first is
   * odd, each is twice the one before, and the last is q itself.
   */
  lemma HalfShape(q: nat, i: nat)
    requires q > 0 && i <= Ctz(q)
    ensures Half(q, i) == (q / Pow2(Ctz(q))) * Pow2(i)
  {
    CtzFactor(q);
    var c := Ctz(q);
    var o := q / Pow2(c);
    Pow2Add(i, c - i);
    Regroup(q, o, Pow2(i), Pow2(c - i), Pow2(c));
    DivModUnique(q, o * Pow2(i), 0, Pow2(c - i));
  }

  /** q = o * m with m = a * b, so q = (o * a) * b. */
  lemma Regroup(q: int, o: int, a: int, b: int, m: int)
    requires m > 0 && q % m == 0 && o == q / m && m == a * b
    ensures q == (o * a) * b + 0
  {
    assert q == o * m;
  }

  lemma HalfEnds(q: nat)
    requires q > 0
    ensures Half(q, 0) % 2 == 1 && Half(q, Ctz(q)) == q
  {
    CtzFactor(q);
    DivModUnique(q, q, 0, 1);
  }

  lemma HalfDoubles(q: nat, i: nat)
    requires q > 0 && i < Ctz(q)
    ensures Half(q, i + 1) == 2 * Half(q, i) && Half(q, i) >= 1
  {
    HalfShape(q, i);
    HalfShape(q, i + 1);
    CtzFactor(q);
    Twice(q / Pow2(Ctz(q)), Pow2(i), Pow2(i + 1));
  }

  lemma Twice(o: nat, p: nat, p2: nat)
    requires p2 == 2 * p && o % 2 == 1 && p >= 1
    ensures o * p2 == 2 * (o * p) && o * p >= 1
  {
    MulAtLeast(o, p);
  }

  /** The halves array: entry i is queueSize shifted right by numHalves - 1 - i. */
  predicate IsHalves(halves: seq<nat>, q: nat)
  {
    q > 0 && |halves| == Ctz(q) + 1 && forall i :: 0 <= i < |halves| ==> halves[i] == Half(q, i)
  }

  method BuildHalves(queueSize: nat) returns (halves: array<nat>)
    requires queueSize > 0
    ensures fresh(halves) && IsHalves(halves[..], queueSize)
  {
    var numHalves := Ctz(queueSize) + 1;
    halves := new nat[numHalves];
    var i := 0;
    while i < numHalves
      invariant i <= numHalves
      invariant halves.Length == numHalves
      invariant forall j :: 0 <= j < i ==> halves[j] == Half(queueSize, j)
    {
      ghost var h := Half(queueSize, i);
      halves[i] := queueSize / Pow2(numHalves - 1 - i);
      assert halves[i] == h;
      i := i + 1;
    }
  }

  /**
   * The rotation loop: from the sequence number of the current relabelling,
   * step through its rotations with the multiples table until either one is
   * in the table or the number comes back to where it started.
   */
  method FindRotation(table: GMPTable, local: array<nat>, n: nat, mult: array<nat>)
    returns (orig: nat, present: bool, ghost k: nat)
    requires table.Valid() && table.StridesSpread() && table.count < table.size
    requires local.Length == Pow2(n) && IsDigits(local[..], n) && IsMultiplesTable(mult[..], n)
    ensures orig == Num(local[..], n)
    ensures present ==> k < Pow2(n) && Num(Rot(local[..], k), n) in table.Keys()
    ensures !present ==> forall j :: 0 <= j < Pow2(n) ==> Num(Rot(local[..], j), n) !in table.Keys()
  {
    ghost var ds := local[..];
    assert local[..Pow2(n)] == ds;
    orig := GetSequenceNumber(local, n);
    RotFull(ds);
    ghost var keys := table.Keys();
    var cur := orig;
    var step := 0;
    k := 0;
    while true
      invariant step < Pow2(n) && cur == Num(Rot(ds, step), n)
      invariant RotationsAbsent(ds, n, step, keys)
      decreases Pow2(n) - step
    {
      var next;
      present, next := ProbeRotation(table, local, n, mult, step, cur);
      if present {
        k := step;
        return;
      }
      RotationsAbsentStep(ds, n, step, keys);
      cur := next;
      step := step + 1;
      if cur == orig {
        PeriodCovers(ds, n, step, keys);
        return;
      }
    }
  }

  /**
   * One pass of the rotation loop: whether the current rotation's numeral is
   * in the table and, if not, the numeral of the next rotation.
   */
  method ProbeRotation(table: GMPTable, local: array<nat>, n: nat, mult: array<nat>, step: nat, cur: nat)
    returns (present: bool, next: nat)
    requires table.Valid() && table.StridesSpread() && table.count < table.size
    requires local.Length == Pow2(n) && IsDigits(local[..], n) && IsMultiplesTable(mult[..], n)
    requires step < Pow2(n) && cur == Num(Rot(local[..], step), n)
    ensures present <==> cur in table.Keys()
    ensures !present ==> next == Num(Rot(local[..], step + 1), n)
    ensures !present && step + 1 == Pow2(n) ==> next == Num(local[..], n)
  {
    present := table.Contains(cur);
    next := 0;
    if !present {
      next := NextRotation(local, n, mult, step, cur);
    }
  }

  /**
   * One rotation with the multiples table: times n, less the multiple of the
   * digit that moves from the front to the back.
   */
  method NextRotation(local: array<nat>, n: nat, mult: array<nat>, step: nat, cur: nat)
    returns (next: nat)
    requires local.Length == Pow2(n) && IsDigits(local[..], n) && IsMultiplesTable(mult[..], n)
    requires step < Pow2(n) && cur == Num(Rot(local[..], step), n)
    ensures next == Num(Rot(local[..], step + 1), n)
    ensures step + 1 == Pow2(n) ==> next == Num(local[..], n)
  {
    RotationReturns(local[..], n, mult[..], step);
    next := cur * n - mult[local[step]];
  }

  /**
   * When the numeral of rotation p is the numeral of the sequence itself, the
   * first p rotations are all the rotations there are.
   */
  lemma PeriodCovers(ds: seq<nat>, n: nat, p: nat, keys: set<nat>)
    requires 0 < p <= |ds| == Pow2(n) && IsDigits(ds, n) && Num(Rot(ds, p), n) == Num(ds, n)
    requires RotationsAbsent(ds, n, p, keys)
    ensures forall j :: 0 <= j < Pow2(n) ==> Num(Rot(ds, j), n) !in keys
  {
    RotDigits(ds, p, n);
    NumInjective(Rot(ds, p), ds, n);
    forall j | 0 <= j < Pow2(n)
      ensures Num(Rot(ds, j), n) !in keys
    {
      RotPeriodic(ds, p, j);
    }
  }

  /** None of the first p rotations of ds (p at most |ds|) has its numeral among keys. */
  ghost predicate RotationsAbsent(ds: seq<nat>, n: nat, p: nat, keys: set<nat>)
  {
    forall j :: 0 <= j < p && j <= |ds| ==> Num(Rot(ds, j), n) !in keys
  }

  lemma RotationsAbsentStep(ds: seq<nat>, n: nat, p: nat, keys: set<nat>)
    requires p < |ds| && RotationsAbsent(ds, n, p, keys) && Num(Rot(ds, p), n) !in keys
    ensures RotationsAbsent(ds, n, p + 1, keys)
  {
  }

  /** Label pairs that keep a digit string a digit string: two digits, or one label twice. */
  predicate QueueDigits(qs: seq<(nat, nat)>, n: nat)
  {
    forall k :: 0 <= k < |qs| ==> (qs[k].0 < n && qs[k].1 < n) || qs[k].0 == qs[k].1
  }

  lemma BuiltQueueDigits(n: nat)
    ensures QueueDigits([Dummy] + Q(Labels(n)), n)
  {
    QPairs(Labels(n));
    var L := set k | 0 <= k < n :: Labels(n)[k];
    forall x | x in L
      ensures x < n
    {
    }
  }

  lemma SwapDigits(s: seq<nat>, a: nat, b: nat, n: nat)
    requires IsDigits(s, n) && ((a < n && b < n) || a == b)
    ensures IsDigits(Swap(s, a, b), n)
  {
  }

  /** Applying one more swap after the swaps qs. */
  lemma {:induction false} RunSnoc(s: seq<nat>, qs: seq<(nat, nat)>, p: (nat, nat))
    ensures Run(s, qs + [p]) == Swap(Run(s, qs), p.0, p.1)
    decreases |qs|
  {
    if |qs| == 0 {
      assert qs + [p] == [p];
      assert [p][1..] == [];
    } else {
      assert (qs + [p])[1..] == qs[1..] + [p];
      RunSnoc(Swap(s, qs[0].0, qs[0].1), qs[1..], p);
    }
  }

  /** The sequence numbers of a list of digit strings. */
  ghost function NumSet(reps: seq<seq<nat>>, n: nat): set<nat>
  {
    set i | 0 <= i < |reps| :: Num(reps[i], n)
  }

  /** Digit strings of length len over n digits. */
  ghost predicate AllCodes(reps: seq<seq<nat>>, n: nat)
  {
    forall i :: 0 <= i < |reps| ==> |reps[i]| == Pow2(n) && IsDigits(reps[i], n)
  }

  /** No stored relabelling is a rotation of one stored after it. */
  ghost predicate RotationDistinct(reps: seq<seq<nat>>)
  {
    forall i, j, k :: 0 <= i < j < |reps| && 0 <= k < |reps[j]| ==> Rot(reps[j], k) != reps[i]
  }

  /** Every relabelling looked at has a rotation among the stored ones. */
  ghost predicate Covered(vis: seq<seq<nat>>, reps: seq<seq<nat>>)
  {
    forall t :: 0 <= t < |vis| ==> HasRep(vis[t], reps)
  }

  /** Some rotation of x is stored. */
  ghost predicate HasRep(x: seq<nat>, reps: seq<seq<nat>>)
  {
    exists i, k :: 0 <= i < |reps| && 0 <= k <= |x| && Rot(x, k) == reps[i]
  }

  lemma NumSetSnoc(reps: seq<seq<nat>>, x: seq<nat>, n: nat)
    ensures NumSet(reps + [x], n) == NumSet(reps, n) + {Num(x, n)}
  {
    var r := reps + [x];
    assert r[|reps|] == x;
    forall y | y in NumSet(r, n)
      ensures y in NumSet(reps, n) + {Num(x, n)}
    {
      var i :| 0 <= i < |r| && Num(r[i], n) == y;
      if i < |reps| {
        assert r[i] == reps[i];
      }
    }
    forall y | y in NumSet(reps, n)
      ensures y in NumSet(r, n)
    {
      var i :| 0 <= i < |reps| && Num(reps[i], n) == y;
      assert r[i] == reps[i];
    }
  }

  /** A relabelling with a rotation in the table is covered by a stored one. */
  lemma RecordPresent(reps: seq<seq<nat>>, vis: seq<seq<nat>>, x: seq<nat>, n: nat, k: nat)
    requires AllCodes(reps, n) && Covered(vis, reps)
    requires |x| == Pow2(n) && IsDigits(x, n)
    requires k < Pow2(n) && Num(Rot(x, k), n) in NumSet(reps, n)
    ensures Covered(vis + [x], reps)
  {
    var i :| 0 <= i < |reps| && Num(reps[i], n) == Num(Rot(x, k), n);
    RotDigits(x, k, n);
    NumInjective(reps[i], Rot(x, k), n);
    CoveredSnoc(vis, reps, x, i, k);
  }

  /** A relabelling none of whose rotations is in the table is a new representative. */
  lemma RecordNew(reps: seq<seq<nat>>, vis: seq<seq<nat>>, x: seq<nat>, n: nat)
    requires AllCodes(reps, n) && RotationDistinct(reps) && Covered(vis, reps)
    requires |x| == Pow2(n) && IsDigits(x, n)
    requires forall j :: 0 <= j < Pow2(n) ==> Num(Rot(x, j), n) !in NumSet(reps, n)
    ensures AllCodes(reps + [x], n) && RotationDistinct(reps + [x]) && Covered(vis + [x], reps + [x])
  {
    var reps' := reps + [x];
    forall i, j, m | 0 <= i < j < |reps'| && 0 <= m < |reps'[j]|
      ensures Rot(reps'[j], m) != reps'[i]
    {
      assert reps'[i] == reps[i];
      if j == |reps| {
        assert Num(reps[i], n) in NumSet(reps, n);
        assert Num(Rot(x, m), n) !in NumSet(reps, n);
      } else {
        assert reps'[j] == reps[j];
      }
    }
    RotFull(x);
    CoveredGrow(vis, reps, x);
    CoveredSnoc(vis, reps', x, |reps|, 0);
  }

  lemma CoveredGrow(vis: seq<seq<nat>>, reps: seq<seq<nat>>, x: seq<nat>)
    requires Covered(vis, reps)
    ensures Covered(vis, reps + [x])
  {
    forall t | 0 <= t < |vis|
      ensures HasRep(vis[t], reps + [x])
    {
      assert HasRep(vis[t], reps);
      var i, k :| 0 <= i < |reps| && 0 <= k <= |vis[t]| && Rot(vis[t], k) == reps[i];
      assert (reps + [x])[i] == reps[i];
    }
  }

  lemma CoveredSnoc(vis: seq<seq<nat>>, reps: seq<seq<nat>>, x: seq<nat>, i: nat, k: nat)
    requires Covered(vis, reps)
    requires i < |reps| && k <= |x| && Rot(x, k) == reps[i]
    ensures Covered(vis + [x], reps)
  {
    var vis' := vis + [x];
    forall t | 0 <= t < |vis'|
      ensures HasRep(vis'[t], reps)
    {
      if t == |vis| {
        assert Rot(vis'[t], k) == reps[i];
      } else {
        assert vis'[t] == vis[t];
        assert HasRep(vis[t], reps);
      }
    }
  }

  /**
   * One pass of the seed loop of extrapolateSeeds: the seed is walked through
   * the queue of relabellings; each one none of whose rotations is stored
   * is stored.  vis are the relabellings looked at (the first queue entry is
   * the dummy, so the first is the seed itself) and reps the stored ones.
   * The pass ends early at a milestone: once the count has passed the
   * second-to-last milestone the count is taken to be all of n!, and once the
   * count sits on a milestone that the relabellings still unseen cannot
   * double, the count is final.
   */
  method ExtrapolateSeed(table: GMPTable, seed: seq<nat>, n: nat, queue: array<(nat, nat)>, mult: array<nat>, halves: array<nat>)
    returns (c: nat, ghost vis: seq<seq<nat>>, ghost reps: seq<seq<nat>>, ghost early: bool)
    requires n >= 2 && |seed| == Pow2(n) && IsDigits(seed, n)
    requires queue.Length == Fact(n) && QueueDigits(queue[..], n)
    requires IsMultiplesTable(mult[..], n) && IsHalves(halves[..], Fact(n))
    requires table.Valid() && table.size == 2 * Fact(n) + 1 && table.digits == n
    requires mult != table.nodes && halves != table.nodes
    modifies table, table.nodes, table.occupied
    ensures table.Valid()
    ensures 1 <= c <= Fact(n)
    ensures 1 <= |vis| && Books(seed, queue[..], |vis|, vis, reps, n)
    ensures !early ==> c == |reps|
    ensures early ==> c == Fact(n) && 2 * |reps| > Fact(n)
    ensures !early && |vis| < Fact(n) ==> exists i :: 0 <= i < halves.Length && c == halves[i] > Fact(n) - |vis|
    ensures MainQueue(queue[..], n) && UsesAllDigits(seed, n) ==> c == ClassCount(seed, n)
  {
    var local := new nat[Pow2(n)](i requires 0 <= i < Pow2(n) => seed[i]);
    assert local[..] == seed;
    table.Empty();
    assert table.StridesSpread() by {
      forall s | 1 <= s < n
        ensures Spreads(s, table.size)
      {
        FactorialTableSpreads(n, s);
      }
    }
    assert queue[..0] == [];
    c, vis, reps, early := ScanQueue(table, local, seed, queue, mult, halves, n);
  }

  /** The queue loop of extrapolateSeed, from an empty table and the seed itself. */
  method ScanQueue(table: GMPTable, local: array<nat>, seed: seq<nat>, queue: array<(nat, nat)>, mult: array<nat>,
                   halves: array<nat>, n: nat)
    returns (c: nat, ghost vis: seq<seq<nat>>, ghost reps: seq<seq<nat>>, ghost early: bool)
    requires n >= 2 && |seed| == Pow2(n) && IsDigits(seed, n) && local.Length == Pow2(n)
    requires queue.Length == Fact(n) && QueueDigits(queue[..], n)
    requires IsMultiplesTable(mult[..], n) && IsHalves(halves[..], Fact(n))
    requires table.size == 2 * Fact(n) + 1 && table.digits == n
    requires local != table.nodes && mult != table.nodes && mult != local && halves != table.nodes && halves != local
    requires Progress(table, local, seed, queue, 0, [], [], n)
    modifies table, table.nodes, table.occupied, local
    ensures table.Valid()
    ensures 1 <= c <= Fact(n)
    ensures 1 <= |vis| && Books(seed, queue[..], |vis|, vis, reps, n)
    ensures !early ==> c == |reps|
    ensures early ==> c == Fact(n) && 2 * |reps| > Fact(n)
    ensures !early && |vis| < Fact(n) ==> exists i :: 0 <= i < halves.Length && c == halves[i] > Fact(n) - |vis|
    ensures MainQueue(queue[..], n) && UsesAllDigits(seed, n) ==> c == ClassCount(seed, n)
  {
    var queueSize := queue.Length;
    var hi := 0;
    var q := 0;
    var passedHalf := false;
    ghost var settled := false;
    vis, reps := [], [];
    while q < queueSize
      invariant Progress(table, local, seed, queue, q, vis, reps, n)
      invariant hi < halves.Length && table.count <= halves[hi]
    {
      vis, reps := NextRelabelling(table, local, seed, queue, mult, n, q, vis, reps);
      q := q + 1;
      if table.count < halves[hi] {
      } else if table.count > halves[hi] {
        HalfDoubles(queueSize, hi);
        hi := hi + 1;
        if halves[hi] == queueSize {
          PassedHalfExit(seed, n, queue[..], q, vis, reps, hi - 1);
          c, passedHalf := queueSize, true;
          break;
        }
      } else if halves[hi] > queueSize - q {
        StableExit(seed, n, queue[..], q, vis, reps, hi);
        settled := true;
        break;
      }
    }
    if !passedHalf {
      c := table.count;
      if !settled {
        FullPass(seed, n, queue[..], q, vis, reps);
      }
    }
    early := passedHalf;
  }

  /** The bookkeeping after q relabellings, on values. */
  ghost predicate Books(seed: seq<nat>, qs: seq<(nat, nat)>, q: nat, vis: seq<seq<nat>>, reps: seq<seq<nat>>, n: nat)
  {
    q <= |qs| && |vis| == q && |reps| <= q && (q > 0 ==> |reps| >= 1)
    && (forall t :: 0 <= t < q ==> vis[t] == Run(seed, qs[..t + 1]))
    && AllCodes(reps, n) && RotationDistinct(reps) && Covered(vis, reps)
    && forall i :: 0 <= i < |reps| ==> reps[i] in vis
  }

  /** A new relabelling x, none of whose rotations is stored, is stored. */
  lemma BooksNew(seed: seq<nat>, qs: seq<(nat, nat)>, q: nat, vis: seq<seq<nat>>, reps: seq<seq<nat>>, n: nat, x: seq<nat>)
    requires Books(seed, qs, q, vis, reps, n) && q < |qs| && x == Run(seed, qs[..q + 1])
    requires |x| == Pow2(n) && IsDigits(x, n)
    requires forall j :: 0 <= j < Pow2(n) ==> Num(Rot(x, j), n) !in NumSet(reps, n)
    ensures Books(seed, qs, q + 1, vis + [x], reps + [x], n)
    ensures NumSet(reps + [x], n) == NumSet(reps, n) + {Num(x, n)}
  {
    RecordNew(reps, vis, x, n);
    NumSetSnoc(reps, x, n);
    Membership(vis, reps, x, true);
    VisSnoc(seed, qs, q, vis, x);
  }

  /** A relabelling x with a rotation already stored is only looked at. */
  lemma BooksPresent(seed: seq<nat>, qs: seq<(nat, nat)>, q: nat, vis: seq<seq<nat>>, reps: seq<seq<nat>>, n: nat, x: seq<nat>, k: nat)
    requires Books(seed, qs, q, vis, reps, n) && q < |qs| && x == Run(seed, qs[..q + 1])
    requires |x| == Pow2(n) && IsDigits(x, n)
    requires q > 0 && k < Pow2(n) && Num(Rot(x, k), n) in NumSet(reps, n)
    ensures Books(seed, qs, q + 1, vis + [x], reps, n)
  {
    RecordPresent(reps, vis, x, n, k);
    Membership(vis, reps, x, false);
    VisSnoc(seed, qs, q, vis, x);
  }

  lemma VisSnoc(seed: seq<nat>, qs: seq<(nat, nat)>, q: nat, vis: seq<seq<nat>>, x: seq<nat>)
    requires q < |qs| && |vis| == q && x == Run(seed, qs[..q + 1])
    requires forall t :: 0 <= t < q ==> vis[t] == Run(seed, qs[..t + 1])
    ensures forall t :: 0 <= t < q + 1 ==> (vis + [x])[t] == Run(seed, qs[..t + 1])
  {
    forall t | 0 <= t < q + 1
      ensures (vis + [x])[t] == Run(seed, qs[..t + 1])
    {
      if t < q {
        assert (vis + [x])[t] == vis[t];
      }
    }
  }

  lemma Membership(vis: seq<seq<nat>>, reps: seq<seq<nat>>, x: seq<nat>, stored: bool)
    requires forall i :: 0 <= i < |reps| ==> reps[i] in vis
    ensures var reps' := if stored then reps + [x] else reps;
      forall i :: 0 <= i < |reps'| ==> reps'[i] in vis + [x]
  {
  }

  /** What the seed loop knows after q relabellings. */
  ghost predicate Progress(table: GMPTable, local: array<nat>, seed: seq<nat>, queue: array<(nat, nat)>, q: nat,
                           vis: seq<seq<nat>>, reps: seq<seq<nat>>, n: nat)
    reads table, table.nodes, table.occupied, local, queue
  {
    Books(seed, queue[..], q, vis, reps, n)
    && local[..] == Run(seed, queue[..q]) && IsDigits(local[..], n)
    && table.Valid() && table.StridesSpread() && table.count == |reps|
    && table.Keys() == NumSet(reps, n)
  }

  /**
   * The body of the queue loop: the next swap, the rotation check, and the
   * insertion of the relabelling when it is new.
   */
  method NextRelabelling(table: GMPTable, local: array<nat>, seed: seq<nat>, queue: array<(nat, nat)>, mult: array<nat>,
                         n: nat, q: nat, ghost vis: seq<seq<nat>>, ghost reps: seq<seq<nat>>)
    returns (ghost vis': seq<seq<nat>>, ghost reps': seq<seq<nat>>)
    requires n >= 2 && |seed| == Pow2(n) && local.Length == Pow2(n)
    requires queue.Length == Fact(n) && QueueDigits(queue[..], n) && IsMultiplesTable(mult[..], n)
    requires table.size == 2 * Fact(n) + 1 && table.digits == n
    requires local != table.nodes && mult != table.nodes && mult != local
    requires Progress(table, local, seed, queue, q, vis, reps, n) && q < queue.Length
    modifies table, table.nodes, table.occupied, local
    ensures Progress(table, local, seed, queue, q + 1, vis', reps', n)
    ensures table.count <= old(table.count) + 1
  {
    ghost var before := local[..];
    SwapLabels(local, queue[q].0, queue[q].1, Pow2(n));
    Relabelled(seed, queue[..], q, before, local[..], n);
    ghost var x := local[..];
    var orig, present, k := FindRotation(table, local, n, mult);
    vis' := vis + [x];
    if !present {
      InsertNew(table, local, seed, queue, n, q, vis, reps, orig);
      reps' := reps + [x];
    } else {
      BooksPresent(seed, queue[..], q, vis, reps, n, x, k);
      reps' := reps;
    }
  }

  /** A relabelling none of whose rotations is stored yet goes into the table. */
  method InsertNew(table: GMPTable, local: array<nat>, seed: seq<nat>, queue: array<(nat, nat)>,
                   n: nat, q: nat, ghost vis: seq<seq<nat>>, ghost reps: seq<seq<nat>>, orig: nat)
    requires n >= 2 && local.Length == Pow2(n) && 2 * Fact(n) + 1 == table.size && q < queue.Length
    requires local != table.nodes
    requires Books(seed, queue[..], q, vis, reps, n) && local[..] == Run(seed, queue[..q + 1]) && IsDigits(local[..], n)
    requires table.Valid() && table.StridesSpread() && table.count == |reps| && table.Keys() == NumSet(reps, n)
    requires forall j :: 0 <= j < Pow2(n) ==> Num(Rot(local[..], j), n) !in table.Keys()
    requires orig == Num(local[..], n) && queue.Length == Fact(n)
    modifies table, table.nodes, table.occupied
    ensures Progress(table, local, seed, queue, q + 1, vis + [local[..]], reps + [local[..]], n)
  {
    ghost var x := local[..];
    BooksNew(seed, queue[..], q, vis, reps, n, x);
    table.Insert(orig);
  }

  /** One more swap from the queue gives the next relabelling, still a digit string. */
  lemma Relabelled(seed: seq<nat>, qs: seq<(nat, nat)>, q: nat, before: seq<nat>, after: seq<nat>, n: nat)
    requires q < |qs| && QueueDigits(qs, n) && before == Run(seed, qs[..q]) && IsDigits(before, n)
    requires after == Swap(before[..|before|], qs[q].0, qs[q].1) + before[|before|..]
    ensures after == Run(seed, qs[..q + 1]) && IsDigits(after, n)
  {
    assert before[..|before|] == before && before[|before|..] == [];
    assert qs[..q + 1] == qs[..q] + [qs[q]];
    RunSnoc(seed, qs[..q], qs[q]);
    SwapDigits(before, qs[q].0, qs[q].1, n);
  }

  /**
   * The number of rotations each stored relabelling stands for: len / 2 when
   * the first half of the seed equals the second half, len otherwise.
   */
  function Multiplicity(seed: seq<nat>): nat
  {
    if HalvesAgree(seed, |seed| / 2) then |seed| / 2 else |seed|
  }

  /** Entry by entry below k, the first half of s equals the second half. */
  predicate HalvesAgree(s: seq<nat>, k: nat)
    requires k <= |s| / 2
  {
    k == 0 || (s[k - 1] == s[|s| / 2 + k - 1] && HalvesAgree(s, k - 1))
  }

  /** The entrywise comparison is the comparison of the two halves' slices (memcmp). */
  lemma {:induction false} HalvesAgreeSlices(s: seq<nat>, k: nat)
    requires k <= |s| / 2
    ensures HalvesAgree(s, k) <==> s[..k] == s[|s| / 2..|s| / 2 + k]
  {
    var h := |s| / 2;
    if k > 0 {
      HalvesAgreeSlices(s, k - 1);
      assert s[..k] == s[..k - 1] + [s[k - 1]];
      assert s[h..h + k] == s[h..h + k - 1] + [s[h + k - 1]];
    }
  }

  /** For an even length, the halves agree exactly when rotating by half the length gives the seed back. */
  lemma MultiplicityHalfTurn(seed: seq<nat>)
    requires |seed| % 2 == 0 && |seed| > 0
    ensures Multiplicity(seed) == |seed| / 2 <==> Rot(seed, |seed| / 2) == seed
    ensures Multiplicity(seed) != |seed| / 2 ==> Multiplicity(seed) == |seed|
  {
    var h := |seed| / 2;
    HalvesAgreeSlices(seed, h);
    assert seed[h..2 * h] == seed[h..];
    if Rot(seed, h) == seed {
      assert seed[..h] == Rot(seed, h)[..h];
    }
    if seed[..h] == seed[h..] {
      assert seed == seed[..h] + seed[h..];
    }
  }

  /** The total the seed loop accumulates: each count times its seed's multiplicity. */
  function Tally(seeds: seq<seq<nat>>, counts: seq<nat>): nat
    requires |counts| == |seeds|
  {
    if |seeds| == 0 then 0
    else Tally(seeds[..|seeds| - 1], counts[..|counts| - 1]) + counts[|counts| - 1] * Multiplicity(seeds[|seeds| - 1])
  }

  /**
   * extrapolateSeeds: one table of 2 n! + 1 slots and the halves of n!, then
   * each seed's count of relabellings times its multiplicity, summed.
   */
  method ExtrapolateSeeds(seeds: seq<seq<nat>>, n: nat, queue: array<(nat, nat)>, mult: array<nat>)
    returns (numGreyCodes: nat, ghost counts: seq<nat>)
    requires n >= 2 && forall i :: 0 <= i < |seeds| ==> |seeds[i]| == Pow2(n) && IsDigits(seeds[i], n)
    requires queue.Length == Fact(n) && QueueDigits(queue[..], n) && IsMultiplesTable(mult[..], n)
    ensures |counts| == |seeds| && forall i :: 0 <= i < |seeds| ==> 1 <= counts[i] <= Fact(n)
    ensures numGreyCodes == Tally(seeds, counts)
    ensures MainQueue(queue[..], n) ==>
      forall i :: 0 <= i < |seeds| && UsesAllDigits(seeds[i], n) ==> counts[i] == ClassCount(seeds[i], n)
  {
    var queueSize := queue.Length;
    var table := new GMPTable(queueSize * 2 + 1, n);
    var halves := BuildHalves(queueSize);
    numGreyCodes, counts := CountSeeds(seeds, n, queue, mult, table, halves);
  }

  /** The loop of extrapolateSeeds over the seeds, sharing one table. */
  method CountSeeds(seeds: seq<seq<nat>>, n: nat, queue: array<(nat, nat)>, mult: array<nat>, table: GMPTable, halves: array<nat>)
    returns (numGreyCodes: nat, ghost counts: seq<nat>)
    requires n >= 2 && forall i :: 0 <= i < |seeds| ==> |seeds[i]| == Pow2(n) && IsDigits(seeds[i], n)
    requires queue.Length == Fact(n) && QueueDigits(queue[..], n) && IsMultiplesTable(mult[..], n)
    requires table.Valid() && table.size == 2 * Fact(n) + 1 && table.digits == n
    requires mult != table.nodes && halves != table.nodes && IsHalves(halves[..], Fact(n))
    modifies table, table.nodes, table.occupied
    ensures |counts| == |seeds| && forall i :: 0 <= i < |seeds| ==> 1 <= counts[i] <= Fact(n)
    ensures numGreyCodes == Tally(seeds, counts)
    ensures MainQueue(queue[..], n) ==>
      forall i :: 0 <= i < |seeds| && UsesAllDigits(seeds[i], n) ==> counts[i] == ClassCount(seeds[i], n)
  {
    ghost var qs := queue[..];
    numGreyCodes, counts := 0, [];
    var i := 0;
    while i < |seeds|
      invariant i <= |seeds| && |counts| == i && Counts(seeds, counts, numGreyCodes, n, qs)
      invariant table.Valid() && table.size == 2 * Fact(n) + 1 && table.digits == n
      invariant mult != table.nodes && halves != table.nodes && IsHalves(halves[..], Fact(n))
    {
      var c, added := ExtrapolateOne(table, seeds[i], n, queue, mult, halves);
      CountsStep(seeds, counts, numGreyCodes, n, qs, c, added);
      numGreyCodes := numGreyCodes + added;
      counts := counts + [c];
      i := i + 1;
    }
    CountsDone(seeds, counts, numGreyCodes, n, qs);
  }

  /** One seed of extrapolateSeeds: its count of relabellings, and that count times the seed's multiplicity. */
  method ExtrapolateOne(table: GMPTable, seed: seq<nat>, n: nat, queue: array<(nat, nat)>, mult: array<nat>, halves: array<nat>)
    returns (c: nat, added: nat)
    requires n >= 2 && |seed| == Pow2(n) && IsDigits(seed, n)
    requires queue.Length == Fact(n) && QueueDigits(queue[..], n)
    requires IsMultiplesTable(mult[..], n) && IsHalves(halves[..], Fact(n))
    requires table.Valid() && table.size == 2 * Fact(n) + 1 && table.digits == n
    requires mult != table.nodes && halves != table.nodes
    modifies table, table.nodes, table.occupied
    ensures table.Valid()
    ensures 1 <= c <= Fact(n) && added == c * Multiplicity(seed)
    ensures MainQueue(queue[..], n) && UsesAllDigits(seed, n) ==> c == ClassCount(seed, n)
  {
    ghost var vis, reps, early;
    c, vis, reps, early := ExtrapolateSeed(table, seed, n, queue, mult, halves);
    var len := |seed|;
    var rotationallySymmetric := seed[..len / 2] == seed[len / 2..2 * (len / 2)];
    var rotations := if rotationallySymmetric then len / 2 else len;
    HalvesAgreeSlices(seed, len / 2);
    added := c * rotations;
  }

  /**
   * The counts of the first |counts| seeds: each in [1, n!], the class count
   * wherever the queue is the main one and the seed uses all digits, and
   * total their tally.
   */
  ghost predicate Counts(seeds: seq<seq<nat>>, counts: seq<nat>, total: nat, n: nat, qs: seq<(nat, nat)>)
  {
    |counts| <= |seeds|
    && (forall j :: 0 <= j < |counts| ==> 1 <= counts[j] <= Fact(n))
    && (MainQueue(qs, n) ==>
         forall j :: 0 <= j < |counts| && UsesAllDigits(seeds[j], n) ==> counts[j] == ClassCount(seeds[j], n))
    && total == Tally(seeds[..|counts|], counts)
  }

  /** One more seed, with its count and its count times its multiplicity. */
  lemma CountsStep(seeds: seq<seq<nat>>, counts: seq<nat>, total: nat, n: nat, qs: seq<(nat, nat)>, c: nat, added: nat)
    requires Counts(seeds, counts, total, n, qs) && |counts| < |seeds|
    requires 1 <= c <= Fact(n) && added == c * Multiplicity(seeds[|counts|])
    requires MainQueue(qs, n) && UsesAllDigits(seeds[|counts|], n) ==> c == ClassCount(seeds[|counts|], n)
    ensures Counts(seeds, counts + [c], total + added, n, qs)
  {
    TallyStep(seeds, counts, c, Multiplicity(seeds[|counts|]));
  }

  /** All seeds counted: the contract of extrapolateSeeds. */
  lemma CountsDone(seeds: seq<seq<nat>>, counts: seq<nat>, total: nat, n: nat, qs: seq<(nat, nat)>)
    requires Counts(seeds, counts, total, n, qs) && |counts| == |seeds|
    ensures forall i :: 0 <= i < |seeds| ==> 1 <= counts[i] <= Fact(n)
    ensures total == Tally(seeds, counts)
    ensures MainQueue(qs, n) ==>
      forall i :: 0 <= i < |seeds| && UsesAllDigits(seeds[i], n) ==> counts[i] == ClassCount(seeds[i], n)
  {
    assert seeds[..|seeds|] == seeds;
  }

  /** One more seed adds its count times its multiplicity to the tally. */
  lemma TallyStep(seeds: seq<seq<nat>>, counts: seq<nat>, c: nat, rotations: nat)
    requires |counts| < |seeds| && rotations == Multiplicity(seeds[|counts|])
    ensures Tally(seeds[..|counts| + 1], counts + [c]) == Tally(seeds[..|counts|], counts) + c * rotations
  {
    var i := |counts|;
    var ss, cs := seeds[..i + 1], counts + [c];
    assert ss[..i] == seeds[..i] && cs[..i] == counts;
    assert ss[i] == seeds[i] && cs[i] == c;
    assert Tally(ss, cs) == Tally(ss[..i], cs[..i]) + cs[i] * Multiplicity(ss[i]);
  }


  /** A power of two that divides x has at most Ctz(x) factors two. */
  lemma {:induction false} CtzBound(x: nat, y: nat, j: nat)
    requires x > 0 && x == y * Pow2(j)
    ensures j <= Ctz(x)
    decreases j
  {
    if j > 0 {
      assert x == 2 * (y * Pow2(j - 1));
      CtzBound(x / 2, y, j - 1);
    }
  }

  /**
   * For a seed that uses every digit the class count is one of the
   * milestones: n! is the class count times a power of two.
   */
  lemma ClassMilestone(seed: seq<nat>, n: nat)
    requires |seed| == Pow2(n) && IsDigits(seed, n) && UsesAllDigits(seed, n)
    ensures exists i: nat :: i <= Ctz(Fact(n)) && ClassCount(seed, n) == Half(Fact(n), i)
  {
    ClassCountShape(seed, n, n);
    var j: nat :| j <= n && Fact(n) == ClassCount(seed, n) * Pow2(j);
    CtzBound(Fact(n), ClassCount(seed, n), j);
    DivModUnique(Fact(n), ClassCount(seed, n), 0, Pow2(j));
    assert ClassCount(seed, n) == Half(Fact(n), Ctz(Fact(n)) - j);
  }

  /** Each milestone is at least twice every earlier one. */
  lemma {:induction false} HalfGrows(q: nat, i: nat, j: nat)
    requires q > 0 && i <= Ctz(q) && j <= Ctz(q)
    ensures Half(q, i) >= 1 && (i < j ==> 2 * Half(q, i) <= Half(q, j))
    decreases j
  {
    HalfShape(q, i);
    CtzFactor(q);
    MulAtLeast(q / Pow2(Ctz(q)), Pow2(i));
    if i < j {
      HalfDoubles(q, j - 1);
      HalfGrows(q, i, j - 1);
    }
  }

  /** The queue of main: the dummy entry, then the swaps over the digit numbers. */
  predicate MainQueue(qs: seq<(nat, nat)>, n: nat)
  {
    qs == [Dummy] + Q(Labels(n))
  }

  /** After t + 1 entries of the main queue the seed is relabelled by the t-th arrangement. */
  lemma VisitedRelabelling(seed: seq<nat>, n: nat, t: nat)
    requires IsDigits(seed, n) && t < Fact(n)
    ensures t < |Arrangements(n)| && Run(seed, ([Dummy] + Q(Labels(n)))[..t + 1]) == Apply(Arrangements(n)[t], seed)
  {
    var qs := Q(Labels(n));
    QLength(Labels(n));
    assert ([Dummy] + qs)[..t + 1] == [Dummy] + qs[..t];
    assert ([Dummy] + qs[..t])[1..] == qs[..t];
    SwapSame(seed, 99);
    VisitsAt(Labels(n), qs, t);
    var a := Arrangements(n)[t];
    forall i | 0 <= i < |seed|
      ensures Run(seed, qs[..t]) [i] == Apply(a, seed)[i]
    {
      RunAt(seed, qs[..t], i);
      RunAt(Labels(n), qs[..t], seed[i]);
    }
  }

  /** Sends a stored index to the class of that stored relabelling. */
  ghost function RepClass(reps: seq<seq<nat>>): nat -> set<seq<nat>>
  {
    (i: nat) => if i < |reps| then Rotations(reps[i]) else {}
  }

  /** Sends an index below n! - q to the class of the arrangement q further on. */
  ghost function LaterClass(seed: seq<nat>, n: nat, q: nat): nat -> set<seq<nat>>
  {
    (t: nat) => if q + t < |Arrangements(n)| then Rotations(Apply(Arrangements(n)[q + t], seed)) else {}
  }

  /** The relabellings looked at are the seed relabelled by the arrangements of the main queue, in order. */
  ghost predicate InOrder(vis: seq<seq<nat>>, seed: seq<nat>, n: nat)
  {
    forall t :: 0 <= t < |vis| ==> t < |Arrangements(n)| && vis[t] == Apply(Arrangements(n)[t], seed)
  }

  lemma BooksInOrder(seed: seq<nat>, n: nat, q: nat, vis: seq<seq<nat>>, reps: seq<seq<nat>>)
    requires IsDigits(seed, n) && Books(seed, [Dummy] + Q(Labels(n)), q, vis, reps, n)
    ensures q <= Fact(n) && InOrder(vis, seed, n)
  {
    QLength(Labels(n));
    forall t | 0 <= t < |vis|
      ensures t < |Arrangements(n)| && vis[t] == Apply(Arrangements(n)[t], seed)
    {
      VisitedRelabelling(seed, n, t);
    }
  }

  /**
   * After q relabellings from the main queue, the stored ones lie in
   * different classes, and every class not among theirs has one of the
   * n! - q relabellings still to come.
   */
  lemma ClassBounds(seed: seq<nat>, n: nat, q: nat, vis: seq<seq<nat>>, reps: seq<seq<nat>>)
    requires |seed| == Pow2(n) && IsDigits(seed, n) && Books(seed, [Dummy] + Q(Labels(n)), q, vis, reps, n)
    ensures q <= Fact(n) && |reps| <= ClassCount(seed, n) <= |reps| + (Fact(n) - q)
  {
    BooksInOrder(seed, n, q, vis, reps);
    OrderedBounds(seed, n, q, vis, reps);
  }

  lemma OrderedBounds(seed: seq<nat>, n: nat, q: nat, vis: seq<seq<nat>>, reps: seq<seq<nat>>)
    requires |vis| == q <= Fact(n) && InOrder(vis, seed, n) && Covered(vis, reps)
    requires AllCodes(reps, n) && RotationDistinct(reps) && forall i :: 0 <= i < |reps| ==> reps[i] in vis
    ensures |reps| <= ClassCount(seed, n) <= |reps| + (Fact(n) - q)
  {
    var K := Fact(n) - q;
    var R := Image(Below(|reps|), RepClass(reps));
    var L := Image(Below(K), LaterClass(seed, n, q));
    StoredClasses(seed, n, vis, reps);
    RemainingClasses(seed, n, q, K, vis, reps);
    ImageCard(Below(K), LaterClass(seed, n, q));
    BelowCard(K);
    Sandwich(R, Classes(seed, n), L);
  }

  lemma Sandwich<T>(R: set<T>, C: set<T>, L: set<T>)
    requires R <= C <= R + L
    ensures |R| <= |C| <= |R| + |L|
  {
    SubsetCard(R, C);
    SubsetCard(C, R + L);
  }

  lemma StoredClasses(seed: seq<nat>, n: nat, vis: seq<seq<nat>>, reps: seq<seq<nat>>)
    requires InOrder(vis, seed, n) && AllCodes(reps, n) && RotationDistinct(reps)
    requires forall i :: 0 <= i < |reps| ==> reps[i] in vis
    ensures Image(Below(|reps|), RepClass(reps)) <= Classes(seed, n)
    ensures |Image(Below(|reps|), RepClass(reps))| == |reps|
  {
    StoredApart(reps, n);
    forall i | i in Below(|reps|)
      ensures RepClass(reps)(i) in Classes(seed, n)
    {
      BelowCard(|reps|);
      StoredClass(seed, n, vis, reps, i);
    }
  }

  /** Rotation-distinct stored relabellings have as many classes as they are many. */
  lemma StoredApart(reps: seq<seq<nat>>, n: nat)
    requires AllCodes(reps, n) && RotationDistinct(reps)
    ensures |Image(Below(|reps|), RepClass(reps))| == |reps|
  {
    var B, r := Below(|reps|), RepClass(reps);
    BelowCard(|reps|);
    forall i, j | i in B && j in B && r(i) == r(j)
      ensures i == j
    {
      SameClass(reps, n, i, j);
    }
    InjectiveImage(B, r);
  }

  lemma SameClass(reps: seq<seq<nat>>, n: nat, i: nat, j: nat)
    requires AllCodes(reps, n) && RotationDistinct(reps)
    requires i < |reps| && j < |reps| && Rotations(reps[i]) == Rotations(reps[j])
    ensures i == j
  {
    if i < j {
      SameRotations(reps[j], reps[i]);
    } else if j < i {
      SameRotations(reps[i], reps[j]);
    }
  }

  lemma StoredClass(seed: seq<nat>, n: nat, vis: seq<seq<nat>>, reps: seq<seq<nat>>, i: nat)
    requires InOrder(vis, seed, n) && i < |reps| && reps[i] in vis
    ensures RepClass(reps)(i) in Classes(seed, n)
  {
    var t :| 0 <= t < |vis| && vis[t] == reps[i];
    assert Arrangements(n)[t] in Perms(n);
  }

  lemma RemainingClasses(seed: seq<nat>, n: nat, q: nat, K: nat, vis: seq<seq<nat>>, reps: seq<seq<nat>>)
    requires |vis| == q && q + K == Fact(n) && InOrder(vis, seed, n) && Covered(vis, reps)
    ensures Classes(seed, n) <= Image(Below(|reps|), RepClass(reps)) + Image(Below(K), LaterClass(seed, n, q))
  {
    forall c | c in Classes(seed, n)
      ensures c in Image(Below(|reps|), RepClass(reps)) + Image(Below(K), LaterClass(seed, n, q))
    {
      ClassSeen(seed, n, q, K, vis, reps, c);
    }
  }

  lemma ClassSeen(seed: seq<nat>, n: nat, q: nat, K: nat, vis: seq<seq<nat>>, reps: seq<seq<nat>>, c: set<seq<nat>>)
    requires |vis| == q && q + K == Fact(n) && InOrder(vis, seed, n) && Covered(vis, reps) && c in Classes(seed, n)
    ensures c in Image(Below(|reps|), RepClass(reps)) || c in Image(Below(K), LaterClass(seed, n, q))
  {
    var a :| a in Perms(n) && c == Rotations(Apply(a, seed));
    var t :| 0 <= t < |Arrangements(n)| && Arrangements(n)[t] == a;
    if t < q {
      assert vis[t] == Apply(a, seed);
      SeenEarlier(vis, reps, t);
    } else {
      SeenLater(seed, n, q, K, t);
    }
  }

  lemma SeenEarlier(vis: seq<seq<nat>>, reps: seq<seq<nat>>, t: nat)
    requires Covered(vis, reps) && t < |vis|
    ensures Rotations(vis[t]) in Image(Below(|reps|), RepClass(reps))
  {
    CoveredClass(vis, reps, t);
    var i :| 0 <= i < |reps| && Rotations(reps[i]) == Rotations(vis[t]);
    BelowCard(|reps|);
    assert i in Below(|reps|) && RepClass(reps)(i) == Rotations(vis[t]);
  }

  lemma SeenLater(seed: seq<nat>, n: nat, q: nat, K: nat, t: nat)
    requires q <= t < |Arrangements(n)| && q + K == Fact(n)
    ensures Rotations(Apply(Arrangements(n)[t], seed)) in Image(Below(K), LaterClass(seed, n, q))
  {
    QLength(Labels(n));
    BelowCard(K);
    assert t - q in Below(K);
    assert LaterClass(seed, n, q)(t - q) == Rotations(Apply(Arrangements(n)[t], seed));
  }

  /** A relabelling looked at has the class of a stored one. */
  lemma CoveredClass(vis: seq<seq<nat>>, reps: seq<seq<nat>>, t: nat)
    requires Covered(vis, reps) && t < |vis|
    ensures exists i :: 0 <= i < |reps| && Rotations(reps[i]) == Rotations(vis[t])
  {
    assert HasRep(vis[t], reps);
    var i, k :| 0 <= i < |reps| && 0 <= k <= |vis[t]| && Rot(vis[t], k) == reps[i];
    if k < |vis[t]| {
      RotationsOf(vis[t], k);
    } else {
      RotFull(vis[t]);
    }
  }

  /**
   * The first way out of the seed loop: a count past the second-to-last
   * milestone is all of n!, because the class count is at least the count
   * and is itself a milestone.
   */
  lemma PassedHalfExit(seed: seq<nat>, n: nat, qs: seq<(nat, nat)>, q: nat, vis: seq<seq<nat>>, reps: seq<seq<nat>>, hi: nat)
    requires |seed| == Pow2(n) && IsDigits(seed, n) && Books(seed, qs, q, vis, reps, n)
    requires hi < Ctz(Fact(n)) && Half(Fact(n), hi + 1) == Fact(n) && Half(Fact(n), hi) < |reps|
    ensures MainQueue(qs, n) && UsesAllDigits(seed, n) ==> ClassCount(seed, n) == Fact(n)
  {
    if MainQueue(qs, n) && UsesAllDigits(seed, n) {
      ClassBounds(seed, n, q, vis, reps);
      ClassMilestone(seed, n);
      var i: nat :| i <= Ctz(Fact(n)) && ClassCount(seed, n) == Half(Fact(n), i);
      PastHalf(Fact(n), hi, i);
    }
  }

  /** A milestone above the one just below the last is the last. */
  lemma PastHalf(q: nat, hi: nat, i: nat)
    requires q > 0 && hi < Ctz(q) && i <= Ctz(q) && Half(q, hi + 1) == q && Half(q, hi) < Half(q, i)
    ensures Half(q, i) == q
  {
    HalfOrder(q, i, hi);
    HalfOrder(q, hi + 1, i);
    HalfOrder(q, i, Ctz(q));
    HalfEnds(q);
  }

  /**
   * The second way out: a count sitting on a milestone that the relabellings
   * still to come cannot double is the class count, because the class count
   * lies between the count and the count plus those still to come.
   */
  lemma StableExit(seed: seq<nat>, n: nat, qs: seq<(nat, nat)>, q: nat, vis: seq<seq<nat>>, reps: seq<seq<nat>>, hi: nat)
    requires |seed| == Pow2(n) && IsDigits(seed, n) && Books(seed, qs, q, vis, reps, n)
    requires hi <= Ctz(Fact(n)) && |reps| == Half(Fact(n), hi) && q <= Fact(n) && |reps| > Fact(n) - q
    ensures MainQueue(qs, n) && UsesAllDigits(seed, n) ==> ClassCount(seed, n) == |reps|
  {
    if MainQueue(qs, n) && UsesAllDigits(seed, n) {
      ClassBounds(seed, n, q, vis, reps);
      ClassMilestone(seed, n);
      var F, C := Fact(n), ClassCount(seed, n);
      var i: nat :| i <= Ctz(F) && C == Half(F, i);
      HalfOrder(F, hi, i);
      HalfGrows(F, hi, i);
    }
  }

  /** Without an early way out, every relabelling has been looked at and the count is the class count. */
  lemma FullPass(seed: seq<nat>, n: nat, qs: seq<(nat, nat)>, q: nat, vis: seq<seq<nat>>, reps: seq<seq<nat>>)
    requires |seed| == Pow2(n) && IsDigits(seed, n) && Books(seed, qs, q, vis, reps, n) && q == |qs|
    ensures MainQueue(qs, n) ==> ClassCount(seed, n) == |reps|
  {
    if MainQueue(qs, n) {
      QLength(Labels(n));
      ClassBounds(seed, n, q, vis, reps);
    }
  }

  /** The milestones are in the order of their indices. */
  lemma HalfOrder(q: nat, i: nat, j: nat)
    requires q > 0 && i <= Ctz(q) && j <= Ctz(q)
    ensures i <= j <==> Half(q, i) <= Half(q, j)
  {
    HalfGrows(q, i, j);
    HalfGrows(q, j, i);
  }
}
