/**
 * The straight-line parts of the counting program: the skeleton code that every
 * search starts its free steps from, the sequence number of a code, the digit
 * relabelling swap, the strict order isLower, the swap queues built in main and
 * the table that rotates a sequence number in one multiplication.
 */
module Chimera {
  import opened Bits
  import opened Numerals
  import opened PermQueue
  import opened SortedSearch

  /** Entry j of the ruler sequence 1 2 1 4 1 2 1 8 ...: the lowest set bit of j + 1. */
  function Ruler(j: nat): nat
  {
    Pow2(Ctz(j + 1))
  }

  /**
   * The skeleton of len = 2^n step masks built in main: the ruler sequence,
   * except that the last step is LAST_DIGIT_STEP (the ruler would give 2^n).
   */
  function Lowest(n: nat): (r: seq<nat>)
    requires n >= 1
    ensures |r| == Pow2(n)
  {
    seq(Pow2(n), j => LowestAt(n, j))
  }

  /** Entry j of the skeleton. */
  function LowestAt(n: nat, j: int): nat
    requires n >= 1
  {
    if j == Pow2(n) - 1 then Pow2(n - 1) else if j < 0 then 0 else Ruler(j)
  }

  /** Adding 2^i to a positive value below 2^i keeps its trailing zeros. */
  lemma {:induction false} CtzShift(x: nat, i: nat)
    requires 0 < x < Pow2(i)
    ensures Ctz(x + Pow2(i)) == Ctz(x)
    decreases i
  {
    if x % 2 == 0 {
      assert i > 0;
      assert (x + Pow2(i)) / 2 == x / 2 + Pow2(i - 1);
      CtzShift(x / 2, i - 1);
    }
  }

  /** A positive value below 2^n has fewer than n trailing zeros. */
  lemma {:induction false} CtzBelow(x: nat, n: nat)
    requires 0 < x < Pow2(n)
    ensures Ctz(x) < n
    decreases n
  {
    if x % 2 == 0 {
      CtzBelow(x / 2, n - 1);
    }
  }

  /**
   * The construction in main: start from [1]; n times, copy the block built
   * so far right after itself and double its last entry; finally halve the
   * last entry of the whole array.
   */
  method BuildLowest(n: nat) returns (lowest: array<nat>)
    requires n >= 1
    ensures fresh(lowest) && lowest[..] == Lowest(n)
  {
    lowest := new nat[Pow2(n)](_ => 0);
    lowest[0] := 1;
    assert lowest[..1] == RulerSeq(1) by {
      RulerAtPow2(0);
    }
    var init: nat := 1;
    var i: nat := 0;
    while i < n
      invariant i <= n && init == Pow2(i) && lowest.Length == Pow2(n)
      invariant init <= Pow2(n) && lowest[..init] == RulerSeq(init)
    {
      assert 2 * init <= Pow2(n) by {
        if i + 1 < n { Pow2Monotone(i + 1, n); }
      }
      DoublingRound(lowest, init, i);
      init := 2 * init;
      i := i + 1;
    }
    ghost var built := lowest[..];
    assert built == RulerSeq(Pow2(n));
    RulerAtPow2(n);
    assert built[Pow2(n) - 1] / 2 == Pow2(n - 1);
    lowest[Pow2(n) - 1] := lowest[Pow2(n) - 1] / 2;
    assert lowest[..] == built[Pow2(n) - 1 := Pow2(n - 1)];
    LowestFromRuler(n);
  }

  /** The first k ruler entries. */
  function RulerSeq(k: nat): (r: seq<nat>)
    ensures |r| == k
  {
    seq(k, j requires 0 <= j < k => Ruler(j))
  }

  /** One round of the construction: copy the block, then double its new last entry. */
  method DoublingRound(a: array<nat>, init: nat, ghost i: nat)
    requires init == Pow2(i) && 2 * init <= a.Length && a[..init] == RulerSeq(init)
    modifies a
    ensures a[..2 * init] == RulerSeq(2 * init)
  {
    CopyBlock(a, init);
    a[2 * init - 1] := a[2 * init - 1] * 2;
    assert a[..2 * init] == (RulerSeq(init) + RulerSeq(init))[2 * init - 1 := RulerSeq(init)[init - 1] * 2];
    RulerDoubling(i, init);
  }

  /** The memcpy of a block of init entries to right after itself. */
  method CopyBlock(a: array<nat>, init: nat)
    requires 2 * init <= a.Length
    modifies a
    ensures a[..2 * init] == old(a[..init]) + old(a[..init])
  {
    forall j | init <= j < 2 * init {
      a[j] := a[j - init];
    }
  }

  /**
   * One round of the construction: a block of 2^(i+1) entries whose first
   * half is the ruler and whose second half copies the first, with its last
   * entry doubled, is the ruler.
   */
  lemma RulerDoubling(i: nat, init: nat)
    requires init == Pow2(i)
    ensures (RulerSeq(init) + RulerSeq(init))[2 * init - 1 := RulerSeq(init)[init - 1] * 2] == RulerSeq(2 * init)
  {
    var first := RulerSeq(init);
    var b := (first + first)[2 * init - 1 := first[init - 1] * 2];
    forall j | 0 <= j < 2 * init
      ensures b[j] == Ruler(j)
    {
      RulerDoublingAt(i, init, j);
    }
  }

  lemma RulerDoublingAt(i: nat, init: nat, j: nat)
    requires init == Pow2(i) && j < 2 * init
    ensures (RulerSeq(init) + RulerSeq(init))[2 * init - 1 := RulerSeq(init)[init - 1] * 2][j] == Ruler(j)
  {
    var first := RulerSeq(init);
    DoubledAt(first, first[init - 1] * 2, j);
    if j == 2 * init - 1 {
      RulerDoubledLast(i, init);
    } else if j >= init {
      RulerSecondHalf(i, init, j);
    }
  }

  /** Entry j of a block written twice with its last entry replaced by v. */
  lemma DoubledAt(first: seq<nat>, v: nat, j: nat)
    requires 0 < |first| && j < 2 * |first|
    ensures (first + first)[2 * |first| - 1 := v][j]
            == if j == 2 * |first| - 1 then v else if j < |first| then first[j] else first[j - |first|]
  {
  }

  /** Doubling the ruler entry before 2^i gives the entry before 2^(i+1). */
  lemma RulerDoubledLast(i: nat, init: nat)
    requires init == Pow2(i)
    ensures Ruler(init - 1) * 2 == Ruler(2 * init - 1)
  {
    RulerAtPow2(i);
    RulerAtPow2(i + 1);
  }

  /** Below the last entry, the second block repeats the first. */
  lemma RulerSecondHalf(i: nat, init: nat, j: nat)
    requires init == Pow2(i) && init <= j < 2 * init - 1
    ensures Ruler(j - init) == Ruler(j)
  {
    var x := j - init;
    RulerShift(x, i);
    assert x + Pow2(i) == j;
  }

  lemma LowestFromRuler(n: nat)
    requires n >= 1
    ensures RulerSeq(Pow2(n))[Pow2(n) - 1 := Pow2(n - 1)] == Lowest(n)
  {
  }

  lemma RulerAtPow2(k: nat)
    ensures Ruler(Pow2(k) - 1) == Pow2(k)
  {
    Pow2IsStepMask(k, k + 1);
  }

  lemma RulerShift(x: nat, i: nat)
    requires x + 1 < Pow2(i)
    ensures Ruler(x + Pow2(i)) == Ruler(x)
  {
    CtzShift(x + 1, i);
    assert x + Pow2(i) + 1 == x + 1 + Pow2(i);
  }

  /** Every entry of the skeleton is a step mask for n digits. */
  lemma LowestSteps(n: nat)
    requires n >= 1
    ensures forall j :: 0 <= j < Pow2(n) ==> IsStepMask(Lowest(n)[j], n)
  {
    forall j | 0 <= j < Pow2(n)
      ensures IsStepMask(Lowest(n)[j], n)
    {
      if j == Pow2(n) - 1 {
        Pow2IsStepMask(n - 1, n);
      } else {
        CtzBelow(j + 1, n);
        Pow2IsStepMask(Ctz(j + 1), n);
      }
    }
  }

  /**
   * No two neighbours of the skeleton are equal, also across the wrap from
   * the last entry to the first, when n >= 2.
   */
  lemma LowestNeighboursDiffer(n: nat)
    requires n >= 2
    ensures forall j :: 0 <= j < Pow2(n) - 1 ==> Lowest(n)[j] != Lowest(n)[j + 1]
    ensures Lowest(n)[Pow2(n) - 1] != Lowest(n)[0]
  {
    Pow2Monotone(0, n - 1);
    forall j | 0 <= j < Pow2(n) - 1
      ensures Lowest(n)[j] != Lowest(n)[j + 1]
    {
      if j + 1 == Pow2(n) - 1 {
        LastNeighbours(n);
      } else {
        RulerNeighbours(j);
      }
    }
  }

  lemma LastNeighbours(n: nat)
    requires n >= 2
    ensures Lowest(n)[Pow2(n) - 2] == 1 && 1 < Lowest(n)[Pow2(n) - 1]
  {
    RulerBeforeLast(n);
    assert Lowest(n)[Pow2(n) - 2] == Ruler(Pow2(n) - 2);
    Pow2Monotone(0, n - 1);
  }

  lemma RulerBeforeLast(n: nat)
    requires n >= 1
    ensures Ruler(Pow2(n) - 2) == 1
  {
    OddBelowPow2(n);
  }

  lemma OddBelowPow2(n: nat)
    requires n >= 1
    ensures Ctz(Pow2(n) - 1) == 0
  {
    var x := Pow2(n) - 1;
    assert x == 2 * (Pow2(n - 1) - 1) + 1;
    DivModUnique(x, Pow2(n - 1) - 1, 1, 2);
  }

  lemma RulerNeighbours(j: nat)
    ensures Ruler(j) != Ruler(j + 1)
  {
    assert Ctz(j + 1) == 0 || Ctz(j + 2) == 0;
    assert Ctz(j + 1) > 0 || Ctz(j + 2) > 0;
    Pow2Injective(Ctz(j + 1), Ctz(j + 2));
  }

  /** getSequenceNumber: the len steps read as a base-n numeral, first step most significant. */
  method GetSequenceNumber(sequence: array<nat>, n: nat) returns (rtn: nat)
    requires Pow2(n) <= sequence.Length
    ensures rtn == Num(sequence[..Pow2(n)], n)
  {
    rtn := 0;
    var i := 0;
    while i < Pow2(n)
      invariant i <= Pow2(n) && rtn == Num(sequence[..i], n)
    {
      assert sequence[..i + 1][..i] == sequence[..i];
      rtn := rtn * n + sequence[i];
      i := i + 1;
    }
  }

  /** Two digit strings of the same length have the same sequence number only if they are equal. */
  lemma SequenceNumberDistinguishes(x: seq<nat>, y: seq<nat>, n: nat)
    requires |x| == |y| == Pow2(n) && IsDigits(x, n) && IsDigits(y, n)
    ensures Num(x, n) == Num(y, n) <==> x == y
    ensures Num(x, n) < Pow(n, Pow2(n))
  {
    if Num(x, n) == Num(y, n) {
      NumInjective(x, y, n);
    }
    NumBound(x, n);
  }

  /**
   * swap and swapMasks: within the first limit entries every a becomes b and
   * every b becomes a; the rest of the array is untouched.
   */
  method SwapLabels(s: array<nat>, a: nat, b: nat, limit: nat)
    requires limit <= s.Length
    modifies s
    ensures s[..] == Swap(old(s[..])[..limit], a, b) + old(s[..])[limit..]
  {
    ghost var s0 := s[..];
    var i := 0;
    while i < limit
      invariant i <= limit
      invariant forall k :: 0 <= k < i ==> s[k] == Swap(s0[..limit], a, b)[k]
      invariant forall k :: i <= k < s.Length ==> s[k] == s0[k]
    {
      if s[i] == a {
        s[i] := b;
      } else if s[i] == b {
        s[i] := a;
      }
      i := i + 1;
    }
    assert s[..] == Swap(s0[..limit], a, b) + s0[limit..];
  }

  /**
   * isLower: walks past the equal leading entries and compares the first
   * differing one; false when all len entries agree.
   */
  method IsLower(beingTested: seq<nat>, original: seq<nat>, len: nat) returns (r: bool)
    requires len <= |beingTested| && len <= |original|
    ensures r <==> LexLess(beingTested[..len], original[..len])
  {
    var limit := 0;
    while limit < len && beingTested[limit] == original[limit]
      invariant limit <= len && beingTested[..limit] == original[..limit]
    {
      assert beingTested[..limit + 1] == beingTested[..limit] + [beingTested[limit]];
      assert original[..limit + 1] == original[..limit] + [original[limit]];
      limit := limit + 1;
    }
    r := limit < len && beingTested[limit] < original[limit];
    var x, y := beingTested[..len], original[..len];
    assert x[..limit] == y[..limit];
    LexLessFrom(x, y, limit);
    if limit == len {
      assert x[limit..] == [];
    } else {
      assert x[limit..][0] == beingTested[limit] && y[limit..][0] == original[limit];
    }
  }

  /** isLower is a strict order: never true of equal sequences, never true both ways. */
  lemma IsLowerStrict(x: seq<nat>, y: seq<nat>)
    requires |x| == |y|
    ensures !LexLess(x, x)
    ensures !(LexLess(x, y) && LexLess(y, x))
    ensures x != y ==> LexLess(x, y) || LexLess(y, x)
  {
    LexLessIrreflexive(x);
    LexAsymmetric(x, y);
    if x != y {
      LexTotal(x, y);
    }
  }

  lemma {:induction false} LexAsymmetric(x: seq<nat>, y: seq<nat>)
    requires |x| == |y|
    ensures !(LexLess(x, y) && LexLess(y, x))
    decreases |x|
  {
    if |x| > 0 && x[0] == y[0] {
      LexAsymmetric(x[1..], y[1..]);
    }
  }

  /** The digit numbers 0 .. n-1, the labels of the main queue. */
  function Labels(n: nat): (r: seq<nat>)
    ensures |r| == n
  {
    seq(n, i => i)
  }

  /** The masks 2^(n-1), 2^(n-2), ..., 2^low: the labels of a reduced queue. */
  function MaskLabels(n: nat, low: nat): (r: seq<nat>)
    requires low <= n
    ensures |r| == n - low
  {
    seq(n - low, k requires 0 <= k < n - low => Pow2(n - 1 - k))
  }

  /** The product loop of main: n (n-1) ... 2. */
  method Factorial(n: nat) returns (f: nat)
    ensures f == Fact(n)
  {
    f := 1;
    var i: nat := n;
    while i > 1
      invariant i <= n && f * Fact(i) == Fact(n)
    {
      assert Fact(i) == i * Fact(i - 1);
      MulAssoc(f, i, Fact(i - 1));
      f := f * i;
      i := i - 1;
    }
  }

  /** Regrouping a product of three counts, the step of the factorial loop. */
  lemma MulAssoc(a: nat, b: nat, c: nat)
    ensures a * (b * c) == (a * b) * c
  {
  }

  /** The slot written before the generated swaps: a pair no code contains, so swapping it does nothing. */
  const Dummy: (nat, nat) := (99, 99)

  /** Swapping a label with itself changes nothing, which makes Dummy a no-op. */
  lemma SwapSame(s: seq<nat>, a: nat)
    ensures Swap(s, a, a) == s
  {
  }

  /**
   * The queue of main: n! entries, Dummy first, then the swaps that walk
   * the digit numbers 0 .. n-1 through all their arrangements.
   */
  method BuildQueue(n: nat) returns (queue: array<(nat, nat)>)
    ensures fresh(queue) && queue[..] == [Dummy] + Q(Labels(n))
    ensures queue.Length == Fact(n)
  {
    var queueSize := Factorial(n);
    queue := new (nat, nat)[queueSize](_ => Dummy);
    var added := AddQueueSwaps(n, 1, queue, Labels(n));
    QLength(Labels(n));
    assert queue[..] == [Dummy] + Q(Labels(n));
  }

  /**
   * queueMinus3 (low = 3) and queueMinus4 (low = 4): (n-low)! entries, Dummy
   * first, then, when more than one mask is left, the swaps that walk the
   * masks not fixed by the set start through all their arrangements.
   */
  method BuildMaskQueue(n: nat, low: nat) returns (queue: array<(nat, nat)>)
    requires low <= n
    ensures fresh(queue) && queue[..] == [Dummy] + Q(MaskLabels(n, low))
    ensures queue.Length == Fact(n - low)
  {
    var size := Factorial(n - low);
    queue := new (nat, nat)[size](_ => Dummy);
    QLength(MaskLabels(n, low));
    if n > low + 1 {
      var added := AddQueueSwaps(n - low, 1, queue, MaskLabels(n, low));
    } else {
      assert Q(MaskLabels(n, low)) == [];
    }
    assert queue[..] == [Dummy] + Q(MaskLabels(n, low));
  }

  /** The labels of either queue are pairwise different. */
  lemma LabelsDistinct(n: nat, low: nat)
    requires low <= n
    ensures AllDistinct(Labels(n)) && AllDistinct(MaskLabels(n, low))
  {
    forall i, j | 0 <= i < j < n - low
      ensures MaskLabels(n, low)[i] != MaskLabels(n, low)[j]
    {
      Pow2Injective(n - 1 - i, n - 1 - j);
    }
  }

  /**
   * Starting from any arrangement holding each label once, the queue of
   * main passes through n! arrangements, all different.
   */
  lemma QueueEnumerates(n: nat, a: seq<nat>)
    requires AllDistinct(a) && Holds(a, Labels(n))
    ensures |Visits(a, [Dummy] + Q(Labels(n)))| == Fact(n) + 1
    ensures AllDistinct(Visits(a, [Dummy] + Q(Labels(n)))[1..])
  {
    LabelsDistinct(n, 0);
    QVisits(Labels(n), a);
    QLength(Labels(n));
    SwapSame(a, 99);
    assert ([Dummy] + Q(Labels(n)))[1..] == Q(Labels(n));
    assert Visits(a, [Dummy] + Q(Labels(n)))[1..] == Visits(a, Q(Labels(n)));
  }

  /** The rotation table: entry f is f (n^len - 1). */
  predicate IsMultiplesTable(t: seq<nat>, n: nat)
  {
    |t| == n && forall f :: 0 <= f < n ==> t[f] == f * (Pow(n, Pow2(n)) - 1)
  }

  /** The construction in main: n^len by len multiplications, minus one, and its multiples. */
  method BuildMultiples(n: nat) returns (table: array<nat>)
    requires n >= 2
    ensures fresh(table) && IsMultiplesTable(table[..], n)
  {
    table := new nat[n](_ => 0);
    var p: nat := 1;
    var i := 0;
    while i < Pow2(n)
      invariant i <= Pow2(n) && p == Pow(n, i)
    {
      assert Pow(n, i + 1) == n * p;
      p := p * n;
      i := i + 1;
    }
    ghost var m := p - 1;
    table[1] := p - 1;
    assert table[0] == 0 * m && table[1] == 1 * m;
    i := 2;
    while i < n
      invariant 2 <= i <= n && table[1] == m
      invariant forall f :: 0 <= f < i ==> table[f] == f * m
    {
      table[i] := table[1] * i;
      i := i + 1;
    }
  }

  /**
   * One rotation in one step: multiplying the number of a code by n and
   * subtracting the table entry of its first digit gives the number of the
   * code rotated left by one.
   */
  lemma RotationStep(ds: seq<nat>, n: nat, t: seq<nat>)
    requires |ds| == Pow2(n) && IsDigits(ds, n) && IsMultiplesTable(t, n)
    ensures Num(ds, n) * n - t[ds[0]] == Num(RotL(ds), n)
  {
    RotLNum(ds, n);
  }

  /**
   * Iterating that step from the number of ds gives the numbers of its
   * rotations, and after len steps the number of ds again.
   */
  lemma RotationReturns(ds: seq<nat>, n: nat, t: seq<nat>, k: nat)
    requires |ds| == Pow2(n) && IsDigits(ds, n) && IsMultiplesTable(t, n) && k < Pow2(n)
    ensures IsDigits(Rot(ds, k), n) && Rot(ds, k)[0] == ds[k]
    ensures Num(Rot(ds, k), n) * n - t[ds[k]] == Num(Rot(ds, k + 1), n)
    ensures k + 1 == Pow2(n) ==> Num(Rot(ds, k + 1), n) == Num(ds, n)
  {
    RotDigits(ds, k, n);
    RotationStep(Rot(ds, k), n, t);
    RotStep(ds, k);
    RotFull(ds);
  }

  /**
   * markForRemoval: binary search of seqs[0..size] (size is the inclusive high
   * index) for the sequence whose steps from 2 on are those of seqToMark; the
   * one found gets its first step set to 1, the removal mark.  The result says
   * whether one was found.
   */
  method MarkForRemoval(seqs: array<seq<nat>>, size: int, seqToMark: seq<nat>, n: nat) returns (found: bool)
    requires 2 < Pow2(n) == |seqToMark| && -1 <= size < seqs.Length && SortedKeys(seqs[..size + 1], 2, Pow2(n))
    modifies seqs
    ensures found <==> exists i :: 0 <= i <= size && Key(old(seqs[i]), 2, Pow2(n)) == Key(seqToMark, 2, Pow2(n))
    ensures forall i :: 0 <= i < seqs.Length ==>
      seqs[i] == (if i <= size && Key(old(seqs[i]), 2, Pow2(n)) == Key(seqToMark, 2, Pow2(n)) then old(seqs[i])[0 := 1] else old(seqs[i]))
  {
    ghost var S := seqs[..size + 1];
    assert forall i :: 0 <= i <= size ==> seqs[i] == S[i];
    var mid;
    found, mid := Search(seqs, size, seqToMark, 2, Pow2(n));
    if found {
      seqs[mid] := seqs[mid][0 := 1];
      forall i | 0 <= i <= size && Key(S[i], 2, Pow2(n)) == Key(seqToMark, 2, Pow2(n))
        ensures i == mid
      {
        KeyUnique(S, 2, Pow2(n), i, mid);
      }
    }
  }
}
