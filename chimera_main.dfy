/**
 * Stages 2 and 3 of the chimera program: the five set-start searches (one per
 * partition of the codes by their first steps, each with the queue of swaps
 * of the digits its set start leaves free), the total of the seeds they find,
 * and the extrapolation of every seed list into the number of codes it stands
 * for, summed.
 */
module ChimeraMain {
  import opened Bits
  import opened Numerals
  import opened PermQueue
  import opened Checkers
  import opened Chimera
  import opened CodeSearch
  import opened Extrapolation
  import opened ChimeraSearch
  import opened RotationCheck
  import opened Relabellings

  /** The five searches in the order of the program's table of search values. */
  const Partitions: seq<Partition> := [P01020, P01021, P01023, P0120, P0123]

  /** What one search promises: increasing seed codes of the partition, and their digits. */
  ghost predicate Found(p: Partition, seeds: seq<seq<nat>>, codes: seq<seq<nat>>, n: nat)
    requires n >= 4
  {
    |seeds| == |codes| && Increasing(codes, n)
    && forall i :: 0 <= i < |codes| ==> IsSeedCode(p, codes[i], n, SearchQueue(p, n)) && seeds[i] == Logs(codes[i])
  }

  /** Seed lists found for the partitions, with their codes. */
  ghost predicate SeedLists(ps: seq<Partition>, lists: seq<seq<seq<nat>>>, codes: seq<seq<seq<nat>>>, n: nat)
    requires n >= 4
  {
    |lists| == |ps| == |codes| && forall k :: 0 <= k < |ps| ==> Found(ps[k], lists[k], codes[k], n)
  }

  /** Every list has one count per seed, each between 1 and n!. */
  predicate Counted(lists: seq<seq<seq<nat>>>, counts: seq<seq<nat>>, n: nat)
  {
    |counts| == |lists|
    && (forall k :: 0 <= k < |lists| ==> |counts[k]| == |lists[k]|)
    && forall k, i :: 0 <= k < |counts| && 0 <= i < |counts[k]| ==> 1 <= counts[k][i] <= Fact(n)
  }

  /** The relabelling-class size of every seed of a list. */
  ghost function SeedClasses(seeds: seq<seq<nat>>, n: nat): (r: seq<nat>)
    ensures |r| == |seeds|
  {
    seq(|seeds|, i requires 0 <= i < |seeds| => ClassCount(seeds[i], n))
  }

  /** The relabelling-class sizes of the seeds of every list. */
  ghost function ClassCounts(lists: seq<seq<seq<nat>>>, n: nat): (r: seq<seq<nat>>)
    ensures |r| == |lists|
  {
    seq(|lists|, k requires 0 <= k < |lists| => SeedClasses(lists[k], n))
  }

  /** The class sizes of a list in front of the lists of the later searches. */
  lemma ClassCountsCons(seeds: seq<seq<nat>>, lists: seq<seq<seq<nat>>>, n: nat)
    ensures ClassCounts([seeds] + lists, n) == [SeedClasses(seeds, n)] + ClassCounts(lists, n)
  {
    var l := [seeds] + lists;
    forall k | 0 <= k < |l|
      ensures ClassCounts(l, n)[k] == ([SeedClasses(seeds, n)] + ClassCounts(lists, n))[k]
    {
      if k > 0 {
        assert l[k] == lists[k - 1];
      }
    }
  }

  /** Number of seeds over all lists. */
  function SeedTotal(lists: seq<seq<seq<nat>>>): nat
  {
    if |lists| == 0 then 0 else |lists[0]| + SeedTotal(lists[1..])
  }

  /** Number of codes the lists stand for, with each seed's count of relabellings. */
  function CodeTotal(lists: seq<seq<seq<nat>>>, counts: seq<seq<nat>>, n: nat): nat
    requires Counted(lists, counts, n)
  {
    if |lists| == 0 then 0 else Tally(lists[0], counts[0]) + CodeTotal(lists[1..], counts[1..], n)
  }

  /** A search's list in front of the lists of the later searches. */
  lemma SeedListsCons(ps: seq<Partition>, k: nat, seeds: seq<seq<nat>>, cs: seq<seq<nat>>,
                      lists: seq<seq<seq<nat>>>, codes: seq<seq<seq<nat>>>, n: nat)
    requires n >= 4 && k < |ps| && SeedLists(ps[k + 1..], lists, codes, n)
    requires Found(ps[k], seeds, cs, n)
    ensures SeedLists(ps[k..], [seeds] + lists, [cs] + codes, n)
  {
    var ls, cd := [seeds] + lists, [cs] + codes;
    forall j | 0 <= j < |ps| - k
      ensures Found(ps[k..][j], ls[j], cd[j], n)
    {
      if j > 0 {
        assert ps[k..][j] == ps[k + 1..][j - 1] && ls[j] == lists[j - 1] && cd[j] == codes[j - 1];
      }
    }
  }

  /** The totals grow by the front list's size and tally. */
  lemma CountedCons(seeds: seq<seq<nat>>, cnt: seq<nat>, lists: seq<seq<seq<nat>>>, counts: seq<seq<nat>>, n: nat)
    requires Counted(lists, counts, n)
    requires |cnt| == |seeds| && forall i :: 0 <= i < |seeds| ==> 1 <= cnt[i] <= Fact(n)
    ensures Counted([seeds] + lists, [cnt] + counts, n)
    ensures SeedTotal([seeds] + lists) == |seeds| + SeedTotal(lists)
    ensures CodeTotal([seeds] + lists, [cnt] + counts, n) == Tally(seeds, cnt) + CodeTotal(lists, counts, n)
  {
    assert ([seeds] + lists)[1..] == lists;
    assert ([cnt] + counts)[1..] == counts;
    forall k | 0 < k <= |lists|
      ensures ([seeds] + lists)[k] == lists[k - 1] && ([cnt] + counts)[k] == counts[k - 1]
    {
    }
  }

  /**
   * Each seed of length len stands for between len / 2 and n! * len codes:
   * at least one relabelling with at least half the rotations, at most all
   * n! relabellings with all len rotations.
   */
  lemma {:induction false} TallyBounds(seeds: seq<seq<nat>>, counts: seq<nat>, len: nat, f: nat)
    requires |counts| == |seeds|
    requires forall i :: 0 <= i < |seeds| ==> |seeds[i]| == len && 1 <= counts[i] <= f
    ensures |seeds| * (len / 2) <= Tally(seeds, counts) <= |seeds| * (f * len)
    decreases |seeds|
  {
    if |seeds| > 0 {
      var k := |seeds| - 1;
      TallyBounds(seeds[..k], counts[..k], len, f);
      var m := Multiplicity(seeds[k]);
      assert len / 2 <= m <= len;
      ProductBounds(counts[k], m, f, len);
      assert seeds[..k] + [seeds[k]] == seeds;
      SumBounds(k, 1, Tally(seeds[..k], counts[..k]), counts[k] * m, len / 2, f * len);
    }
  }

  /** Totals of a and of b items, each item between lo and hi, add up to a total of a + b items. */
  lemma SumBounds(a: nat, b: nat, x: int, y: int, lo: int, hi: int)
    requires a * lo <= x <= a * hi && b * lo <= y <= b * hi
    ensures (a + b) * lo <= x + y <= (a + b) * hi
  {
    assert (a + b) * lo == a * lo + b * lo;
    assert (a + b) * hi == a * hi + b * hi;
  }

  lemma ProductBounds(c: nat, m: nat, f: nat, len: nat)
    requires 1 <= c <= f && len / 2 <= m <= len
    ensures len / 2 <= c * m <= f * len
  {
    assert c * m <= f * m by { MulMono(c, f, m); }
    assert f * m <= f * len by { MulMono(m, len, f); }
    assert m <= c * m by { MulMono(1, c, m); }
  }

  /** Over all lists: the code total lies between the seed total times len / 2 and times n! * len. */
  lemma {:induction false} CodeTotalBounds(lists: seq<seq<seq<nat>>>, counts: seq<seq<nat>>, n: nat)
    requires Counted(lists, counts, n)
    requires forall k, i :: 0 <= k < |lists| && 0 <= i < |lists[k]| ==> |lists[k][i]| == Pow2(n)
    ensures SeedTotal(lists) * (Pow2(n) / 2) <= CodeTotal(lists, counts, n) <= SeedTotal(lists) * (Fact(n) * Pow2(n))
    decreases |lists|
  {
    if |lists| > 0 {
      assert forall i :: 0 <= i < |lists[0]| ==> |lists[0][i]| == Pow2(n) && 1 <= counts[0][i] <= Fact(n);
      TallyBounds(lists[0], counts[0], Pow2(n), Fact(n));
      assert forall k, i :: 0 <= k < |lists[1..]| && 0 <= i < |lists[1..][k]| ==> lists[1..][k][i] == lists[k + 1][i];
      assert forall k, i :: 0 <= k < |counts[1..]| && 0 <= i < |counts[1..][k]| ==> counts[1..][k][i] == counts[k + 1][i];
      CodeTotalBounds(lists[1..], counts[1..], n);
      SumBounds(|lists[0]|, SeedTotal(lists[1..]), Tally(lists[0], counts[0]), CodeTotal(lists[1..], counts[1..], n),
                Pow2(n) / 2, Fact(n) * Pow2(n));
    }
  }

  /** Seed lists hold seeds of 2^n digits each. */
  lemma SeedLengths(ps: seq<Partition>, lists: seq<seq<seq<nat>>>, codes: seq<seq<seq<nat>>>, n: nat)
    requires n >= 4 && SeedLists(ps, lists, codes, n)
    ensures forall k, i :: 0 <= k < |lists| && 0 <= i < |lists[k]| ==> |lists[k][i]| == Pow2(n)
  {
    forall k, i | 0 <= k < |lists| && 0 <= i < |lists[k]|
      ensures |lists[k][i]| == Pow2(n)
    {
      assert Found(ps[k], lists[k], codes[k], n);
      assert IsGrayCycle(codes[k][i], n);
    }
  }

  /** The tables of stage 1: the lowest code, the swap queue over all digits and the rotation table. */
  predicate Built(lowest: array<nat>, queue: array<(nat, nat)>, mult: array<nat>, n: nat)
    reads lowest, queue, mult
  {
    n >= 1 && lowest[..] == Lowest(n) && queue.Length == Fact(n) && queue[..] == [Dummy] + Q(Labels(n))
    && IsMultiplesTable(mult[..], n)
  }

  /**
   * The joined results of the searches of ps: each list found by its search,
   * its class counts, and the two totals over them.
   */
  ghost predicate Joined(ps: seq<Partition>, lists: seq<seq<seq<nat>>>, codes: seq<seq<seq<nat>>>, counts: seq<seq<nat>>,
                         totalNumSeeds: nat, totalNumGreyCodes: nat, n: nat)
    requires n >= 4
  {
    SeedLists(ps, lists, codes, n) && Counted(lists, counts, n) && counts == ClassCounts(lists, n)
    && totalNumSeeds == SeedTotal(lists) && totalNumGreyCodes == CodeTotal(lists, counts, n)
  }

  /**
   * One search of stage 2 and the extrapolation of its seeds: the seeds are
   * the sequence numbers' digits of codes with the partition's set start
   * that pass its checks, in increasing order, and the code count is their
   * tally, each seed counting between 1 and n! relabellings.
   */
  method SearchPartition(n: nat, p: Partition, lowest: array<nat>, queue: array<(nat, nat)>, mult: array<nat>)
    returns (seeds: seq<seq<nat>>, numGreyCodes: nat, ghost codes: seq<seq<nat>>, ghost counts: seq<nat>)
    requires n >= 4 && Built(lowest, queue, mult, n)
    ensures Found(p, seeds, codes, n)
    ensures |counts| == |seeds| && forall i :: 0 <= i < |seeds| ==> 1 <= counts[i] <= Fact(n)
    ensures counts == SeedClasses(seeds, n)
    ensures numGreyCodes == Tally(seeds, counts)
  {
    var swaps := BuildMaskQueue(n, FixedDigits(p));
    seeds, codes := CalculateCodesWithSetStart(n, p, lowest, swaps);
    forall i | 0 <= i < |seeds|
      ensures |seeds[i]| == Pow2(n) && IsDigits(seeds[i], n) && UsesAllDigits(seeds[i], n)
    {
      assert IsGrayCycle(codes[i], n);
      LogsDigits(codes[i], n);
      FlipsEveryBit(codes[i], n);
      assert codes[i][..Pow2(n)] == codes[i];
    }
    BuiltQueueDigits(n);
    numGreyCodes, counts := ExtrapolateSeeds(seeds, n, queue, mult);
  }

  /**
   * Joining one search: its seed count and its tally are added to the totals,
   * and its list goes in front of the lists of the searches joined before.
   */
  method JoinSearch(n: nat, ps: seq<Partition>, k: nat, lowest: array<nat>, queue: array<(nat, nat)>, mult: array<nat>,
                    totalNumSeeds0: nat, totalNumGreyCodes0: nat,
                    ghost lists0: seq<seq<seq<nat>>>, ghost codes0: seq<seq<seq<nat>>>, ghost counts0: seq<seq<nat>>)
    returns (totalNumSeeds: nat, totalNumGreyCodes: nat,
             ghost lists: seq<seq<seq<nat>>>, ghost codes: seq<seq<seq<nat>>>, ghost counts: seq<seq<nat>>)
    requires n >= 4 && Built(lowest, queue, mult, n)
    requires k < |ps| && Joined(ps[k + 1..], lists0, codes0, counts0, totalNumSeeds0, totalNumGreyCodes0, n)
    ensures Joined(ps[k..], lists, codes, counts, totalNumSeeds, totalNumGreyCodes, n)
  {
    var seeds, num, cs, cnt := SearchPartition(n, ps[k], lowest, queue, mult);
    totalNumSeeds := totalNumSeeds0 + |seeds|;
    totalNumGreyCodes := totalNumGreyCodes0 + num;
    JoinedCons(ps, k, seeds, cs, cnt, lists0, codes0, counts0, totalNumSeeds0, totalNumGreyCodes0, num, n);
    lists, codes, counts := [seeds] + lists0, [cs] + codes0, [cnt] + counts0;
  }

  /** The results of the search of ps[k] in front of those of the searches after it. */
  lemma JoinedCons(ps: seq<Partition>, k: nat, seeds: seq<seq<nat>>, cs: seq<seq<nat>>, cnt: seq<nat>,
                   lists: seq<seq<seq<nat>>>, codes: seq<seq<seq<nat>>>, counts: seq<seq<nat>>,
                   totalNumSeeds: nat, totalNumGreyCodes: nat, num: nat, n: nat)
    requires n >= 4 && k < |ps| && Joined(ps[k + 1..], lists, codes, counts, totalNumSeeds, totalNumGreyCodes, n)
    requires Found(ps[k], seeds, cs, n) && |cnt| == |seeds| && forall i :: 0 <= i < |seeds| ==> 1 <= cnt[i] <= Fact(n)
    requires cnt == SeedClasses(seeds, n) && num == Tally(seeds, cnt)
    ensures Joined(ps[k..], [seeds] + lists, [cs] + codes, [cnt] + counts, totalNumSeeds + |seeds|, totalNumGreyCodes + num, n)
  {
    SeedListsCons(ps, k, seeds, cs, lists, codes, n);
    CountedCons(seeds, cnt, lists, counts, n);
    ClassCountsCons(seeds, lists, n);
  }

  /**
   * The main program's stages 1 to 3: the lowest code, the swap queue over
   * all n digits and the rotation table are built; the five searches run;
   * the seed total is the sum of the list sizes and the code total the sum
   * of every list's tally.  The searches are taken from the last to the
   * first, as the program joins its threads.
   */
  method SearchAll(n: nat)
    returns (totalNumSeeds: nat, totalNumGreyCodes: nat,
             ghost lists: seq<seq<seq<nat>>>, ghost codes: seq<seq<seq<nat>>>, ghost counts: seq<seq<nat>>)
    requires n >= 4
    ensures SeedLists(Partitions, lists, codes, n) && Counted(lists, counts, n) && counts == ClassCounts(lists, n)
    ensures totalNumSeeds == SeedTotal(lists)
    ensures totalNumGreyCodes == CodeTotal(lists, counts, n)
    ensures totalNumSeeds * (Pow2(n) / 2) <= totalNumGreyCodes <= totalNumSeeds * (Fact(n) * Pow2(n))
  {
    var lowest := BuildLowest(n);
    var queue := BuildQueue(n);
    var mult := BuildMultiples(n);
    totalNumSeeds, totalNumGreyCodes, lists, codes, counts := JoinAll(n, Partitions, lowest, queue, mult);
    SeedLengths(Partitions, lists, codes, n);
    CodeTotalBounds(lists, counts, n);
  }

  /** The join loop of main: the search of every partition in ps, from the last to the first. */
  method JoinAll(n: nat, ps: seq<Partition>, lowest: array<nat>, queue: array<(nat, nat)>, mult: array<nat>)
    returns (totalNumSeeds: nat, totalNumGreyCodes: nat,
             ghost lists: seq<seq<seq<nat>>>, ghost codes: seq<seq<seq<nat>>>, ghost counts: seq<seq<nat>>)
    requires n >= 4 && Built(lowest, queue, mult, n)
    ensures SeedLists(ps, lists, codes, n) && Counted(lists, counts, n) && counts == ClassCounts(lists, n)
    ensures totalNumSeeds == SeedTotal(lists)
    ensures totalNumGreyCodes == CodeTotal(lists, counts, n)
  {
    totalNumSeeds, totalNumGreyCodes := 0, 0;
    lists, codes, counts := [], [], [];
    var k := |ps|;
    while k > 0
      invariant 0 <= k <= |ps|
      invariant Joined(ps[k..], lists, codes, counts, totalNumSeeds, totalNumGreyCodes, n)
    {
      k := k - 1;
      totalNumSeeds, totalNumGreyCodes, lists, codes, counts :=
        JoinSearch(n, ps, k, lowest, queue, mult, totalNumSeeds, totalNumGreyCodes, lists, codes, counts);
    }
    assert ps[k..] == ps;
  }
}
