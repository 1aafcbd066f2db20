/**
 * The seed extraction of the second SeedSearch program.  All codes of the
 * input start with the steps 0,1,0,2, and their first step doubles as a
 * removal mark (0 kept, 1 marked).  The list is sorted on the steps from 4 on.
 * Each round takes the first unmarked code as a seed, walks every relabelling
 * of the seed written out twice, finds each rotation that starts with
 * 0,1,0,2, and marks the list entry with that rotation's steps.  Marked
 * entries are dropped from time to time by compacting the list in place.
 */
module SeedSearch {
  import opened Bits
  import opened Numerals
  import opened PermQueue
  import opened SortedSearch
  import opened Chimera

  // ----- The swap queue: n! - 1 swaps written from index 0

  /**
   * addQueueSwaps of this program: the same recursion as the chimera's, but
   * with no case for fewer than two labels, so it must be called with n >= 2.
   */
  method AddQueueSwaps(n: nat, from: nat, queue: array<(nat, nat)>, ind: seq<nat>) returns (added: nat)
    requires n >= 2 && |ind| == n && from + Fact(n) - 1 <= queue.Length
    modifies queue
    ensures added == Fact(n) - 1
    ensures queue[..] == old(queue[..])[..from] + Q(ind) + old(queue[..])[from + added..]
    decreases n, 1
  {
    if n == 2 {
      ghost var q0 := queue[..];
      queue[from] := (ind[0], ind[1]);
      assert queue[..] == q0[from := (ind[0], ind[1])];
      SpliceWrite(q0, [], (ind[0], ind[1]), from, q0);
      return 1;
    }
    ghost var done;
    var cur, rec;
    cur, rec, done := AddBlocks(n, from, queue, ind);
    QLength(rec);
    ghost var q0 := queue[..];
    var a := AddQueueSwaps(n - 1, cur, queue, rec);
    SpliceLast(old(queue[..]), done, Q(rec), from, cur, q0, queue[..]);
    cur := cur + a;
    added := cur - from;
  }

  /**
   * The loop of addQueueSwaps: for i from n - 1 down to 1, the swaps for the
   * labels rec and the swap (ind[i], ind[i - 1]); what is left of Q(ind) is
   * the swaps of the final recursive call on the returned rec.
   */
  method AddBlocks(n: nat, from: nat, queue: array<(nat, nat)>, ind: seq<nat>)
    returns (cur: nat, rec: seq<nat>, ghost done: seq<(nat, nat)>)
    requires n >= 3 && |ind| == n && from + Fact(n) - 1 <= queue.Length
    modifies queue
    ensures |rec| == n - 1 && done + Q(rec) == Q(ind)
    ensures cur == from + |done| && cur + Fact(n - 1) - 1 == from + Fact(n) - 1
    ensures queue[..] == old(queue[..])[..from] + done + old(queue[..])[cur..]
    decreases n, 0
  {
    cur := from;
    rec := ind[..n - 1];
    var i := n - 1;
    ghost var end := from + Fact(n) - 1;
    ghost var orig := queue[..];
    done := [];
    QLength(ind);
    assert Q(ind) == Blocks(ind, n - 1, rec);
    assert queue[..] == orig[..from] + done + orig[cur..];
    while i > 0
      invariant 0 <= i <= n - 1 && |rec| == n - 1 && from <= cur <= end
      invariant |done| == cur - from && cur + |Blocks(ind, i, rec)| == end
      invariant done + Blocks(ind, i, rec) == Q(ind)
      invariant queue[..] == orig[..from] + done + orig[cur..]
    {
      BlocksStep(ind, i, rec, done);
      ghost var q0 := queue[..];
      var a := AddBlock(n - 1, cur, queue, rec, ind[i], ind[i - 1]);
      SpliceLast(orig, done, Q(rec) + [(ind[i], ind[i - 1])], from, cur, q0, queue[..]);
      done := done + (Q(rec) + [(ind[i], ind[i - 1])]);
      cur := cur + a + 1;
      rec := rec[i - 1 := ind[i]];
      i := i - 1;
    }
    assert Blocks(ind, 0, rec) == Q(rec);
    QLength(rec);
  }

  /** One pass of the loop: the swaps for rec, then the swap (x, y). */
  method AddBlock(m: nat, cur: nat, queue: array<(nat, nat)>, rec: seq<nat>, x: nat, y: nat) returns (a: nat)
    requires m >= 2 && |rec| == m && cur + Fact(m) <= queue.Length
    modifies queue
    ensures a == Fact(m) - 1
    ensures queue[..] == old(queue[..])[..cur] + (Q(rec) + [(x, y)]) + old(queue[..])[cur + a + 1..]
    decreases m, 2
  {
    ghost var q0 := queue[..];
    a := AddQueueSwaps(m, cur, queue, rec);
    QLength(rec);
    ghost var q1 := queue[..];
    queue[cur + a] := (x, y);
    assert queue[..] == q1[cur + a := (x, y)];
    SpliceWrite(q0, Q(rec), (x, y), cur, q1);
  }

  /** The queue of main: n! - 1 swaps of the digits 0 .. n-1, none of them a dummy. */
  method BuildSwapQueue(n: nat) returns (queue: array<(nat, nat)>)
    requires n >= 2
    ensures fresh(queue) && queue.Length == Fact(n) - 1 && queue[..] == Q(Labels(n))
  {
    var queueSize := Factorial(n);
    queueSize := queueSize - 1;
    queue := new (nat, nat)[queueSize](_ => (0, 0));
    var added := AddQueueSwaps(n, 0, queue, Labels(n));
    assert queue[..] == Q(Labels(n)) + [] by {
      QLength(Labels(n));
    }
  }

  // ----- Marks

  /** Every entry has len steps. */
  predicate AllLen(list: seq<seq<nat>>, len: nat)
  {
    forall i :: 0 <= i < |list| ==> |list[i]| == len
  }

  /** An entry of the list: len steps, starting 0,1,0,2 up to the mark in step 0. */
  predicate Shaped(s: seq<nat>, len: nat)
  {
    |s| == len && len >= 4 && s[0] <= 1 && s[1] == 1 && s[2] == 0 && s[3] == 2
  }

  /** Marks the entry when its steps from 4 on are among the keys K. */
  function Mark(s: seq<nat>, K: set<seq<nat>>, len: nat): (r: seq<nat>)
    requires 4 <= len == |s|
    ensures |r| == |s| && r[1..] == s[1..] && r[4..len] == s[4..len]
    ensures r[0] == (if s[4..len] in K then 1 else s[0])
  {
    if s[4..len] in K then s[0 := 1] else s
  }

  /** Every entry marked by the keys K. */
  function MarkAll(list: seq<seq<nat>>, K: set<seq<nat>>, len: nat): (r: seq<seq<nat>>)
    requires 4 <= len && AllLen(list, len)
    ensures |r| == |list| && AllLen(r, len)
    ensures forall i :: 0 <= i < |list| ==> r[i] == Mark(list[i], K, len)
  {
    seq(|list|, i requires 0 <= i < |list| => Mark(list[i], K, len))
  }

  /** Marking keeps the keys, so the list stays sorted. */
  lemma MarkAllSorted(list: seq<seq<nat>>, K: set<seq<nat>>, len: nat)
    requires 4 <= len && SortedKeys(list, 4, len)
    ensures SortedKeys(MarkAll(list, K, len), 4, len)
  {
    var r := MarkAll(list, K, len);
    assert forall i :: 0 <= i < |list| ==> Key(r[i], 4, len) == Key(list[i], 4, len);
  }

  /** Marked or not, entries keep the shape 0,1,0,2 with a mark in step 0. */
  lemma MarkAllShaped(list: seq<seq<nat>>, K: set<seq<nat>>, len: nat)
    requires 4 <= len && AllLen(list, len) && forall i :: 0 <= i < |list| ==> Shaped(list[i], len)
    ensures forall i :: 0 <= i < |list| ==> Shaped(MarkAll(list, K, len)[i], len)
  {
    forall i | 0 <= i < |list|
      ensures Shaped(MarkAll(list, K, len)[i], len)
    {
      var r := MarkAll(list, K, len)[i];
      assert r[1..] == list[i][1..];
      assert r[1] == r[1..][0] && r[2] == r[1..][1] && r[3] == r[1..][2];
    }
  }

  /** Marking with K1 and then with K2 is marking with both. */
  lemma MarkAllCompose(list: seq<seq<nat>>, K1: set<seq<nat>>, K2: set<seq<nat>>, len: nat)
    requires 4 <= len && AllLen(list, len)
    ensures MarkAll(MarkAll(list, K1, len), K2, len) == MarkAll(list, K1 + K2, len)
  {
    var a := MarkAll(MarkAll(list, K1, len), K2, len);
    var b := MarkAll(list, K1 + K2, len);
    assert forall i :: 0 <= i < |list| ==> a[i] == b[i];
  }

  /** The unmarked entries, in list order. */
  function Unmarked(list: seq<seq<nat>>, len: nat): (r: seq<seq<nat>>)
    requires 4 <= len && AllLen(list, len)
    ensures |r| <= |list| && AllLen(r, len) && forall i :: 0 <= i < |r| ==> r[i][0] == 0
  {
    if |list| == 0 then []
    else (if list[0][0] == 0 then [list[0]] else []) + Unmarked(list[1..], len)
  }

  /** The entries whose key is not among K, in list order. */
  function Filter(list: seq<seq<nat>>, K: set<seq<nat>>, len: nat): (r: seq<seq<nat>>)
    requires 4 <= len && AllLen(list, len)
    ensures |r| <= |list| && AllLen(r, len) && forall i :: 0 <= i < |r| ==> r[i][4..len] !in K
  {
    if |list| == 0 then []
    else (if list[0][4..len] !in K then [list[0]] else []) + Filter(list[1..], K, len)
  }

  /** Taking the unmarked entries of two lists one after the other. */
  lemma {:induction false} UnmarkedAppend(a: seq<seq<nat>>, b: seq<seq<nat>>, len: nat)
    requires 4 <= len && AllLen(a, len) && AllLen(b, len)
    ensures Unmarked(a + b, len) == Unmarked(a, len) + Unmarked(b, len)
    decreases |a|
  {
    if |a| == 0 {
      assert a + b == b;
    } else {
      assert (a + b)[0] == a[0];
      assert (a + b)[1..] == a[1..] + b;
      UnmarkedAppend(a[1..], b, len);
    }
  }

  /** The unmarked entries after marking with K: those unmarked before whose key is not in K. */
  lemma {:induction false} UnmarkedMarkAll(list: seq<seq<nat>>, K: set<seq<nat>>, len: nat)
    requires 4 <= len && AllLen(list, len)
    ensures Unmarked(MarkAll(list, K, len), len) == Filter(Unmarked(list, len), K, len)
    decreases |list|
  {
    if |list| > 0 {
      var m := MarkAll(list, K, len);
      assert m[0] == Mark(list[0], K, len);
      assert m[1..] == MarkAll(list[1..], K, len);
      UnmarkedMarkAll(list[1..], K, len);
      var u := Unmarked(list, len);
      if list[0][0] == 0 {
        assert u == [list[0]] + Unmarked(list[1..], len);
        assert u[0] == list[0] && u[1..] == Unmarked(list[1..], len);
      } else {
        assert u == Unmarked(list[1..], len);
      }
    }
  }

  /** Unmarked entries are all unmarked: taking them again changes nothing. */
  lemma {:induction false} UnmarkedIdempotent(list: seq<seq<nat>>, len: nat)
    requires 4 <= len && AllLen(list, len)
    ensures Unmarked(Unmarked(list, len), len) == Unmarked(list, len)
    decreases |list|
  {
    if |list| > 0 {
      UnmarkedIdempotent(list[1..], len);
      var u := Unmarked(list, len);
      if list[0][0] == 0 {
        assert u == [list[0]] + Unmarked(list[1..], len);
        assert u[0] == list[0] && u[1..] == Unmarked(list[1..], len);
      } else {
        assert u == Unmarked(list[1..], len);
      }
    }
  }

  // ----- markForRemoval as written and as intended

  /**
   * The indices markForRemoval compares with, as written: the search interval
   * is [low, high] inclusive with the midpoint low + (high - low) / 2, and it
   * moves right when the entry's key is the smaller one.  An index outside
   * the list is recorded and ends the walk (the program would read past the
   * list there).
   */
  function Probes(keys: seq<seq<nat>>, key: seq<nat>, from: nat, len: nat, low: int, high: int): seq<int>
    requires from <= len <= |key| && forall i :: 0 <= i < |keys| ==> len <= |keys[i]|
    decreases high - low
  {
    if low > high then []
    else
      var mid := low + (high - low) / 2;
      if mid < 0 || mid >= |keys| then [mid]
      else if Key(keys[mid], from, len) == Key(key, from, len) then [mid]
      else if LexLess(Key(keys[mid], from, len), Key(key, from, len)) then [mid] + Probes(keys, key, from, len, mid + 1, high)
      else [mid] + Probes(keys, key, from, len, low, mid - 1)
  }

  /**
   * The program calls markForRemoval with the list size as the inclusive high
   * index.  For a one-entry list whose key is below the searched one, the
   * second index compared is 1, one past the list.
   */
  lemma ProbesPastEnd()
    ensures Probes([[0, 1, 0, 2, 0, 1, 0, 2]], [0, 1, 0, 2, 1, 0, 1, 2], 4, 8, 0, 1) == [0, 1]
  {
    var keys: seq<seq<nat>> := [[0, 1, 0, 2, 0, 1, 0, 2]];
    var key: seq<nat> := [0, 1, 0, 2, 1, 0, 1, 2];
    assert Key(keys[0], 4, 8) == [0, 1, 0, 2] && Key(key, 4, 8) == [1, 0, 1, 2];
    assert LexLess([0, 1, 0, 2], [1, 0, 1, 2]);
  }

  /** With the high index inside the list, every compared index lies in [low, high]. */
  lemma {:induction false} ProbesWithin(keys: seq<seq<nat>>, key: seq<nat>, from: nat, len: nat, low: int, high: int)
    requires from <= len <= |key| && forall i :: 0 <= i < |keys| ==> len <= |keys[i]|
    requires 0 <= low && high < |keys|
    ensures forall k :: 0 <= k < |Probes(keys, key, from, len, low, high)| ==>
      low <= Probes(keys, key, from, len, low, high)[k] <= high
    decreases high - low
  {
    if low <= high {
      var mid := low + (high - low) / 2;
      if Key(keys[mid], from, len) != Key(key, from, len) {
        if LexLess(Key(keys[mid], from, len), Key(key, from, len)) {
          ProbesWithin(keys, key, from, len, mid + 1, high);
        } else {
          ProbesWithin(keys, key, from, len, low, mid - 1);
        }
      }
    }
  }

  /**
   * markForRemoval with the high index size - 1: the one entry of the first
   * size whose steps from 4 on are those of seqToMark gets the mark; the
   * count of calls goes up by one whether or not an entry was found.
   */
  method MarkForRemoval(seqs: array<seq<nat>>, size: nat, seqToMark: seq<nat>, n: nat, marked0: nat)
    returns (marked: nat)
    requires n >= 3 && |seqToMark| == Pow2(n) && size <= seqs.Length && SortedKeys(seqs[..size], 4, Pow2(n))
    modifies seqs
    ensures marked == marked0 + 1
    ensures seqs[..] == MarkAll(old(seqs[..size]), {Key(seqToMark, 4, Pow2(n))}, Pow2(n)) + old(seqs[size..])
  {
    marked := marked0 + 1;
    Pow2AtLeast8(n);
    ghost var S := seqs[..size];
    ghost var R := seqs[size..];
    ghost var K := Key(seqToMark, 4, Pow2(n));
    assert seqs[..] == S + R;
    var found, mid := Search(seqs, size - 1, seqToMark, 4, Pow2(n));
    assert seqs[..size - 1 + 1] == S;
    if found {
      forall i | 0 <= i < size && Key(S[i], 4, Pow2(n)) == K
        ensures i == mid
      {
        KeyUnique(S, 4, Pow2(n), i, mid);
      }
      MarkOnly(S, K, Pow2(n), mid);
      seqs[mid] := seqs[mid][0 := 1];
      assert seqs[..] == S[mid := S[mid][0 := 1]] + R;
    } else {
      MarkNone(S, K, Pow2(n));
    }
  }

  /** Marking with one key that only entry mid has marks that entry alone. */
  lemma MarkOnly(S: seq<seq<nat>>, K: seq<nat>, len: nat, mid: nat)
    requires 4 <= len && AllLen(S, len) && mid < |S| && Key(S[mid], 4, len) == K
    requires forall i :: 0 <= i < |S| && Key(S[i], 4, len) == K ==> i == mid
    ensures MarkAll(S, {K}, len) == S[mid := S[mid][0 := 1]]
  {
    var r := MarkAll(S, {K}, len);
    var T := S[mid := S[mid][0 := 1]];
    forall i | 0 <= i < |S|
      ensures r[i] == T[i]
    {
      MarkOne(S[i], K, len, i == mid);
    }
  }

  /** One entry marked with the single key K: marked exactly when it has that key. */
  lemma MarkOne(s: seq<nat>, K: seq<nat>, len: nat, has: bool)
    requires 4 <= len == |s| && (Key(s, 4, len) == K <==> has)
    ensures Mark(s, {K}, len) == if has then s[0 := 1] else s
  {
    assert Key(s, 4, len) == s[4..len];
  }

  /** Marking with a key no entry has changes nothing. */
  lemma MarkNone(S: seq<seq<nat>>, K: seq<nat>, len: nat)
    requires 4 <= len && AllLen(S, len)
    requires forall i :: 0 <= i < |S| ==> Key(S[i], 4, len) != K
    ensures MarkAll(S, {K}, len) == S
  {
    var r := MarkAll(S, {K}, len);
    forall i | 0 <= i < |S|
      ensures r[i] == S[i]
    {
      assert Key(S[i], 4, len) == S[i][4..len];
    }
  }

  lemma Pow2AtLeast8(n: nat)
    requires n >= 3
    ensures Pow2(n) >= 8
  {
    if n > 3 {
      Pow2AtLeast8(n - 1);
    }
  }

  // ----- The scan of rotations for the start 0,1,0,2

  /** Steps z to z + 3 read 0, 1, 0, 2: a rotation starting at z has the fixed start. */
  predicate IsStart(local: seq<nat>, z: nat)
    requires z + 4 <= |local|
  {
    local[z] == 0 && local[z + 1] == 1 && local[z + 2] == 0 && local[z + 3] == 2
  }

  /**
   * Where the scan goes on from z: it checks step 0, then 1, 0, 2 ahead, and
   * moves to just past the first step that does not match, or past all four.
   */
  function Skip(local: seq<nat>, z: nat): (next: nat)
    requires z + 4 <= |local|
    ensures z < next <= z + 4
  {
    if local[z] != 0 then z + 1
    else if local[z + 1] != 1 then z + 2
    else if local[z + 2] != 0 then z + 3
    else z + 4
  }

  /** The starts the scan finds from z on, in increasing order. */
  function ScanStarts(local: seq<nat>, len: nat, z: nat): (r: seq<nat>)
    requires len + 3 <= |local|
    ensures forall k :: 0 <= k < |r| ==> z <= r[k] < len && IsStart(local, r[k])
    decreases len - z
  {
    if z >= len then []
    else if IsStart(local, z) then [z] + ScanStarts(local, len, Skip(local, z))
    else ScanStarts(local, len, Skip(local, z))
  }

  /** The step at i differs from the next one, and the four steps from i are not 0,1,0,1. */
  predicate SafeAt(local: seq<nat>, i: nat)
    requires i + 4 <= |local|
  {
    local[i] != local[i + 1] && !(local[i] == 0 && local[i + 1] == 1 && local[i + 2] == 0 && local[i + 3] == 1)
  }

  /** No step repeats the one before it and no window reads 0,1,0,1, from z to len - 1. */
  predicate ScanSafe(local: seq<nat>, len: nat, z: nat)
    requires len + 3 <= |local|
  {
    forall i :: z <= i < len ==> SafeAt(local, i)
  }

  /** Under SafeAt, no start lies strictly between z and where the scan goes on. */
  lemma SkipSafe(local: seq<nat>, z: nat, y: nat)
    requires z + 4 <= |local| && z < y < Skip(local, z) && y + 4 <= |local|
    requires SafeAt(local, z) && (y == z + 3 ==> SafeAt(local, z + 2))
    ensures !IsStart(local, y)
  {
  }

  /**
   * On a sequence where no step repeats and no 0,1,0,1 occurs (as in a
   * Gray code written out twice), the skips lose nothing: every start y from
   * z on is found.
   */
  lemma {:induction false} ScanFinds(local: seq<nat>, len: nat, z: nat, y: nat)
    requires len + 3 <= |local| && z <= y < len && IsStart(local, y)
    requires ScanSafe(local, len, z)
    ensures y in ScanStarts(local, len, z)
    decreases len - z
  {
    if y != z {
      var next := Skip(local, z);
      if y < next {
        assert SafeAt(local, z);
        if y == z + 3 {
          assert SafeAt(local, z + 2);
        }
        SkipSafe(local, z, y);
      } else {
        ScanFinds(local, len, next, y);
      }
    }
  }

  /** The keys of the rotations starting at the given starts: steps 4 to len - 1 of each. */
  function StartKeys(local: seq<nat>, len: nat, starts: seq<nat>): set<seq<nat>>
    requires 4 <= len && |local| == 2 * len && forall k :: 0 <= k < |starts| ==> starts[k] < len
  {
    set k | 0 <= k < |starts| :: local[starts[k] + 4..starts[k] + len]
  }

  /** The keys one scan of local marks. */
  function ScanKeys(local: seq<nat>, len: nat): set<seq<nat>>
    requires 4 <= len && |local| == 2 * len
  {
    StartKeys(local, len, ScanStarts(local, len, 0))
  }

  /**
   * One scan of localSequence: each rotation start found is passed to
   * markForRemoval, so the list is marked with the scan's keys and the count
   * of calls goes up by the number of starts.
   */
  method ScanRotations(local: array<nat>, seqs: array<seq<nat>>, size: nat, n: nat, marked0: nat)
    returns (marked: nat)
    requires n >= 3 && local.Length == 2 * Pow2(n) && size <= seqs.Length && SortedKeys(seqs[..size], 4, Pow2(n))
    modifies seqs
    ensures seqs[..] == MarkAll(old(seqs[..size]), ScanKeys(local[..], Pow2(n)), Pow2(n)) + old(seqs[size..])
    ensures marked == marked0 + |ScanStarts(local[..], Pow2(n), 0)|
  {
    var len := Pow2(n);
    Pow2AtLeast8(n);
    ghost var L := local[..];
    ghost var S0 := seqs[..size];
    ghost var R0 := seqs[size..];
    ghost var done: seq<nat> := [];
    assert seqs[..] == MarkAll(S0, {}, len) + R0 by {
      assert MarkAll(S0, {}, len) == S0;
    }
    var zero := 0;
    marked := marked0;
    while zero < len
      invariant local[..] == L
      invariant ScanStarts(L, len, 0) == done + ScanStarts(L, len, zero)
      invariant forall k :: 0 <= k < |done| ==> done[k] < len
      invariant seqs[..] == MarkAll(S0, StartKeys(L, len, done), len) + R0
      invariant marked == marked0 + |done|
    {
      ghost var done' := if IsStart(L, zero) then done + [zero] else done;
      ScanPrefix(L, len, done, zero);
      zero, marked := ScanAt(local, seqs, size, n, zero, marked, S0, R0, done);
      done := done';
    }
    assert ScanStarts(L, len, zero) == [];
    assert done == ScanStarts(L, len, 0);
    assert ScanKeys(L, len) == StartKeys(L, len, done);
  }

  /** The starts found so far, followed by the starts still to come, make up the whole scan. */
  lemma ScanPrefix(L: seq<nat>, len: nat, done: seq<nat>, zero: nat)
    requires len + 3 <= |L| && zero < len && ScanStarts(L, len, 0) == done + ScanStarts(L, len, zero)
    ensures ScanStarts(L, len, 0) == (if IsStart(L, zero) then done + [zero] else done) + ScanStarts(L, len, Skip(L, zero))
  {
  }

  /** One position of the scan: the feelers test 0, 1, 0, 2 and a full match is marked. */
  method ScanAt(local: array<nat>, seqs: array<seq<nat>>, size: nat, n: nat, zero: nat, marked0: nat,
                ghost S0: seq<seq<nat>>, ghost R0: seq<seq<nat>>, ghost done: seq<nat>)
    returns (next: nat, marked: nat)
    requires n >= 3 && local.Length == 2 * Pow2(n) && zero < Pow2(n) && size == |S0| && SortedKeys(S0, 4, Pow2(n))
    requires forall k :: 0 <= k < |done| ==> done[k] < Pow2(n)
    requires seqs[..] == MarkAll(S0, StartKeys(local[..], Pow2(n), done), Pow2(n)) + R0
    modifies seqs
    ensures next == Skip(local[..], zero)
    ensures IsStart(local[..], zero) ==>
      marked == marked0 + 1 && seqs[..] == MarkAll(S0, StartKeys(local[..], Pow2(n), done + [zero]), Pow2(n)) + R0
    ensures !IsStart(local[..], zero) ==> marked == marked0 && seqs[..] == old(seqs[..])
  {
    Pow2AtLeast8(n);
    var len := Pow2(n);
    marked := marked0;
    var feeler := zero;
    if local[feeler] == 0 {
      feeler := feeler + 1;
      if local[feeler] == 1 {
        feeler := feeler + 1;
        if local[feeler] == 0 {
          feeler := feeler + 1;
          if local[feeler] == 2 {
            MarkStep(S0, R0, local[..], len, done, zero, seqs[..]);
            marked := MarkForRemoval(seqs, size, local[zero..zero + len], n, marked);
          }
        }
      }
    }
    next := feeler + 1;
  }

  /** Before a call of markForRemoval in the scan: the list is sorted, and one more key extends the marks. */
  lemma MarkStep(S0: seq<seq<nat>>, R0: seq<seq<nat>>, L: seq<nat>, len: nat, done: seq<nat>, z: nat, cur: seq<seq<nat>>)
    requires 4 <= len && |L| == 2 * len && z < len && SortedKeys(S0, 4, len)
    requires forall k :: 0 <= k < |done| ==> done[k] < len
    requires cur == MarkAll(S0, StartKeys(L, len, done), len) + R0
    ensures cur[..|S0|] == MarkAll(S0, StartKeys(L, len, done), len) && cur[|S0|..] == R0
    ensures SortedKeys(cur[..|S0|], 4, len)
    ensures MarkAll(cur[..|S0|], {Key(L[z..z + len], 4, len)}, len) == MarkAll(S0, StartKeys(L, len, done + [z]), len)
  {
    var K := StartKeys(L, len, done);
    var M := MarkAll(S0, K, len);
    assert cur[..|S0|] == M && cur[|S0|..] == R0;
    MarkAllSorted(S0, K, len);
    MarkAllCompose(S0, K, {Key(L[z..z + len], 4, len)}, len);
    StartKeysSnoc(L, len, done, z);
  }

  lemma StartKeysSnoc(L: seq<nat>, len: nat, done: seq<nat>, z: nat)
    requires 4 <= len && |L| == 2 * len && z < len && forall k :: 0 <= k < |done| ==> done[k] < len
    ensures StartKeys(L, len, done + [z]) == StartKeys(L, len, done) + {Key(L[z..z + len], 4, len)}
  {
    var done' := done + [z];
    assert L[z..z + len][4..len] == L[z + 4..z + len];
    assert forall k :: 0 <= k < |done| ==> done'[k] == done[k];
    assert done'[|done|] == z;
  }

  /** Splitting the marked list back into the part searched and the rest; the marked part stays sorted. */
  lemma PrefixSorted(S0: seq<seq<nat>>, R0: seq<seq<nat>>, K: set<seq<nat>>, len: nat, cur: seq<seq<nat>>)
    requires 4 <= len && SortedKeys(S0, 4, len) && cur == MarkAll(S0, K, len) + R0
    ensures cur[..|S0|] == MarkAll(S0, K, len) && SortedKeys(cur[..|S0|], 4, len)
  {
    assert cur[..|S0|] == MarkAll(S0, K, len);
    MarkAllSorted(S0, K, len);
  }

  // ----- One round: every relabelling of the seed, every rotation with the fixed start

  /**
   * The keys a round marks from the doubled sequence local on, with the swaps
   * qs still to do: a scan of local, then a swap and a scan for each swap.
   */
  function RoundKeys(local: seq<nat>, qs: seq<(nat, nat)>, len: nat): set<seq<nat>>
    requires 4 <= len && |local| == 2 * len
    decreases |qs|
  {
    ScanKeys(local, len) + (if |qs| == 0 then {} else RoundKeys(Swap(local, qs[0].0, qs[0].1), qs[1..], len))
  }

  /** The number of markForRemoval calls of that round. */
  function RoundCount(local: seq<nat>, qs: seq<(nat, nat)>, len: nat): nat
    requires 4 <= len && |local| == 2 * len
    decreases |qs|
  {
    |ScanStarts(local, len, 0)| + (if |qs| == 0 then 0 else RoundCount(Swap(local, qs[0].0, qs[0].1), qs[1..], len))
  }

  /**
   * One round of the culling stage: the seed is written out twice, scanned,
   * and relabelled by each swap of the queue in turn and scanned again.  The
   * list is marked with the round's keys and the count goes up by the number
   * of markForRemoval calls.
   */
  method Round(seed: seq<nat>, swaps: array<(nat, nat)>, seqs: array<seq<nat>>, size: nat, n: nat, marked0: nat)
    returns (marked: nat)
    requires n >= 3 && |seed| == Pow2(n) && size <= seqs.Length && SortedKeys(seqs[..size], 4, Pow2(n))
    modifies seqs
    ensures seqs[..] == MarkAll(old(seqs[..size]), RoundKeys(seed + seed, swaps[..], Pow2(n)), Pow2(n)) + old(seqs[size..])
    ensures marked == marked0 + RoundCount(seed + seed, swaps[..], Pow2(n))
  {
    var len := Pow2(n);
    Pow2AtLeast8(n);
    var local := Doubled(seed);
    ghost var S0 := seqs[..size];
    ghost var R0 := seqs[size..];
    ghost var qs := swaps[..];
    marked := ScanRotations(local, seqs, size, n, marked0);
    ghost var K := ScanKeys(local[..], len);
    assert qs[0..] == qs;
    var j := 0;
    while j < swaps.Length
      invariant j <= swaps.Length && local.Length == 2 * len
      invariant seqs[..] == MarkAll(S0, K, len) + R0
      invariant ScanKeys(local[..], len) <= K
      invariant RoundKeys(seed + seed, qs, len) == K + RoundKeys(local[..], qs[j..], len)
      invariant marked + RoundCount(local[..], qs[j..], len) == marked0 + RoundCount(seed + seed, qs, len) + |ScanStarts(local[..], len, 0)|
    {
      ghost var before := local[..];
      RoundStep(before, qs, j, len);
      marked := SwapAndScan(local, swaps[j], seqs, size, n, marked, S0, R0, K);
      K := K + ScanKeys(local[..], len);
      j := j + 1;
    }
    assert qs[j..] == [];
    assert RoundKeys(local[..], [], len) == ScanKeys(local[..], len);
    assert RoundKeys(seed + seed, qs, len) == K;
  }

  /** localSequence: the seed written out twice. */
  method Doubled(seed: seq<nat>) returns (local: array<nat>)
    ensures fresh(local) && local[..] == seed + seed
  {
    var len := |seed|;
    local := new nat[2 * len];
    forall i | 0 <= i < len {
      local[i] := seed[i];
    }
    forall i | len <= i < 2 * len {
      local[i] := seed[i - len];
    }
    assert local[..] == seed + seed;
  }

  /** One pass of the swap loop: relabel localSequence with the swap, then scan it. */
  method SwapAndScan(local: array<nat>, swap: (nat, nat), seqs: array<seq<nat>>, size: nat, n: nat, marked0: nat,
                     ghost S0: seq<seq<nat>>, ghost R0: seq<seq<nat>>, ghost K: set<seq<nat>>)
    returns (marked: nat)
    requires n >= 3 && local.Length == 2 * Pow2(n) && size == |S0| && SortedKeys(S0, 4, Pow2(n))
    requires seqs[..] == MarkAll(S0, K, Pow2(n)) + R0
    modifies local, seqs
    ensures local[..] == Swap(old(local[..]), swap.0, swap.1)
    ensures seqs[..] == MarkAll(S0, K + ScanKeys(local[..], Pow2(n)), Pow2(n)) + R0
    ensures marked == marked0 + |ScanStarts(local[..], Pow2(n), 0)|
  {
    var len := Pow2(n);
    Pow2AtLeast8(n);
    ghost var before := local[..];
    SwapLabels(local, swap.0, swap.1, 2 * len);
    assert local[..] == Swap(before, swap.0, swap.1) by {
      assert before[..2 * len] == before && before[2 * len..] == [];
    }
    PrefixSorted(S0, R0, K, len, seqs[..]);
    marked := ScanRotations(local, seqs, size, n, marked0);
    MarkAllCompose(S0, K, ScanKeys(local[..], len), len);
  }

  /** Unfolding a round by one swap. */
  lemma RoundStep(local: seq<nat>, qs: seq<(nat, nat)>, j: nat, len: nat)
    requires 4 <= len && |local| == 2 * len && j < |qs|
    ensures RoundKeys(local, qs[j..], len) == ScanKeys(local, len) + RoundKeys(Swap(local, qs[j].0, qs[j].1), qs[j + 1..], len)
    ensures RoundCount(local, qs[j..], len) == |ScanStarts(local, len, 0)| + RoundCount(Swap(local, qs[j].0, qs[j].1), qs[j + 1..], len)
  {
    assert qs[j..][0] == qs[j] && qs[j..][1..] == qs[j + 1..];
  }

  /**
   * A seed read from the list (unmarked, starting 0,1,0,2) is a rotation of
   * itself with that start: its own key is among the round's keys, and the
   * round calls markForRemoval at least once, so the count the program
   * divides by is not zero.
   */
  lemma RoundFindsSeed(seed: seq<nat>, qs: seq<(nat, nat)>, len: nat)
    requires Shaped(seed, len) && seed[0] == 0
    ensures Key(seed, 4, len) in RoundKeys(seed + seed, qs, len)
    ensures RoundCount(seed + seed, qs, len) >= 1
  {
    var L := seed + seed;
    assert IsStart(L, 0);
    var st := ScanStarts(L, len, 0);
    assert st == [0] + ScanStarts(L, len, Skip(L, 0));
    assert L[st[0] + 4..st[0] + len] == seed[4..len];
    assert Key(seed, 4, len) in ScanKeys(L, len);
  }

  // ----- Taking the next seed and compacting the list

  /** The loop that looks for the first unmarked entry (step 0 still 0). */
  method FindSeed(seqs: array<seq<nat>>, size: nat, len: nat) returns (found: bool, i: nat)
    requires 4 <= len && size <= seqs.Length && AllLen(seqs[..size], len)
    ensures found <==> Unmarked(seqs[..size], len) != []
    ensures found ==> i < size && seqs[i] == Unmarked(seqs[..size], len)[0]
  {
    ghost var S := seqs[..size];
    i := 0;
    while i < size
      invariant i <= size && Unmarked(S[..i], len) == []
    {
      UnmarkedAppend(S[..i], S[i..], len);
      assert S[..i] + S[i..] == S;
      if seqs[i][0] == 0 {
        assert S[i..][0] == S[i];
        return true, i;
      }
      UnmarkedAppend(S[..i], [S[i]], len);
      assert S[..i + 1] == S[..i] + [S[i]];
      i := i + 1;
    }
    assert S[..i] == S;
    return false, 0;
  }

  /**
   * The removal pass: openPtr and finderPtr walk the list, the unmarked
   * entries are copied down to openPtr in order, and the new size is where
   * openPtr stopped.  Slots from there on are not written.
   */
  method Compact(seqs: array<seq<nat>>, size: nat, len: nat) returns (newSize: nat)
    requires 4 <= len && size <= seqs.Length && AllLen(seqs[..size], len)
    modifies seqs
    ensures newSize == |Unmarked(old(seqs[..size]), len)|
    ensures seqs[..newSize] == Unmarked(old(seqs[..size]), len)
    ensures seqs[newSize..] == old(seqs[newSize..])
  {
    ghost var S0 := seqs[..];
    var open: nat, finder: nat := 0, 0;
    while finder < size
      invariant open <= finder <= size
      invariant seqs[..open] == Unmarked(S0[..finder], len)
      invariant seqs[open..] == S0[open..]
    {
      open := CompactStep(seqs, S0, size, len, open, finder);
      finder := finder + 1;
    }
    assert S0[..size] == old(seqs[..size]);
    newSize := open;
  }

  /** One pass of the removal loop: the entry at finder is kept if unmarked. */
  method CompactStep(seqs: array<seq<nat>>, ghost S0: seq<seq<nat>>, size: nat, len: nat, open: nat, finder: nat)
    returns (open': nat)
    requires 4 <= len && open <= finder < size <= seqs.Length == |S0| && AllLen(S0[..size], len)
    requires seqs[..open] == Unmarked(S0[..finder], len) && seqs[open..] == S0[open..]
    modifies seqs
    ensures open' <= finder + 1
    ensures seqs[..open'] == Unmarked(S0[..finder + 1], len) && seqs[open'..] == S0[open'..]
  {
    var x := seqs[finder];
    assert x == S0[finder] by {
      assert seqs[open..][finder - open] == S0[open..][finder - open];
    }
    UnmarkedAppend(S0[..finder], [x], len);
    assert S0[..finder + 1] == S0[..finder] + [x];
    ghost var one: seq<seq<nat>> := [x];
    assert one[1..] == [];
    ghost var before := seqs[..];
    open' := open;
    if x[0] == 0 {
      assert Unmarked([x], len) == [x];
      seqs[open] := x;
      open' := open + 1;
      assert seqs[..open'] == before[..open] + [x];
      assert seqs[open'..] == before[open'..];
    } else {
      assert Unmarked([x], len) == [];
    }
  }

  /** Every entry has the shape of a list entry. */
  predicate AllShaped(list: seq<seq<nat>>, len: nat)
  {
    forall i :: 0 <= i < |list| ==> Shaped(list[i], len)
  }

  /** The unmarked entries are entries of the list. */
  lemma {:induction false} UnmarkedIn(list: seq<seq<nat>>, len: nat)
    requires 4 <= len && AllLen(list, len)
    ensures forall x :: x in Unmarked(list, len) ==> x in list
    decreases |list|
  {
    if |list| > 0 {
      UnmarkedIn(list[1..], len);
      assert forall x :: x in list[1..] ==> x in list;
    }
  }

  /** A key below every key of a sorted list can go in front of it. */
  lemma SortedCons(h: seq<nat>, list: seq<seq<nat>>, len: nat)
    requires 4 <= len && |h| == len && SortedKeys(list, 4, len)
    requires forall x :: x in list ==> LexLess(Key(h, 4, len), Key(x, 4, len))
    ensures SortedKeys([h] + list, 4, len)
  {
    var r := [h] + list;
    forall i, j | 0 <= i < j < |r|
      ensures LexLess(Key(r[i], 4, len), Key(r[j], 4, len))
    {
      assert r[j] == list[j - 1];
      if i > 0 {
        assert r[i] == list[i - 1];
      }
    }
  }

  /** Dropping the marked entries keeps the list sorted. */
  lemma {:induction false} UnmarkedSorted(list: seq<seq<nat>>, len: nat)
    requires 4 <= len && SortedKeys(list, 4, len)
    ensures SortedKeys(Unmarked(list, len), 4, len)
    decreases |list|
  {
    if |list| > 0 {
      var t := list[1..];
      assert SortedKeys(t, 4, len) by {
        assert forall i :: 0 <= i < |t| ==> t[i] == list[i + 1];
      }
      UnmarkedSorted(t, len);
      if list[0][0] == 0 {
        UnmarkedIn(t, len);
        forall x | x in Unmarked(t, len)
          ensures LexLess(Key(list[0], 4, len), Key(x, 4, len))
        {
          var k :| 0 <= k < |t| && t[k] == x;
          assert list[k + 1] == x;
        }
        SortedCons(list[0], Unmarked(t, len), len);
      }
    }
  }

  /** Dropping the marked entries keeps the shape of every entry. */
  lemma UnmarkedShaped(list: seq<seq<nat>>, len: nat)
    requires 4 <= len && AllLen(list, len) && AllShaped(list, len)
    ensures AllShaped(Unmarked(list, len), len)
  {
    UnmarkedIn(list, len);
    var u := Unmarked(list, len);
    forall i | 0 <= i < |u|
      ensures Shaped(u[i], len)
    {
      assert u[i] in list;
    }
  }

  /**
   * The seeds the culling stage extracts from the unmarked list U, in order:
   * the first entry, then the seeds of what is left once every relabelled
   * rotation of it is dropped.
   */
  function CullSeeds(U: seq<seq<nat>>, qs: seq<(nat, nat)>, len: nat): (seeds: seq<seq<nat>>)
    requires 4 <= len && AllLen(U, len)
    ensures |seeds| <= |U| && AllLen(seeds, len)
    decreases |U|
  {
    if |U| == 0 then []
    else [U[0]] + CullSeeds(Filter(U[1..], RoundKeys(U[0] + U[0], qs, len), len), qs, len)
  }

  /**
   * STAGE 3 of the program.  While the list is not empty: take the first
   * unmarked entry as the next seed (stop if there is none), mark all its
   * relabelled rotations, and compact the list when the size divided by the
   * number of marks since the last compaction is at most 35.  The seeds are
   * CullSeeds of the unmarked entries.
   */
  method Cull(seqs: array<seq<nat>>, size0: nat, swaps: array<(nat, nat)>, n: nat)
    returns (seeds: seq<seq<nat>>, size: nat)
    requires n >= 3 && size0 <= seqs.Length && SortedKeys(seqs[..size0], 4, Pow2(n)) && AllShaped(seqs[..size0], Pow2(n))
    modifies seqs
    ensures seeds == CullSeeds(Unmarked(old(seqs[..size0]), Pow2(n)), swaps[..], Pow2(n))
  {
    var len := Pow2(n);
    Pow2AtLeast8(n);
    ghost var qs := swaps[..];
    ghost var U0 := Unmarked(seqs[..size0], len);
    size := size0;
    var numberMarkedForRemoval := 0;
    seeds := [];
    CullStart(seqs[..size], qs, len);
    while size > 0
      invariant size <= seqs.Length && CullInv(seqs[..size], seeds, U0, qs, len)
      decreases |Unmarked(seqs[..size], len)|
    {
      var done;
      done, seeds, size, numberMarkedForRemoval := CullStep(seqs, size, swaps, n, numberMarkedForRemoval, seeds, U0);
      if done {
        break;
      }
    }
    if size == 0 {
      assert seqs[..size] == [];
    }
    CullEnd(seqs[..size], seeds, U0, qs, len);
  }

  /** At the start no seed is taken and the list is the whole list. */
  lemma CullStart(S: seq<seq<nat>>, qs: seq<(nat, nat)>, len: nat)
    requires 4 <= len && SortedKeys(S, 4, len) && AllShaped(S, len)
    ensures CullInv(S, [], Unmarked(S, len), qs, len)
  {
    var U0 := Unmarked(S, len);
    assert [] + CullSeeds(U0, qs, len) == CullSeeds(U0, qs, len);
  }

  /** With no unmarked entry left, the seeds taken are all the seeds. */
  lemma CullEnd(t: seq<seq<nat>>, seeds: seq<seq<nat>>, U0: seq<seq<nat>>, qs: seq<(nat, nat)>, len: nat)
    requires CullInv(t, seeds, U0, qs, len) && (t == [] || Unmarked(t, len) == [])
    ensures seeds == CullSeeds(U0, qs, len)
  {
    assert Unmarked(t, len) == [];
    assert seeds + [] == seeds;
  }

  /**
   * The culling loop's invariant: the list t is sorted and shaped, and the
   * seeds so far followed by those of t's unmarked entries are those of U0.
   */
  ghost predicate CullInv(t: seq<seq<nat>>, seeds: seq<seq<nat>>, U0: seq<seq<nat>>, qs: seq<(nat, nat)>, len: nat)
  {
    4 <= len && SortedKeys(t, 4, len) && AllShaped(t, len) && AllLen(U0, len)
    && seeds + CullSeeds(Unmarked(t, len), qs, len) == CullSeeds(U0, qs, len)
  }

  /**
   * One pass of the culling loop: either no unmarked entry is left (done),
   * or the next seed is appended and fewer unmarked entries remain.
   */
  method CullStep(seqs: array<seq<nat>>, size0: nat, swaps: array<(nat, nat)>, n: nat, marked0: nat,
                  seeds0: seq<seq<nat>>, ghost U0: seq<seq<nat>>)
    returns (done: bool, seeds: seq<seq<nat>>, size: nat, marked: nat)
    requires n >= 3 && size0 <= seqs.Length && CullInv(seqs[..size0], seeds0, U0, swaps[..], Pow2(n))
    modifies seqs
    ensures size <= seqs.Length && CullInv(seqs[..size], seeds, U0, swaps[..], Pow2(n))
    ensures done ==> Unmarked(seqs[..size], Pow2(n)) == []
    ensures !done ==> |Unmarked(seqs[..size], Pow2(n))| < |Unmarked(old(seqs[..size0]), Pow2(n))|
  {
    var len := Pow2(n);
    ghost var qs := swaps[..];
    ghost var U := Unmarked(seqs[..size0], len);
    var found, seed;
    found, seed, size, marked := CullOnce(seqs, size0, swaps, n, marked0);
    if !found {
      return true, seeds0, size, marked;
    }
    ghost var rest := CullSeeds(Unmarked(seqs[..size], len), qs, len);
    assert CullSeeds(U, qs, len) == [seed] + rest;
    AppendAssoc(seeds0, [seed], rest);
    seeds := seeds0 + [seed];
    done := false;
  }

  /**
   * The list after a round of seed on S: marked with the round's keys, with
   * the count raised by its markForRemoval calls; or, after the removal pass,
   * only the unmarked entries of that, with the count reset to 0.
   */
  ghost predicate AfterRound(S: seq<seq<nat>>, seed: seq<nat>, qs: seq<(nat, nat)>, len: nat,
                             cur: seq<seq<nat>>, marked: nat, marked0: nat)
    requires 4 <= len == |seed| && AllLen(S, len)
  {
    var S' := MarkAll(S, RoundKeys(seed + seed, qs, len), len);
    (cur == S' && marked == marked0 + RoundCount(seed + seed, qs, len))
    || (cur == Unmarked(S', len) && marked == 0)
  }

  lemma AppendAssoc<T>(a: seq<T>, b: seq<T>, c: seq<T>)
    ensures (a + b) + c == a + (b + c)
  {
  }

  /**
   * One pass of the culling loop: the next seed, its round, and the removal
   * pass when the list is at most 35 times the marks made since the last one.
   * The list afterwards is either the marked list or its unmarked entries.
   */
  method CullOnce(seqs: array<seq<nat>>, size0: nat, swaps: array<(nat, nat)>, n: nat, marked0: nat)
    returns (found: bool, seed: seq<nat>, size: nat, marked: nat)
    requires n >= 3 && size0 <= seqs.Length && SortedKeys(seqs[..size0], 4, Pow2(n)) && AllShaped(seqs[..size0], Pow2(n))
    modifies seqs
    ensures !found ==> Unmarked(old(seqs[..size0]), Pow2(n)) == [] && seqs[..] == old(seqs[..]) && size == size0
    ensures found ==> Unmarked(old(seqs[..size0]), Pow2(n)) != [] && |seed| == Pow2(n)
    ensures found ==> seed == Unmarked(old(seqs[..size0]), Pow2(n))[0]
    ensures found ==> size <= seqs.Length && AfterRound(old(seqs[..size0]), seed, swaps[..], Pow2(n), seqs[..size], marked, marked0)
    ensures found ==> SortedKeys(seqs[..size], 4, Pow2(n)) && AllShaped(seqs[..size], Pow2(n))
    ensures found ==> |Unmarked(seqs[..size], Pow2(n))| < |Unmarked(old(seqs[..size0]), Pow2(n))|
    ensures found ==>
      CullSeeds(Unmarked(old(seqs[..size0]), Pow2(n)), swaps[..], Pow2(n))
      == [seed] + CullSeeds(Unmarked(seqs[..size], Pow2(n)), swaps[..], Pow2(n))
  {
    var len := Pow2(n);
    Pow2AtLeast8(n);
    ghost var S := seqs[..size0];
    ghost var qs := swaps[..];
    size, marked := size0, marked0;
    var i;
    found, i := FindSeed(seqs, size, len);
    if !found {
      return found, [], size, marked;
    }
    seed := seqs[i];
    CullSeed(S, qs, len, seed);
    marked := Round(seed, swaps, seqs, size, n, marked);
    assert seqs[..size] == MarkAll(S, RoundKeys(seed + seed, qs, len), len);
    if size / marked <= 35 {
      ghost var S' := seqs[..size];
      size := Compact(seqs, size, len);
      marked := 0;
      CompactKeeps(S', len);
    }
  }

  /**
   * Taking the first unmarked entry as the seed and marking its round: the
   * round reaches the seed itself, so the unmarked entries left are those
   * after the seed that are not relabelled rotations of it.
   */
  lemma CullSeed(S: seq<seq<nat>>, qs: seq<(nat, nat)>, len: nat, seed: seq<nat>)
    requires 4 <= len && SortedKeys(S, 4, len) && AllShaped(S, len)
    requires Unmarked(S, len) != [] && seed == Unmarked(S, len)[0]
    ensures Shaped(seed, len) && RoundCount(seed + seed, qs, len) >= 1
    ensures var S' := MarkAll(S, RoundKeys(seed + seed, qs, len), len);
      SortedKeys(S', 4, len) && AllShaped(S', len)
      && |Unmarked(S', len)| < |Unmarked(S, len)|
      && CullSeeds(Unmarked(S, len), qs, len) == [seed] + CullSeeds(Unmarked(S', len), qs, len)
  {
    var U := Unmarked(S, len);
    var K := RoundKeys(seed + seed, qs, len);
    UnmarkedIn(S, len);
    assert seed in S;
    RoundFindsSeed(seed, qs, len);
    MarkAllSorted(S, K, len);
    MarkAllShaped(S, K, len);
    UnmarkedMarkAll(S, K, len);
    assert Filter(U, K, len) == Filter(U[1..], K, len);
  }

  /** After the removal pass the list is its unmarked entries: still sorted, same shape, same unmarked entries. */
  lemma CompactKeeps(S: seq<seq<nat>>, len: nat)
    requires 4 <= len && SortedKeys(S, 4, len) && AllShaped(S, len)
    ensures SortedKeys(Unmarked(S, len), 4, len) && AllShaped(Unmarked(S, len), len)
    ensures Unmarked(Unmarked(S, len), len) == Unmarked(S, len)
  {
    UnmarkedSorted(S, len);
    UnmarkedShaped(S, len);
    UnmarkedIdempotent(S, len);
  }

  // ----- What a round marks: the relabelled rotations of the seed with the fixed start

  /** k is the key (steps 4 on) of a rotation of V that starts 0,1,0,2. */
  ghost predicate RotationKey(V: seq<nat>, k: seq<nat>)
  {
    exists z :: 0 <= z < |V| && 4 <= |V| && Rot(V, z)[..4] == [0, 1, 0, 2] && Rot(V, z)[4..] == k
  }

  /** k is the key of such a rotation of one of the relabellings the swaps qs pass through. */
  ghost predicate RelabelledRotation(s: seq<nat>, qs: seq<(nat, nat)>, k: seq<nat>)
  {
    exists j :: 0 <= j < |Visits(s, qs)| && RotationKey(Visits(s, qs)[j], k)
  }

  /** Reading len steps of the doubled sequence from z is rotating it by z. */
  lemma DoubledRot(V: seq<nat>, z: nat)
    requires z < |V|
    ensures (V + V)[z..z + |V|] == Rot(V, z)
  {
    var w := (V + V)[z..z + |V|];
    forall i | 0 <= i < |V|
      ensures w[i] == Rot(V, z)[i]
    {
      if i < |V| - z {
        assert w[i] == V[z + i];
      } else {
        assert w[i] == V[i - (|V| - z)];
      }
    }
  }

  /** The window of local at z through the rotation of V by z. */
  lemma WindowRot(V: seq<nat>, z: nat)
    requires 4 <= |V| && z < |V|
    ensures (V + V)[z + 4..z + |V|] == Rot(V, z)[4..]
    ensures IsStart(V + V, z) <==> Rot(V, z)[..4] == [0, 1, 0, 2]
  {
    var L := V + V;
    DoubledRot(V, z);
    assert L[z + 4..z + |V|] == L[z..z + |V|][4..];
    var r := Rot(V, z);
    assert r[..4] == [r[0], r[1], r[2], r[3]];
    assert r[0] == L[z] && r[1] == L[z + 1] && r[2] == L[z + 2] && r[3] == L[z + 3];
  }

  /** Swapping two labels in the doubled sequence doubles the swapped sequence. */
  lemma SwapDouble(V: seq<nat>, a: nat, b: nat)
    ensures Swap(V + V, a, b) == Swap(V, a, b) + Swap(V, a, b)
  {
    var l := Swap(V + V, a, b);
    var r := Swap(V, a, b) + Swap(V, a, b);
    forall i | 0 <= i < |l|
      ensures l[i] == r[i]
    {
      if i >= |V| {
        assert (V + V)[i] == V[i - |V|];
      }
    }
  }

  /** A key a scan marks comes from a start the scan found. */
  lemma StartOfKey(local: seq<nat>, len: nat, k: seq<nat>) returns (z: nat)
    requires 4 <= len && |local| == 2 * len && k in ScanKeys(local, len)
    ensures z < len && IsStart(local, z) && k == local[z + 4..z + len]
  {
    var st := ScanStarts(local, len, 0);
    var i := KeyFromStarts(local, len, st, k);
    z := st[i];
  }

  /** A key of the starts comes from one of them. */
  lemma KeyFromStarts(local: seq<nat>, len: nat, starts: seq<nat>, k: seq<nat>) returns (i: nat)
    requires 4 <= len && |local| == 2 * len && forall j :: 0 <= j < |starts| ==> starts[j] < len
    requires k in StartKeys(local, len, starts)
    ensures i < |starts| && k == local[starts[i] + 4..starts[i] + len]
  {
    i :| 0 <= i < |starts| && k == local[starts[i] + 4..starts[i] + len];
  }

  /** Every key a scan of the doubled V marks is the key of a rotation of V with the fixed start. */
  lemma ScanKeysSound(V: seq<nat>, len: nat, k: seq<nat>)
    requires 4 <= len == |V| && k in ScanKeys(V + V, len)
    ensures RotationKey(V, k)
  {
    var z := StartOfKey(V + V, len, k);
    WindowRot(V, z);
    assert Rot(V, z)[..4] == [0, 1, 0, 2] && Rot(V, z)[4..] == k;
  }

  /**
   * When no step of the doubled V repeats the one before it and no window
   * reads 0,1,0,1 (both hold for a cyclic Gray code), the scan marks the key
   * of every rotation of V with the fixed start.
   */
  lemma ScanKeysComplete(V: seq<nat>, len: nat, k: seq<nat>)
    requires 4 <= len == |V| && ScanSafe(V + V, len, 0) && RotationKey(V, k)
    ensures k in ScanKeys(V + V, len)
  {
    var z :| 0 <= z < |V| && Rot(V, z)[..4] == [0, 1, 0, 2] && Rot(V, z)[4..] == k;
    WindowRot(V, z);
    ScanFinds(V + V, len, 0, z);
    var st := ScanStarts(V + V, len, 0);
    var i :| 0 <= i < |st| && st[i] == z;
    assert (V + V)[st[i] + 4..st[i] + len] == k;
  }

  /** Every key a round marks is the key of a relabelled rotation of the seed with the fixed start. */
  lemma {:induction false} RoundKeysSound(s: seq<nat>, qs: seq<(nat, nat)>, len: nat, k: seq<nat>)
    requires 4 <= len == |s| && k in RoundKeys(s + s, qs, len)
    ensures RelabelledRotation(s, qs, k)
    decreases |qs|
  {
    var vs := Visits(s, qs);
    if k in ScanKeys(s + s, len) {
      ScanKeysSound(s, len, k);
      assert RotationKey(vs[0], k);
    } else {
      var t := Swap(s, qs[0].0, qs[0].1);
      SwapDouble(s, qs[0].0, qs[0].1);
      RoundKeysSound(t, qs[1..], len, k);
      var j :| 0 <= j < |Visits(t, qs[1..])| && RotationKey(Visits(t, qs[1..])[j], k);
      assert vs[j + 1] == Visits(t, qs[1..])[j];
    }
  }

  /** Every relabelling the round passes through, written out twice, is safe for the scan. */
  ghost predicate SafeVisits(s: seq<nat>, qs: seq<(nat, nat)>, len: nat)
    requires 4 <= len == |s|
  {
    forall j :: 0 <= j < |Visits(s, qs)| ==> ScanSafe(Visits(s, qs)[j] + Visits(s, qs)[j], len, 0)
  }

  /** On safe relabellings, the round marks the key of every relabelled rotation with the fixed start. */
  lemma {:induction false} RoundKeysComplete(s: seq<nat>, qs: seq<(nat, nat)>, len: nat, k: seq<nat>)
    requires 4 <= len == |s| && SafeVisits(s, qs, len) && RelabelledRotation(s, qs, k)
    ensures k in RoundKeys(s + s, qs, len)
    decreases |qs|
  {
    var vs := Visits(s, qs);
    var j :| 0 <= j < |vs| && RotationKey(vs[j], k);
    if j == 0 {
      assert ScanSafe(vs[0] + vs[0], len, 0);
      ScanKeysComplete(s, len, k);
    } else {
      var t := Swap(s, qs[0].0, qs[0].1);
      SwapDouble(s, qs[0].0, qs[0].1);
      var ws := Visits(t, qs[1..]);
      assert forall i :: 0 <= i < |ws| ==> ws[i] == vs[i + 1];
      assert RotationKey(ws[j - 1], k);
      RoundKeysComplete(t, qs[1..], len, k);
    }
  }

  // ----- What the seeds are

  /** Every seed is an unmarked entry of the list. */
  lemma {:induction false} CullSeedsIn(U: seq<seq<nat>>, qs: seq<(nat, nat)>, len: nat)
    requires 4 <= len && AllLen(U, len)
    ensures forall x :: x in CullSeeds(U, qs, len) ==> x in U
    decreases |U|
  {
    if |U| > 0 {
      var F := Filter(U[1..], RoundKeys(U[0] + U[0], qs, len), len);
      CullSeedsIn(F, qs, len);
      FilterIn(U[1..], RoundKeys(U[0] + U[0], qs, len), len);
    }
  }

  lemma {:induction false} FilterIn(list: seq<seq<nat>>, K: set<seq<nat>>, len: nat)
    requires 4 <= len && AllLen(list, len)
    ensures forall x :: x in Filter(list, K, len) ==> x in list
    decreases |list|
  {
    if |list| > 0 {
      FilterIn(list[1..], K, len);
    }
  }

  /** No later seed is a relabelled rotation of an earlier one: its key is not among the earlier seed's round. */
  lemma {:induction false} CullSeedsApart(U: seq<seq<nat>>, qs: seq<(nat, nat)>, len: nat, i: nat, j: nat)
    requires 4 <= len && AllLen(U, len) && i < j < |CullSeeds(U, qs, len)|
    ensures Key(CullSeeds(U, qs, len)[j], 4, len) !in RoundKeys(CullSeeds(U, qs, len)[i] + CullSeeds(U, qs, len)[i], qs, len)
    decreases |U|
  {
    var K := RoundKeys(U[0] + U[0], qs, len);
    var F := Filter(U[1..], K, len);
    var seeds := CullSeeds(U, qs, len);
    assert seeds[1..] == CullSeeds(F, qs, len);
    if i == 0 {
      CullSeedsIn(F, qs, len);
      assert seeds[j] in F;
    } else {
      CullSeedsApart(F, qs, len, i - 1, j - 1);
    }
  }

  /** The entries of a list read off unmarked: every one has the shape and step 0 still 0. */
  predicate AllUnmarked(U: seq<seq<nat>>, len: nat)
  {
    AllShaped(U, len) && forall i :: 0 <= i < |U| ==> U[i][0] == 0
  }

  /** Filtering keeps that. */
  lemma FilterUnmarked(list: seq<seq<nat>>, K: set<seq<nat>>, len: nat)
    requires 4 <= len && AllLen(list, len) && AllUnmarked(list, len)
    ensures AllUnmarked(Filter(list, K, len), len)
  {
    FilterIn(list, K, len);
    var F := Filter(list, K, len);
    forall i | 0 <= i < |F|
      ensures Shaped(F[i], len) && F[i][0] == 0
    {
      assert F[i] in list;
    }
  }

  /**
   * Every unmarked entry is reached by some seed's round: its key is among
   * the keys of the round of a seed.  Together with CullSeedsApart, the
   * seeds are one entry for each family of relabelled rotations.
   */
  lemma {:induction false} CullSeedsCover(U: seq<seq<nat>>, qs: seq<(nat, nat)>, len: nat, x: seq<nat>)
    requires 4 <= len && AllLen(U, len) && AllUnmarked(U, len) && x in U
    ensures exists i :: 0 <= i < |CullSeeds(U, qs, len)| && Covers(CullSeeds(U, qs, len)[i], qs, len, x)
    decreases |U|
  {
    var K := RoundKeys(U[0] + U[0], qs, len);
    var seeds := CullSeeds(U, qs, len);
    if x == U[0] || Key(x, 4, len) in K {
      RoundFindsSeed(U[0], qs, len);
      assert Covers(seeds[0], qs, len, x);
    } else {
      var F := Filter(U[1..], K, len);
      assert x in U[1..];
      FilterKeeps(U[1..], K, len, x);
      assert AllUnmarked(U[1..], len) by {
        assert forall i :: 0 <= i < |U| - 1 ==> U[1..][i] == U[i + 1];
      }
      FilterUnmarked(U[1..], K, len);
      CullSeedsCover(F, qs, len, x);
      var i :| 0 <= i < |CullSeeds(F, qs, len)| && Covers(CullSeeds(F, qs, len)[i], qs, len, x);
      assert seeds[i + 1] == CullSeeds(F, qs, len)[i];
    }
  }

  /** The round of seed marks the entry x. */
  predicate Covers(seed: seq<nat>, qs: seq<(nat, nat)>, len: nat, x: seq<nat>)
    requires 4 <= len
  {
    |seed| == len && |x| == len && Key(x, 4, len) in RoundKeys(seed + seed, qs, len)
  }

  /** An entry whose key is not among K survives the filter. */
  lemma {:induction false} FilterKeeps(list: seq<seq<nat>>, K: set<seq<nat>>, len: nat, x: seq<nat>)
    requires 4 <= len && AllLen(list, len) && x in list && Key(x, 4, len) !in K
    ensures x in Filter(list, K, len)
    decreases |list|
  {
    if x != list[0] {
      FilterKeeps(list[1..], K, len, x);
    }
  }

  // ----- Signatures and the whole culling stage

  /** How many steps of s change digit d. */
  function Occurrences(s: seq<nat>, d: nat): (c: nat)
    ensures c <= |s|
  {
    if |s| == 0 then 0 else Occurrences(s[..|s| - 1], d) + (if s[|s| - 1] == d then 1 else 0)
  }

  function Sum(xs: seq<nat>): nat
  {
    if |xs| == 0 then 0 else xs[0] + Sum(xs[1..])
  }

  lemma {:induction false} SumZero(xs: seq<nat>)
    requires forall i :: 0 <= i < |xs| ==> xs[i] == 0
    ensures Sum(xs) == 0
  {
    if |xs| > 0 {
      SumZero(xs[1..]);
    }
  }

  /** Adding one to one entry adds one to the sum. */
  lemma {:induction false} SumBump(xs: seq<nat>, x: nat)
    requires x < |xs|
    ensures Sum(xs[x := xs[x] + 1]) == Sum(xs) + 1
  {
    if x > 0 {
      SumBump(xs[1..], x - 1);
      assert xs[x := xs[x] + 1][1..] == xs[1..][x - 1 := xs[1..][x - 1] + 1];
    }
  }

  /**
   * The signature printed next to a seed: for each digit, how many steps of
   * the seed change it.  The counts add up to the length of the seed.
   */
  method Signature(seed: seq<nat>, n: nat) returns (signature: seq<nat>)
    requires forall j :: 0 <= j < |seed| ==> seed[j] < n
    ensures |signature| == n
    ensures forall d :: 0 <= d < n ==> signature[d] == Occurrences(seed, d)
    ensures Sum(signature) == |seed|
  {
    var sig := new nat[n](_ => 0);
    SumZero(sig[..]);
    for j := 0 to |seed|
      invariant forall d :: 0 <= d < n ==> sig[d] == Occurrences(seed[..j], d)
      invariant Sum(sig[..]) == j
    {
      ghost var before := sig[..];
      sig[seed[j]] := sig[seed[j]] + 1;
      assert sig[..] == before[seed[j] := before[seed[j]] + 1];
      SumBump(before, seed[j]);
      assert seed[..j + 1][..j] == seed[..j];
    }
    assert seed[..|seed|] == seed;
    signature := sig[..];
  }

  /** sig holds, for each of the n digits, how many steps of seed change it. */
  predicate IsSignature(sig: seq<nat>, seed: seq<nat>, n: nat)
  {
    |sig| == n && forall d :: 0 <= d < n ==> sig[d] == Occurrences(seed, d)
  }

  /** Every entry is a step sequence over the digits 0 .. n-1. */
  predicate AllDigits(list: seq<seq<nat>>, n: nat)
  {
    forall i :: 0 <= i < |list| ==> IsDigits(list[i], n)
  }

  /**
   * The program after loading the list: build the swap queue of the n
   * digits, cull the list to its seeds, and compute each seed's signature.
   */
  method FindSeeds(seqs: array<seq<nat>>, size: nat, n: nat)
    returns (seeds: seq<seq<nat>>, signatures: seq<seq<nat>>)
    requires n >= 3 && size <= seqs.Length && SortedKeys(seqs[..size], 4, Pow2(n))
    requires AllShaped(seqs[..size], Pow2(n)) && AllDigits(seqs[..size], n)
    modifies seqs
    ensures seeds == CullSeeds(Unmarked(old(seqs[..size]), Pow2(n)), Q(Labels(n)), Pow2(n))
    ensures |signatures| == |seeds|
    ensures forall i :: 0 <= i < |seeds| ==> IsSignature(signatures[i], seeds[i], n) && Sum(signatures[i]) == Pow2(n)
  {
    var len := Pow2(n);
    Pow2AtLeast8(n);
    ghost var S := seqs[..size];
    var queue := BuildSwapQueue(n);
    var finalSize;
    seeds, finalSize := Cull(seqs, size, queue, n);
    ghost var U := Unmarked(S, len);
    CullSeedsIn(U, queue[..], len);
    UnmarkedIn(S, len);
    signatures := [];
    for i := 0 to |seeds|
      invariant |signatures| == i
      invariant forall k :: 0 <= k < i ==> IsSignature(signatures[k], seeds[k], n) && Sum(signatures[k]) == len
    {
      assert seeds[i] in U;
      assert seeds[i] in S;
      var signature := Signature(seeds[i], n);
      signatures := signatures + [signature];
    }
  }
}
