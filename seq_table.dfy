/**
 * The resizable open-addressing hash table of step sequences.  Its size is
 * always a power of two 2^e, so reducing modulo the size is a bit mask with
 * size - 1; the second hash is always odd and therefore reaches every slot.
 * The table grows by a factor of eight when more than a third of it is full
 * and never deletes.
 */
module SeqTable {
  import opened Bits
  import opened Probing
  import opened Counting

  /** HASH_PRIME and DOUBLE_HASH_PRIME. */
  const HashPrime: nat := 5
  const DoubleHashPrime: nat := 7

  /** The running hash of the hashing loops: hash := (hash * prime + step) & mask, over ks. */
  function Fold(ks: seq<nat>, prime: nat, mask: nat): nat
  {
    if |ks| == 0 then 0 else And(Fold(ks[..|ks| - 1], prime, mask) * prime + ks[|ks| - 1], mask)
  }

  /** seqHash1 for a table of 2^e slots: the home slot. */
  function Home(key: seq<nat>, e: nat): nat
  {
    Fold(key, HashPrime, Pow2(e) - 1)
  }

  /** seqHash2 for a table of 2^e slots: the stride, hashed from the second half and forced odd. */
  function Stride(key: seq<nat>, e: nat): nat
  {
    var h := Fold(key[|key| / 2..], DoubleHashPrime, (Pow2(e) - 1) / 2);
    h + 1 + And(h, 1)
  }

  /** The folded hash never exceeds its mask. */
  lemma FoldBound(ks: seq<nat>, prime: nat, mask: nat)
    ensures Fold(ks, prime, mask) <= mask
  {
    if |ks| > 0 {
      AndBound(Fold(ks[..|ks| - 1], prime, mask) * prime + ks[|ks| - 1], mask);
    }
  }

  /** The home slot is a slot of the table. */
  lemma HomeBound(key: seq<nat>, e: nat)
    ensures Home(key, e) < Pow2(e)
  {
    FoldBound(key, HashPrime, Pow2(e) - 1);
  }

  /** The stride is odd and at least one, so it spreads over 2^e slots. */
  lemma StrideOdd(key: seq<nat>, e: nat)
    ensures Stride(key, e) % 2 == 1 && Stride(key, e) >= 1
    ensures Spreads(Stride(key, e), Pow2(e))
  {
    var h := Fold(key[|key| / 2..], DoubleHashPrime, (Pow2(e) - 1) / 2);
    assert And(h, 1) == h % 2 by {
      AndLowMask(h, 1);
    }
    OddSpreads(Stride(key, e), e);
  }

  /** The stride is at most half the mask plus two. */
  lemma StrideBound(key: seq<nat>, e: nat)
    ensures Stride(key, e) <= (Pow2(e) - 1) / 2 + 2
  {
    var h := Fold(key[|key| / 2..], DoubleHashPrime, (Pow2(e) - 1) / 2);
    FoldBound(key[|key| / 2..], DoubleHashPrime, (Pow2(e) - 1) / 2);
    AndBound(h, 1);
  }

  /** The occupied slots of a table whose flags are occ. */
  ghost function OccSet(occ: seq<bool>): set<nat>
  {
    set j: nat | j < |occ| && occ[j]
  }

  /** The keys stored in the occupied slots. */
  ghost function KeySet(ks: seq<seq<nat>>, occ: seq<bool>): set<seq<nat>>
    requires |ks| == |occ|
  {
    set j: nat | j < |occ| && occ[j] :: ks[j]
  }

  /**
   * The key in slot j was placed by probe number pr[j] of its own probe
   * sequence in a table of 2^e slots, and every earlier probe is occupied.
   */
  ghost predicate PlacedAt(ks: seq<seq<nat>>, occ: seq<bool>, pr: seq<nat>, e: nat, j: nat)
    requires j < |ks| == |occ| == |pr| == Pow2(e)
  {
    var h, s := Home(ks[j], e), Stride(ks[j], e);
    pr[j] < Pow2(e) && Probe(h, s, pr[j], Pow2(e)) == j
    && forall t :: 0 <= t < pr[j] ==> occ[Probe(h, s, t, Pow2(e))]
  }

  /** The open-addressing invariant for a table of 2^e slots. */
  ghost predicate Layout(ks: seq<seq<nat>>, occ: seq<bool>, pr: seq<nat>, e: nat)
  {
    |ks| == Pow2(e) && |occ| == Pow2(e) && |pr| == Pow2(e)
    && forall j: nat {:trigger PlacedAt(ks, occ, pr, e, j)} ::
         j < Pow2(e) && occ[j] ==> PlacedAt(ks, occ, pr, e, j)
  }

  lemma KeyIn(ks: seq<seq<nat>>, occ: seq<bool>, j: nat)
    requires |ks| == |occ| && j < |occ| && occ[j]
    ensures ks[j] in KeySet(ks, occ)
  {
  }

  /**
   * Storing key in the first free slot i of its probe sequence (probe t) keeps
   * the layout, adds i to the occupied slots and key to the keys.
   */
  lemma InsertLayout(ks: seq<seq<nat>>, occ: seq<bool>, pr: seq<nat>, e: nat, key: seq<nat>, t: nat, i: nat)
    requires Layout(ks, occ, pr, e) && t < Pow2(e)
    requires i == Probe(Home(key, e), Stride(key, e), t, Pow2(e)) && !occ[i]
    requires forall k :: 0 <= k < t ==> occ[Probe(Home(key, e), Stride(key, e), k, Pow2(e))]
    ensures Layout(ks[i := key], occ[i := true], pr[i := t], e)
    ensures i !in OccSet(occ) && OccSet(occ[i := true]) == OccSet(occ) + {i}
    ensures KeySet(ks[i := key], occ[i := true]) == KeySet(ks, occ) + {key}
  {
    var ks', occ', pr' := ks[i := key], occ[i := true], pr[i := t];
    forall j: nat | j < Pow2(e) && occ'[j]
      ensures PlacedAt(ks', occ', pr', e, j)
    {
      if j != i {
        assert PlacedAt(ks, occ, pr, e, j);
      }
    }
    assert OccSet(occ') == OccSet(occ) + {i};
    forall x | x in KeySet(ks', occ')
      ensures x in KeySet(ks, occ) + {key}
    {
      var j: nat :| j < Pow2(e) && occ'[j] && ks'[j] == x;
      if j != i {
        KeyIn(ks, occ, j);
      }
    }
    forall x | x in KeySet(ks, occ) + {key}
      ensures x in KeySet(ks', occ')
    {
      if x == key {
        KeyIn(ks', occ', i);
      } else {
        var j: nat :| j < Pow2(e) && occ[j] && ks[j] == x;
        KeyIn(ks', occ', j);
      }
    }
  }

  /**
   * A key whose probe sequence reaches a free slot at probe t after passing
   * only other keys is not stored anywhere.
   */
  lemma AbsentLayout(ks: seq<seq<nat>>, occ: seq<bool>, pr: seq<nat>, e: nat, key: seq<nat>, t: nat)
    requires Layout(ks, occ, pr, e) && t <= Pow2(e)
    requires !occ[Probe(Home(key, e), Stride(key, e), t, Pow2(e))]
    requires forall k :: 0 <= k < t ==> ks[Probe(Home(key, e), Stride(key, e), k, Pow2(e))] != key
    ensures key !in KeySet(ks, occ)
  {
    var hk, sk := Home(key, e), Stride(key, e);
    forall j: nat | j < Pow2(e) && occ[j]
      ensures ks[j] != key
    {
      assert PlacedAt(ks, occ, pr, e, j);
      if pr[j] < t {
        assert ks[Probe(hk, sk, pr[j], Pow2(e))] != key;
      } else if pr[j] > t {
        assert occ[Probe(Home(ks[j], e), Stride(ks[j], e), t, Pow2(e))];
      }
    }
  }

  /** The occupied slots below p. */
  lemma PrefixStep(ks: seq<seq<nat>>, occ: seq<bool>, p: nat)
    requires |ks| == |occ| && p < |occ|
    ensures occ[p] ==> p !in OccSet(occ[..p]) && OccSet(occ[..p + 1]) == OccSet(occ[..p]) + {p}
    ensures !occ[p] ==> OccSet(occ[..p + 1]) == OccSet(occ[..p])
    ensures occ[p] ==> KeySet(ks[..p + 1], occ[..p + 1]) == KeySet(ks[..p], occ[..p]) + {ks[p]}
    ensures !occ[p] ==> KeySet(ks[..p + 1], occ[..p + 1]) == KeySet(ks[..p], occ[..p])
  {
    var o0, o1, k0, k1 := occ[..p], occ[..p + 1], ks[..p], ks[..p + 1];
    assert OccSet(o1) == OccSet(o0) + (if occ[p] then {p} else {});
    forall x | x in KeySet(k1, o1)
      ensures x in KeySet(k0, o0) + (if occ[p] then {ks[p]} else {})
    {
      var j: nat :| j < |o1| && o1[j] && k1[j] == x;
      if j < p {
        KeyIn(k0, o0, j);
      }
    }
    forall x | x in KeySet(k0, o0) + (if occ[p] then {ks[p]} else {})
      ensures x in KeySet(k1, o1)
    {
      if x in KeySet(k0, o0) {
        var j: nat :| j < |o0| && o0[j] && k0[j] == x;
        KeyIn(k1, o1, j);
      } else {
        KeyIn(k1, o1, p);
      }
    }
  }

  /** The occupied slots below p are among all occupied slots. */
  lemma PrefixSubset(occ: seq<bool>, p: nat)
    requires p <= |occ|
    ensures OccSet(occ[..p]) <= OccSet(occ)
  {
  }

  /** While fewer slots are occupied below p than in all, one at p or later is occupied. */
  lemma OccupiedAhead(occ: seq<bool>, p: nat) returns (j: nat)
    requires p <= |occ| && |OccSet(occ[..p])| < |OccSet(occ)|
    ensures p <= j < |occ| && occ[j]
  {
    j := Larger(OccSet(occ), OccSet(occ[..p]));
  }

  /** Once every occupied slot lies below p, the keys below p are all the keys. */
  lemma PrefixAll(ks: seq<seq<nat>>, occ: seq<bool>, p: nat)
    requires |ks| == |occ| && p <= |occ| && |OccSet(occ[..p])| == |OccSet(occ)|
    ensures KeySet(ks[..p], occ[..p]) == KeySet(ks, occ)
  {
    PrefixSubset(occ, p);
    SubsetEqual(OccSet(occ[..p]), OccSet(occ));
    forall x | x in KeySet(ks, occ)
      ensures x in KeySet(ks[..p], occ[..p])
    {
      var j: nat :| j < |occ| && occ[j] && ks[j] == x;
      assert j in OccSet(occ[..p]);
      KeyIn(ks[..p], occ[..p], j);
    }
  }

  lemma Larger<T>(a: set<T>, b: set<T>) returns (x: T)
    requires |b| < |a|
    ensures x in a && x !in b
  {
    if a <= b {
      SubsetCard(a, b);
      assert false;
    }
    var y :| y in a && y !in b;
    x := y;
  }

  lemma SubsetEqual<T>(a: set<T>, b: set<T>)
    requires a <= b && |a| == |b|
    ensures a == b
  {
    if a != b {
      assert !(b <= a);
      var x :| x in b && x !in a;
      assert a <= b - {x};
      SubsetCard(a, b - {x});
    }
  }

  /**
   * The probe loop of seqHashInsert and of the rehash in resizeTable: the
   * first free slot of key's probe sequence in the flags occ of 2^e slots,
   * reached at probe t.  It exists because fewer than 2^e slots are occupied.
   */
  method FreeSlot(occ: array<bool>, key: seq<nat>, ghost e: nat, modMask: nat) returns (index: nat, ghost t: nat)
    requires occ.Length == Pow2(e) && modMask == Pow2(e) - 1 && |OccSet(occ[..])| < Pow2(e)
    ensures t < Pow2(e) && index == Probe(Home(key, e), Stride(key, e), t, Pow2(e))
    ensures !occ[index]
    ensures forall k :: 0 <= k < t ==> occ[Probe(Home(key, e), Stride(key, e), k, Pow2(e))]
  {
    ghost var h, st, m := Home(key, e), Stride(key, e), Pow2(e);
    ghost var o := occ[..];
    t := 0;
    index := SeqHash1(key, e, modMask);
    HomeBound(key, e);
    assert index == Probe(h, st, 0, m) by {
      DivModUnique(h, 0, h, m);
    }
    if occ[index] {
      var step := SeqHash2(key, e, modMask);
      StrideOdd(key, e);
      while occ[index]
        invariant t < m && index == Probe(h, st, t, m)
        invariant forall k :: 0 <= k < t ==> o[Probe(h, st, k, m)]
        decreases m - t
      {
        assert t + 1 < m by {
          assert o[index];
          ProbesWithin(h, st, t + 1, m, OccSet(o));
        }
        ProbeNext(h, st, t, m);
        AndLowMask(index + step, e);
        index := And(index + step, modMask);
        t := t + 1;
      }
    }
  }

  /**
   * The body of the rehash loop of resizeTable: probes for the first free slot
   * of key in the new arrays and stores key there.
   */
  method Rehash(ns: array<seq<nat>>, os: array<bool>, key: seq<nat>, ghost pr: seq<nat>, ghost e: nat, mask: nat)
    returns (ghost pr': seq<nat>)
    requires ns.Length == os.Length == Pow2(e) && mask == Pow2(e) - 1
    requires Layout(ns[..], os[..], pr, e) && |OccSet(os[..])| < Pow2(e)
    modifies ns, os
    ensures Layout(ns[..], os[..], pr', e)
    ensures |OccSet(os[..])| == |OccSet(old(os[..]))| + 1
    ensures KeySet(ns[..], os[..]) == KeySet(old(ns[..]), old(os[..])) + {key}
  {
    var index, t := FreeSlot(os, key, e, mask);
    ghost var nk, no := ns[..], os[..];
    InsertLayout(nk, no, pr, e, key, t, index);
    ns[index] := key;
    os[index] := true;
    pr' := pr[index := t];
    assert ns[..] == nk[index := key];
    assert os[..] == no[index := true];
  }

  /** At most all slots are occupied. */
  lemma {:induction false} OccBound(occ: seq<bool>)
    ensures |OccSet(occ)| <= |occ|
    decreases |occ|
  {
    if |occ| > 0 {
      var q := occ[..|occ| - 1];
      OccBound(q);
      assert OccSet(occ) <= OccSet(q) + {|occ| - 1};
      SubsetCard(OccSet(occ), OccSet(q) + {|occ| - 1});
    }
  }

  /**
   * The rehash loop of resizeTable: fresh arrays of 2^e slots holding every
   * stored sequence of the old arrays, each placed by its new probe sequence.
   * It visits the old slots in order and stops after count occupied ones.
   */
  method RehashAll(oldNodes: array<seq<nat>>, oldOcc: array<bool>, count: nat, newSize: nat, ghost e: nat, newMask: nat)
    returns (newNodes: array<seq<nat>>, newOcc: array<bool>, ghost newPr: seq<nat>)
    requires oldNodes.Length == oldOcc.Length < newSize && count == |OccSet(oldOcc[..])|
    requires newSize == Pow2(e) && newMask == newSize - 1
    ensures fresh(newNodes) && fresh(newOcc) && newNodes.Length == newOcc.Length == newSize
    ensures Layout(newNodes[..], newOcc[..], newPr, e) && |OccSet(newOcc[..])| == count
    ensures KeySet(newNodes[..], newOcc[..]) == KeySet(oldNodes[..], oldOcc[..])
  {
    newNodes := new seq<nat>[newSize](_ => []);
    newOcc := new bool[newSize](_ => false);
    newPr := seq(newSize, _ => 0);
    ghost var ks, occ := oldNodes[..], oldOcc[..];
    assert OccSet(newOcc[..]) == {};
    assert KeySet(newNodes[..], newOcc[..]) == {};
    assert occ[..0] == [] && ks[..0] == [];
    assert OccSet(occ[..0]) == {};
    OccBound(occ);
    var left := count;
    var p := 0;
    while left > 0
      invariant p <= |occ| == |ks| && newNodes.Length == newOcc.Length == newSize
      invariant |OccSet(occ[..p])| + left == count
      invariant Layout(newNodes[..], newOcc[..], newPr, e)
      invariant |OccSet(newOcc[..])| == count - left
      invariant KeySet(newNodes[..], newOcc[..]) == KeySet(ks[..p], occ[..p])
      decreases left
    {
      ghost var j := OccupiedAhead(occ, p);
      ghost var p0 := p;
      p := SkipFree(oldOcc, p, j);
      PrefixSkip(ks, occ, p0, p);
      var key := oldNodes[p];
      PrefixStep(ks, occ, p);
      newPr := Rehash(newNodes, newOcc, key, newPr, e, newMask);
      left := left - 1;
      p := p + 1;
    }
    PrefixAll(ks, occ, p);
  }

  /** The scan of resizeTable for the next occupied slot, one known to exist at j. */
  method SkipFree(occ: array<bool>, p: nat, ghost j: nat) returns (q: nat)
    requires p <= j < occ.Length && occ[j]
    ensures p <= q <= j && occ[q]
    ensures forall k :: p <= k < q ==> !occ[k]
  {
    q := p;
    while !occ[q]
      invariant p <= q <= j
      invariant forall k :: p <= k < q ==> !occ[k]
      decreases j - q
    {
      q := q + 1;
    }
  }

  /** Skipping free slots changes neither the occupied slots nor the keys below the cursor. */
  lemma {:induction false} PrefixSkip(ks: seq<seq<nat>>, occ: seq<bool>, p: nat, q: nat)
    requires |ks| == |occ| && p <= q <= |occ|
    requires forall k :: p <= k < q ==> !occ[k]
    ensures OccSet(occ[..q]) == OccSet(occ[..p]) && KeySet(ks[..q], occ[..q]) == KeySet(ks[..p], occ[..p])
    decreases q - p
  {
    if p < q {
      PrefixStep(ks, occ, p);
      PrefixSkip(ks, occ, p + 1, q);
    }
  }

  /** seqHash1: the loop over all steps of the key. */
  method SeqHash1(key: seq<nat>, ghost e: nat, modMask: nat) returns (hash: nat)
    requires modMask == Pow2(e) - 1
    ensures hash == Home(key, e) && hash <= modMask
  {
    hash := 0;
    var i := 0;
    while i < |key|
      invariant i <= |key| && hash == Fold(key[..i], HashPrime, modMask)
    {
      assert key[..i + 1][..i] == key[..i];
      hash := And(hash * HashPrime + key[i], modMask);
      i := i + 1;
    }
    assert key[..|key|] == key;
    FoldBound(key, HashPrime, modMask);
  }

  /** seqHash2: the loop over the second half of the key with half the mask, then forced odd. */
  method SeqHash2(key: seq<nat>, ghost e: nat, modMask: nat) returns (hash: nat)
    requires modMask == Pow2(e) - 1
    ensures hash == Stride(key, e)
    ensures hash % 2 == 1 && 1 <= hash <= modMask / 2 + 2
  {
    var mask := modMask / 2;
    var h := 0;
    var i := |key| / 2;
    ghost var tail := key[|key| / 2..];
    while i < |key|
      invariant |key| / 2 <= i <= |key| && h == Fold(tail[..i - |key| / 2], DoubleHashPrime, mask)
    {
      assert tail[..i + 1 - |key| / 2][..i - |key| / 2] == tail[..i - |key| / 2];
      h := And(h * DoubleHashPrime + key[i], mask);
      i := i + 1;
    }
    assert tail[..|key| - |key| / 2] == tail;
    hash := h + 1 + And(h, 1);
    StrideOdd(key, e);
    StrideBound(key, e);
  }

  class SequenceTable {
    var nodes: array<seq<nat>>
    var occupied: array<bool>
    var size: nat
    var count: nat
    var modMask: nat
    /** The length of every stored sequence (len). */
    const len: nat
    /** The size is 2^exponent. */
    ghost var exponent: nat
    /** For each occupied slot, the probe number at which its key was placed. */
    ghost var probeOf: seq<nat>

    /** The keys stored in occupied slots. */
    ghost function Keys(): set<seq<nat>>
      reads this, nodes, occupied
      requires nodes.Length == occupied.Length
    {
      KeySet(nodes[..], occupied[..])
    }

    ghost predicate Valid()
      reads this, nodes, occupied
    {
      size == Pow2(exponent) && modMask == size - 1
      && nodes.Length == size && occupied.Length == size
      && count == |OccSet(occupied[..])|
      && Layout(nodes[..], occupied[..], probeOf, exponent)
    }

    /** Whether an insertion first grows the table: more than a third full. */
    predicate ResizeDue()
      reads this
    {
      3 * count > size
    }

    /** createSeqTable: an empty table of 2^e slots. */
    constructor (e: nat, len: nat)
      ensures Valid() && Keys() == {} && count == 0
      ensures size == Pow2(e) && modMask == size - 1 && this.len == len && exponent == e
    {
      this.len := len;
      size := Pow2(e);
      modMask := Pow2(e) - 1;
      count := 0;
      exponent := e;
      nodes := new seq<nat>[Pow2(e)](_ => []);
      occupied := new bool[Pow2(e)](_ => false);
      probeOf := seq(Pow2(e), _ => 0);
      new;
      assert OccSet(occupied[..]) == {};
      assert Keys() == {};
    }

    /**
     * resizeTable: eight times the slots, every stored sequence rehashed into
     * the new arrays; the count and the stored keys stay the same.
     */
    method Resize()
      requires Valid()
      modifies this
      ensures Valid()
      ensures size == 8 * old(size) && exponent == old(exponent) + 3
      ensures count == old(count) && Keys() == old(Keys())
      ensures fresh(nodes) && fresh(occupied)
    {
      var newSize := size * 8;
      ghost var e' := exponent + 3;
      assert newSize == Pow2(e') by {
        Pow2Add(exponent, 3);
      }
      var newMask := newSize - 1;
      OccBound(occupied[..]);
      var newNodes, newOcc, newPr := RehashAll(nodes, occupied, count, newSize, e', newMask);
      nodes := newNodes;
      occupied := newOcc;
      size := newSize;
      modMask := newMask;
      exponent := e';
      probeOf := newPr;
    }

    /**
     * The probe loop shared by seqHashInsertIfNotContains and seqHashContains:
     * walks key's probe sequence until a free slot or a slot holding key.
     */
    method Search(key: seq<nat>) returns (found: bool, index: nat, ghost t: nat)
      requires Valid() && count < size
      ensures index < size
      ensures found <==> key in Keys()
      ensures found ==> occupied[index] && nodes[index] == key
      ensures !found ==> t < size && index == Probe(Home(key, exponent), Stride(key, exponent), t, size)
      ensures !found ==> !occupied[index]
      ensures !found ==> forall k :: 0 <= k < t ==> occupied[Probe(Home(key, exponent), Stride(key, exponent), k, size)]
    {
      ghost var e, m := exponent, size;
      ghost var h, st := Home(key, e), Stride(key, e);
      ghost var ks, occ := nodes[..], occupied[..];
      index := SeqHash1(key, e, modMask);
      HomeBound(key, e);
      assert index == Probe(h, st, 0, m) by {
        DivModUnique(h, 0, h, m);
      }
      var step := SeqHash2(key, e, modMask);
      StrideOdd(key, e);
      t := 0;
      while occupied[index]
        invariant t < m && index == Probe(h, st, t, m)
        invariant forall k :: 0 <= k < t ==> occ[Probe(h, st, k, m)] && ks[Probe(h, st, k, m)] != key
        decreases m - t
      {
        if nodes[index] == key {
          KeyIn(ks, occ, index);
          return true, index, t;
        }
        assert t + 1 < m by {
          assert occ[index];
          ProbesWithin(h, st, t + 1, m, OccSet(occ));
        }
        ProbeNext(h, st, t, m);
        AndLowMask(index + step, e);
        index := And(index + step, modMask);
        t := t + 1;
      }
      AbsentLayout(ks, occ, probeOf, e, key, t);
      found := false;
    }

    /** Storing key in a free slot found by a probe walk. */
    method Place(key: seq<nat>, index: nat, ghost t: nat)
      requires Valid() && t < size && index == Probe(Home(key, exponent), Stride(key, exponent), t, size)
      requires !occupied[index]
      requires forall k :: 0 <= k < t ==> occupied[Probe(Home(key, exponent), Stride(key, exponent), k, size)]
      modifies this, nodes, occupied
      ensures Valid() && size == old(size) && nodes == old(nodes) && occupied == old(occupied)
      ensures Keys() == old(Keys()) + {key} && count == old(count) + 1
    {
      ghost var ks, occ := nodes[..], occupied[..];
      InsertLayout(ks, occ, probeOf, exponent, key, t, index);
      nodes[index] := key;
      occupied[index] := true;
      count := count + 1;
      probeOf := probeOf[index := t];
      assert nodes[..] == ks[index := key];
      assert occupied[..] == occ[index := true];
    }

    /**
     * seqHashInsertIfNotContains: after growing the table when it is more
     * than a third full, stores key unless it is already present; reports
     * whether it stored it.
     */
    method InsertIfNotContains(key: seq<nat>) returns (added: bool)
      requires Valid() && |key| == len
      modifies this, nodes, occupied
      ensures Valid()
      ensures added <==> key !in old(Keys())
      ensures Keys() == old(Keys()) + {key}
      ensures count == old(count) + (if added then 1 else 0)
      ensures size == (if old(ResizeDue()) then 8 * old(size) else old(size))
      ensures size >= 2 ==> count < size
    {
      OccBound(occupied[..]);
      if 3 * count > size {
        Resize();
      }
      OccBound(occupied[..]);
      assert count < size;
      var found, index, t := Search(key);
      if found {
        return false;
      }
      Place(key, index, t);
      return true;
    }

    /**
     * seqHashInsert: after growing the table when it is more than a third
     * full, stores key without looking for it first.
     */
    method Insert(key: seq<nat>)
      requires Valid() && |key| == len
      modifies this, nodes, occupied
      ensures Valid()
      ensures Keys() == old(Keys()) + {key}
      ensures count == old(count) + 1
      ensures size == (if old(ResizeDue()) then 8 * old(size) else old(size))
      ensures size >= 2 ==> count < size
    {
      OccBound(occupied[..]);
      if 3 * count > size {
        Resize();
      }
      OccBound(occupied[..]);
      assert count < size;
      var index, t := FreeSlot(occupied, key, exponent, modMask);
      Place(key, index, t);
    }

    /** seqHashContains: whether key is stored. */
    method Contains(key: seq<nat>) returns (found: bool)
      requires Valid() && |key| == len && count < size
      ensures found <==> key in Keys()
    {
      var f, index, t := Search(key);
      found := f;
    }
  }

}
