/**
 * The fixed-size open-addressing hash table of sequence numbers that the
 * extrapolation uses to recognise relabellings it has already seen.  Keys are
 * arbitrary-precision naturals.  The table never resizes and never deletes;
 * emptying clears the occupied flags only.
 */
module GmpTable {
  import opened Probing

  /** GMPhash1: the home slot of a key. */
  function Hash1(key: nat, size: nat): (r: nat)
    requires size > 0
    ensures r < size
  {
    key % size
  }

  /** GMPhash2: the stride, between 1 and the digit count minus one. */
  function Hash2(key: nat, digits: nat): (r: nat)
    requires digits >= 2
    ensures 1 <= r < digits
  {
    key % (digits - 1) + 1
  }

  /** The occupied slots of a table whose flags are occ. */
  ghost function OccSet(occ: seq<bool>): set<nat>
  {
    set j: nat | j < |occ| && occ[j]
  }

  /**
   * A probe run that has met only occupied slots, in a table with a free slot,
   * has not yet used up the table.
   */
  lemma ProbeBeforeFree(h: nat, st: nat, t: nat, occ: seq<bool>)
    requires Spreads(st, |occ|) && t < |occ| && |OccSet(occ)| < |occ|
    requires occ[Probe(h, st, t, |occ|)]
    requires forall k :: 0 <= k < t ==> occ[Probe(h, st, k, |occ|)]
    ensures t + 1 < |occ|
  {
    forall k | 0 <= k < t + 1
      ensures Probe(h, st, k, |occ|) in OccSet(occ)
    {
    }
    ProbesWithin(h, st, t + 1, |occ|, OccSet(occ));
  }

  /** The probe loop of GMPHashInsert: the first free slot along the run from h. */
  method FirstFree(occupied: array<bool>, h: nat, st: nat) returns (index: nat, ghost t: nat)
    requires h < occupied.Length && Spreads(st, occupied.Length)
    requires |OccSet(occupied[..])| < occupied.Length
    ensures t < occupied.Length && index == Probe(h, st, t, occupied.Length)
    ensures !occupied[index]
    ensures forall k :: 0 <= k < t ==> occupied[Probe(h, st, k, occupied.Length)]
  {
    ghost var occ := occupied[..];
    var size := occupied.Length;
    t := 0;
    index := h;
    assert index == Probe(h, st, 0, size);
    while occupied[index]
      invariant t < size && index == Probe(h, st, t, size)
      invariant forall k :: 0 <= k < t ==> occ[Probe(h, st, k, size)]
      decreases size - t
    {
      ProbeBeforeFree(h, st, t, occ);
      ProbeNext(h, st, t, size);
      ghost var next := Probe(h, st, t + 1, size);
      index := (index + st) % size;
      assert index == next;
      t := t + 1;
    }
  }

  /**
   * The probe loop of GMPHashContains: walks the run from h until it meets the
   * key (found) or a free slot (not found).
   */
  method ProbeFor(nodes: array<nat>, occupied: array<bool>, h: nat, st: nat, key: nat)
    returns (found: bool, index: nat, ghost t: nat)
    requires nodes.Length == occupied.Length && h < occupied.Length && Spreads(st, occupied.Length)
    requires |OccSet(occupied[..])| < occupied.Length
    ensures t < occupied.Length && index == Probe(h, st, t, occupied.Length)
    ensures found ==> occupied[index] && nodes[index] == key
    ensures !found ==> !occupied[index]
    ensures forall k :: 0 <= k < t ==> nodes[Probe(h, st, k, occupied.Length)] != key
  {
    ghost var occ := occupied[..];
    var size := occupied.Length;
    t := 0;
    index := h;
    assert index == Probe(h, st, 0, size);
    while occupied[index]
      invariant t < size && index == Probe(h, st, t, size)
      invariant forall k :: 0 <= k < t ==> occ[Probe(h, st, k, size)] && nodes[Probe(h, st, k, size)] != key
      decreases size - t
    {
      if nodes[index] == key {
        return true, index, t;
      }
      ProbeBeforeFree(h, st, t, occ);
      ProbeNext(h, st, t, size);
      ghost var next := Probe(h, st, t + 1, size);
      index := (index + st) % size;
      assert index == next;
      t := t + 1;
    }
    return false, index, t;
  }

  /** The keys stored in the occupied slots. */
  ghost function KeySet(ks: seq<nat>, occ: seq<bool>): set<nat>
    requires |ks| == |occ|
  {
    set j: nat | j < |occ| && occ[j] :: ks[j]
  }

  /**
   * The key in slot j was placed by probe number pr[j] of its own probe
   * sequence, and every earlier probe of that sequence is occupied.
   */
  ghost predicate PlacedAt(ks: seq<nat>, occ: seq<bool>, pr: seq<nat>, size: nat, digits: nat, j: nat)
    requires size > 0 && digits >= 2 && j < |ks| == |occ| == |pr| == size
  {
    var h, s := Hash1(ks[j], size), Hash2(ks[j], digits);
    pr[j] < size && Probe(h, s, pr[j], size) == j
    && forall t :: 0 <= t < pr[j] ==> occ[Probe(h, s, t, size)]
  }

  /** The open-addressing invariant: every occupied slot is reached by its key's probes. */
  ghost predicate Layout(ks: seq<nat>, occ: seq<bool>, pr: seq<nat>, size: nat, digits: nat)
  {
    digits >= 2 && size > 0 && |ks| == size && |occ| == size && |pr| == size
    && forall j: nat {:trigger PlacedAt(ks, occ, pr, size, digits, j)} ::
         j < size && occ[j] ==> PlacedAt(ks, occ, pr, size, digits, j)
  }

  lemma KeyIn(ks: seq<nat>, occ: seq<bool>, j: nat)
    requires |ks| == |occ| && j < |occ| && occ[j]
    ensures ks[j] in KeySet(ks, occ)
  {
  }

  /**
   * Storing key in the first free slot i of its probe sequence (probe t) keeps
   * the layout, adds i to the occupied slots and key to the keys.
   */
  lemma InsertLayout(ks: seq<nat>, occ: seq<bool>, pr: seq<nat>, size: nat, digits: nat, key: nat, t: nat, i: nat)
    requires Layout(ks, occ, pr, size, digits) && t < size
    requires i == Probe(Hash1(key, size), Hash2(key, digits), t, size) && !occ[i]
    requires forall k :: 0 <= k < t ==> occ[Probe(Hash1(key, size), Hash2(key, digits), k, size)]
    ensures Layout(ks[i := key], occ[i := true], pr[i := t], size, digits)
    ensures i !in OccSet(occ) && OccSet(occ[i := true]) == OccSet(occ) + {i}
    ensures KeySet(ks[i := key], occ[i := true]) == KeySet(ks, occ) + {key}
  {
    var ks', occ', pr' := ks[i := key], occ[i := true], pr[i := t];
    forall j: nat | j < size && occ'[j]
      ensures PlacedAt(ks', occ', pr', size, digits, j)
    {
      if j != i {
        assert PlacedAt(ks, occ, pr, size, digits, j);
      }
    }
    assert OccSet(occ') == OccSet(occ) + {i};
    forall x | x in KeySet(ks', occ')
      ensures x in KeySet(ks, occ) + {key}
    {
      var j: nat :| j < size && occ'[j] && ks'[j] == x;
      if j != i {
        KeyIn(ks, occ, j);
      }
    }
    forall x | x in KeySet(ks, occ) + {key}
      ensures x in KeySet(ks', occ')
    {
      if x == key {
        KeyIn(ks', occ', i);
      } else {
        var j: nat :| j < size && occ[j] && ks[j] == x;
        KeyIn(ks', occ', j);
      }
    }
  }

  /**
   * A key whose probe sequence reaches a free slot at probe t after passing
   * only other keys is not stored anywhere.
   */
  lemma AbsentLayout(ks: seq<nat>, occ: seq<bool>, pr: seq<nat>, size: nat, digits: nat, key: nat, t: nat)
    requires Layout(ks, occ, pr, size, digits) && t <= size
    requires !occ[Probe(Hash1(key, size), Hash2(key, digits), t, size)]
    requires forall k :: 0 <= k < t ==> ks[Probe(Hash1(key, size), Hash2(key, digits), k, size)] != key
    ensures key !in KeySet(ks, occ)
  {
    var hk, sk := Hash1(key, size), Hash2(key, digits);
    forall j: nat | j < size && occ[j]
      ensures ks[j] != key
    {
      assert PlacedAt(ks, occ, pr, size, digits, j);
      if pr[j] < t {
        assert ks[Probe(hk, sk, pr[j], size)] != key;
      } else if pr[j] > t {
        assert occ[Probe(Hash1(ks[j], size), Hash2(ks[j], digits), t, size)];
      }
    }
  }

  class GMPTable {
    const nodes: array<nat>
    const occupied: array<bool>
    const size: nat
    /** NUM_DIGITS, which fixes the range of strides. */
    const digits: nat
    var count: nat
    /** For each occupied slot, the probe number at which its key was placed. */
    ghost var probeOf: seq<nat>

    /** The keys stored in occupied slots. */
    ghost function Keys(): set<nat>
      reads this, nodes, occupied
      requires nodes.Length == occupied.Length
    {
      KeySet(nodes[..], occupied[..])
    }

    ghost predicate Valid()
      reads this, nodes, occupied
    {
      nodes.Length == size && occupied.Length == size
      && count == |OccSet(occupied[..])|
      && Layout(nodes[..], occupied[..], probeOf, size, digits)
    }

    /** Every stride the second hash can produce reaches every slot. */
    ghost predicate StridesSpread()
    {
      forall s :: 1 <= s < digits ==> Spreads(s, size)
    }

    /** createGMPTable: an empty table of the given capacity. */
    constructor (size: nat, digits: nat)
      requires size > 0 && digits >= 2
      ensures Valid() && Keys() == {} && count == 0
      ensures this.size == size && this.digits == digits
      ensures fresh(nodes) && fresh(occupied)
    {
      this.size := size;
      this.digits := digits;
      nodes := new nat[size](_ => 0);
      occupied := new bool[size](_ => false);
      count := 0;
      probeOf := seq(size, _ => 0);
      new;
      assert OccSet(occupied[..]) == {};
      assert Keys() == {};
    }

    /**
     * The probe loop of GMPHashInsert: the first free slot of key's probe
     * sequence, reached at probe t.  It exists because fewer than size slots
     * are occupied and the stride spreads.
     */
    method FindFree(key: nat) returns (index: nat, ghost t: nat)
      requires Valid() && StridesSpread() && count < size
      ensures t < size && index == Probe(Hash1(key, size), Hash2(key, digits), t, size)
      ensures !occupied[index]
      ensures forall k :: 0 <= k < t ==> occupied[Probe(Hash1(key, size), Hash2(key, digits), k, size)]
    {
      index, t := FirstFree(occupied, Hash1(key, size), Hash2(key, digits));
    }

    /**
     * GMPHashInsert: stores key in the first free slot of its probe sequence
     * and counts it.  There is no duplicate check: a key already present is
     * stored again and counted again.
     */
    method Insert(key: nat)
      requires Valid() && StridesSpread() && count < size
      modifies this, nodes, occupied
      ensures Valid()
      ensures Keys() == old(Keys()) + {key}
      ensures count == old(count) + 1
      ensures exists i :: (0 <= i < size && !old(occupied[i])
                           && occupied[..] == old(occupied[..])[i := true] && nodes[..] == old(nodes[..])[i := key])
    {
      var index, t := FindFree(key);
      ghost var ks, occ := nodes[..], occupied[..];
      InsertLayout(ks, occ, probeOf, size, digits, key, t, index);
      nodes[index] := key;
      occupied[index] := true;
      count := count + 1;
      probeOf := probeOf[index := t];
      assert nodes[..] == ks[index := key];
      assert occupied[..] == occ[index := true];
    }

    /** GMPHashContains: whether key is stored, found by walking its probe sequence. */
    method Contains(key: nat) returns (found: bool)
      requires Valid() && StridesSpread() && count < size
      ensures found <==> key in Keys()
    {
      var index: nat; ghost var t: nat;
      found, index, t := ProbeFor(nodes, occupied, Hash1(key, size), Hash2(key, digits), key);
      if found {
        KeyIn(nodes[..], occupied[..], index);
      } else {
        AbsentLayout(nodes[..], occupied[..], probeOf, size, digits, key, t);
      }
    }

    /** emptyGMPTable: clears every occupied flag and the count. */
    method Empty()
      requires Valid()
      modifies this, occupied
      ensures Valid() && Keys() == {} && count == 0
    {
      forall j | 0 <= j < occupied.Length {
        occupied[j] := false;
      }
      count := 0;
      assert OccSet(occupied[..]) == {};
      assert Keys() == {};
    }
  }
}
