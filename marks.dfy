/**
 * The binary search of both markForRemoval routines: a list of sequences,
 * sorted on the entries from `from` to len - 1, is searched for a sequence
 * with the same entries there.  The entries before `from` are the same in
 * every sequence of the list (the common start of the codes), and entry 0 is
 * the removal mark.
 */
module SortedSearch {
  import opened Numerals

  /** The part of a sequence the search compares. */
  function Key(s: seq<nat>, from: nat, len: nat): seq<nat>
    requires from <= len <= |s|
  {
    s[from..len]
  }

  /** Every sequence has len entries and the keys strictly increase along the list. */
  predicate SortedKeys(seqs: seq<seq<nat>>, from: nat, len: nat)
  {
    from <= len && (forall i :: 0 <= i < |seqs| ==> |seqs[i]| == len)
    && forall i, j :: 0 <= i < j < |seqs| ==> LexLess(Key(seqs[i], from, len), Key(seqs[j], from, len))
  }

  /**
   * The inner comparison loop: walks the entries from `from` on while they are
   * equal.  The result is 0 for equal keys, positive when a's key is the
   * greater and negative when it is the smaller.
   */
  method Compare(a: seq<nat>, b: seq<nat>, from: nat, len: nat) returns (c: int)
    requires from < len <= |a| && len <= |b|
    ensures c == 0 <==> Key(a, from, len) == Key(b, from, len)
    ensures c > 0 <==> LexLess(Key(b, from, len), Key(a, from, len))
    ensures c < 0 <==> LexLess(Key(a, from, len), Key(b, from, len))
  {
    ghost var x, y := a[from..len], b[from..len];
    var j := from;
    while a[j] == b[j]
      invariant from <= j < len && a[from..j] == b[from..j]
      decreases len - j
    {
      assert a[from..j + 1] == a[from..j] + [a[j]];
      assert b[from..j + 1] == b[from..j] + [b[j]];
      j := j + 1;
      if j == len {
        LexLessIrreflexive(x);
        return 0;
      }
    }
    var k := j - from;
    assert x[..k] == y[..k] by {
      assert x[..k] == a[from..j] && y[..k] == b[from..j];
    }
    LexLessFrom(x, y, k);
    LexLessFrom(y, x, k);
    assert x[k..][0] == a[j] && y[k..][0] == b[j];
    assert x != y by {
      assert x[k] != y[k];
    }
    c := if a[j] > b[j] then 1 else -1;
  }

  /**
   * The search loop with an inclusive high index: low and high close in on
   * the key, every entry below low has a smaller key and every entry above
   * high a greater one.
   */
  method Search(seqs: array<seq<nat>>, high0: int, key: seq<nat>, from: nat, len: nat) returns (found: bool, mid: int)
    requires -1 <= high0 < seqs.Length && from < len == |key| && SortedKeys(seqs[..high0 + 1], from, len)
    ensures found ==> 0 <= mid <= high0 && Key(seqs[mid], from, len) == Key(key, from, len)
    ensures !found <==> forall i :: 0 <= i <= high0 ==> Key(seqs[i], from, len) != Key(key, from, len)
  {
    ghost var S := seqs[..high0 + 1];
    ghost var K := Key(key, from, len);
    assert forall i :: 0 <= i <= high0 ==> seqs[i] == S[i];
    var low, high := 0, high0;
    while low <= high
      invariant 0 <= low <= high0 + 1 && -1 <= high <= high0
      invariant forall i :: 0 <= i < low ==> LexLess(Key(S[i], from, len), K)
      invariant forall i :: high < i <= high0 ==> LexLess(K, Key(S[i], from, len))
      decreases high - low
    {
      mid := low + (high - low) / 2;
      var c := Compare(key, seqs[mid], from, len);
      if c == 0 {
        return true, mid;
      }
      if c > 0 {
        forall i | 0 <= i < mid
          ensures LexLess(Key(S[i], from, len), K)
        {
          LexLessTrans(Key(S[i], from, len), Key(S[mid], from, len), K);
        }
        low := mid + 1;
      } else {
        forall i | mid < i <= high0
          ensures LexLess(K, Key(S[i], from, len))
        {
          LexLessTrans(K, Key(S[mid], from, len), Key(S[i], from, len));
        }
        high := mid - 1;
      }
    }
    forall i | 0 <= i <= high0
      ensures Key(S[i], from, len) != K
    {
      LexLessIrreflexive(K);
    }
    return false, -1;
  }

  /** With strictly increasing keys, at most one entry has a given key. */
  lemma KeyUnique(seqs: seq<seq<nat>>, from: nat, len: nat, i: nat, j: nat)
    requires SortedKeys(seqs, from, len) && i < |seqs| && j < |seqs|
    requires Key(seqs[i], from, len) == Key(seqs[j], from, len)
    ensures i == j
  {
    if i < j || j < i {
      LexLessIrreflexive(Key(seqs[i], from, len));
    }
  }
}
