/**
 * Open addressing with double hashing, as both hash tables use it: the t-th
 * slot tried for a key is (h + t * s) mod m, where h is the first hash and s
 * the stride.  When every non-zero multiple d * s with d < m is not divisible
 * by m, the first m probes are pairwise different, so every slot is tried;
 * this module proves that for the two table shapes of the program (an odd
 * stride into a power of two, and a stride below n into 2 n! + 1 slots).
 */
module Probing {
  import opened Bits
  import opened PermQueue
  import opened Counting

  /** The t-th slot tried. */
  function Probe(h: nat, s: nat, t: nat, m: nat): (r: nat)
    requires m > 0
    ensures r < m
  {
    (h + t * s) % m
  }

  /** Stepping from one probe by the stride, modulo m, gives the next probe. */
  lemma ProbeNext(h: nat, s: nat, t: nat, m: nat)
    requires m > 0
    ensures (Probe(h, s, t, m) + s) % m == Probe(h, s, t + 1, m)
  {
    var x := h + t * s;
    var y := h + (t + 1) * s;
    Distrib(t, s);
    assert y == x + s;
    ModAddMod(x, s, m);
  }

  lemma Distrib(t: int, s: int)
    ensures t * s + s == (t + 1) * s
  {
  }

  lemma ModAddMod(a: nat, b: nat, m: nat)
    requires m > 0
    ensures (a % m + b) % m == (a + b) % m
  {
    var q, r := a / m, a % m;
    var q2, r2 := (r + b) / m, (r + b) % m;
    assert a == q * m + r;
    assert r + b == q2 * m + r2;
    AddMultiples(q, q2, m);
    DivModUnique(a + b, q + q2, r2, m);
  }

  lemma AddMultiples(q: int, q2: int, m: int)
    ensures q * m + q2 * m == (q + q2) * m
  {
  }

  lemma ModShift(x: nat, q: nat, m: nat)
    requires m > 0
    ensures (q * m + x) % m == x % m
  {
    assert x == (x / m) * m + x % m;
    assert q * m + x == (q + x / m) * m + x % m;
    DivModUnique(q * m + x, q + x / m, x % m, m);
  }

  /** No multiple d * s with 0 < d < m is a multiple of m. */
  predicate Spreads(s: nat, m: nat)
  {
    m > 0 && forall d :: 0 < d < m ==> (d * s) % m != 0
  }

  /** Equal remainders mean the difference is a multiple. */
  lemma ModEqualDiff(a: nat, b: nat, m: nat)
    requires m > 0 && a <= b
    ensures a % m == b % m ==> (b - a) % m == 0
  {
    if a % m == b % m {
      var qa, qb := a / m, b / m;
      assert a == qa * m + a % m;
      assert b == qb * m + b % m;
      assert b - a == (qb - qa) * m;
      if qb < qa {
        MulAtLeast(qa - qb, m);
      }
      DivModUnique(b - a, qb - qa, 0, m);
    }
  }

  /** With a spreading stride the first m probes are pairwise different. */
  lemma ProbeInjective(h: nat, s: nat, m: nat, t1: nat, t2: nat)
    requires Spreads(s, m) && t1 < t2 < m
    ensures Probe(h, s, t1, m) != Probe(h, s, t2, m)
  {
    MulMonotone(t1, t2, s);
    assert (h + t2 * s) - (h + t1 * s) == (t2 - t1) * s;
    assert ((t2 - t1) * s) % m != 0;
    ModEqualDiff(h + t1 * s, h + t2 * s, m);
  }

  lemma MulMonotone(a: nat, b: nat, s: nat)
    requires a <= b
    ensures a * s <= b * s
  {
    assert b * s == a * s + (b - a) * s;
  }

  /** The slots tried by the first t probes. */
  function ProbeSet(h: nat, s: nat, t: nat, m: nat): set<nat>
    requires m > 0
  {
    if t == 0 then {} else ProbeSet(h, s, t - 1, m) + {Probe(h, s, t - 1, m)}
  }

  lemma {:induction false} ProbeSetSize(h: nat, s: nat, t: nat, m: nat)
    requires Spreads(s, m) && t <= m
    ensures |ProbeSet(h, s, t, m)| == t
    ensures forall j :: j in ProbeSet(h, s, t, m) ==> j < m
  {
    if t > 0 {
      ProbeSetSize(h, s, t - 1, m);
      ProbeSetMember(h, s, t - 1, m, Probe(h, s, t - 1, m));
    }
  }

  lemma {:induction false} ProbeSetMember(h: nat, s: nat, t: nat, m: nat, j: nat)
    requires Spreads(s, m) && t < m && j == Probe(h, s, t, m)
    ensures j !in ProbeSet(h, s, t, m)
  {
    if t > 0 {
      ProbeInjective(h, s, m, t - 1, t);
      ProbeSetNotIn(h, s, t - 1, m, t);
    }
  }

  lemma {:induction false} ProbeSetNotIn(h: nat, s: nat, k: nat, m: nat, t: nat)
    requires Spreads(s, m) && k < t < m
    ensures Probe(h, s, t, m) !in ProbeSet(h, s, k + 1, m)
    decreases k
  {
    ProbeInjective(h, s, m, k, t);
    if k > 0 {
      ProbeSetNotIn(h, s, k - 1, m, t);
    }
  }

  /**
   * If the first t probes all land in the slot set S (the occupied slots), then
   * t is at most |S|: probing never runs past the number of occupied slots.
   */
  lemma {:induction false} ProbesWithin(h: nat, s: nat, t: nat, m: nat, S: set<nat>)
    requires Spreads(s, m) && t <= m
    requires forall k :: 0 <= k < t ==> Probe(h, s, k, m) in S
    ensures t <= |S|
  {
    ProbeSetSize(h, s, t, m);
    ProbeSetWithin(h, s, t, m, S);
    SubsetCard(ProbeSet(h, s, t, m), S);
  }

  lemma {:induction false} ProbeSetWithin(h: nat, s: nat, t: nat, m: nat, S: set<nat>)
    requires m > 0 && forall k :: 0 <= k < t ==> Probe(h, s, k, m) in S
    ensures ProbeSet(h, s, t, m) <= S
  {
    if t > 0 {
      ProbeSetWithin(h, s, t - 1, m, S);
    }
  }

  /** An odd stride spreads over a power of two. */
  lemma OddSpreads(s: nat, e: nat)
    requires s % 2 == 1
    ensures Spreads(s, Pow2(e))
  {
    forall d | 0 < d < Pow2(e)
      ensures (d * s) % Pow2(e) != 0
    {
      OddCancel(d, s, e);
      DivModUnique(d, 0, d, Pow2(e));
    }
  }

  /** A power of two dividing d * s with s odd divides d. */
  lemma {:induction false} OddCancel(d: nat, s: nat, e: nat)
    requires s % 2 == 1
    ensures (d * s) % Pow2(e) == 0 ==> d % Pow2(e) == 0
    decreases e
  {
    if e == 0 {
      DivModUnique(d, d, 0, 1);
    } else if (d * s) % Pow2(e) == 0 {
      HalveDivisible(d * s, e);
      OddFactorEven(d, s);
      var d' := d / 2;
      assert d * s == 2 * (d' * s) by {
        assert d == 2 * d';
      }
      OddCancel(d', s, e - 1);
      DoubleDivisible(d', e);
    }
  }

  /** A multiple of 2^e, e > 0, is even and its half is a multiple of 2^(e-1). */
  lemma HalveDivisible(x: nat, e: nat)
    requires e > 0 && x % Pow2(e) == 0
    ensures x % 2 == 0 && (x / 2) % Pow2(e - 1) == 0
  {
    var P := Pow2(e - 1);
    var c := x / Pow2(e);
    assert x == c * Pow2(e);
    assert x == 2 * (c * P);
    DivModUnique(x, c * P, 0, 2);
    DivModUnique(c * P, c, 0, P);
  }

  /** Twice a multiple of 2^(e-1) is a multiple of 2^e. */
  lemma DoubleDivisible(y: nat, e: nat)
    requires e > 0 && y % Pow2(e - 1) == 0
    ensures (2 * y) % Pow2(e) == 0
  {
    var k := y / Pow2(e - 1);
    assert y == k * Pow2(e - 1);
    assert 2 * y == k * Pow2(e);
    DivModUnique(2 * y, k, 0, Pow2(e));
  }

  lemma OddFactorEven(d: nat, s: nat)
    requires s % 2 == 1 && (d * s) % 2 == 0
    ensures d % 2 == 0
  {
    var a, b := d / 2, s / 2;
    assert s == 2 * b + 1;
    assert d == 2 * a + d % 2;
    assert d * s == 2 * (a * s + b * (d % 2)) + d % 2;
    DivModUnique(d * s, a * s + b * (d % 2), d % 2, 2);
  }

  /** If m mod s = 1 and m divides d * s, then m divides d. */
  lemma ResidueCancel(d: nat, s: nat, m: nat)
    requires m > 0 && s >= 1 && m % s == 1
    ensures (d * s) % m == 0 ==> d % m == 0
  {
    if (d * s) % m == 0 {
      var c := (d * s) / m;
      assert d * s == c * m;
      var k := m / s;
      assert m == k * s + 1;
      assert c * m == (c * k) * s + c;
      assert d * s == (c * k) * s + c;
      assert c == (d - c * k) * s by {
        assert c == d * s - (c * k) * s;
      }
      var c' := d - c * k;
      assert d * s == (c' * m) * s by {
        assert c * m == (c' * s) * m;
      }
      MulCancel(d, c' * m, s);
      DivModUnique(d, c', 0, m);
    }
  }

  lemma MulCancel(x: int, y: int, s: int)
    requires s > 0 && x * s == y * s
    ensures x == y
  {
    if x < y {
      assert y * s == x * s + (y - x) * s;
      MulAtLeast(y - x, s);
    } else if x > y {
      assert x * s == y * s + (x - y) * s;
      MulAtLeast(x - y, s);
    }
  }

  /** A stride s with m mod s = 1 (or s = 1) spreads over m. */
  lemma UnitResidueSpreads(s: nat, m: nat)
    requires m > 0 && s >= 1 && (s == 1 || m % s == 1)
    ensures Spreads(s, m)
  {
    forall d | 0 < d < m
      ensures (d * s) % m != 0
    {
      DivModUnique(d, 0, d, m);
      if s == 1 {
        assert d * s == d;
      } else {
        ResidueCancel(d, s, m);
      }
    }
  }

  lemma {:induction false} FactDivisible(n: nat, s: nat)
    requires 1 <= s <= n
    ensures Fact(n) % s == 0
  {
    var f := Fact(n - 1);
    assert Fact(n) == n * f;
    if s == n {
      DivModUnique(n * f, f, 0, n);
    } else {
      FactDivisible(n - 1, s);
      MultipleTimes(f, n, s);
    }
  }

  /** A multiple of s times n is a multiple of s. */
  lemma MultipleTimes(f: nat, n: nat, s: nat)
    requires s >= 1 && f % s == 0
    ensures (n * f) % s == 0
  {
    var q := f / s;
    assert f == q * s;
    assert n * f == (n * q) * s;
    DivModUnique(n * f, n * q, 0, s);
  }

  /**
   * The table of unique permutations has 2 n! + 1 slots and strides in
   * [1, n - 1]: every stride spreads.
   */
  lemma FactorialTableSpreads(n: nat, s: nat)
    requires 1 <= s < n
    ensures Spreads(s, 2 * Fact(n) + 1)
  {
    var f := Fact(n);
    if s > 1 {
      FactDivisible(n, s);
      OddAfterMultiple(f, s);
    }
    UnitResidueSpreads(s, 2 * f + 1);
  }

  lemma OddAfterMultiple(f: nat, s: nat)
    requires s > 1 && f % s == 0
    ensures (2 * f + 1) % s == 1
  {
    var q := f / s;
    assert f == q * s;
    assert 2 * f + 1 == (2 * q) * s + 1;
    DivModUnique(2 * f + 1, 2 * q, 1, s);
  }
}
