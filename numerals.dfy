/**
 * Base-n numerals of step sequences.  A Gray code of length len over n digits
 * is identified with the len-digit base-n numeral whose most significant digit
 * is the first step (its "sequence number").  This module gives that value,
 * the lexicographic order that the searches compare with, and the arithmetic
 * of rotating a sequence by one position.
 */
module Numerals {
  import opened Bits

  function Pow(b: nat, k: nat): (r: nat)
    ensures b >= 1 ==> r >= 1
  {
    if k == 0 then 1 else b * Pow(b, k - 1)
  }

  lemma {:induction false} PowAdd(b: nat, i: nat, j: nat)
    ensures Pow(b, i + j) == Pow(b, i) * Pow(b, j)
  {
    if i != 0 {
      PowAdd(b, i - 1, j);
      assert Pow(b, i + j) == b * Pow(b, i - 1 + j);
      Scale(b, Pow(b, i - 1), Pow(b, j), Pow(b, i - 1 + j), Pow(b, i), Pow(b, i + j));
    }
  }

  lemma Scale(b: int, x: int, y: int, c: int, bx: int, bc: int)
    requires c == x * y && bx == b * x && bc == b * c
    ensures bc == bx * y
  {
  }

  /** Every entry is a digit below b. */
  predicate IsDigits(ds: seq<nat>, b: nat)
  {
    forall i :: 0 <= i < |ds| ==> ds[i] < b
  }

  /** Value of ds read as a base-b numeral, first entry most significant. */
  function Num(ds: seq<nat>, b: nat): nat
  {
    if |ds| == 0 then 0 else Num(ds[..|ds| - 1], b) * b + ds[|ds| - 1]
  }

  lemma {:induction false} NumAppend(xs: seq<nat>, ys: seq<nat>, b: nat)
    ensures Num(xs + ys, b) == Num(xs, b) * Pow(b, |ys|) + Num(ys, b)
    decreases |ys|
  {
    if |ys| == 0 {
      assert xs + ys == xs;
    } else {
      var ys' := ys[..|ys| - 1];
      assert (xs + ys)[..|xs + ys| - 1] == xs + ys';
      assert ys[..|ys| - 1] == ys';
      NumAppend(xs, ys', b);
      ShiftDigit(Num(xs, b), Num(ys', b), Pow(b, |ys'|), b, ys[|ys| - 1]);
    }
  }

  lemma ShiftDigit(hi: int, lo: int, p: int, b: int, d: int)
    ensures (hi * p + lo) * b + d == hi * (b * p) + (lo * b + d)
  {
  }

  lemma DigitBound(hi: int, d: int, p: int, b: int)
    requires 0 <= hi < p && 0 <= d < b
    ensures hi * b + d < b * p
  {
    MulMono(hi + 1, p, b);
  }

  lemma FrontLess(x0: int, rx: int, y0: int, ry: int, p: int)
    requires x0 < y0 && 0 <= rx < p && 0 <= ry
    ensures x0 * p + rx < y0 * p + ry
  {
    MulMono(x0 + 1, y0, p);
  }

  lemma MulMono(x: int, y: int, p: int)
    requires x <= y && p >= 0
    ensures x * p <= y * p
  {
  }

  /** The first digit carries weight b^(|ds|-1). */
  lemma NumFront(ds: seq<nat>, b: nat)
    requires |ds| > 0
    ensures Num(ds, b) == ds[0] * Pow(b, |ds| - 1) + Num(ds[1..], b)
  {
    assert ds == [ds[0]] + ds[1..];
    NumAppend([ds[0]], ds[1..], b);
    assert [ds[0]][..0] == [];
  }

  lemma {:induction false} NumBound(ds: seq<nat>, b: nat)
    requires IsDigits(ds, b)
    ensures Num(ds, b) < Pow(b, |ds|)
    decreases |ds|
  {
    if |ds| > 0 {
      var ds' := ds[..|ds| - 1];
      NumBound(ds', b);
      assert ds[|ds| - 1] < b;
      DigitBound(Num(ds', b), ds[|ds| - 1], Pow(b, |ds'|), b);
    }
  }

  /**
   * Strict lexicographic order on sequences of equal length, compared from
   * the first entry: the order the isLower routines decide.
   */
  predicate LexLess(x: seq<nat>, y: seq<nat>)
  {
    |x| > 0 && |y| > 0 && (x[0] < y[0] || (x[0] == y[0] && LexLess(x[1..], y[1..])))
  }

  /** Lexicographic order of digit strings is the order of their numerals. */
  lemma {:induction false} LexLessNum(x: seq<nat>, y: seq<nat>, b: nat)
    requires |x| == |y| && IsDigits(x, b) && IsDigits(y, b)
    ensures LexLess(x, y) <==> Num(x, b) < Num(y, b)
    decreases |x|
  {
    if |x| > 0 {
      var p := Pow(b, |x| - 1);
      NumFront(x, b);
      NumFront(y, b);
      NumBound(x[1..], b);
      NumBound(y[1..], b);
      if x[0] < y[0] {
        FrontLess(x[0], Num(x[1..], b), y[0], Num(y[1..], b), p);
      } else if x[0] > y[0] {
        FrontLess(y[0], Num(y[1..], b), x[0], Num(x[1..], b), p);
      } else {
        LexLessNum(x[1..], y[1..], b);
      }
    }
  }

  lemma {:induction false} LexLessIrreflexive(x: seq<nat>)
    ensures !LexLess(x, x)
    decreases |x|
  {
    if |x| > 0 {
      LexLessIrreflexive(x[1..]);
    }
  }

  /** Past an equal prefix, the order is decided by what follows it. */
  lemma {:induction false} LexLessFrom(x: seq<nat>, y: seq<nat>, k: nat)
    requires |x| == |y| && k <= |x| && x[..k] == y[..k]
    ensures LexLess(x, y) <==> LexLess(x[k..], y[k..])
    decreases k
  {
    if k > 0 {
      assert x[0] == y[0] by { assert x[..k][0] == y[..k][0]; }
      assert x[1..][..k - 1] == y[1..][..k - 1] by {
        assert x[1..][..k - 1] == x[..k][1..];
        assert y[1..][..k - 1] == y[..k][1..];
      }
      LexLessFrom(x[1..], y[1..], k - 1);
      assert x[1..][k - 1..] == x[k..];
      assert y[1..][k - 1..] == y[k..];
    }
  }

  lemma {:induction false} LexLessTrans(x: seq<nat>, y: seq<nat>, z: seq<nat>)
    requires LexLess(x, y) && LexLess(y, z)
    ensures LexLess(x, z)
    decreases |x|
  {
    if x[0] == y[0] && y[0] == z[0] {
      LexLessTrans(x[1..], y[1..], z[1..]);
    }
  }

  /** Two different sequences of equal length are ordered one way or the other. */
  lemma {:induction false} LexTotal(x: seq<nat>, y: seq<nat>)
    requires |x| == |y| && x != y
    ensures LexLess(x, y) || LexLess(y, x)
    decreases |x|
  {
    if x[0] == y[0] {
      assert x == [x[0]] + x[1..] && y == [y[0]] + y[1..];
      LexTotal(x[1..], y[1..]);
    }
  }

  /** Digit strings of equal length with equal numerals are equal. */
  lemma NumInjective(x: seq<nat>, y: seq<nat>, b: nat)
    requires |x| == |y| && IsDigits(x, b) && IsDigits(y, b) && Num(x, b) == Num(y, b)
    ensures x == y
  {
    if x != y {
      LexTotal(x, y);
      LexLessNum(x, y, b);
      LexLessNum(y, x, b);
    }
  }

  /** Rotation left by one position: the second step becomes the first. */
  function RotL(ds: seq<nat>): (r: seq<nat>)
    ensures |r| == |ds|
  {
    if |ds| == 0 then ds else ds[1..] + [ds[0]]
  }

  /** Rotation left by k positions. */
  function Rot(ds: seq<nat>, k: nat): (r: seq<nat>)
    requires k <= |ds|
    ensures |r| == |ds|
  {
    ds[k..] + ds[..k]
  }

  lemma RotStep(ds: seq<nat>, k: nat)
    requires k < |ds|
    ensures RotL(Rot(ds, k)) == Rot(ds, k + 1)
  {
    var r := Rot(ds, k);
    assert r[0] == ds[k];
    assert r[1..] == ds[k + 1..] + ds[..k];
    assert ds[..k + 1] == ds[..k] + [ds[k]];
  }

  lemma RotFull(ds: seq<nat>)
    ensures Rot(ds, |ds|) == ds && Rot(ds, 0) == ds
  {
    assert ds[|ds|..] == [];
    assert ds[0..] == ds;
  }

  /** Rotating by a and then by b is rotating by a + b. */
  lemma RotCompose(ds: seq<nat>, a: nat, b: nat)
    requires a + b <= |ds|
    ensures Rot(Rot(ds, a), b) == Rot(ds, a + b)
  {
    var r := Rot(ds, a);
    assert r[b..] == ds[a + b..] + ds[..a];
    assert r[..b] == ds[a..a + b];
    assert ds[..a + b] == ds[..a] + ds[a..a + b];
  }

  /**
   * If rotating by p gives back the sequence, every rotation is one of the
   * first p.
   */
  lemma {:induction false} RotPeriodic(ds: seq<nat>, p: nat, j: nat)
    requires 0 < p <= |ds| && Rot(ds, p) == ds && j <= |ds|
    ensures Rot(ds, j) == Rot(ds, j % p)
    decreases j
  {
    if j >= p {
      RotCompose(ds, p, j - p);
      RotPeriodic(ds, p, j - p);
      ModSub(j, p);
    } else {
      assert j % p == j;
    }
  }

  lemma ModSub(j: nat, p: nat)
    requires 0 < p <= j
    ensures (j - p) % p == j % p
  {
    var q, r := (j - p) / p, (j - p) % p;
    assert j - p == q * p + r;
    assert j == (q + 1) * p + r;
    DivModUnique(j, q + 1, r, p);
  }

  /** Rotations of a digit string are digit strings. */
  lemma RotDigits(ds: seq<nat>, k: nat, b: nat)
    requires k <= |ds| && IsDigits(ds, b)
    ensures IsDigits(Rot(ds, k), b)
  {
  }

  /**
   * Rotating a numeral left: the new value is the old one times b, minus the
   * first digit times (b^L - 1), where L is the length.
   */
  lemma RotLNum(ds: seq<nat>, b: nat)
    requires |ds| > 0
    ensures Num(RotL(ds), b) == Num(ds, b) * b - ds[0] * (Pow(b, |ds|) - 1)
  {
    NumFront(ds, b);
    RotLLast(ds, b);
    PowStep(b, |ds|);
    RotArith(Num(RotL(ds), b), Num(ds, b), ds[0], Num(ds[1..], b), Pow(b, |ds| - 1), Pow(b, |ds|), b);
  }

  /** The rotated numeral ends in the former first digit. */
  lemma RotLLast(ds: seq<nat>, b: nat)
    requires |ds| > 0
    ensures Num(RotL(ds), b) == Num(ds[1..], b) * b + ds[0]
  {
    var r := RotL(ds);
    assert r[..|r| - 1] == ds[1..];
  }

  lemma PowStep(b: nat, k: nat)
    requires k > 0
    ensures Pow(b, k) == b * Pow(b, k - 1)
  {
  }

  lemma RotArith(a: int, n: int, d: int, rest: int, p: int, q: int, b: int)
    requires a == rest * b + d && n == d * p + rest && q == b * p
    ensures a == n * b - d * (q - 1)
  {
  }

  /** The digits of a value below b^len, most significant first. */
  function Digits(x: nat, b: nat, len: nat): (ds: seq<nat>)
    requires b >= 1
    ensures |ds| == len
    decreases len
  {
    if len == 0 then [] else Digits(x / b, b, len - 1) + [x % b]
  }

  lemma {:induction false} DigitsNum(x: nat, b: nat, len: nat)
    requires b >= 2 && x < Pow(b, len)
    ensures Num(Digits(x, b, len), b) == x && IsDigits(Digits(x, b, len), b)
    decreases len
  {
    if len > 0 {
      var ds := Digits(x, b, len);
      assert ds[..len - 1] == Digits(x / b, b, len - 1);
      DivBound(x, b, Pow(b, len - 1));
      DigitsNum(x / b, b, len - 1);
      DivMod(x, b);
      assert Num(ds, b) == (x / b) * b + x % b;
    }
  }

  lemma DivBound(x: nat, b: nat, p: nat)
    requires b >= 1 && x < b * p
    ensures x / b < p
  {
  }

  lemma DivMod(x: nat, b: nat)
    requires b >= 1
    ensures (x / b) * b + x % b == x
  {
  }
}
