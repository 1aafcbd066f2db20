/**
 * Bit-level vocabulary shared by the whole model: powers of two, the bitwise
 * exclusive or and and of two naturals, trailing-zero counts, and the
 * single-bit "step masks" that the backtracking searches keep in their step
 * buffers (1 << d for a digit d below the digit count).
 */
module Bits {

  /** 2^k, the mask of digit k. */
  function Pow2(k: nat): (r: nat)
    ensures r >= 1
  {
    if k == 0 then 1 else 2 * Pow2(k - 1)
  }

  lemma {:induction false} Pow2Monotone(i: nat, j: nat)
    requires i < j
    ensures Pow2(i) < Pow2(j)
  {
    if j == i + 1 {
    } else {
      Pow2Monotone(i, j - 1);
    }
  }

  lemma Pow2Injective(i: nat, j: nat)
    ensures Pow2(i) == Pow2(j) <==> i == j
  {
    if i < j { Pow2Monotone(i, j); }
    if j < i { Pow2Monotone(j, i); }
  }

  lemma {:induction false} Pow2Add(i: nat, j: nat)
    ensures Pow2(i + j) == Pow2(i) * Pow2(j)
  {
    if i != 0 {
      Pow2Add(i - 1, j);
      assert Pow2(i + j) == 2 * Pow2(i - 1 + j);
      Double(Pow2(i - 1), Pow2(j), Pow2(i - 1 + j), Pow2(i), Pow2(i + j));
    }
  }

  lemma Double(a: int, b: int, c: int, a2: int, c2: int)
    requires c == a * b && a2 == 2 * a && c2 == 2 * c
    ensures c2 == a2 * b
  {
  }

  /** Bitwise exclusive or (C's ^) on naturals. */
  function Xor(a: nat, b: nat): nat
    decreases a + b
  {
    if a == 0 then b
    else if b == 0 then a
    else 2 * Xor(a / 2, b / 2) + (if a % 2 == b % 2 then 0 else 1)
  }

  /** Bitwise and (C's &) on naturals. */
  function And(a: nat, b: nat): nat
    decreases a + b
  {
    if a == 0 || b == 0 then 0
    else 2 * And(a / 2, b / 2) + (if a % 2 == 1 && b % 2 == 1 then 1 else 0)
  }

  /** The recurrence of Xor holds on the zero cases too. */
  lemma XorStep(a: nat, b: nat)
    ensures Xor(a, b) == 2 * Xor(a / 2, b / 2) + (if a % 2 == b % 2 then 0 else 1)
  {
    if a == 0 {
      assert Xor(a / 2, b / 2) == b / 2;
    } else if b == 0 {
      assert Xor(a / 2, b / 2) == a / 2;
    }
  }

  lemma {:induction false} XorCancel(v: nat, a: nat)
    ensures Xor(Xor(v, a), a) == v
    decreases v + a
  {
    if v == 0 {
      XorSelf(a);
    } else if a != 0 {
      var x := Xor(v, a);
      XorStep(x, a);
      assert x / 2 == Xor(v / 2, a / 2);
      assert x % 2 == (if v % 2 == a % 2 then 0 else 1);
      XorCancel(v / 2, a / 2);
      assert Xor(x, a) == 2 * (v / 2) + v % 2;
    }
  }

  lemma {:induction false} XorComm(a: nat, b: nat)
    ensures Xor(a, b) == Xor(b, a)
    decreases a + b
  {
    if a != 0 && b != 0 {
      XorComm(a / 2, b / 2);
    }
  }

  lemma {:induction false} XorAssoc(a: nat, b: nat, c: nat)
    ensures Xor(Xor(a, b), c) == Xor(a, Xor(b, c))
    decreases a + b + c
  {
    if a != 0 && b != 0 && c != 0 {
      var x, y := Xor(a, b), Xor(b, c);
      XorStep(a, b);
      XorStep(b, c);
      XorStep(x, c);
      XorStep(a, y);
      assert x / 2 == Xor(a / 2, b / 2) && x % 2 == (if a % 2 == b % 2 then 0 else 1);
      assert y / 2 == Xor(b / 2, c / 2) && y % 2 == (if b % 2 == c % 2 then 0 else 1);
      XorAssoc(a / 2, b / 2, c / 2);
    }
  }

  /** Exclusive-oring in x, y, x and y again gives back the start. */
  lemma XorSquare(u: nat, x: nat, y: nat)
    ensures Xor(Xor(Xor(Xor(u, x), y), x), y) == u
  {
    var u1 := Xor(u, x);
    XorAssoc(u1, y, x);
    XorComm(y, x);
    XorAssoc(u1, x, y);
    XorCancel(u, x);
    XorCancel(u, y);
  }

  lemma {:induction false} XorSelf(a: nat)
    ensures Xor(a, a) == 0
    decreases a
  {
    if a != 0 {
      XorSelf(a / 2);
    }
  }

  lemma {:induction false} XorZeroIff(a: nat, b: nat)
    ensures Xor(a, b) == 0 <==> a == b
    decreases a + b
  {
    if a == b {
      XorSelf(a);
    } else if a != 0 && b != 0 {
      XorZeroIff(a / 2, b / 2);
    }
  }

  lemma {:induction false} XorBound(a: nat, b: nat, k: nat)
    requires a < Pow2(k) && b < Pow2(k)
    ensures Xor(a, b) < Pow2(k)
    decreases k
  {
    if a != 0 && b != 0 {
      XorBound(a / 2, b / 2, k - 1);
    }
  }

  /** Bit d of x: (x >> d) & 1. */
  function Bit(x: nat, d: nat): nat
  {
    if d == 0 then x % 2 else Bit(x / 2, d - 1)
  }

  lemma {:induction false} ZeroBit(d: nat)
    ensures Bit(0, d) == 0
    decreases d
  {
    if d > 0 {
      ZeroBit(d - 1);
    }
  }

  /** 2^e has bit e set and no other. */
  lemma {:induction false} Pow2Bit(e: nat, d: nat)
    ensures Bit(Pow2(e), d) == if e == d then 1 else 0
    decreases e
  {
    if e > 0 && d > 0 {
      Pow2Bit(e - 1, d - 1);
    } else if e == 0 && d > 0 {
      ZeroBit(d - 1);
    }
  }

  /** An exclusive or with a number whose bit d is clear leaves bit d alone. */
  lemma {:induction false} XorKeepsBit(a: nat, b: nat, d: nat)
    requires Bit(b, d) == 0
    ensures Bit(Xor(a, b), d) == Bit(a, d)
    decreases d
  {
    XorStep(a, b);
    DivModUnique(Xor(a, b), Xor(a / 2, b / 2), if a % 2 == b % 2 then 0 else 1, 2);
    if d > 0 {
      XorKeepsBit(a / 2, b / 2, d - 1);
    }
  }

  /**
   * A step mask for n digits: one of 1, 2, 4, ..., 2^(n-1), that is a single
   * set bit within [1, LAST_DIGIT_STEP].
   */
  predicate IsStepMask(m: nat, n: nat)
    decreases n
  {
    n > 0 && (m == 1 || (m > 1 && m % 2 == 0 && IsStepMask(m / 2, n - 1)))
  }

  lemma {:induction false} StepMaskIsPow2(m: nat, n: nat)
    requires IsStepMask(m, n)
    ensures Ctz(m) < n && Pow2(Ctz(m)) == m && m <= Pow2(n - 1)
    decreases n
  {
    if m != 1 {
      StepMaskIsPow2(m / 2, n - 1);
    }
  }

  lemma {:induction false} Pow2IsStepMask(d: nat, n: nat)
    requires d < n
    ensures IsStepMask(Pow2(d), n) && Ctz(Pow2(d)) == d
    decreases d
  {
    if d > 0 {
      Pow2IsStepMask(d - 1, n - 1);
    }
  }

  lemma StepMaskBelow(m: nat, n: nat)
    requires IsStepMask(m, n)
    ensures 1 <= m < Pow2(n)
  {
    StepMaskIsPow2(m, n);
  }

  /** Doubling a step mask other than the highest gives the next step mask. */
  lemma StepMaskShift(m: nat, n: nat)
    requires IsStepMask(m, n) && m != Pow2(n - 1)
    ensures IsStepMask(2 * m, n) && Ctz(2 * m) == Ctz(m) + 1
  {
    StepMaskIsPow2(m, n);
    var d := Ctz(m);
    if d + 1 >= n {
      assert false;
    }
    Pow2IsStepMask(d + 1, n);
  }

  /** For a step mask, (m & LAST_DIGIT_STEP) is non-zero exactly when m is LAST_DIGIT_STEP. */
  lemma {:induction false} AndLastIff(m: nat, n: nat)
    requires IsStepMask(m, n)
    ensures And(m, Pow2(n - 1)) != 0 <==> m == Pow2(n - 1)
    decreases n
  {
    if n == 1 {
      assert m == 1;
    } else if m == 1 {
      assert Pow2(n - 1) % 2 == 0;
      assert And(m, Pow2(n - 1)) == 2 * And(0, Pow2(n - 1) / 2);
    } else {
      AndLastIff(m / 2, n - 1);
      assert Pow2(n - 1) / 2 == Pow2(n - 2);
      StepMaskIsPow2(m / 2, n - 1);
    }
  }

  /** x & y never exceeds y. */
  lemma {:induction false} AndBound(a: nat, b: nat)
    ensures And(a, b) <= b
    decreases a + b
  {
    if a != 0 && b != 0 {
      AndBound(a / 2, b / 2);
    }
  }

  /** Masking with 2^e - 1 keeps the low e bits: x & (2^e - 1) == x mod 2^e. */
  lemma {:induction false} AndLowMask(x: nat, e: nat)
    ensures And(x, Pow2(e) - 1) == x % Pow2(e)
    decreases e
  {
    if e == 0 {
      assert x % 1 == 0;
    } else if x == 0 {
    } else {
      var p := Pow2(e - 1);
      assert (Pow2(e) - 1) / 2 == p - 1 && (Pow2(e) - 1) % 2 == 1;
      AndLowMask(x / 2, e - 1);
      assert And(x, Pow2(e) - 1) == 2 * ((x / 2) % p) + x % 2;
      LowBits(x, p);
    }
  }

  lemma LowBits(x: nat, p: nat)
    requires p >= 1
    ensures 2 * ((x / 2) % p) + x % 2 == x % (2 * p)
  {
    var q, r := (x / 2) / p, (x / 2) % p;
    assert x / 2 == q * p + r;
    assert x == q * (2 * p) + (2 * r + x % 2);
    DivModUnique(x, q, 2 * r + x % 2, 2 * p);
  }

  /** Division with remainder is unique. */
  lemma DivModUnique(x: int, q: int, r: int, m: int)
    requires m > 0 && 0 <= r < m && x == q * m + r
    ensures x / m == q && x % m == r
  {
    var q', r' := x / m, x % m;
    assert x == q' * m + r';
    assert (q - q') * m == r' - r;
    if q > q' {
      MulAtLeast(q - q', m);
    } else if q < q' {
      MulAtLeast(q' - q, m);
    }
  }

  lemma MulAtLeast(k: int, m: int)
    requires k >= 1 && m > 0
    ensures k * m >= m
  {
    assert k * m == (k - 1) * m + m;
    assert (k - 1) * m >= 0;
  }

  /** Count of trailing zero bits (GCC's __builtin_ctz, the source's log2 macro). */
  function Ctz(x: nat): nat
    decreases x
  {
    if x == 0 || x % 2 == 1 then 0 else 1 + Ctz(x / 2)
  }
}
