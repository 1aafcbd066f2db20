/**
 * Relabellings of a seed up to rotation.  A relabelling sends each digit d
 * to a[d] for an arrangement a of the digits; two relabellings are the same
 * code read from a different starting step when one is a rotation of the
 * other.  The number of such classes is the count extrapolateSeeds is after,
 * and when the seed uses every digit it is n! divided by a power of two: by
 * orbit counting, n! is the class count times the number of arrangements
 * that only rotate the seed, and those act freely on the rotations of the
 * seed, whose number divides its length 2^n.
 */
module Relabellings {
  import opened Bits
  import opened Numerals
  import opened PermQueue
  import opened Counting
  import opened Chimera

  /** The relabelling of x by a: each digit d becomes a[d]. */
  function Apply(a: seq<nat>, x: seq<nat>): (r: seq<nat>)
    ensures |r| == |x|
  {
    seq(|x|, i requires 0 <= i < |x| => if x[i] < |a| then a[x[i]] else x[i])
  }

  /** a is an arrangement of the digits 0 .. n-1. */
  predicate IsPerm(a: seq<nat>, n: nat)
  {
    |a| == n && AllDistinct(a) && IsDigits(a, n)
  }

  /** Every digit below n occurs in x. */
  predicate UsesAllDigits(x: seq<nat>, n: nat)
  {
    forall d :: 0 <= d < n ==> d in x
  }

  /** The arrangements the main queue walks the digit numbers through, in order. */
  ghost function Arrangements(n: nat): seq<seq<nat>>
  {
    Visits(Labels(n), Q(Labels(n)))
  }

  ghost function Perms(n: nat): set<seq<nat>>
  {
    set t | 0 <= t < |Arrangements(n)| :: Arrangements(n)[t]
  }

  /** The rotations of x. */
  ghost function Rotations(x: seq<nat>): set<seq<nat>>
  {
    set k | 0 <= k < |x| :: Rot(x, k)
  }

  /** The relabellings of s, each taken up to rotation. */
  ghost function Classes(s: seq<nat>, n: nat): set<set<seq<nat>>>
  {
    set a | a in Perms(n) :: Rotations(Apply(a, s))
  }

  /** The number of relabellings of s that are not rotations of one another. */
  ghost function ClassCount(s: seq<nat>, n: nat): nat
  {
    |Classes(s, n)|
  }

  /** The arrangements whose relabelling of s is a rotation of s. */
  ghost function Stabiliser(s: seq<nat>, n: nat): set<seq<nat>>
  {
    set a | a in Perms(n) && Apply(a, s) in Rotations(s)
  }

  /** The main queue walks the digits through exactly the arrangements of the digits. */
  lemma PermsExactly(n: nat, a: seq<nat>)
    ensures a in Perms(n) <==> IsPerm(a, n)
  {
    if a in Perms(n) {
      var t :| 0 <= t < |Arrangements(n)| && Arrangements(n)[t] == a;
      VisitedPerm(n, t);
    }
    if IsPerm(a, n) {
      CoveredPerm(n, a);
    }
  }

  lemma VisitedPerm(n: nat, t: nat)
    requires t < |Arrangements(n)|
    ensures IsPerm(Arrangements(n)[t], n)
  {
    var L := set k | 0 <= k < n :: Labels(n)[k];
    var qs := Q(Labels(n));
    var a := Arrangements(n)[t];
    QPairs(Labels(n));
    VisitsArr(Labels(n), qs, L);
    VisitsAt(Labels(n), qs, t);
    PairsSlice(qs, 0, t, L);
    RunRearranges(Labels(n), qs[..t], L);
    assert Rearranges(Labels(n), a, L);
    forall i | 0 <= i < n
      ensures a[i] < n
    {
      assert Labels(n)[i] in L;
      assert a[i] in L;
    }
  }

  lemma CoveredPerm(n: nat, a: seq<nat>)
    requires IsPerm(a, n)
    ensures a in Perms(n)
  {
    var L := set k | 0 <= k < n :: Labels(n)[k];
    LabelsHeld(n);
    forall p | 0 <= p < n
      ensures a[p] in L
    {
      assert Labels(n)[a[p]] == a[p];
    }
    QCovers(Labels(n), Labels(n), a);
    var t :| 0 <= t < |Arrangements(n)| && Arrangements(n)[t] == a;
  }

  lemma LabelsHeld(n: nat)
    ensures AllDistinct(Labels(n)) && Holds(Labels(n), Labels(n))
  {
    forall k {:trigger Labels(n)[k] in Labels(n)} | 0 <= k < n
      ensures Labels(n)[k] in Labels(n)
    {
    }
  }

  lemma PermsCard(n: nat)
    ensures |Perms(n)| == Fact(n)
  {
    LabelsHeld(n);
    QVisits(Labels(n), Labels(n));
    DistinctCard(Arrangements(n));
  }

  /** Relabelling by a and then by b is relabelling by the composite Apply(b, a). */
  lemma ApplyApply(b: seq<nat>, a: seq<nat>, x: seq<nat>, n: nat)
    requires |a| == n && IsDigits(a, |b|) && IsDigits(x, n)
    ensures Apply(Apply(b, a), x) == Apply(b, Apply(a, x))
  {
  }

  lemma ComposePerm(b: seq<nat>, a: seq<nat>, n: nat)
    requires IsPerm(b, n) && IsPerm(a, n)
    ensures IsPerm(Apply(b, a), n)
  {
    var c := Apply(b, a);
    forall i, j | 0 <= i < j < n
      ensures c[i] != c[j]
    {
      assert a[i] != a[j];
    }
  }

  lemma ApplyDigits(b: seq<nat>, x: seq<nat>, n: nat)
    requires IsPerm(b, n) && IsDigits(x, n)
    ensures IsDigits(Apply(b, x), n)
  {
  }

  lemma ApplyIdentity(x: seq<nat>, n: nat)
    requires IsDigits(x, n)
    ensures Apply(Labels(n), x) == x
  {
  }

  /** Relabelling commutes with rotation. */
  lemma ApplyRot(b: seq<nat>, x: seq<nat>, k: nat)
    requires k <= |x|
    ensures Apply(b, Rot(x, k)) == Rot(Apply(b, x), k)
  {
    var l, r := Apply(b, Rot(x, k)), Rot(Apply(b, x), k);
    forall i | 0 <= i < |x|
      ensures l[i] == r[i]
    {
      if i < |x| - k {
        assert Rot(x, k)[i] == x[k + i];
      } else {
        assert Rot(x, k)[i] == x[i - (|x| - k)];
      }
    }
  }

  /** Where d first occurs in b, or |b| when it does not. */
  function IndexOf(b: seq<nat>, d: nat): (i: nat)
    ensures i <= |b| && (i < |b| ==> b[i] == d) && (d in b ==> i < |b|)
    decreases |b|
  {
    if |b| == 0 then 0
    else if b[0] == d then 0
    else
      var j := IndexOf(b[1..], d);
      assert d in b ==> d in b[1..] by {
        if d in b {
          var k :| 0 <= k < |b| && b[k] == d;
          assert b[1..][k - 1] == d;
        }
      }
      1 + j
  }

  /** The arrangement that undoes b. */
  function Inverse(b: seq<nat>): (c: seq<nat>)
    ensures |c| == |b|
  {
    seq(|b|, d requires 0 <= d < |b| => IndexOf(b, d))
  }

  /** n distinct digits below n take every value below n. */
  lemma PermOnto(b: seq<nat>, n: nat, d: nat)
    requires IsPerm(b, n) && d < n
    ensures d in b
  {
    var S := set i | 0 <= i < |b| :: b[i];
    DistinctCard(b);
    BelowCard(n);
    assert S <= Below(n);
    if d !in S {
      SubsetCard(S, Below(n) - {d});
    }
  }

  lemma InversePerm(b: seq<nat>, n: nat)
    requires IsPerm(b, n)
    ensures IsPerm(Inverse(b), n)
    ensures Apply(b, Inverse(b)) == Labels(n) && Apply(Inverse(b), b) == Labels(n)
  {
    var c := Inverse(b);
    forall d | 0 <= d < n
      ensures c[d] < n && b[c[d]] == d
    {
      PermOnto(b, n, d);
    }
    forall i, j | 0 <= i < j < n
      ensures c[i] != c[j]
    {
    }
    forall i | 0 <= i < n
      ensures c[b[i]] == i
    {
      var j := c[b[i]];
      assert b[j] == b[i];
    }
  }

  /** Relabelling by the inverse undoes a relabelling, either way round. */
  lemma Undo(b: seq<nat>, x: seq<nat>, n: nat)
    requires IsPerm(b, n) && IsDigits(x, n)
    ensures Apply(Inverse(b), Apply(b, x)) == x && Apply(b, Apply(Inverse(b), x)) == x
  {
    InversePerm(b, n);
    ApplyApply(Inverse(b), b, x, n);
    ApplyApply(b, Inverse(b), x, n);
    ApplyIdentity(x, n);
  }

  lemma ApplyInjective(b: seq<nat>, x: seq<nat>, y: seq<nat>, n: nat)
    requires IsPerm(b, n) && IsDigits(x, n) && IsDigits(y, n) && Apply(b, x) == Apply(b, y)
    ensures x == y
  {
    Undo(b, x, n);
    Undo(b, y, n);
  }

  /** A seed that uses every digit tells its relabellings apart. */
  lemma SeedSeparates(a1: seq<nat>, a2: seq<nat>, s: seq<nat>, n: nat)
    requires IsPerm(a1, n) && IsPerm(a2, n) && UsesAllDigits(s, n) && Apply(a1, s) == Apply(a2, s)
    ensures a1 == a2
  {
    forall d | 0 <= d < n
      ensures a1[d] == a2[d]
    {
      assert d in s;
      var i :| 0 <= i < |s| && s[i] == d;
      assert Apply(a1, s)[i] == a1[d];
    }
  }

  /** Adding rotation amounts modulo the length. */
  function Shift(a: nat, b: nat, len: nat): nat
  {
    if a + b < len then a + b else a + b - len
  }

  lemma RotAdd(x: seq<nat>, a: nat, b: nat)
    requires a < |x| && b < |x|
    ensures Shift(a, b, |x|) < |x| && Rot(Rot(x, a), b) == Rot(x, Shift(a, b, |x|))
  {
    if a + b < |x| {
      RotCompose(x, a, b);
    } else if a + b == |x| {
      RotCompose(x, a, b);
      RotFull(x);
    } else {
      WrapAround(x, a, b);
    }
  }

  lemma WrapAround(x: seq<nat>, a: nat, b: nat)
    requires a < |x| && b < |x| && a + b > |x|
    ensures Rot(Rot(x, a), b) == Rot(x, a + b - |x|)
  {
    var d, c := |x| - a, a + b - |x|;
    RotBack(x, a);
    RotCompose(Rot(x, a), d, c);
    assert d + c == b;
  }

  /** Rotating by a and then by the rest of the length gives the sequence back. */
  lemma RotBack(x: seq<nat>, a: nat)
    requires a <= |x|
    ensures Rot(Rot(x, a), |x| - a) == x
  {
    RotCompose(x, a, |x| - a);
    RotFull(x);
  }

  lemma RotCancel(y: seq<nat>, z: seq<nat>, k: nat)
    requires |y| == |z| && k <= |y| && Rot(y, k) == Rot(z, k)
    ensures y == z
  {
    RotCompose(y, k, |y| - k);
    RotCompose(z, k, |z| - k);
    RotFull(y);
    RotFull(z);
  }

  /** A rotation of x has the same rotations as x. */
  lemma RotationsOf(x: seq<nat>, k: nat)
    requires k < |x|
    ensures Rotations(Rot(x, k)) == Rotations(x)
  {
    forall z | z in Rotations(Rot(x, k))
      ensures z in Rotations(x)
    {
      var j :| 0 <= j < |x| && Rot(Rot(x, k), j) == z;
      RotAdd(x, k, j);
    }
    forall j | 0 <= j < |x|
      ensures Rot(x, j) in Rotations(Rot(x, k))
    {
      var j' := if j >= k then j - k else j + |x| - k;
      RotAdd(x, k, j');
    }
  }

  /** Being a rotation of is an equivalence: y is a rotation of x exactly when both have the same rotations. */
  lemma SameRotations(x: seq<nat>, y: seq<nat>)
    requires |x| > 0
    ensures y in Rotations(x) <==> Rotations(y) == Rotations(x)
  {
    if y in Rotations(x) {
      var k :| 0 <= k < |x| && Rot(x, k) == y;
      RotationsOf(x, k);
    }
    if Rotations(y) == Rotations(x) {
      RotFull(x);
      assert x in Rotations(x);
      var k :| 0 <= k < |y| && Rot(y, k) == x;
      RotFull(y);
      assert y in Rotations(y);
    }
  }

  /** Sends an arrangement to the class of its relabelling of s. */
  ghost function ClassMap(s: seq<nat>): seq<nat> -> set<seq<nat>>
  {
    a => Rotations(Apply(a, s))
  }

  /** Composition with b on the left. */
  ghost function After(b: seq<nat>): seq<nat> -> seq<nat>
  {
    h => Apply(b, h)
  }

  /**
   * Orbit counting: the arrangements fall into one set per class, each of
   * them the stabiliser composed with an arrangement of that class.
   */
  lemma OrbitStabiliser(s: seq<nat>, n: nat)
    requires |s| > 0 && IsDigits(s, n)
    ensures Fact(n) == ClassCount(s, n) * |Stabiliser(s, n)|
  {
    var f := ClassMap(s);
    forall b | b in Perms(n)
      ensures |Fibre(Perms(n), f, f(b))| == |Stabiliser(s, n)|
    {
      ClassFibre(s, n, b);
    }
    FibreCount(Perms(n), f, |Stabiliser(s, n)|);
    assert Image(Perms(n), f) == Classes(s, n);
    PermsCard(n);
  }

  lemma ClassFibre(s: seq<nat>, n: nat, b: seq<nat>)
    requires |s| > 0 && IsDigits(s, n) && b in Perms(n)
    ensures |Fibre(Perms(n), ClassMap(s), ClassMap(s)(b))| == |Stabiliser(s, n)|
  {
    var f, g, H := ClassMap(s), After(b), Stabiliser(s, n);
    PermsExactly(n, b);
    forall h1, h2 | h1 in H && h2 in H && g(h1) == g(h2)
      ensures h1 == h2
    {
      PermsExactly(n, h1);
      PermsExactly(n, h2);
      ApplyInjective(b, h1, h2, n);
    }
    InjectiveImage(H, g);
    forall h | h in H
      ensures g(h) in Fibre(Perms(n), f, f(b))
    {
      InFibre(s, n, b, h);
    }
    forall a | a in Fibre(Perms(n), f, f(b))
      ensures a in Image(H, g)
    {
      FromFibre(s, n, b, a);
      assert g(Apply(Inverse(b), a)) == a;
    }
    assert Image(H, g) == Fibre(Perms(n), f, f(b));
  }

  /** b composed with a member of the stabiliser relabels s into the class of b. */
  lemma InFibre(s: seq<nat>, n: nat, b: seq<nat>, h: seq<nat>)
    requires |s| > 0 && IsDigits(s, n) && IsPerm(b, n) && h in Stabiliser(s, n)
    ensures Apply(b, h) in Perms(n) && Rotations(Apply(Apply(b, h), s)) == Rotations(Apply(b, s))
  {
    PermsExactly(n, h);
    var k :| 0 <= k < |s| && Rot(s, k) == Apply(h, s);
    ApplyApply(b, h, s, n);
    ApplyRot(b, s, k);
    RotationsOf(Apply(b, s), k);
    ComposePerm(b, h, n);
    PermsExactly(n, Apply(b, h));
  }

  /** Every arrangement in the class of b is b composed with a member of the stabiliser. */
  lemma FromFibre(s: seq<nat>, n: nat, b: seq<nat>, a: seq<nat>)
    requires |s| > 0 && IsDigits(s, n) && IsPerm(b, n) && a in Perms(n)
    requires Rotations(Apply(a, s)) == Rotations(Apply(b, s))
    ensures Apply(Inverse(b), a) in Stabiliser(s, n) && Apply(b, Apply(Inverse(b), a)) == a
  {
    PermsExactly(n, a);
    var c := Inverse(b);
    InversePerm(b, n);
    SameRotations(Apply(b, s), Apply(a, s));
    var k :| 0 <= k < |s| && Rot(Apply(b, s), k) == Apply(a, s);
    ApplyApply(c, a, s, n);
    ApplyRot(c, Apply(b, s), k);
    Undo(b, s, n);
    assert Apply(Apply(c, a), s) == Rot(s, k);
    ComposePerm(c, a, n);
    PermsExactly(n, Apply(c, a));
    Undo(b, a, n);
  }

  lemma StabiliserIdentity(s: seq<nat>, n: nat)
    requires |s| > 0 && IsDigits(s, n)
    ensures Labels(n) in Stabiliser(s, n)
  {
    ApplyIdentity(s, n);
    RotFull(s);
    assert Rot(s, 0) in Rotations(s);
    PermsExactly(n, Labels(n));
  }

  lemma StabiliserCompose(s: seq<nat>, n: nat, h1: seq<nat>, h2: seq<nat>)
    requires |s| > 0 && IsDigits(s, n) && h1 in Stabiliser(s, n) && h2 in Stabiliser(s, n)
    ensures Apply(h1, h2) in Stabiliser(s, n)
  {
    PermsExactly(n, h1);
    PermsExactly(n, h2);
    var k1 :| 0 <= k1 < |s| && Rot(s, k1) == Apply(h1, s);
    var k2 :| 0 <= k2 < |s| && Rot(s, k2) == Apply(h2, s);
    ApplyApply(h1, h2, s, n);
    ApplyRot(h1, s, k2);
    RotAdd(s, k1, k2);
    assert Rot(s, Shift(k1, k2, |s|)) in Rotations(s);
    ComposePerm(h1, h2, n);
    PermsExactly(n, Apply(h1, h2));
  }

  lemma StabiliserInverse(s: seq<nat>, n: nat, h: seq<nat>)
    requires |s| > 0 && IsDigits(s, n) && h in Stabiliser(s, n)
    ensures Inverse(h) in Stabiliser(s, n)
  {
    PermsExactly(n, h);
    InversePerm(h, n);
    var c := Inverse(h);
    var k :| 0 <= k < |s| && Rot(s, k) == Apply(h, s);
    Undo(h, s, n);
    ApplyRot(c, s, k);
    var k' := if k == 0 then 0 else |s| - k;
    RotAdd(s, k', k);
    RotFull(s);
    RotCancel(Apply(c, s), Rot(s, k'), k);
    assert Rot(s, k') in Rotations(s);
    PermsExactly(n, c);
  }

  /** A rotation of a seed that uses every digit uses every digit. */
  lemma RotUsesAll(s: seq<nat>, n: nat, k: nat)
    requires UsesAllDigits(s, n) && k <= |s|
    ensures UsesAllDigits(Rot(s, k), n)
  {
    forall d | 0 <= d < n
      ensures d in Rot(s, k)
    {
      assert d in s;
      assert s == s[..k] + s[k..];
    }
  }

  /** Relabelling one fixed sequence by each arrangement of H. */
  ghost function On(z: seq<nat>): seq<nat> -> seq<nat>
  {
    h => Apply(h, z)
  }

  /** Sends a sequence to its orbit under the arrangements of H. */
  ghost function Orbits(H: set<seq<nat>>): seq<nat> -> set<seq<nat>>
  {
    z => Image(H, On(z))
  }

  /**
   * The stabiliser acts on the rotations of the seed without fixed points,
   * so its size divides their number.
   */
  lemma StabiliserDivides(s: seq<nat>, n: nat)
    requires |s| > 0 && IsDigits(s, n) && UsesAllDigits(s, n)
    ensures |Rotations(s)| == |Image(Rotations(s), Orbits(Stabiliser(s, n)))| * |Stabiliser(s, n)|
  {
    var H := Stabiliser(s, n);
    var o := Orbits(H);
    forall z | z in Rotations(s)
      ensures |Fibre(Rotations(s), o, o(z))| == |H|
    {
      OrbitFibre(s, n, z);
    }
    FibreCount(Rotations(s), o, |H|);
  }

  lemma OrbitFibre(s: seq<nat>, n: nat, z: seq<nat>)
    requires |s| > 0 && IsDigits(s, n) && UsesAllDigits(s, n) && z in Rotations(s)
    ensures |Fibre(Rotations(s), Orbits(Stabiliser(s, n)), Orbits(Stabiliser(s, n))(z))| == |Stabiliser(s, n)|
  {
    var H := Stabiliser(s, n);
    var o := Orbits(H);
    var k :| 0 <= k < |s| && Rot(s, k) == z;
    RotUsesAll(s, n, k);
    RotDigits(s, k, n);
    forall h1, h2 | h1 in H && h2 in H && On(z)(h1) == On(z)(h2)
      ensures h1 == h2
    {
      PermsExactly(n, h1);
      PermsExactly(n, h2);
      SeedSeparates(h1, h2, z, n);
    }
    InjectiveImage(H, On(z));
    forall z' | z' in Fibre(Rotations(s), o, o(z))
      ensures z' in o(z)
    {
      var j :| 0 <= j < |s| && Rot(s, j) == z';
      RotDigits(s, j, n);
      StabiliserIdentity(s, n);
      ApplyIdentity(z', n);
      assert On(z')(Labels(n)) == z';
    }
    forall z' | z' in o(z)
      ensures z' in Fibre(Rotations(s), o, o(z))
    {
      var h0 :| h0 in H && Apply(h0, z) == z';
      OrbitWithin(s, n, z, h0);
      SameOrbit(s, n, z, h0);
    }
    assert Fibre(Rotations(s), o, o(z)) == o(z);
  }

  /** The stabiliser keeps the rotations of s among themselves. */
  lemma OrbitWithin(s: seq<nat>, n: nat, z: seq<nat>, h: seq<nat>)
    requires |s| > 0 && IsDigits(s, n) && z in Rotations(s) && h in Stabiliser(s, n)
    ensures Apply(h, z) in Rotations(s)
  {
    var k :| 0 <= k < |s| && Rot(s, k) == z;
    var k1 :| 0 <= k1 < |s| && Rot(s, k1) == Apply(h, s);
    ApplyRot(h, s, k);
    RotAdd(s, k1, k);
    assert Rot(s, Shift(k1, k, |s|)) in Rotations(s);
  }

  /** A member of the orbit of z has the orbit of z. */
  lemma SameOrbit(s: seq<nat>, n: nat, z: seq<nat>, h0: seq<nat>)
    requires |s| > 0 && IsDigits(s, n) && IsDigits(z, n) && h0 in Stabiliser(s, n)
    ensures Orbits(Stabiliser(s, n))(Apply(h0, z)) == Orbits(Stabiliser(s, n))(z)
  {
    var H := Stabiliser(s, n);
    var z' := Apply(h0, z);
    PermsExactly(n, h0);
    forall y | y in Image(H, On(z'))
      ensures y in Image(H, On(z))
    {
      var h :| h in H && Apply(h, z') == y;
      PermsExactly(n, h);
      ApplyApply(h, h0, z, n);
      StabiliserCompose(s, n, h, h0);
      assert On(z)(Apply(h, h0)) == y;
    }
    forall y | y in Image(H, On(z))
      ensures y in Image(H, On(z'))
    {
      var h :| h in H && Apply(h, z) == y;
      PermsExactly(n, h);
      InversePerm(h0, n);
      Undo(h0, z, n);
      ApplyApply(h, Inverse(h0), z', n);
      ApplyDigits(h0, z, n);
      StabiliserInverse(s, n, h0);
      StabiliserCompose(s, n, h, Inverse(h0));
      assert On(z')(Apply(h, Inverse(h0))) == y;
    }
  }

  /** Sends a rotation amount to that rotation of x. */
  ghost function RotMap(x: seq<nat>): nat -> seq<nat>
  {
    (k: nat) => if k <= |x| then Rot(x, k) else x
  }

  /** Adding k0 to a rotation amount, modulo len. */
  ghost function ShiftBy(k0: nat, len: nat): nat -> nat
  {
    (j: nat) => Shift(j, k0, len)
  }

  /** The rotation amounts that turn x into y. */
  ghost function Amounts(x: seq<nat>, y: seq<nat>): set<nat>
  {
    set k: nat | k < |x| && Rot(x, k) == y
  }

  /** Every rotation of x is reached by equally many amounts, so their number divides the length. */
  lemma RotationsDivide(x: seq<nat>)
    requires |x| > 0
    ensures |x| == |Rotations(x)| * |Amounts(x, x)|
  {
    var B, f := Below(|x|), RotMap(x);
    BelowCard(|x|);
    forall k0 | k0 in B
      ensures |Fibre(B, f, f(k0))| == |Amounts(x, x)|
    {
      AmountsFibre(x, k0);
      RotFibre(x, k0);
    }
    FibreCount(B, f, |Amounts(x, x)|);
    RotationsImage(x);
  }

  lemma RotationsImage(x: seq<nat>)
    ensures Image(Below(|x|), RotMap(x)) == Rotations(x)
  {
    BelowCard(|x|);
    forall y | y in Rotations(x)
      ensures y in Image(Below(|x|), RotMap(x))
    {
      var k :| 0 <= k < |x| && Rot(x, k) == y;
      assert k in Below(|x|) && RotMap(x)(k) == y;
    }
    forall y | y in Image(Below(|x|), RotMap(x))
      ensures y in Rotations(x)
    {
      var k :| k in Below(|x|) && RotMap(x)(k) == y;
      assert k < |x| && Rot(x, k) == y;
    }
  }

  lemma AmountsFibre(x: seq<nat>, k0: nat)
    requires k0 < |x|
    ensures Fibre(Below(|x|), RotMap(x), RotMap(x)(k0)) == Amounts(x, Rot(x, k0))
  {
    BelowCard(|x|);
  }

  lemma RotFibre(x: seq<nat>, k0: nat)
    requires k0 < |x|
    ensures |Amounts(x, Rot(x, k0))| == |Amounts(x, x)|
  {
    var g := ShiftBy(k0, |x|);
    var F0 := Amounts(x, x);
    forall j1, j2 | j1 in F0 && j2 in F0 && g(j1) == g(j2)
      ensures j1 == j2
    {
    }
    InjectiveImage(F0, g);
    forall j | j in F0
      ensures g(j) in Amounts(x, Rot(x, k0))
    {
      RotAdd(x, j, k0);
    }
    forall k | k in Amounts(x, Rot(x, k0))
      ensures k in Image(F0, g)
    {
      var j := BackShift(x, k0, k);
      assert j in F0 && g(j) == k;
    }
    assert Image(F0, g) == Amounts(x, Rot(x, k0));
  }

  /** The amount j that rotation by k0 takes to k, when rotating by k and by k0 agree. */
  lemma BackShift(x: seq<nat>, k0: nat, k: nat) returns (j: nat)
    requires k0 < |x| && k < |x| && Rot(x, k) == Rot(x, k0)
    ensures j < |x| && Rot(x, j) == x && Shift(j, k0, |x|) == k
  {
    j := if k >= k0 then k - k0 else k + |x| - k0;
    RotAdd(x, j, k0);
    RotCancel(Rot(x, j), x, k0);
  }

  /** A divisor of 2^n is a power of two. */
  lemma {:induction false} Pow2Divisor(a: nat, b: nat, n: nat)
    requires a * b == Pow2(n)
    ensures exists j: nat :: j <= n && a == Pow2(j)
    decreases n
  {
    if n == 0 {
      UnitFactor(a, b);
      assert a == Pow2(0);
    } else if a % 2 == 0 {
      HalveLeft(a, b, Pow2(n - 1));
      Pow2Divisor(a / 2, b, n - 1);
      var j: nat :| j <= n - 1 && a / 2 == Pow2(j);
      assert a == Pow2(j + 1);
    } else {
      HalveRight(a, b, Pow2(n - 1));
      Pow2Divisor(a, b / 2, n - 1);
      var j: nat :| j <= n - 1 && a == Pow2(j);
    }
  }

  lemma UnitFactor(a: nat, b: nat)
    requires a * b == 1
    ensures a == 1
  {
    assert a != 0 && b != 0;
    assert a <= a * b;
  }

  lemma HalveLeft(a: nat, b: nat, p: nat)
    requires a * b == 2 * p && a % 2 == 0
    ensures (a / 2) * b == p
  {
    assert a == 2 * (a / 2);
    assert a * b == 2 * ((a / 2) * b);
  }

  lemma HalveRight(a: nat, b: nat, p: nat)
    requires a * b == 2 * p && a % 2 == 1
    ensures b % 2 == 0 && a * (b / 2) == p
  {
    ParityProduct(a, b);
    assert b == 2 * (b / 2);
    assert a * b == 2 * (a * (b / 2));
  }

  /** The parity of a product is the product of the parities. */
  lemma ParityProduct(a: nat, b: nat)
    ensures (a * b) % 2 == (a % 2) * (b % 2)
  {
    var x, y := a / 2, b / 2;
    if a % 2 == 0 {
      Expand(a, b, x, 0, y, b % 2);
      DivModUnique(a * b, 2 * x * y + x * (b % 2), 0, 2);
    } else if b % 2 == 0 {
      Expand(a, b, x, 1, y, 0);
      DivModUnique(a * b, 2 * x * y + y, 0, 2);
    } else {
      Expand(a, b, x, 1, y, 1);
      DivModUnique(a * b, 2 * x * y + x + y, 1, 2);
    }
  }

  lemma Expand(a: nat, b: nat, x: nat, r: nat, y: nat, s: nat)
    requires a == 2 * x + r && b == 2 * y + s
    ensures a * b == 2 * (2 * x * y + x * s + r * y) + r * s
  {
  }

  /**
   * For a seed of length 2^m that uses every digit, n! is the class count
   * times a power of two no larger than 2^m.
   */
  lemma ClassCountShape(s: seq<nat>, n: nat, m: nat)
    requires |s| == Pow2(m) && IsDigits(s, n) && UsesAllDigits(s, n)
    ensures exists j: nat :: j <= m && Fact(n) == ClassCount(s, n) * Pow2(j)
  {
    var H := Stabiliser(s, n);
    OrbitStabiliser(s, n);
    StabiliserDivides(s, n);
    RotationsDivide(s);
    ShapeArith(Fact(n), ClassCount(s, n), |H|, |Image(Rotations(s), Orbits(H))|, |Amounts(s, s)|, |Rotations(s)|, m);
  }

  /** The arithmetic of ClassCountShape: h divides the length 2^m through t = o h and 2^m = t r. */
  lemma ShapeArith(f: nat, cc: nat, h: nat, o: nat, r: nat, t: nat, m: nat)
    requires f == cc * h && t == o * h && Pow2(m) == t * r
    ensures exists j: nat :: j <= m && f == cc * Pow2(j)
  {
    Associate(h, o, r, t, Pow2(m));
    Pow2Divisor(h, o * r, m);
  }

  lemma Associate(h: nat, o: nat, r: nat, t: nat, l: nat)
    requires t == o * h && l == t * r
    ensures l == h * (o * r)
  {
  }
}
