/**
 * Finite counting shared by the model: subsets, images of a set under a
 * function, and a set cut into fibres of equal size.
 */
module Counting {
  import opened PermQueue

  lemma SubsetCard<T>(a: set<T>, b: set<T>)
    requires a <= b
    ensures |a| <= |b|
  {
    assert b == a + (b - a);
  }

  /** The naturals below k. */
  function Below(k: nat): set<nat>
  {
    if k == 0 then {} else Below(k - 1) + {k - 1}
  }

  lemma {:induction false} BelowCard(k: nat)
    ensures |Below(k)| == k && forall x: nat :: x in Below(k) <==> x < k
  {
    if k > 0 {
      BelowCard(k - 1);
      assert k - 1 !in Below(k - 1);
    }
  }

  /** The values of a sequence of distinct entries. */
  lemma {:induction false} DistinctCard<T>(b: seq<T>)
    requires AllDistinct(b)
    ensures |set i | 0 <= i < |b| :: b[i]| == |b|
  {
    if |b| > 0 {
      var b' := b[..|b| - 1];
      assert AllDistinct(b') by {
        forall i, j | 0 <= i < j < |b'|
          ensures b'[i] != b'[j]
        {
          assert b[i] != b[j];
        }
      }
      DistinctCard(b');
      var S := set i | 0 <= i < |b| :: b[i];
      var S' := set i | 0 <= i < |b'| :: b'[i];
      assert S == S' + {b[|b| - 1]};
      assert b[|b| - 1] !in S';
    }
  }

  /** The values f takes on S. */
  ghost function Image<T, U>(S: set<T>, f: T -> U): set<U>
  {
    set x | x in S :: f(x)
  }

  /** The elements of S that f sends to u. */
  ghost function Fibre<T, U>(S: set<T>, f: T -> U, u: U): set<T>
  {
    set x | x in S && f(x) == u
  }

  /** A function takes no more values on a set than the set has elements. */
  lemma {:induction false} ImageCard<T, U>(S: set<T>, f: T -> U)
    ensures |Image(S, f)| <= |S|
    decreases |S|
  {
    if S != {} {
      var x :| x in S;
      ImageCard(S - {x}, f);
      SubsetCard(Image(S, f), Image(S - {x}, f) + {f(x)});
    }
  }

  /** A function one-to-one on S takes as many values on S as S has elements. */
  lemma {:induction false} InjectiveImage<T, U>(S: set<T>, f: T -> U)
    requires forall x, y :: x in S && y in S && f(x) == f(y) ==> x == y
    ensures |Image(S, f)| == |S|
    decreases |S|
  {
    if S != {} {
      var x :| x in S;
      InjectiveImage(S - {x}, f);
      assert Image(S, f) == Image(S - {x}, f) + {f(x)};
      assert f(x) !in Image(S - {x}, f);
    }
  }

  /**
   * When every value of f on S is taken by exactly m elements, S has m
   * times as many elements as f has values on it.
   */
  lemma {:induction false} FibreCount<T, U>(S: set<T>, f: T -> U, m: nat)
    requires forall x :: x in S ==> |Fibre(S, f, f(x))| == m
    ensures |S| == |Image(S, f)| * m
    decreases |S|
  {
    if S != {} {
      var x :| x in S;
      var F := Fibre(S, f, f(x));
      var S' := S - F;
      FibreRest(S, f, m, x);
      FibreCount(S', f, m);
      ImageRest(S, f, x);
      SplitCard(S, F);
      Distribute(|Image(S', f)|, m);
    }
  }

  /** Taking out one whole fibre leaves the other fibres as they were. */
  lemma FibreRest<T, U>(S: set<T>, f: T -> U, m: nat, x: T)
    requires x in S && forall y :: y in S ==> |Fibre(S, f, f(y))| == m
    ensures var S' := S - Fibre(S, f, f(x));
      |S'| < |S| && forall y :: y in S' ==> |Fibre(S', f, f(y))| == m
  {
    var S' := S - Fibre(S, f, f(x));
    assert x !in S';
    forall y | y in S'
      ensures |Fibre(S', f, f(y))| == m
    {
      assert Fibre(S', f, f(y)) == Fibre(S, f, f(y));
    }
  }

  lemma ImageRest<T, U>(S: set<T>, f: T -> U, x: T)
    requires x in S
    ensures var S' := S - Fibre(S, f, f(x));
      Image(S, f) == Image(S', f) + {f(x)} && f(x) !in Image(S', f)
  {
  }

  lemma SplitCard<T>(S: set<T>, F: set<T>)
    requires F <= S
    ensures |S| == |S - F| + |F|
  {
    assert S == (S - F) + F && (S - F) * F == {};
  }

  lemma Distribute(a: nat, m: nat)
    ensures (a + 1) * m == a * m + m
  {
  }
}
