/**
 * The small-array sorting routines that were timed against each other for
 * sorting signatures: counting sort, quicksort, heap sort, insertion sort and
 * selection sort, each in place on an array of ints, and the three-way
 * comparison handed to the library sort.  The program sorts arrays of
 * NUM_ELEMS = 4 elements; the model sorts an array of any length.
 */
module Sorting {
  import Numerals

  /** NUM_ELEMS, the length of the arrays the program sorts. */
  const NUM_ELEMS: nat := 4

  predicate Sorted(s: seq<int>)
  {
    forall i, j :: 0 <= i < j < |s| ==> s[i] <= s[j]
  }

  predicate Perm(a: seq<int>, b: seq<int>)
  {
    multiset(a) == multiset(b)
  }

  /** Two sorted arrangements of the same elements are the same sequence. */
  lemma {:induction false} SortedPermUnique(a: seq<int>, b: seq<int>)
    requires Sorted(a) && Sorted(b) && Perm(a, b)
    ensures a == b
    decreases |a|
  {
    assert |a| == |multiset(a)| == |multiset(b)| == |b|;
    if |a| > 0 {
      assert b[0] in multiset(a) && a[0] in multiset(b) by {
        assert b[0] in b && a[0] in a;
      }
      SortedHeadMin(a, b[0]);
      SortedHeadMin(b, a[0]);
      Tails(a, b);
      SortedPermUnique(a[1..], b[1..]);
      assert a == [a[0]] + a[1..] && b == [b[0]] + b[1..];
    }
  }

  lemma Tails(a: seq<int>, b: seq<int>)
    requires |a| > 0 && |b| > 0 && a[0] == b[0] && Perm(a, b) && Sorted(a) && Sorted(b)
    ensures Perm(a[1..], b[1..]) && Sorted(a[1..]) && Sorted(b[1..])
  {
    assert a == [a[0]] + a[1..] && b == [b[0]] + b[1..];
    assert multiset(a) == multiset{a[0]} + multiset(a[1..]);
    assert multiset(b) == multiset{b[0]} + multiset(b[1..]);
    assert multiset(a[1..]) == multiset(a) - multiset{a[0]};
    assert multiset(b[1..]) == multiset(b) - multiset{b[0]};
  }

  /** The first entry of a sorted sequence is at most each of its elements. */
  lemma SortedHeadMin(a: seq<int>, x: int)
    requires Sorted(a) && x in multiset(a)
    ensures a[0] <= x
  {
    assert x in a;
    var k :| 0 <= k < |a| && a[k] == x;
  }

  /**
   * intCompare: -1 when a is below b, 0 when they are equal, 1 when a is
   * above b.
   */
  function IntCompare(a: int, b: int): (r: int)
    ensures r == -1 <==> a < b
    ensures r == 0 <==> a == b
    ensures r == 1 <==> a > b
  {
    if a < b then -1 else if a > b then 1 else 0
  }

  /** Swapping the arguments negates the comparison. */
  lemma IntCompareAntisymmetric(a: int, b: int)
    ensures IntCompare(a, b) == -IntCompare(b, a)
  {
  }

  /** The exchange of two entries, as every routine writes it with a temporary. */
  method Swap(a: array<int>, i: int, j: int)
    requires 0 <= i < a.Length && 0 <= j < a.Length
    modifies a
    ensures a[i] == old(a[j]) && a[j] == old(a[i])
    ensures forall k :: 0 <= k < a.Length && k != i && k != j ==> a[k] == old(a[k])
    ensures Perm(a[..], old(a[..]))
  {
    ghost var s := a[..];
    var temp := a[i];
    a[i] := a[j];
    a[j] := temp;
    assert a[..] == s[i := s[j]][j := s[i]];
  }

  // ----- Selection sort

  /**
   * selectionSort: move the boundary of the sorted prefix one place at a
   * time, swapping the minimum of the rest to the boundary.
   */
  method SelectionSort(a: array<int>)
    modifies a
    ensures Sorted(a[..]) && Perm(a[..], old(a[..]))
  {
    var i := 0;
    while i < a.Length - 1
      invariant 0 <= i <= a.Length
      invariant a.Length > 0 ==> i <= a.Length - 1
      invariant forall p, q :: 0 <= p < i && p < q < a.Length ==> a[p] <= a[q]
      invariant Perm(a[..], old(a[..]))
    {
      var minIdx := MinIndex(a, i);
      if minIdx != i {
        Swap(a, minIdx, i);
      }
      i := i + 1;
    }
  }

  /** The inner loop of selectionSort: the first index of a minimum of a[i..]. */
  method MinIndex(a: array<int>, i: int) returns (minIdx: int)
    requires 0 <= i < a.Length
    ensures i <= minIdx < a.Length
    ensures forall k :: i <= k < a.Length ==> a[minIdx] <= a[k]
    ensures forall k :: i <= k < minIdx ==> a[minIdx] < a[k]
  {
    minIdx := i;
    var j := i + 1;
    while j < a.Length
      invariant i <= minIdx < j <= a.Length
      invariant forall k :: i <= k < j ==> a[minIdx] <= a[k]
      invariant forall k :: i <= k < minIdx ==> a[minIdx] < a[k]
    {
      if a[j] < a[minIdx] {
        minIdx := j;
      }
      j := j + 1;
    }
  }

  // ----- Insertion sort

  /**
   * insertionSort: for each entry from the second on, shift the larger
   * entries of the sorted prefix one place up and put the entry in the gap.
   * The do-while loop reads the second entry before any test, so the array
   * must have at least two entries.
   */
  method InsertionSort(a: array<int>)
    requires a.Length >= 2
    modifies a
    ensures Sorted(a[..]) && Perm(a[..], old(a[..]))
  {
    var i := 1;
    while i < a.Length
      invariant 1 <= i <= a.Length
      invariant Sorted(a[..i])
      invariant Perm(a[..], old(a[..]))
    {
      InsertEntry(a, i);
      i := i + 1;
    }
    assert a[..a.Length] == a[..];
  }

  /** One pass of insertionSort: a[i] joins the sorted prefix a[..i]. */
  method InsertEntry(a: array<int>, i: int)
    requires 1 <= i < a.Length && Sorted(a[..i])
    modifies a
    ensures Sorted(a[..i + 1]) && Perm(a[..], old(a[..]))
  {
    ghost var s := a[..];
    var key := a[i];
    var j := i - 1;
    while j >= 0 && a[j] > key
      invariant -1 <= j < i
      invariant forall k :: 0 <= k <= j ==> a[k] == s[k]
      invariant forall k :: j + 2 <= k <= i ==> a[k] == s[k - 1]
      invariant a[j + 1] == s[j + 1]
      invariant forall k :: i < k < a.Length ==> a[k] == s[k]
      invariant forall k :: j + 1 <= k < i ==> s[k] > key
    {
      a[j + 1] := a[j];
      j := j - 1;
    }
    a[j + 1] := key;
    InsertedShape(s, a[..], i, j + 1);
  }

  /**
   * The array after the shift: key = s[i] placed at g, with s[g..i] one
   * place up, is a permutation of s and, when s[..i] was sorted and the gap
   * is the right place for key, has its first i+1 entries sorted.
   */
  lemma InsertedShape(s: seq<int>, r: seq<int>, i: int, g: int)
    requires 0 <= g <= i < |s| == |r|
    requires forall k :: 0 <= k < g ==> r[k] == s[k]
    requires r[g] == s[i]
    requires forall k :: g < k <= i ==> r[k] == s[k - 1]
    requires forall k :: i < k < |s| ==> r[k] == s[k]
    requires Sorted(s[..i])
    requires g > 0 ==> s[g - 1] <= s[i]
    requires forall k :: g <= k < i ==> s[k] > s[i]
    ensures Sorted(r[..i + 1]) && Perm(r, s)
  {
    var x, t := s[i], s[..i];
    assert s == t[..g] + t[g..] + [x] + s[i + 1..];
    ShiftedIs(s, r, i, g);
    assert r == t[..g] + [x] + t[g..] + s[i + 1..];
    MoveOne(t[..g], t[g..], x, s[i + 1..]);
    assert r[..i + 1] == t[..g] + [x] + t[g..];
    SortedInsert(t, g, x);
  }

  lemma MoveOne(lo: seq<int>, mid: seq<int>, x: int, hi: seq<int>)
    ensures Perm(lo + [x] + mid + hi, lo + mid + [x] + hi)
  {
  }

  lemma ShiftedIs(s: seq<int>, r: seq<int>, i: int, g: int)
    requires 0 <= g <= i < |s| == |r|
    requires forall k :: 0 <= k < g ==> r[k] == s[k]
    requires r[g] == s[i]
    requires forall k :: g < k <= i ==> r[k] == s[k - 1]
    requires forall k :: i < k < |s| ==> r[k] == s[k]
    ensures r == s[..g] + [s[i]] + s[g..i] + s[i + 1..]
  {
    var u := s[..g] + [s[i]] + s[g..i] + s[i + 1..];
    forall k | 0 <= k < |r|
      ensures r[k] == u[k]
    {
    }
  }

  /** Putting x at position g of a sorted sequence, where it belongs, keeps it sorted. */
  lemma SortedInsert(t: seq<int>, g: int, x: int)
    requires 0 <= g <= |t| && Sorted(t)
    requires g > 0 ==> t[g - 1] <= x
    requires forall k :: g <= k < |t| ==> t[k] > x
    ensures Sorted(t[..g] + [x] + t[g..])
  {
    var u := t[..g] + [x] + t[g..];
    forall p, q | 0 <= p < q < |u|
      ensures u[p] <= u[q]
    {
      if q < g {
        assert u[p] == t[p] && u[q] == t[q];
      } else if q == g {
        assert u[p] == t[p] && t[p] <= t[g - 1];
      } else if p < g {
        assert u[p] == t[p] && u[q] == t[q - 1];
      } else if p == g {
        assert u[q] == t[q - 1];
      } else {
        assert u[p] == t[p - 1] && u[q] == t[q - 1];
      }
    }
  }

  // ----- Quicksort

  /** quickSort: quickSortHelper over the whole array. */
  method QuickSort(a: array<int>)
    modifies a
    ensures Sorted(a[..]) && Perm(a[..], old(a[..]))
  {
    QuickSortHelper(a, 0, a.Length - 1);
    assert a[..][0..a.Length] == a[..];
    assert old(a[..])[0..a.Length] == old(a[..]);
  }

  /**
   * quickSortHelper: sorts a[low..high] (both ends included) as a
   * permutation of its entries and leaves every other entry alone.  The
   * recursive calls are made with low - 1 <= high, so a range may be empty.
   */
  method QuickSortHelper(a: array<int>, low: int, high: int)
    requires 0 <= low <= high + 1 <= a.Length
    modifies a
    ensures SortedRange(a[..], old(a[..]), low, high)
    decreases high - low
  {
    if low < high {
      ghost var s0 := a[..];
      var i := Partition(a, low, high);
      ghost var s1 := a[..];
      QuickSortHelper(a, low, i);
      ghost var s2 := a[..];
      QuickSortHelper(a, i + 2, high);
      QuickStep(s0, s1, s2, a[..], low, i, high);
    } else {
      assert a[low..high + 1] == [] || a[low..high + 1] == [a[low]];
    }
  }

  /**
   * t is s with the range [low, high] sorted: a sorted permutation of s's
   * entries there and s's entries everywhere else.
   */
  ghost predicate SortedRange(t: seq<int>, s: seq<int>, low: int, high: int)
  {
    |t| == |s| && 0 <= low <= high + 1 <= |s|
    && Sorted(t[low..high + 1]) && Perm(t[low..high + 1], s[low..high + 1])
    && forall k :: 0 <= k < |s| && !(low <= k <= high) ==> t[k] == s[k]
  }

  /** t is s partitioned on [low, high] about the pivot that ends at i + 1. */
  ghost predicate PartitionedAt(t: seq<int>, s: seq<int>, low: int, high: int, i: int)
  {
    |t| == |s| && 0 <= low && low - 1 <= i < high < |s|
    && (forall k :: low <= k <= i ==> t[k] < t[i + 1])
    && (forall k :: i + 2 <= k <= high ==> t[k] >= t[i + 1])
    && Perm(t[low..high + 1], s[low..high + 1])
    && forall k :: 0 <= k < |s| && !(low <= k <= high) ==> t[k] == s[k]
  }

  /** A partition followed by sorting both sides sorts the whole range. */
  lemma QuickStep(s0: seq<int>, s1: seq<int>, s2: seq<int>, s3: seq<int>, low: int, i: int, high: int)
    requires PartitionedAt(s1, s0, low, high, i)
    requires SortedRange(s2, s1, low, i) && SortedRange(s3, s2, i + 2, high)
    ensures SortedRange(s3, s0, low, high)
  {
    Unchanged(s1, s2, i + 1, high + 1, low, i + 1);
    Unchanged(s2, s3, low, i + 2, i + 2, high + 1);
    QuickCombine(s1, s2, s3, low, i + 1, high);
  }

  /** Entries of [lo, hi) that a step leaves alone give equal slices. */
  lemma Unchanged(s: seq<int>, t: seq<int>, lo: int, hi: int, clo: int, chi: int)
    requires |s| == |t| && 0 <= lo <= hi <= |s| && 0 <= clo <= chi <= |s|
    requires hi <= clo || chi <= lo
    requires forall k :: 0 <= k < |s| && !(clo <= k < chi) ==> t[k] == s[k]
    ensures t[lo..hi] == s[lo..hi]
  {
  }

  /**
   * After the partition and the two recursive sorts: the part below the
   * pivot and the part above it are sorted permutations of what the
   * partition left there, so the whole range is a sorted permutation.
   */
  lemma QuickCombine(s1: seq<int>, s2: seq<int>, s3: seq<int>, low: int, p: int, high: int)
    requires 0 <= low <= p <= high < |s1| == |s2| == |s3|
    requires forall k :: low <= k < p ==> s1[k] < s1[p]
    requires forall k :: p < k <= high ==> s1[k] >= s1[p]
    requires Sorted(s2[low..p]) && Perm(s2[low..p], s1[low..p]) && s2[p + 1..high + 1] == s1[p + 1..high + 1]
    requires Sorted(s3[p + 1..high + 1]) && Perm(s3[p + 1..high + 1], s2[p + 1..high + 1]) && s3[low..p + 1] == s2[low..p + 1]
    requires s2[p] == s1[p]
    ensures Sorted(s3[low..high + 1]) && Perm(s3[low..high + 1], s1[low..high + 1])
  {
    var x := s1[p];
    var l, r := s3[low..p], s3[p + 1..high + 1];
    assert s3[low..p + 1] == s2[low..p + 1];
    assert l == s2[low..p] && s3[p] == x by {
      assert s3[low..p + 1][..p - low] == l && s2[low..p + 1][..p - low] == s2[low..p];
      assert s3[low..p + 1][p - low] == s3[p] && s2[low..p + 1][p - low] == s2[p];
    }
    BoundPerm(l, s1[low..p], x, true);
    BoundPerm(r, s1[p + 1..high + 1], x, false);
    assert s3[low..high + 1] == l + [x] + r;
    assert s1[low..high + 1] == s1[low..p] + [x] + s1[p + 1..high + 1];
    SortedAround(l, x, r);
  }

  /**
   * A bound on every element carries over to a permutation: below x when
   * below is set, at least x otherwise.
   */
  lemma BoundPerm(t: seq<int>, u: seq<int>, x: int, below: bool)
    requires Perm(t, u)
    requires below ==> forall k :: 0 <= k < |u| ==> u[k] < x
    requires !below ==> forall k :: 0 <= k < |u| ==> u[k] >= x
    ensures below ==> forall k :: 0 <= k < |t| ==> t[k] < x
    ensures !below ==> forall k :: 0 <= k < |t| ==> t[k] >= x
  {
    forall k | 0 <= k < |t|
      ensures below ==> t[k] < x
      ensures !below ==> t[k] >= x
    {
      assert t[k] in multiset(u) by { assert t[k] in t; }
      assert t[k] in u;
    }
  }

  lemma SortedAround(l: seq<int>, x: int, r: seq<int>)
    requires Sorted(l) && Sorted(r)
    requires forall k :: 0 <= k < |l| ==> l[k] < x
    requires forall k :: 0 <= k < |r| ==> r[k] >= x
    ensures Sorted(l + [x] + r)
  {
    var u := l + [x] + r;
    forall i, j | 0 <= i < j < |u|
      ensures u[i] <= u[j]
    {
      if j < |l| {
        assert u[i] == l[i] && u[j] == l[j];
      } else if i < |l| {
        assert u[i] == l[i];
        if j > |l| {
          assert u[j] == r[j - |l| - 1];
        }
      } else if i == |l| {
        assert u[j] == r[j - |l| - 1];
      } else {
        assert u[i] == r[i - |l| - 1] && u[j] == r[j - |l| - 1];
      }
    }
  }

  /**
   * The partition step of quickSortHelper, with the last entry as pivot:
   * entries below the pivot are swapped down to the front of the range, then
   * the pivot is swapped to the place just after them.  The pivot ends at
   * i + 1, with smaller entries before it and the others after it.
   */
  method Partition(a: array<int>, low: int, high: int) returns (i: int)
    requires 0 <= low < high < a.Length
    modifies a
    ensures PartitionedAt(a[..], old(a[..]), low, high, i)
  {
    ghost var s := a[..];
    var pivot := a[high];
    i := low - 1;
    for j := low to high
      invariant Scanned(a[..], s, low, high, pivot, i, j)
    {
      i := PartitionStep(a, s, low, high, pivot, i, j);
    }
    ghost var t := a[..];
    SwapIn(a, i + 1, high, low, high + 1);
    PivotPlaced(s, t, a[..], low, high, i);
  }

  /**
   * The scan of the partition has reached j: entries low..i are below the
   * pivot, entries i+1..j-1 are not, the pivot is still at high, and the
   * range holds the same elements as at the start.
   */
  ghost predicate Scanned(t: seq<int>, s: seq<int>, low: int, high: int, pivot: int, i: int, j: int)
  {
    |t| == |s| && 0 <= low && high < |s| && low - 1 <= i < j <= high
    && (forall k :: low <= k <= i ==> t[k] < pivot)
    && (forall k :: i < k < j ==> t[k] >= pivot)
    && t[high] == pivot
    && Perm(t[low..high + 1], s[low..high + 1])
    && forall k :: 0 <= k < |t| && !(low <= k <= high) ==> t[k] == s[k]
  }

  /** One pass of the partition loop: an entry below the pivot is swapped down. */
  method PartitionStep(a: array<int>, ghost s: seq<int>, low: int, high: int, pivot: int, i: int, j: int)
    returns (i': int)
    requires j < high && Scanned(a[..], s, low, high, pivot, i, j)
    modifies a
    ensures Scanned(a[..], s, low, high, pivot, i', j + 1)
  {
    i' := i;
    if a[j] < pivot {
      i' := i + 1;
      SwapIn(a, i', j, low, high + 1);
    }
  }

  /** Swapping the pivot from high to i + 1 completes the partition. */
  lemma PivotPlaced(s: seq<int>, t: seq<int>, u: seq<int>, low: int, high: int, i: int)
    requires |t| == |s| == |u| && 0 <= low && low - 1 <= i < high < |s|
    requires forall k :: low <= k <= i ==> t[k] < t[high]
    requires forall k :: i < k < high ==> t[k] >= t[high]
    requires Perm(t[low..high + 1], s[low..high + 1])
    requires forall k :: 0 <= k < |s| && !(low <= k <= high) ==> t[k] == s[k]
    requires u[i + 1] == t[high] && u[high] == t[i + 1]
    requires forall k :: 0 <= k < |u| && k != i + 1 && k != high ==> u[k] == t[k]
    requires Perm(u[low..high + 1], t[low..high + 1])
    ensures PartitionedAt(u, s, low, high, i)
  {
  }

  /** Swap, seen from a range [lo, hi) holding both positions. */
  method SwapIn(a: array<int>, i: int, j: int, lo: int, hi: int)
    requires 0 <= lo <= i < hi <= a.Length && lo <= j < hi
    modifies a
    ensures a[i] == old(a[j]) && a[j] == old(a[i])
    ensures forall k :: 0 <= k < a.Length && k != i && k != j ==> a[k] == old(a[k])
    ensures Perm(a[lo..hi], old(a[lo..hi]))
  {
    ghost var s := a[..];
    Swap(a, i, j);
    assert a[lo..hi] == s[lo..hi][i - lo := s[j]][j - lo := s[i]];
  }

  // ----- Heap sort

  /**
   * The first n entries are in max-heap order for every parent index of at
   * least i: each entry c below n with parent (c - 1) / 2 >= i is at most its
   * parent.  With i = 0 the first n entries form a max-heap.
   */
  ghost predicate HeapFrom(s: seq<int>, n: int, i: int)
    requires n <= |s|
  {
    forall c :: 0 < c < n && (c - 1) / 2 >= i ==> HeapPair(s, c)
  }

  /** Entry c is at most its parent. */
  predicate HeapPair(s: seq<int>, c: int)
    requires 0 < c < |s|
  {
    s[(c - 1) / 2] >= s[c]
  }

  /** The root of a max-heap of the first n entries is at least each of them. */
  lemma {:induction false} HeapRootMax(s: seq<int>, n: int, k: int)
    requires n <= |s| && HeapFrom(s, n, 0) && 0 <= k < n
    ensures s[0] >= s[k]
    decreases k
  {
    if k > 0 {
      assert HeapPair(s, k);
      HeapRootMax(s, n, (k - 1) / 2);
    }
  }

  /** The children of i are 2i + 1 and 2i + 2. */
  lemma ParentOf(c: int, i: int)
    requires 0 < c && 0 <= i
    ensures (c - 1) / 2 == i <==> c == 2 * i + 1 || c == 2 * i + 2
  {
  }

  /**
   * heapify: with every parent above i in heap order, let i take the larger
   * of itself and its children; when a child was larger, swap it up and
   * repeat at that child.  Afterwards every parent from i on is in heap
   * order; i holds the largest of its old value and its children's; only i
   * and indices from 2i + 1 below n can have changed.
   */
  method Heapify(a: array<int>, n: int, i: int)
    requires 0 <= i && 0 <= n <= a.Length
    requires HeapFrom(a[..], n, i + 1)
    modifies a
    ensures HeapFrom(a[..], n, i) && Perm(a[..], old(a[..]))
    ensures forall q :: 0 <= q < a.Length && q != i && (q < 2 * i + 1 || q >= n) ==> a[q] == old(a[q])
    ensures i < n ==> TopOf(a[i], old(a[..]), n, i)
    ensures i >= n ==> a[..] == old(a[..])
    decreases n - i
  {
    var largest := i;
    var left := 2 * i + 1;
    var right := 2 * i + 2;
    if left < n && a[left] > a[largest] {
      largest := left;
    }
    if right < n && a[right] > a[largest] {
      largest := right;
    }
    if largest != i {
      ghost var s0 := a[..];
      Swap(a, i, largest);
      ghost var s1 := a[..];
      SwappedDown(s0, s1, n, i, largest);
      Heapify(a, n, largest);
      SiftedDown(s0, s1, a[..], n, i, largest);
    } else {
      HeapAtTop(a[..], n, i);
    }
  }

  /** v is the largest of s[i] and of its children below n, and is one of them. */
  ghost predicate TopOf(v: int, s: seq<int>, n: int, i: int)
    requires 0 <= i < n <= |s|
  {
    v >= s[i] && (2 * i + 1 < n ==> v >= s[2 * i + 1]) && (2 * i + 2 < n ==> v >= s[2 * i + 2])
    && (v == s[i] || (2 * i + 1 < n && v == s[2 * i + 1]) || (2 * i + 2 < n && v == s[2 * i + 2]))
  }

  /** When i is already at least its children, the heap order reaches i. */
  lemma HeapAtTop(s: seq<int>, n: int, i: int)
    requires 0 <= i && n <= |s| && HeapFrom(s, n, i + 1)
    requires 2 * i + 1 < n ==> s[i] >= s[2 * i + 1]
    requires 2 * i + 2 < n ==> s[i] >= s[2 * i + 2]
    ensures HeapFrom(s, n, i)
    ensures i < n ==> TopOf(s[i], s, n, i)
  {
    forall c | 0 < c < n && (c - 1) / 2 >= i
      ensures HeapPair(s, c)
    {
      ParentOf(c, i);
    }
  }

  /** After the swap of i with its largest child, every parent past that child is still in heap order. */
  lemma SwappedDown(s0: seq<int>, s1: seq<int>, n: int, i: int, largest: int)
    requires 0 <= i < largest < n <= |s0| == |s1| && HeapFrom(s0, n, i + 1)
    requires largest == 2 * i + 1 || largest == 2 * i + 2
    requires forall k :: 0 <= k < |s0| && k != i && k != largest ==> s1[k] == s0[k]
    ensures HeapFrom(s1, n, largest + 1)
  {
    forall c | 0 < c < n && (c - 1) / 2 >= largest + 1
      ensures HeapPair(s1, c)
    {
      assert HeapPair(s0, c);
    }
  }

  /** The recursive heapify at the swapped child completes the heap order from i. */
  lemma SiftedDown(s0: seq<int>, s1: seq<int>, s2: seq<int>, n: int, i: int, largest: int)
    requires 0 <= i < largest < n <= |s0| == |s1| == |s2| && HeapFrom(s0, n, i + 1)
    requires largest == 2 * i + 1 || largest == 2 * i + 2
    requires s0[largest] >= s0[i]
    requires 2 * i + 1 < n ==> s0[largest] >= s0[2 * i + 1]
    requires 2 * i + 2 < n ==> s0[largest] >= s0[2 * i + 2]
    requires s1[i] == s0[largest] && s1[largest] == s0[i]
    requires forall k :: 0 <= k < |s0| && k != i && k != largest ==> s1[k] == s0[k]
    requires HeapFrom(s2, n, largest)
    requires forall q :: 0 <= q < |s1| && q != largest && (q < 2 * largest + 1 || q >= n) ==> s2[q] == s1[q]
    requires TopOf(s2[largest], s1, n, largest)
    ensures HeapFrom(s2, n, i)
    ensures forall q :: 0 <= q < |s0| && q != i && (q < 2 * i + 1 || q >= n) ==> s2[q] == s0[q]
    ensures TopOf(s2[i], s0, n, i)
  {
    assert s0[largest] >= s2[largest] by {
      if 2 * largest + 1 < n {
        assert HeapPair(s0, 2 * largest + 1);
      }
      if 2 * largest + 2 < n {
        assert HeapPair(s0, 2 * largest + 2);
      }
    }
    forall c | 0 < c < n && (c - 1) / 2 >= i
      ensures HeapPair(s2, c)
    {
      var p := (c - 1) / 2;
      if p >= largest {
      } else if p == i {
        ParentOf(c, i);
      } else {
        ParentOf(c, p);
        ParentOf(largest, i);
        assert c != largest;
        assert HeapPair(s0, c);
      }
    }
  }

  /**
   * heapSort: heapify every parent from n / 2 - 1 down to 0 to build a
   * max-heap, then repeatedly swap the root to the end of the shrinking heap
   * and heapify the root of what is left.
   */
  method HeapSort(a: array<int>)
    modifies a
    ensures Sorted(a[..]) && Perm(a[..], old(a[..]))
  {
    var n := a.Length;
    var i := n / 2 - 1;
    assert HeapFrom(a[..], n, i + 1);
    while i >= 0
      invariant -1 <= i < n
      invariant HeapFrom(a[..], n, i + 1)
      invariant Perm(a[..], old(a[..]))
    {
      Heapify(a, n, i);
      i := i - 1;
    }
    i := n - 1;
    while i >= 0
      invariant -1 <= i < n
      invariant SortedStage(a[..], i)
      invariant Perm(a[..], old(a[..]))
    {
      ghost var s0 := a[..];
      Swap(a, 0, i);
      ghost var s1 := a[..];
      DetachedRoot(s0, s1, i);
      Heapify(a, i, 0);
      HeapSortStep(s0, s1, a[..], i);
      i := i - 1;
    }
    assert forall p, q :: 0 <= p < q < n ==> a[..][p] <= a[..][q];
  }

  /**
   * The state of heapSort's second loop: a max-heap on the first i + 1
   * entries, the entries after i sorted, and none of the heap above any of
   * them.
   */
  ghost predicate SortedStage(s: seq<int>, i: int)
    requires -1 <= i < |s|
  {
    HeapFrom(s, i + 1, 0)
    && (forall p, q :: i < p < q < |s| ==> s[p] <= s[q])
    && (forall p, q :: 0 <= p <= i < q < |s| ==> s[p] <= s[q])
  }

  /** The swap of the root with entry i leaves a heap below the root on the first i entries. */
  lemma DetachedRoot(s0: seq<int>, s1: seq<int>, i: int)
    requires 0 <= i < |s0| == |s1| && SortedStage(s0, i)
    requires s1[0] == s0[i] && s1[i] == s0[0]
    requires forall k :: 0 <= k < |s0| && k != 0 && k != i ==> s1[k] == s0[k]
    ensures HeapFrom(s1, i, 1)
  {
    forall c | 0 < c < i && (c - 1) / 2 >= 1
      ensures HeapPair(s1, c)
    {
      assert HeapPair(s0, c);
    }
  }

  /** One pass of heapSort's second loop keeps its state, one entry further. */
  lemma HeapSortStep(s0: seq<int>, s1: seq<int>, s2: seq<int>, i: int)
    requires 0 <= i < |s0| == |s1| == |s2| && SortedStage(s0, i)
    requires s1[0] == s0[i] && s1[i] == s0[0]
    requires forall k :: 0 <= k < |s0| && k != 0 && k != i ==> s1[k] == s0[k]
    requires HeapFrom(s2, i, 0) && Perm(s2, s1)
    requires forall q :: 0 <= q < |s1| && q != 0 && (q < 1 || q >= i) ==> s2[q] == s1[q]
    requires i == 0 ==> s2 == s1
    ensures SortedStage(s2, i - 1)
  {
    forall k | 0 <= k <= i
      ensures s0[k] <= s0[0]
    {
      HeapRootMax(s0, i + 1, k);
    }
    Unchanged(s1, s2, i, |s1|, 0, i);
    PrefixPerm(s2, s1, i);
    forall p | 0 <= p < i
      ensures s2[p] <= s1[i]
    {
      assert s2[p] in multiset(s1[..i]) by { assert s2[p] in s2[..i]; }
      var k :| 0 <= k < i && s1[..i][k] == s2[p];
      assert k == 0 || s1[k] == s0[k];
    }
  }

  /** Permutations that agree from i on are permutations of their first i entries. */
  lemma PrefixPerm(t: seq<int>, s: seq<int>, i: int)
    requires 0 <= i <= |s| == |t| && Perm(t, s) && t[i..] == s[i..]
    ensures Perm(t[..i], s[..i])
  {
    assert t == t[..i] + t[i..] && s == s[..i] + s[i..];
    assert multiset(t) == multiset(t[..i]) + multiset(t[i..]);
    assert multiset(s) == multiset(s[..i]) + multiset(s[i..]);
    assert multiset(t[..i]) == multiset(t) - multiset(t[i..]);
    assert multiset(s[..i]) == multiset(s) - multiset(s[i..]);
  }

  // ----- Counting sort

  /** The number of entries of s that are at most v. */
  function AtMost(s: seq<int>, v: int): nat
    decreases v
  {
    if v < 0 then 0 else AtMost(s, v - 1) + multiset(s)[v]
  }

  function Repeat(v: int, k: nat): (r: seq<int>)
    ensures |r| == k && forall j :: 0 <= j < k ==> r[j] == v
  {
    seq(k, _ => v)
  }

  /**
   * The arrangement counting sort builds: each value from 0 to hi, in
   * increasing order, as often as it occurs in s.
   */
  function Tally(s: seq<int>, hi: int): (r: seq<int>)
    ensures |r| == AtMost(s, hi)
    decreases hi
  {
    if hi < 0 then [] else Tally(s, hi - 1) + Repeat(hi, multiset(s)[hi])
  }

  /**
   * Entry k of the tally is the value v whose block holds k: the entries at
   * most v - 1 come before it and those at most v reach past it.
   */
  lemma {:induction false} TallyAt(s: seq<int>, hi: int, k: int)
    requires 0 <= k < |Tally(s, hi)|
    ensures 0 <= Tally(s, hi)[k] <= hi
    ensures AtMost(s, Tally(s, hi)[k] - 1) <= k < AtMost(s, Tally(s, hi)[k])
    decreases hi
  {
    if k < AtMost(s, hi - 1) {
      TallyAt(s, hi - 1, k);
      assert Tally(s, hi)[k] == Tally(s, hi - 1)[k];
    } else {
      assert Tally(s, hi)[k] == hi;
    }
  }

  /** Every position of v's block holds v. */
  lemma {:induction false} TallyBlock(s: seq<int>, hi: int, v: int, k: int)
    requires 0 <= v <= hi && AtMost(s, v - 1) <= k < AtMost(s, v)
    ensures k < |Tally(s, hi)| && Tally(s, hi)[k] == v
    decreases hi
  {
    AtMostMono(s, v, hi);
    if v < hi {
      TallyBlock(s, hi - 1, v, k);
      AtMostMono(s, v, hi - 1);
      assert Tally(s, hi)[k] == Tally(s, hi - 1)[k];
    } else {
      assert Tally(s, hi)[k] == Repeat(hi, multiset(s)[hi])[k - AtMost(s, hi - 1)];
    }
  }

  lemma {:induction false} AtMostMono(s: seq<int>, v: int, w: int)
    requires v <= w
    ensures AtMost(s, v) <= AtMost(s, w)
    decreases w - v
  {
    if v < w {
      AtMostMono(s, v, w - 1);
    }
  }

  /** The tally is sorted. */
  lemma TallySorted(s: seq<int>, hi: int)
    ensures Sorted(Tally(s, hi))
  {
    var t := Tally(s, hi);
    forall i, j | 0 <= i < j < |t|
      ensures t[i] <= t[j]
    {
      TallyAt(s, hi, i);
      TallyAt(s, hi, j);
      BlockOrder(s, t[i], t[j], i, j);
    }
  }

  /** A block that holds an earlier position belongs to a value no larger. */
  lemma BlockOrder(s: seq<int>, v: int, w: int, a: int, b: int)
    requires AtMost(s, v - 1) <= a < b < AtMost(s, w)
    ensures v <= w
  {
    if v > w {
      AtMostMono(s, w, v - 1);
    }
  }

  lemma {:induction false} TallyCount(s: seq<int>, hi: int, x: int)
    ensures multiset(Tally(s, hi))[x] == if 0 <= x <= hi then multiset(s)[x] else 0
    decreases hi
  {
    if hi >= 0 {
      TallyCount(s, hi - 1, x);
      var r := Repeat(hi, multiset(s)[hi]);
      assert multiset(Tally(s, hi)) == multiset(Tally(s, hi - 1)) + multiset(r);
      RepeatCount(hi, multiset(s)[hi], x);
    }
  }

  lemma {:induction false} RepeatCount(v: int, k: nat, x: int)
    ensures multiset(Repeat(v, k))[x] == if x == v then k else 0
    decreases k
  {
    if k > 0 {
      assert Repeat(v, k) == Repeat(v, k - 1) + [v];
      RepeatCount(v, k - 1, x);
    }
  }

  /** When every entry of s lies in [0, hi], the tally is a permutation of s. */
  lemma TallyPerm(s: seq<int>, hi: int)
    requires forall k :: 0 <= k < |s| ==> 0 <= s[k] <= hi
    ensures Perm(Tally(s, hi), s) && AtMost(s, hi) == |s|
  {
    forall x
      ensures multiset(Tally(s, hi))[x] == multiset(s)[x]
    {
      TallyCount(s, hi, x);
      if !(0 <= x <= hi) {
        assert x !in s;
      }
    }
    assert multiset(Tally(s, hi)) == multiset(s);
    assert |Tally(s, hi)| == |multiset(Tally(s, hi))| == |multiset(s)| == |s|;
  }

  /**
   * countSort, for arrays of non-negative entries: find the largest entry
   * (at least 2), count each value, turn the counts into running sums, place
   * each entry just below its value's running sum, working from the front,
   * and copy the result back.
   */
  method CountSort(list: array<int>)
    requires forall k :: 0 <= k < list.Length ==> list[k] >= 0
    modifies list
    ensures Sorted(list[..]) && Perm(list[..], old(list[..]))
  {
    ghost var s := list[..];
    var max := FindMax(list);
    var countArray := Count(list, max);
    RunningSums(countArray, s);
    TallyPerm(s, max);
    var outputList := Place(list, countArray, max);
    TallySorted(s, max);
    CopyBack(outputList, list);
  }

  /** The first loop: the largest entry, or 2 when every entry is smaller. */
  method FindMax(list: array<int>) returns (max: int)
    ensures max >= 2 && forall k :: 0 <= k < list.Length ==> list[k] <= max
    ensures max == 2 || exists k :: 0 <= k < list.Length && list[k] == max
  {
    max := 2;
    for i := 0 to list.Length
      invariant max >= 2 && forall k :: 0 <= k < i ==> list[k] <= max
      invariant max == 2 || exists k :: 0 <= k < i && list[k] == max
    {
      if list[i] > max {
        max := list[i];
      }
    }
  }

  /** The last loop: copy the output back over the input. */
  method CopyBack(from: array<int>, to: array<int>)
    requires from.Length == to.Length && from != to
    modifies to
    ensures to[..] == from[..]
  {
    for i := 0 to to.Length
      invariant forall k :: 0 <= k < i ==> to[k] == from[k]
    {
      to[i] := from[i];
    }
  }

  /** The zeroing and counting loops: countArray[v] is the number of entries equal to v. */
  method Count(list: array<int>, max: int) returns (countArray: array<int>)
    requires max >= 0 && forall k :: 0 <= k < list.Length ==> 0 <= list[k] <= max
    ensures fresh(countArray) && countArray.Length == max + 1
    ensures forall v :: 0 <= v <= max ==> countArray[v] == multiset(list[..])[v]
  {
    countArray := new int[max + 1];
    for i := 0 to max + 1
      invariant forall v :: 0 <= v < i ==> countArray[v] == 0
    {
      countArray[i] := 0;
    }
    for i := 0 to list.Length
      invariant forall v :: 0 <= v <= max ==> countArray[v] == multiset(list[..i])[v]
    {
      assert list[..i + 1] == list[..i] + [list[i]];
      countArray[list[i]] := countArray[list[i]] + 1;
    }
    assert list[..list.Length] == list[..];
  }

  /** The rolling-sum loop: countArray[v] becomes the number of entries at most v. */
  method RunningSums(countArray: array<int>, ghost s: seq<int>)
    requires countArray.Length >= 1
    requires forall v :: 0 <= v < countArray.Length ==> countArray[v] == multiset(s)[v]
    modifies countArray
    ensures forall v :: 0 <= v < countArray.Length ==> countArray[v] == AtMost(s, v)
  {
    for i := 1 to countArray.Length
      invariant forall v :: 0 <= v < i ==> countArray[v] == AtMost(s, v)
      invariant forall v :: i <= v < countArray.Length ==> countArray[v] == multiset(s)[v]
    {
      countArray[i] := countArray[i] + countArray[i - 1];
    }
  }

  /**
   * The output loop: each entry, taken from the front, goes to the slot
   * just below its value's running sum, which is then lowered.  The output
   * is the tally of the entries.
   */
  method Place(list: array<int>, countArray: array<int>, max: int) returns (outputList: array<int>)
    requires countArray.Length == max + 1 && max >= 0 && list != countArray
    requires forall k :: 0 <= k < list.Length ==> 0 <= list[k] <= max
    requires forall v :: 0 <= v <= max ==> countArray[v] == AtMost(list[..], v)
    requires AtMost(list[..], max) == list.Length
    modifies countArray
    ensures fresh(outputList) && outputList[..] == Tally(list[..], max)
  {
    ghost var s := list[..];
    ghost var t := Tally(s, max);
    var n := list.Length;
    outputList := new int[n];
    PlaceStart(countArray[..], outputList[..], s, max);
    for i := 0 to n
      invariant Remaining(countArray[..], s, i)
      invariant InRange(t, max)
      invariant Placed(countArray[..], outputList[..], t)
    {
      PlaceOne(list, countArray, outputList, max, i, s, t);
    }
    PlaceEnd(countArray[..], outputList[..], s, max);
  }

  /** One pass of the output loop: entry i goes below its value's running sum. */
  method PlaceOne(list: array<int>, countArray: array<int>, outputList: array<int>, max: int, i: int,
                  ghost s: seq<int>, ghost t: seq<int>)
    requires list != countArray && list != outputList && countArray != outputList
    requires countArray.Length == max + 1 && max >= 0 && s == list[..] && t == Tally(s, max)
    requires 0 <= i < |s| && outputList.Length == |t| && 0 <= list[i] <= max
    requires Remaining(countArray[..], s, i) && InRange(t, max)
    requires Placed(countArray[..], outputList[..], t)
    modifies countArray, outputList
    ensures Remaining(countArray[..], s, i + 1) && Placed(countArray[..], outputList[..], t)
  {
    ghost var cnt, out := countArray[..], outputList[..];
    var v := list[i];
    PlaceSlot(s, i, max);
    countArray[v] := countArray[v] - 1;
    var c := countArray[v];
    TallyBlock(s, max, v, c);
    outputList[c] := v;
    assert countArray[..] == cnt[v := c];
    assert outputList[..] == out[c := v];
    PlaceStep(cnt, out, t, v, c);
    RemainingStep(cnt, s, i);
  }

  /** Before any entry is placed, no slot is claimed and every block is whole. */
  lemma PlaceStart(cnt: seq<int>, out: seq<int>, s: seq<int>, max: int)
    requires |cnt| == max + 1 && |out| == |s| == AtMost(s, max)
    requires forall v :: 0 <= v <= max ==> cnt[v] == AtMost(s, v)
    ensures Remaining(cnt, s, 0) && InRange(Tally(s, max), max)
    ensures Placed(cnt, out, Tally(s, max))
  {
    var t := Tally(s, max);
    forall k | 0 <= k < |t|
      ensures 0 <= t[k] <= max && k < cnt[t[k]]
    {
      TallyAt(s, max, k);
    }
    assert s[..0] == [];
  }

  /** Once every entry is placed, every block is filled with its value. */
  lemma PlaceEnd(cnt: seq<int>, out: seq<int>, s: seq<int>, max: int)
    requires |cnt| == max + 1 && |out| == |s| == AtMost(s, max)
    requires Remaining(cnt, s, |s|) && InRange(Tally(s, max), max)
    requires Placed(cnt, out, Tally(s, max))
    ensures out == Tally(s, max)
  {
    var t := Tally(s, max);
    assert s[..|s|] == s;
    forall k | 0 <= k < |out|
      ensures out[k] == t[k]
    {
      TallyAt(s, max, k);
    }
  }

  /** Every entry of t names a counter. */
  ghost predicate InRange(t: seq<int>, max: int)
  {
    forall k :: 0 <= k < |t| ==> 0 <= t[k] <= max
  }

  /** Counter v is the room left in v's block once the first i entries are placed. */
  ghost predicate Remaining(cnt: seq<int>, s: seq<int>, i: int)
    requires 0 <= i <= |s|
  {
    forall v :: 0 <= v < |cnt| ==> cnt[v] == AtMost(s, v) - multiset(s[..i])[v]
  }

  /** Every slot at or above its value's counter already holds its tally entry. */
  ghost predicate Placed(cnt: seq<int>, out: seq<int>, t: seq<int>)
    requires |t| == |out| && InRange(t, |cnt| - 1)
  {
    forall k :: 0 <= k < |out| && cnt[t[k]] <= k ==> out[k] == t[k]
  }

  lemma PlaceStep(cnt: seq<int>, out: seq<int>, t: seq<int>, v: int, c: int)
    requires |t| == |out| && InRange(t, |cnt| - 1) && Placed(cnt, out, t)
    requires 0 <= v < |cnt| && 0 <= c < |out| && cnt[v] == c + 1 && t[c] == v
    ensures Placed(cnt[v := c], out[c := v], t)
  {
    var cnt', out' := cnt[v := c], out[c := v];
    forall k | 0 <= k < |out'| && cnt'[t[k]] <= k
      ensures out'[k] == t[k]
    {
      if k != c {
        assert out'[k] == out[k];
        if t[k] != v {
          assert cnt'[t[k]] == cnt[t[k]];
        }
      }
    }
  }

  lemma RemainingStep(cnt: seq<int>, s: seq<int>, i: int)
    requires 0 <= i < |s| && 0 <= s[i] < |cnt| && Remaining(cnt, s, i)
    ensures Remaining(cnt[s[i] := cnt[s[i]] - 1], s, i + 1)
  {
    assert s[..i + 1] == s[..i] + [s[i]];
  }

  /** The entry at i still has a slot left in its value's block. */
  lemma PlaceSlot(s: seq<int>, i: int, max: int)
    requires 0 <= i < |s| && 0 <= s[i] <= max
    ensures AtMost(s, s[i] - 1) < AtMost(s, s[i]) - multiset(s[..i])[s[i]]
  {
    assert s == s[..i] + s[i..];
    assert multiset(s)[s[i]] == multiset(s[..i])[s[i]] + multiset(s[i..])[s[i]];
    assert s[i] in multiset(s[i..]) by { assert s[i..][0] == s[i]; }
  }

  // ----- The frequency array

  /** The length of the frequency array, (1 << (NUM_ELEMS - 2)) + 1. */
  const FREQ_LEN: nat := Numerals.Pow(2, NUM_ELEMS - 2) + 1

  /** Each entry shifted right by one bit (for the non-negative entries used here). */
  function Halves(s: seq<int>): (r: seq<int>)
    ensures |r| == |s| && forall k :: 0 <= k < |s| ==> r[k] == s[k] / 2
  {
    seq(|s|, k requires 0 <= k < |s| => s[k] / 2)
  }

  /**
   * notSortButMakeFrequencyArray: tally each entry shifted right by one bit,
   * visiting at least the first entry, as the do-while does.  The program
   * throws the table away; the model returns it.
   */
  method FrequencyArray(arr: array<int>) returns (freq: array<int>)
    requires arr.Length == NUM_ELEMS
    requires forall k :: 0 <= k < arr.Length ==> 0 <= arr[k] && arr[k] / 2 < FREQ_LEN
    ensures fresh(freq) && freq.Length == FREQ_LEN
    ensures forall b :: 0 <= b < FREQ_LEN ==> freq[b] == multiset(Halves(arr[..]))[b]
  {
    freq := new int[FREQ_LEN](_ => 0);
    var p := 0;
    assert arr[..0] == [];
    while true
      invariant 0 <= p < arr.Length
      invariant forall b :: 0 <= b < FREQ_LEN ==> freq[b] == multiset(Halves(arr[..p]))[b]
      decreases arr.Length - p
    {
      assert arr[..p + 1] == arr[..p] + [arr[p]];
      assert Halves(arr[..p + 1]) == Halves(arr[..p]) + [arr[p] / 2];
      freq[arr[p] / 2] := freq[arr[p] / 2] + 1;
      p := p + 1;
      if p >= arr.Length {
        break;
      }
    }
    assert arr[..p] == arr[..];
  }

  /**
   * Comparing frequency arrays decides what comparing sorted copies decides:
   * two lists of in-range entries have the same table exactly when their
   * shifted entries are permutations of each other.
   */
  lemma FrequencyDecides(s: seq<int>, t: seq<int>)
    requires forall k :: 0 <= k < |s| ==> 0 <= s[k] / 2 < FREQ_LEN
    requires forall k :: 0 <= k < |t| ==> 0 <= t[k] / 2 < FREQ_LEN
    ensures (forall b :: 0 <= b < FREQ_LEN ==> multiset(Halves(s))[b] == multiset(Halves(t))[b])
      <==> Perm(Halves(s), Halves(t))
  {
    var hs, ht := Halves(s), Halves(t);
    if forall b :: 0 <= b < FREQ_LEN ==> multiset(hs)[b] == multiset(ht)[b] {
      forall b
        ensures multiset(hs)[b] == multiset(ht)[b]
      {
        if !(0 <= b < FREQ_LEN) {
          assert b !in hs && b !in ht;
        }
      }
      assert multiset(hs) == multiset(ht);
    }
  }
}
