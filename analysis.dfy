/**
 * The analysis program: sequence numbers of Gray codes written as digit
 * characters, their rotation by arithmetic on the sequence number, the swap
 * of two digit characters, and the insert-only AVL tree of sequence numbers
 * whose empty positions are sentinel nodes holding the value 0.
 *
 * The tree's nodes are modelled as values: a parent pointer becomes the path
 * of "crumbs" from the root down to a node, and the walk up the parent
 * pointers in addNode becomes a loop that pops that path.
 */
module Analysis {
  import opened Bits
  import opened Numerals

  // ----- Sequence numbers

  /**
   * rotateSequence: with P = n^(len-1), the value highest digit first,
   * (x % P) * n + (x - x % P) / P.  P is taken exactly (the program computes
   * it with the floating-point pow, which is exact for the sizes it uses).
   */
  function RotateSequence(x: nat, n: nat, len: nat): nat
    requires n >= 1 && len >= 1
  {
    var p := Pow(n, len - 1);
    (x % p) * n + (x - x % p) / p
  }

  /** A sequence number below n^len rotates to one below n^len. */
  lemma RotateSequenceBound(x: nat, n: nat, len: nat)
    requires n >= 1 && len >= 1 && x < Pow(n, len)
    ensures RotateSequence(x, n, len) < Pow(n, len)
  {
    var p := Pow(n, len - 1);
    PowStep(n, len);
    DivBound(x, p, n);
    DivMod(x, p);
    DivModUnique(x - x % p, x / p, 0, p);
    RotateBound(x % p, x / p, p, n);
  }

  lemma RotateBound(r: nat, d: nat, p: nat, n: nat)
    requires r < p && d < n
    ensures r * n + d < n * p
  {
    DigitBound(r, d, p, n);
  }

  /** On the numeral of a digit string, rotateSequence gives the numeral of the string rotated left by one step. */
  lemma RotateSequenceDigits(ds: seq<nat>, n: nat)
    requires |ds| >= 1 && n >= 1 && IsDigits(ds, n)
    ensures RotateSequence(Num(ds, n), n, |ds|) == Num(RotL(ds), n)
  {
    var p := Pow(n, |ds| - 1);
    var rest := Num(ds[1..], n);
    NumFront(ds, n);
    NumBound(ds[1..], n);
    var x := Num(ds, n);
    assert x == ds[0] * p + rest;
    DivModUnique(x, ds[0], rest, p);
    assert x - x % p == ds[0] * p;
    DivModUnique(x - x % p, ds[0], 0, p);
    var r := RotL(ds);
    assert r[..|r| - 1] == ds[1..];
    assert Num(r, n) == rest * n + ds[0];
  }

  /** rotateSequence applied k times. */
  function RotateTimes(x: nat, n: nat, len: nat, k: nat): nat
    requires n >= 1 && len >= 1
  {
    if k == 0 then x else RotateSequence(RotateTimes(x, n, len, k - 1), n, len)
  }

  /** k rotations of the numeral of ds give the numeral of ds rotated by k. */
  lemma {:induction false} RotateTimesDigits(ds: seq<nat>, n: nat, k: nat)
    requires |ds| >= 1 && n >= 1 && IsDigits(ds, n) && k <= |ds|
    ensures RotateTimes(Num(ds, n), n, |ds|, k) == Num(Rot(ds, k), n)
  {
    if k == 0 {
      RotFull(ds);
    } else {
      RotateTimesDigits(ds, n, k - 1);
      RotDigits(ds, k - 1, n);
      RotateSequenceDigits(Rot(ds, k - 1), n);
      RotStep(ds, k - 1);
    }
  }

  /**
   * The rotation loops of main stop: len rotations of a sequence number
   * below n^len give it back.
   */
  lemma RotateSequenceCycle(x: nat, n: nat, len: nat)
    requires n >= 2 && len >= 1 && x < Pow(n, len)
    ensures RotateTimes(x, n, len, len) == x
  {
    DigitsNum(x, n, len);
    var ds := Numerals.Digits(x, n, len);
    RotateTimesDigits(ds, n, len);
    RotFull(ds);
  }

  /** The step digits of a line of characters '0', '1', ... */
  function CharDigits(line: seq<char>): (ds: seq<nat>)
    requires forall i :: 0 <= i < |line| ==> '0' <= line[i]
    ensures |ds| == |line|
  {
    seq(|line|, i requires 0 <= i < |line| => line[i] as nat - '0' as nat)
  }

  /**
   * The sequence-number loop of main: the first character's digit, then for
   * each further character multiply by n and add its digit.
   */
  method SequenceNumber(line: seq<char>, n: nat) returns (seqNum: nat)
    requires |line| >= 1 && forall i :: 0 <= i < |line| ==> '0' <= line[i]
    ensures seqNum == Num(CharDigits(line), n)
  {
    ghost var ds := CharDigits(line);
    seqNum := line[0] as nat - '0' as nat;
    assert ds[..1][..0] == [];
    for i := 1 to |line|
      invariant seqNum == Num(ds[..i], n)
    {
      seqNum := seqNum * n;
      seqNum := seqNum + (line[i] as nat - '0' as nat);
      assert ds[..i + 1][..i] == ds[..i];
    }
    assert ds[..|line|] == ds;
  }

  /**
   * A line of digit characters below n is given back by its sequence number:
   * the number is below n^len and its len digits are the line's digits.
   */
  lemma SequenceNumberDigits(line: seq<char>, n: nat)
    requires n >= 2 && forall i :: 0 <= i < |line| ==> '0' <= line[i]
    requires IsDigits(CharDigits(line), n)
    ensures Num(CharDigits(line), n) < Pow(n, |line|)
    ensures Numerals.Digits(Num(CharDigits(line), n), n, |line|) == CharDigits(line)
  {
    var ds := CharDigits(line);
    NumBound(ds, n);
    var x := Num(ds, n);
    DigitsNum(x, n, |line|);
    NumInjective(Numerals.Digits(x, n, |line|), ds, n);
  }

  /** Every swapA becomes swapB and every swapB becomes swapA. */
  function SwapChars(s: seq<char>, a: char, b: char): (r: seq<char>)
    ensures |r| == |s|
  {
    seq(|s|, k requires 0 <= k < |s| => if s[k] == a then b else if s[k] == b then a else s[k])
  }

  /** The swap exchanges the two characters and leaves every other character alone. */
  lemma SwapCharsExchanges(s: seq<char>, a: char, b: char)
    ensures forall k :: 0 <= k < |s| && s[k] == a ==> SwapChars(s, a, b)[k] == b
    ensures forall k :: 0 <= k < |s| && s[k] == b ==> SwapChars(s, a, b)[k] == a
    ensures forall k :: 0 <= k < |s| && s[k] != a && s[k] != b ==> SwapChars(s, a, b)[k] == s[k]
  {
  }

  /** Swapping the same two characters twice gives the line back. */
  lemma SwapCharsInvolution(s: seq<char>, a: char, b: char)
    ensures SwapChars(SwapChars(s, a, b), a, b) == s
  {
    var r := SwapChars(SwapChars(s, a, b), a, b);
    forall k | 0 <= k < |s|
      ensures r[k] == s[k]
    {
    }
  }

  /** swapSequence: the swap over the first len characters of line. */
  method SwapSequence(line: array<char>, a: char, b: char, len: nat)
    requires len <= line.Length
    modifies line
    ensures line[..] == SwapChars(old(line[..len]), a, b) + old(line[len..])
  {
    ghost var s0 := line[..];
    var i := 0;
    while i < len
      invariant i <= len
      invariant line[..i] == SwapChars(s0[..i], a, b)
      invariant line[i..] == s0[i..]
    {
      assert line[i] == s0[i] by {
        assert line[i..][0] == s0[i..][0];
      }
      if line[i] == a {
        line[i] := b;
      } else if line[i] == b {
        line[i] := a;
      }
      assert line[..i + 1] == line[..i] + [line[i]];
      assert SwapChars(s0[..i + 1], a, b) == SwapChars(s0[..i], a, b) + SwapChars([s0[i]], a, b);
      i := i + 1;
    }
    assert s0[..len] == old(line[..len]);
  }

  // ----- The insert-only AVL tree

  /**
   * A subtree: a sentinel (an empty position, value 0 and height 0) or a node
   * with its value, its stored height and its two children.
   */
  datatype Tree = Sentinel | Node(value: nat, height: nat, left: Tree, right: Tree)

  /** The height field: 0 for a sentinel. */
  function H(t: Tree): nat
  {
    if t.Sentinel? then 0 else t.height
  }

  /** The value field: 0 for a sentinel. */
  function Value(t: Tree): nat
  {
    if t.Sentinel? then 0 else t.value
  }

  function Max(a: nat, b: nat): nat
  {
    if a >= b then a else b
  }

  function Keys(t: Tree): set<nat>
  {
    match t
    case Sentinel => {}
    case Node(v, _, l, r) => Keys(l) + {v} + Keys(r)
  }

  /** The values met by an in-order traversal. */
  function Elements(t: Tree): seq<nat>
  {
    match t
    case Sentinel => []
    case Node(v, _, l, r) => Elements(l) + [v] + Elements(r)
  }

  predicate Below(s: set<nat>, v: nat)
  {
    forall k :: k in s ==> k < v
  }

  predicate Above(s: set<nat>, v: nat)
  {
    forall k :: k in s ==> v < k
  }

  /** Binary-search-tree order: smaller values to the left, larger to the right. */
  predicate Ordered(t: Tree)
  {
    match t
    case Sentinel => true
    case Node(v, _, l, r) => Ordered(l) && Ordered(r) && Below(Keys(l), v) && Above(Keys(r), v)
  }

  /** Every stored height is one more than the taller child's, and siblings differ by at most one. */
  predicate Balanced(t: Tree)
  {
    match t
    case Sentinel => true
    case Node(_, h, l, r) =>
      Balanced(l) && Balanced(r) && h == 1 + Max(H(l), H(r)) && H(l) <= H(r) + 1 && H(r) <= H(l) + 1
  }

  predicate AVL(t: Tree)
  {
    Ordered(t) && Balanced(t)
  }

  /** The in-order values of an ordered tree increase strictly and are its keys. */
  lemma {:induction false} OrderedElements(t: Tree)
    requires Ordered(t)
    ensures forall i, j :: 0 <= i < j < |Elements(t)| ==> Elements(t)[i] < Elements(t)[j]
    ensures forall k :: k in Elements(t) <==> k in Keys(t)
  {
    if t.Node? {
      OrderedElements(t.left);
      OrderedElements(t.right);
      var l, r := Elements(t.left), Elements(t.right);
      assert Elements(t) == l + [t.value] + r;
      forall i, j | 0 <= i < j < |Elements(t)|
        ensures Elements(t)[i] < Elements(t)[j]
      {
        var e := Elements(t);
        if j < |l| {
          assert e[i] == l[i] && e[j] == l[j];
        } else if i < |l| {
          assert e[i] in Keys(t.left) by { assert e[i] == l[i] && l[i] in l; }
          if j > |l| {
            assert e[j] in Keys(t.right) by { assert e[j] == r[j - |l| - 1] && r[j - |l| - 1] in r; }
          }
        } else if i == |l| {
          assert e[j] in Keys(t.right) by { assert e[j] == r[j - |l| - 1] && r[j - |l| - 1] in r; }
        } else {
          assert e[i] == r[i - |l| - 1] && e[j] == r[j - |l| - 1];
        }
      }
    }
  }

  /** makeTree's tree: the root is a single sentinel. */
  lemma EmptyTree()
    ensures AVL(Sentinel) && Keys(Sentinel) == {} && Elements(Sentinel) == []
  {
  }

  /** The C height recomputation 1 + max(left height, right height). */
  function FixHeight(t: Tree): Tree
  {
    match t
    case Sentinel => Sentinel
    case Node(v, _, l, r) => Node(v, 1 + Max(H(l), H(r)), l, r)
  }

  /**
   * rotate: the left (or right) child of p takes p's place, p becomes its
   * right (or left) child and the child's inner subtree moves across to p.
   * Stored heights move with their nodes unchanged.  Where the child is a
   * sentinel the program never rotates; the model then gives p back.
   */
  function RotateUp(p: Tree, left: bool): Tree
  {
    if left && p.Node? && p.left.Node? then
      Node(p.left.value, p.left.height, p.left.left, Node(p.value, p.height, p.left.right, p.right))
    else if !left && p.Node? && p.right.Node? then
      Node(p.right.value, p.right.height, Node(p.value, p.height, p.left, p.right.left), p.right.right)
    else
      p
  }

  /** A rotation keeps the in-order sequence, the keys and the search order. */
  lemma RotateUpOrder(p: Tree, left: bool)
    ensures Elements(RotateUp(p, left)) == Elements(p)
    ensures Keys(RotateUp(p, left)) == Keys(p)
    ensures Ordered(p) ==> Ordered(RotateUp(p, left))
  {
    if left && p.Node? && p.left.Node? {
      var c := p.left;
      assert Elements(p) == Elements(c.left) + [c.value] + Elements(c.right) + [p.value] + Elements(p.right);
      if Ordered(p) {
        assert Ordered(c) && Below(Keys(c), p.value) && Above(Keys(c.right), c.value) && Below(Keys(c.left), c.value);
        assert c.value in Keys(c);
        BelowSub(Keys(c.right), Keys(c), p.value);
        AboveTrans(Keys(p.right), c.value, p.value);
        NodeAbove(p.value, p.height, c.right, p.right, c.value);
        var q := Node(p.value, p.height, c.right, p.right);
        assert Ordered(q);
        assert RotateUp(p, left) == Node(c.value, c.height, c.left, q);
      }
    } else if !left && p.Node? && p.right.Node? {
      var c := p.right;
      assert Elements(p) == Elements(p.left) + [p.value] + Elements(c.left) + [c.value] + Elements(c.right);
      if Ordered(p) {
        assert Ordered(c) && Above(Keys(c), p.value) && Above(Keys(c.right), c.value) && Below(Keys(c.left), c.value);
        assert c.value in Keys(c);
        AboveSub(Keys(c.left), Keys(c), p.value);
        BelowTrans(Keys(p.left), p.value, c.value);
        NodeBelow(p.value, p.height, p.left, c.left, c.value);
        var q := Node(p.value, p.height, p.left, c.left);
        assert Ordered(q);
        assert RotateUp(p, left) == Node(c.value, c.height, q, c.right);
      }
    }
  }

  lemma NodeBelow(v: nat, h: nat, l: Tree, r: Tree, x: nat)
    requires Below(Keys(l), x) && v < x && Below(Keys(r), x)
    ensures Below(Keys(Node(v, h, l, r)), x)
  {
  }

  lemma NodeAbove(v: nat, h: nat, l: Tree, r: Tree, x: nat)
    requires Above(Keys(l), x) && x < v && Above(Keys(r), x)
    ensures Above(Keys(Node(v, h, l, r)), x)
  {
  }

  lemma BelowSub(s: set<nat>, u: set<nat>, v: nat)
    requires s <= u && Below(u, v)
    ensures Below(s, v)
  {
  }

  lemma AboveSub(s: set<nat>, u: set<nat>, v: nat)
    requires s <= u && Above(u, v)
    ensures Above(s, v)
  {
  }

  lemma BelowTrans(s: set<nat>, a: nat, b: nat)
    requires Below(s, a) && a < b
    ensures Below(s, b)
  {
  }

  lemma AboveTrans(s: set<nat>, a: nat, b: nat)
    requires Above(s, b) && a < b
    ensures Above(s, a)
  {
  }

  function Child(t: Tree, left: bool): Tree
    requires t.Node?
  {
    if left then t.left else t.right
  }

  function WithChild(t: Tree, left: bool, c: Tree): Tree
    requires t.Node?
  {
    if left then Node(t.value, t.height, c, t.right) else Node(t.value, t.height, t.left, c)
  }

  /**
   * tallerChild, as the side it picks (true for left): the taller child, or
   * on equal heights the left child at the root and otherwise the child on
   * the same side as t is of its parent.
   */
  function TallerChildIsLeft(t: Tree, isRoot: bool, isLeft: bool): bool
    requires t.Node?
  {
    if H(t.left) > H(t.right) then true
    else if H(t.left) < H(t.right) then false
    else if isRoot then true
    else isLeft
  }

  predicate Unbalanced(t: Tree)
    requires t.Node?
  {
    H(t.left) > H(t.right) + 1 || H(t.right) > H(t.left) + 1
  }

  /**
   * The restructure of addNode at an unbalanced node t: one rotation when the
   * taller grandchild is on the same side as the taller child, two otherwise,
   * then the heights of the new root's children are recomputed.
   */
  function Restructure(t: Tree, isRoot: bool, isLeft: bool): Tree
    requires t.Node? && Unbalanced(t)
  {
    FixChildren(Rotations(t, isRoot, isLeft))
  }

  /** The rotations of the restructure, before any height is recomputed. */
  function Rotations(t: Tree, isRoot: bool, isLeft: bool): Tree
    requires t.Node? && Unbalanced(t)
  {
    var cl := TallerChildIsLeft(t, isRoot, isLeft);
    var child := Child(t, cl);
    var gl := TallerChildIsLeft(child, false, cl);
    if gl == cl then RotateUp(t, cl) else RotateUp(WithChild(t, cl, RotateUp(child, gl)), cl)
  }

  function FixChildren(r: Tree): Tree
  {
    match r
    case Sentinel => r
    case Node(v, h, a, b) => Node(v, h, FixHeight(a), FixHeight(b))
  }

  /** One pass of addNode's rebalancing loop at t: restructure if unbalanced, then recompute t's height. */
  function Rebalance(t: Tree, isRoot: bool, isLeft: bool): Tree
    requires t.Node?
  {
    FixHeight(if Unbalanced(t) then Restructure(t, isRoot, isLeft) else t)
  }

  /** Restructuring keeps the keys and the search order. */
  lemma RestructureOrder(t: Tree, isRoot: bool, isLeft: bool)
    requires t.Node? && Unbalanced(t) && Ordered(t)
    ensures Keys(Restructure(t, isRoot, isLeft)) == Keys(t)
    ensures Ordered(Restructure(t, isRoot, isLeft))
  {
    RotationsOrder(t, isRoot, isLeft);
    var r := Rotations(t, isRoot, isLeft);
    if r.Node? {
      FixOrder(r.left);
      FixOrder(r.right);
    }
  }

  lemma RotationsOrder(t: Tree, isRoot: bool, isLeft: bool)
    requires t.Node? && Unbalanced(t) && Ordered(t)
    ensures Keys(Rotations(t, isRoot, isLeft)) == Keys(t)
    ensures Ordered(Rotations(t, isRoot, isLeft))
  {
    var cl := TallerChildIsLeft(t, isRoot, isLeft);
    var child := Child(t, cl);
    var gl := TallerChildIsLeft(child, false, cl);
    if gl == cl {
      RotateUpOrder(t, cl);
    } else {
      RotateUpOrder(child, gl);
      var t1 := WithChild(t, cl, RotateUp(child, gl));
      assert Keys(t1) == Keys(t);
      RotateUpOrder(t1, cl);
    }
  }

  lemma FixBalanced(t: Tree)
    requires Balanced(t)
    ensures FixHeight(t) == t
  {
  }

  /**
   * A node two taller on the left than on the right, whose children are
   * balanced, is restructured into a balanced tree of the left child's height
   * or one more.
   */
  lemma RestructureLeft(t: Tree, isRoot: bool, isLeft: bool)
    requires t.Node? && Balanced(t.left) && Balanced(t.right) && H(t.left) == H(t.right) + 2
    ensures Balanced(FixHeight(Restructure(t, isRoot, isLeft)))
    ensures H(t.left) <= H(FixHeight(Restructure(t, isRoot, isLeft))) <= H(t.left) + 1
  {
    var c := t.left;
    if H(c.left) >= H(c.right) {
      var inner := Node(t.value, 1 + Max(H(c.right), H(t.right)), c.right, t.right);
      RestructureLeftSingle(t, isRoot, isLeft);
      FixBalanced(c.left);
      SingleBalanced(c.value, c.height, c.left, inner);
    } else {
      var g := c.right;
      var l := Node(c.value, 1 + Max(H(c.left), H(g.left)), c.left, g.left);
      var r := Node(t.value, 1 + Max(H(g.right), H(t.right)), g.right, t.right);
      RestructureLeftDouble(t, isRoot, isLeft);
      DoubleBalanced(g.value, g.height, l, r, H(t.right) + 1);
    }
  }

  lemma RestructureLeftSingle(t: Tree, isRoot: bool, isLeft: bool)
    requires t.Node? && t.left.Node? && H(t.left) > H(t.right) + 1 && H(t.left.left) >= H(t.left.right)
    ensures Restructure(t, isRoot, isLeft) ==
      Node(t.left.value, t.left.height, FixHeight(t.left.left),
        Node(t.value, 1 + Max(H(t.left.right), H(t.right)), t.left.right, t.right))
  {
    assert TallerChildIsLeft(t, isRoot, isLeft);
    assert TallerChildIsLeft(t.left, false, true);
  }

  lemma RestructureLeftDouble(t: Tree, isRoot: bool, isLeft: bool)
    requires t.Node? && t.left.Node? && H(t.left) > H(t.right) + 1 && H(t.left.left) < H(t.left.right)
    ensures var c, g := t.left, t.left.right;
      Restructure(t, isRoot, isLeft) ==
        Node(g.value, g.height, Node(c.value, 1 + Max(H(c.left), H(g.left)), c.left, g.left),
          Node(t.value, 1 + Max(H(g.right), H(t.right)), g.right, t.right))
  {
    assert TallerChildIsLeft(t, isRoot, isLeft);
    assert !TallerChildIsLeft(t.left, false, true);
  }

  /** The mirror image of RestructureLeft. */
  lemma RestructureRight(t: Tree, isRoot: bool, isLeft: bool)
    requires t.Node? && Balanced(t.left) && Balanced(t.right) && H(t.right) == H(t.left) + 2
    ensures Balanced(FixHeight(Restructure(t, isRoot, isLeft)))
    ensures H(t.right) <= H(FixHeight(Restructure(t, isRoot, isLeft))) <= H(t.right) + 1
  {
    var c := t.right;
    if H(c.right) >= H(c.left) {
      var inner := Node(t.value, 1 + Max(H(t.left), H(c.left)), t.left, c.left);
      RestructureRightSingle(t, isRoot, isLeft);
      FixBalanced(c.right);
      SingleBalanced(c.value, c.height, inner, c.right);
    } else {
      var g := c.left;
      var l := Node(t.value, 1 + Max(H(t.left), H(g.left)), t.left, g.left);
      var r := Node(c.value, 1 + Max(H(g.right), H(c.right)), g.right, c.right);
      RestructureRightDouble(t, isRoot, isLeft);
      DoubleBalanced(g.value, g.height, l, r, H(t.left) + 1);
    }
  }

  lemma RestructureRightSingle(t: Tree, isRoot: bool, isLeft: bool)
    requires t.Node? && t.right.Node? && H(t.right) > H(t.left) + 1 && H(t.right.right) >= H(t.right.left)
    ensures Restructure(t, isRoot, isLeft) ==
      Node(t.right.value, t.right.height,
        Node(t.value, 1 + Max(H(t.left), H(t.right.left)), t.left, t.right.left), FixHeight(t.right.right))
  {
    assert !TallerChildIsLeft(t, isRoot, isLeft);
    assert !TallerChildIsLeft(t.right, false, false);
  }

  lemma RestructureRightDouble(t: Tree, isRoot: bool, isLeft: bool)
    requires t.Node? && t.right.Node? && H(t.right) > H(t.left) + 1 && H(t.right.right) < H(t.right.left)
    ensures var c, g := t.right, t.right.left;
      Restructure(t, isRoot, isLeft) ==
        Node(g.value, g.height, Node(t.value, 1 + Max(H(t.left), H(g.left)), t.left, g.left),
          Node(c.value, 1 + Max(H(g.right), H(c.right)), g.right, c.right))
  {
    assert !TallerChildIsLeft(t, isRoot, isLeft);
    assert TallerChildIsLeft(t.right, false, false);
  }

  /** After a single rotation: balanced children whose heights differ by at most one. */
  lemma SingleBalanced(v: nat, h: nat, l: Tree, r: Tree)
    requires Balanced(l) && Balanced(r) && H(l) <= H(r) + 1 && H(r) <= H(l) + 1
    ensures Balanced(FixHeight(Node(v, h, l, r)))
    ensures H(FixHeight(Node(v, h, l, r))) == 1 + Max(H(l), H(r))
  {
  }

  /** After a double rotation: two nodes over balanced subtrees, each of height k. */
  lemma DoubleBalanced(v: nat, h: nat, l: Tree, r: Tree, k: nat)
    requires l.Node? && r.Node? && Balanced(l.left) && Balanced(l.right) && Balanced(r.left) && Balanced(r.right)
    requires l.height == 1 + Max(H(l.left), H(l.right)) && r.height == 1 + Max(H(r.left), H(r.right))
    requires H(l.left) <= H(l.right) + 1 && H(l.right) <= H(l.left) + 1
    requires H(r.left) <= H(r.right) + 1 && H(r.right) <= H(r.left) + 1
    requires l.height == k && r.height == k
    ensures Balanced(FixHeight(Node(v, h, l, r)))
    ensures H(FixHeight(Node(v, h, l, r))) == 1 + k
  {
  }

  /** FixHeight changes only the stored height. */
  lemma FixOrder(t: Tree)
    ensures Keys(FixHeight(t)) == Keys(t)
    ensures Elements(FixHeight(t)) == Elements(t)
    ensures Ordered(FixHeight(t)) == Ordered(t)
  {
  }

  /**
   * One step of addNode's walk to the root.  The subtree below the parent
   * has received the new value and is again an AVL tree of the same height
   * or one more; with the parent attached and rebalanced, the same holds one
   * level up.
   */
  lemma InsertStep(c: Crumb, oldSub: Tree, cur: Tree, value: nat, isRoot: bool, isLeft: bool)
    requires AVL(Attach(c, oldSub)) && AVL(cur)
    requires Keys(cur) == Keys(oldSub) + {value} && Side(c, value)
    requires H(oldSub) <= H(cur) <= H(oldSub) + 1
    ensures AVL(Rebalance(Attach(c, cur), isRoot, isLeft))
    ensures Keys(Rebalance(Attach(c, cur), isRoot, isLeft)) == Keys(Attach(c, oldSub)) + {value}
    ensures H(Attach(c, oldSub)) <= H(Rebalance(Attach(c, cur), isRoot, isLeft)) <= H(Attach(c, oldSub)) + 1
  {
    var t := Attach(c, cur);
    AttachOrder(c, oldSub, cur, value);
    assert Balanced(t.left) && Balanced(t.right);
    if Unbalanced(t) {
      RestructureOrder(t, isRoot, isLeft);
      FixOrder(Restructure(t, isRoot, isLeft));
      if c.wentLeft {
        RestructureLeft(t, isRoot, isLeft);
      } else {
        RestructureRight(t, isRoot, isLeft);
      }
    } else {
      FixOrder(t);
      SingleBalanced(t.value, t.height, t.left, t.right);
    }
  }

  /** Putting the grown subtree back under its parent keeps the search order. */
  lemma AttachOrder(c: Crumb, oldSub: Tree, cur: Tree, value: nat)
    requires Ordered(Attach(c, oldSub)) && Ordered(cur)
    requires Keys(cur) == Keys(oldSub) + {value} && Side(c, value)
    ensures Ordered(Attach(c, cur)) && Keys(Attach(c, cur)) == Keys(Attach(c, oldSub)) + {value}
  {
    if c.wentLeft {
      assert Below(Keys(oldSub), c.value);
    } else {
      assert Above(Keys(oldSub), c.value);
    }
  }

  // ----- Walking the tree

  /**
   * A node with the child on one side cut out: the direction taken from it,
   * its value and stored height, and the child on the other side.  A path of
   * crumbs from the root stands for the chain of parent pointers.
   */
  datatype Crumb = Crumb(wentLeft: bool, value: nat, height: nat, sibling: Tree)

  /** The node of crumb c with t put back as the child on its side. */
  function Attach(c: Crumb, t: Tree): Tree
  {
    if c.wentLeft then Node(c.value, c.height, t, c.sibling) else Node(c.value, c.height, c.sibling, t)
  }

  /** The whole tree: t put back under the path, the last crumb first. */
  function Plug(path: seq<Crumb>, t: Tree): Tree
    decreases |path|
  {
    if |path| == 0 then t else Plug(path[..|path| - 1], Attach(path[|path| - 1], t))
  }

  /** The search for value goes left at c exactly when value is below c's value. */
  predicate Side(c: Crumb, value: nat)
  {
    if c.wentLeft then value < c.value else c.value < value
  }

  predicate Toward(path: seq<Crumb>, value: nat)
  {
    forall i :: 0 <= i < |path| ==> Side(path[i], value)
  }

  /** A subtree of an AVL tree is an AVL tree, and its keys are among the tree's. */
  lemma {:induction false} PlugAVL(path: seq<Crumb>, t: Tree)
    ensures Keys(t) <= Keys(Plug(path, t))
    ensures AVL(Plug(path, t)) ==> AVL(t)
    decreases |path|
  {
    if |path| > 0 {
      PlugAVL(path[..|path| - 1], Attach(path[|path| - 1], t));
    }
  }

  /**
   * The loop of findValue: from the root, go right while value is above the
   * current node's value and left while it is below, until a node with value
   * 0 (a sentinel) or with the value itself.  The result says where the walk
   * ended and, in a search tree, whether value is in the tree.
   */
  method Descend(root: Tree, value: nat) returns (current: Tree, path: seq<Crumb>)
    ensures Plug(path, current) == root && Toward(path, value)
    ensures Value(current) == 0 || Value(current) == value
    ensures Keys(current) <= Keys(root)
    ensures Ordered(root) ==> (value in Keys(root) <==> value in Keys(current))
  {
    current, path := root, [];
    while Value(current) != 0 && Value(current) != value
      invariant Plug(path, current) == root && Toward(path, value)
      invariant Keys(current) <= Keys(root)
      invariant Ordered(root) ==> Ordered(current) && (value in Keys(root) <==> value in Keys(current))
      decreases current
    {
      var c;
      if value > current.value {
        c := Crumb(false, current.value, current.height, current.left);
        current := current.right;
      } else {
        c := Crumb(true, current.value, current.height, current.right);
        current := current.left;
      }
      assert (path + [c])[..|path|] == path;
      path := path + [c];
    }
  }

  // ----- The tree object

  /** AVLTree: the root and the number of values added. */
  class AVLTree {
    var root: Tree
    var size: nat

    /** An AVL tree none of whose values is the sentinel's 0, with size its number of values. */
    ghost predicate Valid()
      reads this
    {
      AVL(root) && 0 !in Keys(root) && size == |Keys(root)|
    }

    /** makeTree: a single sentinel as the root, size 0. */
    constructor ()
      ensures Valid() && root == Sentinel && size == 0
    {
      root := Sentinel;
      size := 0;
    }

    /**
     * findValue: the node holding value, or the sentinel where value would
     * be added when it is absent.
     */
    method FindValue(value: nat) returns (node: Tree)
      requires Valid()
      ensures node.Sentinel? <==> value !in Keys(root)
      ensures node.Node? ==> node.value == value
    {
      var path;
      node, path := Descend(root, value);
    }

    /** treeNotContains: the node findValue gives has value 0 exactly when value is absent. */
    method TreeNotContains(value: nat) returns (b: bool)
      requires Valid()
      ensures b <==> value !in Keys(root)
    {
      var node := FindValue(value);
      b := Value(node) == 0;
    }

    /** addNode: the value goes in by the walk of Insert, and the size grows by one. */
    method AddNode(value: nat)
      requires Valid() && value != 0 && value !in Keys(root)
      modifies this
      ensures Valid()
      ensures Keys(root) == old(Keys(root)) + {value}
      ensures size == old(size) + 1
    {
      root := Insert(root, value);
      size := size + 1;
    }
  }

  /**
   * The tree work of addNode, for a value that is not yet in the tree and is
   * not the sentinel's 0: the sentinel where the search ends becomes a node
   * of height 1, then every node on the way back to the root is rebalanced.
   * The result is an AVL tree holding the old values and the new one.
   */
  method Insert(t0: Tree, value: nat) returns (t: Tree)
    requires AVL(t0) && 0 !in Keys(t0) && value != 0 && value !in Keys(t0)
    ensures AVL(t) && Keys(t) == Keys(t0) + {value}
    ensures 0 !in Keys(t) && |Keys(t)| == |Keys(t0)| + 1
  {
    var spot, path := Descend(t0, value);
    ghost var oldSub := spot;
    NewLeaf(path, spot, value, t0);
    var current := Node(value, 1, Sentinel, Sentinel);
    current := Rebalance(current, |path| == 0, |path| > 0 && path[|path| - 1].wentLeft);
    while |path| > 0
      invariant Climbing(path, oldSub, current, value, t0)
    {
      var c := path[|path| - 1];
      assert path == path[..|path| - 1] + [c];
      path := path[..|path| - 1];
      ClimbStep(path, c, oldSub, current, value, t0);
      oldSub := Attach(c, oldSub);
      current := Rebalance(Attach(c, current), |path| == 0, |path| > 0 && path[|path| - 1].wentLeft);
    }
    Climbed(oldSub, current, value, t0);
    t := current;
  }

  /**
   * The state of addNode's walk to the root in the AVL tree t0: below the path lies, in
   * place of the original subtree oldSub, the AVL tree current holding its
   * keys and the new value, of the same height or one more.
   */
  ghost predicate Climbing(path: seq<Crumb>, oldSub: Tree, current: Tree, value: nat, t0: Tree)
  {
    AVL(t0) && Plug(path, oldSub) == t0 && Toward(path, value) && AVL(oldSub) && AVL(current)
    && Keys(current) == Keys(oldSub) + {value} && H(oldSub) <= H(current) <= H(oldSub) + 1
  }

  /** The search for an absent value ends at a sentinel, where the new leaf starts the walk. */
  lemma NewLeaf(path: seq<Crumb>, spot: Tree, value: nat, t0: Tree)
    requires AVL(t0) && 0 !in Keys(t0) && value != 0 && value !in Keys(t0)
    requires Plug(path, spot) == t0 && Toward(path, value)
    requires Value(spot) == 0 || Value(spot) == value
    requires Keys(spot) <= Keys(t0)
    ensures Climbing(path, spot, Rebalance(Node(value, 1, Sentinel, Sentinel), |path| == 0,
      |path| > 0 && path[|path| - 1].wentLeft), value, t0)
  {
    PlugAVL(path, spot);
  }

  lemma ClimbStep(path: seq<Crumb>, c: Crumb, oldSub: Tree, current: Tree, value: nat, t0: Tree)
    requires Climbing(path + [c], oldSub, current, value, t0)
    ensures Climbing(path, Attach(c, oldSub), Rebalance(Attach(c, current), |path| == 0,
      |path| > 0 && path[|path| - 1].wentLeft), value, t0)
  {
    var p := path + [c];
    PlugSnoc(path, c, oldSub);
    PlugAVL(path, Attach(c, oldSub));
    assert Side(p[|p| - 1], value);
    assert Toward(path, value) by {
      forall i | 0 <= i < |path|
        ensures Side(path[i], value)
      {
        assert p[i] == path[i];
      }
    }
    InsertStep(c, oldSub, current, value, |path| == 0, |path| > 0 && path[|path| - 1].wentLeft);
  }

  lemma PlugSnoc(path: seq<Crumb>, c: Crumb, t: Tree)
    ensures Plug(path + [c], t) == Plug(path, Attach(c, t))
  {
    var p := path + [c];
    assert p[..|p| - 1] == path;
  }

  lemma Climbed(oldSub: Tree, current: Tree, value: nat, t0: Tree)
    requires Climbing([], oldSub, current, value, t0) && 0 !in Keys(t0) && value != 0 && value !in Keys(t0)
    ensures AVL(current) && 0 !in Keys(current) && Keys(current) == Keys(t0) + {value}
    ensures |Keys(current)| == |Keys(t0)| + 1
  {
  }
}
