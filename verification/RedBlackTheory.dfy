// The reference meaning of a red-black tree: an inductive tree, its in-order listing, the three
// conditions of the header comment of tree.h, and the height bound they imply.
module RedBlackTheory {
  import opened Arithmetic
  import opened RedBlackShape
  import opened RedBlackColor

  datatype Tree = Leaf | Branch(left: Tree, node: Node, color: Color, right: Tree)

  ghost function InOrder(t: Tree): seq<Node> {
    match t
    case Leaf => []
    case Branch(l, n, _, r) => InOrder(l) + [n] + InOrder(r)
  }

  // Every path from the root of t to a leaf has k black nodes.
  ghost predicate BlackPaths(t: Tree, k: int) {
    match t
    case Leaf => k == 0
    case Branch(l, _, c, r) => BlackPaths(l, k - Own(c)) && BlackPaths(r, k - Own(c))
  }

  ghost predicate RedRoot(t: Tree) { t.Branch? && t.color == Red }

  ghost predicate NoRedRed(t: Tree) {
    t.Branch? ==> (t.color == Red ==> !RedRoot(t.left) && !RedRoot(t.right)) && NoRedRed(t.left) && NoRedRed(t.right)
  }

  ghost function Depth(t: Tree): nat {
    match t
    case Leaf => 0
    case Branch(l, _, _, r) => 1 + if Depth(l) > Depth(r) then Depth(l) else Depth(r)
  }

  // k black nodes on every path: at least 2^k - 1 nodes, and at most 2k (+1 below a red root) levels.
  lemma {:induction false} BlackPathsBound(t: Tree, k: int)
    requires BlackPaths(t, k) && NoRedRed(t)
    ensures k >= 0 && Pow2(k) <= |InOrder(t)| + 1
    ensures Depth(t) <= 2 * k + (if RedRoot(t) then 1 else 0)
  {
    if t.Branch? {
      BlackPathsBound(t.left, k - Own(t.color));
      BlackPathsBound(t.right, k - Own(t.color));
    }
  }

  // The maximum height of a red-black tree of n nodes is 2 lg(n + 1).
  lemma HeightBound(t: Tree, k: int)
    requires BlackPaths(t, k) && NoRedRed(t) && !RedRoot(t)
    ensures Pow2(Depth(t)) <= (|InOrder(t)| + 1) * (|InOrder(t)| + 1)
  {
    BlackPathsBound(t, k);
    Pow2Mono(Depth(t), k + k);
    Pow2Add(k, k);
    var m := |InOrder(t)| + 1;
    assert Pow2(k) * Pow2(k) <= m * m by { assert Pow2(k) <= m; Square(Pow2(k), m); }
  }

  lemma Square(a: nat, b: nat)
    requires a <= b
    ensures a * a <= b * b
  {
    assert a * a <= a * b <= b * b;
  }

  // The tree hanging below n.
  ghost function Abstract(sh: Shape, pt: Paints, root: Node?, order: seq<Node>, n: Node?): Tree
    requires Linked(sh, root, order) && pt.Keys == sh.Keys && (n != null ==> n in sh)
    decreases if n == null then 0 else 1 + sh[n].hi - sh[n].lo
  {
    if n == null then Leaf
    else
      Neighbours(sh, root, order, n);
      Branch(Abstract(sh, pt, root, order, sh[n].left), n, pt[n].color, Abstract(sh, pt, root, order, sh[n].right))
  }

  lemma {:induction false} AbstractColors(sh: Shape, pt: Paints, root: Node?, order: seq<Node>, n: Node?)
    requires RedBlack(sh, pt, root, order) && (n != null ==> n in sh)
    ensures var t := Abstract(sh, pt, root, order, n);
      NoRedRed(t) && BlackPaths(t, Height(pt, n)) && (RedRoot(t) <==> IsRed(pt, n))
    decreases if n == null then 0 else 1 + sh[n].hi - sh[n].lo
  {
    hide Linked;
    if n != null {
      Neighbours(sh, root, order, n);
      assert Balanced(sh, pt, n) && RedOk(sh, pt, n, null);
      AbstractColors(sh, pt, root, order, sh[n].left);
      AbstractColors(sh, pt, root, order, sh[n].right);
    }
  }

  lemma {:induction false} AbstractOrder(sh: Shape, pt: Paints, root: Node?, order: seq<Node>, n: Node?)
    requires Linked(sh, root, order) && pt.Keys == sh.Keys && (n != null ==> n in sh)
    ensures n != null ==> 0 <= sh[n].lo <= sh[n].hi <= |order|
    ensures InOrder(Abstract(sh, pt, root, order, n)) == if n == null then [] else order[sh[n].lo..sh[n].hi]
    decreases if n == null then 0 else 1 + sh[n].hi - sh[n].lo
  {
    hide Linked;
    if n != null {
      Neighbours(sh, root, order, n);
      AbstractOrder(sh, pt, root, order, sh[n].left);
      AbstractOrder(sh, pt, root, order, sh[n].right);
      var c := sh[n];
      assert order[c.lo..c.hi] == order[c.lo..c.idx] + [n] + order[c.idx + 1..c.hi];
    }
  }

  // A linked and painted structure is a red-black tree that lists `order`, and it is shallow.
  lemma RedBlackMeaning(sh: Shape, pt: Paints, root: Node?, order: seq<Node>)
    requires RedBlack(sh, pt, root, order)
    ensures var t := Abstract(sh, pt, root, order, root);
      && InOrder(t) == order && NoRedRed(t) && !RedRoot(t) && BlackPaths(t, Height(pt, root))
      && Pow2(Depth(t)) <= (|order| + 1) * (|order| + 1)
  {
    AbstractColors(sh, pt, root, order, root);
    AbstractOrder(sh, pt, root, order, root);
    HeightBound(Abstract(sh, pt, root, order, root), Height(pt, root));
  }

  ghost function Nodes(t: Tree): set<Node> {
    match t
    case Leaf => {}
    case Branch(l, n, _, r) => Nodes(l) + {n} + Nodes(r)
  }

  // The pointers below n, with parent p, spell out t.
  ghost predicate Represents(t: Tree, n: Node?, p: Node?)
    reads Nodes(t)
  {
    match t
    case Leaf => n == null
    case Branch(l, m, c, r) =>
      n == m && m.color == c && m.parent == p && Represents(l, m.left, m) && Represents(r, m.right, m)
  }
}
