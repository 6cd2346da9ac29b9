// Colours and black heights: what recolouring and rotating do to them, case by case, while a red node is
// being inserted or a black one has been removed.
module RedBlackColor {
  import opened RedBlackShape

  datatype Paint = Paint(color: Color, bh: int)
  type Paints = map<Node, Paint>

  ghost predicate IsRed(pt: Paints, n: Node?) {
    n != null && n in pt && pt[n].color == Red
  }

  ghost function Height(pt: Paints, n: Node?): int {
    if n == null || n !in pt then 0 else pt[n].bh
  }

  ghost function Own(c: Color): int { if c == Black then 1 else 0 }

  ghost predicate Balanced(sh: Shape, pt: Paints, n: Node)
    requires n in sh && n in pt
  {
    Height(pt, sh[n].left) == Height(pt, sh[n].right) >= 0 && pt[n].bh == Height(pt, sh[n].left) + Own(pt[n].color)
  }

  // A red node has no red child, apart from the child `e`.
  ghost predicate RedOk(sh: Shape, pt: Paints, n: Node, e: Node?)
    requires n in sh && n in pt
  {
    pt[n].color == Red ==>
      (sh[n].left == e || !IsRed(pt, sh[n].left)) && (sh[n].right == e || !IsRed(pt, sh[n].right))
  }

  ghost predicate Painted(sh: Shape, pt: Paints, root: Node?, order: seq<Node>) {
    Linked(sh, root, order) && pt.Keys == sh.Keys
  }

  ghost predicate RedBlack(sh: Shape, pt: Paints, root: Node?, order: seq<Node>) {
    && Painted(sh, pt, root, order)
    && (forall n {:trigger Balanced(sh, pt, n)} | n in sh :: Balanced(sh, pt, n))
    && (forall n {:trigger RedOk(sh, pt, n, null)} | n in sh :: RedOk(sh, pt, n, null))
    && !IsRed(pt, root)
  }

  ghost predicate Inserting(sh: Shape, pt: Paints, root: Node?, order: seq<Node>, e: Node) {
    && Painted(sh, pt, root, order)
    && (forall n {:trigger Balanced(sh, pt, n)} | n in sh :: Balanced(sh, pt, n))
    && (forall n {:trigger RedOk(sh, pt, n, e)} | n in sh :: RedOk(sh, pt, n, e))
    && IsRed(pt, e)
    && (IsRed(pt, root) ==> root == e)
  }

  ghost predicate Kids(c: Cell, u: Node?, v: Node?) {
    (c.left == u && c.right == v) || (c.left == v && c.right == u)
  }

  ghost function Sibling(c: Cell, e: Node?): Node? {
    if c.left == e then c.right else c.left
  }

  ghost predicate SameKids(c: Cell, d: Cell) {
    c.left == d.left && c.right == d.right
  }

  // What either rotation does to the child relation: x goes below y, c moves from y to x.
  ghost predicate Turned(sh: Shape, x: Node, y: Node, a: Node?, c: Node?, b: Node?, p: Node?, r: Shape) {
    && x in sh && y in sh && r.Keys == sh.Keys && x != y && p != x && p != y
    && Kids(sh[x], a, y) && Kids(sh[y], c, b) && Kids(r[x], a, c) && Kids(r[y], x, b)
    && (p != null ==> p in sh && Kids(sh[p], x, Sibling(sh[p], x)) && Kids(r[p], y, Sibling(sh[p], x)))
    && forall n {:trigger r[n]} | n in sh && n != x && n != y && n != p :: SameKids(r[n], sh[n])
  }

  lemma RotatedLeftTurned(sh: Shape, root: Node?, order: seq<Node>, x: Node, y: Node, c: Node?, p: Node?, r: Shape)
    requires Linked(sh, root, order) && RotatedLeft(sh, x, y, c, p, r)
    ensures Turned(sh, x, y, sh[x].left, c, sh[y].right, p, r)
  {
    Neighbours(sh, root, order, x);
    Neighbours(sh, root, order, y);
    if p != null {
      Neighbours(sh, root, order, p);
    }
  }

  lemma RotatedRightTurned(sh: Shape, root: Node?, order: seq<Node>, x: Node, y: Node, c: Node?, p: Node?, r: Shape)
    requires Linked(sh, root, order) && RotatedRight(sh, x, y, c, p, r)
    ensures Turned(sh, x, y, sh[x].right, c, sh[y].left, p, r)
  {
    Neighbours(sh, root, order, x);
    Neighbours(sh, root, order, y);
    if p != null {
      Neighbours(sh, root, order, p);
    }
  }

  // Rotating x to the left below its right child: everything the pointer code and the colour proofs need.
  lemma TurnLeft(sh: Shape, root: Node?, order: seq<Node>, x: Node) returns (y: Node, r: Shape)
    requires Linked(sh, root, order) && x in sh && sh[x].right != null
    ensures sh[x].right == y && y in sh
    ensures var c := sh[y].left; var p := sh[x].parent;
      && RotatedLeft(sh, x, y, c, p, r) && x != y && c != x && c != y && p != x && p != y && (c == null || c != p)
      && Turned(sh, x, y, sh[x].left, c, sh[y].right, p, r)
    ensures Linked(r, if x == root then y else root, order)
    ensures x == root <==> sh[x].parent == null
  {
    Neighbours(sh, root, order, x);
    y := sh[x].right;
    Neighbours(sh, root, order, y);
    r := RotateLeftShape(sh, x, y, sh[y].left, sh[x].parent);
    RotateLeftLinked(sh, root, order, x, y, sh[y].left, sh[x].parent, r);
    RotatedLeftTurned(sh, root, order, x, y, sh[y].left, sh[x].parent, r);
  }

  // Rotating x to the right below its left child: everything the pointer code and the colour proofs need.
  lemma TurnRight(sh: Shape, root: Node?, order: seq<Node>, x: Node) returns (y: Node, r: Shape)
    requires Linked(sh, root, order) && x in sh && sh[x].left != null
    ensures sh[x].left == y && y in sh
    ensures var c := sh[y].right; var p := sh[x].parent;
      && RotatedRight(sh, x, y, c, p, r) && x != y && c != x && c != y && p != x && p != y && (c == null || c != p)
      && Turned(sh, x, y, sh[x].right, c, sh[y].left, p, r)
    ensures Linked(r, if x == root then y else root, order)
    ensures x == root <==> sh[x].parent == null
  {
    Neighbours(sh, root, order, x);
    y := sh[x].left;
    Neighbours(sh, root, order, y);
    r := RotateRightShape(sh, x, y, sh[y].right, sh[x].parent);
    RotateRightLinked(sh, root, order, x, y, sh[y].right, sh[x].parent, r);
    RotatedRightTurned(sh, root, order, x, y, sh[y].right, sh[x].parent, r);
  }

  // Each child of n is in the tree and names n as its parent.
  ghost predicate Parented(sh: Shape, n: Node)
    requires n in sh
  {
    && (sh[n].left != null ==> sh[n].left in sh && sh[sh[n].left].parent == n)
    && (sh[n].right != null ==> sh[n].right in sh && sh[sh[n].right].parent == n && sh[n].right != sh[n].left)
  }

  lemma LinkedParented(sh: Shape, root: Node?, order: seq<Node>, n: Node)
    requires Linked(sh, root, order) && n in sh
    ensures Parented(sh, n)
  {
    assert LinkedAt(sh, root, order, n);
  }

  // A node x and its child y: no two of x, y, the children of y and the parent of x are the same node.
  lemma Family(sh: Shape, root: Node?, order: seq<Node>, x: Node, y: Node)
    requires Linked(sh, root, order) && x in sh && (sh[x].left == y || sh[x].right == y)
    ensures y in sh && sh[y].parent == x && x != y && Parented(sh, x) && Parented(sh, y)
    ensures sh[x].left != x && sh[x].right != x
    ensures sh[y].left != x && sh[y].right != x && sh[y].left != y && sh[y].right != y
    ensures sh[x].parent != x && sh[x].parent != y
    ensures sh[x].parent != null ==> sh[x].parent in sh
  {
    Neighbours(sh, root, order, x);
    Neighbours(sh, root, order, y);
  }

  // What bounds the insertion loop: the span of the red node grows until its parent is not red.
  ghost function Todo(sh: Shape, pt: Paints, order: seq<Node>, e: Node): int
    requires e in sh
  {
    if IsRed(pt, sh[e].parent) then 1 + |order| - (sh[e].hi - sh[e].lo) else 0
  }

  lemma ParentKnown(sh: Shape, pt: Paints, root: Node?, order: seq<Node>, e: Node)
    requires Inserting(sh, pt, root, order, e) && e in sh
    ensures root != null && root in pt && root in sh && (sh[e].parent != null ==> sh[e].parent in pt)
    ensures Todo(sh, pt, order, e) >= 0
  {
    assert LinkedAt(sh, root, order, e);
  }

  // A red parent is not the root, so there is a grandparent, and it is black.
  lemma Grandparent(sh: Shape, pt: Paints, root: Node?, order: seq<Node>, e: Node)
    requires Inserting(sh, pt, root, order, e) && e in sh && IsRed(pt, sh[e].parent)
    ensures sh[e].parent != null && sh[e].parent in sh
    ensures var p := sh[e].parent; var g := sh[p].parent;
      && (sh[p].left == e || sh[p].right == e) && sh[p].left != sh[p].right
      && g != null && g in sh && !IsRed(pt, g) && (sh[g].left == p || sh[g].right == p) && sh[g].left != sh[g].right
      && p != g && sh[g].left != g && sh[g].right != g
      && (sh[g].left != null ==> sh[g].left in sh) && (sh[g].right != null ==> sh[g].right in sh)
    ensures Todo(sh, pt, order, e) > 0
  {
    Neighbours(sh, root, order, e);
    Neighbours(sh, root, order, sh[e].parent);
    var g := sh[sh[e].parent].parent;
    Neighbours(sh, root, order, g);
    assert RedOk(sh, pt, g, e);
  }

  ghost predicate Recolored(pt: Paints, p: Node, g: Node, u: Node, pt': Paints) {
    && p in pt && g in pt && u in pt && p != g && p != u && u != g && pt'.Keys == pt.Keys
    && pt'[p] == Paint(Black, pt[p].bh + 1) && pt'[u] == Paint(Black, pt[u].bh + 1) && pt'[g] == Paint(Red, pt[g].bh)
    && forall n {:trigger pt'[n]} | n in pt && n != p && n != g && n != u :: pt'[n] == pt[n]
  }
  lemma RecolorUpAt(sh: Shape, pt: Paints, e: Node, p: Node, g: Node, u: Node, pt': Paints, n: Node)
    requires pt.Keys == sh.Keys && Recolored(pt, p, g, u, pt')
    requires e in sh && sh[e].parent == p && sh[p].parent == g && sh[u].parent == g && Kids(sh[g], p, u)
    requires IsRed(pt, p) && IsRed(pt, u) && !IsRed(pt, g)
    requires n in sh && Parented(sh, n) && Balanced(sh, pt, n) && RedOk(sh, pt, n, e)
    ensures Balanced(sh, pt', n) && RedOk(sh, pt', n, g)
  {
  }

  // Two nodes repainted, every other paint kept.
  ghost predicate Repainted(pt: Paints, u: Node, pu: Paint, v: Node, pv: Paint, pt': Paints) {
    && u in pt && v in pt && u != v && pt'.Keys == pt.Keys && pt'[u] == pu && pt'[v] == pv
    && forall n {:trigger pt'[n]} | n in pt && n != u && n != v :: pt'[n] == pt[n]
  }

  // Inserting, red uncle: move the red up to the grandparent.
  lemma RecolorUp(sh: Shape, pt: Paints, root: Node?, order: seq<Node>, e: Node, p: Node, g: Node, u: Node,
      pt': Paints)
    requires Inserting(sh, pt, root, order, e)
    requires e in sh && sh[e].parent == p && IsRed(pt, p) && p in sh && sh[p].parent == g && g in sh
      && Kids(sh[g], p, u) && IsRed(pt, u)
    requires Recolored(pt, p, g, u, pt')
    ensures Inserting(sh, pt', root, order, g)
    ensures Todo(sh, pt', order, g) < Todo(sh, pt, order, e)
  {
    Neighbours(sh, root, order, g);
    Neighbours(sh, root, order, p);
    assert RedOk(sh, pt, g, e);
    Neighbours(sh, root, order, e);
    forall n | n in sh ensures Balanced(sh, pt', n) && RedOk(sh, pt', n, g) {
      assert LinkedAt(sh, root, order, n);
      assert Balanced(sh, pt, n) && RedOk(sh, pt, n, e);
      RecolorUpAt(sh, pt, e, p, g, u, pt', n);
    }
  }

  lemma InnerAt(sh: Shape, pt: Paints, e: Node, p: Node, g: Node, a: Node?, c: Node?, b: Node?, r: Shape, n: Node)
    requires pt.Keys == sh.Keys && Turned(sh, p, e, a, c, b, g, r)
    requires IsRed(pt, p) && IsRed(pt, e) && !IsRed(pt, g) && a != e && c != e && b != e && a != p && c != p
    requires sh[e].parent == p && sh[p].parent == g
    requires Balanced(sh, pt, p) && Balanced(sh, pt, e) && RedOk(sh, pt, p, e) && RedOk(sh, pt, e, e)
    requires n in sh && Parented(sh, n) && Balanced(sh, pt, n) && RedOk(sh, pt, n, e)
    ensures Balanced(r, pt, n) && RedOk(r, pt, n, p)
  {
    if n == g {
    } else if n == p {
    } else if n == e {
    } else {
      assert SameKids(r[n], sh[n]);
    }
  }

  // Inserting, inner grandchild: one rotation makes it an outer one.
  lemma Inner(sh: Shape, pt: Paints, root: Node?, order: seq<Node>, e: Node, p: Node, g: Node, a: Node?, c: Node?,
      b: Node?, r: Shape)
    requires Inserting(sh, pt, root, order, e) && e in sh && p in sh && g in sh
    requires sh[e].parent == p && IsRed(pt, p) && sh[p].parent == g
    requires Turned(sh, p, e, a, c, b, g, r) && Linked(r, root, order)
    ensures Inserting(r, pt, root, order, p)
  {
    Neighbours(sh, root, order, p);
    Neighbours(sh, root, order, e);
    assert RedOk(sh, pt, g, e) && LinkedAt(sh, root, order, g);
    assert RedOk(sh, pt, p, e) && RedOk(sh, pt, e, e) && Balanced(sh, pt, p) && Balanced(sh, pt, e);
    forall n | n in r ensures Balanced(r, pt, n) && RedOk(r, pt, n, p) {
      assert LinkedAt(sh, root, order, n);
      assert Balanced(sh, pt, n) && RedOk(sh, pt, n, e);
      InnerAt(sh, pt, e, p, g, a, c, b, r, n);
    }
  }

  lemma OuterAt(sh: Shape, pt: Paints, e: Node, p: Node, g: Node, u: Node?, c: Node?, q: Node?, r: Shape, pt': Paints,
      n: Node)
    requires pt.Keys == sh.Keys && Turned(sh, g, p, u, c, e, q, r)
    requires Repainted(pt, p, Paint(Black, pt[g].bh), g, Paint(Red, pt[p].bh), pt')
    requires IsRed(pt, p) && IsRed(pt, e) && !IsRed(pt, g) && !IsRed(pt, u) && !IsRed(pt, c)
    requires e != p && e != g && u != p && u != g && c != p && c != g
    requires sh[e].parent == p && sh[p].parent == g && sh[g].parent == q && (c != null ==> c in sh)
      && (u != null ==> u in sh)
    requires Balanced(sh, pt, p) && Balanced(sh, pt, g) 
    requires n in sh && Parented(sh, n) && Balanced(sh, pt, n) && RedOk(sh, pt, n, e)
    ensures Balanced(r, pt', n) && RedOk(r, pt', n, e)
  {
    if n == g {
    } else if n == p {
    } else if n == q {
    } else {
      assert SameKids(r[n], sh[n]);
    }
  }

  lemma OuterReady(sh: Shape, pt: Paints, root: Node?, order: seq<Node>, e: Node, p: Node, g: Node, u: Node?, c: Node?,
      q: Node?, r: Shape, pt': Paints)
    requires Inserting(sh, pt, root, order, e) && e in sh && p in sh && g in sh
    requires sh[e].parent == p && IsRed(pt, p) && sh[p].parent == g && sh[g].parent == q && !IsRed(pt, u)
    requires Turned(sh, g, p, u, c, e, q, r) && Linked(r, if g == root then p else root, order)
    requires Repainted(pt, p, Paint(Black, pt[g].bh), g, Paint(Red, pt[p].bh), pt')
    ensures e != p && e != g && u != p && u != g && c != p && c != g && !IsRed(pt, g) && !IsRed(pt, c) && IsRed(pt, e)
    ensures (c != null ==> c in sh) && (u != null ==> u in sh) && Balanced(sh, pt, p) && Balanced(sh, pt, g)
    ensures IsRed(pt', e) && pt'.Keys == r.Keys && !IsRed(pt', r[e].parent)
    ensures var t := if g == root then p else root; IsRed(pt', t) ==> t == e
  {
    Family(sh, root, order, g, p);
    Family(sh, root, order, p, e);
    LinkedParented(r, if g == root then p else root, order, p);
    assert RedOk(sh, pt, g, e) && RedOk(sh, pt, p, e) && Balanced(sh, pt, p) && Balanced(sh, pt, g);
  }

  // Inserting, outer grandchild and black uncle: one rotation ends the loop.
  lemma Outer(sh: Shape, pt: Paints, root: Node?, order: seq<Node>, e: Node, p: Node, g: Node, u: Node?, c: Node?,
      q: Node?, r: Shape, pt': Paints)
    requires Inserting(sh, pt, root, order, e) && e in sh && p in sh && g in sh
    requires sh[e].parent == p && IsRed(pt, p) && sh[p].parent == g && sh[g].parent == q && !IsRed(pt, u)
    requires Turned(sh, g, p, u, c, e, q, r) && Linked(r, if g == root then p else root, order)
    requires Repainted(pt, p, Paint(Black, pt[g].bh), g, Paint(Red, pt[p].bh), pt')
    ensures Inserting(r, pt', if g == root then p else root, order, e) && !IsRed(pt', r[e].parent)
  {
    hide Linked, Repainted, Balanced, RedOk;
    OuterReady(sh, pt, root, order, e, p, g, u, c, q, r, pt');
    forall n | n in r ensures Balanced(r, pt', n) && RedOk(r, pt', n, e) {
      LinkedParented(sh, root, order, n);
      assert Balanced(sh, pt, n) && RedOk(sh, pt, n, e);
      OuterAt(sh, pt, e, p, g, u, c, q, r, pt', n);
    }
  }

  // ---- removal -------------------------------------------------------------

  // The subtree below `e`, a child of `p`, has one black node too few.
  ghost predicate Short(sh: Shape, pt: Paints, p: Node, e: Node?)
    requires p in sh && p in pt
  {
    var s := Sibling(sh[p], e);
    Kids(sh[p], e, s) && Height(pt, s) == Height(pt, e) + 1 && Height(pt, e) >= 0
      && pt[p].bh == Height(pt, s) + Own(pt[p].color)
  }

  ghost predicate Removing(sh: Shape, pt: Paints, root: Node?, order: seq<Node>, p: Node?, e: Node?) {
    && Painted(sh, pt, root, order)
    && (p == null ==> e == root)
    && (e != null ==> e in sh && sh[e].parent == p)
    && (p != null ==> p in sh && Short(sh, pt, p, e))
    && (forall n {:trigger Balanced(sh, pt, n)} | n in sh && n != p :: Balanced(sh, pt, n))
    && (forall n {:trigger RedOk(sh, pt, n, e)} | n in sh && n != e :: RedOk(sh, pt, n, e))
    && (IsRed(pt, root) ==> root == e)
  }

  lemma RedSiblingAt(sh: Shape, pt: Paints, p: Node, t: Node, e: Node?, c: Node?, b: Node?, q: Node?, r: Shape,
      pt': Paints, n: Node)
    requires pt.Keys == sh.Keys && Turned(sh, p, t, e, c, b, q, r)
    requires Repainted(pt, t, Paint(Black, pt[p].bh), p, Paint(Red, pt[t].bh), pt')
    requires IsRed(pt, t) && !IsRed(pt, e) && !IsRed(pt, p)
    requires e != p && e != t && c != p && c != t && b != p && b != t
    requires sh[t].parent == p && sh[p].parent == q 
    requires Short(sh, pt, p, e) && Sibling(sh[p], e) == t && Balanced(sh, pt, t) && RedOk(sh, pt, t, e) 
    requires n in sh && Parented(sh, n) && (n != p ==> Balanced(sh, pt, n)) && (n != e ==> RedOk(sh, pt, n, e))
    requires Parented(sh, t) && Parented(sh, p)
    ensures n == p ==> Short(r, pt', p, e) && Sibling(r[p], e) == c && Height(pt', c) >= 1 && !IsRed(pt', c)
    ensures n != p ==> Balanced(r, pt', n)
    ensures n != e ==> RedOk(r, pt', n, e)
  {
    if n == p {
    } else if n == t {
    } else if n == q {
    } else {
      assert SameKids(r[n], sh[n]);
    }
  }

  // Removing, red sibling: one rotation gives the short subtree a black sibling.
  lemma RedSibling(sh: Shape, pt: Paints, root: Node?, order: seq<Node>, p: Node, t: Node, e: Node?, c: Node?,
      b: Node?, q: Node?, r: Shape, pt': Paints)
    requires Removing(sh, pt, root, order, p, e) && !IsRed(pt, e) && Sibling(sh[p], e) == t && IsRed(pt, t)
    requires Turned(sh, p, t, e, c, b, q, r) && Linked(r, if p == root then t else root, order) && sh[p].parent == q
    requires Repainted(pt, t, Paint(Black, pt[p].bh), p, Paint(Red, pt[t].bh), pt')
    ensures Removing(r, pt', if p == root then t else root, order, p, e)
    ensures Sibling(r[p], e) == c && c != null && c in r && !IsRed(pt', c)
  {
    Family(sh, root, order, p, t);
    LinkedParented(r, if p == root then t else root, order, p);
    assert RedOk(sh, pt, p, e) && RedOk(sh, pt, t, e) && Balanced(sh, pt, t);
    RedSiblingAt(sh, pt, p, t, e, c, b, q, r, pt', p);
    forall n | n in r
      ensures n != p ==> Balanced(r, pt', n)
      ensures n != e ==> RedOk(r, pt', n, e)
    {
      LinkedParented(sh, root, order, n);
      assert n != p ==> Balanced(sh, pt, n);
      assert n != e ==> RedOk(sh, pt, n, e);
      RedSiblingAt(sh, pt, p, t, e, c, b, q, r, pt', n);
    }
  }

  lemma BlackNephewsAt(sh: Shape, pt: Paints, p: Node, t: Node, e: Node?, pt': Paints, n: Node)
    requires pt.Keys == sh.Keys && p in sh && t in sh && p != t && e != p && e != t
    requires Repainted(pt, t, Paint(Red, pt[t].bh - 1), p, pt[p].(bh := pt[p].bh - 1), pt')
    requires !IsRed(pt, e) && !IsRed(pt, t) && !IsRed(pt, sh[t].left) && !IsRed(pt, sh[t].right)
    requires sh[t].parent == p && sh[t].left != p && sh[t].right != p && sh[t].left != t && sh[t].right != t
    requires sh[p].parent != p && (sh[p].parent != null
      ==> sh[p].parent in sh && Kids(sh[sh[p].parent], p, Sibling(sh[sh[p].parent], p)))
    requires Short(sh, pt, p, e) && Sibling(sh[p], e) == t && Balanced(sh, pt, t)
    requires n in sh && Parented(sh, n) && (n != p ==> Balanced(sh, pt, n)) && (n != e ==> RedOk(sh, pt, n, e))
    ensures n == sh[p].parent ==> Short(sh, pt', n, p)
    ensures n != sh[p].parent ==> Balanced(sh, pt', n)
    ensures n != p ==> RedOk(sh, pt', n, p)
  {
  }

  // Removing, black sibling with black children: the parent's subtree becomes the short one.
  lemma BlackNephews(sh: Shape, pt: Paints, root: Node?, order: seq<Node>, p: Node, t: Node, e: Node?, pt': Paints)
    requires Removing(sh, pt, root, order, p, e) && !IsRed(pt, e) && Sibling(sh[p], e) == t && t in sh
      && !IsRed(pt, t)
    requires !IsRed(pt, sh[t].left) && !IsRed(pt, sh[t].right)
    requires pt' == pt[t := Paint(Red, pt[t].bh - 1)][p := pt[p].(bh := pt[p].bh - 1)]
    ensures Removing(sh, pt', root, order, sh[p].parent, p)
  {
    Family(sh, root, order, p, t);
    assert LinkedAt(sh, root, order, p);
    assert Balanced(sh, pt, t);
    assert Repainted(pt, t, Paint(Red, pt[t].bh - 1), p, pt[p].(bh := pt[p].bh - 1), pt');
    if sh[p].parent != null {
      LinkedParented(sh, root, order, sh[p].parent);
      assert Balanced(sh, pt, sh[p].parent) && (sh[p].parent != e ==> RedOk(sh, pt, sh[p].parent, e));
      BlackNephewsAt(sh, pt, p, t, e, pt', sh[p].parent);
    }
    forall n | n in sh
      ensures n != sh[p].parent ==> Balanced(sh, pt', n)
      ensures n != p ==> RedOk(sh, pt', n, p)
    {
      LinkedParented(sh, root, order, n);
      assert n != p ==> Balanced(sh, pt, n);
      assert n != e ==> RedOk(sh, pt, n, e);
      BlackNephewsAt(sh, pt, p, t, e, pt', n);
    }
  }

  lemma NearNephewAt(sh: Shape, pt: Paints, p: Node, t: Node, e: Node?, i: Node, b: Node?, c: Node?, d: Node?,
      r: Shape, pt': Paints, n: Node)
    requires pt.Keys == sh.Keys && Turned(sh, t, i, b, c, d, p, r)
    requires Repainted(pt, i, Paint(Black, pt[t].bh), t, Paint(Red, pt[i].bh), pt')
    requires IsRed(pt, i) && !IsRed(pt, e) && !IsRed(pt, t) && !IsRed(pt, b)
    requires e != p && e != t && e != i && c != t && c != i && d != t && d != i && b != t && b != i
    requires sh[t].parent == p && sh[i].parent == t && p in sh
    requires Short(sh, pt, p, e) && Sibling(sh[p], e) == t && Balanced(sh, pt, t) && Balanced(sh, pt, i)
      && RedOk(sh, pt, i, e)
    requires (e != null ==> c != e && d != e) && Parented(sh, p)
    requires n in sh && Parented(sh, n) && (n != p ==> Balanced(sh, pt, n)) && (n != e ==> RedOk(sh, pt, n, e))
    ensures n == p ==> Short(r, pt', p, e) && Sibling(r[p], e) == i
    ensures n != p ==> Balanced(r, pt', n)
    ensures n != e ==> RedOk(r, pt', n, e)
  {
    if n == p {
    } else if n == t {
    } else if n == i {
    } else {
      assert SameKids(r[n], sh[n]);
    }
  }

  // Removing, only the near nephew red: one rotation makes the far nephew red.
  lemma NearNephew(sh: Shape, pt: Paints, root: Node?, order: seq<Node>, p: Node, t: Node, e: Node?, i: Node, b: Node?,
      c: Node?, d: Node?, r: Shape, pt': Paints)
    requires Removing(sh, pt, root, order, p, e) && !IsRed(pt, e) && Sibling(sh[p], e) == t && t in sh
      && !IsRed(pt, t)
    requires IsRed(pt, i) && !IsRed(pt, b) && Turned(sh, t, i, b, c, d, p, r) && Linked(r, root, order)
    requires Repainted(pt, i, Paint(Black, pt[t].bh), t, Paint(Red, pt[i].bh), pt')
    ensures Removing(r, pt', root, order, p, e)
    ensures Sibling(r[p], e) == i
  {
    Family(sh, root, order, p, t);
    Family(sh, root, order, t, i);
    assert t != root by { assert LinkedAt(sh, root, order, t); }
    LinkedParented(r, root, order, p);
    assert Balanced(sh, pt, t) && Balanced(sh, pt, i) && RedOk(sh, pt, i, e) && RedOk(sh, pt, p, e);
    NearNephewAt(sh, pt, p, t, e, i, b, c, d, r, pt', p);
    forall n | n in r
      ensures n != p ==> Balanced(r, pt', n)
      ensures n != e ==> RedOk(r, pt', n, e)
    {
      LinkedParented(sh, root, order, n);
      assert n != p ==> Balanced(sh, pt, n);
      assert n != e ==> RedOk(sh, pt, n, e);
      NearNephewAt(sh, pt, p, t, e, i, b, c, d, r, pt', n);
    }
  }

  ghost predicate Repainted3(pt: Paints, u: Node, pu: Paint, v: Node, pv: Paint, w: Node, pw: Paint, pt': Paints) {
    && u in pt && v in pt && w in pt && u != v && u != w && v != w && pt'.Keys == pt.Keys
    && pt'[u] == pu && pt'[v] == pv && pt'[w] == pw
    && forall n {:trigger pt'[n]} | n in pt && n != u && n != v && n != w :: pt'[n] == pt[n]
  }

  lemma FarNephewAt(sh: Shape, pt: Paints, p: Node, t: Node, e: Node?, c: Node?, b: Node, q: Node?, r: Shape,
      pt': Paints, n: Node)
    requires pt.Keys == sh.Keys && Turned(sh, p, t, e, c, b, q, r) && p in sh && t in sh && b in sh
    requires Repainted3(pt, t, pt[p], p, Paint(Black, pt[t].bh), b, Paint(Black, pt[t].bh), pt')
    requires IsRed(pt, b) && !IsRed(pt, e) && !IsRed(pt, t)
    requires e != p && e != t && e != b && c != t && c != p && c != b
    requires sh[t].parent == p && sh[p].parent == q && sh[b].parent == t && b != q
    requires Short(sh, pt, p, e) && Sibling(sh[p], e) == t && Balanced(sh, pt, t) && Parented(sh, p)
    requires n in sh && Parented(sh, n) && (n != p ==> Balanced(sh, pt, n)) && (n != e ==> RedOk(sh, pt, n, e))
    ensures Balanced(r, pt', n)
    ensures RedOk(r, pt', n, null)
  {
    if n == p {
    } else if n == t {
    } else if n == q {
    } else if n == b {
      assert SameKids(r[n], sh[n]);
    } else {
      assert SameKids(r[n], sh[n]);
    }
  }

  // Removing, far nephew red: one rotation ends the loop.
  lemma FarNephew(sh: Shape, pt: Paints, root: Node?, order: seq<Node>, p: Node, t: Node, e: Node?, c: Node?, b: Node,
      q: Node?, r: Shape, pt': Paints)
    requires Removing(sh, pt, root, order, p, e) && !IsRed(pt, e) && Sibling(sh[p], e) == t && t in sh
      && !IsRed(pt, t)
    requires IsRed(pt, b) && sh[p].parent == q
    requires Turned(sh, p, t, e, c, b, q, r) && Linked(r, if p == root then t else root, order)
    requires Repainted3(pt, t, pt[p], p, Paint(Black, pt[t].bh), b, Paint(Black, pt[t].bh), pt')
    ensures RedBlack(r, pt', if p == root then t else root, order)
  {
    Family(sh, root, order, p, t);
    Family(sh, root, order, t, b);
    assert t != root by { assert LinkedAt(sh, root, order, t); }
    assert Balanced(sh, pt, t) && RedOk(sh, pt, p, e);
    assert b != q by { Neighbours(sh, root, order, p); Neighbours(sh, root, order, t); Neighbours(sh, root, order,
      b); }
    forall n | n in r
      ensures Balanced(r, pt', n)
      ensures RedOk(r, pt', n, null)
    {
      LinkedParented(sh, root, order, n);
      assert n != p ==> Balanced(sh, pt, n);
      assert n != e ==> RedOk(sh, pt, n, e);
      FarNephewAt(sh, pt, p, t, e, c, b, q, r, pt', n);
    }
  }

  // Removing, the loop has ended: painting `e` black pays the missing black node back.
  lemma PaintBlack(sh: Shape, pt: Paints, root: Node?, order: seq<Node>, p: Node?, e: Node?, pt': Paints)
    requires Removing(sh, pt, root, order, p, e) && (IsRed(pt, e) || e == root)
    requires if e == null then pt' == pt else e in pt && pt' == pt[e := Paint(Black, Height(pt, sh[e].left) + 1)]
    ensures RedBlack(sh, pt', root, order)
  {
    if e == null {
      assert forall n | n in sh :: !LinkedAt(sh, root, order, n);
      return;
    }
    Neighbours(sh, root, order, e);
    assert Balanced(sh, pt, e);
    forall n | n in sh
      ensures Balanced(sh, pt', n)
      ensures RedOk(sh, pt', n, null)
    {
      LinkedParented(sh, root, order, n);
      assert n != p ==> Balanced(sh, pt, n);
      assert n != e ==> RedOk(sh, pt, n, e);
      if n == e {
      } else if n == p {
      }
    }
  }

  // Inserting, the loop has ended: only a red root may be left to paint.
  lemma PaintRoot(sh: Shape, pt: Paints, root: Node, order: seq<Node>, e: Node, pt': Paints)
    requires Inserting(sh, pt, root, order, e) && e in sh && !IsRed(pt, sh[e].parent)
    requires root in pt && pt' == pt[root := Paint(Black, Height(pt, sh[root].left) + 1)]
    ensures RedBlack(sh, pt', root, order)
  {
    forall n | n in sh
      ensures Balanced(sh, pt', n)
      ensures RedOk(sh, pt', n, null)
    {
      LinkedParented(sh, root, order, n);
      assert Balanced(sh, pt, n) && RedOk(sh, pt, n, e);
      assert LinkedAt(sh, root, order, root);
    }
  }

  // The short subtree has a sibling, whose links may be followed.
  lemma SiblingKnown(sh: Shape, pt: Paints, root: Node?, order: seq<Node>, p: Node, e: Node?)
    requires Removing(sh, pt, root, order, p, e)
    ensures root != null && root in sh && pt.Keys == sh.Keys && p in sh
    ensures sh[p].left == e || sh[p].right == e
    ensures sh[p].left == e ==> sh[p].right != e
    ensures var t := Sibling(sh[p], e);
      && t != null && t in sh && t != p && Parented(sh, t) && sh[t].left != t && sh[t].right != t && sh[t].parent == p
      && sh[t].left != p && sh[t].right != p
    ensures sh[p].parent != null ==> sh[p].parent in sh
  {
    Neighbours(sh, root, order, p);
    var t := Sibling(sh[p], e);
    Family(sh, root, order, p, t);
  }

  ghost function RemoveTodo(sh: Shape, pt: Paints, order: seq<Node>, p: Node?, e: Node?): int {
    if IsRed(pt, e) || p == null || p !in sh then 0 else 1 + |order| - (sh[p].hi - sh[p].lo)
  }

  lemma RemoveTodoBound(sh: Shape, pt: Paints, root: Node?, order: seq<Node>, p: Node?, e: Node?)
    requires Removing(sh, pt, root, order, p, e)
    ensures RemoveTodo(sh, pt, order, p, e) >= 0
    ensures p != null && !IsRed(pt, e) ==> RemoveTodo(sh, pt, order, p, e) > RemoveTodo(sh, pt, order, sh[p].parent,
      p)
    ensures p != null && !IsRed(pt, e) ==> RemoveTodo(sh, pt, order, p, e) > 0
    ensures pt.Keys == sh.Keys && (e != null ==> e in sh) && (p != null ==> p in sh) && (p == null ==> e == root)
    ensures e != null && e == root ==> p == null
  {
    if p != null {
      Neighbours(sh, root, order, p);
    }
    if e != null {
      Neighbours(sh, root, order, e);
    }
  }

  lemma RedSiblingReady(sh: Shape, pt: Paints, root: Node?, order: seq<Node>, p: Node, e: Node?, t: Node)
    requires Removing(sh, pt, root, order, p, e) && Sibling(sh[p], e) == t
    ensures t in sh && t != p && t in pt && p in pt && Linked(sh, root, order)
  {
    SiblingKnown(sh, pt, root, order, p, e);
  }

  lemma NearReady(sh: Shape, pt: Paints, root: Node?, order: seq<Node>, p: Node, e: Node?, t: Node, i: Node)
    requires Removing(sh, pt, root, order, p, e) && Sibling(sh[p], e) == t && t in sh
      && (sh[t].left == i || sh[t].right == i)
    ensures i in sh && i != t && i in pt && t in pt && Linked(sh, root, order) && t != root && sh[t].parent == p
  {
    SiblingKnown(sh, pt, root, order, p, e);
    Family(sh, root, order, t, i);
    assert LinkedAt(sh, root, order, t);
  }

  lemma FarReady(sh: Shape, pt: Paints, root: Node?, order: seq<Node>, p: Node, e: Node?, t: Node, b: Node)
    requires Removing(sh, pt, root, order, p, e) && Sibling(sh[p], e) == t && t in sh
      && (sh[t].left == b || sh[t].right == b)
    ensures b in sh && b != t && b != p && t != p && b in pt && t in pt && p in pt && Linked(sh, root, order)
  {
    SiblingKnown(sh, pt, root, order, p, e);
    Family(sh, root, order, t, b);
  }

  lemma RedBlackPainted(sh: Shape, pt: Paints, root: Node?, order: seq<Node>)
    requires RedBlack(sh, pt, root, order)
    ensures Linked(sh, root, order) && pt.Keys == sh.Keys
  {
  }
}
