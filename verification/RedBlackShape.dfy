// The shape of a red-black tree on values: the links of every node, and where its subtree lies in the
// in-order listing. Each condition speaks of one node and its neighbours only.
module RedBlackShape {
  datatype Color = Black | Red

  class Node {
    var left: Node?
    var right: Node?
    var parent: Node?
    var color: Color
    constructor () { left, right, parent, color := null, null, null, Black; }
  }

  datatype Cell = Cell(left: Node?, right: Node?, parent: Node?, idx: int, lo: int, hi: int)
  type Shape = map<Node, Cell>

  ghost predicate SpanAt(sh: Shape, order: seq<Node>, n: Node)
    requires n in sh
  {
    var c := sh[n];
    0 <= c.lo <= c.idx < c.hi <= |order| && order[c.idx] == n
  }

  ghost predicate LeftAt(sh: Shape, n: Node)
    requires n in sh
  {
    var c := sh[n];
    && (c.left == null <==> c.lo == c.idx)
    && (c.left != null ==> c.left in sh && sh[c.left].parent == n && sh[c.left].lo == c.lo && sh[c.left].hi == c.idx)
  }

  ghost predicate RightAt(sh: Shape, n: Node)
    requires n in sh
  {
    var c := sh[n];
    && (c.right == null <==> c.idx + 1 == c.hi)
    && (c.right != null ==>
      c.right in sh && sh[c.right].parent == n && sh[c.right].lo == c.idx + 1 && sh[c.right].hi == c.hi)
  }

  ghost predicate ParentAt(sh: Shape, root: Node?, n: Node)
    requires n in sh
  {
    var c := sh[n];
    && (c.parent == null <==> n == root)
    && (c.parent != null ==> c.parent in sh && (sh[c.parent].left == n || sh[c.parent].right == n))
  }

  ghost predicate LinkedAt(sh: Shape, root: Node?, order: seq<Node>, n: Node)
    requires n in sh
  {
    SpanAt(sh, order, n) && LeftAt(sh, n) && RightAt(sh, n) && ParentAt(sh, root, n)
  }

  ghost predicate Linked(sh: Shape, root: Node?, order: seq<Node>)
  {
    && (root == null <==> order == [])
    && (root != null ==> root in sh && sh[root].lo == 0 && sh[root].hi == |order|)
    && (forall n {:trigger LinkedAt(sh, root, order, n)} | n in sh :: LinkedAt(sh, root, order, n))
    && (forall i | 0 <= i < |order| :: order[i] in sh && sh[order[i]].idx == i)
  }

  ghost predicate RotatedLeft(sh: Shape, x: Node, y: Node, c: Node?, p: Node?, r: Shape)
  {
    && x in sh && y in sh && r.Keys == sh.Keys
    && sh[x].right == y && sh[y].left == c && sh[x].parent == p
    && r[x] == sh[x].(right := c, parent := y, hi := sh[y].idx)
    && r[y] == sh[y].(left := x, parent := p, lo := sh[x].lo)
    && (c != null ==> c in sh && r[c] == sh[c].(parent := x))
    && (p != null ==> p in sh && r[p] == if sh[p].left == x then sh[p].(left := y) else sh[p].(right := y))
    && forall n {:trigger r[n]} | n in sh && n != x && n != y && n != c && n != p :: r[n] == sh[n]
  }

  lemma RotateLeftAt(sh: Shape, root: Node?, order: seq<Node>, x: Node, y: Node, c: Node?, p: Node?, r: Shape,
      n: Node)
    requires RotatedLeft(sh, x, y, c, p, r)
    requires LinkedAt(sh, root, order, x)
    requires LinkedAt(sh, root, order, y)
    requires c != null ==> LinkedAt(sh, root, order, c)
    requires n in sh && LinkedAt(sh, root, order, n)
    ensures LinkedAt(r, if x == root then y else root, order, n)
  {
    if n == x {
    } else if n == y {
    } else if n == c {
    } else if n == p {
    } else {
    }
  }

  lemma RotateLeftLinked(sh: Shape, root: Node?, order: seq<Node>, x: Node, y: Node, c: Node?, p: Node?, r: Shape)
    requires Linked(sh, root, order)
    requires RotatedLeft(sh, x, y, c, p, r)
    ensures Linked(r, if x == root then y else root, order)
  {
    var root' := if x == root then y else root;
    assert LinkedAt(sh, root, order, x);
    assert LinkedAt(sh, root, order, y);
    if c != null {
      assert LinkedAt(sh, root, order, c);
    }
    forall n | n in r ensures LinkedAt(r, root', order, n) {
      assert LinkedAt(sh, root, order, n);
      RotateLeftAt(sh, root, order, x, y, c, p, r, n);
    }
    forall i | 0 <= i < |order| ensures order[i] in r && r[order[i]].idx == i {
      var n := order[i];
      assert n in sh && sh[n].idx == i;
      if n == x {
      } else if n == y {
      } else if n == c {
      } else if n == p {
      } else {
      }
    }
  }

  ghost function RotateLeftShape(sh: Shape, x: Node, y: Node, c: Node?, p: Node?): (r: Shape)
    requires x in sh && y in sh && (c != null ==> c in sh) && (p != null ==> p in sh)
    requires sh[x].right == y && sh[y].left == c && sh[x].parent == p
    requires x != y && c != x && c != y && p != x && p != y && (c == null || c != p)
    ensures RotatedLeft(sh, x, y, c, p, r)
  {
    var r := sh[x := sh[x].(right := c, parent := y, hi := sh[y].idx)]
               [y := sh[y].(left := x, parent := p, lo := sh[x].lo)];
    var r1 := if c == null then r else r[c := sh[c].(parent := x)];
    if p == null then r1 else r1[p := if sh[p].left == x then sh[p].(left := y) else sh[p].(right := y)]
  }

  ghost predicate RotatedRight(sh: Shape, x: Node, y: Node, c: Node?, p: Node?, r: Shape)
  {
    && x in sh && y in sh && r.Keys == sh.Keys
    && sh[x].left == y && sh[y].right == c && sh[x].parent == p
    && r[x] == sh[x].(left := c, parent := y, lo := sh[y].idx + 1)
    && r[y] == sh[y].(right := x, parent := p, hi := sh[x].hi)
    && (c != null ==> c in sh && r[c] == sh[c].(parent := x))
    && (p != null ==> p in sh && r[p] == if sh[p].left == x then sh[p].(left := y) else sh[p].(right := y))
    && forall n {:trigger r[n]} | n in sh && n != x && n != y && n != c && n != p :: r[n] == sh[n]
  }

  lemma RotateRightAt(sh: Shape, root: Node?, order: seq<Node>, x: Node, y: Node, c: Node?, p: Node?, r: Shape,
      n: Node)
    requires RotatedRight(sh, x, y, c, p, r)
    requires LinkedAt(sh, root, order, x)
    requires LinkedAt(sh, root, order, y)
    requires c != null ==> LinkedAt(sh, root, order, c)
    requires n in sh && LinkedAt(sh, root, order, n)
    ensures LinkedAt(r, if x == root then y else root, order, n)
  {
    if n == x {
    } else if n == y {
    } else if n == c {
    } else if n == p {
    } else {
    }
  }

  lemma RotateRightLinked(sh: Shape, root: Node?, order: seq<Node>, x: Node, y: Node, c: Node?, p: Node?, r: Shape)
    requires Linked(sh, root, order)
    requires RotatedRight(sh, x, y, c, p, r)
    ensures Linked(r, if x == root then y else root, order)
  {
    var root' := if x == root then y else root;
    assert LinkedAt(sh, root, order, x);
    assert LinkedAt(sh, root, order, y);
    if c != null {
      assert LinkedAt(sh, root, order, c);
    }
    forall n | n in r ensures LinkedAt(r, root', order, n) {
      assert LinkedAt(sh, root, order, n);
      RotateRightAt(sh, root, order, x, y, c, p, r, n);
    }
    forall i | 0 <= i < |order| ensures order[i] in r && r[order[i]].idx == i {
      var n := order[i];
      assert n in sh && sh[n].idx == i;
      if n == x {
      } else if n == y {
      } else if n == c {
      } else if n == p {
      } else {
      }
    }
  }

  ghost function RotateRightShape(sh: Shape, x: Node, y: Node, c: Node?, p: Node?): (r: Shape)
    requires x in sh && y in sh && (c != null ==> c in sh) && (p != null ==> p in sh)
    requires sh[x].left == y && sh[y].right == c && sh[x].parent == p
    requires x != y && c != x && c != y && p != x && p != y && (c == null || c != p)
    ensures RotatedRight(sh, x, y, c, p, r)
  {
    var r := sh[x := sh[x].(left := c, parent := y, lo := sh[y].idx + 1)]
               [y := sh[y].(right := x, parent := p, hi := sh[x].hi)];
    var r1 := if c == null then r else r[c := sh[c].(parent := x)];
    if p == null then r1 else r1[p := if sh[p].left == x then sh[p].(left := y) else sh[p].(right := y)]
  }

  // The span of `inner` is a proper part of the span of `outer`.
  ghost predicate Within(inner: Cell, outer: Cell) {
    outer.lo <= inner.lo && inner.hi <= outer.hi && inner.hi - inner.lo < outer.hi - outer.lo
  }

  lemma Neighbours(sh: Shape, root: Node?, order: seq<Node>, x: Node)
    requires Linked(sh, root, order) && x in sh
    ensures LinkedAt(sh, root, order, x)
    ensures sh[x].left != null ==> sh[x].left in sh && Within(sh[sh[x].left], sh[x])
    ensures sh[x].right != null ==> sh[x].right in sh && Within(sh[sh[x].right], sh[x])
    ensures sh[x].parent != null ==> sh[x].parent in sh && Within(sh[x], sh[sh[x].parent])
    ensures sh[x].left != null ==> sh[x].left != sh[x].right
  {
    assert LinkedAt(sh, root, order, x);
    var c := sh[x];
    if c.parent != null { assert LinkedAt(sh, root, order, c.parent); }
    if c.left != null { assert LinkedAt(sh, root, order, c.left); }
    if c.right != null { assert LinkedAt(sh, root, order, c.right); }
  }


  // Every node is in the listing.
  lemma Listed(sh: Shape, root: Node?, order: seq<Node>)
    requires Linked(sh, root, order)
    ensures forall n | n in sh :: n in order
  {
    forall n | n in sh ensures n in order {
      assert LinkedAt(sh, root, order, n);
    }
  }
}
