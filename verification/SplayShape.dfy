// The shape of a splay tree while a top-down splay takes it apart: the tree still to be searched
// (the middle) and the two trees it hands nodes to, whose inner ends are still open.
module SplayShape {
  class Node {
    var left: Node?
    var right: Node?
    constructor ()
      ensures left == null && right == null
    {
      left, right := null, null;
    }
  }

  // idx is the position of the node in the in-order list, [lo, hi) the positions of its subtree,
  // up its parent. An open end is written as lo == -1 (right tree) or hi == |order| + 1 (left tree).
  datatype Cell = Cell(left: Node?, right: Node?, up: Node?, idx: int, lo: int, hi: int)
  type Shape = map<Node, Cell>

  ghost predicate SpanAt(sh: Shape, order: seq<Node>, a: int, b: int, n: Node)
    requires n in sh
  {
    var c := sh[n];
    && 0 <= c.idx < |order| && order[c.idx] == n && c.lo <= c.idx < c.hi
    && (c.hi == |order| + 1 ==> c.idx < a) && (c.hi != |order| + 1 ==> c.hi <= |order|)
    && (c.lo == -1 ==> c.idx >= b) && (c.lo != -1 ==> c.lo >= 0)
  }

  ghost predicate LeftAt(sh: Shape, n: Node)
    requires n in sh
  {
    var c := sh[n];
    && (c.left == null <==> c.lo == c.idx)
    && (c.left != null ==> c.left in sh && sh[c.left].up == n && sh[c.left].lo == c.lo && sh[c.left].hi == c.idx)
  }

  ghost predicate RightAt(sh: Shape, n: Node)
    requires n in sh
  {
    var c := sh[n];
    && (c.right == null <==> c.idx + 1 == c.hi)
    && (c.right != null ==>
      c.right in sh && sh[c.right].up == n && sh[c.right].lo == c.idx + 1 && sh[c.right].hi == c.hi)
  }

  // One node of the three trees; the open ends are the right link of `left` and the left link of `right`.
  ghost predicate PartAt(sh: Shape, order: seq<Node>, left: Node?, right: Node?, a: int, b: int, n: Node)
    requires n in sh
  {
    SpanAt(sh, order, a, b, n) && (n != right ==> LeftAt(sh, n)) && (n != left ==> RightAt(sh, n))
  }

  ghost predicate Listed(sh: Shape, order: seq<Node>) {
    forall i | 0 <= i < |order| :: order[i] in sh && sh[order[i]].idx == i
  }

  // A whole tree.
  ghost predicate Linked(sh: Shape, root: Node?, order: seq<Node>) {
    && (root == null <==> order == [])
    && (root != null ==> root in sh && sh[root].lo == 0 && sh[root].hi == |order| && sh[root].up == null)
    && Listed(sh, order)
    && (forall n {:trigger PartAt(sh, order, null, null, 0, |order|, n)} | n in sh ::
      PartAt(sh, order, null, null, 0, |order|, n))
  }

  // The three trees in the middle of a splay. first and last are the roots of the left and right tree.
  ghost predicate Split(sh: Shape, order: seq<Node>, root: Node, left: Node?, right: Node?, first: Node?, last: Node?,
      a: int, b: int) {
    && 0 <= a < b <= |order| && Listed(sh, order)
    && root in sh && sh[root].lo == a && sh[root].hi == b && sh[root].up == null
    && (left == null ==> a == 0)
    && (left != null ==> left in sh && sh[left].idx + 1 == a && sh[left].hi == |order| + 1)
    && (left != null ==>
      first != null && first in sh && sh[first].lo == 0 && sh[first].hi == |order| + 1 && sh[first].up == null)
    && (right == null ==> b == |order|)
    && (right != null ==> right in sh && sh[right].idx == b && sh[right].lo == -1)
    && (right != null ==>
      last != null && last in sh && sh[last].lo == -1 && sh[last].hi == |order| && sh[last].up == null)
    && (forall n {:trigger PartAt(sh, order, left, right, a, b, n)} | n in sh ::
      PartAt(sh, order, left, right, a, b, n))
  }

  // ---- rotation at the root of the middle tree --------------------------------

  ghost predicate RotatedRight(sh: Shape, x: Node, y: Node, c: Node?, r: Shape) {
    && x in sh && y in sh && x != y && c != x && c != y && r.Keys == sh.Keys && sh[x].left == y && sh[y].right == c
    && r[x] == sh[x].(left := c, up := y, lo := sh[y].idx + 1)
    && r[y] == sh[y].(right := x, up := null, hi := sh[x].hi)
    && (c != null ==> c in sh && r[c] == sh[c].(up := x))
    && forall n {:trigger r[n]} | n in sh && n != x && n != y && n != c :: r[n] == sh[n]
  }

  lemma RotateRightAt(sh: Shape, order: seq<Node>, left: Node?, right: Node?, a: int, b: int, x: Node, y: Node,
      c: Node?, r: Shape, n: Node)
    requires RotatedRight(sh, x, y, c, r) && 0 <= a < b <= |order| && sh[x].up == null && sh[x].lo == a
      && sh[x].hi == b
    requires x != left && x != right && y != left && y != right
    requires PartAt(sh, order, left, right, a, b, x) && PartAt(sh, order, left, right, a, b, y)
    requires c != null ==> PartAt(sh, order, left, right, a, b, c)
    requires n in sh && PartAt(sh, order, left, right, a, b, n)
    ensures PartAt(r, order, left, right, a, b, n)
  {
    if n == x {
    } else if n == y {
    } else if n == c {
    } else {
    }
  }

  lemma RotateRightSplit(sh: Shape, order: seq<Node>, left: Node?, right: Node?, first: Node?, last: Node?, a: int,
      b: int, x: Node, y: Node, c: Node?, r: Shape)
    requires Split(sh, order, x, left, right, first, last, a, b) && RotatedRight(sh, x, y, c, r)
    ensures Split(r, order, y, left, right, first, last, a, b)
  {
    assert PartAt(sh, order, left, right, a, b, x);
    assert PartAt(sh, order, left, right, a, b, y);
    if c != null {
      assert PartAt(sh, order, left, right, a, b, c);
    }
    forall n | n in r ensures PartAt(r, order, left, right, a, b, n) {
      assert PartAt(sh, order, left, right, a, b, n);
      RotateRightAt(sh, order, left, right, a, b, x, y, c, r, n);
    }
  }

  // ---- handing the root of the middle tree over --------------------------------

  ghost predicate LinkedLeft(sh: Shape, x: Node, l: Node, right: Node?, r: Shape) {
    && x in sh && l in sh && x != l && right != x && right != l && (right != null ==> right in sh)
      && r.Keys == sh.Keys && sh[x].left == l
    && r[x] == sh[x].(up := right, lo := -1)
    && r[l] == sh[l].(up := null)
    && (right != null ==> r[right] == sh[right].(left := x))
    && forall n {:trigger r[n]} | n in sh && n != x && n != l && n != right :: r[n] == sh[n]
  }

  lemma LinkLeftAt(sh: Shape, order: seq<Node>, left: Node?, right: Node?, a: int, b: int, x: Node, l: Node, r: Shape,
      n: Node)
    requires LinkedLeft(sh, x, l, right, r) && 0 <= a < b <= |order| && sh[x].up == null && sh[x].lo == a
      && sh[x].hi == b
    requires x != left && l != left && (left != null ==> left != right)
    requires right != null ==> sh[right].idx == b && sh[right].lo == -1 && PartAt(sh, order, left, right, a, b, right)
    requires PartAt(sh, order, left, right, a, b, x) && PartAt(sh, order, left, right, a, b, l)
    requires n in sh && PartAt(sh, order, left, right, a, b, n)
    ensures PartAt(r, order, left, x, a, sh[x].idx, n)
  {
    if n == x {
    } else if n == l {
    } else if n == right {
    } else {
    }
  }

  lemma LinkLeftSplit(sh: Shape, order: seq<Node>, left: Node?, right: Node?, first: Node?, last: Node?, a: int,
      b: int, x: Node, l: Node, r: Shape)
    requires Split(sh, order, x, left, right, first, last, a, b) && LinkedLeft(sh, x, l, right, r)
    ensures Split(r, order, l, left, x, first, if right == null then x else last, a, sh[x].idx)
  {
    assert PartAt(sh, order, left, right, a, b, x);
    assert PartAt(sh, order, left, right, a, b, l);
    if right != null {
      assert PartAt(sh, order, left, right, a, b, right);
    }
    forall n | n in r ensures PartAt(r, order, left, x, a, sh[x].idx, n) {
      assert PartAt(sh, order, left, right, a, b, n);
      LinkLeftAt(sh, order, left, right, a, b, x, l, r, n);
    }
  }

  ghost predicate RotatedLeft(sh: Shape, x: Node, y: Node, c: Node?, r: Shape) {
    && x in sh && y in sh && x != y && c != x && c != y && r.Keys == sh.Keys && sh[x].right == y && sh[y].left == c
    && r[x] == sh[x].(right := c, up := y, hi := sh[y].idx)
    && r[y] == sh[y].(left := x, up := null, lo := sh[x].lo)
    && (c != null ==> c in sh && r[c] == sh[c].(up := x))
    && forall n {:trigger r[n]} | n in sh && n != x && n != y && n != c :: r[n] == sh[n]
  }

  lemma RotateLeftAt(sh: Shape, order: seq<Node>, left: Node?, right: Node?, a: int, b: int, x: Node, y: Node,
      c: Node?, r: Shape, n: Node)
    requires RotatedLeft(sh, x, y, c, r) && 0 <= a < b <= |order| && sh[x].up == null && sh[x].lo == a
      && sh[x].hi == b
    requires x != left && x != right && y != left && y != right
    requires PartAt(sh, order, left, right, a, b, x) && PartAt(sh, order, left, right, a, b, y)
    requires c != null ==> PartAt(sh, order, left, right, a, b, c)
    requires n in sh && PartAt(sh, order, left, right, a, b, n)
    ensures PartAt(r, order, left, right, a, b, n)
  {
    if n == x {
    } else if n == y {
    } else if n == c {
    } else {
    }
  }

  lemma RotateLeftSplit(sh: Shape, order: seq<Node>, left: Node?, right: Node?, first: Node?, last: Node?, a: int,
      b: int, x: Node, y: Node, c: Node?, r: Shape)
    requires Split(sh, order, x, left, right, first, last, a, b) && RotatedLeft(sh, x, y, c, r)
    ensures Split(r, order, y, left, right, first, last, a, b)
  {
    assert PartAt(sh, order, left, right, a, b, x);
    assert PartAt(sh, order, left, right, a, b, y);
    if c != null {
      assert PartAt(sh, order, left, right, a, b, c);
    }
    forall n | n in r ensures PartAt(r, order, left, right, a, b, n) {
      assert PartAt(sh, order, left, right, a, b, n);
      RotateLeftAt(sh, order, left, right, a, b, x, y, c, r, n);
    }
  }

  ghost predicate LinkedRight(sh: Shape, order: seq<Node>, x: Node, t: Node, left: Node?, r: Shape) {
    && x in sh && t in sh && x != t && left != x && left != t && (left != null ==> left in sh) && r.Keys == sh.Keys
      && sh[x].right == t
    && r[x] == sh[x].(up := left, hi := |order| + 1)
    && r[t] == sh[t].(up := null)
    && (left != null ==> r[left] == sh[left].(right := x))
    && forall n {:trigger r[n]} | n in sh && n != x && n != t && n != left :: r[n] == sh[n]
  }

  lemma LinkRightAt(sh: Shape, order: seq<Node>, left: Node?, right: Node?, a: int, b: int, x: Node, t: Node, r: Shape,
      n: Node)
    requires LinkedRight(sh, order, x, t, left, r) && 0 <= a < b <= |order| && sh[x].up == null && sh[x].lo == a
      && sh[x].hi == b
    requires x != right && t != right && (right != null ==> left != right)
    requires left != null ==>
      sh[left].idx + 1 == a && sh[left].hi == |order| + 1 && PartAt(sh, order, left, right, a, b, left)
    requires PartAt(sh, order, left, right, a, b, x) && PartAt(sh, order, left, right, a, b, t)
    requires n in sh && PartAt(sh, order, left, right, a, b, n)
    ensures PartAt(r, order, x, right, sh[x].idx + 1, b, n)
  {
    if n == x {
    } else if n == t {
    } else if n == left {
    } else {
    }
  }

  lemma LinkRightSplit(sh: Shape, order: seq<Node>, left: Node?, right: Node?, first: Node?, last: Node?, a: int,
      b: int, x: Node, t: Node, r: Shape)
    requires Split(sh, order, x, left, right, first, last, a, b) && LinkedRight(sh, order, x, t, left, r)
    ensures Split(r, order, t, x, right, if left == null then x else first, last, sh[x].idx + 1, b)
  {
    assert PartAt(sh, order, left, right, a, b, x);
    assert PartAt(sh, order, left, right, a, b, t);
    if left != null {
      assert PartAt(sh, order, left, right, a, b, left);
    }
    forall n | n in r ensures PartAt(r, order, x, right, sh[x].idx + 1, b, n) {
      assert PartAt(sh, order, left, right, a, b, n);
      LinkRightAt(sh, order, left, right, a, b, x, t, r, n);
    }
  }

  // ---- putting the three trees together ----------------------------------------

  // The open ends closed at the position k of the new root.
  ghost function Closed(order: seq<Node>, k: int, c: Cell): Cell {
    c.(lo := if c.lo == -1 then k + 1 else c.lo, hi := if c.hi == |order| + 1 then k else c.hi)
  }

  ghost predicate Assembled(sh: Shape, order: seq<Node>, x: Node, left: Node?, right: Node?, first: Node?, last: Node?,
      r: Shape) {
    && x in sh && r.Keys == sh.Keys
    && r[x] == sh[x].(left := if left == null then sh[x].left else first,
      right := if right == null then sh[x].right else last, lo := 0, hi := |order|)
    && forall n {:trigger r[n]} | n in sh && n != x ::
      r[n] == Closed(order, sh[x].idx, sh[n]).(
        right := if n == left then sh[x].left else sh[n].right,
        left := if n == right then sh[x].right else sh[n].left,
        up := if left != null && n == sh[x].left then left
              else if right != null && n == sh[x].right then right
              else if (left != null && n == first) || (right != null && n == last) then x
              else sh[n].up)
  }

  lemma AssembleRoot(sh: Shape, order: seq<Node>, x: Node, left: Node?, right: Node?, first: Node?, last: Node?,
      a: int, b: int, r: Shape)
    requires Split(sh, order, x, left, right, first, last, a, b)
      && Assembled(sh, order, x, left, right, first, last, r)
    ensures PartAt(r, order, null, null, 0, |order|, x)
  {
    assert PartAt(sh, order, left, right, a, b, x);
    if left != null {
      assert PartAt(sh, order, left, right, a, b, first);
    }
    if right != null {
      assert PartAt(sh, order, left, right, a, b, last);
    }
  }

  lemma AssembleLeftAt(sh: Shape, order: seq<Node>, x: Node, left: Node?, right: Node?, first: Node?, last: Node?,
      a: int, b: int, r: Shape, n: Node)
    requires Split(sh, order, x, left, right, first, last, a, b)
      && Assembled(sh, order, x, left, right, first, last, r)
    requires n in sh && n != x
    ensures SpanAt(r, order, 0, |order|, n) && LeftAt(r, n)
  {
    assert PartAt(sh, order, left, right, a, b, x);
    assert PartAt(sh, order, left, right, a, b, n);
    if n != right && sh[n].left != null {
      assert PartAt(sh, order, left, right, a, b, sh[n].left);
    }
    if n == right {
    } else {
    }
  }

  lemma AssembleRightAt(sh: Shape, order: seq<Node>, x: Node, left: Node?, right: Node?, first: Node?, last: Node?,
      a: int, b: int, r: Shape, n: Node)
    requires Split(sh, order, x, left, right, first, last, a, b)
      && Assembled(sh, order, x, left, right, first, last, r)
    requires n in sh && n != x
    ensures RightAt(r, n)
  {
    assert PartAt(sh, order, left, right, a, b, x);
    assert PartAt(sh, order, left, right, a, b, n);
    if n != left && sh[n].right != null {
      assert PartAt(sh, order, left, right, a, b, sh[n].right);
    }
    if n == left {
    } else {
    }
  }

  lemma AssembleLinked(sh: Shape, order: seq<Node>, x: Node, left: Node?, right: Node?, first: Node?, last: Node?,
      a: int, b: int, r: Shape)
    requires Split(sh, order, x, left, right, first, last, a, b)
      && Assembled(sh, order, x, left, right, first, last, r)
    ensures Linked(r, x, order)
  {
    AssembleRoot(sh, order, x, left, right, first, last, a, b, r);
    forall n | n in r ensures PartAt(r, order, null, null, 0, |order|, n) {
      if n != x {
        AssembleLeftAt(sh, order, x, left, right, first, last, a, b, r, n);
        AssembleRightAt(sh, order, x, left, right, first, last, a, b, r, n);
      }
    }
  }

  // ---- cutting a tree at its root, and growing one around a root ------------------

  // Spans nest: a node whose position lies in the span of m has its whole span there.
  lemma {:induction false} Nested(sh: Shape, root: Node?, order: seq<Node>, m: Node, n: Node)
    requires Linked(sh, root, order) && m in sh && n in sh && sh[m].lo <= sh[n].idx < sh[m].hi
    ensures sh[m].lo <= sh[n].lo && sh[n].hi <= sh[m].hi
    decreases sh[m].hi - sh[m].lo
  {
    assert PartAt(sh, order, null, null, 0, |order|, m);
    assert PartAt(sh, order, null, null, 0, |order|, n);
    if sh[n].idx < sh[m].idx {
      Nested(sh, root, order, sh[m].left, n);
    } else if sh[n].idx > sh[m].idx {
      Nested(sh, root, order, sh[m].right, n);
    }
  }

  ghost predicate LeftPart(sh: Shape, x: Node, r: Shape) {
    && x in sh
    && r.Keys == (set n | n in sh && sh[n].idx < sh[x].idx)
    && (forall n {:trigger r[n]} | n in r :: r[n] == sh[n].(up := if n == sh[x].left then null else sh[n].up))
  }

  lemma CleaveLeft(sh: Shape, x: Node, order: seq<Node>, r: Shape)
    requires Linked(sh, x, order) && LeftPart(sh, x, r)
    ensures 0 <= sh[x].idx < |order| && Linked(r, sh[x].left, order[..sh[x].idx])
  {
    assert PartAt(sh, order, null, null, 0, |order|, x);
    var o := order[..sh[x].idx];
    if sh[x].left != null { assert PartAt(sh, order, null, null, 0, |order|, sh[x].left); }
    forall n | n in r ensures PartAt(r, o, null, null, 0, |o|, n) {
      assert PartAt(sh, order, null, null, 0, |order|, n);
      Nested(sh, x, order, sh[x].left, n);
      if sh[n].left != null { assert PartAt(sh, order, null, null, 0, |order|, sh[n].left); }
      if sh[n].right != null { assert PartAt(sh, order, null, null, 0, |order|, sh[n].right); }
    }
  }

  ghost predicate RightPart(sh: Shape, x: Node, r: Shape) {
    && x in sh
    && r.Keys == (set n | n in sh && sh[n].idx > sh[x].idx)
    && (forall n {:trigger r[n]} | n in r :: r[n] == Moved(sh[n],
      -(sh[x].idx + 1)).(up := if n == sh[x].right then null else sh[n].up))
  }

  ghost function Moved(c: Cell, d: int): Cell {
    c.(idx := c.idx + d, lo := c.lo + d, hi := c.hi + d)
  }

  lemma CleaveRight(sh: Shape, x: Node, order: seq<Node>, r: Shape)
    requires Linked(sh, x, order) && RightPart(sh, x, r)
    ensures 0 <= sh[x].idx < |order| && Linked(r, sh[x].right, order[sh[x].idx + 1..])
  {
    assert PartAt(sh, order, null, null, 0, |order|, x);
    var o := order[sh[x].idx + 1..];
    if sh[x].right != null { assert PartAt(sh, order, null, null, 0, |order|, sh[x].right); }
    forall i | 0 <= i < |o| ensures o[i] in r && r[o[i]].idx == i {
      assert o[i] == order[sh[x].idx + 1 + i];
    }
    forall n | n in r ensures PartAt(r, o, null, null, 0, |o|, n) {
      assert PartAt(sh, order, null, null, 0, |order|, n);
      Nested(sh, x, order, sh[x].right, n);
      if sh[n].left != null { assert PartAt(sh, order, null, null, 0, |order|, sh[n].left); }
      if sh[n].right != null { assert PartAt(sh, order, null, null, 0, |order|, sh[n].right); }
    }
  }

  // x on top of two trees.
  ghost predicate Grafted(shA: Shape, rA: Node?, oA: seq<Node>, shB: Shape, rB: Node?, oB: seq<Node>, x: Node,
      r: Shape) {
    && shA.Keys !! shB.Keys && x !in shA && x !in shB && r.Keys == shA.Keys + shB.Keys + {x}
    && r[x] == Cell(rA, rB, null, |oA|, 0, |oA| + 1 + |oB|)
    && (forall n {:trigger r[n]} | n in shA :: r[n] == shA[n].(up := if n == rA then x else shA[n].up))
    && (forall n {:trigger r[n]} | n in shB :: r[n] == Moved(shB[n],
      |oA| + 1).(up := if n == rB then x else shB[n].up))
  }

  lemma GraftAt(shA: Shape, rA: Node?, oA: seq<Node>, shB: Shape, rB: Node?, oB: seq<Node>, x: Node, r: Shape,
      n: Node)
    requires Linked(shA, rA, oA) && Linked(shB, rB, oB) && Grafted(shA, rA, oA, shB, rB, oB, x, r) && n in r
    ensures var o := oA + [x] + oB; PartAt(r, o, null, null, 0, |o|, n)
  {
    if n in shA {
      assert PartAt(shA, oA, null, null, 0, |oA|, n);
    } else if n in shB {
      assert PartAt(shB, oB, null, null, 0, |oB|, n);
    }
  }

  lemma Graft(shA: Shape, rA: Node?, oA: seq<Node>, shB: Shape, rB: Node?, oB: seq<Node>, x: Node, r: Shape)
    requires Linked(shA, rA, oA) && Linked(shB, rB, oB) && Grafted(shA, rA, oA, shB, rB, oB, x, r)
    ensures Linked(r, x, oA + [x] + oB)
  {
    var o := oA + [x] + oB;
    forall n | n in r ensures PartAt(r, o, null, null, 0, |o|, n) {
      GraftAt(shA, rA, oA, shB, rB, oB, x, r, n);
    }
    forall i | 0 <= i < |o| ensures o[i] in r && r[o[i]].idx == i {
      if i < |oA| {
        assert oA[i] in shA;
      } else if i > |oA| {
        assert oB[i - |oA| - 1] in shB;
      }
    }
  }

  // ---- what the pointer code needs of each step -----------------------------------

  lemma RotateRightReady(sh: Shape, order: seq<Node>, x: Node, left: Node?, right: Node?, first: Node?, last: Node?,
      a: int, b: int, y: Node)
    returns (c: Node?, r: Shape)
    requires Split(sh, order, x, left, right, first, last, a, b) && sh[x].left == y
    ensures y in sh && c == sh[y].right && RotatedRight(sh, x, y, c, r)
      && Split(r, order, y, left, right, first, last, a, b)
  {
    assert PartAt(sh, order, left, right, a, b, x);
    assert PartAt(sh, order, left, right, a, b, y);
    c := sh[y].right;
    if c != null {
      assert PartAt(sh, order, left, right, a, b, c);
    }
    r := sh[x := sh[x].(left := c, up := y, lo := sh[y].idx + 1)][y := sh[y].(right := x, up := null,
      hi := sh[x].hi)];
    if c != null {
      r := r[c := sh[c].(up := x)];
    }
    RotateRightSplit(sh, order, left, right, first, last, a, b, x, y, c, r);
  }

  lemma LinkLeftReady(sh: Shape, order: seq<Node>, x: Node, left: Node?, right: Node?, first: Node?, last: Node?,
      a: int, b: int)
    returns (l: Node, r: Shape)
    requires Split(sh, order, x, left, right, first, last, a, b) && sh[x].left != null
    ensures l in sh && sh[x].left == l && LinkedLeft(sh, x, l, right, r)
    ensures Split(r, order, l, left, x, first, if right == null then x else last, a, sh[x].idx)
  {
    assert PartAt(sh, order, left, right, a, b, x);
    l := sh[x].left;
    assert PartAt(sh, order, left, right, a, b, l);
    r := sh[x := sh[x].(up := right, lo := -1)][l := sh[l].(up := null)];
    if right != null {
      r := r[right := sh[right].(left := x)];
    }
    LinkLeftSplit(sh, order, left, right, first, last, a, b, x, l, r);
  }

  lemma RotateLeftReady(sh: Shape, order: seq<Node>, x: Node, left: Node?, right: Node?, first: Node?, last: Node?,
      a: int, b: int, y: Node)
    returns (c: Node?, r: Shape)
    requires Split(sh, order, x, left, right, first, last, a, b) && sh[x].right == y
    ensures y in sh && c == sh[y].left && RotatedLeft(sh, x, y, c, r)
      && Split(r, order, y, left, right, first, last, a, b)
  {
    assert PartAt(sh, order, left, right, a, b, x);
    assert PartAt(sh, order, left, right, a, b, y);
    c := sh[y].left;
    if c != null {
      assert PartAt(sh, order, left, right, a, b, c);
    }
    r := sh[x := sh[x].(right := c, up := y, hi := sh[y].idx)][y := sh[y].(left := x, up := null, lo := sh[x].lo)];
    if c != null {
      r := r[c := sh[c].(up := x)];
    }
    RotateLeftSplit(sh, order, left, right, first, last, a, b, x, y, c, r);
  }

  lemma LinkRightReady(sh: Shape, order: seq<Node>, x: Node, left: Node?, right: Node?, first: Node?, last: Node?,
      a: int, b: int)
    returns (t: Node, r: Shape)
    requires Split(sh, order, x, left, right, first, last, a, b) && sh[x].right != null
    ensures t in sh && sh[x].right == t && LinkedRight(sh, order, x, t, left, r)
    ensures Split(r, order, t, x, right, if left == null then x else first, last, sh[x].idx + 1, b)
  {
    assert PartAt(sh, order, left, right, a, b, x);
    t := sh[x].right;
    assert PartAt(sh, order, left, right, a, b, t);
    r := sh[x := sh[x].(up := left, hi := |order| + 1)][t := sh[t].(up := null)];
    if left != null {
      r := r[left := sh[left].(right := x)];
    }
    LinkRightSplit(sh, order, left, right, first, last, a, b, x, t, r);
  }

  lemma AssembleReady(sh: Shape, order: seq<Node>, x: Node, left: Node?, right: Node?, first: Node?, last: Node?,
      a: int, b: int) returns (r: Shape)
    requires Split(sh, order, x, left, right, first, last, a, b)
    ensures Assembled(sh, order, x, left, right, first, last, r) && Linked(r, x, order)
    ensures left != x && right != x && (left != null ==> left != right)
  {
    assert PartAt(sh, order, left, right, a, b, x);
    r := map n | n in sh ::
      if n == x then
        sh[x].(left := if left == null then sh[x].left else first,
          right := if right == null then sh[x].right else last, lo := 0, hi := |order|)
      else
        Closed(order, sh[x].idx, sh[n]).(
          right := if n == left then sh[x].left else sh[n].right,
          left := if n == right then sh[x].right else sh[n].left,
          up := if left != null && n == sh[x].left then left
                else if right != null && n == sh[x].right then right
                else if (left != null && n == first) || (right != null && n == last) then x
                else sh[n].up);
    AssembleLinked(sh, order, x, left, right, first, last, a, b, r);
  }

  // The links of the root of the middle tree, and the span below it.
  lemma RootPart(sh: Shape, order: seq<Node>, x: Node, left: Node?, right: Node?, first: Node?, last: Node?, a: int,
      b: int)
    requires Split(sh, order, x, left, right, first, last, a, b)
    ensures x in sh && a <= sh[x].idx < b && order[sh[x].idx] == x && 0 <= a < b <= |order|
    ensures sh[x].left != null ==> sh[x].left in sh
    ensures sh[x].right != null ==> sh[x].right in sh
    ensures sh[x].left == null <==> sh[x].idx == a
    ensures sh[x].right == null <==> sh[x].idx + 1 == b
  {
    assert PartAt(sh, order, left, right, a, b, x);
  }

  // A whole tree is a middle tree with nothing on either side.
  lemma WholeSplit(sh: Shape, root: Node, order: seq<Node>, first: Node?, last: Node?)
    requires Linked(sh, root, order)
    ensures Split(sh, order, root, null, null, first, last, 0, |order|)
  {
    assert PartAt(sh, order, null, null, 0, |order|, root);
  }

  lemma TreeListed(sh: Shape, root: Node?, order: seq<Node>)
    requires Linked(sh, root, order)
    ensures forall i | 0 <= i < |order| :: order[i] in sh && sh[order[i]].idx == i
    ensures root != null ==> root in sh
    ensures root == null <==> order == []
  {
  }

  // Every node is in the listing.
  lemma AllListed(sh: Shape, root: Node?, order: seq<Node>)
    requires Linked(sh, root, order)
    ensures forall n | n in sh :: n in order
  {
    forall n | n in sh ensures n in order {
      assert PartAt(sh, order, null, null, 0, |order|, n);
    }
  }

  // ---- inserting at, and removing from, the root --------------------------------

  ghost function LeftShape(sh: Shape, x: Node): Shape
    requires x in sh
  {
    map n | n in sh && sh[n].idx < sh[x].idx :: sh[n].(up := if n == sh[x].left then null else sh[n].up)
  }

  ghost function RightShape(sh: Shape, x: Node): Shape
    requires x in sh
  {
    map n | n in sh && sh[n].idx > sh[x].idx :: Moved(sh[n],
      -(sh[x].idx + 1)).(up := if n == sh[x].right then null else sh[n].up)
  }

  ghost function GraftShape(shA: Shape, rA: Node?, oA: seq<Node>, shB: Shape, rB: Node?, oB: seq<Node>,
      x: Node): Shape {
    map n | n in shA.Keys + shB.Keys + {x} ::
      if n == x then Cell(rA, rB, null, |oA|, 0, |oA| + 1 + |oB|)
      else if n in shA then shA[n].(up := if n == rA then x else shA[n].up)
      else Moved(shB[n], |oA| + 1).(up := if n == rB then x else shB[n].up)
  }

  // The two subtrees of the root, each as a tree of its own.
  lemma Cleave(sh: Shape, x: Node, order: seq<Node>) returns (shL: Shape, shR: Shape)
    requires Linked(sh, x, order)
    ensures x in sh && 0 <= sh[x].idx < |order| && order[sh[x].idx] == x
    ensures Linked(shL, sh[x].left, order[..sh[x].idx]) && Linked(shR, sh[x].right, order[sh[x].idx + 1..])
    ensures shL.Keys !! shR.Keys && x !in shL && x !in shR && sh.Keys == shL.Keys + shR.Keys + {x}
    ensures forall n | n in shL :: SameLinks(shL[n], sh[n])
    ensures forall n | n in shR :: SameLinks(shR[n], sh[n])
  {
    shL, shR := LeftShape(sh, x), RightShape(sh, x);
    CleaveLeft(sh, x, order, shL);
    CleaveRight(sh, x, order, shR);
    assert PartAt(sh, order, null, null, 0, |order|, x);
    forall n | n in sh && sh[n].idx == sh[x].idx ensures n == x {
      assert PartAt(sh, order, null, null, 0, |order|, n);
    }
  }

  ghost predicate SameLinks(c: Cell, d: Cell) {
    c.left == d.left && c.right == d.right
  }

  lemma Grow(shA: Shape, rA: Node?, oA: seq<Node>, shB: Shape, rB: Node?, oB: seq<Node>, x: Node) returns (r: Shape)
    requires Linked(shA, rA, oA) && Linked(shB, rB, oB) && shA.Keys !! shB.Keys && x !in shA && x !in shB
    ensures Linked(r, x, oA + [x] + oB) && r.Keys == shA.Keys + shB.Keys + {x}
    ensures r[x].left == rA && r[x].right == rB && r[x].idx == |oA|
    ensures forall n | n in shA :: n in r && SameLinks(r[n], shA[n])
    ensures forall n | n in shB :: n in r && SameLinks(r[n], shB[n])
  {
    r := GraftShape(shA, rA, oA, shB, rB, oB, x);
    Graft(shA, rA, oA, shB, rB, oB, x, r);
  }

  // y put just before the root x, as the new root.
  lemma PutBefore(sh: Shape, x: Node, order: seq<Node>, y: Node) returns (r: Shape)
    requires Linked(sh, x, order) && y !in sh
    ensures x in sh && 0 <= sh[x].idx < |order| && order[sh[x].idx] == x && r.Keys == sh.Keys + {y}
    ensures Linked(r, y, order[..sh[x].idx] + [y] + order[sh[x].idx..])
    ensures r[y].left == sh[x].left && r[y].right == x && r[x].left == null && r[x].right == sh[x].right
    ensures forall n | n in sh && n != x :: SameLinks(r[n], sh[n])
  {
    hide Linked;
    var shL, shR := Cleave(sh, x, order);
    var k := sh[x].idx;
    assert Linked(map[], null, []) by { EmptyLinked(); }
    var shX := Grow(map[], null, [], shR, sh[x].right, order[k + 1..], x);
    assert [] + [x] + order[k + 1..] == order[k..];
    r := Grow(shL, sh[x].left, order[..k], shX, x, order[k..], y);
  }

  // y put just after the root x, as the new root.
  lemma PutAfter(sh: Shape, x: Node, order: seq<Node>, y: Node) returns (r: Shape)
    requires Linked(sh, x, order) && y !in sh
    ensures x in sh && 0 <= sh[x].idx < |order| && order[sh[x].idx] == x && r.Keys == sh.Keys + {y}
    ensures Linked(r, y, order[..sh[x].idx + 1] + [y] + order[sh[x].idx + 1..])
    ensures r[y].right == sh[x].right && r[y].left == x && r[x].right == null && r[x].left == sh[x].left
    ensures forall n | n in sh && n != x :: SameLinks(r[n], sh[n])
  {
    hide Linked;
    var shL, shR := Cleave(sh, x, order);
    var k := sh[x].idx;
    assert Linked(map[], null, []) by { EmptyLinked(); }
    var shX := Grow(shL, sh[x].left, order[..k], map[], null, [], x);
    assert order[..k] + [x] + [] == order[..k + 1];
    r := Grow(shX, x, order[..k + 1], shR, sh[x].right, order[k + 1..], y);
  }

  lemma EmptyLinked()
    ensures Linked(map[], null, [])
  {
  }

  // A tree whose root x is its last node, with a second tree hung to the right of x.
  lemma JoinRight(sh: Shape, x: Node, order: seq<Node>, shR: Shape, rR: Node?, oR: seq<Node>) returns (r: Shape)
    requires Linked(sh, x, order) && Linked(shR, rR, oR) && sh.Keys !! shR.Keys
    requires x in sh && sh[x].idx == |order| - 1
    ensures Linked(r, x, order + oR) && r.Keys == sh.Keys + shR.Keys
    ensures r[x].left == sh[x].left && r[x].right == rR
    ensures forall n | n in sh && n != x :: SameLinks(r[n], sh[n])
    ensures forall n | n in shR :: SameLinks(r[n], shR[n])
  {
    hide Linked;
    var shA, shB := Cleave(sh, x, order);
    var k := sh[x].idx;
    assert shB.Keys == {} by { assert order[k + 1..] == []; AllListed(shB, sh[x].right, order[k + 1..]); }
    r := Grow(shA, sh[x].left, order[..k], shR, rR, oR, x);
    assert order[..k] + [x] + oR == order + oR;
  }

  lemma PutAlone(sh: Shape, order: seq<Node>, x: Node) returns (r: Shape)
    requires Linked(sh, null, order)
    ensures order == [] && sh.Keys == {} && r.Keys == {x} && Linked(r, x, [x]) && r[x].left == null
      && r[x].right == null
  {
    AllListed(sh, null, order);
    r := map[x := Cell(null, null, null, 0, 0, 1)];
    assert PartAt(r, [x], null, null, 0, 1, x);
  }

  // One node of a whole tree.
  ghost predicate NodePartAt(sh: Shape, order: seq<Node>, n: Node)
    requires n in sh
  {
    PartAt(sh, order, null, null, 0, |order|, n)
  }

  lemma NodePart(sh: Shape, root: Node?, order: seq<Node>, n: Node)
    requires Linked(sh, root, order) && n in sh
    ensures NodePartAt(sh, order, n)
    ensures 0 <= sh[n].lo && sh[n].hi <= |order|
  {
    assert PartAt(sh, order, null, null, 0, |order|, n);
  }

  lemma NodeListed(sh: Shape, root: Node?, order: seq<Node>, n: Node)
    requires Linked(sh, root, order) && n in sh
    ensures root != null && 0 <= sh[n].idx < |order| && order[sh[n].idx] == n
  {
    assert PartAt(sh, order, null, null, 0, |order|, n);
  }

  lemma RootSpan(sh: Shape, root: Node, order: seq<Node>)
    requires Linked(sh, root, order)
    ensures root in sh && (sh[root].right == null <==> sh[root].idx + 1 == |order|)
    ensures sh[root].right != null ==> sh[root].right in sh && sh[sh[root].right].lo == sh[root].idx + 1
  {
    assert PartAt(sh, order, null, null, 0, |order|, root);
  }

  // ---- the reference meaning: an inductive tree and its in-order listing -------------

  datatype Tree = Leaf | Branch(left: Tree, node: Node, right: Tree)

  ghost function InOrder(t: Tree): seq<Node> {
    match t
    case Leaf => []
    case Branch(l, n, r) => InOrder(l) + [n] + InOrder(r)
  }

  ghost function Nodes(t: Tree): set<Node> {
    match t
    case Leaf => {}
    case Branch(l, n, r) => Nodes(l) + {n} + Nodes(r)
  }

  // The pointers below n spell out t.
  ghost predicate Represents(t: Tree, n: Node?)
    reads Nodes(t)
  {
    match t
    case Leaf => n == null
    case Branch(l, m, r) => n == m && Represents(l, m.left) && Represents(r, m.right)
  }

  ghost function Abstract(sh: Shape, root: Node?, order: seq<Node>, n: Node?): Tree
    requires Linked(sh, root, order) && (n != null ==> n in sh)
    decreases if n == null then 0 else 1 + sh[n].hi - sh[n].lo
  {
    if n == null then Leaf
    else
      NodePart(sh, root, order, n);
      Branch(Abstract(sh, root, order, sh[n].left), n, Abstract(sh, root, order, sh[n].right))
  }

  lemma {:induction false} AbstractOrder(sh: Shape, root: Node?, order: seq<Node>, n: Node?)
    requires Linked(sh, root, order) && (n != null ==> n in sh)
    ensures n != null ==> 0 <= sh[n].lo <= sh[n].hi <= |order|
    ensures InOrder(Abstract(sh, root, order, n)) == if n == null then [] else order[sh[n].lo..sh[n].hi]
    decreases if n == null then 0 else 1 + sh[n].hi - sh[n].lo
  {
    hide Linked;
    if n != null {
      NodePart(sh, root, order, n);
      AbstractOrder(sh, root, order, sh[n].left);
      AbstractOrder(sh, root, order, sh[n].right);
      var c := sh[n];
      assert order[c.lo..c.hi] == order[c.lo..c.idx] + [n] + order[c.idx + 1..c.hi];
    }
  }
}
