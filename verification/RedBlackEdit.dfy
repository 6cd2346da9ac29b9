// Hanging a new leaf into a red-black tree and taking a node out of it, before the colours are repaired.
module RedBlackEdit {
  import opened Ordering
  import opened RedBlackShape
  import opened RedBlackColor

  // ---- adding a leaf -------------------------------------------------------

  // The cell after an element has been put at position k of the order. A span ending or starting
  // at k grows to take the element in exactly when `left` says which side of k it hangs on.
  ghost function Shifted(c: Cell, k: int, left: bool): Cell {
    c.(idx := if c.idx >= k then c.idx + 1 else c.idx,
       lo := if c.lo > k || (c.lo == k && !left) then c.lo + 1 else c.lo,
       hi := if c.hi > k || (c.hi == k && !left) then c.hi + 1 else c.hi)
  }

  ghost predicate LeafAdded(sh: Shape, p: Node?, left: bool, x: Node, k: int, r: Shape) {
    && x !in sh && r.Keys == sh.Keys + {x} && (p != null ==> p in sh)
    && r[x] == Cell(null, null, p, k, k, k + 1)
    && (p != null ==> r[p] == if left then Shifted(sh[p], k, left).(left := x)
      else Shifted(sh[p], k, left).(right := x))
    && forall n {:trigger r[n]} | n in sh && n != p :: r[n] == Shifted(sh[n], k, left)
  }

  // Where a leaf may hang: an empty link of p, at position k of the order.
  ghost predicate Gap(sh: Shape, root: Node?, p: Node?, left: bool, k: int) {
    && (p == null ==> root == null && k == 0)
    && (p != null ==> p in sh && (if left then sh[p].left == null && k == sh[p].idx
      else sh[p].right == null && k == sh[p].idx + 1))
  }

  lemma LeafAt(sh: Shape, root: Node?, order: seq<Node>, p: Node, left: bool, x: Node, k: int, r: Shape, o: seq<Node>,
      n: Node)
    requires LeafAdded(sh, p, left, x, k, r) && Gap(sh, root, p, left, k) && root != null && PutAt(order, k, x, o)
    requires LinkedAt(sh, root, order, p)
    requires n in sh && LinkedAt(sh, root, order, n)
    ensures LinkedAt(r, root, o, n)
  {
    if n == p {
    } else {
      assert sh[n].idx != sh[p].idx;
      if sh[n].left == p {
      } else if sh[n].right == p {
      } else if sh[n].parent == p {
      } else {
      }
    }
  }

  lemma LeafRoot(sh: Shape, order: seq<Node>, x: Node, r: Shape)
    requires Linked(sh, null, order) && LeafAdded(sh, null, false, x, 0, r)
    ensures Linked(r, x, [x])
  {
    assert forall n | n in sh :: !LinkedAt(sh, null, order, n);
    assert LinkedAt(r, x, [x], x);
  }

  lemma LeafLinked(sh: Shape, root: Node, order: seq<Node>, p: Node, left: bool, x: Node, k: int, r: Shape,
      o: seq<Node>)
    requires Linked(sh, root, order) && LeafAdded(sh, p, left, x, k, r) && Gap(sh, root, p, left, k)
      && PutAt(order, k, x, o)
    ensures Linked(r, root, o)
  {
    assert LinkedAt(sh, root, order, p);
    forall n | n in r ensures LinkedAt(r, root, o, n) {
      if n != x {
        assert LinkedAt(sh, root, order, n);
        LeafAt(sh, root, order, p, left, x, k, r, o, n);
      }
    }
    assert sh[root].lo == 0 && sh[root].hi == |order|;
    forall i | 0 <= i < |o| ensures o[i] in r && r[o[i]].idx == i {
      if i != k {
        var n := if i < k then order[i] else order[i - 1];
        assert n in sh && o[i] == n;
      }
    }
  }

  // ---- taking out a node with at most one child ------------------------------

  ghost function Unshifted(c: Cell, k: int): Cell {
    c.(idx := if c.idx > k then c.idx - 1 else c.idx,
       lo := if c.lo > k then c.lo - 1 else c.lo,
       hi := if c.hi > k then c.hi - 1 else c.hi)
  }

  ghost predicate Spliced(sh: Shape, x: Node, c: Node?, p: Node?, k: int, r: Shape) {
    && x in sh && sh[x].idx == k && sh[x].parent == p && Kids(sh[x], c, null)
    && r.Keys == sh.Keys - {x} && c != x && p != x && (c != null ==> c in sh && c != p)
    && (p != null ==> p in sh && Kids(sh[p], x, Sibling(sh[p], x)))
    && (c != null ==> r[c] == Unshifted(sh[c], k).(parent := p))
    && (p != null ==> r[p] == if sh[p].left == x then Unshifted(sh[p], k).(left := c)
      else Unshifted(sh[p], k).(right := c))
    && forall n {:trigger r[n]} | n in sh && n != x && n != c && n != p :: r[n] == Unshifted(sh[n], k)
  }

  lemma SpliceSpanAt(sh: Shape, order: seq<Node>, x: Node, c: Node?, p: Node?, k: int, r: Shape, o: seq<Node>,
      n: Node)
    requires Spliced(sh, x, c, p, k, r) && CutAt(order, k, o) && SpanAt(sh, order, x)
    requires n in r && SpanAt(sh, order, n)
    ensures sh[n].idx != k && SpanAt(r, o, n)
  {
  }

  lemma SpliceLeftAt(sh: Shape, order: seq<Node>, x: Node, c: Node?, p: Node?, k: int, r: Shape, n: Node)
    requires Spliced(sh, x, c, p, k, r) && SpanAt(sh, order, x) && LeftAt(sh, x) && RightAt(sh, x)
    requires n in r && SpanAt(sh, order, n) && LeftAt(sh, n) && sh[n].idx != k
    requires sh[n].left != null ==> SpanAt(sh, order, sh[n].left)
    ensures LeftAt(r, n)
  {
    var l := sh[n].left;
    if l == x {
    } else if l == null {
    } else if l == p {
    } else {
    }
  }

  lemma SpliceRightAt(sh: Shape, order: seq<Node>, x: Node, c: Node?, p: Node?, k: int, r: Shape, n: Node)
    requires Spliced(sh, x, c, p, k, r) && SpanAt(sh, order, x) && LeftAt(sh, x) && RightAt(sh, x)
    requires n in r && SpanAt(sh, order, n) && LeftAt(sh, n) && RightAt(sh, n) && sh[n].idx != k
    requires sh[n].right != null ==> SpanAt(sh, order, sh[n].right)
    ensures RightAt(r, n)
  {
    var l := sh[n].right;
    if l == x {
    } else if l == null {
    } else if l == p {
    } else {
    }
  }

  lemma SpliceParentAt(sh: Shape, root: Node?, x: Node, c: Node?, p: Node?, k: int, r: Shape, n: Node)
    requires Spliced(sh, x, c, p, k, r) && ParentAt(sh, root, x) && LeftAt(sh, x) && RightAt(sh, x)
    requires n in r && ParentAt(sh, root, n)
    ensures ParentAt(r, if p == null then c else root, n)
  {
  }

  lemma SpliceLinked(sh: Shape, root: Node?, order: seq<Node>, x: Node, c: Node?, p: Node?, k: int, r: Shape,
      o: seq<Node>)
    requires Linked(sh, root, order) && Spliced(sh, x, c, p, k, r) && CutAt(order, k, o)
    ensures Linked(r, if p == null then c else root, o)
  {
    assert LinkedAt(sh, root, order, x);
    var root' := if p == null then c else root;
    forall n | n in r ensures LinkedAt(r, root', o, n) {
      assert LinkedAt(sh, root, order, n);
      if sh[n].left != null { assert LinkedAt(sh, root, order, sh[n].left); }
      if sh[n].right != null { assert LinkedAt(sh, root, order, sh[n].right); }
      SpliceSpanAt(sh, order, x, c, p, k, r, o, n);
      SpliceLeftAt(sh, order, x, c, p, k, r, n);
      SpliceRightAt(sh, order, x, c, p, k, r, n);
      SpliceParentAt(sh, root, x, c, p, k, r, n);
    }
    SpliceEnds(sh, root, order, x, c, p, k, r, o);
  }

  lemma SpliceEnds(sh: Shape, root: Node?, order: seq<Node>, x: Node, c: Node?, p: Node?, k: int, r: Shape,
      o: seq<Node>)
    requires Linked(sh, root, order) && Spliced(sh, x, c, p, k, r) && CutAt(order, k, o)
    ensures var root' := if p == null then c else root;
      (root' == null <==> o == []) && (root' != null ==> root' in r && r[root'].lo == 0 && r[root'].hi == |o|)
    ensures forall i | 0 <= i < |o| :: o[i] in r && r[o[i]].idx == i
  {
    assert LinkedAt(sh, root, order, x);
    if p != null {
      assert LinkedAt(sh, root, order, root);
    }
    forall i | 0 <= i < |o| ensures o[i] in r && r[o[i]].idx == i {
      var n := if i < k then order[i] else order[i + 1];
      assert n in sh && o[i] == n && sh[n].idx != k;
    }
  }

  // ---- exchanging two nodes -------------------------------------------------

  ghost function Other(x: Node, y: Node, n: Node?): Node? {
    if n == x then y else if n == y then x else n
  }

  ghost function OtherCell(x: Node, y: Node, c: Cell): Cell {
    c.(left := Other(x, y, c.left), right := Other(x, y, c.right), parent := Other(x, y, c.parent))
  }

  // x and y have changed places: every link and every position that named one names the other.
  ghost predicate Exchanged(sh: Shape, pt: Paints, x: Node, y: Node, r: Shape, rt: Paints) {
    && x in sh && y in sh && x != y && pt.Keys == sh.Keys && r.Keys == sh.Keys && rt.Keys == sh.Keys
    && r[x] == OtherCell(x, y, sh[y]) && r[y] == OtherCell(x, y, sh[x]) && rt[x] == pt[y] && rt[y] == pt[x]
    && (forall n {:trigger r[n]} | n in sh && n != x && n != y :: r[n] == OtherCell(x, y, sh[n]))
    && (forall n {:trigger rt[n]} | n in sh && n != x && n != y :: rt[n] == pt[n])
  }

  ghost predicate ExchangedOrder(order: seq<Node>, x: Node, y: Node, o: seq<Node>) {
    |o| == |order| && forall i | 0 <= i < |o| :: o[i] == Other(x, y, order[i])
  }

  lemma ExchangeCell(sh: Shape, pt: Paints, x: Node, y: Node, r: Shape, rt: Paints, n: Node)
    requires Exchanged(sh, pt, x, y, r, rt) && n in sh
    ensures Other(x, y, n) in sh && r[Other(x, y, n)] == OtherCell(x, y, sh[n]) && rt[Other(x, y, n)] == pt[n]
  {
  }

  lemma ExchangeLinks(sh: Shape, pt: Paints, root: Node?, x: Node, y: Node, r: Shape, rt: Paints, n: Node)
    requires Exchanged(sh, pt, x, y, r, rt) && n in sh && Other(x, y, n) in r
    requires LeftAt(sh, n) && RightAt(sh, n) && ParentAt(sh, root, n)
    ensures LeftAt(r, Other(x, y, n)) && RightAt(r, Other(x, y, n)) && ParentAt(r, Other(x, y, root), Other(x, y, n))
  {
    ExchangeCell(sh, pt, x, y, r, rt, n);
    if sh[n].left != null { ExchangeCell(sh, pt, x, y, r, rt, sh[n].left); }
    if sh[n].right != null { ExchangeCell(sh, pt, x, y, r, rt, sh[n].right); }
    if sh[n].parent != null { ExchangeCell(sh, pt, x, y, r, rt, sh[n].parent); }
  }

  lemma ExchangePaints(sh: Shape, pt: Paints, x: Node, y: Node, r: Shape, rt: Paints, n: Node)
    requires Exchanged(sh, pt, x, y, r, rt) && n in sh && Other(x, y, n) in r && Parented(sh, n)
    requires Balanced(sh, pt, n) && RedOk(sh, pt, n, null)
    ensures Balanced(r, rt, Other(x, y, n)) && RedOk(r, rt, Other(x, y, n), null)
  {
    ExchangeCell(sh, pt, x, y, r, rt, n);
    if sh[n].left != null { ExchangeCell(sh, pt, x, y, r, rt, sh[n].left); }
    if sh[n].right != null { ExchangeCell(sh, pt, x, y, r, rt, sh[n].right); }
  }

  lemma ExchangeKeeps(sh: Shape, pt: Paints, root: Node?, order: seq<Node>, x: Node, y: Node, r: Shape, rt: Paints,
      o: seq<Node>)
    requires RedBlack(sh, pt, root, order) && Exchanged(sh, pt, x, y, r, rt) && ExchangedOrder(order, x, y, o)
    ensures RedBlack(r, rt, Other(x, y, root), o)
  {
    forall n | n in r ensures LinkedAt(r, Other(x, y, root), o, n) && Balanced(r, rt, n) && RedOk(r, rt, n, null) {
      var m: Node := Other(x, y, n);
      ExchangeCell(sh, pt, x, y, r, rt, m);
      LinkedParented(sh, root, order, m);
      assert LinkedAt(sh, root, order, m) && Balanced(sh, pt, m) && RedOk(sh, pt, m, null);
      ExchangeLinks(sh, pt, root, x, y, r, rt, m);
      ExchangePaints(sh, pt, x, y, r, rt, m);
    }
    forall i | 0 <= i < |o| ensures o[i] in r && r[o[i]].idx == i {
      assert order[i] in sh;
      ExchangeCell(sh, pt, x, y, r, rt, order[i]);
    }
    if root != null {
      ExchangeCell(sh, pt, x, y, r, rt, root);
    }
  }

  // ---- colours after an edit -------------------------------------------------

  lemma SpliceColorAt(sh: Shape, pt: Paints, x: Node, c: Node?, p: Node?, k: int, r: Shape, rt: Paints, n: Node)
    requires Spliced(sh, x, c, p, k, r) && pt.Keys == sh.Keys && rt == pt - {x}
    requires Balanced(sh, pt, x) && RedOk(sh, pt, x, null) && (c != null ==> Balanced(sh, pt, c)) && Parented(sh, x)
    requires n in r && Parented(sh, n) && Balanced(sh, pt, n) && RedOk(sh, pt, n, null)
    ensures pt[x].color == Red ==> Balanced(r, rt, n) && RedOk(r, rt, n, null)
    ensures pt[x].color == Black ==> n != c ==> RedOk(r, rt, n, c)
    ensures pt[x].color == Black ==> if n == p then Short(r, rt, n, c) else Balanced(r, rt, n)
  {
    if n == p {
    } else if n == c {
    } else {
    }
  }

  lemma SpliceColors(sh: Shape, pt: Paints, root: Node?, order: seq<Node>, x: Node, c: Node?, p: Node?, k: int,
      r: Shape, rt: Paints, o: seq<Node>)
    requires RedBlack(sh, pt, root, order) && Spliced(sh, x, c, p, k, r) && CutAt(order, k, o) && rt == pt - {x}
    ensures pt[x].color == Red ==> RedBlack(r, rt, if p == null then c else root, o)
    ensures pt[x].color == Black ==> Removing(r, rt, if p == null then c else root, o, p, c)
  {
    SpliceLinked(sh, root, order, x, c, p, k, r, o);
    assert Balanced(sh, pt, x) && RedOk(sh, pt, x, null);
    LinkedParented(sh, root, order, x);
    assert ParentAt(sh, root, x) by { assert LinkedAt(sh, root, order, x); }
    if c != null {
      assert Balanced(sh, pt, c);
    }
    forall n | n in r
      ensures pt[x].color == Red ==> Balanced(r, rt, n) && RedOk(r, rt, n, null)
      ensures pt[x].color == Black ==> n != c ==> RedOk(r, rt, n, c)
      ensures pt[x].color == Black ==> if n == p then Short(r, rt, n, c) else Balanced(r, rt, n)
    {
      LinkedParented(sh, root, order, n);
      assert Balanced(sh, pt, n) && RedOk(sh, pt, n, null);
      SpliceColorAt(sh, pt, x, c, p, k, r, rt, n);
    }
  }

  lemma LeafColors(sh: Shape, pt: Paints, root: Node?, order: seq<Node>, p: Node?, left: bool, x: Node, k: int,
      r: Shape, rt: Paints, o: seq<Node>)
    requires RedBlack(sh, pt, root, order) && LeafAdded(sh, p, left, x, k, r) && Gap(sh, root, p, left, k)
    requires rt == pt[x := Paint(Red, 0)]
    requires Linked(r, if p == null then x else root, o)
    ensures Inserting(r, rt, if p == null then x else root, o, x)
  {
    forall n | n in r ensures Balanced(r, rt, n) && RedOk(r, rt, n, x) {
      if n != x {
        LinkedParented(sh, root, order, n);
        assert Balanced(sh, pt, n) && RedOk(sh, pt, n, null);
      }
    }
  }

  // ---- what the pointer code of a removal does to the links -------------------

  // The links after y, the leftmost node below the right child of x, has taken the place of x.
  ghost predicate Replaced(sh: Shape, x: Node, y: Node, r: Shape) {
    && x in sh && y in sh && r.Keys == sh.Keys - {x} && x != y
    && r[y].left == sh[x].left && r[y].right == (if sh[y].parent == x then sh[y].right else sh[x].right)
      && r[y].parent == sh[x].parent
    && forall n {:trigger ReplacedAt(sh, x, y, r, n)} | n in r && n != y :: ReplacedAt(sh, x, y, r, n)
  }

  // y is the leftmost node below the right child of x, and x has a left child too.
  ghost predicate Successor(sh: Shape, x: Node, y: Node) {
    && x in sh && y in sh && sh[x].left != null && sh[x].right != null && sh[x].left in sh && sh[x].right in sh
    && sh[y].left == null && sh[y].idx == sh[x].idx + 1 && sh[y].lo == sh[y].idx
    && sh[y].parent != null && sh[y].parent in sh
    && (sh[y].right != null ==> sh[y].right in sh)
    && (sh[x].parent != null ==> sh[x].parent in sh)
  }

  ghost function ExchangeShape(sh: Shape, x: Node, y: Node): Shape
    requires x in sh && y in sh
  {
    map n | n in sh :: OtherCell(x, y, if n == x then sh[y] else if n == y then sh[x] else sh[n])
  }

  ghost function ExchangePaint(pt: Paints, x: Node, y: Node): Paints
    requires x in pt && y in pt
  {
    pt[x := pt[y]][y := pt[x]]
  }

  ghost function SpliceShape(sh: Shape, x: Node, c: Node?, p: Node?): Shape
    requires x in sh
  {
    var k := sh[x].idx;
    map n | n in sh && n != x ::
      var d := Unshifted(sh[n], k);
      if n == c then d.(parent := p)
      else if n == p then (if sh[p].left == x then d.(left := c) else d.(right := c))
      else d
  }

  lemma SpliceReady(sh: Shape, root: Node?, order: seq<Node>, x: Node, c: Node?)
    requires Linked(sh, root, order) && x in sh && Kids(sh[x], c, null)
    ensures Spliced(sh, x, c, sh[x].parent, sh[x].idx, SpliceShape(sh, x, c, sh[x].parent))
    ensures 0 <= sh[x].idx < |order| && order[sh[x].idx] == x
  {
    Neighbours(sh, root, order, x);
    if c != null {
      Neighbours(sh, root, order, c);
    }
    if sh[x].parent != null {
      LinkedParented(sh, root, order, sh[x].parent);
    }
  }

  // How x and its successor y lie relative to each other and to their neighbours.
  ghost predicate Apart(sh: Shape, x: Node, y: Node)
    requires Successor(sh, x, y)
  {
    && x != y && sh[x].left != y && sh[x].left != x && sh[x].right != x && sh[x].parent != x && sh[x].parent != y
    && sh[y].right != x && sh[y].right != y && sh[y].parent != y
    && (var q := sh[y].parent; if q == x then sh[x].right == y
      else sh[q].left == y && sh[q].right != y && sh[x].right != y)
    && sh[y].parent != sh[x].parent && sh[y].parent != sh[x].left
    && (sh[x].parent != null ==> if sh[sh[x].parent].left == x then sh[sh[x].parent].right != x
      else sh[sh[x].parent].right == x)
    && sh[sh[x].left].parent == x && sh[sh[x].right].parent == x
      && (sh[y].right != null ==> sh[sh[y].right].parent == y)
    && (sh[y].right != null ==> sh[y].right != sh[x].parent && sh[y].right != sh[y].parent)
    && sh[x].left != sh[x].right && sh[x].parent != sh[x].left && sh[x].parent != sh[x].right
  }

  lemma SuccessorApart(sh: Shape, root: Node?, order: seq<Node>, x: Node, y: Node)
    requires Linked(sh, root, order) && Successor(sh, x, y)
    ensures Apart(sh, x, y)
  {
    Neighbours(sh, root, order, x);
    Neighbours(sh, root, order, y);
    Neighbours(sh, root, order, sh[y].parent);
    Neighbours(sh, root, order, sh[x].left);
    if sh[x].parent != null {
      Neighbours(sh, root, order, sh[x].parent);
    }
  }

  lemma LinkedParent(sh: Shape, root: Node?, order: seq<Node>, n: Node)
    requires Linked(sh, root, order) && n in sh
    ensures ParentAt(sh, root, n)
  {
    assert LinkedAt(sh, root, order, n);
  }

  // The new links of one node other than y.
  ghost predicate ReplacedAt(sh: Shape, x: Node, y: Node, r: Shape, n: Node)
    requires x in sh && y in sh && n in sh && n in r
  {
    && r[n].left == (if n == sh[x].parent && sh[n].left == x then y
      else if n == sh[y].parent then sh[y].right else sh[n].left)
    && r[n].right == (if n == sh[x].parent && sh[n].left != x then y else sh[n].right)
    && r[n].parent == (if n == sh[x].left || n == sh[x].right then y
                       else if n == sh[y].right then (if sh[y].parent == x then y else sh[y].parent)
                       else sh[n].parent)
  }

  lemma ReplaceLinksAt(sh: Shape, pt: Paints, root: Node?, x: Node, y: Node, ex: Shape, ept: Paints, c: Node?,
      p: Node?, k: int, r: Shape, n: Node)
    requires Successor(sh, x, y) && Apart(sh, x, y) && Exchanged(sh, pt, x, y, ex, ept)
    requires c == sh[y].right && p == (if sh[y].parent == x then y else sh[y].parent)
    requires Spliced(ex, x, c, p, k, r)
    requires n in r && n != y && Parented(sh, n) && ParentAt(sh, root, n)
    ensures ReplacedAt(sh, x, y, r, n)
  {
    if n == p {
    } else if n == c {
    } else {
      assert r[n] == Unshifted(ex[n], k);
    }
  }

  lemma ReplaceLinks(sh: Shape, pt: Paints, root: Node?, order: seq<Node>, x: Node, y: Node, ex: Shape, ept: Paints,
      c: Node?, p: Node?, k: int, r: Shape)
    requires Linked(sh, root, order) && Successor(sh, x, y)
    requires Exchanged(sh, pt, x, y, ex, ept)
    requires c == sh[y].right && p == (if sh[y].parent == x then y else sh[y].parent)
    requires Spliced(ex, x, c, p, k, r)
    ensures Replaced(sh, x, y, r)
  {
    hide Linked;
    SuccessorApart(sh, root, order, x, y);
    forall n | n in r && n != y ensures ReplacedAt(sh, x, y, r, n) {
      LinkedParented(sh, root, order, n);
      LinkedParent(sh, root, order, n);
      ReplaceLinksAt(sh, pt, root, x, y, ex, ept, c, p, k, r, n);
    }
  }

  // Everything a removal of a node with at most one child needs.
  lemma RemoveOne(sh: Shape, pt: Paints, root: Node?, order: seq<Node>, x: Node, c: Node?) returns (r: Shape, k: int)
    requires RedBlack(sh, pt, root, order) && x in sh && Kids(sh[x], c, null)
    ensures Spliced(sh, x, c, sh[x].parent, k, r) && k == sh[x].idx
    ensures 0 <= k < |order| && order[k] == x && (sh[x].parent == null <==> x == root)
    ensures var o := order[..k] + order[k + 1..]; var root' := if sh[x].parent == null then c else root;
      && (pt[x].color == Red ==> RedBlack(r, pt - {x}, root', o))
      && (pt[x].color == Black ==> Removing(r, pt - {x}, root', o, sh[x].parent, c))
  {
    k := sh[x].idx;
    SpliceReady(sh, root, order, x, c);
    r := SpliceShape(sh, x, c, sh[x].parent);
    SpliceColors(sh, pt, root, order, x, c, sh[x].parent, k, r, pt - {x}, order[..k] + order[k + 1..]);
    LinkedParent(sh, root, order, x);
  }

  lemma ExchangeReady(sh: Shape, pt: Paints, x: Node, y: Node)
    requires x in sh && y in sh && x != y && pt.Keys == sh.Keys
    ensures Exchanged(sh, pt, x, y, ExchangeShape(sh, x, y), ExchangePaint(pt, x, y))
  {
  }

  // Everything a removal of a node with two children needs; y is its successor.
  lemma RemoveTwo(sh: Shape, pt: Paints, root: Node?, order: seq<Node>, x: Node, y: Node) returns (r: Shape, k: int)
    requires RedBlack(sh, pt, root, order) && Successor(sh, x, y)
    ensures Apart(sh, x, y) && Replaced(sh, x, y, r) && k == sh[x].idx
    ensures 0 <= k < |order| && order[k] == x && (sh[x].parent == null <==> x == root)
    ensures var o := order[..k] + order[k + 1..]; var root' := if x == root then y else root;
      var rt := pt[y := pt[x]] - {x}; var p := if sh[y].parent == x then y else sh[y].parent;
      && (pt[y].color == Red ==> RedBlack(r, rt, root', o))
      && (pt[y].color == Black ==> Removing(r, rt, root', o, p, sh[y].right))
  {
    hide Linked, Balanced, RedOk, Exchanged;
    k := sh[x].idx;
    SuccessorApart(sh, root, order, x, y);
    LinkedParent(sh, root, order, x);
    LinkedParent(sh, root, order, y);
    var ex, ept := ExchangeShape(sh, x, y), ExchangePaint(pt, x, y);
    ExchangeReady(sh, pt, x, y);
    SuccessorOrder(sh, root, order, x, y);
    var eo := order[k := y][k + 1 := x];
    ExchangeKeeps(sh, pt, root, order, x, y, ex, ept, eo);
    r, k := RemoveOne(ex, ept, Other(x, y, root), eo, x, sh[y].right);
    ReplaceLinks(sh, pt, root, order, x, y, ex, ept, sh[y].right, ex[x].parent, k, r);
    assert eo[..k] + eo[k + 1..] == order[..k - 1] + order[k..];
    assert ept - {x} == pt[y := pt[x]] - {x};
    k := k - 1;
  }

  lemma SuccessorOrder(sh: Shape, root: Node?, order: seq<Node>, x: Node, y: Node)
    requires Linked(sh, root, order) && Successor(sh, x, y)
    ensures var k := sh[x].idx; (0 <= k < |order| - 1 && order[k] == x && order[k + 1] == y
      && ExchangedOrder(order, x, y, order[k := y][k + 1 := x]))
  {
    assert LinkedAt(sh, root, order, x);
    assert LinkedAt(sh, root, order, y);
    var k := sh[x].idx;
    forall i | 0 <= i < |order| && i != k && i != k + 1 ensures order[i] != x && order[i] != y {
      assert sh[order[i]].idx == i;
    }
  }

  lemma SplicedKeys(sh: Shape, x: Node, c: Node?, p: Node?, k: int, r: Shape)
    requires Spliced(sh, x, c, p, k, r)
    ensures r.Keys == sh.Keys - {x}
  {
  }

  lemma ReplacedKeys(sh: Shape, x: Node, y: Node, r: Shape)
    requires Replaced(sh, x, y, r)
    ensures r.Keys == sh.Keys - {x}
  {
  }

  ghost function LeafShape(sh: Shape, p: Node?, left: bool, x: Node, k: int): Shape {
    map n | n in sh.Keys + {x} ::
      if n == x then Cell(null, null, p, k, k, k + 1)
      else
        var d := Shifted(sh[n], k, left);
        if n == p then (if left then d.(left := x) else d.(right := x)) else d
  }

  // Everything an insertion below p needs.
  lemma InsertOne(sh: Shape, pt: Paints, root: Node?, order: seq<Node>, x: Node, p: Node?, left: bool, k: int)
    returns (r: Shape, o: seq<Node>)
    requires RedBlack(sh, pt, root, order) && x !in sh && Gap(sh, root, p, left, k) && 0 <= k <= |order|
      && (p == null ==> !left)
    ensures LeafAdded(sh, p, left, x, k, r) && r.Keys == sh.Keys + {x} && PutAt(order, k, x, o)
    ensures Inserting(r, pt[x := Paint(Red, 0)], if p == null then x else root, o, x)
    ensures forall i | 0 <= i < |order| :: order[i] in sh
  {
    r := LeafShape(sh, p, left, x, k);
    o := order[..k] + [x] + order[k..];
    if p == null {
      LeafRoot(sh, order, x, r);
      assert o == [x];
    } else {
      assert root != null by { assert LinkedAt(sh, root, order, p); }
      LeafLinked(sh, root, order, p, left, x, k, r, o);
    }
    LeafColors(sh, pt, root, order, p, left, x, k, r, pt[x := Paint(Red, 0)], o);
  }

  lemma RootKnown(sh: Shape, root: Node?, order: seq<Node>)
    requires Linked(sh, root, order)
    ensures root == null <==> order == []
    ensures root != null ==> root in sh && sh[root].lo == 0 && sh[root].hi == |order|
    ensures forall i | 0 <= i < |order| :: order[i] in sh && sh[order[i]].idx == i
  {
  }
}
