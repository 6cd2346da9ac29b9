// The RB macros: the tree in memory, whose links and colours mirror a shape and its paint.
module RedBlackTree {
  import opened Arithmetic
  import opened Ordering
  import opened RedBlackShape
  import opened RedBlackColor
  import opened RedBlackEdit
  import opened RedBlackTheory

  class Head {
    var root: Node?
    ghost var order: seq<Node>
    ghost var sh: Shape
    ghost var pt: Paints

    ghost predicate Mirrors(sh: Shape)
      reads sh.Keys
    {
      forall n {:trigger sh[n]} | n in sh :: n.left == sh[n].left && n.right == sh[n].right
        && n.parent == sh[n].parent
    }

    ghost predicate Colored(pt: Paints)
      reads pt.Keys
    {
      forall n {:trigger pt[n]} | n in pt :: n.color == pt[n].color
    }

    ghost predicate Valid()
      reads this, sh.Keys, pt.Keys
    {
      Mirrors(sh) && Colored(pt) && RedBlack(sh, pt, root, order)
    }

    // RB_INIT
    constructor ()
      ensures Valid() && sh.Keys == {} && order == []
    {
      root, sh, pt, order := null, map[], map[], [];
    }

    method RotateLeftLinks(elm: Node, ghost r: Shape) returns (tmp: Node)
      requires Mirrors(sh) && elm in sh && sh[elm].right != null && sh[elm].right in sh
      requires var y := sh[elm].right; var c := sh[y].left; var p := sh[elm].parent;
        && RotatedLeft(sh, elm, y, c, p, r)
        && elm != y && c != elm && c != y && p != elm && p != y && (c == null || c != p)
      modifies this`root, sh.Keys`left, sh.Keys`right, sh.Keys`parent
      ensures tmp == sh[elm].right
      ensures root == if sh[elm].parent == null then tmp else old(root)
      ensures Mirrors(r)
    {
      tmp := elm.right;
      ghost var c, p := sh[tmp].left, sh[elm].parent;
      assert c == tmp.left && p == elm.parent;
      elm.right := tmp.left;
      if elm.right != null {
        tmp.left.parent := elm;
      }
      tmp.parent := elm.parent;
      if tmp.parent != null {
        if elm == elm.parent.left {
          elm.parent.left := tmp;
        } else {
          elm.parent.right := tmp;
        }
      } else {
        root := tmp;
      }
      tmp.left := elm;
      elm.parent := tmp;
      forall n | n in r
        ensures n.left == r[n].left && n.right == r[n].right && n.parent == r[n].parent
      {
        if n == elm {
        } else if n == tmp {
        } else if n == c {
        } else if n == p {
        }
      }
    }

    method RotateLeft(elm: Node) returns (tmp: Node)
      requires Mirrors(sh) && Linked(sh, root, order) && elm in sh && elm.right != null
      requires pt.Keys == sh.Keys && Colored(pt)
      modifies this`root, this`sh, sh.Keys`left, sh.Keys`right, sh.Keys`parent
      ensures tmp == old(elm.right) && tmp in old(sh)
      ensures Turned(old(sh), elm, tmp, old(elm.left), old(tmp.left), old(tmp.right), old(elm.parent), sh)
      ensures elm.left == old(elm.left) && elm.right == old(tmp.left) && tmp.left == elm
        && tmp.right == old(tmp.right)
      ensures sh[elm].parent == tmp && sh[tmp].parent == old(elm.parent)
      ensures var p := old(elm.parent); p != null ==>
        p.left == (if old(p.left) == elm then tmp else old(p.left))
          && p.right == (if old(p.left) == elm then old(p.right) else tmp)
      ensures root == if elm == old(root) then tmp else old(root)
      ensures Mirrors(sh) && Linked(sh, root, order) && Colored(pt)
    {
      ghost var y, r := TurnLeft(sh, root, order, elm);
      tmp := RotateLeftLinks(elm, r);
      sh := r;
    }

    method RotateRightLinks(elm: Node, ghost r: Shape) returns (tmp: Node)
      requires Mirrors(sh) && elm in sh && sh[elm].left != null && sh[elm].left in sh
      requires var y := sh[elm].left; var c := sh[y].right; var p := sh[elm].parent;
        && RotatedRight(sh, elm, y, c, p, r)
        && elm != y && c != elm && c != y && p != elm && p != y && (c == null || c != p)
      modifies this`root, sh.Keys`right, sh.Keys`left, sh.Keys`parent
      ensures tmp == sh[elm].left
      ensures root == if sh[elm].parent == null then tmp else old(root)
      ensures Mirrors(r)
    {
      tmp := elm.left;
      ghost var c, p := sh[tmp].right, sh[elm].parent;
      assert c == tmp.right && p == elm.parent;
      elm.left := tmp.right;
      if elm.left != null {
        tmp.right.parent := elm;
      }
      tmp.parent := elm.parent;
      if tmp.parent != null {
        if elm == elm.parent.left {
          elm.parent.left := tmp;
        } else {
          elm.parent.right := tmp;
        }
      } else {
        root := tmp;
      }
      tmp.right := elm;
      elm.parent := tmp;
      forall n | n in r
        ensures n.right == r[n].right && n.left == r[n].left && n.parent == r[n].parent
      {
        if n == elm {
        } else if n == tmp {
        } else if n == c {
        } else if n == p {
        }
      }
    }

    method RotateRight(elm: Node) returns (tmp: Node)
      requires Mirrors(sh) && Linked(sh, root, order) && elm in sh && elm.left != null
      requires pt.Keys == sh.Keys && Colored(pt)
      modifies this`root, this`sh, sh.Keys`right, sh.Keys`left, sh.Keys`parent
      ensures tmp == old(elm.left) && tmp in old(sh)
      ensures Turned(old(sh), elm, tmp, old(elm.right), old(tmp.right), old(tmp.left), old(elm.parent), sh)
      ensures elm.right == old(elm.right) && elm.left == old(tmp.right) && tmp.right == elm
        && tmp.left == old(tmp.left)
      ensures sh[elm].parent == tmp && sh[tmp].parent == old(elm.parent)
      ensures var p := old(elm.parent); p != null ==>
        p.left == (if old(p.left) == elm then tmp else old(p.left))
          && p.right == (if old(p.left) == elm then old(p.right) else tmp)
      ensures root == if elm == old(root) then tmp else old(root)
      ensures Mirrors(sh) && Linked(sh, root, order) && Colored(pt)
    {
      ghost var y, r := TurnRight(sh, root, order, elm);
      tmp := RotateRightLinks(elm, r);
      sh := r;
    }

    // RB_SET_BLACKRED; the ghost arguments are the new black heights.
    method SetBlackRed(black: Node, red: Node, ghost bb: int, ghost rb: int)
      requires black in pt && red in pt && black != red && Colored(pt) && Mirrors(sh)
      modifies this`pt, black`color, red`color
      ensures Colored(pt) && Mirrors(sh) && Repainted(old(pt), black, Paint(Black, bb), red, Paint(Red, rb), pt)
    {
      black.color := Black;
      red.color := Red;
      pt := pt[black := Paint(Black, bb)][red := Paint(Red, rb)];
    }

    method SetUncle(tmp: Node, parent: Node, gparent: Node)
      requires tmp in pt && parent in pt && gparent in pt && tmp != parent && tmp != gparent && parent != gparent
      requires Colored(pt) && Mirrors(sh)
      modifies this`pt, tmp`color, parent`color, gparent`color
      ensures Colored(pt) && Mirrors(sh) && Recolored(old(pt), parent, gparent, tmp, pt)
    {
      ghost var pt0 := pt;
      tmp.color := Black;
      pt := pt[tmp := Paint(Black, pt[tmp].bh + 1)];
      SetBlackRed(parent, gparent, pt0[parent].bh + 1, pt0[gparent].bh);
    }

    // The pass of the insertion loop for a red uncle (either side).
    method InsertRecolor(e: Node, parent: Node, gparent: Node, tmp: Node)
      requires Mirrors(sh) && Colored(pt) && Inserting(sh, pt, root, order, e) && e in sh && parent in sh
        && gparent in sh
      requires sh[e].parent == parent && IsRed(pt, parent) && sh[parent].parent == gparent
      requires Kids(sh[gparent], parent, tmp) && IsRed(pt, tmp) && tmp != parent && tmp != gparent
        && parent != gparent
      modifies this`pt, sh.Keys`color
      ensures Mirrors(sh) && Colored(pt) && Inserting(sh, pt, root, order, gparent)
      ensures Todo(sh, pt, order, gparent) < old(Todo(sh, pt, order, e))
    {
      ghost var pt0 := pt;
      SetUncle(tmp, parent, gparent);
      RecolorUp(sh, pt0, root, order, e, parent, gparent, tmp, pt);
    }

    // The pass of the insertion loop for a parent that is a left child and a black uncle.
    method InsertLeft(e: Node, p: Node, gparent: Node) returns (elm: Node)
      requires Mirrors(sh) && Colored(pt) && Inserting(sh, pt, root, order, e) && e in sh && p in sh && gparent in sh
      requires sh[e].parent == p && IsRed(pt, p) && sh[p].parent == gparent && gparent.left == p
      requires !IsRed(pt, gparent.right) && (p.left == e || p.right == e) && p != gparent
      modifies this`root, this`sh, this`pt, sh.Keys
      ensures sh.Keys == old(sh.Keys) && elm in sh
      ensures Mirrors(sh) && Colored(pt) && Inserting(sh, pt, root, order, elm) && !IsRed(pt, sh[elm].parent)
    {
      elm := e;
      var parent := p;
      if parent.right == elm {
        elm, parent := InsertInnerLeft(elm, parent, gparent);
      }
      InsertOuterLeft(elm, parent, gparent);
    }

    method InsertInnerLeft(elm: Node, parent: Node, gparent: Node) returns (elm': Node, parent': Node)
      requires Mirrors(sh) && Colored(pt) && Inserting(sh, pt, root, order, elm) && elm in sh && parent in sh
        && gparent in sh
      requires sh[elm].parent == parent && IsRed(pt, parent) && sh[parent].parent == gparent && gparent.left == parent
      requires parent.right == elm && !IsRed(pt, gparent.right)
      modifies this`root, this`sh, sh.Keys`left, sh.Keys`right, sh.Keys`parent
      ensures sh.Keys == old(sh.Keys) && elm' == parent && parent' == elm
      ensures Mirrors(sh) && Colored(pt) && Inserting(sh, pt, root, order, elm')
      ensures sh[elm'].parent == parent' && IsRed(pt, parent') && sh[parent'].parent == gparent
        && gparent.left == parent'
      ensures parent'.left == elm' && !IsRed(pt, gparent.right) && parent' != gparent
    {
      ghost var sh0 := sh;
      Family(sh, root, order, gparent, parent);
      assert parent != root by { assert LinkedAt(sh, root, order, parent); }
      var tmp := RotateLeft(parent);
      Inner(sh0, pt, root, order, elm, parent, gparent, sh0[parent].left, sh0[elm].left, sh0[elm].right, sh);
      elm', parent' := parent, elm;
    }

    method InsertOuterLeft(elm: Node, parent: Node, gparent: Node)
      requires Mirrors(sh) && Colored(pt) && Inserting(sh, pt, root, order, elm) && elm in sh && parent in sh
        && gparent in sh
      requires sh[elm].parent == parent && IsRed(pt, parent) && sh[parent].parent == gparent && gparent.left == parent
      requires parent.left == elm && !IsRed(pt, gparent.right) && gparent != parent
      modifies this`root, this`sh, this`pt, sh.Keys
      ensures sh.Keys == old(sh.Keys) && Mirrors(sh) && Colored(pt)
      ensures Inserting(sh, pt, root, order, elm) && !IsRed(pt, sh[elm].parent)
    {
      ghost var sh0, pt0, root0 := sh, pt, root;
      assert gparent != parent;
      SetBlackRed(parent, gparent, pt0[gparent].bh, pt0[parent].bh);
      var tmp := RotateRight(gparent);
      Outer(sh0, pt0, root0, order, elm, parent, gparent, sh0[gparent].right, sh0[parent].right, sh0[gparent].parent,
        sh, pt);
    }

    // The pass of the insertion loop for a parent that is a right child and a black uncle.
    method InsertRight(e: Node, p: Node, gparent: Node) returns (elm: Node)
      requires Mirrors(sh) && Colored(pt) && Inserting(sh, pt, root, order, e) && e in sh && p in sh && gparent in sh
      requires sh[e].parent == p && IsRed(pt, p) && sh[p].parent == gparent && gparent.right == p
      requires !IsRed(pt, gparent.left) && (p.right == e || p.left == e) && p != gparent
      modifies this`root, this`sh, this`pt, sh.Keys
      ensures sh.Keys == old(sh.Keys) && elm in sh
      ensures Mirrors(sh) && Colored(pt) && Inserting(sh, pt, root, order, elm) && !IsRed(pt, sh[elm].parent)
    {
      elm := e;
      var parent := p;
      if parent.left == elm {
        elm, parent := InsertInnerRight(elm, parent, gparent);
      }
      InsertOuterRight(elm, parent, gparent);
    }

    method InsertInnerRight(elm: Node, parent: Node, gparent: Node) returns (elm': Node, parent': Node)
      requires Mirrors(sh) && Colored(pt) && Inserting(sh, pt, root, order, elm) && elm in sh && parent in sh
        && gparent in sh
      requires sh[elm].parent == parent && IsRed(pt, parent) && sh[parent].parent == gparent
        && gparent.right == parent
      requires parent.left == elm && !IsRed(pt, gparent.left)
      modifies this`root, this`sh, sh.Keys`right, sh.Keys`left, sh.Keys`parent
      ensures sh.Keys == old(sh.Keys) && elm' == parent && parent' == elm
      ensures Mirrors(sh) && Colored(pt) && Inserting(sh, pt, root, order, elm')
      ensures sh[elm'].parent == parent' && IsRed(pt, parent') && sh[parent'].parent == gparent
        && gparent.right == parent'
      ensures parent'.right == elm' && !IsRed(pt, gparent.left) && parent' != gparent
    {
      ghost var sh0 := sh;
      Family(sh, root, order, gparent, parent);
      assert parent != root by { assert LinkedAt(sh, root, order, parent); }
      var tmp := RotateRight(parent);
      Inner(sh0, pt, root, order, elm, parent, gparent, sh0[parent].right, sh0[elm].right, sh0[elm].left, sh);
      elm', parent' := parent, elm;
    }

    method InsertOuterRight(elm: Node, parent: Node, gparent: Node)
      requires Mirrors(sh) && Colored(pt) && Inserting(sh, pt, root, order, elm) && elm in sh && parent in sh
        && gparent in sh
      requires sh[elm].parent == parent && IsRed(pt, parent) && sh[parent].parent == gparent
        && gparent.right == parent
      requires parent.right == elm && !IsRed(pt, gparent.left) && gparent != parent
      modifies this`root, this`sh, this`pt, sh.Keys
      ensures sh.Keys == old(sh.Keys) && Mirrors(sh) && Colored(pt)
      ensures Inserting(sh, pt, root, order, elm) && !IsRed(pt, sh[elm].parent)
    {
      ghost var sh0, pt0, root0 := sh, pt, root;
      assert gparent != parent;
      SetBlackRed(parent, gparent, pt0[gparent].bh, pt0[parent].bh);
      var tmp := RotateLeft(gparent);
      Outer(sh0, pt0, root0, order, elm, parent, gparent, sh0[gparent].left, sh0[parent].left, sh0[gparent].parent, sh,
        pt);
    }

    // One pass of the insertion loop.
    method InsertPass(e: Node, parent: Node) returns (elm: Node)
      requires Mirrors(sh) && Colored(pt) && Inserting(sh, pt, root, order, e) && e in sh
      requires parent == sh[e].parent && IsRed(pt, parent)
      modifies this`root, this`sh, this`pt, sh.Keys
      ensures sh.Keys == old(sh.Keys) && elm in sh
      ensures Mirrors(sh) && Colored(pt) && Inserting(sh, pt, root, order, elm)
      ensures Todo(sh, pt, order, elm) < old(Todo(sh, pt, order, e))
    {
      Grandparent(sh, pt, root, order, e);
      var gparent := parent.parent;
      if parent == gparent.left {
        var tmp := gparent.right;
        if tmp != null && tmp.color == Red {
          InsertRecolor(e, parent, gparent, tmp);
          elm := gparent;
        } else {
          elm := InsertLeft(e, parent, gparent);
        }
      } else {
        var tmp := gparent.left;
        if tmp != null && tmp.color == Red {
          InsertRecolor(e, parent, gparent, tmp);
          elm := gparent;
        } else {
          elm := InsertRight(e, parent, gparent);
        }
      }
    }

    // The fields the loop of RB_INSERT_COLOR looks at.
    lemma ParentFields(e: Node)
      requires Mirrors(sh) && Colored(pt) && Inserting(sh, pt, root, order, e) && e in sh
      ensures e.parent == sh[e].parent && (e.parent != null
        ==> e.parent in pt && e.parent.color == pt[e.parent].color)
    {
      hide Inserting;
      ParentKnown(sh, pt, root, order, e);
    }

    // RB_INSERT_COLOR
    method InsertColor(e: Node)
      requires Mirrors(sh) && Colored(pt) && Inserting(sh, pt, root, order, e) && e in sh
      modifies this`root, this`sh, this`pt, sh.Keys
      ensures sh.Keys == old(sh.Keys) && Valid()
    {
      hide Inserting, RedBlack, Todo, Mirrors, Colored;
      var elm := e;
      ParentFields(elm);
      while elm.parent != null && elm.parent.color == Red
        invariant sh.Keys == old(sh.Keys) && elm in sh && elm.parent == sh[elm].parent
        invariant elm.parent != null ==> elm.parent in pt && elm.parent.color == pt[elm.parent].color
        invariant Mirrors(sh) && Colored(pt) && Inserting(sh, pt, root, order, elm)
        decreases Todo(sh, pt, order, elm)
      {
        ParentKnown(sh, pt, root, order, elm);
        elm := InsertPass(elm, elm.parent);
        ParentFields(elm);
      }
      ParentKnown(sh, pt, root, order, elm);
      ghost var pt0 := pt;
      PaintTop();
      PaintRoot(sh, pt0, root, order, elm, pt);
    }

    method PaintTop()
      requires root != null && root in pt && root in sh && Colored(pt) && Mirrors(sh)
      modifies this`pt, root`color
      ensures pt == old(pt)[root := Paint(Black, Height(old(pt), sh[root].left) + 1)] && Colored(pt) && Mirrors(sh)
    {
      root.color := Black;
      pt := pt[root := Paint(Black, Height(pt, sh[root].left) + 1)];
    }

    // Painting the sibling red and, in the ghost paint, shortening the parent.
    method SetSiblingRed(tmp: Node, parent: Node)
      requires tmp in pt && parent in pt && tmp != parent && Colored(pt) && Mirrors(sh)
      modifies this`pt, tmp`color
      ensures Colored(pt) && Mirrors(sh)
      ensures Repainted(old(pt), tmp, Paint(Red, old(pt)[tmp].bh - 1), parent,
        old(pt)[parent].(bh := old(pt)[parent].bh - 1), pt)
    {
      tmp.color := Red;
      pt := pt[tmp := Paint(Red, pt[tmp].bh - 1)][parent := pt[parent].(bh := pt[parent].bh - 1)];
    }

    method SetFar(tmp: Node, parent: Node, far: Node)
      requires tmp in pt && parent in pt && far in pt && tmp != parent && tmp != far && parent != far
      requires Colored(pt) && Mirrors(sh)
      modifies this`pt, tmp`color, parent`color, far`color
      ensures Colored(pt) && Mirrors(sh)
      ensures var h := old(pt)[tmp].bh;
        Repainted3(old(pt), tmp, old(pt)[parent], parent, Paint(Black, h), far, Paint(Black, h), pt)
    {
      tmp.color := parent.color;
      parent.color := Black;
      far.color := Black;
      pt := pt[tmp := pt[parent]][parent := Paint(Black, pt[tmp].bh)][far := Paint(Black, pt[tmp].bh)];
    }

    // The pass of the removal loop for a black sibling with no red child (either side).
    method RemoveRecolor(parent: Node, elm: Node?, tmp: Node)
      requires Mirrors(sh) && Colored(pt) && Removing(sh, pt, root, order, parent, elm) && !IsRed(pt, elm)
      requires tmp in sh && tmp == Sibling(sh[parent], elm) && !IsRed(pt, tmp)
      requires !IsRed(pt, sh[tmp].left) && !IsRed(pt, sh[tmp].right)
      modifies this`pt, sh.Keys`color
      ensures Mirrors(sh) && Colored(pt) && Removing(sh, pt, root, order, sh[parent].parent, parent)
      ensures IsRed(pt, parent) == old(IsRed(pt, parent))
    {
      SiblingKnown(sh, pt, root, order, parent, elm);
      ghost var pt0 := pt;
      SetSiblingRed(tmp, parent);
      BlackNephews(sh, pt0, root, order, parent, tmp, elm, pt);
    }

    method RemoveRedLeft(parent: Node, elm: Node?, sibling: Node) returns (tmp: Node)
      requires Mirrors(sh) && Colored(pt) && Removing(sh, pt, root, order, parent, elm) && !IsRed(pt, elm)
      requires parent.left == elm && parent.right == sibling && sibling in sh && parent != sibling
        && IsRed(pt, sibling)
      requires Sibling(sh[parent], elm) == sibling
      modifies this`root, this`sh, this`pt, sh.Keys
      ensures sh.Keys == old(sh.Keys) && tmp in sh
      ensures Mirrors(sh) && Colored(pt) && Removing(sh, pt, root, order, parent, elm)
      ensures parent.left == elm && parent.right == tmp && Sibling(sh[parent], elm) == tmp && !IsRed(pt, tmp)
      ensures IsRed(pt, parent) && !IsRed(pt, elm)
    {
      ghost var sh0, pt0, root0 := sh, pt, root;
      RedSiblingReady(sh, pt, root, order, parent, elm, sibling);
      SetBlackRed(sibling, parent, pt0[parent].bh, pt0[sibling].bh);
      var t := RotateLeft(parent);
      RedSibling(sh0, pt0, root0, order, parent, sibling, elm, sh0[sibling].left, sh0[sibling].right,
        sh0[parent].parent, sh, pt);
      tmp := parent.right;
    }

    method RemoveNearLeft(parent: Node, elm: Node?, sibling: Node) returns (tmp: Node)
      requires Mirrors(sh) && Colored(pt) && Removing(sh, pt, root, order, parent, elm) && !IsRed(pt, elm)
      requires parent.left == elm && parent.right == sibling && sibling in sh && !IsRed(pt, sibling)
      requires Sibling(sh[parent], elm) == sibling && IsRed(pt, sibling.left) && !IsRed(pt, sibling.right)
      modifies this`root, this`sh, this`pt, sh.Keys
      ensures sh.Keys == old(sh.Keys) && tmp in sh
      ensures Mirrors(sh) && Colored(pt) && Removing(sh, pt, root, order, parent, elm)
      ensures parent.left == elm && parent.right == tmp && Sibling(sh[parent], elm) == tmp && !IsRed(pt, tmp)
      ensures IsRed(pt, tmp.right) && !IsRed(pt, elm)
    {
      ghost var sh0, pt0, root0 := sh, pt, root;
      var oleft := sibling.left;
      NearReady(sh, pt, root, order, parent, elm, sibling, oleft);
      SetBlackRed(oleft, sibling, pt0[sibling].bh, pt0[oleft].bh);
      oleft := RotateRight(sibling);
      NearNephew(sh0, pt0, root0, order, parent, sibling, elm, oleft, sh0[sibling].right, sh0[oleft].right,
        sh0[oleft].left, sh, pt);
      tmp := parent.right;
    }

    method RemoveFarLeft(parent: Node, elm: Node?, tmp: Node)
      requires Mirrors(sh) && Colored(pt) && Removing(sh, pt, root, order, parent, elm) && !IsRed(pt, elm)
      requires parent.left == elm && parent.right == tmp && tmp in sh && !IsRed(pt, tmp)
      requires Sibling(sh[parent], elm) == tmp && IsRed(pt, tmp.right)
      modifies this`root, this`sh, this`pt, sh.Keys
      ensures sh.Keys == old(sh.Keys) && Valid()
    {
      ghost var sh0, pt0, root0 := sh, pt, root;
      FarReady(sh, pt, root, order, parent, elm, tmp, tmp.right);
      SetFar(tmp, parent, tmp.right);
      var t := RotateLeft(parent);
      FarNephew(sh0, pt0, root0, order, parent, tmp, elm, sh0[tmp].left, sh0[tmp].right, sh0[parent].parent, sh, pt);
    }

    // One pass of the removal loop for a short left subtree.
    method RemovePassLeft(p: Node, e: Node?) returns (parent: Node?, elm: Node?, done: bool)
      requires Mirrors(sh) && Colored(pt) && Removing(sh, pt, root, order, p, e) && !IsRed(pt, e) && p.left == e
      modifies this`root, this`sh, this`pt, sh.Keys
      ensures sh.Keys == old(sh.Keys)
      ensures done ==> Valid() && elm == root
      ensures !done ==> Mirrors(sh) && Colored(pt) && Removing(sh, pt, root, order, parent, elm)
      ensures !done ==> RemoveTodo(sh, pt, order, parent, elm) < old(RemoveTodo(sh, pt, order, p, e))
    {
      hide Removing, RedBlack;
      RemoveTodoBound(sh, pt, root, order, p, e);
      SiblingKnown(sh, pt, root, order, p, e);
      var tmp := p.right;
      if tmp.color == Red {
        tmp := RemoveRedLeft(p, e, tmp);
      }
      parent, elm, done := RemoveBlackLeft(p, e, tmp);
    }

    // The rest of the pass, with a black sibling.
    method RemoveBlackLeft(p: Node, e: Node?, sibling: Node) returns (parent: Node?, elm: Node?, done: bool)
      requires Mirrors(sh) && Colored(pt) && Removing(sh, pt, root, order, p, e) && !IsRed(pt, e) && p.left == e
        && p.right == sibling
      requires sibling in sh && Sibling(sh[p], e) == sibling && !IsRed(pt, sibling)
      modifies this`root, this`sh, this`pt, sh.Keys
      ensures sh.Keys == old(sh.Keys)
      ensures done ==> Valid() && elm == root
      ensures !done ==> Mirrors(sh) && Colored(pt) && Removing(sh, pt, root, order, parent, elm)
      ensures !done && old(IsRed(pt, p)) ==> IsRed(pt, elm)
      ensures !done ==> RemoveTodo(sh, pt, order, parent, elm) < old(RemoveTodo(sh, pt, order, p, e))
    {
      hide Removing, RedBlack;
      SiblingKnown(sh, pt, root, order, p, e);
      parent, elm, done := p, e, false;
      var tmp := sibling;
      if (tmp.left == null || tmp.left.color == Black) && (tmp.right == null || tmp.right.color == Black) {
        RemoveTodoBound(sh, pt, root, order, parent, elm);
        RemoveRecolor(parent, elm, tmp);
        elm := parent;
        parent := elm.parent;
      } else {
        if tmp.right == null || tmp.right.color == Black {
          tmp := RemoveNearLeft(parent, elm, tmp);
        }
        RemoveFarLeft(parent, elm, tmp);
        elm := root;
        done := true;
      }
    }

    method RemoveRedRight(parent: Node, elm: Node?, sibling: Node) returns (tmp: Node)
      requires Mirrors(sh) && Colored(pt) && Removing(sh, pt, root, order, parent, elm) && !IsRed(pt, elm)
      requires parent.right == elm && parent.left == sibling && sibling in sh && parent != sibling
        && IsRed(pt, sibling)
      requires Sibling(sh[parent], elm) == sibling
      modifies this`root, this`sh, this`pt, sh.Keys
      ensures sh.Keys == old(sh.Keys) && tmp in sh
      ensures Mirrors(sh) && Colored(pt) && Removing(sh, pt, root, order, parent, elm)
      ensures parent.right == elm && parent.left == tmp && Sibling(sh[parent], elm) == tmp && !IsRed(pt, tmp)
      ensures IsRed(pt, parent) && !IsRed(pt, elm)
    {
      ghost var sh0, pt0, root0 := sh, pt, root;
      RedSiblingReady(sh, pt, root, order, parent, elm, sibling);
      SetBlackRed(sibling, parent, pt0[parent].bh, pt0[sibling].bh);
      var t := RotateRight(parent);
      RedSibling(sh0, pt0, root0, order, parent, sibling, elm, sh0[sibling].right, sh0[sibling].left,
        sh0[parent].parent, sh, pt);
      tmp := parent.left;
    }

    method RemoveNearRight(parent: Node, elm: Node?, sibling: Node) returns (tmp: Node)
      requires Mirrors(sh) && Colored(pt) && Removing(sh, pt, root, order, parent, elm) && !IsRed(pt, elm)
      requires parent.right == elm && parent.left == sibling && sibling in sh && !IsRed(pt, sibling)
      requires Sibling(sh[parent], elm) == sibling && IsRed(pt, sibling.right) && !IsRed(pt, sibling.left)
      modifies this`root, this`sh, this`pt, sh.Keys
      ensures sh.Keys == old(sh.Keys) && tmp in sh
      ensures Mirrors(sh) && Colored(pt) && Removing(sh, pt, root, order, parent, elm)
      ensures parent.right == elm && parent.left == tmp && Sibling(sh[parent], elm) == tmp && !IsRed(pt, tmp)
      ensures IsRed(pt, tmp.left) && !IsRed(pt, elm)
    {
      ghost var sh0, pt0, root0 := sh, pt, root;
      var oright := sibling.right;
      NearReady(sh, pt, root, order, parent, elm, sibling, oright);
      SetBlackRed(oright, sibling, pt0[sibling].bh, pt0[oright].bh);
      oright := RotateLeft(sibling);
      NearNephew(sh0, pt0, root0, order, parent, sibling, elm, oright, sh0[sibling].left, sh0[oright].left,
        sh0[oright].right, sh, pt);
      tmp := parent.left;
    }

    method RemoveFarRight(parent: Node, elm: Node?, tmp: Node)
      requires Mirrors(sh) && Colored(pt) && Removing(sh, pt, root, order, parent, elm) && !IsRed(pt, elm)
      requires parent.right == elm && parent.left == tmp && tmp in sh && !IsRed(pt, tmp)
      requires Sibling(sh[parent], elm) == tmp && IsRed(pt, tmp.left)
      modifies this`root, this`sh, this`pt, sh.Keys
      ensures sh.Keys == old(sh.Keys) && Valid()
    {
      ghost var sh0, pt0, root0 := sh, pt, root;
      FarReady(sh, pt, root, order, parent, elm, tmp, tmp.left);
      SetFar(tmp, parent, tmp.left);
      var t := RotateRight(parent);
      FarNephew(sh0, pt0, root0, order, parent, tmp, elm, sh0[tmp].right, sh0[tmp].left, sh0[parent].parent, sh, pt);
    }

    // One pass of the removal loop for a short right subtree.
    method RemovePassRight(p: Node, e: Node?) returns (parent: Node?, elm: Node?, done: bool)
      requires Mirrors(sh) && Colored(pt) && Removing(sh, pt, root, order, p, e) && !IsRed(pt, e) && p.right == e
      modifies this`root, this`sh, this`pt, sh.Keys
      ensures sh.Keys == old(sh.Keys)
      ensures done ==> Valid() && elm == root
      ensures !done ==> Mirrors(sh) && Colored(pt) && Removing(sh, pt, root, order, parent, elm)
      ensures !done ==> RemoveTodo(sh, pt, order, parent, elm) < old(RemoveTodo(sh, pt, order, p, e))
    {
      hide Removing, RedBlack;
      RemoveTodoBound(sh, pt, root, order, p, e);
      SiblingKnown(sh, pt, root, order, p, e);
      var tmp := p.left;
      if tmp.color == Red {
        tmp := RemoveRedRight(p, e, tmp);
      }
      parent, elm, done := RemoveBlackRight(p, e, tmp);
    }

    // The rest of the pass, with a black sibling.
    method RemoveBlackRight(p: Node, e: Node?, sibling: Node) returns (parent: Node?, elm: Node?, done: bool)
      requires Mirrors(sh) && Colored(pt) && Removing(sh, pt, root, order, p, e) && !IsRed(pt, e) && p.right == e
        && p.left == sibling
      requires sibling in sh && Sibling(sh[p], e) == sibling && !IsRed(pt, sibling)
      modifies this`root, this`sh, this`pt, sh.Keys
      ensures sh.Keys == old(sh.Keys)
      ensures done ==> Valid() && elm == root
      ensures !done ==> Mirrors(sh) && Colored(pt) && Removing(sh, pt, root, order, parent, elm)
      ensures !done && old(IsRed(pt, p)) ==> IsRed(pt, elm)
      ensures !done ==> RemoveTodo(sh, pt, order, parent, elm) < old(RemoveTodo(sh, pt, order, p, e))
    {
      hide Removing, RedBlack;
      SiblingKnown(sh, pt, root, order, p, e);
      parent, elm, done := p, e, false;
      var tmp := sibling;
      if (tmp.left == null || tmp.left.color == Black) && (tmp.right == null || tmp.right.color == Black) {
        RemoveTodoBound(sh, pt, root, order, parent, elm);
        RemoveRecolor(parent, elm, tmp);
        elm := parent;
        parent := elm.parent;
      } else {
        if tmp.left == null || tmp.left.color == Black {
          tmp := RemoveNearRight(parent, elm, tmp);
        }
        RemoveFarRight(parent, elm, tmp);
        elm := root;
        done := true;
      }
    }

    // Paint one node black, the end of RB_REMOVE_COLOR.
    method PaintNode(elm: Node)
      requires elm in pt && elm in sh && Colored(pt) && Mirrors(sh)
      modifies this`pt, elm`color
      ensures pt == old(pt)[elm := Paint(Black, Height(old(pt), sh[elm].left) + 1)] && Colored(pt) && Mirrors(sh)
    {
      elm.color := Black;
      pt := pt[elm := Paint(Black, Height(pt, sh[elm].left) + 1)];
    }

    // One pass of the loop of RB_REMOVE_COLOR.
    method RemovePass(p: Node, e: Node?) returns (parent: Node?, elm: Node?, done: bool)
      requires Mirrors(sh) && Colored(pt) && Removing(sh, pt, root, order, p, e) && !IsRed(pt, e)
      modifies this`root, this`sh, this`pt, sh.Keys
      ensures sh.Keys == old(sh.Keys)
      ensures done ==> Valid() && elm == root
      ensures !done ==> Mirrors(sh) && Colored(pt) && Removing(sh, pt, root, order, parent, elm)
      ensures !done ==> 0 <= RemoveTodo(sh, pt, order, parent, elm) < old(RemoveTodo(sh, pt, order, p, e))
    {
      hide Removing, RedBlack;
      SiblingKnown(sh, pt, root, order, p, e);
      if p.left == e {
        parent, elm, done := RemovePassLeft(p, e);
      } else {
        parent, elm, done := RemovePassRight(p, e);
      }
      if !done {
        RemoveTodoBound(sh, pt, root, order, parent, elm);
      }
    }

    // RB_REMOVE_COLOR
    method RemoveColor(p: Node?, e: Node?)
      requires Mirrors(sh) && Colored(pt) && Removing(sh, pt, root, order, p, e)
      modifies this`root, this`sh, this`pt, sh.Keys
      ensures sh.Keys == old(sh.Keys) && Valid()
    {
      hide Removing, RedBlack, RemoveTodo;
      var parent, elm := p, e;
      RemoveTodoBound(sh, pt, root, order, parent, elm);
      while (elm == null || elm.color == Black) && elm != root
        invariant sh.Keys == old(sh.Keys) && (elm != null ==> elm in pt)
        invariant Mirrors(sh) && Colored(pt) && Removing(sh, pt, root, order, parent, elm)
        invariant RemoveTodo(sh, pt, order, parent, elm) >= 0
        decreases RemoveTodo(sh, pt, order, parent, elm)
      {
        RemoveTodoBound(sh, pt, root, order, parent, elm);
        var done;
        parent, elm, done := RemovePass(parent, elm);
        if done {
          // elm is the root, which is black already
          RepaintRoot();
          return;
        }
        RemoveTodoBound(sh, pt, root, order, parent, elm);
      }
      RemoveDone(parent, elm);
    }

    method RemoveDone(parent: Node?, elm: Node?)
      requires Mirrors(sh) && Colored(pt) && Removing(sh, pt, root, order, parent, elm)
        && (IsRed(pt, elm) || elm == root)
      modifies this`pt, sh.Keys`color
      ensures Valid()
    {
      hide RedBlack;
      ghost var pt0 := pt;
      if elm != null {
        PaintNode(elm);
      }
      PaintBlack(sh, pt0, root, order, parent, elm, pt);
    }

    // Painting the root of a valid tree black changes nothing.
    method RepaintRoot()
      requires Valid()
      modifies sh.Keys`color
      ensures Valid()
    {
      if root != null {
        root.color := Black;
      }
    }

    // The links of RB_REMOVE for a node with at most one child.
    method Unlink(elm: Node, child: Node?, ghost k: int, ghost r: Shape) returns (parent: Node?)
      requires Mirrors(sh) && elm in sh && Spliced(sh, elm, child, sh[elm].parent, k, r)
      modifies this`root, sh.Keys`left, sh.Keys`right, sh.Keys`parent
      ensures parent == sh[elm].parent && root == (if parent == null then child else old(root)) && Mirrors(r)
    {
      parent := elm.parent;
      if child != null {
        child.parent := parent;
      }
      if parent != null {
        if parent.left == elm {
          parent.left := child;
        } else {
          parent.right := child;
        }
      } else {
        root := child;
      }
      forall n | n in r
        ensures n.left == r[n].left && n.right == r[n].right && n.parent == r[n].parent
      {
        if n == child {
        } else if n == parent {
        } else {
          assert r[n] == Unshifted(sh[n], k);
        }
      }
    }

    // The links between the two halves of Replace: elm is off its parent, but has not moved yet.
    ghost predicate Detached(victim: Node, elm: Node)
      requires Successor(sh, victim, elm)
      reads this, sh.Keys
    {
      var q, c := sh[elm].parent, sh[elm].right;
      forall n {:trigger sh[n]} | n in sh ::
        && n.left == (if n == q && q != victim then c else sh[n].left)
        && n.right == (if n == q && q == victim then c else sh[n].right)
        && n.parent == (if n == c then q else sh[n].parent)
    }

    // The links of RB_REMOVE for a node with two children: its successor elm takes its place.
    method Replace(victim: Node, elm: Node, ghost r: Shape) returns (parent: Node?, child: Node?, color: Color)
      requires Mirrors(sh) && Successor(sh, victim, elm) && Apart(sh, victim, elm) && Replaced(sh, victim, elm, r)
      modifies this`root, sh.Keys
      ensures child == sh[elm].right && parent == (if sh[elm].parent == victim then elm else sh[elm].parent)
      ensures color == old(elm.color) && elm.color == old(victim.color)
      ensures forall n | n in sh && n != elm :: n.color == old(n.color)
      ensures root == (if sh[victim].parent == null then elm else old(root)) && Mirrors(r)
    {
      parent, child, color := Detach(victim, elm);
      TakePlace(victim, elm, r);
    }

    method Detach(victim: Node, elm: Node) returns (parent: Node?, child: Node?, color: Color)
      requires Mirrors(sh) && Successor(sh, victim, elm) && Apart(sh, victim, elm)
      modifies sh.Keys`left, sh.Keys`right, sh.Keys`parent
      ensures child == sh[elm].right && parent == (if sh[elm].parent == victim then elm else sh[elm].parent)
      ensures color == elm.color && Detached(victim, elm)
    {
      child := elm.right;
      parent := elm.parent;
      color := elm.color;
      if child != null {
        child.parent := parent;
      }
      if parent.left == elm {
        parent.left := child;
      } else {
        parent.right := child;
      }
      if elm.parent == victim {
        parent := elm;
      }
    }

    method TakePlace(victim: Node, elm: Node, ghost r: Shape)
      requires Successor(sh, victim, elm) && Apart(sh, victim, elm) && Replaced(sh, victim, elm, r)
        && Detached(victim, elm)
      modifies this`root, sh.Keys
      ensures elm.color == old(victim.color)
      ensures forall n | n in sh && n != elm :: n.color == old(n.color)
      ensures root == (if sh[victim].parent == null then elm else old(root)) && Mirrors(r)
    {
      ghost var c, q := sh[elm].right, sh[elm].parent;
      elm.left, elm.right, elm.parent, elm.color := victim.left, victim.right, victim.parent, victim.color;
      TakeLinks(victim, elm, victim.left, victim.right, victim.parent);
      forall n | n in r
        ensures n.left == r[n].left && n.right == r[n].right && n.parent == r[n].parent
      {
        if n == elm {
          assert sh[n] == sh[elm] && sh[victim] == sh[victim];
        } else {
          assert n in sh && ReplacedAt(sh, victim, elm, r, n);
          if n == q {
          } else if n == sh[victim].parent {
          } else if n == c {
          }
        }
      }
    }

    // The neighbours of victim are made to name elm instead.
    method TakeLinks(victim: Node, elm: Node, xl: Node, xr: Node?, xp: Node?)
      requires victim in sh && elm in sh && victim != elm && xl in sh && (xr != null ==> xr in sh)
        && (xp != null ==> xp in sh)
      requires victim.left == xl && victim.right == xr && victim.parent == xp && xl != victim && xl != elm
        && xr != victim && xr != elm
      requires xp != victim && xp != elm && xp != xl && xl != xr && (xp != null ==> xp != xr)
      modifies this`root, sh.Keys`left, sh.Keys`right, sh.Keys`parent
      ensures forall n {:trigger sh[n]} | n in sh ::
        && n.left == (if n == xp && old(n.left) == victim then elm else old(n.left))
        && n.right == (if n == xp && old(n.left) != victim then elm else old(n.right))
        && n.parent == (if n == xl || n == xr then elm else old(n.parent))
      ensures root == if xp == null then elm else old(root)
    {
      if victim.parent != null {
        if victim.parent.left == victim {
          victim.parent.left := elm;
        } else {
          victim.parent.right := elm;
        }
      } else {
        root := elm;
      }
      victim.left.parent := elm;
      if victim.right != null {
        victim.right.parent := elm;
      }
    }

    // The leftmost node below the right child of x, which has a left child too.
    method FindSuccessor(x: Node) returns (elm: Node)
      requires Mirrors(sh) && Linked(sh, root, order) && x in sh && x.left != null && x.right != null
      ensures elm in sh && Successor(sh, x, elm)
    {
      Neighbours(sh, root, order, x);
      elm := x.right;
      Neighbours(sh, root, order, elm);
      while elm.left != null
        invariant elm in sh && LinkedAt(sh, root, order, elm) && sh[elm].lo == sh[x].idx + 1
        invariant sh[elm].parent != null && sh[elm].parent in sh
        decreases sh[elm].hi - sh[elm].lo
      {
        elm := elm.left;
        Neighbours(sh, root, order, elm);
      }
    }

    // RB_REMOVE
    method Remove(elm: Node, ghost cmp: (Node, Node) -> int) returns (r: Node, ghost k: int)
      requires Valid() && elm in sh
      modifies this, sh.Keys
      ensures Valid() && r == elm && sh.Keys == old(sh.Keys) - {elm}
      ensures old(Sorted(cmp, order)) ==> Sorted(cmp, order)
      ensures CutAt(old(order), k, order) && old(order)[k] == elm
    {
      hide RedBlack, Mirrors, Sorted;
      ghost var o := order;
      r := elm;
      NodeLinks(elm);
      if elm.left == null {
        k := RemoveOneChild(elm, elm.right);
      } else if elm.right == null {
        k := RemoveOneChild(elm, elm.left);
      } else {
        k := RemoveTwoChildren(elm);
      }
      if Sorted(cmp, o) {
        SortedCut(cmp, o, k, order);
      }
    }

    lemma NodeLinks(n: Node)
      requires Mirrors(sh) && n in sh
      ensures n.left == sh[n].left && n.right == sh[n].right && n.parent == sh[n].parent
    {
    }

    // Unlink, with the ghost state brought up to date.
    method UnlinkOnly(elm: Node, child: Node?, ghost k: int, ghost r: Shape, ghost o: seq<Node>)
      returns (parent: Node?, color: Color)
      requires Mirrors(sh) && Colored(pt) && pt.Keys == sh.Keys && elm in sh
        && Spliced(sh, elm, child, sh[elm].parent, k, r)
      modifies this, sh.Keys
      ensures sh == r && pt == old(pt) - {elm} && order == o && Mirrors(sh) && Colored(pt)
      ensures parent == old(sh)[elm].parent && color == old(pt)[elm].color
      ensures root == if parent == null then child else old(root)
    {
      hide Mirrors, Spliced;
      SplicedKeys(sh, elm, child, sh[elm].parent, k, r);
      color := elm.color;
      parent := Unlink(elm, child, k, r);
      sh, pt, order := r, pt - {elm}, o;
    }

    method RemoveOneChild(elm: Node, child: Node?) returns (ghost k: int)
      requires Valid() && elm in sh && Kids(sh[elm], child, null)
      modifies this, sh.Keys
      ensures Valid() && sh.Keys == old(sh.Keys) - {elm} && CutAt(old(order), k, order) && old(order)[k] == elm
    {
      hide RedBlack, Removing, Spliced, Kids, Mirrors, Colored;
      RedBlackPainted(sh, pt, root, order);
      ghost var r;
      r, k := RemoveOne(sh, pt, root, order, elm, child);
      SplicedKeys(sh, elm, child, sh[elm].parent, k, r);
      var parent, color := UnlinkOnly(elm, child, k, r, order[..k] + order[k + 1..]);
      if color == Black {
        RemoveColor(parent, child);
      }
    }

    // Replace, with the ghost state brought up to date.
    method MoveSuccessor(victim: Node, elm: Node, ghost r: Shape, ghost o: seq<Node>)
      returns (parent: Node?, child: Node?, color: Color)
      requires Mirrors(sh) && Colored(pt) && pt.Keys == sh.Keys && victim in sh && elm in sh
      requires Successor(sh, victim, elm) && Apart(sh, victim, elm) && Replaced(sh, victim, elm, r)
      modifies this, sh.Keys
      ensures sh == r && pt == old(pt)[elm := old(pt)[victim]] - {victim} && order == o && Mirrors(sh) && Colored(pt)
      ensures child == old(sh)[elm].right && color == old(pt)[elm].color
      ensures parent == (if old(sh)[elm].parent == victim then elm else old(sh)[elm].parent)
      ensures root == if old(sh)[victim].parent == null then elm else old(root)
    {
      hide Mirrors, Successor, Apart, Replaced;
      ReplacedKeys(sh, victim, elm, r);
      parent, child, color := Replace(victim, elm, r);
      sh, pt, order := r, pt[elm := pt[victim]] - {victim}, o;
    }

    method RemoveTwoChildren(victim: Node) returns (ghost k: int)
      requires Valid() && victim in sh && victim.left != null && victim.right != null
      modifies this, sh.Keys
      ensures Valid() && sh.Keys == old(sh.Keys) - {victim} && CutAt(old(order), k, order) && old(order)[k] == victim
    {
      hide RedBlack, Removing, Replaced, Mirrors, Apart, Colored;
      RedBlackPainted(sh, pt, root, order);
      var elm := FindSuccessor(victim);
      hide Successor;
      ghost var r;
      r, k := RemoveTwo(sh, pt, root, order, victim, elm);
      ReplacedKeys(sh, victim, elm, r);
      ghost var o := order[..k] + order[k + 1..];
      var parent, child, color := MoveSuccessor(victim, elm, r, o);
      if color == Black {
        RemoveColor(parent, child);
      }
    }

    // The links of RB_INSERT for a new node below parent.
    method AttachLinks(elm: Node, parent: Node?, comp: int, ghost k: int, ghost r: Shape)
      requires Mirrors(sh) && LeafAdded(sh, parent, comp < 0, elm, k, r)
      modifies this`root, elm, sh.Keys`left, sh.Keys`right
      ensures Mirrors(r) && elm.color == Red && root == if parent == null then elm else old(root)
    {
      elm.parent := parent;
      elm.left, elm.right := null, null;
      elm.color := Red;
      if parent != null {
        if comp < 0 {
          parent.left := elm;
        } else {
          parent.right := elm;
        }
      } else {
        root := elm;
      }
      forall n | n in r
        ensures n.left == r[n].left && n.right == r[n].right && n.parent == r[n].parent
      {
        if n == elm {
        } else if n == parent {
        } else {
          assert r[n] == Shifted(sh[n], k, comp < 0);
        }
      }
    }

    method Attach(elm: Node, parent: Node?, comp: int, ghost k: int, ghost r: Shape)
      requires Mirrors(sh) && Colored(pt) && pt.Keys == sh.Keys && LeafAdded(sh, parent, comp < 0, elm, k, r)
        && elm !in sh
      modifies this`root, this`sh, this`pt, elm, sh.Keys`left, sh.Keys`right
      ensures sh == r && pt == old(pt)[elm := Paint(Red, 0)] && Mirrors(sh) && Colored(pt)
      ensures root == if parent == null then elm else old(root)
    {
      hide LeafAdded, Mirrors;
      AttachLinks(elm, parent, comp, k, r);
      sh, pt := r, pt[elm := Paint(Red, 0)];
    }

    // The descent of RB_INSERT: the equal node, or the place where elm belongs.
    method Descend(elm: Node, cmp: (Node, Node) -> int) returns (equal: Node?, parent: Node?, comp: int, ghost k: int)
      requires Mirrors(sh) && Linked(sh, root, order) && IsOrder(cmp, sh.Keys + {elm}) && Sorted(cmp, order)
      ensures equal != null ==> equal in order && cmp(elm, equal) == 0
      ensures equal == null ==> Gap(sh, root, parent, comp < 0, k) && Narrowed(cmp, order, elm, k, k)
      ensures parent == null ==> comp == 0
    {
      hide Linked, IsOrder, Sorted;
      equal, parent, comp, k := null, null, 0, 0;
      var tmp := root;
      ghost var hi := |order|;
      RootKnown(sh, root, order);
      while tmp != null
        invariant equal == null && Narrowed(cmp, order, elm, k, hi) && (parent == null ==> comp == 0)
        invariant tmp != null ==> tmp in sh && sh[tmp].lo == k && sh[tmp].hi == hi
        invariant tmp == null ==> k == hi && Gap(sh, root, parent, comp < 0, k)
        decreases hi - k
      {
        parent := tmp;
        comp := cmp(elm, parent);
        Neighbours(sh, root, order, tmp);
        Narrow(cmp, sh.Keys + {elm}, order, elm, k, sh[tmp].idx, hi);
        if comp < 0 {
          hi := sh[tmp].idx;
          tmp := tmp.left;
        } else if comp > 0 {
          k := sh[tmp].idx + 1;
          tmp := tmp.right;
        } else {
          equal := tmp;
          return;
        }
      }
    }

    // RB_INSERT
    method Insert(elm: Node, cmp: (Node, Node) -> int) returns (equal: Node?, ghost k: int)
      requires Valid() && IsOrder(cmp, sh.Keys + {elm}) && Sorted(cmp, order)
      modifies this, sh.Keys, elm
      ensures Valid() && Sorted(cmp, order)
      ensures equal != null ==>
        equal in order && cmp(elm, equal) == 0 && unchanged(this) && unchanged(elm) && unchanged(old(sh.Keys))
      ensures equal == null ==> sh.Keys == old(sh.Keys) + {elm} && PutAt(old(order), k, elm, order)
      ensures equal == null ==> forall n | n in old(order) :: cmp(elm, n) != 0
    {
      hide RedBlack, Inserting, Linked, Mirrors, IsOrder, Sorted;
      RedBlackPainted(sh, pt, root, order);
      var parent, comp;
      equal, parent, comp, k := Descend(elm, cmp);
      if equal != null {
        return;
      }
      Absent(cmp, sh.Keys + {elm}, order, elm, k);
      Listed(sh, root, order);
      ghost var r, o := InsertOne(sh, pt, root, order, elm, parent, comp < 0, k);
      SortedPut(cmp, sh.Keys + {elm}, order, elm, k, o);
      Attach(elm, parent, comp, k, r);
      order := o;
      InsertColor(elm);
    }

    // RB_FIND
    method Find(elm: Node, cmp: (Node, Node) -> int) returns (r: Node?)
      requires Valid() && IsOrder(cmp, sh.Keys + {elm}) && Sorted(cmp, order)
      ensures r != null ==> r in order && cmp(elm, r) == 0
      ensures r == null ==> forall n | n in order :: cmp(elm, n) != 0
    {
      hide RedBlack, Linked, IsOrder, Sorted;
      RedBlackPainted(sh, pt, root, order);
      RootKnown(sh, root, order);
      var tmp := root;
      ghost var lo, hi := 0, |order|;
      while tmp != null
        invariant Narrowed(cmp, order, elm, lo, hi)
        invariant tmp != null ==> tmp in sh && sh[tmp].lo == lo && sh[tmp].hi == hi
        invariant tmp == null ==> lo == hi
        decreases hi - lo
      {
        var comp := cmp(elm, tmp);
        Neighbours(sh, root, order, tmp);
        Narrow(cmp, sh.Keys + {elm}, order, elm, lo, sh[tmp].idx, hi);
        if comp < 0 {
          hi := sh[tmp].idx;
          tmp := tmp.left;
        } else if comp > 0 {
          lo := sh[tmp].idx + 1;
          tmp := tmp.right;
        } else {
          return tmp;
        }
      }
      return null;
    }

    // RB_NFIND: the first node that is not before elm.
    method NFind(elm: Node, cmp: (Node, Node) -> int) returns (res: Node?)
      requires Valid() && IsOrder(cmp, sh.Keys + {elm}) && Sorted(cmp, order)
      ensures res != null ==> res in order && cmp(elm, res) <= 0
      ensures forall n | n in order && cmp(elm, n) <= 0 :: res != null && (n == res || cmp(res, n) < 0)
    {
      hide RedBlack, Linked, IsOrder;
      RedBlackPainted(sh, pt, root, order);
      RootKnown(sh, root, order);
      var tmp := root;
      ghost var lo, hi := 0, |order|;
      res := null;
      while tmp != null
        invariant Narrowed(cmp, order, elm, lo, hi)
        invariant tmp != null ==> tmp in sh && sh[tmp].lo == lo && sh[tmp].hi == hi
        invariant tmp == null ==> lo == hi
        invariant if hi == |order| then res == null else res == order[hi]
        decreases hi - lo
      {
        var comp := cmp(elm, tmp);
        Neighbours(sh, root, order, tmp);
        Narrow(cmp, sh.Keys + {elm}, order, elm, lo, sh[tmp].idx, hi);
        if comp < 0 {
          res := tmp;
          hi := sh[tmp].idx;
          tmp := tmp.left;
        } else if comp > 0 {
          lo := sh[tmp].idx + 1;
          tmp := tmp.right;
        } else {
          EqualIsFirst(cmp, sh.Keys + {elm}, order, elm, sh[tmp].idx);
          return tmp;
        }
      }
    }

    // RB_MINMAX
    method MinMax(val: int) returns (parent: Node?)
      requires Valid()
      ensures parent == if order == [] then null else if val < 0 then order[0] else order[|order| - 1]
    {
      hide RedBlack, Linked;
      RedBlackPainted(sh, pt, root, order);
      RootKnown(sh, root, order);
      var tmp := root;
      parent := null;
      while tmp != null
        invariant tmp != null ==> tmp in sh && (if val < 0 then sh[tmp].lo == 0 else sh[tmp].hi == |order|)
        invariant tmp == null && order != [] ==> parent == if val < 0 then order[0] else order[|order| - 1]
        invariant order == [] ==> parent == null && tmp == null
        decreases if tmp == null then 0 else 1 + sh[tmp].hi - sh[tmp].lo
      {
        parent := tmp;
        Neighbours(sh, root, order, tmp);
        if val < 0 {
          tmp := tmp.left;
        } else {
          tmp := tmp.right;
        }
      }
    }

    // RB_FOREACH: the nodes in the order in which the loop body sees them.
    method Foreach() returns (out: seq<Node>)
      requires Valid()
      ensures out == order
    {
      hide RedBlack, Linked;
      RedBlackPainted(sh, pt, root, order);
      RootKnown(sh, root, order);
      out := [];
      var x := MinMax(-1);
      while x != null
        invariant |out| <= |order| && out == order[..|out|]
        invariant x == if |out| < |order| then order[|out|] else null
        decreases |order| - |out|
      {
        out := out + [x];
        x := Next(x);
      }
    }

    // RB_NEXT
    method Next(e: Node) returns (elm: Node?)
      requires Valid() && e in sh
      ensures 0 <= sh[e].idx < |order| && order[sh[e].idx] == e
      ensures elm == if sh[e].idx + 1 < |order| then order[sh[e].idx + 1] else null
    {
      hide RedBlack, Linked;
      RedBlackPainted(sh, pt, root, order);
      RootKnown(sh, root, order);
      Neighbours(sh, root, order, e);
      if e.right != null {
        elm := Leftmost(e.right, sh[e].idx + 1);
      } else if e.parent != null && e == e.parent.left {
        elm := e.parent;
        Neighbours(sh, root, order, elm);
      } else {
        var cur := e;
        while cur.parent != null && cur == cur.parent.right
          invariant cur in sh && sh[cur].hi == sh[e].idx + 1 && LinkedAt(sh, root, order, cur)
          invariant cur.parent != null ==> cur.parent in sh
          decreases |order| - (sh[cur].hi - sh[cur].lo)
        {
          var up := cur.parent;
          Neighbours(sh, root, order, cur);
          Neighbours(sh, root, order, up);
          cur := up;
        }
        Neighbours(sh, root, order, cur);
        elm := cur.parent;
        if elm != null {
          Neighbours(sh, root, order, elm);
        }
      }
    }

    method Leftmost(n: Node, ghost lo: int) returns (elm: Node)
      requires Valid() && n in sh && sh[n].lo == lo
      ensures 0 <= lo < |order| && elm == order[lo]
    {
      hide RedBlack, Linked;
      RedBlackPainted(sh, pt, root, order);
      elm := n;
      Neighbours(sh, root, order, elm);
      while elm.left != null
        invariant elm in sh && sh[elm].lo == lo && LinkedAt(sh, root, order, elm)
        decreases sh[elm].hi - sh[elm].lo
      {
        elm := elm.left;
        Neighbours(sh, root, order, elm);
      }
    }

    // RB_PREV
    method Prev(e: Node) returns (elm: Node?)
      requires Valid() && e in sh
      ensures 0 <= sh[e].idx < |order| && order[sh[e].idx] == e
      ensures elm == if sh[e].idx > 0 then order[sh[e].idx - 1] else null
    {
      hide RedBlack, Linked;
      RedBlackPainted(sh, pt, root, order);
      RootKnown(sh, root, order);
      Neighbours(sh, root, order, e);
      if e.left != null {
        elm := Rightmost(e.left, sh[e].idx);
      } else if e.parent != null && e == e.parent.right {
        elm := e.parent;
        Neighbours(sh, root, order, elm);
      } else {
        var cur := e;
        while cur.parent != null && cur == cur.parent.left
          invariant cur in sh && sh[cur].lo == sh[e].idx && LinkedAt(sh, root, order, cur)
          invariant cur.parent != null ==> cur.parent in sh
          decreases |order| - (sh[cur].hi - sh[cur].lo)
        {
          var up := cur.parent;
          Neighbours(sh, root, order, cur);
          Neighbours(sh, root, order, up);
          cur := up;
        }
        Neighbours(sh, root, order, cur);
        elm := cur.parent;
        if elm != null {
          Neighbours(sh, root, order, elm);
        }
      }
    }

    method Rightmost(n: Node, ghost hi: int) returns (elm: Node)
      requires Valid() && n in sh && sh[n].hi == hi
      ensures 0 < hi <= |order| && elm == order[hi - 1]
    {
      hide RedBlack, Linked;
      RedBlackPainted(sh, pt, root, order);
      elm := n;
      Neighbours(sh, root, order, elm);
      while elm.right != null
        invariant elm in sh && sh[elm].hi == hi && LinkedAt(sh, root, order, elm)
        decreases sh[elm].hi - sh[elm].lo
      {
        elm := elm.right;
        Neighbours(sh, root, order, elm);
      }
    }

    lemma {:induction false} RepresentsBelow(n: Node?)
      requires Mirrors(sh) && Colored(pt) && Linked(sh, root, order) && pt.Keys == sh.Keys && (n != null ==> n in sh)
      ensures Represents(Abstract(sh, pt, root, order, n), n, if n == null then null else sh[n].parent)
      decreases if n == null then 0 else 1 + sh[n].hi - sh[n].lo
    {
      hide Linked;
      if n != null {
        Neighbours(sh, root, order, n);
        assert pt[n].color == n.color;
        RepresentsBelow(n.left);
        RepresentsBelow(n.right);
      }
    }

    // What Valid means: the pointers are a red-black tree that lists `order`, of height at most 2 lg(n + 1).
    lemma Meaning() returns (t: Tree, k: int)
      requires Valid()
      ensures Represents(t, root, null) && InOrder(t) == order
      ensures NoRedRed(t) && !RedRoot(t) && BlackPaths(t, k)
      ensures Pow2(Depth(t)) <= (|order| + 1) * (|order| + 1)
      ensures forall i, j | 0 <= i < j < |order| :: order[i] != order[j]
    {
      t, k := Abstract(sh, pt, root, order, root), Height(pt, root);
      RootKnown(sh, root, order);
      RepresentsBelow(root);
      RedBlackMeaning(sh, pt, root, order);
      if root != null {
        assert LinkedAt(sh, root, order, root);
      }
    }

  }
}
