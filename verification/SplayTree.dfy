// The SPLAY macros: the tree in memory, whose links mirror a shape.
module SplayTree {
  import opened Ordering
  import opened SplayShape

  class Head {
    var root: Node?
    ghost var order: seq<Node>
    ghost var sh: Shape

    ghost predicate Mirrors(sh: Shape)
      reads sh.Keys
    {
      forall n {:trigger sh[n]} | n in sh :: n.left == sh[n].left && n.right == sh[n].right
    }

    ghost predicate Valid()
      reads this, sh.Keys
    {
      Mirrors(sh) && Linked(sh, root, order)
    }

    // The state inside the splay loop: node is the header of the left and the right tree.
    ghost predicate Splaying(node: Node, left: Node, right: Node, a: int, b: int)
      reads this, sh.Keys, node
    {
      && node !in sh && root != null && Mirrors(sh) && (left == node || left in sh) && (right == node || right in sh)
      && Split(sh, order, root, Open(node, left), Open(node, right), node.right, node.left, a, b)
    }

    static ghost function Open(node: Node, n: Node): Node? {
      if n == node then null else n
    }

    // SPLAY_INIT
    constructor ()
      ensures Valid() && sh.Keys == {} && order == []
    {
      root, sh, order := null, map[], [];
    }

    // SPLAY_ROTATE_RIGHT
    method RotateRight(tmp: Node, node: Node, left: Node, right: Node, ghost a: int, ghost b: int)
      requires Splaying(node, left, right, a, b) && root.left == tmp
      modifies this`root, this`sh, sh.Keys
      ensures sh.Keys == old(sh.Keys) && root == tmp && Splaying(node, left, right, a, b)
    {
      hide Split;
      RootPart(sh, order, root, Open(node, left), Open(node, right), node.right, node.left, a, b);
      ghost var c, r := RotateRightReady(sh, order, root, Open(node, left), Open(node, right), node.right, node.left,
        a, b, tmp);
      ghost var x := root;
      root.left := tmp.right;
      tmp.right := root;
      root := tmp;
      forall n | n in r ensures n.left == r[n].left && n.right == r[n].right {
        if n == x {
        } else if n == tmp {
        } else if n == c {
        }
      }
      sh := r;
    }

    // SPLAY_ROTATE_LEFT
    method RotateLeft(tmp: Node, node: Node, left: Node, right: Node, ghost a: int, ghost b: int)
      requires Splaying(node, left, right, a, b) && root.right == tmp
      modifies this`root, this`sh, sh.Keys
      ensures sh.Keys == old(sh.Keys) && root == tmp && Splaying(node, left, right, a, b)
    {
      hide Split;
      RootPart(sh, order, root, Open(node, left), Open(node, right), node.right, node.left, a, b);
      ghost var c, r := RotateLeftReady(sh, order, root, Open(node, left), Open(node, right), node.right, node.left, a,
        b, tmp);
      ghost var x := root;
      root.right := tmp.left;
      tmp.left := root;
      root := tmp;
      forall n | n in r ensures n.left == r[n].left && n.right == r[n].right {
        if n == x {
        } else if n == tmp {
        } else if n == c {
        }
      }
      sh := r;
    }

    // SPLAY_LINKLEFT
    method LinkLeft(node: Node, left: Node, right: Node, ghost a: int, ghost b: int) returns (right': Node)
      requires Splaying(node, left, right, a, b) && root.left != null
      modifies this`root, this`sh, sh.Keys, node
      ensures sh.Keys == old(sh.Keys) && old(root in sh) && right' == old(root) && root == old(root.left)
      ensures Splaying(node, left, right', a, old(sh)[old(root)].idx)
    {
      hide Split;
      RootPart(sh, order, root, Open(node, left), Open(node, right), node.right, node.left, a, b);
      ghost var l, r := LinkLeftReady(sh, order, root, Open(node, left), Open(node, right), node.right, node.left, a,
        b);
      right.left := root;
      right' := root;
      root := root.left;
      sh := r;
    }

    // SPLAY_LINKRIGHT
    method LinkRight(node: Node, left: Node, right: Node, ghost a: int, ghost b: int) returns (left': Node)
      requires Splaying(node, left, right, a, b) && root.right != null
      modifies this`root, this`sh, sh.Keys, node
      ensures sh.Keys == old(sh.Keys) && old(root in sh) && left' == old(root) && root == old(root.right)
      ensures Splaying(node, left', right, old(sh)[old(root)].idx + 1, b)
    {
      hide Split;
      RootPart(sh, order, root, Open(node, left), Open(node, right), node.right, node.left, a, b);
      ghost var t, r := LinkRightReady(sh, order, root, Open(node, left), Open(node, right), node.right, node.left, a,
        b);
      left.right := root;
      left' := root;
      root := root.right;
      sh := r;
    }

    // SPLAY_ASSEMBLE
    method Assemble(node: Node, left: Node, right: Node, ghost a: int, ghost b: int)
      requires Splaying(node, left, right, a, b)
      modifies this`sh, sh.Keys, node
      ensures sh.Keys == old(sh.Keys) && Valid()
      ensures old(root in sh) && sh[root].idx == old(sh)[root].idx
    {
      hide Split, Linked;
      RootPart(sh, order, root, Open(node, left), Open(node, right), node.right, node.left, a, b);
      ghost var l, t, first, last := Open(node, left), Open(node, right), node.right, node.left;
      ghost var r := AssembleReady(sh, order, root, l, t, first, last, a, b);
      left.right := root.left;
      right.left := root.right;
      root.left := node.right;
      root.right := node.left;
      forall n | n in r ensures n.left == r[n].left && n.right == r[n].right {
        if n == root {
        } else if n == left {
        } else if n == right {
        } else {
        }
      }
      sh := r;
    }

    // One pass of the splay loop when elm is before the root.
    method PassLeft(elm: Node, cmp: (Node, Node) -> int, node: Node, left: Node, right: Node, ghost a: int,
        ghost b: int)
      returns (right': Node, ghost b': int, stop: bool)
      requires Splaying(node, left, right, a, b) && IsOrder(cmp, sh.Keys + {elm}) && Sorted(cmp, order)
        && Narrowed(cmp, order, elm, a, b)
      requires AllIn(order, sh.Keys + {elm}) && cmp(elm, root) < 0
      modifies this`root, this`sh, sh.Keys, node
      ensures sh.Keys == old(sh.Keys) && Splaying(node, left, right', a, b') && Narrowed(cmp, order, elm, a, b')
      ensures stop ==> b' == b && root in sh && sh[root].idx == a && cmp(elm, root) < 0
      ensures !stop ==> b' < b
    {
      hide Split, IsOrder, Sorted;
      RootPart(sh, order, root, Open(node, left), Open(node, right), node.right, node.left, a, b);
      right', b', stop := right, b, true;
      var tmp := root.left;
      if tmp == null {
        return;
      }
      if cmp(elm, tmp) < 0 {
        RotateRight(tmp, node, left, right, a, b);
        RootPart(sh, order, root, Open(node, left), Open(node, right), node.right, node.left, a, b);
        if root.left == null {
          return;
        }
      }
      b' := sh[root].idx;
      Narrow(cmp, sh.Keys + {elm}, order, elm, a, b', b);
      stop := false;
      right' := LinkLeft(node, left, right, a, b);
    }

    // One pass of the splay loop when elm is after the root.
    method PassRight(elm: Node, cmp: (Node, Node) -> int, node: Node, left: Node, right: Node, ghost a: int,
        ghost b: int)
      returns (left': Node, ghost a': int, stop: bool)
      requires Splaying(node, left, right, a, b) && IsOrder(cmp, sh.Keys + {elm}) && Sorted(cmp, order)
        && Narrowed(cmp, order, elm, a, b)
      requires AllIn(order, sh.Keys + {elm}) && cmp(elm, root) > 0
      modifies this`root, this`sh, sh.Keys, node
      ensures sh.Keys == old(sh.Keys) && Splaying(node, left', right, a', b) && Narrowed(cmp, order, elm, a', b)
      ensures stop ==> a' == a && root in sh && sh[root].idx + 1 == b && cmp(elm, root) > 0
      ensures !stop ==> a < a'
    {
      hide Split, IsOrder, Sorted;
      RootPart(sh, order, root, Open(node, left), Open(node, right), node.right, node.left, a, b);
      left', a', stop := left, a, true;
      var tmp := root.right;
      if tmp == null {
        return;
      }
      if cmp(elm, tmp) > 0 {
        RotateLeft(tmp, node, left, right, a, b);
        RootPart(sh, order, root, Open(node, left), Open(node, right), node.right, node.left, a, b);
        if root.right == null {
          return;
        }
      }
      a' := sh[root].idx + 1;
      Narrow(cmp, sh.Keys + {elm}, order, elm, a, a' - 1, b);
      stop := false;
      left' := LinkRight(node, left, right, a, b);
    }

    // The element is at the root, or the root is next to the place k where it would be.
    ghost predicate Near(cmp: (Node, Node) -> int, elm: Node, k: int)
      reads this
    {
      && root != null && 0 <= k <= |order|
      && (cmp(elm, root) == 0 ==> k < |order| && order[k] == root)
      && (cmp(elm, root) < 0 ==> Narrowed(cmp, order, elm, k, k) && k < |order| && order[k] == root)
      && (cmp(elm, root) > 0 ==> Narrowed(cmp, order, elm, k, k) && k > 0 && order[k - 1] == root)
    }

    // The loop of SPLAY, up to the assembly.
    method SplayLoop(elm: Node, cmp: (Node, Node) -> int, node: Node)
      returns (left: Node, right: Node, ghost a: int, ghost b: int)
      requires Valid() && root != null && IsOrder(cmp, sh.Keys + {elm}) && Sorted(cmp, order)
        && AllIn(order, sh.Keys + {elm})
      requires node !in sh
      modifies this`root, this`sh, sh.Keys, node
      ensures sh.Keys == old(sh.Keys) && Splaying(node, left, right, a, b) && Narrowed(cmp, order, elm, a, b)
      ensures root in sh && (cmp(elm, root) < 0 ==> sh[root].idx == a)
        && (cmp(elm, root) > 0 ==> sh[root].idx + 1 == b)
    {
      hide Split, IsOrder, Sorted, Linked, Mirrors;
      left, right := node, node;
      a, b := 0, |order|;
      WholeSplit(sh, root, order, node.right, node.left);
      RootPart(sh, order, root, null, null, node.right, node.left, a, b);
      var comp := cmp(elm, root);
      while comp != 0
        invariant sh.Keys == old(sh.Keys) && Splaying(node, left, right, a, b) && root in sh
        invariant Narrowed(cmp, order, elm, a, b) && comp == cmp(elm, root)
        decreases b - a
      {
        var stop;
        if comp < 0 {
          right, b, stop := PassLeft(elm, cmp, node, left, right, a, b);
        } else {
          left, a, stop := PassRight(elm, cmp, node, left, right, a, b);
        }
        RootPart(sh, order, root, Open(node, left), Open(node, right), node.right, node.left, a, b);
        if stop {
          break;
        }
        comp := cmp(elm, root);
      }
    }

    // SPLAY
    method Splay(elm: Node, cmp: (Node, Node) -> int) returns (ghost k: int)
      requires Valid() && root != null && IsOrder(cmp, sh.Keys + {elm}) && Sorted(cmp, order)
      modifies this`root, this`sh, sh.Keys
      ensures sh.Keys == old(sh.Keys) && Valid() && Near(cmp, elm, k)
      ensures root != null && forall n | n in order ::
        && (cmp(elm, root) < 0 ==> cmp(elm, n) > 0 || n == root || cmp(root, n) < 0)
        && (cmp(elm, root) > 0 ==> cmp(elm, n) < 0 || n == root || cmp(n, root) < 0)
        && (cmp(elm, root) != 0 ==> cmp(elm, n) != 0)
    {
      hide Split, IsOrder, Sorted, Linked, Mirrors;
      TreeListed(sh, root, order);
      var node := new Node();
      assert AllIn(order, sh.Keys + {elm});
      var left, right;
      ghost var a, b;
      left, right, a, b := SplayLoop(elm, cmp, node);
      RootPart(sh, order, root, Open(node, left), Open(node, right), node.right, node.left, a, b);
      k := if cmp(elm, root) <= 0 then sh[root].idx else sh[root].idx + 1;
      if cmp(elm, root) != 0 {
        Narrow(cmp, sh.Keys + {elm}, order, elm, a, sh[root].idx, b);
        NextTo(cmp, order, elm, sh[root].idx, k);
      }
      Assemble(node, left, right, a, b);
    }

    // SPLAY_INSERT
    method Insert(elm: Node, cmp: (Node, Node) -> int) returns (equal: Node?, ghost k: int)
      requires Valid() && IsOrder(cmp, sh.Keys + {elm}) && Sorted(cmp, order)
      modifies this, sh.Keys, elm
      ensures Valid() && Sorted(cmp, order)
      ensures equal != null ==>
        order == old(order) && sh.Keys == old(sh.Keys) && equal in order && cmp(elm, equal) == 0 && root == equal
      ensures equal == null ==> sh.Keys == old(sh.Keys) + {elm} && root == elm && PutAt(old(order), k, elm, order)
      ensures equal == null ==> forall n | n in old(order) :: cmp(elm, n) != 0
    {
      hide Linked, IsOrder, Sorted, Mirrors;
      TreeListed(sh, root, order);
      if root == null {
        AllListed(sh, root, order);
        ghost var r := PutAlone(sh, order, elm);
        SortedPut(cmp, sh.Keys + {elm}, order, elm, 0, [elm]);
        elm.left, elm.right := null, null;
        root := elm;
        sh, order := r, [elm];
        AloneMirrors(elm);
        return null, 0;
      }
      k := Splay(elm, cmp);
      TreeListed(sh, root, order);
      var comp := cmp(elm, root);
      if comp == 0 {
        return root, k;
      }
      Absent(cmp, sh.Keys + {elm}, order, elm, k);
      AllListed(sh, root, order);
      SortedPut(cmp, sh.Keys + {elm}, order, elm, k, order[..k] + [elm] + order[k..]);
      if comp < 0 {
        PlaceBefore(elm, k);
      } else {
        PlaceAfter(elm, k);
      }
      return null, k;
    }

    // The link-up of SPLAY_INSERT for an element before the root.
    method PlaceBefore(elm: Node, ghost k: int)
      requires Valid() && elm !in sh && root != null && root in sh && k == sh[root].idx
      modifies this, sh.Keys, elm
      ensures Valid() && root == elm && sh.Keys == old(sh.Keys) + {elm}
      ensures 0 <= k <= old(|order|) && order == old(order[..k] + [elm] + order[k..])
    {
      hide Linked;
      ghost var r := PutBefore(sh, root, order, elm);
      elm.left := root.left;
      elm.right := root;
      root.left := null;
      forall n | n in r ensures n.left == r[n].left && n.right == r[n].right {
        if n == elm {
        } else if n == root {
        } else {
          assert SameLinks(r[n], sh[n]);
        }
      }
      root := elm;
      sh, order := r, order[..k] + [elm] + order[k..];
    }

    // The link-up of SPLAY_INSERT for an element after the root.
    method PlaceAfter(elm: Node, ghost k: int)
      requires Valid() && elm !in sh && root != null && root in sh && k == sh[root].idx + 1
      modifies this, sh.Keys, elm
      ensures Valid() && root == elm && sh.Keys == old(sh.Keys) + {elm}
      ensures 0 <= k <= old(|order|) && order == old(order[..k] + [elm] + order[k..])
    {
      hide Linked;
      ghost var r := PutAfter(sh, root, order, elm);
      elm.right := root.right;
      elm.left := root;
      root.right := null;
      forall n | n in r ensures n.left == r[n].left && n.right == r[n].right {
        if n == elm {
        } else if n == root {
        } else {
          assert SameLinks(r[n], sh[n]);
        }
      }
      root := elm;
      sh, order := r, order[..k] + [elm] + order[k..];
    }

    lemma AloneMirrors(elm: Node)
      requires sh.Keys == {elm} && sh[elm].left == null && sh[elm].right == null && elm.left == null
        && elm.right == null
      ensures Mirrors(sh)
    {
    }

    // SPLAY_FIND
    method Find(elm: Node, cmp: (Node, Node) -> int) returns (r: Node?)
      requires Valid() && IsOrder(cmp, sh.Keys + {elm}) && Sorted(cmp, order)
      modifies this`root, this`sh, sh.Keys
      ensures Valid() && sh.Keys == old(sh.Keys)
      ensures r != null ==> r in order && cmp(elm, r) == 0 && root == r
      ensures r == null ==> forall n | n in order :: cmp(elm, n) != 0
    {
      hide Linked, IsOrder, Sorted, Mirrors;
      TreeListed(sh, root, order);
      if root == null {
        return null;
      }
      ghost var k := Splay(elm, cmp);
      if cmp(elm, root) == 0 {
        return root;
      }
      return null;
    }

    // SPLAY_REMOVE: the node equal to elm is taken out; the result is elm, as in the source.
    method Remove(elm: Node, cmp: (Node, Node) -> int) returns (r: Node?, ghost k: int)
      requires Valid() && IsOrder(cmp, sh.Keys + {elm}) && Sorted(cmp, order)
      modifies this, sh.Keys
      ensures Valid() && Sorted(cmp, order)
      ensures r == null ==>
        order == old(order) && sh.Keys == old(sh.Keys) && forall n | n in order :: cmp(elm, n) != 0
      ensures r != null ==> r == elm && CutAt(old(order), k, order) && cmp(elm, old(order)[k]) == 0
      ensures r != null ==> sh.Keys == old(sh.Keys) - {old(order)[k]}
    {
      hide Linked, IsOrder, Sorted, Mirrors;
      TreeListed(sh, root, order);
      if root == null {
        return null, 0;
      }
      k := Splay(elm, cmp);
      TreeListed(sh, root, order);
      if cmp(elm, root) == 0 {
        ghost var o := order;
        BeforeEqual(cmp, sh.Keys + {elm}, order, elm, k);
        RemoveRoot(elm, cmp, k);
        SortedCut(cmp, o, k, order);
        return elm, k;
      }
      return null, k;
    }

    // The end of SPLAY_REMOVE, with the node to go at the root.
    method RemoveRoot(elm: Node, cmp: (Node, Node) -> int, ghost k: int)
      requires Valid() && root != null && root in sh && sh[root].idx == k && IsOrder(cmp, sh.Keys + {elm})
        && Sorted(cmp, order)
      requires 0 <= k < |order| && forall i | 0 <= i < k :: cmp(elm, order[i]) > 0
      modifies this, sh.Keys
      ensures Valid() && sh.Keys == old(sh.Keys) - {old(root)} && order == old(order[..k] + order[k + 1..])
    {
      hide Linked, IsOrder, Sorted, Near;
      ghost var shL, shR := Cleave(sh, root, order);
      ghost var o, x := order, root;
      if root.left == null {
        root := root.right;
        sh, order := shR, o[k + 1..];
        TreeListed(shL, null, o[..k]);
        AllListed(shL, null, o[..k]);
      } else {
        var tmp := root.right;
        root := root.left;
        sh, order := shL, o[..k];
        TreeListed(sh, root, order);
        OrderSubset(cmp, old(sh.Keys) + {elm}, sh.Keys + {elm});
        SortedPrefix(cmp, o, k);
        ghost var k' := Splay(elm, cmp);
        HangRight(tmp, shR, o[k + 1..], elm, cmp, k');
        assert o[..k] + o[k + 1..] == order;
      }
    }

    // SPLAY_RIGHT(root) = tmp, when everything in the tree is before elm.
    method HangRight(tmp: Node?, ghost shR: Shape, ghost oR: seq<Node>, ghost elm: Node,
        ghost cmp: (Node, Node) -> int, ghost k: int)
      requires Valid() && Near(cmp, elm, k) && (forall i | 0 <= i < |order| :: cmp(elm, order[i]) > 0)
      requires Mirrors(shR) && Linked(shR, tmp, oR) && sh.Keys !! shR.Keys
      modifies this`sh, this`order, sh.Keys
      ensures Valid() && sh.Keys == old(sh.Keys) + shR.Keys && order == old(order) + oR
    {
      hide Linked;
      TreeListed(sh, root, order);
      assert k < |order| ==> cmp(elm, order[k]) > 0;
      ghost var r := JoinRight(sh, root, order, shR, tmp, oR);
      root.right := tmp;
      sh, order := r, order + oR;
    }

    // SPLAY_MINMAX
    method MinMax(comp: int)
      requires Valid() && root != null && comp != 0
      modifies this`root, this`sh, sh.Keys
      ensures Valid() && sh.Keys == old(sh.Keys) && order != []
      ensures root == if comp < 0 then order[0] else order[|order| - 1]
    {
      hide Split, Linked, Mirrors;
      var node := new Node();
      TreeListed(sh, root, order);
      var left, right := node, node;
      ghost var a, b := 0, |order|;
      WholeSplit(sh, root, order, node.right, node.left);
      RootPart(sh, order, root, null, null, node.right, node.left, a, b);
      var stop := false;
      while !stop
        invariant node !in sh && fresh(node) && sh.Keys == old(sh.Keys) && Splaying(node, left, right, a, b)
          && root in sh
        invariant if comp < 0 then a == 0 else b == |order|
        invariant 0 <= a < b && a <= sh[root].idx < b <= |order| && order[sh[root].idx] == root
        invariant stop ==> if comp < 0 then sh[root].idx == 0 else sh[root].idx == |order| - 1
        decreases b - a, !stop
      {
        if comp < 0 {
          right, b, stop := StepLeft(node, left, right, a, b);
        } else {
          left, a, stop := StepRight(node, left, right, a, b);
        }
      }
      Assemble(node, left, right, a, b);
    }

    // A pass of SPLAY_MINMAX to the left.
    method StepLeft(node: Node, left: Node, right: Node, ghost a: int, ghost b: int)
      returns (right': Node, ghost b': int, stop: bool)
      requires Splaying(node, left, right, a, b)
      modifies this`root, this`sh, sh.Keys, node
      ensures sh.Keys == old(sh.Keys) && Splaying(node, left, right', a, b') && root in sh
      ensures a <= sh[root].idx < b' <= |order| && order[sh[root].idx] == root && 0 <= a
      ensures if stop then b' == b && sh[root].idx == a else b' < b
    {
      hide Split, Mirrors;
      RootPart(sh, order, root, Open(node, left), Open(node, right), node.right, node.left, a, b);
      right', b', stop := right, b, true;
      var tmp := root.left;
      RootLinks();
      if tmp == null {
        return;
      }
      RotateRight(tmp, node, left, right, a, b);
      RootPart(sh, order, root, Open(node, left), Open(node, right), node.right, node.left, a, b);
      RootLinks();
      if root.left == null {
        return;
      }
      b' := sh[root].idx;
      stop := false;
      right' := LinkLeft(node, left, right, a, b);
      RootPart(sh, order, root, Open(node, left), Open(node, right'), node.right, node.left, a, b');
    }

    // A pass of SPLAY_MINMAX to the right.
    method StepRight(node: Node, left: Node, right: Node, ghost a: int, ghost b: int)
      returns (left': Node, ghost a': int, stop: bool)
      requires Splaying(node, left, right, a, b)
      modifies this`root, this`sh, sh.Keys, node
      ensures sh.Keys == old(sh.Keys) && Splaying(node, left', right, a', b) && root in sh
      ensures a' <= sh[root].idx < b <= |order| && order[sh[root].idx] == root && 0 <= a'
      ensures if stop then a' == a && sh[root].idx + 1 == b else a < a'
    {
      hide Split, Mirrors;
      RootPart(sh, order, root, Open(node, left), Open(node, right), node.right, node.left, a, b);
      left', a', stop := left, a, true;
      var tmp := root.right;
      RootLinks();
      if tmp == null {
        return;
      }
      RotateLeft(tmp, node, left, right, a, b);
      RootPart(sh, order, root, Open(node, left), Open(node, right), node.right, node.left, a, b);
      RootLinks();
      if root.right == null {
        return;
      }
      a' := sh[root].idx + 1;
      stop := false;
      left' := LinkRight(node, left, right, a, b);
      RootPart(sh, order, root, Open(node, left'), Open(node, right), node.right, node.left, a', b);
    }

    lemma RootLinks()
      requires Mirrors(sh) && root != null && root in sh
      ensures root.left == sh[root].left && root.right == sh[root].right
    {
    }

    // SPLAY_NEXT
    method Next(e: Node, cmp: (Node, Node) -> int) returns (elm: Node?, ghost k: int)
      requires Valid() && e in sh && IsOrder(cmp, sh.Keys + {e}) && Sorted(cmp, order)
      modifies this`root, this`sh, sh.Keys
      ensures Valid() && sh.Keys == old(sh.Keys)
      ensures 0 <= k < |order| && order[k] == e && elm == if k + 1 < |order| then order[k + 1] else null
    {
      hide Linked, IsOrder, Sorted;
      NodeListed(sh, root, order, e);
      k := Splay(e, cmp);
      TreeListed(sh, root, order);
      NodeListed(sh, root, order, e);
      SelfEqual(cmp, sh.Keys + {e}, e);
      EqualIsFirst(cmp, sh.Keys + {e}, order, e, sh[e].idx);
      assert root == e by { NodeListed(sh, root, order, root); }
      RootSpan(sh, root, order);
      k := sh[e].idx;
      if e.right == null {
        return null, k;
      }
      elm := Leftmost(e.right, k + 1);
    }

    method Leftmost(n: Node, ghost lo: int) returns (elm: Node)
      requires Valid() && n in sh && sh[n].lo == lo
      ensures 0 <= lo < |order| && elm == order[lo]
    {
      hide Linked;
      elm := n;
      NodePart(sh, root, order, elm);
      while elm.left != null
        invariant elm in sh && sh[elm].lo == lo && NodePartAt(sh, order, elm) && 0 <= lo
        decreases sh[elm].idx
      {
        var l := elm.left;
        NodePart(sh, root, order, l);
        elm := l;
      }
    }

    lemma {:induction false} RepresentsBelow(n: Node?)
      requires Valid() && (n != null ==> n in sh)
      ensures Represents(Abstract(sh, root, order, n), n)
      decreases if n == null then 0 else 1 + sh[n].hi - sh[n].lo
    {
      hide Linked;
      if n != null {
        NodePart(sh, root, order, n);
        RepresentsBelow(n.left);
        RepresentsBelow(n.right);
      }
    }

    // What Valid means: the pointers are a tree whose in-order listing is `order`.
    lemma Meaning() returns (t: Tree)
      requires Valid()
      ensures Represents(t, root) && InOrder(t) == order
      ensures forall i, j | 0 <= i < j < |order| :: order[i] != order[j]
    {
      t := Abstract(sh, root, order, root);
      TreeListed(sh, root, order);
      RepresentsBelow(root);
      AbstractOrder(sh, root, order, root);
    }

  }
}
