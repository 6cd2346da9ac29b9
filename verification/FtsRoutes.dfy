// What a traversal visits, said without the traversal: the ends of the routes from the roots through readable
// directories, each entered once on the way.
module FtsRoutes {
  import opened FiniteSets
  import opened FtsWalk

  // ---- names and orders --------------------------------------------------------------------

  // A name is put behind a slash; a directory that ends in one has it already.
  lemma JoinIs(dir: string, name: string)
    ensures Join(dir, name) == if dir != "" && dir[|dir| - 1] == '/' then dir + name else dir + "/" + name
  {
    if dir != "" && dir[|dir| - 1] == '/' {
      assert dir == dir[..|dir| - 1] + "/";
    }
  }

  // Exactly the entries "." and ".." are not seen.
  lemma {:induction false} SeenIff(es: seq<Entry>, e: Entry)
    ensures e in Seen(es) <==> e in es && e.name != "." && e.name != ".."
  {
    if es != [] {
      SeenIff(es[..|es| - 1], e);
      assert es == es[..|es| - 1] + [es[|es| - 1]];
    }
  }

  // The others are seen each as often as they are there, and in order: those of a part before those of the rest.
  lemma {:induction false} SeenJoins(a: seq<Entry>, b: seq<Entry>)
    ensures Seen(a + b) == Seen(a) + Seen(b)
  {
    hide Seen;
    if b == [] {
      NoneSeen();
      assert a + b == a;
    } else {
      var most, last := b[..|b| - 1], b[|b| - 1];
      SeenJoins(a, most);
      SeenNext(a + most, last);
      SeenNext(most, last);
      assert a + most + [last] == a + b && most + [last] == b;
    }
  }

  // Entries are traversed in order.
  lemma {:induction false} WalkAllJoins(fs: Fs, dir: string, a: seq<Entry>, b: seq<Entry>, chain: seq<nat>)
    requires Closed(fs) && Chain(fs, chain) && (forall e | e in a :: e.ino in fs) && forall e | e in b :: e.ino in fs
    ensures WalkAll(fs, dir, a + b, chain) == WalkAll(fs, dir, a, chain) + WalkAll(fs, dir, b, chain)
    decreases |a|
  {
    if a == [] {
      assert a + b == b;
    } else {
      assert (a + b)[1..] == a[1..] + b;
      WalkAllJoins(fs, dir, a[1..], b, chain);
    }
  }

  // A directory that is entered comes first and last.
  lemma WalkEnds(fs: Fs, path: string, ino: nat, chain: seq<nat>)
    requires Closed(fs) && Chain(fs, chain) && ino in fs && fs[ino].Dir? && ino !in chain
    ensures var w := Walk(fs, path, ino, chain);
      |w| >= 2 && w[0] == Visit(path, D) && w[|w| - 1] == Visit(path, if fs[ino].readable then DP else DNR)
  {
  }

  // ---- routes ------------------------------------------------------------------------------------

  // From the directory d its entry e is reached.
  ghost predicate Enters(fs: Fs, d: Entry, e: Entry) {
    && d.ino in fs && fs[d.ino].Dir? && fs[d.ino].readable
    && e in fs[d.ino].dirents && e.name != "." && e.name != ".."
  }

  ghost predicate EntersAt(fs: Fs, es: seq<Entry>, i: nat) {
    i + 1 < |es| && Enters(fs, es[i], es[i + 1])
  }

  function InosOf(es: seq<Entry>): seq<nat> {
    seq(|es|, i requires 0 <= i < |es| => es[i].ino)
  }

  // From a root, through different directories.
  ghost predicate Route(fs: Fs, roots: seq<Entry>, es: seq<Entry>) {
    && es != [] && es[0] in roots && (forall i | 0 <= i < |es| :: es[i].ino in fs)
    && (forall i | 0 <= i < |es| - 1 :: EntersAt(fs, es, i))
    && Distinct(InosOf(es[..|es| - 1]))
  }

  function PathOf(es: seq<Entry>): string
    requires es != []
  {
    if |es| == 1 then es[0].name else Join(PathOf(es[..|es| - 1]), es[|es| - 1].name)
  }

  // How the file at the end of a route is visited: a directory on the way again is a cycle, another one comes
  // twice.
  ghost predicate EndsIn(fs: Fs, es: seq<Entry>, v: Visit)
    requires es != [] && es[|es| - 1].ino in fs
  {
    var last := es[|es| - 1];
    v.path == PathOf(es) && match fs[last.ino]
      case Leaf(info) => v.info == info
      case Dir(readable, _) =>
        if last.ino in InosOf(es[..|es| - 1]) then v.info == DC
        else v.info == D || v.info == if readable then DP else DNR
  }

  // The directories before entry k.
  lemma ChainBefore(fs: Fs, roots: seq<Entry>, es: seq<Entry>, k: nat)
    requires Route(fs, roots, es) && k < |es|
    ensures Chain(fs, InosOf(es[..k]))
    ensures k + 1 < |es| ==> InosOf(es[..k + 1]) == InosOf(es[..k]) + [es[k].ino] && es[k].ino !in InosOf(es[..k])
  {
    var all := InosOf(es[..|es| - 1]);
    assert forall i | 0 <= i < k :: InosOf(es[..k])[i] == all[i];
    if k + 1 < |es| {
      assert all[k] == es[k].ino;
    }
  }

  lemma {:induction false} InWalkAll(fs: Fs, dir: string, entries: seq<Entry>, chain: seq<nat>, e: Entry)
    requires Closed(fs) && Chain(fs, chain) && (forall e | e in entries :: e.ino in fs) && e in entries
    ensures forall v | v in Walk(fs, Join(dir, e.name), e.ino, chain) :: v in WalkAll(fs, dir, entries, chain)
    decreases |entries|
  {
    if entries[0] != e {
      InWalkAll(fs, dir, entries[1..], chain, e);
    }
  }

  // From entry k of a route on its end is visited.
  lemma {:induction false} VisitedFrom(fs: Fs, roots: seq<Entry>, es: seq<Entry>, k: nat, v: Visit)
    requires Closed(fs) && Route(fs, roots, es) && k < |es| && EndsIn(fs, es, v)
    ensures Chain(fs, InosOf(es[..k])) && v in Walk(fs, PathOf(es[..k + 1]), es[k].ino, InosOf(es[..k]))
    decreases |es| - k
  {
    ChainBefore(fs, roots, es, k);
    var path, chain := PathOf(es[..k + 1]), InosOf(es[..k]);
    if k + 1 == |es| {
      assert es[..k + 1] == es;
    } else {
      VisitedFrom(fs, roots, es, k + 1, v);
      assert EntersAt(fs, es, k);
      SeenIff(fs[es[k].ino].dirents, es[k + 1]);
      assert es[..k + 2][..k + 1] == es[..k + 1];
      InWalkAll(fs, path, fs[es[k].ino].Entries(), chain + [es[k].ino], es[k + 1]);
    }
  }

  lemma {:induction false} FromWalkAll(fs: Fs, dir: string, entries: seq<Entry>, chain: seq<nat>, v: Visit)
    returns (e: Entry)
    requires Closed(fs) && Chain(fs, chain) && (forall e | e in entries :: e.ino in fs)
      && v in WalkAll(fs, dir, entries, chain)
    ensures e in entries && v in Walk(fs, Join(dir, e.name), e.ino, chain)
    decreases |entries|
  {
    e := entries[0];
    if v !in Walk(fs, Join(dir, e.name), e.ino, chain) {
      e := FromWalkAll(fs, dir, entries[1..], chain, v);
    }
  }

  lemma LongerRoute(fs: Fs, roots: seq<Entry>, pre: seq<Entry>, e: Entry)
    requires Closed(fs) && Route(fs, roots, pre) && Enters(fs, pre[|pre| - 1], e)
      && pre[|pre| - 1].ino !in InosOf(pre[..|pre| - 1])
    ensures Route(fs, roots, pre + [e])
  {
    hide Join, PathOf, InosOf, Enters, EntersAt, Distinct, Closed;
    EnteredKnown(fs, pre[|pre| - 1], e);
    LongerInos(pre);
    DistinctPush(InosOf(pre[..|pre| - 1]), pre[|pre| - 1].ino);
    LongerSteps(fs, pre, e);
    Shorter(pre, e);
  }

  lemma Shorter(pre: seq<Entry>, e: Entry)
    ensures (pre + [e])[..|pre|] == pre
  {
  }

  lemma LongerSteps(fs: Fs, pre: seq<Entry>, e: Entry)
    requires pre != [] && (forall i | 0 <= i < |pre| - 1 :: EntersAt(fs, pre, i)) && Enters(fs, pre[|pre| - 1], e)
    ensures forall i | 0 <= i < |pre + [e]| - 1 :: EntersAt(fs, pre + [e], i)
  {
    hide Enters;
    var longer := pre + [e];
    forall i | 0 <= i < |longer| - 1 ensures EntersAt(fs, longer, i) {
      if i < |pre| - 1 {
        assert EntersAt(fs, pre, i) && longer[i] == pre[i] && longer[i + 1] == pre[i + 1];
      }
    }
  }

  lemma EnteredKnown(fs: Fs, d: Entry, e: Entry)
    requires Closed(fs) && Enters(fs, d, e)
    ensures e.ino in fs
  {
  }

  lemma DistinctPush(p: seq<nat>, x: nat)
    requires Distinct(p) && x !in p
    ensures Distinct(p + [x])
  {
  }

  lemma LongerInos(pre: seq<Entry>)
    requires pre != []
    ensures InosOf(pre) == InosOf(pre[..|pre| - 1]) + [pre[|pre| - 1].ino]
  {
  }

  lemma LongerPath(pre: seq<Entry>, e: Entry)
    requires pre != []
    ensures PathOf(pre + [e]) == Join(PathOf(pre), e.name)
  {
    assert (pre + [e])[..|pre|] == pre;
  }

  // What is visited behind a route, but not at its end, is visited behind a route with one entry more.
  lemma Deeper(fs: Fs, pre: seq<Entry>, chain: seq<nat>, path: string, v: Visit) returns (e: Entry)
    requires Closed(fs) && pre != [] && pre[|pre| - 1].ino in fs
    requires chain == InosOf(pre[..|pre| - 1]) && Chain(fs, chain)
    requires path == PathOf(pre) && v in Walk(fs, path, pre[|pre| - 1].ino, chain) && !EndsIn(fs, pre, v)
    ensures var d := pre[|pre| - 1];
      && Enters(fs, d, e) && d.ino !in chain && Chain(fs, chain + [d.ino]) && e.ino in fs
      && v in Walk(fs, Join(path, e.name), e.ino, chain + [d.ino])
  {
    var d := pre[|pre| - 1];
    hide PathOf, Join;
    assert Chain(fs, chain + [d.ino]);
    e := FromWalkAll(fs, path, fs[d.ino].Entries(), chain + [d.ino], v);
    SeenIff(fs[d.ino].dirents, e);
  }

  // What is visited behind a route is the end of a longer one.
  lemma {:induction false} RouteTo(fs: Fs, roots: seq<Entry>, pre: seq<Entry>, v: Visit) returns (es: seq<Entry>)
    requires Closed(fs) && Route(fs, roots, pre) && Chain(fs, InosOf(pre[..|pre| - 1]))
    requires v in Walk(fs, PathOf(pre), pre[|pre| - 1].ino, InosOf(pre[..|pre| - 1]))
    ensures Route(fs, roots, es) && EndsIn(fs, es, v)
    decreases Room(fs, InosOf(pre[..|pre| - 1]))
  {
    hide Walk, EndsIn, InosOf, PathOf, Join, Closed, Enters, EntersAt;
    var d, chain := pre[|pre| - 1], InosOf(pre[..|pre| - 1]);
    es := pre;
    if !EndsIn(fs, pre, v) {
      var e := Deeper(fs, pre, chain, PathOf(pre), v);
      ChainBound(fs, chain + [d.ino]);
      LongerRoute(fs, roots, pre, e);
      LongerPath(pre, e);
      LongerInos(pre);
      Shorter(pre, e);
      hide Route;
      es := RouteTo(fs, roots, pre + [e], v);
    }
  }

  lemma {:induction false} InWalkRoots(fs: Fs, roots: seq<Entry>, e: Entry)
    requires Closed(fs) && (forall e | e in roots :: e.ino in fs) && e in roots
    ensures forall v | v in Walk(fs, e.name, e.ino, []) :: v in WalkRoots(fs, roots)
  {
    if roots[0] != e {
      InWalkRoots(fs, roots[1..], e);
    }
  }

  lemma {:induction false} FromWalkRoots(fs: Fs, roots: seq<Entry>, v: Visit) returns (e: Entry)
    requires Closed(fs) && (forall e | e in roots :: e.ino in fs) && v in WalkRoots(fs, roots)
    ensures e in roots && v in Walk(fs, e.name, e.ino, [])
  {
    e := roots[0];
    if v !in Walk(fs, e.name, e.ino, []) {
      e := FromWalkRoots(fs, roots[1..], v);
    }
  }

  ghost predicate Visited(fs: Fs, roots: seq<Entry>, v: Visit) {
    exists es :: Route(fs, roots, es) && EndsIn(fs, es, v)
  }

  // The visits are the ends of the routes: nothing that can be reached is left out, and nothing else is visited.
  lemma VisitsAreRoutes(fs: Fs, roots: seq<Entry>, v: Visit)
    requires Closed(fs) && forall e | e in roots :: e.ino in fs
    ensures v in WalkRoots(fs, roots) <==> Visited(fs, roots, v)
  {
    forall es | Route(fs, roots, es) && EndsIn(fs, es, v) ensures v in WalkRoots(fs, roots) {
      VisitedFrom(fs, roots, es, 0, v);
      assert es[..1] == [es[0]] && InosOf(es[..0]) == [];
      InWalkRoots(fs, roots, es[0]);
    }
    if v in WalkRoots(fs, roots) {
      var e := FromWalkRoots(fs, roots, v);
      assert InosOf([e][..0]) == [];
      var es := RouteTo(fs, roots, [e], v);
    }
  }

  lemma AllRoutes(fs: Fs, roots: seq<Entry>)
    requires Closed(fs) && forall e | e in roots :: e.ino in fs
    ensures forall v :: v in WalkRoots(fs, roots) <==> Visited(fs, roots, v)
  {
    hide Visited, WalkRoots;
    forall v ensures v in WalkRoots(fs, roots) <==> Visited(fs, roots, v) {
      VisitsAreRoutes(fs, roots, v);
    }
  }
}
