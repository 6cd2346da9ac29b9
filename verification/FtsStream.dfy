// The walker itself: linked entries, a shared path buffer, and fts_read.
module FtsStream {
  import opened FtsWalk
  import opened FtsRoutes

  // An entry of the stream. Entries made together are linked in order; `pos` is the place of an entry in
  // that order.
  class Ftsent {
    const name: string
    const ino: nat
    const level: int
    const parent: Ftsent?
    ghost const pos: nat
    var info: Info
    var pathlen: nat
    var link: Ftsent?

    constructor (name: string, ino: nat, level: int, parent: Ftsent?, ghost pos: nat)
      ensures this.name == name && this.ino == ino && this.level == level && this.parent == parent && this.pos == pos
      ensures info == Init && pathlen == 0 && link == null
    {
      this.name, this.ino, this.level, this.parent, this.pos := name, ino, level, parent, pos;
      info, pathlen, link := Init, 0, null;
    }
  }

  // The place in the path buffer where a name is appended to a directory.
  function Append(path: string, pathlen: nat): (n: nat)
    requires 0 < pathlen <= |path|
    ensures n <= pathlen
  {
    if path[pathlen - 1] == '/' then pathlen - 1 else pathlen
  }

  lemma AppendJoins(path: string, dir: string, name: string)
    requires dir != "" && dir <= path
    ensures path[..Append(path, |dir|)] + "/" + name == Join(dir, name) && dir <= Join(dir, name)
  {
  }

  // The slash behind the directory: what is before it stays.
  lemma Slash(dir: string, len: nat)
    requires dir != "" && len == Append(dir, |dir|)
    ensures len <= |dir| && dir <= dir[..len] + "/"
  {
    if dir[|dir| - 1] == '/' {
      assert dir == dir[..len] + "/";
    }
  }

  // A list of entries: linked in order, one level, one parent.
  ghost predicate Placed(ns: seq<Ftsent>, i: nat, level: int, parent: Ftsent?)
    requires i < |ns|
    reads ns`link
  {
    && ns[i].level == level && ns[i].parent == parent && ns[i].pos == ns[0].pos + i
    && ns[i].link == (if i + 1 < |ns| then ns[i + 1] else null)
  }

  ghost predicate List(ns: seq<Ftsent>, level: int, parent: Ftsent?)
    reads ns`link
  {
    forall i: nat | i < |ns| :: Placed(ns, i, level, parent)
  }

  method LinkAfter(tail: Ftsent, p: Ftsent, ghost ns: seq<Ftsent>, ghost level: int, ghost parent: Ftsent?)
    requires List(ns, level, parent) && ns != [] && tail == ns[|ns| - 1]
    requires p.level == level && p.parent == parent && p.pos == ns[0].pos + |ns| && p.link == null
    modifies tail`link
    ensures List(ns + [p], level, parent)
  {
    assert Placed(ns, |ns| - 1, level, parent);
    tail.link := p;
    forall i: nat | i < |ns| + 1 ensures Placed(ns + [p], i, level, parent) {
      if i < |ns| {
        assert old(Placed(ns, i, level, parent));
      }
    }
  }

  lemma ListTail(ns: seq<Ftsent>, level: int, parent: Ftsent?)
    requires List(ns, level, parent) && |ns| > 1
    ensures List(ns[1..], level, parent) && ns[0].link == ns[1] && ns[1].parent == parent && ns[1].level == level
  {
    assert Placed(ns, 0, level, parent) && Placed(ns, 1, level, parent);
    forall i: nat | i < |ns| - 1 ensures Placed(ns[1..], i, level, parent) {
      assert Placed(ns, i + 1, level, parent);
    }
  }

  // An entry for a name that has not been visited yet.
  ghost predicate Waits(fs: Fs, n: Ftsent, e: Entry, chain: seq<nat>, dir: string)
    reads n`info, n`pathlen
  {
    && n.name == e.name && n.ino == e.ino && e.ino in fs && n.info == Classify(fs, e.ino, chain)
    && (dir != "" ==> n.pathlen == |Join(dir, e.name)|)
  }

  ghost predicate Waiting(fs: Fs, ns: seq<Ftsent>, es: seq<Entry>, chain: seq<nat>, dir: string)
    reads ns`info, ns`pathlen
  {
    |ns| == |es| && forall i | 0 <= i < |ns| :: Waits(fs, ns[i], es[i], chain, dir)
  }

  lemma WaitingPush(fs: Fs, ns: seq<Ftsent>, es: seq<Entry>, p: Ftsent, e: Entry, chain: seq<nat>, dir: string)
    requires Waiting(fs, ns, es, chain, dir) && Waits(fs, p, e, chain, dir)
    ensures Waiting(fs, ns + [p], es + [e], chain, dir)
  {
  }

  lemma NoneWaiting(fs: Fs, ns: seq<Ftsent>, es: seq<Entry>, dir: string)
    requires ns == [] && es == []
    ensures forall chain :: Waiting(fs, ns, es, chain, dir)
  {
  }

  // The entry above level k on the current path.
  ghost function Up(root: Ftsent, nodes: seq<seq<Ftsent>>, k: nat): Ftsent
    requires k <= |nodes| && forall j | 0 <= j < |nodes| :: nodes[j] != []
  {
    if k == 0 then root else nodes[k - 1][0]
  }

  // The list at level k is what the machine says: the entry on the path, then those still waiting.
  ghost predicate LevelMirrors(fs: Fs, root: Ftsent, nodes: seq<seq<Ftsent>>, m: Machine, k: nat)
    requires k < |nodes| == |m| && forall j | 0 <= j < |nodes| :: nodes[j] != []
    reads nodes[k]
  {
    && List(nodes[k], k, Up(root, nodes, k))
    && Waiting(fs, nodes[k][1..], m[k].rest, Inos(m[..k]), if k == 0 then "" else m[k - 1].path)
    && nodes[k][0].info == m[k].info
    && (m[k].info != Init ==> nodes[k][0].ino == m[k].ino && nodes[k][0].pathlen == |m[k].path|)
  }

  ghost function All(nodes: seq<seq<Ftsent>>): (s: set<Ftsent>)
    ensures forall k, n | 0 <= k < |nodes| && n in nodes[k] :: n in s
  {
    set k, n | 0 <= k < |nodes| && n in nodes[k] :: n
  }

  ghost predicate Mirrors(fs: Fs, root: Ftsent, nodes: seq<seq<Ftsent>>, m: Machine)
    reads All(nodes)
  {
    && |nodes| == |m| && (forall k | 0 <= k < |nodes| :: nodes[k] != [])
    && forall k: nat | k < |nodes| :: LevelMirrors(fs, root, nodes, m, k)
  }

  // The paths on the way down extend each other.
  ghost predicate PathOk(m: Machine, k: nat)
    requires 0 < k < |m|
  {
    m[k - 1].path != "" && m[k - 1].path <= m[k].path && m[k].info != Init && m[k - 1].info != Init
  }

  ghost predicate PathsDown(m: Machine) {
    forall k: nat | 0 < k < |m| :: PathOk(m, k)
  }

  ghost predicate Paths(m: Machine, path: string) {
    && PathsDown(m)
    && (m != [] && m[|m| - 1].info != Init ==> path == m[|m| - 1].path != "")
    && (m != [] ==> forall e | e in m[0].rest :: e.name != "")
  }

  lemma PathsDownFrom(m: Machine, path: string)
    requires Paths(m, path)
    ensures PathsDown(m)
  {
  }

  lemma PathsPush(m: Machine, path: string, l: Level)
    requires Paths(m, path) && m != [] && m[|m| - 1].info != Init && l.info != Init && m[|m| - 1].path <= l.path
    ensures Paths(m + [l], l.path)
  {
    forall k: nat | 0 < k <= |m| ensures PathOk(m + [l], k) {
      assert k < |m| ==> PathOk(m, k);
    }
  }

  lemma AllPush(nodes: seq<seq<Ftsent>>, ns: seq<Ftsent>, objects: set<Ftsent>)
    requires All(nodes) <= objects
    ensures All(nodes + [ns]) <= objects + (set n | n in ns)
  {
  }

  // A level more.
  lemma PushMirrors(fs: Fs, root: Ftsent, nodes: seq<seq<Ftsent>>, m: Machine, ns: seq<Ftsent>, l: Level)
    requires Mirrors(fs, root, nodes, m) && m != [] && ns != [] && List(ns, |m|, nodes[|m| - 1][0])
    requires Waiting(fs, ns[1..], l.rest, Inos(m), m[|m| - 1].path) && ns[0].info == l.info && ns[0].ino == l.ino
      && ns[0].pathlen == |l.path|
    ensures Mirrors(fs, root, nodes + [ns], m + [l])
  {
    var nodes', m' := nodes + [ns], m + [l];
    forall k: nat | k < |nodes'| ensures LevelMirrors(fs, root, nodes', m', k) {
      assert m'[..k] == m[..k];
      if k < |nodes| {
        assert LevelMirrors(fs, root, nodes, m, k);
      } else {
        assert m[..k] == m;
      }
    }
  }

  lemma SeenInv(fs: Fs, m: Machine, info: Info)
    requires Inv(fs, m) && m != [] && info != D
    ensures Inv(fs, m[|m| - 1 := m[|m| - 1].(info := info)])
  {
    StepReady(fs, m);
    ReplaceInv(fs, m, m[|m| - 1].(info := info));
  }

  lemma PathsSeen(m: Machine, path: string, info: Info)
    requires Paths(m, path) && m != [] && m[|m| - 1].info != Init && info != Init
    ensures Paths(m[|m| - 1 := m[|m| - 1].(info := info)], path)
  {
    var m' := m[|m| - 1 := m[|m| - 1].(info := info)];
    forall k: nat | 0 < k < |m'| ensures PathOk(m', k) {
      assert PathOk(m, k);
    }
  }

  lemma PathsNext(m: Machine, path: string, l: Level)
    requires Paths(m, path) && m != [] && l.info != Init && m[|m| - 1].rest != [] && l.rest == m[|m| - 1].rest[1..]
      && l.path != ""
    requires |m| > 1 ==> m[|m| - 2].path <= l.path
    ensures Paths(m[|m| - 1 := l], l.path)
  {
    var m' := m[|m| - 1 := l];
    forall k: nat | 0 < k < |m'| ensures PathOk(m', k) {
      assert PathOk(m, k);
    }
  }

  // fts_load: the next root has its name as path.
  method Load(p: Ftsent, ghost fs: Fs, ghost root: Ftsent, ghost nodes: seq<seq<Ftsent>>, ghost m: Machine)
    requires Mirrors(fs, root, nodes, m) && |m| == 1 && |nodes[0]| > 1 && p == nodes[0][1]
    modifies p`pathlen
    ensures Mirrors(fs, root, nodes, m) && p.pathlen == |p.name|
  {
    assert LevelMirrors(fs, root, nodes, m, 0) && Placed(nodes[0], 1, 0, Up(root, nodes, 0))
      && Placed(nodes[0], 0, 0, Up(root, nodes, 0));
    p.pathlen := |p.name|;
    assert old(LevelMirrors(fs, root, nodes, m, 0));
    assert LevelMirrors(fs, root, nodes, m, 0);
  }

  lemma PathsUp(m: Machine, path: string)
    requires Paths(m, path) && |m| > 1 && m[|m| - 1].info != Init
    ensures var k := |m| - 1;
      |m[k - 1].path| <= |path| && Paths(m[..k][k - 1 := m[k - 1].(info := DP)], path[..|m[k - 1].path|])
  {
    var k := |m| - 1;
    var m' := m[..k][k - 1 := m[k - 1].(info := DP)];
    assert PathOk(m, k);
    forall j: nat | 0 < j < |m'| ensures PathOk(m', j) {
      assert PathOk(m, j);
    }
  }

  // A level less.
  lemma PopMirrors(fs: Fs, root: Ftsent, nodes: seq<seq<Ftsent>>, m: Machine)
    requires Mirrors(fs, root, nodes, m) && m != []
    ensures Mirrors(fs, root, nodes[..|m| - 1], m[..|m| - 1]) && All(nodes[..|m| - 1]) <= All(nodes)
  {
    var nodes', m' := nodes[..|m| - 1], m[..|m| - 1];
    forall k: nat | k < |nodes'| ensures LevelMirrors(fs, root, nodes', m', k) {
      assert m'[..k] == m[..k] && LevelMirrors(fs, root, nodes, m, k);
    }
  }

  // The next of the entries that wait at the last level.
  lemma ShiftMirrors(fs: Fs, root: Ftsent, nodes: seq<seq<Ftsent>>, m: Machine, l: Level)
    requires Mirrors(fs, root, nodes, m) && m != [] && m[|m| - 1].rest != [] && l.rest == m[|m| - 1].rest[1..]
    requires |nodes[|m| - 1]| > 1 && nodes[|m| - 1][1].info == l.info && nodes[|m| - 1][1].ino == l.ino
      && nodes[|m| - 1][1].pathlen == |l.path|
    ensures var k := |m| - 1;
      Mirrors(fs, root, nodes[k := nodes[k][1..]], m[k := l]) && All(nodes[k := nodes[k][1..]]) <= All(nodes)
  {
    var k := |m| - 1;
    var nodes', m' := nodes[k := nodes[k][1..]], m[k := l];
    assert LevelMirrors(fs, root, nodes, m, k);
    ListTail(nodes[k], k, Up(root, nodes, k));
    WaitingTail(fs, nodes[k][1..], m[k].rest, Inos(m[..k]), if k == 0 then "" else m[k - 1].path);
    forall j: nat | j < |nodes'| ensures LevelMirrors(fs, root, nodes', m', j) {
      assert m'[..j] == m[..j] && LevelMirrors(fs, root, nodes, m, j);
    }
  }

  // The entry on the path at level k is seen once more.
  method SetInfo(n: Ftsent, info: Info, ghost fs: Fs, ghost root: Ftsent, ghost nodes: seq<seq<Ftsent>>,
      ghost m: Machine, ghost k: nat)
    requires Mirrors(fs, root, nodes, m) && k < |m| && n == nodes[k][0] && m[k].info != Init && info != Init
    modifies n`info
    ensures Mirrors(fs, root, nodes, m[k := m[k].(info := info)])
  {
    assert LevelMirrors(fs, root, nodes, m, k);
    ListFirst(nodes[k], k, Up(root, nodes, k));
    assert n.level == k;
    n.info := info;
    ghost var m' := m[k := m[k].(info := info)];
    forall j: nat | j < |nodes| ensures LevelMirrors(fs, root, nodes, m', j) {
      assert old(LevelMirrors(fs, root, nodes, m, j)) && old(LevelMirrors(fs, root, nodes, m, k));
      SameInos(m, m', k, j);
      Others(nodes[j], j, Up(root, nodes, j), n);
    }
  }

  // Replacing how a level is seen changes neither the chain nor the paths.
  lemma SameInos(m: Machine, m': Machine, k: nat, j: nat)
    requires k < |m| == |m'| && j <= |m| && m'[k].ino == m[k].ino
      && forall i | 0 <= i < |m| && i != k :: m'[i] == m[i]
    ensures Inos(m'[..j]) == Inos(m[..j])
  {
  }

  // Only the first entry of its own list is n.
  lemma Others(ns: seq<Ftsent>, level: int, parent: Ftsent?, n: Ftsent)
    requires List(ns, level, parent)
    ensures forall i | 0 < i < |ns| && (n.level != level || n == ns[0]) :: ns[i] != n
    ensures n.level != level && ns != [] ==> ns[0] != n
  {
    forall i: nat | i < |ns| ensures ns[i].level == level && ns[i].pos == ns[0].pos + i {
      assert Placed(ns, i, level, parent);
    }
  }

  class Stream {
    const fs: Fs
    const rootParent: Ftsent
    var cur: Ftsent?
    var path: string
    ghost var m: Machine
    ghost var nodes: seq<seq<Ftsent>>
    ghost var objects: set<Ftsent>

    // Everything but what is in the path buffer.
    ghost predicate Core()
      reads this`cur, this`m, this`nodes, this`objects, objects
    {
      && All(nodes) <= objects
      && Inv(fs, m) && rootParent.level == -1 && Mirrors(fs, rootParent, nodes, m)
      && PathsDown(m) && cur == (if m == [] then null else nodes[|m| - 1][0])
    }

    ghost predicate Valid()
      reads this, objects
    {
      Core() && Paths(m, path)
    }

    // fts_open without a comparison routine: the roots in the order given, behind a dummy entry.
    constructor (fs: Fs, roots: seq<Entry>)
      requires Closed(fs) && forall e | e in roots :: e.ino in fs && e.name != ""
      ensures Valid() && this.fs == fs && m == Opened(roots) && fresh(objects)
    {
      this.fs := fs;
      var up := new Ftsent("", 0, -1, null, 0);
      var dummy := new Ftsent("", 0, 0, up, 0);
      rootParent, cur, path := up, dummy, "";
      m, nodes, objects := Opened(roots), [[dummy]], {};
      new;
      OneList(dummy, 0, up);
      hide List, Waiting, Waits;
      MakeRoots(dummy, up, roots);
      OpenedInv(fs, roots);
      hide Inv;
      objects := set n | n in nodes[0];
      assert m[..0] == [] && Inos(m[..0]) == [];
    }

    // The loop over the arguments.
    method MakeRoots(dummy: Ftsent, up: Ftsent, roots: seq<Entry>)
      requires nodes == [[dummy]] && List([dummy], 0, up) && dummy.pos == 0 && (forall e | e in roots :: e.ino in fs)
        && dummy.info == Init
      modifies this`nodes, dummy`link
      ensures |nodes| == 1 && |nodes[0]| == 1 + |roots| && nodes[0][0] == dummy && fresh(nodes[0][1..])
      ensures List(nodes[0], 0, up) && Waiting(fs, nodes[0][1..], roots, [], "")
    {
      hide List, Waiting;
      assert Waiting(fs, nodes[0][1..], roots[..0], [], "") by { NoneWaiting(fs, nodes[0][1..], roots[..0], ""); }
      var tail: Ftsent := dummy;
      for i := 0 to |roots|
        invariant |nodes| == 1 && |nodes[0]| == i + 1 && nodes[0][0] == dummy && tail == nodes[0][i]
          && fresh(nodes[0][1..])
        invariant List(nodes[0], 0, up) && Waiting(fs, nodes[0][1..], roots[..i], [], "") && dummy.info == Init
      {
        var p := new Ftsent(roots[i].name, roots[i].ino, 0, up, i + 1);
        p.info := match fs[roots[i].ino] case Leaf(info) => info case Dir(_, _) => D;
        ghost var ns := nodes[0];
        LinkAfter(tail, p, ns, 0, up);
        tail := p;
        nodes := [ns + [p]];
        WaitingPush(fs, ns[1..], roots[..i], p, roots[i], [], "");
        assert (ns + [p])[1..] == ns[1..] + [p] && roots[..i + 1] == roots[..i] + [roots[i]];
      }
      assert roots[..|roots|] == roots;
    }

    // The entries on the current path, from level j up.
    lemma OnPath(j: nat)
      requires Core() && 0 < j <= |m|
      ensures Up(rootParent, nodes, j).level == j - 1 && Up(rootParent, nodes, j).parent
        == Up(rootParent, nodes, j - 1) && (m[j - 1].info != Init
        ==> Up(rootParent, nodes, j).ino == m[j - 1].ino && Up(rootParent, nodes, j).pathlen == |m[j - 1].path|)
      ensures Up(rootParent, nodes, j).info == m[j - 1].info
    {
      assert LevelMirrors(fs, rootParent, nodes, m, j - 1)
        && Placed(nodes[j - 1], 0, j - 1, Up(rootParent, nodes, j - 1));
    }

    // The cycle test of fts_stat: the parents are searched for the same directory.
    method Stat(ino: nat, parent: Ftsent, ghost k: nat) returns (info: Info)
      requires Core() && k <= |m| && parent == Up(rootParent, nodes, k) && ino in fs
        && (k > 0 ==> m[k - 1].info != Init)
      ensures info == Classify(fs, ino, Inos(m[..k]))
    {
      if fs[ino].Leaf? {
        return fs[ino].info;
      }
      hide Core, LevelMirrors;
      var t: Ftsent := parent;
      ghost var j := k;
      RootParent();
      while t.level >= 0
        invariant 0 <= j <= k <= |m| == |nodes| && (forall i | 0 <= i < |nodes| :: nodes[i] != [])
          && t == Up(rootParent, nodes, j) && t.level == j - 1
        invariant forall i | j <= i < k :: m[i].ino != ino
        decreases j
      {
        NotInit(j);
        OnPath(j);
        if t.ino == ino {
          assert Inos(m[..k])[j - 1] == ino;
          return DC;
        }
        t := t.parent;
        j := j - 1;
        if j > 0 {
          OnPath(j);
        }
      }
      assert forall i | 0 <= i < k :: Inos(m[..k])[i] != ino;
      return D;
    }

    lemma RootParent()
      requires Core()
      ensures rootParent.level == -1 && |nodes| == |m| && (forall i | 0 <= i < |nodes| :: nodes[i] != [])
      ensures forall k | 0 <= k <= |m| :: Up(rootParent, nodes, k).level == k - 1
    {
      forall k | 0 < k <= |m| ensures Up(rootParent, nodes, k).level == k - 1 {
        OnPath(k);
      }
    }

    lemma NotInit(j: nat)
      requires Core() && 0 < j <= |m| && (j == |m| ==> m[j - 1].info != Init)
      ensures m[j - 1].info != Init
    {
      if j < |m| {
        assert PathOk(m, j);
      }
    }

    // What the current entry looks like.
    lemma CurrentEntry()
      requires Core() && m != []
      ensures cur != null && |nodes| == |m| && nodes[|m| - 1] != [] && cur == nodes[|m| - 1][0]
        && cur.info == m[|m| - 1].info
      ensures cur.level == |m| - 1 && (m[|m| - 1].info != Init
        ==> cur.ino == m[|m| - 1].ino && cur.pathlen == |m[|m| - 1].path|)
      ensures m[|m| - 1].info == D ==> cur.ino in fs && fs[cur.ino].Dir?
    {
      OnPath(|m|);
      StepReady(fs, m);
    }

    lemma Current()
      requires Valid() && m != []
      ensures cur != null && |nodes| == |m| && nodes[|m| - 1] != [] && cur == nodes[|m| - 1][0]
        && cur.info == m[|m| - 1].info
      ensures cur.level == |m| - 1 && (m[|m| - 1].info != Init
        ==> cur.ino == m[|m| - 1].ino && cur.pathlen == |m[|m| - 1].path| && path == m[|m| - 1].path != "")
      ensures m[|m| - 1].info == D ==> cur.ino in fs && fs[cur.ino].Dir?
    {
      hide Core;
      CurrentEntry();
    }

    lemma EntriesKnown()
      requires Core() && m != [] && m[|m| - 1].info == D && m[|m| - 1].ino in fs && fs[m[|m| - 1].ino].Dir?
      ensures forall e | e in fs[m[|m| - 1].ino].dirents :: e.ino in fs
    {
    }

    // One entry of the current directory; its path is in the buffer.
    method MakeEntry(e: Entry, len: nat, ghost pos: nat) returns (p: Ftsent)
      requires Core() && m != [] && m[|m| - 1].info == D && e.ino in fs
      requires path == Join(m[|m| - 1].path, e.name) && len + |e.name| == |path|
      ensures Core() && fresh(p) && cur != null && p.level == |m| && p.parent == cur && p.pos == pos
        && p.link == null
      ensures Waits(fs, p, e, Inos(m), m[|m| - 1].path)
    {
      hide Core;
      CurrentEntry();
      RootParent();
      assert m[..|m|] == m;
      var info := Stat(e.ino, cur, |m|);
      p := new Ftsent(e.name, e.ino, cur.level + 1, cur, pos);
      p.info := info;
      p.pathlen := len + |e.name|;
    }

    // Its name is written behind the slash in the buffer.
    method NameEntry(e: Entry, len: nat, ghost stem: string, ghost dir: string, ghost pos: nat) returns (p: Ftsent)
      requires Core() && m != [] && m[|m| - 1].info == D && e.ino in fs && m[|m| - 1].path == dir != ""
      requires stem == dir[..Append(dir, |dir|)] + "/" && len == |stem| && stem <= path
      modifies this`path
      ensures Core() && stem <= path && fresh(p) && cur != null && p.level == |m| && p.parent == cur && p.pos == pos
        && p.link == null
      ensures Waits(fs, p, e, Inos(m), dir)
    {
      hide Core, Waits, Join, Append, Inos;
      assert path[..len] == stem;
      path := path[..len] + e.name;
      AppendJoins(dir, dir, e.name);
      p := MakeEntry(e, len, pos);
    }

    // The names of a directory, read one after the other: each but "." and ".." is written behind the slash in
    // the path buffer and given an entry.
    method ReadNames(dirents: seq<Entry>, ghost dir: string) returns (head: Ftsent?, ghost ns: seq<Ftsent>)
      requires Core() && m != [] && m[|m| - 1].info == D && m[|m| - 1].path == dir != ""
        && forall e | e in dirents :: e.ino in fs
      requires path == dir[..Append(dir, |dir|)] + "/"
      modifies this`path
      ensures Core() && old(path) <= path && fresh(ns) && head == (if ns == [] then null else ns[0])
      ensures List(ns, |m|, cur) && Waiting(fs, ns, Seen(dirents), Inos(m), dir)
    {
      hide Core, List, Waiting, Waits, Join, Append, Seen, Inos, IsDot, Classify;
      CurrentEntry();
      var len := |path|;
      ghost var stem := path;
      head, ns := null, [];
      var tail: Ftsent := cur;
      EmptyList(|m|, cur);
      assert Waiting(fs, ns, Seen(dirents[..0]), Inos(m), dir) by {
        NoneSeen();
        NoneWaiting(fs, ns, Seen(dirents[..0]), dir);
      }
      for i := 0 to |dirents|
        invariant Core() && stem <= path && fresh(ns) && head == (if ns == [] then null else ns[0])
          && (ns != [] ==> tail == ns[|ns| - 1] && ns[0].pos == 0)
        invariant List(ns, |m|, cur) && Waiting(fs, ns, Seen(dirents[..i]), Inos(m), dir)
      {
        assert dirents[..i + 1] == dirents[..i] + [dirents[i]];
        SeenNext(dirents[..i], dirents[i]);
        if IsDot(dirents[i].name) {
          continue;
        }
        var p := NameEntry(dirents[i], len, stem, dir, |ns|);
        head := PushBack(head, tail, p, ns, |m|, cur);
        tail := p;
        WaitingPush(fs, ns, Seen(dirents[..i]), p, dirents[i], Inos(m), dir);
        ns := ns + [p];
      }
      assert dirents[..|dirents|] == dirents;
    }

    // fts_build: an entry for every name in the current directory but "." and "..", in order. The path buffer
    // is cut back at the end.
    method Build() returns (head: Ftsent?, ghost ns: seq<Ftsent>)
      requires Valid() && m != [] && m[|m| - 1].info == D
      modifies this`path
      ensures Valid() && path == old(path) && fresh(ns) && cur != null && cur.ino in fs && fs[cur.ino].Dir?
        && head == (if ns == [] then null else ns[0])
      ensures List(ns, |m|, cur) && Waiting(fs, ns, fs[cur.ino].Entries(), Inos(m), m[|m| - 1].path)
    {
      hide Core, List, Waiting, Paths, Append, Seen, Inos;
      Current();
      EntriesKnown();
      ghost var dir := path;
      var len := Append(path, cur.pathlen);
      Slash(dir, len);
      path := path[..len] + "/";
      head, ns := ReadNames(fs[cur.ino].dirents, dir);
      path := path[..cur.pathlen];
      assert path == dir;
    }

    // ---- fts_read ------------------------------------------------------------------------------

    // Entering a directory: the first of its entries, with its name appended to the path.
    method Enter(head: Ftsent, ghost ns: seq<Ftsent>)
      requires Valid() && m != [] && m[|m| - 1].info == D && m[|m| - 1].ino in fs && fs[m[|m| - 1].ino].Dir?
        && fs[m[|m| - 1].ino].readable
      requires ns != [] && head == ns[0] && List(ns, |m|, cur)
        && Waiting(fs, ns, fs[m[|m| - 1].ino].Entries(), Inos(m), m[|m| - 1].path)
      requires Waits(fs, ns[0], fs[m[|m| - 1].ino].Entries()[0], Inos(m), m[|m| - 1].path)
      modifies this
      ensures Valid() && m == old(m) + [First(fs, old(m))] && objects == old(objects) + (set n | n in ns)
    {
      hide Inv, Mirrors, List, Waiting, First, Paths, All, Waits, Join, Append, Inos, Seen;
      Current();
      WaitingTail(fs, ns, fs[m[|m| - 1].ino].Entries(), Inos(m), m[|m| - 1].path);
      EnterFacts(fs, m);
      ghost var k := |m|;
      ghost var l := First(fs, m);
      FirstIs(fs, m);
      ListFirst(ns, k, cur);
      WaitsIs(fs, ns[0], fs[m[k - 1].ino].Entries()[0], Inos(m), m[k - 1].path);
      AppendJoins(path, m[k - 1].path, head.name);
      PushMirrors(fs, rootParent, nodes, m, ns, l);
      AllPush(nodes, ns, objects);
      NotInitial(fs, l.ino, Inos(m));
      PathsPush(m, path, l);
      Update(head, path[..Append(path, head.parent.pathlen)] + "/" + head.name, m + [l], nodes + [ns],
        objects + (set n | n in ns));
    }

    // A directory that is not entered is seen again.
    method Again(info: Info)
      requires Valid() && m != [] && m[|m| - 1].info == D && info != Init && info != D
      modifies this, objects`info
      ensures Valid() && m == old(m)[|old(m)| - 1 := old(m)[|old(m)| - 1].(info := info)] && objects == old(objects)
    {
      hide Inv, Mirrors, Paths, All;
      Current();
      ghost var k := |m| - 1;
      CurIn();
      SeenInv(fs, m, info);
      PathsSeen(m, path, info);
      SetInfo(cur, info, fs, rootParent, nodes, m, k);
      Update(cur, path, m[k := m[k].(info := info)], nodes, objects);
    }

    // The next entry of the same directory, or the next root.
    method Sibling(p: Ftsent)
      requires Valid() && m != [] && m[|m| - 1].info != D && m[|m| - 1].rest != [] && cur != null && cur.link == p
      requires m[|m| - 1].rest[0].ino in fs
      modifies this, objects`pathlen
      ensures Valid() && m == old(m)[|old(m)| - 1 := Next(fs, old(m))] && objects == old(objects)
    {
      hide Inv, Mirrors, Paths, All, Waits, Waiting, List, Next;
      Current();
      ghost var k, l := |m| - 1, Next(fs, m);
      SiblingFacts(p);
      var path' := p.name;
      if p.level == 0 {
        Load(p, fs, rootParent, nodes, m);
      } else {
        path' := path[..Append(path, p.parent.pathlen)] + "/" + p.name;
      }
      ShiftMirrors(fs, rootParent, nodes, m, l);
      Update(p, path', m[k := l], nodes[k := nodes[k][1..]], objects);
    }

    // The entry linked to the current one is the first that waits.
    lemma SiblingNode(p: Ftsent)
      requires Valid() && m != [] && m[|m| - 1].rest != [] && cur != null && cur.link == p
      ensures var k := |m| - 1;
        && |nodes| == |m| && |nodes[k]| > 1 && p == nodes[k][1] && p in objects && p.level == k
        && (k > 0 ==> nodes[k - 1] != []) && p.parent == (if k == 0 then rootParent else nodes[k - 1][0])
        && Waits(fs, p, m[k].rest[0], Inos(m[..k]), if k == 0 then "" else m[k - 1].path)
    {
      hide Inv, Paths, Waits;
      var k := |m| - 1;
      assert LevelMirrors(fs, rootParent, nodes, m, k);
      WaitingTail(fs, nodes[k][1..], m[k].rest, Inos(m[..k]), if k == 0 then "" else m[k - 1].path);
      ListTail(nodes[k], k, Up(rootParent, nodes, k));
      assert nodes[k][1] in nodes[k];
    }

    // Its name is appended to the path of the directory.
    lemma SiblingPath(name: string)
      requires Valid() && |m| > 1
      ensures var k := |m| - 1; var up := nodes[k - 1][0];
        && m[k - 1].path != "" && 0 < up.pathlen <= |path| && m[k - 1].path <= Join(m[k - 1].path, name)
        && path[..Append(path, up.pathlen)] + "/" + name == Join(m[k - 1].path, name)
    {
      hide Inv, Mirrors;
      var k := |m| - 1;
      OnPath(k);
      assert PathOk(m, k);
      AppendJoins(path, m[k - 1].path, name);
    }

    lemma SiblingFacts(p: Ftsent)
      requires Valid() && m != [] && m[|m| - 1].rest != [] && cur != null && cur.link == p
        && m[|m| - 1].rest[0].ino in fs
      ensures var k, l := |m| - 1, Next(fs, m);
        && |nodes| == |m| && |nodes[k]| > 1 && p == nodes[k][1] && p in objects && p.level == k
          && p.name == m[k].rest[0].name
        && p.info == l.info && p.ino == l.ino && l.rest == m[k].rest[1..] && Inv(fs, m[k := l])
          && Paths(m[k := l], l.path)
        && (k == 0 ==> l.path == p.name)
        && (k > 0 ==> p.parent != null && 0 < p.parent.pathlen <= |path| && p.pathlen == |l.path|
                      && l.path == path[..Append(path, p.parent.pathlen)] + "/" + p.name)
    {
      hide Inv, Mirrors, All, Paths, Pending, Ahead, Classify, Join, Append, Inos;
      var k, l := |m| - 1, Next(fs, m);
      SiblingNode(p);
      SiblingLevel();
      if k > 0 {
        SiblingPath(p.name);
      }
    }

    // The level that comes next keeps the machine's invariant, and its path is to be in the buffer.
    lemma SiblingLevel()
      requires Valid() && m != [] && m[|m| - 1].rest != [] && m[|m| - 1].rest[0].ino in fs
      ensures var k, l := |m| - 1, Next(fs, m); Inv(fs, m[k := l]) && Paths(m[k := l], l.path)
    {
      hide Inv, Mirrors, All, Pending, Ahead;
      var k, l := |m| - 1, Next(fs, m);
      PendingNext(fs, m);
      NotInitial(fs, l.ino, Inos(m[..k]));
      if k > 0 {
        SiblingPath(m[k].rest[0].name);
      }
      PathsNext(m, path, l);
    }

    // Back to the directory, seen for the last time; the path is cut to its own.
    method Ascend(p: Ftsent)
      requires Valid() && |m| > 1 && m[|m| - 1].info != D && m[|m| - 1].rest == [] && cur != null && cur.parent == p
      modifies this, objects`info
      ensures Valid() && m == old(m)[..|old(m)| - 1][|old(m)| - 2 := old(m)[|old(m)| - 2].(info := DP)]
        && objects == old(objects)
    {
      hide Inv, Mirrors, Paths, All;
      Current();
      ghost var k := |m| - 1;
      AscendFacts();
      PopMirrors(fs, rootParent, nodes, m);
      var path' := path[..p.pathlen];
      SetInfo(p, DP, fs, rootParent, nodes[..k], m[..k], k - 1);
      Update(p, path', m[..k][k - 1 := m[k - 1].(info := DP)], nodes[..k], objects);
    }

    lemma AscendFacts()
      requires Valid() && |m| > 1 && m[|m| - 1].rest == [] && cur != null
      ensures var k, p := |m| - 1, cur.parent;
        && |nodes| == |m| && p != null && nodes[k - 1] != [] && p == nodes[k - 1][0] && p in objects
          && p.pathlen <= |path|
        && Inv(fs, m[..k][k - 1 := m[k - 1].(info := DP)])
          && Paths(m[..k][k - 1 := m[k - 1].(info := DP)], path[..p.pathlen])
        && m[k - 1].info != Init
    {
      var k := |m| - 1;
      OnPath(k + 1);
      OnPath(k);
      assert PathOk(m, k);
      UpFacts(fs, m);
      assert nodes[k - 1][0] in nodes[k - 1];
      PathsUp(m, path);
    }

    // fts_read, without instructions from the caller and without changing directories.
    method Read() returns (p: Ftsent?)
      requires Valid() && m != []
      modifies this, objects`info, objects`pathlen
      ensures Valid() && p == cur && fresh(objects - old(objects)) && objects >= old(objects)
      ensures CanStep(fs, old(m)) && m == Step(fs, old(m))
        && (m != [] ==> p != null && p.info == VisitOf(m).info && path == VisitOf(m).path)
    {
      hide Valid, Next, First, Step, CanStep;
      Current();
      ReadFacts();
      StepFacts();
      p := cur;
      if p.info == D {
        if !fs[p.ino].readable {
          Again(DNR);
        } else {
          var head, ns := Build();
          if head == null {
            Again(DP);
          } else {
            Enter(head, ns);
          }
        }
      } else if p.link != null {
        Sibling(p.link);
      } else if p.parent.level == -1 {
        Finish();
      } else {
        Ascend(p.parent);
      }
      p := cur;
      if m != [] {
        Current();
      }
    }

    lemma Ended()
      requires Valid()
      ensures Inv(fs, m) && (cur == null <==> m == [])
    {
    }

    // How the fields of the current entry show which case it is.
    lemma ReadFacts()
      requires Valid() && m != [] && cur != null
      ensures (cur.link == null <==> m[|m| - 1].rest == []) && cur.parent != null && (cur.parent.level == -1
        <==> |m| == 1)
    {
      hide Inv, Waits;
      var k := |m| - 1;
      RootParent();
      OnPath(k + 1);
      assert LevelMirrors(fs, rootParent, nodes, m, k) && Placed(nodes[k], 0, k, Up(rootParent, nodes, k));
    }

    lemma StepFacts()
      requires Valid() && m != []
      ensures CanStep(fs, m) && (m[|m| - 1].info == D ==> m[|m| - 1].ino in fs && fs[m[|m| - 1].ino].Dir?)
      ensures StepIs(fs, m, Step(fs, m))
      ensures Step(fs, m) != [] ==> Step(fs, m)[|Step(fs, m)| - 1].info != Init
    {
      assert Inv(fs, m);
      hide *;
      MachineFacts(fs, m);
    }

    // The end of the last root.
    method Finish()
      requires Valid()
      modifies this
      ensures Valid() && m == [] && objects == old(objects) && cur == null
    {
      assert rootParent.level == -1 && All([]) <= objects && Closed(fs);
      cur, m, nodes := null, [], [];
    }

    lemma CurIn()
      requires Valid() && m != []
      ensures cur != null && cur in objects
    {
    }

    method Update(cur': Ftsent?, path': string, ghost m': Machine, ghost nodes': seq<seq<Ftsent>>,
        ghost objects': set<Ftsent>)
      requires All(nodes') <= objects' && Inv(fs, m') && rootParent.level == -1 && Mirrors(fs, rootParent, nodes', m')
        && Paths(m', path')
      requires |nodes'| == |m'| && (m' != [] ==> nodes'[|m'| - 1] != [])
        && cur' == (if m' == [] then null else nodes'[|m'| - 1][0])
      modifies this
      ensures Valid() && cur == cur' && path == path' && m == m' && nodes == nodes' && objects == objects'
    {
      PathsDownFrom(m', path');
      hide All, Inv, Mirrors, Paths, PathsDown;
      cur, path, m, nodes, objects := cur', path', m', nodes', objects';
    }
  }

  lemma WaitsIs(fs: Fs, n: Ftsent, e: Entry, chain: seq<nat>, dir: string)
    requires Waits(fs, n, e, chain, dir)
    ensures n.name == e.name && n.ino == e.ino && e.ino in fs && n.info == Classify(fs, e.ino, chain)
      && (dir != "" ==> n.pathlen == |Join(dir, e.name)|)
  {
  }

  lemma NotInitial(fs: Fs, ino: nat, chain: seq<nat>)
    requires Closed(fs) && ino in fs
    ensures Classify(fs, ino, chain) != Init
  {
  }

  lemma ListFirst(ns: seq<Ftsent>, level: int, parent: Ftsent?)
    requires List(ns, level, parent) && ns != []
    ensures Placed(ns, 0, level, parent)
  {
  }

  lemma WaitingTail(fs: Fs, ns: seq<Ftsent>, es: seq<Entry>, chain: seq<nat>, dir: string)
    requires Waiting(fs, ns, es, chain, dir) && ns != []
    ensures es != [] && Waits(fs, ns[0], es[0], chain, dir) && Waiting(fs, ns[1..], es[1..], chain, dir)
  {
  }

  lemma OpenedInv(fs: Fs, roots: seq<Entry>)
    requires Closed(fs) && forall e | e in roots :: e.ino in fs && e.name != ""
    ensures Inv(fs, Opened(roots)) && Paths(Opened(roots), "")
  {
  }

  lemma EmptyList(level: int, parent: Ftsent?)
    ensures List([], level, parent)
  {
  }

  lemma OneList(p: Ftsent, level: int, parent: Ftsent?)
    requires p.level == level && p.parent == parent && p.link == null
    ensures List([p], level, parent)
  {
  }

  // An entry behind the last of a list, or a list of one.
  method PushBack(head: Ftsent?, tail: Ftsent, p: Ftsent, ghost ns: seq<Ftsent>, ghost level: int,
      ghost parent: Ftsent?)
    returns (head': Ftsent)
    requires List(ns, level, parent) && head == (if ns == [] then null else ns[0])
      && (ns != [] ==> tail == ns[|ns| - 1] && ns[0].pos == 0)
    requires p.level == level && p.parent == parent && p.pos == |ns| && p.link == null
    modifies ns`link
    ensures List(ns + [p], level, parent) && head' == (ns + [p])[0]
  {
    if head == null {
      head' := p;
      OneList(p, level, parent);
      assert ns + [p] == [p];
    } else {
      head' := head;
      LinkAfter(tail, p, ns, level, parent);
    }
  }

  // A caller's loop: what fts_read returns, call after call, until there is no more. These are the ends of all
  // routes from the roots, in the order of the traversal.
  method ReadAll(fs: Fs, roots: seq<Entry>) returns (out: seq<Visit>)
    requires Closed(fs) && forall e | e in roots :: e.ino in fs && e.name != ""
    ensures out == WalkRoots(fs, roots)
    ensures forall v :: v in out <==> Visited(fs, roots, v)
  {
    hide Visited, WalkRoots, Closed;
    out := ReadEach(fs, roots);
    AllRoutes(fs, roots);
  }

  method ReadEach(fs: Fs, roots: seq<Entry>) returns (out: seq<Visit>)
    requires Closed(fs) && forall e | e in roots :: e.ino in fs && e.name != ""
    ensures out == WalkRoots(fs, roots)
  {
    hide Stream.Valid, Step, CanStep, Remaining, Run, Inv, WalkRoots, Closed, Mirrors, Paths, All;
    var stream := new Stream(fs, roots);
    WalkIsTraversal(fs, roots);
    RunRemaining(fs, stream.m);
    StepVisits(fs, stream.m);
    out := [];
    var p := stream.Read();
    stream.Ended();
    while p != null
      invariant stream.Valid() && fresh(stream) && fresh(stream.objects) && stream.fs == fs
      invariant Inv(fs, stream.m) && (p == null <==> stream.m == [])
      invariant p != null ==> p.info == VisitOf(stream.m).info && stream.path == VisitOf(stream.m).path
      invariant WalkRoots(fs, roots) ==
        out + if p == null then [] else [VisitOf(stream.m)] + Remaining(fs, stream.m)
      decreases if p == null then 0 else 1 + |Remaining(fs, stream.m)|
    {
      out := out + [Visit(stream.path, p.info)];
      StepVisits(fs, stream.m);
      p := stream.Read();
      stream.Ended();
    }
  }
}
