// Directory traversal on values: the recursive traversal of a directory graph, and the walker's steps
// as a machine over a stack of sibling lists.
module FtsWalk {
  import opened FiniteSets

  datatype Info = D | DC | DP | DNR | F | SL | SLNone | Default | NS | Init

  // What a file is: a directory with named entries, or something else with the code it gets.
  datatype File = Dir(readable: bool, dirents: seq<Entry>) | Leaf(info: Info) {
    // The entries a walk sees.
    function Entries(): seq<Entry>
      requires Dir?
    {
      Seen(dirents)
    }
  }
  datatype Entry = Entry(name: string, ino: nat)

  predicate IsDot(name: string) {
    name == "." || name == ".."
  }

  // All entries but "." and "..", in order.
  function Seen(es: seq<Entry>): (r: seq<Entry>)
    ensures forall e | e in r :: e in es && !IsDot(e.name)
  {
    if es == [] then []
    else
      var last := es[|es| - 1];
      assert es == es[..|es| - 1] + [last];
      Seen(es[..|es| - 1]) + if IsDot(last.name) then [] else [last]
  }

  lemma NoneSeen()
    ensures Seen([]) == []
  {
  }

  lemma SeenNext(es: seq<Entry>, e: Entry)
    ensures Seen(es + [e]) == if IsDot(e.name) then Seen(es) else Seen(es) + [e]
  {
    assert (es + [e])[..|es|] == es;
  }

  // The unchanging file system, by inode, as the walk's kind of stat presents it: with symbolic links
  // followed, directories may form cycles.
  type Fs = map<nat, File>

  ghost predicate Closed(fs: Fs) {
    && (forall i | i in fs && fs[i].Dir? :: forall e | e in fs[i].dirents :: e.ino in fs)
    && forall i | i in fs && fs[i].Leaf? :: fs[i].info !in {D, DP, DC, DNR, Init}
  }

  datatype Visit = Visit(path: string, info: Info)

  // ---- the recursive traversal -----------------------------------------------------

  // fts_stat: a directory already on the way here is a cycle.
  function Classify(fs: Fs, ino: nat, chain: seq<nat>): Info
    requires ino in fs
  {
    match fs[ino]
    case Leaf(info) => info
    case Dir(_, _) => if ino in chain then DC else D
  }

  // A path with one more name; a trailing slash is not doubled.
  function Join(dir: string, name: string): string {
    (if dir != "" && dir[|dir| - 1] == '/' then dir[..|dir| - 1] else dir) + "/" + name
  }

  // Different inodes of the file system.
  ghost predicate Chain(fs: Fs, chain: seq<nat>) {
    Distinct(chain) && forall i | 0 <= i < |chain| :: chain[i] in fs
  }

  lemma ChainBound(fs: Fs, chain: seq<nat>)
    requires Chain(fs, chain)
    ensures |chain| <= |fs|
  {
    DistinctSize(chain);
    SubsetSize(Elements(chain), fs.Keys);
  }

  ghost function Room(fs: Fs, chain: seq<nat>): nat
    requires Chain(fs, chain)
  {
    ChainBound(fs, chain);
    |fs| - |chain|
  }

  // The traversal of one file: a directory that is entered comes before and after its entries.
  ghost function Walk(fs: Fs, path: string, ino: nat, chain: seq<nat>): seq<Visit>
    requires Closed(fs) && Chain(fs, chain) && ino in fs
    decreases Room(fs, chain), 0
  {
    var info := Classify(fs, ino, chain);
    if info != D then [Visit(path, info)]
    else [Visit(path, D)] + Inside(fs, path, ino, chain) + [Visit(path, After(fs, ino))]
  }

  // How a directory is seen the second time.
  ghost function After(fs: Fs, ino: nat): Info
    requires ino in fs
  {
    if fs[ino].Dir? && !fs[ino].readable then DNR else DP
  }

  // What lies between the two visits of a directory.
  ghost function Inside(fs: Fs, path: string, ino: nat, chain: seq<nat>): seq<Visit>
    requires Closed(fs) && Chain(fs, chain) && ino in fs && Classify(fs, ino, chain) == D
    decreases Room(fs, chain), 0, 0
  {
    assert Chain(fs, chain + [ino]);
    assert Room(fs, chain + [ino]) < Room(fs, chain) by { ChainBound(fs, chain + [ino]); }
    if fs[ino].Dir? && fs[ino].readable then WalkAll(fs, path, fs[ino].Entries(), chain + [ino]) else []
  }

  ghost function WalkAll(fs: Fs, dir: string, entries: seq<Entry>, chain: seq<nat>): seq<Visit>
    requires Closed(fs) && Chain(fs, chain) && forall e | e in entries :: e.ino in fs
    decreases Room(fs, chain), 1, |entries|
  {
    if entries == [] then []
    else Walk(fs, Join(dir, entries[0].name), entries[0].ino, chain) + WalkAll(fs, dir, entries[1..], chain)
  }

  // The traversal of the roots, whose paths are their names.
  ghost function WalkRoots(fs: Fs, roots: seq<Entry>): seq<Visit>
    requires Closed(fs) && forall e | e in roots :: e.ino in fs
  {
    if roots == [] then [] else Walk(fs, roots[0].name, roots[0].ino, []) + WalkRoots(fs, roots[1..])
  }

  // ---- the walker as a machine -----------------------------------------------------------

  // The node on the current path at one level, and its siblings that are still to come.
  datatype Level = Level(path: string, info: Info, ino: nat, rest: seq<Entry>)
  type Machine = seq<Level>

  function Inos(m: Machine): seq<nat> {
    seq(|m|, i requires 0 <= i < |m| => m[i].ino)
  }

  function PathAt(m: Machine, k: nat, name: string): string
    requires k <= |m|
  {
    if k == 0 then name else Join(m[k - 1].path, name)
  }

  ghost predicate LevelOk(fs: Fs, m: Machine, k: nat)
    requires k < |m|
  {
    && (forall e | e in m[k].rest :: e.ino in fs)
    && (m[k].info == D || k < |m| - 1 ==>
      m[k].info == D && m[k].ino in fs && Classify(fs, m[k].ino, Inos(m[..k])) == D)
    && (k < |m| - 1 ==> fs[m[k].ino].Dir? && fs[m[k].ino].readable)
  }

  ghost predicate Inv(fs: Fs, m: Machine) {
    Closed(fs) && forall k: nat | k < |m| :: LevelOk(fs, m, k)
  }

  // The inodes a step looks at are there.
  ghost predicate CanStep(fs: Fs, m: Machine) {
    && m != [] && (m[|m| - 1].info == D ==> m[|m| - 1].ino in fs)
    && (forall k: nat, e | k < |m| && e in m[k].rest :: e.ino in fs)
    && (m[|m| - 1].info == D && fs[m[|m| - 1].ino].Dir? ==> forall e | e in fs[m[|m| - 1].ino].Entries() :: e.ino in fs)
  }

  // One call of fts_read; the empty machine stands for the end.
  ghost function Step(fs: Fs, m: Machine): Machine
    requires CanStep(fs, m)
  {
    var k := |m| - 1;
    var c := m[k];
    if c.info == D then
      if fs[c.ino].Dir? && fs[c.ino].readable && fs[c.ino].Entries() != [] then
        var e := fs[c.ino].Entries()[0];
        m + [Level(Join(c.path, e.name), Classify(fs, e.ino, Inos(m)), e.ino, fs[c.ino].Entries()[1..])]
      else m[k := c.(info := if fs[c.ino].Dir? && !fs[c.ino].readable then DNR else DP)]
    else if c.rest != [] then
      var e := c.rest[0];
      m[k := Level(PathAt(m, k, e.name), Classify(fs, e.ino, Inos(m[..k])), e.ino, c.rest[1..])]
    else if k == 0 then []
    else m[..k][k - 1 := m[k - 1].(info := DP)]
  }

  function VisitOf(m: Machine): Visit
    requires m != []
  {
    Visit(m[|m| - 1].path, m[|m| - 1].info)
  }

  // The inodes above a level are different directories.
  lemma {:induction false} InosChain(fs: Fs, m: Machine, k: nat)
    requires Inv(fs, m) && k <= |m| && (k == |m| && k > 0 ==> m[k - 1].info == D)
    ensures Chain(fs, Inos(m[..k]))
  {
    if k > 0 {
      InosChain(fs, m, k - 1);
      assert LevelOk(fs, m, k - 1);
      assert Inos(m[..k]) == Inos(m[..k - 1]) + [m[k - 1].ino];
    }
  }

  // The visits of the siblings still to come at the last level.
  ghost function Pending(fs: Fs, m: Machine): seq<Visit>
    requires Inv(fs, m) && m != []
  {
    var k := |m| - 1;
    assert LevelOk(fs, m, k);
    InosChain(fs, m, k);
    if k == 0 then WalkRoots(fs, m[0].rest) else WalkAll(fs, m[k - 1].path, m[k].rest, Inos(m[..k]))
  }

  lemma PopInv(fs: Fs, m: Machine)
    requires Inv(fs, m) && |m| > 0
    ensures Inv(fs, m[..|m| - 1])
  {
    var p := m[..|m| - 1];
    forall k: nat | k < |p| ensures LevelOk(fs, p, k) {
      assert LevelOk(fs, m, k) && p[..k] == m[..k];
    }
  }

  // What is still to come once the node at the last level is done with.
  ghost function Rest(fs: Fs, m: Machine): seq<Visit>
    requires Inv(fs, m) && m != []
    decreases |m|
  {
    PopInv(fs, m);
    Pending(fs, m) + if |m| == 1 then [] else [Visit(m[|m| - 2].path, DP)] + Rest(fs, m[..|m| - 1])
  }

  // What is still to come of a file that has just been visited for the first time.
  ghost function Ahead(fs: Fs, path: string, info: Info, ino: nat, chain: seq<nat>): seq<Visit>
    requires Closed(fs) && Chain(fs, chain) && (info == D ==> ino in fs && Classify(fs, ino, chain) == D)
  {
    if info == D then Inside(fs, path, ino, chain) + [Visit(path, After(fs, ino))] else []
  }

  lemma WalkSplit(fs: Fs, path: string, ino: nat, chain: seq<nat>)
    requires Closed(fs) && Chain(fs, chain) && ino in fs
    ensures Walk(fs, path, ino, chain) == [Visit(path, Classify(fs, ino, chain))] + Ahead(fs, path,
      Classify(fs, ino, chain), ino, chain)
  {
  }

  // All visits still to come.
  ghost function Remaining(fs: Fs, m: Machine): seq<Visit>
    requires Inv(fs, m)
  {
    if m == [] then []
    else
      var k := |m| - 1;
      assert LevelOk(fs, m, k);
      InosChain(fs, m, k);
      Ahead(fs, m[k].path, m[k].info, m[k].ino, Inos(m[..k])) + Rest(fs, m)
  }

  // ---- each step makes the next visit --------------------------------------------------------

  lemma StepReady(fs: Fs, m: Machine)
    requires Inv(fs, m) && m != []
    ensures m[|m| - 1].info == D ==> m[|m| - 1].ino in fs && Classify(fs, m[|m| - 1].ino, Inos(m[..|m| - 1])) == D
    ensures forall k: nat, e | k < |m| && e in m[k].rest :: e.ino in fs
    ensures m[|m| - 1].info == D && fs[m[|m| - 1].ino].Dir?
      ==> forall e | e in fs[m[|m| - 1].ino].Entries() :: e.ino in fs
    ensures CanStep(fs, m)
  {
    assert LevelOk(fs, m, |m| - 1);
    forall k: nat, e | k < |m| && e in m[k].rest ensures e.ino in fs {
      assert LevelOk(fs, m, k);
    }
  }

  // Replacing the last level keeps the others.
  lemma ReplaceInv(fs: Fs, m: Machine, l: Level)
    requires Inv(fs, m) && m != [] && (forall e | e in l.rest :: e.ino in fs)
    requires l.info == D ==> l.ino in fs && Classify(fs, l.ino, Inos(m[..|m| - 1])) == D
    ensures Inv(fs, m[|m| - 1 := l])
  {
    var m' := m[|m| - 1 := l];
    forall k: nat | k < |m'| ensures LevelOk(fs, m', k) {
      assert LevelOk(fs, m, k) && m'[..k] == m[..k];
    }
  }

  lemma PushInv(fs: Fs, m: Machine, l: Level)
    requires Inv(fs, m) && m != [] && m[|m| - 1].info == D && m[|m| - 1].ino in fs
    requires fs[m[|m| - 1].ino].Dir? && fs[m[|m| - 1].ino].readable && (forall e | e in l.rest :: e.ino in fs)
    requires l.info == D ==> l.ino in fs && Classify(fs, l.ino, Inos(m)) == D
    ensures Inv(fs, m + [l])
  {
    var m' := m + [l];
    forall k: nat | k < |m'| ensures LevelOk(fs, m', k) {
      assert m'[..|m|] == m;
      if k < |m| {
        assert LevelOk(fs, m, k) && m'[..k] == m[..k];
      }
    }
  }

  // The level entered from the last one.
  ghost function First(fs: Fs, m: Machine): Level
    requires m != [] && m[|m| - 1].ino in fs && fs[m[|m| - 1].ino].Dir? && fs[m[|m| - 1].ino].Entries() != []
    requires fs[m[|m| - 1].ino].Entries()[0].ino in fs
  {
    var c := m[|m| - 1];
    var e := fs[c.ino].Entries()[0];
    Level(Join(c.path, e.name), Classify(fs, e.ino, Inos(m)), e.ino, fs[c.ino].Entries()[1..])
  }

  lemma FirstIs(fs: Fs, m: Machine)
    requires m != [] && m[|m| - 1].ino in fs && fs[m[|m| - 1].ino].Dir? && fs[m[|m| - 1].ino].Entries() != []
    requires fs[m[|m| - 1].ino].Entries()[0].ino in fs
    ensures var c, e := m[|m| - 1], fs[m[|m| - 1].ino].Entries()[0];
      First(fs, m) == Level(Join(c.path, e.name), Classify(fs, e.ino, Inos(m)), e.ino, fs[c.ino].Entries()[1..])
  {
  }

  // Entering: the entries of the directory are what lies between its two visits.
  lemma EnterFacts(fs: Fs, m: Machine)
    requires Inv(fs, m) && m != [] && m[|m| - 1].info == D && m[|m| - 1].ino in fs
    requires fs[m[|m| - 1].ino].Dir? && fs[m[|m| - 1].ino].readable && fs[m[|m| - 1].ino].Entries() != []
    ensures fs[m[|m| - 1].ino].Entries()[0].ino in fs
    ensures var c, l := m[|m| - 1], First(fs, m);
      && Closed(fs) && Inv(fs, m + [l]) && Chain(fs, Inos(m)) && Chain(fs, Inos(m[..|m| - 1]))
      && Classify(fs, c.ino, Inos(m[..|m| - 1])) == D && (l.info == D
        ==> l.ino in fs && Classify(fs, l.ino, Inos(m)) == D)
      && Ahead(fs, c.path, D, c.ino, Inos(m[..|m| - 1])) ==
        [Visit(l.path, l.info)] + Ahead(fs, l.path, l.info, l.ino, Inos(m)) + Pending(fs, m + [l])
          + [Visit(c.path, DP)]
  {
    hide Walk, LevelOk, Inside;
    StepReady(fs, m);
    var k, c := |m| - 1, m[|m| - 1];
    assert fs[c.ino].Entries()[0] in fs[c.ino].Entries();
    var l := First(fs, m);
    PushInv(fs, m, l);
    InosChain(fs, m, k + 1);
    InosChain(fs, m, k);
    assert m[..k + 1] == m && (m + [l])[..k + 1] == m;
    assert Inos(m) == Inos(m[..k]) + [c.ino];
    InsideIs(fs, c.path, c.ino, Inos(m[..k]));
    WalkSplit(fs, l.path, l.ino, Inos(m));
  }

  lemma StepEnter(fs: Fs, m: Machine)
    requires Inv(fs, m) && m != [] && m[|m| - 1].info == D && m[|m| - 1].ino in fs
    requires fs[m[|m| - 1].ino].Dir? && fs[m[|m| - 1].ino].readable && fs[m[|m| - 1].ino].Entries() != []
    ensures fs[m[|m| - 1].ino].Entries()[0].ino in fs
    ensures var m' := m + [First(fs, m)]; Inv(fs, m') && Remaining(fs, m) == [VisitOf(m')] + Remaining(fs, m')
  {
    hide Inv, Pending, Ahead, Closed, Chain, Classify;
    EnterFacts(fs, m);
    var c, l := m[|m| - 1], First(fs, m);
    var m' := m + [l];
    assert m'[..|m|] == m;
    var al, dp := Ahead(fs, l.path, l.info, l.ino, Inos(m)), [Visit(c.path, DP)];
    assert Rest(fs, m') == Pending(fs, m') + (dp + Rest(fs, m));
    assert ([VisitOf(m')] + al + Pending(fs, m') + dp) + Rest(fs, m)
      == [VisitOf(m')] + (al + (Pending(fs, m') + (dp + Rest(fs, m))));
  }

  lemma InsideIs(fs: Fs, path: string, ino: nat, chain: seq<nat>)
    requires Closed(fs) && Chain(fs, chain) && ino in fs && Classify(fs, ino, chain) == D && fs[ino].Dir?
      && fs[ino].readable
    ensures Chain(fs, chain + [ino]) && Inside(fs, path, ino, chain)
      == WalkAll(fs, path, fs[ino].Entries(), chain + [ino]) && After(fs, ino) == DP
  {
  }

  // A directory without entries to enter is seen again at once.
  lemma StepAgain(fs: Fs, m: Machine)
    requires Inv(fs, m) && m != [] && m[|m| - 1].info == D && m[|m| - 1].ino in fs
    requires fs[m[|m| - 1].ino].Dir? ==> !fs[m[|m| - 1].ino].readable || fs[m[|m| - 1].ino].Entries() == []
    ensures var c := m[|m| - 1]; var m' := m[|m| - 1 := c.(info := After(fs, c.ino))];
      Inv(fs, m') && Remaining(fs, m) == [VisitOf(m')] + Remaining(fs, m')
  {
    AgainFacts(fs, m);
    hide *;
    var c := m[|m| - 1];
    SeenAgain(fs, m, m[|m| - 1 := c.(info := After(fs, c.ino))], m[..|m| - 1], c, After(fs, c.ino));
  }

  lemma SeenAgain(fs: Fs, m: Machine, m': Machine, below: Machine, c: Level, info: Info)
    requires Inv(fs, m) && Inv(fs, m') && m == below + [c] && m' == below + [c.(info := info)] && c.info == D
      && info != D
    requires Closed(fs) && Chain(fs, Inos(below)) && c.ino in fs && Classify(fs, c.ino, Inos(below)) == D
    requires Ahead(fs, c.path, D, c.ino, Inos(below)) == [Visit(c.path, info)]
    ensures Remaining(fs, m) == [VisitOf(m')] + Remaining(fs, m')
  {
    hide Inv, Closed, Chain, Inos, Classify, Ahead, Rest;
    assert m[..|m| - 1] == below && m'[..|m'| - 1] == below;
    RestSame(fs, m, m');
    AheadDone(fs, c.path, info, c.ino, Inos(below));
    RemainingIs(fs, m);
    RemainingIs(fs, m');
  }

  lemma RemainingIs(fs: Fs, m: Machine)
    requires Inv(fs, m) && m != []
    ensures var k := |m| - 1;
      && Closed(fs) && Chain(fs, Inos(m[..k])) && (m[k].info == D
        ==> m[k].ino in fs && Classify(fs, m[k].ino, Inos(m[..k])) == D)
      && Remaining(fs, m) == Ahead(fs, m[k].path, m[k].info, m[k].ino, Inos(m[..k])) + Rest(fs, m)
  {
    StepReady(fs, m);
    LastChain(fs, m);
  }

  lemma AgainFacts(fs: Fs, m: Machine)
    requires Inv(fs, m) && m != [] && m[|m| - 1].info == D && m[|m| - 1].ino in fs
    requires fs[m[|m| - 1].ino].Dir? ==> !fs[m[|m| - 1].ino].readable || fs[m[|m| - 1].ino].Entries() == []
    ensures var k, c := |m| - 1, m[|m| - 1];
      && Closed(fs) && Chain(fs, Inos(m[..k])) && Classify(fs, c.ino, Inos(m[..k])) == D
        && Inv(fs, m[k := c.(info := After(fs, c.ino))])
      && After(fs, c.ino) != D && Ahead(fs, c.path, D, c.ino, Inos(m[..k])) == [Visit(c.path, After(fs, c.ino))]
  {
    hide LevelOk;
    StepReady(fs, m);
    var k, c := |m| - 1, m[|m| - 1];
    ReplaceInv(fs, m, c.(info := After(fs, c.ino)));
    LastChain(fs, m);
    NothingInside(fs, c.path, c.ino, Inos(m[..k]));
  }

  lemma AheadDone(fs: Fs, path: string, info: Info, ino: nat, chain: seq<nat>)
    requires Closed(fs) && Chain(fs, chain) && info != D
    ensures Ahead(fs, path, info, ino, chain) == []
  {
  }

  lemma LastChain(fs: Fs, m: Machine)
    requires Inv(fs, m) && m != []
    ensures Closed(fs) && Chain(fs, Inos(m[..|m| - 1]))
  {
    InosChain(fs, m, |m| - 1);
  }

  lemma NothingInside(fs: Fs, path: string, ino: nat, chain: seq<nat>)
    requires Closed(fs) && Chain(fs, chain) && ino in fs && Classify(fs, ino, chain) == D
    requires fs[ino].Dir? ==> !fs[ino].readable || fs[ino].Entries() == []
    ensures Inside(fs, path, ino, chain) == []
  {
  }

  // What comes after the last level does not depend on how its node was seen.
  lemma RestSame(fs: Fs, m: Machine, m': Machine)
    requires Inv(fs, m) && Inv(fs, m') && |m| == |m'| > 0 && m[..|m| - 1] == m'[..|m| - 1]
      && m[|m| - 1].rest == m'[|m| - 1].rest
    ensures Rest(fs, m) == Rest(fs, m')
  {
  }

  ghost function Next(fs: Fs, m: Machine): Level
    requires m != [] && m[|m| - 1].rest != [] && m[|m| - 1].rest[0].ino in fs
  {
    var k := |m| - 1;
    var e := m[k].rest[0];
    Level(PathAt(m, k, e.name), Classify(fs, e.ino, Inos(m[..k])), e.ino, m[k].rest[1..])
  }

  // The first of the siblings still to come, and the others.
  lemma PendingNext(fs: Fs, m: Machine)
    requires Inv(fs, m) && m != [] && m[|m| - 1].rest != [] && m[|m| - 1].rest[0].ino in fs
    ensures var k := |m| - 1; var l := Next(fs, m);
      && Closed(fs) && Inv(fs, m[k := l]) && Chain(fs, Inos(m[..k]))
        && (l.info == D ==> l.ino in fs && Classify(fs, l.ino, Inos(m[..k])) == D)
      && Pending(fs, m) == [Visit(l.path, l.info)] + Ahead(fs, l.path, l.info, l.ino, Inos(m[..k])) + Pending(fs,
        m[k := l])
  {
    hide Walk, LevelOk, Ahead, Inside;
    var k, l := |m| - 1, Next(fs, m);
    StepReady(fs, m);
    ReplaceInv(fs, m, l);
    InosChain(fs, m, k);
    assert m[k := l][..k] == m[..k];
    WalkSplit(fs, l.path, l.ino, Inos(m[..k]));
    if k == 0 {
      assert Inos(m[..0]) == [];
    }
  }

  lemma StepSibling(fs: Fs, m: Machine)
    requires Inv(fs, m) && m != [] && m[|m| - 1].info != D && m[|m| - 1].rest != [] && m[|m| - 1].rest[0].ino in fs
    ensures var m' := m[|m| - 1 := Next(fs, m)];
      Inv(fs, m') && Remaining(fs, m) == [VisitOf(m')] + Remaining(fs, m')
  {
    hide Inv, Pending, Inside;
    var k, l := |m| - 1, Next(fs, m);
    var m' := m[k := l];
    PendingNext(fs, m);
    PopInv(fs, m);
    PopInv(fs, m');
    assert m'[..k] == m[..k];
    var al := Ahead(fs, l.path, l.info, l.ino, Inos(m[..k]));
    var up := if k == 0 then [] else [Visit(m[k - 1].path, DP)] + Rest(fs, m[..k]);
    assert Rest(fs, m) == Pending(fs, m) + up;
    assert Rest(fs, m') == Pending(fs, m') + up;
    assert ([VisitOf(m')] + al + Pending(fs, m')) + up == [VisitOf(m')] + (al + (Pending(fs, m') + up));
  }

  lemma UpFacts(fs: Fs, m: Machine)
    requires Inv(fs, m) && |m| > 1 && m[|m| - 1].rest == []
    ensures var k := |m| - 1;
      && Closed(fs) && Pending(fs, m) == [] && Inv(fs, m[..k]) && Inv(fs, m[..k][k - 1 := m[k - 1].(info := DP)])
      && Chain(fs, Inos(m[..k])) && Chain(fs, Inos(m[..k - 1]))
  {
    hide LevelOk;
    PopInv(fs, m);
    var k := |m| - 1;
    StepReady(fs, m[..k]);
    ReplaceInv(fs, m[..k], m[k - 1].(info := DP));
    LastChain(fs, m);
    LastChain(fs, m[..k]);
    assert m[..k][..k - 1] == m[..k - 1];
  }

  lemma StepUp(fs: Fs, m: Machine)
    requires Inv(fs, m) && |m| > 1 && m[|m| - 1].info != D && m[|m| - 1].rest == []
    ensures var k := |m| - 1; var m' := m[..k][k - 1 := m[k - 1].(info := DP)];
      Inv(fs, m') && Remaining(fs, m) == [VisitOf(m')] + Remaining(fs, m')
  {
    UpFacts(fs, m);
    hide *;
    var k := |m| - 1;
    GoneUp(fs, m, m[..k], m[..k][k - 1 := m[k - 1].(info := DP)], m[..k - 1], m[k - 1], m[k]);
  }

  lemma GoneUp(fs: Fs, m: Machine, m1: Machine, m': Machine, below: Machine, p: Level, c: Level)
    requires Inv(fs, m) && Inv(fs, m1) && Inv(fs, m') && m == m1 + [c] && m1 == below + [p]
      && m' == below + [p.(info := DP)]
    requires Closed(fs) && Chain(fs, Inos(m1)) && Chain(fs, Inos(below)) && c.info != D && Pending(fs, m) == []
    ensures Remaining(fs, m) == [VisitOf(m')] + Remaining(fs, m')
  {
    hide Inv, Closed, Chain, Inos, Classify, Ahead, Pending;
    assert m[..|m| - 1] == m1 && m1[..|m1| - 1] == below && m'[..|m'| - 1] == below;
    RestSame(fs, m1, m');
    AheadDone(fs, c.path, c.info, c.ino, Inos(m1));
    AheadDone(fs, p.path, DP, p.ino, Inos(below));
    RemainingIs(fs, m);
    RemainingIs(fs, m');
    assert Rest(fs, m) == [] + ([Visit(p.path, DP)] + Rest(fs, m1));
  }

  lemma StepNotInit(fs: Fs, m: Machine)
    requires Closed(fs) && CanStep(fs, m)
    ensures var m' := Step(fs, m); m' != [] ==> m'[|m'| - 1].info != Init
  {
  }

  // The step, case by case.
  ghost predicate StepIs(fs: Fs, m: Machine, m': Machine)
    requires CanStep(fs, m) && (m[|m| - 1].info == D ==> fs[m[|m| - 1].ino].Dir?)
  {
    var k, c := |m| - 1, m[|m| - 1];
      && (c.info == D && !fs[c.ino].readable ==> m' == m[k := c.(info := DNR)])
      && (c.info == D && fs[c.ino].readable && fs[c.ino].Entries() == [] ==> m' == m[k := c.(info := DP)])
      && (c.info == D && fs[c.ino].readable && fs[c.ino].Entries() != []
        ==> fs[c.ino].Entries()[0].ino in fs && m' == m + [First(fs, m)])
      && (c.info != D && c.rest != [] ==> c.rest[0].ino in fs && m' == m[k := Next(fs, m)])
      && (c.info != D && c.rest == [] ==> m' == if k == 0 then [] else m[..k][k - 1 := m[k - 1].(info := DP)])
  }

  lemma StepCases(fs: Fs, m: Machine)
    requires CanStep(fs, m) && (m[|m| - 1].info == D ==> fs[m[|m| - 1].ino].Dir?)
    ensures StepIs(fs, m, Step(fs, m))
  {
  }

  lemma MachineFacts(fs: Fs, m: Machine)
    requires Inv(fs, m) && m != []
    ensures CanStep(fs, m) && (m[|m| - 1].info == D ==> m[|m| - 1].ino in fs && fs[m[|m| - 1].ino].Dir?)
    ensures StepIs(fs, m, Step(fs, m))
    ensures Step(fs, m) != [] ==> Step(fs, m)[|Step(fs, m)| - 1].info != Init
  {
    hide StepIs, Step, CanStep, LevelOk;
    StepReady(fs, m);
    StepCases(fs, m);
    StepNotInit(fs, m);
  }

  // One call of fts_read makes the next visit of the traversal, or ends it when there is none.
  lemma StepVisits(fs: Fs, m: Machine)
    requires Inv(fs, m) && m != []
    ensures CanStep(fs, m)
    ensures var m' := Step(fs, m);
      Inv(fs, m') && Remaining(fs, m) == if m' == [] then [] else [VisitOf(m')] + Remaining(fs, m')
  {
    hide Walk, LevelOk, Remaining, Rest;
    StepReady(fs, m);
    var c := m[|m| - 1];
    if c.info == D {
      if fs[c.ino].Dir? && fs[c.ino].readable && fs[c.ino].Entries() != [] {
        StepEnter(fs, m);
      } else {
        StepAgain(fs, m);
      }
    } else if c.rest != [] {
      StepSibling(fs, m);
    } else if |m| > 1 {
      StepUp(fs, m);
    } else {
      LastStep(fs, m);
    }
  }

  lemma LastStep(fs: Fs, m: Machine)
    requires Inv(fs, m) && |m| == 1 && m[0].info != D && m[0].rest == []
    ensures Remaining(fs, m) == []
  {
  }

  // ---- whole walks --------------------------------------------------------------------------

  // What fts_open leaves: a dummy node before the roots.
  function Opened(roots: seq<Entry>): Machine {
    [Level("", Init, 0, roots)]
  }

  // The results of calling fts_read until it returns none.
  ghost function Run(fs: Fs, m: Machine): seq<Visit>
    requires Inv(fs, m)
    decreases |Remaining(fs, m)|, |m|
  {
    if m == [] then []
    else
      StepVisits(fs, m);
      var m' := Step(fs, m);
      if m' == [] then [] else [VisitOf(m')] + Run(fs, m')
  }

  lemma {:induction false} RunRemaining(fs: Fs, m: Machine)
    requires Inv(fs, m)
    ensures Run(fs, m) == Remaining(fs, m)
    decreases |Remaining(fs, m)|
  {
    hide Remaining, Step, Inv;
    if m != [] {
      StepVisits(fs, m);
      if Step(fs, m) != [] {
        RunRemaining(fs, Step(fs, m));
      }
    } else {
      NothingLeft(fs);
    }
  }

  lemma NothingLeft(fs: Fs)
    requires Inv(fs, [])
    ensures Remaining(fs, []) == []
  {
  }

  // A walk is the recursive traversal of its roots. In particular it ends, also on cyclic graphs.
  lemma WalkIsTraversal(fs: Fs, roots: seq<Entry>)
    requires Closed(fs) && forall e | e in roots :: e.ino in fs
    ensures Inv(fs, Opened(roots)) && Run(fs, Opened(roots)) == WalkRoots(fs, roots)
  {
    var m := Opened(roots);
    assert LevelOk(fs, m, 0);
    RunRemaining(fs, m);
    assert Inos(m[..0]) == [];
  }
}
