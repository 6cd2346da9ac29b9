// No compiled table is forgotten: in every run, a table in memory is the current one of a class or in the hands of
// a thread, and the table of a class without references is about to be used or freed, unless it was asked for.
module KobjTidy {
  import opened KobjMethods
  import opened KobjProtocol
  import opened KobjSafety

  // The thread is about to take a reference, or about to free the table.
  ghost predicate Tends(l: Local, c: nat) {
    (l.Init? || l.Freeing?) && l.c == c
  }

  ghost predicate Tended(s: State, c: nat, asked: set<nat>)
    requires c in s.classes
  {
    s.classes[c].refs == 0 && s.classes[c].ops.Some? ==>
      c in asked || exists th | th in s.threads :: Tends(s.threads[th], c)
  }

  // A table belongs to a class or to a thread.
  ghost predicate Accounted(s: State, t: nat) {
    || (exists c | c in s.classes :: s.classes[c].ops == Some(t))
    || (exists th | th in s.threads :: Held(s.threads[th]) == Some(t))
  }

  // kobj_class_compile works for kobj_init, or was asked for by itself.
  ghost predicate OnPurpose(l: Local, asked: set<nat>) {
    (l.Alloc? || l.Install? || l.Spare?) && l.back == None ==> l.c in asked
  }

  ghost predicate Tidy(s: State, asked: set<nat>) {
    && (forall c | c in s.classes :: Tended(s, c, asked))
    && (forall t | t in s.tables :: Accounted(s, t))
    && (forall th | th in s.threads :: OnPurpose(s.threads[th], asked))
  }

  ghost function Asked(ev: Event, asked: set<nat>): set<nat> {
    if ev.BeginCompile? then asked + {ev.c} else asked
  }

  // ---- one event ---------------------------------------------------------------------------------

  // The others stay where they are, and no class comes or goes.
  lemma OthersStay(s: State, ev: Event, defs: nat -> ClassDef)
    requires Inv(s) && Enabled(s, ev)
    ensures var s' := Apply(s, ev, defs);
      && s'.threads == s.threads[ev.th := s'.threads[ev.th]] && ev.th in s'.threads && s'.classes.Keys == s.classes.Keys
  {
    hide ClassesOk, ObjectsOk, ThreadsOk, Slow, EmptyCache;
    assert LocalOk(s, s.threads[ev.th]) by { LocalIs(s, ev.th); }
  }

  lemma LocalIs(s: State, th: nat)
    requires Inv(s) && th in s.threads
    ensures LocalOk(s, s.threads[th])
  {
  }

  lemma CountIs(s: State, c: nat)
    requires Inv(s) && c in s.classes
    ensures s.classes[c].refs >= 0 && CountOk(s, c)
  {
  }

  // A class that comes to have a table and no reference is tended by the thread that did this.
  lemma NewlyFree(s: State, ev: Event, defs: nat -> ClassDef, asked: set<nat>, c: nat)
    requires Inv(s) && Enabled(s, ev) && OnPurpose(s.threads[ev.th], asked) && c in s.classes && c !in asked
    requires !(s.classes[c].refs == 0 && s.classes[c].ops.Some?)
    requires var k := Apply(s, ev, defs).classes; c in k && k[c].refs == 0 && k[c].ops.Some?
    ensures Tends(Apply(s, ev, defs).threads[ev.th], c)
  {
    hide ClassesOk, ObjectsOk, ThreadsOk, Slow, EmptyCache;
    LocalIs(s, ev.th);
    CountIs(s, c);
  }

  // The thread that tends a class leaves it with a reference or without a table.
  lemma TendingDone(s: State, ev: Event, defs: nat -> ClassDef, c: nat)
    requires Inv(s) && Enabled(s, ev) && c in s.classes && Tends(s.threads[ev.th], c)
    ensures var s' := Apply(s, ev, defs);
      c in s'.classes && !(s'.classes[c].refs == 0 && s'.classes[c].ops.Some?)
  {
    hide ClassesOk, ObjectsOk, ThreadsOk, Slow, EmptyCache;
    LocalIs(s, ev.th);
    CountIs(s, c);
  }

  lemma KeepsTended(s: State, ev: Event, defs: nat -> ClassDef, asked: set<nat>, c: nat)
    requires Inv(s) && Enabled(s, ev) && Tidy(s, asked) && c in s.classes
    ensures var s' := Apply(s, ev, defs); c in s'.classes && Tended(s', c, Asked(ev, asked))
  {
    OthersStay(s, ev, defs);
    var s' := Apply(s, ev, defs);
    hide Apply, Enabled, Inv, Tends;
    assert Tended(s, c, asked) && OnPurpose(s.threads[ev.th], asked);
    if s'.classes[c].refs == 0 && s'.classes[c].ops.Some? && c !in asked {
      if s.classes[c].refs == 0 && s.classes[c].ops.Some? {
        var th :| th in s.threads && Tends(s.threads[th], c);
        if th == ev.th {
          TendingDone(s, ev, defs, c);
        }
        assert Tends(s'.threads[th], c);
      } else {
        NewlyFree(s, ev, defs, asked, c);
      }
    }
  }

  // Where a table was, it still is, or this thread has taken, given or freed it.
  lemma TableMoves(s: State, ev: Event, defs: nat -> ClassDef, t: nat)
    requires Inv(s) && Enabled(s, ev) && t in Apply(s, ev, defs).tables
    ensures var s' := Apply(s, ev, defs); var l := s.threads[ev.th];
      && (t !in s.tables || Held(l) == Some(t) ==>
        Held(s'.threads[ev.th]) == Some(t) || exists c | c in s'.classes :: s'.classes[c].ops == Some(t))
      && forall c | c in s.classes && s.classes[c].ops == Some(t) ::
        Held(s'.threads[ev.th]) == Some(t) || (c in s'.classes && s'.classes[c].ops == Some(t))
  {
    hide ClassesOk, ObjectsOk, ThreadsOk, Slow, EmptyCache;
    LocalIs(s, ev.th);
    var s' := Apply(s, ev, defs);
    if ev.InstallLocked? {
      assert s.threads[ev.th].c in s'.classes;
    }
    if ev.CompileStatic? {
      assert ev.c in s'.classes;
    }
  }

  lemma KeepsAccounted(s: State, ev: Event, defs: nat -> ClassDef, asked: set<nat>, t: nat)
    requires Inv(s) && Enabled(s, ev) && Tidy(s, asked) && t in Apply(s, ev, defs).tables
    ensures Accounted(Apply(s, ev, defs), t)
  {
    OthersStay(s, ev, defs);
    TableMoves(s, ev, defs, t);
    var s' := Apply(s, ev, defs);
    hide Apply, Enabled, Inv, Held;
    if t in s.tables {
      assert Accounted(s, t);
      if th :| th in s.threads && Held(s.threads[th]) == Some(t) {
        assert th == ev.th || s'.threads[th] == s.threads[th];
      }
    }
  }

  lemma KeepsPurpose(s: State, ev: Event, defs: nat -> ClassDef, asked: set<nat>)
    requires Inv(s) && Enabled(s, ev) && OnPurpose(s.threads[ev.th], asked)
    ensures var s' := Apply(s, ev, defs); ev.th in s'.threads && OnPurpose(s'.threads[ev.th], Asked(ev, asked))
  {
    hide ClassesOk, ObjectsOk, ThreadsOk, Slow, EmptyCache;
    LocalIs(s, ev.th);
  }

  lemma KeepsTidy(s: State, ev: Event, defs: nat -> ClassDef, asked: set<nat>)
    requires Inv(s) && Enabled(s, ev) && Tidy(s, asked)
    ensures Tidy(Apply(s, ev, defs), Asked(ev, asked))
  {
    OthersStay(s, ev, defs);
    KeepsPurpose(s, ev, defs, asked);
    var s' := Apply(s, ev, defs);
    hide Apply, Enabled, Inv, Accounted, Tended;
    forall c | c in s'.classes ensures Tended(s', c, Asked(ev, asked)) {
      KeepsTended(s, ev, defs, asked, c);
    }
    forall t | t in s'.tables ensures Accounted(s', t) {
      KeepsAccounted(s, ev, defs, asked, t);
    }
    forall th | th in s'.threads ensures OnPurpose(s'.threads[th], Asked(ev, asked)) {
      assert th in s.threads && OnPurpose(s.threads[th], asked);
    }
  }

  // ---- runs ------------------------------------------------------------------------------------

  // The classes that some thread was told to compile in the first i events.
  ghost function AskedBy(evs: seq<Event>, i: nat): set<nat>
    requires i <= |evs|
  {
    if i == 0 then {} else Asked(evs[i - 1], AskedBy(evs, i - 1))
  }

  lemma {:induction false} RunTidy(states: seq<State>, evs: seq<Event>, defs: nat -> ClassDef, descs: set<Desc>, i: nat)
    requires Run(states, evs, defs, descs) && Consistent(descs) && i < |states|
    ensures Tidy(states[i], AskedBy(evs, i))
  {
    hide Inv, CachesOk, Safe, Enabled, Apply, Tidy;
    if i == 0 {
      StartTidy(states[0]);
    } else {
      hide Start;
      RunTidy(states, evs, defs, descs, i - 1);
      RunSafe(states, evs, defs, descs, i - 1);
      KeepsTidy(states[i - 1], evs[i - 1], defs, AskedBy(evs, i - 1));
    }
  }

  lemma StartTidy(s: State)
    requires Start(s)
    ensures Tidy(s, {})
  {
  }

  // When all threads are at rest, the tables in memory are those of the classes that have them, and a class that
  // nobody asked to compile has one only while it has references: the last kobj_delete has freed it.
  lemma RestTidy(states: seq<State>, evs: seq<Event>, defs: nat -> ClassDef, descs: set<Desc>, i: nat)
    requires Run(states, evs, defs, descs) && Consistent(descs) && i < |states|
    requires forall th | th in states[i].threads :: states[i].threads[th] == Idle
    ensures var s := states[i];
      && (forall t | t in s.tables :: exists c | c in s.classes :: s.classes[c].ops == Some(t))
      && forall c | c in s.classes && c !in AskedBy(evs, i) && s.classes[c].ops.Some? :: s.classes[c].refs > 0
  {
    hide Inv, CachesOk, Safe, Enabled, Apply, Start;
    RunTidy(states, evs, defs, descs, i);
    RunSafe(states, evs, defs, descs, i);
    var s := states[i];
    forall t | t in s.tables ensures exists c | c in s.classes :: s.classes[c].ops == Some(t) {
      assert Accounted(s, t);
    }
    forall c | c in s.classes && c !in AskedBy(evs, i) && s.classes[c].ops.Some? ensures s.classes[c].refs > 0 {
      assert Tended(s, c, AskedBy(evs, i));
      CountIs(s, c);
    }
  }

  lemma LastReference(s: State, th: nat, defs: nat -> ClassDef) returns (s': State)
    requires Inv(s) && th in s.threads && s.threads[th].Delete? && s.threads[th].c in s.classes
    requires s.classes[s.threads[th].c].refs == 1
    ensures Enabled(s, DeleteLocked(th)) && s' == Apply(s, DeleteLocked(th), defs) && Inv(s')
    ensures var l := s.threads[th]; var k := s.classes[l.c];
      && k.ops.Some? && l.o in s.objects && s'.classes == s.classes[l.c := k.(refs := 0)] && s'.tables == s.tables
      && s'.objects == s.objects[l.o := s.objects[l.o].(counted := false)]
      && s'.threads == s.threads[th := Freeing(l.c, Some(l.o))]
  {
    hide ClassesOk, ThreadsOk, Slow;
    LocalIs(s, th);
    assert ObjectOk(s, s.threads[th].o);
    KeepsDelete(s, th);
    s' := Apply(s, DeleteLocked(th), defs);
  }

  lemma LastFree(s: State, th: nat, defs: nat -> ClassDef) returns (s': State)
    requires Inv(s) && th in s.threads && s.threads[th].Freeing? && s.threads[th].c in s.classes
    requires s.classes[s.threads[th].c].refs == 0 && s.classes[s.threads[th].c].ops.Some?
    ensures Enabled(s, FreeLocked(th)) && s' == Apply(s, FreeLocked(th), defs) && Inv(s')
    ensures var l := s.threads[th]; var k := s.classes[l.c];
      && s'.classes == s.classes[l.c := k.(ops := None)] && s'.tables == s.tables && s'.objects == s.objects
      && s'.threads == s.threads[th := Release(k.ops.value, l.back)]
  {
    hide ClassesOk, ObjectsOk, ThreadsOk, Slow;
    LocalIs(s, th);
    KeepsFree(s, th);
    s' := Apply(s, FreeLocked(th), defs);
  }

  lemma LastRelease(s: State, th: nat, defs: nat -> ClassDef) returns (s': State)
    requires Inv(s) && th in s.threads && s.threads[th].Release? && s.threads[th].back.Some?
    ensures Enabled(s, FreeTable(th)) && s' == Apply(s, FreeTable(th), defs) && Inv(s')
    ensures var l := s.threads[th];
      && s'.classes == s.classes && s'.tables == s.tables - {l.t} && s'.objects == s.objects
      && s'.threads == s.threads[th := Finish(l.back.value)]
  {
    hide ClassesOk, ObjectsOk, ThreadsOk, Slow;
    LocalIs(s, th);
    KeepsFreed(s, th, s.threads[th].t, Finish(s.threads[th].back.value));
    s' := Apply(s, FreeTable(th), defs);
  }

  // kobj_delete of the last object of a class, left alone, frees the table and the object.
  lemma LastDelete(s: State, th: nat, defs: nat -> ClassDef) returns (s1: State, s2: State, s3: State, s4: State)
    requires Inv(s) && th in s.threads && s.threads[th].Delete? && s.threads[th].c in s.classes
    requires s.classes[s.threads[th].c].refs == 1
    ensures Enabled(s, DeleteLocked(th)) && s1 == Apply(s, DeleteLocked(th), defs) && Inv(s1)
    ensures Enabled(s1, FreeLocked(th)) && s2 == Apply(s1, FreeLocked(th), defs) && Inv(s2)
    ensures Enabled(s2, FreeTable(th)) && s3 == Apply(s2, FreeTable(th), defs) && Inv(s3)
    ensures Enabled(s3, FinishDelete(th)) && s4 == Apply(s3, FinishDelete(th), defs)
    ensures var l := s.threads[th]; var k := s.classes[l.c];
      && k.ops.Some? && s4.classes == s.classes[l.c := k.(refs := 0, ops := None)]
      && s4.tables == s.tables - {k.ops.value} && s4.objects == s.objects - {l.o} && s4.threads == s.threads[th := Idle]
  {
    hide Inv, DeleteStep, FreeStep, Slow;
    s1 := LastReference(s, th, defs);
    s2 := LastFree(s1, th, defs);
    s3 := LastRelease(s2, th, defs);
    s4 := Apply(s3, FinishDelete(th), defs);
  }
}
