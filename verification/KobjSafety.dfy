// Every event of the protocol keeps the invariant.
module KobjSafety {
  import opened KobjMethods
  import opened KobjProtocol

  // ---- threads ---------------------------------------------------------------------------

  // A thread that holds no more than before stays apart from the others.
  ghost predicate Less(l': Local, l: Local) {
    && (Held(l').Some? ==> Held(l') == Held(l))
    && (Owned(l').Some? ==> Owned(l') == Owned(l))
    && (Used(l').Some? ==> Used(l') == Used(l))
  }

  lemma ApartLess(l': Local, l: Local, b: Local)
    requires Apart(l, b) && Less(l', l)
    ensures Apart(l', b)
  {
  }

  // One thread moves; the others still find what they rely on.
  lemma ThreadsMove(s: State, s': State, th: nat, l': Local)
    requires ThreadsOk(s) && th in s.threads && s'.threads == s.threads[th := l'] && LocalOk(s', l')
    requires forall b | b in s.threads && b != th :: LocalOk(s', s.threads[b]) && Apart(l', s.threads[b])
    ensures ThreadsOk(s')
  {
  }

  lemma ThreadsLess(s: State, s': State, th: nat, l': Local)
    requires ThreadsOk(s) && th in s.threads && s'.threads == s.threads[th := l'] && LocalOk(s', l')
    requires Less(l', s.threads[th]) && forall b | b in s.threads && b != th :: LocalOk(s', s.threads[b])
    ensures ThreadsOk(s')
  {
    forall b | b in s.threads && b != th ensures Apart(l', s.threads[b]) {
      ApartLess(l', s.threads[th], s.threads[b]);
    }
    hide *;
    ThreadsMove(s, s', th, l');
  }

  // Only the thread's own place changes.
  lemma LocalOnly(s: State, th: nat, l': Local)
    requires Inv(s) && th in s.threads && LocalOk(s, l')
    requires forall b | b in s.threads && b != th :: Apart(l', s.threads[b])
    ensures Inv(SetLocal(s, th, l'))
  {
    var s' := SetLocal(s, th, l');
    LocalSame(s, s', l');
    forall b | b in s.threads && b != th ensures LocalOk(s', s.threads[b]) {
      LocalSame(s, s', s.threads[b]);
    }
    ThreadsMove(s, s', th, l');
    MemorySame(s, s');
  }

  lemma LocalSame(s: State, s': State, l: Local)
    requires s'.classes == s.classes && s'.tables == s.tables && s'.objects == s.objects && LocalOk(s, l)
    ensures LocalOk(s', l)
  {
  }

  lemma MemorySame(s: State, s': State)
    requires s'.classes == s.classes && s'.tables == s.tables && s'.objects == s.objects && ClassesOk(s)
      && ObjectsOk(s)
    ensures ClassesOk(s') && ObjectsOk(s')
  {
  }

  lemma LocalLess(s: State, th: nat, l': Local)
    requires Inv(s) && th in s.threads && LocalOk(s, l') && Less(l', s.threads[th])
    ensures Inv(SetLocal(s, th, l'))
  {
    forall b | b in s.threads && b != th ensures Apart(l', s.threads[b]) {
      ApartLess(l', s.threads[th], s.threads[b]);
    }
    LocalOnly(s, th, l');
  }

  // ---- the events that change memory ----------------------------------------------------------

  lemma RefsAdd(objects: map<nat, Object>, o: nat, x: Object, c: nat)
    requires o !in objects && x.counted
    ensures Refs(objects[o := x], c) == if x.cls == c then Refs(objects, c) + {o} else Refs(objects, c)
  {
  }

  lemma OthersInit(s: State, th: nat, b: Local)
    requires Inv(s) && th in s.threads && s.threads[th].Init? && s.threads[th].c in s.classes
      && s.classes[s.threads[th].c].ops.Some?
    requires LocalOk(s, s.threads[th]) && LocalOk(s, b) && Apart(s.threads[th], b)
    ensures LocalOk(InitStep(s, th), b)
  {
    hide ClassesOk, ObjectsOk, ThreadsOk;
  }

  lemma KeepsInit(s: State, th: nat)
    requires Inv(s) && th in s.threads && s.threads[th].Init? && s.threads[th].c in s.classes
      && s.classes[s.threads[th].c].ops.Some?
    ensures Inv(InitStep(s, th))
  {
    var l := s.threads[th];
    assert LocalOk(s, l);
    var s' := InitStep(s, th);
    forall c | c in s'.classes ensures ClassOk(s', c) && CountOk(s', c) {
      assert ClassOk(s, c) && CountOk(s, c);
      RefsAdd(s.objects, l.o, s'.objects[l.o], c);
    }
    forall o | o in s'.objects ensures ObjectOk(s', o) {
      assert o != l.o ==> ObjectOk(s, o);
    }
    forall b | b in s.threads && b != th ensures LocalOk(s', s.threads[b]) {
      assert LocalOk(s, s.threads[b]) && Apart(l, s.threads[b]);
      OthersInit(s, th, s.threads[b]);
    }
    ThreadsLess(s, s', th, Idle);
  }

  lemma KeepsAlloc(s: State, th: nat, t: nat)
    requires Inv(s) && th in s.threads && s.threads[th].Alloc? && t !in s.tables
    ensures var l := s.threads[th]; Inv(SetLocal(s.(tables := s.tables[t := Table(None, EmptyCache())]), th,
      Install(l.c, t, l.back)))
  {
    hide EmptyCache;
    var l := s.threads[th];
    assert LocalOk(s, l);
    var l' := Install(l.c, t, l.back);
    var s' := SetLocal(s.(tables := s.tables[t := Table(None, EmptyCache())]), th, l');
    forall c | c in s'.classes ensures ClassOk(s', c) && CountOk(s', c) && s'.classes[c].ops != Some(t) {
      assert ClassOk(s, c) && CountOk(s, c);
    }
    forall o | o in s'.objects ensures ObjectOk(s', o) {
      assert ObjectOk(s, o);
    }
    forall b | b in s.threads && b != th ensures LocalOk(s', s.threads[b]) && Apart(l', s.threads[b]) {
      assert LocalOk(s, s.threads[b]) && Apart(l, s.threads[b]);
    }
    ThreadsMove(s, s', th, l');
  }

  lemma OthersInstall(s: State, th: nat, b: Local)
    requires Inv(s) && th in s.threads && s.threads[th].Install? && s.threads[th].c in s.classes
      && s.classes[s.threads[th].c].ops.None?
    requires LocalOk(s, s.threads[th]) && LocalOk(s, b) && Apart(s.threads[th], b)
    ensures LocalOk(InstallStep(s, th), b)
  {
    hide ClassesOk, ObjectsOk, ThreadsOk, EmptyCache;
  }

  lemma KeepsInstall(s: State, th: nat)
    requires Inv(s) && th in s.threads && s.threads[th].Install? && s.threads[th].c in s.classes
      && s.classes[s.threads[th].c].ops.None?
    ensures Inv(InstallStep(s, th))
  {
    hide EmptyCache;
    var l := s.threads[th];
    assert LocalOk(s, l);
    var s' := InstallStep(s, th);
    forall c | c in s'.classes ensures ClassOk(s', c) && CountOk(s', c) {
      assert ClassOk(s, c) && CountOk(s, c);
    }
    forall o | o in s'.objects ensures ObjectOk(s', o) {
      assert ObjectOk(s, o);
    }
    forall b | b in s.threads && b != th ensures LocalOk(s', s.threads[b]) {
      assert LocalOk(s, s.threads[b]) && Apart(l, s.threads[b]);
      OthersInstall(s, th, s.threads[b]);
    }
    ThreadsLess(s, s', th, Resume(l.c, l.back));
  }

  // Freeing a table that is in no class.
  lemma KeepsFreed(s: State, th: nat, t: nat, l': Local)
    requires Inv(s) && th in s.threads && Held(s.threads[th]) == Some(t) && Held(l') == None
    requires LocalOk(s, l') && Less(l', s.threads[th])
    ensures Inv(SetLocal(s.(tables := s.tables - {t}), th, l'))
  {
    var l := s.threads[th];
    assert LocalOk(s, l) && NotInstalled(s, t);
    var s' := SetLocal(s.(tables := s.tables - {t}), th, l');
    forall c | c in s'.classes ensures ClassOk(s', c) && CountOk(s', c) {
      assert ClassOk(s, c) && CountOk(s, c);
    }
    forall o | o in s'.objects ensures ObjectOk(s', o) {
      assert ObjectOk(s, o);
    }
    forall b | b in s.threads && b != th ensures LocalOk(s', s.threads[b]) {
      assert LocalOk(s, s.threads[b]) && Apart(l, s.threads[b]);
    }
    ThreadsLess(s, s', th, l');
  }

  lemma OthersDelete(s: State, th: nat, b: Local)
    requires Inv(s) && th in s.threads && s.threads[th].Delete?
    requires LocalOk(s, s.threads[th]) && LocalOk(s, b) && Apart(s.threads[th], b)
    ensures LocalOk(DeleteStep(s, th), b)
  {
  }

  lemma KeepsDelete(s: State, th: nat)
    requires Inv(s) && th in s.threads && s.threads[th].Delete?
    ensures Inv(DeleteStep(s, th))
  {
    var l := s.threads[th];
    assert LocalOk(s, l);
    var s' := DeleteStep(s, th);
    forall c | c in s'.classes ensures ClassOk(s', c) && CountOk(s', c) {
      assert ClassOk(s, c) && CountOk(s, c);
      assert Refs(s'.objects, c) == Refs(s.objects, c) - {l.o};
    }
    forall o | o in s'.objects ensures ObjectOk(s', o) {
      assert ObjectOk(s, o);
    }
    forall b | b in s.threads && b != th ensures LocalOk(s', s.threads[b]) {
      assert LocalOk(s, s.threads[b]) && Apart(l, s.threads[b]);
      OthersDelete(s, th, s.threads[b]);
    }
    ThreadsLess(s, s', th, s'.threads[th]);
  }

  lemma KeepsFree(s: State, th: nat)
    requires Inv(s) && th in s.threads && s.threads[th].Freeing? && s.threads[th].c in s.classes
    requires s.classes[s.threads[th].c].refs == 0 && s.classes[s.threads[th].c].ops.Some?
    ensures Inv(FreeStep(s, th))
  {
    var l := s.threads[th];
    assert LocalOk(s, l);
    var s', t := FreeStep(s, th), s.classes[l.c].ops.value;
    assert ClassOk(s, l.c) && CountOk(s, l.c);
    forall c | c in s'.classes ensures ClassOk(s', c) && CountOk(s', c) && s'.classes[c].ops != Some(t) {
      assert ClassOk(s, c) && CountOk(s, c);
    }
    assert Refs(s.objects, l.c) == {};
    forall o | o in s'.objects ensures ObjectOk(s', o) {
      assert ObjectOk(s, o) && o !in Refs(s.objects, l.c);
    }
    forall b | b in s.threads && b != th ensures LocalOk(s', s.threads[b]) && Apart(s'.threads[th], s.threads[b]) {
      assert LocalOk(s, s.threads[b]) && Apart(l, s.threads[b]);
    }
    ThreadsMove(s, s', th, s'.threads[th]);
  }

  lemma KeepsFinish(s: State, th: nat)
    requires Inv(s) && th in s.threads && s.threads[th].Finish?
    ensures Inv(SetLocal(s.(objects := s.objects - {s.threads[th].o}), th, Idle))
  {
    var l := s.threads[th];
    assert LocalOk(s, l);
    var s' := SetLocal(s.(objects := s.objects - {l.o}), th, Idle);
    forall c | c in s'.classes ensures ClassOk(s', c) && CountOk(s', c) {
      assert ClassOk(s, c) && CountOk(s, c);
      assert Refs(s'.objects, c) == Refs(s.objects, c);
    }
    forall o | o in s'.objects ensures ObjectOk(s', o) {
      assert ObjectOk(s, o);
    }
    forall b | b in s.threads && b != th ensures LocalOk(s', s.threads[b]) {
      assert LocalOk(s, s.threads[b]) && Apart(l, s.threads[b]);
    }
    ThreadsLess(s, s', th, Idle);
  }

  lemma KeepsFill(s: State, th: nat, slot: nat, defs: nat -> ClassDef)
    requires Inv(s) && th in s.threads && s.threads[th].Filling?
    ensures Inv(FillStep(s, th, slot, defs))
  {
    hide Slow;
    var l := s.threads[th];
    assert LocalOk(s, l);
    var s' := FillStep(s, th, slot, defs);
    forall c | c in s'.classes ensures ClassOk(s', c) && CountOk(s', c) {
      assert ClassOk(s, c) && CountOk(s, c);
    }
    forall o | o in s'.objects ensures ObjectOk(s', o) {
      assert ObjectOk(s, o);
    }
    forall b | b in s.threads && b != th ensures LocalOk(s', s.threads[b]) {
      assert LocalOk(s, s.threads[b]);
    }
    ThreadsLess(s, s', th, Idle);
  }

  lemma KeepsStatic(s: State, th: nat, c0: nat, t: nat)
    requires Inv(s) && th in s.threads && c0 in s.classes && t !in s.tables
    ensures Inv(StaticStep(s, c0, t))
  {
    var s' := StaticStep(s, c0, t);
    StaticMemory(s, c0, t);
    forall b | b in s.threads ensures LocalOk(s', s.threads[b]) {
      StaticLocal(s, c0, t, s.threads[b]);
    }
  }

  lemma StaticMemory(s: State, c0: nat, t: nat)
    requires Inv(s) && c0 in s.classes && t !in s.tables
    ensures var s' := StaticStep(s, c0, t); ClassesOk(s') && ObjectsOk(s')
  {
    hide EmptyCache, ThreadsOk;
    var s' := StaticStep(s, c0, t);
    forall c | c in s'.classes ensures ClassOk(s', c) && CountOk(s', c) {
      assert ClassOk(s, c) && CountOk(s, c);
    }
    forall o | o in s'.objects ensures ObjectOk(s', o) {
      assert ObjectOk(s, o);
    }
  }

  lemma StaticLocal(s: State, c0: nat, t: nat, l: Local)
    requires LocalOk(s, l) && c0 in s.classes && t !in s.tables
    ensures LocalOk(StaticStep(s, c0, t), l)
  {
  }

  // ---- all events ----------------------------------------------------------------------------

  lemma KeepsBegin(s: State, ev: Event, defs: nat -> ClassDef)
    requires Inv(s) && Enabled(s, ev)
    requires ev.BeginInit? || ev.BeginCompile? || ev.BeginDelete? || ev.BeginFree? || ev.BeginLookup? || ev.ReadSlot?
    ensures Inv(Apply(s, ev, defs))
  {
    hide ClassesOk, Slow;
    var l' := Apply(s, ev, defs).threads[ev.th];
    assert LocalOk(s, s.threads[ev.th]);
    if ev.BeginDelete? {
      StartFacts(s, ev.o);
    }
    if ev.BeginInit? || ev.BeginDelete? || ev.BeginLookup? {
      LocalOnly(s, ev.th, l');
    } else {
      LocalLess(s, ev.th, l');
    }
  }

  lemma StartFacts(s: State, o: nat)
    requires Inv(s) && o in s.objects && s.objects[o].counted
    ensures s.objects[o].cls in s.classes && s.objects[o].ops in s.tables
      && s.tables[s.objects[o].ops].cls == Some(s.objects[o].cls)
  {
  }

  lemma KeepsLocked(s: State, ev: Event, defs: nat -> ClassDef)
    requires Inv(s) && Enabled(s, ev)
    requires ev.InitLocked? || ev.InstallLocked? || ev.DeleteLocked? || ev.FreeLocked?
    ensures Inv(Apply(s, ev, defs))
  {
    hide ClassesOk, ObjectsOk, Slow;
    var l := s.threads[ev.th];
    assert LocalOk(s, l);
    match ev
    case InitLocked(th) =>
      if s.classes[l.c].ops.Some? {
        KeepsInit(s, th);
      } else {
        LocalLess(s, th, Alloc(l.c, Some(l.o)));
      }
    case InstallLocked(th) =>
      if s.classes[l.c].ops.Some? {
        LocalLess(s, th, Spare(l.c, l.t, l.back));
      } else {
        KeepsInstall(s, th);
      }
    case DeleteLocked(th) => KeepsDelete(s, th);
    case FreeLocked(th) =>
      if s.classes[l.c].refs == 0 && s.classes[l.c].ops.Some? {
        KeepsFree(s, th);
      } else {
        LocalLess(s, th, Conclude(l.back));
      }
  }

  lemma Keeps(s: State, ev: Event, defs: nat -> ClassDef)
    requires Inv(s) && Enabled(s, ev)
    ensures Inv(Apply(s, ev, defs))
  {
    hide ClassesOk, ObjectsOk, Slow;
    var l := s.threads[ev.th];
    assert LocalOk(s, l);
    match ev
    case AllocTable(th, t) => KeepsAlloc(s, th, t);
    case FreeSpare(th) => KeepsFreed(s, th, l.t, Resume(l.c, l.back));
    case FreeTable(th) => KeepsFreed(s, th, l.t, Conclude(l.back));
    case FinishDelete(th) => KeepsFinish(s, th);
    case FillSlot(th, slot) => KeepsFill(s, th, slot, defs);
    case CompileStatic(th, c, t) => KeepsStatic(s, th, c, t);
    case InitLocked(_) => KeepsLocked(s, ev, defs);
    case InstallLocked(_) => KeepsLocked(s, ev, defs);
    case DeleteLocked(_) => KeepsLocked(s, ev, defs);
    case FreeLocked(_) => KeepsLocked(s, ev, defs);
    case _ => KeepsBegin(s, ev, defs);
  }

  // ---- caches ----------------------------------------------------------------------------------

  // Every cache entry of a compiled table is the answer for its own operation.
  ghost predicate CachesOk(s: State, defs: nat -> ClassDef, descs: set<Desc>) {
    && (forall t | t in s.tables && s.tables[t].cls.Some? ::
      Faithful(defs(s.tables[t].cls.value), s.tables[t].cache, descs))
    && forall th | th in s.threads :: LookupOk(s.threads[th], descs)
  }

  ghost predicate LookupOk(l: Local, descs: set<Desc>) {
    (l.Looking? ==> l.d in descs) && (l.Filling? ==> l.d in descs)
  }

  ghost predicate EventOk(ev: Event, descs: set<Desc>) {
    ev.BeginLookup? ==> ev.d in descs
  }

  lemma KeepsCaches(s: State, ev: Event, defs: nat -> ClassDef, descs: set<Desc>)
    requires Inv(s) && Enabled(s, ev) && CachesOk(s, defs, descs) && Consistent(descs) && EventOk(ev, descs)
    ensures CachesOk(Apply(s, ev, defs), defs, descs)
  {
    hide Slow, Faithful, ClassesOk, ObjectsOk;
    var s' := Apply(s, ev, defs);
    assert LookupOk(s.threads[ev.th], descs);
    forall th | th in s'.threads ensures LookupOk(s'.threads[th], descs) {
      assert th in s.threads && LookupOk(s.threads[th], descs);
    }
    forall t | t in s'.tables && s'.tables[t].cls.Some?
      ensures Faithful(defs(s'.tables[t].cls.value), s'.tables[t].cache, descs) {
      TableChange(s, ev, defs, descs, t);
    }
  }

  // A table is new and empty, or unchanged, or one slot was filled with the answer of the slow lookup.
  lemma TableChange(s: State, ev: Event, defs: nat -> ClassDef, descs: set<Desc>, t: nat)
    requires Inv(s) && Enabled(s, ev) && CachesOk(s, defs, descs) && Consistent(descs)
    requires var s' := Apply(s, ev, defs); t in s'.tables && s'.tables[t].cls.Some?
    ensures var s' := Apply(s, ev, defs); Faithful(defs(s'.tables[t].cls.value), s'.tables[t].cache, descs)
  {
    hide Slow, ClassesOk, ObjectsOk, ThreadsOk;
    var l := s.threads[ev.th];
    assert LocalOk(s, l) && LookupOk(l, descs) by { LocalFacts(s, ev.th, defs, descs); }
    if ev.FillSlot? {
      FillChange(s, ev.th, ev.slot, defs, descs, t);
    } else {
      var s' := Apply(s, ev, defs);
      assert s'.tables[t].cache == EmptyCache() || (t in s.tables && s'.tables[t] == s.tables[t]);
    }
  }

  lemma LocalFacts(s: State, th: nat, defs: nat -> ClassDef, descs: set<Desc>)
    requires Inv(s) && CachesOk(s, defs, descs) && th in s.threads
    ensures LocalOk(s, s.threads[th]) && LookupOk(s.threads[th], descs)
  {
  }

  lemma FillChange(s: State, th: nat, slot: nat, defs: nat -> ClassDef, descs: set<Desc>, t: nat)
    requires Inv(s) && CachesOk(s, defs, descs) && Consistent(descs) && th in s.threads && s.threads[th].Filling?
    requires var s' := FillStep(s, th, slot, defs); t in s'.tables && s'.tables[t].cls.Some?
    ensures var s' := FillStep(s, th, slot, defs); Faithful(defs(s'.tables[t].cls.value), s'.tables[t].cache, descs)
  {
    hide Slow, ClassesOk, ObjectsOk;
    var l := s.threads[th];
    assert LocalOk(s, l) && LookupOk(l, descs);
    if t == TableOf(s, l.o) {
      SlowKey(defs(s.objects[l.o].cls), l.d);
    }
  }

  // ---- runs ------------------------------------------------------------------------------------

  // Nothing is compiled, no object exists and every thread is idle.
  ghost predicate Start(s: State) {
    && s.tables == map[] && s.objects == map[]
    && (forall c | c in s.classes :: s.classes[c] == Class(0, 0, None))
    && forall th | th in s.threads :: s.threads[th] == Idle
  }

  // Any interleaving of the threads' events.
  ghost predicate Run(states: seq<State>, evs: seq<Event>, defs: nat -> ClassDef, descs: set<Desc>) {
    && |states| == |evs| + 1 && Start(states[0])
    && forall i | 0 <= i < |evs| ::
      && Enabled(states[i], evs[i]) && EventOk(evs[i], descs)
      && (Inv(states[i]) ==> states[i + 1] == Apply(states[i], evs[i], defs))
  }

  // The table a thread is about to free.
  ghost function ToFree(l: Local): Option<nat> {
    match l
    case Spare(_, t, _) => Some(t)
    case Release(t, _) => Some(t)
    case _ => None
  }

  ghost predicate Live(s: State, o: nat) {
    o in s.objects && s.objects[o].counted
  }

  // A table about to be freed is in memory, no live object uses it, and no other thread frees it too.
  ghost predicate FreesSafely(s: State, th: nat)
    requires th in s.threads
  {
    var f := ToFree(s.threads[th]);
    f.Some? ==>
      && f.value in s.tables
      && (forall o | Live(s, o) :: s.objects[o].ops != f.value)
      && (forall b | b in s.threads && b != th :: ToFree(s.threads[b]) != f)
  }

  // A live object's table is its class's current one, and it is in memory.
  ghost predicate Current(s: State, o: nat)
    requires Live(s, o)
  {
    s.objects[o].cls in s.classes && s.classes[s.objects[o].cls].ops == Some(s.objects[o].ops)
      && s.objects[o].ops in s.tables
  }

  ghost predicate Safe(s: State) {
    (forall th | th in s.threads :: FreesSafely(s, th)) && forall o | Live(s, o) :: Current(s, o)
  }

  lemma InvSafe(s: State)
    requires Inv(s)
    ensures Safe(s)
  {
  }

  lemma StartInv(s: State, defs: nat -> ClassDef, descs: set<Desc>)
    requires Start(s)
    ensures Inv(s) && CachesOk(s, defs, descs)
  {
  }

  // In every state of every run, nothing is freed twice or under a live object, and every live object
  // uses its class's current table.
  lemma {:induction false} RunSafe(states: seq<State>, evs: seq<Event>, defs: nat -> ClassDef, descs: set<Desc>,
      i: nat)
    requires Run(states, evs, defs, descs) && Consistent(descs) && i < |states|
    ensures Inv(states[i]) && CachesOk(states[i], defs, descs) && Safe(states[i])
  {
    hide Inv, CachesOk, Safe, Start, Enabled, Apply;
    if i == 0 {
      StartInv(states[0], defs, descs);
    } else {
      RunSafe(states, evs, defs, descs, i - 1);
      Keeps(states[i - 1], evs[i - 1], defs);
      KeepsCaches(states[i - 1], evs[i - 1], defs, descs);
    }
    InvSafe(states[i]);
  }

  // Whatever a method call finds in a slot for its operation is what the slow lookup would return, in
  // every state of every run and whichever slot it reads.
  lemma LookupExact(states: seq<State>, evs: seq<Event>, defs: nat -> ClassDef, descs: set<Desc>, i: nat, o: nat,
      d: Desc, slot: nat)
    requires Run(states, evs, defs, descs) && Consistent(descs) && i < |states| && Live(states[i], o) && d in descs
    ensures Inv(states[i])
    ensures var hit := Hit(states[i], o, d, slot); hit.Some? ==> hit.value == Slow(defs(states[i].objects[o].cls), d)
  {
    hide Run, Slow;
    RunSafe(states, evs, defs, descs, i);
    var t := TableOf(states[i], o);
  }
}
