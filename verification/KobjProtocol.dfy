// Creation and deletion of kernel objects by many threads. Each event is one lock section, or one
// step a thread takes without the lock; any interleaving of them is a run.
module KobjProtocol {
  import opened KobjMethods

  // A class: reference count, references taken for statically compiled classes, compiled table.
  datatype Class = Class(refs: int, pins: nat, ops: Option<nat>)

  // A compiled table in memory: its class, once compiled, and the method cache.
  datatype Table = Table(cls: Option<nat>, cache: seq<Option<Method>>)

  // An object from its initialisation on; counted until its reference is given up.
  datatype Object = Object(cls: nat, ops: nat, counted: bool)

  // Where a thread is. `back` is the object it is working for, if any.
  datatype Local =
    | Idle
    | Init(o: nat, c: nat)                             // kobj_init, about to take the lock
    | Alloc(c: nat, back: Option<nat>)                 // kobj_class_compile, about to allocate
    | Install(c: nat, t: nat, back: Option<nat>)       // about to take the lock with a new table
    | Spare(c: nat, t: nat, back: Option<nat>)         // lost the race, about to free the table
    | Delete(o: nat, c: nat)                           // kobj_delete, about to take the lock
    | Freeing(c: nat, back: Option<nat>)               // kobj_class_free, about to take the lock
    | Release(t: nat, back: Option<nat>)               // about to free the table taken from the class
    | Finish(o: nat)                                   // about to free the object
    | Looking(o: nat, d: Desc)                         // a method call, about to read a cache slot
    | Filling(o: nat, d: Desc)                         // missed, about to fill a cache slot

  datatype State = State(classes: map<nat, Class>, tables: map<nat, Table>, objects: map<nat, Object>,
    threads: map<nat, Local>)

  datatype Event =
    | BeginInit(th: nat, o: nat, c: nat)
    | InitLocked(th: nat)
    | BeginCompile(th: nat, c: nat)
    | AllocTable(th: nat, t: nat)
    | InstallLocked(th: nat)
    | FreeSpare(th: nat)
    | BeginDelete(th: nat, o: nat)
    | DeleteLocked(th: nat)
    | BeginFree(th: nat, c: nat)
    | FreeLocked(th: nat)
    | FreeTable(th: nat)
    | FinishDelete(th: nat)
    | BeginLookup(th: nat, o: nat, d: Desc)
    | ReadSlot(th: nat, slot: nat)
    | FillSlot(th: nat, slot: nat)
    | CompileStatic(th: nat, c: nat, t: nat)

  // ---- what a thread holds ----------------------------------------------------------

  // A table that is the thread's own.
  ghost function Held(l: Local): Option<nat> {
    match l
    case Install(_, t, _) => Some(t)
    case Spare(_, t, _) => Some(t)
    case Release(t, _) => Some(t)
    case _ => None
  }

  // An object that only this thread may touch.
  ghost function Owned(l: Local): Option<nat> {
    match l
    case Init(o, _) => Some(o)
    case Alloc(_, back) => back
    case Install(_, _, back) => back
    case Spare(_, _, back) => back
    case Delete(o, _) => Some(o)
    case Freeing(_, back) => back
    case Release(_, back) => back
    case Finish(o) => Some(o)
    case _ => None
  }

  // An object in use by a method call.
  ghost function Used(l: Local): Option<nat> {
    match l
    case Looking(o, _) => Some(o)
    case Filling(o, _) => Some(o)
    case _ => None
  }

  // What callers must respect: nobody deletes or initialises an object that is in other hands.
  ghost predicate Free(s: State, o: nat) {
    forall th | th in s.threads :: Owned(s.threads[th]) != Some(o) && Used(s.threads[th]) != Some(o)
  }

  ghost predicate NotOwned(s: State, o: nat) {
    forall th | th in s.threads :: Owned(s.threads[th]) != Some(o)
  }

  ghost predicate Enabled(s: State, ev: Event) {
    && ev.th in s.threads
    && var l := s.threads[ev.th];
       match ev
       case BeginInit(_, o, c) => l.Idle? && o !in s.objects && c in s.classes && Free(s, o)
       case InitLocked(_) => l.Init?
       case BeginCompile(_, c) => l.Idle? && c in s.classes
       case AllocTable(_, t) => l.Alloc? && t !in s.tables
       case InstallLocked(_) => l.Install?
       case FreeSpare(_) => l.Spare?
       case BeginDelete(_, o) => l.Idle? && o in s.objects && s.objects[o].counted && Free(s, o)
       case DeleteLocked(_) => l.Delete?
       case BeginFree(_, c) => l.Idle? && c in s.classes
       case FreeLocked(_) => l.Freeing?
       case FreeTable(_) => l.Release?
       case FinishDelete(_) => l.Finish?
       case BeginLookup(_, o, _) => l.Idle? && o in s.objects && s.objects[o].counted && NotOwned(s, o)
       case ReadSlot(_, _) => l.Looking?
       case FillSlot(_, slot) => l.Filling?
       case CompileStatic(_, c, t) => l.Idle? && c in s.classes && t !in s.tables
  }

  // ---- the invariant ------------------------------------------------------------------------

  // The objects whose reference is counted in class c.
  ghost function Refs(objects: map<nat, Object>, c: nat): set<nat> {
    set o | o in objects && objects[o].counted && objects[o].cls == c
  }

  // The table of a class is in memory and knows its class.
  ghost predicate ClassOk(s: State, c: nat)
    requires c in s.classes
  {
    s.classes[c].ops.Some? ==> s.classes[c].ops.value in s.tables && s.tables[s.classes[c].ops.value].cls == Some(c)
  }

  // The reference count is the number of objects and static references; the latter keep a table.
  ghost predicate CountOk(s: State, c: nat)
    requires c in s.classes
  {
    s.classes[c].refs == |Refs(s.objects, c)| + s.classes[c].pins
      && (s.classes[c].pins > 0 ==> s.classes[c].ops.Some?)
  }

  // A counted object uses the current table of its class.
  ghost predicate ObjectOk(s: State, o: nat)
    requires o in s.objects
  {
    s.objects[o].counted ==>
      s.objects[o].cls in s.classes && s.classes[s.objects[o].cls].ops == Some(s.objects[o].ops)
  }

  ghost predicate NotInstalled(s: State, t: nat) {
    forall c | c in s.classes :: s.classes[c].ops != Some(t)
  }

  ghost predicate Pending(s: State, back: Option<nat>) {
    back.Some? ==> back.value !in s.objects
  }

  ghost predicate Retired(s: State, back: Option<nat>) {
    back.Some? ==> back.value in s.objects && !s.objects[back.value].counted
  }

  // What a thread relies on.
  ghost predicate LocalOk(s: State, l: Local) {
    match l
    case Idle => true
    case Init(o, c) => c in s.classes && o !in s.objects
    case Alloc(c, back) => c in s.classes && Pending(s, back)
    case Install(c, t, back) => c in s.classes && t in s.tables && NotInstalled(s, t) && Pending(s, back)
    case Spare(c, t, back) => c in s.classes && t in s.tables && NotInstalled(s, t) && Pending(s, back)
    case Delete(o, c) => c in s.classes && o in s.objects && s.objects[o].counted && s.objects[o].cls == c
    case Freeing(c, back) => c in s.classes && Retired(s, back)
    case Release(t, back) => t in s.tables && NotInstalled(s, t) && Retired(s, back)
    case Finish(o) => o in s.objects && !s.objects[o].counted
    case Looking(o, _) => o in s.objects && s.objects[o].counted
    case Filling(o, _) => o in s.objects && s.objects[o].counted
  }

  // Two threads hold different tables and own different objects, and neither uses what the other owns.
  ghost predicate Apart(a: Local, b: Local) {
    && (Held(a).Some? ==> Held(a) != Held(b))
    && (Owned(a).Some? ==> Owned(a) != Owned(b) && Owned(a) != Used(b))
    && (Owned(b).Some? ==> Owned(b) != Used(a))
  }

  ghost predicate ClassesOk(s: State) {
    forall c | c in s.classes :: ClassOk(s, c) && CountOk(s, c)
  }

  ghost predicate ObjectsOk(s: State) {
    forall o | o in s.objects :: ObjectOk(s, o)
  }

  ghost predicate ThreadsOk(s: State) {
    && (forall th | th in s.threads :: LocalOk(s, s.threads[th]))
    && forall a, b | a in s.threads && b in s.threads && a != b :: Apart(s.threads[a], s.threads[b])
  }

  ghost predicate Inv(s: State) {
    ClassesOk(s) && ObjectsOk(s) && ThreadsOk(s)
  }

  // ---- the steps -------------------------------------------------------------------------

  // Back to kobj_init after a compile, or done.
  ghost function Resume(c: nat, back: Option<nat>): Local {
    match back case Some(o) => Init(o, c) case None => Idle
  }

  // Back to kobj_delete after freeing the class, or done.
  ghost function Conclude(back: Option<nat>): Local {
    match back case Some(o) => Finish(o) case None => Idle
  }

  ghost function SetLocal(s: State, th: nat, l: Local): State {
    s.(threads := s.threads[th := l])
  }

  // The null entries of a new cache.
  ghost function EmptyCache(): seq<Option<Method>> {
    seq(256, i => None)
  }

  // kobj_class_compile_common for a class without a table
  ghost function Compiled(s: State, c: nat, t: nat): State
    requires c in s.classes
  {
    s.(tables := s.tables[t := Table(Some(c), EmptyCache())],
      classes := s.classes[c := s.classes[c].(ops := Some(t))])
  }

  ghost function Apply(s: State, ev: Event, defs: nat -> ClassDef): State
    requires Inv(s) && Enabled(s, ev)
  {
    var th := ev.th;
    var l := s.threads[th];
    assert LocalOk(s, l);
    match ev
    case BeginInit(_, o, c) => SetLocal(s, th, Init(o, c))
    case InitLocked(_) => InitStep(s, th)
    case BeginCompile(_, c) => SetLocal(s, th, Alloc(c, None))
    case AllocTable(_, t) => SetLocal(s.(tables := s.tables[t := Table(None, EmptyCache())]), th,
      Install(l.c, t, l.back))
    case InstallLocked(_) => InstallStep(s, th)
    case FreeSpare(_) => SetLocal(s.(tables := s.tables - {l.t}), th, Resume(l.c, l.back))
    case BeginDelete(_, o) => DeleteStart(s, th, o)
    case DeleteLocked(_) => DeleteStep(s, th)
    case BeginFree(_, c) => SetLocal(s, th, Freeing(c, None))
    case FreeLocked(_) => FreeStep(s, th)
    case FreeTable(_) => SetLocal(s.(tables := s.tables - {l.t}), th, Conclude(l.back))
    case FinishDelete(_) => SetLocal(s.(objects := s.objects - {l.o}), th, Idle)
    case BeginLookup(_, o, d) => SetLocal(s, th, Looking(o, d))
    case ReadSlot(_, slot) => ReadStep(s, th, slot)
    case FillSlot(_, slot) => FillStep(s, th, slot, defs)
    case CompileStatic(_, c, t) => StaticStep(s, c, t)
  }

  // kobj_init under the lock
  ghost function InitStep(s: State, th: nat): State
    requires Inv(s) && th in s.threads && s.threads[th].Init?
  {
    var l := s.threads[th];
    assert LocalOk(s, l);
    var k := s.classes[l.c];
    match k.ops
    case None => SetLocal(s, th, Alloc(l.c, Some(l.o)))
    case Some(t) =>
      SetLocal(s.(objects := s.objects[l.o := Object(l.c, t, true)],
        classes := s.classes[l.c := k.(refs := k.refs + 1)]), th, Idle)
  }

  // kobj_class_compile under the lock
  ghost function InstallStep(s: State, th: nat): State
    requires Inv(s) && th in s.threads && s.threads[th].Install?
  {
    var l := s.threads[th];
    assert LocalOk(s, l);
    if s.classes[l.c].ops.Some? then SetLocal(s, th, Spare(l.c, l.t, l.back))
    else SetLocal(Compiled(s, l.c, l.t), th, Resume(l.c, l.back))
  }

  // kobj_delete reads the class through the object's table
  ghost function DeleteStart(s: State, th: nat, o: nat): State
    requires Inv(s) && o in s.objects && s.objects[o].counted
  {
    assert ObjectOk(s, o) && ClassOk(s, s.objects[o].cls);
    SetLocal(s, th, Delete(o, s.tables[s.objects[o].ops].cls.value))
  }

  // kobj_delete under the lock
  ghost function DeleteStep(s: State, th: nat): State
    requires Inv(s) && th in s.threads && s.threads[th].Delete?
  {
    var l := s.threads[th];
    assert LocalOk(s, l);
    var k := s.classes[l.c];
    SetLocal(s.(classes := s.classes[l.c := k.(refs := k.refs - 1)],
      objects := s.objects[l.o := s.objects[l.o].(counted := false)]),
      th, if k.refs - 1 == 0 then Freeing(l.c, Some(l.o)) else Finish(l.o))
  }

  // kobj_class_free under the lock
  ghost function FreeStep(s: State, th: nat): State
    requires Inv(s) && th in s.threads && s.threads[th].Freeing?
  {
    var l := s.threads[th];
    assert LocalOk(s, l);
    var k := s.classes[l.c];
    if k.refs == 0 && k.ops.Some? then SetLocal(s.(classes := s.classes[l.c := k.(ops := None)]), th,
      Release(k.ops.value, l.back))
    else SetLocal(s, th, Conclude(l.back))
  }

  // The slot a method call reads: a hit ends it.
  ghost function ReadStep(s: State, th: nat, slot: nat): State
    requires Inv(s) && th in s.threads && s.threads[th].Looking?
  {
    var l := s.threads[th];
    SetLocal(s, th, if Hit(s, l.o, l.d, slot).Some? then Idle else Filling(l.o, l.d))
  }

  ghost function TableOf(s: State, o: nat): (t: nat)
    requires Inv(s) && o in s.objects && s.objects[o].counted
    ensures t in s.tables && s.tables[t].cls == Some(s.objects[o].cls)
  {
    assert ObjectOk(s, o) && ClassOk(s, s.objects[o].cls);
    s.objects[o].ops
  }

  // The cached entry, when it is for the operation.
  ghost function Hit(s: State, o: nat, d: Desc, slot: nat): Option<Method>
    requires Inv(s)
  {
    if o in s.objects && s.objects[o].counted then
      var cache := s.tables[TableOf(s, o)].cache;
      if slot < |cache| && cache[slot].Some? && cache[slot].value.desc == d.key then cache[slot] else None
    else None
  }

  ghost function FillStep(s: State, th: nat, slot: nat, defs: nat -> ClassDef): State
    requires Inv(s) && th in s.threads && s.threads[th].Filling?
  {
    var l := s.threads[th];
    assert LocalOk(s, l);
    var t := TableOf(s, l.o);
    var cache := s.tables[t].cache;
    var cache' := if slot < |cache| then cache[slot := Some(Slow(defs(s.objects[l.o].cls), l.d))] else cache;
    SetLocal(s.(tables := s.tables[t := s.tables[t].(cache := cache')]), th, Idle)
  }

  // kobj_class_compile_static: a reference that is never given up
  ghost function StaticStep(s: State, c: nat, t: nat): State
    requires c in s.classes
  {
    var k := s.classes[c];
    var s1 := s.(classes := s.classes[c := k.(refs := k.refs + 1, pins := k.pins + 1)]);
    if k.ops.Some? then s1 else Compiled(s1, c, t)
  }
}
