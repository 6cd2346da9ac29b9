// Kernel object classes: method tables with base classes, and the search for a method.
module KobjMethods {
  datatype Option<T> = None | Some(value: T)

  // A method entry: the operation it implements and the function.
  datatype Method = Method(desc: nat, func: nat)

  datatype ClassDef = ClassDef(methods: seq<Method>, bases: seq<ClassDef>)

  // An operation with its default method.
  datatype Desc = Desc(key: nat, deflt: Method)

  // kobj_lookup_method_class
  method LookupClass(methods: seq<Method>, desc: nat) returns (ce: Option<Method>)
    ensures ce == First(methods, desc)
  {
    var i := 0;
    while i < |methods|
      invariant 0 <= i <= |methods| && First(methods, desc) == First(methods[i..], desc)
    {
      if methods[i].desc == desc {
        return Some(methods[i]);
      }
      assert methods[i..][1..] == methods[i + 1..];
      i := i + 1;
    }
    return None;
  }

  // The first entry for the operation.
  ghost function First(methods: seq<Method>, desc: nat): Option<Method> {
    if methods == [] then None else if methods[0].desc == desc then Some(methods[0]) else First(methods[1..], desc)
  }

  // kobj_lookup_method_mi: the class itself, then its base classes in order, depth first. An entry of the class
  // wins; otherwise the first base class with an answer of its own has it; there is none exactly when no class
  // that can be reached has an entry.
  method LookupMi(cls: ClassDef, desc: nat) returns (ce: Option<Method>)
    ensures ce == First(Linear(cls), desc)
    ensures forall i: nat, m | FirstAt(cls.methods, desc, i, m) :: ce == Some(m)
    ensures forall k: nat | FirstBase(cls, desc, k) :: ce == First(Linear(cls.bases[k]), desc)
    ensures ce == None <==> forall c | Within(c, cls) :: Lacks(c.methods, desc)
    decreases cls
  {
    SearchOrder(cls, desc);
    NothingFound(cls, desc);
    FirstConcat(cls.methods, LinearAll(cls.bases), desc);
    ce := LookupClass(cls.methods, desc);
    if ce.Some? {
      return;
    }
    var i := 0;
    while i < |cls.bases|
      invariant 0 <= i <= |cls.bases| && First(LinearAll(cls.bases), desc) == First(LinearAll(cls.bases[i..]), desc)
    {
      FirstConcat(Linear(cls.bases[i]), LinearAll(cls.bases[i + 1..]), desc);
      assert cls.bases[i..][1..] == cls.bases[i + 1..];
      ce := LookupMi(cls.bases[i], desc);
      if ce.Some? {
        return;
      }
      i := i + 1;
    }
    return None;
  }

  // All entries of a class and of its base classes, in the order of the search: the specification of
  // inheritance.
  ghost function Linear(cls: ClassDef): seq<Method>
    decreases cls, 0
  {
    cls.methods + LinearAll(cls.bases)
  }

  ghost function LinearAll(bases: seq<ClassDef>): seq<Method>
    decreases bases, 1
  {
    if bases == [] then [] else Linear(bases[0]) + LinearAll(bases[1..])
  }

  lemma {:induction false} FirstConcat(a: seq<Method>, b: seq<Method>, desc: nat)
    ensures First(a + b, desc) == if First(a, desc).Some? then First(a, desc) else First(b, desc)
  {
    if a == [] {
      assert a + b == b;
    } else {
      assert (a + b)[1..] == a[1..] + b;
      FirstConcat(a[1..], b, desc);
    }
  }

  // What a first entry is: it implements the operation, and no entry before it does.
  lemma {:induction false} FirstIsFirst(methods: seq<Method>, desc: nat)
    ensures First(methods, desc) == None <==> forall m | m in methods :: m.desc != desc
    ensures First(methods, desc).Some? ==> exists i: nat :: FirstAt(methods, desc, i, First(methods, desc).value)
  {
    if methods != [] {
      FirstIsFirst(methods[1..], desc);
      if methods[0].desc == desc {
        assert FirstAt(methods, desc, 0, methods[0]);
      } else if First(methods[1..], desc).Some? {
        var i: nat :| FirstAt(methods[1..], desc, i, First(methods, desc).value);
        assert FirstAt(methods, desc, i + 1, First(methods, desc).value);
      }
    }
  }

  ghost predicate FirstAt(methods: seq<Method>, desc: nat, i: nat, m: Method) {
    i < |methods| && methods[i] == m && m.desc == desc && forall j | 0 <= j < i :: methods[j].desc != desc
  }

  ghost predicate Lacks(methods: seq<Method>, desc: nat) {
    forall m | m in methods :: m.desc != desc
  }

  // The class has no entry, and base class k is the first one in which the search finds one.
  ghost predicate FirstBase(cls: ClassDef, desc: nat, k: nat) {
    && k < |cls.bases| && Lacks(cls.methods, desc) && First(Linear(cls.bases[k]), desc).Some?
    && forall j | 0 <= j < k :: First(Linear(cls.bases[j]), desc) == None
  }

  // c is the class or is reached from it through base classes.
  ghost predicate Within(c: ClassDef, cls: ClassDef)
    decreases cls
  {
    c == cls || exists k | 0 <= k < |cls.bases| :: Within(c, cls.bases[k])
  }

  lemma {:induction false} FirstOnly(methods: seq<Method>, desc: nat, i: nat, m: Method)
    requires FirstAt(methods, desc, i, m)
    ensures First(methods, desc) == Some(m)
  {
    if i > 0 {
      FirstOnly(methods[1..], desc, i - 1, m);
    }
  }

  // Where a class stands in the search among its base classes.
  lemma SearchOrder(cls: ClassDef, desc: nat)
    ensures forall i: nat, m | FirstAt(cls.methods, desc, i, m) :: First(Linear(cls), desc) == Some(m)
    ensures forall k: nat | FirstBase(cls, desc, k) :: First(Linear(cls), desc) == First(Linear(cls.bases[k]), desc)
  {
    FirstConcat(cls.methods, LinearAll(cls.bases), desc);
    forall i: nat, m | FirstAt(cls.methods, desc, i, m) ensures First(Linear(cls), desc) == Some(m) {
      FirstOnly(cls.methods, desc, i, m);
    }
    forall k: nat | FirstBase(cls, desc, k) ensures First(Linear(cls), desc) == First(Linear(cls.bases[k]), desc) {
      FirstIsFirst(cls.methods, desc);
      FirstOfBases(cls.bases, desc, k);
    }
  }

  lemma {:induction false} FirstOfBases(bases: seq<ClassDef>, desc: nat, k: nat)
    requires k < |bases| && First(Linear(bases[k]), desc).Some?
    requires forall j | 0 <= j < k :: First(Linear(bases[j]), desc) == None
    ensures First(LinearAll(bases), desc) == First(Linear(bases[k]), desc)
  {
    FirstConcat(Linear(bases[0]), LinearAll(bases[1..]), desc);
    if k > 0 {
      FirstOfBases(bases[1..], desc, k - 1);
    }
  }

  // The search covers exactly the classes that can be reached.
  lemma {:induction false} NothingFound(cls: ClassDef, desc: nat)
    ensures First(Linear(cls), desc) == None <==> forall c | Within(c, cls) :: Lacks(c.methods, desc)
    decreases cls, 0
  {
    FirstConcat(cls.methods, LinearAll(cls.bases), desc);
    FirstIsFirst(cls.methods, desc);
    NothingInBases(cls.bases, desc);
    assert Within(cls, cls);
    if forall c | Within(c, cls) :: Lacks(c.methods, desc) {
      forall c, k | 0 <= k < |cls.bases| && Within(c, cls.bases[k]) ensures Lacks(c.methods, desc) {
        assert Within(c, cls);
      }
    }
  }

  lemma {:induction false} NothingInBases(bases: seq<ClassDef>, desc: nat)
    ensures First(LinearAll(bases), desc) == None <==>
      forall c, k | 0 <= k < |bases| && Within(c, bases[k]) :: Lacks(c.methods, desc)
    decreases bases, 1
  {
    if bases != [] {
      NothingFound(bases[0], desc);
      NothingInBases(bases[1..], desc);
      FirstConcat(Linear(bases[0]), LinearAll(bases[1..]), desc);
      forall c, k | 0 <= k < |bases| && Within(c, bases[k])
        ensures k == 0 || (0 <= k - 1 < |bases[1..]| && bases[1..][k - 1] == bases[k] && Within(c, bases[1..][k - 1]))
      {
      }
    }
  }

  // The slow lookup: the inherited method or the default.
  ghost function Slow(cls: ClassDef, d: Desc): Method {
    match First(Linear(cls), d.key) case Some(m) => m case None => d.deflt
  }

  // kobj_lookup_method, which also fills a cache slot.
  method LookupMethod(cls: ClassDef, cache: array<Option<Method>>, slot: nat, d: Desc) returns (ce: Method)
    requires slot < cache.Length
    modifies cache
    ensures ce == Slow(cls, d) && cache[..] == old(cache[..])[slot := Some(ce)]
    ensures ce == if First(Linear(cls), d.key) == None then d.deflt else First(Linear(cls), d.key).value
  {
    var found := LookupMi(cls, d.key);
    ce := if found.Some? then found.value else d.deflt;
    cache[slot] := Some(ce);
  }

  // Every entry of the cache is the answer for its own operation.
  ghost predicate Faithful(cls: ClassDef, cache: seq<Option<Method>>, descs: set<Desc>) {
    forall i, d | 0 <= i < |cache| && d in descs && cache[i].Some?
      && cache[i].value.desc == d.key :: cache[i].value == Slow(cls, d)
  }

  // Operations have one descriptor each, and a default method is an entry for its own operation.
  ghost predicate Consistent(descs: set<Desc>) {
    && (forall d, d' | d in descs && d' in descs && d.key == d'.key :: d == d')
    && forall d | d in descs :: d.deflt.desc == d.key
  }

  lemma SlowKey(cls: ClassDef, d: Desc)
    requires d.deflt.desc == d.key
    ensures Slow(cls, d).desc == d.key
  {
    FirstIsFirst(Linear(cls), d.key);
  }

  // KOBJOPLOOKUP: the slot is chosen by the low bits of the operation's id, whatever it is.
  method OpLookup(cls: ClassDef, cache: array<Option<Method>>, id: nat, d: Desc, ghost descs: set<Desc>)
    returns (m: nat)
    requires cache.Length == 256 && Consistent(descs) && d in descs && Faithful(cls, cache[..], descs)
    modifies cache
    ensures m == Slow(cls, d).func && Faithful(cls, cache[..], descs)
  {
    var slot := id % 256;
    var ce := cache[slot];
    SlowKey(cls, d);
    if ce == None || ce.value.desc != d.key {
      var found := LookupMethod(cls, cache, slot, d);
      m := found.func;
    } else {
      assert cache[..][slot] == ce;
      m := ce.value.func;
    }
  }

  // ---- ids ------------------------------------------------------------------------------

  // The ids of operations; 0 stands for none yet.
  class Registry {
    var ids: map<nat, nat>
    var nextId: nat

    constructor ()
      ensures Valid() && ids == map[]
    {
      ids, nextId := map[], 1;
    }

    // Ids in use are below nextId and unique.
    ghost predicate Valid()
      reads this
    {
      && nextId > 0
      && (forall d | d in ids :: 0 < ids[d] < nextId)
      && forall d, d' | d in ids && d' in ids && d != d' :: ids[d] != ids[d']
    }

    // The first loop of kobj_class_compile_common: operations without an id get one.
    method Register(methods: seq<Method>)
      requires Valid()
      modifies this
      ensures Valid() && (forall d | d in old(ids) :: d in ids && ids[d] == old(ids)[d])
      ensures forall d :: d in ids <==> d in old(ids) || exists m | m in methods :: m.desc == d
    {
      var i := 0;
      while i < |methods|
        invariant 0 <= i <= |methods| && Valid() && (forall d | d in old(ids) :: d in ids && ids[d] == old(ids)[d])
        invariant forall d :: d in ids <==> d in old(ids) || exists m | m in methods[..i] :: m.desc == d
      {
        assert methods[..i + 1] == methods[..i] + [methods[i]];
        if methods[i].desc !in ids {
          ids := ids[methods[i].desc := nextId];
          nextId := nextId + 1;
        }
        i := i + 1;
      }
      assert methods[..i] == methods;
    }
  }
}
