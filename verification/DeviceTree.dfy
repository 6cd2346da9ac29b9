// The device tree: busy counts that propagate to the parent, and the states that follow them.
module DeviceTree {
  datatype DeviceState = NotPresent | Alive | Attaching | Attached | Busy

  // A device. Devices are numbered in the order in which they were made, parents before children.
  class Device {
    ghost const id: nat
    const parent: Device?
    var state: DeviceState
    var busy: int

    constructor (ghost id: nat, parent: Device?)
      ensures this.id == id && this.parent == parent && state == NotPresent && busy == 0
    {
      this.id, this.parent, state, busy := id, parent, NotPresent, 0;
    }
  }

  datatype Error = Ok | Ebusy | DriverError

  // ---- the tree on values -------------------------------------------------------------------

  // The number of the parent of every device, -1 for none; its busy count and its state.
  datatype Tree = Tree(parent: seq<int>, count: seq<int>, state: seq<DeviceState>)

  ghost predicate Shape(t: Tree) {
    |t.parent| == |t.count| == |t.state| && forall i | 0 <= i < |t.parent| :: -1 <= t.parent[i] < i
  }

  // The children that hold a reference on device p.
  ghost function BusyKids(parent: seq<int>, count: seq<int>, p: nat): set<nat>
    requires |parent| == |count|
  {
    set c: nat | c < |count| && parent[c] == p && count[c] > 0
  }

  // A device's count is what its callers hold plus one for every busy child.
  ghost predicate Counted(t: Tree, opens: seq<nat>, d: nat)
    requires Shape(t) && d < |t.count| == |opens|
  {
    t.count[d] == opens[d] + |BusyKids(t.parent, t.count, d)|
  }

  ghost predicate Balanced(t: Tree, opens: seq<nat>) {
    Shape(t) && |t.count| == |opens| && forall d: nat | d < |t.count| :: Counted(t, opens, d)
  }

  // An attached device is busy exactly when its count says so; no other device has a count, except
  // while it is attaching.
  ghost predicate StateOk(count: int, state: DeviceState) {
    (count > 0 ==> state == Attaching || state == Busy) && (state == Busy ==> count > 0)
  }

  ghost predicate StatesUpTo(t: Tree, n: int)
    requires Shape(t)
  {
    forall i | 0 <= i < |t.count| && i <= n :: StateOk(t.count[i], t.state[i])
  }

  // Where device_busy does not panic: the device, and its ancestors up to the first busy one, are
  // attaching or attached.
  ghost predicate Ready(t: Tree, d: nat)
    requires Shape(t) && d < |t.count|
  {
    && (t.state[d] == Attaching || t.state[d] == Attached || t.state[d] == Busy)
    && (t.count[d] == 0 && t.parent[d] >= 0 ==> Ready(t, t.parent[d]))
  }

  // Where device_unbusy finds a count to lower, all the way up.
  ghost predicate Held(t: Tree, d: nat)
    requires Shape(t) && d < |t.count|
  {
    t.count[d] > 0 && (t.count[d] == 1 && t.parent[d] >= 0 ==> Held(t, t.parent[d]))
  }

  lemma {:induction false} HeldSame(t: Tree, t': Tree, d: nat)
    requires Shape(t) && Shape(t') && t'.parent == t.parent && d < |t.count| && Held(t, d)
    requires forall i | 0 <= i <= d :: t'.count[i] == t.count[i]
    ensures Held(t', d)
    decreases d
  {
    if t.count[d] == 1 && t.parent[d] >= 0 {
      HeldSame(t, t', t.parent[d]);
    }
  }

  // A busy child holds its parent.
  lemma {:induction false} HeldUp(t: Tree, opens: seq<nat>, d: nat)
    requires Balanced(t, opens) && d < |opens| && t.count[d] > 0
    ensures Held(t, d)
    decreases d
  {
    var p := t.parent[d];
    if p >= 0 {
      assert d in BusyKids(t.parent, t.count, p);
      assert Counted(t, opens, p);
      HeldUp(t, opens, p);
    }
  }

  // ---- device_busy and device_unbusy on values ---------------------------------------------------

  // What device_busy does to the counts and states, from d upwards.
  ghost function Raised(t: Tree, d: nat): (r: Tree)
    requires Shape(t) && d < |t.count|
    ensures Shape(r) && r.parent == t.parent
    decreases d
  {
    var t1 := if t.count[d] == 0 && t.parent[d] >= 0 then Raised(t, t.parent[d]) else t;
    t1.(count := t1.count[d := t1.count[d] + 1], state := if t1.state[d] == Attached then t1.state[d := Busy]
      else t1.state)
  }

  // What device_unbusy does.
  ghost function Lowered(t: Tree, d: nat): (r: Tree)
    requires Shape(t) && d < |t.count|
    ensures Shape(r) && r.parent == t.parent
    decreases d
  {
    var t1 := t.(count := t.count[d := t.count[d] - 1]);
    if t1.count[d] != 0 then t1
    else
      var t2 := if t.parent[d] >= 0 then Lowered(t1, t.parent[d]) else t1;
      t2.(state := if t2.state[d] == Busy then t2.state[d := Attached] else t2.state)
  }

  // Nothing made after d changes.
  lemma {:induction false} RaisedAbove(t: Tree, d: nat, i: nat)
    requires Shape(t) && d < i < |t.count|
    ensures Raised(t, d).count[i] == t.count[i] && Raised(t, d).state[i] == t.state[i]
    decreases d
  {
    if t.count[d] == 0 && t.parent[d] >= 0 {
      RaisedAbove(t, t.parent[d], i);
    }
  }

  lemma {:induction false} LoweredAbove(t: Tree, d: nat, i: nat)
    requires Shape(t) && d < i < |t.count|
    ensures Lowered(t, d).count[i] == t.count[i] && Lowered(t, d).state[i] == t.state[i]
    decreases d
  {
    var t1 := t.(count := t.count[d := t.count[d] - 1]);
    if t1.count[d] == 0 && t.parent[d] >= 0 {
      LoweredAbove(t1, t.parent[d], i);
    }
  }

  function One(b: bool): int {
    if b then 1 else 0
  }

  // How the number of busy children of p changes when the count of d does.
  lemma KidsChange(parent: seq<int>, count: seq<int>, d: nat, n: int, p: nat)
    requires |parent| == |count| && d < |count|
    ensures |BusyKids(parent, count[d := n], p)| == |BusyKids(parent, count, p)|
      + (if parent[d] == p then One(n > 0) - One(count[d] > 0) else 0)
  {
    var k, k' := BusyKids(parent, count, p), BusyKids(parent, count[d := n], p);
    assert k' - {d} == k - {d};
    SizeWithout(k, d);
    SizeWithout(k', d);
  }

  lemma SizeWithout(k: set<nat>, d: nat)
    ensures |k| == |k - {d}| + One(d in k)
  {
  }

  // References move with the counts: one device's count changes by delta, and so do its callers' and, if
  // it becomes or ceases to be busy, its parent's.
  lemma BalanceMove(t: Tree, opens: seq<nat>, opens': seq<nat>, d: nat, n: int)
    requires Balanced(t, opens) && d < |opens| == |opens'|
    requires forall i | 0 <= i < |opens| ::
      opens'[i] == opens[i] + (if i == d then n - t.count[d] else 0) - (if i == t.parent[d]
        then One(n > 0) - One(t.count[d] > 0) else 0)
    ensures Balanced(t.(count := t.count[d := n]), opens')
  {
    hide BusyKids;
    var t' := t.(count := t.count[d := n]);
    forall p: nat | p < |t.count| ensures Counted(t', opens', p) {
      assert Counted(t, opens, p);
      KidsChange(t.parent, t.count, d, n, p);
    }
  }

  lemma CountPositive(t: Tree, opens: seq<nat>, d: nat)
    requires Balanced(t, opens) && d < |opens|
    ensures t.count[d] >= opens[d] >= 0
  {
    assert Counted(t, opens, d);
  }

  lemma StateFree(t: Tree, opens: seq<nat>, state: seq<DeviceState>)
    requires Balanced(t, opens) && |state| == |t.state|
    ensures Balanced(t.(state := state), opens)
  {
    forall p: nat | p < |t.count| ensures Counted(t.(state := state), opens, p) {
      assert Counted(t, opens, p);
    }
  }

  // device_busy adds one reference of a caller, and no other.
  lemma {:induction false} RaisedBalanced(t: Tree, opens: seq<nat>, d: nat)
    requires Balanced(t, opens) && d < |opens|
    ensures Balanced(Raised(t, d), opens[d := opens[d] + 1])
    decreases d
  {
    hide Balanced, Counted;
    BalancedShape(t, opens);
    CountPositive(t, opens, d);
    var p := t.parent[d];
    var t1, o1 := t, opens;
    if t.count[d] == 0 && p >= 0 {
      RaisedBalanced(t, opens, p);
      t1, o1 := Raised(t, p), opens[p := opens[p] + 1];
      RaisedAbove(t, p, d);
    }
    BalanceMove(t1, o1, opens[d := opens[d] + 1], d, t1.count[d] + 1);
    StateFree(t1.(count := t1.count[d := t1.count[d] + 1]), opens[d := opens[d] + 1], Raised(t, d).state);
  }

  lemma BalancedShape(t: Tree, opens: seq<nat>)
    requires Balanced(t, opens)
    ensures Shape(t) && |t.count| == |opens|
  {
  }

  // device_unbusy gives one reference of a caller back, and no other.
  lemma {:induction false} LoweredBalanced(t: Tree, opens: seq<nat>, d: nat)
    requires Balanced(t, opens) && d < |opens| && opens[d] > 0
    ensures Balanced(Lowered(t, d), opens[d := opens[d] - 1])
    decreases d
  {
    hide Balanced, Counted;
    BalancedShape(t, opens);
    CountPositive(t, opens, d);
    var p, n := t.parent[d], t.count[d] - 1;
    var t1, rest := t.(count := t.count[d := n]), opens[d := opens[d] - 1];
    if n == 0 && p >= 0 {
      var o1 := rest[p := rest[p] + 1];
      BalanceMove(t, opens, o1, d, n);
      LoweredBalanced(t1, o1, p);
      assert o1[p := o1[p] - 1] == rest;
      StateFree(Lowered(t1, p), rest, Lowered(t, d).state);
    } else {
      BalanceMove(t, opens, rest, d, n);
      StateFree(t1, rest, Lowered(t, d).state);
    }
  }

  // Both keep states and counts in step.
  lemma {:induction false} RaisedStates(t: Tree, opens: seq<nat>, d: nat)
    requires Balanced(t, opens) && d < |opens| && Ready(t, d) && StatesUpTo(t, d)
    ensures StatesUpTo(Raised(t, d), d)
    decreases d
  {
    hide Balanced;
    BalancedShape(t, opens);
    CountPositive(t, opens, d);
    var p := t.parent[d];
    if t.count[d] == 0 && p >= 0 {
      RaisedStates(t, opens, p);
      forall i | p < i < |t.count| ensures Raised(t, p).count[i] == t.count[i]
        && Raised(t, p).state[i] == t.state[i] {
        RaisedAbove(t, p, i);
      }
    }
  }

  lemma {:induction false} LoweredStates(t: Tree, opens: seq<nat>, d: nat)
    requires Balanced(t, opens) && d < |opens| && opens[d] > 0 && StatesUpTo(t, d)
    ensures StatesUpTo(Lowered(t, d), d)
    decreases d
  {
    hide Balanced;
    BalancedShape(t, opens);
    CountPositive(t, opens, d);
    var p, n := t.parent[d], t.count[d] - 1;
    var t1, rest := t.(count := t.count[d := n]), opens[d := opens[d] - 1];
    if n == 0 && p >= 0 {
      var o1 := rest[p := rest[p] + 1];
      BalanceMove(t, opens, o1, d, n);
      LoweredStates(t1, o1, p);
      forall i | p < i < |t.count| ensures Lowered(t1, p).count[i] == t1.count[i]
        && Lowered(t1, p).state[i] == t1.state[i] {
        LoweredAbove(t1, p, i);
      }
    }
  }

  // The counts follow from the outstanding references alone, whatever run led to them.
  lemma {:induction false} CountsDetermined(t: Tree, t': Tree, opens: seq<nat>, d: nat)
    requires Balanced(t, opens) && Balanced(t', opens) && t'.parent == t.parent && d < |opens|
    ensures t'.count[d] == t.count[d]
    decreases |opens| - d
  {
    forall c: nat | d < c < |opens| ensures t'.count[c] == t.count[c] {
      CountsDetermined(t, t', opens, c);
    }
    assert BusyKids(t'.parent, t'.count, d) == BusyKids(t.parent, t.count, d);
    assert Counted(t, opens, d) && Counted(t', opens, d);
  }

  // a is d or above it.
  ghost predicate Above(t: Tree, a: nat, d: nat)
    requires Shape(t) && d < |t.count|
  {
    a == d || (t.parent[d] >= 0 && Above(t, a, t.parent[d]))
  }

  // A busy device makes every device above it busy.
  lemma {:induction false} BusyAbove(t: Tree, opens: seq<nat>, a: nat, d: nat)
    requires Balanced(t, opens) && d < |opens| && Above(t, a, d) && t.count[d] > 0
    ensures a < |opens| && t.count[a] > 0
    decreases d
  {
    if a != d {
      var p := t.parent[d];
      assert d in BusyKids(t.parent, t.count, p);
      assert Counted(t, opens, p);
      BusyAbove(t, opens, a, p);
    }
  }

  // ---- the devices -----------------------------------------------------------------------------

  // device_unbusy looks at d and the devices made before it only.
  lemma {:induction false} LoweredLocal(t: Tree, t': Tree, d: nat, i: nat)
    requires Shape(t) && Shape(t') && t'.parent == t.parent && i <= d < |t.count|
    requires forall j | 0 <= j <= d :: t'.count[j] == t.count[j] && t'.state[j] == t.state[j]
    ensures Lowered(t', d).count[i] == Lowered(t, d).count[i] && Lowered(t', d).state[i] == Lowered(t, d).state[i]
    decreases d
  {
    var p := t.parent[d];
    if t.count[d] == 1 && p >= 0 {
      var t1, t1' := t.(count := t.count[d := 0]), t'.(count := t'.count[d := 0]);
      LoweredAbove(t1, p, d);
      LoweredAbove(t1', p, d);
      if i <= p {
        LoweredLocal(t1, t1', p, i);
      } else {
        LoweredAbove(t1, p, i);
        LoweredAbove(t1', p, i);
      }
    }
  }

  // device_unbusy undoes device_busy: every count and every state is as before.
  lemma {:induction false} Restored(t: Tree, opens: seq<nat>, d: nat)
    requires Balanced(t, opens) && d < |opens| && StatesUpTo(t, d)
    ensures Lowered(Raised(t, d), d) == t
    decreases d
  {
    CountPositive(t, opens, d);
    var p := t.parent[d];
    if t.count[d] > 0 {
      assert StateOk(t.count[d], t.state[d]);
      assert Raised(t, d).count[d := t.count[d]] == t.count;
    } else if p < 0 {
      assert Lowered(Raised(t, d), d).count == t.count && Lowered(Raised(t, d), d).state == t.state;
    } else {
      Restored(t, opens, p);
      RestoredStep(t, d);
    }
  }

  lemma RestoredStep(t: Tree, d: nat)
    requires Shape(t) && d < |t.count| && t.count[d] == 0 && t.state[d] != Busy && t.parent[d] >= 0
    requires Lowered(Raised(t, t.parent[d]), t.parent[d]) == t
    ensures Lowered(Raised(t, d), d) == t
  {
    hide Raised, Lowered;
    var p, t1 := t.parent[d], Raised(t, t.parent[d]);
    RaisedAbove(t, p, d);
    var s := if t.state[d] == Attached then Busy else t.state[d];
    var r1 := t1.(state := t1.state[d := s]);
    RaisedStep(t, d);
    LoweredStep(t1.(count := t1.count[d := 1], state := t1.state[d := s]), d, r1);
    var t2 := Lowered(r1, p);
    forall i: nat | i < |t.count| ensures t2.count[i] == t.count[i] && (i != d ==> t2.state[i] == t.state[i]) {
      RestoredBelow(t, d, s, i);
    }
    LoweredAbove(r1, p, d);
    Rebuilt(t, t2, d, Lowered(Raised(t, d), d));
  }

  lemma RestoredBelow(t: Tree, d: nat, s: DeviceState, i: nat)
    requires Shape(t) && d < |t.count| && t.parent[d] >= 0 && i < |t.count|
    requires Lowered(Raised(t, t.parent[d]), t.parent[d]) == t
    ensures var p, t1 := t.parent[d], Raised(t, t.parent[d]);
      var t2 := Lowered(t1.(state := t1.state[d := s]), p);
      t2.count[i] == t.count[i] && (i != d ==> t2.state[i] == t.state[i])
  {
    hide Raised, Lowered;
    var p, t1 := t.parent[d], Raised(t, t.parent[d]);
    var r1 := t1.(state := t1.state[d := s]);
    if i <= p {
      LoweredLocal(t1, r1, p, i);
    } else {
      LoweredAbove(r1, p, i);
      RaisedAbove(t, p, i);
    }
  }

  lemma Rebuilt(t: Tree, t2: Tree, d: nat, r: Tree)
    requires Shape(t) && Shape(t2) && t2.parent == t.parent && d < |t.count| && t.state[d] != Busy
    requires t2.state[d] == if t.state[d] == Attached then Busy else t.state[d]
    requires forall i: nat | i < |t.count| :: t2.count[i] == t.count[i] && (i != d ==> t2.state[i] == t.state[i])
    requires r == t2.(state := if t2.state[d] == Busy then t2.state[d := Attached] else t2.state)
    ensures r == t
  {
    assert r.count == t.count && r.state == t.state;
  }

  lemma {:induction false} RaisedStep(t: Tree, d: nat)
    requires Shape(t) && d < |t.count| && t.count[d] == 0 && t.parent[d] >= 0
    ensures var t1 := Raised(t, t.parent[d]); var s := if t.state[d] == Attached then Busy else t.state[d];
      Raised(t, d) == t1.(count := t1.count[d := 1], state := t1.state[d := s])
  {
    RaisedAbove(t, t.parent[d], d);
    var t1 := Raised(t, t.parent[d]);
    assert t1.state[d := t1.state[d]] == t1.state;
  }

  lemma {:induction false} LoweredStep(t: Tree, d: nat, t1: Tree)
    requires Shape(t) && d < |t.count| && t.count[d] == 1 && t.parent[d] >= 0
    requires t1 == t.(count := t1.count) && t1.count == t.count[d := 0]
    ensures var t2 := Lowered(t1, t.parent[d]);
      Lowered(t, d) == t2.(state := if t2.state[d] == Busy then t2.state[d := Attached] else t2.state)
  {
  }

  // What the states are afterwards, from the counts alone: an attached device becomes busy when its count grows, a
  // busy one becomes attached when its count goes to zero, and nothing else changes.
  lemma {:induction false} StatesAfterBusy(t: Tree, d: nat, i: nat)
    requires Shape(t) && d < |t.count| && i < |t.count|
    ensures var r := Raised(t, d);
      && r.count[i] >= t.count[i]
      && r.state[i] == if t.state[i] == Attached && r.count[i] > t.count[i] then Busy else t.state[i]
    decreases d
  {
    if t.count[d] == 0 && t.parent[d] >= 0 {
      StatesAfterBusy(t, t.parent[d], i);
      RaisedAbove(t, t.parent[d], d);
    }
  }

  lemma {:induction false} StatesAfterUnbusy(t: Tree, d: nat, i: nat)
    requires Shape(t) && d < |t.count| && i < |t.count|
    ensures var r := Lowered(t, d);
      && r.count[i] <= t.count[i]
      && r.state[i] == if t.state[i] == Busy && r.count[i] == 0 < t.count[i] then Attached else t.state[i]
    decreases d
  {
    var t1 := t.(count := t.count[d := t.count[d] - 1]);
    if t1.count[d] == 0 && t.parent[d] >= 0 {
      StatesAfterUnbusy(t1, t.parent[d], i);
      LoweredAbove(t1, t.parent[d], d);
    }
  }

  // Nothing below a device that is not busy is busy.
  lemma Quiet(t: Tree, opens: seq<nat>, a: nat)
    requires Balanced(t, opens) && a < |opens|
    ensures forall d: nat | d < |opens| && Above(t, a, d) :: t.count[d] >= 0 && (t.count[d] > 0 ==> t.count[a] > 0)
  {
    forall d: nat | d < |opens| && Above(t, a, d)
      ensures t.count[d] >= 0 && (t.count[d] > 0 ==> t.count[a] > 0)
    {
      CountPositive(t, opens, d);
      if t.count[d] > 0 {
        BusyAbove(t, opens, a, d);
      }
    }
  }

  // A driver that takes a reference while it detaches its device: a busy device that is not present, which
  // device_unbusy panics on.
  lemma DetachedBusyExample()
    ensures var t := Tree([-1], [1], [Busy]);
      Balanced(t, [1]) && StatesUpTo(t, 1) && !StatesUpTo(t.(state := [NotPresent]), 1)
  {
    var t := Tree([-1], [1], [Busy]);
    assert BusyKids(t.parent, t.count, 0) == {};
    assert Counted(t, [1], 0);
  }

  // All devices in the order in which they were made. `tree` is what their fields say, `opens` counts
  // the calls of device_busy on each that have not been matched by device_unbusy.
  class Bus {
    ghost var devices: seq<Device>
    ghost var tree: Tree
    ghost var opens: seq<nat>

    ghost predicate DeviceAt(i: nat)
      requires |devices| == |tree.count| && Shape(tree) && i < |devices|
      reads this`devices, this`tree, devices
    {
      var d := devices[i];
      && d.id == i && d.busy == tree.count[i] && d.state == tree.state[i]
      && d.parent == (if tree.parent[i] >= 0 then devices[tree.parent[i]] else null)
    }

    ghost predicate Mirrors()
      reads this`devices, this`tree, devices
    {
      |devices| == |tree.count| && Shape(tree) && forall i: nat | i < |devices| :: DeviceAt(i)
    }

    ghost predicate Valid()
      reads this, devices
    {
      Mirrors() && Balanced(tree, opens) && StatesUpTo(tree, |opens|)
    }

    ghost predicate Known(dev: Device)
      reads this
    {
      dev.id < |devices| && devices[dev.id] == dev
    }

    constructor ()
      ensures Valid() && devices == []
    {
      devices, tree, opens := [], Tree([], [], []), [];
    }

    method SetBusy(dev: Device, n: int)
      requires Mirrors() && Known(dev)
      modifies this`tree, dev`busy
      ensures Mirrors() && tree == old(tree).(count := old(tree).count[dev.id := n])
    {
      dev.busy := n;
      tree := tree.(count := tree.count[dev.id := n]);
      forall i: nat | i < |devices| ensures DeviceAt(i) {
        assert old(DeviceAt(i));
      }
    }

    method SetState(dev: Device, state: DeviceState)
      requires Mirrors() && Known(dev)
      modifies this`tree, dev`state
      ensures Mirrors() && tree == old(tree).(state := old(tree).state[dev.id := state])
    {
      dev.state := state;
      tree := tree.(state := tree.state[dev.id := state]);
      forall i: nat | i < |devices| ensures DeviceAt(i) {
        assert old(DeviceAt(i));
      }
    }

    lemma Fields(dev: Device)
      requires Mirrors() && Known(dev)
      ensures Shape(tree) && dev.id < |tree.count| && dev.busy == tree.count[dev.id]
        && dev.state == tree.state[dev.id]
      ensures if dev.parent != null then Known(dev.parent)
        && dev.parent.id == tree.parent[dev.id] < dev.id else tree.parent[dev.id] < 0
    {
      assert DeviceAt(dev.id);
      if dev.parent != null {
        assert DeviceAt(tree.parent[dev.id]);
      }
    }

    // The recursion of device_busy: it panics unless the devices on the way are ready.
    method RaiseFrom(dev: Device)
      requires Mirrors() && Known(dev) && Ready(tree, dev.id)
      modifies this`tree, devices
      ensures Mirrors() && tree == Raised(old(tree), dev.id)
      decreases dev.id
    {
      hide Mirrors, Shape;
      ghost var t := tree;
      Fields(dev);
      assert dev.state != NotPresent && dev.state != Alive;
      if dev.busy == 0 && dev.parent != null {
        RaisedAbove(t, dev.parent.id, dev.id);
        RaiseFrom(dev.parent);
        Fields(dev);
      }
      SetBusy(dev, dev.busy + 1);
      Fields(dev);
      if dev.state == Attached {
        SetState(dev, Busy);
      }
    }

    // The recursion of device_unbusy; the states below dev need not be right while it runs.
    method LowerFrom(dev: Device)
      requires Mirrors() && Known(dev) && StatesUpTo(tree, dev.id) && Held(tree, dev.id)
      modifies this`tree, devices
      ensures Mirrors() && tree == Lowered(old(tree), dev.id)
      decreases dev.id
    {
      hide Mirrors, Shape;
      Fields(dev);
      assert dev.state == Busy || dev.state == Attaching;
      ghost var t := tree;
      SetBusy(dev, dev.busy - 1);
      Fields(dev);
      if dev.busy == 0 {
        ghost var t1 := tree;
        if dev.parent != null {
          assert StatesUpTo(t1, dev.parent.id);
          HeldSame(t, t1, dev.parent.id);
          LoweredAbove(t1, dev.parent.id, dev.id);
          LowerFrom(dev.parent);
          Fields(dev);
        }
        if dev.state == Busy {
          SetState(dev, Attached);
        }
      }
    }

    // ---- the operations of drivers ------------------------------------------------------------

    // device_busy, as callers see it
    method DeviceBusy(dev: Device)
      requires Valid() && Known(dev) && Ready(tree, dev.id)
      modifies this`tree, this`opens, devices
      ensures Valid() && opens == old(opens)[dev.id := old(opens)[dev.id] + 1]
      ensures tree == Raised(old(tree), dev.id)
    {
      hide Mirrors, Balanced, StatesUpTo;
      ghost var t, d := tree, dev.id;
      Fields(dev);
      BalancedShape(t, opens);
      RaisedBalanced(t, opens, d);
      AllStates(t, |opens|, d);
      RaisedStates(t, opens, d);
      RaisedAll(t, d, |opens|);
      RaiseFrom(dev);
      opens := opens[d := opens[d] + 1];
    }

    // device_unbusy, matched with an earlier device_busy; it does not panic
    method DeviceUnbusy(dev: Device)
      requires Valid() && Known(dev) && dev.id < |opens| && opens[dev.id] > 0
      modifies this`tree, this`opens, devices
      ensures Valid() && opens == old(opens)[dev.id := old(opens)[dev.id] - 1]
      ensures tree == Lowered(old(tree), dev.id)
    {
      hide Mirrors, Balanced, StatesUpTo;
      ghost var t, d := tree, dev.id;
      Fields(dev);
      BalancedShape(t, opens);
      LoweredBalanced(t, opens, d);
      CountPositive(t, opens, d);
      HeldUp(t, opens, d);
      AllStates(t, |opens|, d);
      LoweredStates(t, opens, d);
      LoweredAll(t, d, |opens|);
      LowerFrom(dev);
      opens := opens[d := opens[d] - 1];
    }

    // device_attach up to the driver's attach method
    method BeginAttach(dev: Device)
      requires Valid() && Known(dev)
      modifies this`tree, dev`state
      ensures Valid() && dev.state == Attaching
      ensures tree == old(tree).(state := old(tree).state[dev.id := Attaching])
    {
      hide Mirrors;
      Fields(dev);
      StateFree(tree, opens, tree.state[dev.id := Attaching]);
      SetState(dev, Attaching);
      Fields(dev);
    }

    // device_attach after it; a driver that fails leaves no reference
    method EndAttach(dev: Device, error: bool)
      requires Valid() && Known(dev) && dev.state == Attaching && (error ==> dev.busy == 0)
      modifies this`tree, dev`state
      ensures Valid() && dev.state == if error then NotPresent else if dev.busy != 0 then Busy else Attached
      ensures tree == old(tree).(state := old(tree).state[dev.id := dev.state])
    {
      hide Mirrors;
      Fields(dev);
      CountPositive(tree, opens, dev.id);
      var state := if error then NotPresent else if dev.busy != 0 then Busy else Attached;
      StateFree(tree, opens, tree.state[dev.id := state]);
      SetState(dev, state);
      Fields(dev);
    }

    // device_detach up to the driver's detach method, which is called when `attached`: a device with a busy
    // one below it is refused.
    method BeginDetach(dev: Device) returns (e: Error, attached: bool)
      requires Valid() && Known(dev)
      ensures e == if dev.state == Busy || dev.state == Attaching then Ebusy else Ok
      ensures attached <==> dev.state == Attached
      ensures forall d: nat | d < |opens| && Above(tree, dev.id, d) && tree.count[d] > 0 :: e == Ebusy
    {
      hide Mirrors;
      Fields(dev);
      Quiet(tree, opens, dev.id);
      e, attached := Ok, false;
      if dev.state == Busy || dev.state == Attaching {
        return Ebusy, false;
      }
      attached := dev.state == Attached;
    }

    // device_detach after it. The state is overwritten whatever the driver did meanwhile: counts and states
    // are right again if and only if it failed or left no reference.
    method EndDetach(dev: Device, error: bool)
      requires Valid() && Known(dev)
      modifies this`tree, dev`state
      ensures Mirrors() && Balanced(tree, opens)
      ensures tree == old(tree).(state := old(tree).state[dev.id := if error then old(dev.state) else NotPresent])
      ensures Valid() <==> error || dev.busy == 0
      ensures dev.busy == 0 ==> forall d: nat | d < |opens| && Above(tree, dev.id, d) :: tree.count[d] == 0
    {
      hide Mirrors;
      Fields(dev);
      Quiet(tree, opens, dev.id);
      CountPositive(tree, opens, dev.id);
      ghost var t := tree;
      if !error {
        StateFree(tree, opens, tree.state[dev.id := NotPresent]);
        SetState(dev, NotPresent);
        Fields(dev);
      }
      forall d: nat | d < |opens| ensures Above(tree, dev.id, d) <==> Above(t, dev.id, d) {
        AboveSame(t, tree, dev.id, d);
      }
    }

    // device_detach, when the driver's method takes no reference
    method Detach(dev: Device, driverError: bool) returns (e: Error)
      requires Valid() && Known(dev)
      modifies this`tree, dev`state
      ensures Valid() && tree == old(tree).(state := old(tree).state[dev.id := dev.state])
      ensures dev.state == (if e == Ok && old(dev.state) == Attached then NotPresent else old(dev.state))
      ensures e == DriverError <==> old(dev.state) == Attached && driverError
      ensures e == Ebusy <==> old(dev.state) == Busy || old(dev.state) == Attaching
      ensures forall d: nat | d < |opens| && Above(tree, dev.id, d) && tree.count[d] > 0 :: e == Ebusy
      ensures e == Ok && old(dev.state) == Attached ==>
        forall d: nat | d < |opens| && Above(tree, dev.id, d) :: tree.count[d] == 0
    {
      hide Mirrors;
      Fields(dev);
      ghost var t := tree;
      var attached;
      e, attached := BeginDetach(dev);
      if !attached {
        return;
      }
      assert dev.busy <= 0;
      CountPositive(tree, opens, dev.id);
      EndDetach(dev, driverError);
      Fields(dev);
      forall d: nat | d < |opens| ensures Above(tree, dev.id, d) <==> Above(t, dev.id, d) {
        AboveSame(t, tree, dev.id, d);
      }
      if driverError {
        e := DriverError;
      }
    }

    // make_device
    method AddChild(parent: Device?) returns (dev: Device)
      requires Valid() && (parent != null ==> Known(parent))
      modifies this
      ensures Valid() && fresh(dev) && devices == old(devices) + [dev] && dev.parent == parent
        && dev.state == NotPresent && dev.busy == 0
      ensures opens == old(opens) + [0]
    {
      dev := new Device(|devices|, parent);
      ghost var p := if parent == null then -1 else parent.id;
      ghost var t := tree;
      tree := Tree(t.parent + [p], t.count + [0], t.state + [NotPresent]);
      devices, opens := devices + [dev], opens + [0];
      forall i: nat | i < |devices| ensures DeviceAt(i) {
        assert i < |t.count| ==> old(DeviceAt(i));
      }
      MadeBalanced(t, old(opens), p);
    }
  }

  lemma AllStates(t: Tree, n: int, d: int)
    requires Shape(t) && StatesUpTo(t, n) && d <= n
    ensures StatesUpTo(t, d)
  {
  }

  lemma RaisedAll(t: Tree, d: nat, n: int)
    requires Shape(t) && d < |t.count| && StatesUpTo(t, n) && StatesUpTo(Raised(t, d), d)
    ensures StatesUpTo(Raised(t, d), n)
  {
    forall i | 0 <= i < |t.count| && d < i <= n ensures StateOk(Raised(t, d).count[i], Raised(t, d).state[i]) {
      RaisedAbove(t, d, i);
    }
  }

  lemma LoweredAll(t: Tree, d: nat, n: int)
    requires Shape(t) && d < |t.count| && StatesUpTo(t, n) && StatesUpTo(Lowered(t, d), d)
    ensures StatesUpTo(Lowered(t, d), n)
  {
    forall i | 0 <= i < |t.count| && d < i <= n ensures StateOk(Lowered(t, d).count[i], Lowered(t, d).state[i]) {
      LoweredAbove(t, d, i);
    }
  }

  lemma {:induction false} AboveSame(t: Tree, t': Tree, a: nat, d: nat)
    requires Shape(t) && Shape(t') && t'.parent == t.parent && d < |t.count|
    ensures Above(t, a, d) <==> Above(t', a, d)
    decreases d
  {
    if a != d && t.parent[d] >= 0 {
      AboveSame(t, t', a, t.parent[d]);
    }
  }

  // A new device has no references and no children.
  lemma MadeBalanced(t: Tree, opens: seq<nat>, p: int)
    requires Balanced(t, opens) && -1 <= p < |opens|
    ensures Balanced(Tree(t.parent + [p], t.count + [0], t.state + [NotPresent]), opens + [0])
  {
    var t' := Tree(t.parent + [p], t.count + [0], t.state + [NotPresent]);
    forall d: nat | d < |t'.count| ensures Counted(t', opens + [0], d) {
      assert BusyKids(t'.parent, t'.count, d) == BusyKids(t.parent, t.count, d);
      if d < |opens| {
        assert Counted(t, opens, d);
      }
    }
  }
}
