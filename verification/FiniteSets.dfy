// Sequences without repetition and the sizes of the sets of their elements.
module FiniteSets {
  ghost predicate Distinct(p: seq<nat>) {
    forall i, j | 0 <= i < j < |p| :: p[i] != p[j]
  }

  ghost function Elements(p: seq<nat>): (s: set<nat>)
    ensures forall x {:trigger x in s} :: x in s <==> x in p
  {
    if p == [] then {} else
      assert p == p[..|p| - 1] + [p[|p| - 1]];
      Elements(p[..|p| - 1]) + {p[|p| - 1]}
  }

  lemma {:induction false} DistinctSize(p: seq<nat>)
    requires Distinct(p)
    ensures |Elements(p)| == |p|
  {
    if p != [] {
      DistinctSize(p[..|p| - 1]);
    }
  }

  lemma {:induction false} SubsetSize(a: set<nat>, b: set<nat>)
    requires a <= b
    ensures |a| <= |b|
  {
    if a != {} {
      var x :| x in a;
      SubsetSize(a - {x}, b - {x});
    }
  }
}
