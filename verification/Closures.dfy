/** Breadth-first closures: everything a package depends on, or that depends on it. */
module Closures {
  import opened Names
  import opened Graphs

  /** The loop shared by `transitive_deps`, `transitive_rdeps` and `get_all_dependencies`. */
  method Closure(edges: set<(Name, Name)>, start: Name) returns (visited: set<Name>)
    ensures forall y :: y in visited <==> ReachPlus(edges, start, y)
  {
    hide Reach, ReachPlus;
    visited := {};
    var q := [start];
    ghost var heads := set e | e in edges :: e.1;
    while q != []
      invariant visited <= heads
      invariant forall y :: y in visited ==> ReachPlus(edges, start, y)
      invariant forall y :: y in q ==> y == start || y in visited
      invariant forall e :: e in edges && (e.0 == start || e.0 in visited) ==> e.0 in q || e.1 in visited
      decreases heads - visited, |q|
    {
      var cur := q[0];
      ghost var visited0, q0 := visited, q;
      q := q[1..];
      var rest := set e | e in edges && e.0 == cur :: e.1;
      ghost var deps := rest;
      while rest != {}
        invariant rest <= deps
        invariant visited0 <= visited <= heads
        invariant visited == visited0 ==> q == q0[1..]
        invariant forall y :: y in visited ==> ReachPlus(edges, start, y)
        invariant forall y :: y in q ==> y == start || y in visited
        invariant forall y :: y in q0[1..] ==> y in q
        invariant forall y :: y in visited && y !in visited0 ==> y in q
        invariant forall d :: d in deps - rest ==> d in visited
        decreases rest
      {
        var dep :| dep in rest;
        rest := rest - {dep};
        if dep !in visited {
          StepFrom(edges, start, cur, dep);
          visited := visited + {dep};
          q := q + [dep];
        }
      }
    }
    forall y | ReachPlus(edges, start, y) ensures y in visited {
      ClosedHolds(edges, start, visited, y);
    }
  }

  lemma StepFrom(edges: set<(Name, Name)>, start: Name, cur: Name, dep: Name)
    requires cur == start || ReachPlus(edges, start, cur)
    requires (cur, dep) in edges
    ensures ReachPlus(edges, start, dep)
  {
    if cur == start {
      ReachSelf(edges, start);
    } else {
      PlusIsReach(edges, start, cur);
    }
    ReachThenEdge(edges, start, cur, dep);
  }

  lemma ClosedHolds(edges: set<(Name, Name)>, start: Name, visited: set<Name>, y: Name)
    requires forall e :: e in edges && (e.0 == start || e.0 in visited) ==> e.1 in visited
    requires ReachPlus(edges, start, y)
    ensures y in visited
  {
    var z :| (start, z) in edges && Reach(edges, z, y);
    var e := (start, z);
    assert e.1 in visited;
    if y !in visited {
      var a, b := Crossing(edges, visited, z, y);
      assert false;
    }
  }

  lemma ReversedReach(edges: set<(Name, Name)>, x: Name, y: Name)
    ensures ReachPlus(Reversed(edges), x, y) <==> ReachPlus(edges, y, x)
  {
    if ReachPlus(Reversed(edges), x, y) {
      Turned(edges, Reversed(edges), x, y);
    }
    if ReachPlus(edges, y, x) {
      assert forall e :: e in Reversed(edges) ==> (e.1, e.0) in edges;
      Turned(Reversed(edges), edges, y, x);
    }
  }

  lemma Turned(edges: set<(Name, Name)>, other: set<(Name, Name)>, x: Name, y: Name)
    requires forall a, b :: (a, b) in other ==> (b, a) in edges
    requires ReachPlus(other, x, y)
    ensures ReachPlus(edges, y, x)
  {
    var z :| (x, z) in other && Reach(other, z, y);
    var p :| WalkFromTo(other, p, z, y);
    var d := seq(|p|, i requires 0 <= i < |p| => p[|p| - 1 - i]);
    forall i | 0 <= i < |d| - 1 ensures Joined(edges, d, i) {
      assert Joined(other, p, |p| - 2 - i);
    }
    assert WalkFromTo(edges, d, y, z);
    ReachThenEdge(edges, y, z, x);
  }

  /** `transitive_deps` */
  method TransitiveDeps(edges: set<(Name, Name)>, package: Name) returns (r: set<Name>)
    ensures forall y :: y in r <==> ReachPlus(edges, package, y)
  {
    r := Closure(edges, package);
  }

  /** `transitive_rdeps` */
  method TransitiveRdeps(edges: set<(Name, Name)>, package: Name) returns (r: set<Name>)
    ensures forall y :: y in r <==> ReachPlus(edges, y, package)
  {
    r := Closure(set e | e in edges :: (e.1, e.0), package);
    forall y ensures ReachPlus(Reversed(edges), package, y) <==> ReachPlus(edges, y, package) {
      ReversedReach(edges, package, y);
    }
  }
}
