/** Finite directed graphs as sets of edges: walks, reachability and cycles. */
module Graphs {
  import opened Basics
  import opened Names

  /** Members `i` and `i + 1` of `p` are joined by an edge. */
  ghost predicate Joined(edges: set<(Name, Name)>, p: seq<Name>, i: int)
  {
    0 <= i < |p| - 1 && (p[i], p[i + 1]) in edges
  }

  /** A walk: consecutive members are joined by edges. */
  ghost predicate IsWalk(edges: set<(Name, Name)>, p: seq<Name>)
  {
    && |p| >= 1
    && forall i :: 0 <= i < |p| - 1 ==> Joined(edges, p, i)
  }

  ghost predicate WalkFromTo(edges: set<(Name, Name)>, p: seq<Name>, x: Name, y: Name)
  {
    IsWalk(edges, p) && p[0] == x && p[|p| - 1] == y
  }

  ghost predicate Reach(edges: set<(Name, Name)>, x: Name, y: Name)
  {
    exists p :: WalkFromTo(edges, p, x, y)
  }

  /** A closed walk with at least one edge. */
  ghost predicate IsCycle(edges: set<(Name, Name)>, p: seq<Name>)
  {
    IsWalk(edges, p) && |p| >= 2 && p[0] == p[|p| - 1]
  }

  ghost predicate Cyclic(edges: set<(Name, Name)>)
  {
    exists p :: IsCycle(edges, p)
  }

  ghost predicate Mutual(edges: set<(Name, Name)>, x: Name, y: Name)
  {
    Reach(edges, x, y) && Reach(edges, y, x)
  }

  ghost predicate EdgesWithin(edges: set<(Name, Name)>, nodes: set<Name>)
  {
    forall e :: e in edges ==> e.0 in nodes && e.1 in nodes
  }

  lemma ReachSelf(edges: set<(Name, Name)>, x: Name)
    ensures Reach(edges, x, x)
  {
    assert WalkFromTo(edges, [x], x, x);
  }

  lemma ReachEdge(edges: set<(Name, Name)>, x: Name, y: Name)
    requires (x, y) in edges
    ensures Reach(edges, x, y)
  {
    assert Joined(edges, [x, y], 0);
    assert WalkFromTo(edges, [x, y], x, y);
  }

  lemma WalkJoin(edges: set<(Name, Name)>, p: seq<Name>, q: seq<Name>, x: Name, y: Name, z: Name)
    requires WalkFromTo(edges, p, x, y) && WalkFromTo(edges, q, y, z)
    ensures WalkFromTo(edges, p + q[1..], x, z)
  {
    var r := p + q[1..];
    forall i | 0 <= i < |r| - 1 ensures Joined(edges, r, i) {
      if i < |p| - 1 {
        assert Joined(edges, p, i);
        assert r[i] == p[i] && r[i + 1] == p[i + 1];
      } else {
        var k := i - (|p| - 1);
        assert Joined(edges, q, k);
        assert r[i] == q[k] && r[i + 1] == q[k + 1];
      }
    }
  }

  lemma ReachTransitive(edges: set<(Name, Name)>, x: Name, y: Name, z: Name)
    requires Reach(edges, x, y) && Reach(edges, y, z)
    ensures Reach(edges, x, z)
  {
    var p :| WalkFromTo(edges, p, x, y);
    var q :| WalkFromTo(edges, q, y, z);
    WalkJoin(edges, p, q, x, y, z);
  }

  lemma WalkSlice(edges: set<(Name, Name)>, p: seq<Name>, i: nat, j: nat)
    requires IsWalk(edges, p) && i <= j < |p|
    ensures WalkFromTo(edges, p[i..j + 1], p[i], p[j])
  {
    var q := p[i..j + 1];
    forall k | 0 <= k < |q| - 1 ensures Joined(edges, q, k) {
      assert Joined(edges, p, i + k);
      assert q[k] == p[i + k] && q[k + 1] == p[i + k + 1];
    }
  }

  /** A walk that leaves `inside` does so along some edge. */
  lemma Crossing(edges: set<(Name, Name)>, inside: set<Name>, x: Name, y: Name) returns (a: Name, b: Name)
    requires Reach(edges, x, y) && x in inside && y !in inside
    ensures (a, b) in edges && a in inside && b !in inside
    ensures Reach(edges, x, a) && Reach(edges, b, y)
  {
    var p :| WalkFromTo(edges, p, x, y);
    var i := 0;
    while p[i + 1] in inside
      invariant 0 <= i < |p| - 1 && p[i] in inside
      decreases |p| - i
    {
      i := i + 1;
    }
    a, b := p[i], p[i + 1];
    assert Joined(edges, p, i);
    WalkSlice(edges, p, 0, i);
    WalkSlice(edges, p, i + 1, |p| - 1);
  }

  /** The edges whose head is `x`; their number is the in-degree of `x`. */
  function Into(edges: set<(Name, Name)>, x: Name): set<(Name, Name)>
  {
    set e | e in edges && e.1 == x
  }

  lemma IntoGrows(live: set<(Name, Name)>, e: (Name, Name))
    requires e !in live
    ensures forall x :: |Into(live + {e}, x)| == |Into(live, x)| + (if x == e.1 then 1 else 0)
  {
    forall x ensures |Into(live + {e}, x)| == |Into(live, x)| + (if x == e.1 then 1 else 0) {
      if x == e.1 {
        assert Into(live + {e}, x) == Into(live, x) + {e};
      } else {
        assert Into(live + {e}, x) == Into(live, x);
      }
    }
  }

  /** A sequence longer than the set it draws from repeats a member. */
  lemma {:induction false} Pigeonhole(p: seq<Name>, s: set<Name>)
    requires |p| > |s| && forall i :: 0 <= i < |p| ==> p[i] in s
    ensures !Distinct(p)
  {
    if Distinct(p) {
      var q := p[1..];
      forall i | 0 <= i < |q| ensures q[i] in s - {p[0]} {
        assert q[i] == p[i + 1];
      }
      Pigeonhole(q, s - {p[0]});
      assert Distinct(q);
      assert false;
    }
  }

  ghost predicate HasSuccessor(edges: set<(Name, Name)>, s: set<Name>, x: Name)
  {
    exists e :: e in edges && e.0 == x && e.1 in s
  }

  lemma {:induction false} LongWalk(edges: set<(Name, Name)>, s: set<Name>, x: Name, n: nat) returns (p: seq<Name>)
    requires x in s && forall y :: y in s ==> HasSuccessor(edges, s, y)
    ensures IsWalk(edges, p) && |p| == n + 1 && p[0] == x
    ensures forall i :: 0 <= i < |p| ==> p[i] in s
  {
    if n == 0 {
      p := [x];
    } else {
      var q := LongWalk(edges, s, x, n - 1);
      var last := q[|q| - 1];
      assert HasSuccessor(edges, s, last);
      var e :| e in edges && e.0 == last && e.1 in s;
      p := q + [e.1];
      forall i | 0 <= i < |p| - 1 ensures Joined(edges, p, i) {
        if i < |q| - 1 {
          assert Joined(edges, q, i);
        }
      }
    }
  }

  /** Where every member of a finite set has a successor in the set, each member leads to a cycle inside it. */
  lemma EndlessHasCycle(edges: set<(Name, Name)>, s: set<Name>, x: Name) returns (c: seq<Name>)
    requires x in s && forall y :: y in s ==> HasSuccessor(edges, s, y)
    ensures IsCycle(edges, c) && Reach(edges, x, c[0])
    ensures forall i :: 0 <= i < |c| ==> c[i] in s
  {
    var p := LongWalk(edges, s, x, |s|);
    Pigeonhole(p, s);
    var i, j :| 0 <= i < j < |p| && p[i] == p[j];
    WalkSlice(edges, p, i, j);
    WalkSlice(edges, p, 0, i);
    c := p[i..j + 1];
  }

  /** Edges that always climb some numbering close no cycle. */
  lemma ClimbingIsAcyclic(edges: set<(Name, Name)>, rank: map<Name, int>)
    requires forall e :: e in edges ==> e.0 in rank && e.1 in rank && rank[e.0] < rank[e.1]
    ensures !Cyclic(edges)
  {
    forall c | IsCycle(edges, c) ensures false {
      ClimbAlong(edges, rank, c);
    }
  }

  lemma {:induction false} ClimbAlong(edges: set<(Name, Name)>, rank: map<Name, int>, p: seq<Name>)
    requires forall e :: e in edges ==> e.0 in rank && e.1 in rank && rank[e.0] < rank[e.1]
    requires IsWalk(edges, p) && |p| >= 2
    ensures p[0] in rank && p[|p| - 1] in rank && rank[p[0]] < rank[p[|p| - 1]]
  {
    assert Joined(edges, p, |p| - 2);
    var e := (p[|p| - 2], p[|p| - 1]);
    assert e in edges;
    if |p| > 2 {
      WalkSlice(edges, p, 0, |p| - 2);
      ClimbAlong(edges, rank, p[0..|p| - 1]);
    }
  }

  ghost function Reversed(edges: set<(Name, Name)>): set<(Name, Name)>
  {
    set e | e in edges :: (e.1, e.0)
  }

  lemma ReversedCycle(edges: set<(Name, Name)>, c: seq<Name>)
    requires IsCycle(Reversed(edges), c)
    ensures Cyclic(edges)
  {
    var d := seq(|c|, i requires 0 <= i < |c| => c[|c| - 1 - i]);
    forall i | 0 <= i < |d| - 1 ensures Joined(edges, d, i) {
      assert Joined(Reversed(edges), c, |c| - 2 - i);
    }
    assert IsCycle(edges, d);
  }

  // ----- walks with at least one edge, and cycles within reach

  ghost predicate ReachPlus(edges: set<(Name, Name)>, x: Name, y: Name)
  {
    exists z :: (x, z) in edges && Reach(edges, z, y)
  }

  /** A cycle can be reached from `x`. */
  ghost predicate CycleFrom(edges: set<(Name, Name)>, x: Name)
  {
    exists c :: IsCycle(edges, c) && Reach(edges, x, c[0])
  }

  lemma ReachThenEdge(edges: set<(Name, Name)>, x: Name, y: Name, z: Name)
    requires Reach(edges, x, y) && (y, z) in edges
    ensures ReachPlus(edges, x, z)
  {
    var p :| WalkFromTo(edges, p, x, y);
    ReachSelf(edges, z);
    if |p| >= 2 {
      assert Joined(edges, p, 0);
      WalkSlice(edges, p, 1, |p| - 1);
      ReachEdge(edges, y, z);
      ReachTransitive(edges, p[1], y, z);
    }
  }

  lemma PlusIsReach(edges: set<(Name, Name)>, x: Name, y: Name)
    requires ReachPlus(edges, x, y)
    ensures Reach(edges, x, y)
  {
    var z :| (x, z) in edges && Reach(edges, z, y);
    ReachEdge(edges, x, z);
    ReachTransitive(edges, x, z, y);
  }

  lemma PlusSelfIsCycle(edges: set<(Name, Name)>, x: Name)
    requires ReachPlus(edges, x, x)
    ensures CycleFrom(edges, x)
  {
    var z :| (x, z) in edges && Reach(edges, z, x);
    var p :| WalkFromTo(edges, p, z, x);
    assert Joined(edges, [x, z], 0);
    WalkJoin(edges, [x, z], p, x, z, x);
    ReachSelf(edges, x);
    assert IsCycle(edges, [x, z] + p[1..]);
  }

  lemma CycleFromEarlier(edges: set<(Name, Name)>, x: Name, y: Name)
    requires Reach(edges, x, y) && CycleFrom(edges, y)
    ensures CycleFrom(edges, x)
  {
    var c :| IsCycle(edges, c) && Reach(edges, y, c[0]);
    ReachTransitive(edges, x, y, c[0]);
  }

  /** A numbering that every edge descends, on a set closed under successors. */
  ghost predicate Descends(edges: set<(Name, Name)>, rank: map<Name, int>)
  {
    forall e :: e in edges && e.0 in rank ==> e.1 in rank && rank[e.1] < rank[e.0]
  }

  lemma {:induction false} DescendAlong(edges: set<(Name, Name)>, rank: map<Name, int>, p: seq<Name>)
    requires Descends(edges, rank) && IsWalk(edges, p) && p[0] in rank
    ensures p[|p| - 1] in rank
    ensures |p| >= 2 ==> rank[p[|p| - 1]] < rank[p[0]]
  {
    if |p| >= 2 {
      assert Joined(edges, p, |p| - 2);
      var e := (p[|p| - 2], p[|p| - 1]);
      assert e in edges;
      WalkSlice(edges, p, 0, |p| - 2);
      DescendAlong(edges, rank, p[0..|p| - 1]);
    }
  }

  lemma DescendingHasNoCycle(edges: set<(Name, Name)>, rank: map<Name, int>, x: Name)
    requires Descends(edges, rank) && x in rank
    ensures !CycleFrom(edges, x)
  {
    forall c | IsCycle(edges, c) && Reach(edges, x, c[0]) ensures false {
      var p :| WalkFromTo(edges, p, x, c[0]);
      DescendAlong(edges, rank, p);
      DescendAlong(edges, rank, c);
    }
  }

  /** A place of `x` in the sequence. */
  ghost function Position(order: seq<Name>, x: Name): (k: nat)
    requires x in order
    ensures k < |order| && order[k] == x
  {
    var k: nat :| k < |order| && order[k] == x; k
  }

  /** `adj`: built by adding each edge's head to the set of its tail. */
  function Adjacency(edges: set<(Name, Name)>): map<Name, set<Name>>
  {
    map a | a in Tails(edges) :: Heads(edges, a)
  }

  lemma AdjacencyLookup(edges: set<(Name, Name)>, v: Name)
    ensures forall w :: w in (if v in Adjacency(edges) then Adjacency(edges)[v] else {}) <==> (v, w) in edges
  {
  }

  function Tails(edges: set<(Name, Name)>): set<Name> { set e | e in edges :: e.0 }

  function Heads(edges: set<(Name, Name)>, a: Name): set<Name> { set e | e in edges && e.0 == a :: e.1 }
}
