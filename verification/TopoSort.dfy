/** Kahn's algorithm on the build-dependency graph: `topo_sort`. */
module TopoSort {
  import opened Basics
  import opened Names
  import opened Graphs

  ghost predicate Counts(nodes: set<Name>, inDegree: map<Name, int>, live: set<(Name, Name)>)
  {
    inDegree.Keys == nodes && forall x :: x in nodes ==> inDegree[x] == |Into(live, x)|
  }

  /** Every tail of an edge into `x` is among the first `n` of `order`. */
  ghost predicate TailsWithin(edges: set<(Name, Name)>, order: seq<Name>, n: int, x: Name)
    requires 0 <= n <= |order|
  {
    forall e :: e in edges && e.1 == x ==> e.0 in order[..n]
  }

  /** The loop's state: `live` are the edges not yet subtracted; the nodes without live incoming edges are
      those in `order` or `q`, and whatever depends on a node precedes it. */
  ghost predicate Sorting(nodes: set<Name>, edges: set<(Name, Name)>, live: set<(Name, Name)>,
                          inDegree: map<Name, int>, order: seq<Name>, q: seq<Name>)
  {
    && EdgesWithin(edges, nodes)
    && live <= edges
    && Counts(nodes, inDegree, live)
    && Distinct(order + q)
    && (forall x :: x in order + q <==> x in nodes && Into(live, x) == {})
    && (forall e :: e in edges - live ==> e.0 in order)
    && (forall k :: 0 <= k < |order| ==> TailsWithin(edges, order, k, order[k]))
  }

  method CountInDegrees(nodes: set<Name>, edges: set<(Name, Name)>) returns (inDegree: map<Name, int>)
    requires EdgesWithin(edges, nodes)
    ensures inDegree.Keys == nodes && Counts(nodes, inDegree, edges)
  {
    inDegree := map n | n in nodes :: 0;
    var rest := edges;
    assert Counts(nodes, inDegree, edges - rest) by {
      assert forall x :: x in nodes ==> Into(edges - rest, x) == {};
    }
    hide Counts;
    while rest != {}
      invariant rest <= edges && inDegree.Keys == nodes
      invariant Counts(nodes, inDegree, edges - rest)
      decreases rest
    {
      var e :| e in rest;
      AddEdge(nodes, inDegree, edges - rest, e);
      assert edges - (rest - {e}) == (edges - rest) + {e};
      rest := rest - {e};
      inDegree := inDegree[e.1 := inDegree[e.1] + 1];
    }
    assert edges - rest == edges;
  }

  lemma AddEdge(nodes: set<Name>, inDegree: map<Name, int>, counted: set<(Name, Name)>, e: (Name, Name))
    requires Counts(nodes, inDegree, counted) && e !in counted && e.1 in nodes
    ensures Counts(nodes, inDegree[e.1 := inDegree[e.1] + 1], counted + {e})
  {
    IntoGrows(counted, e);
  }

  lemma SubtractEdge(nodes: set<Name>, inDegree: map<Name, int>, live: set<(Name, Name)>, e: (Name, Name))
    requires Counts(nodes, inDegree, live) && e in live && e.1 in nodes
    ensures Counts(nodes, inDegree[e.1 := inDegree[e.1] - 1], live - {e})
    ensures forall x :: x != e.1 ==> Into(live - {e}, x) == Into(live, x)
    ensures Into(live - {e}, e.1) == {} <==> inDegree[e.1] == 1
    ensures e in Into(live, e.1)
  {
    assert (live - {e}) + {e} == live;
    IntoGrows(live - {e}, e);
    assert |Into(live - {e}, e.1)| == inDegree[e.1] - 1;
  }

  lemma SortStep(nodes: set<Name>, edges: set<(Name, Name)>, live: set<(Name, Name)>, inDegree: map<Name, int>,
                 order: seq<Name>, q: seq<Name>, e: (Name, Name), inDegree': map<Name, int>, q': seq<Name>)
    requires Sorting(nodes, edges, live, inDegree, order, q)
    requires e in live && e.0 in order
    requires inDegree' == inDegree[e.1 := inDegree[e.1] - 1]
    requires q' == if inDegree'[e.1] == 0 then q + [e.1] else q
    ensures Sorting(nodes, edges, live - {e}, inDegree', order, q')
  {
    SubtractEdge(nodes, inDegree, live, e);
    assert e.1 !in order + q;
    assert order + (q + [e.1]) == (order + q) + [e.1];
  }

  /** Moving the head of the queue to the end of the order. */
  lemma PopStep(nodes: set<Name>, edges: set<(Name, Name)>, live: set<(Name, Name)>, inDegree: map<Name, int>,
                order: seq<Name>, q: seq<Name>)
    requires Sorting(nodes, edges, live, inDegree, order, q) && q != []
    ensures Sorting(nodes, edges, live, inDegree, order + [q[0]], q[1..])
  {
    var order' := order + [q[0]];
    assert order' + q[1..] == order + q;
    SortNodes(nodes, edges, live, inDegree, order, q);
    forall k | 0 <= k < |order'| ensures TailsWithin(edges, order', k, order'[k]) {
      if k < |order| {
        assert TailsWithin(edges, order, k, order[k]);
        assert order'[..k] == order[..k];
      } else {
        assert order'[..k] == order;
        assert forall e :: e in live && e.1 == q[0] ==> e in Into(live, q[0]);
      }
    }
  }

  /** When the queue is empty, the nodes not listed all wait for one another. */
  lemma StuckIsCyclic(nodes: set<Name>, edges: set<(Name, Name)>, live: set<(Name, Name)>,
                      inDegree: map<Name, int>, order: seq<Name>)
    requires Sorting(nodes, edges, live, inDegree, order, [])
    requires forall e :: e in live ==> e.0 !in order
    requires exists x :: x in nodes && x !in order
    ensures Cyclic(edges)
  {
    assert order + [] == order;
    var left := set x | x in nodes && x !in order;
    forall y | y in left ensures HasSuccessor(Reversed(edges), left, y) {
      var e :| e in Into(live, y);
      assert (e.1, e.0) in Reversed(edges);
      assert e.0 in left;
    }
    var x :| x in nodes && x !in order;
    hide Sorting, Counts, Cyclic;
    var c := EndlessHasCycle(Reversed(edges), left, x);
    ReversedCycle(edges, c);
  }

  /** A full order witnesses that there is no cycle. */
  lemma OrderIsAcyclic(nodes: set<Name>, edges: set<(Name, Name)>, order: seq<Name>)
    requires EdgesWithin(edges, nodes) && Distinct(order)
    requires forall x :: x in order <==> x in nodes
    requires forall k :: 0 <= k < |order| ==> TailsWithin(edges, order, k, order[k])
    ensures !Cyclic(edges)
  {
    var rank: map<Name, int> := map x | x in nodes :: Position(order, x);
    forall e | e in edges ensures rank[e.0] < rank[e.1] {
      var k := Position(order, e.1);
      assert TailsWithin(edges, order, k, order[k]);
      assert e.0 in order[..k];
    }
    ClimbingIsAcyclic(edges, rank);
  }

  /** One turn of the loop: subtracts the edges leaving `node`, which was just moved into `order`. */
  method Release(nodes: set<Name>, edges: set<(Name, Name)>, node: Name, inDegree0: map<Name, int>, q0: seq<Name>,
                 ghost live0: set<(Name, Name)>, ghost order: seq<Name>)
    returns (inDegree: map<Name, int>, q: seq<Name>, ghost live: set<(Name, Name)>)
    requires inDegree0.Keys == nodes && EdgesWithin(edges, nodes)
    requires Sorting(nodes, edges, live0, inDegree0, order, q0)
    requires node in order && forall e :: e in edges && e.0 == node ==> e in live0
    ensures inDegree.Keys == nodes
    ensures Sorting(nodes, edges, live, inDegree, order, q)
    ensures forall e :: e in edges ==> (e in live <==> e in live0 && e.0 != node)
  {
    hide Sorting, Sorted;
    inDegree, q, live := inDegree0, q0, live0;
    var deps := Sorted(Heads(edges, node));
    assert forall w :: w in deps <==> (node, w) in edges by { AdjacencyLookup(edges, node); }
    for i := 0 to |deps|
      invariant inDegree.Keys == nodes
      invariant Sorting(nodes, edges, live, inDegree, order, q)
      invariant forall e :: e in edges ==> (e in live <==> e in live0 && !(e.0 == node && e.1 in deps[..i]))
    {
      var dep := deps[i];
      assert deps[..i + 1] == deps[..i] + [dep];
      assert dep !in deps[..i];
      ghost var e, inDegree1, q1, live1 := (node, dep), inDegree, q, live;
      assert e in edges && e in live;
      inDegree := inDegree[dep := inDegree[dep] - 1];
      if inDegree[dep] == 0 {
        q := q + [dep];
      }
      live := live - {e};
      SortStep(nodes, edges, live1, inDegree1, order, q1, e, inDegree, q);
    }
    assert deps[..|deps|] == deps;
  }

  /** `order` lists every node once, each after everything it depends on. */
  ghost predicate BuildOrder(nodes: set<Name>, edges: set<(Name, Name)>, order: seq<Name>)
  {
    && Distinct(order)
    && (forall x :: x in order <==> x in nodes)
    && (forall i, j :: 0 <= i < |order| && 0 <= j < |order| && (order[i], order[j]) in edges ==> j < i)
  }

  function Backwards(order: seq<Name>): (r: seq<Name>)
    ensures |r| == |order| && forall i :: 0 <= i < |r| ==> r[i] == order[|order| - 1 - i]
  {
    seq(|order|, i requires 0 <= i < |order| => order[|order| - 1 - i])
  }

  lemma BackwardsIsBuildOrder(nodes: set<Name>, edges: set<(Name, Name)>, order: seq<Name>)
    requires Distinct(order) && forall x :: x in order <==> x in nodes
    requires forall k :: 0 <= k < |order| ==> TailsWithin(edges, order, k, order[k])
    ensures BuildOrder(nodes, edges, Backwards(order))
  {
    var r := Backwards(order);
    forall x ensures x in r <==> x in nodes {
      if x in order {
        var k :| 0 <= k < |order| && order[k] == x;
        assert r[|order| - 1 - k] == x;
      }
    }
    forall i, j | 0 <= i < |r| && 0 <= j < |r| && (r[i], r[j]) in edges ensures j < i {
      var k := |order| - 1 - j;
      assert TailsWithin(edges, order, k, order[k]);
      var e := (r[i], r[j]);
      assert e.0 in order[..k];
    }
  }

  lemma FullExactly(nodes: set<Name>, order: seq<Name>)
    requires Distinct(order) && forall x :: x in order ==> x in nodes
    ensures |order| == |nodes| <==> forall x :: x in nodes ==> x in order
  {
    DistinctCardinality(order);
    var listed := Elements(order);
    assert listed <= nodes;
    assert |nodes - listed| == |nodes| - |listed|;
    if forall x :: x in nodes ==> x in order {
      assert listed == nodes;
    } else {
      var x :| x in nodes && x !in order;
      assert x in nodes - listed;
    }
  }

  lemma {:induction false} DistinctCardinality(q: seq<Name>)
    requires Distinct(q)
    ensures |Elements(q)| == |q|
  {
    if q != [] {
      DistinctCardinality(q[1..]);
      assert Elements(q) == {q[0]} + Elements(q[1..]);
    }
  }

  /** `topo_sort`: a build order exactly when the graph has no cycle. */
  method Sort(nodes: set<Name>, edges: set<(Name, Name)>) returns (result: Option<seq<Name>>)
    requires EdgesWithin(edges, nodes)
    ensures result.None? <==> Cyclic(edges)
    ensures result.Some? ==> BuildOrder(nodes, edges, result.value)
  {
    hide Cyclic, Counts, Sorted;
    var inDegree := CountInDegrees(nodes, edges);
    var q := Sorted(set n | n in nodes && inDegree[n] == 0);
    var order := [];
    ghost var live := edges;
    assert Sorting(nodes, edges, live, inDegree, order, q) by { SortStart(nodes, edges, inDegree, q); }
    hide Sorting, BuildOrder, Ascending, Distinct, Into;
    ghost var waiting := nodes;
    while q != []
      invariant inDegree.Keys == nodes
      invariant Sorting(nodes, edges, live, inDegree, order, q)
      invariant forall e :: e in edges ==> (e in live <==> e.0 !in order)
      invariant forall x :: x in nodes && x !in order ==> x in waiting
      decreases waiting
    {
      PopStep(nodes, edges, live, inDegree, order, q);
      SortNodes(nodes, edges, live, inDegree, order, q);
      var node := q[0];
      q := q[1..];
      order := order + [node];
      waiting := waiting - {node};
      inDegree, q, live := Release(nodes, edges, node, inDegree, q, live, order);
    }
    SortEnds(nodes, edges, live, inDegree, order);
    if |order| != |nodes| {
      result := None;
    } else {
      result := Some(Backwards(order));
    }
  }

  lemma SortStart(nodes: set<Name>, edges: set<(Name, Name)>, inDegree: map<Name, int>, q: seq<Name>)
    requires EdgesWithin(edges, nodes) && Counts(nodes, inDegree, edges)
    requires Ascending(q) && forall x :: x in q <==> x in nodes && inDegree[x] == 0
    ensures Sorting(nodes, edges, edges, inDegree, [], q)
  {
  }

  lemma SortNodes(nodes: set<Name>, edges: set<(Name, Name)>, live: set<(Name, Name)>, inDegree: map<Name, int>,
                  order: seq<Name>, q: seq<Name>)
    requires Sorting(nodes, edges, live, inDegree, order, q) && q != []
    ensures q[0] in nodes && q[0] in order + q && q[0] !in order
  {
    var z := order + q;
    assert z[|order|] == q[0];
    forall i | 0 <= i < |order| ensures order[i] != q[0] {
      assert z[i] == order[i];
    }
  }

  lemma SortEnds(nodes: set<Name>, edges: set<(Name, Name)>, live: set<(Name, Name)>, inDegree: map<Name, int>, order: seq<Name>)
    requires Sorting(nodes, edges, live, inDegree, order, [])
    requires forall e :: e in edges ==> (e in live <==> e.0 !in order)
    ensures |order| != |nodes| <==> Cyclic(edges)
    ensures |order| == |nodes| ==> BuildOrder(nodes, edges, Backwards(order))
  {
    hide Cyclic, Counts;
    assert order + [] == order;
    FullExactly(nodes, order);
    if |order| == |nodes| {
      OrderIsAcyclic(nodes, edges, order);
      BackwardsIsBuildOrder(nodes, edges, order);
    } else {
      StuckIsCyclic(nodes, edges, live, inDegree, order);
    }
  }
}
