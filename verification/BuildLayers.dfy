/**
 Layers of packages that can be built in parallel: the components found by Tarjan's algorithm are
 contracted and the contracted graph is peeled, dependents first.
 */
module BuildLayers {
  import opened Basics
  import opened Names
  import opened Graphs
  import opened Tarjan

  // ----- the contracted graph

  function Condensation(edges: set<(Name, Name)>, sccOf: map<Name, nat>): set<(nat, nat)>
  {
    set e | e in edges && e.0 in sccOf && e.1 in sccOf && sccOf[e.0] != sccOf[e.1] :: (sccOf[e.0], sccOf[e.1])
  }

  function CondInto(edges: set<(nat, nat)>, j: nat): set<(nat, nat)>
  {
    set e | e in edges && e.1 == j
  }

  ghost predicate SccNumbers(sccs: seq<seq<Name>>, sccOf: map<Name, nat>)
  {
    && (forall x :: x in sccOf <==> Done(sccs, x))
    && (forall x :: x in sccOf ==> sccOf[x] < |sccs| && x in sccs[sccOf[x]])
  }

  method NumberSccs(sccs: seq<seq<Name>>) returns (sccOf: map<Name, nat>)
    ensures SccNumbers(sccs, sccOf)
  {
    sccOf := map[];
    for i := 0 to |sccs|
      invariant forall x :: x in sccOf <==> InFirst(sccs, i, x)
      invariant forall x :: x in sccOf ==> sccOf[x] < |sccs| && x in sccs[sccOf[x]]
    {
      for k := 0 to |sccs[i]|
        invariant forall x :: x in sccOf <==> InFirst(sccs, i, x) || x in sccs[i][..k]
        invariant forall x :: x in sccOf ==> sccOf[x] < |sccs| && x in sccs[sccOf[x]]
      {
        sccOf := sccOf[sccs[i][k] := i];
      }
      FirstStep(sccs, i);
    }
  }

  lemma FirstStep(sccs: seq<seq<Name>>, i: nat)
    requires i < |sccs|
    ensures forall x :: InFirst(sccs, i + 1, x) <==> InFirst(sccs, i, x) || x in sccs[i][..|sccs[i]|]
  {
  }

  method ContractEdges(edges: set<(Name, Name)>, sccOf: map<Name, nat>) returns (cond: set<(nat, nat)>)
    ensures cond == Condensation(edges, sccOf)
  {
    cond := {};
    var rest := edges;
    while rest != {}
      invariant rest <= edges
      invariant cond == Condensation(edges - rest, sccOf)
      decreases rest
    {
      var e :| e in rest;
      rest := rest - {e};
      if e.0 in sccOf && e.1 in sccOf && sccOf[e.0] != sccOf[e.1] {
        cond := cond + {(sccOf[e.0], sccOf[e.1])};
      }
      assert edges - rest == edges - (rest + {e}) + {e};
    }
    assert edges - rest == edges;
  }

  ghost predicate Counts(inDegree: seq<int>, live: set<(nat, nat)>)
  {
    forall j :: 0 <= j < |inDegree| ==> inDegree[j] == |CondInto(live, j)|
  }

  method CountInDegrees(n: nat, cond: set<(nat, nat)>) returns (inDegree: seq<int>)
    requires forall e :: e in cond ==> e.1 < n
    ensures |inDegree| == n && Counts(inDegree, cond)
  {
    inDegree := seq(n, _ => 0);
    var rest := cond;
    assert forall j :: 0 <= j < n ==> CondInto(cond - rest, j) == {};
    while rest != {}
      invariant rest <= cond
      invariant |inDegree| == n && Counts(inDegree, cond - rest)
      decreases rest
    {
      var e :| e in rest;
      CondIntoGrows(cond - rest, e);
      assert cond - (rest - {e}) == (cond - rest) + {e};
      rest := rest - {e};
      inDegree := inDegree[e.1 := inDegree[e.1] + 1];
    }
    assert cond - rest == cond;
  }

  lemma CondIntoGrows(live: set<(nat, nat)>, e: (nat, nat))
    requires e !in live
    ensures forall j: nat :: |CondInto(live + {e}, j)| == |CondInto(live, j)| + (if j == e.1 then 1 else 0)
  {
    forall j: nat ensures |CondInto(live + {e}, j)| == |CondInto(live, j)| + (if j == e.1 then 1 else 0) {
      if j == e.1 {
        assert CondInto(live + {e}, j) == CondInto(live, j) + {e};
      } else {
        assert CondInto(live + {e}, j) == CondInto(live, j);
      }
    }
  }

  lemma RemoveEdge(inDegree: seq<int>, live: set<(nat, nat)>, e: (nat, nat))
    requires Counts(inDegree, live) && e in live && e.1 < |inDegree|
    ensures Counts(inDegree[e.1 := inDegree[e.1] - 1], live - {e})
    ensures forall j: nat :: j != e.1 ==> CondInto(live - {e}, j) == CondInto(live, j)
  {
    assert (live - {e}) + {e} == live;
    CondIntoGrows(live - {e}, e);
  }

  // ----- layers of the contracted graph

  /** `layer` numbers some of the contracted nodes: their predecessors are all numbered lower, and each
      number above zero is exactly one more than that of some predecessor. */
  ghost predicate Layered(cond: set<(nat, nat)>, layer: map<nat, nat>)
  {
    && (forall e :: e in cond && e.1 in layer ==> e.0 in layer && layer[e.0] < layer[e.1])
    && (forall b :: b in layer && layer[b] > 0 ==> HasPredecessorAt(cond, layer, b))
  }

  ghost predicate HasPredecessorAt(cond: set<(nat, nat)>, layer: map<nat, nat>, b: nat)
  {
    exists e :: e in cond && e.1 == b && b in layer && e.0 in layer && layer[e.0] + 1 == layer[b]
  }

  /** The peeling loop's state with `k` members of the layer in hand already used: `live` are the edges not
      yet subtracted, and the nodes without live incoming edges are those with a number. */
  ghost predicate Peeling(n: nat, cond: set<(nat, nat)>, live: set<(nat, nat)>, inDegree: seq<int>, layer: map<nat, nat>)
  {
    && live <= cond
    && |inDegree| == n && Counts(inDegree, live)
    && (forall e :: e in cond ==> e.0 < n && e.1 < n)
    && (forall j :: j in layer <==> 0 <= j < n && CondInto(live, j) == {})
    && (forall e :: e in cond - live ==> e.0 in layer)
    && Layered(cond, layer)
  }

  /** Subtracting the edge `e`, whose tail is in layer `l`, may free its head for layer `l + 1`. */
  lemma Subtract(n: nat, cond: set<(nat, nat)>, live: set<(nat, nat)>, inDegree: seq<int>, layer: map<nat, nat>,
                 e: (nat, nat), l: nat, inDegree': seq<int>, layer': map<nat, nat>)
    requires Peeling(n, cond, live, inDegree, layer)
    requires e in live && e.0 in layer && layer[e.0] == l
    requires forall d :: d in cond - live ==> layer[d.0] <= l
    requires inDegree' == inDegree[e.1 := inDegree[e.1] - 1]
    requires layer' == if inDegree'[e.1] == 0 then layer[e.1 := l + 1] else layer
    ensures Peeling(n, cond, live - {e}, inDegree', layer')
    ensures e.1 !in layer
    ensures forall d :: d in cond - (live - {e}) ==> layer'[d.0] <= l
  {
    RemoveEdge(inDegree, live, e);
    assert e in CondInto(live, e.1);
    assert e.1 !in layer;
    var live' := live - {e};
    assert CondInto(live', e.1) == CondInto(live, e.1) - {e};
    assert |CondInto(live', e.1)| == inDegree'[e.1];
    if inDegree'[e.1] == 0 {
      assert CondInto(live', e.1) == {};
      forall d | d in cond && d.1 == e.1 ensures d.0 in layer && layer[d.0] <= l {
        if d in live { assert d in CondInto(live, e.1); assert d == e; }
      }
    }
    SubtractLayered(cond, layer, e, l, layer', inDegree'[e.1] == 0);
  }

  lemma SubtractLayered(cond: set<(nat, nat)>, layer: map<nat, nat>, e: (nat, nat), l: nat, layer': map<nat, nat>, freed: bool)
    requires Layered(cond, layer)
    requires e in cond && e.1 !in layer && e.0 in layer && layer[e.0] == l
    requires layer' == if freed then layer[e.1 := l + 1] else layer
    requires freed ==> forall d :: d in cond && d.1 == e.1 ==> d.0 in layer && layer[d.0] <= l
    ensures Layered(cond, layer')
  {
  }

  /** `q` lists, each once, the nodes of layer `l`, and no number exceeds `l`. */
  ghost predicate Front(layer: map<nat, nat>, q: seq<nat>, l: nat)
  {
    && Distinct(q)
    && (forall j :: j in q <==> j in layer && layer[j] == l)
    && (forall j :: j in layer ==> layer[j] <= l)
  }

  /** Within a round that started from `layer0`: the nodes freed so far, listed in `q`, form layer `l + 1`. */
  ghost predicate Grown(layer0: map<nat, nat>, layer: map<nat, nat>, q: seq<nat>, l: nat)
  {
    && (forall j :: j in layer0 ==> j in layer && layer[j] == layer0[j])
    && (forall j :: j in q <==> j in layer && j !in layer0)
    && (forall j :: j in layer && j !in layer0 ==> layer[j] == l + 1)
    && Distinct(q)
  }

  ghost predicate Round(n: nat, cond: set<(nat, nat)>, live: set<(nat, nat)>, inDegree: seq<int>,
                        layer0: map<nat, nat>, layer: map<nat, nat>, q: seq<nat>, l: nat)
  {
    && Peeling(n, cond, live, inDegree, layer)
    && Grown(layer0, layer, q, l)
    && (forall e :: e in cond - live ==> e.0 in layer && layer[e.0] <= l)
  }

  lemma RoundStep(n: nat, cond: set<(nat, nat)>, live: set<(nat, nat)>, inDegree: seq<int>,
                  layer0: map<nat, nat>, layer: map<nat, nat>, q: seq<nat>, l: nat, e: (nat, nat),
                  inDegree': seq<int>, layer': map<nat, nat>, q': seq<nat>)
    requires Round(n, cond, live, inDegree, layer0, layer, q, l)
    requires e in live && e.0 in layer0 && layer0[e.0] == l
    requires inDegree' == inDegree[e.1 := inDegree[e.1] - 1]
    requires layer' == if inDegree'[e.1] == 0 then layer[e.1 := l + 1] else layer
    requires q' == if inDegree'[e.1] == 0 then q + [e.1] else q
    ensures Round(n, cond, live - {e}, inDegree', layer0, layer', q', l)
  {
    assert e.1 < |inDegree|;
    Subtract(n, cond, live, inDegree, layer, e, l, inDegree', layer');
    hide Peeling, Grown;
    assert Grown(layer0, layer', q', l) by {
      if inDegree'[e.1] == 0 { GrownStep(layer0, layer, q, l, e.1); }
    }
  }

  lemma GrownStep(layer0: map<nat, nat>, layer: map<nat, nat>, q: seq<nat>, l: nat, b: nat)
    requires Grown(layer0, layer, q, l) && b !in layer
    ensures Grown(layer0, layer[b := l + 1], q + [b], l)
  {
    assert b !in q;
  }

  /** One node's turn: subtracts the edges leaving `ci`. */
  method PeelNode(n: nat, cond: set<(nat, nat)>, ci: nat, inDegree0: seq<int>, q0: seq<nat>,
                  ghost live0: set<(nat, nat)>, ghost layer0: map<nat, nat>, ghost layer1: map<nat, nat>, ghost l: nat)
    returns (inDegree: seq<int>, q: seq<nat>, ghost live: set<(nat, nat)>, ghost layer: map<nat, nat>)
    requires |inDegree0| == n && forall e :: e in cond ==> e.1 < n
    requires Round(n, cond, live0, inDegree0, layer0, layer1, q0, l)
    requires ci in layer0 && layer0[ci] == l
    requires forall e :: e in cond && e.0 == ci ==> e in live0
    ensures |inDegree| == n
    ensures Round(n, cond, live, inDegree, layer0, layer, q, l)
    ensures forall e :: e in cond ==> (e in live <==> e in live0 && e.0 != ci)
  {
    hide Round;
    inDegree, q, live, layer := inDegree0, q0, live0, layer1;
    var rest := cond;
    while rest != {}
      invariant rest <= cond
      invariant |inDegree| == n
      invariant Round(n, cond, live, inDegree, layer0, layer, q, l)
      invariant forall e :: e in cond ==> (e in live <==> e in live0 && !(e.0 == ci && e !in rest))
      decreases rest
    {
      var e :| e in rest;
      rest := rest - {e};
      if e.0 == ci {
        ghost var layer2, live2, inDegree2, q2 := layer, live, inDegree, q;
        inDegree := inDegree[e.1 := inDegree[e.1] - 1];
        if inDegree[e.1] == 0 {
          q := q + [e.1];
          layer := layer[e.1 := l + 1];
        }
        live := live - {e};
        RoundStep(n, cond, live2, inDegree2, layer0, layer2, q2, l, e, inDegree, layer, q);
      }
    }
  }

  /** The inner loops of one round: subtracts every edge leaving the nodes of `current`. */
  method PeelLayer(n: nat, cond: set<(nat, nat)>, current: seq<nat>, inDegree0: seq<int>,
                   ghost live0: set<(nat, nat)>, ghost layer0: map<nat, nat>, ghost l: nat)
    returns (inDegree: seq<int>, q: seq<nat>, ghost live: set<(nat, nat)>, ghost layer: map<nat, nat>)
    requires |inDegree0| == n && forall e :: e in cond ==> e.1 < n
    requires Round(n, cond, live0, inDegree0, layer0, layer0, [], l)
    requires Front(layer0, current, l)
    requires forall e :: e in cond && e.0 in current ==> e in live0
    ensures |inDegree| == n
    ensures Round(n, cond, live, inDegree, layer0, layer, q, l)
    ensures forall e :: e in cond ==> (e in live <==> e in live0 && e.0 !in current)
  {
    hide Round;
    inDegree, q, live, layer := inDegree0, [], live0, layer0;
    for k := 0 to |current|
      invariant |inDegree| == n
      invariant Round(n, cond, live, inDegree, layer0, layer, q, l)
      invariant forall e :: e in cond ==> (e in live <==> e in live0 && e.0 !in current[..k])
    {
      assert current[..k + 1] == current[..k] + [current[k]];
      assert current[k] !in current[..k];
      inDegree, q, live, layer := PeelNode(n, cond, current[k], inDegree, q, live, layer0, layer, l);
    }
    assert current[..|current|] == current;
  }

  /** Between rounds: `q` is layer `l` and the live edges are those leaving nodes not below it. */
  ghost predicate Between(n: nat, cond: set<(nat, nat)>, live: set<(nat, nat)>, inDegree: seq<int>,
                          layer: map<nat, nat>, q: seq<nat>, l: nat)
  {
    && Peeling(n, cond, live, inDegree, layer)
    && Front(layer, q, l)
    && (forall e :: e in cond ==> (e in live <==> !(e.0 in layer && layer[e.0] < l)))
  }

  lemma NextRound(n: nat, cond: set<(nat, nat)>, live0: set<(nat, nat)>, inDegree0: seq<int>, layer0: map<nat, nat>,
                  current: seq<nat>, l: nat, live: set<(nat, nat)>, inDegree: seq<int>, layer: map<nat, nat>, q: seq<nat>)
    requires Between(n, cond, live0, inDegree0, layer0, current, l)
    requires Round(n, cond, live, inDegree, layer0, layer, q, l)
    requires forall e :: e in cond ==> (e in live <==> e in live0 && e.0 !in current)
    ensures Between(n, cond, live, inDegree, layer, q, l + 1)
  {
  }

  lemma StartRound(n: nat, cond: set<(nat, nat)>, live: set<(nat, nat)>, inDegree: seq<int>,
                   layer: map<nat, nat>, q: seq<nat>, l: nat)
    requires Between(n, cond, live, inDegree, layer, q, l)
    ensures Round(n, cond, live, inDegree, layer, layer, [], l)
    ensures Front(layer, q, l)
    ensures forall e :: e in cond && e.0 in q ==> e in live
    ensures forall j :: j in layer ==> 0 <= j < n
    ensures Layered(cond, layer)
  {
  }

  /** Dependencies sit in components with smaller numbers, so the contracted graph is acyclic: when no
      node is left to peel, none is left at all. */
  lemma {:induction false} AllPlaced(n: nat, cond: set<(nat, nat)>, live: set<(nat, nat)>, inDegree: seq<int>,
                                     layer: map<nat, nat>, l: nat, j: nat)
    requires Between(n, cond, live, inDegree, layer, [], l)
    requires forall e :: e in cond ==> e.1 < e.0
    requires j < n
    ensures j in layer && layer[j] < l
    decreases n - j
  {
    if j !in layer {
      var e :| e in CondInto(live, j);
      AllPlaced(n, cond, live, inDegree, layer, l, e.0);
      assert false;
    }
  }

  ghost predicate InLayer(sccs: seq<seq<Name>>, layer: map<nat, nat>, l: int, x: Name)
  {
    exists i :: i in layer && layer[i] == l && i < |sccs| && x in sccs[i]
  }

  /** Each emitted group lists, in order, the members of the components of its layer. */
  ghost predicate GroupsMatch(sccs: seq<seq<Name>>, groups: seq<seq<Name>>, layer: map<nat, nat>)
  {
    && (forall l :: 0 <= l < |groups| ==> Ascending(groups[l]))
    && (forall l, x :: 0 <= l < |groups| ==> (x in groups[l] <==> InLayer(sccs, layer, l, x)))
  }

  ghost predicate InAny(sccs: seq<seq<Name>>, q: seq<nat>, x: Name)
  {
    exists i :: i in q && i < |sccs| && x in sccs[i]
  }

  method CollectLayer(sccs: seq<seq<Name>>, current: seq<nat>) returns (group: seq<Name>)
    requires forall j :: j in current ==> j < |sccs|
    ensures Ascending(group)
    ensures forall x :: x in group <==> InAny(sccs, current, x)
  {
    var members := [];
    for k := 0 to |current|
      invariant forall x :: x in members <==> InAny(sccs, current[..k], x)
    {
      assert current[k] in current;
      members := members + sccs[current[k]];
      assert current[..k + 1] == current[..k] + [current[k]];
    }
    assert current[..|current|] == current;
    group := Sorted(Elements(members));
  }

  lemma GrowthKeepsMatch(sccs: seq<seq<Name>>, groups: seq<seq<Name>>, layer0: map<nat, nat>, layer: map<nat, nat>,
                         q: seq<nat>, l: nat)
    requires GroupsMatch(sccs, groups, layer0) && Grown(layer0, layer, q, l) && |groups| <= l + 1
    ensures GroupsMatch(sccs, groups, layer)
  {
  }

  lemma AppendMatches(sccs: seq<seq<Name>>, groups: seq<seq<Name>>, layer: map<nat, nat>, q: seq<nat>, group: seq<Name>)
    requires GroupsMatch(sccs, groups, layer) && Front(layer, q, |groups|)
    requires forall j :: j in layer ==> j < |sccs|
    requires Ascending(group) && forall x :: x in group <==> InAny(sccs, q, x)
    ensures GroupsMatch(sccs, groups + [group], layer)
  {
  }

  ghost function Below(n: nat, layer: map<nat, nat>, l: nat): set<nat>
  {
    set j | 0 <= j < n && !(j in layer && layer[j] < l)
  }

  lemma RoundShrinks(n: nat, cond: set<(nat, nat)>, live: set<(nat, nat)>, inDegree: seq<int>,
                     layer0: map<nat, nat>, layer: map<nat, nat>, current: seq<nat>, q: seq<nat>, l: nat)
    requires Between(n, cond, live, inDegree, layer0, current, l) && Grown(layer0, layer, q, l) && current != []
    ensures Below(n, layer, l + 1) < Below(n, layer0, l)
  {
    var c := current[0];
    assert c in current && c in layer0 && c in layer && layer[c] == layer0[c] == l && c < n;
    hide Peeling;
    assert c in Below(n, layer0, l);
    assert c !in Below(n, layer, l + 1);
  }

  lemma PeelStart(n: nat, cond: set<(nat, nat)>, inDegree: seq<int>, q: seq<nat>, layer: map<nat, nat>)
    requires |inDegree| == n && Counts(inDegree, cond)
    requires forall e :: e in cond ==> e.0 < n && e.1 < n
    requires Distinct(q) && forall j :: j in q <==> 0 <= j < n && inDegree[j] == 0
    requires layer == map j | j in q :: 0
    ensures Between(n, cond, cond, inDegree, layer, q, 0)
  {
    forall j: nat ensures j in layer <==> j < n && CondInto(cond, j) == {} {
      if j < n { assert inDegree[j] == |CondInto(cond, j)|; }
    }
    forall e | e in cond ensures e.1 !in layer {
      assert e in CondInto(cond, e.1);
    }
  }

  /** The components on which no other depends, in ascending order. */
  method ZeroDegrees(inDegree: seq<int>) returns (q: seq<nat>)
    ensures Distinct(q)
    ensures forall j :: j in q <==> 0 <= j < |inDegree| && inDegree[j] == 0
  {
    q := [];
    for i := 0 to |inDegree|
      invariant Distinct(q)
      invariant forall j :: j in q <==> 0 <= j < i && inDegree[j] == 0
    {
      if inDegree[i] == 0 {
        q := q + [i];
      }
    }
  }

  /** `groups` holds the components by layer, and every component has one. */
  ghost predicate PeeledInto(sccs: seq<seq<Name>>, cond: set<(nat, nat)>, groups: seq<seq<Name>>, layer: map<nat, nat>)
  {
    && Layered(cond, layer)
    && (forall j :: j in layer <==> 0 <= j < |sccs|)
    && (forall j :: j in layer ==> layer[j] < |groups|)
    && GroupsMatch(sccs, groups, layer)
  }

  /** The peeling loop: each turn takes the whole queue as one layer. */
  method Peel(sccs: seq<seq<Name>>, cond: set<(nat, nat)>, inDegree0: seq<int>) returns (groups: seq<seq<Name>>)
    requires |inDegree0| == |sccs| && Counts(inDegree0, cond)
    requires forall e :: e in cond ==> e.1 < e.0 < |sccs|
    ensures exists layer: map<nat, nat> :: PeeledInto(sccs, cond, groups, layer)
  {
    hide Round, Grown, GroupsMatch, Counts, Layered, Between, Peeling, InAny, Ascending, Front, Distinct, CondInto;
    var n, inDegree := |sccs|, inDegree0;
    var q := ZeroDegrees(inDegree);
    ghost var live := cond;
    ghost var layer: map<nat, nat> := map j | j in q :: 0;
    PeelStart(n, cond, inDegree, q, layer);
    groups := [];
    EmptyMatch(sccs, layer);
    while q != []
      invariant |inDegree| == n
      invariant Between(n, cond, live, inDegree, layer, q, |groups|)
      invariant GroupsMatch(sccs, groups, layer)
      decreases Below(n, layer, |groups|)
    {
      ghost var l, live0, inDegree1, layer0 := |groups|, live, inDegree, layer;
      var current := q;
      StartRound(n, cond, live, inDegree, layer, current, l);
      var group := CollectLayer(sccs, current);
      AppendMatches(sccs, groups, layer, current, group);
      groups := groups + [group];
      inDegree, q, live, layer := PeelLayer(n, cond, current, inDegree, live, layer, l);
      NextRound(n, cond, live0, inDegree1, layer0, current, l, live, inDegree, layer, q);
      RoundGrows(n, cond, live, inDegree, layer0, layer, q, l);
      GrowthKeepsMatch(sccs, groups, layer0, layer, q, l);
      RoundShrinks(n, cond, live0, inDegree1, layer0, layer, current, q, l);
    }
    StartRound(n, cond, live, inDegree, layer, q, |groups|);
    forall j: nat | j < n ensures j in layer && layer[j] < |groups| {
      AllPlaced(n, cond, live, inDegree, layer, |groups|, j);
    }
    assert PeeledInto(sccs, cond, groups, layer);
  }

  lemma EmptyMatch(sccs: seq<seq<Name>>, layer: map<nat, nat>)
    ensures GroupsMatch(sccs, [], layer)
  {
  }

  lemma RoundGrows(n: nat, cond: set<(nat, nat)>, live: set<(nat, nat)>, inDegree: seq<int>,
                   layer0: map<nat, nat>, layer: map<nat, nat>, q: seq<nat>, l: nat)
    requires Round(n, cond, live, inDegree, layer0, layer, q, l)
    ensures Grown(layer0, layer, q, l)
  {
  }

  // ----- what the layers mean in terms of packages

  /** How many edges of the walk lead from one component into another. */
  ghost function Crossings(edges: set<(Name, Name)>, p: seq<Name>): nat
  {
    if |p| <= 1 then 0
    else Crossings(edges, p[..|p| - 1]) + (if Mutual(edges, p[|p| - 2], p[|p| - 1]) then 0 else 1)
  }

  ghost predicate EndsAt(edges: set<(Name, Name)>, p: seq<Name>, x: Name)
  {
    IsWalk(edges, p) && p[|p| - 1] == x
  }

  /** `l` is the largest number of component-to-component steps on any walk that leads to `x`. */
  ghost predicate LongestInto(edges: set<(Name, Name)>, x: Name, l: nat)
  {
    && (forall p :: EndsAt(edges, p, x) ==> Crossings(edges, p) <= l)
    && (exists p :: EndsAt(edges, p, x) && Crossings(edges, p) == l)
  }

  /** What numbering the packages by layer achieves. */
  ghost predicate Levels(edges: set<(Name, Name)>, level: map<Name, nat>)
  {
    && (forall x, y :: x in level && Mutual(edges, x, y) ==> y in level && level[y] == level[x])
    && (forall e :: e in edges ==> e.0 in level && e.1 in level)
    && (forall e :: e in edges && !Mutual(edges, e.0, e.1) ==> level[e.0] < level[e.1])
    && (forall x :: x in level && level[x] > 0 ==> EntryAt(edges, level, x))
  }

  ghost predicate EntryAt(edges: set<(Name, Name)>, level: map<Name, nat>, x: Name)
  {
    exists e :: e in edges && Mutual(edges, e.1, x) && !Mutual(edges, e.0, e.1)
                && x in level && e.0 in level && level[e.0] + 1 == level[x]
  }

  lemma {:induction false} CrossingsBounded(edges: set<(Name, Name)>, level: map<Name, nat>, p: seq<Name>)
    requires Levels(edges, level) && IsWalk(edges, p) && p[|p| - 1] in level
    ensures Crossings(edges, p) <= level[p[|p| - 1]]
  {
    hide Mutual, EntryAt;
    if |p| > 1 {
      var q := p[..|p| - 1];
      WalkSlice(edges, p, 0, |p| - 2);
      assert q == p[0..|p| - 1];
      assert Joined(edges, p, |p| - 2);
      var e := (p[|p| - 2], p[|p| - 1]);
      assert e in edges && e.0 in level;
      CrossingsBounded(edges, level, q);
    }
  }

  lemma {:induction false} CrossingsJoin(edges: set<(Name, Name)>, p: seq<Name>, q: seq<Name>)
    requires p != [] && q != [] && p[|p| - 1] == q[0]
    ensures Crossings(edges, p + q[1..]) == Crossings(edges, p) + Crossings(edges, q)
  {
    var r := p + q[1..];
    if |q| == 1 {
      assert r == p;
    } else {
      CrossingsJoin(edges, p, q[..|q| - 1]);
      assert r[..|r| - 1] == p + q[..|q| - 1][1..];
      assert r[|r| - 1] == q[|q| - 1] && r[|r| - 2] == q[|q| - 2];
    }
  }

  /** A walk between members of one component never leaves it. */
  lemma {:induction false} InsideComponent(edges: set<(Name, Name)>, p: seq<Name>)
    requires IsWalk(edges, p) && Reach(edges, p[|p| - 1], p[0])
    ensures Crossings(edges, p) == 0
  {
    if |p| > 1 {
      var x, y, z := p[0], p[|p| - 2], p[|p| - 1];
      WalkSlice(edges, p, 0, |p| - 2);
      WalkSlice(edges, p, |p| - 2, |p| - 1);
      assert p[0..|p| - 1] == p[..|p| - 1];
      ReachTransitive(edges, y, z, x);
      ReachTransitive(edges, z, x, y);
      InsideComponent(edges, p[..|p| - 1]);
    }
  }

  lemma {:induction false} CrossingsAttained(edges: set<(Name, Name)>, level: map<Name, nat>, x: Name) returns (p: seq<Name>)
    requires Levels(edges, level) && x in level
    ensures EndsAt(edges, p, x) && Crossings(edges, p) == level[x]
    decreases level[x]
  {
    if level[x] == 0 {
      p := [x];
    } else {
      assert EntryAt(edges, level, x);
      var e :| e in edges && Mutual(edges, e.1, x) && !Mutual(edges, e.0, e.1)
               && e.0 in level && level[e.0] + 1 == level[x];
      var a := CrossingsAttained(edges, level, e.0);
      var b := [e.0, e.1];
      assert Joined(edges, b, 0);
      WalkJoin(edges, a, b, a[0], e.0, e.1);
      CrossingsJoin(edges, a, b);
      assert b[..1] == [e.0];
      var ab := a + b[1..];
      var c :| WalkFromTo(edges, c, e.1, x);
      InsideComponent(edges, c);
      WalkJoin(edges, ab, c, a[0], e.1, x);
      CrossingsJoin(edges, ab, c);
      p := ab + c[1..];
    }
  }

  lemma LevelIsLongest(edges: set<(Name, Name)>, level: map<Name, nat>, x: Name)
    requires Levels(edges, level) && x in level
    ensures LongestInto(edges, x, level[x])
  {
    forall p | EndsAt(edges, p, x) ensures Crossings(edges, p) <= level[x] {
      CrossingsBounded(edges, level, p);
    }
    var p := CrossingsAttained(edges, level, x);
  }

  /** What `SccGroups` and `NumberSccs` establish together. */
  ghost predicate Numbered(nodes: set<Name>, edges: set<(Name, Name)>, sccs: seq<seq<Name>>, sccOf: map<Name, nat>)
  {
    && EdgesWithin(edges, nodes)
    && sccOf.Keys == nodes
    && SccNumbers(sccs, sccOf)
    && GroupsDisjoint(sccs)
    && AllComponents(edges, sccs)
    && DependenciesFirst(edges, sccs)
  }

  lemma SameNumber(nodes: set<Name>, edges: set<(Name, Name)>, sccs: seq<seq<Name>>, sccOf: map<Name, nat>, x: Name, y: Name)
    requires Numbered(nodes, edges, sccs, sccOf) && x in nodes
    ensures Mutual(edges, x, y) <==> y in nodes && sccOf[x] == sccOf[y]
  {
  }

  lemma CondensationDescends(nodes: set<Name>, edges: set<(Name, Name)>, sccs: seq<seq<Name>>, sccOf: map<Name, nat>)
    requires Numbered(nodes, edges, sccs, sccOf)
    ensures forall d :: d in Condensation(edges, sccOf) ==> d.1 < d.0 < |sccs|
  {
  }

  lemma LayersAreLevels(nodes: set<Name>, edges: set<(Name, Name)>, sccs: seq<seq<Name>>, sccOf: map<Name, nat>,
                        layer: map<nat, nat>, level: map<Name, nat>)
    requires Numbered(nodes, edges, sccs, sccOf)
    requires Layered(Condensation(edges, sccOf), layer)
    requires forall j :: j in layer <==> 0 <= j < |sccs|
    requires level.Keys == nodes && forall x :: x in nodes ==> level[x] == layer[sccOf[x]]
    ensures Levels(edges, level)
  {
    hide AllComponents, DependenciesFirst, GroupsDisjoint, Mutual;
    var cond := Condensation(edges, sccOf);
    forall x, y | x in level && Mutual(edges, x, y) ensures y in level && level[y] == level[x] {
      SameNumber(nodes, edges, sccs, sccOf, x, y);
    }
    forall e | e in edges && !Mutual(edges, e.0, e.1) ensures level[e.0] < level[e.1] {
      SameNumber(nodes, edges, sccs, sccOf, e.0, e.1);
      assert (sccOf[e.0], sccOf[e.1]) in cond;
    }
    forall x | x in level && level[x] > 0 ensures EntryAt(edges, level, x) {
      assert HasPredecessorAt(cond, layer, sccOf[x]);
      var d :| d in cond && d.1 == sccOf[x] && d.0 in layer && layer[d.0] + 1 == layer[d.1];
      var e :| e in edges && e.0 in sccOf && e.1 in sccOf && sccOf[e.0] != sccOf[e.1] && d == (sccOf[e.0], sccOf[e.1]);
      SameNumber(nodes, edges, sccs, sccOf, e.1, x);
      SameNumber(nodes, edges, sccs, sccOf, e.0, e.1);
    }
  }

  lemma MembersAreLevels(nodes: set<Name>, edges: set<(Name, Name)>, sccs: seq<seq<Name>>, sccOf: map<Name, nat>,
                         layer: map<nat, nat>, level: map<Name, nat>, l: nat, x: Name)
    requires Numbered(nodes, edges, sccs, sccOf)
    requires forall j :: j in layer <==> 0 <= j < |sccs|
    requires level.Keys == nodes && forall x :: x in nodes ==> level[x] == layer[sccOf[x]]
    ensures InLayer(sccs, layer, l, x) <==> x in level && level[x] == l
  {
  }

  /** The layers of a graph, cycles allowed: each package once, each component in one layer, dependents in
      earlier layers than what they depend on, and the layer number as small as that permits. */
  ghost predicate BuildLayering(nodes: set<Name>, edges: set<(Name, Name)>, groups: seq<seq<Name>>, level: map<Name, nat>)
    requires EdgesWithin(edges, nodes)
  {
    && level.Keys == nodes
    && (forall x :: x in nodes ==> level[x] < |groups|)
    && (forall l :: 0 <= l < |groups| ==> Ascending(groups[l]))
    && (forall l, x :: 0 <= l < |groups| ==> (x in groups[l] <==> x in nodes && level[x] == l))
    && (forall x, y :: x in nodes && Mutual(edges, x, y) ==> y in nodes && level[x] == level[y])
    && (forall e :: e in edges && !Mutual(edges, e.0, e.1) ==> level[e.0] < level[e.1])
    && (forall x :: x in nodes ==> LongestInto(edges, x, level[x]))
  }

  /** `parallel_build_groups` */
  method ParallelBuildGroups(nodes: set<Name>, edges: set<(Name, Name)>) returns (groups: seq<seq<Name>>)
    requires EdgesWithin(edges, nodes)
    ensures exists level: map<Name, nat> :: BuildLayering(nodes, edges, groups, level)
  {
    hide AllComponents, DependenciesFirst, GroupsDisjoint, Layered, Mutual, Counts, LongestInto, Levels, Condensation;
    var sccs := SccGroups(nodes, edges);
    var sccOf := NumberSccs(sccs);
    var cond := ContractEdges(edges, sccOf);
    assert sccOf.Keys == nodes;
    CondensationDescends(nodes, edges, sccs, sccOf);
    var inDegree := CountInDegrees(|sccs|, cond);
    groups := Peel(sccs, cond, inDegree);
    ghost var layer :| PeeledInto(sccs, cond, groups, layer);
    ghost var level := map x | x in nodes :: layer[sccOf[x]];
    LevelsConclude(nodes, edges, sccs, sccOf, layer, level, groups);
  }

  lemma LevelsConclude(nodes: set<Name>, edges: set<(Name, Name)>, sccs: seq<seq<Name>>, sccOf: map<Name, nat>,
                       layer: map<nat, nat>, level: map<Name, nat>, groups: seq<seq<Name>>)
    requires Numbered(nodes, edges, sccs, sccOf)
    requires Layered(Condensation(edges, sccOf), layer)
    requires forall j :: j in layer <==> 0 <= j < |sccs|
    requires forall j :: j in layer ==> layer[j] < |groups|
    requires level.Keys == nodes && forall x :: x in nodes ==> level[x] == layer[sccOf[x]]
    requires GroupsMatch(sccs, groups, layer)
    ensures BuildLayering(nodes, edges, groups, level)
  {
    hide AllComponents, DependenciesFirst, GroupsDisjoint, Layered, Mutual, LongestInto, EntryAt, InLayer, Condensation;
    LayersAreLevels(nodes, edges, sccs, sccOf, layer, level);
    forall l, x | 0 <= l < |groups| ensures x in groups[l] <==> x in nodes && level[x] == l {
      MembersAreLevels(nodes, edges, sccs, sccOf, layer, level, l, x);
    }
    forall x | x in nodes ensures LongestInto(edges, x, level[x]) {
      LevelIsLongest(edges, level, x);
    }
  }
}
