/** The dependency resolver: build orders by depth-first search, cycle finding, and peeling into groups. */
module Resolver {
  import opened Basics
  import opened Names
  import opened Graphs
  import opened Closures
  import opened DepSpecs

  /** `x` comes after everything it depends on: its known dependencies are among the first `n` of `order`. */
  ghost predicate DepsWithin(edges: set<(Name, Name)>, order: seq<Name>, n: int, x: Name)
    requires 0 <= n <= |order|
  {
    forall e :: e in edges && e.0 == x ==> e.1 in order[..n]
  }

  ghost predicate DepsFirst(edges: set<(Name, Name)>, order: seq<Name>)
  {
    && Distinct(order)
    && forall k :: 0 <= k < |order| ==> DepsWithin(edges, order, k, order[k])
  }

  lemma DepsFirstAppend(edges: set<(Name, Name)>, order: seq<Name>, x: Name)
    requires DepsFirst(edges, order) && x !in order
    requires DepsWithin(edges, order, |order|, x)
    ensures DepsFirst(edges, order + [x])
  {
    var o := order + [x];
    assert order[..|order|] == order;
    forall k | 0 <= k < |o| ensures DepsWithin(edges, o, k, o[k]) {
      assert o[..k] == order[..k];
      if k < |order| { assert DepsWithin(edges, order, k, order[k]); }
    }
  }

  /** Nothing listed in such an order leads to a cycle, or to anything not listed. */
  lemma OrderedIsSafe(edges: set<(Name, Name)>, order: seq<Name>, x: Name)
    requires DepsFirst(edges, order) && x in order
    ensures !CycleFrom(edges, x)
    ensures forall y :: Reach(edges, x, y) ==> y in order
  {
    var rank: map<Name, int> := map y | y in order :: Position(order, y);
    forall e | e in edges && e.0 in rank ensures e.1 in rank && rank[e.1] < rank[e.0] {
      var k := Position(order, e.0);
      assert DepsWithin(edges, order, k, order[k]);
    }
    DescendingHasNoCycle(edges, rank, x);
    forall y | Reach(edges, x, y) ensures y in order {
      var p :| WalkFromTo(edges, p, x, y);
      DescendAlong(edges, rank, p);
    }
  }

  /** The working sets that `_dfs` fills in. */
  class Traversal {
    const packages: set<Name>
    const graph: map<Name, set<Name>>
    ghost const known: set<(Name, Name)>
    var visited: set<Name>
    var visiting: set<Name>
    var order: seq<Name>

    ghost predicate Valid()
      reads this
    {
      && known == KnownEdges(packages, graph)
      && visited == Elements(order)
      && visited !! visiting
      && DepsFirst(known, order)
    }

    constructor (packages: set<Name>, graph: map<Name, set<Name>>)
      ensures Valid() && visiting == {} && order == []
      ensures this.packages == packages && this.graph == graph
    {
      this.packages, this.graph := packages, graph;
      known := KnownEdges(packages, graph);
      visited, visiting, order := {}, {}, [];
    }

    /** `_dfs`: false exactly when a cycle is within reach. */
    method Dfs(package: Name) returns (ok: bool)
      requires Valid()
      requires forall g :: g in visiting ==> ReachPlus(known, g, package)
      modifies this`visited, this`visiting, this`order
      ensures ok == !CycleFrom(known, package)
      ensures ok ==> Valid() && visiting == old(visiting)
      ensures ok ==> old(order) <= order && package in order
      ensures ok && package !in old(visited) ==> order[|order| - 1] == package
      ensures ok ==> forall x :: x in order && x !in old(order) ==> Reach(known, package, x)
      ensures ok ==> old(visited) <= visited
      decreases packages + {package} - visited - visiting
    {
      hide Reach, ReachPlus, CycleFrom;
      if package in visiting {
        PlusSelfIsCycle(known, package);
        return false;
      }
      if package in visited {
        OrderedIsSafe(known, order, package);
        return true;
      }
      visiting := visiting + {package};
      var rest := if package in graph then graph[package] else {};
      ghost var deps := rest;
      while rest != {}
        invariant rest <= deps
        invariant Valid() && visiting == old(visiting) + {package}
        invariant old(order) <= order && old(visited) <= visited
        invariant forall d :: d in deps - rest && d in packages ==> d in visited
        invariant forall x :: x in order && x !in old(order) ==> Reach(known, package, x)
        decreases rest
      {
        var dep :| dep in rest;
        rest := rest - {dep};
        if dep in packages {
          assert (package, dep) in known;
          ChildPre(known, old(visiting), package, dep);
          ghost var before := order;
          var sub := Dfs(dep);
          if !sub {
            ReachEdge(known, package, dep);
            CycleFromEarlier(known, package, dep);
            return false;
          }
          forall x | x in order && x !in old(order) ensures Reach(known, package, x) {
            if x !in before {
              ReachEdge(known, package, dep);
              ReachTransitive(known, package, dep, x);
            }
          }
        }
      }
      ReachSelf(known, package);
      assert DepsWithin(known, order, |order|, package) by { assert order[..|order|] == order; }
      DepsFirstAppend(known, order, package);
      visiting := visiting - {package};
      visited := visited + {package};
      order := order + [package];
      OrderedIsSafe(known, order, package);
      return true;
    }
  }

  lemma ChildPre(edges: set<(Name, Name)>, visiting: set<Name>, package: Name, dep: Name)
    requires forall g :: g in visiting ==> ReachPlus(edges, g, package)
    requires (package, dep) in edges
    ensures forall g :: g in visiting + {package} ==> ReachPlus(edges, g, dep)
  {
    forall g | g in visiting + {package} ensures ReachPlus(edges, g, dep) {
      if g in visiting {
        PlusIsReach(edges, g, package);
      } else {
        ReachSelf(edges, package);
      }
      ReachThenEdge(edges, g, package, dep);
    }
  }

  /** Dependencies between known packages. */
  ghost function KnownEdges(packages: set<Name>, graph: map<Name, set<Name>>): set<(Name, Name)>
  {
    set a, b | a in graph && b in graph[a] && b in packages :: (a, b)
  }

  // ----- finding cycles

  /** The list `path` closes on itself without repeating a member: each depends on the next and the last on the first. */
  ghost predicate ClosesOnItself(edges: set<(Name, Name)>, path: seq<Name>)
  {
    path != [] && Distinct(path) && IsCycle(edges, path + [path[0]])
  }

  lemma CloseWalk(edges: set<(Name, Name)>, path: seq<Name>, k: nat)
    requires IsWalk(edges, path) && Distinct(path) && k < |path| && (path[|path| - 1], path[k]) in edges
    ensures ClosesOnItself(edges, path[k..])
  {
    WalkSlice(edges, path, k, |path| - 1);
    assert path[k..|path|] == path[k..];
    var c := path[k..] + [path[k]];
    forall i | 0 <= i < |c| - 1 ensures Joined(edges, c, i) {
      if i < |c| - 2 { assert Joined(edges, path[k..], i); }
    }
  }

  lemma ExtendWalk(edges: set<(Name, Name)>, path: seq<Name>, x: Name)
    requires path == [] || (IsWalk(edges, path) && (path[|path| - 1], x) in edges)
    ensures IsWalk(edges, path + [x])
  {
    var p := path + [x];
    forall i | 0 <= i < |p| - 1 ensures Joined(edges, p, i) {
      if i < |path| - 1 { assert Joined(edges, path, i); }
    }
  }

  /** The edges that do not lead into `base`. */
  ghost function Outside(known: set<(Name, Name)>, base: set<Name>): set<(Name, Name)>
  {
    set e | e in known && e.1 !in base
  }

  /** While no cycle has been found, `finished` lists the names whose search is over, dependencies first. */
  ghost predicate Clean(known: set<(Name, Name)>, visited: set<Name>, path: seq<Name>, finished: seq<Name>)
  {
    && visited == Elements(path) + Elements(finished)
    && Elements(path) !! Elements(finished)
    && DepsFirst(known, finished)
  }

  lemma PushClean(known: set<(Name, Name)>, visited: set<Name>, path: seq<Name>, finished: seq<Name>, x: Name)
    requires Clean(known, visited, path, finished) && x !in visited
    ensures Clean(known, visited + {x}, path + [x], finished)
  {
  }

  lemma FinishClean(known: set<(Name, Name)>, visited: set<Name>, path: seq<Name>, finished: seq<Name>, x: Name)
    requires Clean(known, visited, path + [x], finished) && x !in path
    requires forall e :: e in known && e.0 == x ==> e.1 in finished
    ensures Clean(known, visited, path, finished + [x])
  {
    assert Elements(path + [x]) == Elements(path) + {x};
    assert Elements(finished + [x]) == Elements(finished) + {x};
    assert x in path + [x];
    assert finished[..|finished|] == finished;
    DepsFirstAppend(known, finished, x);
  }

  lemma CleanFinished(known: set<(Name, Name)>, visited: set<Name>, path: seq<Name>, finished: seq<Name>, x: Name)
    requires Clean(known, visited, path, finished) && x in visited && x !in path
    ensures x in finished
  {
  }

  /** The working list and set of `_find_cycle_dfs`. */
  class CycleSearch {
    const packages: set<Name>
    const graph: map<Name, set<Name>>
    ghost const known: set<(Name, Name)>
    var visited: set<Name>
    var path: seq<Name>
    ghost var finished: seq<Name>

    ghost predicate Valid()
      reads this
    {
      && known == KnownEdges(packages, graph)
      && (path != [] ==> IsWalk(known, path))
      && Distinct(path)
      && Elements(path) <= visited
    }

    constructor (packages: set<Name>, graph: map<Name, set<Name>>)
      ensures Valid() && path == [] && visited == {} && finished == []
      ensures this.packages == packages && this.graph == graph
    {
      this.packages, this.graph := packages, graph;
      known := KnownEdges(packages, graph);
      visited, path, finished := {}, [], [];
    }

    /** `_find_cycle_dfs`; `base` are the names visited by searches that have already found a cycle. */
    method FindCycleDfs(package: Name, ghost base: set<Name>) returns (found: bool)
      requires Valid() && base <= visited && base !! Elements(path)
      requires path != [] ==> (path[|path| - 1], package) in known
      requires Clean(Outside(known, base), visited - base, path, finished)
      modifies this`visited, this`path, this`finished
      ensures package in visited && old(visited) <= visited
      ensures forall x :: x in visited - old(visited) ==> Reach(known, package, x)
      ensures found ==> ClosesOnItself(known, path) && Elements(path) <= Elements(old(path)) + (visited - old(visited))
      ensures !found ==> Valid() && path == old(path) && package !in path
      ensures !found ==> Clean(Outside(known, base), visited - base, path, finished)
      ensures !found ==> Elements(old(finished)) <= Elements(finished)
      decreases packages + {package} - visited
    {
      hide IsCycle, IsWalk, DepsFirst, Clean, Reach;
      if package in path {
        var k := IndexOf(path, package);
        CloseWalk(known, path, k);
        path := path[k..];
        return true;
      }
      if package in visited {
        return false;
      }
      ExtendWalk(known, path, package);
      ReachSelf(known, package);
      ghost var path0 := path;
      PushClean(Outside(known, base), visited - base, path, finished, package);
      assert visited + {package} - base == (visited - base) + {package};
      visited := visited + {package};
      path := path + [package];
      assert Elements(path) == Elements(path0) + {package};
      var rest := if package in graph then graph[package] else {};
      ghost var deps := rest;
      while rest != {}
        invariant rest <= deps
        invariant Valid() && path == path0 + [package]
        invariant old(visited) + {package} <= visited
        invariant forall x :: x in visited - old(visited) ==> Reach(known, package, x)
        invariant Clean(Outside(known, base), visited - base, path, finished)
        invariant Elements(old(finished)) <= Elements(finished)
        invariant forall d :: d in deps - rest && d in packages ==> d in base || d in Elements(finished)
        decreases rest
      {
        var dep :| dep in rest;
        rest := rest - {dep};
        if dep in packages {
          assert (package, dep) in known;
          ghost var before := visited;
          var sub := FindCycleDfs(dep, base);
          ReachOnward(known, package, dep, visited - before);
          if sub {
            return true;
          }
          if dep !in base { CleanFinished(Outside(known, base), visited - base, path, finished, dep); }
        }
      }
      path := path[..|path| - 1];
      assert path == path0;
      FinishClean(Outside(known, base), visited - base, path, finished, package);
      finished := finished + [package];
      return false;
    }
  }

  lemma ReachOnward(edges: set<(Name, Name)>, x: Name, y: Name, names: set<Name>)
    requires (x, y) in edges && forall z :: z in names ==> Reach(edges, y, z)
    ensures forall z :: z in names ==> Reach(edges, x, z)
  {
    hide Reach;
    ReachEdge(edges, x, y);
    forall z | z in names ensures Reach(edges, x, z) {
      ReachTransitive(edges, x, y, z);
    }
  }

  method IndexOf(path: seq<Name>, x: Name) returns (k: nat)
    requires x in path
    ensures k < |path| && path[k] == x && x !in path[..k]
  {
    k := 0;
    while path[k] != x
      invariant k < |path| && x !in path[..k]
      decreases |path| - k
    {
      k := k + 1;
    }
  }

  // ----- peeling

  /** Groups built so far: `rank` gives each placed package its group. */
  ghost predicate Peeled(packages: set<Name>, known: set<(Name, Name)>, remaining: set<Name>,
                         groups: seq<seq<Name>>, rank: map<Name, int>)
  {
    && remaining <= packages
    && rank.Keys == packages - remaining
    && (forall k, x :: 0 <= k < |groups| ==> (x in groups[k] <==> x in rank && rank[x] == k))
    && (forall x :: x in rank ==> 0 <= rank[x] < |groups|)
    && (forall k :: 0 <= k < |groups| ==> Distinct(groups[k]) && groups[k] != [])
    && Descends(known, rank)
    && (forall x :: x in rank && rank[x] > 0 ==> JustAfter(known, rank, x))
  }

  /** `x` had to wait for its group: some dependency is in the group right before. */
  ghost predicate JustAfter(known: set<(Name, Name)>, rank: map<Name, int>, x: Name)
  {
    exists e :: e in known && e.0 == x && x in rank && e.1 in rank && rank[e.1] == rank[x] - 1
  }

  ghost predicate Ready(known: set<(Name, Name)>, remaining: set<Name>, x: Name)
  {
    x in remaining && forall e :: e in known && e.0 == x ==> e.1 !in remaining
  }

  /** No name still waiting is ready for the groups already built; the last of them made the rest ready. */
  ghost predicate NotYetBefore(known: set<(Name, Name)>, remaining: set<Name>, groups: seq<seq<Name>>, rank: map<Name, int>)
  {
    groups != [] ==> forall x :: Ready(known, remaining, x) ==>
                       exists e :: e in known && e.0 == x && e.1 in rank && rank[e.1] == |groups| - 1
  }

  lemma PeelGroup(packages: set<Name>, known: set<(Name, Name)>, remaining: set<Name>, groups: seq<seq<Name>>,
                  rank: map<Name, int>, group: seq<Name>, rank': map<Name, int>)
    requires EdgesWithin(known, packages)
    requires Peeled(packages, known, remaining, groups, rank)
    requires NotYetBefore(known, remaining, groups, rank)
    requires Distinct(group) && group != [] && forall x :: x in group <==> Ready(known, remaining, x)
    requires rank' == rank + (map x | x in group :: |groups|)
    ensures Peeled(packages, known, remaining - Elements(group), groups + [group], rank')
  {
    PeelRank(packages, known, remaining, groups, rank, group, rank');
    PeelJustAfter(known, remaining, groups, rank, group, rank');
    PeelMembers(remaining, groups, rank, group, rank');
    hide Descends, JustAfter, NotYetBefore, Ready;
    assert rank'.Keys == packages - (remaining - Elements(group));
  }

  lemma PeelMembers(remaining: set<Name>, groups: seq<seq<Name>>, rank: map<Name, int>, group: seq<Name>, rank': map<Name, int>)
    requires forall k, x :: 0 <= k < |groups| ==> (x in groups[k] <==> x in rank && rank[x] == k)
    requires forall x :: x in rank ==> 0 <= rank[x] < |groups| && x !in remaining
    requires forall x :: x in group ==> x in remaining
    requires rank' == rank + (map x | x in group :: |groups|)
    ensures forall k, x :: 0 <= k < |groups + [group]| ==> (x in (groups + [group])[k] <==> x in rank' && rank'[x] == k)
    ensures forall x :: x in rank' ==> 0 <= rank'[x] < |groups + [group]|
  {
  }

  lemma PeelRank(packages: set<Name>, known: set<(Name, Name)>, remaining: set<Name>, groups: seq<seq<Name>>,
                 rank: map<Name, int>, group: seq<Name>, rank': map<Name, int>)
    requires EdgesWithin(known, packages)
    requires Peeled(packages, known, remaining, groups, rank)
    requires forall x :: x in group <==> Ready(known, remaining, x)
    requires rank' == rank + (map x | x in group :: |groups|)
    ensures Descends(known, rank')
    ensures forall x :: x in group ==> x in remaining
  {
  }

  lemma PeelJustAfter(known: set<(Name, Name)>, remaining: set<Name>, groups: seq<seq<Name>>,
                      rank: map<Name, int>, group: seq<Name>, rank': map<Name, int>)
    requires NotYetBefore(known, remaining, groups, rank)
    requires forall x :: x in rank && rank[x] > 0 ==> JustAfter(known, rank, x)
    requires forall x :: x in group <==> Ready(known, remaining, x)
    requires forall x :: x in rank ==> x !in remaining
    requires rank' == rank + (map x | x in group :: |groups|)
    ensures forall x :: x in rank' && rank'[x] > 0 ==> JustAfter(known, rank', x)
  {
  }

  lemma PeelNotYet(packages: set<Name>, known: set<(Name, Name)>, remaining: set<Name>, groups: seq<seq<Name>>,
                   rank: map<Name, int>, group: seq<Name>, rank': map<Name, int>)
    requires EdgesWithin(known, packages)
    requires Peeled(packages, known, remaining, groups, rank)
    requires forall x :: x in group <==> Ready(known, remaining, x)
    requires rank' == rank + (map x | x in group :: |groups|)
    ensures NotYetBefore(known, remaining - Elements(group), groups + [group], rank')
  {
  }

  /** What cannot be peeled leads to a cycle; what was peeled does not. */
  lemma PeelEnds(packages: set<Name>, known: set<(Name, Name)>, remaining: set<Name>, groups: seq<seq<Name>>, rank: map<Name, int>)
    requires Peeled(packages, known, remaining, groups, rank)
    requires forall x :: !Ready(known, remaining, x)
    ensures forall x :: x in packages ==> (x in remaining <==> CycleFrom(known, x))
  {
    hide CycleFrom, Descends;
    forall x | x in packages ensures x in remaining <==> CycleFrom(known, x) {
      if x in remaining {
        forall y | y in remaining ensures HasSuccessor(known, remaining, y) {
          assert !Ready(known, remaining, y);
        }
        var c := EndlessHasCycle(known, remaining, x);
        CycleReached(known, c, x);
      } else {
        DescendingHasNoCycle(known, rank, x);
      }
    }
  }

  lemma CycleReached(known: set<(Name, Name)>, c: seq<Name>, x: Name)
    requires IsCycle(known, c) && Reach(known, x, c[0])
    ensures CycleFrom(known, x)
  {
  }

  /** What `suggest_build_groups` promises: groups in build order, holding exactly the packages that no
      cycle blocks. */
  ghost predicate BuildGroups(packages: set<Name>, known: set<(Name, Name)>, groups: seq<seq<Name>>, rank: map<Name, int>)
  {
    && (forall k, x :: 0 <= k < |groups| ==> (x in groups[k] <==> x in rank && rank[x] == k))
    && (forall k :: 0 <= k < |groups| ==> Distinct(groups[k]))
    && (forall x :: x in rank ==> 0 <= rank[x] < |groups|)
    && (forall x :: x in rank <==> x in packages && !CycleFrom(known, x))
    && Descends(known, rank)
    && (forall x :: x in rank && rank[x] > 0 ==> JustAfter(known, rank, x))
  }

  method ReadyPackages(packages: set<Name>, graph: map<Name, set<Name>>, remaining: set<Name>) returns (group: seq<Name>)
    requires remaining <= packages
    ensures Distinct(group)
    ensures forall x :: x in group <==> Ready(KnownEdges(packages, graph), remaining, x)
  {
    group := [];
    ghost var known := KnownEdges(packages, graph);
    var rest := remaining;
    while rest != {}
      invariant rest <= remaining
      invariant Distinct(group)
      invariant forall x :: x in group <==> x in remaining - rest && Ready(known, remaining, x)
      decreases rest
    {
      var package :| package in rest;
      rest := rest - {package};
      var deps := if package in graph then graph[package] else {};
      assert deps * remaining == {} <==> Ready(known, remaining, package) by {
        ReadyByDeps(packages, graph, remaining, package, deps);
      }
      if deps * remaining == {} {
        group := group + [package];
      }
    }
  }

  lemma ReadyByDeps(packages: set<Name>, graph: map<Name, set<Name>>, remaining: set<Name>, package: Name, deps: set<Name>)
    requires remaining <= packages && package in remaining
    requires deps == if package in graph then graph[package] else {}
    ensures deps * remaining == {} <==> Ready(KnownEdges(packages, graph), remaining, package)
  {
    var known := KnownEdges(packages, graph);
    if d :| d in deps * remaining {
      var e := (package, d);
      assert e in known && e.0 == package && e.1 in remaining;
    } else {
      forall e | e in known && e.0 == package ensures e.1 !in remaining {
        assert e.1 in deps && e.1 !in deps * remaining;
      }
      assert deps * remaining == {};
    }
  }

  /** The loop of `suggest_build_groups`. */
  method PeelIntoGroups(packages: set<Name>, graph: map<Name, set<Name>>) returns (groups: seq<seq<Name>>)
    requires graph.Keys <= packages
    ensures exists rank: map<Name, int> :: BuildGroups(packages, KnownEdges(packages, graph), groups, rank)
  {
    ghost var known := KnownEdges(packages, graph);
    assert EdgesWithin(known, packages);
    hide KnownEdges, EdgesWithin, CycleFrom, Descends, JustAfter, Ready, NotYetBefore, Distinct;
    groups := [];
    ghost var rank := map[];
    var remaining := packages;
    assert Peeled(packages, known, remaining, groups, rank) by { PeelStart(packages, known); }
    assert NotYetBefore(known, remaining, groups, rank) by { NotYetStart(known, remaining, rank); }
    hide Peeled;
    while remaining != {}
      invariant remaining <= packages
      invariant Peeled(packages, known, remaining, groups, rank)
      invariant NotYetBefore(known, remaining, groups, rank)
      decreases remaining
    {
      var current := ReadyPackages(packages, graph, remaining);
      if current == [] {
        break;
      }
      assert current[0] in current;
      assert Ready(known, remaining, current[0]);
      ReadyRemains(known, remaining, current[0]);
      ghost var rank0 := rank;
      rank := rank + (map x | x in current :: |groups|);
      PeelGroup(packages, known, remaining, groups, rank0, current, rank);
      PeelNotYet(packages, known, remaining, groups, rank0, current, rank);
      groups := groups + [current];
      remaining := remaining - Elements(current);
    }
    assert forall x :: !Ready(known, remaining, x) by {
      forall x ensures !Ready(known, remaining, x) {
        if Ready(known, remaining, x) { ReadyRemains(known, remaining, x); }
      }
    }
    PeelEnds(packages, known, remaining, groups, rank);
    PeelConclude(packages, known, remaining, groups, rank);
  }

  lemma ReadyRemains(known: set<(Name, Name)>, remaining: set<Name>, x: Name)
    requires Ready(known, remaining, x)
    ensures x in remaining
  {
  }

  lemma PeelStart(packages: set<Name>, known: set<(Name, Name)>)
    ensures Peeled(packages, known, packages, [], map[])
  {
  }

  lemma NotYetStart(known: set<(Name, Name)>, remaining: set<Name>, rank: map<Name, int>)
    ensures NotYetBefore(known, remaining, [], rank)
  {
  }

  lemma PeelConclude(packages: set<Name>, known: set<(Name, Name)>, remaining: set<Name>, groups: seq<seq<Name>>, rank: map<Name, int>)
    requires Peeled(packages, known, remaining, groups, rank)
    requires forall x :: x in packages ==> (x in remaining <==> CycleFrom(known, x))
    ensures BuildGroups(packages, known, groups, rank)
  {
  }

  // ----- the resolver object

  class DependencyResolver {
    var packages: set<Name>
    var graph: map<Name, set<Name>>
    var reverseGraph: map<Name, set<Name>>

    /** Only added packages have dependencies, and the two graphs mirror each other. */
    ghost predicate Valid()
      reads this
    {
      && graph.Keys <= packages
      && (forall a, b :: Has(graph, a, b) <==> Has(reverseGraph, b, a))
    }

    ghost function Known(): set<(Name, Name)>
      reads this
    {
      KnownEdges(packages, graph)
    }

    constructor ()
      ensures Valid() && packages == {} && graph == map[]
    {
      packages, graph, reverseGraph := {}, map[], map[];
    }

    /** `add_package`: the dependencies are the names in the given specifications. */
    method AddPackage(name: Name, dependencies: seq<string>)
      requires Valid()
      modifies this
      ensures Valid()
      ensures packages == old(packages) + {name}
      ensures forall a, b :: Has(graph, a, b) <==> Has(old(graph), a, b) || (a == name && NamedIn(dependencies, b))
    {
      hide Has, NamedIn, Trim, Cut;
      packages := packages + {name};
      assert forall b :: !NamedIn(dependencies[..0], b) by { NamedNone(); }
      for i := 0 to |dependencies|
        invariant Valid()
        invariant packages == old(packages) + {name}
        invariant forall a, b :: Has(graph, a, b) <==> Has(old(graph), a, b) || (a == name && NamedIn(dependencies[..i], b))
      {
        var dep := StripVersion(dependencies[i]);
        ghost var g, r := graph, reverseGraph;
        HasAdd(graph, name, dep);
        HasAdd(reverseGraph, dep, name);
        graph := graph[name := Get(graph, name) + {dep}];
        reverseGraph := reverseGraph[dep := Get(reverseGraph, dep) + {name}];
        forall a, b ensures Has(graph, a, b) <==> Has(reverseGraph, b, a) {
          assert Has(g, a, b) <==> Has(r, b, a);
        }
        NamedNext(dependencies, i);
        forall a, b ensures Has(graph, a, b) <==> Has(old(graph), a, b) || (a == name && NamedIn(dependencies[..i + 1], b)) {
          assert Has(graph, a, b) <==> Has(g, a, b) || (a == name && b == dep);
          assert NamedIn(dependencies[..i + 1], b) <==> NamedIn(dependencies[..i], b) || b == dep;
        }
      }
      assert dependencies[..|dependencies|] == dependencies;
    }

    /** `resolve` */
    method Resolve(packageName: Name) returns (r: Option<seq<Name>>)
      requires Valid()
      ensures r.None? <==> packageName !in packages || CycleFrom(Known(), packageName)
      ensures r.Some? ==> DepsFirst(Known(), r.value)
      ensures r.Some? ==> forall x :: x in r.value <==> Reach(Known(), packageName, x)
      ensures r.Some? ==> r.value != [] && r.value[|r.value| - 1] == packageName
    {
      hide Reach, CycleFrom, KnownEdges, DepsFirst;
      if packageName !in packages {
        return None;
      }
      var t := new Traversal(packages, graph);
      var ok := t.Dfs(packageName);
      if !ok {
        return None;
      }
      OrderedIsSafe(Known(), t.order, packageName);
      return Some(t.order);
    }

    /** `get_build_order` */
    method GetBuildOrder(wanted: seq<Name>) returns (r: Option<seq<Name>>)
      requires Valid()
      ensures r.None? <==> exists p :: p in wanted && CycleFrom(Known(), p)
      ensures r.Some? ==> DepsFirst(Known(), r.value)
      ensures r.Some? ==> forall x :: x in r.value <==> exists p :: p in wanted && Reach(Known(), p, x)
    {
      hide Reach, CycleFrom, KnownEdges, DepsFirst;
      var t := new Traversal(packages, graph);
      for i := 0 to |wanted|
        invariant t.packages == packages && t.graph == graph && t.known == Known()
        invariant t.Valid() && t.visiting == {}
        invariant forall j :: 0 <= j < i ==> wanted[j] in t.order
        invariant forall x :: x in t.order ==> exists p :: p in wanted && Reach(Known(), p, x)
      {
        if wanted[i] !in t.visited {
          var ok := t.Dfs(wanted[i]);
          if !ok {
            assert wanted[i] in wanted;
            return None;
          }
        }
      }
      forall p | p in wanted ensures !CycleFrom(Known(), p) && p in t.order
                                  && forall x :: Reach(Known(), p, x) ==> x in t.order {
        var j :| 0 <= j < |wanted| && wanted[j] == p;
        OrderedIsSafe(Known(), t.order, p);
      }
      return Some(t.order);
    }

    /** `find_cycles` */
    method FindCycles() returns (cycles: seq<seq<Name>>)
      requires Valid()
      ensures forall c :: c in cycles ==> ClosesOnItself(Known(), c)
      ensures forall c :: IsCycle(Known(), c) ==> Excused(Known(), cycles, c[0])
      ensures cycles != [] <==> Cyclic(Known())
    {
      hide ClosesOnItself, KnownEdges, Clean, Cyclic, Reach, Excused, IsCycle, Outside;
      cycles := [];
      var search := new CycleSearch(packages, graph);
      ghost var base: set<Name> := {};
      StartClean(Outside(Known(), base));
      assert search.visited - base == {};
      var rest := packages;
      while rest != {}
        invariant rest <= packages
        invariant search.packages == packages && search.graph == graph && search.known == Known()
        invariant search.Valid() && search.path == [] && base <= search.visited
        invariant forall x :: x in packages - rest ==> x in search.visited
        invariant forall c :: c in cycles ==> ClosesOnItself(Known(), c)
        invariant Clean(Outside(Known(), base), search.visited - base, search.path, search.finished)
        invariant forall x :: x in base ==> Excused(Known(), cycles, x)
        decreases rest
      {
        var package :| package in rest;
        rest := rest - {package};
        if package !in search.visited {
          ghost var visited0, finished0 := search.visited, search.finished;
          var found := search.FindCycleDfs(package, base);
          if found {
            ghost var gained := search.visited - visited0;
            HitExcuses(Known(), cycles, search.path, package, base, gained);
            cycles := cycles + [search.path];
            search.path := [];
            GrowBase(Known(), visited0, finished0, base, gained);
            assert search.visited - (base + gained) == visited0 - base;
            base := base + gained;
            search.finished := finished0;
          }
        }
      }
      EveryCycleExcused(packages, graph, cycles, base, search.visited, search.finished);
      if cycles != [] {
        assert cycles[0] in cycles;
        ClosedIsCyclic(Known(), cycles[0]);
      }
    }

    /** `suggest_build_groups` */
    method SuggestBuildGroups() returns (groups: seq<seq<Name>>)
      requires Valid()
      ensures exists rank: map<Name, int> :: BuildGroups(packages, Known(), groups, rank)
    {
      groups := PeelIntoGroups(packages, graph);
      ghost var rank :| BuildGroups(packages, KnownEdges(packages, graph), groups, rank);
      assert BuildGroups(packages, Known(), groups, rank);
    }

    /** `get_all_dependencies`: known or not, everything a chain of dependencies leads to. */
    method GetAllDependencies(packageName: Name) returns (all: set<Name>)
      ensures forall y :: y in all <==> ReachPlus(AllEdges(graph), packageName, y)
    {
      all := Closure(AllEdges(graph), packageName);
    }
  }

  /** `k`'s set in the dictionary holds `x`. */
  ghost predicate Has(m: map<Name, set<Name>>, k: Name, x: Name)
  {
    k in m && x in m[k]
  }

  /** Some specification names `b`. */
  ghost predicate NamedIn(specs: seq<string>, b: Name)
  {
    exists i :: 0 <= i < |specs| && b == Trim(specs[i][..Cut(specs[i], Operators())])
  }

  lemma NamedNone()
    ensures forall b :: !NamedIn([], b)
  {
  }

  lemma NamedNext(specs: seq<string>, n: nat)
    requires n < |specs|
    ensures forall b :: NamedIn(specs[..n + 1], b) <==>
                        NamedIn(specs[..n], b) || b == Trim(specs[n][..Cut(specs[n], Operators())])
  {
    hide Trim, Cut;
    forall b ensures NamedIn(specs[..n + 1], b) <==>
                     NamedIn(specs[..n], b) || b == Trim(specs[n][..Cut(specs[n], Operators())]) {
      if NamedIn(specs[..n], b) {
        var i :| 0 <= i < n && b == Trim(specs[..n][i][..Cut(specs[..n][i], Operators())]);
        assert specs[..n + 1][i] == specs[..n][i];
      }
      if NamedIn(specs[..n + 1], b) {
        var i :| 0 <= i < n + 1 && b == Trim(specs[..n + 1][i][..Cut(specs[..n + 1][i], Operators())]);
        if i < n { assert specs[..n][i] == specs[..n + 1][i]; }
      }
      assert specs[..n + 1][n] == specs[n];
    }
  }

  lemma HasAdd(m: map<Name, set<Name>>, k: Name, x: Name)
    ensures forall a, b :: Has(m[k := Get(m, k) + {x}], a, b) <==> Has(m, a, b) || (a == k && b == x)
  {
    var m' := m[k := Get(m, k) + {x}];
    forall a, b ensures Has(m', a, b) <==> Has(m, a, b) || (a == k && b == x) {
      if a == k { assert m'[k] == Get(m, k) + {x}; }
    }
  }

  function Get(m: map<Name, set<Name>>, k: Name): set<Name>
  {
    if k in m then m[k] else {}
  }

  function AllEdges(graph: map<Name, set<Name>>): set<(Name, Name)>
  {
    set a, b | a in graph && b in graph[a] :: (a, b)
  }

  lemma ClosedIsCyclic(edges: set<(Name, Name)>, path: seq<Name>)
    requires ClosesOnItself(edges, path)
    ensures Cyclic(edges)
  {
  }

  /** Some package reaches `x` and also a reported cycle. */
  ghost predicate Excused(known: set<(Name, Name)>, cycles: seq<seq<Name>>, x: Name)
  {
    exists s, r :: r in cycles && r != [] && Reach(known, s, x) && Reach(known, s, r[0])
  }

  lemma StartClean(edges: set<(Name, Name)>)
    ensures Clean(edges, {}, [], [])
  {
  }

  /** What a search that finds a cycle visits is excused by that cycle, and what was excused before still is. */
  lemma HitExcuses(known: set<(Name, Name)>, cycles: seq<seq<Name>>, path: seq<Name>, s: Name, base: set<Name>, gained: set<Name>)
    requires ClosesOnItself(known, path) && Elements(path) <= gained
    requires forall x :: x in gained ==> Reach(known, s, x)
    requires forall x :: x in base ==> Excused(known, cycles, x)
    ensures forall x :: x in base + gained ==> Excused(known, cycles + [path], x)
  {
    hide Reach;
    assert path[0] in Elements(path);
    forall x | x in base + gained ensures Excused(known, cycles + [path], x) {
      if x in base {
        var s, r :| r in cycles && r != [] && Reach(known, s, x) && Reach(known, s, r[0]);
        assert r in cycles + [path];
      } else {
        assert path in cycles + [path];
      }
    }
  }

  lemma GrowBase(known: set<(Name, Name)>, visited: set<Name>, finished: seq<Name>, base: set<Name>, gained: set<Name>)
    requires Clean(Outside(known, base), visited - base, [], finished)
    ensures Clean(Outside(known, base + gained), visited - base, [], finished)
  {
    forall k | 0 <= k < |finished| ensures DepsWithin(Outside(known, base + gained), finished, k, finished[k]) {
      assert DepsWithin(Outside(known, base), finished, k, finished[k]);
    }
  }

  /** When all packages are visited, every cycle passes through a name of a search that found one; if there was no such
      search the known graph is acyclic. */
  lemma CycleMeetsBase(packages: set<Name>, graph: map<Name, set<Name>>, base: set<Name>, visited: set<Name>,
                       finished: seq<Name>, c: seq<Name>)
    requires graph.Keys <= packages <= visited
    requires Clean(Outside(KnownEdges(packages, graph), base), visited - base, [], finished)
    requires IsCycle(KnownEdges(packages, graph), c)
    ensures exists i :: 0 <= i < |c| && c[i] in base
  {
    var known := KnownEdges(packages, graph);
    var edges := Outside(known, base);
    assert Joined(known, c, 0);
    if forall i :: 0 <= i < |c| ==> c[i] !in base {
      forall i | 0 <= i < |c| - 1 ensures Joined(edges, c, i) { assert Joined(known, c, i); }
      assert IsCycle(edges, c);
      CleanFinished(edges, visited - base, [], finished, c[0]);
      ReachSelf(edges, c[0]);
      OrderedIsSafe(edges, finished, c[0]);
    }
  }

  lemma ExcusedAlong(known: set<(Name, Name)>, cycles: seq<seq<Name>>, c: seq<Name>, i: nat)
    requires IsCycle(known, c) && i < |c| && Excused(known, cycles, c[i])
    ensures Excused(known, cycles, c[0])
  {
    var s, r :| r in cycles && r != [] && Reach(known, s, c[i]) && Reach(known, s, r[0]);
    WalkSlice(known, c, i, |c| - 1);
    assert WalkFromTo(known, c[i..|c| - 1 + 1], c[i], c[0]);
    ReachTransitive(known, s, c[i], c[0]);
  }

  lemma EveryCycleExcused(packages: set<Name>, graph: map<Name, set<Name>>, cycles: seq<seq<Name>>, base: set<Name>,
                          visited: set<Name>, finished: seq<Name>)
    requires graph.Keys <= packages <= visited
    requires Clean(Outside(KnownEdges(packages, graph), base), visited - base, [], finished)
    requires forall x :: x in base ==> Excused(KnownEdges(packages, graph), cycles, x)
    ensures forall c :: IsCycle(KnownEdges(packages, graph), c) ==> Excused(KnownEdges(packages, graph), cycles, c[0])
    ensures Cyclic(KnownEdges(packages, graph)) ==> cycles != []
  {
    hide Clean, KnownEdges;
    var known := KnownEdges(packages, graph);
    forall c | IsCycle(known, c) ensures Excused(known, cycles, c[0]) && cycles != [] {
      CycleMeetsBase(packages, graph, base, visited, finished, c);
      var i :| 0 <= i < |c| && c[i] in base;
      ExcusedAlong(known, cycles, c, i);
    }
  }
}
