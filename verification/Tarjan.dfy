/**
 Strongly connected components of the build-dependency graph, found by Tarjan's algorithm.
 The search is an object whose fields are updated step by step; `View` gives their joint
 value, and the invariants and proof steps below are about such values.
 */
module Tarjan {
  import opened Names
  import opened Graphs

  datatype State = State(
    counter: nat,
    stack: seq<Name>,
    index: map<Name, nat>,
    onStack: set<Name>,
    sccs: seq<seq<Name>>)

  // ----- what the finished list of groups promises

  /** `x` lies in one of the first `n` groups. */
  ghost predicate InFirst(sccs: seq<seq<Name>>, n: int, x: Name)
  {
    exists i :: 0 <= i < n && i < |sccs| && x in sccs[i]
  }

  ghost predicate Done(sccs: seq<seq<Name>>, x: Name)
  {
    InFirst(sccs, |sccs|, x)
  }

  /** A group holds exactly the names mutually reachable with any one of its members. */
  ghost predicate IsComponent(edges: set<(Name, Name)>, group: seq<Name>)
  {
    && group != []
    && Ascending(group)
    && forall x, z :: x in group ==> (z in group <==> Mutual(edges, x, z))
  }

  ghost predicate AllComponents(edges: set<(Name, Name)>, sccs: seq<seq<Name>>)
  {
    forall i :: 0 <= i < |sccs| ==> IsComponent(edges, sccs[i])
  }

  ghost predicate GroupsDisjoint(sccs: seq<seq<Name>>)
  {
    forall i, j, x :: 0 <= i < j < |sccs| && x in sccs[i] ==> x !in sccs[j]
  }

  /** Every dependency of a group's member lies in that group or in one emitted earlier. */
  ghost predicate DependenciesFirst(edges: set<(Name, Name)>, sccs: seq<seq<Name>>)
  {
    forall e, i :: e in edges && 0 <= i < |sccs| && e.0 in sccs[i] ==> InFirst(sccs, i + 1, e.1)
  }

  // ----- what the search keeps at every step

  ghost predicate Shape(nodes: set<Name>, s: State, gray: set<Name>)
  {
    && s.index.Keys <= nodes
    && s.onStack == Elements(s.stack)
    && gray <= s.onStack <= s.index.Keys
    && (forall i, j :: 0 <= i < j < |s.stack| ==> s.index[s.stack[i]] < s.index[s.stack[j]])
    && (forall x :: x in s.index ==> s.index[x] < s.counter)
    && (forall x :: x in s.index ==> x in s.onStack || Done(s.sccs, x))
    && (forall x :: Done(s.sccs, x) ==> x in s.index && x !in s.onStack)
  }

  /** A visited name whose own loop is over has only visited dependencies. */
  ghost predicate NoneMissed(edges: set<(Name, Name)>, s: State, gray: set<Name>)
  {
    forall e :: e in edges && e.0 in s.index && e.0 !in gray ==> e.1 in s.index
  }

  ghost predicate HasGrayBelow(edges: set<(Name, Name)>, s: State, gray: set<Name>, y: Name)
    requires gray <= s.index.Keys && y in s.index
  {
    exists g :: g in gray && s.index[g] <= s.index[y] && Reach(edges, y, g)
  }

  ghost predicate BackToGray(edges: set<(Name, Name)>, s: State, gray: set<Name>)
    requires gray <= s.index.Keys && s.onStack <= s.index.Keys
  {
    forall y {:trigger HasGrayBelow(edges, s, gray, y)} :: y in s.onStack ==> HasGrayBelow(edges, s, gray, y)
  }

  ghost predicate OlderReachNewer(edges: set<(Name, Name)>, s: State)
    requires s.onStack <= s.index.Keys
  {
    forall x, y :: x in s.onStack && y in s.onStack && s.index[x] <= s.index[y] ==> Reach(edges, x, y)
  }

  ghost predicate Inv(nodes: set<Name>, edges: set<(Name, Name)>, s: State, gray: set<Name>)
  {
    && Shape(nodes, s, gray)
    && NoneMissed(edges, s, gray)
    && BackToGray(edges, s, gray)
    && OlderReachNewer(edges, s)
    && AllComponents(edges, s.sccs)
    && GroupsDisjoint(s.sccs)
    && DependenciesFirst(edges, s.sccs)
  }

  /** Later states keep every number, every finished group and the older part of the stack. */
  ghost predicate Extends(s: State, t: State)
  {
    && s.counter <= t.counter
    && (forall x :: x in s.index ==> x in t.index && t.index[x] == s.index[x])
    && s.stack <= t.stack
    && s.sccs <= t.sccs
  }

  /** `low` bounds every edge from the names pushed since `s` back into the stack of `s`,
      leaving aside the edges of `v` to `pending`. */
  ghost predicate LowBound(edges: set<(Name, Name)>, s: State, t: State, low: nat, v: Name, pending: set<Name>)
  {
    forall e :: e in edges && e.0 in t.onStack && e.0 !in s.onStack && e.1 in s.onStack && e.1 in t.index
                && !(e.0 == v && e.1 in pending)
                ==> low <= t.index[e.1]
  }

  /** `low` is the number of some name on the stack that `v` reaches. */
  ghost predicate LowHit(edges: set<(Name, Name)>, t: State, low: nat, v: Name)
  {
    exists y :: y in t.onStack && y in t.index && t.index[y] == low && Reach(edges, v, y)
  }

  ghost function Pushed(s: State, v: Name): (t: State)
  {
    State(s.counter + 1, s.stack + [v], s.index[v := s.counter], s.onStack + {v}, s.sccs)
  }

  lemma PushShape(nodes: set<Name>, s: State, gray: set<Name>, v: Name)
    requires Shape(nodes, s, gray)
    requires v in nodes && v !in s.index
    ensures Shape(nodes, Pushed(s, v), gray + {v})
    ensures Extends(s, Pushed(s, v))
  {
  }

  lemma PushReach(edges: set<(Name, Name)>, s: State, gray: set<Name>, v: Name)
    requires gray <= s.onStack <= s.index.Keys && v !in s.index
    requires forall x :: x in s.index ==> s.index[x] < s.counter
    requires BackToGray(edges, s, gray) && OlderReachNewer(edges, s)
    requires forall g :: g in gray ==> Reach(edges, g, v)
    ensures BackToGray(edges, Pushed(s, v), gray + {v}) && OlderReachNewer(edges, Pushed(s, v))
  {
    var t := Pushed(s, v);
    ReachSelf(edges, v);
    forall y | y in t.onStack ensures HasGrayBelow(edges, t, gray + {v}, y) {
      if y == v {
        assert v in gray + {v};
      } else {
        assert HasGrayBelow(edges, s, gray, y);
        var g :| g in gray && s.index[g] <= s.index[y] && Reach(edges, y, g);
        assert g in gray + {v};
      }
    }
    forall x | x in s.onStack ensures Reach(edges, x, v) {
      assert HasGrayBelow(edges, s, gray, x);
      var g :| g in gray && s.index[g] <= s.index[x] && Reach(edges, x, g);
      ReachTransitive(edges, x, g, v);
    }
  }

  lemma PushKeepsInv(nodes: set<Name>, edges: set<(Name, Name)>, s: State, gray: set<Name>, v: Name)
    requires Inv(nodes, edges, s, gray)
    requires v in nodes && v !in s.index
    requires forall g :: g in gray ==> Reach(edges, g, v)
    ensures Inv(nodes, edges, Pushed(s, v), gray + {v})
    ensures Extends(s, Pushed(s, v))
  {
    PushShape(nodes, s, gray, v);
    PushReach(edges, s, gray, v);
  }

  /** Finishing `v` when it reaches an older name on the stack: `v` stays on the stack. */
  lemma RetreatKeepsBack(edges: set<(Name, Name)>, s: State, gray: set<Name>, v: Name, low: nat)
    requires gray + {v} <= s.onStack <= s.index.Keys
    requires BackToGray(edges, s, gray + {v})
    requires LowHit(edges, s, low, v) && low < s.index[v]
    ensures BackToGray(edges, s, gray)
  {
    var y :| y in s.onStack && s.index[y] == low && Reach(edges, v, y);
    assert HasGrayBelow(edges, s, gray + {v}, y);
    var g :| g in gray + {v} && s.index[g] <= s.index[y] && Reach(edges, y, g);
    assert g in gray;
    ReachTransitive(edges, v, y, g);
    forall x | x in s.onStack ensures HasGrayBelow(edges, s, gray, x) {
      assert HasGrayBelow(edges, s, gray + {v}, x);
      var h :| h in gray + {v} && s.index[h] <= s.index[x] && Reach(edges, x, h);
      if h !in gray {
        ReachTransitive(edges, x, v, g);
        assert g in gray && s.index[g] <= s.index[x];
      }
    }
  }

  // ----- closing a component

  /** The loop over `v`'s dependencies is over and nothing on the stack from `v` up, which starts at
      position `k`, has an edge to the older part of the stack. */
  ghost predicate Closed(nodes: set<Name>, edges: set<(Name, Name)>, s: State, gray: set<Name>, k: int)
  {
    && 0 <= k < |s.stack|
    && var v := s.stack[k];
    && Inv(nodes, edges, s, gray + {v})
    && (forall e :: e in edges && e.0 == v ==> e.1 in s.index)
    && (forall g :: g in gray ==> g in s.stack[..k])
    && (forall e :: e in edges && e.0 in s.stack[k..] ==> e.1 !in s.stack[..k])
  }

  lemma StackSplit(s: State, k: int)
    requires 0 <= k < |s.stack| && s.onStack == Elements(s.stack) <= s.index.Keys
    requires forall i, j :: 0 <= i < j < |s.stack| ==> s.index[s.stack[i]] < s.index[s.stack[j]]
    ensures forall x :: x in s.onStack <==> x in s.stack[..k] || x in s.stack[k..]
    ensures forall x :: x in s.stack[..k] ==> s.index[x] < s.index[s.stack[k]]
    ensures forall x :: x in s.stack[k..] ==> s.index[s.stack[k]] <= s.index[x]
  {
  }

  /** A name mutually reachable with a finished one is itself finished. */
  lemma FinishedAbsorbs(edges: set<(Name, Name)>, sccs: seq<seq<Name>>, b: Name, x: Name)
    requires AllComponents(edges, sccs) && Done(sccs, b) && Mutual(edges, b, x)
    ensures Done(sccs, x)
  {
  }

  lemma EscapeIsDone(nodes: set<Name>, edges: set<(Name, Name)>, s: State, gray: set<Name>, k: int, a: Name, b: Name)
    requires Closed(nodes, edges, s, gray, k)
    requires (a, b) in edges && a in s.stack[k..] && b !in s.stack[k..]
    ensures Done(s.sccs, b)
  {
  }

  lemma PoppedReachTop(nodes: set<Name>, edges: set<(Name, Name)>, s: State, gray: set<Name>, k: int, y: Name)
    requires Closed(nodes, edges, s, gray, k) && y in s.stack[k..]
    ensures Mutual(edges, s.stack[k], y)
  {
    var v := s.stack[k];
    StackSplit(s, k);
    assert HasGrayBelow(edges, s, gray + {v}, y);
    var g :| g in gray + {v} && s.index[g] <= s.index[y] && Reach(edges, y, g);
    if g != v {
      var a, b := Crossing(edges, Elements(s.stack[k..]), y, g);
      EscapeIsDone(nodes, edges, s, gray, k, a, b);
      ReachTransitive(edges, g, v, a);
      ReachEdge(edges, a, b);
      ReachTransitive(edges, g, a, b);
      FinishedAbsorbs(edges, s.sccs, b, g);
      assert false;
    }
  }

  lemma PoppedMutual(nodes: set<Name>, edges: set<(Name, Name)>, s: State, gray: set<Name>, k: int, x: Name, z: Name)
    requires Closed(nodes, edges, s, gray, k) && x in s.stack[k..]
    ensures z in s.stack[k..] <==> Mutual(edges, x, z)
  {
    var v := s.stack[k];
    PoppedReachTop(nodes, edges, s, gray, k, x);
    if z in s.stack[k..] {
      PoppedReachTop(nodes, edges, s, gray, k, z);
      ReachTransitive(edges, x, v, z);
      ReachTransitive(edges, z, v, x);
    } else if Mutual(edges, x, z) {
      var a, b := Crossing(edges, Elements(s.stack[k..]), x, z);
      EscapeIsDone(nodes, edges, s, gray, k, a, b);
      PoppedReachTop(nodes, edges, s, gray, k, a);
      ReachEdge(edges, a, b);
      ReachTransitive(edges, x, v, a);
      ReachTransitive(edges, x, a, b);
      ReachTransitive(edges, b, z, x);
      FinishedAbsorbs(edges, s.sccs, b, x);
      StackSplit(s, k);
      assert false;
    }
  }

  ghost function Popped(s: State, k: int): State
    requires 0 <= k < |s.stack|
  {
    var group := Elements(s.stack[k..]);
    State(s.counter, s.stack[..k], s.index, s.onStack - group, s.sccs + [Sorted(group)])
  }

  lemma PopShape(nodes: set<Name>, edges: set<(Name, Name)>, s: State, gray: set<Name>, k: int)
    requires Closed(nodes, edges, s, gray, k)
    ensures Shape(nodes, Popped(s, k), gray)
  {
    var t := Popped(s, k);
    StackSplit(s, k);
    AppendDone(s.sccs, Sorted(Elements(s.stack[k..])));
  }

  lemma AppendDone(sccs: seq<seq<Name>>, group: seq<Name>)
    ensures forall x :: Done(sccs + [group], x) <==> Done(sccs, x) || x in group
    ensures forall i, x :: 0 <= i <= |sccs| && InFirst(sccs, i, x) ==> InFirst(sccs + [group], i, x)
  {
    var t := sccs + [group];
    forall i, x | 0 <= i <= |sccs| && InFirst(sccs, i, x) ensures InFirst(t, i, x) {
      var j :| 0 <= j < i && j < |sccs| && x in sccs[j];
      assert t[j] == sccs[j];
    }
    forall x ensures Done(t, x) <==> Done(sccs, x) || x in group {
      if x in group { assert t[|sccs|] == group; }
      if Done(sccs, x) {
        var j :| 0 <= j < |sccs| && x in sccs[j];
        assert t[j] == sccs[j];
      }
    }
  }

  lemma PopGroups(nodes: set<Name>, edges: set<(Name, Name)>, s: State, gray: set<Name>, k: int)
    requires Closed(nodes, edges, s, gray, k)
    ensures AllComponents(edges, Popped(s, k).sccs)
  {
    var group := Sorted(Elements(s.stack[k..]));
    assert s.stack[k] in group by { assert s.stack[k] == s.stack[k..][0]; }
    forall x, z | x in group ensures z in group <==> Mutual(edges, x, z) {
      PoppedMutual(nodes, edges, s, gray, k, x, z);
    }
    assert IsComponent(edges, group);
  }

  lemma PopOrder(nodes: set<Name>, edges: set<(Name, Name)>, s: State, gray: set<Name>, k: int)
    requires Closed(nodes, edges, s, gray, k)
    ensures DependenciesFirst(edges, Popped(s, k).sccs)
  {
    var group := Sorted(Elements(s.stack[k..]));
    var t := s.sccs + [group];
    AppendDone(s.sccs, group);
    forall e, i | e in edges && 0 <= i < |t| && e.0 in t[i] ensures InFirst(t, i + 1, e.1) {
      if i < |s.sccs| {
        assert InFirst(s.sccs, i + 1, e.1);
      } else {
        if e.1 !in s.stack[k..] {
          EscapeIsDone(nodes, edges, s, gray, k, e.0, e.1);
          assert InFirst(t, |s.sccs|, e.1);
        } else {
          assert e.1 in t[i];
        }
      }
    }
  }

  lemma PopBack(nodes: set<Name>, edges: set<(Name, Name)>, s: State, gray: set<Name>, k: int)
    requires Closed(nodes, edges, s, gray, k)
    requires gray <= Popped(s, k).onStack
    ensures BackToGray(edges, Popped(s, k), gray)
  {
    var v := s.stack[k];
    var t := Popped(s, k);
    StackSplit(s, k);
    forall y | y in t.onStack ensures HasGrayBelow(edges, t, gray, y) {
      assert HasGrayBelow(edges, s, gray + {v}, y);
      var g :| g in gray + {v} && s.index[g] <= s.index[y] && Reach(edges, y, g);
      assert g in gray;
    }
  }

  /** Emitting everything from `v` up as one group restores the invariant without `v`. */
  lemma PopKeepsInv(nodes: set<Name>, edges: set<(Name, Name)>, s: State, gray: set<Name>, k: int)
    requires Closed(nodes, edges, s, gray, k)
    ensures Inv(nodes, edges, Popped(s, k), gray)
  {
    PopShape(nodes, edges, s, gray, k);
    PopGroups(nodes, edges, s, gray, k);
    PopOrder(nodes, edges, s, gray, k);
    PopBack(nodes, edges, s, gray, k);
    PopDisjoint(nodes, edges, s, gray, k);
    assert NoneMissed(edges, Popped(s, k), gray);
  }

  lemma PopDisjoint(nodes: set<Name>, edges: set<(Name, Name)>, s: State, gray: set<Name>, k: int)
    requires Closed(nodes, edges, s, gray, k)
    ensures GroupsDisjoint(Popped(s, k).sccs)
  {
    var group := Sorted(Elements(s.stack[k..]));
    var t := s.sccs + [group];
    StackSplit(s, k);
    forall i, j, x | 0 <= i < j < |t| && x in t[i] ensures x !in t[j] {
      if j == |s.sccs| {
        assert x in s.sccs[i];
        assert Done(s.sccs, x);
      } else {
        assert x in s.sccs[i] && t[j] == s.sccs[j];
      }
    }
  }

  // ----- the edges back into the older stack

  lemma LowStep(edges: set<(Name, Name)>, s: State, t: State, u: State, low: nat, low': nat, lower: nat,
                v: Name, pending: set<Name>, w: Name)
    requires Extends(s, t) && Extends(t, u)
    requires s.onStack <= t.onStack && s.onStack <= s.index.Keys
    requires LowBound(edges, s, t, low, v, pending)
    requires LowBound(edges, t, u, low', w, {})
    requires lower <= low && lower <= low'
    requires v in t.onStack
    requires w in t.onStack && w in t.index ==> lower <= t.index[w]
    ensures LowBound(edges, s, u, lower, v, pending - {w})
  {
  }

  /** The state of `v`'s loop, entered at `s0`, with the dependencies in `pending` still to come. */
  ghost predicate Exploring(nodes: set<Name>, edges: set<(Name, Name)>, s0: State, s: State, gray: set<Name>,
                            v: Name, low: nat, pending: set<Name>)
  {
    && Inv(nodes, edges, s, gray + {v})
    && v !in s0.index && gray <= s0.onStack <= s0.index.Keys
    && s0.onStack == Elements(s0.stack)
    && Extends(Pushed(s0, v), s)
    && low <= s.index[v]
    && LowHit(edges, s, low, v)
    && LowBound(edges, s0, s, low, v, pending)
    && (forall e :: e in edges && e.0 == v ==> e.1 in s.index || e.1 in pending)
  }

  lemma ExploreStart(nodes: set<Name>, edges: set<(Name, Name)>, s0: State, gray: set<Name>, v: Name, pending: set<Name>)
    requires Inv(nodes, edges, s0, gray)
    requires v in nodes && v !in s0.index
    requires forall g :: g in gray ==> Reach(edges, g, v)
    requires forall e :: e in edges && e.0 == v ==> e.1 in pending
    ensures Exploring(nodes, edges, s0, Pushed(s0, v), gray, v, s0.counter, pending)
    ensures Inv(nodes, edges, Pushed(s0, v), gray + {v})
  {
    PushKeepsInv(nodes, edges, s0, gray, v);
    ReachSelf(edges, v);
    var t := Pushed(s0, v);
    assert v in t.onStack && t.index[v] == s0.counter;
  }

  lemma PrefixElements(q: seq<Name>, r: seq<Name>)
    requires q <= r
    ensures Elements(q) <= Elements(r)
  {
  }

  /** A dependency that is still on the stack. */
  lemma ExploreStacked(nodes: set<Name>, edges: set<(Name, Name)>, s0: State, s: State, gray: set<Name>,
                       v: Name, low: nat, pending: set<Name>, w: Name, low': nat)
    requires Exploring(nodes, edges, s0, s, gray, v, low, pending)
    requires (v, w) in edges && w in s.onStack
    requires low' == if s.index[w] < low then s.index[w] else low
    ensures Exploring(nodes, edges, s0, s, gray, v, low', pending - {w})
  {
    ReachEdge(edges, v, w);
    assert LowHit(edges, s, low', v);
  }

  /** A dependency whose group is already out. */
  lemma ExploreFinished(nodes: set<Name>, edges: set<(Name, Name)>, s0: State, s: State, gray: set<Name>,
                        v: Name, low: nat, pending: set<Name>, w: Name)
    requires Exploring(nodes, edges, s0, s, gray, v, low, pending)
    requires w in s.index && w !in s.onStack
    ensures Exploring(nodes, edges, s0, s, gray, v, low, pending - {w})
  {
    PrefixElements(s0.stack, s.stack);
  }

  /** What one recursive call promises its caller. */
  ghost predicate Explored(nodes: set<Name>, edges: set<(Name, Name)>, s: State, t: State, gray: set<Name>, w: Name, low: nat)
  {
    && Inv(nodes, edges, t, gray)
    && Extends(s, t)
    && w in t.index && t.index[w] == s.counter
    && low <= t.index[w]
    && (low == t.index[w] ==> t.stack == s.stack)
    && (low < t.index[w] ==> LowHit(edges, s, low, w))
    && LowBound(edges, s, t, low, w, {})
  }

  /** A dependency visited by a recursive call. */
  lemma ExploreChild(nodes: set<Name>, edges: set<(Name, Name)>, s0: State, s: State, t: State, gray: set<Name>,
                     v: Name, low: nat, pending: set<Name>, w: Name, wlow: nat, low': nat)
    requires Exploring(nodes, edges, s0, s, gray, v, low, pending)
    requires (v, w) in edges && w !in s.index
    requires Explored(nodes, edges, s, t, gray + {v}, w, wlow)
    requires low' == if wlow < low then wlow else low
    ensures Exploring(nodes, edges, s0, t, gray, v, low', pending - {w})
  {
    PrefixElements(s0.stack, s.stack);
    PrefixElements(s.stack, t.stack);
    LowStep(edges, s0, s, t, low, wlow, low', v, pending, w);
    ChildHit(edges, s, t, v, low, w, wlow);
  }

  lemma ChildHit(edges: set<(Name, Name)>, s: State, t: State, v: Name, low: nat, w: Name, wlow: nat)
    requires Extends(s, t) && s.onStack <= t.onStack
    requires (v, w) in edges
    requires low < s.counter && LowHit(edges, s, low, v)
    requires w in t.index && t.index[w] == s.counter
    requires wlow < t.index[w] ==> LowHit(edges, s, wlow, w)
    ensures LowHit(edges, t, if wlow < low then wlow else low, v)
  {
    if wlow < low {
      var y :| y in s.onStack && y in s.index && s.index[y] == wlow && Reach(edges, w, y);
      ReachEdge(edges, v, w);
      ReachTransitive(edges, v, w, y);
    } else {
      var y :| y in s.onStack && y in s.index && s.index[y] == low && Reach(edges, v, y);
      assert y in t.onStack;
    }
  }

  /** No edge leads below `v`: its part of the stack is ready to be emitted. */
  lemma ExploreCloses(nodes: set<Name>, edges: set<(Name, Name)>, s0: State, s: State, gray: set<Name>, v: Name, low: nat)
    requires Exploring(nodes, edges, s0, s, gray, v, low, {})
    requires low == s.index[v]
    ensures |s0.stack| < |s.stack| && s.stack[|s0.stack|] == v
    ensures Closed(nodes, edges, s, gray, |s0.stack|)
    ensures s.onStack == Elements(s.stack)
    ensures forall i, j :: 0 <= i < j < |s.stack| ==> s.stack[i] != s.stack[j]
  {
    var k := |s0.stack|;
    assert s.stack[k] == Pushed(s0, v).stack[k];
    assert s.stack[..k] == s0.stack;
    StackSplit(s, k);
  }

  lemma CloseExplores(nodes: set<Name>, edges: set<(Name, Name)>, s0: State, s: State, gray: set<Name>, v: Name, low: nat)
    requires Exploring(nodes, edges, s0, s, gray, v, low, {})
    requires low == s.index[v]
    ensures |s0.stack| < |s.stack|
    ensures Explored(nodes, edges, s0, Popped(s, |s0.stack|), gray, v, low)
    ensures Inv(nodes, edges, Popped(s, |s0.stack|), gray)
  {
    var k := |s0.stack|;
    ExploreCloses(nodes, edges, s0, s, gray, v, low);
    PopKeepsInv(nodes, edges, s, gray, k);
    assert Popped(s, k).stack == s0.stack;
  }

  lemma RetreatHit(nodes: set<Name>, edges: set<(Name, Name)>, s0: State, s: State, gray: set<Name>, v: Name, low: nat)
    requires Exploring(nodes, edges, s0, s, gray, v, low, {})
    requires low < s.index[v]
    ensures LowHit(edges, s0, low, v)
  {
    hide OlderReachNewer, BackToGray, AllComponents, GroupsDisjoint, DependenciesFirst, NoneMissed, LowBound, Reach;
    var k := |s0.stack|;
    assert s.stack[k] == Pushed(s0, v).stack[k];
    assert s.stack[..k] == s0.stack;
    StackSplit(s, k);
    var y :| y in s.onStack && y in s.index && s.index[y] == low && Reach(edges, v, y);
    assert y in s0.onStack && y in s0.index;
  }

  lemma RetreatExplores(nodes: set<Name>, edges: set<(Name, Name)>, s0: State, s: State, gray: set<Name>, v: Name, low: nat)
    requires Exploring(nodes, edges, s0, s, gray, v, low, {})
    requires low != s.index[v]
    ensures Explored(nodes, edges, s0, s, gray, v, low)
    ensures Inv(nodes, edges, s, gray)
  {
    hide Reach, AllComponents, GroupsDisjoint, DependenciesFirst, OlderReachNewer, LowBound, LowHit, HasGrayBelow;
    RetreatHit(nodes, edges, s0, s, gray, v, low);
    RetreatKeepsBack(edges, s, gray, v, low);
  }

  class Search {
    const nodes: set<Name>
    const edges: set<(Name, Name)>
    const adj: map<Name, set<Name>>
    var counter: nat
    var stack: seq<Name>
    var lowlink: map<Name, nat>
    var index: map<Name, nat>
    var onStack: set<Name>
    var sccs: seq<seq<Name>>

    ghost function View(): State
      reads this
    {
      State(counter, stack, index, onStack, sccs)
    }

    ghost predicate Valid(gray: set<Name>)
      reads this
    {
      && EdgesWithin(edges, nodes)
      && adj == Adjacency(edges)
      && lowlink.Keys == index.Keys
      && Inv(nodes, edges, View(), gray)
    }

    constructor (nodes: set<Name>, edges: set<(Name, Name)>)
      requires EdgesWithin(edges, nodes)
      ensures Valid({})
      ensures this.nodes == nodes && this.edges == edges
      ensures index == map[]
    {
      this.nodes := nodes;
      this.edges := edges;
      this.adj := Adjacency(edges);
      counter := 0;
      stack := [];
      lowlink := map[];
      index := map[];
      onStack := {};
      sccs := [];
    }

    /** Gives `v` the next index and puts it on the stack. */
    method Discover(v: Name)
      modifies this
      ensures View() == Pushed(old(View()), v)
      ensures lowlink == old(lowlink)[v := old(counter)]
    {
      index := index[v := counter];
      lowlink := lowlink[v := counter];
      counter := counter + 1;
      stack := stack + [v];
      onStack := onStack + {v};
    }


    method StrongConnect(v: Name, ghost gray: set<Name>)
      requires Valid(gray)
      requires v in nodes && v !in index
      requires forall g :: g in gray ==> Reach(edges, g, v)
      modifies this
      ensures Valid(gray)
      ensures v in index && old(index.Keys) <= index.Keys
      ensures Explored(nodes, edges, old(View()), View(), gray, v, lowlink[v])
      ensures forall x :: x in old(lowlink) ==> x in lowlink && lowlink[x] == old(lowlink)[x]
      decreases nodes - index.Keys, 0
    {
      hide Inv, LowBound, LowHit, Reach, Exploring, Explored, Extends, Sorted, Popped, Closed, Ascending, Adjacency;
      ghost var s0 := View();
      Discover(v);
      var ws := Sorted(if v in adj then adj[v] else {});
      AdjacencyLookup(edges, v);
      assert forall i :: 0 <= i < |ws| ==> (v, ws[i]) in edges;
      ghost var pending := Elements(ws);
      ExploreStart(nodes, edges, s0, gray, v, pending);
      for i := 0 to |ws|
        invariant lowlink.Keys == index.Keys
        invariant old(index.Keys) + {v} <= index.Keys
        invariant Inv(nodes, edges, View(), gray + {v})
        invariant forall x :: x in old(lowlink) ==> x in lowlink && lowlink[x] == old(lowlink)[x]
        invariant pending <= Elements(ws[i..])
        invariant Exploring(nodes, edges, s0, View(), gray, v, lowlink[v], pending)
      {
        Relax(v, ws[i], gray, s0, pending);
        pending := pending - {ws[i]};
      }

      assert pending == {};
      Finish(v, gray, s0);
    }

    /** After the loop: emits a group if `v` is the oldest name it can get back to. */
    method Finish(v: Name, ghost gray: set<Name>, ghost s0: State)
      requires Valid(gray + {v}) && v in index
      requires Exploring(nodes, edges, s0, View(), gray, v, lowlink[v], {})
      modifies this`stack, this`onStack, this`sccs
      ensures Valid(gray)
      ensures Explored(nodes, edges, s0, View(), gray, v, lowlink[v])
    {
      hide Inv, LowBound, LowHit, Reach, Exploring, Explored, Extends, Popped, Closed, Adjacency;
      if lowlink[v] == index[v] {
        CloseExplores(nodes, edges, s0, View(), gray, v, lowlink[v]);
        ExploreCloses(nodes, edges, s0, View(), gray, v, lowlink[v]);
        PopGroup(v, |s0.stack|);
      } else {
        RetreatExplores(nodes, edges, s0, View(), gray, v, lowlink[v]);
      }
    }

    /** The body of the loop over the dependencies of `v`. */
    method Relax(v: Name, w: Name, ghost gray: set<Name>, ghost s0: State, ghost pending: set<Name>)
      requires Valid(gray + {v})
      requires v in index && (v, w) in edges
      requires forall g :: g in gray ==> Reach(edges, g, v)
      requires Exploring(nodes, edges, s0, View(), gray, v, lowlink[v], pending)
      modifies this
      ensures Valid(gray + {v})
      ensures old(index.Keys) <= index.Keys
      ensures Exploring(nodes, edges, s0, View(), gray, v, lowlink[v], pending - {w})
      ensures forall x :: x in old(lowlink) && x != v ==> x in lowlink && lowlink[x] == old(lowlink)[x]
      decreases nodes - index.Keys, 1
    {
      hide Inv, LowBound, LowHit, Reach, Exploring, Explored, Extends, Adjacency;
      ghost var s, low := View(), lowlink[v];
      if w !in index {
        forall g | g in gray + {v} ensures Reach(edges, g, w) {
          ReachEdge(edges, v, w);
          if g != v { ReachTransitive(edges, g, v, w); }
        }
        StrongConnect(w, gray + {v});
        lowlink := lowlink[v := if lowlink[w] < lowlink[v] then lowlink[w] else lowlink[v]];
        ExploreChild(nodes, edges, s0, s, View(), gray, v, low, pending, w, lowlink[w], lowlink[v]);
      } else if w in onStack {
        lowlink := lowlink[v := if index[w] < lowlink[v] then index[w] else lowlink[v]];
        ExploreStacked(nodes, edges, s0, s, gray, v, low, pending, w, lowlink[v]);
      } else {
        ExploreFinished(nodes, edges, s0, s, gray, v, low, pending, w);
      }
    }

    /** The inner `while True` loop: pops down to and including `v` and emits the popped names. */
    method PopGroup(v: Name, ghost k: nat)
      requires k < |stack| && stack[k] == v
      requires onStack == Elements(stack)
      requires forall i, j :: 0 <= i < j < |stack| ==> stack[i] != stack[j]
      modifies this`stack, this`onStack, this`sccs
      ensures View() == Popped(old(View()), k)
    {
      hide Sorted;
      var scc := [];
      ghost var top := |stack|;
      while true
        invariant k < top <= |old(stack)|
        invariant stack == old(stack)[..top]
        invariant Elements(scc) == Elements(old(stack)[top..])
        invariant onStack == old(onStack) - Elements(scc)
        invariant sccs == old(sccs)
        decreases top
      {
        var w := stack[|stack| - 1];
        stack := stack[..|stack| - 1];
        onStack := onStack - {w};
        scc := scc + [w];
        assert old(stack)[top - 1..] == [w] + old(stack)[top..];
        assert Elements(scc) == Elements(scc[..|scc| - 1]) + {w};
        top := top - 1;
        if w == v {
          break;
        }
      }
      assert top == k;
      assert Elements(scc) == Elements(old(stack)[k..]);
      sccs := sccs + [Sorted(Elements(scc))];
    }
  }

  /** Between top-level visits nothing is gray, so the stack is empty and every visited name is finished. */
  lemma IdleIsDone(nodes: set<Name>, edges: set<(Name, Name)>, s: State)
    requires Inv(nodes, edges, s, {})
    ensures forall x :: x in s.index <==> Done(s.sccs, x)
    ensures s.index.Keys <= nodes
  {
    hide Reach, AllComponents, GroupsDisjoint, DependenciesFirst, OlderReachNewer, NoneMissed;
    assert forall y :: y in s.onStack ==> HasGrayBelow(edges, s, {}, y);
    assert s.onStack == {};
  }

  /** `scc_groups`: the components of the graph, dependencies before dependents. */
  method SccGroups(nodes: set<Name>, edges: set<(Name, Name)>) returns (sccs: seq<seq<Name>>)
    requires EdgesWithin(edges, nodes)
    ensures forall x :: x in nodes <==> Done(sccs, x)
    ensures GroupsDisjoint(sccs)
    ensures AllComponents(edges, sccs)
    ensures DependenciesFirst(edges, sccs)
  {
    hide Reach, Shape, AllComponents, GroupsDisjoint, DependenciesFirst, OlderReachNewer, NoneMissed, BackToGray, LowBound, Done;
    var search := new Search(nodes, edges);
    var order := Sorted(nodes);
    for i := 0 to |order|
      invariant search.nodes == nodes && search.edges == edges
      invariant search.Valid({})
      invariant forall j :: 0 <= j < i ==> order[j] in search.index
    {
      if order[i] !in search.index {
        search.StrongConnect(order[i], {});
      }
    }
    sccs := search.sccs;
    IdleIsDone(nodes, edges, search.View());
  }
}
