/** Fork, death and wait as a system of steps over the process table. */
module WaitProtocol {
  import opened Basics
  import opened ChildLists

  /** How far a task's own fork or wait has got. */
  datatype Phase =
    | Idle
    | Forked(child: Pid)                  // the child is schedulable but not yet linked
    | Reaping(child: Pid, status: int)    // a dead child was found; it is still linked
    | Unlinked(child: Pid, status: int)   // it has been unlinked, its task is about to be removed

  /** `kids` are the child lists, `died` the statuses ever recorded, `log` the deaths returned by `waitpid`
      as (parent, child, status). */
  datatype Sys = Sys(
    tasks: Tasks,
    nextPid: Pid,
    kids: map<Pid, seq<Pid>>,
    phase: map<Pid, Phase>,
    died: set<(Pid, int)>,
    log: seq<(Pid, Pid, int)>)

  datatype Action =
    | ForkAdd(p: Pid)
    | ForkLink(p: Pid)
    | Die(p: Pid, status: int)
    | Stop(p: Pid, sig: nat)
    | Continue(p: Pid)
    | Scan(p: Pid, target: int, opts: WaitOptions, busy: set<Pid>, r: Outcome)
    | Unlink(p: Pid)
    | Remove(p: Pid, gone: bool)

  // ----- what holds in every reachable state

  ghost predicate Keyed(s: Sys)
  {
    && s.kids.Keys == s.tasks.Keys
    && s.phase.Keys == s.tasks.Keys
    && (forall p :: p in s.tasks ==> p < s.nextPid)
  }

  ghost predicate ListOk(s: Sys, p: Pid)
    requires p in s.tasks && p in s.kids
  {
    && IsList(s.tasks, s.tasks[p].firstChild, s.kids[p])
    && (forall c :: c in s.kids[p] ==> c in s.tasks && s.tasks[c].ppid == p && c != p)
  }

  /** The child that `p` is working on, if any. */
  function Pending(ph: Phase): Option<Pid>
  {
    match ph
    case Idle => None
    case Forked(c) => Some(c)
    case Reaping(c, _) => Some(c)
    case Unlinked(c, _) => Some(c)
  }

  ghost predicate PhaseOk(s: Sys, p: Pid)
    requires p in s.tasks && p in s.kids && p in s.phase
  {
    match s.phase[p]
    case Idle => true
    case Forked(c) => c in s.tasks && s.tasks[c].ppid == p && c !in s.kids[p] && c != p
    case Reaping(c, status) => c in s.kids[p] && (c, status) in s.died
    case Unlinked(c, status) => c in s.tasks && s.tasks[c].ppid == p && c !in s.kids[p] && c != p && (c, status) in s.died
  }

  ghost predicate Reported(s: Sys, c: Pid)
  {
    exists i :: 0 <= i < |s.log| && s.log[i].1 == c
  }

  /** Nothing still linked, forked or being reaped has been reported. */
  ghost predicate Fresh(s: Sys, p: Pid)
    requires p in s.tasks && p in s.kids && p in s.phase
  {
    && (forall c :: c in s.kids[p] ==> !Reported(s, c))
    && (Pending(s.phase[p]).Some? ==> !Reported(s, Pending(s.phase[p]).value))
  }

  ghost predicate LogOk(s: Sys)
  {
    && (forall i, j :: 0 <= i < j < |s.log| ==> s.log[i].1 != s.log[j].1)
    && (forall i :: 0 <= i < |s.log| ==> s.log[i].1 < s.nextPid && (s.log[i].1, s.log[i].2) in s.died)
  }

  ghost predicate DiedOk(s: Sys)
  {
    && (forall d :: d in s.died ==> DeathStatus(d.1))
    && (forall p :: p in s.tasks && s.tasks[p].state == Zombie ==> (p, s.tasks[p].exitStatus) in s.died)
  }

  ghost predicate Inv(s: Sys)
  {
    && Keyed(s)
    && (forall p {:trigger ListOk(s, p)} :: p in s.tasks ==> ListOk(s, p))
    && (forall p {:trigger PhaseOk(s, p)} :: p in s.tasks ==> PhaseOk(s, p))
    && (forall p {:trigger Fresh(s, p)} :: p in s.tasks ==> Fresh(s, p))
    && LogOk(s)
    && DiedOk(s)
  }

  // ----- the steps

  function NewTask(p: Pid): Task { Task(p, Alive, 0, None, None, None, None, false) }

  /** A scan that found a death starts reaping; a stop or a continue is returned at once. */
  function AfterScan(r: Outcome): Phase
  {
    if r.Report? && !LooksStopped(r.status) && !LooksContinued(r.status) then Reaping(r.pid, r.status) else Idle
  }

  function Without(l: seq<Pid>, c: Pid): seq<Pid>
  {
    if l == [] then [] else if l[0] == c then l[1..] else [l[0]] + Without(l[1..], c)
  }

  ghost predicate Present(s: Sys, p: Pid)
  {
    p in s.tasks && p in s.phase && p in s.kids
  }

  ghost predicate DoesForkAdd(s: Sys, p: Pid, s': Sys)
    requires Present(s, p)
  {
    && s.phase[p] == Idle
    && s' == s.(tasks := s.tasks[s.nextPid := NewTask(p)], nextPid := s.nextPid + 1,
                kids := s.kids[s.nextPid := []], phase := s.phase[s.nextPid := Idle][p := Forked(s.nextPid)])
  }

  ghost predicate DoesForkLink(s: Sys, p: Pid, s': Sys)
    requires Present(s, p)
  {
    && s.phase[p].Forked?
    && s' == s.(tasks := WithChild(s.tasks, p, s.phase[p].child),
                kids := s.kids[p := [s.phase[p].child] + s.kids[p]], phase := s.phase[p := Idle])
  }

  ghost predicate DoesDie(s: Sys, p: Pid, status: int, s': Sys)
    requires Present(s, p)
  {
    && DeathStatus(status)
    && s' == s.(tasks := s.tasks[p := s.tasks[p].(state := Zombie, exitStatus := status)], died := s.died + {(p, status)})
  }

  ghost predicate DoesStop(s: Sys, p: Pid, sig: nat, s': Sys)
    requires Present(s, p)
  {
    && s.tasks[p].state != Zombie
    && s' == s.(tasks := s.tasks[p := s.tasks[p].(state := Stopped, stopSignal := Some(sig), continued := false)])
  }

  ghost predicate DoesContinue(s: Sys, p: Pid, s': Sys)
    requires Present(s, p)
  {
    && s.tasks[p].state != Zombie
    && s' == s.(tasks := s.tasks[p := s.tasks[p].(state := Alive, stopSignal := None, continued := true)])
  }

  ghost predicate DoesScan(s: Sys, p: Pid, target: int, opts: WaitOptions, busy: set<Pid>, r: Outcome, s': Sys)
    requires Present(s, p)
  {
    && s.phase[p] == Idle
    && ScanStep(s.tasks, s'.tasks, FirstChildren(s.kids[p]), target, opts, busy, r)
    && s' == s.(tasks := s'.tasks, phase := s.phase[p := AfterScan(r)])
  }

  ghost predicate DoesUnlink(s: Sys, p: Pid, s': Sys)
    requires Present(s, p)
  {
    && s.phase[p].Reaping?
    && s' == s.(tasks := WithoutChild(s.tasks, p, s.phase[p].child),
                kids := s.kids[p := Without(s.kids[p], s.phase[p].child)],
                phase := s.phase[p := Unlinked(s.phase[p].child, s.phase[p].status)])
  }

  /** `gone` is false when the task could not be removed within the retry limit. */
  ghost predicate DoesRemove(s: Sys, p: Pid, gone: bool, s': Sys)
    requires Present(s, p)
  {
    && s.phase[p].Unlinked?
    && var c := s.phase[p].child;
    && var logged := s.log + [(p, c, s.phase[p].status)];
    && s' == if gone then s.(tasks := s.tasks - {c}, kids := s.kids - {c}, phase := (s.phase - {c})[p := Idle], log := logged)
             else s.(phase := s.phase[p := Idle], log := logged)
  }

  ghost predicate Does(s: Sys, a: Action, s': Sys)
  {
    && Present(s, a.p)
    && match a
       case ForkAdd(p) => DoesForkAdd(s, p, s')
       case ForkLink(p) => DoesForkLink(s, p, s')
       case Die(p, status) => DoesDie(s, p, status, s')
       case Stop(p, sig) => DoesStop(s, p, sig, s')
       case Continue(p) => DoesContinue(s, p, s')
       case Scan(p, target, opts, busy, r) => DoesScan(s, p, target, opts, busy, r, s')
       case Unlink(p) => DoesUnlink(s, p, s')
       case Remove(p, gone) => DoesRemove(s, p, gone, s')
  }

  // ----- preservation

  /** A task whose links and parent are as before. */
  ghost predicate SameFamily(s: Sys, s': Sys, p: Pid)
  {
    && SameLinks(s.tasks, s'.tasks, p)
    && s'.tasks[p].firstChild == s.tasks[p].firstChild
    && s'.tasks[p].ppid == s.tasks[p].ppid
  }

  /** Steps that leave links, parents, lists and the log alone. */
  ghost predicate StatesOnly(s: Sys, s': Sys)
  {
    && s'.tasks.Keys == s.tasks.Keys
    && (forall p :: p in s.tasks ==> SameFamily(s, s', p))
    && s'.kids == s.kids && s'.nextPid == s.nextPid && s'.log == s.log
    && s.died <= s'.died
  }

  lemma StatesKeep(s: Sys, s': Sys)
    requires Inv(s) && StatesOnly(s, s') && s'.phase == s.phase && DiedOk(s')
    ensures Inv(s')
  {
    StatesKeepLists(s, s');
    StatesKeepRest(s, s');
    hide ListOk, PhaseOk, Fresh, DiedOk, LogOk;
  }

  lemma StatesKeepLists(s: Sys, s': Sys)
    requires Inv(s) && StatesOnly(s, s')
    ensures forall p {:trigger ListOk(s', p)} :: p in s'.tasks ==> ListOk(s', p)
  {
    hide PhaseOk, Fresh, DiedOk, LogOk;
    forall p | p in s'.tasks ensures ListOk(s', p) {
      assert ListOk(s, p) && SameFamily(s, s', p);
      ListFrame(s.tasks, s'.tasks, s.tasks[p].firstChild, s.kids[p]);
    }
  }

  lemma StatesKeepRest(s: Sys, s': Sys)
    requires Inv(s) && StatesOnly(s, s') && s'.phase == s.phase
    ensures Keyed(s') && LogOk(s')
    ensures forall p {:trigger PhaseOk(s', p)} :: p in s'.tasks ==> PhaseOk(s', p)
    ensures forall p {:trigger Fresh(s', p)} :: p in s'.tasks ==> Fresh(s', p)
  {
    hide ListOk, DiedOk, SameLinks;
    forall p | p in s'.tasks ensures PhaseOk(s', p) && Fresh(s', p) {
      assert PhaseOk(s, p) && Fresh(s, p);
    }
  }

  lemma DieKeeps(s: Sys, p: Pid, status: int, s': Sys)
    requires Inv(s) && Present(s, p) && DoesDie(s, p, status, s')
    ensures Inv(s')
  {
    assert StatesOnly(s, s') && DiedOk(s') by { hide ListOk, PhaseOk, Fresh, LogOk, DeathStatus; }
    hide DoesDie, StatesOnly, DiedOk;
    StatesKeep(s, s');
  }

  lemma StopKeeps(s: Sys, p: Pid, sig: nat, s': Sys)
    requires Inv(s) && Present(s, p) && (DoesStop(s, p, sig, s') || DoesContinue(s, p, s'))
    ensures Inv(s')
  {
    assert StatesOnly(s, s') && DiedOk(s') by { hide ListOk, PhaseOk, Fresh, LogOk, DeathStatus; }
    hide DoesStop, DoesContinue, StatesOnly, DiedOk;
    StatesKeep(s, s');
  }

  // ----- fork

  lemma ForkAddKeeps(s: Sys, p: Pid, s': Sys)
    requires Inv(s) && Present(s, p) && DoesForkAdd(s, p, s')
    ensures Inv(s')
  {
    hide ListOk, PhaseOk, Fresh, LogOk, DiedOk, DoesForkAdd;
    ForkAddRest(s, p, s');
    forall q | q in s'.tasks ensures ListOk(s', q) {
      hide Inv, Keyed;
      ForkAddList(s, p, s', q);
    }
  }

  lemma ForkAddList(s: Sys, p: Pid, s': Sys, q: Pid)
    requires Inv(s) && Present(s, p) && DoesForkAdd(s, p, s') && q in s'.tasks
    ensures Keyed(s') && ListOk(s', q)
  {
    hide PhaseOk, LogOk, DiedOk, Fresh;
    if q != s.nextPid {
      assert ListOk(s, q);
      ListFrame(s.tasks, s'.tasks, s.tasks[q].firstChild, s.kids[q]);
    }
  }

  lemma ForkAddRest(s: Sys, p: Pid, s': Sys)
    requires Inv(s) && Present(s, p) && DoesForkAdd(s, p, s')
    ensures Keyed(s') && LogOk(s') && DiedOk(s')
    ensures forall p {:trigger PhaseOk(s', p)} :: p in s'.tasks ==> PhaseOk(s', p)
    ensures forall p {:trigger Fresh(s', p)} :: p in s'.tasks ==> Fresh(s', p)
  {
    hide IsList, DeathStatus;
    assert p != s.nextPid;
    assert !Reported(s', s.nextPid);
    forall q | q in s'.tasks ensures PhaseOk(s', q) && Fresh(s', q) {
      if q != s.nextPid {
        assert PhaseOk(s, q) && Fresh(s, q) && ListOk(s, q);
      }
    }
  }

  /** Children of different parents are different. */
  lemma OneParent(s: Sys, p: Pid, q: Pid, c: Pid)
    requires Inv(s) && p in s.tasks && q in s.tasks && c in s.tasks && s.tasks[c].ppid == p && q != p
    ensures c !in s.kids[q] && Pending(s.phase[q]) != Some(c)
  {
    assert ListOk(s, q) && PhaseOk(s, q);
  }

  lemma ForkLinkLists(s: Sys, p: Pid, s': Sys)
    requires Inv(s) && Present(s, p) && DoesForkLink(s, p, s')
    ensures SameButLinks(s.tasks, s'.tasks)
    ensures forall q {:trigger ListOk(s', q)} :: q in s'.tasks ==> ListOk(s', q)
  {
    var c := s.phase[p].child;
    assert ListOk(s, p) && PhaseOk(s, p);
    WithChildList(s.tasks, p, c, s.kids[p]);
    forall q | q in s'.tasks ensures ListOk(s', q) {
      assert ListOk(s, q);
      if q != p {
        forall e | e in s.kids[q] ensures SameLinks(s.tasks, s'.tasks, e) {
          OneParent(s, q, p, e);
          WithChildFootprint(s.tasks, p, c, s.kids[p], e);
        }
        WithChildFootprint(s.tasks, p, c, s.kids[p], q);
        ListFrame(s.tasks, s'.tasks, s.tasks[q].firstChild, s.kids[q]);
      }
    }
  }

  lemma ForkLinkAt(s: Sys, p: Pid, s': Sys, q: Pid)
    requires Present(s, p) && DoesForkLink(s, p, s') && SameButLinks(s.tasks, s'.tasks) && Present(s, q)
    requires PhaseOk(s, p) && Fresh(s, p) && PhaseOk(s, q) && Fresh(s, q)
    ensures PhaseOk(s', q) && Fresh(s', q)
  {
  }

  lemma ForkLinkRest(s: Sys, p: Pid, s': Sys)
    requires Inv(s) && Present(s, p) && DoesForkLink(s, p, s') && SameButLinks(s.tasks, s'.tasks)
    ensures Keyed(s') && LogOk(s') && DiedOk(s')
    ensures forall q {:trigger PhaseOk(s', q)} :: q in s'.tasks ==> PhaseOk(s', q)
    ensures forall q {:trigger Fresh(s', q)} :: q in s'.tasks ==> Fresh(s', q)
  {
    hide IsList, DeathStatus, WithChild, PhaseOk, Fresh, ListOk;
    assert PhaseOk(s, p) && Fresh(s, p);
    forall q | q in s'.tasks ensures PhaseOk(s', q) && Fresh(s', q) {
      assert PhaseOk(s, q) && Fresh(s, q);
      ForkLinkAt(s, p, s', q);
    }
  }

  lemma ForkLinkKeeps(s: Sys, p: Pid, s': Sys)
    requires Inv(s) && Present(s, p) && DoesForkLink(s, p, s')
    ensures Inv(s')
  {
    hide ListOk, PhaseOk, Fresh, LogOk, DiedOk, DoesForkLink, Keyed;
    ForkLinkLists(s, p, s');
    ForkLinkRest(s, p, s');
  }

  // ----- wait

  /** A report that is not taken for a stop or a continue is the recorded status of a dead child. */
  lemma ReapedIsDead(t: Task, opts: WaitOptions, busy: bool)
    requires ReportOf(t, opts, busy).Some?
    requires !LooksStopped(ReportOf(t, opts, busy).value) && !LooksContinued(ReportOf(t, opts, busy).value)
    ensures t.state == Zombie && ReportOf(t, opts, busy).value == t.exitStatus
  {
  }

  lemma ScanIsStatesOnly(s: Sys, p: Pid, target: int, opts: WaitOptions, busy: set<Pid>, r: Outcome, s': Sys)
    requires Inv(s) && Present(s, p) && DoesScan(s, p, target, opts, busy, r, s')
    ensures StatesOnly(s, s') && DiedOk(s')
  {
    hide ListOk, PhaseOk, Fresh, LogOk, DeathStatus;
  }

  lemma ScanAt(s: Sys, p: Pid, target: int, opts: WaitOptions, busy: set<Pid>, r: Outcome, s': Sys, q: Pid)
    requires Present(s, p) && DoesScan(s, p, target, opts, busy, r, s') && StatesOnly(s, s') && Present(s, q)
    requires PhaseOk(s, q) && Fresh(s, q) && DiedOk(s)
    ensures PhaseOk(s', q) && Fresh(s', q)
  {
  }

  lemma ScanRest(s: Sys, p: Pid, target: int, opts: WaitOptions, busy: set<Pid>, r: Outcome, s': Sys)
    requires Inv(s) && Present(s, p) && DoesScan(s, p, target, opts, busy, r, s') && StatesOnly(s, s')
    ensures Keyed(s') && LogOk(s')
    ensures forall q {:trigger PhaseOk(s', q)} :: q in s'.tasks ==> PhaseOk(s', q)
    ensures forall q {:trigger Fresh(s', q)} :: q in s'.tasks ==> Fresh(s', q)
  {
    hide IsList, DeathStatus, LooksStopped, LooksContinued, PhaseOk, Fresh, ListOk;
    assert PhaseOk(s, p) && Fresh(s, p);
    forall q | q in s'.tasks ensures PhaseOk(s', q) && Fresh(s', q) {
      assert PhaseOk(s, q) && Fresh(s, q);
      ScanAt(s, p, target, opts, busy, r, s', q);
    }
  }

  lemma ScanKeeps(s: Sys, p: Pid, target: int, opts: WaitOptions, busy: set<Pid>, r: Outcome, s': Sys)
    requires Inv(s) && Present(s, p) && DoesScan(s, p, target, opts, busy, r, s')
    ensures Inv(s')
  {
    hide ListOk, PhaseOk, Fresh, LogOk, DiedOk, DoesScan, Keyed, StatesOnly;
    ScanIsStatesOnly(s, p, target, opts, busy, r, s');
    StatesKeepLists(s, s');
    ScanRest(s, p, target, opts, busy, r, s');
  }

  lemma {:induction false} WithoutIs(l: seq<Pid>, k: nat)
    requires k < |l| && Distinct(l)
    ensures Without(l, l[k]) == l[..k] + l[k + 1..]
  {
    if k > 0 {
      WithoutIs(l[1..], k - 1);
      assert l[1..][k - 1] == l[k] && l[1..][..k - 1] == l[1..k] && l[1..][k..] == l[k + 1..];
    }
  }

  lemma UnlinkOwnList(s: Sys, p: Pid, s': Sys)
    requires Present(s, p) && DoesUnlink(s, p, s') && ListOk(s, p) && PhaseOk(s, p)
    ensures SameButLinks(s.tasks, s'.tasks)
    ensures forall x :: x in s'.kids[p] <==> x in s.kids[p] && x != s.phase[p].child
    ensures Present(s', p) && ListOk(s', p)
  {
    var c := s.phase[p].child;
    var k :| 0 <= k < |s.kids[p]| && s.kids[p][k] == c;
    WithoutIs(s.kids[p], k);
    WithoutChildList(s.tasks, p, s.kids[p], k);
    hide WithoutChild, Without, LinkOk;
    var l, l' := s.kids[p], s'.kids[p];
    forall x ensures x in l' <==> x in l && x != c {
      if x in l && x != c {
        var i :| 0 <= i < |l| && l[i] == x;
        assert i < k ==> l'[i] == x;
        assert i > k ==> l'[i - 1] == x;
      }
    }
  }

  lemma UnlinkOtherList(s: Sys, p: Pid, s': Sys, q: Pid)
    requires Inv(s) && Present(s, p) && DoesUnlink(s, p, s') && SameButLinks(s.tasks, s'.tasks)
    requires Present(s, q) && q != p && ListOk(s, p) && PhaseOk(s, p) && ListOk(s, q)
    ensures Present(s', q) && ListOk(s', q)
  {
    var c := s.phase[p].child;
    forall e | e in s.kids[q] ensures SameLinks(s.tasks, s'.tasks, e) {
      OneParent(s, q, p, e);
      WithoutChildFootprint(s.tasks, p, c, s.kids[p], e);
    }
    WithoutChildFootprint(s.tasks, p, c, s.kids[p], q);
    ListFrame(s.tasks, s'.tasks, s.tasks[q].firstChild, s.kids[q]);
    hide Inv, WithoutChild, Without;
  }

  lemma UnlinkLists(s: Sys, p: Pid, s': Sys)
    requires Inv(s) && Present(s, p) && DoesUnlink(s, p, s')
    ensures SameButLinks(s.tasks, s'.tasks)
    ensures forall x :: x in s'.kids[p] <==> x in s.kids[p] && x != s.phase[p].child
    ensures forall q {:trigger ListOk(s', q)} :: q in s'.tasks ==> ListOk(s', q)
  {
    hide ListOk, PhaseOk, Fresh, WithoutChild, Without;
    assert ListOk(s, p) && PhaseOk(s, p);
    UnlinkOwnList(s, p, s');
    forall q | q in s'.tasks ensures ListOk(s', q) {
      assert ListOk(s, q);
      if q != p { UnlinkOtherList(s, p, s', q); }
    }
  }

  lemma UnlinkAt(s: Sys, p: Pid, s': Sys, q: Pid)
    requires Present(s, p) && DoesUnlink(s, p, s') && SameButLinks(s.tasks, s'.tasks) && Present(s, q)
    requires forall x :: x in s'.kids[p] <==> x in s.kids[p] && x != s.phase[p].child
    requires PhaseOk(s, p) && Fresh(s, p) && ListOk(s, p) && PhaseOk(s, q) && Fresh(s, q)
    ensures PhaseOk(s', q) && Fresh(s', q)
  {
  }

  lemma UnlinkRest(s: Sys, p: Pid, s': Sys)
    requires Inv(s) && Present(s, p) && DoesUnlink(s, p, s') && SameButLinks(s.tasks, s'.tasks)
    requires forall x :: x in s'.kids[p] <==> x in s.kids[p] && x != s.phase[p].child
    ensures Keyed(s') && LogOk(s') && DiedOk(s')
    ensures forall q {:trigger PhaseOk(s', q)} :: q in s'.tasks ==> PhaseOk(s', q)
    ensures forall q {:trigger Fresh(s', q)} :: q in s'.tasks ==> Fresh(s', q)
  {
    hide IsList, DeathStatus, WithoutChild, Without, PhaseOk, Fresh;
    assert PhaseOk(s, p) && Fresh(s, p) && ListOk(s, p);
    hide ListOk;
    forall q | q in s'.tasks ensures PhaseOk(s', q) && Fresh(s', q) {
      assert PhaseOk(s, q) && Fresh(s, q);
      UnlinkAt(s, p, s', q);
    }
  }

  lemma UnlinkKeeps(s: Sys, p: Pid, s': Sys)
    requires Inv(s) && Present(s, p) && DoesUnlink(s, p, s')
    ensures Inv(s')
  {
    UnlinkLists(s, p, s');
    UnlinkRest(s, p, s');
    hide ListOk, PhaseOk, Fresh, LogOk, DiedOk, DoesUnlink, Keyed;
  }

  lemma RemoveLists(s: Sys, p: Pid, gone: bool, s': Sys)
    requires Inv(s) && Present(s, p) && DoesRemove(s, p, gone, s')
    ensures forall q {:trigger ListOk(s', q)} :: q in s'.tasks ==> ListOk(s', q)
  {
    var c := s.phase[p].child;
    assert PhaseOk(s, p);
    forall q | q in s'.tasks ensures ListOk(s', q) {
      assert ListOk(s, q);
      if q != p { OneParent(s, p, q, c); }
      ListFrame(s.tasks, s'.tasks, s.tasks[q].firstChild, s.kids[q]);
    }
  }

  lemma RemoveAt(s: Sys, p: Pid, gone: bool, s': Sys, q: Pid)
    requires Inv(s) && Present(s, p) && DoesRemove(s, p, gone, s') && Present(s, q) && q in s'.tasks
    requires PhaseOk(s, p) && PhaseOk(s, q) && Fresh(s, q)
    ensures Present(s', q) && PhaseOk(s', q) && Fresh(s', q)
  {
    var c := s.phase[p].child;
    ReportedGrows(s, s', (p, c, s.phase[p].status));
    if q != p { OneParent(s, p, q, c); }
    hide Inv, Reported;
  }

  lemma RemoveLog(s: Sys, p: Pid, gone: bool, s': Sys)
    requires Inv(s) && Present(s, p) && DoesRemove(s, p, gone, s')
    ensures Keyed(s') && LogOk(s') && DiedOk(s')
  {
    hide DeathStatus, ListOk;
    assert PhaseOk(s, p) && Fresh(s, p);
    assert forall i :: 0 <= i < |s.log| ==> s'.log[i] == s.log[i];
    assert forall i :: 0 <= i < |s.log| ==> s.log[i].1 != s.phase[p].child;
  }

  lemma RemoveRest(s: Sys, p: Pid, gone: bool, s': Sys)
    requires Inv(s) && Present(s, p) && DoesRemove(s, p, gone, s')
    ensures Keyed(s') && LogOk(s') && DiedOk(s')
    ensures forall q {:trigger PhaseOk(s', q)} :: q in s'.tasks ==> PhaseOk(s', q)
    ensures forall q {:trigger Fresh(s', q)} :: q in s'.tasks ==> Fresh(s', q)
  {
    hide IsList, DeathStatus, PhaseOk, Fresh, ListOk;
    assert PhaseOk(s, p) && Fresh(s, p);
    forall q | q in s'.tasks ensures PhaseOk(s', q) && Fresh(s', q) {
      assert PhaseOk(s, q) && Fresh(s, q);
      RemoveAt(s, p, gone, s', q);
    }
    RemoveLog(s, p, gone, s');
  }

  lemma ReportedGrows(s: Sys, s': Sys, entry: (Pid, Pid, int))
    requires s'.log == s.log + [entry]
    ensures forall x :: Reported(s', x) ==> Reported(s, x) || x == entry.1
  {
  }

  lemma RemoveKeeps(s: Sys, p: Pid, gone: bool, s': Sys)
    requires Inv(s) && Present(s, p) && DoesRemove(s, p, gone, s')
    ensures Inv(s')
  {
    hide ListOk, PhaseOk, Fresh, LogOk, DiedOk, DoesRemove, Keyed;
    RemoveLists(s, p, gone, s');
    RemoveRest(s, p, gone, s');
  }

  /** Every step keeps the invariant. */
  lemma StepKeepsInv(s: Sys, a: Action, s': Sys)
    requires Inv(s) && Does(s, a, s')
    ensures Inv(s')
  {
    hide Inv, DoesForkAdd, DoesForkLink, DoesDie, DoesStop, DoesContinue, DoesScan, DoesUnlink, DoesRemove;
    match a
    case ForkAdd(p) => ForkAddKeeps(s, p, s');
    case ForkLink(p) => ForkLinkKeeps(s, p, s');
    case Die(p, status) => DieKeeps(s, p, status, s');
    case Stop(p, sig) => StopKeeps(s, p, sig, s');
    case Continue(p) => StopKeeps(s, p, 0, s');
    case Scan(p, target, opts, busy, r) => ScanKeeps(s, p, target, opts, busy, r, s');
    case Unlink(p) => UnlinkKeeps(s, p, s');
    case Remove(p, gone) => RemoveKeeps(s, p, gone, s');
  }

  // ----- runs

  ghost predicate CanStep(s: Sys, s': Sys)
  {
    exists a :: Does(s, a, s')
  }

  ghost predicate StepAt(run: seq<Sys>, i: int)
  {
    0 <= i < |run| - 1 && CanStep(run[i], run[i + 1])
  }

  /** A run starts with some live tasks without children and takes any steps in any order. */
  ghost predicate Initial(s: Sys)
  {
    && s.kids.Keys == s.tasks.Keys && s.phase.Keys == s.tasks.Keys
    && (forall p :: p in s.tasks ==> p < s.nextPid && s.kids[p] == [] && s.phase[p] == Idle
                                     && s.tasks[p].firstChild == None && s.tasks[p].state == Alive)
    && s.died == {} && s.log == []
  }

  ghost predicate IsRun(run: seq<Sys>)
  {
    |run| >= 1 && Initial(run[0]) && forall i :: 0 <= i < |run| - 1 ==> StepAt(run, i)
  }

  lemma InitialInv(s: Sys)
    requires Initial(s)
    ensures Inv(s)
  {
  }

  lemma {:induction false} RunInv(run: seq<Sys>)
    requires IsRun(run)
    ensures Inv(run[|run| - 1])
  {
    hide Inv, Does, Initial;
    if |run| == 1 {
      InitialInv(run[0]);
    } else {
      var shorter := run[..|run| - 1];
      forall i | 0 <= i < |shorter| - 1 ensures StepAt(shorter, i) {
        assert StepAt(run, i);
      }
      RunInv(shorter);
      assert StepAt(run, |run| - 2);
      var a :| Does(run[|run| - 2], a, run[|run| - 1]);
      StepKeepsInv(run[|run| - 2], a, run[|run| - 1]);
    }
  }

  ghost predicate Dead(s: Sys, c: Pid) { c in s.tasks && s.tasks[c].state == Zombie }

  /** A scan by `p` finds `c` linked and dead, with this status in force, and starts to reap it. */
  ghost predicate FoundAt(s: Sys, s': Sys, p: Pid, c: Pid, status: int)
  {
    && Present(s, p) && c in s.kids[p] && Dead(s, c) && s.tasks[c].exitStatus == status
    && p in s'.phase && s'.phase[p] == Reaping(c, status)
  }

  /** `p` is reaping `c` with that status. */
  ghost predicate Pursued(s: Sys, p: Pid, c: Pid, status: int)
  {
    p in s.phase && (s.phase[p] == Reaping(c, status) || s.phase[p] == Unlinked(c, status))
  }

  lemma PursuedStep(s: Sys, a: Action, s': Sys, p: Pid, c: Pid, status: int)
    requires Does(s, a, s') && Pursued(s', p, c, status)
    ensures Pursued(s, p, c, status) || FoundAt(s, s', p, c, status)
  {
    hide WithChild, WithoutChild;
    if a.Scan? && a.p == p && a.r.Report? && c in s.tasks {
      ReapedWasDead(s, a, s');
    }
  }

  lemma ReapedWasDead(s: Sys, a: Action, s': Sys)
    requires Does(s, a, s') && a.Scan? && a.r.Report?
    ensures AfterScan(a.r).Reaping? ==> FoundAt(s, s', a.p, a.r.pid, a.r.status)
  {
    var c := a.r.pid;
    assert c in FirstChildren(s.kids[a.p]);
    if AfterScan(a.r).Reaping? {
      ReapedIsDead(s.tasks[c], a.opts, c in a.busy);
    }
  }

  lemma LoggedStep(s: Sys, a: Action, s': Sys, k: nat)
    requires Does(s, a, s') && k < |s'.log|
    ensures || (k < |s.log| && s'.log[k] == s.log[k])
            || Pursued(s, s'.log[k].0, s'.log[k].1, s'.log[k].2)
  {
    hide WithChild, WithoutChild, ScanStep;
  }

  ghost predicate FoundStep(run: seq<Sys>, i: int, p: Pid, c: Pid, status: int)
  {
    0 <= i < |run| - 1 && FoundAt(run[i], run[i + 1], p, c, status)
  }

  /** Some scan of the run found `c` dead with that status in force. */
  ghost predicate WasFound(run: seq<Sys>, p: Pid, c: Pid, status: int)
  {
    exists i :: FoundStep(run, i, p, c, status)
  }

  lemma FoundEarlier(run: seq<Sys>, p: Pid, c: Pid, status: int)
    requires |run| > 1 && WasFound(run[..|run| - 1], p, c, status)
    ensures WasFound(run, p, c, status)
  {
    hide FoundAt;
    var shorter := run[..|run| - 1];
    var i :| FoundStep(shorter, i, p, c, status);
    assert FoundStep(run, i, p, c, status);
  }

  lemma {:induction false} ReportsWereFound(run: seq<Sys>)
    requires IsRun(run)
    ensures forall p, c, status :: Pursued(run[|run| - 1], p, c, status) ==> WasFound(run, p, c, status)
    ensures var s := run[|run| - 1];
            forall k :: 0 <= k < |s.log| ==> WasFound(run, s.log[k].0, s.log[k].1, s.log[k].2)
  {
    if |run| > 1 {
      hide Does, WasFound, FoundAt, Pursued, Initial;
      var shorter := run[..|run| - 1];
      forall i | 0 <= i < |shorter| - 1 ensures StepAt(shorter, i) {
        assert StepAt(run, i);
      }
      ReportsWereFound(shorter);
      assert StepAt(run, |run| - 2);
      var s, s' := run[|run| - 2], run[|run| - 1];
      var a :| Does(s, a, s');
      forall p, c, status | Pursued(s', p, c, status) ensures WasFound(run, p, c, status) {
        PursuedStep(s, a, s', p, c, status);
        if Pursued(s, p, c, status) { FoundEarlier(run, p, c, status); } else { FoundNow(run, p, c, status); }
      }
      forall k | 0 <= k < |s'.log| ensures WasFound(run, s'.log[k].0, s'.log[k].1, s'.log[k].2) {
        LoggedStep(s, a, s', k);
        FoundEarlier(run, s'.log[k].0, s'.log[k].1, s'.log[k].2);
      }
    }
  }

  lemma FoundNow(run: seq<Sys>, p: Pid, c: Pid, status: int)
    requires |run| > 1 && FoundAt(run[|run| - 2], run[|run| - 1], p, c, status)
    ensures WasFound(run, p, c, status)
  {
    assert FoundStep(run, |run| - 2, p, c, status);
  }

  /** In every run: no child's death is returned twice; each returned status is the one the child had when a scan
      of that parent found it linked and dead, and cannot be read as a stop or a continue; and following the links
      from each parent visits exactly its children, all of them present. */
  lemma ReapedOnce(run: seq<Sys>)
    requires IsRun(run)
    ensures var s := run[|run| - 1];
            && (forall i, j :: 0 <= i < j < |s.log| ==> s.log[i].1 != s.log[j].1)
            && (forall i :: 0 <= i < |s.log| ==> WasFound(run, s.log[i].0, s.log[i].1, s.log[i].2))
            && (forall i :: 0 <= i < |s.log| ==> DeathStatus(s.log[i].2) && !LooksStopped(s.log[i].2) && !LooksContinued(s.log[i].2))
            && s.kids.Keys == s.tasks.Keys
            && (forall p {:trigger ListOk(s, p)} :: p in s.tasks ==> ListOk(s, p))
  {
    var s := run[|run| - 1];
    RunInv(run);
    ReportsWereFound(run);
    hide IsRun, WasFound;
    forall i | 0 <= i < |s.log| ensures DeathStatus(s.log[i].2) && !LooksStopped(s.log[i].2) && !LooksContinued(s.log[i].2) {
      var d := (s.log[i].1, s.log[i].2);
      assert d in s.died;
      DeathIsUnmistakable(d.1, 0);
    }
  }

  /** What a child did is what its parent reads when the next scan reports it: the exit code, the signal that killed or
      stopped it, or that it goes on. */
  lemma ParentReads(s: Sys, a: Action, s1: Sys, p: Pid, target: int, opts: WaitOptions, busy: set<Pid>, status: int, s2: Sys)
    requires a.Die? || a.Stop? || a.Continue?
    requires Does(s, a, s1) && Does(s1, Scan(p, target, opts, busy, Report(a.p, status)), s2)
    ensures a.Die? ==> status == a.status
    ensures forall code: int :: a.Die? && a.status == ExitedStatus(code) ==> status % 256 == 0 && status / 256 == code % 256
    ensures forall signo: nat :: a.Die? && 1 <= signo <= 64 && a.status == SignaledStatus(signo) ==> status == signo
    ensures a.Stop? && a.sig < 256 ==> opts.untraced && status % 256 == 0x7F && status / 256 == a.sig
    ensures a.Continue? ==> opts.continued && status == 0xFFFF
  {
    ScanReads(s1.tasks, s2.tasks, FirstChildren(s1.kids[p]), target, opts, busy, Report(a.p, status));
    hide ScanStep, Reportable;
  }

  /** A wait that starts with a dead matching child among its first 64 returns a report; it never blocks. */
  lemma DeadChildIsReported(s: Sys, p: Pid, target: int, opts: WaitOptions, busy: set<Pid>, r: Outcome, s': Sys, c: Pid)
    requires Inv(s) && Present(s, p) && DoesScan(s, p, target, opts, busy, r, s')
    requires c in FirstChildren(s.kids[p]) && Matches(target, c) && Dead(s, c)
    ensures r.Report?
  {
  }

  /** The 64-entry buffer is the exact limit: a plain wait is certain to return if and only if a matching
      dead child is among the first 64 linked ones. With none there, it blocks even if later ones are dead. */
  lemma BlocksExactlyPastBuffer(s: Sys, p: Pid, target: int, r: Outcome, s': Sys)
    requires Inv(s) && Present(s, p) && DoesScan(s, p, target, WaitOptions(false, false), {}, r, s')
    requires s.kids[p] != []
    ensures r.WouldBlock? <==> forall c :: c in FirstChildren(s.kids[p]) && Matches(target, c) ==> !Dead(s, c)
  {
  }

  // ----- a dead child that the scan does not see

  function Descending(n: nat): seq<Pid>
  {
    if n == 0 then [] else [n + 1] + Descending(n - 1)
  }

  lemma {:induction false} DescendingAt(n: nat, i: nat)
    requires i < n
    ensures |Descending(n)| == n && Descending(n)[i] == n + 1 - i
    decreases n
  {
    if n > 1 { DescendingAt(n - 1, if i > 0 then i - 1 else 0); }
  }

  /** Process 1 has forked `n` times, and nothing else has happened. */
  ghost predicate HasForked(s: Sys, n: nat)
  {
    && Present(s, 1) && s.phase[1] == Idle && s.nextPid == n + 2 && s.kids[1] == Descending(n)
    && forall c {:trigger LivingAt(s, c)} :: 2 <= c <= n + 1 ==> LivingAt(s, c)
  }

  ghost predicate LivingAt(s: Sys, c: Pid)
  {
    Present(s, c) && s.tasks[c].state == Alive
  }

  lemma RunExtend(run: seq<Sys>, a: Action, s: Sys)
    requires IsRun(run) && Does(run[|run| - 1], a, s)
    ensures IsRun(run + [s])
  {
    hide Does;
    var longer := run + [s];
    forall i | 0 <= i < |longer| - 1 ensures StepAt(longer, i) {
      if i < |run| - 1 { assert StepAt(run, i); }
    }
  }

  lemma {:induction false} ForkRun(n: nat) returns (run: seq<Sys>)
    ensures IsRun(run) && HasForked(run[|run| - 1], n)
  {
    if n == 0 {
      run := ForkStart();
    } else {
      hide Inv, HasForked, IsRun;
      run := ForkRun(n - 1);
      var s := run[|run| - 1];
      RunInv(run);
      run := ForkOnce(run, s, n - 1);
    }
  }

  lemma ForkStart() returns (run: seq<Sys>)
    ensures IsRun(run) && HasForked(run[|run| - 1], 0)
  {
    var s := Sys(map[1 := NewTask(0)], 2, map[1 := []], map[1 := Idle], {}, []);
    run := [s];
    assert Initial(s);
  }

  lemma ForkOnce(run: seq<Sys>, s: Sys, n: nat) returns (longer: seq<Sys>)
    requires IsRun(run) && run[|run| - 1] == s && HasForked(s, n) && Inv(s)
    ensures IsRun(longer) && HasForked(longer[|longer| - 1], n + 1)
  {
    hide IsRun, Inv, WithChild, SameButLinks, HasForked;
    assert Present(s, 1) && s.phase[1] == Idle && s.nextPid == n + 2 by { ForkedFacts(s, n); }
    var c := s.nextPid;
    var s1 := s.(tasks := s.tasks[c := NewTask(1)], nextPid := c + 1,
                 kids := s.kids[c := []], phase := s.phase[c := Idle][1 := Forked(c)]);
    var s2 := s1.(tasks := WithChild(s1.tasks, 1, c), kids := s1.kids[1 := [c] + s1.kids[1]], phase := s1.phase[1 := Idle]);
    assert DoesForkAdd(s, 1, s1) && DoesForkLink(s1, 1, s2);
    hide DoesForkAdd, DoesForkLink;
    StepKeepsInv(s, ForkAdd(1), s1);
    ForkLinkLists(s1, 1, s2);
    RunExtend(run, ForkAdd(1), s1);
    RunExtend(run + [s1], ForkLink(1), s2);
    longer := run + [s1] + [s2];
    ForkStates(s, n, s1, s2);
  }

  lemma ForkedFacts(s: Sys, n: nat)
    requires HasForked(s, n)
    ensures Present(s, 1) && s.phase[1] == Idle && s.nextPid == n + 2
  {
  }

  lemma ForkStates(s: Sys, n: nat, s1: Sys, s2: Sys)
    requires HasForked(s, n) && DoesForkAdd(s, 1, s1)
    requires Present(s1, 1) && DoesForkLink(s1, 1, s2) && SameButLinks(s1.tasks, s2.tasks)
    ensures HasForked(s2, n + 1)
  {
    hide WithChild;
    forall d | 2 <= d <= n + 2 ensures LivingAt(s2, d) {
      assert d != n + 2 ==> LivingAt(s, d);
      assert LivingAt(s1, d);
    }
  }

  /** Waiting with a linked dead child can block: a process with more than 64 children whose first one dies
      does not see it. */
  lemma LateDeathBlocks(n: nat) returns (run: seq<Sys>)
    requires n > CHILD_BUFFER
    ensures IsRun(run)
    ensures var s := run[|run| - 1];
            && Present(s, 1) && 2 in s.kids[1] && Dead(s, 2) && Matches(-1, 2)
            && DoesScan(s, 1, -1, WaitOptions(false, false), {}, WouldBlock, s)
  {
    run := ForkRun(n);
    var s0 := run[|run| - 1];
    assert LivingAt(s0, 2);
    assert DeathStatus(0) by { assert 0 == ExitedStatus(0); }
    var s := s0.(tasks := s0.tasks[2 := s0.tasks[2].(state := Zombie, exitStatus := 0)], died := s0.died + {(2, 0)});
    assert DoesDie(s0, 2, 0, s);
    RunExtend(run, Die(2, 0), s);
    run := run + [s];
    hide IsRun;
    DescendingAt(n, n - 1);
    forall c | c in FirstChildren(s.kids[1]) ensures !Reportable(s.tasks, -1, WaitOptions(false, false), {}, c) {
      var i :| 0 <= i < 64 && s.kids[1][i] == c;
      DescendingAt(n, i);
      assert LivingAt(s0, c) && c != 2;
    }
    assert s.phase[1 := Idle] == s.phase;
  }
}
