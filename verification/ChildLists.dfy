/** The process table: tasks, their intrusive lists of children, and the scan that `waitpid` makes. */
module ChildLists {
  import opened Basics

  type Pid = nat

  datatype State = Alive | Stopped | Zombie

  /** The fields of a task that forking, dying and waiting touch; `None` stands for PID_NONE. */
  datatype Task = Task(
    ppid: Pid,
    state: State,
    exitStatus: int,
    firstChild: Option<Pid>,
    next: Option<Pid>,
    prev: Option<Pid>,
    stopSignal: Option<nat>,
    continued: bool)

  type Tasks = map<Pid, Task>

  function At(l: seq<Pid>, i: int): Option<Pid>
  {
    if 0 <= i < |l| then Some(l[i]) else None
  }

  /** Member `i` of the list is a task whose links name its neighbours. */
  ghost predicate LinkOk(tasks: Tasks, l: seq<Pid>, i: int)
    requires 0 <= i < |l|
  {
    l[i] in tasks && tasks[l[i]].next == At(l, i + 1) && tasks[l[i]].prev == At(l, i - 1)
  }

  /** Following the links from `first` visits exactly `l`. */
  ghost predicate IsList(tasks: Tasks, first: Option<Pid>, l: seq<Pid>)
  {
    && Distinct(l)
    && first == At(l, 0)
    && forall i :: 0 <= i < |l| ==> LinkOk(tasks, l, i)
  }

  // ----- linking and unlinking

  function SetNext(tasks: Tasks, p: Pid, n: Option<Pid>): Tasks
  {
    if p in tasks then tasks[p := tasks[p].(next := n)] else tasks
  }

  function SetPrev(tasks: Tasks, p: Pid, n: Option<Pid>): Tasks
  {
    if p in tasks then tasks[p := tasks[p].(prev := n)] else tasks
  }

  function SetFirst(tasks: Tasks, p: Pid, n: Option<Pid>): Tasks
  {
    if p in tasks then tasks[p := tasks[p].(firstChild := n)] else tasks
  }

  /** The process table; each step below is one run-queue lock acquisition. */
  class ProcessTable {
    var tasks: Tasks

    /** `add_task_child` */
    method AddTaskChild(parent: Pid, child: Pid)
      modifies this
      ensures tasks == WithChild(old(tasks), parent, child)
      ensures forall l: seq<Pid> :: CanPrepend(old(tasks), parent, child, l) ==>
                SameButLinks(old(tasks), tasks) && IsList(tasks, tasks[parent].firstChild, [child] + l)
                && OnlyFamilyTouched(old(tasks), tasks, parent, [child] + l)
    {
      var oldFirst := if parent in tasks then tasks[parent].firstChild else None;
      tasks := SetPrev(SetNext(tasks, child, oldFirst), child, None);
      tasks := SetFirst(tasks, parent, Some(child));
      if oldFirst.Some? {
        tasks := SetPrev(tasks, oldFirst.value, Some(child));
      }
      hide WithChild, SameButLinks, IsList;
      forall l: seq<Pid> | CanPrepend(old(tasks), parent, child, l)
        ensures SameButLinks(old(tasks), tasks) && IsList(tasks, tasks[parent].firstChild, [child] + l)
                && OnlyFamilyTouched(old(tasks), tasks, parent, [child] + l)
      {
        PrependMeans(old(tasks), parent, child, l);
      }
    }

    /** `remove_task_child` */
    method RemoveTaskChild(parent: Pid, child: Pid)
      modifies this
      ensures tasks == WithoutChild(old(tasks), parent, child)
      ensures forall l: seq<Pid>, k: nat :: CanUnlink(old(tasks), parent, child, l, k) ==>
                SameButLinks(old(tasks), tasks) && IsList(tasks, tasks[parent].firstChild, l[..k] + l[k + 1..])
                && OnlyFamilyTouched(old(tasks), tasks, parent, l)
    {
      var prev := if child in tasks then tasks[child].prev else None;
      var next := if child in tasks then tasks[child].next else None;
      if prev.Some? {
        tasks := SetNext(tasks, prev.value, next);
      } else if parent in tasks && tasks[parent].firstChild == Some(child) {
        tasks := SetFirst(tasks, parent, next);
      }
      if next.Some? {
        tasks := SetPrev(tasks, next.value, prev);
      }
      tasks := SetPrev(SetNext(tasks, child, None), child, None);
      hide WithoutChild, SameButLinks, IsList;
      forall l: seq<Pid>, k: nat | CanUnlink(old(tasks), parent, child, l, k)
        ensures SameButLinks(old(tasks), tasks) && IsList(tasks, tasks[parent].firstChild, l[..k] + l[k + 1..])
                && OnlyFamilyTouched(old(tasks), tasks, parent, l)
      {
        UnlinkMeans(old(tasks), parent, child, l, k);
      }
    }

    /** `get_task_children_noalloc`: the first 64 children. */
    method GetTaskChildren(parent: Pid, ghost l: seq<Pid>) returns (buf: seq<Pid>)
      requires parent in tasks && IsList(tasks, tasks[parent].firstChild, l)
      ensures buf == FirstChildren(l) == if |l| <= 64 then l else l[..64]
    {
      buf := [];
      var current := tasks[parent].firstChild;
      while current.Some? && |buf| < CHILD_BUFFER
        invariant |buf| <= CHILD_BUFFER && |buf| <= |l| && buf == l[..|buf|]
        invariant current == At(l, |buf|)
        decreases CHILD_BUFFER - |buf|
      {
        assert LinkOk(tasks, l, |buf|);
        buf := buf + [current.value];
        current := if current.value in tasks then tasks[current.value].next else None;
      }
      assert |buf| == |l| ==> l[..|buf|] == l;
    }

    /** `find_child_state_change`: takes the report of the first reportable child, if any. */
    method FindChildStateChange(parent: Pid, target: int, opts: WaitOptions, busy: set<Pid>, ghost l: seq<Pid>)
      returns (r: Outcome)
      requires parent in tasks && IsList(tasks, tasks[parent].firstChild, l)
      modifies this
      ensures ScanStep(old(tasks), tasks, FirstChildren(l), target, opts, busy, r)
      ensures r.Report? ==> r.pid in l && (target > 0 ==> r.pid == target)
                            && r.pid in old(tasks) && r.pid in tasks && tasks == old(tasks)[r.pid := tasks[r.pid]]
                            && Reads(old(tasks)[r.pid], opts, r.status, tasks[r.pid])
    {
      var buf := GetTaskChildren(parent, l);
      if |buf| == 0 {
        return NoChildren;
      }
      for i := 0 to |buf|
        invariant tasks == old(tasks)
        invariant forall j :: 0 <= j < i ==> !Reportable(tasks, target, opts, busy, buf[j])
      {
        var c := buf[i];
        if target > 0 && c != target {
          continue;
        }
        if c in tasks {
          var t := tasks[c];
          if t.state == Zombie {
            assert FirstReportable(tasks, buf, target, opts, busy, c);
            assert tasks[c := Taken(t, opts)] == tasks;
            return Report(c, t.exitStatus);
          }
          if opts.untraced && t.state == Stopped && c !in busy && t.stopSignal.Some? {
            assert FirstReportable(tasks, buf, target, opts, busy, c);
            tasks := tasks[c := t.(stopSignal := None)];
            return Report(c, StoppedStatus(t.stopSignal.value));
          }
          if opts.continued && c !in busy && t.continued {
            assert FirstReportable(tasks, buf, target, opts, busy, c);
            tasks := tasks[c := t.(continued := false)];
            return Report(c, CONTINUED_STATUS);
          }
        }
      }
      return WouldBlock;
    }

    /** One turn of the loop in `kernel_wait`; `None` says that the caller sleeps and tries again. `gone` says
        whether the reaped task could be removed within the retry limit, `signalled` whether the sleep ends with a
        signal pending that interrupts the call. */
    method WaitOnce(parent: Pid, target: int, opts: WaitOptions, nohang: bool, signalled: bool, busy: set<Pid>, gone: bool,
                    ghost l: seq<Pid>)
      returns (code: Option<int>, ghost r: Outcome, ghost scanned: Tasks)
      requires parent in tasks && IsList(tasks, tasks[parent].firstChild, l)
      modifies this
      ensures ScanStep(old(tasks), scanned, FirstChildren(l), target, opts, busy, r)
      ensures tasks == AfterWait(scanned, parent, gone, r)
      ensures tasks == if r.Report? && r.status % 256 != 0x7F && r.status != 0xFFFF
                       then WithoutChild(scanned, parent, r.pid) - (if gone then {r.pid} else {}) else scanned
      ensures r.Report? && old(tasks)[r.pid].state != Zombie ==> tasks == scanned
      ensures r.Report? && old(tasks)[r.pid].state == Zombie && DeathStatus(r.status) ==>
                scanned == old(tasks) && tasks == WithoutChild(scanned, parent, r.pid) - (if gone then {r.pid} else {})
      ensures match r
              case NoChildren => code == Some(-10)
              case WouldBlock => code == if nohang then Some(0) else if signalled then Some(-4) else None
              case Report(pid, status) => code == Some(PackWait(pid, status))
    {
      var found := FindChildStateChange(parent, target, opts, busy, l);
      r, scanned := found, tasks;
      match found
      case NoChildren =>
        return Some(-10), r, scanned;
      case WouldBlock =>
        return if nohang then Some(0) else if signalled then Some(-4) else None, r, scanned;
      case Report(pid, status) =>
        if !LooksStopped(status) && !LooksContinued(status) {
          RemoveTaskChild(parent, pid);
          if gone {
            tasks := tasks - {pid};
          }
        }
        return Some(PackWait(pid, status)), r, scanned;
    }
  }

  /** A reported death is unlinked and, when that works out, removed; a stop or a continue leaves the child. */
  function AfterWait(tasks: Tasks, parent: Pid, gone: bool, r: Outcome): Tasks
  {
    if r.Report? && !LooksStopped(r.status) && !LooksContinued(r.status)
    then (if gone then WithoutChild(tasks, parent, r.pid) - {r.pid} else WithoutChild(tasks, parent, r.pid))
    else tasks
  }

  const CHILD_BUFFER := 64

  function FirstChildren(l: seq<Pid>): seq<Pid>
  {
    if |l| <= CHILD_BUFFER then l else l[..CHILD_BUFFER]
  }

  function WithChild(tasks: Tasks, parent: Pid, child: Pid): Tasks
  {
    var oldFirst := if parent in tasks then tasks[parent].firstChild else None;
    var linked := SetFirst(SetPrev(SetNext(tasks, child, oldFirst), child, None), parent, Some(child));
    if oldFirst.Some? then SetPrev(linked, oldFirst.value, Some(child)) else linked
  }

  function WithoutChild(tasks: Tasks, parent: Pid, child: Pid): Tasks
  {
    var prev := if child in tasks then tasks[child].prev else None;
    var next := if child in tasks then tasks[child].next else None;
    var a := if prev.Some? then SetNext(tasks, prev.value, next)
             else if parent in tasks && tasks[parent].firstChild == Some(child) then SetFirst(tasks, parent, next)
             else tasks;
    var b := if next.Some? then SetPrev(a, next.value, prev) else a;
    SetPrev(SetNext(b, child, None), child, None)
  }

  /** `l` is the parent's list, and `child` is a task outside it. */
  ghost predicate CanPrepend(tasks: Tasks, parent: Pid, child: Pid, l: seq<Pid>)
  {
    && parent in tasks && child in tasks && parent != child
    && IsList(tasks, tasks[parent].firstChild, l) && child !in l && parent !in l
  }

  /** `l` is the parent's list, and `child` is its member `k`. */
  ghost predicate CanUnlink(tasks: Tasks, parent: Pid, child: Pid, l: seq<Pid>, k: nat)
  {
    parent in tasks && IsList(tasks, tasks[parent].firstChild, l) && parent !in l && k < |l| && l[k] == child
  }

  /** Tasks outside `l` keep their links, and parents other than `parent` their first child. */
  ghost predicate OnlyFamilyTouched(tasks: Tasks, tasks': Tasks, parent: Pid, l: seq<Pid>)
  {
    forall p :: p in tasks ==>
      && (p !in l ==> SameLinks(tasks, tasks', p))
      && (p != parent ==> p in tasks' && tasks'[p].firstChild == tasks[p].firstChild)
  }

  /** Only links differ: same tasks, same parents, states, statuses and flags. */
  ghost predicate SameButLinks(tasks: Tasks, tasks': Tasks)
  {
    && tasks'.Keys == tasks.Keys
    && forall p :: p in tasks ==>
         tasks'[p].(firstChild := None, next := None, prev := None) == tasks[p].(firstChild := None, next := None, prev := None)
  }

  /** Prepending: the list of `parent` gains `child` in front. */
  lemma WithChildList(tasks: Tasks, parent: Pid, child: Pid, l: seq<Pid>)
    requires parent in tasks && child in tasks && parent != child
    requires IsList(tasks, tasks[parent].firstChild, l) && child !in l && parent !in l
    ensures SameButLinks(tasks, WithChild(tasks, parent, child))
    ensures IsList(WithChild(tasks, parent, child), WithChild(tasks, parent, child)[parent].firstChild, [child] + l)
  {
    var tasks' := WithChild(tasks, parent, child);
    var l' := [child] + l;
    if l != [] { assert LinkOk(tasks, l, 0); }
    forall i | 0 <= i < |l'| ensures LinkOk(tasks', l', i) {
      if i > 0 {
        assert LinkOk(tasks, l, i - 1);
        assert l'[i] == l[i - 1];
      }
    }
  }

  /** Unlinking from anywhere: the list of `parent` loses just that child. */
  lemma WithoutChildList(tasks: Tasks, parent: Pid, l: seq<Pid>, k: nat)
    requires parent in tasks && k < |l|
    requires IsList(tasks, tasks[parent].firstChild, l) && parent !in l
    ensures var tasks' := WithoutChild(tasks, parent, l[k]);
            SameButLinks(tasks, tasks') && IsList(tasks', tasks'[parent].firstChild, l[..k] + l[k + 1..])
  {
    WithoutChildRest(tasks, parent, l, k);
    hide WithoutChild, LinkOk, SameButLinks;
    var tasks', l' := WithoutChild(tasks, parent, l[k]), l[..k] + l[k + 1..];
    forall i | 0 <= i < |l'| ensures LinkOk(tasks', l', i) {
      WithoutChildLink(tasks, parent, l, k, i);
    }
  }

  lemma WithoutChildRest(tasks: Tasks, parent: Pid, l: seq<Pid>, k: nat)
    requires parent in tasks && k < |l|
    requires IsList(tasks, tasks[parent].firstChild, l) && parent !in l
    ensures var tasks' := WithoutChild(tasks, parent, l[k]);
            SameButLinks(tasks, tasks') && tasks'[parent].firstChild == At(l[..k] + l[k + 1..], 0)
  {
    assert LinkOk(tasks, l, k);
    if k > 0 { assert LinkOk(tasks, l, k - 1); }
    if k + 1 < |l| { assert LinkOk(tasks, l, k + 1); }
  }

  lemma WithoutChildLink(tasks: Tasks, parent: Pid, l: seq<Pid>, k: nat, i: nat)
    requires parent in tasks && k < |l| && i < |l| - 1
    requires IsList(tasks, tasks[parent].firstChild, l) && parent !in l
    ensures LinkOk(WithoutChild(tasks, parent, l[k]), l[..k] + l[k + 1..], i)
  {
    var l' := l[..k] + l[k + 1..];
    assert LinkOk(tasks, l, k);
    if k > 0 { assert LinkOk(tasks, l, k - 1); }
    if k + 1 < |l| { assert LinkOk(tasks, l, k + 1); }
    if i < k {
      assert LinkOk(tasks, l, i);
    } else {
      assert LinkOk(tasks, l, i + 1);
      assert l'[i] == l[i + 1];
    }
  }

  ghost predicate SameLinks(tasks: Tasks, tasks': Tasks, c: Pid)
  {
    c in tasks && c in tasks' && tasks'[c].next == tasks[c].next && tasks'[c].prev == tasks[c].prev
  }

  /** Lists none of whose members were touched are still lists. */
  lemma ListFrame(tasks: Tasks, tasks': Tasks, first: Option<Pid>, l: seq<Pid>)
    requires IsList(tasks, first, l)
    requires forall c :: c in l ==> SameLinks(tasks, tasks', c)
    ensures IsList(tasks', first, l)
  {
    forall i | 0 <= i < |l| ensures LinkOk(tasks', l, i) {
      assert LinkOk(tasks, l, i) && l[i] in l;
    }
  }

  /** Linking touches the links of `child` and of its new siblings only, and one list head. */
  lemma WithChildFootprint(tasks: Tasks, parent: Pid, child: Pid, l: seq<Pid>, p: Pid)
    requires parent in tasks && IsList(tasks, tasks[parent].firstChild, l) && p in tasks
    ensures p !in l && p != child ==> SameLinks(tasks, WithChild(tasks, parent, child), p)
    ensures p != parent ==> WithChild(tasks, parent, child)[p].firstChild == tasks[p].firstChild
  {
  }

  /** Unlinking touches the links of members of the list only, and one list head. */
  lemma WithoutChildFootprint(tasks: Tasks, parent: Pid, child: Pid, l: seq<Pid>, p: Pid)
    requires parent in tasks && IsList(tasks, tasks[parent].firstChild, l) && p in tasks && child in l
    ensures p !in l ==> SameLinks(tasks, WithoutChild(tasks, parent, child), p)
    ensures p != parent ==> WithoutChild(tasks, parent, child)[p].firstChild == tasks[p].firstChild
  {
    var k :| 0 <= k < |l| && l[k] == child;
    assert LinkOk(tasks, l, k);
  }

  // ----- the scan of waitpid

  datatype WaitOptions = WaitOptions(untraced: bool, continued: bool)

  datatype Outcome = Report(pid: Pid, status: int) | NoChildren | WouldBlock

  function ExitedStatus(code: int): int { code % 256 * 256 }

  function StoppedStatus(sig: nat): int { sig % 256 * 256 + 0x7F }

  const CONTINUED_STATUS := 0xFFFF

  function SignaledStatus(signo: nat): int { signo % 128 }

  /** What a child in this state has to report; `busy` says that its metadata lock was not obtained. */
  function ReportOf(t: Task, opts: WaitOptions, busy: bool): Option<int>
  {
    if t.state == Zombie then Some(t.exitStatus)
    else if opts.untraced && t.state == Stopped && !busy && t.stopSignal.Some? then Some(StoppedStatus(t.stopSignal.value))
    else if opts.continued && !busy && t.continued then Some(CONTINUED_STATUS)
    else None
  }

  /** A stop of `t` is to be reported to a parent that asks for stops. */
  predicate StopPending(t: Task, opts: WaitOptions)
  {
    t.state == Stopped && opts.untraced && t.stopSignal.Some?
  }

  /** What the parent reads of a child in state `t`: a recorded status as it is, the stopping signal in the second
      byte over 0x7F, or all ones in two bytes. A stop or a continue is gone from `t'`, a death is not. */
  ghost predicate Reads(t: Task, opts: WaitOptions, status: int, t': Task)
  {
    if t.state == Zombie then status == t.exitStatus && t' == t
    else if StopPending(t, opts)
    then status % 256 == 0x7F && status / 256 == t.stopSignal.value % 256 && t' == t.(stopSignal := None)
    else opts.continued && t.continued && status == 0xFFFF && t' == t.(continued := false)
  }

  /** The child after its report was taken: a stop or a continue is reported once. */
  function Taken(t: Task, opts: WaitOptions): Task
  {
    if t.state == Zombie then t
    else if opts.untraced && t.state == Stopped && t.stopSignal.Some? then t.(stopSignal := None)
    else t.(continued := false)
  }

  predicate Matches(target: int, c: Pid) { target <= 0 || c == target }

  predicate Reportable(tasks: Tasks, target: int, opts: WaitOptions, busy: set<Pid>, c: Pid)
  {
    Matches(target, c) && c in tasks && ReportOf(tasks[c], opts, c in busy).Some?
  }

  /** The earliest child of `buf` that has something to report. */
  ghost predicate FirstReportable(tasks: Tasks, buf: seq<Pid>, target: int, opts: WaitOptions, busy: set<Pid>, c: Pid)
  {
    && Reportable(tasks, target, opts, busy, c)
    && exists k :: 0 <= k < |buf| && buf[k] == c && forall j :: 0 <= j < k ==> !Reportable(tasks, target, opts, busy, buf[j])
  }

  /** One scan of the children in `buf`: it reports exactly when some child listed has something to report, and
      then the earliest one. */
  ghost predicate ScanStep(tasks: Tasks, tasks': Tasks, buf: seq<Pid>, target: int, opts: WaitOptions, busy: set<Pid>, r: Outcome)
  {
    match r
    case NoChildren => buf == [] && tasks' == tasks
    case WouldBlock => buf != [] && tasks' == tasks && forall c :: c in buf ==> !Reportable(tasks, target, opts, busy, c)
    case Report(c, status) =>
      && FirstReportable(tasks, buf, target, opts, busy, c)
      && status == ReportOf(tasks[c], opts, c in busy).value
      && tasks' == tasks[c := Taken(tasks[c], opts)]
  }

  lemma PrependMeans(tasks: Tasks, parent: Pid, child: Pid, l: seq<Pid>)
    requires CanPrepend(tasks, parent, child, l)
    ensures var tasks' := WithChild(tasks, parent, child);
            && SameButLinks(tasks, tasks') && IsList(tasks', tasks'[parent].firstChild, [child] + l)
            && OnlyFamilyTouched(tasks, tasks', parent, [child] + l)
  {
    WithChildList(tasks, parent, child, l);
    var tasks' := WithChild(tasks, parent, child);
    forall p | p in tasks ensures && (p !in [child] + l ==> SameLinks(tasks, tasks', p))
                                  && (p != parent ==> p in tasks' && tasks'[p].firstChild == tasks[p].firstChild) {
      WithChildFootprint(tasks, parent, child, l, p);
    }
  }

  lemma UnlinkMeans(tasks: Tasks, parent: Pid, child: Pid, l: seq<Pid>, k: nat)
    requires CanUnlink(tasks, parent, child, l, k)
    ensures var tasks' := WithoutChild(tasks, parent, child);
            && SameButLinks(tasks, tasks') && IsList(tasks', tasks'[parent].firstChild, l[..k] + l[k + 1..])
            && OnlyFamilyTouched(tasks, tasks', parent, l)
  {
    WithoutChildList(tasks, parent, l, k);
    var tasks' := WithoutChild(tasks, parent, child);
    hide IsList;
    forall p | p in tasks ensures && (p !in l ==> SameLinks(tasks, tasks', p))
                                  && (p != parent ==> p in tasks' && tasks'[p].firstChild == tasks[p].firstChild) {
      WithoutChildFootprint(tasks, parent, child, l, p);
    }
  }

  lemma ScanReads(tasks: Tasks, tasks': Tasks, buf: seq<Pid>, target: int, opts: WaitOptions, busy: set<Pid>, r: Outcome)
    requires ScanStep(tasks, tasks', buf, target, opts, busy, r) && r.Report?
    ensures r.pid in buf && (target > 0 ==> r.pid == target) && r.pid in tasks && r.pid in tasks'
    ensures tasks' == tasks[r.pid := tasks'[r.pid]] && Reads(tasks[r.pid], opts, r.status, tasks'[r.pid])
  {
  }

  /** A stop or a continue is reported once: if the next scan, with whatever options, reports the same living child
      again, then the other of the two. */
  lemma ReportedOnce(tasks: Tasks, tasks': Tasks, tasks'': Tasks, c: Pid, status: int, status': int,
                     buf: seq<Pid>, target: int, opts: WaitOptions, busy: set<Pid>,
                     buf': seq<Pid>, target': int, opts': WaitOptions, busy': set<Pid>)
    requires ScanStep(tasks, tasks', buf, target, opts, busy, Report(c, status)) && tasks[c].state != Zombie
    requires ScanStep(tasks', tasks'', buf', target', opts', busy', Report(c, status'))
    ensures (status % 256 == 0x7F && status' == 0xFFFF) || (status == 0xFFFF && status' % 256 == 0x7F)
    ensures tasks''[c].stopSignal == None && !tasks''[c].continued
  {
    ScanReads(tasks, tasks', buf, target, opts, busy, Report(c, status));
    ScanReads(tasks', tasks'', buf', target', opts', busy', Report(c, status'));
    hide ScanStep;
  }

  /** What a parent reads back from a status: the stopping signal, the exit code, or the signal that killed. */
  lemma StatusReadsBack(sig: nat, code: int, signo: nat)
    ensures sig < 256 ==> StoppedStatus(sig) % 256 == 0x7F && StoppedStatus(sig) / 256 == sig
    ensures ExitedStatus(code) % 256 == 0 && ExitedStatus(code) / 256 == code % 256
    ensures 1 <= signo <= 64 ==> SignaledStatus(signo) % 128 == signo && SignaledStatus(signo) / 128 == 0
    ensures CONTINUED_STATUS == 0xFFFF
  {
  }

  // ----- telling a death from a stop or a continue

  predicate LooksStopped(status: int) { status % 256 == 0x7F }

  predicate LooksContinued(status: int) { status == CONTINUED_STATUS }

  /** The statuses the kernel records for a death: an exit code, a signal from 1 to 64, or 139. */
  ghost predicate DeathStatus(s: int)
  {
    || (exists code: int :: s == ExitedStatus(code))
    || (exists signo: nat :: 1 <= signo <= 64 && s == SignaledStatus(signo))
    || s == 139
  }

  /** No recorded death is taken for a stop or a continue, and neither of those for a death. */
  lemma DeathIsUnmistakable(s: int, sig: nat)
    ensures DeathStatus(s) ==> !LooksStopped(s) && !LooksContinued(s) && 0 <= s < 0x1_0000
    ensures LooksStopped(StoppedStatus(sig)) && LooksContinued(CONTINUED_STATUS)
  {
  }

  /** Beyond signal 64 the encoding is ambiguous for one number only. */
  lemma SignalMistakenExactly(signo: nat)
    requires 1 <= signo <= 127
    ensures LooksStopped(SignaledStatus(signo)) <==> signo == 127
    ensures !LooksContinued(SignaledStatus(signo))
  {
  }

  /** The value `waitpid` returns, and what its caller takes apart. */
  function PackWait(pid: Pid, status: int): (r: int)
    ensures r / 0x1_0000_0000 == pid && r % 0x1_0000_0000 == status % 0x1_0000_0000
  {
    pid * 0x1_0000_0000 + status % 0x1_0000_0000
  }
}
