/**
 Handing a process over to a new address space in `exec`, while CPUs switch between tasks. A switch is two
 steps: the new task is published as current first, and its page tables are loaded later.
 */
module ExecHandover {

  type Pid = nat
  type Cpu = nat
  type Root = nat

  /** Every CPU has an idle task of its own, all with this id. */
  const IDLE_PID: Pid := 0

  /** The three steps that commit an exec: store the new root in the task, load it, drop the old space. */
  datatype Commit = StoreRoot | LoadRoot | DropOld

  type Order = seq<Commit>

  /** The order the kernel uses. */
  const KERNEL_ORDER: Order := [StoreRoot, LoadRoot, DropOld]

  predicate IsOrder(order: Order)
  {
    |order| == 3 && order[0] != order[1] && order[0] != order[2] && order[1] != order[2]
  }

  /** A task's exec: `root` is the top table of the new address space, `done` counts the commit steps taken. */
  datatype Stage = Out | Building(root: Root, done: nat)

  /** `live` are the allocated top tables. `task` is the root stored for the scheduler; `meta` is the address
      space the process owns. Kernel and idle tasks own none and store 0. `curr` is the task each CPU has
      published; a CPU in `loading` has not yet loaded the root it noted there. */
  datatype Sys = Sys(
    kernel: Root,
    live: set<Root>,
    task: map<Pid, Root>,
    meta: map<Pid, Root>,
    stage: map<Pid, Stage>,
    curr: map<Cpu, Pid>,
    cr3: map<Cpu, Root>,
    loading: map<Cpu, Root>)

  datatype Action =
    | Build(cpu: Cpu, root: Root)
    | Abort(cpu: Cpu)
    | Advance(cpu: Cpu)
    | Publish(cpu: Cpu, pid: Pid)
    | Load(cpu: Cpu)
    | Fork(cpu: Cpu, child: Pid, root: Root)
    | Reap(cpu: Cpu, pid: Pid)

  // ----- the steps

  /** The process running on `cpu`, if it has an address space of its own. */
  ghost predicate Runs(s: Sys, cpu: Cpu, p: Pid)
  {
    cpu in s.curr && cpu in s.cr3 && s.curr[cpu] == p && p in s.task && p in s.meta && p in s.stage
  }

  ghost predicate Waiting(s: Sys, p: Pid)
  {
    forall c :: c in s.curr ==> s.curr[c] != p
  }

  /** What a switch to `p` puts into CR3. */
  function Loaded(s: Sys, p: Pid): Root
    requires p in s.task
  {
    if s.task[p] == 0 then s.kernel else s.task[p]
  }

  /** A CPU in the middle of a switch does nothing but finish it. Only an idle task, or one that is nowhere
      current, is published, and only the latter is reaped. */
  ghost predicate Enabled(order: Order, s: Sys, a: Action)
  {
    && a.cpu in s.curr && a.cpu in s.cr3
    && (a.Load? <==> a.cpu in s.loading)
    && var p := s.curr[a.cpu];
    match a
    case Build(cpu, root) => Runs(s, cpu, p) && s.stage[p].Out? && root !in s.live && root != 0
    case Abort(cpu) => Runs(s, cpu, p) && s.stage[p].Building? && s.stage[p].done == 0
    case Advance(cpu) => Runs(s, cpu, p) && s.stage[p].Building? && s.stage[p].done < |order|
    case Publish(cpu, q) => q in s.task && (q == IDLE_PID || Waiting(s, q))
    case Load(cpu) => true
    case Fork(cpu, child, root) =>
      Runs(s, cpu, p) && root !in s.live && root != 0 && child !in s.task && child != IDLE_PID && Waiting(s, child)
    case Reap(cpu, q) => q in s.task && q in s.meta && q in s.stage && s.stage[q].Out? && Waiting(s, q)
  }

  ghost function Next(order: Order, s: Sys, a: Action): Sys
    requires Enabled(order, s, a)
  {
    var p := s.curr[a.cpu];
    match a
    case Build(_, root) => s.(live := s.live + {root}, stage := s.stage[p := Building(root, 0)])
    case Abort(_) => s.(live := s.live - {s.stage[p].root}, stage := s.stage[p := Out])
    case Advance(cpu) =>
      var root, done := s.stage[p].root, s.stage[p].done;
      var s1 := s.(stage := s.stage[p := if done + 1 == |order| then Out else Building(root, done + 1)]);
      (match order[done]
       case StoreRoot => s1.(task := s.task[p := root])
       case LoadRoot => s1.(cr3 := s.cr3[cpu := root])
       case DropOld => s1.(live := s.live - {s.meta[p]}, meta := s.meta[p := root]))
    case Publish(cpu, q) => s.(curr := s.curr[cpu := q], loading := s.loading[cpu := Loaded(s, q)])
    case Load(cpu) => s.(cr3 := s.cr3[cpu := s.loading[cpu]], loading := s.loading - {cpu})
    case Fork(_, child, root) =>
      s.(live := s.live + {root}, task := s.task[child := root], meta := s.meta[child := root],
         stage := s.stage[child := Out])
    case Reap(_, q) =>
      s.(live := s.live - {s.meta[q]}, task := s.task - {q}, meta := s.meta - {q}, stage := s.stage - {q})
  }

  ghost predicate Does(order: Order, s: Sys, a: Action, s': Sys)
  {
    Enabled(order, s, a) && s' == Next(order, s, a)
  }

  /** The top tables an action gives back. */
  ghost function Freed(order: Order, s: Sys, a: Action): set<Root>
    requires Enabled(order, s, a)
  {
    var p := s.curr[a.cpu];
    match a
    case Abort(_) => {s.stage[p].root}
    case Advance(_) => if order[s.stage[p].done] == DropOld then {s.meta[p]} else {}
    case Reap(_, q) => {s.meta[q]}
    case _ => {}
  }

  /** No CPU in the middle of a switch still stands on a table the action gives back. */
  ghost predicate Clear(order: Order, s: Sys, a: Action)
    requires Enabled(order, s, a)
  {
    forall cpu :: cpu in s.loading && cpu in s.cr3 ==> s.cr3[cpu] !in Freed(order, s, a)
  }

  /** No stored root and no loaded root names a freed table. */
  ghost predicate Safe(s: Sys)
  {
    && (forall p :: p in s.task ==> Loaded(s, p) in s.live)
    && (forall cpu :: cpu in s.cr3 ==> s.cr3[cpu] in s.live)
  }

  // ----- the invariant

  ghost predicate Keyed(s: Sys)
  {
    && s.meta.Keys <= s.task.Keys
    && s.stage.Keys == s.meta.Keys
    && s.cr3.Keys == s.curr.Keys
    && s.loading.Keys <= s.curr.Keys
    && s.kernel in s.live
    && s.kernel != 0
    && IDLE_PID !in s.meta
  }

  /** The roots that `p` answers for: its address space and the one it is building. */
  ghost predicate Owns(s: Sys, p: Pid, r: Root)
  {
    p in s.meta && p in s.stage && (r == s.meta[p] || (s.stage[p].Building? && r == s.stage[p].root))
  }

  ghost predicate OwnedOk(s: Sys, r: Root)
  {
    r in s.live && r != s.kernel && r != 0
  }

  /** Nothing leaks: every live table but the kernel's has an owner. */
  ghost predicate NoLeak(s: Sys)
  {
    forall r :: r in s.live && r != s.kernel ==> Owned(s, r)
  }

  ghost predicate Owned(s: Sys, r: Root)
  {
    exists p :: Owns(s, p, r)
  }

  ghost predicate OwnersApart(s: Sys)
  {
    && (forall p, q, r :: Owns(s, p, r) && Owns(s, q, r) ==> p == q)
    && (forall p, r :: Owns(s, p, r) ==> OwnedOk(s, r))
    && (forall p :: p in s.stage && p in s.meta && s.stage[p].Building? ==>
          s.stage[p].root != s.meta[p] && s.stage[p].done < 3)
  }

  /** The root the scheduler has stored for `p`. */
  ghost predicate TaskRootOk(s: Sys, p: Pid)
    requires p in s.task
  {
    if p !in s.meta || p !in s.stage then s.task[p] == 0
    else if s.stage[p].Building? && s.stage[p].done >= 1 then s.task[p] == s.stage[p].root
    else s.task[p] == s.meta[p]
  }

  /** `r` is not a table that is still being filled. */
  ghost predicate NotFilling(s: Sys, r: Root)
  {
    forall p :: p in s.stage && s.stage[p].Building? && s.stage[p].done == 0 ==> s.stage[p].root != r
  }

  /** What the CPU has loaded: its task's stored root, or still the old one while only that is updated; and
      in the middle of a switch, some live table, with the new task's root noted. */
  ghost predicate Cr3Ok(s: Sys, cpu: Cpu)
    requires cpu in s.curr && cpu in s.cr3
  {
    var p := s.curr[cpu];
    && p in s.task
    && if cpu in s.loading then s.loading[cpu] == Loaded(s, p) && s.cr3[cpu] in s.live && NotFilling(s, s.cr3[cpu])
       else || s.cr3[cpu] == Loaded(s, p)
            || (p in s.meta && p in s.stage && s.stage[p].Building? && s.stage[p].done == 1 && s.cr3[cpu] == s.meta[p])
  }

  ghost predicate Inv(s: Sys)
  {
    && Keyed(s)
    && OwnersApart(s)
    && NoLeak(s)
    && (forall p :: p in s.task ==> TaskRootOk(s, p))
    && (forall cpu :: cpu in s.curr ==> Cr3Ok(s, cpu))
    && CurrentApart(s)
  }

  /** A task other than an idle one is current on one CPU at most. */
  ghost predicate CurrentApart(s: Sys)
  {
    forall a, b :: a in s.curr && b in s.curr && s.curr[a] == s.curr[b] != IDLE_PID ==> a == b
  }

  lemma InvIsSafe(s: Sys)
    requires Inv(s)
    ensures Safe(s)
  {
    forall p | p in s.task ensures Loaded(s, p) in s.live {
      assert TaskRootOk(s, p);
      if p in s.meta { assert Owns(s, p, s.task[p]); }
    }
    forall cpu | cpu in s.cr3 ensures s.cr3[cpu] in s.live {
      assert Cr3Ok(s, cpu);
      var p := s.curr[cpu];
      assert p in s.meta ==> Owns(s, p, s.meta[p]);
    }
  }

  // ----- preservation

  /** In the kernel's order, every step that is clear keeps the invariant. */
  lemma StepKeepsInv(s: Sys, a: Action, s': Sys)
    requires Inv(s) && Does(KERNEL_ORDER, s, a, s') && Clear(KERNEL_ORDER, s, a)
    ensures Inv(s')
  {
    StepKeepsOwners(s, a, s');
    StepKeepsNoLeak(s, a, s');
    StepKeepsTasks(s, a, s');
    StepKeepsCr3(s, a, s');
  }

  lemma StepKeepsOwners(s: Sys, a: Action, s': Sys)
    requires Inv(s) && Does(KERNEL_ORDER, s, a, s')
    ensures Keyed(s') && OwnersApart(s')
  {
    hide CurrentApart, TaskRootOk, Cr3Ok, NoLeak;
    StepKeepsKeys(s, a, s');
    forall q, r | Owns(s', q, r) ensures OwnedOk(s', r) && (Owns(s, q, r) || r !in s.live) {
      OwnedStep(s, a, s', q, r);
    }
    forall q, q', r | Owns(s', q, r) && Owns(s', q', r) ensures q == q' {
      OnlyOneGains(s, a, s', q, q', r);
    }
    forall q | q in s'.stage && q in s'.meta && s'.stage[q].Building?
      ensures s'.stage[q].root != s'.meta[q] && s'.stage[q].done < 3
    {
      if q in s.meta { assert Owns(s, q, s.meta[q]); }
    }
  }

  lemma StepKeepsKeys(s: Sys, a: Action, s': Sys)
    requires Inv(s) && Does(KERNEL_ORDER, s, a, s')
    ensures Keyed(s')
  {
    hide CurrentApart, TaskRootOk, Cr3Ok, NoLeak;
    KernelKept(s, a);
    hide OwnersApart, Inv;
    KeysKept(KERNEL_ORDER, s, a, s');
  }

  lemma KernelKept(s: Sys, a: Action)
    requires Inv(s) && Enabled(KERNEL_ORDER, s, a)
    ensures s.kernel !in Freed(KERNEL_ORDER, s, a)
  {
    hide CurrentApart, TaskRootOk, Cr3Ok, NoLeak;
    var p := s.curr[a.cpu];
    match a
    case Abort(_) => assert Owns(s, p, s.stage[p].root);
    case Advance(_) => assert Owns(s, p, s.meta[p]);
    case Reap(_, x) => assert Owns(s, x, s.meta[x]);
    case _ =>
  }

  lemma KeysKept(order: Order, s: Sys, a: Action, s': Sys)
    requires Keyed(s) && Does(order, s, a, s') && s.kernel !in Freed(order, s, a)
    ensures Keyed(s') && s'.curr.Keys == s.curr.Keys
  {
  }

  lemma OwnedStep(s: Sys, a: Action, s': Sys, q: Pid, r: Root)
    requires Inv(s) && Does(KERNEL_ORDER, s, a, s') && Owns(s', q, r)
    ensures OwnedOk(s', r) && (Owns(s, q, r) || r !in s.live)
  {
    hide CurrentApart, TaskRootOk, Cr3Ok, NoLeak;
    assert Owns(s, q, r) || r !in s.live;
    var p := s.curr[a.cpu];
    match a
    case Abort(_) => assert Owns(s, p, s.stage[p].root);
    case Advance(_) => assert Owns(s, p, s.meta[p]);
    case Reap(_, x) => assert Owns(s, x, s.meta[x]);
    case _ =>
  }

  lemma OnlyOneGains(s: Sys, a: Action, s': Sys, q: Pid, q': Pid, r: Root)
    requires Inv(s) && Does(KERNEL_ORDER, s, a, s') && Owns(s', q, r) && Owns(s', q', r)
    ensures q == q'
  {
    hide CurrentApart, TaskRootOk, Cr3Ok, NoLeak;
    OwnedStep(s, a, s', q, r);
    OwnedStep(s, a, s', q', r);
    assert Owns(s, q, r) ==> r in s.live;
    assert Owns(s, q', r) ==> r in s.live;
  }

  lemma StepKeepsNoLeak(s: Sys, a: Action, s': Sys)
    requires Inv(s) && Does(KERNEL_ORDER, s, a, s')
    ensures NoLeak(s')
  {
    hide CurrentApart, TaskRootOk, Cr3Ok, OwnersApart;
    forall r | r in s'.live && r != s'.kernel ensures Owned(s', r) {
      if r in s.live {
        assert Owned(s, r);
        var p :| Owns(s, p, r);
        assert Owns(s', p, r);
      } else {
        var p := if a.Fork? then a.child else s.curr[a.cpu];
        assert Owns(s', p, r);
      }
    }
  }

  lemma StepKeepsTasks(s: Sys, a: Action, s': Sys)
    requires Inv(s) && Does(KERNEL_ORDER, s, a, s')
    ensures forall p :: p in s'.task ==> TaskRootOk(s', p)
  {
    hide Cr3Ok, NoLeak, OwnersApart, TaskRootOk, Does, Inv;
    forall p | p in s'.task ensures TaskRootOk(s', p) {
      TaskRootStep(s, a, s', p);
    }
  }

  lemma TaskRootStep(s: Sys, a: Action, s': Sys, p: Pid)
    requires Inv(s) && Does(KERNEL_ORDER, s, a, s') && p in s'.task
    ensures TaskRootOk(s', p)
  {
    hide CurrentApart, Cr3Ok, NoLeak, OwnersApart;
    if a.Fork? && p == a.child {
    } else {
      assert p in s.task && TaskRootOk(s, p);
      if p != s.curr[a.cpu] {
        TasksSame(KERNEL_ORDER, s, a, s', p);
        hide Does;
      } else if a.Advance? {
        hide Inv, Owns;
      }
    }
  }

  /** A step changes nothing of a task that neither takes it nor is forked or reaped by it. */
  lemma TasksSame(order: Order, s: Sys, a: Action, s': Sys, p: Pid)
    requires Does(order, s, a, s') && p != s.curr[a.cpu] && (a.Fork? ==> p != a.child) && (a.Reap? ==> p != a.pid)
    ensures SameTask(s, s', p)
  {
  }

  lemma StepKeepsCr3(s: Sys, a: Action, s': Sys)
    requires Inv(s) && Does(KERNEL_ORDER, s, a, s') && Clear(KERNEL_ORDER, s, a)
    ensures forall cpu :: cpu in s'.curr ==> Cr3Ok(s', cpu)
    ensures CurrentApart(s')
  {
    hide NoLeak, OwnersApart, TaskRootOk, Cr3Ok;
    forall cpu | cpu in s'.curr ensures Cr3Ok(s', cpu) {
      if cpu in s'.loading { LoadingStep(s, a, s', cpu); } else { RunningStep(s, a, s', cpu); }
    }
  }

  /** Everything `Cr3Ok` reads of a CPU and its task. */
  ghost predicate SameOn(s: Sys, s': Sys, cpu: Cpu)
  {
    && cpu in s.curr && cpu in s'.curr && s'.curr[cpu] == s.curr[cpu]
    && cpu in s.cr3 && cpu in s'.cr3 && s'.cr3[cpu] == s.cr3[cpu]
    && (cpu in s'.loading <==> cpu in s.loading) && (cpu in s.loading ==> s'.loading[cpu] == s.loading[cpu])
    && SameTask(s, s', s.curr[cpu])
  }

  ghost predicate SameTask(s: Sys, s': Sys, p: Pid)
  {
    && s'.kernel == s.kernel
    && (p in s'.task <==> p in s.task) && (p in s.task ==> s'.task[p] == s.task[p])
    && (p in s'.meta <==> p in s.meta) && (p in s.meta ==> s'.meta[p] == s.meta[p])
    && (p in s'.stage <==> p in s.stage) && (p in s.stage ==> s'.stage[p] == s.stage[p])
  }

  /** A step of one CPU does not touch what another runs. */
  lemma OthersSame(order: Order, s: Sys, a: Action, s': Sys, cpu: Cpu)
    requires Does(order, s, a, s') && cpu in s'.curr && cpu in s.cr3 && cpu != a.cpu
    requires CurrentApart(s) && IDLE_PID !in s.meta
    ensures SameOn(s, s', cpu)
  {
  }

  lemma RunningStep(s: Sys, a: Action, s': Sys, cpu: Cpu)
    requires Inv(s) && Does(KERNEL_ORDER, s, a, s') && cpu in s'.curr && cpu !in s'.loading
    ensures cpu in s'.cr3 && Cr3Ok(s', cpu)
  {
    hide NoLeak;
    assert cpu in s.curr && cpu in s.cr3;
    assert Cr3Ok(s, cpu) && TaskRootOk(s, s.curr[cpu]);
    if cpu != a.cpu {
      OthersSame(KERNEL_ORDER, s, a, s', cpu);
      hide Does, OwnersApart, TaskRootOk;
    } else if a.Advance? {
      AdvanceOwn(s, a, s');
    } else {
      hide OwnersApart;
    }
  }

  lemma AdvanceOwn(s: Sys, a: Action, s': Sys)
    requires Inv(s) && Does(KERNEL_ORDER, s, a, s') && a.Advance?
    ensures a.cpu in s'.curr && a.cpu in s'.cr3 && Cr3Ok(s', a.cpu)
  {
    hide CurrentApart, NoLeak;
    var p := s.curr[a.cpu];
    assert Owns(s, p, s.meta[p]) && Owns(s, p, s.stage[p].root);
    assert Cr3Ok(s, a.cpu) && TaskRootOk(s, p);
    hide OwnersApart;
  }

  lemma LoadingStep(s: Sys, a: Action, s': Sys, cpu: Cpu)
    requires Inv(s) && Does(KERNEL_ORDER, s, a, s') && Clear(KERNEL_ORDER, s, a)
    requires cpu in s'.curr && cpu in s'.loading
    ensures cpu in s'.cr3 && Cr3Ok(s', cpu)
  {
    hide NoLeak, TaskRootOk;
    assert cpu in s.curr && cpu in s.cr3 && Cr3Ok(s, cpu);
    assert s.cr3[cpu] in s.live by { InvIsSafe(s); }
    if cpu in s.loading {
      OthersSame(KERNEL_ORDER, s, a, s', cpu);
      StaysLive(KERNEL_ORDER, s, a, s', s.cr3[cpu]);
      hide Does, OwnersApart;
    } else {
      RunningNotFilling(s, cpu);
      hide OwnersApart;
    }
  }

  /** What is live, not being filled and not given back stays so. */
  lemma StaysLive(order: Order, s: Sys, a: Action, s': Sys, r: Root)
    requires Does(order, s, a, s') && r in s.live && r !in Freed(order, s, a) && NotFilling(s, r)
    ensures r in s'.live && NotFilling(s', r)
  {
  }

  lemma RunningNotFilling(s: Sys, cpu: Cpu)
    requires Inv(s) && cpu in s.curr && cpu !in s.loading
    ensures NotFilling(s, s.cr3[cpu])
  {
    hide CurrentApart, NoLeak;
    var p := s.curr[cpu];
    assert Cr3Ok(s, cpu) && TaskRootOk(s, p);
    forall q | q in s.stage && s.stage[q].Building? && s.stage[q].done == 0 ensures s.stage[q].root != s.cr3[cpu] {
      assert Owns(s, q, s.stage[q].root);
      assert p in s.meta ==> Owns(s, p, s.meta[p]) && (s.stage[p].Building? ==> Owns(s, p, s.stage[p].root));
    }
  }

  // ----- runs

  ghost predicate StepAt(order: Order, run: seq<Sys>, acts: seq<Action>, i: int)
  {
    0 <= i < |acts| < |run| && Does(order, run[i], acts[i], run[i + 1])
  }

  ghost predicate Start(s: Sys)
  {
    Inv(s) && s.loading == map[] && forall p :: p in s.stage ==> s.stage[p].Out?
  }

  ghost predicate IsRun(order: Order, run: seq<Sys>, acts: seq<Action>)
  {
    |run| == |acts| + 1 && Start(run[0]) && forall i :: 0 <= i < |acts| ==> StepAt(order, run, acts, i)
  }

  ghost predicate ClearAt(order: Order, run: seq<Sys>, acts: seq<Action>, i: int)
  {
    0 <= i < |acts| < |run| && Enabled(order, run[i], acts[i]) && Clear(order, run[i], acts[i])
  }

  ghost predicate AllClear(order: Order, run: seq<Sys>, acts: seq<Action>)
  {
    forall i :: 0 <= i < |acts| ==> ClearAt(order, run, acts, i)
  }

  ghost predicate AllSafe(run: seq<Sys>)
  {
    forall i :: 0 <= i < |run| ==> Safe(run[i])
  }

  lemma {:induction false} RunInv(run: seq<Sys>, acts: seq<Action>, i: nat)
    requires IsRun(KERNEL_ORDER, run, acts) && i <= |acts|
    requires forall j :: 0 <= j < i ==> ClearAt(KERNEL_ORDER, run, acts, j)
    ensures Inv(run[i])
  {
    hide Inv, Does, Clear, Enabled;
    if i > 0 {
      RunInv(run, acts, i - 1);
      assert StepAt(KERNEL_ORDER, run, acts, i - 1) && ClearAt(KERNEL_ORDER, run, acts, i - 1);
      StepKeepsInv(run[i - 1], acts[i - 1], run[i]);
    }
  }

  /** A step that is not clear leaves a CPU on a freed table, in any order. */
  lemma UnclearIsUnsafe(order: Order, s: Sys, a: Action, s': Sys)
    requires Does(order, s, a, s') && !Clear(order, s, a)
    ensures !Safe(s')
  {
    var cpu :| cpu in s.loading && cpu in s.cr3 && s.cr3[cpu] in Freed(order, s, a);
    assert s'.cr3[cpu] == s.cr3[cpu];
    assert s'.cr3[cpu] !in s'.live;
  }

  /** Every interleaving of exec, switches, fork and reaping: all its states are safe if and only if no step
      ever gives back a table that a CPU in the middle of a switch still stands on. */
  lemma SafeExactlyWhenClear(run: seq<Sys>, acts: seq<Action>)
    requires IsRun(KERNEL_ORDER, run, acts)
    ensures AllSafe(run) <==> AllClear(KERNEL_ORDER, run, acts)
    ensures AllClear(KERNEL_ORDER, run, acts) ==> NoLeak(run[|run| - 1])
  {
    hide Does, Safe, Clear, Enabled;
    if AllClear(KERNEL_ORDER, run, acts) {
      forall i | 0 <= i < |run| ensures Inv(run[i]) && Safe(run[i]) {
        hide Inv;
        RunInv(run, acts, i);
        InvIsSafe(run[i]);
      }
    } else {
      var i :| 0 <= i < |acts| && !ClearAt(KERNEL_ORDER, run, acts, i);
      assert StepAt(KERNEL_ORDER, run, acts, i);
      assert Enabled(KERNEL_ORDER, run[i], acts[i]) by { DoesIsEnabled(KERNEL_ORDER, run[i], acts[i], run[i + 1]); }
      UnclearIsUnsafe(KERNEL_ORDER, run[i], acts[i], run[i + 1]);
    }
  }

  lemma DoesIsEnabled(order: Order, s: Sys, a: Action, s': Sys)
    requires Does(order, s, a, s')
    ensures Enabled(order, s, a)
  {
  }

  /** One step: it leaves everything safe if and only if it is clear. */
  lemma StepSafeExactly(s: Sys, a: Action, s': Sys)
    requires Inv(s) && Does(KERNEL_ORDER, s, a, s')
    ensures Safe(s') <==> Clear(KERNEL_ORDER, s, a)
  {
    DoesIsEnabled(KERNEL_ORDER, s, a, s');
    hide Inv, Does, Clear, Enabled, Safe;
    if Clear(KERNEL_ORDER, s, a) {
      StepKeepsInv(s, a, s');
      InvIsSafe(s');
    } else {
      UnclearIsUnsafe(KERNEL_ORDER, s, a, s');
    }
  }

  /** On one CPU nothing runs in the middle of a switch, so every run is safe. */
  lemma OneCpuIsSafe(run: seq<Sys>, acts: seq<Action>)
    requires IsRun(KERNEL_ORDER, run, acts)
    requires forall a, b :: a in run[0].curr && b in run[0].curr ==> a == b
    ensures AllSafe(run)
  {
    forall i | 0 <= i < |acts| ensures ClearAt(KERNEL_ORDER, run, acts, i) {
      OneCpuIsClear(run, acts, i);
    }
    SafeExactlyWhenClear(run, acts);
  }

  lemma {:induction false} OneCpuIsClear(run: seq<Sys>, acts: seq<Action>, i: nat)
    requires IsRun(KERNEL_ORDER, run, acts) && i < |acts|
    requires forall a, b :: a in run[0].curr && b in run[0].curr ==> a == b
    ensures ClearAt(KERNEL_ORDER, run, acts, i) && run[i].curr.Keys == run[0].curr.Keys
    decreases i
  {
    hide NoLeak, OwnersApart, TaskRootOk, Cr3Ok, Next;
    forall j | 0 <= j < i ensures ClearAt(KERNEL_ORDER, run, acts, j) {
      OneCpuIsClear(run, acts, j);
    }
    RunInv(run, acts, i);
    assert StepAt(KERNEL_ORDER, run, acts, i);
    if i > 0 {
      OneCpuIsClear(run, acts, i - 1);
      RunInv(run, acts, i - 1);
      assert StepAt(KERNEL_ORDER, run, acts, i - 1);
      KernelKept(run[i - 1], acts[i - 1]);
      KeysKept(KERNEL_ORDER, run[i - 1], acts[i - 1], run[i]);
    }
  }

  // ----- runs that go wrong

  lemma {:induction false} Extend(order: Order, run: seq<Sys>, acts: seq<Action>, a: Action, s: Sys)
    returns (run': seq<Sys>, acts': seq<Action>)
    requires IsRun(order, run, acts) && Does(order, run[|run| - 1], a, s)
    ensures run' == run + [s] && acts' == acts + [a] && IsRun(order, run', acts')
    ensures AllClear(order, run, acts) && Clear(order, run[|run| - 1], a) ==> AllClear(order, run', acts')
  {
    DoesIsEnabled(order, run[|run| - 1], a, s);
    hide Enabled, Start, Does, Clear;
    run', acts' := run + [s], acts + [a];
    forall i | 0 <= i < |acts'| ensures StepAt(order, run', acts', i) {
      if i < |acts| { assert StepAt(order, run, acts, i); }
    }
    if AllClear(order, run, acts) && Clear(order, run[|run| - 1], a) {
      forall i | 0 <= i < |acts'| ensures ClearAt(order, run', acts', i) {
        if i < |acts| { assert ClearAt(order, run, acts, i); }
      }
    }
  }

  /** A process that runs on one of two CPUs and has no exec under way, and a task that waits. */
  ghost predicate Situation(s: Sys, a: Cpu, b: Cpu, p: Pid, q: Pid)
  {
    && Start(s) && Runs(s, a, p) && b in s.curr && b in s.cr3 && a != b
    && q in s.task && Waiting(s, q)
  }

  /** Wherever a process runs while another CPU and a waiting task exist: its CPU publishes that task, the
      other CPU reaps the process, and the first CPU stands on a freed table. */
  lemma ReapedInMidSwitch(s: Sys, a: Cpu, b: Cpu, p: Pid, q: Pid) returns (run: seq<Sys>, acts: seq<Action>)
    requires Situation(s, a, b, p, q)
    ensures IsRun(KERNEL_ORDER, run, acts) && run[0] == s && acts == [Publish(a, q), Reap(b, p)] && !Safe(run[2])
  {
    run, acts := [s], [];
    var s1 := Next(KERNEL_ORDER, s, Publish(a, q));
    run, acts := Extend(KERNEL_ORDER, run, acts, Publish(a, q), s1);
    assert Cr3Ok(s, a) && TaskRootOk(s, p) && Owns(s, p, s.meta[p]);
    assert s1.cr3[a] == s.meta[p] && a in s1.loading;
    var s2 := Next(KERNEL_ORDER, s1, Reap(b, p));
    run, acts := Extend(KERNEL_ORDER, run, acts, Reap(b, p), s2);
    assert s2.cr3[a] !in s2.live;
  }

  /** A process in the middle of its exec runs on `b`, while `a` has not yet left its old tables. */
  ghost predicate Stranded(s: Sys, a: Cpu, b: Cpu, p: Pid, done: nat)
  {
    && Runs(s, b, p) && b !in s.loading && s.stage[p].Building? && s.stage[p].done == done
    && a in s.loading && a in s.cr3 && s.cr3[a] == s.meta[p] && a != b
  }

  lemma StrandedStep(s: Sys, a: Cpu, b: Cpu, p: Pid, done: nat) returns (s': Sys)
    requires Stranded(s, a, b, p, done) && done < 3
    ensures Does(KERNEL_ORDER, s, Advance(b), s')
    ensures if done < 2 then Stranded(s', a, b, p, done + 1) else !Safe(s')
  {
    s' := Next(KERNEL_ORDER, s, Advance(b));
    assert done == 2 ==> s'.cr3[a] !in s'.live;
  }

  lemma Stolen(s: Sys, a: Cpu, b: Cpu, p: Pid, q: Pid, root: Root) returns (s1: Sys, s2: Sys, s3: Sys, s4: Sys)
    requires Situation(s, a, b, p, q) && root !in s.live && root != 0
    ensures Does(KERNEL_ORDER, s, Build(a, root), s1) && Does(KERNEL_ORDER, s1, Publish(a, q), s2)
    ensures Does(KERNEL_ORDER, s2, Publish(b, p), s3) && Does(KERNEL_ORDER, s3, Load(b), s4)
    ensures Stranded(s4, a, b, p, 0)
  {
    assert Cr3Ok(s, a) && TaskRootOk(s, p) && Owns(s, p, s.meta[p]);
    assert s.stage[p].Out? && s.loading == map[] && s.cr3[a] == s.meta[p];
    hide Inv;
    s1 := Next(KERNEL_ORDER, s, Build(a, root));
    s2 := Next(KERNEL_ORDER, s1, Publish(a, q));
    assert Waiting(s2, p) by { StillUnique(s, a, p, q, s2); }
    s3 := Next(KERNEL_ORDER, s2, Publish(b, p));
    s4 := Next(KERNEL_ORDER, s3, Load(b));
  }

  lemma StillUnique(s: Sys, a: Cpu, p: Pid, q: Pid, s': Sys)
    requires Inv(s) && Runs(s, a, p) && Waiting(s, q) && s'.curr == s.curr[a := q]
    ensures Waiting(s', p)
  {
    forall c | c in s'.curr ensures s'.curr[c] != p {
      if c != a { assert s.curr[c] != s.curr[a]; }
    }
  }

  /** The same with the process stolen by the other CPU, where it finishes its exec. */
  lemma DroppedInMidSwitch(s: Sys, a: Cpu, b: Cpu, p: Pid, q: Pid, root: Root) returns (run: seq<Sys>, acts: seq<Action>)
    requires Situation(s, a, b, p, q) && root !in s.live && root != 0
    ensures IsRun(KERNEL_ORDER, run, acts) && run[0] == s && !Safe(run[|run| - 1])
    ensures acts == [Build(a, root), Publish(a, q), Publish(b, p), Load(b), Advance(b), Advance(b), Advance(b)]
  {
    hide Safe, Does, Stranded, AllClear, Clear;
    run, acts := [s], [];
    assert IsRun(KERNEL_ORDER, run, acts);
    hide IsRun;
    var s1, s2, s3, s4 := Stolen(s, a, b, p, q, root);
    run, acts := Extend(KERNEL_ORDER, run, acts, Build(a, root), s1);
    run, acts := Extend(KERNEL_ORDER, run, acts, Publish(a, q), s2);
    run, acts := Extend(KERNEL_ORDER, run, acts, Publish(b, p), s3);
    run, acts := Extend(KERNEL_ORDER, run, acts, Load(b), s4);
    var s5 := StrandedStep(s4, a, b, p, 0);
    run, acts := Extend(KERNEL_ORDER, run, acts, Advance(b), s5);
    var s6 := StrandedStep(s5, a, b, p, 1);
    run, acts := Extend(KERNEL_ORDER, run, acts, Advance(b), s6);
    var s7 := StrandedStep(s6, a, b, p, 2);
    run, acts := Extend(KERNEL_ORDER, run, acts, Advance(b), s7);
  }

  // ----- why the order matters

  /** In the middle of an exec, nothing dropped yet: which commit steps have had their effect, as far as one
      can still see it. `left` is the old root; `q` waits. */
  ghost predicate Midway(s: Sys, a: Cpu, p: Pid, q: Pid, left: Root, root: Root, done: nat, stored: bool, loaded: bool)
  {
    && Runs(s, a, p) && s.loading == map[] && s.meta[p] == left && left != 0 && left != s.kernel && root != left
    && s.stage[p] == Building(root, done)
    && s.task[p] == (if stored then root else left)
    && s.cr3[a] == (if loaded then root else left)
    && q in s.task && Waiting(s, q) && forall c :: c in s.curr && c != a ==> s.curr[c] != p
  }

  /** Storing and loading have their effect; dropping before both have is unsafe. */
  lemma MidwayStep(order: Order, s: Sys, a: Cpu, p: Pid, q: Pid, left: Root, root: Root, done: nat, stored: bool, loaded: bool)
    returns (s': Sys)
    requires IsOrder(order) && done < 3 && Midway(s, a, p, q, left, root, done, stored, loaded)
    ensures Does(order, s, Advance(a), s') && Clear(order, s, Advance(a))
    ensures done < 2 && order[done] == StoreRoot ==> Midway(s', a, p, q, left, root, done + 1, true, loaded)
    ensures done < 2 && order[done] == LoadRoot ==> Midway(s', a, p, q, left, root, done + 1, stored, true)
    ensures order[done] == DropOld && !(stored && loaded) ==> !Safe(s')
  {
    s' := Next(order, s, Advance(a));
    if order[done] == DropOld {
      assert left !in s'.live;
      assert !stored ==> Loaded(s', p) == left;
      assert !loaded ==> s'.cr3[a] == left;
    }
  }

  /** One switch away and back undoes a load whose root is not stored. */
  lemma AwayAndBack(order: Order, s: Sys, a: Cpu, p: Pid, q: Pid, left: Root, root: Root, done: nat)
    returns (s1: Sys, s2: Sys, s3: Sys, s4: Sys)
    requires Midway(s, a, p, q, left, root, done, false, true)
    ensures Does(order, s, Publish(a, q), s1) && Clear(order, s, Publish(a, q))
    ensures Does(order, s1, Load(a), s2) && Clear(order, s1, Load(a))
    ensures Does(order, s2, Publish(a, p), s3) && Clear(order, s2, Publish(a, p))
    ensures Does(order, s3, Load(a), s4) && Clear(order, s3, Load(a))
    ensures Midway(s4, a, p, q, left, root, done, false, false)
  {
    s1 := Next(order, s, Publish(a, q));
    s2 := Next(order, s1, Load(a));
    s3 := Next(order, s2, Publish(a, p));
    s4 := Next(order, s3, Load(a));
  }

  lemma Begin(order: Order, s: Sys, a: Cpu, b: Cpu, p: Pid, q: Pid, root: Root) returns (s1: Sys)
    requires Situation(s, a, b, p, q) && root !in s.live && root != 0
    ensures Does(order, s, Build(a, root), s1) && Clear(order, s, Build(a, root))
    ensures Midway(s1, a, p, q, s.meta[p], root, 0, false, false)
  {
    assert Cr3Ok(s, a) && TaskRootOk(s, p) && Owns(s, p, s.meta[p]);
    s1 := Next(order, s, Build(a, root));
  }

  /** Any other order of the three steps has a run in which nothing is freed under a CPU in mid-switch, and
      which still ends on a freed table. */
  lemma OtherOrdersFail(order: Order, s: Sys, a: Cpu, b: Cpu, p: Pid, q: Pid, root: Root)
    returns (run: seq<Sys>, acts: seq<Action>)
    requires IsOrder(order) && order != KERNEL_ORDER
    requires Situation(s, a, b, p, q) && root !in s.live && root != 0
    ensures IsRun(order, run, acts) && AllClear(order, run, acts) && !Safe(run[|run| - 1])
  {
    hide Safe, Does, Midway, Clear;
    var left := s.meta[p];
    run, acts := [s], [];
    assert IsRun(order, run, acts) && AllClear(order, run, acts);
    hide IsRun, AllClear;
    var x := Begin(order, s, a, b, p, q, root);
    run, acts := Extend(order, run, acts, Build(a, root), x);
    if order[2] != DropOld {
      var y := MidwayStep(order, x, a, p, q, left, root, 0, false, false);
      run, acts := Extend(order, run, acts, Advance(a), y);
      if order[1] == DropOld {
        var z := MidwayStep(order, y, a, p, q, left, root, 1, order[0] == StoreRoot, order[0] == LoadRoot);
        run, acts := Extend(order, run, acts, Advance(a), z);
      }
    } else {
      assert order == [LoadRoot, StoreRoot, DropOld];
      var y := MidwayStep(order, x, a, p, q, left, root, 0, false, false);
      run, acts := Extend(order, run, acts, Advance(a), y);
      var y1, y2, y3, y4 := AwayAndBack(order, y, a, p, q, left, root, 1);
      run, acts := Extend(order, run, acts, Publish(a, q), y1);
      run, acts := Extend(order, run, acts, Load(a), y2);
      run, acts := Extend(order, run, acts, Publish(a, p), y3);
      run, acts := Extend(order, run, acts, Load(a), y4);
      var z := MidwayStep(order, y4, a, p, q, left, root, 1, false, false);
      run, acts := Extend(order, run, acts, Advance(a), z);
      var w := MidwayStep(order, z, a, p, q, left, root, 2, true, false);
      run, acts := Extend(order, run, acts, Advance(a), w);
    }
  }

  /** Process 1 on CPU 0 with root 2, process 2 on CPU 1 with root 3, and the idle task 0. */
  function TwoCpus(): Sys
  {
    Sys(1, {1, 2, 3}, map[0 := 0, 1 := 2, 2 := 3], map[1 := 2, 2 := 3], map[1 := Out, 2 := Out],
        map[0 := 1, 1 := 2], map[0 := 2, 1 := 3], map[])
  }

  lemma TwoCpusSituation()
    ensures Situation(TwoCpus(), 0, 1, 1, 0)
  {
    var s := TwoCpus();
    TwoCpusOwners();
    hide NoLeak, OwnersApart, Cr3Ok, TaskRootOk;
    assert forall p :: p in s.task ==> TaskRootOk(s, p) by { TwoCpusRoots(); }
    assert forall cpu :: cpu in s.curr ==> Cr3Ok(s, cpu) by { TwoCpusRoots(); }
  }

  lemma TwoCpusOwners()
    ensures NoLeak(TwoCpus()) && OwnersApart(TwoCpus())
  {
    var s := TwoCpus();
    forall r | r in s.live && r != s.kernel ensures Owned(s, r) { assert Owns(s, r - 1, r); }
    forall p, r | Owns(s, p, r) ensures r == p + 1 && OwnedOk(s, r) {}
  }

  lemma TwoCpusRoots()
    ensures var s := TwoCpus();
            && s.cr3.Keys == s.curr.Keys
            && (forall p :: p in s.task ==> TaskRootOk(s, p)) && (forall cpu :: cpu in s.curr ==> Cr3Ok(s, cpu))
  {
  }

  /** Of the six orders of the commit steps, the kernel's is the only one all of whose runs are safe when
      nothing is freed under a CPU in mid-switch. */
  lemma OnlyTheKernelOrder(order: Order)
    requires IsOrder(order)
    ensures (forall run, acts :: IsRun(order, run, acts) && AllClear(order, run, acts) ==> AllSafe(run))
            <==> order == KERNEL_ORDER
  {
    if order == KERNEL_ORDER {
      forall run, acts | IsRun(order, run, acts) && AllClear(order, run, acts) ensures AllSafe(run) {
        SafeExactlyWhenClear(run, acts);
      }
    } else {
      TwoCpusSituation();
      hide Situation;
      var run, acts := OtherOrdersFail(order, TwoCpus(), 0, 1, 1, 0, 4);
      assert !AllSafe(run);
    }
  }
}
