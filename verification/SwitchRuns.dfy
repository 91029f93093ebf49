/**
 Context switches in runs over many CPUs. A tick is two steps: it saves and requeues the outgoing task and notes
 the incoming one, and later loads what it noted. The note lies on the outgoing task's kernel stack, which is in use
 until the tick is over.
 */
module SwitchRuns {
  import opened ContextSwitch

  const IDLE_PID: Pid := 0

  /** What a tick notes of the task it switches to. The FPU state is loaded at once and not noted. */
  datatype Note = Note(context: Context, preempt: nat, kernelStackTop: nat)

  /** A tick under way: it runs on the kernel stack of task `from`. */
  datatype Half = Half(from: Pid, note: Note)

  /** Each CPU's run queue and state, and the ticks under way. Every CPU has an idle task of its own, with process
      id 0. `curr` is the task a CPU has published. */
  datatype Sys = Sys(queues: map<Cpu, map<Pid, Task>>, cpus: map<Cpu, CpuState>, half: map<Cpu, Half>)

  /** `over` is what an action leaves, by writing to a kernel stack, of the notes that lie there. */
  datatype Action =
    | Begin(cpu: Cpu, over: map<Cpu, Note>, next: Pid)
    | Work(cpu: Cpu, over: map<Cpu, Note>, live: Live)
    | Rewrite(cpu: Cpu, over: map<Cpu, Note>, context: Context)
    | Exit(cpu: Cpu, over: map<Cpu, Note>, pid: Pid)
    | Finish(cpu: Cpu)
    | Migrate(cpu: Cpu, pid: Pid, dest: Cpu)
    | Spawn(cpu: Cpu, pid: Pid, task: Task)

  predicate WritesStack(a: Action)
  {
    a.Begin? || a.Work? || a.Rewrite? || a.Exit?
  }

  ghost predicate RunningOn(s: Sys, cpu: Cpu, p: Pid)
  {
    cpu in s.cpus && s.cpus[cpu].curr == p
  }

  /** The run queue of `cpu` holds `p`. */
  ghost predicate Queued(s: Sys, cpu: Cpu, p: Pid)
  {
    cpu in s.queues && p in s.queues[cpu]
  }

  /** The task whose kernel stack the action uses or gives back. */
  function StackOf(s: Sys, a: Action): Pid
    requires a.cpu in s.cpus && WritesStack(a)
  {
    if a.Exit? then a.pid else s.cpus[a.cpu].curr
  }

  /** The CPUs in mid-switch on that stack. An idle task's stack is its own CPU's. */
  function AtRisk(s: Sys, a: Action): set<Cpu>
    requires a.cpu in s.cpus
  {
    if WritesStack(a) && StackOf(s, a) != IDLE_PID
    then set c | c in s.half && s.half[c].from == StackOf(s, a) else {}
  }

  // ----- the two halves of a tick

  function NoteOf(t: Task): Note
  {
    Note(t.context, t.preempt, t.kernelStackTop)
  }

  function Begun(tasks: map<Pid, Task>, c: CpuState, next: Pid): CpuState
    requires Switches(tasks, c, next)
  {
    CpuState(next, c.live.(fpu := tasks[next].fpu, preempt := 0), c.kernelStack)
  }

  function Finished(c: CpuState, n: Note): CpuState
  {
    c.(live := Resumed(Task(n.context, n.preempt, c.live.fpu, n.kernelStackTop), c.live.fs), kernelStack := n.kernelStackTop)
  }

  /** Both halves in a row are the whole tick. */
  lemma HalvesMakeTick(tasks: map<Pid, Task>, c: CpuState, next: Pid)
    requires Switches(tasks, c, next)
    ensures Finished(Begun(tasks, c, next), NoteOf(tasks[next])) == CpuAfter(tasks, c, next)
  {
  }

  function Overwritten(half: map<Cpu, Half>, over: map<Cpu, Note>): map<Cpu, Half>
  {
    map c | c in half :: if c in over then half[c].(note := over[c]) else half[c]
  }

  // ----- the steps

  /** Ticks, the running tasks' own work, an exec rewriting the caller's stored context, and tasks that are not
      current on their CPU being moved to another one, created and removed. A CPU in mid-switch does nothing but
      finish. */
  ghost predicate Enabled(s: Sys, a: Action)
  {
    && a.cpu in s.cpus && a.cpu in s.queues
    && (a.Finish? ==> a.cpu in s.half)
    && (a.Begin? || a.Work? || a.Rewrite? ==> a.cpu !in s.half)
    && (WritesStack(a) ==> a.over.Keys <= AtRisk(s, a))
    && var c, tasks := s.cpus[a.cpu], s.queues[a.cpu];
    match a
    case Rewrite(_, _, _) => c.curr in tasks
    case Exit(_, _, p) => p != IDLE_PID && p in tasks && p != c.curr
    case Migrate(cpu, p, dest) => p != IDLE_PID && p in tasks && p != c.curr && dest in s.queues && dest != cpu
    case Spawn(_, p, _) => p != IDLE_PID && forall d :: !Queued(s, d, p)
    case _ => true
  }

  ghost function Next(s: Sys, a: Action): Sys
    requires Enabled(s, a)
  {
    var c, tasks := s.cpus[a.cpu], s.queues[a.cpu];
    match a
    case Begin(cpu, over, next) =>
      var half := Overwritten(s.half, over);
      var queues := s.queues[cpu := TasksAfter(tasks, c, next)];
      if Switches(tasks, c, next)
      then Sys(queues, s.cpus[cpu := Begun(tasks, c, next)], half[cpu := Half(c.curr, NoteOf(tasks[next]))])
      else Sys(queues, s.cpus, half)
    case Work(cpu, over, live) => s.(cpus := s.cpus[cpu := c.(live := live)], half := Overwritten(s.half, over))
    case Rewrite(cpu, over, context) =>
      s.(queues := s.queues[cpu := tasks[c.curr := tasks[c.curr].(context := context)]], half := Overwritten(s.half, over))
    case Exit(cpu, over, p) => s.(queues := s.queues[cpu := tasks - {p}], half := Overwritten(s.half, over))
    case Finish(cpu) => s.(cpus := s.cpus[cpu := Finished(c, s.half[cpu].note)], half := s.half - {cpu})
    case Migrate(cpu, p, dest) => s.(queues := s.queues[cpu := tasks - {p}][dest := s.queues[dest][p := tasks[p]]])
    case Spawn(cpu, p, task) => s.(queues := s.queues[cpu := tasks[p := task]])
  }

  ghost predicate Does(s: Sys, a: Action, s': Sys)
  {
    Enabled(s, a) && s' == Next(s, a)
  }

  // ----- what holds in every state of every run

  /** A task other than an idle one is in a single run queue. */
  ghost predicate OneQueue(s: Sys)
  {
    forall a, b, p :: Queued(s, a, p) && Queued(s, b, p) && p != IDLE_PID ==> a == b
  }

  /** A published task is in its CPU's own run queue; a CPU that idles without a task of its own is let be. */
  ghost predicate CurrentQueued(s: Sys, cpu: Cpu)
    requires cpu in s.cpus
  {
    s.cpus[cpu].curr != IDLE_PID || cpu in s.half ==> Queued(s, cpu, s.cpus[cpu].curr)
  }

  ghost predicate Placed(s: Sys)
  {
    && s.queues.Keys == s.cpus.Keys && s.half.Keys <= s.cpus.Keys && OneQueue(s)
    && forall cpu :: cpu in s.cpus ==> CurrentQueued(s, cpu)
  }

  lemma StepKeepsPlaced(s: Sys, a: Action, s': Sys)
    requires Placed(s) && Does(s, a, s')
    ensures Placed(s')
  {
    StepKeepsQueues(s, a, s');
    forall cpu | cpu in s'.cpus ensures CurrentQueued(s', cpu) {
      CurrentStaysQueued(s, a, s', cpu);
    }
  }

  lemma StepKeepsQueues(s: Sys, a: Action, s': Sys)
    requires Placed(s) && Does(s, a, s')
    ensures OneQueue(s') && s'.queues.Keys == s'.cpus.Keys && s'.half.Keys <= s'.cpus.Keys
  {
    hide CurrentQueued, Saved, Resumed, AtRisk;
    forall c, d, p | Queued(s', c, p) && Queued(s', d, p) && p != IDLE_PID ensures c == d {
      if !(a.Spawn? && p == a.pid) && !(a.Migrate? && p == a.pid) {
        assert Queued(s, c, p) && Queued(s, d, p);
      } else if a.Spawn? {
        assert c != a.cpu ==> Queued(s, c, p);
        assert d != a.cpu ==> Queued(s, d, p);
      } else {
        assert Queued(s, a.cpu, p);
        assert c != a.dest ==> Queued(s, c, p) && c != a.cpu;
        assert d != a.dest ==> Queued(s, d, p) && d != a.cpu;
      }
    }
  }

  lemma CurrentStaysQueued(s: Sys, a: Action, s': Sys, cpu: Cpu)
    requires Placed(s) && Does(s, a, s') && cpu in s'.cpus
    ensures CurrentQueued(s', cpu)
  {
    hide Saved, Resumed, AtRisk, OneQueue;
    assert CurrentQueued(s, cpu) && CurrentQueued(s, a.cpu);
  }

  // ----- what holds as long as no note is written over

  /** The note is what was saved of the task, and its FPU state is loaded. */
  ghost predicate Intact(s: Sys, cpu: Cpu)
    requires cpu in s.half
  {
    && cpu in s.cpus && Queued(s, cpu, s.cpus[cpu].curr)
    && var t := s.queues[cpu][s.cpus[cpu].curr];
    s.half[cpu].note == NoteOf(t) && s.cpus[cpu].live.fpu == t.fpu
  }

  /** The CPU's entry stack is the running task's. */
  ghost predicate StackOk(s: Sys, cpu: Cpu)
    requires cpu in s.cpus
  {
    cpu !in s.half && Queued(s, cpu, s.cpus[cpu].curr) ==>
      s.cpus[cpu].kernelStack == s.queues[cpu][s.cpus[cpu].curr].kernelStackTop
  }

  ghost predicate Sound(s: Sys)
  {
    && Placed(s)
    && (forall cpu :: cpu in s.half ==> Intact(s, cpu))
    && (forall cpu :: cpu in s.cpus ==> StackOk(s, cpu))
  }

  /** No CPU in mid-switch stands on the kernel stack that the action uses or gives back. */
  ghost predicate Clear(s: Sys, a: Action)
    requires a.cpu in s.cpus
  {
    AtRisk(s, a) == {}
  }

  lemma StepKeepsSound(s: Sys, a: Action, s': Sys)
    requires Sound(s) && Does(s, a, s') && Clear(s, a)
    ensures Sound(s')
  {
    StepKeepsPlaced(s, a, s');
    NotesKept(s, a, s');
    hide Placed, Next;
    forall cpu | cpu in s'.half ensures Intact(s', cpu) {
      IntactStep(s, a, s', cpu);
    }
    forall cpu | cpu in s'.cpus ensures StackOk(s', cpu) {
      StackStep(s, a, s', cpu);
    }
  }

  /** A clear step leaves every note alone, but for a CPU's own at the start and the end of its tick. */
  lemma NotesKept(s: Sys, a: Action, s': Sys)
    requires Does(s, a, s') && Clear(s, a)
    ensures forall c :: c in s.half && c in s'.half ==> s'.half[c] == s.half[c]
    ensures forall c :: c in s'.half && c !in s.half ==> a.Begin? && c == a.cpu
  {
    hide Saved, Resumed;
    if WritesStack(a) { assert a.over.Keys == {}; }
  }

  lemma IntactStep(s: Sys, a: Action, s': Sys, cpu: Cpu)
    requires Sound(s) && Does(s, a, s') && Clear(s, a) && cpu in s'.half
    ensures Intact(s', cpu)
  {
    hide OneQueue, Resumed;
    NotesKept(s, a, s');
    if cpu in s.half {
      assert Intact(s, cpu);
      hide Saved;
      TaskKept(s, a, s', cpu);
      hide Next;
    }
  }

  /** What is saved of the task a CPU in mid-switch goes to stays. */
  lemma TaskKept(s: Sys, a: Action, s': Sys, cpu: Cpu)
    requires Placed(s) && Does(s, a, s') && cpu in s.half && cpu in s'.half
    ensures cpu in s.cpus && cpu in s'.cpus && s'.cpus[cpu] == s.cpus[cpu]
    ensures var p := s.cpus[cpu].curr; Queued(s, cpu, p) && Queued(s', cpu, p) && s'.queues[cpu][p] == s.queues[cpu][p]
  {
    hide Saved, Resumed, AtRisk;
    assert CurrentQueued(s, cpu);
    var p := s.cpus[cpu].curr;
    assert a.Migrate? && a.pid == p ==> Queued(s, a.cpu, p);
  }

  lemma StackStep(s: Sys, a: Action, s': Sys, cpu: Cpu)
    requires Sound(s) && Does(s, a, s') && cpu in s'.cpus
    ensures StackOk(s', cpu)
  {
    hide AtRisk;
    assert StackOk(s, cpu) && CurrentQueued(s, cpu);
    assert cpu in s.half ==> Intact(s, cpu);
    var p := s.cpus[cpu].curr;
    assert a.Migrate? && a.pid == p ==> Queued(s, a.cpu, p);
  }

  // ----- runs

  ghost predicate StepAt(run: seq<Sys>, acts: seq<Action>, i: int)
  {
    0 <= i < |acts| < |run| && Does(run[i], acts[i], run[i + 1])
  }

  ghost predicate IsRun(run: seq<Sys>, acts: seq<Action>)
  {
    |run| == |acts| + 1 && Sound(run[0]) && run[0].half == map[] && forall i :: 0 <= i < |acts| ==> StepAt(run, acts, i)
  }

  ghost predicate ClearAt(run: seq<Sys>, acts: seq<Action>, i: int)
  {
    0 <= i < |acts| < |run| && acts[i].cpu in run[i].cpus && Clear(run[i], acts[i])
  }

  ghost predicate AllClear(run: seq<Sys>, acts: seq<Action>)
  {
    forall i :: 0 <= i < |acts| ==> ClearAt(run, acts, i)
  }

  lemma {:induction false} RunPlaced(run: seq<Sys>, acts: seq<Action>, i: nat)
    requires IsRun(run, acts) && i < |run|
    ensures Placed(run[i])
  {
    if i > 0 {
      hide Placed, Does;
      RunPlaced(run, acts, i - 1);
      assert StepAt(run, acts, i - 1);
      StepKeepsPlaced(run[i - 1], acts[i - 1], run[i]);
    }
  }

  lemma {:induction false} RunSound(run: seq<Sys>, acts: seq<Action>, i: nat)
    requires IsRun(run, acts) && i < |run| && forall k :: 0 <= k < i ==> ClearAt(run, acts, k)
    ensures Sound(run[i])
  {
    if i > 0 {
      hide Sound, Does, Clear;
      RunSound(run, acts, i - 1);
      assert StepAt(run, acts, i - 1) && ClearAt(run, acts, i - 1);
      StepKeepsSound(run[i - 1], acts[i - 1], run[i]);
    }
  }

  /** In no state of any run is a task other than an idle one current on two CPUs. */
  lemma RunsOnce(run: seq<Sys>, acts: seq<Action>, i: nat, p: Pid, a: Cpu, b: Cpu)
    requires IsRun(run, acts) && i < |run| && p != IDLE_PID && RunningOn(run[i], a, p) && RunningOn(run[i], b, p)
    ensures a == b
  {
    RunPlaced(run, acts, i);
    assert CurrentQueued(run[i], a) && CurrentQueued(run[i], b);
  }

  // ----- when every switch is right

  /** The tick that ends loads what was saved of the task it goes to. */
  ghost predicate Right(s: Sys, a: Action, s': Sys)
  {
    a.Finish? && a.cpu in s.cpus && a.cpu in s'.cpus && Queued(s, a.cpu, s.cpus[a.cpu].curr) ==>
      var t := s.queues[a.cpu][s.cpus[a.cpu].curr];
      && s'.cpus[a.cpu].live == Resumed(t, s.cpus[a.cpu].live.fs)
      && s'.cpus[a.cpu].kernelStack == t.kernelStackTop
  }

  ghost predicate RightAt(run: seq<Sys>, acts: seq<Action>, i: int)
  {
    0 <= i < |acts| < |run| && Right(run[i], acts[i], run[i + 1])
  }

  ghost predicate AllRight(run: seq<Sys>, acts: seq<Action>)
  {
    forall i :: 0 <= i < |acts| ==> RightAt(run, acts, i)
  }

  lemma SoundIsRight(s: Sys, a: Action, s': Sys)
    requires Sound(s) && Does(s, a, s')
    ensures Right(s, a, s')
  {
    hide Placed, StackOk;
    if a.Finish? { assert Intact(s, a.cpu); }
  }

  lemma ClearIsRight(run: seq<Sys>, acts: seq<Action>)
    requires IsRun(run, acts) && AllClear(run, acts)
    ensures AllRight(run, acts)
  {
    forall i | 0 <= i < |acts| ensures RightAt(run, acts, i) {
      hide Sound, Does, Right, Clear;
      RunSound(run, acts, i);
      assert StepAt(run, acts, i);
      SoundIsRight(run[i], acts[i], run[i + 1]);
    }
  }

  /** What a scheduler lets happen. */
  type Policy = (Sys, Action) -> bool

  function WithOver(a: Action, over: map<Cpu, Note>): Action
    requires WritesStack(a)
  {
    a.(over := over)
  }

  /** It decides who runs and not what they write on their stacks, and it lets every tick end. */
  ghost predicate IsPolicy(allows: Policy)
  {
    && (forall s, a, over :: WritesStack(a) ==> allows(s, WithOver(a, over)) == allows(s, a))
    && (forall s, cpu :: allows(s, Finish(cpu)))
  }

  ghost predicate AllowedAt(allows: Policy, run: seq<Sys>, acts: seq<Action>, i: int)
  {
    0 <= i < |acts| < |run| && allows(run[i], acts[i])
  }

  ghost predicate PolicyRun(allows: Policy, run: seq<Sys>, acts: seq<Action>)
  {
    IsRun(run, acts) && forall i :: 0 <= i < |acts| ==> AllowedAt(allows, run, acts, i)
  }

  /** A note other than what was saved. */
  function OtherNote(t: Task): Note
  {
    NoteOf(t).(context := t.context.(rip := t.context.rip + 1))
  }

  /** While a CPU in mid-switch stands on the stack that is used: some writing makes its switch wrong. */
  lemma UnclearCanBeWrong(s: Sys, a: Action) returns (over: map<Cpu, Note>, cpu: Cpu, s': Sys, s'': Sys)
    requires Placed(s) && Enabled(s, a) && !Clear(s, a)
    ensures WritesStack(a) && Does(s, WithOver(a, over), s')
    ensures Does(s', Finish(cpu), s'') && !Right(s', Finish(cpu), s'')
  {
    cpu :| cpu in AtRisk(s, a);
    assert CurrentQueued(s, cpu);
    hide Placed, Saved, Next, OtherNote, Right;
    var t := s.queues[cpu][s.cpus[cpu].curr];
    over := map[cpu := OtherNote(t)];
    s' := Next(s, WithOver(a, over));
    WritesNote(s, WithOver(a, over), s', cpu);
    TaskKept(s, WithOver(a, over), s', cpu);
    s'' := WrongFinish(s', cpu);
  }

  lemma WritesNote(s: Sys, a: Action, s': Sys, cpu: Cpu)
    requires Does(s, a, s') && WritesStack(a) && cpu in a.over && cpu in s.half
    ensures cpu in s'.half && s'.half[cpu].note == a.over[cpu]
  {
    hide Saved;
    assert cpu in AtRisk(s, a);
  }

  lemma WrongFinish(s: Sys, cpu: Cpu) returns (s': Sys)
    requires cpu in s.cpus && cpu in s.half && Queued(s, cpu, s.cpus[cpu].curr)
    requires s.half[cpu].note == OtherNote(s.queues[cpu][s.cpus[cpu].curr])
    ensures Does(s, Finish(cpu), s') && !Right(s, Finish(cpu), s')
  {
    s' := Next(s, Finish(cpu));
  }

  /** A scheduler has only runs in which every switch is right, if and only if it has only runs in which no task
      runs, or is removed, while a CPU in mid-switch stands on its kernel stack. */
  lemma RightExactlyWhenClear(allows: Policy)
    requires IsPolicy(allows)
    ensures (forall run, acts :: PolicyRun(allows, run, acts) ==> AllRight(run, acts))
            <==> (forall run, acts :: PolicyRun(allows, run, acts) ==> AllClear(run, acts))
  {
    if forall run, acts :: PolicyRun(allows, run, acts) ==> AllClear(run, acts) {
      forall run, acts | PolicyRun(allows, run, acts) ensures AllRight(run, acts) {
        ClearIsRight(run, acts);
      }
    } else {
      var run, acts :| PolicyRun(allows, run, acts) && !AllClear(run, acts);
      var run', acts' := WrongVariant(allows, run, acts);
      assert PolicyRun(allows, run', acts') && !AllRight(run', acts');
    }
  }

  lemma WrongVariant(allows: Policy, run: seq<Sys>, acts: seq<Action>) returns (run': seq<Sys>, acts': seq<Action>)
    requires IsPolicy(allows) && PolicyRun(allows, run, acts) && !AllClear(run, acts)
    ensures PolicyRun(allows, run', acts') && !AllRight(run', acts')
  {
    hide Does, Placed, Right;
    var i :| 0 <= i < |acts| && !ClearAt(run, acts, i);
    assert StepAt(run, acts, i) && AllowedAt(allows, run, acts, i);
    DoesIsEnabled(run[i], acts[i], run[i + 1]);
    RunPlaced(run, acts, i);
    var over, cpu, s', s'' := UnclearCanBeWrong(run[i], acts[i]);
    var a := WithOver(acts[i], over);
    assert allows(run[i], a) == allows(run[i], acts[i]);
    run', acts' := run[..i + 1] + [s', s''], acts[..i] + [a, Finish(cpu)];
    forall k | 0 <= k < |acts'| ensures StepAt(run', acts', k) && AllowedAt(allows, run', acts', k) {
      if k < i { assert StepAt(run, acts, k) && AllowedAt(allows, run, acts, k); }
    }
    assert !RightAt(run', acts', i + 1);
  }

  lemma DoesIsEnabled(s: Sys, a: Action, s': Sys)
    requires Does(s, a, s')
    ensures Enabled(s, a) && a.cpu in s.cpus
  {
  }

  /** Before a task runs or goes: is no CPU in mid-switch on its stack? */
  predicate Checks(s: Sys, a: Action)
  {
    a.cpu in s.cpus ==> AtRisk(s, a) == {}
  }

  /** A scheduler that asks this every time switches rightly in all its runs. */
  lemma CheckingSchedulerIsRight(run: seq<Sys>, acts: seq<Action>)
    requires PolicyRun(Checks, run, acts)
    ensures IsPolicy(Checks) && AllRight(run, acts)
  {
    forall i | 0 <= i < |acts| ensures ClearAt(run, acts, i) {
      assert AllowedAt(Checks, run, acts, i) && StepAt(run, acts, i);
      DoesIsEnabled(run[i], acts[i], run[i + 1]);
    }
    ClearIsRight(run, acts);
  }

  // ----- what a task finds when it comes back

  /** `p`, last seen in the queue of `cpu`, is not running: anywhere, or for an idle task on that CPU. */
  ghost predicate Away(s: Sys, p: Pid, cpu: Cpu)
  {
    if p == IDLE_PID then !RunningOn(s, cpu, p) else forall c :: !RunningOn(s, c, p)
  }

  ghost predicate Somewhere(s: Sys, p: Pid)
  {
    exists c :: Queued(s, c, p)
  }

  /** A task that is away keeps what was saved, wherever it is moved. */
  lemma AwayStaysSaved(s: Sys, a: Action, s': Sys, p: Pid, cpu: Cpu) returns (cpu': Cpu)
    requires Placed(s) && Does(s, a, s') && Queued(s, cpu, p) && Away(s, p, cpu) && Somewhere(s', p)
    ensures Queued(s', cpu', p) && s'.queues[cpu'][p] == s.queues[cpu][p]
    ensures p == IDLE_PID ==> cpu' == cpu
  {
    hide Saved, Resumed, AtRisk;
    cpu' := if a.Migrate? && a.pid == p && a.cpu == cpu then a.dest else cpu;
    assert !RunningOn(s, cpu, p);
    assert a.Migrate? && a.pid == p ==> Queued(s, a.cpu, p);
    var c :| Queued(s', c, p);
    assert a.Exit? ==> Queued(s, c, p);
  }

  ghost predicate AwayBetween(run: seq<Sys>, i: nat, j: nat, p: Pid, cpu: Cpu)
  {
    forall k :: i < k <= j && k < |run| ==> Away(run[k], p, cpu) && Somewhere(run[k], p)
  }

  lemma {:induction false} SavedUntil(run: seq<Sys>, acts: seq<Action>, i: nat, j: nat, p: Pid, cpu: Cpu) returns (cpu': Cpu)
    requires IsRun(run, acts) && i < j < |run| && Queued(run[i + 1], cpu, p) && AwayBetween(run, i, j, p, cpu)
    ensures Queued(run[j], cpu', p) && run[j].queues[cpu'][p] == run[i + 1].queues[cpu][p]
    ensures p == IDLE_PID ==> cpu' == cpu
    decreases j
  {
    hide Placed, Does, Queued, Sound;
    if j == i + 1 {
      cpu' := cpu;
    } else {
      var before := SavedUntil(run, acts, i, j - 1, p, cpu);
      RunPlaced(run, acts, j - 1);
      assert StepAt(run, acts, j - 1);
      assert Away(run[j - 1], p, before);
      cpu' := AwayStaysSaved(run[j - 1], acts[j - 1], run[j], p, before);
    }
  }

  /** The tick that begins at `i` switches CPU `cpu` from `p` to `next`. */
  ghost predicate SwitchBegins(run: seq<Sys>, acts: seq<Action>, i: nat, cpu: Cpu, p: Pid, next: Pid)
  {
    && i < |acts| && acts[i].Begin? && acts[i].cpu == cpu && acts[i].next == next && StepAt(run, acts, i)
    && RunningOn(run[i], cpu, p) && Switches(run[i].queues[cpu], run[i].cpus[cpu], next)
  }

  /** It ends at `k`. */
  ghost predicate SwitchEnds(run: seq<Sys>, acts: seq<Action>, j: nat, k: nat, cpu: Cpu)
  {
    && j < k < |acts| && acts[k] == Finish(cpu) && StepAt(run, acts, k)
    && forall m :: j < m <= k ==> Unfinished(run, m, cpu)
  }

  ghost predicate Unfinished(run: seq<Sys>, m: int, cpu: Cpu)
  {
    0 <= m < |run| && cpu in run[m].half
  }

  /** From the begin of a tick to its end, its CPU and what is saved of the incoming task stay. */
  lemma {:induction false} KeptInMidSwitch(run: seq<Sys>, acts: seq<Action>, j: nat, k: nat, cpu: Cpu)
    requires IsRun(run, acts) && j < k < |run| && forall m :: j < m <= k ==> Unfinished(run, m, cpu)
    ensures cpu in run[j + 1].cpus && cpu in run[k].cpus && run[k].cpus[cpu] == run[j + 1].cpus[cpu]
    ensures var p := run[j + 1].cpus[cpu].curr;
            Queued(run[j + 1], cpu, p) && Queued(run[k], cpu, p) && run[k].queues[cpu][p] == run[j + 1].queues[cpu][p]
    decreases k
  {
    hide Placed, Does, Sound;
    assert Unfinished(run, k, cpu);
    RunPlaced(run, acts, k);
    if k == j + 1 {
      HalfIsQueued(run[k], cpu);
    } else {
      KeptInMidSwitch(run, acts, j, k - 1, cpu);
      RunPlaced(run, acts, k - 1);
      assert StepAt(run, acts, k - 1) && Unfinished(run, k - 1, cpu);
      TaskKept(run[k - 1], acts[k - 1], run[k], cpu);
    }
  }

  lemma HalfIsQueued(s: Sys, cpu: Cpu)
    requires Placed(s) && cpu in s.half
    ensures cpu in s.cpus && Queued(s, cpu, s.cpus[cpu].curr)
  {
    assert CurrentQueued(s, cpu);
  }

  /** In every run in which no task runs, or is removed, while a CPU in mid-switch stands on its stack: a task
      switched out on one CPU and next switched in on any finds every register, its GS base, its FPU state and its
      preemption count as it left them, with interrupts on and the stack segment its code segment needs. Its FS
      base is as it was if that was not zero, and else the CPU's. So nothing at all has changed if and only if
      interrupts were on, the stack segment matched, and the FS base was not zero or the CPU's is. */
  lemma ResumesAsItLeft(run: seq<Sys>, acts: seq<Action>, i: nat, j: nat, k: nat, out: Cpu, to: Cpu, p: Pid, next: Pid, q: Pid)
    requires IsRun(run, acts) && AllClear(run, acts)
    requires i < j && SwitchBegins(run, acts, i, out, p, next)
    requires SwitchBegins(run, acts, j, to, q, p) && SwitchEnds(run, acts, j, k, to)
    requires AwayBetween(run, i, j, p, out) && (p == IDLE_PID ==> to == out)
    ensures var left := run[i].cpus[out].live;
            var before := run[j].cpus[to].live.fs;
            var back := run[k + 1].cpus[to].live;
            && back == left.(frame := back.frame, fs := if left.fs != 0 then left.fs else before)
            && IsRepaired(left.frame, back.frame)
            && (back == left <==> InterruptsOn(left.frame) && SegmentsMatch(left.frame.cs, left.frame.ss)
                                  && (left.fs != 0 || before == 0))
    ensures run[k + 1].cpus[to].curr == p
    ensures run[k + 1].cpus[to].kernelStack == run[i].queues[out][p].kernelStackTop
  {
    var left, task, before := run[i].cpus[out].live, run[i].queues[out][p], run[j].cpus[to].live.fs;
    assert Queued(run[i + 1], out, p) && run[i + 1].queues[out][p] == Saved(task, left);
    hide Sound, Placed;
    var c := SavedUntil(run, acts, i, j, p, out);
    assert Queued(run[j], to, p);
    assert c == to by { RunPlaced(run, acts, j); SameQueue(run[j], c, to, p); }
    assert run[j + 1].cpus[to].curr == p && run[j + 1].cpus[to].live.fs == before
           && run[j + 1].queues[to][p] == Saved(task, left) by { BeginKeeps(run[j], acts[j], run[j + 1]); }
    KeptInMidSwitch(run, acts, j, k, to);
    ClearIsRight(run, acts);
    assert RightAt(run, acts, k);
    assert run[k + 1].cpus[to].live == Resumed(Saved(task, left), before);
    hide IsRepaired, Resumed;
    ResumeUndoesSave(task, left, before);
  }

  lemma BeginKeeps(s: Sys, a: Action, s': Sys)
    requires Does(s, a, s') && a.Begin? && Switches(s.queues[a.cpu], s.cpus[a.cpu], a.next)
    ensures s'.cpus[a.cpu].curr == a.next && s'.cpus[a.cpu].live.fs == s.cpus[a.cpu].live.fs
    ensures Queued(s', a.cpu, a.next) && s'.queues[a.cpu][a.next] == s.queues[a.cpu][a.next]
  {
  }

  lemma SameQueue(s: Sys, a: Cpu, b: Cpu, p: Pid)
    requires Placed(s) && Queued(s, a, p) && Queued(s, b, p)
    ensures p != IDLE_PID ==> a == b
  {
  }

  // ----- runs that go wrong

  lemma {:induction false} Extend(run: seq<Sys>, acts: seq<Action>, a: Action, s: Sys)
    returns (run': seq<Sys>, acts': seq<Action>)
    requires IsRun(run, acts) && Does(run[|run| - 1], a, s)
    ensures run' == run + [s] && acts' == acts + [a] && IsRun(run', acts')
  {
    hide Does, Sound;
    run', acts' := run + [s], acts + [a];
    forall i | 0 <= i < |acts'| ensures StepAt(run', acts', i) {
      if i < |acts| { assert StepAt(run, acts, i); }
    }
  }

  /** CPU `cpu` runs `p`, no tick is under way there, and `q` waits in its queue. */
  ghost predicate CanSwitch(s: Sys, cpu: Cpu, p: Pid, q: Pid)
  {
    && cpu !in s.half && RunningOn(s, cpu, p) && p != q && Queued(s, cpu, p) && Queued(s, cpu, q)
    && IsSchedulable(s.queues[cpu][q].context)
    && IsSchedulable(SaveContext(s.cpus[cpu].live.frame, s.cpus[cpu].live.fs, s.cpus[cpu].live.gs))
  }

  /** A whole tick from `p` to `q`, and it can go back. */
  lemma SwitchOver(s: Sys, cpu: Cpu, p: Pid, q: Pid) returns (s1: Sys, s2: Sys)
    requires CanSwitch(s, cpu, p, q)
    ensures Does(s, Begin(cpu, map[], q), s1) && Does(s1, Finish(cpu), s2) && s2.half == s.half && cpu in s1.half
    ensures CanSwitch(s2, cpu, q, p) && s2.queues == s1.queues
    ensures s2.queues[cpu][p] == Saved(s.queues[cpu][p], s.cpus[cpu].live) && s2.queues[cpu][q] == s.queues[cpu][q]
    ensures s2.cpus[cpu].live == Resumed(s.queues[cpu][q], s.cpus[cpu].live.fs)
    ensures forall c :: c != cpu ==> SameCpu(s, s1, c) && SameCpu(s, s2, c)
    ensures RunningOn(s1, cpu, q) && RunningOn(s2, cpu, q) && Switches(s.queues[cpu], s.cpus[cpu], q)
  {
    s1 := Next(s, Begin(cpu, map[], q));
    assert Overwritten(s.half, map[]) == s.half;
    s2 := Next(s1, Finish(cpu));
    assert s2.half == s.half;
  }

  /** Nothing changes of that CPU and its queue. */
  ghost predicate SameCpu(s: Sys, s': Sys, c: Cpu)
  {
    && (c in s'.cpus <==> c in s.cpus) && (c in s.cpus ==> s'.cpus[c] == s.cpus[c])
    && (c in s'.queues <==> c in s.queues) && (c in s.queues ==> s'.queues[c] == s.queues[c])
    && (c in s'.half <==> c in s.half) && (c in s.half ==> s'.half[c] == s.half[c])
  }

  /** A task with FS base 0 runs, and one with another FS base waits. */
  ghost predicate TwoTasks(s: Sys, cpu: Cpu, p: Pid, q: Pid)
  {
    && Sound(s) && s.half == map[] && CanSwitch(s, cpu, p, q)
    && s.cpus[cpu].live.fs == 0 && s.queues[cpu][q].context.fsBase != 0
  }

  /** Two ticks, and the task comes back with the other one's FS base instead of its own. */
  lemma ForeignFsBase(s: Sys, cpu: Cpu, p: Pid, q: Pid) returns (run: seq<Sys>, acts: seq<Action>)
    requires TwoTasks(s, cpu, p, q)
    ensures IsRun(run, acts) && run[0] == s
    ensures acts == [Begin(cpu, map[], q), Finish(cpu), Begin(cpu, map[], p), Finish(cpu)]
    ensures RunningOn(run[4], cpu, p)
    ensures run[4].cpus[cpu].live.fs == s.queues[cpu][q].context.fsBase != s.cpus[cpu].live.fs
  {
    hide Does, Sound, CanSwitch;
    run, acts := [s], [];
    var s1, s2 := SwitchOver(s, cpu, p, q);
    var s3, s4 := SwitchOver(s2, cpu, q, p);
    run, acts := Extend(run, acts, Begin(cpu, map[], q), s1);
    run, acts := Extend(run, acts, Finish(cpu), s2);
    run, acts := Extend(run, acts, Begin(cpu, map[], p), s3);
    run, acts := Extend(run, acts, Finish(cpu), s4);
    SwitchedTo(s4, cpu, p, q);
  }

  lemma SwitchedTo(s: Sys, cpu: Cpu, p: Pid, q: Pid)
    requires CanSwitch(s, cpu, p, q)
    ensures cpu in s.cpus && s.cpus[cpu].curr == p
  {
  }

  /** CPU `b` idles and may take `p` from the queue of `a`, where another task waits too. */
  ghost predicate MayBeStolen(s: Sys, a: Cpu, b: Cpu, p: Pid, r: Pid)
  {
    && a != b && RunningOn(s, b, IDLE_PID) && Queued(s, b, IDLE_PID)
    && p != r && Queued(s, a, p) && Queued(s, a, r) && !RunningOn(s, a, p) && !RunningOn(s, a, r)
    && p != IDLE_PID && r != IDLE_PID
  }

  /** Process `q` runs on CPU `a`, where `p` and `r` wait; CPU `b` idles. */
  ghost predicate BusyAndIdle(s: Sys, a: Cpu, b: Cpu, p: Pid, q: Pid, r: Pid)
  {
    Sound(s) && s.half == map[] && q != IDLE_PID && q != r && CanSwitch(s, a, q, p) && MayBeStolen(s, a, b, p, r)
  }

  /** `p` is taken away from `a` in mid-switch: it waits on `b`, and `a` stands on its stack. */
  ghost predicate Taken(s: Sys, a: Cpu, b: Cpu, p: Pid, q: Pid)
  {
    && a != b && p != IDLE_PID && RunningOn(s, b, IDLE_PID) && Queued(s, b, IDLE_PID) && b !in s.half
    && Queued(s, b, p) && IsSchedulable(s.queues[b][p].context)
    && RunningOn(s, a, q) && a in s.queues && a in s.half && s.half[a].from == p
  }

  /** It runs on `b` by now. */
  ghost predicate Stolen(s: Sys, a: Cpu, b: Cpu, p: Pid, q: Pid)
  {
    && a != b && p != IDLE_PID && RunningOn(s, b, p) && b in s.queues && b !in s.half
    && RunningOn(s, a, q) && a in s.queues && a in s.half && s.half[a].from == p
  }

  lemma Take(s: Sys, a: Cpu, b: Cpu, p: Pid, q: Pid, r: Pid) returns (s1: Sys, s2: Sys)
    requires CanSwitch(s, a, p, q) && p != IDLE_PID && a != b && b !in s.half
    requires RunningOn(s, b, IDLE_PID) && Queued(s, b, IDLE_PID) && Queued(s, a, r) && r !in {p, q, IDLE_PID}
    ensures Does(s, Begin(a, map[], q), s1) && MayBeStolen(s1, a, b, p, r) && Does(s1, Migrate(a, p, b), s2)
    ensures Switches(s.queues[a], s.cpus[a], q) && Taken(s2, a, b, p, q) && a in s1.half && a in s2.half
  {
    hide Resumed;
    s1 := Next(s, Begin(a, map[], q));
    s2 := Next(s1, Migrate(a, p, b));
  }

  lemma RunTaken(s: Sys, a: Cpu, b: Cpu, p: Pid, q: Pid) returns (s1: Sys, s2: Sys)
    requires Taken(s, a, b, p, q)
    ensures Does(s, Begin(b, map[], p), s1) && Does(s1, Finish(b), s2)
    ensures Stolen(s2, a, b, p, q) && a in s1.half && a in s2.half
  {
    hide Resumed, IsSchedulable;
    s1 := Next(s, Begin(b, map[], p));
    s2 := Next(s1, Finish(b));
  }

  lemma Disturb(s: Sys, a: Cpu, b: Cpu, p: Pid, q: Pid, live: Live, note: Note) returns (s1: Sys, s2: Sys)
    requires Stolen(s, a, b, p, q)
    ensures Does(s, Work(b, map[a := note], live), s1) && Does(s1, Finish(a), s2) && a in s1.half
    ensures RunningOn(s2, a, q) && s2.cpus[a].live.frame == ResumeFrame(note.context)
  {
    assert a in AtRisk(s, Work(b, map[a := note], live));
    s1 := Next(s, Work(b, map[a := note], live));
    s2 := Next(s1, Finish(a));
  }

  /** A task switched out and next switched in again finds whatever is on the stack: while its CPU is in mid-switch
      on the stack of the task it leaves, that task is stolen by an idle CPU and works there, over the note. */
  lemma StolenInMidSwitch(s: Sys, a: Cpu, b: Cpu, p: Pid, q: Pid, r: Pid, live: Live, note: Note)
    returns (run: seq<Sys>, acts: seq<Action>)
    requires BusyAndIdle(s, a, b, p, q, r)
    ensures IsRun(run, acts) && run[0] == s
    ensures acts == [Begin(a, map[], p), Finish(a), Begin(a, map[], q), Migrate(a, p, b), Begin(b, map[], p), Finish(b),
                     Work(b, map[a := note], live), Finish(a)]
    ensures SwitchBegins(run, acts, 0, a, q, p) && AwayBetween(run, 0, 2, q, a)
    ensures SwitchBegins(run, acts, 2, a, p, q) && SwitchEnds(run, acts, 2, 7, a) && MayBeStolen(run[3], a, b, p, r)
    ensures RunningOn(run[8], a, q) && run[8].cpus[a].live.frame == ResumeFrame(note.context)
  {
    hide Does, Sound, CanSwitch, Placed, Stolen, Taken, Switches, Away, MayBeStolen;
    run, acts := [s], [];
    var s1, s2 := SwitchOver(s, a, q, p);
    SituationKept(s, s1, s2, a, b, p, q, r);
    var s3, s4 := Take(s2, a, b, p, q, r);
    var s5, s6 := RunTaken(s4, a, b, p, q);
    var s7, s8 := Disturb(s6, a, b, p, q, live, note);
    run, acts := Extend(run, acts, Begin(a, map[], p), s1);
    run, acts := Extend(run, acts, Finish(a), s2);
    run, acts := Extend(run, acts, Begin(a, map[], q), s3);
    run, acts := Extend(run, acts, Migrate(a, p, b), s4);
    run, acts := Extend(run, acts, Begin(b, map[], p), s5);
    run, acts := Extend(run, acts, Finish(b), s6);
    run, acts := Extend(run, acts, Work(b, map[a := note], live), s7);
    run, acts := Extend(run, acts, Finish(a), s8);
    SwitchedTo(s, a, q, p);
    SwitchedTo(s2, a, p, q);
    assert StepAt(run, acts, 0) && StepAt(run, acts, 2) && StepAt(run, acts, 7);
  }

  lemma SituationKept(s: Sys, s1: Sys, s2: Sys, a: Cpu, b: Cpu, p: Pid, q: Pid, r: Pid)
    requires BusyAndIdle(s, a, b, p, q, r) && Does(s, Begin(a, map[], p), s1)
    requires RunningOn(s1, a, p) && RunningOn(s2, a, p) && Queued(s2, a, q) && s2.queues == s1.queues
    requires s2.half == s.half && forall c :: c != a ==> SameCpu(s, s1, c) && SameCpu(s, s2, c)
    ensures b !in s2.half && RunningOn(s2, b, IDLE_PID) && Queued(s2, b, IDLE_PID)
    ensures a != b && p != IDLE_PID && Queued(s2, a, r) && r !in {p, q, IDLE_PID}
    ensures Away(s1, q, a) && Away(s2, q, a) && Somewhere(s1, q) && Somewhere(s2, q)
  {
    hide Saved;
    assert Queued(s, a, q) && Queued(s1, a, q) && Queued(s1, a, r) && SameCpu(s, s2, b);
    hide Does;
    forall c ensures !RunningOn(s1, c, q) && !RunningOn(s2, c, q) {
      assert c in s.cpus ==> CurrentQueued(s, c);
      assert c != a ==> SameCpu(s, s1, c) && SameCpu(s, s2, c);
    }
  }

  function SmallFrame(): Frame
  {
    Frame(0, 0, 0, 0, 0, 0, 0, 0, 0, 0, 0, 0, 0, 0, 0, 1, USER_CS, 0x202, 1, USER_SS)
  }

  function SmallTask(fs: nat): Task
  {
    Task(SaveContext(SmallFrame(), fs, 0), 0, 0, 0x1000)
  }

  function SmallCpu(p: Pid): CpuState
  {
    CpuState(p, Live(SmallFrame(), 0, 0, 0, 0), 0x1000)
  }

  /** A state from which these runs start: process 1 runs on CPU 0, where 2 and 3 wait, and CPU 1 idles. */
  lemma SituationsExist() returns (s: Sys)
    ensures TwoTasks(s, 0, 1, 2) && BusyAndIdle(s, 0, 1, 2, 1, 3)
  {
    s := Sys(map[0 := map[1 := SmallTask(0), 2 := SmallTask(7), 3 := SmallTask(0)], 1 := map[0 := SmallTask(0)]],
             map[0 := SmallCpu(1), 1 := SmallCpu(0)], map[]);
    assert Queued(s, 0, 1) && Queued(s, 0, 2) && Queued(s, 0, 3) && Queued(s, 1, 0);
  }
}
