/**
 Saving a task at a timer tick and resuming it later, perhaps on another CPU: the interrupt frame on the
 kernel stack, the FS and GS bases, the FPU state and the preemption count.
 */
module ContextSwitch {

  type Pid = nat
  type Cpu = nat

  const FRAME_SIZE := 160
  const KERNEL_CS := 0x08
  const USER_CS := 0x23
  const KERNEL_SS := 0x10
  const USER_SS := 0x1B

  /** What an interrupt leaves on the stack, lowest address first. */
  datatype Frame = Frame(
    r15: nat, r14: nat, r13: nat, r12: nat, r11: nat, r10: nat, r9: nat, r8: nat,
    rbp: nat, rdi: nat, rsi: nat, rdx: nat, rcx: nat, rbx: nat, rax: nat,
    rip: nat, cs: nat, rflags: nat, rsp: nat, ss: nat)

  /** What the scheduler keeps of a task that is not running. */
  datatype Context = Context(
    rip: nat, rsp: nat, rflags: nat,
    rax: nat, rbx: nat, rcx: nat, rdx: nat, rsi: nat, rdi: nat, rbp: nat,
    r8: nat, r9: nat, r10: nat, r11: nat, r12: nat, r13: nat, r14: nat, r15: nat,
    cs: nat, ss: nat, fsBase: nat, gsBase: nat)

  type I32 = x: int | -0x8000_0000 <= x < 0x8000_0000

  /** `preempt` is an unsigned 32-bit number. */
  datatype Task = Task(context: Context, preempt: nat, fpu: nat, kernelStackTop: nat)

  /** What the running task has in the CPU. */
  datatype Live = Live(frame: Frame, fs: nat, gs: nat, preempt: I32, fpu: nat)

  datatype CpuState = CpuState(curr: Pid, live: Live, kernelStack: nat)

  // ----- frames in memory

  /** Memory by eight-byte word; what was never written reads as zero. */
  type Memory = map<nat, nat>

  function Word(mem: Memory, a: nat): nat
  {
    if a in mem then mem[a] else 0
  }

  function Words(f: Frame): (w: seq<nat>)
    ensures |w| * 8 == FRAME_SIZE
  {
    [f.r15, f.r14, f.r13, f.r12, f.r11, f.r10, f.r9, f.r8, f.rbp, f.rdi, f.rsi, f.rdx, f.rcx, f.rbx, f.rax,
     f.rip, f.cs, f.rflags, f.rsp, f.ss]
  }

  function FrameOf(w: seq<nat>): Frame
    requires |w| == 20
  {
    Frame(w[0], w[1], w[2], w[3], w[4], w[5], w[6], w[7], w[8], w[9], w[10], w[11], w[12], w[13], w[14],
          w[15], w[16], w[17], w[18], w[19])
  }

  function Load(mem: Memory, p: nat, n: nat): seq<nat>
  {
    seq(n, i requires 0 <= i => Word(mem, p + 8 * i))
  }

  function LoadFrame(mem: Memory, p: nat): Frame
  {
    FrameOf(Load(mem, p, 20))
  }

  function Store(mem: Memory, p: nat, words: seq<nat>): Memory
    decreases |words|
  {
    if words == [] then mem else Store(mem[p := words[0]], p + 8, words[1..])
  }

  /** Storing words touches their range alone and leaves each word in its place. */
  lemma {:induction false} StoreWord(mem: Memory, p: nat, words: seq<nat>, a: nat)
    ensures !(p <= a < p + 8 * |words|) ==> Word(Store(mem, p, words), a) == Word(mem, a)
    ensures forall i :: 0 <= i < |words| && a == p + 8 * i ==> Word(Store(mem, p, words), a) == words[i]
    decreases |words|
  {
    if words != [] {
      StoreWord(mem[p := words[0]], p + 8, words[1..], a);
      forall i | 0 <= i < |words| && a == p + 8 * i ensures Word(Store(mem, p, words), a) == words[i] {
        if i > 0 { assert words[i] == words[1..][i - 1] && a == p + 8 + 8 * (i - 1); }
      }
    }
  }

  /** A stored frame reads back as it was, and nothing outside its bytes changes. */
  lemma FrameRoundTrip(mem: Memory, p: nat, f: Frame)
    ensures LoadFrame(Store(mem, p, Words(f)), p) == f
    ensures forall a: nat :: !(p <= a < p + FRAME_SIZE) ==> Word(Store(mem, p, Words(f)), a) == Word(mem, a)
  {
    var w := Words(f);
    var m := Store(mem, p, w);
    forall a: nat | !(p <= a < p + FRAME_SIZE) ensures Word(m, a) == Word(mem, a) {
      StoreWord(mem, p, w, a);
    }
    forall i | 0 <= i < 20 ensures Word(m, p + 8 * i) == w[i] {
      StoreWord(mem, p, w, p + 8 * i);
    }
    assert Load(m, p, 20) == w;
  }

  // ----- saving and resuming

  function SaveContext(f: Frame, fs: nat, gs: nat): Context
  {
    Context(f.rip, f.rsp, f.rflags, f.rax, f.rbx, f.rcx, f.rdx, f.rsi, f.rdi, f.rbp,
            f.r8, f.r9, f.r10, f.r11, f.r12, f.r13, f.r14, f.r15, f.cs, f.ss, fs, gs)
  }

  predicate IsSchedulable(c: Context)
  {
    c.rip != 0 && c.rsp != 0 && (c.cs == KERNEL_CS || c.cs == USER_CS)
  }

  /** Bit 9, the interrupt flag, set. */
  function WithInterrupts(flags: nat): nat
  {
    if flags / 0x200 % 2 == 1 then flags else flags + 0x200
  }

  function CodeSegment(c: Context): nat
  {
    if c.cs != 0 then c.cs else USER_CS
  }

  function StackSegment(cs: nat): nat
  {
    if cs == KERNEL_CS then KERNEL_SS else USER_SS
  }

  function ResumeFrame(c: Context): Frame
  {
    Frame(c.r15, c.r14, c.r13, c.r12, c.r11, c.r10, c.r9, c.r8, c.rbp, c.rdi, c.rsi, c.rdx, c.rcx, c.rbx, c.rax,
          c.rip, CodeSegment(c), WithInterrupts(c.rflags), c.rsp, StackSegment(CodeSegment(c)))
  }

  /** Where the frame goes: below the saved stack pointer in kernel mode, else at the top of the kernel stack. */
  function FrameBase(c: Context, top: nat): nat
  {
    if CodeSegment(c) == KERNEL_CS then c.rsp else top
  }

  function AlignDown(x: nat): (r: nat)
    ensures r % 8 == 0 && r <= x < r + 8
  {
    x - x % 8
  }

  function ToUnsigned(x: int): (r: nat)
    ensures r < 0x1_0000_0000 && exists k: int :: x == r + k * 0x1_0000_0000
  {
    assert x == x % 0x1_0000_0000 + x / 0x1_0000_0000 * 0x1_0000_0000;
    x % 0x1_0000_0000
  }

  function ToSigned(x: nat): (r: I32)
    ensures exists k: int :: x == r + k * 0x1_0000_0000
  {
    var low := x % 0x1_0000_0000;
    assert x == low + x / 0x1_0000_0000 * 0x1_0000_0000;
    assert x == low - 0x1_0000_0000 + (x / 0x1_0000_0000 + 1) * 0x1_0000_0000;
    if low < 0x8000_0000 then low else low - 0x1_0000_0000
  }

  function Saved(t: Task, live: Live): Task
  {
    t.(context := SaveContext(live.frame, live.fs, live.gs), preempt := ToUnsigned(live.preempt), fpu := live.fpu)
  }

  /** The FS base is written only when it is not zero; everything else always. */
  function Resumed(t: Task, fs: nat): Live
  {
    Live(ResumeFrame(t.context), if t.context.fsBase != 0 then t.context.fsBase else fs, t.context.gsBase,
         ToSigned(t.preempt), t.fpu)
  }

  /** Bit 9 of the flags, the interrupt flag, is set. */
  predicate InterruptsOn(f: Frame)
  {
    f.rflags / 0x200 % 2 == 1
  }

  /** `flags'` is `flags` with bit 9 on and every other bit as it was. */
  predicate OnlyInterruptsSet(flags: nat, flags': nat)
  {
    flags' / 0x200 % 2 == 1 && flags' % 0x200 == flags % 0x200 && flags' / 0x400 == flags / 0x400
  }

  /** Kernel code goes with stack segment 0x10, user code with 0x1B. */
  predicate SegmentsMatch(cs: nat, ss: nat)
  {
    (cs == 0x08 ==> ss == 0x10) && (cs != 0x08 ==> ss == 0x1B)
  }

  /** `g` is the interrupted frame `f` with interrupts on and the stack segment its code segment needs. */
  ghost predicate IsRepaired(f: Frame, g: Frame)
  {
    g == f.(rflags := g.rflags, ss := g.ss) && OnlyInterruptsSet(f.rflags, g.rflags) && SegmentsMatch(f.cs, g.ss)
  }

  /** Resuming undoes saving, register by register, but for the repairs and an FS base of zero. */
  lemma ResumeUndoesSave(t: Task, live: Live, fs: nat)
    requires IsSchedulable(SaveContext(live.frame, live.fs, live.gs))
    ensures var back := Resumed(Saved(t, live), fs);
            && back == live.(frame := back.frame, fs := if live.fs != 0 then live.fs else fs)
            && IsRepaired(live.frame, back.frame)
            && (back == live <==> InterruptsOn(live.frame) && SegmentsMatch(live.frame.cs, live.frame.ss)
                                  && (live.fs != 0 || fs == 0))
  {
    SetsInterrupts(live.frame.rflags);
    PreemptRoundTrip(live.preempt);
    hide WithInterrupts, OnlyInterruptsSet, ToSigned, ToUnsigned;
  }

  lemma SetsInterrupts(flags: nat)
    ensures OnlyInterruptsSet(flags, WithInterrupts(flags))
    ensures WithInterrupts(flags) == flags <==> flags / 0x200 % 2 == 1
  {
  }

  lemma PreemptRoundTrip(x: I32)
    ensures ToSigned(ToUnsigned(x)) == x
  {
  }

  /** The interrupt frame at `p`, in the order in which it is pushed, holds the context's registers. */
  ghost predicate RegistersAt(mem: Memory, p: nat, c: Context)
  {
    && Word(mem, p) == c.r15 && Word(mem, p + 8) == c.r14 && Word(mem, p + 16) == c.r13 && Word(mem, p + 24) == c.r12
    && Word(mem, p + 32) == c.r11 && Word(mem, p + 40) == c.r10 && Word(mem, p + 48) == c.r9 && Word(mem, p + 56) == c.r8
    && Word(mem, p + 64) == c.rbp && Word(mem, p + 72) == c.rdi && Word(mem, p + 80) == c.rsi && Word(mem, p + 88) == c.rdx
    && Word(mem, p + 96) == c.rcx && Word(mem, p + 104) == c.rbx && Word(mem, p + 112) == c.rax
    && Word(mem, p + 120) == c.rip && Word(mem, p + 128) == c.cs && Word(mem, p + 144) == c.rsp
  }

  /** `c` is what the frame at `p` and the two bases say. */
  ghost predicate SavedFrom(mem: Memory, p: nat, fs: nat, gs: nat, c: Context)
  {
    RegistersAt(mem, p, c) && Word(mem, p + 136) == c.rflags && Word(mem, p + 152) == c.ss && c.fsBase == fs && c.gsBase == gs
  }

  /** A frame at `p` from which an interrupt return resumes the task: below its saved stack pointer, at which its own
      data begins, in kernel mode, and below the top of its kernel stack in user mode. */
  ghost predicate ResumesFrom(mem0: Memory, mem: Memory, p: nat, t: Task)
  {
    && p % 8 == 0 && RegistersAt(mem, p, t.context)
    && OnlyInterruptsSet(t.context.rflags, Word(mem, p + 136)) && SegmentsMatch(t.context.cs, Word(mem, p + 152))
    && (t.context.cs == 0x08 ==> p + 160 <= t.context.rsp < p + 168)
    && (t.context.cs == 0x23 ==> p + 160 <= t.kernelStackTop < p + 168)
    && (forall a: nat :: !(p <= a < p + 160) ==> Word(mem, a) == Word(mem0, a))
  }

  lemma LoadedWords(mem: Memory, p: nat, f: Frame)
    requires LoadFrame(mem, p) == f
    ensures forall fs: nat, gs: nat :: SavedFrom(mem, p, fs, gs, SaveContext(f, fs, gs))
  {
  }

  lemma ResumedWords(mem: Memory, p: nat, c: Context)
    requires LoadFrame(mem, p) == ResumeFrame(c) && IsSchedulable(c)
    ensures RegistersAt(mem, p, c)
    ensures OnlyInterruptsSet(c.rflags, Word(mem, p + 136)) && SegmentsMatch(c.cs, Word(mem, p + 152))
  {
    SetsInterrupts(c.rflags);
    hide WithInterrupts, OnlyInterruptsSet;
  }

  lemma StoredResumes(mem: Memory, t: Task, p: nat)
    requires IsSchedulable(t.context) && FrameBase(t.context, t.kernelStackTop) >= FRAME_SIZE
    requires p == AlignDown(FrameBase(t.context, t.kernelStackTop) - FRAME_SIZE)
    ensures var mem' := Store(mem, p, Words(ResumeFrame(t.context)));
            LoadFrame(mem', p) == ResumeFrame(t.context) && ResumesFrom(mem, mem', p, t)
  {
    FrameRoundTrip(mem, p, ResumeFrame(t.context));
    hide Store, Words, LoadFrame, ResumeFrame, RegistersAt, OnlyInterruptsSet, SegmentsMatch;
    ResumedWords(Store(mem, p, Words(ResumeFrame(t.context))), p, t.context);
  }

  // ----- one tick

  /** The run queue's side of a tick: does the switch from `curr` to `next` go through? */
  predicate Switches(tasks: map<Pid, Task>, c: CpuState, next: Pid)
  {
    next != c.curr && c.curr in tasks && next in tasks && IsSchedulable(tasks[next].context)
  }

  /** The outgoing task is saved as soon as it is found, whether or not the switch then goes through. */
  function TasksAfter(tasks: map<Pid, Task>, c: CpuState, next: Pid): map<Pid, Task>
  {
    if next != c.curr && c.curr in tasks then tasks[c.curr := Saved(tasks[c.curr], c.live)] else tasks
  }

  function CpuAfter(tasks: map<Pid, Task>, c: CpuState, next: Pid): CpuState
  {
    if Switches(tasks, c, next)
    then CpuState(next, Resumed(tasks[next], c.live.fs), tasks[next].kernelStackTop) else c
  }

  /** One CPU with its run queue. */
  class Scheduler {
    var tasks: map<Pid, Task>
    var mem: Memory
    var curr: Pid
    var fs: nat
    var gs: nat
    var preempt: I32
    var fpu: nat
    var kernelStack: nat

    /** This CPU's state when the interrupt frame lies at `rsp`. */
    function CpuAt(rsp: nat): CpuState
      reads this
    {
      CpuState(curr, Live(LoadFrame(mem, rsp), fs, gs, preempt, fpu), kernelStack)
    }

    /** Saves the outgoing task and, when the incoming one can run here, makes it current. */
    method ContextSwitchTransaction(next: Pid, context: Context, count: I32) returns (ok: bool)
      requires next != curr
      modifies this`tasks, this`fpu, this`curr
      ensures ok == (old(curr) in old(tasks) && next in old(tasks)
                     && var c := old(tasks)[next].context; c.rip != 0 && c.rsp != 0 && c.cs in {0x08, 0x23})
      ensures tasks == if old(curr) in old(tasks)
                       then old(tasks)[old(curr) := old(tasks)[old(curr)].(
                         context := context, preempt := ToUnsigned(count), fpu := old(fpu))]
                       else old(tasks)
      ensures if ok then curr == next && fpu == tasks[next].fpu else curr == old(curr) && fpu == old(fpu)
    {
      if curr !in tasks {
        return false;
      }
      tasks := tasks[curr := tasks[curr].(context := context, preempt := ToUnsigned(count), fpu := fpu)];
      if next !in tasks || !IsSchedulable(tasks[next].context) {
        return false;
      }
      fpu := tasks[next].fpu;
      curr := next;
      return true;
    }

    /** One timer tick that found `next` to run: returns the stack pointer to return from the interrupt with. */
    method SchedulerTick(currentRsp: nat, next: Pid) returns (rsp: nat)
      requires next in tasks ==>
                 var t := tasks[next]; (if t.context.cs == 0x08 then t.context.rsp else t.kernelStackTop) >= 160
      modifies this
      ensures tasks == TasksAfter(old(tasks), old(CpuAt(currentRsp)), next)
      ensures CpuAt(rsp) == CpuAfter(old(tasks), old(CpuAt(currentRsp)), next)
      ensures next != old(curr) && old(curr) in old(tasks) ==>
                SavedFrom(old(mem), currentRsp, old(fs), old(gs), tasks[old(curr)].context)
      ensures if Switches(old(tasks), old(CpuAt(currentRsp)), next)
              then var t := old(tasks)[next];
                   && ResumesFrom(old(mem), mem, rsp, t)
                   && curr == next && fpu == t.fpu && gs == t.context.gsBase && kernelStack == t.kernelStackTop
                   && fs == (if t.context.fsBase != 0 then t.context.fsBase else old(fs))
              else rsp == currentRsp && mem == old(mem)
    {
      hide Store, Words, LoadFrame, ResumeFrame, SavedFrom, ResumesFrom;
      if next == curr {
        return currentRsp;
      }
      var frame := LoadFrame(mem, currentRsp);
      LoadedWords(mem, currentRsp, frame);
      ghost var live := Live(frame, fs, gs, preempt, fpu);
      assert CpuAt(currentRsp).live == live;
      var ok := ContextSwitchTransaction(next, SaveContext(frame, fs, gs), preempt);
      if !ok {
        return currentRsp;
      }
      preempt := 0;
      var task := tasks[next];
      kernelStack := task.kernelStackTop;
      if task.context.fsBase != 0 {
        fs := task.context.fsBase;
      }
      gs := task.context.gsBase;
      preempt := ToSigned(task.preempt);
      rsp := AlignDown(FrameBase(task.context, task.kernelStackTop) - FRAME_SIZE);
      var words := Words(ResumeFrame(task.context));
      StoredResumes(mem, task, rsp);
      mem := Store(mem, rsp, words);
    }
  }
}
