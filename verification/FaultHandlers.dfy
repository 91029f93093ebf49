/** `handle_demand_page` and `handle_stack_growth`, and runs of faults. */
module FaultHandlers {
  import opened Basics
  import opened Paging
  import opened Faults

  /** The leaf entry of a demand-paged page, with the permissions of its memory area. */
  function DataEntry(f: nat, write: bool, exec: bool): Entry { Entry(f, true, write, true, false, false, !exec, 0) }

  /** `e` maps frame `f` for user code with these rights, and says nothing else. */
  predicate MapsPage(e: Entry, f: nat, write: bool, exec: bool)
  {
    && e.present && e.addr == f && e.user && (e.writable <==> write) && (e.noExecute <==> !exec)
    && !e.huge && !e.global && e.other == 0
  }

  /** The page is mapped to frame `f` with these rights, and every word of the frame is zero. */
  ghost predicate FreshPage(mem: Memory, root: nat, v: Path, f: nat, write: bool, exec: bool)
    requires |v| == 4
  {
    && MapsPage(EntryAt(mem, root, v), f, write, exec)
    && f in mem && |mem[f]| == 512
    && forall i :: 0 <= i < 512 ==> mem[f][i] == Entry(0, false, false, false, false, false, false, 0)
  }

  /** A handled fault changes the translation of the page in question only, and a refused one of none. */
  ghost predicate OnlyPageChanged(mem0: Memory, mem: Memory, root: nat, page: nat, ok: bool)
  {
    forall va: nat :: !ok || PathOf(va) != PathOf(page) ==> Translate(mem, root, va) == Translate(mem0, root, va)
  }

  lemma FaultTranslations(mem0: Memory, free0: set<nat>, mem: Memory, free: set<nat>,
                          root: nat, page: nat, d: nat, taken: seq<nat>, ok: bool)
    requires FaultEffect(mem0, free0, mem, free, root, PathOf(page), d, taken)
    requires if ok then d + |taken| == 4 else d + |taken| < 4 || taken == []
    ensures ok ==> Translate(mem, root, page).Some?
    ensures OnlyPageChanged(mem0, mem, root, page, ok)
  {
    var v := PathOf(page);
    if ok { ResolvedPageMapped(mem0, mem, root, v, d, taken); }
    hide Walk, Grew, StopsAt, Tree;
    forall va: nat | !ok || PathOf(va) != v ensures Translate(mem, root, va) == Translate(mem0, root, va) {
      OtherPagesKeep(mem0, mem, root, v, d, taken, PathOf(va));
    }
  }

  /** Physical memory together with the frame allocator. */
  class Machine {
    var mem: Memory
    var free: set<nat>
    /** How many more requests the allocator will grant before it refuses one; any number. */
    var quota: nat

    ghost predicate Valid(root: nat)
      reads this
    {
      Tree(mem, root) && FreeUnmapped(mem, root, free)
    }

    ghost predicate Exhausted()
      reads this
    {
      free == {} || quota == 0
    }

    /** `alloc_frame`: some free frame, or failure once the quota is used up. */
    method AllocFrame() returns (r: Option<nat>)
      modifies this`free, this`quota
      ensures r.None? <==> old(Exhausted())
      ensures r.None? ==> free == old(free) && quota == old(quota)
      ensures r.Some? ==> r.value in old(free) && free == old(free) - {r.value} && quota == old(quota) - 1
    {
      if free == {} || quota == 0 {
        return None;
      }
      var f :| f in free;
      free := free - {f};
      quota := quota - 1;
      return Some(f);
    }

    /** The block both handlers repeat for each of the upper three levels: follow the entry or link a new table. */
    method NextTable(level: nat, t: nat, i: nat, ghost root: nat, ghost mem0: Memory, ghost free0: set<nat>,
                     ghost v: Path, ghost d: nat, ghost taken: seq<nat>)
      returns (next: Option<nat>, ghost d': nat, ghost taken': seq<nat>)
      requires |v| == 4 && 1 <= level <= 3 && d + |taken| == level - 1 && i == v[level - 1] < ENTRIES
      requires Descent(mem0, free0, mem, free, root, v, d, taken, t)
      modifies this
      ensures next.Some? ==> d' + |taken'| == level && Descent(mem0, free0, mem, free, root, v, d', taken', next.value)
      ensures next.None? ==> d' + |taken'| == level - 1 && FaultEffect(mem0, free0, mem, free, root, v, d', taken')
      ensures next.None? ==> Exhausted() || BlockedAt(mem0, root, v, d')
    {
      hide FaultEffect, Descent, BlockedAt, Linked;
      d', taken' := d, taken;
      assert IsTable(mem, t) && (forall f :: f in free ==> IsTable(mem, f) && f != t) by {
        DescentTable(mem0, free0, mem, free, root, v, d, taken, t);
      }
      var e := mem[t][i];
      assert e == Read(mem, t, i);
      if level > 1 && e.huge {
        DescentEnds(mem0, free0, mem, free, root, v, d, taken, t);
        BlockedBefore(mem0, free0, mem, free, root, v, d, taken, e);
        return None, d', taken';
      }
      if e.present {
        DescentFollow(mem0, free0, mem, free, root, v, d, taken, t, e);
        return Some(e.addr), d + 1, [];
      }
      ghost var before := free;
      var frame := AllocFrame();
      if frame.None? {
        DescentEnds(mem0, free0, mem, free, root, v, d, taken, t);
        return None, d', taken';
      }
      var f := frame.value;
      DescentLink(mem0, free0, mem, before, root, v, d, taken, t, f, TableEntry(f));
      LinkedInSteps(mem, t, i, f, TableEntry(f));
      mem := mem[f := ZeroFrame()];
      mem := mem[t := mem[t][i := TableEntry(f)]];
      return Some(f), d, taken + [f];
    }

    /** `handle_demand_page` */
    method HandleDemandPage(pageAddr: nat, pml4: nat, vmWrite: bool, vmExec: bool)
      returns (ok: bool, ghost d: nat, ghost taken: seq<nat>)
      requires Valid(pml4)
      modifies this
      ensures Valid(pml4)
      ensures FaultEffect(old(mem), old(free), mem, free, pml4, PathOf(pageAddr), d, taken)
      ensures ok <==> d + |taken| == 4
      ensures !ok ==> Exhausted() || BlockedAt(old(mem), pml4, PathOf(pageAddr), d)
      ensures ok && taken != [] ==>
                var f := taken[|taken| - 1];
                FreshPage(mem, pml4, PathOf(pageAddr), f, vmWrite, vmExec)
      ensures ok ==> Translate(mem, pml4, pageAddr).Some?
      ensures OnlyPageChanged(old(mem), mem, pml4, pageAddr, ok)
    {
      hide FaultEffect, Valid, Descent, FreshPage, BlockedAt, Translate, OnlyPageChanged;
      var t, present;
      t, present, d, taken := WalkToPage(pageAddr, pml4);
      if t.None? {
        ok := false;
      } else if present {
        ok := true;
      } else {
        ok, taken := MapPage(pageAddr, t.value, vmWrite, !vmExec, pml4, old(mem), old(free), d, taken);
      }
      FaultTranslations(old(mem), old(free), mem, free, pml4, pageAddr, d, taken, ok);
    }

    /** `handle_stack_growth`; `lockBusy` says that the growth lock was contended. */
    method HandleStackGrowth(pageAddr: nat, pml4: nat, lockBusy: bool)
      returns (ok: bool, ghost d: nat, ghost taken: seq<nat>)
      requires Valid(pml4)
      modifies this
      ensures Valid(pml4)
      ensures lockBusy ==> !ok && mem == old(mem) && free == old(free)
      ensures !lockBusy ==> FaultEffect(old(mem), old(free), mem, free, pml4, PathOf(pageAddr), d, taken)
      ensures !lockBusy ==> (ok <==> d + |taken| == 4 && EntryAt(mem, pml4, PathOf(pageAddr)).writable)
      ensures !lockBusy && d + |taken| < 4 ==> Exhausted() || BlockedAt(old(mem), pml4, PathOf(pageAddr), d)
      ensures ok && taken != [] ==>
                var f := taken[|taken| - 1];
                FreshPage(mem, pml4, PathOf(pageAddr), f, true, false)
      ensures ok ==> Translate(mem, pml4, pageAddr).Some?
      ensures OnlyPageChanged(old(mem), mem, pml4, pageAddr, ok)
    {
      hide FaultEffect, Valid, Descent, BlockedAt, Translate;
      if lockBusy {
        return false, 0, [];
      }
      hide OnlyPageChanged;
      var t, present;
      t, present, d, taken := WalkToPage(pageAddr, pml4);
      if t.None? {
        ok := false;
      } else if present {
        ok := Read(mem, t.value, IndexOf(pageAddr, 3)).writable;
      } else {
        ok, taken := MapPage(pageAddr, t.value, true, true, pml4, old(mem), old(free), d, taken);
      }
      FaultTranslations(old(mem), old(free), mem, free, pml4, pageAddr, d, taken, ok);
    }

    /** The walk both handlers start with, down to the last-level entry. */
    method WalkToPage(pageAddr: nat, pml4: nat)
      returns (t: Option<nat>, present: bool, ghost d: nat, ghost taken: seq<nat>)
      requires Valid(pml4)
      modifies this
      ensures Valid(pml4)
      ensures t.None? || present ==> FaultEffect(old(mem), old(free), mem, free, pml4, PathOf(pageAddr), d, taken)
      ensures t.None? ==> d + |taken| < 4 && (Exhausted() || BlockedAt(old(mem), pml4, PathOf(pageAddr), d))
      ensures t.Some? && present ==> d == 4 && taken == []
      ensures t.Some? && present ==> EntryAt(mem, pml4, PathOf(pageAddr)) == Read(mem, t.value, IndexOf(pageAddr, 3))
      ensures t.Some? && !present ==> d + |taken| == 3 && !Read(mem, t.value, IndexOf(pageAddr, 3)).present
      ensures t.Some? && !present ==> Descent(old(mem), old(free), mem, free, pml4, PathOf(pageAddr), d, taken, t.value)
    {
      hide FaultEffect, Descent, BlockedAt, IndexOf;
      ghost var v := PathOf(pageAddr);
      d, taken := 0, [];
      DescentStart(mem, free, pml4, v);
      var pdpt, pd, pt;
      pdpt, d, taken := NextTable(1, pml4, IndexOf(pageAddr, 0), pml4, old(mem), old(free), v, d, taken);
      if pdpt.None? {
        EffectValid(old(mem), old(free), mem, free, pml4, v, d, taken);
        return None, false, d, taken;
      }
      pd, d, taken := NextTable(2, pdpt.value, IndexOf(pageAddr, 1), pml4, old(mem), old(free), v, d, taken);
      if pd.None? {
        EffectValid(old(mem), old(free), mem, free, pml4, v, d, taken);
        return None, false, d, taken;
      }
      pt, d, taken := NextTable(3, pd.value, IndexOf(pageAddr, 2), pml4, old(mem), old(free), v, d, taken);
      if pt.None? {
        EffectValid(old(mem), old(free), mem, free, pml4, v, d, taken);
        return None, false, d, taken;
      }
      t := pt;
      DescentValid(old(mem), old(free), mem, free, pml4, v, d, taken, t.value);
      var e := Read(mem, t.value, IndexOf(pageAddr, 3));
      present := e.present;
      if present {
        DescentPresent(old(mem), old(free), mem, free, pml4, v, d, taken, t.value, e);
        d := 4;
      }
    }

    /** The end both handlers share: allocate, zero and map the data frame. */
    method MapPage(pageAddr: nat, t: nat, write: bool, noExecute: bool, ghost pml4: nat, ghost mem0: Memory,
                   ghost free0: set<nat>, ghost d: nat, ghost taken: seq<nat>)
      returns (ok: bool, ghost taken': seq<nat>)
      requires d + |taken| == 3
      requires Descent(mem0, free0, mem, free, pml4, PathOf(pageAddr), d, taken, t)
      requires !Read(mem, t, IndexOf(pageAddr, 3)).present
      modifies this
      ensures Valid(pml4)
      ensures FaultEffect(mem0, free0, mem, free, pml4, PathOf(pageAddr), d, taken')
      ensures ok <==> d + |taken'| == 4
      ensures ok ==> taken' != [] && FreshPage(mem, pml4, PathOf(pageAddr), taken'[|taken'| - 1], write, !noExecute)
      ensures !ok ==> Exhausted() && taken' == taken
    {
      hide FaultEffect, Descent, IndexOf, Linked;
      ghost var v := PathOf(pageAddr);
      var i := IndexOf(pageAddr, 3);
      DescentTable(mem0, free0, mem, free, pml4, v, d, taken, t);
      ghost var before := free;
      var frame := AllocFrame();
      if frame.None? {
        DescentEnds(mem0, free0, mem, free, pml4, v, d, taken, t);
        EffectValid(mem0, free0, mem, free, pml4, v, d, taken);
        return false, taken;
      }
      var f := frame.value;
      var e := DataEntry(f, write, !noExecute);
      DescentLink(mem0, free0, mem, before, pml4, v, d, taken, t, f, e);
      DataLinked(mem0, free0, mem, before, pml4, v, d, taken, t, f, e);
      LinkedInSteps(mem, t, i, f, e);
      mem := mem[f := ZeroFrame()];
      mem := mem[t := mem[t][i := e]];
      taken' := taken + [f];
      DescentEnds(mem0, free0, mem, free, pml4, v, d, taken', f);
      EffectValid(mem0, free0, mem, free, pml4, v, d, taken');
      return true, taken';
    }
  }

  lemma LinkedInSteps(mem: Memory, t: nat, i: nat, f: nat, e: Entry)
    requires IsTable(mem, t) && i < ENTRIES && f != t
    ensures Linked(mem, t, i, f, e) == mem[f := ZeroFrame()][t := mem[f := ZeroFrame()][t][i := e]]
  {
  }

  lemma EffectValid(mem0: Memory, free0: set<nat>, mem: Memory, free: set<nat>, root: nat, v: Path, d: nat, taken: seq<nat>)
    requires |v| == 4 && FaultEffect(mem0, free0, mem, free, root, v, d, taken)
    ensures Tree(mem, root) && FreeUnmapped(mem, root, free)
  {
  }

  lemma DescentValid(mem0: Memory, free0: set<nat>, mem: Memory, free: set<nat>,
                     root: nat, v: Path, d: nat, taken: seq<nat>, t: nat)
    requires |v| == 4 && Descent(mem0, free0, mem, free, root, v, d, taken, t)
    ensures Tree(mem, root) && FreeUnmapped(mem, root, free)
  {
  }

  /** The last-level entry is present: nothing was missing, so nothing was taken. */
  lemma DescentPresent(mem0: Memory, free0: set<nat>, mem: Memory, free: set<nat>,
                       root: nat, v: Path, d: nat, taken: seq<nat>, t: nat, e: Entry)
    requires |v| == 4 && d + |taken| == 3
    requires Descent(mem0, free0, mem, free, root, v, d, taken, t)
    requires e == Read(mem, t, v[3]) && e.present
    ensures taken == [] && FaultEffect(mem0, free0, mem, free, root, v, 4, [])
    ensures EntryAt(mem, root, v) == e
  {
    hide Tree, FreeUnmapped, Grew, OthersKept, Accounts;
    DescentFollow(mem0, free0, mem, free, root, v, d, taken, t, e);
    DescentEnds(mem0, free0, mem, free, root, v, 4, [], e.addr);
    assert v[..4] == v && v[..3] == v[..|v| - 1];
  }

  /** Bit 7 stopped the walk: it was set before the fault, for new tables are zero. */
  lemma BlockedBefore(mem0: Memory, free0: set<nat>, mem: Memory, free: set<nat>,
                      root: nat, v: Path, d: nat, taken: seq<nat>, e: Entry)
    requires |v| == 4 && FaultEffect(mem0, free0, mem, free, root, v, d, taken)
    requires 1 <= d + |taken| <= 2 && e == EntryAt(mem, root, v[..d + |taken| + 1]) && e.huge
    ensures taken == [] && BlockedAt(mem0, root, v, d)
  {
    hide Tree, FreeUnmapped, OthersKept, Accounts, FrameAt, EntryAt;
    var k := d + |taken|;
    var q := v[..k + 1];
    assert GrewAt(mem0, mem, root, v, d, taken, q);
    if taken != [] {
      assert q[..d + 1] == v[..d + 1];
      SlotZero(mem0, root, v, d, q);
    }
  }

  lemma DataLinked(mem0: Memory, free0: set<nat>, mem: Memory, free: set<nat>,
                   root: nat, v: Path, d: nat, taken: seq<nat>, t: nat, f: nat, e: Entry)
    requires |v| == 4 && d + |taken| == 3 && v[3] < ENTRIES
    requires Descent(mem0, free0, mem, free, root, v, d, taken, t)
    requires f in free && IsTable(mem, t) && f != t
    requires !Read(mem, t, v[3]).present
    requires MapsPage(e, f, e.writable, !e.noExecute)
    ensures FreshPage(Linked(mem, t, v[3], f, e), root, v, f, e.writable, !e.noExecute)
  {
    LinkHere(mem0, mem, root, v, d, taken, t, f, e, free);
    hide Descent;
    LinkedEntries(mem, root, v, 3, t, f, e, v);
    assert v[..4] == v;
  }

  // ----- runs of faults

  datatype Sys = Sys(mem: Memory, free: set<nat>)

  /** Any fault of either kind, at any address, resolved or cut short by the allocator at any point. */
  ghost predicate FaultStep(root: nat, s: Sys, s': Sys)
  {
    exists v: Path, d: nat, taken: seq<nat> :: |v| == 4 && FaultEffect(s.mem, s.free, s'.mem, s'.free, root, v, d, taken)
  }

  ghost predicate Sound(root: nat, s: Sys)
  {
    Tree(s.mem, root) && FreeUnmapped(s.mem, root, s.free)
  }

  ghost predicate StepAt(root: nat, run: seq<Sys>, i: int)
  {
    0 <= i < |run| - 1 && FaultStep(root, run[i], run[i + 1])
  }

  ghost predicate IsRun(root: nat, run: seq<Sys>)
  {
    |run| >= 1 && Sound(root, run[0]) && forall i :: 0 <= i < |run| - 1 ==> StepAt(root, run, i)
  }

  /** A mapped page stays mapped as it is, through any fault. */
  lemma MappedPageKeeps(mem0: Memory, free0: set<nat>, mem: Memory, free: set<nat>,
                        root: nat, v: Path, d: nat, taken: seq<nat>, w: Path)
    requires |v| == 4 && |w| == 4
    requires FaultEffect(mem0, free0, mem, free, root, v, d, taken)
    requires Walk(mem0, root, w) != Leaf.Unmapped
    ensures Walk(mem, root, w) == Walk(mem0, root, w)
  {
    hide Tree, FreeUnmapped, OthersKept, Accounts, FrameAt, EntryAt;
    assert v[..4] == v;
    if w == v && taken != [] {
      forall j | 1 <= j <= d ensures Points(j, EntryAt(mem0, root, v[..j])) {
        PrefixSome(mem0, root, v, j, d);
        SlotPoints(mem0, root, v[..j]);
      }
    } else {
      OtherPagesKeep(mem0, mem, root, v, d, taken, w);
    }
  }

  ghost predicate Consistent(root: nat, s: Sys, s': Sys)
  {
    && Sound(root, s')
    && s'.free <= s.free
    && (forall f :: Reachable(s'.mem, root, f) <==> Reachable(s.mem, root, f) || f in s.free - s'.free)
    && LinkedOnce(s'.mem, root, s.free - s'.free)
    && (forall w :: |w| == 4 && Walk(s.mem, root, w) != Leaf.Unmapped ==> Walk(s'.mem, root, w) == Walk(s.mem, root, w))
  }

  /** Each of the frames, table or data page, hangs at a single place. */
  ghost predicate LinkedOnce(mem: Memory, root: nat, frames: set<nat>)
  {
    forall p, q :: |p| <= 4 && |q| <= 4 && SameFrame(mem, root, p, q) && FrameAt(mem, root, p).value in frames ==> p == q
  }

  /** What was linked once before a fault still is, and so is what the fault takes. */
  lemma LinkedOnceStep(root: nat, frames: set<nat>, s: Sys, s': Sys, v: Path, d: nat, taken: seq<nat>)
    requires Sound(root, s) && LinkedOnce(s.mem, root, frames)
    requires |v| == 4 && FaultEffect(s.mem, s.free, s'.mem, s'.free, root, v, d, taken)
    ensures LinkedOnce(s'.mem, root, frames + (s.free - s'.free))
  {
    TakenIsReachable(s.mem, s.free, s'.mem, s'.free, root, v, d, taken);
    EffectAccounts(s.mem, s.free, s'.mem, s'.free, root, v, d, taken);
    hide Tree, FreeUnmapped, Reachable, FrameAt, EntryAt, OthersKept, Accounts;
    forall p, q | |p| <= 4 && |q| <= 4 && SameFrame(s'.mem, root, p, q)
                  && FrameAt(s'.mem, root, p).value in frames + (s.free - s'.free) ensures p == q
    {
      if FrameAt(s'.mem, root, p).value !in taken {
        assert GrewAt(s.mem, s'.mem, root, v, d, taken, p) && GrewAt(s.mem, s'.mem, root, v, d, taken, q);
        assert SameFrame(s.mem, root, p, q);
      }
    }
  }

  lemma StepConsistent(root: nat, s: Sys, s': Sys)
    requires Sound(root, s) && FaultStep(root, s, s')
    ensures Consistent(root, s, s')
  {
    var v: Path, d: nat, taken: seq<nat> :| |v| == 4 && FaultEffect(s.mem, s.free, s'.mem, s'.free, root, v, d, taken);
    EffectConsistent(root, s, s', v, d, taken);
  }

  lemma EffectConsistent(root: nat, s: Sys, s': Sys, v: Path, d: nat, taken: seq<nat>)
    requires Sound(root, s)
    requires |v| == 4 && FaultEffect(s.mem, s.free, s'.mem, s'.free, root, v, d, taken)
    ensures Consistent(root, s, s')
  {
    hide Tree, FreeUnmapped, Reachable, Walk, FaultEffect;
    assert LinkedOnce(s.mem, root, {});
    LinkedOnceStep(root, {}, s, s', v, d, taken);
    assert {} + (s.free - s'.free) == s.free - s'.free;
    TakenIsReachable(s.mem, s.free, s'.mem, s'.free, root, v, d, taken);
    EffectValid(s.mem, s.free, s'.mem, s'.free, root, v, d, taken);
    EffectAccounts(s.mem, s.free, s'.mem, s'.free, root, v, d, taken);
    forall w | |w| == 4 && Walk(s.mem, root, w) != Leaf.Unmapped ensures Walk(s'.mem, root, w) == Walk(s.mem, root, w) {
      MappedPageKeeps(s.mem, s.free, s'.mem, s'.free, root, v, d, taken, w);
    }
  }

  lemma EffectAccounts(mem0: Memory, free0: set<nat>, mem: Memory, free: set<nat>, root: nat, v: Path, d: nat, taken: seq<nat>)
    requires |v| == 4 && FaultEffect(mem0, free0, mem, free, root, v, d, taken)
    ensures free <= free0 && forall f :: f in free0 - free <==> f in taken
  {
  }

  /** Over every run of faults, with allocation failing at any points: the tables stay a tree, the frames
      gone from the allocator are exactly the newly reachable ones, each of them linked at a single place, and
      no mapped page changes. */
  lemma {:induction false} RunConsistent(root: nat, run: seq<Sys>)
    requires IsRun(root, run)
    ensures Consistent(root, run[0], run[|run| - 1])
  {
    hide FaultStep, Tree, FreeUnmapped, Reachable, Walk, LinkedOnce;
    if |run| == 1 {
      assert LinkedOnce(run[0].mem, root, {}) by { NothingLinked(run[0].mem, root); }
      assert run[0].free - run[0].free == {};
    } else {
      var shorter := run[..|run| - 1];
      forall i | 0 <= i < |shorter| - 1 ensures StepAt(root, shorter, i) {
        assert StepAt(root, run, i);
      }
      RunConsistent(root, shorter);
      assert StepAt(root, run, |run| - 2);
      var s, s' := run[|run| - 2], run[|run| - 1];
      StepConsistent(root, s, s');
      RunLinkedOnce(root, run[0], s, s');
    }
  }

  lemma NothingLinked(mem: Memory, root: nat)
    ensures LinkedOnce(mem, root, {})
  {
  }

  lemma RunLinkedOnce(root: nat, s0: Sys, s: Sys, s': Sys)
    requires Consistent(root, s0, s) && Consistent(root, s, s') && FaultStep(root, s, s')
    ensures LinkedOnce(s'.mem, root, s0.free - s'.free)
  {
    hide LinkedOnce, Tree, FreeUnmapped, Reachable, Walk, FaultEffect;
    var v: Path, d: nat, taken: seq<nat> :| |v| == 4 && FaultEffect(s.mem, s.free, s'.mem, s'.free, root, v, d, taken);
    LinkedOnceStep(root, s0.free - s.free, s, s', v, d, taken);
    assert (s0.free - s.free) + (s.free - s'.free) == s0.free - s'.free;
  }

  /** Two faults at one address, the first of which ran out of frames: the second starts where the first
      stopped, so both together take no more than were missing. */
  lemma RetryTakesTheRest(root: nat, v: Path, s: Sys, s': Sys, s'': Sys, d: nat, taken: seq<nat>, d': nat, taken': seq<nat>)
    requires |v| == 4
    requires FaultEffect(s.mem, s.free, s'.mem, s'.free, root, v, d, taken)
    requires FaultEffect(s'.mem, s'.free, s''.mem, s''.free, root, v, d', taken')
    ensures d' == d + |taken| && |taken| + |taken'| <= 4 - d
    ensures d' + |taken'| == 4 ==> |taken| + |taken'| == 4 - d
  {
    RetryContinues(s.mem, s.free, s'.mem, s'.free, root, v, d, taken);
    DepthUnique(s'.mem, root, v, d + |taken|, d');
  }
}
