/** Kernel-stack guard pages: clearing and restoring one 4 KiB entry of the direct map. */
module KstackGuard {
  import opened Basics
  import opened Paging

  function PhysToVirt(phys: nat): nat { (phys + PHYS_MAP_BASE) % TWO_64 }

  /** PRESENT, WRITABLE, NO_EXECUTE and GLOBAL. */
  function GuardEntry(phys: nat): Entry { Entry(phys, true, true, false, false, true, true, 0) }

  /** `e` maps frame `phys` for the kernel: writable, not executable, in all address spaces. */
  predicate IsGuardEntry(e: Entry, phys: nat)
  {
    e.present && e.addr == phys && e.writable && e.noExecute && e.global && !e.user && !e.huge && e.other == 0
  }

  /** The direct map begins at 0xFFFF_8000_0000_0000. */
  lemma DirectMapAddress(phys: nat)
    requires phys < 0x8000_0000_0000
    ensures PhysToVirt(phys) == 0xFFFF_8000_0000_0000 + phys
  {
  }

  /** Slot `v` of the last level, in table `t`, now holds `e`. */
  function Poked(mem: Memory, t: nat, i: nat, e: Entry): Memory
    requires IsTable(mem, t) && i < ENTRIES
  {
    mem[t := mem[t][i := e]]
  }

  ghost predicate LastTable(mem: Memory, root: nat, v: Path, t: nat)
  {
    Tree(mem, root) && |v| == 4 && v[3] < ENTRIES && FrameAt(mem, root, v[..3]) == Some(t)
  }

  lemma {:induction false} PokedFrames(mem: Memory, root: nat, v: Path, t: nat, e: Entry, q: Path)
    requires LastTable(mem, root, v, t) && |q| <= 3
    ensures FrameAt(Poked(mem, t, v[3], e), root, q) == FrameAt(mem, root, q)
  {
    if q != [] {
      var p := q[..|q| - 1];
      PokedFrames(mem, root, v, t, e, p);
      var w := v[..3];
      assert SameFrame(mem, root, p, w) ==> p == w;
    }
  }

  /** Writing a last-level entry changes that slot and no other. */
  lemma PokedEntries(mem: Memory, root: nat, v: Path, t: nat, e: Entry, q: Path)
    requires LastTable(mem, root, v, t) && 1 <= |q| <= 4
    ensures EntryAt(Poked(mem, t, v[3], e), root, q) == if q == v then e else EntryAt(mem, root, q)
  {
    var p, x := q[..|q| - 1], q[|q| - 1];
    assert q == p + [x] && v == v[..3] + [v[3]];
    PokedFrames(mem, root, v, t, e, p);
    if FrameAt(mem, root, p) == Some(t) {
      assert SameFrame(mem, root, p, v[..3]);
    }
  }

  lemma PokedTree(mem: Memory, root: nat, v: Path, t: nat, e: Entry)
    requires LastTable(mem, root, v, t)
    ensures Tree(Poked(mem, t, v[3], e), root)
  {
    var mem' := Poked(mem, t, v[3], e);
    forall p | |p| <= 3 ensures FrameAt(mem', root, p) == FrameAt(mem, root, p) {
      PokedFrames(mem, root, v, t, e, p);
    }
    forall p, q | |p| <= 3 && |q| <= 3 && SameFrame(mem', root, p, q) ensures p == q {
      assert SameFrame(mem, root, p, q);
    }
    forall p | |p| <= 3 && FrameAt(mem', root, p).Some? ensures IsTable(mem', FrameAt(mem', root, p).value) {
      assert IsTable(mem, FrameAt(mem, root, p).value);
    }
  }

  /** The tables after the last-level entry of `v`, if a last-level table exists for it, became `e`. */
  ghost predicate SetTo(mem: Memory, mem': Memory, root: nat, v: Path, e: Entry)
    requires |v| == 4
  {
    && Tree(mem', root)
    && forall q :: 1 <= |q| <= 4 ==> EntryAt(mem', root, q) == if q == v then e else EntryAt(mem, root, q)
  }

  lemma PokedSets(mem: Memory, root: nat, v: Path, t: nat, e: Entry)
    requires LastTable(mem, root, v, t)
    ensures SetTo(mem, Poked(mem, t, v[3], e), root, v, e)
  {
    PokedTree(mem, root, v, t, e);
    forall q | 1 <= |q| <= 4
      ensures EntryAt(Poked(mem, t, v[3], e), root, q) == if q == v then e else EntryAt(mem, root, q)
    {
      PokedEntries(mem, root, v, t, e, q);
    }
  }

  /** A 4 KiB table covers the page: no absent entry and no large page comes first. */
  ghost predicate HasLastTable(mem: Memory, root: nat, v: Path)
    requires |v| == 4
  {
    FrameAt(mem, root, v[..3]).Some?
  }

  class Tables {
    var mem: Memory

    /** The walk both operations share: the last-level table for `v`, if every entry above it leads on. */
    method FindLastTable(pml4: nat, virt: nat) returns (pt: Option<nat>)
      requires Tree(mem, pml4)
      ensures pt == FrameAt(mem, pml4, PathOf(virt)[..3])
    {
      ghost var v := PathOf(virt);
      assert v[..0] == [] && v[..1][..0] == v[..0] && v[..2][..1] == v[..1] && v[..3][..2] == v[..2];
      assert v[..1] == [v[0]] && v[..2][1] == v[1] && v[..3][2] == v[2];
      var pml4e := Read(mem, pml4, IndexOf(virt, 0));
      if !pml4e.present {
        return None;
      }
      var pdpte := Read(mem, pml4e.addr, IndexOf(virt, 1));
      if !pdpte.present || pdpte.huge {
        return None;
      }
      var pde := Read(mem, pdpte.addr, IndexOf(virt, 2));
      if !pde.present || pde.huge {
        return None;
      }
      return Some(pde.addr);
    }

    /** `clear_pte_for_virt` */
    method ClearPte(pml4: nat, virt: nat) returns (cleared: bool)
      requires Tree(mem, pml4)
      modifies this
      ensures Tree(mem, pml4)
      ensures cleared <==> old(FrameAt(mem, pml4, PathOf(virt))).Some?
      ensures cleared ==> SetTo(old(mem), mem, pml4, PathOf(virt), EMPTY_ENTRY)
      ensures !cleared ==> mem == old(mem)
    {
      ghost var v := PathOf(virt);
      assert v[..|v| - 1] == v[..3];
      var t := FindLastTable(pml4, virt);
      if t.None? {
        return false;
      }
      var i := IndexOf(virt, 3);
      if !Read(mem, t.value, i).present {
        return false;
      }
      assert LastTable(mem, pml4, v, t.value);
      PokedSets(mem, pml4, v, t.value, EMPTY_ENTRY);
      mem := mem[t.value := mem[t.value][i := EMPTY_ENTRY]];
      return true;
    }

    /** `set_pte_for_virt` */
    method SetPte(pml4: nat, virt: nat, e: Entry) returns (written: bool)
      requires Tree(mem, pml4)
      modifies this
      ensures Tree(mem, pml4)
      ensures written <==> old(HasLastTable(mem, pml4, PathOf(virt)))
      ensures written ==> SetTo(old(mem), mem, pml4, PathOf(virt), e)
      ensures !written ==> mem == old(mem)
    {
      ghost var v := PathOf(virt);
      var t := FindLastTable(pml4, virt);
      if t.None? {
        return false;
      }
      var i := IndexOf(virt, 3);
      assert LastTable(mem, pml4, v, t.value);
      PokedSets(mem, pml4, v, t.value, e);
      mem := mem[t.value := mem[t.value][i := e]];
      return true;
    }

    /** `unmap_guard_page` */
    method UnmapGuardPage(pml4: nat, guard: nat)
      requires Tree(mem, pml4)
      modifies this
      ensures Tree(mem, pml4)
      ensures var v := PathOf((guard + 0xFFFF_8000_0000_0000) % 0x1_0000_0000_0000_0000);
              if old(FrameAt(mem, pml4, v)).Some? then SetTo(old(mem), mem, pml4, v, EMPTY_ENTRY) else mem == old(mem)
    {
      var cleared := ClearPte(pml4, PhysToVirt(guard));
    }

    /** `remap_guard_page` */
    method RemapGuardPage(pml4: nat, guard: nat)
      requires Tree(mem, pml4)
      modifies this
      ensures Tree(mem, pml4)
      ensures var v := PathOf((guard + 0xFFFF_8000_0000_0000) % 0x1_0000_0000_0000_0000);
              if old(HasLastTable(mem, pml4, v))
              then SetTo(old(mem), mem, pml4, v, GuardEntry(guard)) && IsGuardEntry(EntryAt(mem, pml4, v), guard)
              else mem == old(mem)
    {
      var written := SetPte(pml4, PhysToVirt(guard), GuardEntry(guard));
    }
  }

  // ----- what the pair does to translations

  /** Taking the guard page away unmaps that page and leaves every other page's walk alone. */
  lemma OnlyGuardUnmapped(mem: Memory, mem': Memory, root: nat, v: Path, w: Path)
    requires |v| == 4 && |w| == 4
    requires FrameAt(mem, root, v).Some? && SetTo(mem, mem', root, v, EMPTY_ENTRY)
    ensures Walk(mem', root, w) == if w == v then Leaf.Unmapped else Walk(mem, root, w)
  {
  }

  /** Unmapping and remapping: `mem2` is what both calls leave behind. */
  ghost predicate Pair(mem: Memory, mem1: Memory, mem2: Memory, root: nat, guard: nat)
  {
    var v := PathOf(PhysToVirt(guard));
    && Tree(mem, root)
    && (if FrameAt(mem, root, v).Some? then SetTo(mem, mem1, root, v, EMPTY_ENTRY) else mem1 == mem)
    && (if HasLastTable(mem1, root, v) then SetTo(mem1, mem2, root, v, GuardEntry(guard)) else mem2 == mem1)
  }

  lemma PairWalk(mem: Memory, mem1: Memory, mem2: Memory, root: nat, guard: nat, w: Path)
    requires |w| == 4 && Pair(mem, mem1, mem2, root, guard)
    ensures var v := PathOf(PhysToVirt(guard));
            Walk(mem2, root, w) == if w == v && HasLastTable(mem, root, v) then Page4K(GuardEntry(guard)) else Walk(mem, root, w)
  {
    var v := PathOf(PhysToVirt(guard));
    PairEntries(mem, mem1, mem2, root, guard, w[..1]);
    PairEntries(mem, mem1, mem2, root, guard, w[..2]);
    PairEntries(mem, mem1, mem2, root, guard, w[..3]);
    PairEntries(mem, mem1, mem2, root, guard, w);
    hide Pair, HasLastTable, FrameAt, EntryAt, PathOf;
    if HasLastTable(mem, root, v) {
      LastTableOpen(mem, root, v);
      assert w == v ==> w[..1] == v[..1] && w[..2] == v[..2] && w[..3] == v[..3];
    }
  }

  /** The pair changes the guard's own entry, when there is a table for it, and no other. */
  lemma PairEntries(mem: Memory, mem1: Memory, mem2: Memory, root: nat, guard: nat, q: Path)
    requires 1 <= |q| <= 4 && Pair(mem, mem1, mem2, root, guard)
    ensures var v := PathOf(PhysToVirt(guard));
            EntryAt(mem2, root, q) == if q == v && HasLastTable(mem, root, v) then GuardEntry(guard) else EntryAt(mem, root, q)
  {
    var v := PathOf(PhysToVirt(guard));
    SameTables(mem, mem1, root, v);
    assert v[..4] == v;
    if FrameAt(mem, root, v).Some? { PrefixSome(mem, root, v, 3, 4); }
    hide Tree, FrameAt, EntryAt;
  }

  lemma SameTables(mem: Memory, mem1: Memory, root: nat, v: Path)
    requires |v| == 4
    requires if FrameAt(mem, root, v).Some? then SetTo(mem, mem1, root, v, EMPTY_ENTRY) else mem1 == mem
    ensures HasLastTable(mem1, root, v) == HasLastTable(mem, root, v)
  {
  }

  lemma LastTableOpen(mem: Memory, root: nat, v: Path)
    requires |v| == 4 && HasLastTable(mem, root, v)
    ensures forall j :: 1 <= j <= 3 ==> Points(j, EntryAt(mem, root, v[..j]))
  {
    forall j | 1 <= j <= 3 ensures Points(j, EntryAt(mem, root, v[..j])) {
      PrefixSome(mem, root, v, j, 3);
      SlotPoints(mem, root, v[..j]);
    }
  }

  /** The pair restores every translation exactly when the page had no 4 KiB table to begin with, or was
      mapped to its own frame; it is the absent entry in an existing table that the pair would fill in. */
  lemma PairRestoresExactly(mem: Memory, mem1: Memory, mem2: Memory, root: nat, guard: nat)
    requires Pair(mem, mem1, mem2, root, guard) && guard % PAGE == 0
    ensures var v := PathOf(PhysToVirt(guard));
            (forall va: nat :: Translate(mem2, root, va) == Translate(mem, root, va))
            <==> !HasLastTable(mem, root, v) || Translate(mem, root, PhysToVirt(guard)) == Some(guard)
  {
    var g := PhysToVirt(guard);
    hide Pair, HasLastTable, Walk, PathOf;
    forall va: nat ensures Translate(mem2, root, va) == Translate(mem, root, va)
                    <==> !(PathOf(va) == PathOf(g) && HasLastTable(mem, root, PathOf(g)))
                         || Translate(mem, root, g) == Some(guard) {
      PairTranslate(mem, mem1, mem2, root, guard, va);
    }
    assert Translate(mem2, root, g) == Translate(mem, root, g)
           <==> !HasLastTable(mem, root, PathOf(g)) || Translate(mem, root, g) == Some(guard);
  }

  lemma PairTranslate(mem: Memory, mem1: Memory, mem2: Memory, root: nat, guard: nat, va: nat)
    requires Pair(mem, mem1, mem2, root, guard) && guard % PAGE == 0
    ensures var g := PhysToVirt(guard);
            Translate(mem2, root, va) == Translate(mem, root, va)
            <==> !(PathOf(va) == PathOf(g) && HasLastTable(mem, root, PathOf(g))) || Translate(mem, root, g) == Some(guard)
  {
    hide FrameAt, EntryAt, Tree, HasLastTable, PathOf, Walk, PhysToVirt, Pair;
    var v := PathOf(PhysToVirt(guard));
    GuardOffset(guard);
    PairWalk(mem, mem1, mem2, root, guard, PathOf(va));
    if HasLastTable(mem, root, v) {
      LastTableWalk(mem, root, v);
    }
  }

  lemma LastTableWalk(mem: Memory, root: nat, v: Path)
    requires |v| == 4 && HasLastTable(mem, root, v)
    ensures Walk(mem, root, v).Page4K? || Walk(mem, root, v).Unmapped?
  {
    LastTableOpen(mem, root, v);
    assert v[..4] == v;
  }

  lemma GuardOffset(guard: nat)
    requires guard % PAGE == 0
    ensures PhysToVirt(guard) % PAGE == 0
  {
  }

  // ----- a guard page that was not mapped before

  /** Tables 0 to `n` hang below each other along `v`, the last one empty, and there is nothing else. */
  ghost predicate Chain(mem: Memory, v: Path, n: nat)
  {
    && |v| == 4 && n <= 3 && Tree(mem, 0)
    && (forall q :: |q| <= 4 ==> FrameAt(mem, 0, q) == if |q| <= n && q == v[..|q|] then Some(|q|) else None)
    && n in mem && mem[n] == ZeroFrame()
  }

  lemma ChainStart(v: Path) returns (mem: Memory)
    requires |v| == 4
    ensures Chain(mem, v, 0)
  {
    mem := map[0 := ZeroFrame()];
    forall q | q != [] ensures FrameAt(mem, 0, q).None? { NothingBelow(mem, q); }
  }

  lemma {:induction false} NothingBelow(mem: Memory, q: Path)
    requires mem == map[0 := ZeroFrame()] && q != []
    ensures FrameAt(mem, 0, q).None?
  {
    if |q| > 1 { NothingBelow(mem, q[..|q| - 1]); }
  }

  lemma ChainStep(mem: Memory, v: Path, n: nat) returns (mem': Memory)
    requires Chain(mem, v, n) && n < 3 && v[n] < ENTRIES
    ensures Chain(mem', v, n + 1)
  {
    var e := Entry(n + 1, true, true, false, false, false, false, 0);
    assert v[..n + 1][..n] == v[..n];
    assert FrameAt(mem, 0, v[..n]) == Some(n);
    assert !EntryAt(mem, 0, v[..n + 1]).present;
    assert !Reachable(mem, 0, n + 1);
    assert IsTable(mem, n);
    mem' := Linked(mem, n, v[n], n + 1, e);
    LinkedTree(mem, 0, v, n, n, n + 1, e);
    forall q | |q| <= 4 ensures FrameAt(mem', 0, q) == if |q| <= n + 1 && q == v[..|q|] then Some(|q|) else None {
      LinkedFrames(mem, 0, v, n, n, n + 1, e, q);
    }
  }

  lemma ChainIsAbsent(mem: Memory, v: Path)
    requires Chain(mem, v, 3) && v[3] < ENTRIES
    ensures LastTable(mem, 0, v, 3) && HasLastTable(mem, 0, v) && FrameAt(mem, 0, v) == None
    ensures Walk(mem, 0, v) == Leaf.Unmapped
  {
    assert v[..4] == v;
    LastTableWalk(mem, 0, v);
    hide Tree;
    assert FrameAt(mem, 0, v) == None;
    assert Read(mem, 3, v[3]) == EMPTY_ENTRY;
  }

  /** The four slots of the guard page are slots. */
  lemma GuardSlots(guard: nat)
    ensures var v := PathOf(PhysToVirt(guard)); |v| == 4 && forall i :: 0 <= i < 4 ==> v[i] < ENTRIES
  {
  }

  /** Where a last-level table has no entry for the guard page, unmapping does nothing and remapping maps it. */
  lemma PairFillsAbsent(guard: nat) returns (mem: Memory, mem': Memory)
    requires guard % PAGE == 0
    ensures Pair(mem, mem, mem', 0, guard)
    ensures Translate(mem, 0, PhysToVirt(guard)) == None && Translate(mem', 0, PhysToVirt(guard)) == Some(guard)
  {
    hide Chain, FrameAt, EntryAt, Walk, Tree, PathOf, PhysToVirt, SetTo;
    var v := PathOf(PhysToVirt(guard));
    GuardSlots(guard);
    mem := ChainStart(v);
    mem := ChainStep(mem, v, 0);
    mem := ChainStep(mem, v, 1);
    mem := ChainStep(mem, v, 2);
    ChainIsAbsent(mem, v);
    mem' := Filled(mem, v, guard);
    hide HasLastTable, LastTable;
    PairWalk(mem, mem, mem', 0, guard, v);
    GuardOffset(guard);
  }

  lemma Filled(mem: Memory, v: Path, guard: nat) returns (mem': Memory)
    requires v == PathOf(PhysToVirt(guard)) && |v| == 4 && LastTable(mem, 0, v, 3)
    requires HasLastTable(mem, 0, v) && FrameAt(mem, 0, v) == None
    ensures Pair(mem, mem, mem', 0, guard)
  {
    assert IsTable(mem, 3);
    mem' := Poked(mem, 3, v[3], GuardEntry(guard));
    PokedSets(mem, 0, v, 3, GuardEntry(guard));
    hide FrameAt, EntryAt, Tree, PathOf, PhysToVirt, SetTo, Poked;
  }
}
