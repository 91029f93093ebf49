/** The bootloader's page tables: identity map, direct physical map and kernel map. */
module BootPaging {
  import opened Basics
  import opened Paging

  const KERNEL_VIRT_BASE := 0xFFFF_FFFF_8000_0000
  /** Pages that one page directory can map: 512 tables of 512 entries. */
  const SPAN := 0x4_0000

  /** `addr | PRESENT | WRITABLE` */
  function TableE(addr: nat): Entry { Entry(addr, true, true, false, false, false, false, 0) }

  /** `addr | PRESENT | WRITABLE | HUGE_PAGE` */
  function GiantE(addr: nat): Entry { Entry(addr, true, true, false, true, false, false, 0) }

  /** The four 1 GiB entries of the identity map, the first `n` of them written. */
  function IdTable(n: nat): seq<Entry>
  {
    seq(ENTRIES, i => if 0 <= i < n then GiantE(i * GIANT) else EMPTY_ENTRY)
  }

  /** Table `k` of the direct map, the first `n` of its 1 GiB entries written. */
  function PhysTable(k: nat, n: nat): seq<Entry>
  {
    seq(ENTRIES, i => if 0 <= i < n then GiantE((k * 512 + i) * GIANT) else EMPTY_ENTRY)
  }

  /** The page that was mapped last into slot `s` among pages 0 to `n`, slots wrapping round every `SPAN` pages. */
  function LastPage(n: nat, s: nat): (k: nat)
    requires s < SPAN && s < n
    ensures k < n && k % SPAN == s && n <= k + SPAN
  {
    s + (n - 1 - s) / SPAN * SPAN
  }

  /** After `n` kernel pages: the entry in slot `s`. */
  function KernelSlot(kernelPhys: nat, n: nat, s: nat): Entry
    requires s < SPAN
  {
    if s < n then TableE(kernelPhys + LastPage(n, s) * PAGE) else EMPTY_ENTRY
  }

  lemma NextKernelSlot(kernelPhys: nat, n: nat, s: nat)
    requires s < SPAN
    ensures KernelSlot(kernelPhys, n + 1, s) == if n % SPAN == s then TableE(kernelPhys + n * PAGE) else KernelSlot(kernelPhys, n, s)
  {
  }

  /** The page directory and its tables after `n` pages; `pts` are the tables allocated so far. */
  ghost predicate KernelTables(mem: Memory, pd: nat, pts: seq<nat>, kernelPhys: nat, n: nat)
  {
    && |pts| <= 512 && (n <= |pts| * 512 || |pts| == 512)
    && IsTable(mem, pd)
    && (forall j :: 0 <= j < 512 ==> mem[pd][j] == if j < |pts| then TableE(pts[j]) else EMPTY_ENTRY)
    && (forall j :: 0 <= j < |pts| ==> IsTable(mem, pts[j]) && pts[j] != pd)
    && (forall i, j :: 0 <= i < j < |pts| ==> pts[i] != pts[j])
    && (forall j, i :: 0 <= j < |pts| && 0 <= i < 512 ==> mem[pts[j]][i] == KernelSlot(kernelPhys, n, j * 512 + i))
  }

  lemma AddKernelTable(mem: Memory, pd: nat, pts: seq<nat>, kernelPhys: nat, n: nat, f: nat)
    requires KernelTables(mem, pd, pts, kernelPhys, n)
    requires |pts| < 512 && n == |pts| * 512
    requires f != pd && f !in pts
    ensures KernelTables(mem[f := ZeroFrame()][pd := mem[pd][|pts| := TableE(f)]], pd, pts + [f], kernelPhys, n)
  {
  }

  lemma WriteKernelPage(mem: Memory, pd: nat, pts: seq<nat>, kernelPhys: nat, n: nat, j: nat, i: nat)
    requires KernelTables(mem, pd, pts, kernelPhys, n)
    requires j < |pts| && i < 512 && n % SPAN == j * 512 + i
    requires n + 1 <= |pts| * 512 || |pts| == 512
    ensures KernelTables(mem[pts[j] := mem[pts[j]][i := TableE(kernelPhys + n * PAGE)]], pd, pts, kernelPhys, n + 1)
  {
    var mem' := mem[pts[j] := mem[pts[j]][i := TableE(kernelPhys + n * PAGE)]];
    hide KernelSlot;
    forall j', i' | 0 <= j' < |pts| && 0 <= i' < 512 ensures mem'[pts[j']][i'] == KernelSlot(kernelPhys, n + 1, j' * 512 + i') {
      NextKernelSlot(kernelPhys, n, j' * 512 + i');
      SameSlot(j, i, j', i');
    }
  }

  lemma SameSlot(j: nat, i: nat, j': nat, i': nat)
    requires i < 512 && i' < 512
    ensures j * 512 + i == j' * 512 + i' <==> j == j' && i == i'
  {
  }

  /** The kernel's page `k`, in wrapping 64-bit arithmetic. */
  function VirtOf(k: nat): nat { (KERNEL_VIRT_BASE + k * PAGE) % TWO_64 }

  lemma VirtIndices(k: nat)
    ensures IndexOf(VirtOf(k), 2) == k / 512 % 512
    ensures IndexOf(VirtOf(k), 3) == k % 512
    ensures k % SPAN == k / 512 % 512 * 512 + k % 512
  {
    var z := VirtPage(k);
    var x := VirtOf(k) / PAGE;
    SpanDigits(k, x, z);
    assert VirtOf(k) / LARGE == x / 512;
  }

  /** Both the base and 2^64 are multiples of `SPAN` pages. */
  lemma VirtPage(k: nat) returns (z: int)
    ensures VirtOf(k) / PAGE == k + z * SPAN
  {
    var w := (KERNEL_VIRT_BASE + k * PAGE) / TWO_64;
    z := 0x3_FFFF_FFFE - w * 0x4_0000_0000;
    assert VirtOf(k) == KERNEL_VIRT_BASE + k * PAGE - w * TWO_64;
  }

  lemma SpanDigits(k: nat, x: nat, z: int)
    requires x == k + z * SPAN
    ensures x / 512 % 512 == k / 512 % 512 && x % 512 == k % 512
    ensures k % SPAN == k / 512 % 512 * 512 + k % 512
  {
    assert x / 512 == k / 512 + z * 512;
  }

  /** Before the slots wrap round, there is one table for each 512 pages begun. */
  ghost predicate TableCount(pts: seq<nat>, n: nat)
  {
    n < SPAN ==> |pts| == (n + 511) / 512
  }

  /** Frames other than those in `changed` keep their words. */
  ghost predicate KeptExcept(mem0: Memory, mem: Memory, changed: set<nat>)
  {
    forall f :: f in mem0 && f !in changed ==> f in mem && mem[f] == mem0[f]
  }

  /** Before the first page: a page directory of zeros and no tables under it. */
  lemma MapStart(mem: Memory, free: set<nat>, pd: nat, kernelPhys: nat)
    requires pd in mem && mem[pd] == ZeroFrame()
    ensures KernelTables(mem, pd, [], kernelPhys, 0) && TableCount([], 0) && VirtOf(0) == KERNEL_VIRT_BASE
    ensures Fresh([], free, free) && KeptExcept(mem, mem, {pd} + Members([]))
  {
  }

  /** Physical memory and the firmware's page allocator. */
  class Boot {
    var mem: Memory
    var free: set<nat>

    /** `allocate_page_table`: a zeroed page; the boot stops when the firmware has none left. */
    method AllocatePageTable() returns (r: Option<nat>)
      modifies this
      ensures r.None? ==> mem == old(mem) && free == old(free) == {}
      ensures r.Some? ==> r.value in old(free) && free == old(free) - {r.value} && mem == old(mem)[r.value := ZeroFrame()]
    {
      if free == {} {
        return None;
      }
      var f :| f in free;
      free := free - {f};
      mem := mem[f := ZeroFrame()];
      return Some(f);
    }

    /** `setup_identity_mapping` */
    method SetupIdentityMapping(pml4: nat) returns (pdpt: Option<nat>)
      requires IsTable(mem, pml4) && pml4 !in free
      modifies this
      ensures pdpt.None? ==> free == {}
      ensures pdpt.Some? ==>
                && pdpt.value in old(free) && free == old(free) - {pdpt.value}
                && pml4 in mem && mem[pml4] == old(mem)[pml4][0 := TableE(pdpt.value)]
                && pdpt.value in mem && mem[pdpt.value] == IdTable(4)
                && KeptExcept(old(mem), mem, {pml4, pdpt.value})
    {
      pdpt := AllocatePageTable();
      if pdpt.None? {
        return;
      }
      var t := pdpt.value;
      mem := mem[pml4 := mem[pml4][0 := TableE(t)]];
      mem := mem[t := ZeroFrame()];
      ghost var mem1, free1 := mem, free;
      assert IdTable(0) == ZeroFrame();
      for i := 0 to 4
        invariant free == free1
        invariant mem == mem1[t := IdTable(i)]
      {
        mem := mem[t := mem[t][i := GiantE(i * GIANT)]];
        assert mem[t] == IdTable(i + 1);
      }
    }

    /** The inner loop of `setup_physical_map`. */
    method FillPhysTable(t: nat, k: nat)
      requires t in mem && mem[t] == ZeroFrame()
      modifies this`mem
      ensures mem == old(mem)[t := PhysTable(k, 512)]
    {
      assert PhysTable(k, 0) == ZeroFrame();
      for i := 0 to 512
        invariant mem == old(mem)[t := PhysTable(k, i)]
      {
        mem := mem[t := mem[t][i := GiantE((k * 512 + i) * GIANT)]];
        assert mem[t] == PhysTable(k, i + 1);
      }
    }

    /** `setup_physical_map` */
    method SetupPhysicalMap(pml4: nat) returns (ok: bool, ghost pdpts: seq<nat>)
      requires IsTable(mem, pml4) && pml4 !in free
      modifies this
      ensures !ok ==> free == {}
      ensures ok ==> |pdpts| == 8 && Fresh(pdpts, old(free), free) && PhysMapped(old(mem), mem, pml4, pdpts)
    {
      pdpts := [];
      assert PhysMapped(mem, mem, pml4, pdpts) by { assert LinkedFrom(mem[pml4], 256, []) == mem[pml4]; }
      hide PhysMapped;
      for k := 0 to 8
        invariant |pdpts| == k
        invariant IsTable(mem, pml4)
        invariant Fresh(pdpts, old(free), free)
        invariant PhysMapped(old(mem), mem, pml4, pdpts)
      {
        ghost var mem1 := mem;
        var pdpt := AllocatePageTable();
        if pdpt.None? {
          return false, pdpts;
        }
        var t := pdpt.value;
        mem := mem[pml4 := mem[pml4][256 + k := TableE(t)]];
        mem := mem[t := ZeroFrame()];
        FillPhysTable(t, k);
        PhysStep(old(mem), mem1, mem, pml4, pdpts, t);
        pdpts := pdpts + [t];
      }
      return true, pdpts;
    }

    /** One turn of the loop in `setup_kernel_mapping`. */
    method MapKernelPage(pd: nat, currentVirt: nat, currentPhys: nat, ghost kernelPhys: nat, ghost n: nat, ghost pts: seq<nat>)
      returns (ok: bool, ghost pts': seq<nat>)
      requires KernelTables(mem, pd, pts, kernelPhys, n)
      requires currentVirt == VirtOf(n) && currentPhys == kernelPhys + n * PAGE
      requires TableCount(pts, n)
      requires pd !in free && forall f :: f in pts ==> f !in free
      modifies this
      ensures !ok ==> free == {}
      ensures ok ==> KernelTables(mem, pd, pts', kernelPhys, n + 1)
      ensures ok ==> TableCount(pts', n + 1)
      ensures ok ==> pts <= pts' && (forall f :: f in pts' ==> f in pts || f in old(free))
      ensures ok ==> forall f :: f in free <==> f in old(free) && f !in pts'
      ensures ok ==> KeptExcept(old(mem), mem, {pd} + Members(pts'))
    {
      hide IndexOf, KernelSlot;
      VirtIndices(n);
      var pdIdx := IndexOf(currentVirt, 2);
      var ptIdx := IndexOf(currentVirt, 3);
      var pdEntry := mem[pd][pdIdx];
      var pt := pdEntry.addr;
      pts' := pts;
      if !pdEntry.present {
        var newPt := AllocatePageTable();
        if newPt.None? {
          return false, pts';
        }
        pt := newPt.value;
        assert pdIdx == |pts| && n == |pts| * 512;
        AddKernelTable(old(mem), pd, pts, kernelPhys, n, pt);
        mem := mem[pd := mem[pd][pdIdx := TableE(pt)]];
        pts' := pts + [pt];
      }
      assert pts'[pdIdx] == pt;
      WriteKernelPage(mem, pd, pts', kernelPhys, n, pdIdx, ptIdx);
      mem := mem[pt := mem[pt][ptIdx := TableE(currentPhys)]];
      return true, pts';
    }

    /** The start of `setup_kernel_mapping`: one table at each of the two upper levels. */
    method AllocateKernelTop(pml4: nat) returns (pdpt: Option<nat>, pd: Option<nat>)
      requires IsTable(mem, pml4) && pml4 !in free
      modifies this
      ensures pd.None? ==> free == {}
      ensures pd.Some? ==>
                && pdpt.Some? && pdpt.value != pd.value && pdpt.value in old(free) && pd.value in old(free)
                && free == old(free) - {pdpt.value} - {pd.value}
                && mem == old(mem)[pml4 := old(mem)[pml4][511 := TableE(pdpt.value)]]
                          [pdpt.value := ZeroFrame()[510 := TableE(pd.value)]][pd.value := ZeroFrame()]
    {
      pd := None;
      pdpt := AllocatePageTable();
      if pdpt.None? {
        return;
      }
      var t := pdpt.value;
      mem := mem[pml4 := mem[pml4][IndexOf(KERNEL_VIRT_BASE, 0) := TableE(t)]];
      mem := mem[t := ZeroFrame()];
      pd := AllocatePageTable();
      if pd.None? {
        return;
      }
      mem := mem[t := mem[t][IndexOf(KERNEL_VIRT_BASE, 1) := TableE(pd.value)]];
      mem := mem[pd.value := ZeroFrame()];
    }

    /** `setup_kernel_mapping`: the frames of the kernel's own tables are ghost results. */
    method SetupKernelMapping(pml4: nat, kernelPhys: nat, kernelSize: nat)
      returns (ok: bool, ghost pdpt: nat, ghost pd: nat, ghost pts: seq<nat>)
      requires IsTable(mem, pml4) && pml4 !in free
      modifies this
      ensures !ok ==> free == {}
      ensures ok ==>
                && Fresh([pdpt, pd] + pts, old(free), free)
                && pml4 in mem && mem[pml4] == old(mem)[pml4][511 := TableE(pdpt)]
                && pdpt in mem && mem[pdpt] == ZeroFrame()[510 := TableE(pd)]
                && KernelTables(mem, pd, pts, kernelPhys, (kernelSize + PAGE - 1) / PAGE)
                && KeptExcept(old(mem), mem, {pml4, pdpt, pd} + Members(pts))
    {
      hide KernelTables, ZeroFrame;
      pdpt, pd, pts := 0, 0, [];
      var pdptOpt, pdOpt := AllocateKernelTop(pml4);
      if pdOpt.None? {
        return false, pdpt, pd, pts;
      }
      pdpt, pd := pdptOpt.value, pdOpt.value;
      ghost var mem1, free1 := mem, free;
      ok, pts := MapKernelPages(pdOpt.value, kernelPhys, (kernelSize + PAGE - 1) / PAGE);
      if ok {
        KeptTrans(old(mem), mem1, mem, {pml4, pdpt, pd}, {pd} + Members(pts));
        assert {pml4, pdpt, pd} + ({pd} + Members(pts)) == {pml4, pdpt, pd} + Members(pts);
        FreshMore(pdpt, pd, pts, old(free), free1, free);
      }
    }

    /** The loop over the kernel's pages. */
    method MapKernelPages(pd: nat, kernelPhys: nat, pages: nat) returns (ok: bool, ghost pts: seq<nat>)
      requires pd in mem && mem[pd] == ZeroFrame() && pd !in free
      modifies this
      ensures !ok ==> free == {}
      ensures ok ==> KernelTables(mem, pd, pts, kernelPhys, pages)
      ensures ok ==> Fresh(pts, old(free), free)
      ensures ok ==> KeptExcept(old(mem), mem, {pd} + Members(pts))
    {
      hide KernelTables, VirtOf, TableCount, Fresh, KeptExcept, ZeroFrame, Members;
      pts := [];
      var currentVirt, currentPhys := KERNEL_VIRT_BASE, kernelPhys;
      MapStart(mem, free, pd, kernelPhys);
      for n := 0 to pages
        invariant KernelTables(mem, pd, pts, kernelPhys, n)
        invariant TableCount(pts, n)
        invariant currentVirt == VirtOf(n) && currentPhys == kernelPhys + n * PAGE
        invariant Fresh(pts, old(free), free)
        invariant KeptExcept(old(mem), mem, {pd} + Members(pts))
      {
        ghost var mem1, free1, pts1 := mem, free, pts;
        FreshApart(pts, old(free), free, pd);
        ok, pts := MapKernelPage(pd, currentVirt, currentPhys, kernelPhys, n, pts);
        if !ok {
          return false, pts;
        }
        GrowFresh(mem, pd, pts1, pts, kernelPhys, n + 1, old(free), free1, free);
        GrowKept(old(mem), mem1, mem, pd, pts1, pts);
        NextVirt(n);
        currentVirt := (currentVirt + PAGE) % TWO_64;
        currentPhys := currentPhys + PAGE;
      }
      return true, pts;
    }

    /** `setup_page_tables` */
    method SetupPageTables(kernelPhys: nat, kernelSize: nat) returns (pml4: Option<nat>, ghost tables: Tables)
      modifies this
      ensures pml4.None? ==> free == {}
      ensures pml4.Some? ==> BootTables(mem, pml4.value, tables, kernelPhys, (kernelSize + PAGE - 1) / PAGE)
      ensures pml4.Some? ==> Fresh([pml4.value] + AllTables(tables), old(free), free)
      ensures pml4.Some? && kernelPhys % 0x1000 == 0 ==> BootMaps(mem, pml4.value, kernelPhys, kernelSize)
    {
      hide KernelTables, ZeroFrame, IdTable, PhysTable, LinkedFrom, BootMaps;
      tables := Tables(0, [], 0, 0, []);
      pml4 := AllocatePageTable();
      if pml4.None? {
        return;
      }
      var root := pml4.value;
      assert IsTable(mem, root) by { ZeroIsTable(); }
      ghost var free1 := free;
      var id := SetupIdentityMapping(root);
      if id.None? {
        return None, tables;
      }
      ghost var mem2, free2 := mem, free;
      var ok;
      ghost var phys, kpdpt, pd, pts;
      ok, phys := SetupPhysicalMap(root);
      if !ok {
        return None, tables;
      }
      ghost var mem3, free3 := mem, free;
      LinkedIsTable(mem2[root], 256, phys);
      ok, kpdpt, pd, pts := SetupKernelMapping(root, kernelPhys, kernelSize);
      if !ok {
        return None, tables;
      }
      tables := Tables(id.value, phys, kpdpt, pd, pts);
      FreshAll(root, id.value, phys, kpdpt, pd, pts, old(free), free1, free2, free3, free);
      LayoutKept(mem2, mem3, mem, root, id.value, phys, kpdpt, pd, pts, free2, free3, free);
      if kernelPhys % PAGE == 0 { BootTablesMap(mem, root, tables, kernelPhys, kernelSize); }
    }
  }

  /** The direct map's tables hang from the top level, and nothing else changed. */
  ghost predicate PhysMapped(mem0: Memory, mem: Memory, pml4: nat, pdpts: seq<nat>)
  {
    && pml4 !in pdpts && pml4 in mem0 && pml4 in mem && mem[pml4] == LinkedFrom(mem0[pml4], 256, pdpts)
    && (forall k :: 0 <= k < |pdpts| ==> pdpts[k] in mem && mem[pdpts[k]] == PhysTable(k, 512))
    && KeptExcept(mem0, mem, {pml4} + Members(pdpts))
  }

  lemma PhysStep(mem0: Memory, mem: Memory, mem': Memory, pml4: nat, pdpts: seq<nat>, t: nat)
    requires PhysMapped(mem0, mem, pml4, pdpts)
    requires IsTable(mem, pml4) && |pdpts| < 8 && t != pml4 && t !in pdpts
    requires mem' == mem[t := ZeroFrame()][pml4 := mem[pml4][256 + |pdpts| := TableE(t)]][t := ZeroFrame()][t := PhysTable(|pdpts|, 512)]
    ensures PhysMapped(mem0, mem', pml4, pdpts + [t])
  {
  }

  lemma KeptTrans(mem0: Memory, mem1: Memory, mem2: Memory, a: set<nat>, b: set<nat>)
    requires KeptExcept(mem0, mem1, a) && KeptExcept(mem1, mem2, b)
    ensures KeptExcept(mem0, mem2, a + b)
  {
  }

  lemma FreshMore(x: nat, y: nat, pts: seq<nat>, free0: set<nat>, free1: set<nat>, free: set<nat>)
    requires x in free0 && y in free0 && x != y && free1 == free0 - {x} - {y}
    requires Fresh(pts, free1, free)
    ensures Fresh([x, y] + pts, free0, free)
  {
    var all := [x, y] + pts;
    forall i, j | 0 <= i < j < |all| ensures all[i] != all[j] {
      if i < 2 && j >= 2 {
        assert all[j] == pts[j - 2] && pts[j - 2] in pts;
      } else if i >= 2 {
        assert all[i] == pts[i - 2] && all[j] == pts[j - 2];
      }
    }
  }

  lemma FreshApart(pts: seq<nat>, free0: set<nat>, free: set<nat>, pd: nat)
    requires Fresh(pts, free0, free) && pd !in free0
    ensures pd !in free && forall f :: f in pts ==> f !in free
  {
  }

  lemma NextVirt(n: nat)
    ensures (VirtOf(n) + PAGE) % TWO_64 == VirtOf(n + 1)
  {
  }

  lemma GrowKept(mem0: Memory, mem1: Memory, mem: Memory, pd: nat, pts1: seq<nat>, pts: seq<nat>)
    requires KeptExcept(mem0, mem1, {pd} + Members(pts1)) && KeptExcept(mem1, mem, {pd} + Members(pts))
    requires pts1 <= pts
    ensures KeptExcept(mem0, mem, {pd} + Members(pts))
  {
  }

  lemma GrowFresh(mem: Memory, pd: nat, pts0: seq<nat>, pts: seq<nat>, kernelPhys: nat, n: nat,
                  free0: set<nat>, free1: set<nat>, free: set<nat>)
    requires KernelTables(mem, pd, pts, kernelPhys, n)
    requires Fresh(pts0, free0, free1)
    requires pts0 <= pts && forall f :: f in pts ==> f in pts0 || f in free1
    requires forall f :: f in free <==> f in free1 && f !in pts
    ensures Fresh(pts, free0, free)
  {
  }

  ghost function Members(s: seq<nat>): set<nat> { set f | f in s }

  /** `taken` are distinct frames from `free0`, and `free` is what remains. */
  ghost predicate Fresh(taken: seq<nat>, free0: set<nat>, free: set<nat>)
  {
    && (forall i, j :: 0 <= i < j < |taken| ==> taken[i] != taken[j])
    && (forall f :: f in taken ==> f in free0)
    && (forall f :: f in free <==> f in free0 && f !in taken)
  }

  /** Table `t` with entries `base`, `base + 1`, ... pointing to the given tables. */
  ghost function LinkedFrom(t: seq<Entry>, base: nat, tables: seq<nat>): seq<Entry>
  {
    seq(|t|, i requires 0 <= i < |t| => if base <= i < base + |tables| then TableE(tables[i - base]) else t[i])
  }

  /** The frames of all the boot tables below the top one. */
  datatype Tables = Tables(id: nat, phys: seq<nat>, kpdpt: nat, pd: nat, pts: seq<nat>)

  ghost function AllTables(t: Tables): seq<nat> { [t.id] + t.phys + ([t.kpdpt, t.pd] + t.pts) }

  /** The whole layout after `setup_page_tables`, for a kernel of `n` pages. */
  ghost predicate BootTables(mem: Memory, root: nat, t: Tables, kernelPhys: nat, n: nat)
  {
    && |t.phys| == 8
    && root in mem && mem[root] == LinkedFrom(ZeroFrame()[0 := TableE(t.id)], 256, t.phys)[511 := TableE(t.kpdpt)]
    && t.id in mem && mem[t.id] == IdTable(4)
    && (forall k :: 0 <= k < 8 ==> t.phys[k] in mem && mem[t.phys[k]] == PhysTable(k, 512))
    && t.kpdpt in mem && mem[t.kpdpt] == ZeroFrame()[510 := TableE(t.pd)]
    && KernelTables(mem, t.pd, t.pts, kernelPhys, n)
  }

  lemma ZeroIsTable()
    ensures |ZeroFrame()| == ENTRIES
  {
  }

  lemma LinkedIsTable(t: seq<Entry>, base: nat, tables: seq<nat>)
    ensures |LinkedFrom(t, base, tables)| == |t|
  {
  }

  lemma FreshAll(root: nat, id: nat, phys: seq<nat>, kpdpt: nat, pd: nat, pts: seq<nat>,
                 free0: set<nat>, free1: set<nat>, free2: set<nat>, free3: set<nat>, free: set<nat>)
    requires root in free0 && free1 == free0 - {root}
    requires id in free1 && free2 == free1 - {id}
    requires Fresh(phys, free2, free3) && Fresh([kpdpt, pd] + pts, free3, free)
    ensures Fresh([root] + AllTables(Tables(id, phys, kpdpt, pd, pts)), free0, free)
  {
    var b := [kpdpt, pd] + pts;
    FreshJoin([root], [id], free0, free1, free2);
    FreshJoin([root] + [id], phys, free0, free2, free3);
    FreshJoin([root] + [id] + phys, b, free0, free3, free);
    assert [root] + AllTables(Tables(id, phys, kpdpt, pd, pts)) == [root] + [id] + phys + b;
  }

  lemma FreshJoin(a: seq<nat>, b: seq<nat>, free0: set<nat>, free1: set<nat>, free2: set<nat>)
    requires Fresh(a, free0, free1) && Fresh(b, free1, free2)
    ensures Fresh(a + b, free0, free2)
  {
    var c := a + b;
    forall i, j | 0 <= i < j < |c| ensures c[i] != c[j] {
      if i < |a| <= j { assert c[i] in a && c[j] == b[j - |a|] && b[j - |a|] in b; }
    }
  }

  /** Later steps leave the earlier tables alone. */
  lemma LayoutKept(mem2: Memory, mem3: Memory, mem: Memory, root: nat, id: nat, phys: seq<nat>, kpdpt: nat, pd: nat, pts: seq<nat>,
                   free2: set<nat>, free3: set<nat>, free: set<nat>)
    requires id in mem2 && id !in free2 && id != root && root !in free2 && root in mem2
    requires |phys| == 8 && Fresh(phys, free2, free3) && PhysMapped(mem2, mem3, root, phys)
    requires Fresh([kpdpt, pd] + pts, free3, free) && KeptExcept(mem3, mem, {root, kpdpt, pd} + Members(pts))
    ensures id in mem && mem[id] == mem2[id]
    ensures forall k :: 0 <= k < 8 ==> phys[k] in mem && mem[phys[k]] == PhysTable(k, 512)
  {
    hide PhysTable, LinkedFrom;
    var b := [kpdpt, pd] + pts;
    assert b[0] == kpdpt && b[1] == pd;
    assert forall f :: f in pts ==> f in b;
    forall k | 0 <= k < 8 ensures phys[k] in mem && mem[phys[k]] == mem3[phys[k]] {
      assert phys[k] in phys;
    }
  }

  // ----- what the boot tables translate

  const LOW_END := 0x8000_0000_0000
  const DIRECT_SIZE := 0x400_0000_0000

  predicate Canonical(va: nat)
  {
    va < LOW_END || PHYS_MAP_BASE <= va < TWO_64
  }

  /** Identity below 4 GiB, 4 TiB of physical memory at the direct map, the kernel image at its base, nothing else. */
  function Expected(va: nat, kernelPhys: nat, n: nat): Option<nat>
  {
    if va < 0x1_0000_0000 then Some(va)
    else if 0xFFFF_8000_0000_0000 <= va < 0xFFFF_8400_0000_0000 then Some(va - 0xFFFF_8000_0000_0000)
    else if 0xFFFF_FFFF_8000_0000 <= va < 0xFFFF_FFFF_C000_0000 && (va - 0xFFFF_FFFF_8000_0000) / 0x1000 < n then
      Some(kernelPhys + LastPage(n, (va - 0xFFFF_FFFF_8000_0000) / 0x1000) * 0x1000 + va % 0x1000)
    else None
  }

  /** What the boot loader is after: the lowest 4 GiB, the direct map, and a kernel of up to 1 GiB byte for byte. */
  ghost predicate BootMaps(mem: Memory, root: nat, kernelPhys: nat, kernelSize: nat)
  {
    && (forall va: nat :: va < 0x1_0000_0000 ==> Translate(mem, root, va) == Some(va))
    && (forall va: nat :: 0xFFFF_8000_0000_0000 <= va < 0xFFFF_8400_0000_0000 ==>
          Translate(mem, root, va) == Some(va - 0xFFFF_8000_0000_0000))
    && (kernelSize <= 0x4000_0000 ==>
          forall va: nat :: 0xFFFF_FFFF_8000_0000 <= va < 0xFFFF_FFFF_8000_0000 + kernelSize ==>
            Translate(mem, root, va) == Some(kernelPhys + (va - 0xFFFF_FFFF_8000_0000)))
  }

  lemma BootTablesMap(mem: Memory, root: nat, t: Tables, kernelPhys: nat, kernelSize: nat)
    requires BootTables(mem, root, t, kernelPhys, (kernelSize + PAGE - 1) / PAGE) && kernelPhys % PAGE == 0
    ensures BootMaps(mem, root, kernelPhys, kernelSize)
  {
    hide BootTables, Translate;
    var n := (kernelSize + PAGE - 1) / PAGE;
    forall va: nat | Canonical(va) ensures Translate(mem, root, va) == Expected(va, kernelPhys, n) {
      BootTranslates(mem, root, t, kernelPhys, n, va);
    }
    forall va: nat | kernelSize <= 0x4000_0000 && 0xFFFF_FFFF_8000_0000 <= va < 0xFFFF_FFFF_8000_0000 + kernelSize
      ensures Expected(va, kernelPhys, n) == Some(kernelPhys + (va - 0xFFFF_FFFF_8000_0000))
    {
      var o := va - 0xFFFF_FFFF_8000_0000;
      ImageOffset(o, kernelSize);
      assert LastPage(n, o / PAGE) == o / PAGE;
    }
  }

  lemma ImageOffset(o: nat, size: nat)
    requires o < size <= 0x4000_0000
    ensures o / PAGE < (size + PAGE - 1) / PAGE <= SPAN
    ensures (0xFFFF_FFFF_8000_0000 + o) % 0x1000 == o % PAGE && o / PAGE * 0x1000 + o % PAGE == o
  {
  }

  lemma HighIndices(va: nat)
    requires PHYS_MAP_BASE <= va < TWO_64
    ensures var p := va - PHYS_MAP_BASE;
            && IndexOf(va, 0) == 256 + p / SLOT && IndexOf(va, 1) == p / GIANT % 512
            && va % GIANT == p % GIANT
  {
    var p := va - PHYS_MAP_BASE;
    assert va / SLOT == PHYS_MAP_BASE / SLOT + p / SLOT;
    assert va / GIANT == PHYS_MAP_BASE / GIANT + p / GIANT;
  }

  lemma DirectAddress(p: nat)
    requires p < DIRECT_SIZE
    ensures p / SLOT < 8 && (p / SLOT * 512 + p / GIANT % 512) * GIANT + p % GIANT == p
  {
  }

  lemma KernelIndices(va: nat)
    requires PHYS_MAP_BASE <= va < TWO_64
    ensures KERNEL_VIRT_BASE <= va < KERNEL_VIRT_BASE + GIANT <==> IndexOf(va, 0) == 511 && IndexOf(va, 1) == 510
  {
  }

  lemma KernelPageIndices(va: nat)
    requires KERNEL_VIRT_BASE <= va < KERNEL_VIRT_BASE + GIANT
    ensures (va - KERNEL_VIRT_BASE) / PAGE == IndexOf(va, 2) * 512 + IndexOf(va, 3) < SPAN
  {
    var o := va - KERNEL_VIRT_BASE;
    assert va / PAGE == KERNEL_VIRT_BASE / PAGE + o / PAGE;
    assert va / LARGE == KERNEL_VIRT_BASE / LARGE + o / LARGE;
    assert o / LARGE == o / PAGE / 512;
  }

  lemma RootEntry(mem: Memory, root: nat, t: Tables, kernelPhys: nat, n: nat, i: nat)
    requires BootTables(mem, root, t, kernelPhys, n) && i < 512
    ensures Read(mem, root, i) ==
            if i == 0 then TableE(t.id) else if 256 <= i < 264 then TableE(t.phys[i - 256])
            else if i == 511 then TableE(t.kpdpt) else EMPTY_ENTRY
  {
  }

  lemma LowTranslates(mem: Memory, root: nat, t: Tables, kernelPhys: nat, n: nat, va: nat)
    requires BootTables(mem, root, t, kernelPhys, n) && va < LOW_END
    ensures Translate(mem, root, va) == Expected(va, kernelPhys, n)
  {
  }

  lemma DirectTranslates(mem: Memory, root: nat, t: Tables, kernelPhys: nat, n: nat, va: nat)
    requires BootTables(mem, root, t, kernelPhys, n) && PHYS_MAP_BASE <= va < TWO_64
    requires IndexOf(va, 0) < 264
    ensures Translate(mem, root, va) == Expected(va, kernelPhys, n)
  {
    var p := va - PHYS_MAP_BASE;
    HighIndices(va);
    DirectAddress(p);
    WalkByReads(mem, root, PathOf(va));
    RootEntry(mem, root, t, kernelPhys, n, IndexOf(va, 0));
    hide IndexOf, KernelTables, IdTable, LinkedFrom, Walk, ZeroFrame;
    var k, i := p / SLOT, p / GIANT % 512;
    assert Read(mem, t.phys[k], i) == GiantE((k * 512 + i) * GIANT);
  }

  lemma UpperTranslates(mem: Memory, root: nat, t: Tables, kernelPhys: nat, n: nat, va: nat)
    requires BootTables(mem, root, t, kernelPhys, n) && PHYS_MAP_BASE <= va < TWO_64
    requires IndexOf(va, 0) >= 264 && !(KERNEL_VIRT_BASE <= va < KERNEL_VIRT_BASE + GIANT)
    ensures Translate(mem, root, va) == Expected(va, kernelPhys, n)
  {
    HighIndices(va);
    KernelIndices(va);
    WalkByReads(mem, root, PathOf(va));
    RootEntry(mem, root, t, kernelPhys, n, IndexOf(va, 0));
    hide IndexOf, KernelTables, IdTable, PhysTable, LinkedFrom, Walk;
    if IndexOf(va, 0) == 511 {
      assert Read(mem, t.kpdpt, IndexOf(va, 1)) == EMPTY_ENTRY;
    }
  }

  lemma KernelTranslates(mem: Memory, root: nat, t: Tables, kernelPhys: nat, n: nat, va: nat)
    requires BootTables(mem, root, t, kernelPhys, n) && kernelPhys % PAGE == 0
    requires KERNEL_VIRT_BASE <= va < KERNEL_VIRT_BASE + GIANT
    ensures Translate(mem, root, va) == Expected(va, kernelPhys, n)
  {
    KernelIndices(va);
    KernelPageIndices(va);
    WalkByReads(mem, root, PathOf(va));
    RootEntry(mem, root, t, kernelPhys, n, 511);
    hide IndexOf, IdTable, PhysTable, LinkedFrom, Walk, LastPage;
    assert Read(mem, t.kpdpt, 510) == TableE(t.pd);
    var j, i := IndexOf(va, 2), IndexOf(va, 3);
    assert Read(mem, t.pd, j) == if j < |t.pts| then TableE(t.pts[j]) else EMPTY_ENTRY;
    if j < |t.pts| {
      assert Read(mem, t.pts[j], i) == KernelSlot(kernelPhys, n, j * 512 + i);
    }
  }

  /** Every canonical address, for a kernel image of any size: identity below 4 GiB, the direct map of
      4 TiB, the kernel window of 1 GiB, and nothing anywhere else. */
  lemma BootTranslates(mem: Memory, root: nat, t: Tables, kernelPhys: nat, n: nat, va: nat)
    requires BootTables(mem, root, t, kernelPhys, n) && kernelPhys % PAGE == 0
    requires Canonical(va)
    ensures Translate(mem, root, va) == Expected(va, kernelPhys, n)
  {
    hide BootTables;
    if va < LOW_END {
      LowTranslates(mem, root, t, kernelPhys, n, va);
    } else if KERNEL_VIRT_BASE <= va < KERNEL_VIRT_BASE + GIANT {
      KernelTranslates(mem, root, t, kernelPhys, n, va);
    } else if IndexOf(va, 0) < 264 {
      DirectTranslates(mem, root, t, kernelPhys, n, va);
    } else {
      UpperTranslates(mem, root, t, kernelPhys, n, va);
    }
  }

  /** Byte `o` of the kernel's image is mapped where it was loaded. */
  ghost predicate ImageByte(mem: Memory, root: nat, kernelPhys: nat, o: nat)
  {
    Translate(mem, root, KERNEL_VIRT_BASE + o) == Some(kernelPhys + o)
  }

  /** The kernel's image is mapped byte for byte exactly when it has at most 2^18 pages, 1 GiB: beyond
      that the directory's slots are written twice and the first page's slot maps a later page. */
  lemma KernelImageExact(mem: Memory, root: nat, t: Tables, kernelPhys: nat, n: nat)
    requires BootTables(mem, root, t, kernelPhys, n) && kernelPhys % PAGE == 0
    ensures (forall o: nat :: o < n * PAGE && KERNEL_VIRT_BASE + o < TWO_64 ==> ImageByte(mem, root, kernelPhys, o))
            <==> n <= 0x4_0000
  {
    hide BootTables, Translate;
    if n <= SPAN {
      forall o: nat | o < n * PAGE ensures ImageByte(mem, root, kernelPhys, o) {
        BootTranslates(mem, root, t, kernelPhys, n, KERNEL_VIRT_BASE + o);
        assert (KERNEL_VIRT_BASE + o) % PAGE == o % PAGE;
        assert LastPage(n, o / PAGE) == o / PAGE;
      }
    } else {
      BootTranslates(mem, root, t, kernelPhys, n, KERNEL_VIRT_BASE);
      assert LastPage(n, 0) != 0;
      assert !ImageByte(mem, root, kernelPhys, 0);
    }
  }

  /** With one page more than that, the kernel's first address is that last page. */
  lemma OnePageTooMany(mem: Memory, root: nat, t: Tables, kernelPhys: nat)
    requires BootTables(mem, root, t, kernelPhys, SPAN + 1) && kernelPhys % PAGE == 0
    ensures Translate(mem, root, KERNEL_VIRT_BASE) == Some(kernelPhys + SPAN * PAGE)
  {
    hide BootTables, Translate;
    BootTranslates(mem, root, t, kernelPhys, SPAN + 1, KERNEL_VIRT_BASE);
    assert LastPage(SPAN + 1, 0) == SPAN;
  }
}
