/** What the boot tables satisfy: they form a tree, and guard pages in their direct map have no effect. */
module BootInvariants {
  import opened Basics
  import opened Paging
  import opened BootPaging
  import KstackGuard

  /** The shapes of path that lead to a boot table. */
  ghost predicate BootPath(t: Tables, p: Path)
  {
    || |p| == 0
    || (|p| == 1 && (p[0] == 0 || 256 <= p[0] < 264 || p[0] == 511))
    || (|p| == 2 && p[0] == 511 && p[1] == 510)
    || (|p| == 3 && p[0] == 511 && p[1] == 510 && p[2] < |t.pts|)
  }

  /** Where the table at such a path stands in the list of all tables. */
  ghost function Place(p: Path): nat
  {
    if |p| == 0 then 0
    else if |p| == 1 then (if p[0] == 0 then 1 else if 256 <= p[0] < 511 then p[0] - 254 else 10)
    else if |p| == 2 then 11
    else if |p| == 3 then 12 + p[2]
    else 0
  }

  ghost function TableList(root: nat, t: Tables): seq<nat> { [root] + AllTables(t) }

  lemma {:induction false} BootFrame(mem: Memory, root: nat, t: Tables, kernelPhys: nat, n: nat, p: Path)
    requires BootTables(mem, root, t, kernelPhys, n) && |p| <= 3
    ensures FrameAt(mem, root, p).Some? <==> BootPath(t, p)
    ensures FrameAt(mem, root, p).Some? ==>
              Place(p) < |TableList(root, t)| && FrameAt(mem, root, p).value == TableList(root, t)[Place(p)]
  {
    if p != [] {
      var q, x := p[..|p| - 1], p[|p| - 1];
      BootFrame(mem, root, t, kernelPhys, n, q);
      if BootPath(t, q) {
        if |p| == 1 {
          if x < 512 { RootEntry(mem, root, t, kernelPhys, n, x); }
        } else if |p| == 2 {
          SecondLevel(mem, root, t, kernelPhys, n, q[0], x);
        } else {
          ThirdLevel(mem, root, t, kernelPhys, n, x);
        }
      }
    }
  }

  lemma SecondLevel(mem: Memory, root: nat, t: Tables, kernelPhys: nat, n: nat, i: nat, x: nat)
    requires BootTables(mem, root, t, kernelPhys, n) && (i == 0 || 256 <= i < 264 || i == 511)
    ensures var e := Read(mem, TableList(root, t)[Place([i])], x);
            Points(2, e) <==> i == 511 && x == 510
    ensures i == 511 && x == 510 ==> Read(mem, TableList(root, t)[Place([i])], x) == TableE(t.pd)
  {
    hide KernelTables, LinkedFrom;
    if 256 <= i < 264 {
      assert TableList(root, t)[Place([i])] == t.phys[i - 256];
      assert mem[t.phys[i - 256]] == PhysTable(i - 256, 512);
    }
  }

  lemma ThirdLevel(mem: Memory, root: nat, t: Tables, kernelPhys: nat, n: nat, x: nat)
    requires BootTables(mem, root, t, kernelPhys, n)
    ensures var e := Read(mem, t.pd, x);
            (Points(3, e) <==> x < |t.pts|) && (x < |t.pts| ==> e == TableE(t.pts[x]))
  {
  }

  /** An entry for the kernel alone that takes no right away. */
  predicate IsKernelEntry(e: Entry)
  {
    e.writable && !e.user && !e.noExecute && !e.global && e.other == 0
  }

  /** Every present entry that a walk can come across is writable, executable, and closed to user code. */
  lemma BootRights(mem: Memory, root: nat, t: Tables, kernelPhys: nat, n: nat, q: Path)
    requires BootTables(mem, root, t, kernelPhys, n) && 1 <= |q| <= 4 && EntryAt(mem, root, q).present
    ensures IsKernelEntry(EntryAt(mem, root, q))
  {
    var p, x := q[..|q| - 1], q[|q| - 1];
    BootFrame(mem, root, t, kernelPhys, n, p);
    if |p| == 0 {
      RootEntry(mem, root, t, kernelPhys, n, x);
    } else if |p| == 1 {
      SecondRights(mem, root, t, kernelPhys, n, p[0], x);
    } else if |p| == 2 {
      ThirdLevel(mem, root, t, kernelPhys, n, x);
    } else {
      LastRights(mem, root, t, kernelPhys, n, p[2], x);
    }
  }

  lemma SecondRights(mem: Memory, root: nat, t: Tables, kernelPhys: nat, n: nat, i: nat, x: nat)
    requires BootTables(mem, root, t, kernelPhys, n) && (i == 0 || 256 <= i < 264 || i == 511)
    requires Read(mem, TableList(root, t)[Place([i])], x).present
    ensures IsKernelEntry(Read(mem, TableList(root, t)[Place([i])], x))
  {
    hide KernelTables, LinkedFrom;
    if 256 <= i < 264 {
      assert TableList(root, t)[Place([i])] == t.phys[i - 256];
      assert mem[t.phys[i - 256]] == PhysTable(i - 256, 512);
    }
  }

  lemma LastRights(mem: Memory, root: nat, t: Tables, kernelPhys: nat, n: nat, j: nat, x: nat)
    requires BootTables(mem, root, t, kernelPhys, n) && j < |t.pts| && Read(mem, t.pts[j], x).present
    ensures IsKernelEntry(Read(mem, t.pts[j], x))
  {
    assert x < 512 ==> mem[t.pts[j]][x] == KernelSlot(kernelPhys, n, j * 512 + x);
  }

  lemma BootTree(mem: Memory, root: nat, t: Tables, kernelPhys: nat, n: nat, free0: set<nat>, free: set<nat>)
    requires BootTables(mem, root, t, kernelPhys, n) && Fresh(TableList(root, t), free0, free)
    ensures Tree(mem, root)
  {
    hide FrameAt;
    forall p | |p| <= 3 && FrameAt(mem, root, p).Some? ensures IsTable(mem, FrameAt(mem, root, p).value) {
      BootFrame(mem, root, t, kernelPhys, n, p);
      PlaceIsTable(mem, root, t, kernelPhys, n, p);
    }
    forall p, q | |p| <= 3 && |q| <= 3 && SameFrame(mem, root, p, q) ensures p == q {
      BootFrame(mem, root, t, kernelPhys, n, p);
      BootFrame(mem, root, t, kernelPhys, n, q);
      assert Place(p) == Place(q);
      SamePlace(t, p, q);
    }
  }

  lemma SamePlace(t: Tables, p: Path, q: Path)
    requires BootPath(t, p) && BootPath(t, q) && Place(p) == Place(q)
    ensures p == q
  {
  }

  lemma PlaceIsTable(mem: Memory, root: nat, t: Tables, kernelPhys: nat, n: nat, p: Path)
    requires BootTables(mem, root, t, kernelPhys, n) && BootPath(t, p)
    ensures Place(p) < |TableList(root, t)| && IsTable(mem, TableList(root, t)[Place(p)])
  {
  }

  /** The direct map is made of 1 GiB pages, so no last-level table covers any of its addresses. */
  lemma DirectMapHasNoLastTable(mem: Memory, root: nat, t: Tables, kernelPhys: nat, n: nat, phys: nat)
    requires BootTables(mem, root, t, kernelPhys, n) && phys < DIRECT_SIZE
    ensures !KstackGuard.HasLastTable(mem, root, PathOf(KstackGuard.PhysToVirt(phys)))
  {
    var va := KstackGuard.PhysToVirt(phys);
    var v := PathOf(va);
    HighIndices(va);
    BootFrame(mem, root, t, kernelPhys, n, v[..3]);
    assert v[..3][0] == IndexOf(va, 0);
  }

  /** Unmapping and remapping a guard page under the boot tables changes nothing: the stack has no guard. */
  lemma BootGuardInert(mem: Memory, mem1: Memory, mem2: Memory, root: nat, t: Tables, kernelPhys: nat, n: nat, guard: nat)
    requires BootTables(mem, root, t, kernelPhys, n) && guard < DIRECT_SIZE
    requires KstackGuard.Pair(mem, mem1, mem2, root, guard)
    ensures mem1 == mem && mem2 == mem
  {
    var v := PathOf(KstackGuard.PhysToVirt(guard));
    DirectMapHasNoLastTable(mem, root, t, kernelPhys, n, guard);
    assert v[..|v| - 1] == v[..3];
  }
}
