/** Collecting the frames of the boot page tables, so that the allocator never hands them out. */
module PtFrames {
  import opened Basics
  import opened Paging

  /** `f` is the table at some path that continues `path` with an index below `n`. */
  ghost predicate Under(mem: Memory, root: nat, path: Path, n: nat, f: nat)
  {
    exists p :: |path| < |p| <= 3 && path <= p && p[|path|] < n && FrameAt(mem, root, p) == Some(f)
  }

  lemma UnderNext(mem: Memory, root: nat, path: Path, n: nat, f: nat)
    requires |path| <= 2
    ensures Under(mem, root, path, n + 1, f) <==>
              Under(mem, root, path, n, f) || FrameAt(mem, root, path + [n]) == Some(f) || UnderAll(mem, root, path + [n], f)
  {
    var q := path + [n];
    if Under(mem, root, path, n + 1, f) {
      var p :| |path| < |p| <= 3 && path <= p && p[|path|] < n + 1 && FrameAt(mem, root, p) == Some(f);
      if p[|path|] == n {
        assert q <= p;
        if |p| == |q| { assert p == q; }
      }
    }
    if FrameAt(mem, root, q) == Some(f) {
      assert |path| < |q| <= 3 && path <= q && q[|path|] < n + 1;
    }
    if UnderAll(mem, root, q, f) {
      var p :| |q| < |p| <= 3 && q <= p && FrameAt(mem, root, p) == Some(f);
      assert path <= p && p[|path|] == n;
    }
  }

  /** `f` is the table at some path that properly continues `path`. */
  ghost predicate UnderAll(mem: Memory, root: nat, path: Path, f: nat)
  {
    exists p :: |path| < |p| <= 3 && path <= p && FrameAt(mem, root, p) == Some(f)
  }

  ghost predicate WordsPerFrame(mem: Memory)
  {
    forall t :: t in mem ==> |mem[t]| == ENTRIES
  }

  lemma UnderIsAll(mem: Memory, root: nat, path: Path, f: nat)
    requires WordsPerFrame(mem)
    ensures Under(mem, root, path, 512, f) <==> UnderAll(mem, root, path, f)
  {
    if UnderAll(mem, root, path, f) {
      var p :| |path| < |p| <= 3 && path <= p && FrameAt(mem, root, p) == Some(f);
      IndexInTable(mem, root, p, |path|);
    }
  }

  lemma {:induction false} IndexInTable(mem: Memory, root: nat, p: Path, k: nat)
    requires WordsPerFrame(mem) && k < |p| && FrameAt(mem, root, p).Some?
    ensures p[k] < 512 && FrameAt(mem, root, p[..k + 1]).Some?
  {
    if k < |p| - 1 {
      IndexInTable(mem, root, p[..|p| - 1], k);
      assert p[..|p| - 1][..k + 1] == p[..k + 1];
    } else {
      assert p[..k + 1] == p;
    }
  }

  lemma NothingUnder(mem: Memory, root: nat, path: Path, f: nat)
    requires FrameAt(mem, root, path).None? && path != []
    ensures !UnderAll(mem, root, path, f)
  {
    if UnderAll(mem, root, path, f) {
      var p :| |path| < |p| <= 3 && path <= p && FrameAt(mem, root, p) == Some(f);
      assert p[..|path|] == path && p[..|p|] == p;
      PrefixSome(mem, root, p, |path|, |p|);
    }
  }

  /** Adds a frame that is not listed yet. */
  function Push(frames: seq<nat>, f: nat): seq<nat>
  {
    if f in frames then frames else frames + [f]
  }

  /** The scan of the table at `path` has listed exactly what lies under its first `n` entries. */
  ghost predicate Scanned(mem: Memory, root: nat, path: Path, n: nat, before: seq<nat>, frames: seq<nat>)
  {
    && Distinct(frames)
    && forall f :: f in frames <==> f in before || Under(mem, root, path, n, f)
  }

  lemma ScanStart(mem: Memory, root: nat, path: Path, before: seq<nat>)
    requires Distinct(before)
    ensures Scanned(mem, root, path, 0, before, before)
  {
  }

  lemma ScanSkip(mem: Memory, root: nat, path: Path, n: nat, before: seq<nat>, frames: seq<nat>)
    requires |path| <= 2 && Scanned(mem, root, path, n, before, frames)
    requires FrameAt(mem, root, path + [n]).None?
    ensures Scanned(mem, root, path, n + 1, before, frames)
  {
    forall f ensures Under(mem, root, path, n + 1, f) <==> Under(mem, root, path, n, f) {
      UnderNext(mem, root, path, n, f);
      NothingUnder(mem, root, path + [n], f);
    }
  }

  lemma ScanStep(mem: Memory, root: nat, path: Path, n: nat, before: seq<nat>, frames: seq<nat>, g: nat, frames': seq<nat>)
    requires |path| <= 2 && WordsPerFrame(mem)
    requires Scanned(mem, root, path, n, before, frames)
    requires FrameAt(mem, root, path + [n]) == Some(g)
    requires Scanned(mem, root, path + [n], 512, Push(frames, g), frames')
    ensures Scanned(mem, root, path, n + 1, before, frames')
  {
    hide FrameAt, Under, UnderAll;
    forall f ensures f in frames' <==> f in before || Under(mem, root, path, n + 1, f) {
      UnderNext(mem, root, path, n, f);
      UnderIsAll(mem, root, path + [n], f);
    }
  }

  lemma NextFrame(mem: Memory, root: nat, path: Path, t: nat, i: nat)
    requires FrameAt(mem, root, path) == Some(t)
    ensures FrameAt(mem, root, path + [i]) ==
            if Points(|path| + 1, Read(mem, t, i)) then Some(Read(mem, t, i).addr) else None
  {
  }

  /** The innermost loop: page tables named by a page directory. */
  method ScanPd(mem: Memory, pd: nat, before: seq<nat>, ghost root: nat, ghost path: Path) returns (frames: seq<nat>)
    requires WordsPerFrame(mem) && |path| == 2 && FrameAt(mem, root, path) == Some(pd) && Distinct(before)
    ensures Scanned(mem, root, path, 512, before, frames)
  {
    hide Scanned, FrameAt;
    frames := before;
    ScanStart(mem, root, path, before);
    for i := 0 to 512
      invariant Scanned(mem, root, path, i, before, frames)
    {
      var pde := Read(mem, pd, i);
      NextFrame(mem, root, path, pd, i);
      if !pde.present || pde.huge {
        ScanSkip(mem, root, path, i, before, frames);
        continue;
      }
      ghost var frames0 := frames;
      frames := Push(frames, pde.addr);
      LeafScan(mem, root, path + [i], frames0, frames, path, i, before);
      ScanStep(mem, root, path, i, before, frames0, pde.addr, frames);
    }
  }

  lemma LeafScan(mem: Memory, root: nat, q: Path, frames0: seq<nat>, frames: seq<nat>, path: Path, i: nat, before: seq<nat>)
    requires |q| == 3 && Scanned(mem, root, path, i, before, frames0)
    requires exists g :: frames == Push(frames0, g)
    ensures Scanned(mem, root, q, 512, frames, frames)
  {
  }

  lemma PushDistinct(mem: Memory, root: nat, path: Path, i: nat, before: seq<nat>, frames: seq<nat>, g: nat)
    requires Scanned(mem, root, path, i, before, frames)
    ensures Distinct(Push(frames, g))
  {
  }

  /** The middle loop: page directories named by a page-directory-pointer table. */
  method ScanPdpt(mem: Memory, pdpt: nat, before: seq<nat>, ghost root: nat, ghost path: Path) returns (frames: seq<nat>)
    requires WordsPerFrame(mem) && |path| == 1 && FrameAt(mem, root, path) == Some(pdpt) && Distinct(before)
    ensures Scanned(mem, root, path, 512, before, frames)
  {
    hide Scanned, FrameAt, Distinct;
    frames := before;
    ScanStart(mem, root, path, before);
    for i := 0 to 512
      invariant Scanned(mem, root, path, i, before, frames)
    {
      var pdpte := Read(mem, pdpt, i);
      NextFrame(mem, root, path, pdpt, i);
      if !pdpte.present || pdpte.huge {
        ScanSkip(mem, root, path, i, before, frames);
        continue;
      }
      ghost var frames0 := frames;
      PushDistinct(mem, root, path, i, before, frames, pdpte.addr);
      frames := Push(frames, pdpte.addr);
      frames := ScanPd(mem, pdpte.addr, frames, root, path + [i]);
      ScanStep(mem, root, path, i, before, frames0, pdpte.addr, frames);
    }
  }

  /** `collect_kernel_pt_frames`: every table frame reachable from the root, each once. */
  method CollectFrames(mem: Memory, pml4: nat) returns (frames: seq<nat>)
    requires WordsPerFrame(mem)
    ensures Distinct(frames)
    ensures forall f :: f in frames <==> IsTableFrame(mem, pml4 - pml4 % PAGE, f)
  {
    hide Scanned, FrameAt, Distinct, Under;
    var root := pml4 - pml4 % PAGE;
    frames := [root];
    ghost var path: Path := [];
    assert FrameAt(mem, root, path) == Some(root) by { EmptyPath(mem, root); }
    assert Distinct(frames) by { Single(root); }
    ScanStart(mem, root, path, frames);
    for i := 0 to 512
      invariant Scanned(mem, root, path, i, [root], frames)
    {
      var pml4e := Read(mem, root, i);
      NextFrame(mem, root, path, root, i);
      if !pml4e.present {
        ScanSkip(mem, root, path, i, [root], frames);
        continue;
      }
      ghost var frames0 := frames;
      PushDistinct(mem, root, path, i, [root], frames, pml4e.addr);
      frames := Push(frames, pml4e.addr);
      frames := ScanPdpt(mem, pml4e.addr, frames, root, path + [i]);
      ScanStep(mem, root, path, i, [root], frames0, pml4e.addr, frames);
    }
    ScanEnds(mem, root, frames);
  }

  lemma EmptyPath(mem: Memory, root: nat)
    ensures FrameAt(mem, root, []) == Some(root)
  {
  }

  lemma Single(root: nat)
    ensures Distinct([root])
  {
  }

  /** `f` is a page table reachable from the root. */
  ghost predicate IsTableFrame(mem: Memory, root: nat, f: nat)
  {
    exists p :: |p| <= 3 && FrameAt(mem, root, p) == Some(f)
  }

  lemma ScanEnds(mem: Memory, root: nat, frames: seq<nat>)
    requires WordsPerFrame(mem) && Scanned(mem, root, [], 512, [root], frames)
    ensures Distinct(frames) && forall f :: f in frames <==> IsTableFrame(mem, root, f)
  {
    forall f ensures f in frames <==> IsTableFrame(mem, root, f) {
      UnderIsAll(mem, root, [], f);
      if IsTableFrame(mem, root, f) {
        var p :| |p| <= 3 && FrameAt(mem, root, p) == Some(f);
        if p != [] { assert [] <= p; }
      }
      if UnderAll(mem, root, [], f) {
        var p: Path :| |p| <= 3 && FrameAt(mem, root, p) == Some(f);
      }
      if f == root { EmptyPath(mem, root); }
    }
  }
}
