/** Splitting the boot memory map around everything the allocator must not touch. */
module RegionSplitter {
  import opened Basics
  import opened Paging
  import opened PtFrames

  const LOW_MEM_LIMIT := 0x10_0000
  const GUARD_SIZE := 0x20_0000

  datatype Kind = Usable | Bootloader | OtherKind

  datatype Region = Region(start: nat, len: nat, kind: Kind)

  /** An entry handed to the memory manager. */
  datatype Segment = Segment(start: nat, len: nat, usable: bool)

  /** Everything that is protected besides low memory; there is a guard only below a bootloader region. */
  datatype Protection = Protection(kernelStart: nat, kernelEnd: nat, guard: Option<(nat, nat)>, frames: seq<nat>)

  /** `is_protected`, asked of the first byte of a page. */
  predicate IsProtected(p: Protection, addr: nat)
  {
    || addr < LOW_MEM_LIMIT
    || p.kernelStart <= addr < p.kernelEnd
    || (p.guard.Some? && p.guard.value.0 <= addr < p.guard.value.1)
    || addr in p.frames
  }

  /** The address that is asked about for `addr`: the loop goes in pages counted from the start of the region. */
  function Sample(start: nat, addr: nat): nat
    requires start <= addr
  {
    addr - (addr - start) % PAGE
  }

  /** How far the loop goes: the length in whole pages. */
  function Rounded(len: nat): (r: nat)
    ensures r % PAGE == 0 && len <= r < len + PAGE
  {
    (len + PAGE - 1) / PAGE * PAGE
  }

  predicate Within(s: Segment, addr: nat) { s.start <= addr < s.start + s.len }

  ghost predicate Covered(segs: seq<Segment>, addr: nat)
  {
    exists i :: 0 <= i < |segs| && segs[i].usable && Within(segs[i], addr)
  }

  /** Segments in ascending order that do not touch. */
  ghost predicate Ordered(segs: seq<Segment>)
  {
    forall i, j :: 0 <= i < j < |segs| ==> segs[i].start + segs[i].len <= segs[j].start
  }

  /** The split of `[start, current)`: the segments are non-empty, usable, inside and apart, and cover exactly
      the unprotected pages. */
  ghost predicate Splits(p: Protection, start: nat, current: nat, segs: seq<Segment>)
  {
    && Ordered(segs)
    && (forall i :: 0 <= i < |segs| ==>
          segs[i].usable && segs[i].len > 0 && start <= segs[i].start && segs[i].start + segs[i].len <= current)
    && (forall addr :: start <= addr < current ==> (Covered(segs, addr) <==> !IsProtected(p, Sample(start, addr))))
  }

  lemma SampleSteps(start: nat, a: nat, addr: nat)
    requires start <= a && (a - start) % PAGE == 0 && a <= addr < a + PAGE
    ensures Sample(start, addr) == a
  {
  }

  lemma SplitSkip(p: Protection, start: nat, current: nat, segs: seq<Segment>)
    requires Splits(p, start, current, segs) && start <= current && (current - start) % PAGE == 0 && IsProtected(p, current)
    ensures Splits(p, start, current + PAGE, segs)
  {
    hide IsProtected, Sample;
    forall addr | start <= addr < current + PAGE ensures Covered(segs, addr) <==> !IsProtected(p, Sample(start, addr)) {
      if addr >= current { SampleSteps(start, current, addr); }
    }
  }

  lemma SplitAppend(p: Protection, start: nat, from: nat, current: nat, segs: seq<Segment>)
    requires Splits(p, start, from, segs) && start <= from < current
    requires forall addr :: from <= addr < current ==> !IsProtected(p, Sample(start, addr))
    ensures Splits(p, start, current, segs + [Segment(from, current - from, true)])
  {
    hide IsProtected, Sample;
    var segs' := segs + [Segment(from, current - from, true)];
    forall addr | start <= addr < current ensures Covered(segs', addr) <==> !IsProtected(p, Sample(start, addr)) {
      if addr < from {
        if Covered(segs, addr) {
          var i :| 0 <= i < |segs| && segs[i].usable && Within(segs[i], addr);
          assert segs'[i] == segs[i];
        }
      } else {
        assert Within(segs'[|segs|], addr);
      }
    }
  }

  /** The end of the run of unprotected pages that begins at `from`. */
  method SegmentEnd(p: Protection, from: nat, regionEnd: nat, ghost start: nat, ghost stop: nat) returns (current: nat)
    requires start <= from < regionEnd <= stop < regionEnd + PAGE && (from - start) % PAGE == 0 && (stop - start) % PAGE == 0
    requires !IsProtected(p, from)
    ensures from < current <= stop && (current - start) % PAGE == 0
    ensures forall addr :: from <= addr < current ==> !IsProtected(p, Sample(start, addr))
  {
    hide IsProtected, Sample;
    current := from;
    while current < regionEnd && !IsProtected(p, current)
      invariant (current - start) % PAGE == 0 && from <= current <= stop
      invariant current == from ==> !IsProtected(p, current)
      invariant forall addr :: from <= addr < current ==> !IsProtected(p, Sample(start, addr))
      decreases stop - current
    {
      forall addr | from <= addr < current + PAGE ensures !IsProtected(p, Sample(start, addr)) {
        if addr >= current { SampleSteps(start, current, addr); }
      }
      NextPage(start, current, stop);
      current := current + PAGE;
    }
  }

  lemma NextPage(start: nat, current: nat, stop: nat)
    requires start <= current < stop && (current - start) % PAGE == 0 && (stop - start) % PAGE == 0
    ensures current + PAGE <= stop && (current + PAGE - start) % PAGE == 0
  {
  }

  /** The loops over one usable region, wherever it starts and ends. */
  method SplitRegion(p: Protection, start: nat, len: nat) returns (segs: seq<Segment>)
    ensures Splits(p, start, start + Rounded(len), segs)
  {
    segs := [];
    var current := start;
    var regionEnd := start + len;
    ghost var stop := start + Rounded(len);
    assert Splits(p, start, current, segs);
    hide Splits, Sample, Rounded;
    while current < regionEnd
      invariant start <= current <= stop && (current - start) % PAGE == 0
      invariant Splits(p, start, current, segs)
      decreases stop - current
    {
      ghost var entered := current;
      while current < regionEnd && IsProtected(p, current)
        invariant entered <= current <= stop && (current - start) % PAGE == 0
        invariant Splits(p, start, current, segs)
        decreases stop - current
      {
        SplitSkip(p, start, current, segs);
        NextPage(start, current, stop);
        current := current + PAGE;
      }
      if current >= regionEnd {
        break;
      }
      var segmentStart := current;
      current := SegmentEnd(p, segmentStart, regionEnd, start, stop);
      var segmentLen := current - segmentStart;
      if segmentLen > 0 {
        SplitAppend(p, start, segmentStart, current, segs);
        segs := segs + [Segment(segmentStart, segmentLen, true)];
      }
    }
    LastPage(start, current, regionEnd, stop);
  }

  lemma LastPage(start: nat, current: nat, regionEnd: nat, stop: nat)
    requires start <= current <= stop && regionEnd <= current && stop < regionEnd + PAGE
    requires (current - start) % PAGE == 0 && (stop - start) % PAGE == 0
    ensures current == stop
  {
  }

  /** The segments stay inside the region if and only if it is whole pages long or its last, partial page is
      protected. */
  lemma StaysInsideExactly(p: Protection, start: nat, len: nat, segs: seq<Segment>)
    requires Splits(p, start, start + Rounded(len), segs)
    ensures (forall addr: nat :: Covered(segs, addr) ==> addr < start + len)
            <==> len % PAGE == 0 || IsProtected(p, start + len - len % PAGE)
  {
    hide IsProtected;
    var part, stop := start + len - len % PAGE, start + Rounded(len);
    if len % PAGE != 0 {
      RoundedPartial(len);
      forall addr | start + len <= addr < stop ensures Sample(start, addr) == part { SampleSteps(start, part, addr); }
      assert start + len < stop;
      assert Covered(segs, start + len) <==> !IsProtected(p, Sample(start, start + len));
    }
  }

  /** A region of one byte above low memory: a whole page of it is offered. */
  lemma OneByteOffersPage() returns (p: Protection, segs: seq<Segment>)
    ensures Splits(p, LOW_MEM_LIMIT, LOW_MEM_LIMIT + Rounded(1), segs)
    ensures Covered(segs, LOW_MEM_LIMIT + 1)
  {
    p, segs := Protection(0, 0, None, []), [Segment(LOW_MEM_LIMIT, PAGE, true)];
    assert Rounded(1) == PAGE;
    forall addr | LOW_MEM_LIMIT <= addr < LOW_MEM_LIMIT + PAGE
      ensures Covered(segs, addr) && !IsProtected(p, Sample(LOW_MEM_LIMIT, addr))
    {
      assert Within(segs[0], addr);
    }
  }

  lemma RoundedPartial(len: nat)
    requires len % PAGE != 0
    ensures Rounded(len) == len - len % PAGE + PAGE && (len - len % PAGE) % PAGE == 0
  {
  }

  /** The guard is the 2 MiB, or what there is, below the lowest bootloader region; none without one. */
  ghost predicate GuardsBootloader(regions: seq<Region>, guard: Option<(nat, nat)>)
  {
    match guard
    case None => forall r :: r in regions ==> r.kind != Bootloader
    case Some(g) =>
      && (exists r :: r in regions && r.kind == Bootloader && r.start == g.1)
      && (forall r :: r in regions && r.kind == Bootloader ==> g.1 <= r.start)
      && g.0 == (if g.1 >= 0x20_0000 then g.1 - 0x20_0000 else 0)
  }

  method GuardBelowBootloader(regions: seq<Region>) returns (guard: Option<(nat, nat)>)
    ensures GuardsBootloader(regions, guard)
  {
    var lowest: Option<nat> := None;
    for i := 0 to |regions|
      invariant lowest.None? <==> forall j :: 0 <= j < i ==> regions[j].kind != Bootloader
      invariant lowest.Some? ==> exists j :: 0 <= j < i && regions[j].kind == Bootloader && regions[j].start == lowest.value
      invariant lowest.Some? ==> forall j :: 0 <= j < i && regions[j].kind == Bootloader ==> lowest.value <= regions[j].start
    {
      if regions[i].kind == Bootloader && (lowest.None? || regions[i].start < lowest.value) {
        lowest := Some(regions[i].start);
      }
    }
    match lowest {
      case None => guard := None;
      case Some(m) => guard := Some((if m >= GUARD_SIZE then m - GUARD_SIZE else 0, m));
    }
  }

  // ----- the whole map

  predicate Holds(r: Region, addr: nat) { r.start <= addr < r.start + r.len }

  /** The region, rounded up to whole pages. */
  predicate Spans(r: Region, addr: nat) { r.start <= addr < r.start + Rounded(r.len) }

  /** `addr` is in the span of a usable region, and the page it is in there is not protected. */
  predicate Offers(p: Protection, r: Region, addr: nat)
  {
    r.kind == Usable && Spans(r, addr) && !IsProtected(p, Sample(r.start, addr))
  }

  ghost predicate Offered(p: Protection, regions: seq<Region>, n: nat, addr: nat)
  {
    exists i :: 0 <= i < n && i < |regions| && Offers(p, regions[i], addr)
  }

  ghost predicate SpansApart(regions: seq<Region>)
  {
    forall i, j, addr :: 0 <= i < j < |regions| && Spans(regions[i], addr) ==> !Spans(regions[j], addr)
  }

  ghost predicate SegmentsApart(segs: seq<Segment>)
  {
    forall i, j, addr :: 0 <= i < j < |segs| && segs[i].usable && segs[j].usable && Within(segs[i], addr) ==> !Within(segs[j], addr)
  }

  /** What the first `n` regions became. */
  ghost predicate Built(p: Protection, regions: seq<Region>, n: nat, out: seq<Segment>)
  {
    && (forall addr :: Covered(out, addr) <==> Offered(p, regions, n, addr))
    && (SpansApart(regions) ==> SegmentsApart(out))
  }

  lemma CoveredJoin(a: seq<Segment>, b: seq<Segment>)
    ensures forall addr :: Covered(a + b, addr) <==> Covered(a, addr) || Covered(b, addr)
  {
    forall addr ensures Covered(a + b, addr) <==> Covered(a, addr) || Covered(b, addr) {
      if Covered(a, addr) {
        var i :| 0 <= i < |a| && a[i].usable && Within(a[i], addr);
        assert (a + b)[i] == a[i];
      }
      if Covered(b, addr) {
        var i :| 0 <= i < |b| && b[i].usable && Within(b[i], addr);
        assert (a + b)[|a| + i] == b[i];
      }
    }
  }

  lemma SplitCoverage(p: Protection, r: Region, segs: seq<Segment>)
    requires r.kind == Usable && Splits(p, r.start, r.start + Rounded(r.len), segs)
    ensures forall addr :: Covered(segs, addr) <==> Offers(p, r, addr)
  {
    hide IsProtected, Sample, Rounded;
  }

  lemma BuildUsable(p: Protection, regions: seq<Region>, n: nat, out: seq<Segment>, segs: seq<Segment>)
    requires n < |regions| && regions[n].kind == Usable
    requires Built(p, regions, n, out)
    requires Splits(p, regions[n].start, regions[n].start + Rounded(regions[n].len), segs)
    ensures Built(p, regions, n + 1, out + segs)
  {
    hide IsProtected, Sample, Rounded;
    CoveredJoin(out, segs);
    SplitCoverage(p, regions[n], segs);
    forall addr ensures Offered(p, regions, n + 1, addr) <==> Offered(p, regions, n, addr) || Offers(p, regions[n], addr) {
    }
    if SpansApart(regions) {
      JoinApart(p, regions, n, out, segs);
    }
  }

  lemma JoinApart(p: Protection, regions: seq<Region>, n: nat, out: seq<Segment>, segs: seq<Segment>)
    requires n < |regions| && SpansApart(regions) && SegmentsApart(out)
    requires forall addr :: Covered(out, addr) ==> Offered(p, regions, n, addr)
    requires Splits(p, regions[n].start, regions[n].start + Rounded(regions[n].len), segs)
    ensures SegmentsApart(out + segs)
  {
    hide IsProtected, Sample, Rounded;
    var all := out + segs;
    forall i, j, addr | 0 <= i < j < |all| && all[i].usable && all[j].usable && Within(all[i], addr) ensures !Within(all[j], addr) {
      if i < |out| <= j {
        assert Covered(out, addr);
        var k :| 0 <= k < n && Offers(p, regions[k], addr);
        assert !Spans(regions[n], addr);
        assert all[j] == segs[j - |out|];
      } else if i >= |out| {
        assert all[i] == segs[i - |out|] && all[j] == segs[j - |out|];
      }
    }
  }

  lemma BuildOther(p: Protection, regions: seq<Region>, n: nat, out: seq<Segment>, seg: Segment)
    requires n < |regions| && regions[n].kind != Usable && !seg.usable
    requires Built(p, regions, n, out)
    ensures Built(p, regions, n + 1, out + [seg])
  {
    hide IsProtected, Sample, Spans;
    CoveredJoin(out, [seg]);
    assert forall addr :: !Covered([seg], addr);
    assert forall addr :: Offered(p, regions, n + 1, addr) <==> Offered(p, regions, n, addr);
  }

  /** The entries that are not usable are the regions of any other kind among the first `n`, as they are. */
  ghost predicate PassedOn(regions: seq<Region>, n: nat, out: seq<Segment>)
  {
    forall s: Segment :: s in out && !s.usable <==> IsReserved(regions, n, s)
  }

  ghost predicate IsReserved(regions: seq<Region>, n: nat, s: Segment)
  {
    exists i :: 0 <= i < n && i < |regions| && regions[i].kind != Usable && s == Segment(regions[i].start, regions[i].len, false)
  }

  lemma PassedNext(regions: seq<Region>, n: nat, out: seq<Segment>, segs: seq<Segment>)
    requires n < |regions| && PassedOn(regions, n, out)
    requires if regions[n].kind == Usable then forall i :: 0 <= i < |segs| ==> segs[i].usable
             else segs == [Segment(regions[n].start, regions[n].len, false)]
    ensures PassedOn(regions, n + 1, out + segs)
  {
    forall s: Segment ensures s in out + segs && !s.usable <==> IsReserved(regions, n + 1, s) {
      assert IsReserved(regions, n + 1, s) <==>
        IsReserved(regions, n, s) || (regions[n].kind != Usable && s == Segment(regions[n].start, regions[n].len, false));
    }
  }

  /** The loop over the boot memory map. */
  method BuildRegions(p: Protection, regions: seq<Region>) returns (out: seq<Segment>)
    ensures Built(p, regions, |regions|, out)
    ensures PassedOn(regions, |regions|, out)
  {
    out := [];
    assert Built(p, regions, 0, out) && PassedOn(regions, 0, out);
    hide Built, PassedOn;
    for i := 0 to |regions|
      invariant Built(p, regions, i, out)
      invariant PassedOn(regions, i, out)
    {
      var r := regions[i];
      if r.kind != Usable {
        BuildOther(p, regions, i, out, Segment(r.start, r.len, false));
        PassedNext(regions, i, out, [Segment(r.start, r.len, false)]);
        out := out + [Segment(r.start, r.len, false)];
        continue;
      }
      var segs := SplitRegion(p, r.start, r.len);
      BuildUsable(p, regions, i, out, segs);
      PassedNext(regions, i, out, segs);
      out := out + segs;
    }
  }

  /** A byte the allocator must never hand out: of the first megabyte, the kernel, the guard or a page table. */
  ghost predicate Forbidden(p: Protection, addr: nat)
  {
    || addr < 0x10_0000
    || p.kernelStart <= addr < p.kernelEnd
    || (p.guard.Some? && p.guard.value.0 <= addr < p.guard.value.1)
    || (exists f :: f in p.frames && f <= addr < f + 0x1000)
  }

  /** No byte of the 4 KiB page that holds `addr` is forbidden. */
  ghost predicate PageFree(p: Protection, addr: nat)
  {
    forall b: nat :: b / 0x1000 == addr / 0x1000 ==> !Forbidden(p, b)
  }

  /** Everything starts and ends on a page boundary, but for the kernel's end. */
  ghost predicate Aligned(p: Protection, regions: seq<Region>)
  {
    && (forall i :: 0 <= i < |regions| ==> regions[i].start % PAGE == 0 && regions[i].len % PAGE == 0)
    && p.kernelStart % PAGE == 0
    && (p.guard.Some? ==> p.guard.value.0 % PAGE == 0)
    && (forall f :: f in p.frames ==> f % PAGE == 0)
  }

  /** Asking about the first byte of the page is enough when everything protected starts on a page. */
  lemma ForbiddenIsProtected(p: Protection, regions: seq<Region>, addr: nat)
    requires Aligned(p, regions) && Forbidden(p, addr)
    ensures IsProtected(p, PageOf(addr))
  {
  }

  /** And so a page is protected if and only if a byte of it is forbidden. */
  lemma ProtectedExactly(p: Protection, regions: seq<Region>, addr: nat)
    requires Aligned(p, regions)
    ensures IsProtected(p, PageOf(addr)) <==> !PageFree(p, addr)
  {
    var page := PageOf(addr);
    SamePage(addr, page);
    if IsProtected(p, page) {
      assert page in p.frames ==> page <= page < page + 0x1000;
      assert Forbidden(p, page);
    } else {
      hide Forbidden, IsProtected;
      forall b: nat | b / 0x1000 == addr / 0x1000 ensures !Forbidden(p, b) {
        SamePage(b, PageOf(b));
        if Forbidden(p, b) { ForbiddenIsProtected(p, regions, b); }
      }
    }
  }

  /** What is asked of a single address, on any map: all of it but the page tables by range, those by their start. */
  lemma AskedExactly(p: Protection, addr: nat)
    ensures IsProtected(p, addr) <==> addr in p.frames || Forbidden(p.(frames := []), addr)
  {
  }

  lemma SamePage(addr: nat, page: nat)
    requires page == PageOf(addr)
    ensures page / 0x1000 == addr / 0x1000 && page == addr / 0x1000 * 0x1000
  {
  }

  lemma AlignedOffers(p: Protection, r: Region, addr: nat)
    requires r.start % PAGE == 0 && r.len % PAGE == 0
    ensures Spans(r, addr) <==> Holds(r, addr)
    ensures Offers(p, r, addr) <==> r.kind == Usable && Holds(r, addr) && !IsProtected(p, PageOf(addr))
  {
    hide IsProtected;
    assert Rounded(r.len) == r.len;
    if Holds(r, addr) { AlignedSample(r.start, addr); }
  }

  lemma AlignedSample(start: nat, addr: nat)
    requires start % PAGE == 0 && start <= addr
    ensures Sample(start, addr) == PageOf(addr)
  {
  }

  /** `addr` lies in a usable region. */
  ghost predicate InUsable(regions: seq<Region>, addr: nat)
  {
    exists i :: 0 <= i < |regions| && regions[i].kind == Usable && Holds(regions[i], addr)
  }

  /** On a page-aligned map the offered addresses are those of usable pages without a forbidden byte. */
  lemma AlignedOffered(p: Protection, regions: seq<Region>, addr: nat)
    requires Aligned(p, regions)
    ensures Offered(p, regions, |regions|, addr) <==> InUsable(regions, addr) && PageFree(p, addr)
  {
    ProtectedExactly(p, regions, addr);
    forall i | 0 <= i < |regions|
      ensures Offers(p, regions[i], addr) <==> regions[i].kind == Usable && Holds(regions[i], addr) && !IsProtected(p, PageOf(addr))
    {
      AlignedOffers(p, regions[i], addr);
    }
    hide IsProtected, PageFree, Offers, PageOf, Holds;
  }

  /** Memory-map processing at boot: the guard, the boot page tables and the split together, on any memory map.
      On a page-aligned one the usable segments cover exactly the usable pages that hold no byte of low memory, the
      kernel, the guard or a reachable page table. */
  method PrepareRegions(mem: Memory, pml4: nat, kernelStart: nat, kernelSize: nat, regions: seq<Region>)
    returns (out: seq<Segment>, p: Protection)
    requires WordsPerFrame(mem)
    ensures Built(p, regions, |regions|, out)
    ensures PassedOn(regions, |regions|, out)
    ensures forall f :: f in p.frames <==> IsTableFrame(mem, pml4 - pml4 % PAGE, f)
    ensures p.kernelStart == kernelStart && p.kernelEnd == kernelStart + kernelSize
    ensures GuardsBootloader(regions, p.guard)
    ensures Aligned(p, regions) ==>
              forall addr: nat :: Covered(out, addr) <==> InUsable(regions, addr) && PageFree(p, addr)
  {
    hide IsProtected, PageFree, Splits, PageOf, IsTableFrame, Aligned, PassedOn, GuardsBootloader, InUsable, Offered;
    var guard := GuardBelowBootloader(regions);
    var frames := CollectFrames(mem, pml4);
    p := Protection(kernelStart, kernelStart + kernelSize, guard, frames);
    out := BuildRegions(p, regions);
    if Aligned(p, regions) {
      forall addr: nat ensures Covered(out, addr) <==> InUsable(regions, addr) && PageFree(p, addr) {
        AlignedOffered(p, regions, addr);
      }
    }
  }
}
