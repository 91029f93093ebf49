/**
 Copying a program segment into a user address space page by page, through pages that lie anywhere in
 physical memory.
 */
module SegmentCopy {

  import opened Basics
  import opened Bytes

  /** Virtual page address to physical frame address. */
  type Pages = map<nat, nat>

  ghost predicate ValidPages(pages: Pages)
  {
    && (forall p :: p in pages ==> p % PAGE == 0 && pages[p] % PAGE == 0)
    && (forall p, q :: p in pages && q in pages && pages[p] == pages[q] ==> p == q)
  }

  ghost predicate Mapped(pages: Pages, v: nat)
  {
    PageOf(v) in pages
  }

  ghost function Physical(pages: Pages, v: nat): nat
    requires Mapped(pages, v)
  {
    pages[PageOf(v)] + v % PAGE
  }

  /** Some virtual byte of `[start, stop)` lies at physical address `a`. */
  ghost predicate Backs(pages: Pages, start: nat, stop: nat, a: nat)
  {
    exists v: nat :: start <= v < stop && Mapped(pages, v) && Physical(pages, v) == a
  }

  /** The flat specification: in `[start, stop)` the segment's bytes, everywhere else no change at all. */
  ghost predicate Copied(pages: Pages, before: Memory, after: Memory, start: nat, stop: nat, file: seq<nat>)
  {
    && (forall v: nat :: start <= v < stop && Mapped(pages, v) ==>
          Byte(after, Physical(pages, v)) == SegmentByte(file, v - start))
    && (forall a: nat :: !Backs(pages, start, stop, a) ==> Byte(after, a) == Byte(before, a))
  }

  /** The `n` bytes at `dest` are the segment's from `offset` on; no other byte changes. */
  ghost predicate PageCopied(mem: Memory, mem': Memory, dest: nat, n: nat, file: seq<nat>, offset: nat)
  {
    forall a: nat :: Byte(mem', a) ==
                     if dest <= a < dest + n then SegmentByte(file, offset + (a - dest)) else Byte(mem, a)
  }

  lemma CopyExtends(pages: Pages, before: Memory, mem: Memory, mem': Memory, start: nat, cur: nat, n: nat, file: seq<nat>)
    requires ValidPages(pages) && start <= cur && Mapped(pages, cur) && cur % PAGE + n <= PAGE
    requires Copied(pages, before, mem, start, cur, file)
    requires PageCopied(mem, mem', Physical(pages, cur), n, file, cur - start)
    ensures Copied(pages, before, mem', start, cur + n, file)
  {
    var dest := Physical(pages, cur);
    forall v: nat | start <= v < cur + n && Mapped(pages, v)
      ensures Byte(mem', Physical(pages, v)) == SegmentByte(file, v - start)
    {
      if v < cur {
        OutsidePage(pages, cur, n, v);
      } else {
        SamePage(pages, cur, n, v);
      }
    }
    forall a: nat | !Backs(pages, start, cur + n, a) ensures Byte(mem', a) == Byte(before, a) {
      if dest <= a < dest + n {
        SamePage(pages, cur, n, cur + (a - dest));
      }
      if v: nat :| start <= v < cur && Mapped(pages, v) && Physical(pages, v) == a { }
    }
  }

  lemma SamePage(pages: Pages, cur: nat, n: nat, v: nat)
    requires Mapped(pages, cur) && cur % PAGE + n <= PAGE && cur <= v < cur + n
    ensures Mapped(pages, v) && Physical(pages, v) == Physical(pages, cur) + (v - cur)
  {
  }

  lemma OutsidePage(pages: Pages, cur: nat, n: nat, v: nat)
    requires ValidPages(pages) && Mapped(pages, cur) && cur % PAGE + n <= PAGE && Mapped(pages, v) && v < cur
    ensures !(Physical(pages, cur) <= Physical(pages, v) < Physical(pages, cur) + n)
  {
  }

  function Min(a: int, b: int): int
  {
    if a < b then a else b
  }

  function Max(a: nat, b: nat): nat
  {
    if a < b then b else a
  }

  /** Every page the segment touches is mapped. */
  ghost predicate AllMapped(pages: Pages, start: nat, stop: nat)
  {
    forall v: nat :: start <= v < stop ==> Mapped(pages, v)
  }

  /** More file bytes than memory, and both end in one page: there the number of bytes to zero comes out negative. */
  predicate Overlong(start: nat, fileSize: nat, memSize: nat)
  {
    0 < memSize < fileSize && PageOf(start + fileSize) < start + memSize
  }

  datatype Outcome = Done | NotMapped | Negative

  class Loader {
    var mem: Memory

    /** The file bytes and the zeros that fall into the `room` left in one page; not `ok` when the number of zeros
        is negative. */
    method CopyPage(dest: nat, room: nat, file: seq<nat>, dataOffset: nat, memOffset: nat, memSize: nat)
      returns (dataOffset': nat, ok: bool)
      requires memOffset < Max(|file|, memSize) && dataOffset == Min(memOffset, |file|)
      modifies this
      ensures !ok <==> memOffset < memSize < |file| < memOffset + room
      ensures dataOffset' == Min(memOffset + room, |file|)
      ensures ok ==> PageCopied(old(mem), mem, dest, Min(room, Max(|file|, memSize) - memOffset), file, memOffset)
    {
      dataOffset' := dataOffset;
      var copyLen := Min(room, |file| - dataOffset);
      if copyLen > 0 {
        mem := Blit(mem, dest, file[dataOffset..dataOffset + copyLen]);
        dataOffset' := dataOffset + copyLen;
      }
      if memOffset + room > |file| && memOffset < memSize {
        var bssStart := if memOffset < |file| then Min(|file| - memOffset, room) else 0;
        var bssEnd := Min(memSize - memOffset, room);
        var bssLen := bssEnd - bssStart;
        if bssLen < 0 {
          return dataOffset', false;
        }
        if bssLen > 0 {
          mem := Blit(mem, dest + bssStart, Zeros(bssLen));
        }
      }
      ok := true;
    }

    /** The copy loop. It stops early when a page is not mapped or a length comes out negative. */
    method CopySegment(pages: Pages, start: nat, file: seq<nat>, memSize: nat) returns (r: Outcome)
      requires ValidPages(pages)
      modifies this
      ensures r.Done? <==> AllMapped(pages, start, start + Max(|file|, memSize)) && !Overlong(start, |file|, memSize)
      ensures r.Negative? ==> Overlong(start, |file|, memSize)
      ensures r.Done? ==> Copied(pages, old(mem), mem, start, start + Max(|file|, memSize), file)
    {
      hide Copied, PageCopied, Overlong, NotYet;
      NotYetStarts(start, |file|, memSize);
      var dataOffset, memOffset := 0, 0;
      ghost var size := Max(|file|, memSize);
      NothingCopied(pages, mem, start, file);
      while dataOffset < |file| || memOffset < memSize
        invariant dataOffset == Min(memOffset, |file|)
        invariant memOffset == 0 || (start + memOffset) % PAGE == 0
        invariant AllMapped(pages, start, start + Min(memOffset, size))
        invariant Copied(pages, old(mem), mem, start, start + Min(memOffset, size), file)
        invariant NotYet(start, memOffset, |file|, memSize)
        decreases size - memOffset
      {
        var cur := start + memOffset;
        var page, within := PageOf(cur), cur % PAGE;
        var room := PAGE - within;
        if page !in pages {
          assert !Mapped(pages, cur);
          return NotMapped;
        }
        ghost var mem0, n := mem, Min(room, size - memOffset);
        var ok;
        dataOffset, ok := CopyPage(pages[page] + within, room, file, dataOffset, memOffset, memSize);
        if !ok {
          NegativeIsOverlong(start, memOffset, room, |file|, memSize);
          return Negative;
        }
        CopyExtends(pages, old(mem), mem0, mem, start, cur, n, file);
        forall v: nat | cur <= v < cur + n ensures Mapped(pages, v) { SamePage(pages, cur, n, v); }
        NotYetNext(start, memOffset, room, |file|, memSize);
        memOffset := memOffset + room;
      }
      NotYetEnds(start, memOffset, |file|, memSize);
      return Done;
    }
  }

  /** The page in which an overlong segment's length comes out negative is still to come. */
  ghost predicate NotYet(start: nat, memOffset: nat, fileSize: nat, memSize: nat)
  {
    Overlong(start, fileSize, memSize) ==> memOffset == 0 || start + memOffset <= PageOf(start + fileSize)
  }

  lemma NotYetStarts(start: nat, fileSize: nat, memSize: nat)
    ensures NotYet(start, 0, fileSize, memSize)
  {
  }

  lemma NotYetNext(start: nat, memOffset: nat, room: nat, fileSize: nat, memSize: nat)
    requires NotYet(start, memOffset, fileSize, memSize) && room == PAGE - (start + memOffset) % PAGE
    requires !(memOffset < memSize < fileSize < memOffset + room)
    ensures NotYet(start, memOffset + room, fileSize, memSize)
  {
    var cur, v := start + memOffset, start + fileSize;
    if Overlong(start, fileSize, memSize) && cur + room <= v {
      PageLater(cur, room, v);
    }
  }

  lemma NotYetEnds(start: nat, memOffset: nat, fileSize: nat, memSize: nat)
    requires NotYet(start, memOffset, fileSize, memSize) && fileSize <= memOffset && memSize <= memOffset
    ensures !Overlong(start, fileSize, memSize)
  {
  }

  lemma NegativeIsOverlong(start: nat, memOffset: nat, room: nat, fileSize: nat, memSize: nat)
    requires room == PAGE - (start + memOffset) % PAGE && memOffset < memSize < fileSize < memOffset + room
    ensures Overlong(start, fileSize, memSize)
  {
    PageStays(start + memOffset, room, start + fileSize);
  }

  lemma PageStays(cur: nat, room: nat, v: nat)
    requires room == PAGE - cur % PAGE && cur <= v < cur + room
    ensures PageOf(v) == PageOf(cur)
  {
  }

  lemma PageLater(cur: nat, room: nat, v: nat)
    requires room == PAGE - cur % PAGE && cur + room <= v
    ensures cur + room <= PageOf(v)
  {
  }

  lemma NothingCopied(pages: Pages, mem: Memory, start: nat, file: seq<nat>)
    ensures Copied(pages, mem, mem, start, start, file)
  {
  }

  /** A segment of 2 file bytes and 1 byte of memory, in a mapped page: the copy breaks off. */
  lemma OverlongExists(start: nat)
    requires start % PAGE == 0
    ensures Overlong(start, 2, 1)
  {
  }
}
