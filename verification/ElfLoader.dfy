/** The boot loader's ELF scan and its flat placement of the kernel image. */
module ElfLoader {

  import opened Basics
  import opened Bytes

  const MAX_SEGMENTS := 16
  const PT_LOAD := 1
  const HEADER_SIZE := 64
  const MACHINE_X86_64 := 0x3E

  datatype Header = Header(
    magic: seq<nat>, class_: nat, encoding: nat, machine: nat, entry: nat, phOffset: nat, phSize: nat, phCount: nat)

  datatype ProgramHeader = ProgramHeader(kind: nat, offset: nat, vaddr: nat, fileSize: nat, memSize: nat)

  datatype Segment = Segment(fileOffset: nat, fileSize: nat, vaddr: nat, memSize: nat)

  datatype ElfInfo = ElfInfo(entry: nat, loadBase: nat, loadSize: nat, segments: seq<Segment>)

  datatype Error = TooSmall | BadMagic | Not64Bit | NotLittleEndian | NotX86 | OutOfBounds | TooManySegments | NoSegments

  datatype Result = Ok(info: ElfInfo) | Err(error: Error)

  // ----- what the scan should find

  function SegmentOf(ph: ProgramHeader): Segment
  {
    Segment(ph.offset, ph.fileSize, ph.vaddr, ph.memSize)
  }

  /** The loadable segments, in header order. */
  function Loadable(table: seq<ProgramHeader>): seq<Segment>
  {
    if table == [] then []
    else
      var rest := Loadable(table[..|table| - 1]);
      var last := table[|table| - 1];
      if last.kind == PT_LOAD then rest + [SegmentOf(last)] else rest
  }

  /** Where program header `i` ends in the file. */
  function TableEnd(h: Header, i: nat): nat
  {
    h.phOffset + i * h.phSize + h.phSize
  }

  /** The bounds check, in 64 bits. */
  predicate InBounds(h: Header, i: nat, size: nat)
  {
    TableEnd(h, i) % TWO_64 <= size
  }

  lemma BoundsByStart(h: Header, i: nat, size: nat)
    ensures InBounds(h, i, size) <==> ((h.phOffset + i * h.phSize) % TWO_64 + h.phSize) % TWO_64 <= size
  {
    var start := h.phOffset + i * h.phSize;
    ModStep(start, h.phSize);
  }

  lemma ModStep(a: nat, b: nat)
    ensures (a % TWO_64 + b) % TWO_64 == (a + b) % TWO_64
  {
  }

  /** The end address as the loader computes it, in 64 bits. */
  function End(s: Segment): nat
  {
    (s.vaddr + s.memSize) % TWO_64
  }

  /** `base` and `end` are the least start and the greatest end of the segments. */
  ghost predicate IsHull(segments: seq<Segment>, base: nat, end: nat)
  {
    && (forall i :: 0 <= i < |segments| ==> base <= segments[i].vaddr && End(segments[i]) <= end)
    && (exists i :: 0 <= i < |segments| && segments[i].vaddr == base)
    && (exists i :: 0 <= i < |segments| && End(segments[i]) == end)
  }

  ghost predicate IsImageHull(info: ElfInfo)
  {
    exists end: nat :: IsHull(info.segments, info.loadBase, end) && info.loadSize == (end - info.loadBase) % TWO_64
  }

  ghost predicate IsU64(ph: ProgramHeader)
  {
    ph.vaddr < TWO_64 && ph.memSize < TWO_64
  }

  /** The first thing wrong with the file header, if anything. */
  function HeaderError(h: Header, size: nat): (e: seq<Error>)
  {
    if size < HEADER_SIZE then [TooSmall]
    else if h.magic != [0x7f, 0x45, 0x4c, 0x46] then [BadMagic]
    else if h.class_ != 2 then [Not64Bit]
    else if h.encoding != 1 then [NotLittleEndian]
    else if h.machine != MACHINE_X86_64 then [NotX86]
    else []
  }

  /** The scan stops at header `i`: its bytes are missing, or it is one loadable segment too many. */
  ghost predicate StopsAt(h: Header, table: seq<ProgramHeader>, size: nat, i: nat)
  {
    i < |table| &&
    (!InBounds(h, i, size) || (table[i].kind == 1 && |Loadable(table[..i])| >= 16))
  }

  ghost predicate StopError(h: Header, size: nat, i: nat, e: Error)
  {
    e == if !InBounds(h, i, size) then OutOfBounds else TooManySegments
  }

  /** Reads the program header table of a file of `size` bytes: what is found, or why the scan stopped. */
  method ScanSegments(h: Header, table: seq<ProgramHeader>, size: nat) returns (r: Result)
    requires |table| == h.phCount
    requires forall i :: 0 <= i < |table| ==> IsU64(table[i])
    ensures r.Err? && r.error != NoSegments ==>
              exists i: nat :: StopsAt(h, table, size, i) && StopError(h, size, i, r.error)
                               && forall j: nat :: j < i ==> !StopsAt(h, table, size, j)
    ensures r.Ok? || r.error == NoSegments ==> forall i: nat :: !StopsAt(h, table, size, i)
    ensures r == Err(NoSegments) ==> Loadable(table) == []
    ensures r.Ok? ==> r.info.entry == h.entry && r.info.segments == Loadable(table)
                      && 0 < |r.info.segments| <= MAX_SEGMENTS && IsImageHull(r.info)
  {
    hide IsHull, InBounds;
    var segments: seq<Segment> := [];
    var loadBase: nat, loadEnd: nat := TWO_64 - 1, 0;
    for i := 0 to h.phCount
      invariant segments == Loadable(table[..i]) && |segments| <= MAX_SEGMENTS
      invariant forall j: nat :: j < i ==> !StopsAt(h, table, size, j)
      invariant segments == [] ==> loadBase == TWO_64 - 1 && loadEnd == 0
      invariant segments != [] ==> IsHull(segments, loadBase, loadEnd)
    {
      var phStart := (h.phOffset + i * h.phSize) % TWO_64;
      BoundsByStart(h, i, size);
      if (phStart + h.phSize) % TWO_64 > size {
        assert StopsAt(h, table, size, i) && StopError(h, size, i, OutOfBounds);
        return Err(OutOfBounds);
      }
      var ph := table[i];
      assert table[..i + 1][..i] == table[..i];
      if ph.kind == PT_LOAD {
        if |segments| >= MAX_SEGMENTS {
          assert StopsAt(h, table, size, i) && StopError(h, size, i, TooManySegments);
          return Err(TooManySegments);
        }
        var segment := SegmentOf(ph);
        HullGrows(segments, loadBase, loadEnd, segment);
        segments := segments + [segment];
        if ph.vaddr < loadBase {
          loadBase := ph.vaddr;
        }
        var end := (ph.vaddr + ph.memSize) % TWO_64;
        if end > loadEnd {
          loadEnd := end;
        }
      }
    }
    assert table[..h.phCount] == table;
    if |segments| == 0 {
      return Err(NoSegments);
    }
    r := Ok(ElfInfo(h.entry, loadBase, (loadEnd - loadBase) % TWO_64, segments));
    assert IsHull(r.info.segments, r.info.loadBase, loadEnd);
  }

  /** The whole parse: header errors come first, in this order. */
  method ParseElf(h: Header, table: seq<ProgramHeader>, size: nat) returns (r: Result)
    requires |table| == h.phCount
    requires forall i :: 0 <= i < |table| ==> IsU64(table[i])
    ensures HeaderError(h, size) != [] ==> r == Err(HeaderError(h, size)[0])
    ensures HeaderError(h, size) == [] ==>
              (r.Ok? <==> Loadable(table) != [] && forall i: nat :: !StopsAt(h, table, size, i))
    ensures HeaderError(h, size) == [] && r.Err? && r.error != NoSegments ==>
              exists i: nat :: StopsAt(h, table, size, i) && StopError(h, size, i, r.error)
                               && forall j: nat :: j < i ==> !StopsAt(h, table, size, j)
    ensures r.Ok? ==> r.info.entry == h.entry && r.info.segments == Loadable(table)
                      && 0 < |r.info.segments| <= MAX_SEGMENTS && IsImageHull(r.info)
    ensures r.Ok? ==> size >= 64 && h.magic == [0x7f, 0x45, 0x4c, 0x46] && h.class_ == 2 && h.encoding == 1 && h.machine == 0x3E
    ensures r.Ok? && NoneWraps(table) ==> SpansExactly(table, r.info.loadBase, r.info.loadBase + r.info.loadSize)
  {
    hide StopsAt, Loadable, IsImageHull, NoneWraps, SpansExactly;
    if size < HEADER_SIZE { return Err(TooSmall); }
    if h.magic != [0x7f, 0x45, 0x4c, 0x46] { return Err(BadMagic); }
    if h.class_ != 2 { return Err(Not64Bit); }
    if h.encoding != 1 { return Err(NotLittleEndian); }
    if h.machine != MACHINE_X86_64 { return Err(NotX86); }
    r := ScanSegments(h, table, size);
    if r.Ok? && NoneWraps(table) { HullByHeader(table, r.info); }
  }

  /** Every loadable header ends below 2^64. */
  ghost predicate NoneWraps(table: seq<ProgramHeader>)
  {
    forall i :: 0 <= i < |table| && table[i].kind == 1 ==> table[i].vaddr + table[i].memSize < 0x1_0000_0000_0000_0000
  }

  /** `base` and `end` are the least address and the greatest end of the loadable headers. */
  ghost predicate SpansExactly(table: seq<ProgramHeader>, base: nat, end: nat)
  {
    && (forall i :: 0 <= i < |table| && table[i].kind == 1 ==> base <= table[i].vaddr && table[i].vaddr + table[i].memSize <= end)
    && (exists i :: 0 <= i < |table| && table[i].kind == 1 && table[i].vaddr == base)
    && (exists i :: 0 <= i < |table| && table[i].kind == 1 && table[i].vaddr + table[i].memSize == end)
  }

  lemma {:induction false} LoadableHas(table: seq<ProgramHeader>, i: nat)
    requires i < |table| && table[i].kind == 1
    ensures exists k :: 0 <= k < |Loadable(table)| && Loadable(table)[k] == SegmentOf(table[i])
    decreases |table|
  {
    var n := |table| - 1;
    var rest, segments := Loadable(table[..n]), Loadable(table);
    if i < n {
      LoadableHas(table[..n], i);
      var k :| 0 <= k < |rest| && rest[k] == SegmentOf(table[i]);
      assert segments[k] == rest[k];
    } else {
      assert segments[|rest|] == SegmentOf(table[i]);
    }
  }

  /** When no segment wraps, the hull of the image is that of its segments. */
  lemma PlainHull(info: ElfInfo)
    requires IsImageHull(info)
    requires forall i :: 0 <= i < |info.segments| ==> EndsBelow(info.segments[i])
    ensures forall i :: 0 <= i < |info.segments| ==> PlainEnd(info.segments[i]) <= info.loadBase + info.loadSize
    ensures exists i :: 0 <= i < |info.segments| && info.segments[i].vaddr == info.loadBase
    ensures exists i :: 0 <= i < |info.segments| && PlainEnd(info.segments[i]) == info.loadBase + info.loadSize
  {
    var end: nat :| IsHull(info.segments, info.loadBase, end) && info.loadSize == (end - info.loadBase) % TWO_64;
    forall i | 0 <= i < |info.segments| ensures End(info.segments[i]) == PlainEnd(info.segments[i]) {
      SmallMod(PlainEnd(info.segments[i]));
    }
    hide End, PlainEnd;
    var b :| 0 <= b < |info.segments| && End(info.segments[b]) == end;
    assert info.loadBase <= end < TWO_64 by { EndBounds(info.segments[b]); }
    SmallMod(end - info.loadBase);
  }

  predicate EndsBelow(s: Segment)
  {
    s.vaddr + s.memSize < TWO_64
  }

  function PlainEnd(s: Segment): nat
  {
    s.vaddr + s.memSize
  }

  lemma EndBounds(s: Segment)
    requires EndsBelow(s)
    ensures s.vaddr <= PlainEnd(s) < TWO_64
  {
  }

  lemma HullByHeader(table: seq<ProgramHeader>, info: ElfInfo)
    requires info.segments == Loadable(table) && IsImageHull(info) && NoneWraps(table)
    ensures SpansExactly(table, info.loadBase, info.loadBase + info.loadSize)
  {
    HullStarts(info);
    hide Loadable, IsImageHull;
    forall i | 0 <= i < |info.segments| ensures EndsBelow(info.segments[i]) {
      LoadableFrom(table, i);
    }
    PlainHull(info);
    var a :| 0 <= a < |info.segments| && info.segments[a].vaddr == info.loadBase;
    LoadableFrom(table, a);
    var b :| 0 <= b < |info.segments| && PlainEnd(info.segments[b]) == info.loadBase + info.loadSize;
    LoadableFrom(table, b);
    forall i | 0 <= i < |table| && table[i].kind == 1
      ensures info.loadBase <= table[i].vaddr && table[i].vaddr + table[i].memSize <= info.loadBase + info.loadSize
    {
      LoadableHas(table, i);
      var k :| 0 <= k < |info.segments| && info.segments[k] == SegmentOf(table[i]);
      assert PlainEnd(info.segments[k]) <= info.loadBase + info.loadSize;
    }
  }

  lemma SmallMod(x: nat)
    requires x < TWO_64
    ensures x % TWO_64 == x
  {
  }

  lemma HullGrows(segments: seq<Segment>, base: nat, end: nat, s: Segment)
    requires if segments == [] then base == TWO_64 - 1 && end == 0 else IsHull(segments, base, end)
    requires s.vaddr < TWO_64
    ensures IsHull(segments + [s], if s.vaddr < base then s.vaddr else base, if End(s) > end then End(s) else end)
  {
    var grown := segments + [s];
    assert grown[|segments|] == s;
    if segments != [] {
      var i :| 0 <= i < |segments| && segments[i].vaddr == base;
      var j :| 0 <= j < |segments| && End(segments[j]) == end;
      assert grown[i] == segments[i] && grown[j] == segments[j];
    }
  }

  /** A file header whose fields have their width; a 16-bit product never wraps. */
  ghost predicate IsHeader(h: Header)
  {
    h.phOffset < TWO_64 && h.phSize < 0x1_0000 && h.phCount < 0x1_0000
  }

  /** The bounds check lets a program header through that is not in the file, if and only if its end wraps around
      to a place in the file. */
  lemma StrayHeaderExactly(h: Header, i: nat, size: nat)
    requires IsHeader(h) && i < h.phCount && size < TWO_64
    ensures InBounds(h, i, size) && TableEnd(h, i) > size <==> TWO_64 <= TableEnd(h, i) <= TWO_64 + size
  {
    TableSize(i, h.phSize);
    WrapsOnce(TableEnd(h, i), size);
  }

  lemma TableSize(i: nat, n: nat)
    requires i < 0x1_0000 && n < 0x1_0000
    ensures i * n + n <= 0x1_0000_0000
  {
    MulAtMost(i, 0xffff, n);
  }

  lemma MulAtMost(a: nat, b: nat, n: nat)
    requires a <= b
    ensures a * n <= b * n
  {
    assert (b - a) * n >= 0;
  }

  lemma WrapsOnce(end: nat, size: nat)
    requires end < 2 * TWO_64 && size < TWO_64
    ensures end % TWO_64 <= size < end <==> TWO_64 <= end <= TWO_64 + size
  {
    assert end % TWO_64 == if end < TWO_64 then end else end - TWO_64;
  }

  /** A table that ends just at 2^64: its only header is taken from before the file. */
  lemma StrayHeader(size: nat) returns (h: Header)
    requires HEADER_SIZE <= size < TWO_64
    ensures IsHeader(h) && HeaderError(h, size) == [] && h.phCount == 1
    ensures InBounds(h, 0, size) && TableEnd(h, 0) > size
  {
    h := Header([0x7f, 0x45, 0x4c, 0x46], 2, 1, MACHINE_X86_64, 0, TWO_64 - 56, 56, 1);
  }

  // ----- placing the segments

  /** The bytes a segment writes: its file bytes, and zeros up to its memory size. */
  function Extent(s: Segment): nat
  {
    if s.fileSize < s.memSize then s.memSize else s.fileSize
  }

  /** The segment writes physical address `a` when the image starts at `phys`. */
  ghost predicate Covers(s: Segment, base: nat, phys: nat, a: nat)
    requires base <= s.vaddr
  {
    phys + (s.vaddr - base) <= a < phys + (s.vaddr - base) + Extent(s)
  }

  predicate InFile(data: seq<nat>, s: Segment)
  {
    s.fileSize == 0 || s.fileOffset + s.fileSize <= |data|
  }

  function FileBytes(data: seq<nat>, s: Segment): seq<nat>
    requires InFile(data, s)
  {
    if s.fileSize == 0 then [] else data[s.fileOffset..s.fileOffset + s.fileSize]
  }

  /** Address `a` of the image: the last segment to write it decides, and what none writes stays as it was. */
  ghost function ImageByte(mem: Memory, data: seq<nat>, segments: seq<Segment>, base: nat, phys: nat, a: nat): nat
    requires forall i :: 0 <= i < |segments| ==> base <= segments[i].vaddr && InFile(data, segments[i])
  {
    if segments == [] then Byte(mem, a)
    else
      var last := segments[|segments| - 1];
      if Covers(last, base, phys, a) then SegmentByte(FileBytes(data, last), a - phys - (last.vaddr - base))
      else ImageByte(mem, data, segments[..|segments| - 1], base, phys, a)
  }

  /** Memory as it is once the image is placed. */
  ghost predicate Holds(before: Memory, after: Memory, data: seq<nat>, info: ElfInfo, phys: nat)
  {
    && (forall i :: 0 <= i < |info.segments| ==> info.loadBase <= info.segments[i].vaddr && InFile(data, info.segments[i]))
    && (forall a: nat :: Byte(after, a) == ImageByte(before, data, info.segments, info.loadBase, phys, a))
  }

  class Loader {
    var mem: Memory

    /** Copies the segments to `phys`; stops when a segment's bytes are not in the file. */
    method LoadSegments(data: seq<nat>, info: ElfInfo, phys: nat) returns (ok: bool)
      requires forall i :: 0 <= i < |info.segments| ==> info.loadBase <= info.segments[i].vaddr
      modifies this
      ensures ok <==> forall i :: 0 <= i < |info.segments| ==> InFile(data, info.segments[i])
      ensures ok ==> forall a: nat :: Byte(mem, a) ==
                       ImageByte(old(mem), data, info.segments, info.loadBase, phys, a)
    {
      for i := 0 to |info.segments|
        invariant forall j :: 0 <= j < i ==> InFile(data, info.segments[j])
        invariant forall a: nat :: Byte(mem, a) ==
                    ImageByte(old(mem), data, info.segments[..i], info.loadBase, phys, a)
      {
        var segment := info.segments[i];
        var dest := phys + (segment.vaddr - info.loadBase);
        if segment.fileSize > 0 && segment.fileOffset + segment.fileSize > |data| {
          return false;
        }
        assert info.segments[..i + 1][..i] == info.segments[..i];
        ghost var mem0 := mem;
        PlaceSegment(data, segment, dest);
        forall a: nat ensures Byte(mem, a) == ImageByte(old(mem), data, info.segments[..i + 1], info.loadBase, phys, a) {
          assert Byte(mem0, a) == ImageByte(old(mem), data, info.segments[..i], info.loadBase, phys, a);
        }
      }
      assert info.segments[..|info.segments|] == info.segments;
      return true;
    }

    /** Parsing and placing the kernel: the boot loader's two calls together. */
    method LoadKernel(h: Header, table: seq<ProgramHeader>, data: seq<nat>, phys: nat) returns (r: Result, ok: bool)
      requires |table| == h.phCount
      requires forall i :: 0 <= i < |table| ==> IsU64(table[i])
      modifies this
      ensures r.Err? ==> !ok && mem == old(mem)
      ensures r.Ok? ==> r.info.segments == Loadable(table) && IsImageHull(r.info)
      ensures r.Ok? ==> (ok <==> forall i :: 0 <= i < |table| ==> BytesInFile(data, table[i]))
      ensures ok ==> Holds(old(mem), mem, data, r.info, phys)
      ensures ok ==> ArrivesByHeader(old(mem), mem, data, table, r.info.loadBase, phys)
      ensures ok && (forall i :: 0 <= i < |table| && table[i].kind == PT_LOAD ==> WellFormed(table[i])) ==>
                forall a: nat :: !(phys <= a < phys + r.info.loadSize) ==> Byte(mem, a) == Byte(old(mem), a)
    {
      hide IsImageHull, Loadable, StopsAt, HeaderError, ArrivesByHeader, InFile, BytesInFile;
      r := ParseElf(h, table, |data|);
      if r.Err? {
        return r, false;
      }
      HullStarts(r.info);
      InFileByHeader(data, table);
      ok := LoadSegments(data, r.info, phys);
      if ok { ImageByHeader(old(mem), mem, data, table, r.info, phys); }
      if ok && forall i :: 0 <= i < |table| && table[i].kind == PT_LOAD ==> WellFormed(table[i]) {
        forall a: nat | !(phys <= a < phys + r.info.loadSize) ensures Byte(mem, a) == Byte(old(mem), a) {
          WellFormedKeepsOutside(old(mem), data, table, r.info, phys, a);
        }
      }
    }

    method PlaceSegment(data: seq<nat>, s: Segment, dest: nat)
      requires InFile(data, s)
      modifies this
      ensures forall a: nat :: Byte(mem, a) ==
                if dest <= a < dest + Extent(s) then SegmentByte(FileBytes(data, s), a - dest) else Byte(old(mem), a)
    {
      if s.fileSize > 0 {
        mem := Blit(mem, dest, data[s.fileOffset..s.fileOffset + s.fileSize]);
      }
      if s.memSize > s.fileSize {
        mem := Blit(mem, dest + s.fileSize, Zeros(s.memSize - s.fileSize));
      }
    }
  }

  // ----- what a loaded image looks like

  /** Where address `a` lies in what a loadable header says, when the image starts at `phys`. */
  function OffsetIn(ph: ProgramHeader, base: nat, phys: nat, a: nat): int
  {
    a - (phys + (ph.vaddr - base))
  }

  /** The header has a file byte or a zero for address `a`. */
  predicate Writes(ph: ProgramHeader, base: nat, phys: nat, a: nat)
  {
    ph.kind == 1 && var k := OffsetIn(ph, base, phys, a); 0 <= k && (k < ph.fileSize || k < ph.memSize)
  }

  /** Header `i` is the last that does. */
  ghost predicate WritesLast(table: seq<ProgramHeader>, base: nat, phys: nat, i: int, a: nat)
  {
    0 <= i < |table| && Writes(table[i], base, phys, a) && forall j :: i < j < |table| ==> !Writes(table[j], base, phys, a)
  }

  /** `b` is what the header has at offset `k`: a byte of the file, or zero past its file bytes. */
  ghost predicate IsByteAt(data: seq<nat>, ph: ProgramHeader, k: int, b: nat)
  {
    0 <= k && if k < ph.fileSize then ph.offset + k < |data| && b == data[ph.offset + k] else b == 0
  }

  /** The image, read off the program headers and the file: each address holds what the last header for it says,
      and all others hold what they held. */
  ghost predicate ArrivesByHeader(before: Memory, after: Memory, data: seq<nat>, table: seq<ProgramHeader>, base: nat, phys: nat)
  {
    && (forall i, a: nat :: WritesLast(table, base, phys, i, a) ==>
          IsByteAt(data, table[i], OffsetIn(table[i], base, phys, a), Byte(after, a)))
    && (forall a: nat :: (forall i :: 0 <= i < |table| ==> !Writes(table[i], base, phys, a)) ==>
          Byte(after, a) == Byte(before, a))
  }

  lemma ImageByHeader(before: Memory, after: Memory, data: seq<nat>, table: seq<ProgramHeader>, info: ElfInfo, phys: nat)
    requires info.segments == Loadable(table) && Holds(before, after, data, info, phys)
    ensures ArrivesByHeader(before, after, data, table, info.loadBase, phys)
  {
    hide Loadable, ImageByte, Covers, FileBytes, Writes;
    forall i, a: nat | WritesLast(table, info.loadBase, phys, i, a)
      ensures IsByteAt(data, table[i], OffsetIn(table[i], info.loadBase, phys, a), Byte(after, a))
    {
      LastWriterDecides(before, data, table, info.loadBase, phys, i, a);
    }
    forall a: nat | forall i :: 0 <= i < |table| ==> !Writes(table[i], info.loadBase, phys, a)
      ensures Byte(after, a) == Byte(before, a)
    {
      UnwrittenStays(before, data, table, info.loadBase, phys, a);
    }
  }

  lemma {:induction false} LastWriterDecides(
      mem: Memory, data: seq<nat>, table: seq<ProgramHeader>, base: nat, phys: nat, i: nat, a: nat)
    requires forall j :: 0 <= j < |Loadable(table)| ==> base <= Loadable(table)[j].vaddr && InFile(data, Loadable(table)[j])
    requires WritesLast(table, base, phys, i, a)
    ensures IsByteAt(data, table[i], OffsetIn(table[i], base, phys, a), ImageByte(mem, data, Loadable(table), base, phys, a))
    decreases |table|
  {
    var n := |table| - 1;
    var shorter, segments := table[..n], Loadable(table);
    if table[n].kind == PT_LOAD {
      assert segments[..|segments| - 1] == Loadable(shorter) && segments[|segments| - 1] == SegmentOf(table[n]);
    }
    if i < n {
      assert !Writes(table[n], base, phys, a);
      LastWriterDecides(mem, data, shorter, base, phys, i, a);
    }
  }

  lemma {:induction false} UnwrittenStays(mem: Memory, data: seq<nat>, table: seq<ProgramHeader>, base: nat, phys: nat, a: nat)
    requires forall j :: 0 <= j < |Loadable(table)| ==> base <= Loadable(table)[j].vaddr && InFile(data, Loadable(table)[j])
    requires forall i :: 0 <= i < |table| ==> !Writes(table[i], base, phys, a)
    ensures ImageByte(mem, data, Loadable(table), base, phys, a) == Byte(mem, a)
    decreases |table|
  {
    if table != [] {
      var n := |table| - 1;
      var segments := Loadable(table);
      if table[n].kind == PT_LOAD {
        assert segments[..|segments| - 1] == Loadable(table[..n]) && segments[|segments| - 1] == SegmentOf(table[n]);
      }
      assert !Writes(table[n], base, phys, a);
      UnwrittenStays(mem, data, table[..n], base, phys, a);
    }
  }

  /** A loadable header's file bytes, if it has any, end within the file. */
  predicate BytesInFile(data: seq<nat>, ph: ProgramHeader)
  {
    ph.kind == 1 && ph.fileSize > 0 ==> ph.offset + ph.fileSize <= |data|
  }

  lemma InFileByHeader(data: seq<nat>, table: seq<ProgramHeader>)
    ensures (forall i :: 0 <= i < |Loadable(table)| ==> InFile(data, Loadable(table)[i])) <==>
            (forall i :: 0 <= i < |table| ==> BytesInFile(data, table[i]))
  {
    hide Loadable;
    var segments := Loadable(table);
    if forall i :: 0 <= i < |segments| ==> InFile(data, segments[i]) {
      forall i | 0 <= i < |table| && table[i].kind == 1 ensures BytesInFile(data, table[i]) {
        LoadableHas(table, i);
        var k :| 0 <= k < |segments| && segments[k] == SegmentOf(table[i]);
        assert InFile(data, segments[k]);
      }
    }
    if forall i :: 0 <= i < |table| ==> BytesInFile(data, table[i]) {
      forall i | 0 <= i < |segments| ensures InFile(data, segments[i]) {
        LoadableFrom(table, i);
        var k :| 0 <= k < |table| && table[k].kind == PT_LOAD && segments[i] == SegmentOf(table[k]);
        assert BytesInFile(data, table[k]);
      }
    }
  }

  /** Segments that do not overlap all arrive whole: file bytes first, zeros up to the memory size. */
  lemma {:induction false} DisjointSegmentsArrive(
      mem: Memory, data: seq<nat>, segments: seq<Segment>, base: nat, phys: nat, i: nat, k: nat)
    requires forall j :: 0 <= j < |segments| ==> base <= segments[j].vaddr && InFile(data, segments[j])
    requires i < |segments| && k < Extent(segments[i])
    requires forall j :: i < j < |segments| ==>
               !Covers(segments[j], base, phys, phys + (segments[i].vaddr - base) + k)
    ensures ImageByte(mem, data, segments, base, phys, phys + (segments[i].vaddr - base) + k)
            == SegmentByte(FileBytes(data, segments[i]), k)
    decreases |segments|
  {
    if i < |segments| - 1 {
      var shorter := segments[..|segments| - 1];
      forall j | 0 <= j < |shorter| ensures shorter[j] == segments[j] {}
      DisjointSegmentsArrive(mem, data, shorter, base, phys, i, k);
    }
  }

  /** What no segment covers is left alone. */
  lemma {:induction false} UncoveredStays(
      mem: Memory, data: seq<nat>, segments: seq<Segment>, base: nat, phys: nat, a: nat)
    requires forall j :: 0 <= j < |segments| ==> base <= segments[j].vaddr && InFile(data, segments[j])
    requires forall j :: 0 <= j < |segments| ==> !Covers(segments[j], base, phys, a)
    ensures ImageByte(mem, data, segments, base, phys, a) == Byte(mem, a)
    decreases |segments|
  {
    if segments != [] {
      UncoveredStays(mem, data, segments[..|segments| - 1], base, phys, a);
    }
  }

  /** Where some segment writes, what was there before does not matter. */
  lemma {:induction false} CoveredIsFixed(
      mem: Memory, mem': Memory, data: seq<nat>, segments: seq<Segment>, base: nat, phys: nat, a: nat, i: nat)
    requires forall j :: 0 <= j < |segments| ==> base <= segments[j].vaddr && InFile(data, segments[j])
    requires i < |segments| && Covers(segments[i], base, phys, a)
    ensures ImageByte(mem, data, segments, base, phys, a) == ImageByte(mem', data, segments, base, phys, a)
    decreases |segments|
  {
    if !Covers(segments[|segments| - 1], base, phys, a) {
      CoveredIsFixed(mem, mem', data, segments[..|segments| - 1], base, phys, a, i);
    }
  }

  // ----- what is written outside the hull

  /** The segment writes nothing, or ends within the hull. */
  ghost predicate Fits(info: ElfInfo, s: Segment)
  {
    Extent(s) == 0 || s.vaddr + Extent(s) <= info.loadBase + info.loadSize
  }

  /** The image leaves a byte outside the hull as it was. */
  ghost predicate KeepsOutside(mem: Memory, data: seq<nat>, info: ElfInfo, phys: nat, a: nat)
    requires forall i :: 0 <= i < |info.segments| ==> info.loadBase <= info.segments[i].vaddr && InFile(data, info.segments[i])
  {
    !(phys <= a < phys + info.loadSize) ==> ImageByte(mem, data, info.segments, info.loadBase, phys, a) == Byte(mem, a)
  }

  /** Placing the segments leaves all memory outside the hull alone, whatever it holds, if and only if no segment
      reaches past the hull. */
  lemma KeepsOutsideExactly(data: seq<nat>, info: ElfInfo, phys: nat)
    requires forall i :: 0 <= i < |info.segments| ==> info.loadBase <= info.segments[i].vaddr && InFile(data, info.segments[i])
    ensures (forall mem: Memory, a: nat :: KeepsOutside(mem, data, info, phys, a))
            <==> forall i :: 0 <= i < |info.segments| ==> Fits(info, info.segments[i])
  {
    if forall i :: 0 <= i < |info.segments| ==> Fits(info, info.segments[i]) {
      forall mem: Memory, a: nat ensures KeepsOutside(mem, data, info, phys, a) {
        FittingKeepsOutside(mem, data, info, phys, a);
      }
    } else {
      var i :| 0 <= i < |info.segments| && !Fits(info, info.segments[i]);
      var s := info.segments[i];
      var a := phys + (s.vaddr - info.loadBase) + Extent(s) - 1;
      var x := ImageByte(map[], data, info.segments, info.loadBase, phys, a);
      CoveredIsFixed(map[], map[a := x + 1], data, info.segments, info.loadBase, phys, a, i);
      assert !KeepsOutside(map[a := x + 1], data, info, phys, a);
    }
  }

  lemma FittingKeepsOutside(mem: Memory, data: seq<nat>, info: ElfInfo, phys: nat, a: nat)
    requires forall i :: 0 <= i < |info.segments| ==> info.loadBase <= info.segments[i].vaddr && InFile(data, info.segments[i])
    requires forall i :: 0 <= i < |info.segments| ==> Fits(info, info.segments[i])
    ensures KeepsOutside(mem, data, info, phys, a)
  {
    if !(phys <= a < phys + info.loadSize) {
      forall i | 0 <= i < |info.segments| ensures !Covers(info.segments[i], info.loadBase, phys, a) {
        assert Fits(info, info.segments[i]);
      }
      UncoveredStays(mem, data, info.segments, info.loadBase, phys, a);
    }
  }

  /** For segments that end below 2^64: a segment fits if and only if it has no more file bytes than memory, or
      its file bytes end within the hull all the same. */
  lemma FitsByHeader(info: ElfInfo, i: nat)
    requires IsImageHull(info) && i < |info.segments|
    requires forall j :: 0 <= j < |info.segments| ==> info.segments[j].vaddr + info.segments[j].memSize < TWO_64
    ensures var s := info.segments[i];
            Fits(info, s) <==> s.fileSize <= s.memSize || s.vaddr + s.fileSize <= info.loadBase + info.loadSize
  {
    HullStarts(info);
    hide IsImageHull;
    forall j | 0 <= j < |info.segments| ensures EndsBelow(info.segments[j]) {}
    PlainHull(info);
    assert PlainEnd(info.segments[i]) <= info.loadBase + info.loadSize;
  }

  /** A program header as the System V gABI wants it: no more file bytes than memory, all below 2^64. */
  predicate WellFormed(ph: ProgramHeader)
  {
    ph.fileSize <= ph.memSize && ph.vaddr + ph.memSize < TWO_64
  }

  lemma HullStarts(info: ElfInfo)
    requires IsImageHull(info)
    ensures forall i :: 0 <= i < |info.segments| ==> info.loadBase <= info.segments[i].vaddr
  {
  }

  lemma {:induction false} LoadableFrom(table: seq<ProgramHeader>, i: nat)
    requires i < |Loadable(table)|
    ensures exists k :: 0 <= k < |table| && table[k].kind == PT_LOAD && Loadable(table)[i] == SegmentOf(table[k])
    decreases |table|
  {
    var shorter := table[..|table| - 1];
    if i < |Loadable(shorter)| {
      LoadableFrom(shorter, i);
      var k :| 0 <= k < |shorter| && shorter[k].kind == PT_LOAD && Loadable(shorter)[i] == SegmentOf(shorter[k]);
      assert table[k] == shorter[k];
    } else {
      assert table[|table| - 1].kind == PT_LOAD;
    }
  }

  lemma WellFormedKeepsOutside(mem: Memory, data: seq<nat>, table: seq<ProgramHeader>, info: ElfInfo, phys: nat, a: nat)
    requires IsImageHull(info) && info.segments == Loadable(table)
    requires forall i :: 0 <= i < |table| && table[i].kind == PT_LOAD ==> WellFormed(table[i])
    requires forall i :: 0 <= i < |info.segments| ==> info.loadBase <= info.segments[i].vaddr && InFile(data, info.segments[i])
    ensures KeepsOutside(mem, data, info, phys, a)
  {
    hide IsImageHull, KeepsOutside, Loadable;
    forall i | 0 <= i < |info.segments|
      ensures info.segments[i].fileSize <= info.segments[i].memSize && info.segments[i].vaddr + info.segments[i].memSize < TWO_64
    {
      LoadableFrom(table, i);
    }
    forall i | 0 <= i < |info.segments| ensures Fits(info, info.segments[i]) {
      FitsByHeader(info, i);
    }
    FittingKeepsOutside(mem, data, info, phys, a);
  }

  /** A file of 5000 bytes with more file bytes than memory in its only segment: the parse accepts it, one page is
      room enough for its load size, and the load writes to the page after it. */
  lemma OverrunWritesOutside(data: seq<nat>, phys: nat) returns (h: Header, table: seq<ProgramHeader>, info: ElfInfo)
    requires |data| == 5000 && data[PAGE] != 0
    ensures table == [ProgramHeader(PT_LOAD, 0, 0, PAGE + 1, 1)] && |table| == h.phCount && IsU64(table[0])
    ensures IsHeader(h) && HeaderError(h, |data|) == [] && forall i: nat :: !StopsAt(h, table, |data|, i)
    ensures info.segments == Loadable(table) && IsImageHull(info) && info.entry == h.entry
    ensures info.loadBase == 0 && 0 < info.loadSize <= PAGE && |info.segments| == 1 && InFile(data, info.segments[0])
    ensures ImageByte(map[], data, info.segments, 0, phys, phys + PAGE) != Byte(map[], phys + PAGE)
  {
    h := Header([0x7f, 0x45, 0x4c, 0x46], 2, 1, MACHINE_X86_64, 0, HEADER_SIZE, 56, 1);
    table := [ProgramHeader(PT_LOAD, 0, 0, PAGE + 1, 1)];
    var segment := Segment(0, PAGE + 1, 0, 1);
    info := ElfInfo(0, 0, 1, [segment]);
    OneLoadable(table[0]);
    OneHull(info, segment);
    assert forall i: nat :: !StopsAt(h, table, |data|, i) by {
      assert table[..0] == [];
    }
    hide Loadable, IsImageHull, ImageByte;
    DisjointSegmentsArrive(map[], data, info.segments, 0, phys, 0, PAGE);
  }

  lemma OneLoadable(ph: ProgramHeader)
    requires ph.kind == PT_LOAD
    ensures Loadable([ph]) == [SegmentOf(ph)]
  {
    assert [ph][..0] == [];
    assert Loadable([]) == [];
  }

  lemma OneHull(info: ElfInfo, s: Segment)
    requires info.segments == [s] && info.loadBase == s.vaddr && s.vaddr + info.loadSize == End(s) && info.loadSize < TWO_64
    ensures IsImageHull(info)
  {
    assert info.segments[0] == s;
    assert IsHull(info.segments, info.loadBase, End(s));
  }
}
