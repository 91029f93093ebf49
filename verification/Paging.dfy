/**
 Four-level x86-64 page tables in physical memory (section 4.5 of the Intel SDM, volume 3A), and what
 linking one more frame into them does.
 */
module Paging {
  import opened Basics

  /** A page-table entry, field by field; `other` holds the bits no walk looks at. */
  datatype Entry = Entry(
    addr: nat,
    present: bool,
    writable: bool,
    user: bool,
    huge: bool,
    global: bool,
    noExecute: bool,
    other: nat)

  const PHYS_MAP_BASE := 0xFFFF_8000_0000_0000

  const EMPTY_ENTRY := Entry(0, false, false, false, false, false, false, 0)

  /** Physical memory: each 4 KiB frame, named by its address, as 512 eight-byte words. */
  type Memory = map<nat, seq<Entry>>

  const ENTRIES := 512
  const LARGE := 0x20_0000
  const GIANT := 0x4000_0000
  const SLOT := 0x80_0000_0000

  function ZeroFrame(): seq<Entry> { seq(ENTRIES, _ => EMPTY_ENTRY) }

  /** The word at index `i` of table `t`; nothing is mapped through frames outside memory. */
  function Read(mem: Memory, t: nat, i: nat): Entry
  {
    if t in mem && i < |mem[t]| then mem[t][i] else EMPTY_ENTRY
  }

  /** A slot of the tree: the indices walked through, top level first. */
  type Path = seq<nat>

  /** An entry reached by `n` indices leads on to a frame: bit 7 ends the walk at the middle levels only. */
  predicate Points(n: nat, e: Entry)
  {
    e.present && !((n == 2 || n == 3) && e.huge)
  }

  /** The frame a walk arrives at: a table after fewer than four indices, a data page after four. */
  function FrameAt(mem: Memory, root: nat, p: Path): Option<nat>
  {
    if p == [] then Some(root)
    else
      match FrameAt(mem, root, p[..|p| - 1])
      case None => None
      case Some(t) =>
        var e := Read(mem, t, p[|p| - 1]);
        if Points(|p|, e) then Some(e.addr) else None
  }

  /** The entry in slot `p`, all zero when the walk never gets there. */
  function EntryAt(mem: Memory, root: nat, p: Path): Entry
    requires p != []
  {
    match FrameAt(mem, root, p[..|p| - 1])
    case None => EMPTY_ENTRY
    case Some(t) => Read(mem, t, p[|p| - 1])
  }

  /** No table is linked twice, and every table lies in memory. */
  ghost predicate Tree(mem: Memory, root: nat)
  {
    && (forall p :: |p| <= 3 && FrameAt(mem, root, p).Some? ==> IsTable(mem, FrameAt(mem, root, p).value))
    && (forall p, q :: |p| <= 3 && |q| <= 3 && SameFrame(mem, root, p, q) ==> p == q)
  }

  ghost predicate SameFrame(mem: Memory, root: nat, p: Path, q: Path)
  {
    FrameAt(mem, root, p).Some? && FrameAt(mem, root, p) == FrameAt(mem, root, q)
  }

  predicate IsTable(mem: Memory, t: nat)
  {
    t in mem && |mem[t]| == ENTRIES
  }

  /** Frame `f` is reachable from the root as a table or as a 4 KiB page. */
  ghost predicate Reachable(mem: Memory, root: nat, f: nat)
  {
    exists p :: |p| <= 4 && FrameAt(mem, root, p) == Some(f)
  }

  /** A walk that gets deep got through every level above. */
  lemma {:induction false} PrefixSome(mem: Memory, root: nat, v: Path, j: nat, k: nat)
    requires j <= k <= |v| && FrameAt(mem, root, v[..k]).Some?
    ensures FrameAt(mem, root, v[..j]).Some?
  {
    if j < k {
      var q := v[..k];
      assert q[..|q| - 1] == v[..k - 1];
      PrefixSome(mem, root, v, j, k - 1);
    }
  }

  lemma SlotPoints(mem: Memory, root: nat, q: Path)
    requires q != [] && FrameAt(mem, root, q).Some?
    ensures Points(|q|, EntryAt(mem, root, q)) && FrameAt(mem, root, q) == Some(EntryAt(mem, root, q).addr)
  {
  }

  // ----- addresses

  function IndexOf(va: nat, level: nat): (i: nat)
    requires level < 4
    ensures i < ENTRIES
  {
    if level == 0 then (va / SLOT) % 512
    else if level == 1 then (va / GIANT) % 512
    else if level == 2 then (va / LARGE) % 512
    else (va / PAGE) % 512
  }

  /** The four indices of a virtual address, nine bits each from bit 47 down to bit 12. */
  function PathOf(va: nat): (p: Path)
    ensures |p| == 4
  {
    [IndexOf(va, 0), IndexOf(va, 1), IndexOf(va, 2), IndexOf(va, 3)]
  }

  /** Where the hardware walk for an address ends. */
  datatype Leaf = Unmapped | Page1G(entry: Entry) | Page2M(entry: Entry) | Page4K(entry: Entry)

  function Walk(mem: Memory, root: nat, v: Path): Leaf
    requires |v| == 4
  {
    if !EntryAt(mem, root, v[..1]).present then Unmapped
    else if !EntryAt(mem, root, v[..2]).present then Unmapped
    else if EntryAt(mem, root, v[..2]).huge then Page1G(EntryAt(mem, root, v[..2]))
    else if !EntryAt(mem, root, v[..3]).present then Unmapped
    else if EntryAt(mem, root, v[..3]).huge then Page2M(EntryAt(mem, root, v[..3]))
    else if !EntryAt(mem, root, v).present then Unmapped
    else Page4K(EntryAt(mem, root, v))
  }

  /** The physical address a virtual address translates to. */
  function Translate(mem: Memory, root: nat, va: nat): Option<nat>
  {
    Physical(Walk(mem, root, PathOf(va)), va)
  }

  function Physical(leaf: Leaf, va: nat): Option<nat>
  {
    match leaf
    case Unmapped => None
    case Page1G(e) => Some(e.addr - e.addr % GIANT + va % GIANT)
    case Page2M(e) => Some(e.addr - e.addr % LARGE + va % LARGE)
    case Page4K(e) => Some(e.addr - e.addr % PAGE + va % PAGE)
  }

  /** Two addresses share a path exactly when they lie in the same page of the 48-bit address space. */
  lemma PathsDiffer(a: nat, b: nat)
    ensures PathOf(a) == PathOf(b) <==> (a / PAGE) % 0x10_0000_0000 == (b / PAGE) % 0x10_0000_0000
  {
    hide IndexOf;
    Recompose(a);
    Recompose(b);
    var p, q := PathOf(a), PathOf(b);
    SameDigits(p[0], p[1], p[2], p[3], q[0], q[1], q[2], q[3]);
  }

  lemma SameDigits(a: nat, b: nat, c: nat, d: nat, a': nat, b': nat, c': nat, d': nat)
    requires b < 512 && c < 512 && d < 512 && b' < 512 && c' < 512 && d' < 512
    ensures ((a * 512 + b) * 512 + c) * 512 + d == ((a' * 512 + b') * 512 + c') * 512 + d'
       <==> a == a' && b == b' && c == c' && d == d'
  {
  }

  lemma Recompose(va: nat)
    ensures (va / PAGE) % 0x10_0000_0000
         == ((IndexOf(va, 0) * 512 + IndexOf(va, 1)) * 512 + IndexOf(va, 2)) * 512 + IndexOf(va, 3)
  {
    var n := va / PAGE;
    assert va / LARGE == n / 512;
    assert va / GIANT == n / 0x4_0000;
    assert va / SLOT == n / 0x800_0000;
    Digits(n);
  }

  lemma {:induction false} Digits(n: nat)
    ensures n % 0x10_0000_0000
         == ((n / 0x800_0000 % 512 * 512 + n / 0x4_0000 % 512) * 512 + n / 512 % 512) * 512 + n % 512
  {
    var a, b, c := n / 512, n / 0x4_0000, n / 0x800_0000;
    assert b == a / 512 && c == b / 512;
    LastOfFour(n);
    LastOfThree(a);
    LastOfTwo(b);
  }

  // a remainder splits into the last base-512 digit and the remainder of the rest

  lemma LastOfFour(n: nat)
    ensures n % 0x10_0000_0000 == n / 512 % 0x800_0000 * 512 + n % 512
  {
    var a, d := n / 512, n % 512;
    RemainderOfFour(n, a / 0x800_0000, a % 0x800_0000 * 512 + d);
  }

  lemma LastOfThree(n: nat)
    ensures n % 0x800_0000 == n / 512 % 0x4_0000 * 512 + n % 512
  {
    var a, d := n / 512, n % 512;
    RemainderOfThree(n, a / 0x4_0000, a % 0x4_0000 * 512 + d);
  }

  lemma LastOfTwo(n: nat)
    ensures n % 0x4_0000 == n / 512 % 512 * 512 + n % 512
  {
    var a, d := n / 512, n % 512;
    RemainderOfTwo(n, a / 512, a % 512 * 512 + d);
  }

  lemma RemainderOfFour(n: nat, q: nat, r: nat)
    requires n == q * 0x10_0000_0000 + r && r < 0x10_0000_0000
    ensures n % 0x10_0000_0000 == r
  {
  }

  lemma RemainderOfThree(n: nat, q: nat, r: nat)
    requires n == q * 0x800_0000 + r && r < 0x800_0000
    ensures n % 0x800_0000 == r
  {
  }

  lemma RemainderOfTwo(n: nat, q: nat, r: nat)
    requires n == q * 0x4_0000 + r && r < 0x4_0000
    ensures n % 0x4_0000 == r
  {
  }

  // ----- linking a frame

  /** `f` becomes all zero and slot `v[..k + 1]` of the tree becomes `e`. */
  function Linked(mem: Memory, t: nat, i: nat, f: nat, e: Entry): Memory
    requires IsTable(mem, t) && i < ENTRIES
  {
    mem[f := ZeroFrame()][t := mem[t][i := e]]
  }

  ghost predicate CanLink(mem: Memory, root: nat, v: Path, k: nat, t: nat, f: nat, e: Entry)
  {
    && Tree(mem, root)
    && k < 4 <= |v|
    && v[k] < ENTRIES
    && FrameAt(mem, root, v[..k]) == Some(t)
    && !EntryAt(mem, root, v[..k + 1]).present
    && !Reachable(mem, root, f)
    && e.present && !e.huge && e.addr == f
  }

  lemma {:induction false} LinkedFrames(mem: Memory, root: nat, v: Path, k: nat, t: nat, f: nat, e: Entry, q: Path)
    requires CanLink(mem, root, v, k, t, f, e)
    requires |q| <= 4
    ensures FrameAt(Linked(mem, t, v[k], f, e), root, q) == if q == v[..k + 1] then Some(f) else FrameAt(mem, root, q)
  {
    var mem' := Linked(mem, t, v[k], f, e);
    if q != [] {
      var p, x := q[..|q| - 1], q[|q| - 1];
      LinkedFrames(mem, root, v, k, t, f, e, p);
      assert q == p + [x];
      assert v[..k + 1] == v[..k] + [v[k]];
      if p == v[..k + 1] {
        assert FrameAt(mem, root, p).None?;
      } else if FrameAt(mem, root, p).Some? {
        var u := FrameAt(mem, root, p).value;
        assert Reachable(mem, root, u);
        if u == t {
          assert SameFrame(mem, root, p, v[..k]);
        }
      }
    }
  }

  lemma LinkedEntries(mem: Memory, root: nat, v: Path, k: nat, t: nat, f: nat, e: Entry, q: Path)
    requires CanLink(mem, root, v, k, t, f, e)
    requires 1 <= |q| <= 4
    ensures EntryAt(Linked(mem, t, v[k], f, e), root, q) == if q == v[..k + 1] then e else EntryAt(mem, root, q)
  {
    var mem' := Linked(mem, t, v[k], f, e);
    var p, x := q[..|q| - 1], q[|q| - 1];
    LinkedFrames(mem, root, v, k, t, f, e, p);
    assert q == p + [x];
    assert v[..k + 1] == v[..k] + [v[k]];
    if p == v[..k + 1] {
      assert FrameAt(mem, root, p).None?;
    } else if FrameAt(mem, root, p).Some? {
      var u := FrameAt(mem, root, p).value;
      assert Reachable(mem, root, u);
      if u == t {
        assert SameFrame(mem, root, p, v[..k]);
      }
    }
  }

  /** Linking a frame that no walk could reach keeps the tree a tree. */
  lemma LinkedTree(mem: Memory, root: nat, v: Path, k: nat, t: nat, f: nat, e: Entry)
    requires CanLink(mem, root, v, k, t, f, e)
    ensures Tree(Linked(mem, t, v[k], f, e), root)
  {
    var mem' := Linked(mem, t, v[k], f, e);
    forall p | |p| <= 3 ensures FrameAt(mem', root, p) == if p == v[..k + 1] then Some(f) else FrameAt(mem, root, p) {
      LinkedFrames(mem, root, v, k, t, f, e, p);
    }
    forall p, q | |p| <= 3 && |q| <= 3 && SameFrame(mem', root, p, q) ensures p == q {
      if p != v[..k + 1] && q != v[..k + 1] {
        assert SameFrame(mem, root, p, q);
      }
    }
    forall p | |p| <= 3 && FrameAt(mem', root, p).Some? ensures IsTable(mem', FrameAt(mem', root, p).value) {
      if p != v[..k + 1] { assert IsTable(mem, FrameAt(mem, root, p).value); }
    }
  }

  /** The walk as a chain of reads. */
  lemma WalkByReads(mem: Memory, root: nat, v: Path)
    requires |v| == 4
    ensures Walk(mem, root, v) ==
            var e0 := Read(mem, root, v[0]);
            if !e0.present then Unmapped else
            var e1 := Read(mem, e0.addr, v[1]);
            if !e1.present then Unmapped else if e1.huge then Page1G(e1) else
            var e2 := Read(mem, e1.addr, v[2]);
            if !e2.present then Unmapped else if e2.huge then Page2M(e2) else
            var e3 := Read(mem, e2.addr, v[3]);
            if !e3.present then Unmapped else Page4K(e3)
  {
    assert v[..1][..0] == [] && v[..2][..1] == v[..1] && v[..3][..2] == v[..2] && v[..|v| - 1] == v[..3];
    assert FrameAt(mem, root, v[..1][..0]) == Some(root);
    assert EntryAt(mem, root, v[..1]) == Read(mem, root, v[0]);
    if EntryAt(mem, root, v[..1]).present {
      assert FrameAt(mem, root, v[..1]) == Some(EntryAt(mem, root, v[..1]).addr);
      assert EntryAt(mem, root, v[..2]) == Read(mem, EntryAt(mem, root, v[..1]).addr, v[1]);
      if Points(2, EntryAt(mem, root, v[..2])) {
        assert FrameAt(mem, root, v[..2]) == Some(EntryAt(mem, root, v[..2]).addr);
        assert EntryAt(mem, root, v[..3]) == Read(mem, EntryAt(mem, root, v[..2]).addr, v[2]);
        if Points(3, EntryAt(mem, root, v[..3])) {
          assert FrameAt(mem, root, v[..3]) == Some(EntryAt(mem, root, v[..3]).addr);
        }
      }
    }
  }

  /** Translation spelled out on the address's bits: nine for each level, from bit 39 down to bit 12, and the rest, or
      the lower 30 or 21 bits under a large page, as the offset. */
  lemma TranslateByBits(mem: Memory, root: nat, va: nat)
    ensures Translate(mem, root, va) ==
            var e0 := Read(mem, root, va / 0x80_0000_0000 % 512);
            if !e0.present then None else
            var e1 := Read(mem, e0.addr, va / 0x4000_0000 % 512);
            if !e1.present then None else if e1.huge then Some(e1.addr / 0x4000_0000 * 0x4000_0000 + va % 0x4000_0000) else
            var e2 := Read(mem, e1.addr, va / 0x20_0000 % 512);
            if !e2.present then None else if e2.huge then Some(e2.addr / 0x20_0000 * 0x20_0000 + va % 0x20_0000) else
            var e3 := Read(mem, e2.addr, va / 0x1000 % 512);
            if !e3.present then None else Some(e3.addr / 0x1000 * 0x1000 + va % 0x1000)
  {
    WalkByReads(mem, root, PathOf(va));
    hide Walk;
  }

  /** `read_pte_value`: the last-level entry as it is, present or not, if its table is there. */
  function ReadPteValue(mem: Memory, root: nat, va: nat): Option<Entry>
  {
    var e0 := Read(mem, root, IndexOf(va, 0));
    if !e0.present then None else
    var e1 := Read(mem, e0.addr, IndexOf(va, 1));
    if !e1.present || e1.huge then None else
    var e2 := Read(mem, e1.addr, IndexOf(va, 2));
    if !e2.present || e2.huge then None else
    Some(Read(mem, e2.addr, IndexOf(va, 3)))
  }

  /** There is a value exactly when the walk has a last-level table, and then it is that slot's entry; the page is
      mapped at 4 KiB exactly when the entry is present. */
  lemma ReadPteValueExact(mem: Memory, root: nat, va: nat)
    ensures var v := PathOf(va);
            && ReadPteValue(mem, root, va) ==
               (if FrameAt(mem, root, v[..3]).Some? then Some(EntryAt(mem, root, v)) else None)
            && (Walk(mem, root, v).Page4K? <==> ReadPteValue(mem, root, va).Some? && ReadPteValue(mem, root, va).value.present)
  {
    hide IndexOf;
    var v := PathOf(va);
    WalkByReads(mem, root, v);
    assert v[..1][..0] == [] && v[..2][..1] == v[..1] && v[..3][..2] == v[..2] && v[..|v| - 1] == v[..3];
    assert FrameAt(mem, root, []) == Some(root);
    assert FrameAt(mem, root, v[..1]) == (if Read(mem, root, v[0]).present then Some(Read(mem, root, v[0]).addr) else None);
  }
}
