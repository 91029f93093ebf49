/** Page-fault handlers that walk the tables and allocate what is missing: demand paging and stack growth. */
module Faults {
  import opened Basics
  import opened Paging

  /** Slot `q` is one of the `n` slots below depth `d` on the way to `v`. */
  ghost predicate NewSlot(v: Path, d: nat, n: nat, q: Path)
    requires |v| == 4
  {
    d < |q| <= d + n && |q| <= 4 && q == v[..|q|]
  }

  /** The entry of a freshly linked table. */
  function TableEntry(f: nat): Entry { Entry(f, true, true, true, false, false, false, 0) }

  /** It leads to table `f` and takes no right away: writable, for user code, executable, and nothing else set. */
  predicate LinksTable(e: Entry, f: nat)
  {
    e.present && e.addr == f && e.writable && e.user && !e.noExecute && !e.huge && !e.global && e.other == 0
  }

  /** What happened to slot `q`: a new one leads to its taken frame, any other is as before. */
  ghost predicate GrewAt(mem: Memory, mem': Memory, root: nat, v: Path, d: nat, taken: seq<nat>, q: Path)
    requires |v| == 4 && d + |taken| <= 4
  {
    if NewSlot(v, d, |taken|, q) then
      && FrameAt(mem', root, q) == Some(taken[|q| - d - 1])
      && EntryAt(mem', root, q).present && !EntryAt(mem', root, q).huge
      && (|q| < 4 ==> LinksTable(EntryAt(mem', root, q), taken[|q| - d - 1]))
    else
      && FrameAt(mem', root, q) == FrameAt(mem, root, q)
      && (q != [] ==> EntryAt(mem', root, q) == EntryAt(mem, root, q))
  }

  /** The walk to `v` used to stop at depth `d`; now the frames `taken` hang below, one per level, and no
      other slot of the tree changed. */
  ghost predicate Grew(mem: Memory, mem': Memory, root: nat, v: Path, d: nat, taken: seq<nat>)
    requires |v| == 4
  {
    && d + |taken| <= 4
    && forall q :: |q| <= 4 ==> GrewAt(mem, mem', root, v, d, taken, q)
  }

  /** The walk to `v` gets exactly `d` levels deep. */
  ghost predicate StopsAt(mem: Memory, root: nat, v: Path, d: nat)
    requires |v| == 4
  {
    && d <= 4
    && FrameAt(mem, root, v[..d]).Some?
    && (d < 4 ==> FrameAt(mem, root, v[..d + 1]).None?)
  }

  /** A handler part-way down: it stands at table `t`. */
  ghost predicate Progress(mem0: Memory, mem: Memory, root: nat, v: Path, d: nat, taken: seq<nat>, t: nat)
    requires |v| == 4
  {
    && Tree(mem, root)
    && Grew(mem0, mem, root, v, d, taken)
    && FrameAt(mem, root, v[..d + |taken|]) == Some(t)
    && FrameAt(mem0, root, v[..d]).Some?
    && (taken != [] ==> !EntryAt(mem0, root, v[..d + 1]).present)
  }

  /** Following a table that was there before the fault. */
  lemma ProgressFollow(mem0: Memory, mem: Memory, root: nat, v: Path, d: nat, taken: seq<nat>, t: nat, e: Entry)
    requires |v| == 4 && d + |taken| < 4
    requires Progress(mem0, mem, root, v, d, taken, t)
    requires e == Read(mem, t, v[d + |taken|]) && Points(d + |taken| + 1, e)
    ensures taken == [] && Progress(mem0, mem, root, v, d + 1, [], e.addr)
  {
    var k := d + |taken|;
    var q := v[..k + 1];
    assert q[..|q| - 1] == v[..k];
    assert FrameAt(mem, root, q) == Some(e.addr);
    hide FrameAt, Read, Points, Tree;
    assert GrewAt(mem0, mem, root, v, d, taken, q);
    assert FrameAt(mem0, root, q) == Some(e.addr);
    PrefixSome(mem0, root, v, d + 1, k + 1);
    SlotPresent(mem0, root, v[..d + 1]);
    assert Grew(mem0, mem, root, v, d + 1, []) by { GrewNothing(mem0, mem, root, v, d, d + 1); }
  }

  lemma SlotPresent(mem: Memory, root: nat, q: Path)
    requires q != [] && FrameAt(mem, root, q).Some?
    ensures EntryAt(mem, root, q).present
  {
  }

  lemma GrewNothing(mem0: Memory, mem: Memory, root: nat, v: Path, d: nat, d': nat)
    requires |v| == 4 && d' <= 4 && Grew(mem0, mem, root, v, d, [])
    ensures Grew(mem0, mem, root, v, d', [])
  {
  }

  /** Linking a fresh frame below the table in hand. */
  lemma ProgressLink(mem0: Memory, mem: Memory, root: nat, v: Path, d: nat, taken: seq<nat>, t: nat, f: nat, e: Entry)
    requires |v| == 4 && d + |taken| < 4
    requires Progress(mem0, mem, root, v, d, taken, t)
    requires CanLink(mem, root, v, d + |taken|, t, f, e)
    requires d + |taken| < 3 ==> LinksTable(e, f)
    ensures Progress(mem0, Linked(mem, t, v[d + |taken|], f, e), root, v, d, taken + [f], f)
  {
    var k := d + |taken|;
    var mem' := Linked(mem, t, v[k], f, e);
    LinkedTree(mem, root, v, k, t, f, e);
    GrewLink(mem0, mem, root, v, d, taken, t, f, e);
    LinkedFrames(mem, root, v, k, t, f, e, v[..k + 1]);
    if taken == [] {
      var q := v[..k + 1];
      assert q[..|q| - 1] == v[..k];
      assert GrewAt(mem0, mem, root, v, d, taken, q);
      assert EntryAt(mem0, root, q) == EntryAt(mem, root, q);
    }
  }

  lemma GrewLink(mem0: Memory, mem: Memory, root: nat, v: Path, d: nat, taken: seq<nat>, t: nat, f: nat, e: Entry)
    requires |v| == 4 && d + |taken| < 4
    requires Grew(mem0, mem, root, v, d, taken)
    requires CanLink(mem, root, v, d + |taken|, t, f, e)
    requires d + |taken| < 3 ==> LinksTable(e, f)
    ensures Grew(mem0, Linked(mem, t, v[d + |taken|], f, e), root, v, d, taken + [f])
  {
    var k := d + |taken|;
    var mem' := Linked(mem, t, v[k], f, e);
    hide Tree, Reachable, FrameAt, EntryAt, Linked;
    forall q | |q| <= 4 ensures GrewAt(mem0, mem', root, v, d, taken + [f], q) {
      assert GrewAt(mem0, mem, root, v, d, taken, q);
      LinkedFrames(mem, root, v, k, t, f, e, q);
      if q != [] { LinkedEntries(mem, root, v, k, t, f, e, q); }
    }
  }

  // ----- a descent, with its allocator

  /** What the allocator promises: its free frames exist and nothing maps them. */
  ghost predicate FreeUnmapped(mem: Memory, root: nat, free: set<nat>)
  {
    forall f :: f in free ==> IsTable(mem, f) && !Reachable(mem, root, f)
  }

  /** Contents: the taken frames and the one table they hang from aside, no frame's words changed. */
  ghost predicate OthersKept(mem0: Memory, mem: Memory, root: nat, v: Path, d: nat, taken: seq<nat>)
    requires |v| == 4 && d <= 4
  {
    && mem.Keys == mem0.Keys
    && forall f :: f in mem0 && f !in taken && (taken == [] || FrameAt(mem0, root, v[..d]) != Some(f)) ==> mem[f] == mem0[f]
  }

  ghost predicate Accounts(free0: set<nat>, free: set<nat>, taken: seq<nat>)
  {
    && Distinct(taken)
    && (forall f :: f in taken ==> f in free0)
    && (forall f :: f in free <==> f in free0 && f !in taken)
  }

  ghost predicate Descent(mem0: Memory, free0: set<nat>, mem: Memory, free: set<nat>,
                          root: nat, v: Path, d: nat, taken: seq<nat>, t: nat)
    requires |v| == 4
  {
    && Progress(mem0, mem, root, v, d, taken, t)
    && Accounts(free0, free, taken)
    && FreeUnmapped(mem, root, free)
    && OthersKept(mem0, mem, root, v, d, taken)
  }

  lemma DescentStart(mem: Memory, free: set<nat>, root: nat, v: Path)
    requires |v| == 4 && Tree(mem, root) && FreeUnmapped(mem, root, free)
    ensures Descent(mem, free, mem, free, root, v, 0, [], root)
  {
  }

  lemma DescentFollow(mem0: Memory, free0: set<nat>, mem: Memory, free: set<nat>,
                      root: nat, v: Path, d: nat, taken: seq<nat>, t: nat, e: Entry)
    requires |v| == 4 && d + |taken| < 4
    requires Descent(mem0, free0, mem, free, root, v, d, taken, t)
    requires e == Read(mem, t, v[d + |taken|]) && Points(d + |taken| + 1, e)
    ensures taken == [] && Descent(mem0, free0, mem, free, root, v, d + 1, [], e.addr)
  {
    hide Tree, FreeUnmapped, Grew, FrameAt;
    ProgressFollow(mem0, mem, root, v, d, taken, t, e);
  }

  lemma LinkKeepsFree(mem: Memory, root: nat, v: Path, k: nat, t: nat, f: nat, e: Entry, free: set<nat>)
    requires CanLink(mem, root, v, k, t, f, e) && FreeUnmapped(mem, root, free) && f in free
    ensures FreeUnmapped(Linked(mem, t, v[k], f, e), root, free - {f})
  {
    var mem' := Linked(mem, t, v[k], f, e);
    forall g | g in free - {f} ensures IsTable(mem', g) && !Reachable(mem', root, g) {
      assert g != t by { assert Reachable(mem, root, t); }
      if Reachable(mem', root, g) {
        var p :| |p| <= 4 && FrameAt(mem', root, p) == Some(g);
        LinkedFrames(mem, root, v, k, t, f, e, p);
        assert false;
      }
    }
  }

  lemma DescentLink(mem0: Memory, free0: set<nat>, mem: Memory, free: set<nat>,
                    root: nat, v: Path, d: nat, taken: seq<nat>, t: nat, f: nat, e: Entry)
    requires |v| == 4 && d + |taken| < 4 && v[d + |taken|] < ENTRIES
    requires Descent(mem0, free0, mem, free, root, v, d, taken, t)
    requires f in free && IsTable(mem, t)
    requires !Read(mem, t, v[d + |taken|]).present
    requires e.present && !e.huge && e.addr == f
    requires d + |taken| < 3 ==> LinksTable(e, f)
    ensures Descent(mem0, free0, Linked(mem, t, v[d + |taken|], f, e), free - {f}, root, v, d, taken + [f], f)
  {
    LinkHere(mem0, mem, root, v, d, taken, t, f, e, free);
    ProgressLink(mem0, mem, root, v, d, taken, t, f, e);
    LinkKeepsFree(mem, root, v, d + |taken|, t, f, e, free);
    HangsFrom(mem0, mem, root, v, d, taken, t);
    LinkKeepsOthers(mem0, mem, root, v, d, taken, t, v[d + |taken|], f, e);
    AccountsStep(free0, free, taken, f);
    hide Progress, FreeUnmapped, OthersKept, CanLink, Linked, Accounts;
  }

  lemma LinkHere(mem0: Memory, mem: Memory, root: nat, v: Path, d: nat, taken: seq<nat>, t: nat, f: nat, e: Entry, free: set<nat>)
    requires |v| == 4 && d + |taken| < 4 && v[d + |taken|] < ENTRIES
    requires Progress(mem0, mem, root, v, d, taken, t)
    requires FreeUnmapped(mem, root, free) && f in free
    requires !Read(mem, t, v[d + |taken|]).present
    requires e.present && !e.huge && e.addr == f
    ensures CanLink(mem, root, v, d + |taken|, t, f, e)
  {
    hide Tree, Grew, Reachable;
    var k := d + |taken|;
    var q := v[..k + 1];
    assert q[..|q| - 1] == v[..k];
  }

  lemma AccountsStep(free0: set<nat>, free: set<nat>, taken: seq<nat>, f: nat)
    requires Accounts(free0, free, taken) && f in free
    ensures Accounts(free0, free - {f}, taken + [f])
  {
  }

  lemma HangsFrom(mem0: Memory, mem: Memory, root: nat, v: Path, d: nat, taken: seq<nat>, t: nat)
    requires |v| == 4
    requires Progress(mem0, mem, root, v, d, taken, t)
    ensures if taken == [] then FrameAt(mem0, root, v[..d]) == Some(t) else t in taken
  {
  }

  lemma LinkKeepsOthers(mem0: Memory, mem: Memory, root: nat, v: Path, d: nat, taken: seq<nat>, t: nat, i: nat, f: nat, e: Entry)
    requires |v| == 4 && d <= 4
    requires OthersKept(mem0, mem, root, v, d, taken)
    requires if taken == [] then FrameAt(mem0, root, v[..d]) == Some(t) else t in taken
    requires IsTable(mem, t) && i < ENTRIES && f in mem
    ensures OthersKept(mem0, Linked(mem, t, i, f, e), root, v, d, taken + [f])
  {
  }

  /** The slot the descent looks at next lies inside a table of the tree. */
  lemma DescentTable(mem0: Memory, free0: set<nat>, mem: Memory, free: set<nat>,
                     root: nat, v: Path, d: nat, taken: seq<nat>, t: nat)
    requires |v| == 4 && d + |taken| < 4
    requires Descent(mem0, free0, mem, free, root, v, d, taken, t)
    ensures IsTable(mem, t)
    ensures forall f :: f in free ==> IsTable(mem, f) && f != t
  {
  }

  // ----- the whole handler's effect

  /** The hardware walk to `v` is cut short at depth `d` by a large page or by bit 7 of an absent entry. */
  ghost predicate BlockedAt(mem: Memory, root: nat, v: Path, d: nat)
    requires |v| == 4
  {
    (d == 1 || d == 2) && EntryAt(mem, root, v[..d + 1]).huge
  }

  /** One fault at `v`: the walk stopped at depth `d` and the frames `taken` now fill the levels below. */
  ghost predicate FaultEffect(mem0: Memory, free0: set<nat>, mem: Memory, free: set<nat>,
                              root: nat, v: Path, d: nat, taken: seq<nat>)
    requires |v| == 4
  {
    && StopsAt(mem0, root, v, d)
    && Grew(mem0, mem, root, v, d, taken)
    && (taken != [] ==> !EntryAt(mem0, root, v[..d + 1]).present)
    && Tree(mem, root)
    && Accounts(free0, free, taken)
    && FreeUnmapped(mem, root, free)
    && OthersKept(mem0, mem, root, v, d, taken)
  }

  /** A descent that ends at a slot leading nowhere has found how deep the walk used to go. */
  lemma DescentEnds(mem0: Memory, free0: set<nat>, mem: Memory, free: set<nat>,
                    root: nat, v: Path, d: nat, taken: seq<nat>, t: nat)
    requires |v| == 4
    requires Descent(mem0, free0, mem, free, root, v, d, taken, t)
    requires d + |taken| < 4 ==> !Points(d + |taken| + 1, Read(mem, t, v[d + |taken|]))
    ensures FaultEffect(mem0, free0, mem, free, root, v, d, taken)
    ensures d + |taken| < 4 ==> EntryAt(mem, root, v[..d + |taken| + 1]) == Read(mem, t, v[d + |taken|])
  {
    hide Tree, FreeUnmapped, OthersKept, Accounts;
    var k := d + |taken|;
    if k < 4 {
      var q := v[..k + 1];
      assert q[..|q| - 1] == v[..k];
      assert FrameAt(mem, root, q).None?;
      assert GrewAt(mem0, mem, root, v, d, taken, q);
    }
    if taken == [] && d < 4 {
      assert FrameAt(mem0, root, v[..d + 1]).None?;
    }
  }

  // ----- what a fault means for address translation

  /** Below depth `d` the tree used to be empty, so every slot there read as zero. */
  lemma SlotZero(mem: Memory, root: nat, v: Path, d: nat, q: Path)
    requires |v| == 4 && StopsAt(mem, root, v, d)
    requires d + 1 < |q| <= 4 && q[..d + 1] == v[..d + 1]
    ensures EntryAt(mem, root, q) == EMPTY_ENTRY
  {
    var p := q[..|q| - 1];
    assert p == p[..|p|] && p[..d + 1] == v[..d + 1];
    if FrameAt(mem, root, p).Some? {
      PrefixSome(mem, root, p, d + 1, |p|);
    }
  }

  /** Every page other than the faulting one translates as before, and so does that one when the fault
      could not be resolved. */
  lemma OtherPagesKeep(mem0: Memory, mem: Memory, root: nat, v: Path, d: nat, taken: seq<nat>, w: Path)
    requires |v| == 4 && |w| == 4
    requires StopsAt(mem0, root, v, d) && Grew(mem0, mem, root, v, d, taken)
    requires taken != [] ==> !EntryAt(mem0, root, v[..d + 1]).present
    requires w != v || d + |taken| < 4 || taken == []
    ensures Walk(mem, root, w) == Walk(mem0, root, w)
  {
    hide FrameAt, EntryAt;
    assert w[..4] == w && v[..4] == v;
    forall j | 1 <= j <= 4 ensures GrewAt(mem0, mem, root, v, d, taken, w[..j]) {
      assert |w[..j]| == j;
    }
    if taken != [] && w[..d + 1] == v[..d + 1] {
      forall j | d + 1 < j <= 4 ensures EntryAt(mem0, root, w[..j]) == EMPTY_ENTRY {
        assert w[..j][..d + 1] == w[..d + 1];
        SlotZero(mem0, root, v, d, w[..j]);
      }
    } else {
      forall j | 1 <= j <= 4 ensures !NewSlot(v, d, |taken|, w[..j]) {
        assert d + 1 <= j ==> w[..j][..d + 1] == w[..d + 1] && v[..j][..d + 1] == v[..d + 1];
      }
    }
  }

  /** Once every level is filled, the page is mapped by exactly the entry in its slot. */
  lemma ResolvedPageMapped(mem0: Memory, mem: Memory, root: nat, v: Path, d: nat, taken: seq<nat>)
    requires |v| == 4
    requires StopsAt(mem0, root, v, d) && Grew(mem0, mem, root, v, d, taken) && d + |taken| == 4
    ensures Walk(mem, root, v) == Page4K(EntryAt(mem, root, v))
    ensures taken != [] ==> EntryAt(mem, root, v).addr == taken[|taken| - 1]
  {
    assert v[..4] == v;
    assert GrewAt(mem0, mem, root, v, d, taken, v[..4]);
    assert FrameAt(mem, root, v[..4]).Some? by {
      if taken == [] { assert !NewSlot(v, d, 0, v[..4]); }
    }
    forall j | 1 <= j <= 4 ensures Points(j, EntryAt(mem, root, v[..j])) {
      PrefixSome(mem, root, v, j, 4);
      SlotPoints(mem, root, v[..j]);
    }
  }

  /** The frames taken are exactly the newly reachable ones, each in one slot of its own. */
  lemma TakenIsReachable(mem0: Memory, free0: set<nat>, mem: Memory, free: set<nat>, root: nat, v: Path, d: nat, taken: seq<nat>)
    requires |v| == 4
    requires FreeUnmapped(mem0, root, free0)
    requires FaultEffect(mem0, free0, mem, free, root, v, d, taken)
    ensures forall f :: Reachable(mem, root, f) <==> Reachable(mem0, root, f) || f in taken
    ensures forall p, q :: |p| <= 4 && |q| <= 4 && SameFrame(mem, root, p, q) && FrameAt(mem, root, p).value in taken ==> p == q
  {
    hide Tree, OthersKept, FrameAt, EntryAt;
    forall f ensures Reachable(mem, root, f) <==> Reachable(mem0, root, f) || f in taken {
      if Reachable(mem, root, f) {
        var p :| |p| <= 4 && FrameAt(mem, root, p) == Some(f);
        assert GrewAt(mem0, mem, root, v, d, taken, p);
      }
      if Reachable(mem0, root, f) {
        var p :| |p| <= 4 && FrameAt(mem0, root, p) == Some(f);
        assert GrewAt(mem0, mem, root, v, d, taken, p);
        OldSlotKept(mem0, root, v, d, taken, p);
      }
      if f in taken {
        var i :| 0 <= i < |taken| && taken[i] == f;
        var q := v[..d + 1 + i];
        assert GrewAt(mem0, mem, root, v, d, taken, q);
        assert NewSlot(v, d, |taken|, q);
      }
    }
    forall p, q | |p| <= 4 && |q| <= 4 && SameFrame(mem, root, p, q) && FrameAt(mem, root, p).value in taken ensures p == q {
      assert GrewAt(mem0, mem, root, v, d, taken, p) && GrewAt(mem0, mem, root, v, d, taken, q);
      var f := FrameAt(mem, root, p).value;
      assert !Reachable(mem0, root, f);
    }
  }

  lemma OldSlotKept(mem0: Memory, root: nat, v: Path, d: nat, taken: seq<nat>, p: Path)
    requires |v| == 4 && d + |taken| <= 4 && StopsAt(mem0, root, v, d)
    requires FrameAt(mem0, root, p).Some?
    ensures !NewSlot(v, d, |taken|, p)
  {
    if NewSlot(v, d, |taken|, p) {
      PrefixSome(mem0, root, v, d + 1, |p|);
    }
  }

  /** After a fault that ran out of frames, the walk stops where the last linked table is: a retry needs
      only the levels still missing. */
  lemma RetryContinues(mem0: Memory, free0: set<nat>, mem: Memory, free: set<nat>, root: nat, v: Path, d: nat, taken: seq<nat>)
    requires |v| == 4
    requires FaultEffect(mem0, free0, mem, free, root, v, d, taken)
    ensures StopsAt(mem, root, v, d + |taken|)
  {
    hide Tree, OthersKept, FreeUnmapped, Accounts, EntryAt;
    var k := d + |taken|;
    assert GrewAt(mem0, mem, root, v, d, taken, v[..k]);
    if k < 4 {
      var q := v[..k + 1];
      assert GrewAt(mem0, mem, root, v, d, taken, q);
      if FrameAt(mem0, root, q).Some? {
        PrefixSome(mem0, root, v, d + 1, k + 1);
      }
    }
  }

  lemma DepthUnique(mem: Memory, root: nat, v: Path, d: nat, d': nat)
    requires |v| == 4 && StopsAt(mem, root, v, d) && StopsAt(mem, root, v, d')
    ensures d == d'
  {
    if d < d' {
      PrefixSome(mem, root, v, d + 1, d');
    } else if d' < d {
      PrefixSome(mem, root, v, d' + 1, d);
    }
  }
}

