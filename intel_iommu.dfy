/**
 * The Intel VT-d engine: a remapping unit's registers, the page arena its
 * tables live in, and the operations that set the unit up, map I/O virtual
 * addresses for a PCI source id, and route a device's MSI through an
 * interrupt remapping table entry.
 *
 * The page arena hands out 4 KiB frames in order and never takes them back
 * (alloc_page); a fresh frame reads as zero, which is what the memset after
 * each allocation establishes.  Physical and virtual addresses coincide, so
 * the page of frame f is at FrameToPage(f).
 */
module IntelIommu {
  import opened Wrappers
  import opened VtdTables
  import opened VtdAddress
  import opened VtdDescriptors
  import opened VtdRegisters
  import opened VtdMapping
  import PciConfig
  import Pci

  /**
   * The frames the arena still hands out, in order: 52-bit frame numbers,
   * none of them in use, and none handed out twice (each is unused even once
   * the ones before it are taken).
   */
  ghost predicate FreeOk(free: seq<bv64>, used: set<Page>)
    decreases |free|
  {
    |free| == 0 || (free[0] < FRAME_LIMIT && Page(free[0]) !in used && FreeOk(free[1..], used + {Page(free[0])}))
  }

  /** Taking none or the first of the frames left keeps the frames left a suffix of the first list. */
  lemma TakenFromFront(f0: seq<bv64>, f1: seq<bv64>, f2: seq<bv64>)
    requires |f1| <= |f0| && f1 == f0[|f0| - |f1|..]
    requires f2 == f1 || (|f1| > 0 && f2 == f1[1..])
    ensures |f1| - 1 <= |f2| <= |f1| && f2 == f0[|f0| - |f2|..]
  {
  }

  /** Giving frame f a role adds exactly its page to the pages in use. */
  lemma Claimed(owner: Owner, f: bv64, r: Role)
    ensures owner[Page(f) := r].Keys == owner.Keys + {Page(f)}
  {
  }

  /** The command bits vtd_init issues are single bits. */
  lemma OneBitConstants()
    ensures OneBitOnly(GCMD_QI) && OneBitOnly(GCMD_DMAR) && OneBitOnly(GCMD_IR)
    ensures OneBitOnly(GCMD_ROOT) && OneBitOnly(GCMD_IR_TABLE)
  {
  }

  /** The leaf the mapping loop writes for page j of a page-aligned range maps that page and is not a super-page. */
  lemma MappedLeaf(pa: bv64, j: nat)
    requires pa & 0xfff == 0
    ensures LeafPte(PageAt(pa, j)) & PTE_HUGE == 0
    ensures LeafPte(PageAt(pa, j)) & PTE_ADDR == PageAt(pa, j)
  {
    PageAtAligned(pa, j);
    LeafPteFields(PageAt(pa, j));
  }

  /** The word index of the low word of interrupt remapping entry i. */
  function IrteSlot(i: bv16): bv64
  {
    (i as bv64) * 2
  }

  lemma IrteSlotEven(i: bv16)
    ensures IrteSlot(i) & 1 == 0
  {
  }

  /** The 64-bit words of one 4 KiB page. */
  const PAGE_WORDS: bv64 := 512

  /**
   * As written, the index allocator admits every index below 65535 and the
   * IRTA size field 0xf declares 2^16 entries, but the table is one page:
   * from index 256 on, both words of the entry lie past the page's 512 words.
   */
  lemma IrIndexBeyondPage(p: bv64, index: bv16)
    requires p & 0xfff == 0 && 256 <= index < 0xffff
    ensures IrtaValue(p) & 0xf == 0xf && IrtaValue(p) & PAGE_MASK == p
    ensures IrteSlot(index) >= PAGE_WORDS && IrteSlot(index) + 1 >= PAGE_WORDS
  {
    SizedPageAddress(p);
  }

  /** The entries below 256 are the ones whose two words lie inside the table's page. */
  lemma IrteInPage(index: bv16)
    ensures index < 256 <==> IrteSlot(index) + 1 < PAGE_WORDS
  {
  }

  /** The status bits vtd_init leaves set: QI, root table pointer, IR table pointer, DMA remapping, interrupt remapping. */
  lemma InitStatusBits(s: bv32)
    ensures (s | GCMD_QI | GCMD_ROOT | GCMD_IR_TABLE | GCMD_DMAR | GCMD_IR) & 0xc700_0000 == 0xc700_0000
  {
  }

  /** The remapping unit and the memory its tables live in. */
  class Iommu {
    const dmar: Dmar
    var mem: Mem
    ghost var owner: Owner
    /** The frames alloc_page hands out next, in order. */
    var free: seq<bv64>
    /** index_ctr of vtd_intr_index_alloc. */
    var indexCtr: bv16

    constructor (dmar0: Dmar, free0: seq<bv64>)
      requires FreeOk(free0, {})
      ensures dmar == dmar0 && mem == map[] && owner == map[] && free == free0 && indexCtr == 0
      ensures ArenaOk()
    {
      dmar := dmar0;
      mem := map[];
      owner := map[];
      free := free0;
      indexCtr := 0;
      new;
      assert owner.Keys == {};
    }

    /** Every stored word lies in an owned frame, the tables are a forest of trees, and the free frames are unused. */
    ghost predicate ArenaOk()
      reads this
    {
      TreeOK(mem, owner) && FreeOk(free, owner.Keys)
    }

    /** The frame of the root table the unit holds. */
    function RootFrame(): bv64
      reads dmar
    {
      PageFrame(dmar.RootTable())
    }

    /** The frame of the interrupt remapping table the unit holds. */
    function IrFrame(): bv64
      reads dmar
    {
      PageFrame(dmar.IrTable())
    }

    /** Both tables are set up: translation goes through a tree rooted at RootFrame(). */
    ghost predicate Ready()
      reads this, dmar
    {
      ArenaOk() && WF(mem, owner, RootFrame()) && Page(IrFrame()) in owner && owner[Page(IrFrame())] == IrTable
    }

    /** The leaf entry that translates iova for source sid. */
    function Translation(sid: bv16, iova: bv64): Option<bv64>
      reads this, dmar
    {
      Translate(mem, RootFrame(), sid, iova)
    }

    /** alloc_page: the next frame of the arena, fresh and reading as zero. */
    method AllocPage() returns (f: bv64)
      requires ArenaOk() && |free| > 0
      modifies this
      ensures f == old(free)[0] && free == old(free)[1..] && f < FRAME_LIMIT
      ensures Page(f) !in owner && FreeOk(free, owner.Keys + {Page(f)}) && TreeOK(mem, owner)
      ensures mem == old(mem) && owner == old(owner) && indexCtr == old(indexCtr)
    {
      f := free[0];
      free := free[1..];
    }

    /** alloc_page and the memset after it, for a table of role r: the next frame, now owned as r and empty. */
    method ClaimPage(ghost r: Role) returns (f: bv64)
      requires ArenaOk() && |free| > 0
      modifies this
      ensures f == old(free)[0] && free == old(free)[1..] && f < FRAME_LIMIT
      ensures Page(f) !in old(owner) && owner == old(owner)[Page(f) := r]
      ensures ArenaOk() && mem == old(mem) && indexCtr == old(indexCtr)
    {
      f := AllocPage();
      AddFreshPage(mem, owner, f, r);
      Claimed(owner, f, r);
      owner := owner[Page(f) := r];
    }

    /** vtd_setup_root_table: a fresh, empty root table, its address in RTADDR, and the root table pointer latched. */
    method SetupRootTable()
      requires ArenaOk() && |free| > 0
      modifies this, dmar
      ensures ArenaOk() && WF(mem, owner, RootFrame())
      ensures RootFrame() == old(free)[0] && free == old(free)[1..]
      ensures Page(RootFrame()) !in old(owner) && owner == old(owner)[Page(RootFrame()) := RootTable]
      ensures mem == old(mem) && indexCtr == old(indexCtr)
      ensures dmar.rtaddr == FrameToPage(old(free)[0]) && dmar.irta == old(dmar.irta) && dmar.IrTable() == old(dmar.IrTable())
      ensures dmar.gsts == old(dmar.Observed()) | GCMD_ROOT && dmar.Observed() == dmar.gsts
    {
      var f := ClaimPage(RootTable);
      PageFrameOfFrame(f);
      dmar.SetRootTablePointer(FrameToPage(f));
    }

    /** vtd_setup_ir_table: a fresh, empty interrupt remapping table, its address and size field in IRTA, and the pointer latched. */
    method SetupIrTable()
      requires ArenaOk() && |free| > 0
      modifies this, dmar
      ensures ArenaOk() && Page(IrFrame()) in owner && owner[Page(IrFrame())] == IrTable
      ensures IrFrame() == old(free)[0] && free == old(free)[1..]
      ensures Page(IrFrame()) !in old(owner) && owner == old(owner)[Page(IrFrame()) := IrTable]
      ensures mem == old(mem) && indexCtr == old(indexCtr)
      ensures dmar.irta == IrtaValue(FrameToPage(old(free)[0])) && dmar.rtaddr == old(dmar.rtaddr) && dmar.RootTable() == old(dmar.RootTable())
      ensures dmar.gsts == old(dmar.Observed()) | GCMD_IR_TABLE && dmar.Observed() == dmar.gsts
    {
      var f := ClaimPage(IrTable);
      PageFrameOfFrame(f);
      dmar.SetIrTablePointer(FrameToPage(f));
    }

    /**
     * The first half of vtd_map_range: the root entry of sid's bus in the
     * root table at frame root, created with a fresh context table when it
     * is not present.  Returns the context table's frame.
     */
    method ContextTableFor(root: bv64, sid: bv16) returns (ctx: bv64)
      requires ArenaOk() && WF(mem, owner, root) && |free| > 0
      modifies this
      ensures ArenaOk() && WF(mem, owner, root) && Grows(old(owner), owner) && indexCtr == old(indexCtr)
      ensures ReachAll(mem, root, sid, 1, ctx) && SameWalks(old(mem), mem, root)
      ensures Present(0, Read(old(mem), Slot(root, RootIndex(sid)))) ==>
                && ctx == DecodeRoot(Read(old(mem), Slot(root, RootIndex(sid)))).contextTable
                && mem == old(mem) && owner == old(owner) && free == old(free)
      ensures !Present(0, Read(old(mem), Slot(root, RootIndex(sid)))) ==>
                && ctx == old(free)[0] && free == old(free)[1..]
                && mem == WithRootEntry(old(mem), root, sid, ctx)
                && owner == old(owner)[Page(ctx) := Table(1, Slot(root, RootIndex(sid)))]
    {
      var re := Read(mem, Slot(root, RootIndex(sid)));
      if !Present(0, re) {
        ghost var m, o := mem, owner;
        ctx := ClaimPage(Table(1, Slot(root, RootIndex(sid))));
        RootEntryCreated(m, o, root, sid, ctx);
        GrowsByNew(o, Page(ctx), Table(1, Slot(root, RootIndex(sid))));
        mem := WithRootEntry(mem, root, sid, ctx);
      } else {
        RootEntryFound(mem, root, sid);
        ctx := DecodeRoot(re).contextTable;
      }
    }

    /**
     * The second half of vtd_map_range: the context entry of sid's
     * device/function in the context table at frame ctx, created with a fresh
     * page table when it is not present.  Returns the page table's frame.
     */
    method PageTableFor(root: bv64, sid: bv16, ctx: bv64) returns (pt: bv64)
      requires ArenaOk() && WF(mem, owner, root) && |free| > 0 && ReachAll(mem, root, sid, 1, ctx)
      modifies this
      ensures ArenaOk() && WF(mem, owner, root) && Grows(old(owner), owner) && indexCtr == old(indexCtr)
      ensures ReachAll(mem, root, sid, 2, pt) && SameWalks(old(mem), mem, root)
      ensures Present(1, Read(old(mem), Slot(ctx, CtxIndex(sid)))) ==>
                && pt == DecodeContext(Read(old(mem), Slot(ctx, CtxIndex(sid))), Read(old(mem), Slot(ctx, CtxIndex(sid) + 1))).slptptr
                && mem == old(mem) && owner == old(owner) && free == old(free)
      ensures !Present(1, Read(old(mem), Slot(ctx, CtxIndex(sid)))) ==>
                && pt == old(free)[0] && free == old(free)[1..]
                && mem == WithContextEntry(old(mem), ctx, sid, pt)
                && owner == old(owner)[Page(pt) := Table(2, Slot(ctx, CtxIndex(sid)))]
    {
      assert Reaches(mem, root, Indices(sid, 0), 1) && FrameAt(mem, root, Indices(sid, 0), 1) == ctx;
      var ce := Read(mem, Slot(ctx, CtxIndex(sid)));
      if !Present(1, ce) {
        ghost var m, o := mem, owner;
        pt := ClaimPage(Table(2, Slot(ctx, CtxIndex(sid))));
        ContextEntryCreated(m, o, root, sid, ctx, pt);
        GrowsByNew(o, Page(pt), Table(2, Slot(ctx, CtxIndex(sid))));
        mem := WithContextEntry(mem, ctx, sid, pt);
      } else {
        ContextEntryFound(mem, root, sid, ctx);
        pt := DecodeContext(ce, Read(mem, Slot(ctx, CtxIndex(sid) + 1))).slptptr;
      }
    }

    /**
     * One level of vtd_install_pte: at depth k of walk a (a level 3 or 2
     * table), allocate and link a fresh next-level table when the entry's
     * RW bits are clear, and return the next-level table's frame.
     */
    method NextLevel(ghost root: bv64, ghost a: seq<bv64>, ghost k: nat, ghost k1: nat, table: bv64, offset: bv64) returns (child: bv64)
      requires ArenaOk() && WF(mem, owner, root) && ValidIdx(a) && 2 <= k < WALK_LENGTH - 1 && k1 == k + 1
      requires Reaches(mem, root, a, k) && SlotAt(mem, root, a, k) == Slot(table, offset)
      requires |free| > 0
      modifies this
      ensures ArenaOk() && WF(mem, owner, root) && Grows(old(owner), owner) && indexCtr == old(indexCtr)
      ensures Reaches(mem, root, a, k1) && FrameAt(mem, root, a, k1) == child
      ensures forall j :: 0 <= j <= k ==> FrameAt(mem, root, a, j) == old(FrameAt(mem, root, a, j))
      ensures SameWalks(old(mem), mem, root) && SameTops(old(mem), mem, root)
      ensures Present(k, Read(old(mem), Slot(table, offset))) ==>
                child == PteFrame(Read(old(mem), Slot(table, offset))) && mem == old(mem) && owner == old(owner) && free == old(free)
      ensures !Present(k, Read(old(mem), Slot(table, offset))) ==>
                && child == old(free)[0] && free == old(free)[1..]
                && mem == old(mem)[Slot(table, offset) := TablePte(child)]
                && owner == old(owner)[Page(child) := Table(k1, Slot(table, offset))]
    {
      var s := Slot(table, offset);
      PresentIsRw(k, Read(mem, s));
      if Read(mem, s) & PTE_RW == 0 {
        ghost var m, o := mem, owner;
        var f := ClaimPage(Table(k1, s));
        TableEntryCreated(m, o, root, a, k, s, f, m[s := TablePte(f)]);
        GrowsByNew(o, Page(f), Table(k1, s));
        mem := mem[s := TablePte(f)];
        TablePtePointsTo(f, k);
        PteFrameIsChild(TablePte(f));
      } else {
        TableEntryFound(mem, root, a, k, s);
      }
      child := PteFrame(Read(mem, s));
    }

    /**
     * The state of vtd_install_pte's descent after k - 2 levels, from the
     * state m0, o0, f0 it started in: the walk for a reaches the table cur at
     * depth k, at most one frame per level was taken, no translation changed,
     * and only the table entries above depth k were written.
     */
    ghost predicate Descended(m0: Mem, o0: Owner, f0: seq<bv64>, root: bv64, a: seq<bv64>, k: nat, cur: bv64)
      reads this
    {
      && ValidIdx(a) && 2 <= k < WALK_LENGTH
      && ArenaOk() && WF(mem, owner, root) && Grows(o0, owner)
      && |f0| - (k - 2) <= |free| <= |f0| && free == f0[|f0| - |free|..]
      && Reaches(mem, root, a, k) && FrameAt(mem, root, a, k) == cur
      && SameWalks(m0, mem, root) && SameTops(m0, mem, root)
      && WrittenAbove(m0, mem, root, a, k)
      && (Reaches(m0, root, a, 4) ==> mem == m0 && owner == o0 && free == f0)
    }

    /** Before the first turn of vtd_install_pte's loop nothing has been done yet. */
    lemma DescentStarts(root: bv64, a: seq<bv64>, table: bv64)
      requires ArenaOk() && WF(mem, owner, root) && ValidIdx(a)
      requires Reaches(mem, root, a, 2) && FrameAt(mem, root, a, 2) == table
      ensures Descended(mem, owner, free, root, a, 2, table)
    {
      assert free[|free| - |free|..] == free;
    }

    /** One turn of vtd_install_pte's loop: from the table at depth j to the one at depth k below it, through the entry at offset. */
    method Descend(ghost m0: Mem, ghost o0: Owner, ghost f0: seq<bv64>, ghost root: bv64, ghost a: seq<bv64>,
                   ghost j: nat, ghost k: nat, table: bv64, offset: bv64) returns (child: bv64)
      requires Descended(m0, o0, f0, root, a, j, table) && |f0| >= 2 && j <= 3 && k == j + 1 && offset == a[j]
      modifies this
      ensures Descended(m0, o0, f0, root, a, k, child) && indexCtr == old(indexCtr)
    {
      ghost var m1, o1, f1 := mem, owner, free;
      if Reaches(m0, root, a, 4) {
        ReachesPrefix(m0, root, a, k, 4);
        assert Present(j, Read(mem, Slot(table, offset)));
      }
      child := NextLevel(root, a, j, k, table, offset);
      TakenFromFront(f0, f1, free);
      GrowsTrans(o0, o1, owner);
      SameWalksTrans(m0, m1, mem, root);
      SameTopsTrans(m0, m1, mem, root);
      WrittenStep(m0, m1, mem, root, a, j, k, Slot(table, offset), TablePte(child));
    }

    /**
     * vtd_install_pte with level_target 1: walk the level 3 and level 2
     * tables of iova down from the page table at frame table, creating what
     * is missing, and write the leaf entry mapping pa.
     */
    method InstallPte(ghost root: bv64, ghost sid: bv16, table: bv64, iova: bv64, pa: bv64)
      requires ArenaOk() && WF(mem, owner, root)
      requires Reaches(mem, root, Indices(sid, iova), 2) && FrameAt(mem, root, Indices(sid, iova), 2) == table
      requires |free| >= 2
      modifies this
      ensures ArenaOk() && WF(mem, owner, root) && Grows(old(owner), owner) && indexCtr == old(indexCtr)
      ensures |old(free)| - 2 <= |free| <= |old(free)| && free == old(free)[|old(free)| - |free|..]
      ensures Translate(mem, root, sid, iova) == Some(LeafPte(pa))
      ensures SameWalksBut(old(mem), mem, root, Indices(sid, iova)) && SameTops(old(mem), mem, root)
      ensures forall s {:trigger Changed(old(mem), mem, s)} :: Changed(old(mem), mem, s) ==>
                s == SlotAt(mem, root, Indices(sid, iova), 2) || s == SlotAt(mem, root, Indices(sid, iova), 3) ||
                s == SlotAt(mem, root, Indices(sid, iova), 4)
      ensures old(Reaches(mem, root, Indices(sid, iova), 4)) ==>
                && free == old(free) && owner == old(owner)
                && mem == old(mem)[old(SlotAt(mem, root, Indices(sid, iova), 4)) := LeafPte(pa)]
    {
      ghost var a := Indices(sid, iova);
      ghost var m0, o0, f0 := mem, owner, free;
      ghost var k: nat := 2;
      var level := 3;
      var cur := table;
      DescentStarts(root, a, table);
      while level > 1
        invariant 1 <= level <= 3 && k == 5 - level
        invariant Descended(m0, o0, f0, root, a, k, cur) && indexCtr == old(indexCtr)
        decreases level
      {
        var offset := PgdirOffset(iova, level);
        ghost var j := k;
        k := k + 1;
        OffsetAt(sid, iova, level, j);
        cur := Descend(m0, o0, f0, root, a, j, k, cur, offset);
        level := level - 1;
      }
      var offset := PgdirOffset(iova, level);
      SetLeaf(m0, o0, f0, root, sid, iova, cur, offset, pa);
    }

    /** The last store of vtd_install_pte: the leaf entry at offset of the last-level table cur maps pa. */
    method SetLeaf(ghost m0: Mem, ghost o0: Owner, ghost f0: seq<bv64>, ghost root: bv64, ghost sid: bv16, ghost iova: bv64,
                   cur: bv64, offset: bv64, pa: bv64)
      requires Descended(m0, o0, f0, root, Indices(sid, iova), 4, cur) && offset == PgdirOffset(iova, 1) && |f0| >= 2
      modifies this
      ensures ArenaOk() && WF(mem, owner, root) && Grows(o0, owner) && indexCtr == old(indexCtr)
      ensures |f0| - 2 <= |free| <= |f0| && free == f0[|f0| - |free|..]
      ensures Translate(mem, root, sid, iova) == Some(LeafPte(pa))
      ensures SameWalksBut(m0, mem, root, Indices(sid, iova)) && SameTops(m0, mem, root)
      ensures forall s {:trigger Changed(m0, mem, s)} :: Changed(m0, mem, s) ==>
                s == SlotAt(mem, root, Indices(sid, iova), 2) || s == SlotAt(mem, root, Indices(sid, iova), 3) ||
                s == SlotAt(mem, root, Indices(sid, iova), 4)
      ensures Reaches(m0, root, Indices(sid, iova), 4) ==>
                && free == f0 && owner == o0
                && mem == m0[SlotAt(m0, root, Indices(sid, iova), 4) := LeafPte(pa)]
    {
      ghost var a := Indices(sid, iova);
      OffsetAt(sid, iova, 1, 4);
      var s := Slot(cur, offset);
      LeafPresent(pa);
      ghost var m := mem;
      LeafInstalled(m0, m, owner, root, a, s, LeafPte(pa), m[s := LeafPte(pa)]);
      mem := mem[s := LeafPte(pa)];
    }

    /**
     * vtd_map_range: map the size bytes at iova, page by page, to the pages
     * at pa for source sid.  A page whose entries no later page of the range
     * reuses translates to its own page of pa, readable and writable; every
     * translation that uses none of the range's entries is as before.
     */
    method MapRange(sid: bv16, iova: bv64, pa: bv64, size: bv64)
      requires Ready()
      requires iova & 0xfff == 0 && pa & 0xfff == 0 && size & 0xfff == 0
      requires |free| >= 2 + 2 * Pages(size)
      modifies this
      ensures Ready() && Grows(old(owner), owner) && indexCtr == old(indexCtr)
      ensures forall j :: 0 <= j < Pages(size) && LastUse(iova, j, Pages(size)) ==>
                Translation(sid, PageAt(iova, j)) == Some(LeafPte(PageAt(pa, j)))
      ensures forall sid', x :: Untouched(sid', x, sid, iova, Pages(size)) ==> Translation(sid', x) == old(Translation(sid', x))
    {
      var root := PageFrame(dmar.RootTable());
      ghost var m0, o0 := mem, owner;
      var ctx := ContextTableFor(root, sid);
      ghost var m1, o1 := mem, owner;
      var pt := PageTableFor(root, sid, ctx);
      SameWalksTrans(m0, m1, mem, root);
      GrowsTrans(o0, o1, owner);
      NothingInstalled(m0, mem, root);
      ghost var o2 := owner;
      MapPages(root, sid, pt, iova, pa, size, m0);
      GrowsTrans(o0, o2, owner);
      RangeMapped(mem, root, sid, iova, pa, Pages(size));
      RangeKept(m0, mem, root, sid, iova, pa, Pages(size));
    }

    /**
     * The loop of vtd_map_range: install the leaf of each 4 KiB page of the
     * range, below the page table pt that every walk for sid reaches.  The
     * walks it ends with are Wanted's; all others are as in m0.
     */
    method MapPages(ghost root: bv64, ghost sid: bv16, pt: bv64, iova: bv64, pa: bv64, size: bv64, ghost m0: Mem)
      requires ArenaOk() && WF(mem, owner, root) && ReachAll(mem, root, sid, 2, pt)
      requires size & 0xfff == 0 && |free| >= 2 * Pages(size)
      requires Installed(mem, root, map[]) && KeptBut(m0, mem, root, map[])
      modifies this
      ensures ArenaOk() && WF(mem, owner, root) && Grows(old(owner), owner) && indexCtr == old(indexCtr)
      ensures Installed(mem, root, Wanted(sid, iova, pa, Pages(size)))
      ensures KeptBut(m0, mem, root, Wanted(sid, iova, pa, Pages(size)))
    {
      var va, addr, left := iova, pa, size;
      ghost var k: nat := 0;
      while left != 0
        invariant left & 0xfff == 0 && Pages(size) == k + Pages(left)
        invariant va == PageAt(iova, k) && addr == PageAt(pa, k)
        invariant ArenaOk() && WF(mem, owner, root) && Grows(old(owner), owner) && indexCtr == old(indexCtr)
        invariant |free| >= 2 * Pages(left)
        invariant ReachAll(mem, root, sid, 2, pt)
        invariant Installed(mem, root, Wanted(sid, iova, pa, k)) && KeptBut(m0, mem, root, Wanted(sid, iova, pa, k))
        decreases Pages(left)
      {
        ghost var j := k;
        k := k + 1;
        PageStep(size, left, j, k, iova, pa, va, addr);
        ghost var m2, o2 := mem, owner;
        InstallPte(root, sid, pt, va, addr);
        GrowsTrans(old(owner), o2, owner);
        TopsKeepReachAll(m2, mem, root, sid, pt);
        InstallStep(m0, m2, mem, root, sid, iova, pa, j, k, va, addr);
        left := left - PAGE_SIZE;
        va := NextPage(va);
        addr := NextPage(addr);
      }
      assert k == Pages(size);
    }

    /** vtd_intr_index_alloc: hand out 0, 1, 2, ... and abort once the counter reaches 65535. */
    method IntrIndexAlloc() returns (index: bv16)
      requires indexCtr < 0xffff
      modifies this
      ensures index == old(indexCtr) && indexCtr == old(indexCtr) + 1 && index < indexCtr
      ensures mem == old(mem) && owner == old(owner) && free == old(free)
    {
      index := indexCtr;
      indexCtr := indexCtr + 1;
    }

    /** vtd_setup_irte: the interrupt remapping entry at index, built for dev, and no other word changed. */
    method SetupIrte(dev: Pci.PciDev, index: bv16, vector: bv32, destId: bv32)
      requires Ready() && index < 256
      modifies this
      ensures mem == old(mem)[Slot(IrFrame(), IrteSlot(index)) := EncodeIrteLo(NewIrte(vector, destId, dev.bdf))]
                             [Slot(IrFrame(), IrteSlot(index) + 1) := EncodeIrteHi(NewIrte(vector, destId, dev.bdf))]
      ensures DecodeIrte(Read(mem, Slot(IrFrame(), IrteSlot(index))), Read(mem, Slot(IrFrame(), IrteSlot(index) + 1)))
              == NewIrte(vector, destId, dev.bdf)
      ensures Ready() && owner == old(owner) && free == old(free) && indexCtr == old(indexCtr)
      ensures forall sid, x :: Translation(sid, x) == old(Translation(sid, x))
      ensures IrteSlot(index) + 1 < PAGE_WORDS
    {
      IrteInPage(index);
      var ir := PageFrame(dmar.IrTable());
      var e := NewIrte(vector, destId, dev.bdf);
      var lo := Slot(ir, IrteSlot(index));
      var hi := Slot(ir, IrteSlot(index) + 1);
      IrteSlotEven(index);
      HighWord(IrteSlot(index));
      var root := PageFrame(dmar.RootTable());
      var m := mem;
      UnwalkedWrite(m, owner, root, lo, EncodeIrteLo(e));
      UnwalkedWrite(m[lo := EncodeIrteLo(e)], owner, root, hi, EncodeIrteHi(e));
      IrteRoundTrip(e);
      mem := m[lo := EncodeIrteLo(e)][hi := EncodeIrteHi(e)];
    }

    /**
     * vtd_setup_msi: allocate an interrupt index, fill its remapping entry,
     * and program dev's MSI capability with the remappable address of that
     * index and a zero data word; the result of pci_setup_msi is returned.
     */
    method SetupMsi(dev: Pci.PciDev, cfg: PciConfig.ConfigSpace, vector: bv32, destId: bv32) returns (ok: bool)
      requires Ready() && indexCtr < 256
      modifies this, cfg
      ensures indexCtr == old(indexCtr) + 1 && Ready() && owner == old(owner) && free == old(free)
      ensures mem == old(mem)[Slot(IrFrame(), IrteSlot(old(indexCtr))) := EncodeIrteLo(NewIrte(vector, destId, dev.bdf))]
                             [Slot(IrFrame(), IrteSlot(old(indexCtr)) + 1) := EncodeIrteHi(NewIrte(vector, destId, dev.bdf))]
      ensures forall sid, x :: Translation(sid, x) == old(Translation(sid, x))
      ensures ok == (dev.msiOffset != 0)
      ensures !ok ==> cfg.regs == old(cfg.regs) && cfg.log == old(cfg.log)
      ensures ok ==> cfg.log == old(cfg.log) + Pci.MsiWrites(dev.bdf, dev.msiOffset,
                       old(cfg.ReadW(dev.bdf, dev.msiOffset + Pci.PCI_MSI_FLAGS)), MsiAddress(old(indexCtr)), MSI_DATA)
      ensures ok ==> cfg.regs == PciConfig.ApplyAll(old(cfg.regs), cfg.masks, Pci.MsiWrites(dev.bdf, dev.msiOffset,
                       old(cfg.ReadW(dev.bdf, dev.msiOffset + Pci.PCI_MSI_FLAGS)), MsiAddress(old(indexCtr)), MSI_DATA))
    {
      var index := IntrIndexAlloc();
      SetupIrte(dev, index, vector, destId);
      ok := dev.SetupMsi(cfg, MsiAddress(index), MSI_DATA);
    }

    /**
     * vtd_init without the VM and SMP setup: enable queued invalidation, set
     * up the root and interrupt remapping tables, then enable DMA and
     * interrupt remapping, one command bit at a time.
     */
    method Init()
      requires ArenaOk() && |free| >= 2
      modifies this, dmar
      ensures Ready() && mem == old(mem) && indexCtr == old(indexCtr)
      ensures RootFrame() == old(free)[0] && IrFrame() == old(free)[1] && free == old(free)[2..]
      ensures dmar.rtaddr == FrameToPage(old(free)[0]) && dmar.irta == IrtaValue(FrameToPage(old(free)[1]))
      ensures dmar.gsts == old(dmar.Observed()) | GCMD_QI | GCMD_ROOT | GCMD_IR_TABLE | GCMD_DMAR | GCMD_IR
      ensures dmar.gsts & 0xc700_0000 == 0xc700_0000
    {
      OneBitConstants();
      dmar.GcmdOr(GCMD_QI);
      SetupRootTable();
      ghost var root := RootFrame();
      assert WF(mem, owner, root);
      SetupIrTable();
      assert WF(mem, owner, root);
      dmar.GcmdOr(GCMD_DMAR);
      dmar.GcmdOr(GCMD_IR);
      InitStatusBits(old(dmar.Observed()));
    }
  }

  lemma AddFreshPage(mem: Mem, owner: Owner, f: bv64, r: Role)
    requires TreeOK(mem, owner) && Page(f) !in owner
    ensures TreeOK(mem, owner[Page(f) := r])
  {
    var owner' := owner[Page(f) := r];
    forall s
      ensures PointsToChild(mem, owner', s)
    {
      if s in mem {
        assert PointsToChild(mem, owner, s);
        assert owner'[Page(s.frame)] == owner[Page(s.frame)];
      }
    }
  }
}
