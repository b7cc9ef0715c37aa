/**
 * The steps vtd_map_range and vtd_install_pte take on the translation
 * tables, stated over memory and ownership values: linking a fresh context
 * table into a root entry, a fresh page table into a context entry, a fresh
 * level 2 or level 1 table into a PTE, and writing a leaf.  Each step keeps
 * the tables a tree and says which walks it changes.
 */
module VtdMapping {
  import opened Wrappers
  import opened VtdTables
  import opened VtdAddress
  import opened VtdDescriptors

  /** o' knows every frame o knows, in the same role. */
  ghost predicate Grows(o: Owner, o': Owner)
  {
    forall p :: p in o ==> p in o' && o'[p] == o[p]
  }

  /** No translation differs between m and m'. */
  ghost predicate SameWalks(m: Mem, m': Mem, root: bv64)
  {
    forall b {:trigger Walk(m', root, b)} :: ValidIdx(b) ==> Walk(m', root, b) == Walk(m, root, b)
  }

  /** Every walk that got down to its page table in m still does in m', to the same page table. */
  ghost predicate SameTops(m: Mem, m': Mem, root: bv64)
  {
    forall b {:trigger Reaches(m', root, b, 2)} {:trigger FrameAt(m', root, b, 2)} :: ValidIdx(b) && Reaches(m, root, b, 2) ==> Reaches(m', root, b, 2) && FrameAt(m', root, b, 2) == FrameAt(m, root, b, 2)
  }

  /** Every walk for source sid, whatever its iova, reaches depth k at frame f. */
  ghost predicate ReachAll(m: Mem, root: bv64, sid: bv16, k: nat, f: bv64)
    requires k < WALK_LENGTH
  {
    forall x :: Reaches(m, root, Indices(sid, x), k) && FrameAt(m, root, Indices(sid, x), k) == f
  }

  /** The root table at frame root once sid's bus entry is cleared and set to point to context table ctx. */
  function WithRootEntry(m: Mem, root: bv64, sid: bv16, ctx: bv64): Mem
  {
    m[Slot(root, RootIndex(sid) + 1) := 0][Slot(root, RootIndex(sid)) := EncodeRoot(RootEntry(true, ctx))]
  }

  /** The context table at frame ctx once sid's device/function entry is cleared and filled in for page table pt. */
  function WithContextEntry(m: Mem, ctx: bv64, sid: bv16, pt: bv64): Mem
  {
    m[Slot(ctx, CtxIndex(sid) + 1) := EncodeContextHi(NewContext(sid, pt))][Slot(ctx, CtxIndex(sid)) := EncodeContextLo(NewContext(sid, pt))]
  }

  lemma GrowsTrans(o0: Owner, o1: Owner, o2: Owner)
    requires Grows(o0, o1) && Grows(o1, o2)
    ensures Grows(o0, o2)
  {
  }

  lemma SameWalksTrans(m0: Mem, m1: Mem, m2: Mem, root: bv64)
    requires SameWalks(m0, m1, root) && SameWalks(m1, m2, root)
    ensures SameWalks(m0, m2, root)
  {
  }

  lemma SameTopsTrans(m0: Mem, m1: Mem, m2: Mem, root: bv64)
    requires SameTops(m0, m1, root) && SameTops(m1, m2, root)
    ensures SameTops(m0, m2, root)
  {
  }

  /** The entry at t differs between m0 and m. */
  ghost predicate Changed(m0: Mem, m: Mem, t: Slot)
  {
    Read(m, t) != Read(m0, t)
  }

  /** Since m0, only the entries walk a reads at depths 2 up to (not including) k have been written. */
  ghost predicate WrittenAbove(m0: Mem, m: Mem, root: bv64, a: seq<bv64>, k: nat)
    requires |a| == WALK_LENGTH
  {
    forall t {:trigger Changed(m0, m, t)} :: Changed(m0, m, t) ==> (k > 2 && t == SlotAt(m, root, a, 2)) || (k > 3 && t == SlotAt(m, root, a, 3))
  }

  /** Writing (or keeping) the entry walk a reads at depth j, with the frames above it kept, extends the written entries by that one. */
  lemma WrittenStep(m0: Mem, m1: Mem, m2: Mem, root: bv64, a: seq<bv64>, j: nat, k: nat, s: Slot, v: bv64)
    requires |a| == WALK_LENGTH && 2 <= j <= 3 && k == j + 1
    requires WrittenAbove(m0, m1, root, a, j) && s == SlotAt(m1, root, a, j)
    requires m2 == m1 || m2 == m1[s := v]
    requires FrameAt(m2, root, a, 2) == FrameAt(m1, root, a, 2) && FrameAt(m2, root, a, j) == FrameAt(m1, root, a, j)
    ensures WrittenAbove(m0, m2, root, a, k)
  {
    assert SlotAt(m2, root, a, 2) == SlotAt(m1, root, a, 2) && SlotAt(m2, root, a, j) == s;
    forall t | Changed(m0, m2, t)
      ensures (k > 2 && t == SlotAt(m2, root, a, 2)) || (k > 3 && t == SlotAt(m2, root, a, 3))
    {
      if t != s {
        assert Changed(m0, m1, t);
      }
    }
  }

  /** Walks that keep their page tables keep reaching pt from every iova of sid. */
  lemma TopsKeepReachAll(m: Mem, m': Mem, root: bv64, sid: bv16, pt: bv64)
    requires ReachAll(m, root, sid, 2, pt) && SameTops(m, m', root)
    ensures ReachAll(m', root, sid, 2, pt)
  {
    forall x
      ensures Reaches(m', root, Indices(sid, x), 2) && FrameAt(m', root, Indices(sid, x), 2) == pt
    {
      assert Reaches(m, root, Indices(sid, x), 2);
    }
  }

  /** The word after the low word of a 16-byte entry is another word. */
  lemma HighWord(i: bv64)
    requires i & 1 == 0
    ensures (i + 1) & 1 == 1 && i + 1 != i
  {
  }

  /** A created root entry is present and points to its context table. */
  lemma RootEntryPointsTo(f: bv64)
    requires f < FRAME_LIMIT
    ensures Present(0, EncodeRoot(RootEntry(true, f))) && Child(EncodeRoot(RootEntry(true, f))) == f
  {
  }

  /** A created context entry is present and points to its page table. */
  lemma ContextEntryPointsTo(sid: bv16, f: bv64)
    requires f < FRAME_LIMIT
    ensures Present(1, EncodeContextLo(NewContext(sid, f))) && Child(EncodeContextLo(NewContext(sid, f))) == f
  {
    NewContextWords(sid, f);
  }

  /** A created level 3 or 2 entry is present and points to the next table. */
  lemma TablePtePointsTo(f: bv64, k: nat)
    requires f < FRAME_LIMIT && 2 <= k
    ensures Present(k, TablePte(f)) && Child(TablePte(f)) == f
  {
    TablePteFields(f);
    PteFrameIsChild(TablePte(f));
  }

  /** The frame fields of root entries, context entries and PTEs are what the walk follows. */
  lemma PteFrameIsChild(v: bv64)
    ensures PteFrame(v) == Child(v)
  {
  }

  lemma EntryFramesAreChild(lo: bv64, hi: bv64)
    ensures DecodeRoot(lo).contextTable == Child(lo)
    ensures DecodeContext(lo, hi).slptptr == Child(lo)
  {
  }

  /** Below the context entry, an entry is present exactly when one of its RW bits is set. */
  lemma PresentIsRw(k: nat, v: bv64)
    requires 2 <= k
    ensures Present(k, v) <==> v & PTE_RW != 0
  {
  }

  /** A leaf entry is present whatever address it maps. */
  lemma LeafPresent(pa: bv64)
    ensures Present(WALK_LENGTH - 1, LeafPte(pa))
  {
  }

  lemma GrowsByNew(o: Owner, p: Page, r: Role)
    requires p !in o
    ensures Grows(o, o[p := r])
  {
  }

  /** Every walk for sid agrees with the one for iova 0 down to depth k <= 2, which reads no iova bits. */
  lemma ReachAllFromZero(m: Mem, root: bv64, sid: bv16, k: nat)
    requires k <= 2 && Reaches(m, root, Indices(sid, 0), k)
    ensures ReachAll(m, root, sid, k, FrameAt(m, root, Indices(sid, 0), k))
  {
    forall x
      ensures Reaches(m, root, Indices(sid, x), k) && FrameAt(m, root, Indices(sid, x), k) == FrameAt(m, root, Indices(sid, 0), k)
    {
      PrefixIndependent(m, root, Indices(sid, 0), Indices(sid, x), k);
    }
  }

  /** A present root entry: every walk for sid goes on to the context table it names. */
  lemma RootEntryFound(m: Mem, root: bv64, sid: bv16)
    requires Present(0, Read(m, Slot(root, RootIndex(sid))))
    ensures ReachAll(m, root, sid, 1, DecodeRoot(Read(m, Slot(root, RootIndex(sid)))).contextTable)
  {
    EntryFramesAreChild(Read(m, Slot(root, RootIndex(sid))), 0);
    ReachAllFromZero(m, root, sid, 1);
  }

  /**
   * A missing root or context entry s, read at depth k of walk a (k <= 1),
   * its high word hi set to hv and then s itself to v, a present pointer to
   * the fresh frame f: the tables stay a tree with f owned by s, a reaches f
   * at depth k + 1, and no translation changes.
   */
  lemma EntryCreated(m: Mem, o: Owner, root: bv64, a: seq<bv64>, k: nat, s: Slot, hi: Slot, hv: bv64, f: bv64, v: bv64, m': Mem)
    requires WF(m, o, root) && ValidIdx(a) && k <= 1 && Reaches(m, root, a, k)
    requires s == SlotAt(m, root, a, k) && hi == Slot(s.frame, s.index + 1) && m' == m[hi := hv][s := v]
    requires !Present(k, Read(m, s))
    requires Page(f) !in o && Present(k, v) && Child(v) == f
    ensures WF(m', o[Page(f) := Table(k + 1, s)], root)
    ensures Reaches(m', root, a, k + 1) && FrameAt(m', root, a, k + 1) == f
    ensures SameWalks(m, m', root)
  {
    var m1 := m[hi := hv];
    HighWordWritten(m, o, root, a, k, s, hi, hv, m1);
    CreateStep(m1, o, root, a, k, f, v);
  }

  /** Writing the high word hi of the root or context entry s that walk a reads at depth k changes no walk. */
  lemma HighWordWritten(m: Mem, o: Owner, root: bv64, a: seq<bv64>, k: nat, s: Slot, hi: Slot, hv: bv64, m1: Mem)
    requires WF(m, o, root) && ValidIdx(a) && k <= 1 && Reaches(m, root, a, k)
    requires s == SlotAt(m, root, a, k) && hi == Slot(s.frame, s.index + 1) && m1 == m[hi := hv]
    ensures WF(m1, o, root) && SameWalks(m, m1, root)
    ensures Reaches(m1, root, a, k) && SlotAt(m1, root, a, k) == s && Read(m1, s) == Read(m, s)
  {
    HighWord(s.index);
    assert Read(m1, s) == Read(m, s);
    HighWordUnwalked(m, o, root, a, k);
    UnwalkedWrite(m, o, root, hi, hv);
    HighWordOffWalk(m, root, a, k, hv);
  }

  /** No walk reads the high word of an entry a walk reads at depth 0 or 1. */
  lemma HighWordUnwalked(m: Mem, o: Owner, root: bv64, a: seq<bv64>, k: nat)
    requires WF(m, o, root) && ValidIdx(a) && k <= 1 && Reaches(m, root, a, k)
    ensures Unwalked(o, Slot(SlotAt(m, root, a, k).frame, SlotAt(m, root, a, k).index + 1))
  {
    HighWord(a[k]);
    RoleOnWalk(m, o, root, a, k);
  }

  /** Walk a reads the same entries down to depth k <= 1 once the high word of its entry at depth k is written. */
  lemma HighWordOffWalk(m: Mem, root: bv64, a: seq<bv64>, k: nat, hv: bv64)
    requires ValidIdx(a) && k <= 1 && Reaches(m, root, a, k)
    ensures var s := SlotAt(m, root, a, k);
            Reaches(m[Slot(s.frame, s.index + 1) := hv], root, a, k) && SlotAt(m[Slot(s.frame, s.index + 1) := hv], root, a, k) == s
  {
    var s := SlotAt(m, root, a, k);
    HighWord(a[k]);
    WriteOffWalk(m, root, a, Slot(s.frame, s.index + 1), hv, k);
  }

  /**
   * A missing root entry set to point to the fresh context table ctx: the
   * tables stay a tree with ctx owned by that entry, every walk for sid
   * reaches ctx, and no translation changes.
   */
  lemma RootEntryCreated(m: Mem, o: Owner, root: bv64, sid: bv16, ctx: bv64)
    requires WF(m, o, root) && !Present(0, Read(m, Slot(root, RootIndex(sid))))
    requires Page(ctx) !in o && ctx < FRAME_LIMIT
    ensures WF(WithRootEntry(m, root, sid, ctx), o[Page(ctx) := Table(1, Slot(root, RootIndex(sid)))], root)
    ensures ReachAll(WithRootEntry(m, root, sid, ctx), root, sid, 1, ctx)
    ensures SameWalks(m, WithRootEntry(m, root, sid, ctx), root)
  {
    var a := Indices(sid, 0);
    assert SlotAt(m, root, a, 0) == Slot(root, RootIndex(sid));
    RootEntryPointsTo(ctx);
    var lo := Slot(root, RootIndex(sid));
    EntryCreated(m, o, root, a, 0, lo, Slot(root, RootIndex(sid) + 1), 0, ctx, EncodeRoot(RootEntry(true, ctx)), WithRootEntry(m, root, sid, ctx));
    ReachAllFromZero(WithRootEntry(m, root, sid, ctx), root, sid, 1);
  }

  /** A present context entry: every walk for sid goes on to the page table it names. */
  lemma ContextEntryFound(m: Mem, root: bv64, sid: bv16, ctx: bv64)
    requires Reaches(m, root, Indices(sid, 0), 1) && FrameAt(m, root, Indices(sid, 0), 1) == ctx
    requires Present(1, Read(m, Slot(ctx, CtxIndex(sid))))
    ensures ReachAll(m, root, sid, 2, DecodeContext(Read(m, Slot(ctx, CtxIndex(sid))), Read(m, Slot(ctx, CtxIndex(sid) + 1))).slptptr)
  {
    EntryFramesAreChild(Read(m, Slot(ctx, CtxIndex(sid))), Read(m, Slot(ctx, CtxIndex(sid) + 1)));
    assert SlotAt(m, root, Indices(sid, 0), 1) == Slot(ctx, CtxIndex(sid));
    ReachAllFromZero(m, root, sid, 2);
  }

  /**
   * A missing context entry filled in for the fresh page table pt: the
   * tables stay a tree with pt owned by that entry, every walk for sid
   * reaches pt, and no translation changes.
   */
  lemma ContextEntryCreated(m: Mem, o: Owner, root: bv64, sid: bv16, ctx: bv64, pt: bv64)
    requires WF(m, o, root) && Reaches(m, root, Indices(sid, 0), 1) && FrameAt(m, root, Indices(sid, 0), 1) == ctx
    requires !Present(1, Read(m, Slot(ctx, CtxIndex(sid))))
    requires Page(pt) !in o && pt < FRAME_LIMIT
    ensures WF(WithContextEntry(m, ctx, sid, pt), o[Page(pt) := Table(2, Slot(ctx, CtxIndex(sid)))], root)
    ensures ReachAll(WithContextEntry(m, ctx, sid, pt), root, sid, 2, pt)
    ensures SameWalks(m, WithContextEntry(m, ctx, sid, pt), root)
  {
    var a := Indices(sid, 0);
    assert SlotAt(m, root, a, 1) == Slot(ctx, CtxIndex(sid));
    ContextEntryPointsTo(sid, pt);
    var lo := Slot(ctx, CtxIndex(sid));
    EntryCreated(m, o, root, a, 1, lo, Slot(ctx, CtxIndex(sid) + 1), EncodeContextHi(NewContext(sid, pt)), pt,
                 EncodeContextLo(NewContext(sid, pt)), WithContextEntry(m, ctx, sid, pt));
    ReachAllFromZero(WithContextEntry(m, ctx, sid, pt), root, sid, 2);
  }

  /** A present level 3 or 2 entry s, read at depth k of walk a: a goes on to the table it names. */
  lemma TableEntryFound(m: Mem, root: bv64, a: seq<bv64>, k: nat, s: Slot)
    requires ValidIdx(a) && 2 <= k < WALK_LENGTH - 1 && Reaches(m, root, a, k) && s == SlotAt(m, root, a, k)
    requires Present(k, Read(m, s))
    ensures Reaches(m, root, a, k + 1) && FrameAt(m, root, a, k + 1) == PteFrame(Read(m, s))
  {
    PteFrameIsChild(Read(m, s));
  }

  /**
   * A level 3 or 2 entry s, read at depth k of walk a, whose RW bits are
   * clear, set to point to the fresh table f: the tables stay a tree, a now
   * reaches f at depth k + 1 through the entries it read before, no
   * translation changes, and every walk keeps its page table.
   */
  lemma TableEntryCreated(m: Mem, o: Owner, root: bv64, a: seq<bv64>, k: nat, s: Slot, f: bv64, m': Mem)
    requires WF(m, o, root) && ValidIdx(a) && 2 <= k < WALK_LENGTH - 1 && Reaches(m, root, a, k)
    requires s == SlotAt(m, root, a, k) && m' == m[s := TablePte(f)]
    requires !Present(k, Read(m, s))
    requires Page(f) !in o && f < FRAME_LIMIT
    ensures WF(m', o[Page(f) := Table(k + 1, s)], root)
    ensures Reaches(m', root, a, k + 1) && FrameAt(m', root, a, k + 1) == f
    ensures forall j :: 0 <= j <= k ==> FrameAt(m', root, a, j) == FrameAt(m, root, a, j)
    ensures SameWalks(m, m', root) && SameTops(m, m', root)
  {
    TablePtePointsTo(f, k);
    CreateStep(m, o, root, a, k, f, TablePte(f));
    forall b | ValidIdx(b) && Reaches(m, root, b, 2)
      ensures Reaches(m', root, b, 2) && FrameAt(m', root, b, 2) == FrameAt(m, root, b, 2)
    {
      DeepWriteKeepsTop(m, o, root, a, k, TablePte(f), b);
    }
  }

  /** No translation but the one along a differs between m and m'. */
  ghost predicate SameWalksBut(m: Mem, m': Mem, root: bv64, a: seq<bv64>)
  {
    forall b {:trigger Walk(m', root, b)} :: ValidIdx(b) && b != a ==> Walk(m', root, b) == Walk(m, root, b)
  }

  /**
   * The leaf s of walk a written with v: a translates to v, no other
   * translation changes, the tables stay a tree, every walk keeps its page
   * table, and a still reads the same entries.
   */
  lemma LeafWritten(m: Mem, o: Owner, root: bv64, a: seq<bv64>, s: Slot, v: bv64, m': Mem)
    requires WF(m, o, root) && ValidIdx(a) && Reaches(m, root, a, WALK_LENGTH - 1) && Present(WALK_LENGTH - 1, v)
    requires s == SlotAt(m, root, a, 4) && m' == m[s := v]
    ensures WF(m', o, root) && Walk(m', root, a) == Some(v)
    ensures SameWalksBut(m, m', root, a) && SameTops(m, m', root)
    ensures forall j :: 2 <= j <= 4 ==> SlotAt(m', root, a, j) == SlotAt(m, root, a, j)
  {
    LeafStep(m, o, root, a, v);
    forall b | ValidIdx(b) && Reaches(m, root, b, 2)
      ensures Reaches(m', root, b, 2) && FrameAt(m', root, b, 2) == FrameAt(m, root, b, 2)
    {
      DeepWriteKeepsTop(m, o, root, a, 4, v, b);
    }
    forall j | 2 <= j <= 4
      ensures SlotAt(m', root, a, j) == SlotAt(m, root, a, j)
    {
      WriteKeepsPrefix(m, o, root, a, 4, v, j);
    }
  }

  /**
   * The leaf write that ends an installation whose earlier steps only added
   * table entries on walk a: a now translates to v, no other translation
   * differs from m0, and only the entries of a at depths 2 to 4 were written.
   */
  lemma LeafInstalled(m0: Mem, m: Mem, o: Owner, root: bv64, a: seq<bv64>, s: Slot, v: bv64, m': Mem)
    requires WF(m, o, root) && ValidIdx(a) && Reaches(m, root, a, WALK_LENGTH - 1) && Present(WALK_LENGTH - 1, v)
    requires s == SlotAt(m, root, a, 4) && m' == m[s := v]
    requires SameWalks(m0, m, root) && SameTops(m0, m, root) && WrittenAbove(m0, m, root, a, 4)
    ensures WF(m', o, root) && Walk(m', root, a) == Some(v)
    ensures SameWalksBut(m0, m', root, a) && SameTops(m0, m', root)
    ensures forall t {:trigger Changed(m0, m', t)} :: Changed(m0, m', t) ==>
              t == SlotAt(m', root, a, 2) || t == SlotAt(m', root, a, 3) || t == SlotAt(m', root, a, 4)
  {
    LeafWritten(m, o, root, a, s, v, m');
    assert SlotAt(m', root, a, 2) == SlotAt(m, root, a, 2) && SlotAt(m', root, a, 3) == SlotAt(m, root, a, 3);
    assert SlotAt(m', root, a, 4) == s;
    forall t | Changed(m0, m', t)
      ensures t == SlotAt(m', root, a, 2) || t == SlotAt(m', root, a, 3) || t == SlotAt(m', root, a, 4)
    {
      if t != s {
        assert Changed(m0, m, t);
      }
    }
  }

  /**
   * The leaf each walk is to end on once the first n pages of the range at
   * iova are mapped to the pages at pa for source sid: each page sets the
   * leaf of its own entries, so a later page that reuses an earlier page's
   * entries overrides it.
   */
  ghost function Wanted(sid: bv16, iova: bv64, pa: bv64, n: nat): map<seq<bv64>, bv64>
  {
    if n == 0 then map[] else Wanted(sid, iova, pa, n - 1)[Indices(sid, PageAt(iova, n - 1)) := LeafPte(PageAt(pa, n - 1))]
  }

  /** Every walk w names ends on the leaf w gives it. */
  ghost predicate Installed(m: Mem, root: bv64, w: map<seq<bv64>, bv64>)
  {
    forall b {:trigger Walk(m, root, b)} :: b in w && ValidIdx(b) ==> Walk(m, root, b) == Some(w[b])
  }

  /** Every walk w does not name is as in m0. */
  ghost predicate KeptBut(m0: Mem, m: Mem, root: bv64, w: map<seq<bv64>, bv64>)
  {
    forall b {:trigger Walk(m, root, b)} :: ValidIdx(b) && b !in w ==> Walk(m, root, b) == Walk(m0, root, b)
  }

  /** Installing page k of the range, changing no other walk, extends what is installed to the first k + 1 pages. */
  lemma InstallStep(m0: Mem, m: Mem, m': Mem, root: bv64, sid: bv16, iova: bv64, pa: bv64, j: nat, k: nat, va: bv64, addr: bv64)
    requires k == j + 1 && va == PageAt(iova, j) && addr == PageAt(pa, j)
    requires Installed(m, root, Wanted(sid, iova, pa, j)) && KeptBut(m0, m, root, Wanted(sid, iova, pa, j))
    requires Translate(m', root, sid, va) == Some(LeafPte(addr)) && SameWalksBut(m, m', root, Indices(sid, va))
    ensures Installed(m', root, Wanted(sid, iova, pa, k)) && KeptBut(m0, m', root, Wanted(sid, iova, pa, k))
  {
    WantedNext(sid, iova, pa, j, k);
    InstallOne(m0, m, m', root, Wanted(sid, iova, pa, j), Indices(sid, va), LeafPte(addr));
  }

  /** Page j of the range is the one the first j + 1 pages add to the first j. */
  lemma WantedNext(sid: bv16, iova: bv64, pa: bv64, j: nat, k: nat)
    requires k == j + 1
    ensures Wanted(sid, iova, pa, k) == Wanted(sid, iova, pa, j)[Indices(sid, PageAt(iova, j)) := LeafPte(PageAt(pa, j))]
  {
  }

  /** Setting walk a to v, changing no other walk, extends what is installed by a := v. */
  lemma InstallOne(m0: Mem, m: Mem, m': Mem, root: bv64, w: map<seq<bv64>, bv64>, a: seq<bv64>, v: bv64)
    requires Installed(m, root, w) && KeptBut(m0, m, root, w)
    requires ValidIdx(a) && Walk(m', root, a) == Some(v) && SameWalksBut(m, m', root, a)
    ensures Installed(m', root, w[a := v]) && KeptBut(m0, m', root, w[a := v])
  {
  }

  /** Nothing is installed before the first page, and no walk has changed yet. */
  lemma NothingInstalled(m0: Mem, m: Mem, root: bv64)
    requires SameWalks(m0, m, root)
    ensures Installed(m, root, map[]) && KeptBut(m0, m, root, map[])
  {
  }

  /** A page that no later page of the range reuses keeps the leaf mapping its own page of pa. */
  lemma {:induction false} WantedLastUse(sid: bv16, iova: bv64, pa: bv64, j: nat, n: nat)
    requires j < n && LastUse(iova, j, n)
    ensures Indices(sid, PageAt(iova, j)) in Wanted(sid, iova, pa, n)
    ensures Wanted(sid, iova, pa, n)[Indices(sid, PageAt(iova, j))] == LeafPte(PageAt(pa, j))
    decreases n
  {
    if j < n - 1 {
      assert Key(PageAt(iova, n - 1)) != Key(PageAt(iova, j));
      IndicesInjective(sid, PageAt(iova, j), sid, PageAt(iova, n - 1));
      assert LastUse(iova, j, n - 1);
      WantedLastUse(sid, iova, pa, j, n - 1);
    }
  }

  /** A walk that uses none of the range's entries is not among the wanted ones. */
  lemma {:induction false} WantedUntouched(sid': bv16, x: bv64, sid: bv16, iova: bv64, pa: bv64, n: nat)
    requires Untouched(sid', x, sid, iova, n)
    ensures Indices(sid', x) !in Wanted(sid, iova, pa, n)
    decreases n
  {
    if n > 0 {
      IndicesInjective(sid', x, sid, PageAt(iova, n - 1));
      assert Untouched(sid', x, sid, iova, n - 1);
      WantedUntouched(sid', x, sid, iova, pa, n - 1);
    }
  }

  /** Once the range is installed, each page no later page reuses translates to its own page of pa. */
  lemma RangeMapped(m: Mem, root: bv64, sid: bv16, iova: bv64, pa: bv64, n: nat)
    requires Installed(m, root, Wanted(sid, iova, pa, n))
    ensures forall j :: 0 <= j < n && LastUse(iova, j, n) ==> Translate(m, root, sid, PageAt(iova, j)) == Some(LeafPte(PageAt(pa, j)))
  {
    forall j | 0 <= j < n && LastUse(iova, j, n)
      ensures Translate(m, root, sid, PageAt(iova, j)) == Some(LeafPte(PageAt(pa, j)))
    {
      WantedLastUse(sid, iova, pa, j, n);
    }
  }

  /** Once the range is installed, every translation that uses none of its entries is as in m0. */
  lemma RangeKept(m0: Mem, m: Mem, root: bv64, sid: bv16, iova: bv64, pa: bv64, n: nat)
    requires KeptBut(m0, m, root, Wanted(sid, iova, pa, n))
    ensures forall sid', x :: Untouched(sid', x, sid, iova, n) ==> Translate(m, root, sid', x) == Translate(m0, root, sid', x)
  {
    forall sid', x | Untouched(sid', x, sid, iova, n)
      ensures Translate(m, root, sid', x) == Translate(m0, root, sid', x)
    {
      WantedUntouched(sid', x, sid, iova, pa, n);
    }
  }
}
