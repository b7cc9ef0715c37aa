/**
 * How a DMA request from source id sid at I/O virtual address iova selects
 * the entries a 39-bit, 3-level VT-d walk reads: the root entry of the bus
 * (bits 8-15 of sid), the context entry of the device/function (bits 0-7),
 * and the page-table entries at bits 30-38, 21-29 and 12-20 of iova.  Root
 * and context entries are 16 bytes wide, so their low words sit at even word
 * indices.
 */
module VtdAddress {
  import opened Wrappers
  import opened VtdTables

  /** The 27 iova bits the walk looks at, bits 12-38. */
  const KEY_MASK: bv64 := 0x7ff_ffff

  /** PAGE_SIZE: 4 KiB. */
  const PAGE_SIZE: bv64 := 0x1000

  /** The word index of the low quad of the root entry for sid's bus. */
  function RootIndex(sid: bv16): bv64
  {
    ((sid >> 8) as bv64) << 1
  }

  /** The word index of the low quad of the context entry for sid's device/function. */
  function CtxIndex(sid: bv16): bv64
  {
    ((sid & 0xff) as bv64) << 1
  }

  /** PGDIR_OFFSET: the 9 bits of iova that select the entry of the level-`level` table. */
  function PgdirOffset(iova: bv64, level: nat): (r: bv64)
    requires 1 <= level <= 3
    ensures r < 512
  {
    if level == 3 then (iova >> 30) & 0x1ff
    else if level == 2 then (iova >> 21) & 0x1ff
    else (iova >> 12) & 0x1ff
  }

  /** The word indices a walk for (sid, iova) reads, from the root table down to the leaf. */
  function Indices(sid: bv16, iova: bv64): (idx: seq<bv64>)
    ensures ValidIdx(idx)
  {
    assert RootIndex(sid) & 1 == 0 && CtxIndex(sid) & 1 == 0;
    [RootIndex(sid), CtxIndex(sid), PgdirOffset(iova, 3), PgdirOffset(iova, 2), PgdirOffset(iova, 1)]
  }

  /** The leaf entry that translates iova for source sid in the tables rooted at frame root. */
  function Translate(mem: Mem, root: bv64, sid: bv16, iova: bv64): Option<bv64>
  {
    Walk(mem, root, Indices(sid, iova))
  }

  /** The page key of iova: the bits the three page-table offsets are taken from. */
  function Key(iova: bv64): bv64
  {
    (iova >> 12) & KEY_MASK
  }

  /** The address one page after x, in 64-bit wrapping arithmetic. */
  function NextPage(x: bv64): bv64
  {
    x + PAGE_SIZE
  }

  /** The address j pages after base, in 64-bit wrapping arithmetic, stepping as the mapping loop does. */
  function PageAt(base: bv64, j: nat): bv64
  {
    if j == 0 then base else NextPage(PageAt(base, j - 1))
  }

  /** The number of 4 KiB pages in a page-aligned size, counted the way the mapping loop counts them down. */
  function Pages(size: bv64): nat
    requires size & 0xfff == 0
    decreases size
  {
    if size == 0 then 0 else AlignedDown(size); 1 + Pages(size - PAGE_SIZE)
  }

  lemma BusDevfnInjective(sid: bv16, sid': bv16)
    ensures (RootIndex(sid) == RootIndex(sid') && CtxIndex(sid) == CtxIndex(sid')) <==> sid == sid'
  {
  }

  lemma OffsetsFromKey(x: bv64, y: bv64)
    ensures Key(x) == Key(y) ==> PgdirOffset(x, 3) == PgdirOffset(y, 3) && PgdirOffset(x, 2) == PgdirOffset(y, 2)
    ensures Key(x) == Key(y) ==> PgdirOffset(x, 1) == PgdirOffset(y, 1)
  {
  }

  lemma KeyFromOffsets(x: bv64, y: bv64)
    requires PgdirOffset(x, 3) == PgdirOffset(y, 3) && PgdirOffset(x, 2) == PgdirOffset(y, 2)
    requires PgdirOffset(x, 1) == PgdirOffset(y, 1)
    ensures Key(x) == Key(y)
  {
  }

  /** The walk entry at depth 5 - level is the level-`level` page-table offset. */
  lemma OffsetAt(sid: bv16, iova: bv64, level: nat, k: nat)
    requires 1 <= level <= 3 && k == 5 - level
    ensures Indices(sid, iova)[k] == PgdirOffset(iova, level)
  {
  }

  /** Two requests use the same entries exactly when they come from the same source and agree on the page key. */
  lemma IndicesInjective(sid: bv16, x: bv64, sid': bv16, y: bv64)
    ensures Indices(sid, x) == Indices(sid', y) <==> sid == sid' && Key(x) == Key(y)
  {
    BusDevfnInjective(sid, sid');
    OffsetsFromKey(x, y);
    if Indices(sid, x) == Indices(sid', y) {
      assert Indices(sid, x)[2] == Indices(sid', y)[2];
      assert Indices(sid, x)[3] == Indices(sid', y)[3];
      assert Indices(sid, x)[4] == Indices(sid', y)[4];
      assert Indices(sid, x)[0] == Indices(sid', y)[0] && Indices(sid, x)[1] == Indices(sid', y)[1];
      KeyFromOffsets(x, y);
    }
  }

  /** Taking one page off a nonzero page-aligned size leaves a smaller page-aligned size. */
  lemma AlignedDown(size: bv64)
    requires size & 0xfff == 0 && size != 0
    ensures (size - PAGE_SIZE) & 0xfff == 0 && size - PAGE_SIZE < size
  {
  }

  lemma AlignedUp(x: bv64)
    requires x & 0xfff == 0
    ensures NextPage(x) & 0xfff == 0
  {
  }

  /** One turn of the mapping loop: one page fewer to go, and the next page of each range. */
  lemma PageStep(size: bv64, left: bv64, j: nat, k: nat, iova: bv64, pa: bv64, va: bv64, addr: bv64)
    requires size & 0xfff == 0 && left & 0xfff == 0 && left != 0 && Pages(size) == j + Pages(left) && k == j + 1
    requires va == PageAt(iova, j) && addr == PageAt(pa, j)
    ensures (left - PAGE_SIZE) & 0xfff == 0 && Pages(left) == 1 + Pages(left - PAGE_SIZE) && Pages(size) == k + Pages(left - PAGE_SIZE)
    ensures NextPage(va) == PageAt(iova, k) && NextPage(addr) == PageAt(pa, k)
  {
    AlignedDown(left);
  }

  /** Every page of a range with a page-aligned base is page-aligned. */
  lemma {:induction false} PageAtAligned(base: bv64, j: nat)
    requires base & 0xfff == 0
    ensures PageAt(base, j) & 0xfff == 0
  {
    if j > 0 {
      PageAtAligned(base, j - 1);
      AlignedUp(PageAt(base, j - 1));
    }
  }

  /** No later page of the n-page range at base has the page key of page j, so no later page reuses page j's entries. */
  ghost predicate LastUse(base: bv64, j: nat, n: nat)
  {
    forall j' :: j < j' < n ==> Key(PageAt(base, j')) != Key(PageAt(base, j))
  }

  /** (sid', x) translates through none of the entries the n-page range at base uses for source sid. */
  ghost predicate Untouched(sid': bv16, x: bv64, sid: bv16, base: bv64, n: nat)
  {
    sid' != sid || forall j :: 0 <= j < n ==> Key(x) != Key(PageAt(base, j))
  }
}
