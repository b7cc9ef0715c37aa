/**
 * The in-memory descriptor formats an Intel VT-d unit reads, as 64-bit words
 * with explicit shifts and masks (chapter 9 of the Intel VT-d Architecture
 * Specification): root entries, context entries, second-level page-table
 * entries and interrupt remapping table entries, and the remappable-format
 * MSI address of its section 5.1.2.2.
 */
module VtdDescriptors {

  /** Frame numbers are 52 bits wide: a frame shifted left by 12 is the page's address. */
  const FRAME_LIMIT: bv64 := 0x10_0000_0000_0000

  /** Read and write permission bits of a second-level page-table entry. */
  const PTE_RW: bv64 := 3
  /** The super-page bit of a second-level page-table entry. */
  const PTE_HUGE: bv64 := 0x80
  /** The address bits of a second-level page-table entry. */
  const PTE_ADDR: bv64 := 0xffff_ffff_ffff_f000

  /** Translation type "untranslated requests go through the multi-level table". */
  const CONTEXT_TT_MULTI_LEVEL: bv2 := 0
  /** Address width field for a 39-bit, 3-level table. */
  const CE_AW_39BIT: bv3 := 1

  /** The address of the page with frame number f (the identity mapping between physical and virtual). */
  function FrameToPage(f: bv64): bv64
  {
    f << 12
  }

  /** The frame number of the page at address p. */
  function PageFrame(p: bv64): bv64
  {
    p >> 12
  }

  lemma PageFrameOfFrame(f: bv64)
    requires f < FRAME_LIMIT
    ensures PageFrame(FrameToPage(f)) == f
    ensures FrameToPage(f) & 0xfff == 0
  {
  }

  // ---------------------------------------------------------------- root entry

  /** The low word of a root entry: bit 0 present, bits 12-63 the frame of the context table. */
  datatype RootEntry = RootEntry(present: bool, contextTable: bv64)

  function EncodeRoot(e: RootEntry): bv64
  {
    (e.contextTable << 12) | (if e.present then 1 else 0)
  }

  function DecodeRoot(lo: bv64): RootEntry
  {
    RootEntry(lo & 1 == 1, lo >> 12)
  }

  /** Decoding an encoded root entry gives it back, and encoding a decoded word keeps all but its reserved bits. */
  lemma RootRoundTrip(e: RootEntry, lo: bv64)
    requires e.contextTable < FRAME_LIMIT
    ensures DecodeRoot(EncodeRoot(e)) == e
    ensures EncodeRoot(DecodeRoot(lo)) == lo & 0xffff_ffff_ffff_f001
  {
  }

  // ------------------------------------------------------------- context entry

  /**
   * A context entry.  Low word: bit 0 present, bit 1 fault reporting
   * disabled, bits 2-3 translation type, bits 12-63 the frame of the page
   * table.  High word: bits 0-2 address width, bits 8-23 domain id.
   */
  datatype ContextEntry = ContextEntry(
    present: bool, faultDisable: bool, transType: bv2, slptptr: bv64,
    addrWidth: bv3, domainId: bv16)

  function EncodeContextLo(e: ContextEntry): bv64
  {
    (e.slptptr << 12) | ((e.transType as bv64) << 2) |
    (if e.faultDisable then 2 else 0) | (if e.present then 1 else 0)
  }

  function EncodeContextHi(e: ContextEntry): bv64
  {
    ((e.domainId as bv64) << 8) | (e.addrWidth as bv64)
  }

  function DecodeContext(lo: bv64, hi: bv64): ContextEntry
  {
    ContextEntry(lo & 1 == 1, lo & 2 == 2, ((lo >> 2) & 3) as bv2, lo >> 12,
                 (hi & 7) as bv3, ((hi >> 8) & 0xffff) as bv16)
  }

  lemma ContextRoundTrip(e: ContextEntry)
    requires e.slptptr < FRAME_LIMIT
    ensures DecodeContext(EncodeContextLo(e), EncodeContextHi(e)) == e
  {
  }

  /** The context entry the engine creates for a device: its own domain, a 39-bit multi-level table at frame f. */
  function NewContext(sid: bv16, f: bv64): ContextEntry
  {
    ContextEntry(true, true, CONTEXT_TT_MULTI_LEVEL, f, CE_AW_39BIT, sid)
  }

  lemma NewContextWords(sid: bv16, f: bv64)
    requires f < FRAME_LIMIT
    ensures EncodeContextLo(NewContext(sid, f)) == (f << 12) | 3
    ensures EncodeContextHi(NewContext(sid, f)) == ((sid as bv64) << 8) | 1
    ensures DecodeContext((f << 12) | 3, ((sid as bv64) << 8) | 1) == NewContext(sid, f)
  {
    ContextRoundTrip(NewContext(sid, f));
  }

  // ----------------------------------------------------------- page-table entry

  /** A level 3 or 2 entry pointing to the next-level table at frame f. */
  function TablePte(f: bv64): bv64
  {
    FrameToPage(f) | PTE_RW
  }

  /** The leaf entry mapping the page at address pa, readable and writable. */
  function LeafPte(pa: bv64): bv64
  {
    pa | PTE_RW
  }

  /** The frame a page-table entry points to. */
  function PteFrame(e: bv64): bv64
  {
    PageFrame(e & PTE_ADDR)
  }

  lemma TablePteFields(f: bv64)
    requires f < FRAME_LIMIT
    ensures PteFrame(TablePte(f)) == f && TablePte(f) & PTE_RW == PTE_RW && TablePte(f) & PTE_HUGE == 0
  {
  }

  /** A leaf for a page-aligned address is present, points to that page and is not a super-page. */
  lemma LeafPteFields(pa: bv64)
    requires pa & 0xfff == 0
    ensures LeafPte(pa) & PTE_RW == PTE_RW && LeafPte(pa) & PTE_HUGE == 0
    ensures LeafPte(pa) & PTE_ADDR == pa
  {
  }

  // ------------------------------------------------- interrupt remapping entry

  /**
   * An interrupt remapping table entry (128 bits).  Low word: bit 0 present,
   * 1 fault processing disable, 2 destination mode, 3 redirection hint,
   * 4 trigger mode, 5-7 delivery mode, 15 IRTE mode, 16-23 vector, 32-63
   * destination id.  High word: bits 0-15 source id, 16-17 source-id
   * qualifier, 18-19 source validation type.
   */
  datatype Irte = Irte(
    present: bool, faultDisable: bool, destMode: bool, redirHint: bool,
    triggerMode: bool, deliveryMode: bv3, irteMode: bool, vector: bv8,
    destId: bv32, sourceId: bv16, sidQ: bv2, sidVtype: bv2)

  function Bit(b: bool, n: bv64): bv64
  {
    if b then n else 0
  }

  /** The one-bit fields of the low word: bits 0-4 and 15. */
  const IRTE_FLAG_BITS: bv64 := 0x801f

  function IrteFlags(e: Irte): bv64
  {
    Bit(e.present, 1) | Bit(e.faultDisable, 2) | Bit(e.destMode, 4) | Bit(e.redirHint, 8) |
    Bit(e.triggerMode, 0x10) | Bit(e.irteMode, 0x8000)
  }

  /** The low word from its one-bit fields and its delivery mode, vector and destination id. */
  function PackIrteLo(flags: bv64, deliveryMode: bv3, vector: bv8, destId: bv32): bv64
  {
    flags | ((deliveryMode as bv64) << 5) | ((vector as bv64) << 16) | ((destId as bv64) << 32)
  }

  function EncodeIrteLo(e: Irte): bv64
  {
    PackIrteLo(IrteFlags(e), e.deliveryMode, e.vector, e.destId)
  }

  function EncodeIrteHi(e: Irte): bv64
  {
    (e.sourceId as bv64) | ((e.sidQ as bv64) << 16) | ((e.sidVtype as bv64) << 18)
  }

  function DecodeIrte(lo: bv64, hi: bv64): Irte
  {
    Irte(lo & 1 != 0, lo & 2 != 0, lo & 4 != 0, lo & 8 != 0, lo & 0x10 != 0,
         ((lo >> 5) & 7) as bv3, lo & 0x8000 != 0, ((lo >> 16) & 0xff) as bv8,
         (lo >> 32) as bv32, (hi & 0xffff) as bv16, ((hi >> 16) & 3) as bv2,
         ((hi >> 18) & 3) as bv2)
  }

  lemma IrteRoundTrip(e: Irte)
    ensures DecodeIrte(EncodeIrteLo(e), EncodeIrteHi(e)) == e
  {
    var f, lo := IrteFlags(e), EncodeIrteLo(e);
    FlagsInPlace(e);
    PackKeepsFlags(f, e.deliveryMode, e.vector, e.destId, lo);
    FlagsBack(e, lo);
    PackDeliveryMode(f, e.deliveryMode, e.vector, e.destId, lo);
    PackVector(f, e.deliveryMode, e.vector, e.destId, lo);
    PackDestId(f, e.deliveryMode, e.vector, e.destId, lo);
    IrteSourceBack(e, EncodeIrteHi(e));
  }

  lemma FlagsInPlace(e: Irte)
    ensures IrteFlags(e) & !IRTE_FLAG_BITS == 0
  {
  }

  /** A word whose one-bit-field positions hold e's flags reads back e's one-bit fields. */
  lemma FlagsBack(e: Irte, lo: bv64)
    requires lo & IRTE_FLAG_BITS == IrteFlags(e)
    ensures (lo & 1 != 0) == e.present && (lo & 2 != 0) == e.faultDisable && (lo & 4 != 0) == e.destMode
    ensures (lo & 8 != 0) == e.redirHint && (lo & 0x10 != 0) == e.triggerMode && (lo & 0x8000 != 0) == e.irteMode
  {
  }

  lemma PackKeepsFlags(flags: bv64, deliveryMode: bv3, vector: bv8, destId: bv32, lo: bv64)
    requires flags & !IRTE_FLAG_BITS == 0 && lo == PackIrteLo(flags, deliveryMode, vector, destId)
    ensures lo & IRTE_FLAG_BITS == flags
  {
  }

  lemma PackDeliveryMode(flags: bv64, deliveryMode: bv3, vector: bv8, destId: bv32, lo: bv64)
    requires flags & !IRTE_FLAG_BITS == 0 && lo == PackIrteLo(flags, deliveryMode, vector, destId)
    ensures ((lo >> 5) & 7) as bv3 == deliveryMode
  {
  }

  lemma PackVector(flags: bv64, deliveryMode: bv3, vector: bv8, destId: bv32, lo: bv64)
    requires flags & !IRTE_FLAG_BITS == 0 && lo == PackIrteLo(flags, deliveryMode, vector, destId)
    ensures ((lo >> 16) & 0xff) as bv8 == vector
  {
  }

  lemma PackDestId(flags: bv64, deliveryMode: bv3, vector: bv8, destId: bv32, lo: bv64)
    requires flags & !IRTE_FLAG_BITS == 0 && lo == PackIrteLo(flags, deliveryMode, vector, destId)
    ensures (lo >> 32) as bv32 == destId
  {
  }

  /** The source-id fields of the high word read back. */
  lemma IrteSourceBack(e: Irte, hi: bv64)
    requires hi == EncodeIrteHi(e)
    ensures (hi & 0xffff) as bv16 == e.sourceId && ((hi >> 16) & 3) as bv2 == e.sidQ && ((hi >> 18) & 3) as bv2 == e.sidVtype
  {
  }

  /** Bits the entry format reserves are zero in an encoded entry. */
  lemma IrteReservedZero(e: Irte)
    ensures EncodeIrteLo(e) & 0xff00_7f00 == 0
    ensures EncodeIrteHi(e) & 0xffff_ffff_fff0_0000 == 0
  {
  }

  /**
   * The entry the engine writes for a device: present, fault processing
   * disabled, physical destination, edge triggered, fixed delivery,
   * remapped format, full source-id check.  The vector and destination are C
   * ints stored into an 8-bit and a 32-bit field.
   */
  function NewIrte(vector: bv32, destId: bv32, sourceId: bv16): (e: Irte)
    ensures EncodeIrteLo(e) & 0xffff == 0x3 && (EncodeIrteLo(e) >> 16) & 0xff == (vector & 0xff) as bv64
    ensures EncodeIrteLo(e) >> 32 == destId as bv64
    ensures EncodeIrteHi(e) == (sourceId as bv64) | 0x4_0000
  {
    Irte(true, true, false, false, false, 0, false, (vector & 0xff) as bv8, destId, sourceId, 0, 1)
  }

  // ------------------------------------------------- remappable MSI address

  /**
   * The remappable-format MSI address for interrupt handle h: bit 2 is h[15],
   * bit 3 (SHV) 0, bit 4 (format) 1, bits 5-19 h[0:14], bits 20-31 0xfee, and
   * a zero high dword.
   */
  function MsiAddress(h: bv16): (a: bv64)
    ensures a >> 32 == 0 && (a >> 20) & 0xfff == 0xfee
  {
    ((((h >> 15) & 1) as bv64) << 2) | 0x10 | (((h & 0x7fff) as bv64) << 5) | 0xfee0_0000
  }

  /** The interrupt handle an MSI address in remappable format carries. */
  function MsiHandle(addr: bv64): bv16
  {
    (((addr >> 5) & 0x7fff) as bv16) | ((((addr >> 2) & 1) as bv16) << 15)
  }

  /** The MSI data word: subhandle 0, reserved bits 0. */
  const MSI_DATA: bv32 := 0

  lemma MsiAddressFields(h: bv16)
    ensures (MsiAddress(h) >> 2) & 1 == ((h >> 15) & 1) as bv64
    ensures (MsiAddress(h) >> 5) & 0x7fff == (h & 0x7fff) as bv64
    ensures MsiAddress(h) & 0x18 == 0x10
    ensures (MsiAddress(h) >> 20) & 0xfff == 0xfee
    ensures MsiAddress(h) >> 32 == 0
  {
  }

  /** The handle is recovered from the address, so distinct handles give distinct addresses. */
  lemma MsiHandleRoundTrip(h: bv16, h': bv16)
    ensures MsiHandle(MsiAddress(h)) == h
    ensures MsiAddress(h) == MsiAddress(h') ==> h == h'
  {
    assert MsiHandle(MsiAddress(h')) == h';
  }

  // ------------------------------------------------------- frame-to-page macro

  /**
   * The page the reuse paths fetch from an entry's frame field, as the
   * source's VTD_FETCH_VIRT_ADDR computes it: the frame number shifted right
   * by the page shift, where the page's address is the frame shifted left.
   */
  function FetchVirtAddrAsWritten(x: bv64): (r: bv64)
    ensures r >> 52 == 0 && r <= x
  {
    x >> 12
  }

  /** For every nonzero frame the macro yields an address other than the page whose frame the entry holds. */
  lemma FetchVirtAddrMissesPage(f: bv64)
    requires 0 < f < FRAME_LIMIT
    ensures FetchVirtAddrAsWritten(f) != FrameToPage(f)
    ensures PageFrame(FetchVirtAddrAsWritten(f)) != f
  {
  }

  /** The context table at frame 1 (address 0x1000) is fetched from address 0 as written. */
  lemma FetchVirtAddrExample()
    ensures DecodeRoot(EncodeRoot(RootEntry(true, 1))).contextTable == 1
    ensures FetchVirtAddrAsWritten(1) == 0 && FrameToPage(1) == 0x1000
  {
  }
}
