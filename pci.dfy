/**
 * The PCI configuration layer: device lookup on bus 0, the command
 * register, base address registers (classification, decoding and the
 * save / write-all-ones / read-back / restore size probe of section 6.2.5.1
 * of the PCI Local Bus Specification 3.0), the capability walk of
 * section 6.7 and MSI programming of section 6.8.1.
 *
 * Register offsets and bit values are those of the standard type 0
 * configuration header.
 */
module Pci {
  import opened Wrappers
  import opened PciConfig

  const PCI_VENDOR_ID: Offset := 0x00
  const PCI_DEVICE_ID: Offset := 0x02
  const PCI_COMMAND: Offset := 0x04
  const PCI_BASE_ADDRESS_0: Offset := 0x10
  const PCI_CAPABILITY_LIST: Offset := 0x34

  /** Bus-master enable in the command register. */
  const PCI_COMMAND_MASTER: bv16 := 0x4

  /** Number of base address registers in a type 0 header. */
  const PCI_BAR_NUM: bv8 := 6
  /** Device/function slots scanned on bus 0. */
  const PCI_DEVFN_MAX: Bdf := 256
  /** What pci_find_dev returns when no slot matches. */
  const PCIDEVADDR_INVALID: Bdf := 0xffff

  const PCI_CAP_ID_MSI: bv8 := 0x05

  // Offsets inside the MSI capability and bits of its control word.
  const PCI_MSI_FLAGS: Offset := 2
  const PCI_MSI_ADDRESS_LO: Offset := 4
  const PCI_MSI_ADDRESS_HI: Offset := 8
  const PCI_MSI_DATA_32: Offset := 8
  const PCI_MSI_DATA_64: Offset := 12
  const PCI_MSI_FLAGS_ENABLE: bv16 := 0x0001
  const PCI_MSI_FLAGS_64BIT: bv16 := 0x0080

  /** Hops after which a capability chain that has not reached a zero pointer must have revisited a node. */
  const CAP_CHAIN_FUEL: nat := 256

  // ---------------------------------------------------------------------------
  // Device lookup

  /** pci_dev_exists: both identifier words differ from the all-ones "absent" value. */
  predicate DevExists(regs: Regs, bdf: Bdf)
    ensures DevExists(regs, bdf) ==>
              LocOf(bdf, PCI_VENDOR_ID) in regs && regs[LocOf(bdf, PCI_VENDOR_ID)] != 0xffff_ffff
  {
    LoadW(regs, bdf, PCI_VENDOR_ID) != 0xffff && LoadW(regs, bdf, PCI_DEVICE_ID) != 0xffff
  }

  /** A slot whose identifier register nothing decodes reads all-ones, so no device is there. */
  lemma AbsentSlotDoesNotExist(regs: Regs, bdf: Bdf)
    requires LocOf(bdf, PCI_VENDOR_ID) !in regs
    ensures !DevExists(regs, bdf)
  {
  }

  /** The slot carries the given vendor and device identifiers. */
  predicate Matches(regs: Regs, bdf: Bdf, vendorId: bv16, deviceId: bv16)
  {
    LoadW(regs, bdf, PCI_VENDOR_ID) == vendorId && LoadW(regs, bdf, PCI_DEVICE_ID) == deviceId
  }

  /** A slot that matches real identifiers (neither all-ones) holds a device. */
  lemma MatchingSlotExists(regs: Regs, bdf: Bdf, vendorId: bv16, deviceId: bv16)
    requires Matches(regs, bdf, vendorId, deviceId) && vendorId != 0xffff && deviceId != 0xffff
    ensures DevExists(regs, bdf)
  {
  }

  /** pci_find_dev: the first slot of bus 0 whose identifiers match. */
  method FindDev(cfg: ConfigSpace, vendorId: bv16, deviceId: bv16) returns (dev: Bdf)
    ensures dev == PCIDEVADDR_INVALID <==>
              forall d: Bdf :: d < PCI_DEVFN_MAX ==> !Matches(cfg.regs, d, vendorId, deviceId)
    ensures dev != PCIDEVADDR_INVALID ==>
              dev < PCI_DEVFN_MAX && Matches(cfg.regs, dev, vendorId, deviceId) &&
              forall d: Bdf :: d < dev ==> !Matches(cfg.regs, d, vendorId, deviceId)
  {
    dev := 0;
    while dev < PCI_DEVFN_MAX
      invariant dev <= PCI_DEVFN_MAX
      invariant forall d: Bdf :: d < dev ==> !Matches(cfg.regs, d, vendorId, deviceId)
    {
      var vendor := cfg.ReadW(dev, PCI_VENDOR_ID);
      var device := cfg.ReadW(dev, PCI_DEVICE_ID);
      assert Matches(cfg.regs, dev, vendorId, deviceId) <==> vendor == vendorId && device == deviceId;
      if vendor == vendorId && device == deviceId {
        return;
      }
      dev := dev + 1;
    }
    assert dev == PCI_DEVFN_MAX;
    return PCIDEVADDR_INVALID;
  }

  // ---------------------------------------------------------------------------
  // Command register

  /** The command word pci_cmd_set_clr writes back. */
  function SetClr(val: bv16, setBits: bv16, clearBits: bv16): (r: bv16)
    requires setBits & clearBits == 0
    ensures r & setBits == setBits && r & clearBits == 0
    ensures r & !(setBits | clearBits) == val & !(setBits | clearBits)
  {
    (val | setBits) & !clearBits
  }

  // ---------------------------------------------------------------------------
  // Base address registers

  /** The information bits of a BAR: I/O space indicator and memory type. */
  function BarMask(bar: bv32): (m: bv32)
    ensures m & 0x3 == 0 && m >> 4 == 0x0fff_ffff
    ensures m & 0xc == 0 <==> bar & 0x1 == 0
  {
    if bar & 0x1 != 0 then 0xffff_fffc else 0xffff_fff0
  }

  /** The offset of BAR n, truncated to the 8-bit register number the accessors take. */
  function BarOffset(n: bv8): Offset
  {
    PCI_BASE_ADDRESS_0 + (n << 2)
  }

  /** pci_bar_get: the dword of BAR n, which lies in the header's BAR area for the six BARs. */
  function BarGet(regs: Regs, bdf: Bdf, n: bv8): (v: bv32)
    ensures n < PCI_BAR_NUM ==> 0x10 <= BarOffset(n) <= 0x24 && BarOffset(n) & 0x3 == 0
    ensures LocOf(bdf, BarOffset(n)) !in regs ==> v == 0xffff_ffff
  {
    LoadL(regs, bdf, BarOffset(n))
  }

  /** pci_bar_is_memory: the space bit is clear, so the address is taken under the memory mask. */
  predicate BarIsMemory(regs: Regs, bdf: Bdf, n: bv8)
    ensures BarIsMemory(regs, bdf, n) <==> BarMask(BarGet(regs, bdf, n)) == 0xffff_fff0
  {
    BarGet(regs, bdf, n) & 0x1 == 0
  }

  /** pci_bar_is_valid: the BAR is nonzero; a zero BAR reads as a memory BAR. */
  predicate BarIsValid(regs: Regs, bdf: Bdf, n: bv8)
    ensures !BarIsValid(regs, bdf, n) ==> BarIsMemory(regs, bdf, n)
  {
    BarGet(regs, bdf, n) != 0
  }

  /** A BAR value whose type bits say "64-bit memory". */
  predicate Type64(bar: bv32)
  {
    if bar & 0x1 != 0 then false else bar & 0x6 == 0x4
  }

  /** pci_bar_is64: a memory BAR of type 0b10; I/O BARs never are. */
  predicate BarIs64(regs: Regs, bdf: Bdf, n: bv8)
    ensures BarIs64(regs, bdf, n) <==> BarIsMemory(regs, bdf, n) && (BarGet(regs, bdf, n) >> 1) & 0x3 == 0x2
    ensures BarIs64(regs, bdf, n) ==> BarIsValid(regs, bdf, n)
  {
    Type64(BarGet(regs, bdf, n))
  }

  /** The address a BAR value decodes to, with the upper dword above it when the BAR is 64-bit. */
  function DecodeBar(bar: bv32, upper: bv32): (a: bv64)
    ensures Lo32(a) == bar & BarMask(bar) && a & 0x3 == 0
    ensures Type64(bar) ==> Hi32(a) == upper
    ensures !Type64(bar) ==> Hi32(a) == 0
  {
    var addr := (bar & BarMask(bar)) as bv64;
    if Type64(bar) then addr | ((upper as bv64) << 32) else addr
  }

  /** pci_bar_get_addr, with the host translation taken as the identity. */
  function BarGetAddr(regs: Regs, bdf: Bdf, n: bv8): (a: bv64)
    ensures Lo32(a) == BarGet(regs, bdf, n) & BarMask(BarGet(regs, bdf, n))
    ensures BarIs64(regs, bdf, n) ==> Hi32(a) == BarGet(regs, bdf, n + 1)
    ensures !BarIs64(regs, bdf, n) ==> Hi32(a) == 0
    ensures !BarIsValid(regs, bdf, n) ==> a == 0 && !BarIs64(regs, bdf, n)
  {
    DecodeBar(BarGet(regs, bdf, n), BarGet(regs, bdf, n + 1))
  }

  /** The low and the high dword of a 64-bit value. */
  function Lo32(x: bv64): bv32
  {
    (x & 0xffff_ffff) as bv32
  }

  function Hi32(x: bv64): bv32
  {
    (x >> 32) as bv32
  }

  /** The writes pci_bar_set_addr issues; the 64-bit test reads the BAR after the low write. */
  function SetAddrWrites(regs: Regs, masks: Masks, bdf: Bdf, n: bv8, addr: bv64): seq<Access>
  {
    var low := Access.WriteL(bdf, BarOffset(n), Lo32(addr));
    if BarIs64(Apply(regs, masks, low), bdf, n) then
      [low, Access.WriteL(bdf, BarOffset(n) + 4, Hi32(addr))]
    else [low]
  }

  /** What the all-ones probe of BAR n reads back: the writable bits become ones. */
  function ProbeValue(regs: Regs, masks: Masks, bdf: Bdf, n: bv8): bv32
  {
    BarGet(regs, bdf, n) | WMask(masks, LocOf(bdf, BarOffset(n)))
  }

  /**
   * The size decoded from the probe of a BAR whose saved value is bar: zero
   * when the probe reads zero, otherwise the two's complement of the address
   * bits read back, joined with the upper dword's probe for a 64-bit BAR.
   */
  function SizeOfProbe(probe: bv32, probeHi: bv32, bar: bv32, is64: bool): bv64
  {
    if probe == 0 then 0
    else
      var size := probe & BarMask(bar);
      if is64 then !(((probeHi as bv64) << 32) | size as bv64) + 1
      else (!size + 1) as bv64
  }

  /** pci_bar_size as a function of the configuration space before the probe. */
  function BarSizeOf(regs: Regs, masks: Masks, bdf: Bdf, n: bv8): bv64
  {
    SizeOfProbe(ProbeValue(regs, masks, bdf, n), ProbeValue(regs, masks, bdf, n + 1),
                BarGet(regs, bdf, n), BarIs64(regs, bdf, n))
  }

  /** A 64-bit value is its low dword joined with its high dword. */
  lemma JoinHalves(x: bv64)
    ensures (Lo32(x) as bv64) | ((Hi32(x) as bv64) << 32) == x
    ensures Hi32(x) == 0 ==> Lo32(x) as bv64 == x
  {
  }

  /** A write whose read-only bits agree with the register reads back as the value written. */
  lemma MergeAgrees(cur: bv32, v: bv32, m: bv32)
    requires v & !m == cur & !m
    ensures Merge(cur, v, m) == v
  {
  }

  /**
   * Writing a 16-byte aligned address whose bits the BAR cannot change already
   * read as written keeps the information bits (which are read-only) and makes
   * the address bits read as the address.
   */
  lemma MergeBarLow(raw: bv32, lo: bv32, m: bv32)
    requires m & 0xf == 0 && lo & 0xf == 0
    requires lo & !m == raw & 0xffff_fff0 & !m
    ensures Merge(raw, lo, m) & 0xf == raw & 0xf
    ensures Merge(raw, lo, m) & 0xffff_fff0 == lo
  {
  }

  /** The type bits of a BAR value decide whether it is 64-bit. */
  lemma SameType(w: bv32, raw: bv32)
    requires w & 0xf == raw & 0xf
    ensures Type64(w) == Type64(raw)
  {
  }

  /** A memory BAR value's address bits are the bits above the type bits. */
  lemma MemoryAddressBits(w: bv32, lo: bv32)
    requires w & 0x1 == 0 && w & 0xffff_fff0 == lo
    ensures w & BarMask(w) == lo
  {
  }

  /** Under the round-trip conditions the low write keeps the type bits and makes the address bits the value written. */
  lemma LowWriteBits(raw: bv32, m: bv32, lo: bv32, w: bv32)
    requires m & 0xf == 0 && lo & 0xf == 0
    requires lo & !m == raw & 0xffff_fff0 & !m
    requires w == Merge(raw, lo, m)
    ensures Type64(w) == Type64(raw) && w & 0x1 == raw & 0x1
    ensures raw & 0x1 == 0 ==> w & BarMask(w) == lo
  {
    MergeBarLow(raw, lo, m);
    TypeBitsKept(w, raw, lo);
  }

  /** A value with raw's type bits and address bits lo has raw's type and, for memory, decodes its address bits to lo. */
  lemma TypeBitsKept(w: bv32, raw: bv32, lo: bv32)
    requires w & 0xf == raw & 0xf && w & 0xffff_fff0 == lo
    ensures Type64(w) == Type64(raw)
    ensures w & 0x1 == raw & 0x1
    ensures raw & 0x1 == 0 ==> w & BarMask(w) == lo
  {
    SameType(w, raw);
    SameSpaceBit(w, raw);
    if raw & 0x1 == 0 {
      MemoryAddressBits(w, lo);
    }
  }

  /** The space bit is one of the type bits. */
  lemma SameSpaceBit(w: bv32, raw: bv32)
    requires w & 0xf == raw & 0xf
    ensures w & 0x1 == raw & 0x1
  {
  }

  /** A memory BAR value whose address bits are the low dword of addr decodes to addr. */
  lemma DecodeLowDword(w: bv32, upper: bv32, addr: bv64)
    requires w & 0x1 == 0 && w & BarMask(w) == Lo32(addr)
    ensures !Type64(w) && Hi32(addr) == 0 ==> DecodeBar(w, upper) == addr
    ensures Type64(w) && upper == Hi32(addr) ==> DecodeBar(w, upper) == addr
  {
    JoinHalves(addr);
  }

  /** The bit-level half of the 32-bit round trip: raw is the BAR, m its write-mask. */
  lemma RoundTrip32(raw: bv32, m: bv32, upper: bv32, addr: bv64)
    requires raw & 0x1 == 0 && !Type64(raw) && m & 0xf == 0
    requires Hi32(addr) == 0 && Lo32(addr) & 0xf == 0
    requires Lo32(addr) & !m == raw & 0xffff_fff0 & !m
    ensures !Type64(Merge(raw, Lo32(addr), m))
    ensures DecodeBar(Merge(raw, Lo32(addr), m), upper) == addr
  {
    LowWriteBits(raw, m, Lo32(addr), Merge(raw, Lo32(addr), m));
    DecodeLowDword(Merge(raw, Lo32(addr), m), upper, addr);
  }

  /** The bit-level half of the 64-bit round trip: raw and rawHi are the two dwords, m and mHi their write-masks. */
  lemma RoundTrip64(raw: bv32, m: bv32, rawHi: bv32, mHi: bv32, addr: bv64)
    requires Type64(raw) && m & 0xf == 0 && Lo32(addr) & 0xf == 0
    requires Lo32(addr) & !m == raw & 0xffff_fff0 & !m
    requires Hi32(addr) & !mHi == rawHi & !mHi
    ensures Type64(Merge(raw, Lo32(addr), m))
    ensures DecodeBar(Merge(raw, Lo32(addr), m), Merge(rawHi, Hi32(addr), mHi)) == addr
  {
    LowWriteBits(raw, m, Lo32(addr), Merge(raw, Lo32(addr), m));
    MergeAgrees(rawHi, Hi32(addr), mHi);
    DecodeLowDword(Merge(raw, Lo32(addr), m), Hi32(addr), addr);
  }

  /** The dword after BAR n is BAR n + 1, a different register. */
  lemma NextBarOffset(bdf: Bdf, n: bv8)
    ensures BarOffset(n + 1) == BarOffset(n) + 4
    ensures LocOf(bdf, BarOffset(n) + 4) != LocOf(bdf, BarOffset(n))
  {
  }

  /** When the low write leaves the BAR 32-bit, pci_bar_set_addr issues only that write. */
  lemma LowWriteOnly(regs: Regs, masks: Masks, bdf: Bdf, n: bv8, addr: bv64)
    requires LocOf(bdf, BarOffset(n)) in regs
    requires !Type64(Merge(regs[LocOf(bdf, BarOffset(n))], Lo32(addr), WMask(masks, LocOf(bdf, BarOffset(n)))))
    ensures var r1 := Apply(regs, masks, Access.WriteL(bdf, BarOffset(n), Lo32(addr)));
      && ApplyAll(regs, masks, SetAddrWrites(regs, masks, bdf, n, addr)) == r1
      && BarGet(r1, bdf, n) == Merge(regs[LocOf(bdf, BarOffset(n))], Lo32(addr), WMask(masks, LocOf(bdf, BarOffset(n))))
  {
    var low := Access.WriteL(bdf, BarOffset(n), Lo32(addr));
    assert SetAddrWrites(regs, masks, bdf, n, addr) == [low];
    ApplyAllSnoc(regs, masks, [], low);
  }

  /** When the low write leaves the BAR 64-bit, pci_bar_set_addr writes both dwords. */
  lemma LowThenHighWrite(regs: Regs, masks: Masks, bdf: Bdf, n: bv8, addr: bv64)
    requires LocOf(bdf, BarOffset(n)) in regs && LocOf(bdf, BarOffset(n) + 4) in regs
    requires Type64(Merge(regs[LocOf(bdf, BarOffset(n))], Lo32(addr), WMask(masks, LocOf(bdf, BarOffset(n)))))
    ensures var r := ApplyAll(regs, masks, SetAddrWrites(regs, masks, bdf, n, addr));
      && BarGet(r, bdf, n) == Merge(regs[LocOf(bdf, BarOffset(n))], Lo32(addr), WMask(masks, LocOf(bdf, BarOffset(n))))
      && BarGet(r, bdf, n + 1) == Merge(regs[LocOf(bdf, BarOffset(n) + 4)], Hi32(addr), WMask(masks, LocOf(bdf, BarOffset(n) + 4)))
  {
    var low := Access.WriteL(bdf, BarOffset(n), Lo32(addr));
    var high := Access.WriteL(bdf, BarOffset(n) + 4, Hi32(addr));
    var r1 := Apply(regs, masks, low);
    var r2 := Apply(r1, masks, high);
    NextBarOffset(bdf, n);
    assert SetAddrWrites(regs, masks, bdf, n, addr) == [low, high];
    assert ApplyAll(regs, masks, [low, high]) == r2 by {
      ApplyAllSnoc(regs, masks, [], low);
      ApplyAllSnoc(regs, masks, [low], high);
      assert [low] + [high] == [low, high];
    }
    StoreLOther(r1, masks, bdf, BarOffset(n) + 4, Hi32(addr), bdf, BarOffset(n));
  }

  /**
   * pci_bar_set_addr and pci_bar_get_addr round-trip on a 32-bit memory BAR:
   * the address must fit in 32 bits, be 16-byte aligned and agree with the
   * BAR's read-only address bits, and the information bits must be read-only.
   */
  lemma SetGetAddr32(regs: Regs, masks: Masks, bdf: Bdf, n: bv8, addr: bv64)
    requires LocOf(bdf, BarOffset(n)) in regs
    requires BarIsMemory(regs, bdf, n) && !BarIs64(regs, bdf, n)
    requires WMask(masks, LocOf(bdf, BarOffset(n))) & 0xf == 0
    requires Hi32(addr) == 0 && Lo32(addr) & 0xf == 0
    requires Lo32(addr) & !WMask(masks, LocOf(bdf, BarOffset(n)))
          == BarGet(regs, bdf, n) & 0xffff_fff0 & !WMask(masks, LocOf(bdf, BarOffset(n)))
    ensures BarGetAddr(ApplyAll(regs, masks, SetAddrWrites(regs, masks, bdf, n, addr)), bdf, n) == addr
  {
    var l := LocOf(bdf, BarOffset(n));
    var raw := regs[l];
    assert BarGet(regs, bdf, n) == raw;
    var r1 := Apply(regs, masks, Access.WriteL(bdf, BarOffset(n), Lo32(addr)));
    RoundTrip32(raw, WMask(masks, l), BarGet(r1, bdf, n + 1), addr);
    LowWriteOnly(regs, masks, bdf, n, addr);
  }

  /**
   * The same round trip on a 64-bit memory BAR: the address must be 16-byte
   * aligned and agree with the read-only bits of both dwords.
   */
  lemma SetGetAddr64(regs: Regs, masks: Masks, bdf: Bdf, n: bv8, addr: bv64)
    requires LocOf(bdf, BarOffset(n)) in regs && LocOf(bdf, BarOffset(n) + 4) in regs
    requires BarIs64(regs, bdf, n)
    requires WMask(masks, LocOf(bdf, BarOffset(n))) & 0xf == 0
    requires Lo32(addr) & 0xf == 0
    requires Lo32(addr) & !WMask(masks, LocOf(bdf, BarOffset(n)))
          == BarGet(regs, bdf, n) & 0xffff_fff0 & !WMask(masks, LocOf(bdf, BarOffset(n)))
    requires Hi32(addr) & !WMask(masks, LocOf(bdf, BarOffset(n) + 4))
          == BarGet(regs, bdf, n + 1) & !WMask(masks, LocOf(bdf, BarOffset(n) + 4))
    ensures BarGetAddr(ApplyAll(regs, masks, SetAddrWrites(regs, masks, bdf, n, addr)), bdf, n) == addr
  {
    var l := LocOf(bdf, BarOffset(n));
    var h := LocOf(bdf, BarOffset(n) + 4);
    var raw := regs[l];
    var rawHi := regs[h];
    assert BarGet(regs, bdf, n) == raw;
    NextBarOffset(bdf, n);
    assert BarGet(regs, bdf, n + 1) == rawHi;
    RoundTrip64(raw, WMask(masks, l), rawHi, WMask(masks, h), addr);
    LowThenHighWrite(regs, masks, bdf, n, addr);
  }

  /** The writes one size probe issues: all-ones, then the saved value. */
  function ProbeWrites(regs: Regs, bdf: Bdf, n: bv8): seq<Access>
  {
    [Access.WriteL(bdf, BarOffset(n), 0xffff_ffff), Access.WriteL(bdf, BarOffset(n), BarGet(regs, bdf, n))]
  }

  /** The writes pci_bar_size issues: one probe, and a second of the upper dword for a 64-bit BAR. */
  function SizeWrites(regs: Regs, masks: Masks, bdf: Bdf, n: bv8): seq<Access>
  {
    if ProbeValue(regs, masks, bdf, n) == 0 then ProbeWrites(regs, bdf, n)
    else if BarIs64(regs, bdf, n) then ProbeWrites(regs, bdf, n) + ProbeWrites(regs, bdf, n + 1)
    else ProbeWrites(regs, bdf, n)
  }

  /** Writing all-ones and then the saved value leaves a register as it was. */
  lemma ProbeRestores(regs: Regs, masks: Masks, bdf: Bdf, n: bv8)
    ensures ApplyAll(regs, masks, ProbeWrites(regs, bdf, n)) == regs
  {
    var off := BarOffset(n);
    var l := LocOf(bdf, off);
    var w := ProbeWrites(regs, bdf, n);
    var r1 := StoreL(regs, masks, bdf, off, 0xffff_ffff);
    assert ApplyAll(regs, masks, w) == ApplyAll(r1, masks, w[1..]);
    assert ApplyAll(r1, masks, w[1..]) == StoreL(r1, masks, bdf, off, BarGet(regs, bdf, n));
    if l in regs {
      var m := WMask(masks, l);
      MergeRestores(regs[l], m);
      assert StoreL(r1, masks, bdf, off, BarGet(regs, bdf, n)) == regs[l := regs[l]];
    }
  }

  lemma MergeRestores(w: bv32, m: bv32)
    ensures Merge(Merge(w, 0xffff_ffff, m), w, m) == w
  {
  }

  /** The all-ones write reads back as the register with its writable bits set. */
  lemma ProbeReadsWritableBits(regs: Regs, masks: Masks, bdf: Bdf, n: bv8)
    ensures LoadL(StoreL(regs, masks, bdf, BarOffset(n), 0xffff_ffff), bdf, BarOffset(n)) == ProbeValue(regs, masks, bdf, n)
  {
    var l := LocOf(bdf, BarOffset(n));
    if l in regs {
      MergeAllOnes(regs[l], WMask(masks, l));
    }
  }

  lemma MergeAllOnes(w: bv32, m: bv32)
    ensures Merge(w, 0xffff_ffff, m) == w | m
  {
  }

  /** Applying two write sequences one after the other applies their concatenation. */
  lemma ApplyAllAppend(regs: Regs, masks: Masks, a: seq<Access>, b: seq<Access>)
    ensures ApplyAll(regs, masks, a + b) == ApplyAll(ApplyAll(regs, masks, a), masks, b)
    decreases |a|
  {
    if a == [] {
      assert a + b == b;
    } else {
      assert (a + b)[0] == a[0] && (a + b)[1..] == a[1..] + b;
      ApplyAllAppend(Apply(regs, masks, a[0]), masks, a[1..], b);
    }
  }

  /** One more write after a sequence applies it to the state the sequence left. */
  lemma ApplyAllSnoc(regs: Regs, masks: Masks, a: seq<Access>, w: Access)
    ensures ApplyAll(regs, masks, a + [w]) == Apply(ApplyAll(regs, masks, a), masks, w)
  {
    ApplyAllAppend(regs, masks, a, [w]);
  }

  lemma ApplyAllThree(regs: Regs, masks: Masks, a: Access, b: Access, c: Access)
    ensures ApplyAll(regs, masks, [a, b, c]) == Apply(Apply(Apply(regs, masks, a), masks, b), masks, c)
  {
    assert [a, b, c][1..] == [b, c] && [b, c][1..] == [c] && [c][1..] == [];
    var r1 := Apply(regs, masks, a);
    var r2 := Apply(r1, masks, b);
    assert ApplyAll(r2, masks, [c]) == ApplyAll(Apply(r2, masks, c), masks, []);
    assert ApplyAll(r1, masks, [b, c]) == ApplyAll(r2, masks, [c]);
  }

  lemma ApplyAllFour(regs: Regs, masks: Masks, a: Access, b: Access, c: Access, d: Access)
    ensures ApplyAll(regs, masks, [a, b, c, d]) == Apply(Apply(Apply(Apply(regs, masks, a), masks, b), masks, c), masks, d)
  {
    assert [a, b, c, d][1..] == [b, c, d];
    ApplyAllThree(Apply(regs, masks, a), masks, b, c, d);
  }

  /** A 32-bit BAR whose writable bits are exactly bit k and above decodes a window of 2^k bytes. */
  lemma ContiguousSize32(raw: bv32, wm: bv32, probeHi: bv32, k: bv32)
    requires !Type64(raw)
    requires k < 32 && (0xffff_ffff << k) & !BarMask(raw) == 0 && wm == 0xffff_ffff << k
    requires raw & BarMask(raw) & !(0xffff_ffff << k) == 0
    ensures SizeOfProbe(raw | wm, probeHi, raw, false) == ((1 as bv32) << k) as bv64
  {
    assert raw | wm != 0;
    assert !((raw | wm) & BarMask(raw)) + 1 == 1 << k;
  }

  /** The same for a 64-bit pair whose combined writable bits are exactly bit k and above. */
  lemma ContiguousSize64(rawLo: bv32, rawHi: bv32, wmLo: bv32, wmHi: bv32, k: bv64)
    requires 4 <= k < 64 && Type64(rawLo)
    requires ((wmHi as bv64) << 32) | wmLo as bv64 == 0xffff_ffff_ffff_ffff << k
    requires (((rawHi as bv64) << 32) | (rawLo & 0xffff_fff0) as bv64) & !(0xffff_ffff_ffff_ffff << k) == 0
    ensures SizeOfProbe(rawLo | wmLo, rawHi | wmHi, rawLo, true) == 1 << k
  {
    assert BarMask(rawLo) == 0xffff_fff0;
    assert rawLo | wmLo != 0;
    assert !((((rawHi | wmHi) as bv64) << 32) | ((rawLo | wmLo) & 0xffff_fff0) as bv64) + 1 == 1 << k;
  }

  /**
   * The probe yields the window size: for a BAR that is not the low half of
   * a 64-bit pair and whose writable bits are bit k and above (k at least the
   * number of information bits), with the read-only address bits reading
   * zero, the size is 2^k.
   */
  lemma BarSize32IsPowerOfTwo(regs: Regs, masks: Masks, bdf: Bdf, n: bv8, k: bv32)
    requires !BarIs64(regs, bdf, n)
    requires k < 32 && (0xffff_ffff << k) & !BarMask(BarGet(regs, bdf, n)) == 0
    requires WMask(masks, LocOf(bdf, BarOffset(n))) == 0xffff_ffff << k
    requires BarGet(regs, bdf, n) & BarMask(BarGet(regs, bdf, n)) & !(0xffff_ffff << k) == 0
    ensures BarSizeOf(regs, masks, bdf, n) == ((1 as bv32) << k) as bv64
  {
    ContiguousSize32(BarGet(regs, bdf, n), WMask(masks, LocOf(bdf, BarOffset(n))),
                     ProbeValue(regs, masks, bdf, n + 1), k);
  }

  /** For a 64-bit pair whose combined writable bits are bit k and above, the size is 2^k. */
  lemma BarSize64IsPowerOfTwo(regs: Regs, masks: Masks, bdf: Bdf, n: bv8, k: bv64)
    requires BarIs64(regs, bdf, n)
    requires 4 <= k < 64
    requires ((WMask(masks, LocOf(bdf, BarOffset(n + 1))) as bv64) << 32)
             | WMask(masks, LocOf(bdf, BarOffset(n))) as bv64 == 0xffff_ffff_ffff_ffff << k
    requires (((BarGet(regs, bdf, n + 1) as bv64) << 32) | (BarGet(regs, bdf, n) & 0xffff_fff0) as bv64)
             & !(0xffff_ffff_ffff_ffff << k) == 0
    ensures BarSizeOf(regs, masks, bdf, n) == 1 << k
  {
    ContiguousSize64(BarGet(regs, bdf, n), BarGet(regs, bdf, n + 1),
                     WMask(masks, LocOf(bdf, BarOffset(n))), WMask(masks, LocOf(bdf, BarOffset(n + 1))), k);
  }

  // ---------------------------------------------------------------------------
  // BAR scan

  /**
   * pci_scan_bars from BAR i on: a zero BAR keeps its slot, a valid BAR gets
   * its decoded address, and the upper half of a 64-bit pair is zeroed and
   * skipped.  A 64-bit BAR in the last slot has no upper slot to zero.
   */
  function ScanFrom(regs: Regs, bdf: Bdf, bars: seq<bv64>, i: bv8): (r: seq<bv64>)
    requires |bars| == PCI_BAR_NUM as int && i <= PCI_BAR_NUM + 1
    ensures |r| == |bars|
    decreases PCI_BAR_NUM + 1 - i
  {
    if i >= PCI_BAR_NUM then bars
    else if !BarIsValid(regs, bdf, i) then ScanFrom(regs, bdf, bars, i + 1)
    else
      var b := bars[i as int := BarGetAddr(regs, bdf, i)];
      if BarIs64(regs, bdf, i) then
        if i + 1 < PCI_BAR_NUM then ScanFrom(regs, bdf, b[(i + 1) as int := 0], i + 2) else b
      else ScanFrom(regs, bdf, b, i + 1)
  }

  /** The BAR numbers the scan starting at BAR i examines (the upper halves of 64-bit pairs are skipped). */
  ghost predicate Visited(regs: Regs, bdf: Bdf, i: bv8, j: bv8)
    requires i <= PCI_BAR_NUM + 1
    decreases PCI_BAR_NUM + 1 - i
  {
    if i >= PCI_BAR_NUM then false
    else if i == j then true
    else if BarIsValid(regs, bdf, i) && BarIs64(regs, bdf, i) then Visited(regs, bdf, i + 2, j)
    else Visited(regs, bdf, i + 1, j)
  }

  /** Slot j is the upper half of the 64-bit pair whose low half is slot j - 1. */
  ghost predicate UpperHalf(regs: Regs, bdf: Bdf, j: bv8)
  {
    0 < j && BarIsValid(regs, bdf, j - 1) && BarIs64(regs, bdf, j - 1)
  }

  /**
   * What the scan leaves in a slot j it examines: a zero BAR keeps its old
   * value and a valid BAR holds its decoded address.
   */
  lemma {:induction false} ScanSlot(regs: Regs, bdf: Bdf, bars: seq<bv64>, i: bv8, j: bv8)
    requires |bars| == PCI_BAR_NUM as int && i <= PCI_BAR_NUM + 1 && i <= j < PCI_BAR_NUM
    ensures Visited(regs, bdf, i, j) && !BarIsValid(regs, bdf, j) ==> ScanFrom(regs, bdf, bars, i)[j as int] == bars[j as int]
    ensures Visited(regs, bdf, i, j) && BarIsValid(regs, bdf, j) ==> ScanFrom(regs, bdf, bars, i)[j as int] == BarGetAddr(regs, bdf, j)
    decreases PCI_BAR_NUM + 1 - i
  {
    if i == j {
      ScanSlotHere(regs, bdf, bars, i);
    } else if !BarIsValid(regs, bdf, i) {
      ScanSlot(regs, bdf, bars, i + 1, j);
    } else {
      var b := bars[i as int := BarGetAddr(regs, bdf, i)];
      if BarIs64(regs, bdf, i) {
        if j == i + 1 {
          ScanSlotUpper(regs, bdf, bars, i);
        } else {
          ScanSlot(regs, bdf, b[(i + 1) as int := 0], i + 2, j);
        }
      } else {
        ScanSlot(regs, bdf, b, i + 1, j);
      }
    }
  }

  /**
   * A slot the scan does not examine is the upper half of a 64-bit pair whose
   * low half it does examine, and the scan leaves it zero.
   */
  lemma {:induction false} ScanSkipped(regs: Regs, bdf: Bdf, bars: seq<bv64>, i: bv8, j: bv8)
    requires |bars| == PCI_BAR_NUM as int && i <= PCI_BAR_NUM + 1 && i <= j < PCI_BAR_NUM
    ensures !Visited(regs, bdf, i, j) ==>
              i < j && UpperHalf(regs, bdf, j) && Visited(regs, bdf, i, j - 1) && ScanFrom(regs, bdf, bars, i)[j as int] == 0
    decreases PCI_BAR_NUM + 1 - i
  {
    if i == j {
    } else if !BarIsValid(regs, bdf, i) {
      ScanSkipped(regs, bdf, bars, i + 1, j);
    } else {
      var b := bars[i as int := BarGetAddr(regs, bdf, i)];
      if BarIs64(regs, bdf, i) {
        if j == i + 1 {
          ScanSlotUpper(regs, bdf, bars, i);
        } else {
          ScanSkipped(regs, bdf, b[(i + 1) as int := 0], i + 2, j);
        }
      } else {
        ScanSkipped(regs, bdf, b, i + 1, j);
      }
    }
  }

  /** The slot the scan from BAR i examines first. */
  lemma ScanSlotHere(regs: Regs, bdf: Bdf, bars: seq<bv64>, i: bv8)
    requires |bars| == PCI_BAR_NUM as int && i < PCI_BAR_NUM
    ensures !BarIsValid(regs, bdf, i) ==> ScanFrom(regs, bdf, bars, i)[i as int] == bars[i as int]
    ensures BarIsValid(regs, bdf, i) ==> ScanFrom(regs, bdf, bars, i)[i as int] == BarGetAddr(regs, bdf, i)
  {
    if BarIsValid(regs, bdf, i) {
      var b := bars[i as int := BarGetAddr(regs, bdf, i)];
      if BarIs64(regs, bdf, i) && i + 1 < PCI_BAR_NUM {
        ScanUntouchedBelow(regs, bdf, b[(i + 1) as int := 0], i + 2, i);
      } else if !BarIs64(regs, bdf, i) {
        ScanUntouchedBelow(regs, bdf, b, i + 1, i);
      }
    } else {
      ScanUntouchedBelow(regs, bdf, bars, i + 1, i);
    }
  }

  /** The upper half of a 64-bit pair examined at BAR i is skipped and left zero. */
  lemma ScanSlotUpper(regs: Regs, bdf: Bdf, bars: seq<bv64>, i: bv8)
    requires |bars| == PCI_BAR_NUM as int && i < PCI_BAR_NUM && i + 1 < PCI_BAR_NUM
    requires BarIsValid(regs, bdf, i) && BarIs64(regs, bdf, i)
    ensures !Visited(regs, bdf, i, i + 1) && UpperHalf(regs, bdf, i + 1) && Visited(regs, bdf, i, i)
    ensures ScanFrom(regs, bdf, bars, i)[(i + 1) as int] == 0
  {
    var b' := bars[i as int := BarGetAddr(regs, bdf, i)][(i + 1) as int := 0];
    NotVisitedBelow(regs, bdf, i + 2, i + 1);
    ScanUntouchedBelow(regs, bdf, b', i + 2, i + 1);
  }

  /** The scan from BAR i leaves the slots below i alone. */
  lemma {:induction false} ScanUntouchedBelow(regs: Regs, bdf: Bdf, bars: seq<bv64>, i: bv8, j: bv8)
    requires |bars| == PCI_BAR_NUM as int && i <= PCI_BAR_NUM + 1 && j < i && j < PCI_BAR_NUM
    ensures ScanFrom(regs, bdf, bars, i)[j as int] == bars[j as int]
    decreases PCI_BAR_NUM + 1 - i
  {
    if i < PCI_BAR_NUM {
      if !BarIsValid(regs, bdf, i) {
        ScanUntouchedBelow(regs, bdf, bars, i + 1, j);
      } else {
        var b := bars[i as int := BarGetAddr(regs, bdf, i)];
        if BarIs64(regs, bdf, i) {
          if i + 1 < PCI_BAR_NUM {
            ScanUntouchedBelow(regs, bdf, b[(i + 1) as int := 0], i + 2, j);
          }
        } else {
          ScanUntouchedBelow(regs, bdf, b, i + 1, j);
        }
      }
    }
  }

  /** The scan from BAR i examines no slot below i. */
  lemma {:induction false} NotVisitedBelow(regs: Regs, bdf: Bdf, i: bv8, j: bv8)
    requires i <= PCI_BAR_NUM + 1 && j < i
    ensures !Visited(regs, bdf, i, j)
    decreases PCI_BAR_NUM + 1 - i
  {
    if i < PCI_BAR_NUM {
      if BarIsValid(regs, bdf, i) && BarIs64(regs, bdf, i) {
        NotVisitedBelow(regs, bdf, i + 2, j);
      } else {
        NotVisitedBelow(regs, bdf, i + 1, j);
      }
    }
  }

  /** The array slots the loop of pci_scan_bars writes, as written: the upper half of a 64-bit BAR is written unguarded. */
  function ScanWritesAsWritten(regs: Regs, bdf: Bdf, i: bv8): set<int>
    requires i <= PCI_BAR_NUM + 1
    decreases PCI_BAR_NUM + 1 - i
  {
    if i >= PCI_BAR_NUM then {}
    else if !BarIsValid(regs, bdf, i) then ScanWritesAsWritten(regs, bdf, i + 1)
    else if BarIs64(regs, bdf, i) then {i as int, i as int + 1} + ScanWritesAsWritten(regs, bdf, i + 2)
    else {i as int} + ScanWritesAsWritten(regs, bdf, i + 1)
  }

  /**
   * With BAR5 reading as the low half of a 64-bit memory BAR, the loop as
   * written stores into slot 6 of the six-slot BAR array.
   */
  lemma ScanOverflowsOnLastBar()
    ensures 6 in ScanWritesAsWritten(map[Loc(0, 9) := 0x4], 0, 0)
  {
    var regs: Regs := map[Loc(0, 9) := 0x4];
    assert BarGet(regs, 0, 5) == 0x4;
    assert BarIsValid(regs, 0, 5) && BarIs64(regs, 0, 5);
    assert 6 in ScanWritesAsWritten(regs, 0, 5);
    var i: bv8 := 4;
    while i > 0
      invariant 0 <= i <= 4
      invariant 6 in ScanWritesAsWritten(regs, 0, i + 1)
    {
      assert BarGet(regs, 0, i) == 0xffff_ffff;
      i := i - 1;
    }
    assert BarGet(regs, 0, 0) == 0xffff_ffff;
  }

  // ---------------------------------------------------------------------------
  // Capabilities

  /** The capability handlers registered by capability id: only MSI has one. */
  datatype CapHandler = MsiHandler

  /** cap_handlers: the handler registered for a capability id. */
  function HandlerFor(capId: bv8): (h: Option<CapHandler>)
    ensures h.Some? <==> capId == PCI_CAP_ID_MSI
  {
    if capId == PCI_CAP_ID_MSI then Some(MsiHandler) else None
  }

  /**
   * The capability offsets visited from off, in chain order, following the
   * next pointer at offset + 1 until a zero pointer; None when that takes
   * more than fuel hops.
   */
  function CapChain(regs: Regs, bdf: Bdf, off: Offset, fuel: nat): (r: Option<seq<Offset>>)
    ensures r.Some? ==> |r.value| <= fuel && forall k :: 0 <= k < |r.value| ==> r.value[k] != 0
    ensures r.Some? && off != 0 ==> |r.value| > 0 && r.value[0] == off
    decreases fuel
  {
    if off == 0 then Some([])
    else if fuel == 0 then None
    else match CapChain(regs, bdf, LoadB(regs, bdf, off + 1), fuel - 1)
      case Some(rest) => Some([off] + rest)
      case None => None
  }

  /** A chain that ends within the fuel starts with its first node and goes on from that node's next pointer. */
  lemma CapChainStep(regs: Regs, bdf: Bdf, off: Offset, fuel: nat, next: Offset)
    requires off != 0 && CapChain(regs, bdf, off, fuel).Some? && next == LoadB(regs, bdf, off + 1)
    ensures fuel > 0 && CapChain(regs, bdf, next, fuel - 1).Some?
    ensures CapChain(regs, bdf, off, fuel).value == [off] + CapChain(regs, bdf, next, fuel - 1).value
  {
  }

  /** Moving the first node of the chain still to visit onto the visited nodes keeps their concatenation. */
  lemma MovedToVisited(visited: seq<Offset>, chain: seq<Offset>)
    requires |chain| > 0
    ensures (visited + [chain[0]]) + chain[1..] == visited + chain
  {
    assert chain == [chain[0]] + chain[1..];
  }

  /** The chain from the capability-list pointer ends in a zero pointer (it has no cycle). */
  predicate ChainTerminates(regs: Regs, bdf: Bdf)
  {
    CapChain(regs, bdf, LoadB(regs, bdf, PCI_CAPABILITY_LIST), CAP_CHAIN_FUEL).Some?
  }

  predicate IsMsiNode(regs: Regs, bdf: Bdf, off: Offset)
  {
    HandlerFor(LoadB(regs, bdf, off)) == Some(MsiHandler)
  }

  /** The MSI offset after visiting chain, starting from cur. */
  function LastMsi(regs: Regs, bdf: Bdf, chain: seq<Offset>, cur: Offset): Offset
    decreases |chain|
  {
    if chain == [] then cur
    else LastMsi(regs, bdf, chain[1..], if IsMsiNode(regs, bdf, chain[0]) then chain[0] else cur)
  }

  /**
   * The recorded MSI offset is the last MSI node of the chain, or the value
   * it started with when the chain has none.
   */
  lemma {:induction false} LastMsiIsLastMsiNode(regs: Regs, bdf: Bdf, chain: seq<Offset>, cur: Offset)
    returns (k: int)
    ensures -1 <= k < |chain|
    ensures k == -1 ==> LastMsi(regs, bdf, chain, cur) == cur &&
                        forall j :: 0 <= j < |chain| ==> !IsMsiNode(regs, bdf, chain[j])
    ensures k >= 0 ==> LastMsi(regs, bdf, chain, cur) == chain[k] && IsMsiNode(regs, bdf, chain[k]) &&
                       forall j :: k < j < |chain| ==> !IsMsiNode(regs, bdf, chain[j])
    decreases |chain|
  {
    if chain == [] {
      k := -1;
    } else {
      var next := if IsMsiNode(regs, bdf, chain[0]) then chain[0] else cur;
      var k' := LastMsiIsLastMsiNode(regs, bdf, chain[1..], next);
      if k' >= 0 {
        k := k' + 1;
      } else if IsMsiNode(regs, bdf, chain[0]) {
        k := 0;
      } else {
        k := -1;
      }
    }
  }

  // ---------------------------------------------------------------------------
  // MSI

  /** The writes pci_setup_msi issues, in order: address, data, and last the control word with enable set. */
  function MsiWrites(bdf: Bdf, off: Offset, control: bv16, addr: bv64, data: bv32): seq<Access>
  {
    var addrLo := Access.WriteL(bdf, off + PCI_MSI_ADDRESS_LO, Lo32(addr));
    var enable := Access.WriteW(bdf, off + PCI_MSI_FLAGS, control | PCI_MSI_FLAGS_ENABLE);
    if control & PCI_MSI_FLAGS_64BIT != 0 then
      [addrLo, Access.WriteL(bdf, off + PCI_MSI_ADDRESS_HI, Hi32(addr)),
       Access.WriteL(bdf, off + PCI_MSI_DATA_64, data), enable]
    else
      [addrLo, Access.WriteL(bdf, off + PCI_MSI_DATA_32, data), enable]
  }

  /** The two shapes of the MSI write sequence, by the 64-bit capability bit. */
  lemma MsiWritesShape(bdf: Bdf, off: Offset, control: bv16, addr: bv64, data: bv32, a0: Access, last: Access)
    requires a0 == Access.WriteL(bdf, off + PCI_MSI_ADDRESS_LO, Lo32(addr))
    requires last == Access.WriteW(bdf, off + PCI_MSI_FLAGS, control | PCI_MSI_FLAGS_ENABLE)
    ensures control & PCI_MSI_FLAGS_64BIT != 0 ==>
              MsiWrites(bdf, off, control, addr, data)
              == [a0, Access.WriteL(bdf, off + PCI_MSI_ADDRESS_HI, Hi32(addr)), Access.WriteL(bdf, off + PCI_MSI_DATA_64, data), last]
    ensures control & PCI_MSI_FLAGS_64BIT == 0 ==>
              MsiWrites(bdf, off, control, addr, data) == [a0, Access.WriteL(bdf, off + PCI_MSI_DATA_32, data), last]
  {
  }

  /**
   * Where the MSI writes land: the data dword goes to the 64-bit data offset
   * exactly when the capability has the 64-bit flag.
   */
  lemma MsiWritesPlacement(bdf: Bdf, off: Offset, control: bv16, addr: bv64, data: bv32)
    ensures var w := MsiWrites(bdf, off, control, addr, data);
      && |w| >= 3 && w[|w| - 2].WriteL? && w[|w| - 2].value == data
      && (w[|w| - 2].off == off + PCI_MSI_DATA_64 <==> control & PCI_MSI_FLAGS_64BIT != 0)
  {
    MsiOffsets(off);
    if control & PCI_MSI_FLAGS_64BIT != 0 {
      assert |MsiWrites(bdf, off, control, addr, data)| == 4;
    } else {
      assert MsiWrites(bdf, off, control, addr, data)[1].off == off + PCI_MSI_DATA_32;
    }
  }

  /** o is one of the registers of the MSI capability at off: control, address low or high, or 64-bit data. */
  predicate MsiRegister(off: Offset, o: Offset)
  {
    o == off + PCI_MSI_FLAGS || o == off + PCI_MSI_ADDRESS_LO || o == off + PCI_MSI_ADDRESS_HI || o == off + PCI_MSI_DATA_64
  }

  /**
   * Every MSI write goes to a register of the capability, and no two share an
   * offset, so none of them overwrites another.
   */
  lemma MsiWritesDistinct(bdf: Bdf, off: Offset, control: bv16, addr: bv64, data: bv32)
    ensures var w := MsiWrites(bdf, off, control, addr, data);
      forall j :: 0 <= j < |w| ==> MsiRegister(off, w[j].off)
    ensures var w := MsiWrites(bdf, off, control, addr, data);
      forall i, j :: 0 <= i < j < |w| ==> w[i].off != w[j].off
  {
    MsiOffsets(off);
  }

  /** The register offsets of an MSI capability are distinct, even where off + 12 wraps past 0xff. */
  lemma MsiOffsets(off: Offset)
    ensures off + PCI_MSI_FLAGS != off + PCI_MSI_ADDRESS_LO && off + PCI_MSI_FLAGS != off + PCI_MSI_ADDRESS_HI
    ensures off + PCI_MSI_FLAGS != off + PCI_MSI_DATA_64 && off + PCI_MSI_ADDRESS_LO != off + PCI_MSI_ADDRESS_HI
    ensures off + PCI_MSI_ADDRESS_LO != off + PCI_MSI_DATA_64 && off + PCI_MSI_ADDRESS_HI != off + PCI_MSI_DATA_64
  {
  }

  /** The control word is written last, and differs from the one read only in the enable bit, now set. */
  lemma MsiControlWrittenLast(bdf: Bdf, off: Offset, control: bv16, addr: bv64, data: bv32)
    ensures var w := MsiWrites(bdf, off, control, addr, data);
      && |w| == (if control & PCI_MSI_FLAGS_64BIT != 0 then 4 else 3)
      && w[|w| - 1].WriteW? && w[|w| - 1].off == off + PCI_MSI_FLAGS
      && w[|w| - 1].half & PCI_MSI_FLAGS_ENABLE == PCI_MSI_FLAGS_ENABLE
      && w[|w| - 1].half & !PCI_MSI_FLAGS_ENABLE == control & !PCI_MSI_FLAGS_ENABLE
      && forall j :: 0 <= j < |w| - 1 ==> w[j].WriteL?
  {
  }

  // ---------------------------------------------------------------------------
  // The device handle

  /** struct pci_dev: the device address, the cached BAR addresses and the MSI capability offset. */
  class PciDev {
    const bdf: Bdf
    const bar: array<bv64>
    var msiOffset: Offset

    ghost predicate Valid()
    {
      bar.Length == PCI_BAR_NUM as int
    }

    /** pci_dev_init: a zeroed handle for the device at bdf. */
    constructor (bdf: Bdf)
      ensures this.bdf == bdf && Valid() && fresh(bar)
      ensures bar[..] == [0, 0, 0, 0, 0, 0] && msiOffset == 0
    {
      this.bdf := bdf;
      bar := new bv64[6](_ => 0);
      msiOffset := 0;
      new;
      assert bar[..] == [0, 0, 0, 0, 0, 0];
    }

    /** pci_cmd_set_clr: read-modify-write of the command register. */
    method CmdSetClr(cfg: ConfigSpace, setBits: bv16, clearBits: bv16)
      requires setBits & clearBits == 0
      modifies cfg
      ensures cfg.log == old(cfg.log) + [Access.WriteW(bdf, PCI_COMMAND, SetClr(old(cfg.ReadW(bdf, PCI_COMMAND)), setBits, clearBits))]
      ensures cfg.regs == Apply(old(cfg.regs), cfg.masks,
                                Access.WriteW(bdf, PCI_COMMAND, SetClr(old(cfg.ReadW(bdf, PCI_COMMAND)), setBits, clearBits)))
    {
      var val := cfg.ReadW(bdf, PCI_COMMAND);
      val := val | setBits;
      val := val & !clearBits;
      assert val == SetClr(old(cfg.ReadW(bdf, PCI_COMMAND)), setBits, clearBits);
      cfg.WriteW(bdf, PCI_COMMAND, val);
    }

    /** pci_bar_set_addr: the low dword, then the high dword when the BAR reads as 64-bit. */
    method BarSetAddr(cfg: ConfigSpace, n: bv8, addr: bv64)
      modifies cfg
      ensures cfg.log == old(cfg.log) + SetAddrWrites(old(cfg.regs), cfg.masks, bdf, n, addr)
      ensures cfg.regs == ApplyAll(old(cfg.regs), cfg.masks, SetAddrWrites(old(cfg.regs), cfg.masks, bdf, n, addr))
    {
      var off := BarOffset(n);
      ghost var low := Access.WriteL(bdf, off, Lo32(addr));
      cfg.WriteL(bdf, off, Lo32(addr));
      assert cfg.regs == ApplyAll(old(cfg.regs), cfg.masks, [low]) by {
        ApplyAllSnoc(old(cfg.regs), cfg.masks, [], low);
      }
      if BarIs64(cfg.regs, bdf, n) {
        cfg.WriteL(bdf, off + 4, Hi32(addr));
        ApplyAllSnoc(old(cfg.regs), cfg.masks, [low], Access.WriteL(bdf, off + 4, Hi32(addr)));
      }
    }

    /** pci_bar_size_helper: save, write all-ones, read back, restore. */
    method BarSizeHelper(cfg: ConfigSpace, n: bv8) returns (val: bv32)
      modifies cfg
      ensures val == ProbeValue(old(cfg.regs), cfg.masks, bdf, n)
      ensures cfg.regs == old(cfg.regs)
      ensures cfg.log == old(cfg.log) + ProbeWrites(old(cfg.regs), bdf, n)
    {
      var off := BarOffset(n);
      var saved := cfg.ReadL(bdf, off);
      cfg.WriteL(bdf, off, 0xffff_ffff);
      ProbeReadsWritableBits(old(cfg.regs), cfg.masks, bdf, n);
      val := cfg.ReadL(bdf, off);
      cfg.WriteL(bdf, off, saved);
      ghost var w := ProbeWrites(old(cfg.regs), bdf, n);
      assert cfg.log == old(cfg.log) + w;
      ProbeRestores(old(cfg.regs), cfg.masks, bdf, n);
      ApplyAllSnoc(old(cfg.regs), cfg.masks, [], w[0]);
      ApplyAllSnoc(old(cfg.regs), cfg.masks, [w[0]], w[1]);
      assert [w[0]] + [w[1]] == w;
    }

    /** pci_bar_size: the size decoded from the probe; configuration space is left as it was. */
    method BarSize(cfg: ConfigSpace, n: bv8) returns (size: bv64)
      modifies cfg
      ensures size == BarSizeOf(old(cfg.regs), cfg.masks, bdf, n)
      ensures cfg.regs == old(cfg.regs)
      ensures cfg.log == old(cfg.log) + SizeWrites(old(cfg.regs), cfg.masks, bdf, n)
    {
      ghost var regs0 := cfg.regs;
      ghost var log0 := cfg.log;
      var probe := BarSizeHelper(cfg, n);
      if probe == 0 {
        return 0;
      }
      var bar := BarGet(cfg.regs, bdf, n);
      var size32 := probe & BarMask(bar);
      if BarIs64(cfg.regs, bdf, n) {
        var hi := BarSizeHelper(cfg, n + 1);
        assert hi == ProbeValue(regs0, cfg.masks, bdf, n + 1);
        assert cfg.log == log0 + (ProbeWrites(regs0, bdf, n) + ProbeWrites(regs0, bdf, n + 1));
        var size64 := ((hi as bv64) << 32) | size32 as bv64;
        size := !size64 + 1;
        assert size == SizeOfProbe(probe, hi, bar, true);
      } else {
        size := (!size32 + 1) as bv64;
        assert size == SizeOfProbe(probe, ProbeValue(regs0, cfg.masks, bdf, n + 1), bar, false);
      }
    }

    /** pci_scan_bars: cache the decoded address of every valid BAR. */
    method ScanBars(cfg: ConfigSpace)
      requires Valid()
      modifies bar
      ensures bar[..] == ScanFrom(cfg.regs, bdf, old(bar[..]), 0)
    {
      var i: bv8 := 0;
      while i < PCI_BAR_NUM
        invariant i <= PCI_BAR_NUM + 1
        invariant ScanFrom(cfg.regs, bdf, bar[..], i) == ScanFrom(cfg.regs, bdf, old(bar[..]), 0)
        decreases PCI_BAR_NUM + 1 - i
      {
        if !BarIsValid(cfg.regs, bdf, i) {
          i := i + 1;
          continue;
        }
        bar[i as int] := BarGetAddr(cfg.regs, bdf, i);
        if BarIs64(cfg.regs, bdf, i) {
          i := i + 1;
          if i < PCI_BAR_NUM {
            bar[i as int] := 0;
          }
        }
        i := i + 1;
      }
    }

    /** pci_cap_walk: follow the chain and run the handler of every capability that has one. */
    method CapWalk(cfg: ConfigSpace) returns (ghost visited: seq<Offset>)
      requires ChainTerminates(cfg.regs, bdf)
      modifies this
      ensures CapChain(cfg.regs, bdf, cfg.ReadB(bdf, PCI_CAPABILITY_LIST), CAP_CHAIN_FUEL) == Some(visited)
      ensures msiOffset == LastMsi(cfg.regs, bdf, visited, old(msiOffset))
    {
      var capOffset := cfg.ReadB(bdf, PCI_CAPABILITY_LIST);
      ghost var fuel: nat := CAP_CHAIN_FUEL;
      ghost var full := CapChain(cfg.regs, bdf, capOffset, fuel).value;
      visited := [];
      while capOffset != 0
        invariant CapChain(cfg.regs, bdf, capOffset, fuel).Some?
        invariant visited + CapChain(cfg.regs, bdf, capOffset, fuel).value == full
        invariant LastMsi(cfg.regs, bdf, CapChain(cfg.regs, bdf, capOffset, fuel).value, msiOffset)
               == LastMsi(cfg.regs, bdf, full, old(msiOffset))
        decreases fuel
      {
        ghost var chain := CapChain(cfg.regs, bdf, capOffset, fuel).value;
        ghost var next := LoadB(cfg.regs, bdf, capOffset + 1);
        CapChainStep(cfg.regs, bdf, capOffset, fuel, next);
        ghost var prevMsi := msiOffset;
        var capId := cfg.ReadB(bdf, capOffset);
        if HandlerFor(capId) == Some(MsiHandler) {
          msiOffset := capOffset;
        }
        assert msiOffset == if IsMsiNode(cfg.regs, bdf, capOffset) then capOffset else prevMsi;
        assert chain[1..] == CapChain(cfg.regs, bdf, next, fuel - 1).value;
        MovedToVisited(visited, chain);
        assert LastMsi(cfg.regs, bdf, chain, prevMsi) == LastMsi(cfg.regs, bdf, chain[1..], msiOffset);
        visited := visited + [capOffset];
        capOffset := cfg.ReadB(bdf, capOffset + 1);
        fuel := fuel - 1;
      }
      assert visited == full;
    }

    /** pci_setup_msi: program address and data, then enable; fails when no MSI capability was found. */
    method SetupMsi(cfg: ConfigSpace, msiAddr: bv64, msiData: bv32) returns (ok: bool)
      modifies cfg
      ensures ok == (msiOffset != 0)
      ensures !ok ==> cfg.regs == old(cfg.regs) && cfg.log == old(cfg.log)
      ensures ok ==> cfg.log == old(cfg.log) + MsiWrites(bdf, msiOffset, old(cfg.ReadW(bdf, msiOffset + PCI_MSI_FLAGS)), msiAddr, msiData)
      ensures ok ==> cfg.regs == ApplyAll(old(cfg.regs), cfg.masks,
                                          MsiWrites(bdf, msiOffset, old(cfg.ReadW(bdf, msiOffset + PCI_MSI_FLAGS)), msiAddr, msiData))
    {
      if msiOffset == 0 {
        return false;
      }
      var addr := bdf;
      var offset := msiOffset;
      var control := cfg.ReadW(addr, offset + PCI_MSI_FLAGS);
      ghost var a0 := Access.WriteL(addr, offset + PCI_MSI_ADDRESS_LO, Lo32(msiAddr));
      ghost var last := Access.WriteW(addr, offset + PCI_MSI_FLAGS, control | PCI_MSI_FLAGS_ENABLE);
      ghost var writes := MsiWrites(bdf, offset, control, msiAddr, msiData);
      MsiWritesShape(bdf, offset, control, msiAddr, msiData, a0, last);
      cfg.WriteL(addr, offset + PCI_MSI_ADDRESS_LO, Lo32(msiAddr));
      if control & PCI_MSI_FLAGS_64BIT != 0 {
        ghost var a1 := Access.WriteL(addr, offset + PCI_MSI_ADDRESS_HI, Hi32(msiAddr));
        ghost var a2 := Access.WriteL(addr, offset + PCI_MSI_DATA_64, msiData);
        cfg.WriteL(addr, offset + PCI_MSI_ADDRESS_HI, Hi32(msiAddr));
        cfg.WriteL(addr, offset + PCI_MSI_DATA_64, msiData);
        control := control | PCI_MSI_FLAGS_ENABLE;
        cfg.WriteW(addr, offset + PCI_MSI_FLAGS, control);
        ApplyAllFour(old(cfg.regs), cfg.masks, a0, a1, a2, last);
        assert writes == [a0, a1, a2, last];
        assert cfg.log == old(cfg.log) + [a0, a1, a2, last];
      } else {
        ghost var a1 := Access.WriteL(addr, offset + PCI_MSI_DATA_32, msiData);
        cfg.WriteL(addr, offset + PCI_MSI_DATA_32, msiData);
        control := control | PCI_MSI_FLAGS_ENABLE;
        cfg.WriteW(addr, offset + PCI_MSI_FLAGS, control);
        ApplyAllThree(old(cfg.regs), cfg.masks, a0, a1, last);
        assert writes == [a0, a1, last];
        assert cfg.log == old(cfg.log) + [a0, a1, last];
      }
      return true;
    }

    /** pci_enable_defaults: scan the BARs, enable bus mastering, walk the capabilities. */
    method EnableDefaults(cfg: ConfigSpace)
      requires Valid()
      requires ChainTerminates(Apply(cfg.regs, cfg.masks,
                 Access.WriteW(bdf, PCI_COMMAND, SetClr(cfg.ReadW(bdf, PCI_COMMAND), PCI_COMMAND_MASTER, 0))), bdf)
      modifies cfg, this, bar
      ensures bar[..] == ScanFrom(old(cfg.regs), bdf, old(bar[..]), 0)
      ensures cfg.log == old(cfg.log) + [Access.WriteW(bdf, PCI_COMMAND, SetClr(old(cfg.ReadW(bdf, PCI_COMMAND)), PCI_COMMAND_MASTER, 0))]
      ensures cfg.regs == Apply(old(cfg.regs), cfg.masks,
                                Access.WriteW(bdf, PCI_COMMAND, SetClr(old(cfg.ReadW(bdf, PCI_COMMAND)), PCI_COMMAND_MASTER, 0)))
      ensures exists chain :: CapChain(cfg.regs, bdf, cfg.ReadB(bdf, PCI_CAPABILITY_LIST), CAP_CHAIN_FUEL) == Some(chain)
                              && msiOffset == LastMsi(cfg.regs, bdf, chain, old(msiOffset))
    {
      ScanBars(cfg);
      CmdSetClr(cfg, PCI_COMMAND_MASTER, 0);
      ghost var chain := CapWalk(cfg);
    }
  }

}
