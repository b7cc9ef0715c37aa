/**
 * The configuration space of the devices on PCI bus 0, as the configuration
 * accessors see it: one 32-bit register per (device, dword index), a
 * hardware write-mask per register, and a ghost log of every write in the
 * order it was issued.
 *
 * Reads of a register no device decodes return all-ones (the "no device"
 * value); writes to such a register are dropped.  A 16-bit access selects
 * the half of the dword given by bit 1 of the offset and an 8-bit access the
 * byte given by bits 0-1, as configuration mechanism #1 does.
 */
module PciConfig {

  /** A device address, bus:device.function packed in 16 bits. */
  type Bdf = bv16

  /** A byte offset into a device's 256-byte configuration space. */
  type Offset = bv8

  /** One 32-bit configuration register: the device and the dword index. */
  datatype Loc = Loc(bdf: Bdf, dword: bv8)

  /** The contents of configuration space. */
  type Regs = map<Loc, bv32>

  /** The write-masks: a register bit is writable when its mask bit is set. */
  type Masks = map<Loc, bv32>

  /** One configuration write, as it is issued on the bus. */
  datatype Access =
    | WriteL(bdf: Bdf, off: Offset, value: bv32)
    | WriteW(bdf: Bdf, off: Offset, half: bv16)

  function LocOf(bdf: Bdf, off: Offset): Loc
  {
    Loc(bdf, off >> 2)
  }

  /** The writable bits of a register; a register without a mask is fully writable. */
  function WMask(masks: Masks, l: Loc): bv32
  {
    if l in masks then masks[l] else 0xffff_ffff
  }

  function LoadL(regs: Regs, bdf: Bdf, off: Offset): bv32
  {
    var l := LocOf(bdf, off);
    if l in regs then regs[l] else 0xffff_ffff
  }

  /** The 16-bit half of dword w that offset off selects. */
  function Half(w: bv32, off: Offset): bv16
  {
    if off & 2 == 0 then (w & 0xffff) as bv16 else (w >> 16) as bv16
  }

  /** The byte of dword w that offset off selects. */
  function Byte(w: bv32, off: Offset): bv8
  {
    if off & 3 == 0 then (w & 0xff) as bv8
    else if off & 3 == 1 then ((w >> 8) & 0xff) as bv8
    else if off & 3 == 2 then ((w >> 16) & 0xff) as bv8
    else (w >> 24) as bv8
  }

  function LoadW(regs: Regs, bdf: Bdf, off: Offset): bv16
  {
    Half(LoadL(regs, bdf, off), off)
  }

  function LoadB(regs: Regs, bdf: Bdf, off: Offset): bv8
  {
    Byte(LoadL(regs, bdf, off), off)
  }

  /** What a register holds after value v is written under write-mask m. */
  function Merge(cur: bv32, v: bv32, m: bv32): bv32
  {
    (cur & !m) | (v & m)
  }

  /** What a register holds after the 16-bit half selected by off is written with v under write-mask m. */
  function MergeHalf(w: bv32, off: Offset, v: bv16, m: bv32): bv32
  {
    if off & 2 == 0 then Merge(w, v as bv32, m & 0xffff)
    else Merge(w, (v as bv32) << 16, m & 0xffff_0000)
  }

  function StoreL(regs: Regs, masks: Masks, bdf: Bdf, off: Offset, v: bv32): Regs
  {
    var l := LocOf(bdf, off);
    if l in regs then regs[l := Merge(regs[l], v, WMask(masks, l))] else regs
  }

  function StoreW(regs: Regs, masks: Masks, bdf: Bdf, off: Offset, v: bv16): Regs
  {
    var l := LocOf(bdf, off);
    if l in regs then regs[l := MergeHalf(regs[l], off, v, WMask(masks, l))] else regs
  }

  function Apply(regs: Regs, masks: Masks, a: Access): Regs
  {
    match a
    case WriteL(bdf, off, v) => StoreL(regs, masks, bdf, off, v)
    case WriteW(bdf, off, v) => StoreW(regs, masks, bdf, off, v)
  }

  /** The contents after a sequence of writes, issued left to right. */
  function ApplyAll(regs: Regs, masks: Masks, writes: seq<Access>): Regs
    decreases |writes|
  {
    if writes == [] then regs
    else ApplyAll(Apply(regs, masks, writes[0]), masks, writes[1..])
  }

  /** A dword write leaves every other register as it was. */
  lemma StoreLOther(regs: Regs, masks: Masks, bdf: Bdf, off: Offset, v: bv32, bdf': Bdf, off': Offset)
    requires LocOf(bdf', off') != LocOf(bdf, off)
    ensures LoadL(StoreL(regs, masks, bdf, off, v), bdf', off') == LoadL(regs, bdf', off')
  {
  }

  /** A dword write to a decoded register reads back as its writable bits from v, the rest as before. */
  lemma StoreLReadBack(regs: Regs, masks: Masks, bdf: Bdf, off: Offset, v: bv32)
    requires LocOf(bdf, off) in regs
    ensures LoadL(StoreL(regs, masks, bdf, off, v), bdf, off)
         == Merge(LoadL(regs, bdf, off), v, WMask(masks, LocOf(bdf, off)))
  {
  }

  /** Writing one half of a fully writable dword changes that half to v and keeps the other. */
  lemma MergeHalfReadBack(w: bv32, off: Offset, v: bv16)
    ensures Half(MergeHalf(w, off, v, 0xffff_ffff), off) == v
    ensures Half(MergeHalf(w, off, v, 0xffff_ffff), off ^ 2) == Half(w, off ^ 2)
  {
    if off & 2 == 0 {
      assert (off ^ 2) & 2 != 0;
      LowHalfWrite(w, v);
    } else {
      assert (off ^ 2) & 2 == 0;
      HighHalfWrite(w, v);
    }
  }

  lemma LowHalfWrite(w: bv32, v: bv16)
    ensures (Merge(w, v as bv32, 0xffff) & 0xffff) as bv16 == v
    ensures (Merge(w, v as bv32, 0xffff) >> 16) as bv16 == (w >> 16) as bv16
  {
  }

  lemma HighHalfWrite(w: bv32, v: bv16)
    ensures (Merge(w, (v as bv32) << 16, 0xffff_0000) >> 16) as bv16 == v
    ensures (Merge(w, (v as bv32) << 16, 0xffff_0000) & 0xffff) as bv16 == (w & 0xffff) as bv16
  {
  }

  /** A 16-bit write to a fully writable register reads back unchanged and leaves the other half alone. */
  lemma StoreWReadBack(regs: Regs, masks: Masks, bdf: Bdf, off: Offset, v: bv16)
    requires LocOf(bdf, off) in regs && WMask(masks, LocOf(bdf, off)) == 0xffff_ffff
    ensures LoadW(StoreW(regs, masks, bdf, off, v), bdf, off) == v
    ensures LoadW(StoreW(regs, masks, bdf, off, v), bdf, off ^ 2) == LoadW(regs, bdf, off ^ 2)
  {
    assert LocOf(bdf, off ^ 2) == LocOf(bdf, off);
    MergeHalfReadBack(regs[LocOf(bdf, off)], off, v);
  }

  /**
   * The configuration space of bus 0.  The accessors pci_config_read* and
   * pci_config_write* are its members.
   */
  class ConfigSpace {
    var regs: Regs
    const masks: Masks
    ghost var log: seq<Access>

    constructor (regs0: Regs, masks0: Masks)
      ensures regs == regs0 && masks == masks0 && log == []
    {
      regs := regs0;
      masks := masks0;
      log := [];
    }

    function ReadL(bdf: Bdf, off: Offset): bv32
      reads this
    {
      LoadL(regs, bdf, off)
    }

    function ReadW(bdf: Bdf, off: Offset): bv16
      reads this
    {
      LoadW(regs, bdf, off)
    }

    function ReadB(bdf: Bdf, off: Offset): bv8
      reads this
    {
      LoadB(regs, bdf, off)
    }

    method WriteL(bdf: Bdf, off: Offset, v: bv32)
      modifies this
      ensures regs == Apply(old(regs), masks, Access.WriteL(bdf, off, v))
      ensures log == old(log) + [Access.WriteL(bdf, off, v)]
    {
      regs := StoreL(regs, masks, bdf, off, v);
      log := log + [Access.WriteL(bdf, off, v)];
    }

    method WriteW(bdf: Bdf, off: Offset, v: bv16)
      modifies this
      ensures regs == Apply(old(regs), masks, Access.WriteW(bdf, off, v))
      ensures log == old(log) + [Access.WriteW(bdf, off, v)]
    {
      regs := StoreW(regs, masks, bdf, off, v);
      log := log + [Access.WriteW(bdf, off, v)];
    }
  }
}
