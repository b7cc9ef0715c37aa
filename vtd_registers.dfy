/**
 * The global command / global status register protocol of an Intel VT-d
 * unit (section 10.4.4 and 10.4.5 of the Intel VT-d Architecture
 * Specification), over a model of the register file.
 *
 * Hardware model: a one-shot command bit (set root table pointer, set
 * interrupt remap table pointer, write buffer flush, set fault log) takes
 * effect at once and its status bit is set in the same write.  A persistent
 * bit (translation enable, queued invalidation enable, interrupt remapping
 * enable, ...) is taken up after `latency` further status reads, when the
 * persistent status bits become the persistent command bits.
 */
module VtdRegisters {

  const GCMD_DMAR: bv32 := 0x8000_0000
  const GCMD_ROOT: bv32 := 0x4000_0000
  const GCMD_QI: bv32 := 0x0400_0000
  const GCMD_IR: bv32 := 0x0200_0000
  const GCMD_IR_TABLE: bv32 := 0x0100_0000
  /** Set root pointer, set fault log, write buffer flush, set interrupt remap table pointer. */
  const GCMD_ONE_SHOT_BITS: bv32 := 0x6900_0000
  /** Every other bit: the command bits whose status follows the command once the unit takes it up. */
  const GCMD_PERSISTENT_BITS: bv32 := 0x96ff_ffff

  /** The page-address bits of RTADDR and IRTA. */
  const PAGE_MASK: bv64 := 0xffff_ffff_ffff_f000

  /** The IRTA value for the table at page address p: the address with size field 0xf (2^(0xf + 1) entries). */
  function IrtaValue(p: bv64): (v: bv64)
    ensures v & 0xf == 0xf && v & !0xf == p & !0xf
  {
    p | 0xf
  }

  /** ONE_BIT_ONLY: x is nonzero and clearing its lowest set bit leaves nothing. */
  predicate OneBitOnly(x: bv32)
    ensures OneBitOnly(x) <==> x != 0 && x & (0 - x) == x
  {
    x != 0 && x & (x - 1) == 0
  }

  function Pow2(k: nat): bv32
    requires k < 32
  {
    (1 as bv32) << k
  }

  /** A power of two passes ONE_BIT_ONLY. */
  lemma PowerOfTwoOneBit(x: bv32, k: nat)
    requires k < 32 && x == (1 as bv32) << k
    ensures OneBitOnly(x)
  {
  }

  /** With bits below k clear, a single set bit is either bit k or lies above it. */
  lemma OneBitAt(x: bv32, k: nat)
    requires OneBitOnly(x) && k < 32 && x & (((1 as bv32) << k) - 1) == 0
    ensures x & ((1 as bv32) << k) != 0 ==> x == (1 as bv32) << k
    ensures x & ((1 as bv32) << k) == 0 ==> k < 31 && x & (((1 as bv32) << (k + 1)) - 1) == 0
  {
  }

  lemma {:induction false} OneBitFrom(x: bv32, k: nat)
    requires OneBitOnly(x) && k < 32 && x & (((1 as bv32) << k) - 1) == 0
    ensures exists j: nat :: k <= j < 32 && x == Pow2(j)
    decreases 32 - k
  {
    OneBitAt(x, k);
    if x & ((1 as bv32) << k) == 0 {
      OneBitFrom(x, k + 1);
    } else {
      assert x == Pow2(k);
    }
  }

  /** ONE_BIT_ONLY holds exactly of the powers of two. */
  lemma OneBitOnlyIsPowerOfTwo(x: bv32)
    ensures OneBitOnly(x) <==> exists k: nat :: k < 32 && x == Pow2(k)
  {
    if OneBitOnly(x) {
      OneBitFrom(x, 0);
    }
    if k: nat :| k < 32 && x == Pow2(k) {
      PowerOfTwoOneBit(x, k);
    }
  }

  /** The status once the unit has taken up command word c: persistent bits from c, one-shot bits as they were. */
  function TakeUp(c: bv32, st: bv32): bv32
  {
    (c & GCMD_PERSISTENT_BITS) | (st & GCMD_ONE_SHOT_BITS)
  }

  /** The status right after command word v is written: its one-shot bits are set at once. */
  function OneShotOr(st: bv32, v: bv32): bv32
  {
    st | (v & GCMD_ONE_SHOT_BITS)
  }

  /** The unit's register file: global command and status, root table address, interrupt remap table address. */
  class Dmar {
    var gcmd: bv32
    var gsts: bv32
    var rtaddr: bv64
    var irta: bv64
    /** Status reads left before the unit takes up the last command. */
    var countdown: nat
    const latency: nat

    constructor (latency0: nat)
      ensures latency == latency0 && gcmd == 0 && gsts == 0 && countdown == 0
    {
      latency := latency0;
      gcmd, gsts, rtaddr, irta, countdown := 0, 0, 0, 0, 0;
    }

    /** The status the next read returns. */
    function Observed(): bv32
      reads this
    {
      if countdown == 0 then TakeUp(gcmd, gsts) else gsts
    }

    /** vtd_root_table: the root table address as the unit holds it. */
    function RootTable(): bv64
      reads this
    {
      rtaddr & PAGE_MASK
    }

    /** vtd_ir_table: the interrupt remap table address as the unit holds it. */
    function IrTable(): bv64
      reads this
    {
      irta & PAGE_MASK
    }

    method WriteGcmd(v: bv32)
      modifies this
      ensures gcmd == v && gsts == OneShotOr(old(gsts), v) && countdown == latency
      ensures rtaddr == old(rtaddr) && irta == old(irta)
    {
      gcmd := v;
      gsts := OneShotOr(gsts, v);
      countdown := latency;
    }

    method ReadGsts() returns (s: bv32)
      modifies this
      ensures s == gsts == old(Observed())
      ensures gcmd == old(gcmd) && rtaddr == old(rtaddr) && irta == old(irta)
      ensures countdown == if old(countdown) == 0 then 0 else old(countdown) - 1
    {
      if countdown == 0 {
        gsts := TakeUp(gcmd, gsts);
      } else {
        countdown := countdown - 1;
      }
      s := gsts;
    }

    method WriteRtaddr(v: bv64)
      modifies this
      ensures rtaddr == v && gcmd == old(gcmd) && gsts == old(gsts) && irta == old(irta)
      ensures countdown == old(countdown) && Observed() == old(Observed()) && IrTable() == old(IrTable())
    {
      rtaddr := v;
    }

    method WriteIrta(v: bv64)
      modifies this
      ensures irta == v && gcmd == old(gcmd) && gsts == old(gsts) && rtaddr == old(rtaddr)
      ensures countdown == old(countdown) && Observed() == old(Observed()) && RootTable() == old(RootTable())
    {
      irta := v;
    }

    /** The register half of vtd_setup_root_table: RTADDR gets the page-aligned table address p, then the root table pointer is latched. */
    method SetRootTablePointer(p: bv64)
      requires p & 0xfff == 0
      modifies this
      ensures rtaddr == p && RootTable() == p && irta == old(irta) && IrTable() == old(IrTable())
      ensures gsts == old(Observed()) | GCMD_ROOT && Observed() == gsts
    {
      WriteRtaddr(p);
      PageAddress(p);
      PowerOfTwoOneBit(GCMD_ROOT, 30);
      GcmdOr(GCMD_ROOT);
    }

    /** The register half of vtd_setup_ir_table: IRTA gets the page-aligned table address p with size field 0xf, then the table pointer is latched. */
    method SetIrTablePointer(p: bv64)
      requires p & 0xfff == 0
      modifies this
      ensures irta == IrtaValue(p) && IrTable() == p && rtaddr == old(rtaddr) && RootTable() == old(RootTable())
      ensures gsts == old(Observed()) | GCMD_IR_TABLE && Observed() == gsts
    {
      WriteIrta(IrtaValue(p));
      SizedPageAddress(p);
      PowerOfTwoOneBit(GCMD_IR_TABLE, 24);
      GcmdOr(GCMD_IR_TABLE);
    }

    /**
     * vtd_gcmd_or: issue one command bit on top of the current status, and
     * for a persistent bit wait until the status shows it.  Afterwards the
     * command and status registers both hold the status read at entry with
     * cmd added.
     */
    method GcmdOr(cmd: bv32)
      requires OneBitOnly(cmd)
      modifies this
      ensures gcmd == old(Observed()) | cmd && gsts == old(Observed()) | cmd
      ensures Observed() == gsts
      ensures rtaddr == old(rtaddr) && irta == old(irta) && RootTable() == old(RootTable()) && IrTable() == old(IrTable())
    {
      var status := ReadGsts();
      WriteGcmd(status | cmd);
      if cmd & GCMD_ONE_SHOT_BITS != 0 {
        OneShotStatus(status, cmd);
        TakeUpSettled(status | cmd);
        return;
      }
      PersistentStatus(status, cmd);
      TakeUpSettled(status | cmd);
      OrShows(status, cmd);
      OrAbsorbsWhenShown(status, cmd);
      WaitStatus(status, status | cmd, cmd);
    }

    /** The poll of vtd_gcmd_or: read the status until it shows cmd. */
    method WaitStatus(status: bv32, target: bv32, cmd: bv32)
      requires gcmd == target && gsts == status
      requires TakeUp(target, status) == target && TakeUp(target, target) == target
      requires Shows(target, cmd) && (Shows(status, cmd) ==> status == target)
      modifies this
      ensures gcmd == target && gsts == target
      ensures rtaddr == old(rtaddr) && irta == old(irta)
    {
      var s := ReadGsts();
      while !Shows(s, cmd)
        invariant gcmd == target && s == gsts
        invariant gsts == status || gsts == target
        invariant rtaddr == old(rtaddr) && irta == old(irta)
        decreases countdown + if s == target then 0 else 1
      {
        s := ReadGsts();
      }
    }
  }

  /** The status value s shows the command bits cmd. */
  predicate Shows(s: bv32, cmd: bv32)
  {
    s & cmd != 0
  }

  /** A page-aligned address survives the page mask. */
  lemma PageAddress(p: bv64)
    requires p & 0xfff == 0
    ensures p & PAGE_MASK == p
  {
  }

  /** The IRTA value of a page-aligned address, size field included, reads back through the page mask as that address. */
  lemma SizedPageAddress(p: bv64)
    requires p & 0xfff == 0
    ensures IrtaValue(p) & PAGE_MASK == p
  {
  }

  lemma OneShotStatus(status: bv32, cmd: bv32)
    requires OneBitOnly(cmd) && cmd & GCMD_ONE_SHOT_BITS != 0
    ensures OneShotOr(status, status | cmd) == status | cmd
  {
  }

  /** Once the unit takes up status | cmd, for a persistent cmd, the status reads status | cmd. */
  lemma PersistentStatus(status: bv32, cmd: bv32)
    requires cmd & GCMD_ONE_SHOT_BITS == 0
    ensures OneShotOr(status, status | cmd) == status
    ensures TakeUp(status | cmd, status) == status | cmd
  {
  }

  lemma OrShows(status: bv32, cmd: bv32)
    requires OneBitOnly(cmd)
    ensures Shows(status | cmd, cmd)
  {
  }

  /** A status that already shows the one bit cmd is unchanged by adding it. */
  lemma OrAbsorbsWhenShown(status: bv32, cmd: bv32)
    requires OneBitOnly(cmd)
    ensures Shows(status, cmd) ==> status == status | cmd
  {
  }

  /** When command and status agree, taking up the command changes nothing. */
  lemma TakeUpSettled(v: bv32)
    ensures TakeUp(v, v) == v
  {
  }
}
