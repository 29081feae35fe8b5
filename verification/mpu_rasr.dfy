/** Programming one MPU region on the STM32F401RE (`src/arch/stm32f401re/mpu_ll.rs`): the
    region number goes to `MPU_RNR`, the base address to `MPU_RBAR`, and the attributes to
    `MPU_RASR`, whose layout is given in section B3.5.9 of the ARMv7-M Architecture Reference
    Manual: `XN` (bit 28) forbids instruction fetches, `AP` (bits 24 to 26) gives the access
    permissions, `SRD` (bits 8 to 15) disables eighths of the region, `SIZE` (bits 1 to 5)
    encodes a region of `2^(SIZE + 1)` bytes, and `ENABLE` (bit 0) turns the region on.

    The registers are values; `set_bits_volatile` is `Tools.SetBits`. The memory barriers
    and the volatile accesses themselves are left out. */
module MpuRasr {
  import opened Wrappers
  import Pow2
  import Tools

  const XN_MSK: bv32 := 0x1000_0000
  const AP_MSK: bv32 := 0x0700_0000
  const SRD_MSK: bv32 := 0x0000_FF00
  const SIZE_MSK: bv32 := 0x0000_003E
  const ENABLE_MSK: bv32 := 0x0000_0001

  /** The bits of `MPU_RASR` the driver writes. */
  const RASR_MSK: bv32 := XN_MSK | AP_MSK | SRD_MSK | SIZE_MSK | ENABLE_MSK

  /** `MPU_RNR_REGION_Msk` and `MPU_RBAR_ADDR_Msk`. */
  const RNR_REGION_MSK: bv32 := 0x0000_00FF
  const RBAR_ADDR_MSK: bv32 := 0xFFFF_FFE0

  /** `b as u32`. */
  function Bit(b: bool): (r: bv32)
    ensures r <= 1
  {
    if b then 1 else 0
  }

  // ---------------------------------------------------------------------------------
  // The SRD field

  /** One step of the fold: the flags so far move up a bit and the next one comes in. */
  function Step(acc: bv32, b: bool): bv32
  {
    (acc << 1) | Bit(b)
  }

  /** `fold(0, |a, &x| (a << 1) | x as u32)` over the first `n` flags. */
  function SrdFold(bits: seq<bool>, n: nat): bv32
    requires n <= |bits|
  {
    if n == 0 then 0 else Step(SrdFold(bits, n - 1), bits[n - 1])
  }

  /** The `SRD` field: 0 without a mask, and otherwise the 8 flags folded, the first flag
      ending up in the highest bit. */
  function SrdField(srd: Option<seq<bool>>): (f: bv32)
    requires srd.Some? ==> |srd.value| == 8
    ensures f <= 0xFF
  {
    match srd
    case None => 0
    case Some(bits) => SrdMaskRoundTrip(bits); SrdFold(bits, |bits|)
  }

  /** The 8 flags an `SRD` field holds, the highest bit first. */
  function SrdFlags(f: bv32): (bits: seq<bool>)
    ensures |bits| == 8
  {
    [(f >> 7) & 1 == 1, (f >> 6) & 1 == 1, (f >> 5) & 1 == 1, (f >> 4) & 1 == 1,
     (f >> 3) & 1 == 1, (f >> 2) & 1 == 1, (f >> 1) & 1 == 1, f & 1 == 1]
  }

  /** The flags placed one per bit, the first in bit 7. */
  function Placed(b0: bool, b1: bool, b2: bool, b3: bool, b4: bool, b5: bool, b6: bool, b7: bool): bv32
  {
    (Bit(b0) << 7) | (Bit(b1) << 6) | (Bit(b2) << 5) | (Bit(b3) << 4)
    | (Bit(b4) << 3) | (Bit(b5) << 2) | (Bit(b6) << 1) | Bit(b7)
  }

  /** The fold places the flags one per bit. */
  lemma SrdFoldPlaces(bits: seq<bool>)
    requires |bits| == 8
    ensures SrdFold(bits, |bits|) == Placed(bits[0], bits[1], bits[2], bits[3], bits[4], bits[5], bits[6], bits[7])
  {
    assert SrdFold(bits, 8) == Step(SrdFold(bits, 7), bits[7]);
    assert SrdFold(bits, 7) == Step(SrdFold(bits, 6), bits[6]);
    assert SrdFold(bits, 6) == Step(SrdFold(bits, 5), bits[5]);
    assert SrdFold(bits, 5) == Step(SrdFold(bits, 4), bits[4]);
    assert SrdFold(bits, 4) == Step(SrdFold(bits, 3), bits[3]);
    assert SrdFold(bits, 3) == Step(SrdFold(bits, 2), bits[2]);
    assert SrdFold(bits, 2) == Step(SrdFold(bits, 1), bits[1]);
    assert SrdFold(bits, 1) == Step(0, bits[0]);
    FoldedPlaced(bits[0], bits[1], bits[2], bits[3], bits[4], bits[5], bits[6], bits[7]);
  }

  /** Eight steps of the fold from 0 place eight flags. */
  lemma FoldedPlaced(b0: bool, b1: bool, b2: bool, b3: bool, b4: bool, b5: bool, b6: bool, b7: bool)
    ensures
      var a4 := Step(Step(Step(Step(0, b0), b1), b2), b3);
      Step(Step(Step(Step(a4, b4), b5), b6), b7) == Placed(b0, b1, b2, b3, b4, b5, b6, b7)
  {
  }

  /** Placed flags read back one per bit, and take only the low byte. */
  lemma PlacedReadsBack(b0: bool, b1: bool, b2: bool, b3: bool, b4: bool, b5: bool, b6: bool, b7: bool)
    ensures SrdFlags(Placed(b0, b1, b2, b3, b4, b5, b6, b7)) == [b0, b1, b2, b3, b4, b5, b6, b7]
    ensures Placed(b0, b1, b2, b3, b4, b5, b6, b7) <= 0xFF
  {
  }

  /** The `SRD` field fits its 8 bits, reads back as the mask, and is 0 without a mask: no
      sub-region is disabled. */
  lemma SrdFieldRoundTrip(srd: Option<seq<bool>>)
    requires srd.Some? ==> |srd.value| == 8
    ensures SrdField(srd) <= 0xFF
    ensures srd.Some? ==> SrdFlags(SrdField(srd)) == srd.value
    ensures srd.None? ==> SrdField(srd) == 0 && SrdFlags(SrdField(srd)) == NoFlags()
  {
    if srd.Some? {
      SrdMaskRoundTrip(srd.value);
    } else {
      NoFlagsOfZero();
    }
  }

  /** A mask disabling no sub-region. */
  function NoFlags(): seq<bool>
  {
    [false, false, false, false, false, false, false, false]
  }

  lemma NoFlagsOfZero()
    ensures SrdFlags(0) == NoFlags()
  {
  }

  lemma SrdMaskRoundTrip(b: seq<bool>)
    requires |b| == 8
    ensures SrdFold(b, |b|) <= 0xFF && SrdFlags(SrdFold(b, |b|)) == b
  {
    EightFlags(b);
    SrdFoldPlaces(b);
    PlacedReadsBack(b[0], b[1], b[2], b[3], b[4], b[5], b[6], b[7]);
  }

  lemma EightFlags(b: seq<bool>)
    requires |b| == 8
    ensures [b[0], b[1], b[2], b[3], b[4], b[5], b[6], b[7]] == b
  {
  }

  // ---------------------------------------------------------------------------------
  // The SIZE field

  /** `30 - size.leading_zeros()`: below 2 bytes the subtraction overflows, which the
      driver's minimum size of 32 rules out. */
  function SizeField(size: nat): (r: nat)
    requires 2 <= size < Pow2.WORD
    ensures r <= 30 && Pow2.Pow2(r + 1) <= size < Pow2.Pow2(r + 2)
  {
    30 - Pow2.LeadingZeros(size)
  }

  /** A power-of-two region of `2^(SIZE + 1)` bytes is exactly the size asked for. */
  lemma SizeFieldOfPow2(size: nat)
    requires 2 <= size < Pow2.WORD && Pow2.IsPow2(size)
    ensures Pow2.Pow2(SizeField(size) + 1) == size
  {
    Pow2.Pow2OfLog2(size);
  }

  // ---------------------------------------------------------------------------------
  // The register value

  /** The fields of an `MPU_RASR` value assembled as the driver does. */
  function Assembled(xn: bv32, ap: bv32, srd: bv32, size: bv32): bv32
  {
    (xn << 28) | (ap << 24) | (srd << 8) | ((size << 1) & SIZE_MSK) | (1 << 0)
  }

  /** The `SIZE` field as a `u32`. */
  function SizeBits(size: nat): (b: bv32)
    requires 2 <= size < Pow2.WORD
    ensures b <= 30
  {
    SizeField(size) as bv32
  }

  /** The `MPU_RASR` value of a region, as the driver computes it. */
  function RasrValue(size: nat, writable: bool, executable: bool, srd: Option<seq<bool>>): bv32
    requires 2 <= size < Pow2.WORD
    requires srd.Some? ==> |srd.value| == 8
  {
    Assembled(1 - Bit(executable), 0x2 | Bit(writable), SrdField(srd), SizeBits(size))
  }

  /** The `XN` flag reads back from bit 28 of the assembled value, given fields that fit
      their widths (as in the lemmas below). */
  lemma XnField(xn: bv32, ap: bv32, srd: bv32, size: bv32)
    requires xn <= 1 && ap <= 7 && srd <= 0xFF
    ensures (Assembled(xn, ap, srd, size) >> 28) & 1 == xn
  {
  }

  /** The access permissions read back from bits 24 to 26. */
  lemma ApField(xn: bv32, ap: bv32, srd: bv32, size: bv32)
    requires xn <= 1 && ap <= 7 && srd <= 0xFF
    ensures (Assembled(xn, ap, srd, size) >> 24) & 7 == ap
  {
  }

  /** The sub-region mask reads back from bits 8 to 15. */
  lemma SrdFieldBits(xn: bv32, ap: bv32, srd: bv32, size: bv32)
    requires xn <= 1 && ap <= 7 && srd <= 0xFF
    ensures (Assembled(xn, ap, srd, size) >> 8) & 0xFF == srd
  {
  }

  /** A size field of at most 30 reads back from bits 1 to 5. */
  lemma SizeFieldBits(xn: bv32, ap: bv32, srd: bv32, size: bv32)
    requires xn <= 1 && ap <= 7 && srd <= 0xFF && size <= 30
    ensures (Assembled(xn, ap, srd, size) >> 1) & 0x1F == size
  {
  }

  /** Bit 0 is set, and nothing outside the five fields. */
  lemma EnableAndMask(xn: bv32, ap: bv32, srd: bv32, size: bv32)
    requires xn <= 1 && ap <= 7 && srd <= 0xFF
    ensures Assembled(xn, ap, srd, size) & 1 == 1
    ensures Assembled(xn, ap, srd, size) & RASR_MSK == Assembled(xn, ap, srd, size)
  {
  }

  /** `XN` is set exactly when the region is not executable. */
  lemma RasrXn(size: nat, writable: bool, executable: bool, srd: Option<seq<bool>>)
    requires 2 <= size < Pow2.WORD
    requires srd.Some? ==> |srd.value| == 8
    ensures (RasrValue(size, writable, executable, srd) >> 28) & 1 == 1 <==> !executable
  {
    XnField(1 - Bit(executable), 0x2 | Bit(writable), SrdField(srd), SizeBits(size));
  }

  /** `AP` is `0b011` (unprivileged read-write) on a writable region and `0b010`
      (unprivileged read-only) otherwise; privileged code may always read and write. */
  lemma RasrAp(size: nat, writable: bool, executable: bool, srd: Option<seq<bool>>)
    requires 2 <= size < Pow2.WORD
    requires srd.Some? ==> |srd.value| == 8
    ensures (RasrValue(size, writable, executable, srd) >> 24) & 7 == (if writable then 3 else 2)
  {
    ApField(1 - Bit(executable), 0x2 | Bit(writable), SrdField(srd), SizeBits(size));
  }

  /** `SRD` holds the mask's flags, none without a mask. */
  lemma RasrSrd(size: nat, writable: bool, executable: bool, srd: Option<seq<bool>>)
    requires 2 <= size < Pow2.WORD
    requires srd.Some? ==> |srd.value| == 8
    ensures SrdFlags((RasrValue(size, writable, executable, srd) >> 8) & 0xFF)
            == (if srd.Some? then srd.value else NoFlags())
  {
    SrdFieldRoundTrip(srd);
    SrdFieldBits(1 - Bit(executable), 0x2 | Bit(writable), SrdField(srd), SizeBits(size));
  }

  /** `SIZE` holds the size field, which describes a region of exactly the size asked for
      when that is a power of two. */
  lemma RasrSize(size: nat, writable: bool, executable: bool, srd: Option<seq<bool>>)
    requires 2 <= size < Pow2.WORD
    requires srd.Some? ==> |srd.value| == 8
    ensures (RasrValue(size, writable, executable, srd) >> 1) & 0x1F == SizeBits(size)
    ensures Pow2.IsPow2(size) ==> Pow2.Pow2(SizeField(size) + 1) == size
  {
    SizeFieldBits(1 - Bit(executable), 0x2 | Bit(writable), SrdField(srd), SizeBits(size));
    if Pow2.IsPow2(size) {
      SizeFieldOfPow2(size);
    }
  }

  /** `ENABLE` is set, and no bit outside the five fields is. */
  lemma RasrEnable(size: nat, writable: bool, executable: bool, srd: Option<seq<bool>>)
    requires 2 <= size < Pow2.WORD
    requires srd.Some? ==> |srd.value| == 8
    ensures RasrValue(size, writable, executable, srd) & 1 == 1
    ensures RasrValue(size, writable, executable, srd) & RASR_MSK == RasrValue(size, writable, executable, srd)
  {
    EnableAndMask(1 - Bit(executable), 0x2 | Bit(writable), SrdField(srd), SizeBits(size));
  }

  // ---------------------------------------------------------------------------------
  // The registers

  /** Writing the region number register: the region is selected, the other bits kept. */
  function SelectRegion(rnr: bv32, region: nat): (r: bv32)
    requires region < 8
    ensures r & RNR_REGION_MSK == region as bv32
    ensures r & !RNR_REGION_MSK == rnr & !RNR_REGION_MSK
  {
    RegionInMask(region);
    Tools.SetBitsWithinMask(rnr, RNR_REGION_MSK, region as bv32);
    Tools.SetBits(rnr, RNR_REGION_MSK, region as bv32)
  }

  /** The region number fits the register's field. */
  lemma RegionInMask(region: nat)
    requires region < 8
    ensures (region as bv32) & RNR_REGION_MSK == region as bv32
  {
  }

  /** Writing the base address register: the address bits are the start's. The start is
      not masked first, so its low bits land in the register's other fields too. */
  function WriteBase(rbar: bv32, start: nat): (r: bv32)
    requires start < Pow2.WORD
    ensures r & RBAR_ADDR_MSK == (start as bv32) & RBAR_ADDR_MSK
    ensures r & !RBAR_ADDR_MSK == (rbar | start as bv32) & !RBAR_ADDR_MSK
  {
    Tools.SetBits(rbar, RBAR_ADDR_MSK, start as bv32)
  }

  /** Writing the attribute and size register: the five fields hold the computed value, the
      reserved bits are kept. */
  function WriteAttributes(rasr: bv32, size: nat, writable: bool, executable: bool,
                           srd: Option<seq<bool>>): (r: bv32)
    requires 2 <= size < Pow2.WORD
    requires srd.Some? ==> |srd.value| == 8
    ensures r & RASR_MSK == RasrValue(size, writable, executable, srd)
    ensures r & !RASR_MSK == rasr & !RASR_MSK
  {
    var r := WriteAssembled(rasr, writable, executable, SrdField(srd), SizeBits(size));
    assert RasrValue(size, writable, executable, srd)
           == Assembled(1 - Bit(executable), 0x2 | Bit(writable), SrdField(srd), SizeBits(size));
    r
  }

  /** Writing the value assembled from the fields under the attribute mask. */
  function WriteAssembled(rasr: bv32, writable: bool, executable: bool, srd: bv32, size: bv32): (r: bv32)
    requires srd <= 0xFF
    ensures r & RASR_MSK == Assembled(1 - Bit(executable), 0x2 | Bit(writable), srd, size)
    ensures r & !RASR_MSK == rasr & !RASR_MSK
  {
    Tools.SetBits(rasr, RASR_MSK, Assembled(1 - Bit(executable), 0x2 | Bit(writable), srd, size))
  }

  /** `SCB_SHCSR_MEMFAULTENA_Msk`, `MPU_CTRL_PRIVDEFENA_Msk` and `MPU_CTRL_ENABLE_Msk`, as
      the Cortex-M4 CMSIS headers define them. */
  const MEMFAULTENA_MSK: bv32 := 0x0001_0000
  const PRIVDEFENA_MSK: bv32 := 0x0000_0004
  const CTRL_ENABLE_MSK: bv32 := 0x0000_0001

  /** The two registers `setup` writes: `SCB->SHCSR` and `MPU->CTRL`. */
  datatype SetupRegs = SetupRegs(shcsr: bv32, ctrl: bv32)

  /** `mpu_ll::setup`: enables the MemManage fault, then turns the MPU on with the default
      memory map as background for privileged code; no other bit of either register moves. */
  function Setup(s: SetupRegs): (r: SetupRegs)
    ensures r.shcsr & MEMFAULTENA_MSK != 0
    ensures r.ctrl & PRIVDEFENA_MSK != 0 && r.ctrl & CTRL_ENABLE_MSK != 0
    ensures r.shcsr & !MEMFAULTENA_MSK == s.shcsr & !MEMFAULTENA_MSK
    ensures r.ctrl & !(PRIVDEFENA_MSK | CTRL_ENABLE_MSK) == s.ctrl & !(PRIVDEFENA_MSK | CTRL_ENABLE_MSK)
  {
    SetupRegs(Tools.AddBits(s.shcsr, MEMFAULTENA_MSK), Tools.AddBits(s.ctrl, PRIVDEFENA_MSK | CTRL_ENABLE_MSK))
  }

  /** Setting up an MPU that is already set up changes nothing. */
  lemma SetupIdempotent(s: SetupRegs)
    ensures Setup(Setup(s)) == Setup(s)
  {
    Tools.AddBitsIdempotent(s.shcsr, MEMFAULTENA_MSK);
    Tools.AddBitsIdempotent(s.ctrl, PRIVDEFENA_MSK | CTRL_ENABLE_MSK);
  }

  /** The three MPU registers the driver writes. */
  datatype Regs = Regs(rnr: bv32, rbar: bv32, rasr: bv32)

  /** `mpu_ll::set_unprivileged_region`: selects the region, writes its base address, then
      its attributes. */
  function SetUnprivilegedRegion(regs: Regs, region: nat, start: nat, size: nat, writable: bool,
                                 executable: bool, srd: Option<seq<bool>>): (r: Regs)
    requires region < 8 && start < Pow2.WORD && 2 <= size < Pow2.WORD
    requires srd.Some? ==> |srd.value| == 8
    ensures r.rnr & RNR_REGION_MSK == region as bv32
    ensures r.rbar & RBAR_ADDR_MSK == (start as bv32) & RBAR_ADDR_MSK
    ensures r.rasr & RASR_MSK == RasrValue(size, writable, executable, srd)
    ensures r.rasr & !RASR_MSK == regs.rasr & !RASR_MSK
  {
    Regs(SelectRegion(regs.rnr, region),
         WriteBase(regs.rbar, start),
         WriteAttributes(regs.rasr, size, writable, executable, srd))
  }
}
