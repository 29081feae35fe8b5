/** The MPU driver's checks and region table (`src/mpu/mod.rs`). A region request names one
    of the 8 regions, a naturally aligned power-of-two range of at least 32 bytes, whether
    unprivileged code may write and execute it, and an optional sub-region-disable mask.
    `set_unprivileged_region` refuses (panics on) anything else, and on a writable and
    executable region, before the request reaches the hardware layer (`MpuHost`, `MpuRasr`).

    Panics are `None`. The start pointer and the sizes are `usize` values, so `size - 1` on a
    size of 0 overflows: that also panics. The addresses of the linker sections the kernel
    protects are parameters (`Sections`). */
module Mpu {
  import opened Wrappers
  import Pow2

  /** `MPU_SECTORS`: the number of MPU regions. */
  const MPU_SECTORS: nat := 8

  /** `MPU_MIN_SIZE`: the smallest region size. */
  const MPU_MIN_SIZE: nat := 32

  /** The smallest region size that may disable sub-regions. */
  const SRD_MIN_SIZE: nat := 256

  /** A request that passed the checks: what `mpu_ll::set_unprivileged_region` receives.
      The sub-region-disable mask holds 8 flags, one per eighth of the region. */
  datatype Request = Request(
    region: nat, start: nat, size: nat, writable: bool, executable: bool, srd: Option<seq<bool>>)

  /** `Region::new(x)`: a region index, or `None` where the kernel panics. */
  function RegionNew(x: nat): (r: Option<nat>)
    ensures r.Some? <==> x < MPU_SECTORS
    ensures r.Some? ==> r.value == x
  {
    if x < MPU_SECTORS then Some(x) else None
  }

  /** The assertions of `set_unprivileged_region`, as the source writes them: the bit tests
      `size & (size - 1) == 0` and `start & (size - 1) == 0`, the minimum size, no writable
      and executable region, and sub-regions only on regions of 256 bytes or more. */
  predicate Accepts(start: nat, size: nat, writable: bool, executable: bool, srd: Option<seq<bool>>)
  {
    && size >= 1
    && Pow2.And(size, size - 1) == 0
    && size >= MPU_MIN_SIZE
    && Pow2.And(start, size - 1) == 0
    && !(executable && writable)
    && (srd.None? || size >= SRD_MIN_SIZE)
  }

  /** `Mpu::set_unprivileged_region`: the request handed to the hardware layer, or `None`
      where the kernel panics. The index was checked by `Region::new`. */
  function SetUnprivilegedRegion(region: nat, start: nat, size: nat, writable: bool, executable: bool,
                                 srd: Option<seq<bool>>): (r: Option<Request>)
    requires region < MPU_SECTORS
    ensures r.Some? <==> Accepts(start, size, writable, executable, srd)
    ensures r.Some? ==> r.value == Request(region, start, size, writable, executable, srd)
  {
    if Accepts(start, size, writable, executable, srd) then
      Some(Request(region, start, size, writable, executable, srd))
    else None
  }

  /** A well-formed region: a power of two of at least 32 bytes, starting at a multiple of
      its size, never writable and executable at once, with sub-regions only when it is at
      least 256 bytes. */
  predicate WellFormed(q: Request)
  {
    && q.region < MPU_SECTORS
    && Pow2.IsPow2(q.size) && q.size >= MPU_MIN_SIZE
    && Pow2.LowBitsZero(q.start, Pow2.Log2(q.size))
    && !(q.writable && q.executable)
    && (q.srd.Some? ==> q.size >= SRD_MIN_SIZE)
  }

  /** The bit tests mean what the driver says: a request passes the checks exactly when the
      region it describes is well formed. */
  lemma AcceptsMeaning(region: nat, start: nat, size: nat, writable: bool, executable: bool,
                       srd: Option<seq<bool>>)
    requires region < MPU_SECTORS
    ensures Accepts(start, size, writable, executable, srd)
            <==> WellFormed(Request(region, start, size, writable, executable, srd))
  {
    if size >= 1 {
      Pow2.BitTestPow2(size);
      if Pow2.IsPow2(size) {
        Pow2.Pow2OfLog2(size);
        Pow2.AlignTest(start, Pow2.Log2(size));
      }
    }
  }

  /** Every request the driver lets through is well formed; in particular no region is ever
      writable and executable. */
  lemma SetUnprivilegedRegionWellFormed(region: nat, start: nat, size: nat, writable: bool,
                                        executable: bool, srd: Option<seq<bool>>)
    requires region < MPU_SECTORS
    ensures var r := SetUnprivilegedRegion(region, start, size, writable, executable, srd);
            r.Some? ==> WellFormed(r.value) && !(r.value.writable && r.value.executable)
  {
    AcceptsMeaning(region, start, size, writable, executable, srd);
  }

  /** The linker sections the kernel lets userland see: the CAP files, the shared
      read-write and read-only data, and the firmware code. */
  datatype Sections = Sections(
    appletBegin: nat, appletSize: nat,
    sharedRwStart: nat, sharedRwSize: nat,
    sharedRoStart: nat, sharedRoSize: nat,
    programBegin: nat, programSize: nat)

  /** `setup_unpriv_regions`: region 3 read-only on the CAP files, region 4 read-write on
      the shared read-write data, region 5 read-only on the shared read-only data and region
      7 read-execute on the firmware, in that order; `None` when one of them panics. */
  function SetupUnprivRegions(s: Sections): (r: Option<seq<Request>>)
    ensures r.Some? ==> |r.value| == 4
    ensures r.Some? ==> forall q | q in r.value :: WellFormed(q) && q.srd.None?
    ensures r.Some? ==>
              && r.value[0].region == 3 && !r.value[0].writable && !r.value[0].executable
              && r.value[1].region == 4 && r.value[1].writable && !r.value[1].executable
              && r.value[2].region == 5 && !r.value[2].writable && !r.value[2].executable
              && r.value[3].region == 7 && !r.value[3].writable && r.value[3].executable
    ensures r.Some? ==>
              && r.value[0].start == s.appletBegin && r.value[0].size == s.appletSize
              && r.value[1].start == s.sharedRwStart && r.value[1].size == s.sharedRwSize
              && r.value[2].start == s.sharedRoStart && r.value[2].size == s.sharedRoSize
              && r.value[3].start == s.programBegin && r.value[3].size == s.programSize
  {
    var q3 := SetUnprivilegedRegion(3, s.appletBegin, s.appletSize, false, false, None);
    var q4 := SetUnprivilegedRegion(4, s.sharedRwStart, s.sharedRwSize, true, false, None);
    var q5 := SetUnprivilegedRegion(5, s.sharedRoStart, s.sharedRoSize, false, false, None);
    var q7 := SetUnprivilegedRegion(7, s.programBegin, s.programSize, false, true, None);
    if q3.None? || q4.None? || q5.None? || q7.None? then None
    else
      SetUnprivilegedRegionWellFormed(3, s.appletBegin, s.appletSize, false, false, None);
      SetUnprivilegedRegionWellFormed(4, s.sharedRwStart, s.sharedRwSize, true, false, None);
      SetUnprivilegedRegionWellFormed(5, s.sharedRoStart, s.sharedRoSize, false, false, None);
      SetUnprivilegedRegionWellFormed(7, s.programBegin, s.programSize, false, true, None);
      Some([q3.value, q4.value, q5.value, q7.value])
  }

  /** `switch_userland(begin, size)`: region 6, read-write and not executable, on the
      memory of the context about to run; `None` when the checks panic. */
  function SwitchUserland(begin: nat, size: nat): (r: Option<Request>)
    ensures r.Some? <==> Pow2.IsPow2(size) && size >= MPU_MIN_SIZE && Pow2.LowBitsZero(begin, Pow2.Log2(size))
    ensures r.Some? ==> WellFormed(r.value) && r.value.srd.None?
    ensures r.Some? ==> r.value.region == 6 && r.value.writable && !r.value.executable
    ensures r.Some? ==> r.value.start == begin && r.value.size == size
  {
    AcceptsMeaning(6, begin, size, true, false, None);
    SetUnprivilegedRegion(6, begin, size, true, false, None)
  }

  /** Switching contexts touches only region 6, which `setup_unpriv_regions` leaves alone. */
  lemma SwitchUserlandOnlyRegion6(s: Sections, begin: nat, size: nat)
    ensures SetupUnprivRegions(s).Some? ==> forall q | q in SetupUnprivRegions(s).value :: q.region != 6
    ensures SwitchUserland(begin, size).Some? ==> SwitchUserland(begin, size).value.region == 6
  {
  }
}
