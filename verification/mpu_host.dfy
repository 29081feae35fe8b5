/** The host build's software MPU (`src/arch/host/mpu_ll.rs`): a table of 8 regions that
    the emulator consults on every memory fault to decide what the faulting access may do.
    The table starts with 8 empty regions (size 0), and a setup flag guards against
    configuring it before `setup` or setting it up twice.

    The table's lock is always free here (`try_lock` failing is left out), the privilege
    level is a parameter, and panics are `None`. Protections are the `mmap` flags. */
module MpuHost {
  import opened Wrappers
  import Mpu

  /** The `mmap` protection flags. */
  const PROT_NONE: bv32 := 0
  const PROT_READ: bv32 := 1
  const PROT_WRITE: bv32 := 2
  const PROT_EXEC: bv32 := 4

  /** One entry of the table. */
  datatype Region = Region(start: nat, size: nat, writable: bool, executable: bool, srd: Option<seq<bool>>)

  /** The `SETUP` flag and the `REGIONS` table. */
  datatype State = State(setup: bool, regions: seq<Region>)

  /** The table before anything is configured: 8 empty regions, not set up. */
  function Initial(): (s: State)
    ensures !s.setup && |s.regions| == Mpu.MPU_SECTORS
    ensures forall i | 0 <= i < |s.regions| :: s.regions[i].size == 0 && s.regions[i].srd.None?
  {
    State(false, seq(Mpu.MPU_SECTORS, _ => Region(0, 0, true, true, None)))
  }

  /** The region covers the address. */
  predicate Contains(reg: Region, addr: nat)
  {
    reg.start <= addr < reg.start + reg.size
  }

  /** The protection one region grants: always read, and write and execute per its flags. */
  function Prot(reg: Region): (p: bv32)
    ensures p & PROT_READ != 0
    ensures p & PROT_WRITE != 0 <==> reg.writable
    ensures p & PROT_EXEC != 0 <==> reg.executable
  {
    PROT_READ | (if reg.writable then PROT_WRITE else 0) | (if reg.executable then PROT_EXEC else 0)
  }

  /** The loop of `allows_addr` over the remaining regions, with the protection found so
      far: each region covering the address replaces it, and one with sub-regions disabled
      ends the search with `None`, the early `PROT_NONE` return. */
  function Walk(regions: seq<Region>, addr: nat, prot: bv32): Option<bv32>
    decreases |regions|
  {
    if |regions| == 0 then Some(prot)
    else if Contains(regions[0], addr) then
      if regions[0].srd.Some? then None else Walk(regions[1..], addr, Prot(regions[0]))
    else Walk(regions[1..], addr, prot)
  }

  /** `allows_addr(addr)`: what an access to `addr` may do. Privileged code may do
      everything once the loop finishes; an SRD region returns before that check. */
  function AllowsAddr(regions: seq<Region>, privileged: bool, addr: nat): (p: bv32)
  {
    match Walk(regions, addr, PROT_NONE)
    case None => PROT_NONE
    case Some(prot) => if privileged then PROT_READ | PROT_WRITE | PROT_EXEC else prot
  }

  /** The highest-numbered region covering the address, if any. */
  function HighestMatch(regions: seq<Region>, addr: nat): (r: Option<nat>)
    ensures r.Some? ==> r.value < |regions| && Contains(regions[r.value], addr)
    ensures r.Some? ==> forall j | r.value < j < |regions| :: !Contains(regions[j], addr)
    ensures r.None? ==> forall j | 0 <= j < |regions| :: !Contains(regions[j], addr)
    decreases |regions|
  {
    if |regions| == 0 then None
    else
      var last := |regions| - 1;
      if Contains(regions[last], addr) then Some(last) else HighestMatch(regions[..last], addr)
  }

  /** No region covering the address disables sub-regions. */
  predicate NoSrdAt(regions: seq<Region>, addr: nat)
  {
    forall i | 0 <= i < |regions| && Contains(regions[i], addr) :: regions[i].srd.None?
  }

  /** Adding one region at the front shifts the highest match by one, unless only the new
      region covers the address. */
  lemma {:induction false} HighestMatchCons(regions: seq<Region>, addr: nat)
    requires |regions| >= 1
    ensures HighestMatch(regions, addr) ==
      match HighestMatch(regions[1..], addr)
      case Some(j) => Some(j + 1)
      case None => if Contains(regions[0], addr) then Some(0) else None
  {
    var h := HighestMatch(regions, addr);
    var t := HighestMatch(regions[1..], addr);
    if t.Some? {
      assert regions[t.value + 1] == regions[1..][t.value];
      assert forall j | t.value + 1 < j < |regions| :: regions[j] == regions[1..][j - 1];
    } else {
      assert forall j | 1 <= j < |regions| :: regions[j] == regions[1..][j - 1];
    }
  }

  /** The loop leaves the protection of the highest-numbered covering region, or what it
      started with when no region covers the address. */
  lemma {:induction false} WalkFindsHighest(regions: seq<Region>, addr: nat, prot: bv32)
    requires NoSrdAt(regions, addr)
    ensures Walk(regions, addr, prot) ==
      match HighestMatch(regions, addr)
      case Some(i) => Some(Prot(regions[i]))
      case None => Some(prot)
    decreases |regions|
  {
    if |regions| > 0 {
      assert forall i | 0 <= i < |regions[1..]| :: regions[1..][i] == regions[i + 1];
      HighestMatchCons(regions, addr);
      if Contains(regions[0], addr) {
        WalkFindsHighest(regions[1..], addr, Prot(regions[0]));
      } else {
        WalkFindsHighest(regions[1..], addr, prot);
      }
    }
  }

  /** Unprivileged access: only the highest-numbered region covering the address counts,
      and no covering region means no access. */
  lemma AllowsAddrUnprivileged(regions: seq<Region>, addr: nat)
    requires NoSrdAt(regions, addr)
    ensures HighestMatch(regions, addr).Some? ==>
              AllowsAddr(regions, false, addr) == Prot(regions[HighestMatch(regions, addr).value])
    ensures HighestMatch(regions, addr).None? ==> AllowsAddr(regions, false, addr) == PROT_NONE
  {
    WalkFindsHighest(regions, addr, PROT_NONE);
  }

  /** Privileged code may read, write and execute everywhere no SRD region covers. */
  lemma AllowsAddrPrivileged(regions: seq<Region>, addr: nat)
    requires NoSrdAt(regions, addr)
    ensures AllowsAddr(regions, true, addr) == PROT_READ | PROT_WRITE | PROT_EXEC
  {
    WalkFindsHighest(regions, addr, PROT_NONE);
  }

  /** A covering region with sub-regions disabled denies every access, privileged or not. */
  lemma {:induction false} SrdDenies(regions: seq<Region>, privileged: bool, addr: nat, i: nat)
    requires i < |regions| && Contains(regions[i], addr) && regions[i].srd.Some?
    ensures AllowsAddr(regions, privileged, addr) == PROT_NONE
  {
    WalkSrd(regions, addr, PROT_NONE, i);
  }

  lemma {:induction false} WalkSrd(regions: seq<Region>, addr: nat, prot: bv32, i: nat)
    requires i < |regions| && Contains(regions[i], addr) && regions[i].srd.Some?
    ensures Walk(regions, addr, prot).None?
    decreases |regions|
  {
    if i > 0 && !(Contains(regions[0], addr) && regions[0].srd.Some?) {
      assert regions[1..][i - 1] == regions[i];
      var next := if Contains(regions[0], addr) then Prot(regions[0]) else prot;
      WalkSrd(regions[1..], addr, next, i - 1);
    }
  }

  // ---------------------------------------------------------------------------------
  // Configuring the table

  /** `setup`: raises the flag; setting up twice panics. */
  function Setup(s: State): (r: Option<State>)
    ensures r.Some? <==> !s.setup
    ensures r.Some? ==> r.value.setup && r.value.regions == s.regions
  {
    if s.setup then None else Some(State(true, s.regions))
  }

  /** `set_unprivileged_region`: replaces one entry; panics before `setup`, on a
      sub-region mask (not implemented on the host) and on an index past the table. */
  function SetRegion(s: State, region: nat, start: nat, size: nat, writable: bool, executable: bool,
                     srd: Option<seq<bool>>): (r: Option<State>)
    ensures r.Some? <==> s.setup && srd.None? && region < |s.regions|
    ensures r.Some? ==> r.value.setup && |r.value.regions| == |s.regions|
    ensures r.Some? ==> r.value.regions[region] == Region(start, size, writable, executable, srd)
    ensures r.Some? ==> forall j | 0 <= j < |s.regions| && j != region :: r.value.regions[j] == s.regions[j]
  {
    if !s.setup || srd.Some? || region >= |s.regions| then None
    else Some(State(true, s.regions[region := Region(start, size, writable, executable, srd)]))
  }

  /** A request from the driver applied to the table. */
  function Apply(s: State, q: Mpu.Request): (r: Option<State>)
    ensures r.Some? <==> s.setup && q.srd.None? && q.region < |s.regions|
  {
    SetRegion(s, q.region, q.start, q.size, q.writable, q.executable, q.srd)
  }

  /** Requests applied in order; `None` as soon as one panics. */
  function ApplyAll(s: State, qs: seq<Mpu.Request>): (r: Option<State>)
    decreases |qs|
  {
    if |qs| == 0 then Some(s)
    else
      match Apply(s, qs[0])
      case None => None
      case Some(s') => ApplyAll(s', qs[1..])
  }

  /** The table invariant: 8 entries, none disabling sub-regions, and every non-empty
      entry not writable and executable at once. */
  predicate Safe(s: State)
  {
    && |s.regions| == Mpu.MPU_SECTORS
    && (forall i | 0 <= i < |s.regions| :: s.regions[i].srd.None?)
    && (forall i | 0 <= i < |s.regions| :: s.regions[i].size == 0 || !(s.regions[i].writable && s.regions[i].executable))
  }

  /** The initial table is safe: its writable and executable entries are empty. */
  lemma InitialSafe()
    ensures Safe(Initial())
  {
  }

  /** Setup keeps the table safe; so does every well-formed request from the driver, and
      the table accepts all of them once set up. */
  lemma {:induction false} ApplyAllSafe(s: State, qs: seq<Mpu.Request>)
    requires Safe(s) && s.setup
    requires forall q | q in qs :: Mpu.WellFormed(q) && q.srd.None?
    ensures ApplyAll(s, qs).Some? && Safe(ApplyAll(s, qs).value) && ApplyAll(s, qs).value.setup
    decreases |qs|
  {
    if |qs| > 0 {
      var s' := Apply(s, qs[0]).value;
      assert Mpu.WellFormed(qs[0]);
      assert forall q | q in qs[1..] :: q in qs;
      ApplyAllSafe(s', qs[1..]);
    }
  }

  /** Write xor execute for userland: in a safe table no unprivileged access is granted
      both write and execute. */
  lemma WriteXorExecute(s: State, addr: nat)
    requires Safe(s)
    ensures AllowsAddr(s.regions, false, addr) & (PROT_WRITE | PROT_EXEC) != PROT_WRITE | PROT_EXEC
  {
    AllowsAddrUnprivileged(s.regions, addr);
    var h := HighestMatch(s.regions, addr);
    if h.Some? {
      var reg := s.regions[h.value];
      assert reg.size > 0;
      ProtNotBoth(reg);
    }
  }

  lemma ProtNotBoth(reg: Region)
    requires !(reg.writable && reg.executable)
    ensures Prot(reg) & (PROT_WRITE | PROT_EXEC) != PROT_WRITE | PROT_EXEC
  {
  }

  /** The kernel's boot sequence on the host: setup, the regions of
      `setup_unpriv_regions`, then `switch_userland` for the first context, leaves a safe
      table, where privileged code may do everything and userland never writes what it
      executes. */
  lemma BootSequenceSafe(sections: Mpu.Sections, begin: nat, size: nat)
    requires Mpu.SetupUnprivRegions(sections).Some? && Mpu.SwitchUserland(begin, size).Some?
    ensures var qs := Mpu.SetupUnprivRegions(sections).value + [Mpu.SwitchUserland(begin, size).value];
            var r := ApplyAll(Setup(Initial()).value, qs);
            && r.Some? && Safe(r.value)
            && (forall a: nat :: AllowsAddr(r.value.regions, true, a) == PROT_READ | PROT_WRITE | PROT_EXEC)
            && (forall a: nat :: AllowsAddr(r.value.regions, false, a) & (PROT_WRITE | PROT_EXEC)
                                 != PROT_WRITE | PROT_EXEC)
  {
    var qs := Mpu.SetupUnprivRegions(sections).value + [Mpu.SwitchUserland(begin, size).value];
    var s0 := Setup(Initial()).value;
    InitialSafe();
    ApplyAllSafe(s0, qs);
    var s := ApplyAll(s0, qs).value;
    forall a: nat
      ensures AllowsAddr(s.regions, true, a) == PROT_READ | PROT_WRITE | PROT_EXEC
      ensures AllowsAddr(s.regions, false, a) & (PROT_WRITE | PROT_EXEC) != PROT_WRITE | PROT_EXEC
    {
      AllowsAddrPrivileged(s.regions, a);
      WriteXorExecute(s, a);
    }
  }
}
