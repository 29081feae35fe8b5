/** The host emulation of the flash controller (`src/arch/host/flash_ll.rs`): the global
    lock flag and the NOR semantics of the memory, where erasing sets a whole sector to 0xFF
    and programming a 32-bit word can only clear bits (`*addr &= val`).

    Every operation asserts that the caller is privileged; the model leaves privilege out and
    keeps the lock-flag assertions as preconditions. Memory is one byte sequence per sector,
    and words are little-endian, as on the host. */
module FlashLl {

  /** The emulated controller: the `LOCKED` flag and the contents of each sector. */
  datatype Hw = Hw(locked: bool, sectors: seq<seq<bv8>>)

  /** The controller at start-up: `LOCKED` is initialised to `true`. */
  function Init(sectors: seq<seq<bv8>>): (r: Hw)
    ensures r.locked && r.sectors == sectors
  {
    Hw(true, sectors)
  }

  /** `unlock`: asserts the flash is locked, then clears the flag. */
  function Unlock(hw: Hw): (r: Hw)
    requires hw.locked
    ensures !r.locked && r.sectors == hw.sectors
  {
    hw.(locked := false)
  }

  /** `lock`: asserts the flash is unlocked, then sets the flag. */
  function Lock(hw: Hw): (r: Hw)
    requires !hw.locked
    ensures r.locked && r.sectors == hw.sectors
  {
    hw.(locked := true)
  }

  /** Unlocking then locking again gives back the controller as it was. */
  lemma UnlockLock(hw: Hw)
    requires hw.locked
    ensures Lock(Unlock(hw)) == hw
  {
  }

  /** `setup`: only asserts that the flash is unlocked. */
  function Setup(hw: Hw): (r: Hw)
    requires !hw.locked
    ensures r == hw
  {
    hw
  }

  /** `has_error`: the emulated status register never reports an error. */
  function HasError(hw: Hw): (r: bv32)
    ensures r == 0
  {
    0
  }

  /** `currently_busy`: the emulated flash is never busy. */
  predicate CurrentlyBusy(hw: Hw)
    ensures !CurrentlyBusy(hw)
  {
    false
  }

  /** `erase(sector)`: asserts the flash is unlocked, then fills the sector with 0xFF. */
  function Erase(hw: Hw, sector: nat): (r: Hw)
    requires !hw.locked
    requires sector < |hw.sectors|
    ensures r.locked == hw.locked
    ensures |r.sectors| == |hw.sectors|
    ensures |r.sectors[sector]| == |hw.sectors[sector]|
    ensures forall k | 0 <= k < |r.sectors[sector]| :: r.sectors[sector][k] == 0xFF
    ensures forall s | 0 <= s < |hw.sectors| && s != sector :: r.sectors[s] == hw.sectors[s]
  {
    hw.(sectors := hw.sectors[sector := Fill(|hw.sectors[sector]|)])
  }

  /** `n` erased bytes. */
  function Fill(n: nat): (r: seq<bv8>)
    ensures |r| == n
    ensures forall k | 0 <= k < n :: r[k] == 0xFF
  {
    if n == 0 then [] else Fill(n - 1) + [0xFF]
  }

  /** `write(addr, val)`: asserts the flash is unlocked, then programs the aligned word at
      `offset` of the sector with `val` (given as its four little-endian bytes), which ANDs
      each of its bytes into flash. */
  function Write(hw: Hw, sector: nat, offset: nat, val: seq<bv8>): (r: Hw)
    requires !hw.locked
    requires sector < |hw.sectors|
    requires offset % 4 == 0 && offset + 4 <= |hw.sectors[sector]|
    requires |val| == 4
    ensures r.locked == hw.locked
    ensures |r.sectors| == |hw.sectors|
    ensures |r.sectors[sector]| == |hw.sectors[sector]|
    ensures forall k | 0 <= k < |hw.sectors[sector]| ::
              r.sectors[sector][k]
              == if offset <= k < offset + 4 then And(hw.sectors[sector][k], val[k - offset])
                 else hw.sectors[sector][k]
    ensures forall s | 0 <= s < |hw.sectors| && s != sector :: r.sectors[s] == hw.sectors[s]
  {
    hw.(sectors := hw.sectors[sector := Program(hw.sectors[sector], offset, val)])
  }

  /** NOR programming of `data` at index `at` of `mem`: each programmed byte becomes the AND
      of what was there and the new byte; nothing else changes. */
  function Program(mem: seq<bv8>, at: nat, data: seq<bv8>): (r: seq<bv8>)
    requires at + |data| <= |mem|
    ensures |r| == |mem|
    ensures forall k {:trigger r[k]} | 0 <= k < |mem| ::
              r[k] == if at <= k < at + |data| then And(mem[k], data[k - at]) else mem[k]
    decreases |data|
  {
    if data == [] then mem
    else
      Program(mem[at := And(mem[at], data[0])], at + 1, data[1..])
  }

  /** One programmed byte: bits can only go from 1 to 0. */
  function And(prev: bv8, val: bv8): bv8
  {
    prev & val
  }

  /** Facts about one programmed byte. */
  lemma AndFacts(prev: bv8, val: bv8)
    ensures And(0xFF, val) == val
    ensures And(And(prev, val), prev) == And(prev, val)
    ensures And(And(prev, val), val) == And(prev, val)
    ensures And(prev, 0xFF) == prev
    ensures And(prev, 0) == 0
    ensures And(prev, prev) == prev
  {
  }

  /** Programming erased flash stores exactly the data. */
  lemma ProgramErased(mem: seq<bv8>, at: nat, data: seq<bv8>)
    requires at + |data| <= |mem|
    requires forall k | at <= k < at + |data| :: mem[k] == 0xFF
    ensures Program(mem, at, data)[at..at + |data|] == data
  {
    var r := Program(mem, at, data);
    forall k | 0 <= k < |data|
      ensures r[at + k] == data[k]
    {
      AndFacts(mem[at + k], data[k]);
    }
  }

  /** Programming only clears bits, and programming the same data twice is the same as once. */
  lemma ProgramOnlyClears(mem: seq<bv8>, at: nat, data: seq<bv8>)
    requires at + |data| <= |mem|
    ensures forall k | 0 <= k < |mem| ::
              And(Program(mem, at, data)[k], mem[k]) == Program(mem, at, data)[k]
    ensures Program(Program(mem, at, data), at, data) == Program(mem, at, data)
  {
    var r := Program(mem, at, data);
    var r2 := Program(r, at, data);
    forall k | 0 <= k < |mem|
      ensures And(r[k], mem[k]) == r[k] && r2[k] == r[k]
    {
      if at <= k < at + |data| {
        AndFacts(mem[k], data[k - at]);
      } else {
        AndFacts(mem[k], mem[k]);
      }
    }
  }

  /** Programming two pieces one after the other is programming their concatenation. */
  lemma ProgramSplit(mem: seq<bv8>, at: nat, d1: seq<bv8>, d2: seq<bv8>)
    requires at + |d1| + |d2| <= |mem|
    ensures Program(mem, at, d1 + d2) == Program(Program(mem, at, d1), at + |d1|, d2)
  {
    var a := Program(mem, at, d1 + d2);
    var b := Program(Program(mem, at, d1), at + |d1|, d2);
    assert forall k | 0 <= k < |mem| :: a[k] == b[k];
  }
}
