/** The flash access layer (`src/flash/mod.rs`): a `Flash` object owning the controller and
    a list of sectors, each with a table of read/write range locks; bounds-checked read-only
    blocks (`FlashBlock`) and write access through a callback (`with_writer`), whose block
    (`FlashBlockMut`) programs bytes and words with the NOR semantics of `FlashLl`.

    The `FlashLl` controller stands in for the hardware. Offsets are relative to the start of
    a sector; sectors are 32-bit aligned and their length is a multiple of 4, so an aligned
    word never straddles two sectors. A 32-bit word is handled as its four little-endian
    bytes. */
module Flash {
  import opened Wrappers
  import HashSet
  import FlashLl

  /** Why a `Flash` object could not be created. */
  datatype InitError = FlashInUse

  /** Why a flash access failed. */
  datatype IOError =
    | LockedError          // an incompatible lock is held on the requested range
    | OutOfBounds          // the requested range does not fit
    | UnknownError(code: bv32) // the controller reported an error (never, on the host)

  // ---------------------------------------------------------------------------------
  // Lock tables

  /** A held lock: whether it is a write lock, its first index and its length. */
  datatype Lock = Lock(rw: bool, start: nat, length: nat)

  /** Locks are compared as whole triples. */
  function LockKey(l: Lock): Lock
  {
    l
  }

  /** `hash` of the triple `(bool, usize, usize)`: the flag as one byte, then each index as
      a word, folded into `CustomHasher`. */
  function LockHash(l: Lock): nat
  {
    var h0 := HashSet.Mix(0, if l.rw then 1 else 0);
    var h1 := HashSet.Mix(h0, l.start % HashSet.WORD);
    HashSet.Mix(h1, l.length % HashSet.WORD)
  }

  /** A sector's lock table: a `HashSet` of triples. */
  type LockTable = HashSet.HashSet<Lock>

  predicate TableValid(t: LockTable)
  {
    HashSet.Valid(t, LockKey, LockHash)
  }

  /** The locks held in a table. */
  function Held(t: LockTable): set<Lock>
  {
    HashSet.Elements(t)
  }

  /** `overlap(a_start, a_length, b_start, b_length)`. */
  predicate Overlap(aStart: nat, aLength: nat, bStart: nat, bLength: nat)
  {
    bStart < aStart + aLength && aStart < bStart + bLength
  }

  /** Index `k` lies in the range of `length` bytes from `start`. */
  predicate InRange(k: nat, start: nat, length: nat)
  {
    start <= k < start + length
  }

  /** For ranges of at least one byte, overlapping means sharing a byte; and the test is
      symmetric. */
  lemma OverlapMeansSharedByte(aStart: nat, aLength: nat, bStart: nat, bLength: nat)
    requires aLength > 0 && bLength > 0
    ensures Overlap(aStart, aLength, bStart, bLength)
            <==> exists k :: InRange(k, aStart, aLength) && InRange(k, bStart, bLength)
    ensures Overlap(aStart, aLength, bStart, bLength) == Overlap(bStart, bLength, aStart, aLength)
  {
    if Overlap(aStart, aLength, bStart, bLength) {
      var k := if aStart < bStart then bStart else aStart;
      assert InRange(k, aStart, aLength) && InRange(k, bStart, bLength);
    }
  }

  /** An empty range never overlaps a range that starts where it is, while a one-byte range
      there does: zero lengths are not treated as one byte. */
  lemma OverlapEmptyAtStart(a: nat, bLength: nat)
    ensures !Overlap(a, 0, a, bLength)
    ensures bLength > 0 ==> Overlap(a, 1, a, bLength)
  {
  }

  /** An empty range at `a` overlaps another range exactly when `a` lies strictly inside it,
      while a one-byte range at `a` overlaps it exactly when it covers `a`: the two differ
      only on a non-empty range starting at `a`. */
  lemma OverlapEmpty(a: nat, bStart: nat, bLength: nat)
    ensures Overlap(a, 0, bStart, bLength) <==> bStart < a < bStart + bLength
    ensures Overlap(a, 1, bStart, bLength) <==> InRange(a, bStart, bLength)
    ensures Overlap(a, 0, bStart, bLength) != Overlap(a, 1, bStart, bLength)
            <==> bStart == a && bLength > 0
  {
  }

  /** A length with zero read as one. */
  function AtLeastOne(length: nat): nat
  {
    if length == 0 then 1 else length
  }

  /** The overlap test the comment on `overlap` describes: a zero length counts as one. */
  predicate OverlapAsDocumented(aStart: nat, aLength: nat, bStart: nat, bLength: nat)
  {
    Overlap(aStart, AtLeastOne(aLength), bStart, AtLeastOne(bLength))
  }

  /** The documented test holds exactly when the ranges share a byte once each zero length is
      read as one, so it agrees with `Overlap` on non-empty ranges and, unlike it, makes an
      empty range at the start of a range overlap it. */
  lemma OverlapAsDocumentedMeaning(aStart: nat, aLength: nat, bStart: nat, bLength: nat)
    ensures OverlapAsDocumented(aStart, aLength, bStart, bLength)
            <==> exists k :: InRange(k, aStart, AtLeastOne(aLength)) && InRange(k, bStart, AtLeastOne(bLength))
    ensures aLength > 0 && bLength > 0 ==>
              OverlapAsDocumented(aStart, aLength, bStart, bLength) == Overlap(aStart, aLength, bStart, bLength)
    ensures bLength > 0 ==> OverlapAsDocumented(bStart, 0, bStart, bLength)
  {
    OverlapMeansSharedByte(aStart, AtLeastOne(aLength), bStart, AtLeastOne(bLength));
  }

  /** A held lock is incompatible with a request when either is a write lock and their
      ranges overlap. */
  predicate Conflicts(held: Lock, rw: bool, start: nat, length: nat)
  {
    (held.rw || rw) && Overlap(start, length, held.start, held.length)
  }

  /** `Sector::lock(rw, start, length)`: refuse with `LockedError` if the table holds an
      incompatible lock, otherwise add the triple. The table is walked in iteration order. */
  method LockRegion(t: LockTable, rw: bool, start: nat, length: nat) returns (r: Result<LockTable, IOError>)
    requires TableValid(t)
    ensures r.Err? <==> exists l :: l in Held(t) && Conflicts(l, rw, start, length)
    ensures r.Err? ==> r.error == LockedError
    ensures r.Ok? ==> TableValid(r.value) && Held(r.value) == Held(t) + {Lock(rw, start, length)}
  {
    var held := HashSet.Iterate(t, 0, 0);
    HashSet.IterateYieldsEachOnce(t, LockKey, LockHash);
    var i := 0;
    while i < |held|
      invariant 0 <= i <= |held|
      invariant forall j | 0 <= j < i :: !Conflicts(held[j], rw, start, length)
    {
      if (held[i].rw || rw) && Overlap(start, length, held[i].start, held[i].length) {
        assert held[i] in Held(t) && Conflicts(held[i], rw, start, length);
        return Err(LockedError);
      }
      i := i + 1;
    }
    forall l | l in Held(t) ensures !Conflicts(l, rw, start, length) {
      assert l in held;
    }
    var (t', added) := HashSet.Insert(t, Lock(rw, start, length), LockKey, LockHash);
    if !added {
      var x :| x in Held(t) && LockKey(x) == LockKey(Lock(rw, start, length));
    }
    return Ok(t');
  }

  /** `Sector::unlock(rw, start, length)`: remove exactly that triple. */
  function UnlockRegion(t: LockTable, rw: bool, start: nat, length: nat): (r: LockTable)
    requires TableValid(t)
    ensures TableValid(r)
    ensures Held(r) == Held(t) - {Lock(rw, start, length)}
  {
    HashSet.Remove(t, Lock(rw, start, length), LockKey, LockHash).0
  }

  // ---------------------------------------------------------------------------------
  // The Flash object and its sectors

  /** What the platform says about a sector: its number for the controller and its length. */
  datatype SectorInfo = SectorInfo(num: nat, length: nat)

  /** A sector: its number for the controller, its length, and its lock table. */
  datatype Sector = Sector(num: nat, length: nat, locks: LockTable)

  /** The `Flash` object: the controller, whether its `locked` mutex (held while the flash is
      open for writing) is taken, and the sectors. */
  datatype Flash = Flash(hw: FlashLl.Hw, writing: bool, sectors: seq<Sector>)

  /** Every sector names a controller sector of its length, a non-zero multiple of 4 below
      2^32, and has a valid lock table. */
  predicate Valid(f: Flash)
  {
    forall i | 0 <= i < |f.sectors| ::
      && f.sectors[i].num < |f.hw.sectors|
      && |f.hw.sectors[f.sectors[i].num]| == f.sectors[i].length
      && 0 < f.sectors[i].length < HashSet.WORD
      && f.sectors[i].length % 4 == 0
      && TableValid(f.sectors[i].locks)
  }

  /** The contents of sector `sid`. */
  function Mem(f: Flash, sid: nat): seq<bv8>
    requires Valid(f) && sid < |f.sectors|
  {
    f.hw.sectors[f.sectors[sid].num]
  }

  /** `Flash::new`: refused while another `Flash` object exists (`inUse`, the
      `FLASH_IN_USE` mutex); otherwise every sector gets an empty lock table of `buckets`
      buckets, and the controller goes through `setup` with the flash unlocked. */
  function New(inUse: bool, infos: seq<SectorInfo>, hw: FlashLl.Hw, buckets: nat): (r: Result<Flash, InitError>)
    requires buckets != 0
    requires hw.locked
    ensures r.Err? <==> inUse
    ensures r.Err? ==> r.error == FlashInUse
    ensures r.Ok? ==> && r.value.hw == hw && !r.value.writing
                      && |r.value.sectors| == |infos|
                      && forall i | 0 <= i < |infos| ::
                           && r.value.sectors[i].num == infos[i].num
                           && r.value.sectors[i].length == infos[i].length
                           && TableValid(r.value.sectors[i].locks)
                           && Held(r.value.sectors[i].locks) == {}
  {
    if inUse then Err(FlashInUse)
    else
      var empty := HashSet.New(buckets, LockKey, LockHash);
      HashSet.NewIsEmpty(buckets, LockKey, LockHash);
      var f := Flash(hw, false, seq(|infos|, i requires 0 <= i < |infos| => Sector(infos[i].num, infos[i].length, empty)));
      // with_flash_unlocked(|| setup()): the write mutex is free on a new object
      var unlockedFlash := Unlocked(f).value;
      Ok(Relocked(unlockedFlash.(hw := FlashLl.Setup(unlockedFlash.hw))))
  }

  /** The entry half of `with_flash_unlocked`: take the write mutex (`LockedError` if it is
      taken) and unlock the controller. */
  function Unlocked(f: Flash): (r: Result<Flash, IOError>)
    requires !f.writing ==> f.hw.locked
    ensures r.Err? <==> f.writing
    ensures r.Err? ==> r.error == LockedError
    ensures r.Ok? ==> r.value.writing && !r.value.hw.locked
                      && r.value.hw.sectors == f.hw.sectors && r.value.sectors == f.sectors
  {
    if f.writing then Err(LockedError)
    else Ok(f.(writing := true, hw := FlashLl.Unlock(f.hw)))
  }

  /** The exit half of `with_flash_unlocked`: lock the controller and release the mutex. */
  function Relocked(f: Flash): (r: Flash)
    requires !f.hw.locked
    ensures !r.writing && r.hw.locked
    ensures r.hw.sectors == f.hw.sectors && r.sectors == f.sectors
  {
    f.(writing := false, hw := FlashLl.Lock(f.hw))
  }

  /** The range check shared by `read`, `with_writer`, `FlashBlock::read` and
      `write_block_generic`: the range must start inside and end inside. */
  predicate InBounds(start: nat, length: nat, size: nat)
  {
    !(start >= size || length > size || start + length > size)
  }

  /** Replaces the lock table of sector `sid`. */
  function WithLocks(f: Flash, sid: nat, t: LockTable): (r: Flash)
    requires sid < |f.sectors|
    ensures r.hw == f.hw && r.writing == f.writing && |r.sectors| == |f.sectors|
    ensures r.sectors[sid].locks == t
    ensures r.sectors[sid].num == f.sectors[sid].num && r.sectors[sid].length == f.sectors[sid].length
    ensures forall j | 0 <= j < |f.sectors| && j != sid :: r.sectors[j] == f.sectors[j]
  {
    f.(sectors := f.sectors[sid := f.sectors[sid].(locks := t)])
  }

  // ---------------------------------------------------------------------------------
  // Read-only blocks

  /** A `FlashBlock`: a read-locked range of a sector. */
  datatype FlashBlock = FlashBlock(sid: nat, start: nat, length: nat)

  /** The bytes a block reads (its `Deref`). */
  function Contents(f: Flash, b: FlashBlock): (r: seq<bv8>)
    requires Valid(f) && b.sid < |f.sectors|
    requires b.start + b.length <= f.sectors[b.sid].length
    ensures |r| == b.length
    ensures forall k | 0 <= k < b.length :: r[k] == Mem(f, b.sid)[b.start + k]
  {
    Mem(f, b.sid)[b.start..b.start + b.length]
  }

  /** `FlashBlock::new`: take a read lock on the range. */
  method NewBlock(f: Flash, sid: nat, start: nat, length: nat) returns (f': Flash, r: Result<FlashBlock, IOError>)
    requires Valid(f) && sid < |f.sectors|
    ensures Valid(f') && |f'.sectors| == |f.sectors|
    ensures r.Err? <==> exists l :: l in Held(f.sectors[sid].locks) && Conflicts(l, false, start, length)
    ensures r.Err? ==> r.error == LockedError && f' == f
    ensures r.Ok? ==> && r.value == FlashBlock(sid, start, length)
                      && f' == WithLocks(f, sid, f'.sectors[sid].locks)
                      && Held(f'.sectors[sid].locks) == Held(f.sectors[sid].locks) + {Lock(false, start, length)}
  {
    var t := LockRegion(f.sectors[sid].locks, false, start, length);
    if t.Err? {
      return f, Err(t.error);
    }
    f' := WithLocks(f, sid, t.value);
    r := Ok(FlashBlock(sid, start, length));
  }

  /** `Sector::read(start, length)`: `OutOfBounds` unless the range fits the sector, then a
      read-locked block. */
  method Read(f: Flash, sid: nat, start: nat, length: nat) returns (f': Flash, r: Result<FlashBlock, IOError>)
    requires Valid(f) && sid < |f.sectors|
    ensures Valid(f') && |f'.sectors| == |f.sectors|
    ensures !InBounds(start, length, f.sectors[sid].length) ==> r == Err(OutOfBounds) && f' == f
    ensures InBounds(start, length, f.sectors[sid].length) ==>
              (r.Err? <==> exists l :: l in Held(f.sectors[sid].locks) && Conflicts(l, false, start, length))
    ensures r.Ok? ==> && r.value == FlashBlock(sid, start, length)
                      && f'.hw == f.hw
                      && Held(f'.sectors[sid].locks) == Held(f.sectors[sid].locks) + {Lock(false, start, length)}
  {
    if start >= f.sectors[sid].length || length > f.sectors[sid].length || start + length > f.sectors[sid].length {
      return f, Err(OutOfBounds);
    }
    f', r := NewBlock(f, sid, start, length);
  }

  /** `FlashBlock::read(start, length)`: a sub-block, `start` relative to the block.
      Locking it cannot be refused while the parent's read lock is held, which the source
      asserts (`expect`); the model requires it. */
  method SubBlock(f: Flash, b: FlashBlock, start: nat, length: nat) returns (f': Flash, r: Result<FlashBlock, IOError>)
    requires Valid(f) && b.sid < |f.sectors|
    requires InBounds(start, length, b.length) ==>
               forall l | l in Held(f.sectors[b.sid].locks) :: !Conflicts(l, false, b.start + start, length)
    ensures Valid(f') && |f'.sectors| == |f.sectors|
    ensures r.Err? <==> !InBounds(start, length, b.length)
    ensures r.Err? ==> r.error == OutOfBounds && f' == f
    ensures r.Ok? ==> && r.value == FlashBlock(b.sid, b.start + start, length)
                      && Held(f'.sectors[b.sid].locks)
                         == Held(f.sectors[b.sid].locks) + {Lock(false, b.start + start, length)}
  {
    if start >= b.length || length > b.length || start + length > b.length {
      return f, Err(OutOfBounds);
    }
    f', r := NewBlock(f, b.sid, b.start + start, length);
  }

  /** `FlashBlock::clone`: a second block on the same range, which takes the same read lock
      again (asserted to succeed). */
  method Clone(f: Flash, b: FlashBlock) returns (f': Flash, r: FlashBlock)
    requires Valid(f) && b.sid < |f.sectors|
    requires forall l | l in Held(f.sectors[b.sid].locks) :: !Conflicts(l, false, b.start, b.length)
    ensures Valid(f') && |f'.sectors| == |f.sectors|
    ensures r == b
    ensures Held(f'.sectors[b.sid].locks) == Held(f.sectors[b.sid].locks) + {Lock(false, b.start, b.length)}
  {
    var res;
    f', res := NewBlock(f, b.sid, b.start, b.length);
    r := res.value;
  }

  /** `FlashBlock::drop`: release the block's read lock. */
  function Drop(f: Flash, b: FlashBlock): (f': Flash)
    requires Valid(f) && b.sid < |f.sectors|
    ensures Valid(f')
    ensures f'.hw == f.hw && |f'.sectors| == |f.sectors|
    ensures Held(f'.sectors[b.sid].locks) == Held(f.sectors[b.sid].locks) - {Lock(false, b.start, b.length)}
  {
    WithLocks(f, b.sid, UnlockRegion(f.sectors[b.sid].locks, false, b.start, b.length))
  }

  // ---------------------------------------------------------------------------------
  // Writable blocks

  /** A `FlashBlockMut`: a write-locked range of a sector, only alive inside `with_writer`,
      while the controller is unlocked. */
  datatype BlockMut = BlockMut(sid: nat, start: nat, length: nat)

  predicate Writable(f: Flash, b: BlockMut)
  {
    && Valid(f) && b.sid < |f.sectors| && !f.hw.locked
    && b.start + b.length <= f.sectors[b.sid].length
  }

  /** The flash with sector `sid`'s contents replaced. */
  function WithMem(f: Flash, sid: nat, mem: seq<bv8>): (r: Flash)
    requires Valid(f) && sid < |f.sectors|
    requires |mem| == |Mem(f, sid)|
    ensures r.sectors == f.sectors && r.writing == f.writing && r.hw.locked == f.hw.locked
    ensures Valid(r)
    ensures Mem(r, sid) == mem
  {
    f.(hw := f.hw.(sectors := f.hw.sectors[f.sectors[sid].num := mem]))
  }

  /** The word `(old & !(0xFF << pos)) | (v << pos)`: the aligned word read back from flash
      with its byte at `pos` replaced by `v`. */
  function Splice(word: seq<bv8>, pos: nat, v: bv8): (r: seq<bv8>)
    requires |word| == 4 && pos < 4
    ensures |r| == 4 && r[pos] == v
    ensures forall k | 0 <= k < 4 && k != pos :: r[k] == word[k]
  {
    word[pos := v]
  }

  /** `FlashBlockMut::write(i, v)`: `OutOfBounds` unless `i` is inside the block; otherwise
      program the aligned word holding byte `start + i` with that byte spliced in. The
      controller never reports an error on the host, so `test_for_error` always passes. */
  function WriteByte(f: Flash, b: BlockMut, i: nat, v: bv8): (r: Result<Flash, IOError>)
    requires Writable(f, b)
    ensures r.Err? <==> i >= b.length
    ensures r.Err? ==> r.error == OutOfBounds
    ensures r.Ok? ==> r.value == WithMem(f, b.sid, FlashLl.Program(Mem(f, b.sid), b.start + i, [v]))
  {
    if i >= b.length then Err(OutOfBounds)
    else
      var mem := Mem(f, b.sid);
      var aligned := (b.start + i) - (b.start + i) % 4;
      var pos := (b.start + i) % 4;
      var word := Splice(mem[aligned..aligned + 4], pos, v);
      var hw := FlashLl.Write(f.hw, f.sectors[b.sid].num, aligned, word);
      assert FlashLl.HasError(hw) == 0;
      WriteByteEffect(mem, aligned, pos, v, hw.sectors[f.sectors[b.sid].num]);
      Ok(f.(hw := hw))
  }

  /** Programming the spliced word changes only the spliced byte, which becomes the AND of
      the old byte and `v`: every other byte is programmed with its own value. */
  lemma WriteByteEffect(mem: seq<bv8>, aligned: nat, pos: nat, v: bv8, after: seq<bv8>)
    requires aligned % 4 == 0 && aligned + 4 <= |mem| && pos < 4
    requires after == FlashLl.Program(mem, aligned, Splice(mem[aligned..aligned + 4], pos, v))
    ensures after == FlashLl.Program(mem, aligned + pos, [v])
  {
    var want := FlashLl.Program(mem, aligned + pos, [v]);
    forall k | 0 <= k < |mem| ensures after[k] == want[k] {
      FlashLl.AndFacts(mem[k], v);
    }
  }

  /** Writing the contents of one sector twice keeps only the second. */
  lemma WithMemTwice(f: Flash, sid: nat, m1: seq<bv8>, m2: seq<bv8>)
    requires Valid(f) && sid < |f.sectors|
    requires |m1| == |Mem(f, sid)| && |m2| == |Mem(f, sid)|
    ensures WithMem(WithMem(f, sid, m1), sid, m2) == WithMem(f, sid, m2)
  {
  }

  /** Programming the next `n` bytes of `bytes` after its first `i` are programmed. */
  lemma ProgramStep(mem: seq<bv8>, at: nat, bytes: seq<bv8>, i: nat, n: nat)
    requires i + n <= |bytes| && at + |bytes| <= |mem|
    ensures FlashLl.Program(FlashLl.Program(mem, at, bytes[..i]), at + i, bytes[i..i + n])
            == FlashLl.Program(mem, at, bytes[..i + n])
  {
    FlashLl.ProgramSplit(mem, at, bytes[..i], bytes[i..i + n]);
    assert bytes[..i] + bytes[i..i + n] == bytes[..i + n];
  }

  /** One controller word write is programming the word into the sector's contents. */
  lemma WriteWordEffect(f: Flash, sid: nat, offset: nat, word: seq<bv8>)
    requires Valid(f) && sid < |f.sectors| && !f.hw.locked
    requires offset % 4 == 0 && offset + 4 <= |Mem(f, sid)| && |word| == 4
    ensures f.(hw := FlashLl.Write(f.hw, f.sectors[sid].num, offset, word))
            == WithMem(f, sid, FlashLl.Program(Mem(f, sid), offset, word))
  {
  }

  /** The loop state of `write_block_generic`: the first `i` bytes are programmed. */
  predicate WroteUpTo(f: Flash, f': Flash, bm: BlockMut, at: nat, bytes: seq<bv8>, i: nat)
    requires Writable(f, bm) && at + |bytes| <= |Mem(f, bm.sid)|
  {
    i <= |bytes| && f' == WithMem(f, bm.sid, FlashLl.Program(Mem(f, bm.sid), at, bytes[..i]))
  }

  /** One byte step of `write_block_generic`. */
  method WriteNextByte(f: Flash, f': Flash, bm: BlockMut, b: nat, bytes: seq<bv8>, i: nat) returns (f'': Flash)
    requires Writable(f, bm) && b + |bytes| <= bm.length && i < |bytes|
    requires WroteUpTo(f, f', bm, bm.start + b, bytes, i)
    ensures Writable(f'', bm) && WroteUpTo(f, f'', bm, bm.start + b, bytes, i + 1)
  {
    var w := WriteByte(f', bm, b + i, bytes[i]);
    f'' := w.value;
    ProgramStep(Mem(f, bm.sid), bm.start + b, bytes, i, 1);
    assert bytes[i..i + 1] == [bytes[i]];
    WithMemTwice(f, bm.sid, FlashLl.Program(Mem(f, bm.sid), bm.start + b, bytes[..i]),
                 FlashLl.Program(Mem(f, bm.sid), bm.start + b, bytes[..i + 1]));
  }

  /** One word step of `write_block_generic`: `get_u32(i)` written at an aligned address. */
  method WriteNextWord(f: Flash, f': Flash, bm: BlockMut, b: nat, bytes: seq<bv8>, i: nat) returns (f'': Flash)
    requires Writable(f, bm) && b + |bytes| <= bm.length && i + 4 <= |bytes|
    requires (bm.start + b + i) % 4 == 0
    requires WroteUpTo(f, f', bm, bm.start + b, bytes, i)
    ensures Writable(f'', bm) && WroteUpTo(f, f'', bm, bm.start + b, bytes, i + 4)
  {
    WriteWordEffect(f', bm.sid, bm.start + b + i, bytes[i..i + 4]);
    var hw := FlashLl.Write(f'.hw, f'.sectors[bm.sid].num, bm.start + b + i, bytes[i..i + 4]);
    assert FlashLl.HasError(hw) == 0;
    f'' := f'.(hw := hw);
    ProgramStep(Mem(f, bm.sid), bm.start + b, bytes, i, 4);
    WithMemTwice(f, bm.sid, FlashLl.Program(Mem(f, bm.sid), bm.start + b, bytes[..i]),
                 FlashLl.Program(Mem(f, bm.sid), bm.start + b, bytes[..i + 4]));
  }

  /** `write_block_generic(b, length, get_u8, get_u32)` with `get_u8(i) = bytes[i]` and
      `get_u32(i)` the little-endian word `bytes[i..i + 4]`: after the range check, bytes
      one at a time up to the first aligned address, then whole words while four bytes
      remain, then the last bytes one at a time. The result is the same as programming all
      of `bytes` at `start + b`. */
  method WriteBlockGeneric(f: Flash, bm: BlockMut, b: nat, length: nat, bytes: seq<bv8>)
    returns (f': Flash, r: Result<(), IOError>)
    requires Writable(f, bm)
    requires |bytes| == length
    ensures r.Err? <==> !InBounds(b, length, bm.length)
    ensures r.Err? ==> r.error == OutOfBounds && f' == f
    ensures r.Ok? ==> f' == WithMem(f, bm.sid, FlashLl.Program(Mem(f, bm.sid), bm.start + b, bytes))
  {
    if b >= bm.length || length > bm.length || b + length > bm.length {
      return f, Err(OutOfBounds);
    }
    assert bytes[..0] == [];
    f' := f;
    var i := 0;
    // Byte by byte until the first 32-bit aligned address
    while (bm.start + b + i) % 4 != 0 && i < length
      invariant Writable(f', bm) && WroteUpTo(f, f', bm, bm.start + b, bytes, i)
      decreases length - i
    {
      f' := WriteNextByte(f, f', bm, b, bytes, i);
      i := i + 1;
    }
    // Word by word while a whole word remains
    while i + 3 < length
      invariant i < length ==> (bm.start + b + i) % 4 == 0
      invariant Writable(f', bm) && WroteUpTo(f, f', bm, bm.start + b, bytes, i)
    {
      f' := WriteNextWord(f, f', bm, b, bytes, i);
      i := i + 4;
    }
    // Byte by byte until the end
    while i < length
      invariant Writable(f', bm) && WroteUpTo(f, f', bm, bm.start + b, bytes, i)
    {
      f' := WriteNextByte(f, f', bm, b, bytes, i);
      i := i + 1;
    }
    assert bytes[..i] == bytes;
    return f', Ok(());
  }

  /** `write_block(b, v)`: program `v` at index `b` of the block. */
  method WriteBlock(f: Flash, bm: BlockMut, b: nat, v: seq<bv8>) returns (f': Flash, r: Result<(), IOError>)
    requires Writable(f, bm)
    ensures r.Err? <==> !InBounds(b, |v|, bm.length)
    ensures r.Err? ==> r.error == OutOfBounds && f' == f
    ensures r.Ok? ==> f' == WithMem(f, bm.sid, FlashLl.Program(Mem(f, bm.sid), bm.start + b, v))
  {
    f', r := WriteBlockGeneric(f, bm, b, |v|, v);
  }

  /** `length` zero bytes. */
  function Zeros(length: nat): (r: seq<bv8>)
    ensures |r| == length && forall k | 0 <= k < length :: r[k] == 0
  {
    if length == 0 then [] else Zeros(length - 1) + [0]
  }

  /** `zero_block(b, length)`: clear every bit of `length` bytes from index `b`. */
  method ZeroBlock(f: Flash, bm: BlockMut, b: nat, length: nat) returns (f': Flash, r: Result<(), IOError>)
    requires Writable(f, bm)
    ensures r.Err? <==> !InBounds(b, length, bm.length)
    ensures r.Err? ==> r.error == OutOfBounds && f' == f
    ensures r.Ok? ==> f' == WithMem(f, bm.sid, FlashLl.Program(Mem(f, bm.sid), bm.start + b, Zeros(length)))
    ensures r.Ok? ==> && Valid(f') && f'.sectors == f.sectors
                      && forall k | 0 <= k < |Mem(f, bm.sid)| ::
                           Mem(f', bm.sid)[k]
                           == if bm.start + b <= k < bm.start + b + length then 0 else Mem(f, bm.sid)[k]
  {
    f', r := WriteBlockGeneric(f, bm, b, length, Zeros(length));
    if r.Ok? {
      forall k | 0 <= k < |Mem(f, bm.sid)| && bm.start + b <= k < bm.start + b + length
        ensures Mem(f', bm.sid)[k] == 0
      {
        FlashLl.AndFacts(Mem(f, bm.sid)[k], 0);
      }
    }
  }

  // ---------------------------------------------------------------------------------
  // Writing through a callback, and erasing

  /** What a `with_writer` callback does with its `FlashBlockMut`: the store's callbacks
      are sequences of these calls, stopping at the first error. */
  datatype Edit =
    | Put(i: nat, v: bv8)               // write(i, v)
    | PutBlock(at: nat, bytes: seq<bv8>) // write_block(at, bytes)
    | Zero(at: nat, count: nat)          // zero_block(at, count)

  /** Whether a call succeeds on a block of `length` bytes: it must fit the block. */
  predicate EditOk(e: Edit, length: nat)
  {
    match e
    case Put(i, _) => i < length
    case PutBlock(at, bytes) => InBounds(at, |bytes|, length)
    case Zero(at, count) => InBounds(at, count, length)
  }

  /** The bytes a call programs, and where in the block. */
  function EditAt(e: Edit): nat
  {
    match e
    case Put(i, _) => i
    case PutBlock(at, _) => at
    case Zero(at, _) => at
  }

  function EditBytes(e: Edit): seq<bv8>
  {
    match e
    case Put(_, v) => [v]
    case PutBlock(_, bytes) => bytes
    case Zero(_, count) => Zeros(count)
  }

  /** Reference semantics of a callback on the contents `mem` of a sector, for a block
      starting at `start`: each call that fits programs its bytes; the first that does not
      fit stops the rest. */
  function EditsMem(mem: seq<bv8>, start: nat, length: nat, edits: seq<Edit>): (r: seq<bv8>)
    requires start + length <= |mem|
    ensures |r| == |mem|
    ensures forall k {:trigger r[k]} | 0 <= k < |mem| && !(start <= k < start + length) :: r[k] == mem[k]
    decreases |edits|
  {
    if edits == [] || !EditOk(edits[0], length) then mem
    else
      var next := FlashLl.Program(mem, start + EditAt(edits[0]), EditBytes(edits[0]));
      EditsMem(next, start, length, edits[1..])
  }

  /** The bytes of a sequence of calls, in order. */
  function AllBytes(edits: seq<Edit>): seq<bv8>
    decreases |edits|
  {
    if edits == [] then [] else EditBytes(edits[0]) + AllBytes(edits[1..])
  }

  /** Each call writes right after the previous one, the first at offset `at`. */
  predicate Contiguous(at: nat, edits: seq<Edit>)
    decreases |edits|
  {
    edits == [] || (EditAt(edits[0]) == at && Contiguous(at + |EditBytes(edits[0])|, edits[1..]))
  }

  /** A call whose bytes end before the end of the block fits it. */
  lemma StartsInside(e: Edit, length: nat)
    requires EditAt(e) + |EditBytes(e)| < length
    ensures EditOk(e, length)
  {
    match e {
      case Put(i, v) =>
      case PutBlock(a, bytes) =>
      case Zero(a, count) => assert |EditBytes(e)| == count;
    }
  }

  /** Calls that write one after the other, all starting inside the block, program their
      bytes in one piece. */
  lemma {:induction false} ContiguousEdits(mem: seq<bv8>, start: nat, length: nat, at: nat, edits: seq<Edit>)
    requires Contiguous(at, edits)
    requires at + |AllBytes(edits)| < length
    requires start + length <= |mem|
    ensures EditsMem(mem, start, length, edits) == FlashLl.Program(mem, start + at, AllBytes(edits))
    decreases |edits|
  {
    if edits != [] {
      var e := edits[0];
      var rest := AllBytes(edits[1..]);
      var next := FirstEdit(mem, start, length, at, edits);
      var there := start + (at + |EditBytes(e)|);
      ContiguousEdits(next, start, length, at + |EditBytes(e)|, edits[1..]);
      ProgramSplitAt(mem, start + at, EditBytes(e), rest, there);
      calc {
        EditsMem(mem, start, length, edits);
        EditsMem(next, start, length, edits[1..]);
        FlashLl.Program(next, there, rest);
        FlashLl.Program(mem, start + at, EditBytes(e) + rest);
        FlashLl.Program(mem, start + at, AllBytes(edits));
      }
    } else {
      assert AllBytes(edits) == [];
      NothingProgrammed(mem, start + at);
    }
  }

  /** Programming no bytes changes nothing. */
  lemma NothingProgrammed(mem: seq<bv8>, at: nat)
    requires at <= |mem|
    ensures FlashLl.Program(mem, at, []) == mem
  {
  }

  /** Running the first of contiguous calls. */
  lemma FirstEdit(mem: seq<bv8>, start: nat, length: nat, at: nat, edits: seq<Edit>) returns (next: seq<bv8>)
    requires Contiguous(at, edits) && edits != []
    requires at + |AllBytes(edits)| < length
    requires start + length <= |mem|
    ensures next == FlashLl.Program(mem, start + at, EditBytes(edits[0]))
    ensures AllBytes(edits) == EditBytes(edits[0]) + AllBytes(edits[1..])
    ensures Contiguous(at + |EditBytes(edits[0])|, edits[1..])
    ensures EditsMem(mem, start, length, edits) == EditsMem(next, start, length, edits[1..])
  {
    FirstEditFits(at, length, edits);
    next := FirstEditRuns(mem, start, length, edits);
  }

  /** The first of contiguous calls fits the block; what remains is contiguous after it. */
  lemma FirstEditFits(at: nat, length: nat, edits: seq<Edit>)
    requires Contiguous(at, edits) && edits != []
    requires at + |AllBytes(edits)| < length
    ensures AllBytes(edits) == EditBytes(edits[0]) + AllBytes(edits[1..])
    ensures Contiguous(at + |EditBytes(edits[0])|, edits[1..])
    ensures EditAt(edits[0]) == at && EditOk(edits[0], length)
  {
    StartsInside(edits[0], length);
  }

  /** A first call that fits the block programs its bytes, then the rest run. */
  lemma FirstEditRuns(mem: seq<bv8>, start: nat, length: nat, edits: seq<Edit>) returns (next: seq<bv8>)
    requires edits != [] && EditOk(edits[0], length)
    requires start + length <= |mem|
    ensures next == FlashLl.Program(mem, start + EditAt(edits[0]), EditBytes(edits[0]))
    ensures EditsMem(mem, start, length, edits) == EditsMem(next, start, length, edits[1..])
  {
    next := FlashLl.Program(mem, start + EditAt(edits[0]), EditBytes(edits[0]));
  }

  /** `ProgramSplit` with the second offset named. */
  lemma ProgramSplitAt(mem: seq<bv8>, here: nat, d1: seq<bv8>, d2: seq<bv8>, there: nat)
    requires here + |d1| + |d2| <= |mem|
    requires there == here + |d1|
    ensures FlashLl.Program(FlashLl.Program(mem, here, d1), there, d2) == FlashLl.Program(mem, here, d1 + d2)
  {
    FlashLl.ProgramSplit(mem, here, d1, d2);
  }

  /** Joining two runs of contiguous calls. */
  lemma {:induction false} ContiguousAppend(at: nat, a: seq<Edit>, b: seq<Edit>)
    requires Contiguous(at, a) && Contiguous(at + |AllBytes(a)|, b)
    ensures Contiguous(at, a + b) && AllBytes(a + b) == AllBytes(a) + AllBytes(b)
    decreases |a|
  {
    AllBytesAppend(a, b);
    if a == [] {
      assert a + b == b;
    } else {
      assert (a + b)[0] == a[0];
      assert (a + b)[1..] == a[1..] + b;
      assert |AllBytes(a)| == |EditBytes(a[0])| + |AllBytes(a[1..])|;
      ContiguousAppend(at + |EditBytes(a[0])|, a[1..], b);
    }
  }

  /** The bytes of two runs of calls, one after the other. */
  lemma {:induction false} AllBytesAppend(a: seq<Edit>, b: seq<Edit>)
    ensures AllBytes(a + b) == AllBytes(a) + AllBytes(b)
    decreases |a|
  {
    if a == [] {
      assert a + b == b;
    } else {
      assert (a + b)[0] == a[0];
      assert (a + b)[1..] == a[1..] + b;
      AllBytesAppend(a[1..], b);
      assert EditBytes(a[0]) + (AllBytes(a[1..]) + AllBytes(b))
             == (EditBytes(a[0]) + AllBytes(a[1..])) + AllBytes(b);
    }
  }

  /** One call put in front of contiguous calls that follow it. */
  lemma ConsEdit(at: nat, e: Edit, rest: seq<Edit>)
    requires EditAt(e) == at && Contiguous(at + |EditBytes(e)|, rest)
    ensures Contiguous(at, [e] + rest)
    ensures AllBytes([e] + rest) == EditBytes(e) + AllBytes(rest)
  {
    assert ([e] + rest)[0] == e && ([e] + rest)[1..] == rest;
  }

  /** A callback of one call that fits programs its bytes. */
  lemma OneEdit(mem: seq<bv8>, start: nat, length: nat, e: Edit)
    requires EditOk(e, length) && start + length <= |mem|
    ensures EditsMem(mem, start, length, [e]) == FlashLl.Program(mem, start + EditAt(e), EditBytes(e))
  {
    var next := FirstEditRuns(mem, start, length, [e]);
    assert [e][1..] == [];
  }

  /** Every call of the callback fits its block. */
  predicate EditsOk(length: nat, edits: seq<Edit>)
  {
    forall k | 0 <= k < |edits| :: EditOk(edits[k], length)
  }

  /** One call of the callback: `OutOfBounds`, changing nothing, unless it fits the block;
      otherwise its bytes are programmed. */
  method RunEdit(f: Flash, bm: BlockMut, e: Edit) returns (f': Flash, r: Result<(), IOError>)
    requires Writable(f, bm)
    ensures r.Ok? <==> EditOk(e, bm.length)
    ensures r.Err? ==> r.error == OutOfBounds && f' == f
    ensures r.Ok? ==> f' == WithMem(f, bm.sid, FlashLl.Program(Mem(f, bm.sid), bm.start + EditAt(e), EditBytes(e)))
  {
    match e {
      case Put(i, v) =>
        var w := WriteByte(f, bm, i, v);
        if w.Err? { return f, Err(w.error); }
        return w.value, Ok(());
      case PutBlock(at, bytes) =>
        f', r := WriteBlock(f, bm, at, bytes);
      case Zero(at, count) =>
        f', r := ZeroBlock(f, bm, at, count);
    }
  }

  /** Runs the callback's calls in order; the first error ends it, with the calls before it
      already done. */
  method RunEdits(f: Flash, bm: BlockMut, edits: seq<Edit>) returns (f': Flash, r: Result<(), IOError>)
    requires Writable(f, bm)
    ensures Writable(f', bm)
    ensures f' == WithMem(f, bm.sid, EditsMem(Mem(f, bm.sid), bm.start, bm.length, edits))
    ensures r.Ok? <==> EditsOk(bm.length, edits)
    ensures r.Err? ==> r.error == OutOfBounds
  {
    f' := f;
    var k := 0;
    while k < |edits|
      invariant 0 <= k <= |edits|
      invariant Writable(f', bm) && f'.sectors == f.sectors
      invariant EditsMem(Mem(f, bm.sid), bm.start, bm.length, edits)
                == EditsMem(Mem(f', bm.sid), bm.start, bm.length, edits[k..])
      invariant f' == WithMem(f, bm.sid, Mem(f', bm.sid))
      invariant EditsOk(bm.length, edits[..k])
    {
      assert edits[k..][1..] == edits[k + 1..];
      assert edits[..k + 1] == edits[..k] + [edits[k]];
      var before := f';
      var step;
      f', step := RunEdit(f', bm, edits[k]);
      if step.Err? {
        return f', step;
      }
      WithMemTwice(f, bm.sid, Mem(before, bm.sid), Mem(f', bm.sid));
      k := k + 1;
    }
    assert edits[..k] == edits;
    return f', Ok(());
  }

  /** The lock tables of two flash objects hold the same locks, sector by sector. */
  predicate SameLocks(f: Flash, g: Flash)
  {
    && |g.sectors| == |f.sectors|
    && forall i | 0 <= i < |f.sectors| ::
         && g.sectors[i].num == f.sectors[i].num
         && g.sectors[i].length == f.sectors[i].length
         && TableValid(g.sectors[i].locks)
         && Held(g.sectors[i].locks) == Held(f.sectors[i].locks)
  }

  /** No write lock is held: write locks only exist while the write mutex is taken, which
      `with_writer` and `erase` take first. */
  predicate NoWriteLocks(f: Flash)
  {
    forall i, l | 0 <= i < |f.sectors| && l in Held(f.sectors[i].locks) :: !l.rw
  }

  /** The entry half of `with_writer` after the range check: take the write mutex, then the
      write lock on the range. */
  method BeginWrite(f: Flash, sid: nat, start: nat, length: nat) returns (r: Result<Flash, IOError>)
    requires Valid(f) && sid < |f.sectors|
    requires !f.writing && f.hw.locked
    ensures r.Err? <==> exists l :: l in Held(f.sectors[sid].locks) && Conflicts(l, true, start, length)
    ensures r.Err? ==> r.error == LockedError
    ensures r.Ok? ==> && Valid(r.value) && r.value.writing && !r.value.hw.locked
                      && r.value.hw.sectors == f.hw.sectors
                      && |r.value.sectors| == |f.sectors|
                      && r.value == WithLocks(Unlocked(f).value, sid, r.value.sectors[sid].locks)
                      && Held(r.value.sectors[sid].locks) == Held(f.sectors[sid].locks) + {Lock(true, start, length)}
  {
    var unlockedFlash := Unlocked(f).value;
    var t := LockRegion(f.sectors[sid].locks, true, start, length);
    if t.Err? {
      return Err(t.error);
    }
    return Ok(WithLocks(unlockedFlash, sid, t.value));
  }

  /** The exit half of `with_writer`: release the write lock and lock the flash again. With
      no write lock held before, the tables hold what they held before `BeginWrite`. */
  function EndWrite(f: Flash, written: Flash, sid: nat, start: nat, length: nat): (r: Flash)
    requires Valid(f) && Valid(written) && sid < |f.sectors| && NoWriteLocks(f)
    requires |written.sectors| == |f.sectors| && !written.hw.locked
    requires forall i | 0 <= i < |f.sectors| && i != sid :: written.sectors[i] == f.sectors[i]
    requires written.sectors[sid].num == f.sectors[sid].num && written.sectors[sid].length == f.sectors[sid].length
    requires Held(written.sectors[sid].locks) == Held(f.sectors[sid].locks) + {Lock(true, start, length)}
    ensures Valid(r) && !r.writing && r.hw.locked && r.hw.sectors == written.hw.sectors
    ensures SameLocks(f, r) && NoWriteLocks(r)
  {
    var released := UnlockRegion(written.sectors[sid].locks, true, start, length);
    assert Lock(true, start, length) !in Held(f.sectors[sid].locks);
    Relocked(WithLocks(written, sid, released))
  }

  /** `Sector::with_writer(start, length, f)`: `OutOfBounds` unless the range fits the
      sector; `LockedError` if an incompatible lock is held; otherwise, with the flash
      unlocked and the range write-locked, run the callback, then release the lock and lock
      the flash again. Only the sector's contents change, as the callback's calls say. */
  method WithWriter(f: Flash, sid: nat, start: nat, length: nat, edits: seq<Edit>)
    returns (f': Flash, r: Result<(), IOError>)
    requires Valid(f) && sid < |f.sectors|
    requires !f.writing && f.hw.locked && NoWriteLocks(f)
    ensures Valid(f') && !f'.writing && f'.hw.locked && SameLocks(f, f') && NoWriteLocks(f')
    ensures !InBounds(start, length, f.sectors[sid].length) ==> r == Err(OutOfBounds) && f' == f
    ensures InBounds(start, length, f.sectors[sid].length)
            && (exists l :: l in Held(f.sectors[sid].locks) && Conflicts(l, true, start, length))
            ==> r == Err(LockedError) && f' == f
    ensures InBounds(start, length, f.sectors[sid].length)
            && !(exists l :: l in Held(f.sectors[sid].locks) && Conflicts(l, true, start, length))
            ==> && (r.Ok? <==> EditsOk(length, edits))
                && f'.hw.sectors == f.hw.sectors[f.sectors[sid].num := EditsMem(Mem(f, sid), start, length, edits)]
  {
    if start >= f.sectors[sid].length || length > f.sectors[sid].length || start + length > f.sectors[sid].length {
      return f, Err(OutOfBounds);
    }
    var begun := BeginWrite(f, sid, start, length);
    if begun.Err? {
      return f, Err(begun.error);
    }
    var written;
    written, r := RunEdits(begun.value, BlockMut(sid, start, length), edits);
    // sync(): the host flash is never busy
    assert !FlashLl.CurrentlyBusy(written.hw);
    f' := EndWrite(f, written, sid, start, length);
  }

  /** `Sector::erase`: with the flash unlocked and the whole sector write-locked, erase it;
      `LockedError` while any lock overlapping the sector is held, leaving it untouched. */
  method Erase(f: Flash, sid: nat) returns (f': Flash, r: Result<(), IOError>)
    requires Valid(f) && sid < |f.sectors|
    requires !f.writing && f.hw.locked && NoWriteLocks(f)
    ensures Valid(f') && !f'.writing && f'.hw.locked && SameLocks(f, f') && NoWriteLocks(f')
    ensures r.Err? <==> exists l :: l in Held(f.sectors[sid].locks) && Conflicts(l, true, 0, f.sectors[sid].length)
    ensures r.Err? ==> r.error == LockedError && f' == f
    ensures r.Ok? ==> f'.hw.sectors == f.hw.sectors[f.sectors[sid].num := FlashLl.Fill(f.sectors[sid].length)]
  {
    var begun := BeginWrite(f, sid, 0, f.sectors[sid].length);
    if begun.Err? {
      return f, Err(begun.error);
    }
    // clear_error(), erase(num), sync()
    var hw := FlashLl.Erase(begun.value.hw, f.sectors[sid].num);
    assert FlashLl.HasError(hw) == 0;
    f' := EndWrite(f, begun.value.(hw := hw), sid, 0, f.sectors[sid].length);
    r := Ok(());
  }

  // ---------------------------------------------------------------------------------
  // Shared read locks

  /** A block and its clone hold the same triple, and the table is a set: dropping the clone
      removes the read lock although the original block is still alive, so the range can
      then be write-locked under the original's feet. */
  method CloneThenDrop(f: Flash, b: FlashBlock) returns (f': Flash)
    requires Valid(f) && b.sid < |f.sectors|
    requires Lock(false, b.start, b.length) in Held(f.sectors[b.sid].locks)
    requires forall l | l in Held(f.sectors[b.sid].locks) :: !Conflicts(l, false, b.start, b.length)
    ensures Valid(f') && |f'.sectors| == |f.sectors|
    ensures Lock(false, b.start, b.length) !in Held(f'.sectors[b.sid].locks)
    ensures Held(f'.sectors[b.sid].locks) == Held(f.sectors[b.sid].locks) - {Lock(false, b.start, b.length)}
  {
    var cloned, c := Clone(f, b);
    f' := Drop(cloned, c);
  }

  /** A lock table that counts identical locks, as shared read borrows need: a lock stays
      held until every block holding it has released it. */
  type CountedLocks = multiset<Lock>

  /** `Sector::lock` on a counted table: the same conflict rule, and one more holder. */
  function LockCounted(t: CountedLocks, rw: bool, start: nat, length: nat): (r: Result<CountedLocks, IOError>)
    ensures r.Err? <==> exists l :: l in t && Conflicts(l, rw, start, length)
    ensures r.Err? ==> r.error == LockedError
    ensures r.Ok? ==> r.value == t + multiset{Lock(rw, start, length)}
  {
    if exists l :: l in t && Conflicts(l, rw, start, length) then Err(LockedError)
    else Ok(t + multiset{Lock(rw, start, length)})
  }

  /** `Sector::unlock` on a counted table: one holder fewer. */
  function UnlockCounted(t: CountedLocks, rw: bool, start: nat, length: nat): (r: CountedLocks)
    ensures r[Lock(rw, start, length)] == if t[Lock(rw, start, length)] == 0 then 0 else t[Lock(rw, start, length)] - 1
    ensures forall l | l != Lock(rw, start, length) :: r[l] == t[l]
  {
    t - multiset{Lock(rw, start, length)}
  }

  /** With counted locks, cloning a held block and dropping the clone leaves the table as it
      was: the original block's read lock is still held. */
  lemma CloneDropKeepsLock(t: CountedLocks, b: FlashBlock)
    requires Lock(false, b.start, b.length) in t
    requires forall l | l in t :: !Conflicts(l, false, b.start, b.length)
    ensures LockCounted(t, false, b.start, b.length).Ok?
    ensures UnlockCounted(LockCounted(t, false, b.start, b.length).value, false, b.start, b.length) == t
    ensures Lock(false, b.start, b.length) in UnlockCounted(LockCounted(t, false, b.start, b.length).value, false, b.start, b.length)
  {
  }
}
