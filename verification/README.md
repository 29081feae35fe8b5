# choupi-os flash store and kernel pieces, in Dafny

A model of the core of choupi-os, a small kernel for a JavaCard-style virtual machine. Its
centre is the flash-resident tag→data store of `src/fs/mod.rs`. The model covers:

- the store's block format: a header byte with validity, tag-length and long-length bits;
  a big-endian length field of one or four bytes; the tag, the data, and a CRC-8 trailer
  (polynomial 0xD5, initial value 0). The model includes `parse_hdr` and the bytes
  `write_impl` lays down;
- the index, a bucketed hash set with insert-if-absent semantics (`src/hashset/mod.rs`),
  with its hasher written out in 32-bit wrap-around arithmetic;
- the per-sector counters `next_blocks` and `valid_sizes`, the availability checks, and
  `write`, `write_impl`, `write_applet`, `edit_at`, `read`, `erase` and `erase_file`;
- the start-up scan of `FileSystem::new` and `erase_invalid_data`;
- defragmentation through the reserved defragmentation sector, and the order in which
  `write` picks sectors to defragment;
- the flash layer (`src/flash/mod.rs`): bounds-checked reads, the read/write range-lock
  table, `with_writer` and the byte, word and block writes of `FlashBlockMut`;
- the host flash controller (`src/arch/host/flash_ll.rs`), whose programming ANDs bits and
  whose erase fills with 0xFF;
- the small pieces around the store:
  - tag constructors and access rules (`src/filename.rs`);
  - the file-system syscalls and their error and tag marshalling (`src/syscall/fs.rs`);
  - the one-slot argument buffer (`src/argbuf.rs`);
  - syscall numbers and dispatch (`src/syscall/mod.rs`);
  - FFI error codes (`src/ffi.rs`);
  - MPU region checks (`src/mpu/mod.rs`), the emulator's region decision
    (`src/arch/host/mpu_ll.rs`) and the STM32 RASR encoding
    (`src/arch/stm32f401re/mpu_ll.rs`, section B3.5.9 of the ARMv7-M Architecture Reference
    Manual);
  - context carving (`src/contextallocator.rs`), address checks and stack frames
    (`src/context.rs`);
  - the bit-mask helpers (`src/tools/mod.rs`).

Flash sectors are `seq<bv8>`. The store is an immutable record `Store.Fs`, made of:

- the sectors;
- the hash-set index of files;
- the two counter tables;
- the ids of the defragmentation and applet sectors.

Operations take a state and return the new state with their result. Panics are `None`, or a
`requires` where the source's own precondition is an assertion or a slice bound. The central
invariant is `Consistency.Consistent`:

- every indexed file is found valid by `parse_hdr` at its header, before its sector's
  `next_block`;
- the blocks of distinct files do not overlap;
- everything from `next_block` to the end of a sector's usable room is still erased.

`write_impl` and `erase` keep this invariant, and under it reading a tag after writing it
gives back the data written.

Modules, one per source file or concern:

- `Wrappers`, `Bytes`, `Pow2`, `Tools`: results and options, byte and word helpers, and
  powers of two;
- `Crc8`, `Codec`: the CRC and the block format;
- `HashSet`;
- `FlashLl`, `Flash`;
- the store itself:
  - `Store`: state, lookups and availability;
  - `FileSystem`: `write_impl` and `erase`;
  - `Consistency`: the invariant and the proofs about it;
  - `Writes`: `write`, `write_applet` and `edit_at`;
  - `Defrag`, `DefragOrder`: defragmentation and the order of sectors to defragment;
  - `Scan`: start-up;
- the kernel pieces: `Filename`, `SyscallFs`, `Argbuf`, `Syscall`, `Ffi`, `Context`,
  `ContextAlloc`, `Mpu`, `MpuHost`, `MpuRasr`.

## Model

Definitions that carry no contract of their own (the access predicates of `Filename`, `Context` and `MpuHost`, `Ffi.ComputeMethodInfo`, `Crc8.Crc8` and the like) are described by the lemma rows that cite the same source lines.

| member | source | states |
|---|---|---|
| Tools.AddBits | src/tools/mod.rs:41-47 | the value stored has every requested bit raised and every other bit of the register as it was |
| Tools.AddBitsNeverClears | src/tools/mod.rs:41-47 | raising bits never lowers a bit that was already set |
| Tools.AddBitsIdempotent | src/tools/tests.rs:40-43 | raising bits that are already set leaves the register unchanged, so raising twice equals raising once |
| Tools.SetBits | src/tools/mod.rs:49-59 | the bits under the mask read back the value's bits; the bits outside keep the register's bits, polluted only by value bits outside the mask |
| Tools.SetBitsWithinMask | src/tools/mod.rs:49-59 | under the documented assumption that the value lies within the mask, the masked bits are exactly the value and no other bit changes |
| Tools.ToolsExamples | src/tools/tests.rs:40-69 | the unit tests' worked cases: raising 0x04 in 0x0F changes nothing, and setting 0x14 under mask 0x35 in 0x0F gives 0x1E |
| Pow2.LeadingZeros | src/contextallocator.rs:112 | `leading_zeros` of a 32-bit value is 32 for 0, and otherwise 31 - lz is the position of the highest set bit |
| Pow2.BitTestPow2 | src/mpu/mod.rs:144 | for a positive size, `size & (size - 1) == 0` holds exactly when the size is a power of two |
| Pow2.AlignTest | src/mpu/mod.rs:150-154 | `start & (2^k - 1) == 0` holds exactly when the start is a multiple of 2^k |
| Crc8.ListedIsBitwise | src/fs/mod.rs:262-279 | every entry of the table the source writes out is the remainder of its index times x^8 modulo the generator 0xD5 |
| Crc8.TableIsBitwise | src/fs/mod.rs:232-261 | each table entry is the remainder of b·x^8 modulo 0xD5, which eight shift-and-reduce steps compute; the documented generator reaches the same values by linearity |
| Crc8.TableIsListed | src/fs/mod.rs:232-279 | the generated table and the listed table agree on all 256 entries |
| Crc8.TableFromIsBitwise | src/fs/mod.rs:283-287 | the table-driven loop computes the same register as bit-by-bit CRC division, from any starting register |
| Crc8.Crc8IsBitwise | src/fs/mod.rs:279-288 | `crc8(first, bytes)` is the CRC-8/DVB-S2 checksum of the message made of `first` followed by `bytes` |
| Crc8.BitwiseAppend | src/fs/mod.rs:279-288 | the checksum of a concatenation continues from the checksum of its first part, which is what lets the header byte be checksummed apart from the rest |
| Crc8.Crc8FirstTestVector | src/fs/tests.rs:61 | the unit test's first vector: header 0xE1 over 00 CA FE gives 0x26 |
| Crc8.Crc8SecondTestVector | src/fs/tests.rs:62 | the unit test's second vector: 0x12 over 34 56 78 90 gives 0x3E |
| Crc8.Crc8CheckValue | src/fs/tests.rs:62 | the standard check value of CRC-8/DVB-S2, which the test names: "123456789" gives 0xBC |
| Codec.LengthField | src/fs/mod.rs:781-801 | the length field `write_impl` writes is one byte for data of at most 0xFF bytes and four big-endian bytes otherwise, and the parser's decoding of it gives back the data length |
| Codec.ZeroRunEnd | src/fs/mod.rs:328-338 | the scan of a zeroed region stops at the first non-zero byte or at the end of the zone, and every byte it skipped is zero |
| Codec.ParseHdr | src/fs/mod.rs:321-389 | a header byte of 0xFF means "nothing written here" and nothing else does; a header byte of zero, and only that, reports an erased run whose length is the maximal run of zero bytes at the start of the zone |
| Codec.ParseBody | src/fs/mod.rs:340-388 | past the header byte every failure is `Broken`; a block found carries the validity and the tag length its header announces |
| Codec.ParseHdrOk | src/fs/mod.rs:340-388 | a parsed block fills the first `size` bytes of the zone with exactly the layout header, length field, tag, data and a checksum that matches, its data as long as its length field says |
| Codec.HeaderFields | src/fs/mod.rs:784-791 | the header byte `write_impl` builds reads back the tag length, the length-field width and the validity bits put in, and can never be mistaken for erased (0xFF) or zeroed flash |
| Codec.ValidityProgression | src/fs/mod.rs:824-825 | marking a block valid and later invalid only clears bits, leaves the checksummed bits alone, and only the middle state counts as valid |
| Codec.BlockLen | src/fs/mod.rs:857-861 | a block always takes more flash than its tag and data plus header and checksum |
| Codec.Encode | src/fs/mod.rs:774-828 | the bytes a completed write lays down are exactly `block_len` bytes long |
| Codec.LayoutParses | src/fs/mod.rs:321-389 | the parser reads any well-formed block back, whatever follows it in the sector: its validity, tag, data and full size |
| Codec.EncodeParses | src/fs/mod.rs:754-861 | round trip: parsing what `write_impl` writes yields the same tag and data, marked valid, with size `block_len` |
| Codec.Invalidated | src/fs/mod.rs:979-980 | invalidating a header sets the validity bits to "no longer valid" and keeps the bits the checksum covers |
| Codec.InvalidatedParses | src/fs/mod.rs:972-985 | an erased file's block still parses with the same tag, data and size, now not valid, so the scan at start-up skips it without finding it torn |
| Codec.InvalidatedFields | src/fs/mod.rs:979-980 | invalidating keeps the tag length and length-field width, and the header stays distinguishable from erased and zeroed flash |
| HashSet.Mix | src/hashset/mod.rs:85-92 | one step of the hasher always leaves a state that fits a 32-bit `usize` |
| HashSet.MixIsAffineModWord | src/hashset/mod.rs:73-92 | the two wrapping operations of a step wrap like one: the new state is `101 * state + x` modulo 2^32 |
| HashSet.HashBytes | src/hashset/mod.rs:73-82 | hashing bytes always leaves a state that fits a 32-bit `usize` |
| HashSet.HashBytesAppend | src/hashset/mod.rs:73-82 | hashing two byte strings one after the other is hashing their concatenation |
| HashSet.HashTag | src/hashset/mod.rs:95-100 | the hash of a tag, its length then its bytes fed from state 0, fits a 32-bit `usize` |
| HashSet.HashTagOneByte | src/hashset/mod.rs:95-100 | a one-byte tag hashes to 101 plus its byte |
| HashSet.KeysDiffer | src/hashset/mod.rs:136-148 | in a valid set, two different places never hold elements with the same key |
| HashSet.KeyIdentifiesElement | src/hashset/mod.rs:136-148 | in a valid set, a key identifies at most one stored element |
| HashSet.New | src/hashset/mod.rs:106-115 | a new set has the number of buckets asked for, all empty, and is valid |
| HashSet.NewIsEmpty | src/hashset/mod.rs:106-115 | a new set holds no element |
| HashSet.Position | src/hashset/mod.rs:131-133 | the search finds the first element of the bucket with the key, or reports that none has it |
| HashSet.Get | src/hashset/mod.rs:126-134 | a lookup returns a stored element with the key asked for, or none when no stored element has it |
| HashSet.Insert | src/hashset/mod.rs:136-148 | insertion succeeds exactly when no stored element has the new element's key; then the set holds one element more and stays valid, and otherwise nothing changes |
| HashSet.InsertElements | src/hashset/mod.rs:145 | pushing on a bucket adds exactly that element to the set's contents |
| HashSet.SwapRemove | src/hashset/mod.rs:164 | the removed element's place takes the last element, every other place is unchanged and the bucket is one shorter |
| HashSet.Take | src/hashset/mod.rs:157-168 | a take returns the stored element with the key and removes exactly it, or changes nothing when no element has the key; either way no element with the key remains and the set stays valid |
| HashSet.TakeElements | src/hashset/mod.rs:162-164 | removing an element from its bucket keeps the set valid and removes exactly that element from the contents |
| HashSet.Remove | src/hashset/mod.rs:150-155 | removal reports whether an element with the key was stored, leaves none with it, and keeps every element with another key |
| HashSet.TakeTwice | src/hashset/mod.rs:157-168 | taking the same key twice finds nothing the second time |
| HashSet.InsertThenTake | src/hashset/mod.rs:136-168 | taking back an element just inserted returns it and restores the set's contents |
| HashSet.Next | src/hashset/mod.rs:177-188 | a step of the iterator yields the element just before the advanced cursor, never moves backwards, and moves one place on within a bucket |
| HashSet.IterateFrom | src/hashset/mod.rs:117-124 | from any cursor the iterator yields the rest of the current bucket and then every later bucket in order |
| HashSet.FlattenFromContents | src/hashset/mod.rs:171-189 | the buckets from one on hold distinct elements, exactly the stored elements that hash to those buckets |
| HashSet.IterateYieldsEachOnce | src/hashset/mod.rs:117-189 | a full iteration yields every stored element exactly once and nothing else |
| FlashLl.Init | src/arch/host/flash_ll.rs:29-30 | the emulated controller starts locked, with the sector contents it is given |
| FlashLl.Unlock | src/arch/host/flash_ll.rs:52-56 | unlocking is only allowed on a locked controller and leaves memory untouched |
| FlashLl.Lock | src/arch/host/flash_ll.rs:58-62 | locking is only allowed on an unlocked controller and leaves memory untouched |
| FlashLl.UnlockLock | src/arch/host/flash_ll.rs:52-62 | unlocking then locking restores the controller exactly |
| FlashLl.Setup | src/arch/host/flash_ll.rs:65-67 | setup demands an unlocked controller and leaves the controller, its lock flag and every sector, as it was |
| FlashLl.HasError | src/arch/host/flash_ll.rs:70-73 | the emulated status register reports no error for any controller state, so no flash write or erase ends in an I/O error |
| FlashLl.CurrentlyBusy | src/arch/host/flash_ll.rs:81-84 | the emulated flash is never busy, in any controller state, so waiting for it ends at once |
| FlashLl.Erase | src/arch/host/flash_ll.rs:86-93 | erasing needs an unlocked controller, sets every byte of that sector to 0xFF and no other sector changes |
| FlashLl.Fill | src/arch/host/flash_ll.rs:90-92 | an erased range has the requested length and holds only 0xFF |
| FlashLl.Write | src/arch/host/flash_ll.rs:95-99 | a word write needs an unlocked controller and an aligned word inside the sector; it ANDs its four bytes into flash and changes nothing else |
| FlashLl.Program | src/arch/host/flash_ll.rs:98 | programming a run of bytes ANDs each into the byte under it and leaves every byte outside the run as it was |
| FlashLl.AndFacts | src/arch/host/flash_ll.rs:98 | NOR programming: erased bytes take the value written, bits only go from 1 to 0, and writing the same byte twice is the same as once |
| FlashLl.ProgramErased | src/arch/host/flash_ll.rs:86-99 | programming freshly erased flash stores exactly the data |
| FlashLl.ProgramOnlyClears | src/arch/host/flash_ll.rs:98 | programming never sets a bit, and programming the same data twice equals programming it once |
| FlashLl.ProgramSplit | src/arch/host/flash_ll.rs:98 | programming two adjacent pieces one after the other equals programming their concatenation |
| Flash.OverlapMeansSharedByte | src/flash/mod.rs:229-234 | for non-empty ranges the overlap test holds exactly when the two ranges share a byte, and it is symmetric |
| Flash.OverlapEmptyAtStart | src/flash/mod.rs:229-234 | a zero-length range never overlaps a range that starts at the same index, while a one-byte range there does |
| Flash.OverlapEmpty | src/flash/mod.rs:229-234 | a zero-length range overlaps another exactly when it lies strictly inside it, a one-byte range exactly when the other covers it, so the two differ only at the other's first byte; the comment's "treated as being 1" does not hold there |
| Flash.OverlapAsDocumentedMeaning | src/flash/mod.rs:229-231 | the documented test holds exactly when the ranges share a byte with zero lengths read as one, agrees with the written test on non-empty ranges, and makes an empty range at a range's start overlap it |
| Flash.LockRegion | src/flash/mod.rs:264-282 | a lock is refused with `LockedError` exactly when some held lock overlaps it and one of the two is a write lock; otherwise the table holds the old locks plus the new one |
| Flash.UnlockRegion | src/flash/mod.rs:284-297 | releasing removes exactly that triple and keeps the table well formed |
| Flash.New | src/flash/mod.rs:159-202 | creation fails with `FlashInUse` exactly while another flash object exists; otherwise every sector comes with its number and length and an empty lock table, and the controller ends up locked with its memory unchanged |
| Flash.Unlocked | src/flash/mod.rs:245-256 | entering a write fails with `LockedError` exactly when the flash is already open for writing; otherwise it is marked open and the controller unlocked, memory untouched |
| Flash.Relocked | src/flash/mod.rs:257-262 | leaving a write locks the controller again and releases the write mutex, memory untouched |
| Flash.Contents | src/flash/mod.rs:430-437 | a block reads exactly the sector bytes of its range |
| Flash.NewBlock | src/flash/mod.rs:378-387 | creating a block takes a read lock; it fails with `LockedError`, changing nothing, exactly when a write lock overlaps the range |
| Flash.Read | src/flash/mod.rs:309-321 | a read outside the sector is `OutOfBounds`, changing nothing; inside, it fails exactly on a conflicting lock, and otherwise returns that range read-locked |
| Flash.SubBlock | src/flash/mod.rs:399-412 | a sub-block is `OutOfBounds` exactly when it does not fit its parent; otherwise it is the range shifted by the parent's start, read-locked |
| Flash.Clone | src/flash/mod.rs:415-420 | a clone is the same block and takes the same read lock again |
| Flash.Drop | src/flash/mod.rs:422-428 | dropping a block releases its read lock and touches nothing else |
| Flash.Splice | src/flash/mod.rs:470-474 | the word written back has the target byte replaced by the new value and its other three bytes as read |
| Flash.WriteByte | src/flash/mod.rs:459-480 | writing a byte is `OutOfBounds` exactly when the index is outside the block; otherwise only that byte of flash changes, to the AND of old and new |
| Flash.WriteByteEffect | src/flash/mod.rs:470-476 | programming the whole spliced word has the same effect as programming the one byte, since the other three bytes are programmed with their own values |
| Flash.WriteWordEffect | src/flash/mod.rs:499-507 | one controller word write programs the word's four bytes into the sector |
| Flash.WriteBlockGeneric | src/flash/mod.rs:482-515 | whatever mix of byte and word writes the three loops use, the result equals programming all the bytes at the requested index; out-of-range requests fail first and change nothing |
| Flash.WriteBlock | src/flash/mod.rs:517-531 | writing a slice programs its bytes at the index, or is `OutOfBounds` with no change |
| Flash.ZeroBlock | src/flash/mod.rs:533-542 | zeroing clears exactly the bytes of the range and leaves every other byte of the sector as it was |
| Flash.EditsMem | src/flash/mod.rs:342-348 | a writer callback never changes flash outside its write-locked range |
| Flash.ContiguousEdits | src/fs/mod.rs:779-817 | calls that write one after another, as `write_impl` does for header, length, tag and data, program their bytes exactly as one piece |
| Flash.RunEdit | src/flash/mod.rs:459-542 | a single call on the writable block succeeds exactly when it fits the block, and then programs its bytes where it says |
| Flash.RunEdits | src/flash/mod.rs:342-348 | running the callback's calls gives the reference semantics, and it reports success exactly when every call fits |
| Flash.BeginWrite | src/flash/mod.rs:339-343 | after the range check, `with_writer` takes the write mutex and a write lock, refusing with `LockedError` exactly on a conflicting lock |
| Flash.EndWrite | src/flash/mod.rs:349-354 | after the callback, the write lock is released and the flash locked, so the lock tables hold what they held before |
| Flash.WithWriter | src/flash/mod.rs:323-356 | `OutOfBounds` when the range does not fit, `LockedError` on a conflicting lock, both without change; otherwise the sector holds what the callback programmed and nothing else changes, and the lock tables are back as they were |
| Flash.Erase | src/flash/mod.rs:358-375 | erasing fails with `LockedError`, changing nothing, exactly while any lock on the sector is held; otherwise the whole sector reads 0xFF and the lock tables are unchanged |
| Flash.CloneThenDrop | src/flash/mod.rs:415-428 | as written: the lock table is a set, so cloning a block and dropping the clone releases the read lock the original still relies on |
| Flash.LockCounted | src/flash/mod.rs:271-282 | a lock table that counts holders refuses on the same conflicts and otherwise adds one holder |
| Flash.UnlockCounted | src/flash/mod.rs:293-297 | releasing a counted lock removes one holder and no other lock |
| Flash.CloneDropKeepsLock | src/flash/mod.rs:415-428 | with counted locks, cloning a held block then dropping the clone leaves the table as it was, so the original keeps its read lock |
| Store.HasTag | src/fs/mod.rs:605-608 | `has_tag` answers yes exactly when some live file carries the tag |
| Store.Read | src/fs/mod.rs:966-970 | `read` gives the data of the live file with that tag, as the set of live files defines it, and `NoSuchTag` when no live file has it |
| Store.FileOfTag | src/fs/mod.rs:996-1011 | files are hashed and compared by their tag bytes, so looking up the tag of any indexed file finds that very file's data |
| Store.OnlyFileWithTag | src/fs/mod.rs:996-1011 | the index never holds two files with the same tag |
| Store.EraseFile | src/fs/mod.rs:972-985 | erasing a file lowers its sector's valid size by the file's size and clears the validity bits of its header byte; no other byte, counter or index entry changes |
| Store.SizeHere | src/fs/mod.rs:619-624 | the size subtracted for the tag is the size of its live block when that block is on this sector, and zero otherwise |
| Store.AvailableFrom | src/fs/mod.rs:638-650 | the sector chosen is the first one from the starting point that is neither reserved sector and has room; `OutOfFlash` exactly when there is none |
| Store.AvailableSector | src/fs/mod.rs:629-650 | `available_sector` returns the lowest-numbered sector that is neither the defragmentation nor the applet sector and is available, and `OutOfFlash` exactly when no sector is |
| Store.PieceEdits | src/fs/mod.rs:814-817 | the data slices are written one after the other, and together they lay down their concatenation |
| Store.LengthEdit | src/fs/mod.rs:781-801 | the length field goes at offset 1, as one byte or as four, and holds the data length |
| Store.BodyEdits | src/fs/mod.rs:779-817 | the first part of the callback writes contiguously from offset 0 and lays down header, length field, tag and data |
| Store.BodyBytes | src/fs/mod.rs:779-817 | what the first part lays down fills the block but its last byte |
| Store.WriteBlock | src/fs/mod.rs:773-829 | the `write_impl` callback changes nothing outside the block it was given |
| Store.Laid | src/fs/mod.rs:779-817 | laying down the block body changes nothing outside the block |
| Store.Sealed | src/fs/mod.rs:819-825 | writing the checksum and the valid mark changes nothing outside the block |
| Store.CrcEdit | src/fs/mod.rs:819-821 | the checksum goes into the last byte of the block, which always fits |
| Store.NewFile | src/fs/mod.rs:837-847 | the file indexed after a write starts its tag right after the header and length field and its data right after the tag, lies on the sector written, has the tag and data lengths written and the size `block_len`, and its header is where the block starts |
| Store.EraseSector | src/fs/mod.rs:688-692 | erasing a sector sets all its bytes to 0xFF and its counters to zero and leaves every other sector and the index alone |
| FileSystem.Erase | src/fs/mod.rs:972-992 | `NoSuchTag`, with nothing changed, exactly when no file has the tag; otherwise that file leaves the index, its header's validity bits are cleared, and no other file, counter or sector bytes change |
| FileSystem.LayBlock | src/fs/mod.rs:778-828 | the callback changes only the bytes of the block's range, and on erased flash those bytes end up as the encoded block, whose parse gives back the tag and the data |
| FileSystem.ProgramBlock | src/fs/mod.rs:773-829 | programming the block at `next_block` leaves every other byte of the store, the index and the counters as they were, and on a consistent store it yields the pending state in which the encoded block sits at `next_block` |
| FileSystem.AddFile | src/fs/mod.rs:837-851 | the file inserted is read back from flash at `next_block` with the block's shape; the index gains it only when no file with its tag is indexed; `next_block` and the valid size both grow by the block's length |
| FileSystem.AddBlock | src/fs/mod.rs:837-851 | after the block was laid at `next_block` and no file has the tag, the store is consistent again, reading the tag gives back the data, and the index gained exactly the new file at `next_block` of the target sector |
| FileSystem.WriteImpl | src/fs/mod.rs:754-854 | `InvalidLengthForTag` unless the tag has 1 to 29 bytes and `OutOfFlash` unless the block fits (the defragmentation sector's last byte excluded), both with nothing changed, success otherwise; on success `next_block` advances by the block's length, the old file's sector loses its size from the valid size, the old header is no longer valid, and a consistent store stays consistent with the tag reading back the concatenated data and every other tag's file kept |
| FileSystem.WriteChecked | src/fs/mod.rs:773-854 | once the checks passed, the same effects as a successful `write_impl`: counters, the old header invalidated, consistency kept, the new data read back, the other files kept |
| FileSystem.IndexBlock | src/fs/mod.rs:831-851 | erasing the old file and then indexing the programmed block gives a consistent store in which only the tag's file changed, now at `next_block` of the target sector, with the valid sizes moved from the old file's sector to the target sector |
| FileSystem.ErasedThenAdded | src/fs/mod.rs:831-851 | the facts about `erase` and about indexing the block compose into the counters, the invalidated old header, consistency and the read-back that `write_impl` promises |
| FileSystem.ErasePending | src/fs/mod.rs:831-835 | erasing the tag's previous file keeps the freshly laid block pending, so it can still be indexed |
| FileSystem.EraseThenAdd | src/fs/mod.rs:831-851 | after `erase` and the counter update, the old file's sector loses exactly that file's size, the target sector gains the block's length, and the old header is marked no longer valid |
| FileSystem.Replaced | src/fs/mod.rs:831-847 | the file `write_impl` indexes is not the tag's previous file, so after the replacement every other tag keeps its file and the tag maps only to the new one |
| Consistency.ParseSamePrefix | src/fs/mod.rs:321-389 | `parse_hdr` reads only the bytes of the block it finds: any zone that agrees on them parses to the same block |
| Consistency.BlockKept | src/fs/mod.rs:321-389 | a block whose bytes are left unchanged in a sector parses as it did, header included |
| Consistency.LaidIsProgram | src/fs/mod.rs:779-817 | the writes of the header (not yet valid), the length field, the tag and each piece of data amount to programming the block's body, all pieces concatenated, in one go |
| Consistency.BodyLaid | src/fs/mod.rs:779-817 | on erased flash, the first part of the callback leaves exactly the body in place and the checksum byte still erased |
| Consistency.CrcMatches | src/fs/mod.rs:819-821 | the checksum the callback computes over what it reads back, with the validity bits masked, is the last byte of the encoded block, and the laid header differs from the encoded one only in its validity bits |
| Consistency.WriteBlockErased | src/fs/mod.rs:773-829 | writing a block on erased flash leaves exactly the encoded block: header marked valid, length, tag, data, checksum |
| Consistency.SealedOnBody | src/fs/mod.rs:819-825 | programming the checksum and then the valid header over a laid body completes the encoded block |
| Consistency.HeaderValidated | src/fs/mod.rs:824-825 | programming the header with itself masked to "valid" gives exactly the masked value, since flash can only clear bits |
| Consistency.InvalidateKeepsIndexed | src/fs/mod.rs:972-992 | invalidating an indexed file's header and dropping the file keeps every remaining file found valid on flash, and no byte at or past any `next_block` changes |
| Consistency.InvalidateKeepsConsistent | src/fs/mod.rs:987-992 | `erase` keeps the invariant: indexed files found valid before `next_block`, their blocks disjoint, the room past `next_block` erased |
| Consistency.LaidPending | src/fs/mod.rs:773-829 | laying a block at `next_block` of a consistent store, touching nothing else, gives the state in which the block is in place and the room after it is still erased |
| Consistency.InvalidateKeepsPending | src/fs/mod.rs:831-835 | erasing the previous file of the tag between laying and indexing the block keeps that state |
| Consistency.EncodeFields | src/fs/mod.rs:837-841 | the offsets `write_impl` reads the tag and the data back from, `next_block + 1 + lenlen` and after the tag, hold exactly the tag and the data of the encoded block |
| Consistency.NewFileFound | src/fs/mod.rs:837-847 | the file read back from a freshly laid block has the tag and data written and is found valid on flash by `parse_hdr` |
| Consistency.AddKeepsConsistent | src/fs/mod.rs:837-851 | indexing the laid block and advancing `next_block` past it restores the invariant, the index gains exactly the new file, and reading the tag gives back the data |
| Consistency.IndexedAfterAdd | src/fs/mod.rs:842-850 | adding a file found on flash right at `next_block`, with `next_block` moved past it, keeps its block disjoint from every indexed block and the whole index found on flash |
| Consistency.FreeAfterAdd | src/fs/mod.rs:849-851 | advancing `next_block` past the laid block keeps every sector's room past `next_block` erased |
| Consistency.FewerFilesConsistent | src/fs/mod.rs:925-926 | taking files out of the index, with flash and counters unchanged, keeps the invariant |
| Consistency.InvalidateStaleKeepsConsistent | src/fs/mod.rs:942 | clearing the validity bits of a block already taken out of the index, which no indexed block overlaps, keeps the invariant |
| Writes.Write | src/fs/mod.rs:870-904 | errors are only `OutOfFlash` or `InvalidLengthForTag`, and success implies a valid tag length; when a sector is available from the start, the call succeeds exactly when the tag length is valid, changes nothing when it fails, and on a consistent store the tag then reads back the data with every other tag unchanged; when none is available and no sector qualifies for defragmentation, it fails with `OutOfFlash` and changes nothing |
| Writes.DefragmentUntilAvailable | src/fs/mod.rs:893-900 | a sector it returns is the one `available_sector` gives on the store it leaves; with no sector to defragment, the store is untouched and the answer is the first `available_sector` |
| Writes.WriteApplet | src/fs/mod.rs:908-920 | errors are only `OutOfFlash` or `InvalidLengthForTag`; when the applet sector has room from the start, success exactly when the tag length is valid and the block fits, nothing changed on failure, and on a consistent store the tag reads back the data with every other tag unchanged |
| Writes.Edited | src/fs/mod.rs:922-940 | the edited data keeps the file's length, holds the new bytes at the offset and every other byte as it was |
| Writes.EditAt | src/fs/mod.rs:925-960 | `NoSuchTag` with nothing changed when no file has the tag; an invalid tag length, or no room in place nor on the defragmentation sector, fails with the flash untouched but the file gone from the index; in place, success exactly when the block fits, and then the sector's valid size trades the old block's size for the new one's and a consistent store stays consistent, with the edited data under the tag and every other tag unchanged |
| Writes.EditInPlace | src/fs/mod.rs:927-943 | the in-place branch: an invalid tag length fails with the flash as it was and the file out of the index; with room in place it behaves as `EditAt` promises for that case |
| Writes.EditThroughDefrag | src/fs/mod.rs:944-958 | the branch through the defragmentation sector: errors are `OutOfFlash` or `InvalidLengthForTag`, and when the tag length is invalid or the block does not fit there, that error with the flash untouched and the file out of the index |
| Writes.EditedSizes | src/fs/mod.rs:933-942 | in place, writing the edited block then invalidating the old one leaves the file's sector with the old valid size minus the old block's size plus the new block's |
| Writes.EditedInPlace | src/fs/mod.rs:933-942 | in place, on a consistent store, the result is consistent, the tag reads back the edited data, and every other tag keeps its file |
| Writes.StaleBlock | src/fs/mod.rs:933-942 | after the in-place write, the old block lies below `next_block` and overlaps no indexed block, so invalidating it disturbs no indexed file |
| Defrag.CopyBlocks | src/fs/mod.rs:663-686 | a copy loop walks the sector with the parser and only ever writes through `write_impl`, so the store keeps its shape and its defragmentation mark, a consistent store stays consistent, and it fails only with `write_impl`'s own errors |
| Defrag.FinishDefragmentation | src/fs/mod.rs:652-726 | with no mark nothing happens; the mark is only ever cleared by the final erase, so when it reads "none" afterwards the whole defragmentation completed and the defragmentation sector is erased with zero counters |
| Defrag.AndBelow | src/fs/mod.rs:740 | programming the mark byte over an older value gives 0xFF or a value no larger than the id written |
| Defrag.SetMark | src/fs/mod.rs:734-743 | setting the mark programs the id's low byte into the last byte of the defragmentation sector and changes nothing else |
| Defrag.Defragment | src/fs/mod.rs:733-745 | started with no defragmentation pending on an ordinary sector, `defragment` either completes (mark cleared, defragmentation sector clear) or leaves the mark naming that sector so the next start-up resumes it |
| DefragOrder.Insert | src/fs/mod.rs:886-892 | one insertion step keeps the same ids plus the new one |
| DefragOrder.SortByKey | src/fs/mod.rs:886-892 | the sort returns a permutation of the ids it was given |
| DefragOrder.InsertOrdered | src/fs/mod.rs:886-892 | inserting an id below all others into a list ordered by (key, id) keeps it ordered |
| DefragOrder.SortOrdered | src/fs/mod.rs:876-892 | the stable sort of ids listed in increasing order orders them by key and equal keys by id |
| DefragOrder.HeadsAgree | src/fs/mod.rs:886-892 | two lists with the same ids, both ordered by (key, id), start with the same id |
| DefragOrder.OrderedUnique | src/fs/mod.rs:886-892 | there is only one list of given ids ordered by (key, id), so the order does not depend on the sort's internals |
| DefragOrder.Keys | src/fs/mod.rs:887-891 | every sector's key is the scaled ratio of used room to valid data, and sectors without valid data sort last |
| DefragOrder.Filtered | src/fs/mod.rs:876-884 | the candidates are exactly the sectors other than the two reserved ones whose used room differs from their valid data, in increasing id order |
| DefragOrder.Order | src/fs/mod.rs:876-894 | the sectors `write` defragments are exactly those candidates, ordered by key and then id, and the loop takes them from the back, most fragmented first |
| Scan.LiveEnd | src/fs/mod.rs:395-398 | the end `erase_invalid_data` computes: everything from it on is erased, and the byte just before it, if any, is not |
| Scan.EraseInvalidData | src/fs/mod.rs:391-402 | bytes before the start are kept, the live bytes from the start on are zeroed, and the trailing erased bytes stay erased |
| Scan.Walk | src/fs/mod.rs:526-582 | every block the walk meets lies within the zone walked |
| Scan.FileOf | src/fs/mod.rs:555-561 | the file `new` indexes for a valid block carries that block's tag, data and size, on the sector walked |
| Scan.Admit | src/fs/mod.rs:546-577 | a valid block whose tag is not indexed joins the index with the flash untouched; one whose tag is already indexed has only its header's validity bits cleared, with the index untouched; either way `next_block` moves past the block and `valid_size` grows by its size |
| Scan.InvalidateCopy | src/fs/mod.rs:563-574 | only the duplicate's header byte changes, to its invalidated form, and the index is kept |
| Scan.Torn | src/fs/mod.rs:534-538 | a torn block changes only its sector's bytes, as `erase_invalid_data` says, keeps the index and the valid sizes, and leaves `next_block` at the torn block (as written) or past the zeroed bytes (corrected) |
| Scan.Step | src/fs/mod.rs:527-581 | one turn of the loop changes only the sector walked, none of its bytes below `next_block`, only adds files of that sector to the index, and moves `next_block` forward unless the sector is done |
| Scan.ScanSector | src/fs/mod.rs:526-582 | the walk of a sector changes only that sector and its counters, no byte below where it starts, and only adds files of that sector to the index |
| Scan.WalkOk | src/fs/mod.rs:546-581 | where a header parses, the walk meets that block and resumes right after it |
| Scan.WalkPast | src/fs/mod.rs:546-581 | once past a block, the walk depends only on the bytes after it, so invalidating the block's header does not change what follows |
| Scan.ScanKeepsFirst | src/fs/mod.rs:546-577 | of the valid blocks the walk of a sector meets, the first of each tag not yet indexed is indexed, every other one has its header invalidated, and no other file joins the index: the copy met first wins |
| Scan.ScanFrom | src/fs/mod.rs:520-583 | the loop over the sectors skips the defragmentation sector and leaves the sectors already walked as they were, and only adds files of the sectors it walks |
| Scan.Initial | src/fs/mod.rs:517-519 | `new` starts from an empty index with every `next_block` and `valid_size` zero |
| Scan.Scanned | src/fs/mod.rs:517-583 | after the walk of every sector from an empty index, with the torn-block step as written or corrected, the defragmentation sector keeps its bytes, its counters stay zero, and no file of it is indexed |
| Scan.New | src/fs/mod.rs:505-603 | `new` as written, on the walk as written: it panics exactly when the mark names no sector (neither 0xFF nor a sector id, src/fs/mod.rs:414-415 and 654-664); without a pending defragmentation the result is the walked store; with one, the mark left is either cleared, with the defragmentation sector clear, or the one found; the only errors are those `finish_defragmentation` reports |
| Scan.ScannedTornExample | src/fs/mod.rs:526-538 | on the sample store, the walk of `new` as written leaves sector 0's `next_block` at 0 on a zeroed byte, while the corrected walk moves it to 5, where the erased room begins |
| Scan.TornBlockAsWritten | src/fs/mod.rs:534-538 | as written, after a torn block the sector is done with `next_block` left on a byte that has just been zeroed |
| Scan.TornSectorBroken | src/fs/mod.rs:321-389 | the eight-byte sample sector holds a block whose length field reaches past the sector, so `parse_hdr` finds it torn |
| Scan.TornBlockExample | src/fs/mod.rs:534-538 | on the sample sector, as written, `next_block` stays at 0 on a zeroed byte, and any header programmed there reads back as a zero run rather than as the block written |
| Scan.TornBlockResumes | src/fs/mod.rs:534-538 | corrected: after a torn block, `next_block` moves past the zeroed bytes, and everything from it to the end of the sector is erased |
| Filename.Parse | src/filename.rs:26-32 | a tag is read as a file name only when its type byte is known and its length is the one that type's constructor writes, and then the name's bytes are the tag |
| Filename.ParseBytes | src/filename.rs:70-102 | the tag each constructor builds is read back as the name it was built from |
| Filename.BytesInjective | src/filename.rs:70-102 | two different names never get the same tag |
| Filename.Written | src/filename.rs:70-102 | a constructor writes its bytes at the start of the 32-byte buffer, reports their count as the length and leaves the rest of the buffer alone |
| Filename.PackageList | src/filename.rs:70-73 | the package list's tag has length 1, names the package list, and the rest of the buffer is untouched |
| Filename.Cap | src/filename.rs:75-79 | a CAP file's tag has length 2, names that package's CAP file, and the rest of the buffer is untouched |
| Filename.StaticField | src/filename.rs:81-86 | a static field's tag has length 3, names that package's static, and the rest of the buffer is untouched |
| Filename.AppletField | src/filename.rs:88-102 | an applet field's tag has length 5, names that applet's field, and the rest of the buffer is untouched |
| Filename.ReadRule | src/filename.rs:34-42 | an unknown type is never readable, the package list, CAP files and statics are readable by every context, and an applet field exactly by the context whose id byte it carries |
| Filename.WritableIsNamed | src/filename.rs:44-64 | every writable tag is a well-formed name; the package list and CAP files are writable only by the Installer and an applet field only by its owner |
| Filename.NamedAccess | src/filename.rs:34-68 | for every named file: readable exactly when it has no owner or the reader owns it; writable exactly by the Installer for the package list and CAP files and otherwise as for reading; an applet exactly when it is a CAP file |
| Filename.WriteImpliesRead | src/filename.rs:34-64 | no context may write a file it may not read |
| Filename.OwnerByteAliases | src/filename.rs:39 | the owner check compares the context id truncated to a byte, so contexts 256 apart read each other's applet fields |
| SyscallFs.PassTag | src/syscall/fs.rs:87-92 | the 33-byte tag argument holds the tag's length in byte 0, the tag after it and zeros after that |
| SyscallFs.RetrieveTag | src/syscall/fs.rs:96-103 | the kernel accepts a tag argument exactly when its length byte is below 32, and then reads exactly that many bytes after it |
| SyscallFs.RetrievePassed | src/syscall/fs.rs:87-103 | a tag shorter than 32 bytes crosses into the kernel unchanged, and a 32-byte tag, which userland can pass, makes the kernel panic |
| SyscallFs.FlashErrorToUsize | src/syscall/fs.rs:105-112 | every flash error code has bit 30 set and bits 31, 29 and 28 clear |
| SyscallFs.FlashErrorRoundTrip | src/syscall/fs.rs:105-120 | decoding a flash error's code gives the error back exactly when it is one the driver raises or a controller code of at most 28 bits that does not read as 1 or 2 |
| SyscallFs.UnknownRoundTrip | src/syscall/fs.rs:105-120 | the same as the previous row, for the controller's unknown-error codes |
| SyscallFs.FsErrorToUsize | src/syscall/fs.rs:122-130 | every store error travels back with bit 31 set, so never as the success code 0 |
| SyscallFs.FsErrorRoundTrip | src/syscall/fs.rs:122-139 | decoding a store error's code gives the error back exactly when the flash error inside it, if any, survives its own round trip |
| SyscallFs.ResultCode | src/syscall/fs.rs:358-366 | a store result travels back as 0 exactly when it is a success |
| SyscallFs.ResultRoundTrip | src/syscall/fs.rs:339-366 | a store result sent back by the kernel is rebuilt unchanged by the userland wrapper, unless it carries a controller code that does not survive |
| SyscallFs.ReadImpl | src/syscall/fs.rs:190-195 | a missing file fails with `NoSuchTag` and leaves the buffer alone; otherwise the buffer's first min(buffer, file) bytes are the file's and the rest are unchanged |
| SyscallFs.ValueOfLittleEndian | src/syscall/fs.rs:321-337 | the value of the little-endian bytes of a number that fits is that number |
| SyscallFs.KernelBytes | src/syscall/fs.rs:427-433 | the kernel hands `edit_at` exactly as many bytes as the width of the write |
| SyscallFs.ReadWord | src/syscall/fs.rs:321-337 | a word read at word offset k gives a value that fits in the word's width |
| SyscallFs.Window | src/syscall/fs.rs:329-330 | the bytes a word read addresses (here and at lines 398-399) are the file's where the file reaches and the memory after it beyond that |
| SyscallFs.ReadAt | src/syscall/fs.rs:257-406 | `read_1b_at`, `read_2b_at` and `read_4b_at` as written: panics exactly on an empty file or, for one byte, at or past the end; otherwise a value of the word's width, equal to the in-file word whenever the word lies in the file |
| SyscallFs.ReadAtPastEnd | src/syscall/fs.rs:321-337 | as written, a 2-byte read (and likewise the 4-byte one at lines 390-406) starting at or past the end of a non-empty file succeeds with a value made only of memory outside the file |
| SyscallFs.ReadAtLeaksExample | src/syscall/fs.rs:390-406 | as written, `read_4b_at` at word 0 of a two-byte file gives 0 over zeroed memory and 0xFFFF0000 over erased memory |
| SyscallFs.ReadAtCheckedAgrees | src/syscall/fs.rs:257-270 | the corrected read answers exactly when the word lies in the file, then with the written read's value whatever follows the file; where it refuses and the written read answers, that word ends outside the file |
| SyscallFs.WordRoundTrip | src/syscall/fs.rs:339-366 | a 1-, 2- or 4-byte value written at a word offset reads back unchanged at the same offset, with the file's length and every byte outside the word unchanged |
| SyscallFs.AppletGuards | src/syscall/fs.rs:457-535 | the applet write and erase syscalls accept exactly the Installer on CAP-file tags; the plain write accepts only well-formed non-CAP names; no tag is open to both the plain and the applet variant |
| Argbuf.Area | src/argbuf.rs:27-44 | an area whose stored length is below the room after the length word meets the invariant every access asserts |
| Argbuf.Setup | src/argbuf.rs:46-53 | after setup the slot is empty and every addressable data byte is zero |
| Argbuf.Set | src/argbuf.rs:68-74 | storing into an empty slot records the argument's length, puts the argument at the start of the data bytes and leaves the bytes after it alone |
| Argbuf.Get | src/argbuf.rs:55-66 | taking out returns exactly the stored argument, zeroes its bytes, leaves the bytes after it alone and empties the slot |
| Argbuf.SetClean | src/argbuf.rs:68-74 | storing into a buffer with no stale byte leaves no stale byte past the new argument |
| Argbuf.GetWipes | src/argbuf.rs:55-66 | taking the argument out of a buffer with no stale byte leaves every data byte zero |
| Argbuf.RoundTrip | src/argbuf.rs:55-74 | a non-empty argument stored in an empty slot comes back unchanged and the slot is empty again |
| Argbuf.TwoRoundTrips | src/argbuf.rs:46-74 | after setup, two arguments passed one after the other both come back unchanged and the buffer ends empty and all zero |
| Syscall.Number | src/syscall/mod.rs:64-103 | every syscall is sent as a number no larger than 17 |
| Syscall.FromUsize | src/syscall/mod.rs:105-130 | a number decodes exactly when it is at most 17, and to the syscall sent as that number |
| Syscall.FromNumber | src/syscall/mod.rs:64-130 | decoding the number of any syscall gives that syscall back |
| Syscall.NumberInjective | src/syscall/mod.rs:64-103 | no two syscalls share a number |
| Syscall.Received | src/syscall/mod.rs:171-184 | the kernel panics exactly on a number above 17; otherwise the caller's result register holds the handler's result when it returns one and keeps its value when it does not |
| Syscall.ReceivedDispatches | src/syscall/mod.rs:132-184 | a syscall sent by its own number is never refused, and its result is that of its own handler |
| Ffi.FlashIoErrno | src/ffi.rs:390-397 | every flash I/O error maps to a non-zero code between 1 and 3, whatever the controller's own code |
| Ffi.FlashInitErrno | src/ffi.rs:399-404 | the only flash initialisation error maps to code 1 |
| Ffi.FsErrno | src/ffi.rs:578-586 | every store error maps to a non-zero byte with bit 6 clear, and bit 7 is set exactly for I/O errors |
| Ffi.FsErrnoDistinct | src/ffi.rs:578-586 | two store errors get the same code exactly when they agree once the controller's code of an unknown error is forgotten |
| Ffi.FsInitCode | src/ffi.rs:570-576 | `fs_init` returns 0 exactly when initialisation succeeded |
| Ffi.FsInitDistinct | src/ffi.rs:570-576 | bit 6 is set exactly on store failures; two store failures share a code exactly when their store errors are indistinguishable, and all flash failures share one code |
| Ffi.FsExists | src/ffi.rs:682-688 | the result is 0 or 1, and 1 exactly when the tag exists |
| Ffi.UnpackPack | src/ffi.rs:857-865 | splitting a value built from a package, class and method number gives the three numbers back |
| Ffi.PackUnpack | src/ffi.rs:857-865 | rebuilding a value from the three numbers it was split into gives its low 24 bits: the top byte is ignored |
| Context.InCurrentContextMeaning | src/context.rs:273-282 | once a context runs, an accepted range never reaches outside the context's memory whatever its size, since an overflowing end saturates; conversely a non-empty, non-overflowing range lying wholly in the context is accepted |
| Context.OverflowingRange | src/context.rs:273-282 | a range whose end overflows is accepted exactly when it starts in the context and the context runs to the top of the address space |
| Context.WritableIsReadable | src/context.rs:284-296 | every range writable from the current context is readable from it |
| Context.Push | src/context.rs:123-150 | a push keeps the stack's bounds, leaves a saved context on top that is never below the lowest address, and puts it exactly one frame below the previous top |
| Context.Pop | src/context.rs:152-177 | popping an empty stack panics, and a pop keeps the stack's bounds |
| Context.PopPush | src/context.rs:123-177 | popping what was just pushed gives the stack back: an empty stack is empty again and a saved context whose frame ends below the highest address is on top again |
| Context.PopPushAtTop | src/context.rs:152-177 | popping what was pushed over a saved context whose frame ends exactly at the highest address leaves the stack empty instead |
| Context.NewId | src/context.rs:345-355 | an id is accepted exactly when it is below the number of contexts, and is then that id |
| ContextAlloc.AlignUp | src/contextallocator.rs:74 | the aligned start is a multiple of the size, at or above the range's start, and less than one size above it |
| ContextAlloc.AlignUpLeast | src/contextallocator.rs:74 | no multiple of the size lies between the range's start and the aligned start: it is the least one |
| ContextAlloc.AlignedIsFixed | src/contextallocator.rs:74 | a start already aligned to the size is left where it is |
| ContextAlloc.Block | src/contextallocator.rs:85-98 | a carved context gets its entry point and a block of the chosen size at the given address, whose empty stack covers the lower half and whose heap covers the upper half |
| ContextAlloc.OffsetIsProduct | src/contextallocator.rs:85 | the i-th carved block starts i times the size after the first |
| ContextAlloc.Carve | src/contextallocator.rs:78-102 | every context gets metadata in order; context 0 keeps its own, and context i of the others gets the block i - 1 sizes after the aligned start |
| ContextAlloc.AllocateOfSizeAsWritten | src/contextallocator.rs:69-103 | an accepted size yields the carved layout from the aligned start |
| ContextAlloc.AllocateOfSize | src/contextallocator.rs:69-103 | an accepted size yields the carved layout from the aligned start, with the fit test charging the blocks actually carved |
| ContextAlloc.FirstExponent | src/contextallocator.rs:111-112 | the first size tried is the largest power of two at most the range divided by the number of carved contexts, and there is none exactly when that quotient is 0 |
| ContextAlloc.Allocate | src/contextallocator.rs:105-133 | every allocation that succeeds is the layout of one size tried |
| ContextAlloc.CarveLayout | src/contextallocator.rs:78-102 | when the start is aligned, every carved block is aligned to its size, lies after the start within the carved span, and no two blocks overlap |
| ContextAlloc.AllocateOfSizeLayout | src/contextallocator.rs:69-103 | a size is refused exactly when the last block would end past the reserved range; an accepted size gives each carved context an aligned block inside the range, disjoint from the others, with its stack below its heap |
| ContextAlloc.AsWrittenIsStricter | src/contextallocator.rs:75-77 | every size the written fit test accepts, the corrected test accepts with the same layout |
| ContextAlloc.AllocateSucceeds | src/contextallocator.rs:105-133 | with the corrected fit test, the allocation succeeds exactly when the range divided by the number of carved contexts is at least 1 |
| ContextAlloc.HalvedFits | src/contextallocator.rs:121 | the halved size always fits whenever the first size is at least 2, so the second attempt cannot fail with the corrected test |
| ContextAlloc.AsWrittenRefusesFirstForTwo | src/contextallocator.rs:75-77 | with two contexts, the written fit test always refuses the first size tried |
| ContextAlloc.AsWrittenPanicsOnExactFit | src/contextallocator.rs:105-133 | two contexts and a range of exactly 2^k bytes at a 2^k-aligned address: the written test refuses both sizes tried and the kernel panics, while the corrected allocation gives context 1 the whole range |
| ContextAlloc.BothSizesRefused | src/contextallocator.rs:130-132 | when the first size and its half are both refused, the allocation panics |
| ContextAlloc.FirstSizeTaken | src/contextallocator.rs:113-120 | when the first size fits, the allocation uses it and does not try the half |
| ContextAlloc.ExactFitAsWritten | src/contextallocator.rs:75-77 | for two contexts and an aligned range of exactly 2^k bytes, the written test refuses both 2^k and 2^(k-1) |
| ContextAlloc.ExactFitCorrected | src/contextallocator.rs:69-103 | for the same range, the corrected test accepts 2^k and context 1 gets the whole range |
| ContextAlloc.FirstExponentOfPow2 | src/contextallocator.rs:111-112 | with two contexts, the first size tried for a range of 2^k bytes is 2^k |
| ContextAlloc.SecondBlock | src/contextallocator.rs:85-93 | context 1 gets the first block, at the aligned start and of the chosen size |
| Mpu.RegionNew | src/mpu/mod.rs:69-79 | a region index is accepted exactly when it is below 8 |
| Mpu.SetUnprivilegedRegion | src/mpu/mod.rs:122-173 | a request reaches the hardware layer unchanged exactly when it passes every assertion of the driver, and the kernel panics otherwise |
| Mpu.AcceptsMeaning | src/mpu/mod.rs:144-162 | the bit tests mean what their messages say: a request passes exactly when its size is a power of two of at least 32 bytes, its start is a multiple of its size, it is not writable and executable, and it disables sub-regions only from 256 bytes up |
| Mpu.SetUnprivilegedRegionWellFormed | src/mpu/mod.rs:122-173 | every region the driver programs is well formed, and none is writable and executable |
| Mpu.SetupUnprivRegions | src/mpu/mod.rs:175-217 | setup programs exactly regions 3, 4, 5 and 7, in that order, over the CAP files (read-only), the shared read-write data (read-write), the shared read-only data (read-only) and the firmware (read-execute), all well formed and without sub-regions |
| Mpu.SwitchUserland | src/mpu/mod.rs:219-229 | switching succeeds exactly when the context's memory is a naturally aligned power of two of at least 32 bytes, and then programs region 6 read-write and not executable over exactly that memory |
| Mpu.SwitchUserlandOnlyRegion6 | src/mpu/mod.rs:207 | switching contexts touches only region 6, which setup never programs |
| MpuHost.Initial | src/arch/host/mpu_ll.rs:31-50 | the table starts not set up, with 8 empty regions and no sub-region mask |
| MpuHost.Prot | src/arch/host/mpu_ll.rs:69-75 | a covering region always grants read, grants write exactly when writable and execute exactly when executable |
| MpuHost.HighestMatch | src/arch/host/mpu_ll.rs:63-77 | the reference the loop is compared with: the highest-numbered region covering the address, with no covering region above it, or none when no region covers it |
| MpuHost.HighestMatchCons | src/arch/host/mpu_ll.rs:63-77 | the highest covering region of a table is that of its tail shifted by one, or its first region when only that one covers the address |
| MpuHost.WalkFindsHighest | src/arch/host/mpu_ll.rs:63-77 | when no covering region disables sub-regions, the loop ends with the protection of the highest-numbered covering region, or its starting value when none covers |
| MpuHost.AllowsAddrUnprivileged | src/arch/host/mpu_ll.rs:55-82 | unprivileged code gets exactly the protection of the highest-numbered covering region, and no access where no region covers |
| MpuHost.AllowsAddrPrivileged | src/arch/host/mpu_ll.rs:78-81 | privileged code may read, write and execute everywhere no sub-region-disabling region covers |
| MpuHost.SrdDenies | src/arch/host/mpu_ll.rs:64-67 | an address covered by a region with sub-regions disabled is denied every access, privileged or not |
| MpuHost.WalkSrd | src/arch/host/mpu_ll.rs:63-67 | the loop stops early, with no protection, as soon as a covering region disables sub-regions |
| MpuHost.Setup | src/arch/host/mpu_ll.rs:84-87 | setup succeeds exactly the first time, raising the flag and leaving the regions alone |
| MpuHost.SetRegion | src/arch/host/mpu_ll.rs:94-116 | a region is set exactly when the table is set up, no sub-region mask is given and the index exists; then that entry holds the request and every other entry is unchanged |
| MpuHost.Apply | src/arch/host/mpu_ll.rs:94-116 | a request from the driver is accepted exactly when the table is set up, it has no sub-region mask and its index exists |
| MpuHost.InitialSafe | src/arch/host/mpu_ll.rs:42-50 | the initial table is safe: its writable-and-executable entries are all empty |
| MpuHost.ApplyAllSafe | src/arch/host/mpu_ll.rs:94-116 | a set-up safe table accepts every sequence of well-formed requests without sub-region masks and stays safe |
| MpuHost.WriteXorExecute | src/arch/host/mpu_ll.rs:55-82 | in a safe table no unprivileged access is granted both write and execute |
| MpuHost.ProtNotBoth | src/arch/host/mpu_ll.rs:69-75 | a region that is not both writable and executable never grants both |
| MpuHost.BootSequenceSafe | src/arch/host/mpu_ll.rs:55-116 | after setup, the driver's regions and a context switch, the table is safe, privileged code may do everything and userland never writes what it executes |
| MpuRasr.Bit | src/arch/stm32f401re/mpu_ll.rs:91 | a flag cast to `u32` is 0 or 1 |
| MpuRasr.SrdField | src/arch/stm32f401re/mpu_ll.rs:89-91 | the folded sub-region mask always fits the 8-bit `SRD` field |
| MpuRasr.SrdFoldPlaces | src/arch/stm32f401re/mpu_ll.rs:90-91 | the fold puts the mask's first flag in bit 7 and its last in bit 0, one flag per bit |
| MpuRasr.FoldedPlaced | src/arch/stm32f401re/mpu_ll.rs:90-91 | eight steps of the fold from 0 give the flags placed one per bit |
| MpuRasr.PlacedReadsBack | src/arch/stm32f401re/mpu_ll.rs:90-91 | flags placed one per bit read back in order and take only the low byte |
| MpuRasr.SrdFieldRoundTrip | src/arch/stm32f401re/mpu_ll.rs:89-91 | the `SRD` field fits in 8 bits, reads back as the mask given, and disables no sub-region without a mask |
| MpuRasr.SrdMaskRoundTrip | src/arch/stm32f401re/mpu_ll.rs:90-91 | folding an 8-flag mask and reading the byte back gives the mask |
| MpuRasr.SizeField | src/arch/stm32f401re/mpu_ll.rs:92-94 | the size field s is at most 30 and the size lies in [2^(s+1), 2^(s+2)) |
| MpuRasr.SizeFieldOfPow2 | src/arch/stm32f401re/mpu_ll.rs:92-94 | for a power-of-two size the region the field encodes, 2^(s+1) bytes, is exactly the size asked for |
| MpuRasr.SizeBits | src/arch/stm32f401re/mpu_ll.rs:94 | the size field as a register value is at most 30, so it fits the 5-bit `SIZE` field |
| MpuRasr.XnField | src/arch/stm32f401re/mpu_ll.rs:96-100 | the `XN` flag reads back from bit 28 of the assembled value |
| MpuRasr.ApField | src/arch/stm32f401re/mpu_ll.rs:96-100 | the access permissions read back from bits 24 to 26 |
| MpuRasr.SrdFieldBits | src/arch/stm32f401re/mpu_ll.rs:96-100 | the sub-region mask reads back from bits 8 to 15 |
| MpuRasr.SizeFieldBits | src/arch/stm32f401re/mpu_ll.rs:96-100 | a size field of at most 30 reads back from bits 1 to 5 |
| MpuRasr.EnableAndMask | src/arch/stm32f401re/mpu_ll.rs:96-111 | the enable bit is set and the assembled value has no bit outside the five fields written |
| MpuRasr.RasrXn | src/arch/stm32f401re/mpu_ll.rs:96 | instruction fetches are forbidden exactly when the region is not executable |
| MpuRasr.RasrAp | src/arch/stm32f401re/mpu_ll.rs:97 | the access permissions are unprivileged read-write on a writable region and unprivileged read-only otherwise |
| MpuRasr.RasrSrd | src/arch/stm32f401re/mpu_ll.rs:89-98 | the `SRD` field of the register holds the mask's flags, and none without a mask |
| MpuRasr.RasrSize | src/arch/stm32f401re/mpu_ll.rs:92-99 | the `SIZE` field holds the size field, which describes exactly the size asked for when it is a power of two |
| MpuRasr.RasrEnable | src/arch/stm32f401re/mpu_ll.rs:100-111 | the region is enabled and no bit outside the five fields is set |
| MpuRasr.SelectRegion | src/arch/stm32f401re/mpu_ll.rs:85-86 | the region number register selects the region and keeps every other bit |
| MpuRasr.RegionInMask | src/arch/stm32f401re/mpu_ll.rs:86 | a region index below 8 fits the region field |
| MpuRasr.WriteBase | src/arch/stm32f401re/mpu_ll.rs:87-88 | the address bits of the base address register are the start's; the other bits keep their value with the start's low bits raised in them |
| MpuRasr.WriteAttributes | src/arch/stm32f401re/mpu_ll.rs:95-111 | the five fields of the attribute register hold the value computed for the region and the reserved bits are kept |
| MpuRasr.WriteAssembled | src/arch/stm32f401re/mpu_ll.rs:103-111 | writing under the attribute mask stores the assembled fields and keeps the reserved bits |
| MpuRasr.SetUnprivilegedRegion | src/arch/stm32f401re/mpu_ll.rs:77-112 | after the three writes the region is selected, its base address and attribute fields are those of the request, and the attribute register's reserved bits are kept |
| MpuRasr.Setup | src/arch/stm32f401re/mpu_ll.rs:60-69 | setup enables the MemManage fault, turns the MPU on with the default map for privileged code, and moves no other bit |
| MpuRasr.SetupIdempotent | src/arch/stm32f401re/mpu_ll.rs:60-69 | setting up an MPU that is already set up changes nothing |

## Left out

- Flash I/O errors inside the store: the host controller's `has_error` is always 0 and its `currently_busy` always false, so no store operation meets an I/O error. `FlashLl.HasError` and `FlashLl.CurrentlyBusy` return these constants, and the `Flash` operations that check them go straight to their success branch.
- Flash locks inside the store: the store is single-threaded and its `with_writer` calls never overlap a live block of its own, so `Store` writes sectors directly through `Flash.EditsMem`. Lock conflicts are modelled in `Flash` alone.
- Power loss in the middle of an operation is left out, and so is concurrency. The start-up scan is modelled on whatever bytes a cut write leaves, but no theorem ties a cut operation to the state it leaves.
- `debug!` logging, the `get!`/`err!` macros and the platform constant tables. Sector sizes and sector ids are parameters.
- The privilege assertions of the host flash controller and of the MPU code. Privilege is a parameter where it decides an outcome, as in `MpuHost.AllowsAddr`.
- Memory barriers and volatile register access in the STM32 MPU driver. Registers are values.
- Defrag.FinishDefragmentation requires a mark that names a sector or none: `defragment` always writes such a mark (`Defrag.SetMark`), and `Scan.New` models the panic on any other mark before calling it.
- Defrag.CopyBlocks states that consistency is kept, but not which blocks end up copied: a later valid block of the same tag replaces an earlier one, and no read-back is stated.
- Defrag.FinishDefragmentation and Defrag.Defragment state the shape of the store, the defragmentation mark and the errors. They do not state that consistency is preserved across a defragmentation, or that the same files read back afterwards.
- Scan.New follows the source's torn-block step, which leaves `next_block` on the zeroed bytes (see Findings); the corrected walk is `Scan.Scanned` with `fixed` true, and `Scan.TornBlockResumes` states what it gives.
- Scan.New does not state that the store it builds satisfies `Consistency.Consistent`. `Scan.ScanKeepsFirst` states, sector by sector, which blocks are indexed and which are invalidated. It is not carried across sectors, so a tag with valid copies on two sectors is described only per sector.
- Scan.Admit follows the source in adding an invalidated duplicate's size to `valid_size`. The over-count only makes `is_available` more cautious, and it is not listed as a defect.
- Codec.ParseHdr accepts a four-byte length field holding a value below 256, which `write_impl` never writes. The model parses it as the source does, and `Codec.EncodeParses` covers only the canonical encoding.
- DefragOrder.Key: the source computes `(1 << 15) * next_block / valid_size` in `usize`. This can overflow for sectors of 128 KiB or more, and the model computes it unbounded.
- Writes.Write states the store's shape, the possible errors and the case where a sector is available from the start. When defragmentation is needed, it does not state that the tag reads back the data afterwards, because defragmentation is not proved to keep consistency.
- Writes.WriteApplet states its errors and the case where the applet sector already has room. When it must first `defragment` the applet sector and then call `write_impl` (src/fs/mod.rs:912-918), it does not state that the write succeeds, that the store stays consistent or that the tag reads back, because defragmentation is not proved to keep consistency.
- Writes.EditAt: the source slices the file's data at `offset` and `offset + data.len()` and panics when these are past its end. The model requires them in range.
- Writes.EditThroughDefrag states only its errors, and the failure cases in which nothing is written. Its success path rests on defragmentation, whose consistency is not proved.
- Flash.SubBlock and Flash.Clone: the source calls `expect` on the read lock, which cannot fail while the parent block holds it. The model requires that no conflicting lock is held.
- Flash.New models only the single-owner guard, with the controller's setup. Sector construction from the platform table is a parameter.
- The `read_inplace` raw pointers and the unaligned pointer reads of `read_2b_at`/`read_4b_at` in `src/syscall/fs.rs`. Only their byte-level meaning, little-endian words at scaled offsets, is modelled.
- The address checks `is_readable_from_current_context` and `is_writable_from_current_context` are modelled in `Context`, but the syscall handlers of `SyscallFs` take their outcome as a parameter.
- `usize` overflow of sums such as `low + size`, `2 * offset` and `begin + size - 1` is left unbounded, except where the model writes 32-bit wrap-around explicitly: the hasher, `wrapping_offset` and the error codes.
- ContextAlloc.AlignUp computes the aligned start as the least multiple at or above the start. The source's mask expression `(begin + size - 1) & !(size - 1)` gives the same value for power-of-two sizes without overflow.
- ContextAlloc.AsWrittenPanicsOnExactFit requires the range to be below 2^32 bytes, as a 32-bit `usize` forces.
- The zeroing of carved context blocks (`write_bytes`), and the fields of context 0's metadata other than its entry point, which come from linker symbols.
- Context.Pop states only what the popped stack keeps. `Context.PopPush` relates it to `Push`.
- contextnum.rs is not part of this model: the Installer's context id is a parameter.
- The host MPU table's `try_lock` failure in `allows_addr`, and the test-only `deinitialize`.
- `src/main.c`, the emulator, the context-switch and syscall trampolines, the allocator and the runtime hooks are hardware and OS plumbing outside the store.

- SyscallFs.ReadWord requires the word to lie in the file. `SyscallFs.ReadAt` models what the source does outside it: `read_1b_at` and an empty file panic, and `read_2b_at`/`read_4b_at` read the memory after the file. An offset above `isize::MAX`, which `wrapping_offset` turns into a negative one pointing before the file, is not modelled.

## Findings

| source | as written | input that shows it | evidently intended | confidence | as-written member | corrected member |
|---|---|---|---|---|---|---|
| src/fs/mod.rs:534-538 | on a torn block, `new` zeroes the sector's live bytes from `next_block` with `erase_invalid_data` and moves to the next sector, leaving `next_block` on the first zeroed byte | sector `[0xC2, 0x06, 0x41, 0x42, 0x43, 0xFF, 0xFF, 0xFF]`: a block whose length field asks for 6 data bytes where 3 remain; after the scan `next_block` is 0 on a zero byte, so the next block written there ANDs into zeros and reads back as a zero run | `next_block` moves past the zeroed bytes, so the room after it is erased | not executed | Scan.TornBlockAsWritten, Scan.TornBlockExample, Scan.ScannedTornExample | Scan.TornBlockResumes |
| src/contextallocator.rs:74-77 | the fit test charges `c.len() * size` bytes with `>=`, though only `c.len() - 1` blocks are carved and a block may end exactly at the end of the range | two contexts and a range of 0x1000 bytes at 0x1000: the size 0x1000 and its half 0x800 are both refused, and `allocate_contexts` panics | charge `(c.len() - 1) * size` and accept a block ending at the end of the range | not executed | ContextAlloc.AsWrittenPanicsOnExactFit | ContextAlloc.AllocateSucceeds |
| src/flash/mod.rs:271-297, 415-428 | the lock table is a set of `(rw, start, length)` triples: `clone` inserts a triple already present, which the set absorbs, and dropping either copy removes it | a read-locked block `b`; `let c = b.clone(); drop(c);` leaves no lock on `b`'s range, so `with_writer` on that range succeeds while `b` is still alive | count the holders of each read lock, so that releasing one clone leaves the others locked | not executed | Flash.CloneThenDrop | Flash.CloneDropKeepsLock |
| src/syscall/fs.rs:321-337, 390-406 | `syscall_read_2b_at` and `syscall_read_4b_at` read the `offset`-th word through `wrapping_offset` from `&b[0]` with no bound check, while `syscall_read_1b_at` indexes the data and panics past its end | a two-byte file and `read_4b_at(tag, 0)`: the call returns success with the file's two bytes followed by its block's checksum byte and the first byte after the block, which may belong to another file that `can_read` never checked | refuse a word that does not lie in the file, as `read_1b_at` does | not executed | SyscallFs.ReadAtPastEnd, SyscallFs.ReadAtLeaksExample | SyscallFs.ReadAtCheckedAgrees |
| src/flash/mod.rs:229-234 | the comment says a zero length is treated as being 1, but the test compares the ends of the ranges as they are, so a zero-length range at the first byte of another range does not overlap it | a zero-length read lock at index 5 and a write request for 10 bytes from index 5: the written test finds no overlap, where a one-byte range would conflict | a zero length counts as one byte, as the comment says | not executed; the comment may be the stale part | Flash.OverlapEmptyAtStart, Flash.OverlapEmpty | Flash.OverlapAsDocumentedMeaning |
