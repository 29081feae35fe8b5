/** The tag/data store (`src/fs/mod.rs`): the state of a `FileSystem`, and the operations
    that read, write and invalidate single blocks.

    The state holds the contents of every sector the store was given (indexed by the
    store's own `SectorID`), the defragmentation and applet sector ids, the index of live
    files (a `HashSet` keyed by the tag bytes), and the per-sector counters `next_blocks`
    and `valid_sizes`. The flash is written only through `with_writer` callbacks, whose
    effect on a sector is `Flash.EditsMem`. */
module Store {
  import opened Wrappers
  import HashSet
  import FlashLl
  import Flash
  import Codec
  import Crc8
  import Bytes

  /** `fs::Error`. */
  datatype Error =
    | OutOfFlash
    | NoSuchTag
    | InvalidLengthForTag
    | IO(e: Flash.IOError)

  /** A live file: what its tag and data blocks read, where they start, the sector it is
      on and the size of its whole block on flash. */
  datatype File = File(tag: seq<bv8>, tagStart: nat, data: seq<bv8>, dataStart: nat, sector: nat, size: nat)

  /** Files are compared and hashed by their tag bytes (`Borrow<[u8]>`, `Hash`, `Eq`). */
  function FileKey(f: File): seq<bv8>
  {
    f.tag
  }

  function FileHash(tag: seq<bv8>): nat
  {
    if |tag| < HashSet.WORD then HashSet.HashTag(tag) else 0
  }

  /** Number of buckets of the index. */
  const FS_FILES_BUCKETS: nat := 32

  /** The state of a `FileSystem`. */
  datatype Fs = Fs(
    mem: seq<seq<bv8>>,
    defrag: nat,
    applet: nat,
    files: HashSet.HashSet<File>,
    nextBlocks: seq<nat>,
    validSizes: seq<int>)

  /** The live files. */
  function Files(fs: Fs): set<File>
  {
    HashSet.Elements(fs.files)
  }

  /** Size of the length field of a block with `datalen` bytes of data. */
  function LenLenOf(datalen: nat): nat
  {
    if datalen > 0xFF then 4 else 1
  }

  /** Room for blocks on a sector: the defragmentation sector keeps its last byte for the
      id of the sector being defragmented. */
  function Capacity(fs: Fs, sid: nat): int
    requires sid < |fs.mem|
  {
    |fs.mem[sid]| - if sid == fs.defrag then 1 else 0
  }

  /** Where the header of a file's block is, as `erase_file` computes it from the start of
      the tag block and the length of the data. */
  function HdrPos(f: File): nat
    requires f.tagStart >= 1 + LenLenOf(|f.data|)
  {
    f.tagStart - LenLenOf(|f.data|) - 1
  }

  /** A file whose header position lies inside its sector. */
  predicate FileInBounds(mem: seq<seq<bv8>>, f: File)
  {
    && f.sector < |mem|
    && f.tagStart >= 1 + LenLenOf(|f.data|)
    && HdrPos(f) < |mem[f.sector]|
  }

  /** The shape of the state: one counter of each kind per sector, the reserved sectors
      exist, sectors are addressable with 32-bit indices, no sector is filled past its
      capacity, the index is a valid set, and every indexed file is inside its sector. */
  predicate Wf(fs: Fs)
  {
    // Bound to a name, so that callers establish and pass on the invariant as one fact.
    var wf :=
      && |fs.nextBlocks| == |fs.mem| && |fs.validSizes| == |fs.mem|
      && fs.defrag < |fs.mem| && fs.applet < |fs.mem|
      && |fs.mem[fs.defrag]| > 0
      && (forall i | 0 <= i < |fs.mem| :: |fs.mem[i]| < Codec.USIZE_LIMIT)
      && (forall i | 0 <= i < |fs.mem| :: fs.nextBlocks[i] <= Capacity(fs, i))
      && HashSet.Valid(fs.files, FileKey, FileHash)
      && forall f | f in Files(fs) :: FileInBounds(fs.mem, f) && HdrPos(f) < Capacity(fs, f.sector);
    wf
  }

  /** The last byte of the defragmentation sector, which holds the id of the sector being
      defragmented (0xFF: none). No block is ever written there. */
  function Mark(fs: Fs): bv8
    requires Wf(fs)
  {
    fs.mem[fs.defrag][|fs.mem[fs.defrag]| - 1]
  }

  /** The shape of the state depends on the sectors' lengths only, not on their contents. */
  lemma WfWithMem(fs: Fs, mem: seq<seq<bv8>>)
    requires Wf(fs)
    requires |mem| == |fs.mem| && forall s | 0 <= s < |mem| :: |mem[s]| == |fs.mem[s]|
    ensures Wf(fs.(mem := mem))
  {
    var r := fs.(mem := mem);
    forall f | f in Files(r) ensures FileInBounds(mem, f) && HdrPos(f) < Capacity(r, f.sector) {
      assert FileInBounds(fs.mem, f) && HdrPos(f) < Capacity(fs, f.sector);
    }
    forall i | 0 <= i < |mem| ensures r.nextBlocks[i] <= Capacity(r, i) {
      assert fs.nextBlocks[i] <= Capacity(fs, i);
    }
  }

  // ---------------------------------------------------------------------------------
  // Looking files up

  /** Whether a live file has the tag: what the index is meant to answer. */
  ghost predicate Indexes(fs: Fs, tag: seq<bv8>)
  {
    exists f | f in Files(fs) :: f.tag == tag
  }

  /** What reading a tag is meant to give: the data of the live file with that tag, or
      `NoSuchTag`. */
  ghost function Lookup(fs: Fs, tag: seq<bv8>): Result<seq<bv8>, Error>
  {
    if Indexes(fs, tag) then
      var f :| f in Files(fs) && f.tag == tag;
      Ok(f.data)
    else Err(NoSuchTag)
  }

  /** `has_tag(tag)`: a lookup in the index. */
  function HasTag(fs: Fs, tag: seq<bv8>): (r: bool)
    requires Wf(fs)
    ensures r == Indexes(fs, tag)
  {
    var found := HashSet.Get(fs.files, tag, FileKey, FileHash);
    if found.Some? then assert found.value in Files(fs); true else false
  }

  /** `read(tag)`: the data of the file the index gives for the tag (a clone of its data
      block), or `NoSuchTag`. */
  function Read(fs: Fs, tag: seq<bv8>): (r: Result<seq<bv8>, Error>)
    requires Wf(fs)
    ensures r == Lookup(fs, tag)
  {
    match HashSet.Get(fs.files, tag, FileKey, FileHash)
    case Some(f) =>
      assert Lookup(fs, tag) == Ok(f.data) by {
        var g :| g in Files(fs) && g.tag == tag && Lookup(fs, tag) == Ok(g.data);
        HashSet.KeyIdentifiesElement(fs.files, FileKey, FileHash, f, g);
      }
      Ok(f.data)
    case None => Err(NoSuchTag)
  }

  /** The file with a given tag, when there is one. */
  lemma FileOfTag(fs: Fs, f: File)
    requires Wf(fs) && f in Files(fs)
    ensures Lookup(fs, f.tag) == Ok(f.data)
  {
    var g :| g in Files(fs) && g.tag == f.tag && Lookup(fs, f.tag) == Ok(g.data);
    HashSet.KeyIdentifiesElement(fs.files, FileKey, FileHash, f, g);
  }

  // ---------------------------------------------------------------------------------
  // Invalidating a block

  /** Marking a header no longer valid through `b.write(0, b[0] & 0x3F)`: the AND of the
      header with itself masked is the masked header. */
  lemma AndInvalidated(hdr: bv8)
    ensures FlashLl.And(hdr, Codec.Invalidated(hdr)) == Codec.Invalidated(hdr)
  {
  }

  /** What `erase_file(f)` does to the state: the valid size of the file's sector drops by
      the file's size, and on flash the header of its block gets its validity bits cleared;
      no other byte and no other counter changes. */
  predicate Invalidates(fs: Fs, f: File, r: Fs)
    requires FileInBounds(fs.mem, f) && |fs.validSizes| == |fs.mem|
  {
    && r.nextBlocks == fs.nextBlocks && r.defrag == fs.defrag && r.applet == fs.applet
    && r.validSizes == fs.validSizes[f.sector := fs.validSizes[f.sector] - f.size]
    && |r.mem| == |fs.mem|
    && (forall s | 0 <= s < |fs.mem| && s != f.sector :: r.mem[s] == fs.mem[s])
    && |r.mem[f.sector]| == |fs.mem[f.sector]|
    && r.mem[f.sector][HdrPos(f)] == Codec.Invalidated(fs.mem[f.sector][HdrPos(f)])
    && (forall k | 0 <= k < |fs.mem[f.sector]| && k != HdrPos(f) :: r.mem[f.sector][k] == fs.mem[f.sector][k])
  }

  /** `erase_file(f)`: lower the sector's valid size by the file's size, then clear the
      validity bits of the block's header, in a one-byte `with_writer` at the header. The
      file itself has already left the index. */
  function EraseFile(fs: Fs, f: File): (r: Fs)
    requires Wf(fs) && FileInBounds(fs.mem, f)
    ensures Wf(r) && r.files == fs.files && Invalidates(fs, f, r)
  {
    var s := f.sector;
    var p := HdrPos(f);
    var hdr := fs.mem[s][p];
    var m := Flash.EditsMem(fs.mem[s], p, 1, [Flash.Put(0, Codec.Invalidated(hdr))]);
    Flash.OneEdit(fs.mem[s], p, 1, Flash.Put(0, Codec.Invalidated(hdr)));
    AndInvalidated(hdr);
    WfWithMem(fs, fs.mem[s := m]);
    fs.(validSizes := fs.validSizes[s := fs.validSizes[s] - f.size], mem := fs.mem[s := m])
  }

  /** In the index, a file is the only one with its tag. */
  lemma OnlyFileWithTag(fs: Fs, f: File)
    requires Wf(fs) && f in Files(fs)
    ensures forall g | g in Files(fs) && g.tag == f.tag :: g == f
  {
    forall g | g in Files(fs) && g.tag == f.tag ensures g == f {
      HashSet.KeyIdentifiesElement(fs.files, FileKey, FileHash, f, g);
    }
  }

  // ---------------------------------------------------------------------------------
  // Choosing a sector

  /** The size of the live block for `tag` if that block is on sector `sid`, else 0: what
      a new block for `tag` on `sid` frees there. */
  ghost function SizeOn(files: set<File>, sid: nat, tag: seq<bv8>): nat
  {
    if exists f | f in files :: f.tag == tag && f.sector == sid then
      var f :| f in files && f.tag == tag && f.sector == sid;
      f.size
    else 0
  }

  /** With the file `f` indexed, its tag frees `f.size` bytes on its own sector and nothing
      on any other. */
  lemma SizeOnFile(fs: Fs, f: File)
    requires Wf(fs) && f in Files(fs)
    ensures forall s :: SizeOn(Files(fs), s, f.tag) == if s == f.sector then f.size else 0
  {
    OnlyFileWithTag(fs, f);
  }

  /** The size of the live block for `tag` on sector `sid`, found through the index. */
  function SizeHere(fs: Fs, sid: nat, tag: seq<bv8>): (r: nat)
    requires Wf(fs)
    ensures r == SizeOn(Files(fs), sid, tag)
  {
    match HashSet.Get(fs.files, tag, FileKey, FileHash)
    case Some(f) =>
      SizeOnFile(fs, f);
      if f.sector == sid then f.size else 0
    case None => 0
  }

  /** `is_available(sector, size, tag)`: the block fits after `next_block`, and the live
      data of the sector, counting the new block and not the one it replaces there, still
      fits the defragmentation sector. */
  predicate IsAvailable(fs: Fs, sid: nat, size: nat, tag: seq<bv8>)
    requires Wf(fs) && sid < |fs.mem|
  {
    && fs.nextBlocks[sid] + size <= |fs.mem[sid]|
    && fs.validSizes[sid] + size - SizeHere(fs, sid, tag) <= |fs.mem[fs.defrag]| - 1
  }

  /** A sector `available_sector` may choose: neither reserved sector, and available. */
  predicate Candidate(fs: Fs, sid: nat, size: nat, tag: seq<bv8>)
    requires Wf(fs) && sid < |fs.mem|
  {
    sid != fs.defrag && sid != fs.applet && IsAvailable(fs, sid, size, tag)
  }

  /** `available_sector(size, tag)`, from sector `from` on: the first candidate sector, or
      `OutOfFlash` when there is none. */
  function AvailableFrom(fs: Fs, size: nat, tag: seq<bv8>, from: nat): (r: Result<nat, Error>)
    requires Wf(fs) && from <= |fs.mem|
    ensures r.Ok? ==> from <= r.value < |fs.mem| && Candidate(fs, r.value, size, tag)
    ensures r.Ok? ==> forall j | from <= j < r.value :: !Candidate(fs, j, size, tag)
    ensures r.Err? ==> r.error == OutOfFlash
    ensures r.Err? <==> forall j | from <= j < |fs.mem| :: !Candidate(fs, j, size, tag)
    decreases |fs.mem| - from
  {
    if from == |fs.mem| then Err(OutOfFlash)
    else if from != fs.defrag && from != fs.applet && IsAvailable(fs, from, size, tag) then
      assert Candidate(fs, from, size, tag);
      Ok(from)
    else AvailableFrom(fs, size, tag, from + 1)
  }

  /** `available_sector(size, tag)`: the lowest-numbered candidate sector. */
  function AvailableSector(fs: Fs, size: nat, tag: seq<bv8>): (r: Result<nat, Error>)
    requires Wf(fs)
    ensures r.Ok? ==> r.value < |fs.mem| && Candidate(fs, r.value, size, tag)
    ensures r.Ok? ==> forall j | 0 <= j < r.value :: !Candidate(fs, j, size, tag)
    ensures r.Err? <==> forall j | 0 <= j < |fs.mem| :: !Candidate(fs, j, size, tag)
    ensures r.Err? ==> r.error == OutOfFlash
  {
    AvailableFrom(fs, size, tag, 0)
  }

  // ---------------------------------------------------------------------------------
  // Writing a block

  /** The data of a block written from several slices (`&[&[u8]]`). */
  function Concat(pieces: seq<seq<bv8>>): seq<bv8>
    decreases |pieces|
  {
    if pieces == [] then [] else pieces[0] + Concat(pieces[1..])
  }

  lemma ConcatCons(p: seq<bv8>, pieces: seq<seq<bv8>>)
    ensures Concat([p] + pieces) == p + Concat(pieces)
  {
    assert ([p] + pieces)[1..] == pieces;
  }

  /** One `write_block` per slice, one after the other from offset `at`. */
  function PieceEdits(at: nat, pieces: seq<seq<bv8>>): (r: seq<Flash.Edit>)
    ensures Flash.Contiguous(at, r) && Flash.AllBytes(r) == Concat(pieces)
    decreases |pieces|
  {
    if pieces == [] then []
    else
      var rest := PieceEdits(at + |pieces[0]|, pieces[1..]);
      var r := [Flash.PutBlock(at, pieces[0])] + rest;
      assert r[0] == Flash.PutBlock(at, pieces[0]) && r[1..] == rest;
      r
  }

  /** The length field of a block with `n` bytes of data, as one `write` or as one
      `write_block` of four bytes. */
  function LengthEdit(n: nat): (e: Flash.Edit)
    requires n < Codec.USIZE_LIMIT
    ensures Flash.EditAt(e) == 1 && Flash.EditBytes(e) == Codec.LengthField(n > 0xFF, n)
  {
    var lenField := Codec.LengthField(n > 0xFF, n);
    if n > 0xFF then Flash.PutBlock(1, lenField) else Flash.Put(1, lenField[0])
  }

  /** The first part of the `write_impl` callback: the header (not yet valid), the length
      field, the tag and each slice of data, laid down one after the other. */
  function BodyEdits(tag: seq<bv8>, pieces: seq<seq<bv8>>): (r: seq<Flash.Edit>)
    requires Codec.ValidTagLen(|tag|)
    requires |Concat(pieces)| < Codec.USIZE_LIMIT
    ensures Flash.Contiguous(0, r)
    ensures Flash.AllBytes(r) == BodyBytes(tag, Concat(pieces))
  {
    var n := |Concat(pieces)|;
    var hdr := Codec.Header(Codec.VALIDITY_NOTYET, |tag|, n > 0xFF);
    var lenEdit := LengthEdit(n);
    var tail := PieceEdits(1 + |Flash.EditBytes(lenEdit)|, [tag] + pieces);
    ConcatCons(tag, pieces);
    Flash.ConsEdit(1, lenEdit, tail);
    Flash.ConsEdit(0, Flash.Put(0, hdr), [lenEdit] + tail);
    [Flash.Put(0, hdr)] + ([lenEdit] + tail)
  }

  /** What the first part of the callback lays down: header not yet valid, length field,
      tag, data. */
  function BodyBytes(tag: seq<bv8>, data: seq<bv8>): (r: seq<bv8>)
    requires Codec.ValidTagLen(|tag|)
    requires |data| < Codec.USIZE_LIMIT
    ensures |r| == Codec.BlockLen(|tag|, |data|) - 1
  {
    [Codec.Header(Codec.VALIDITY_NOTYET, |tag|, |data| > 0xFF)]
    + (Codec.LengthField(|data| > 0xFF, |data|) + tag + data)
  }

  /** `header & (VALIDITY_VALID | !VALIDITY_MASK)`: the header marked valid. */
  function Validated(hdr: bv8): bv8
  {
    hdr & (Codec.VALIDITY_VALID | !Codec.VALIDITY_MASK)
  }

  /** The `write_impl` callback on the sector's contents `mem`, for a block of `BlockLen`
      bytes at `at`: lay down header, length, tag and data (`Laid`); then the checksum and
      the valid mark (`Sealed`). Every call fits the block, so the callback never fails. */
  function WriteBlock(mem: seq<bv8>, at: nat, tag: seq<bv8>, pieces: seq<seq<bv8>>): (r: seq<bv8>)
    requires Codec.ValidTagLen(|tag|)
    requires |Concat(pieces)| < Codec.USIZE_LIMIT
    requires at + Codec.BlockLen(|tag|, |Concat(pieces)|) <= |mem|
    ensures |r| == |mem|
    ensures forall k {:trigger r[k]} | 0 <= k < |mem| && !(at <= k < at + Codec.BlockLen(|tag|, |Concat(pieces)|)) ::
              r[k] == mem[k]
  {
    Sealed(Laid(mem, at, tag, pieces), at, Codec.BlockLen(|tag|, |Concat(pieces)|))
  }

  /** The first part of the callback: header not yet valid, length, tag, each slice. */
  function Laid(mem: seq<bv8>, at: nat, tag: seq<bv8>, pieces: seq<seq<bv8>>): (r: seq<bv8>)
    requires Codec.ValidTagLen(|tag|)
    requires |Concat(pieces)| < Codec.USIZE_LIMIT
    requires at + Codec.BlockLen(|tag|, |Concat(pieces)|) <= |mem|
    ensures |r| == |mem|
    ensures forall k {:trigger r[k]} | 0 <= k < |mem| && !(at <= k < at + Codec.BlockLen(|tag|, |Concat(pieces)|)) ::
              r[k] == mem[k]
  {
    Flash.EditsMem(mem, at, Codec.BlockLen(|tag|, |Concat(pieces)|), BodyEdits(tag, pieces))
  }

  /** The second part of the callback, on what the first laid down in a block of `blen`
      bytes: the CRC-8 of the header read back with its validity bits cleared and of the
      bytes after it, read back from flash, into the last byte; then the header read back,
      marked valid. */
  function Sealed(m1: seq<bv8>, at: nat, blen: nat): (r: seq<bv8>)
    requires 2 <= blen && at + blen <= |m1|
    ensures |r| == |m1|
    ensures forall k {:trigger r[k]} | 0 <= k < |m1| && !(at <= k < at + blen) :: r[k] == m1[k]
  {
    var m2 := Flash.EditsMem(m1, at, blen, [CrcEdit(m1, at, blen)]);
    Flash.EditsMem(m2, at, blen, [Flash.Put(0, Validated(m2[at]))])
  }

  /** `b.write(i, crc8(b[0] & !VALIDITY_MASK, &b[1..i]))`, `i` being the last index of the
      block. */
  function CrcEdit(m1: seq<bv8>, at: nat, blen: nat): (e: Flash.Edit)
    requires 2 <= blen && at + blen <= |m1|
    ensures Flash.EditAt(e) == blen - 1 && Flash.EditOk(e, blen)
  {
    Flash.Put(blen - 1, Crc8.Crc8(Codec.Unflagged(m1[at]), m1[at + 1 .. at + (blen - 1)]))
  }

  /** The file `write_impl` indexes for a block of the given shape at `at`: tag and data read
      back from flash, right after the header and the length field. */
  function NewFile(mem: seq<bv8>, sid: nat, at: nat, taglen: nat, datalen: nat): (f: File)
    requires at + Codec.BlockLen(taglen, datalen) <= |mem|
    ensures |f.tag| == taglen && |f.data| == datalen && f.tagStart == at + 1 + LenLenOf(datalen)
    ensures HdrPos(f) == at && f.size == Codec.BlockLen(taglen, datalen)
    ensures f.dataStart == f.tagStart + taglen && f.sector == sid
  {
    var tagStart := at + 1 + LenLenOf(datalen);
    var dataStart := tagStart + taglen;
    File(mem[tagStart .. dataStart], tagStart, mem[dataStart .. dataStart + datalen], dataStart,
         sid, Codec.BlockLen(taglen, datalen))
  }

  /** `y` is `x` with at most the bytes `[from, from + len)` of sector `sid` reprogrammed:
      the index, the counters and every other byte are as they were. */
  predicate SameBut(x: Fs, y: Fs, sid: nat, from: nat, len: nat)
    requires sid < |x.mem|
  {
    && y.files == x.files && y.nextBlocks == x.nextBlocks && y.validSizes == x.validSizes
    && y.defrag == x.defrag && y.applet == x.applet
    && |y.mem| == |x.mem|
    && (forall s | 0 <= s < |x.mem| && s != sid :: y.mem[s] == x.mem[s])
    && |y.mem[sid]| == |x.mem[sid]|
    && forall k | 0 <= k < |x.mem[sid]| && !(from <= k < from + len) :: y.mem[sid][k] == x.mem[sid][k]
  }

  /** Two states of one store: the same sectors, of the same lengths, and the same reserved
      sectors. */
  predicate SameShape(x: Fs, y: Fs)
  {
    && |y.mem| == |x.mem| && (forall s | 0 <= s < |x.mem| :: |y.mem[s]| == |x.mem[s]|)
    && y.defrag == x.defrag && y.applet == x.applet
  }

  /** The files of `y` are those of `x` for every tag but `tag`. */
  ghost predicate OthersKept(x: set<File>, y: set<File>, tag: seq<bv8>)
  {
    && (forall g | g in x && g.tag != tag :: g in y)
    && (forall g | g in y && g.tag != tag :: g in x)
  }

  /** `sector.erase()` followed by zeroing the sector's `next_block` and `valid_size`; the
      index is left as it is. */
  function EraseSector(fs: Fs, sid: nat): (r: Fs)
    requires Wf(fs) && sid < |fs.mem|
    ensures Wf(r) && SameShape(fs, r) && r.files == fs.files
    ensures forall k | 0 <= k < |r.mem[sid]| :: r.mem[sid][k] == 0xFF
    ensures forall s | 0 <= s < |fs.mem| && s != sid :: r.mem[s] == fs.mem[s]
    ensures r.nextBlocks == fs.nextBlocks[sid := 0] && r.validSizes == fs.validSizes[sid := 0]
  {
    var r := fs.(mem := fs.mem[sid := FlashLl.Fill(|fs.mem[sid]|)],
                 nextBlocks := fs.nextBlocks[sid := 0], validSizes := fs.validSizes[sid := 0]);
    assert Wf(r) by {
      forall f | f in Files(r) ensures FileInBounds(r.mem, f) && HdrPos(f) < Capacity(r, f.sector) {
        assert FileInBounds(fs.mem, f) && HdrPos(f) < Capacity(fs, f.sector);
      }
      forall i | 0 <= i < |r.mem| ensures r.nextBlocks[i] <= Capacity(r, i) {
        assert fs.nextBlocks[i] <= Capacity(fs, i);
      }
    }
    r
  }

  /** Room for a block of `blen` bytes at `next_block` of sector `sid`. */
  predicate Fits(fs: Fs, sid: nat, blen: nat)
    requires Wf(fs) && sid < |fs.mem|
  {
    fs.nextBlocks[sid] + blen <= Capacity(fs, sid)
  }
}
