/** Start-up (`FileSystem::new` in `src/fs/mod.rs`): every sector but the defragmentation
    sector is walked from its start with `parse_hdr`. A run of zero bytes is skipped; a
    not-valid block is skipped; a valid block is indexed unless a file with its tag was
    already indexed, in which case its header is marked no-longer-valid (a write was cut
    between validating the new copy and invalidating the old one, and the copy met first
    wins); an empty header ends the sector; a torn block has the rest of its sector's live
    bytes zeroed by `erase_invalid_data` and ends the sector. Then a pending
    defragmentation is finished. */
module Scan {
  import opened Wrappers
  import Store
  import Codec
  import Flash
  import FlashLl
  import HashSet
  import Defrag

  // ---------------------------------------------------------------------------------
  // erase_invalid_data

  /** The `end` of `erase_invalid_data`: the length of `zone` without its trailing 0xFF
      bytes. */
  function LiveEnd(zone: seq<bv8>): (end: nat)
    ensures end <= |zone|
    ensures forall k | end <= k < |zone| :: zone[k] == 0xFF
    ensures end == 0 || zone[end - 1] != 0xFF
  {
    if zone == [] || zone[|zone| - 1] != 0xFF then |zone|
    else LiveEnd(zone[..|zone| - 1])
  }

  /** `erase_invalid_data(sector, from)`: a `with_writer` over `[from, len)` whose callback
      zeroes the bytes from `from` up to the last byte that is not 0xFF. Bytes before
      `from` are kept, and the bytes after the zeroed ones were and stay erased. */
  function EraseInvalidData(sector: seq<bv8>, from: nat): (r: seq<bv8>)
    requires from < |sector|
    ensures |r| == |sector|
    ensures forall k | 0 <= k < from :: r[k] == sector[k]
    ensures forall k | from <= k < from + LiveEnd(sector[from..]) :: r[k] == 0
    ensures forall k | from + LiveEnd(sector[from..]) <= k < |sector| :: r[k] == 0xFF && sector[k] == 0xFF
  {
    var end := LiveEnd(sector[from..]);
    var e := Flash.Zero(0, end);
    Flash.OneEdit(sector, from, |sector| - from, e);
    var r := Flash.EditsMem(sector, from, |sector| - from, [e]);
    forall k | from <= k < from + end ensures r[k] == 0 {
      FlashLl.AndFacts(sector[k], 0);
    }
    forall k | from + end <= k < |sector| ensures r[k] == 0xFF && sector[k] == 0xFF {
      assert sector[k] == sector[from..][k - from];
    }
    r
  }

  // ---------------------------------------------------------------------------------
  // The blocks a walk meets

  /** A block met at index `at` of a sector, with its header byte. */
  datatype Found = Found(at: nat, hdr: bv8, block: Codec.Parsed)

  /** The blocks a walk meets on `zone`, the part of a sector from index `at` on, in order:
      zero runs are skipped, and an empty header or a torn block ends the walk. */
  function Walk(zone: seq<bv8>, at: nat): (r: seq<Found>)
    ensures forall i | 0 <= i < |r| :: at <= r[i].at < at + |zone|
    decreases |zone|
  {
    if zone == [] then []
    else
      Codec.ParseHdrOk(zone);
      match Codec.ParseHdr(zone)
      case Err(Erased(n)) => Walk(zone[n..], at + n)
      case Err(_) => []
      case Ok(p) => [Found(at, zone[0], p)] + Walk(zone[p.size..], at + p.size)
  }

  /** The blocks the walk of `new` meets on `sector` from index `at` on. */
  function Blocks(sector: seq<bv8>, at: nat): (r: seq<Found>)
    ensures forall i | 0 <= i < |r| :: at <= r[i].at < |sector|
  {
    if at >= |sector| then [] else Walk(sector[at..], at)
  }

  /** The file a valid block makes: its tag block starts after the header and the length
      field, its data block after the tag. */
  function FileOf(id: nat, x: Found): (f: Store.File)
    ensures f.tag == x.block.tag && f.data == x.block.data && f.sector == id && f.size == x.block.size
  {
    var tagStart := x.at + 1 + Codec.LenLen(x.hdr);
    Store.File(x.block.tag, tagStart, x.block.data, tagStart + |x.block.tag|, id, x.block.size)
  }

  /** Block `i` of a walk is the first valid one of its tag, whose tag the index did not
      hold when the walk began. */
  ghost predicate First(fs: Store.Fs, found: seq<Found>, i: nat)
    requires i < |found|
  {
    && found[i].block.valid
    && !Store.Indexes(fs, found[i].block.tag)
    && forall j | 0 <= j < i :: !(found[j].block.valid && found[j].block.tag == found[i].block.tag)
  }

  // ---------------------------------------------------------------------------------
  // One step of the walk of a sector

  /** Only sector `id` and its counters may differ between `x` and `y`. */
  predicate OnlySector(x: Store.Fs, y: Store.Fs, id: nat)
    requires Store.Wf(x) && Store.Wf(y) && Store.SameShape(x, y)
  {
    forall s | 0 <= s < |x.mem| && s != id ::
      && y.mem[s] == x.mem[s] && y.nextBlocks[s] == x.nextBlocks[s] && y.validSizes[s] == x.validSizes[s]
  }

  /** New counters for sector `id`. */
  function Advance(fs: Store.Fs, id: nat, next: nat, valid: int): (r: Store.Fs)
    requires Store.Wf(fs) && id < |fs.mem| && next <= Store.Capacity(fs, id)
    ensures Store.Wf(r) && Store.SameShape(fs, r) && r.mem == fs.mem && r.files == fs.files
    ensures r.nextBlocks == fs.nextBlocks[id := next] && r.validSizes == fs.validSizes[id := valid]
  {
    var r := fs.(nextBlocks := fs.nextBlocks[id := next], validSizes := fs.validSizes[id := valid]);
    assert Store.Wf(r) by {
      forall f | f in Store.Files(r) ensures Store.FileInBounds(r.mem, f) && Store.HdrPos(f) < Store.Capacity(r, f.sector) {
        assert Store.FileInBounds(fs.mem, f) && Store.HdrPos(f) < Store.Capacity(fs, f.sector);
      }
      forall i | 0 <= i < |r.mem| ensures r.nextBlocks[i] <= Store.Capacity(r, i) {
        assert fs.nextBlocks[i] <= Store.Capacity(fs, i);
      }
    }
    r
  }

  /** A valid block at `next_block`: `files.insert` adds its file unless the index already
      holds its tag, and then its header is programmed with the validity bits cleared
      (`hdr & (VALIDITY_NOLONGER | !VALIDITY_MASK)`) in a one-byte `with_writer`. Either
      way `next_block` and `valid_size` grow by the block's size. */
  function Admit(fs: Store.Fs, id: nat, x: Found): (r: Store.Fs)
    requires Store.Wf(fs) && id < |fs.mem| && id != fs.defrag
    requires x.at < |fs.mem[id]| && x.hdr == fs.mem[id][x.at]
    requires Codec.ParseHdr(fs.mem[id][x.at..]) == Ok(x.block) && x.block.valid
    ensures Store.Wf(r) && Store.SameShape(fs, r)
    ensures r.nextBlocks == fs.nextBlocks[id := x.at + x.block.size]
    ensures r.validSizes == fs.validSizes[id := fs.validSizes[id] + x.block.size]
    ensures !Store.Indexes(fs, x.block.tag) ==>
              Store.Files(r) == Store.Files(fs) + {FileOf(id, x)} && r.mem == fs.mem
    ensures Store.Indexes(fs, x.block.tag) ==>
              && r.files == fs.files
              && r.mem == fs.mem[id := fs.mem[id][x.at := Codec.Invalidated(x.hdr)]]
  {
    BlockBounds(fs.mem[id], x);
    var (files, added) := HashSet.Insert(fs.files, FileOf(id, x), Store.FileKey, Store.FileHash);
    if added then
      Indexed(fs, id, x, files)
    else
      InvalidateCopy(fs, id, x)
  }

  /** A block met at `x.at` fits its sector, and its length field is one byte long only
      when its data is shorter than 256 bytes. */
  lemma BlockBounds(sector: seq<bv8>, x: Found)
    requires x.at < |sector| && x.hdr == sector[x.at] && Codec.ParseHdr(sector[x.at..]) == Ok(x.block)
    ensures 1 + Codec.LenLen(x.hdr) < x.block.size && x.at + x.block.size <= |sector|
    ensures Codec.LenLen(x.hdr) == 1 ==> |x.block.data| <= 0xFF
  {
    var zone := sector[x.at..];
    Codec.ParseHdrOk(zone);
    assert Codec.LenLen(x.hdr) == 1 ==> |x.block.data| == zone[1] as nat;
  }

  /** The index with the file of a valid block met at `x.at` added. */
  function Indexed(fs: Store.Fs, id: nat, x: Found, files: HashSet.HashSet<Store.File>): (r: Store.Fs)
    requires Store.Wf(fs) && id < |fs.mem| && id != fs.defrag
    requires HashSet.Valid(files, Store.FileKey, Store.FileHash)
    requires HashSet.Elements(files) == Store.Files(fs) + {FileOf(id, x)}
    requires 1 + Codec.LenLen(x.hdr) < x.block.size && x.at + x.block.size <= |fs.mem[id]|
    requires Codec.LenLen(x.hdr) == 1 ==> |x.block.data| <= 0xFF
    ensures Store.Wf(r) && Store.SameShape(fs, r) && r.mem == fs.mem && r.files == files
    ensures r.nextBlocks == fs.nextBlocks[id := x.at + x.block.size]
    ensures r.validSizes == fs.validSizes[id := fs.validSizes[id] + x.block.size]
  {
    var f := FileOf(id, x);
    var s := fs.(files := files);
    assert Store.Wf(s) by {
      assert Store.FileInBounds(s.mem, f) && Store.HdrPos(f) < Store.Capacity(s, id);
      forall g | g in Store.Files(s) ensures Store.FileInBounds(s.mem, g) && Store.HdrPos(g) < Store.Capacity(s, g.sector) {
        if g != f {
          assert g in Store.Files(fs);
        }
      }
    }
    Advance(s, id, x.at + x.block.size, fs.validSizes[id] + x.block.size)
  }

  /** A later valid copy of an indexed tag: its header, at `x.at`, is programmed with the
      validity bits cleared, in a one-byte `with_writer`. */
  function InvalidateCopy(fs: Store.Fs, id: nat, x: Found): (r: Store.Fs)
    requires Store.Wf(fs) && id < |fs.mem| && id != fs.defrag
    requires x.at + x.block.size <= |fs.mem[id]| && 0 < x.block.size && x.hdr == fs.mem[id][x.at]
    ensures Store.Wf(r) && Store.SameShape(fs, r) && r.files == fs.files
    ensures r.mem == fs.mem[id := fs.mem[id][x.at := Codec.Invalidated(x.hdr)]]
    ensures r.nextBlocks == fs.nextBlocks[id := x.at + x.block.size]
    ensures r.validSizes == fs.validSizes[id := fs.validSizes[id] + x.block.size]
  {
    var hdr := Codec.Invalidated(x.hdr);
    var m := Flash.EditsMem(fs.mem[id], x.at, 1, [Flash.Put(0, hdr)]);
    Flash.OneEdit(fs.mem[id], x.at, 1, Flash.Put(0, hdr));
    Store.AndInvalidated(x.hdr);
    assert m == fs.mem[id][x.at := hdr];
    Store.WfWithMem(fs, fs.mem[id := m]);
    Advance(fs.(mem := fs.mem[id := m]), id, x.at + x.block.size, fs.validSizes[id] + x.block.size)
  }

  /** A torn block at `next_block`: `erase_invalid_data` from there, and the sector is done.
      As written, the source leaves `next_block` at the torn block, that is at the first of
      the bytes just zeroed (`fixed` false); `fixed` moves it past them, to the first byte
      that is still erased. */
  function Torn(fs: Store.Fs, id: nat, fixed: bool): (r: Store.Fs)
    requires Store.Wf(fs) && id < |fs.mem| && id != fs.defrag
    requires fs.nextBlocks[id] < |fs.mem[id]|
    ensures Store.Wf(r) && Store.SameShape(fs, r)
    ensures r.files == fs.files && r.validSizes == fs.validSizes
    ensures r.mem == fs.mem[id := EraseInvalidData(fs.mem[id], fs.nextBlocks[id])]
    ensures r.nextBlocks
            == fs.nextBlocks[id := fs.nextBlocks[id] + (if fixed then LiveEnd(fs.mem[id][fs.nextBlocks[id]..]) else 0)]
  {
    var nb := fs.nextBlocks[id];
    var m := EraseInvalidData(fs.mem[id], nb);
    Store.WfWithMem(fs, fs.mem[id := m]);
    var next := nb + if fixed then LiveEnd(fs.mem[id][nb..]) else 0;
    Advance(fs.(mem := fs.mem[id := m]), id, next, fs.validSizes[id])
  }

  /** One turn of the loop of `new` over sector `id`, at its `next_block`: the new state,
      and whether the sector is done. */
  function Step(fs: Store.Fs, id: nat, fixed: bool): (r: (Store.Fs, bool))
    requires Store.Wf(fs) && id < |fs.mem| && id != fs.defrag
    requires fs.nextBlocks[id] < |fs.mem[id]|
    ensures Store.Wf(r.0) && Store.SameShape(fs, r.0) && OnlySector(fs, r.0, id)
    ensures r.0.mem[id][..fs.nextBlocks[id]] == fs.mem[id][..fs.nextBlocks[id]]
    ensures Store.Files(fs) <= Store.Files(r.0)
    ensures forall f | f in Store.Files(r.0) && f !in Store.Files(fs) :: f.sector == id
    ensures !r.1 ==> fs.nextBlocks[id] < r.0.nextBlocks[id]
  {
    var nb := fs.nextBlocks[id];
    var zone := fs.mem[id][nb..];
    match Codec.ParseHdr(zone)
    case Err(Empty) => (fs, true)
    case Err(Broken) => (Torn(fs, id, fixed), true)
    case Err(Erased(n)) => (Advance(fs, id, nb + n, fs.validSizes[id]), false)
    case Ok(p) =>
      var x := Found(nb, zone[0], p);
      BlockBounds(fs.mem[id], x);
      if p.valid then (Admit(fs, id, x), false)
      else (Advance(fs, id, nb + p.size, fs.validSizes[id]), false)
  }

  /** The loop of `new` over sector `id`, from its `next_block` until the end of the
      sector, an empty header or a torn block. Only that sector and its counters change,
      not below where the walk starts, and the index only grows, with files of that
      sector. */
  function ScanSector(fs: Store.Fs, id: nat, fixed: bool): (r: Store.Fs)
    requires Store.Wf(fs) && id < |fs.mem| && id != fs.defrag
    ensures Store.Wf(r) && Store.SameShape(fs, r) && OnlySector(fs, r, id)
    ensures r.mem[id][..fs.nextBlocks[id]] == fs.mem[id][..fs.nextBlocks[id]]
    ensures Store.Files(fs) <= Store.Files(r)
    ensures forall f | f in Store.Files(r) && f !in Store.Files(fs) :: f.sector == id
    decreases |fs.mem[id]| - fs.nextBlocks[id]
  {
    if fs.nextBlocks[id] >= |fs.mem[id]| then fs
    else
      var (next, done) := Step(fs, id, fixed);
      if done then next
      else
        var r := ScanSector(next, id, fixed);
        var nb := fs.nextBlocks[id];
        assert r.mem[id][..nb] == r.mem[id][..next.nextBlocks[id]][..nb];
        assert next.mem[id][..nb] == next.mem[id][..next.nextBlocks[id]][..nb];
        r
  }

  // ---------------------------------------------------------------------------------
  // Which copy of a tag the walk keeps

  /** What the walk of sector `id` from `fs` to `r` did with the blocks `found` it met: the
      first valid block of each tag the index did not hold is indexed, every other valid
      block has its header's validity bits cleared, and no other file joined the index. */
  ghost predicate KeptFirst(fs: Store.Fs, r: Store.Fs, id: nat, found: seq<Found>)
    requires id < |fs.mem| && id < |r.mem| && |r.mem[id]| == |fs.mem[id]|
  {
    // Bound to a name, so that the walk's proof passes it on as one fact.
    var kept :=
    && (forall i {:trigger First(fs, found, i)} | 0 <= i < |found| && First(fs, found, i) ::
          FileOf(id, found[i]) in Store.Files(r))
    && (forall i {:trigger First(fs, found, i)} | 0 <= i < |found| && found[i].block.valid && !First(fs, found, i) ::
          found[i].at < |fs.mem[id]| && r.mem[id][found[i].at] == Codec.Invalidated(fs.mem[id][found[i].at]))
    && (forall g | g in Store.Files(r) && g !in Store.Files(fs) ::
          exists i {:trigger First(fs, found, i)} | 0 <= i < |found| :: First(fs, found, i) && g == FileOf(id, found[i]));
    kept
  }

  /** Whether block `i + 1` of a walk is the first of its tag, against the index at the
      start, is whether block `i` of the rest of the walk is, against an index that holds
      a tag exactly when the first index does or the first block is a valid one of it. */
  lemma FirstAfter(fs: Store.Fs, next: Store.Fs, x: Found, rest: seq<Found>, i: nat)
    requires i < |rest|
    requires Store.Indexes(next, rest[i].block.tag)
             <==> Store.Indexes(fs, rest[i].block.tag) || (x.block.valid && x.block.tag == rest[i].block.tag)
    ensures First(fs, [x] + rest, i + 1) == First(next, rest, i)
  {
    var found := [x] + rest;
    var t := rest[i].block.tag;
    assert found[i + 1] == rest[i];
    assert found[0] == x;
    assert (forall j | 0 <= j < i + 1 :: !(found[j].block.valid && found[j].block.tag == t))
           <==> !(x.block.valid && x.block.tag == t)
                && forall j | 0 <= j < i :: !(rest[j].block.valid && rest[j].block.tag == t)
    by {
      assert forall j | 0 <= j < i :: found[j + 1] == rest[j];
    }
  }

  /** A block that is not valid changes nothing in the index or on flash, and the rest of
      the walk is judged against the same index. */
  lemma KeptFirstSkip(fs: Store.Fs, next: Store.Fs, r: Store.Fs, id: nat, x: Found, rest: seq<Found>)
    requires id < |fs.mem| && |next.mem| == |fs.mem| && |r.mem| == |fs.mem|
    requires |next.mem[id]| == |fs.mem[id]| && |r.mem[id]| == |fs.mem[id]|
    requires !x.block.valid && next.files == fs.files && next.mem == fs.mem
    requires KeptFirst(next, r, id, rest)
    ensures KeptFirst(fs, r, id, [x] + rest)
  {
    var found := [x] + rest;
    forall i | 0 < i < |found| ensures First(fs, found, i) == First(next, rest, i - 1) {
      FirstAfter(fs, next, x, rest, i - 1);
    }
    forall g | g in Store.Files(r) && g !in Store.Files(fs)
      ensures exists i | 0 <= i < |found| :: First(fs, found, i) && g == FileOf(id, found[i])
    {
      var i :| 0 <= i < |rest| && First(next, rest, i) && g == FileOf(id, rest[i]);
      assert First(fs, found, i + 1);
    }
    assert forall i | 0 < i < |found| :: found[i] == rest[i - 1];
  }

  /** The first valid block of a tag the index does not hold joins the index; the later
      blocks of that tag are judged against an index that now holds it. */
  lemma KeptFirstAdd(fs: Store.Fs, next: Store.Fs, r: Store.Fs, id: nat, x: Found, rest: seq<Found>)
    requires id < |fs.mem| && |next.mem| == |fs.mem| && |r.mem| == |fs.mem|
    requires |next.mem[id]| == |fs.mem[id]| && |r.mem[id]| == |fs.mem[id]|
    requires x.block.valid && !Store.Indexes(fs, x.block.tag)
    requires Store.Files(next) == Store.Files(fs) + {FileOf(id, x)} && next.mem == fs.mem
    requires Store.Files(next) <= Store.Files(r)
    requires KeptFirst(next, r, id, rest)
    ensures KeptFirst(fs, r, id, [x] + rest)
  {
    var found := [x] + rest;
    assert First(fs, found, 0);
    forall i | 0 < i < |found| ensures First(fs, found, i) == First(next, rest, i - 1) {
      var t := rest[i - 1].block.tag;
      if t == x.block.tag {
        assert Store.Indexes(next, t) by { assert FileOf(id, x) in Store.Files(next); }
      } else {
        assert Store.Indexes(next, t) == Store.Indexes(fs, t) by {
          if Store.Indexes(next, t) {
            var g :| g in Store.Files(next) && g.tag == t;
          }
        }
      }
      FirstAfter(fs, next, x, rest, i - 1);
    }
    forall g | g in Store.Files(r) && g !in Store.Files(fs)
      ensures exists i | 0 <= i < |found| :: First(fs, found, i) && g == FileOf(id, found[i])
    {
      if g != FileOf(id, x) {
        var i :| 0 <= i < |rest| && First(next, rest, i) && g == FileOf(id, rest[i]);
        assert First(fs, found, i + 1);
      }
    }
    assert forall i | 0 < i < |found| :: found[i] == rest[i - 1];
  }

  /** A later valid copy of an indexed tag has its header invalidated, and the index stays
      as it was. */
  lemma KeptFirstDrop(fs: Store.Fs, next: Store.Fs, r: Store.Fs, id: nat, x: Found, rest: seq<Found>)
    requires id < |fs.mem| && |next.mem| == |fs.mem| && |r.mem| == |fs.mem|
    requires |next.mem[id]| == |fs.mem[id]| && |r.mem[id]| == |fs.mem[id]|
    requires x.block.valid && Store.Indexes(fs, x.block.tag)
    requires x.at < |fs.mem[id]| && x.hdr == fs.mem[id][x.at]
    requires next.files == fs.files && next.mem == fs.mem[id := fs.mem[id][x.at := Codec.Invalidated(x.hdr)]]
    requires r.mem[id][x.at] == next.mem[id][x.at]
    requires forall i | 0 <= i < |rest| :: x.at < rest[i].at
    requires KeptFirst(next, r, id, rest)
    ensures KeptFirst(fs, r, id, [x] + rest)
  {
    var found := [x] + rest;
    assert !First(fs, found, 0);
    forall i | 0 < i < |found| ensures First(fs, found, i) == First(next, rest, i - 1) {
      FirstAfter(fs, next, x, rest, i - 1);
    }
    forall i | 0 <= i < |rest| && rest[i].block.valid && !First(next, rest, i)
      ensures rest[i].at < |fs.mem[id]| && r.mem[id][rest[i].at] == Codec.Invalidated(fs.mem[id][rest[i].at])
    {
      assert next.mem[id][rest[i].at] == fs.mem[id][rest[i].at];
    }
    forall g | g in Store.Files(r) && g !in Store.Files(fs)
      ensures exists i | 0 <= i < |found| :: First(fs, found, i) && g == FileOf(id, found[i])
    {
      var i :| 0 <= i < |rest| && First(next, rest, i) && g == FileOf(id, rest[i]);
      assert First(fs, found, i + 1);
    }
    assert forall i | 0 < i < |found| :: found[i] == rest[i - 1];
  }

  /** Two indexes with the same files judge a walk alike. */
  lemma KeptFirstSame(fs: Store.Fs, next: Store.Fs, r: Store.Fs, id: nat, found: seq<Found>, found': seq<Found>)
    requires id < |fs.mem| && |next.mem| == |fs.mem| && |r.mem| == |fs.mem|
    requires |next.mem[id]| == |fs.mem[id]| && |r.mem[id]| == |fs.mem[id]|
    requires next.files == fs.files && next.mem == fs.mem && found == found'
    requires KeptFirst(next, r, id, found')
    ensures KeptFirst(fs, r, id, found)
  {
    forall i | 0 <= i < |found| ensures First(fs, found, i) == First(next, found, i) {
      assert Store.Indexes(fs, found[i].block.tag) == Store.Indexes(next, found[i].block.tag);
    }
  }


  /** A zero run at `nb`: the walk goes on from its end. */
  lemma WalkZeroRun(sector: seq<bv8>, nb: nat, n: nat)
    requires nb < |sector| && Codec.ParseHdr(sector[nb..]) == Err(Codec.Erased(n))
    ensures Blocks(sector, nb) == Blocks(sector, nb + n)
  {
    assert sector[nb..][n..] == sector[nb + n..];
  }

  /** A block at `nb`: the walk meets it and goes on after it. */
  lemma WalkBlock(sector: seq<bv8>, nb: nat, p: Codec.Parsed)
    requires nb < |sector| && Codec.ParseHdr(sector[nb..]) == Ok(p)
    ensures Blocks(sector, nb) == [Found(nb, sector[nb], p)] + Blocks(sector, nb + p.size)
  {
    var zone := sector[nb..];
    WalkOk(zone, nb, p);
    assert zone[p.size..] == sector[nb + p.size..];
  }

  /** The walk meets a block where the header parses, and goes on after it. */
  lemma WalkOk(zone: seq<bv8>, at: nat, p: Codec.Parsed)
    requires Codec.ParseHdr(zone) == Ok(p)
    ensures p.size <= |zone|
    ensures Walk(zone, at) == [Found(at, zone[0], p)] + Walk(zone[p.size..], at + p.size)
  {
    Codec.ParseHdrOk(zone);
  }

  /** `next` is `fs` after the walk met block `x` at index `x.at` of sector `id`:
      `next_block` is past the block, and the index and flash are as `Admit` leaves them
      for a valid block and untouched for another. */
  ghost predicate Passed(fs: Store.Fs, next: Store.Fs, id: nat, x: Found)
    requires Store.Wf(fs) && Store.Wf(next) && id < |fs.mem| && Store.SameShape(fs, next)
  {
    // Bound to a name, so that it is passed on as one fact.
    var passed :=
      && x.at + x.block.size <= |fs.mem[id]| && 0 < x.block.size && x.hdr == fs.mem[id][x.at]
      && next.nextBlocks[id] == x.at + x.block.size
      && (!x.block.valid ==> next.files == fs.files && next.mem == fs.mem)
      && (x.block.valid && !Store.Indexes(fs, x.block.tag) ==>
            Store.Files(next) == Store.Files(fs) + {FileOf(id, x)} && next.mem == fs.mem)
      && (x.block.valid && Store.Indexes(fs, x.block.tag) ==>
            next.files == fs.files && next.mem == fs.mem[id := fs.mem[id][x.at := Codec.Invalidated(x.hdr)]]);
    passed
  }

  /** `next` is `fs` after a step of the walk of sector `id` that did not end it: past a
      zero run, with the same index and flash, or past a block, as `Passed` says, with the
      bytes after the block untouched. */
  ghost predicate Moved(fs: Store.Fs, next: Store.Fs, id: nat)
    requires Store.Wf(fs) && Store.Wf(next) && id < |fs.mem| && Store.SameShape(fs, next)
    requires fs.nextBlocks[id] < |fs.mem[id]|
  {
    var nb := fs.nextBlocks[id];
    var parsed := Codec.ParseHdr(fs.mem[id][nb..]);
    // Bound to a name, so that it is passed on as one fact.
    var moved :=
      && (parsed.Err? ==>
            && parsed.error.Erased? && next.files == fs.files && next.mem == fs.mem
            && next.nextBlocks[id] == nb + parsed.error.size)
      && (parsed.Ok? ==>
            && Passed(fs, next, id, Found(nb, fs.mem[id][nb], parsed.value))
            && next.mem[id][nb + parsed.value.size..] == fs.mem[id][nb + parsed.value.size..]);
    moved
  }

  /** What one step does, case by case: an empty header or a torn block ends the walk with
      the same index, and anything else moves it on. */
  lemma StepCases(fs: Store.Fs, id: nat, fixed: bool)
    requires Store.Wf(fs) && id < |fs.mem| && id != fs.defrag
    requires fs.nextBlocks[id] < |fs.mem[id]|
    ensures var parsed := Codec.ParseHdr(fs.mem[id][fs.nextBlocks[id]..]);
            var (next, done) := Step(fs, id, fixed);
            && (done <==> parsed.Err? && !parsed.error.Erased?)
            && (done ==> next.files == fs.files)
            && (!done ==> Moved(fs, next, id))
  {
    var nb := fs.nextBlocks[id];
    var zone := fs.mem[id][nb..];
    var parsed := Codec.ParseHdr(zone);
    if parsed.Ok? {
      var x := Found(nb, zone[0], parsed.value);
      BlockBounds(fs.mem[id], x);
      if parsed.value.valid {
        var next := Admit(fs, id, x);
        var m := next.mem[id];
        assert m[nb + x.block.size..] == fs.mem[id][nb + x.block.size..] by {
          if Store.Indexes(fs, x.block.tag) {
            assert m == fs.mem[id][nb := Codec.Invalidated(x.hdr)];
          }
        }
      }
    }
  }



  /** A block met at `next_block`: skipped, indexed or invalidated as `Admit` does, and the
      walk goes on after it. */
  lemma KeptFirstBlock(fs: Store.Fs, next: Store.Fs, r: Store.Fs, id: nat, x: Found, rest: seq<Found>, found: seq<Found>)
    requires found == [x] + rest
    requires Store.Wf(fs) && Store.Wf(next) && id < |fs.mem|
    requires Store.SameShape(fs, next) && Store.SameShape(next, r)
    requires Passed(fs, next, id, x)
    requires forall i | 0 <= i < |rest| :: x.at < rest[i].at
    requires r.mem[id][..next.nextBlocks[id]] == next.mem[id][..next.nextBlocks[id]]
    requires Store.Files(next) <= Store.Files(r)
    requires KeptFirst(next, r, id, rest)
    ensures KeptFirst(fs, r, id, found)
  {
    if !x.block.valid {
      KeptFirstSkip(fs, next, r, id, x, rest);
    } else if !Store.Indexes(fs, x.block.tag) {
      KeptFirstAdd(fs, next, r, id, x, rest);
    } else {
      assert r.mem[id][x.at] == next.mem[id][x.at] by {
        assert r.mem[id][x.at] == r.mem[id][..next.nextBlocks[id]][x.at];
      }
      KeptFirstDrop(fs, next, r, id, x, rest);
    }
  }

  /** One step of the walk passes `KeptFirst` back from the state after the step to the
      state before it. */
  lemma StepKeptFirst(fs: Store.Fs, next: Store.Fs, r: Store.Fs, id: nat)
    requires Store.Wf(fs) && Store.Wf(next) && id < |fs.mem| && Store.SameShape(fs, next)
    requires fs.nextBlocks[id] < |fs.mem[id]|
    requires Moved(fs, next, id)
    requires Store.SameShape(next, r)
    requires r.mem[id][..next.nextBlocks[id]] == next.mem[id][..next.nextBlocks[id]]
    requires Store.Files(next) <= Store.Files(r)
    requires KeptFirst(next, r, id, Blocks(next.mem[id], next.nextBlocks[id]))
    ensures KeptFirst(fs, r, id, Blocks(fs.mem[id], fs.nextBlocks[id]))
  {
    if Codec.ParseHdr(fs.mem[id][fs.nextBlocks[id]..]).Err? {
      StepKeptFirstRun(fs, next, r, id);
    } else {
      StepKeptFirstBlock(fs, next, r, id);
    }
  }

  /** `StepKeptFirst` past a zero run. */
  lemma StepKeptFirstRun(fs: Store.Fs, next: Store.Fs, r: Store.Fs, id: nat)
    requires Store.Wf(fs) && Store.Wf(next) && id < |fs.mem| && Store.SameShape(fs, next)
    requires fs.nextBlocks[id] < |fs.mem[id]|
    requires Moved(fs, next, id) && Codec.ParseHdr(fs.mem[id][fs.nextBlocks[id]..]).Err?
    requires Store.SameShape(next, r)
    requires KeptFirst(next, r, id, Blocks(next.mem[id], next.nextBlocks[id]))
    ensures KeptFirst(fs, r, id, Blocks(fs.mem[id], fs.nextBlocks[id]))
  {
    var nb := fs.nextBlocks[id];
    WalkZeroRun(fs.mem[id], nb, Codec.ParseHdr(fs.mem[id][nb..]).error.size);
    KeptFirstSame(fs, next, r, id, Blocks(fs.mem[id], nb), Blocks(next.mem[id], next.nextBlocks[id]));
  }

  /** `StepKeptFirst` past a block. */
  lemma StepKeptFirstBlock(fs: Store.Fs, next: Store.Fs, r: Store.Fs, id: nat)
    requires Store.Wf(fs) && Store.Wf(next) && id < |fs.mem| && Store.SameShape(fs, next)
    requires fs.nextBlocks[id] < |fs.mem[id]|
    requires Moved(fs, next, id) && Codec.ParseHdr(fs.mem[id][fs.nextBlocks[id]..]).Ok?
    requires Store.SameShape(next, r)
    requires r.mem[id][..next.nextBlocks[id]] == next.mem[id][..next.nextBlocks[id]]
    requires Store.Files(next) <= Store.Files(r)
    requires KeptFirst(next, r, id, Blocks(next.mem[id], next.nextBlocks[id]))
    ensures KeptFirst(fs, r, id, Blocks(fs.mem[id], fs.nextBlocks[id]))
  {
    var nb := fs.nextBlocks[id];
    var sector := fs.mem[id];
    var x := Found(nb, sector[nb], Codec.ParseHdr(sector[nb..]).value);
    var rest := Blocks(next.mem[id], next.nextBlocks[id]);
    StepBlocks(fs, next, id);
    KeptFirstBlock(fs, next, r, id, x, rest, Blocks(fs.mem[id], nb));
  }

  /** Past a block, the walk meets that block and then the blocks met from the new
      `next_block` on. */
  lemma StepBlocks(fs: Store.Fs, next: Store.Fs, id: nat)
    requires Store.Wf(fs) && Store.Wf(next) && id < |fs.mem| && Store.SameShape(fs, next)
    requires fs.nextBlocks[id] < |fs.mem[id]|
    requires Moved(fs, next, id) && Codec.ParseHdr(fs.mem[id][fs.nextBlocks[id]..]).Ok?
    ensures var nb := fs.nextBlocks[id];
            Blocks(fs.mem[id], nb)
            == [Found(nb, fs.mem[id][nb], Codec.ParseHdr(fs.mem[id][nb..]).value)]
               + Blocks(next.mem[id], next.nextBlocks[id])
  {
    var nb := fs.nextBlocks[id];
    var sector := fs.mem[id];
    var p := Codec.ParseHdr(sector[nb..]).value;
    var x := Found(nb, sector[nb], p);
    assert Passed(fs, next, id, x);
    assert next.nextBlocks[id] == nb + p.size && nb + p.size <= |sector|;
    assert next.mem[id][nb + p.size..] == sector[nb + p.size..];
    WalkPast(sector, next.mem[id], nb, p);
  }

  /** Past a block, the walk goes on on any sector that agrees with this one from the end
      of the block on. */
  lemma WalkPast(sector: seq<bv8>, other: seq<bv8>, nb: nat, p: Codec.Parsed)
    requires nb < |sector| == |other| && Codec.ParseHdr(sector[nb..]) == Ok(p)
    requires nb + p.size <= |sector| && other[nb + p.size..] == sector[nb + p.size..]
    ensures Blocks(sector, nb) == [Found(nb, sector[nb], p)] + Blocks(other, nb + p.size)
  {
    WalkBlock(sector, nb, p);
    BlocksSuffix(other, sector, nb + p.size);
  }

  /** The blocks met from index `at` on depend on the bytes from `at` on only. */
  lemma BlocksSuffix(a: seq<bv8>, b: seq<bv8>, at: nat)
    requires at <= |a| == |b| && a[at..] == b[at..]
    ensures Blocks(a, at) == Blocks(b, at)
  {
  }

  /** The walk of `new` over a sector, from its `next_block`, keeps in the index the first
      valid block of each tag the index did not hold, clears the validity bits of every
      other valid block it meets, and indexes nothing else: of two valid copies of a tag,
      the one met first wins. */
  lemma {:induction false} ScanKeepsFirst(fs: Store.Fs, id: nat, fixed: bool)
    requires Store.Wf(fs) && id < |fs.mem| && id != fs.defrag
    ensures KeptFirst(fs, ScanSector(fs, id, fixed), id, Blocks(fs.mem[id], fs.nextBlocks[id]))
    decreases |fs.mem[id]| - fs.nextBlocks[id]
  {
    var nb := fs.nextBlocks[id];
    var r := ScanSector(fs, id, fixed);
    if nb < |fs.mem[id]| {
      var (next, done) := Step(fs, id, fixed);
      StepCases(fs, id, fixed);
      if !done {
        ScanKeepsFirst(next, id, fixed);
        assert r == ScanSector(next, id, fixed);
        StepKeptFirst(fs, next, r, id);
      }
    }
  }

  // ---------------------------------------------------------------------------------
  // The walk of all sectors

  /** The loop of `new` over the sectors from `from` on: each sector but the
      defragmentation sector is walked in turn. The sectors before `from` and the
      defragmentation sector keep their bytes and counters, and the index only grows, with
      files of the sectors walked. */
  function ScanFrom(fs: Store.Fs, from: nat, fixed: bool): (r: Store.Fs)
    requires Store.Wf(fs) && from <= |fs.mem|
    ensures Store.Wf(r) && Store.SameShape(fs, r)
    ensures forall s | 0 <= s < |fs.mem| && (s < from || s == fs.defrag) ::
              && r.mem[s] == fs.mem[s] && r.nextBlocks[s] == fs.nextBlocks[s] && r.validSizes[s] == fs.validSizes[s]
    ensures Store.Files(fs) <= Store.Files(r)
    ensures forall f | f in Store.Files(r) && f !in Store.Files(fs) :: from <= f.sector && f.sector != fs.defrag
    decreases |fs.mem| - from
  {
    if from == |fs.mem| then fs
    else if from == fs.defrag then ScanFrom(fs, from + 1, fixed)
    else ScanFrom(ScanSector(fs, from, fixed), from + 1, fixed)
  }

  /** The state `new` starts its walk from: an empty index of `FS_FILES_BUCKETS` buckets,
      and every `next_block` and `valid_size` zero. */
  function Initial(mem: seq<seq<bv8>>, defrag: nat, applet: nat): (r: Store.Fs)
    requires defrag < |mem| && applet < |mem| && |mem[defrag]| > 0
    requires forall i | 0 <= i < |mem| :: |mem[i]| < Codec.USIZE_LIMIT
    ensures Store.Wf(r) && r.mem == mem && r.defrag == defrag && r.applet == applet
    ensures Store.Files(r) == {}
    ensures forall s | 0 <= s < |mem| :: r.nextBlocks[s] == 0 && r.validSizes[s] == 0
  {
    var files := HashSet.New(Store.FS_FILES_BUCKETS, Store.FileKey, Store.FileHash);
    assert HashSet.Elements(files) == {};
    Store.Fs(mem, defrag, applet, files, seq(|mem|, _ => 0), seq(|mem|, _ => 0))
  }

  /** The state after the walk of every sector, before a pending defragmentation is
      finished, with the torn-block step as written (`fixed` false) or corrected: the
      defragmentation sector is not walked, so it keeps its bytes, its counters stay zero
      and no file of it is indexed. */
  function Scanned(mem: seq<seq<bv8>>, defrag: nat, applet: nat, fixed: bool): (r: Store.Fs)
    requires defrag < |mem| && applet < |mem| && |mem[defrag]| > 0
    requires forall i | 0 <= i < |mem| :: |mem[i]| < Codec.USIZE_LIMIT
    ensures Store.Wf(r) && r.defrag == defrag && r.applet == applet
    ensures |r.mem| == |mem| && forall s | 0 <= s < |mem| :: |r.mem[s]| == |mem[s]|
    ensures r.mem[defrag] == mem[defrag] && r.nextBlocks[defrag] == 0 && r.validSizes[defrag] == 0
    ensures forall f | f in Store.Files(r) :: f.sector != defrag
  {
    ScanFrom(Initial(mem, defrag, applet), 0, fixed)
  }

  /** The mark left in the last byte of the defragmentation sector names no sector: it is
      neither 0xFF nor the id of a sector, and `finish_defragmentation` panics when it looks
      the sector up. */
  predicate BadMark(mem: seq<seq<bv8>>, defrag: nat)
    requires defrag < |mem| && |mem[defrag]| > 0
  {
    var mark := mem[defrag][|mem[defrag]| - 1];
    mark != Defrag.NO_MARK && (mark as nat) >= |mem|
  }

  /** `FileSystem::new(flash, sectors, defragsector, appletsector)`, as written: the walk of
      every sector, then `finish_defragmentation`. `None` is the panic on a mark that names
      no sector. Without a pending defragmentation the result is the walked state; with
      one, either it is finished and the defragmentation sector left erased, or it was cut
      by a torn block and its mark stays. An error is the one `finish_defragmentation`
      reports. */
  method New(mem: seq<seq<bv8>>, defrag: nat, applet: nat) returns (r: Option<Result<Store.Fs, Store.Error>>)
    requires defrag < |mem| && applet < |mem| && |mem[defrag]| > 0
    requires forall i | 0 <= i < |mem| :: |mem[i]| < Codec.USIZE_LIMIT
    ensures r.None? <==> BadMark(mem, defrag)
    ensures r.Some? && r.value.Ok? ==>
              Store.Wf(r.value.value) && Store.SameShape(Scanned(mem, defrag, applet, false), r.value.value)
    ensures mem[defrag][|mem[defrag]| - 1] == Defrag.NO_MARK ==> r == Some(Ok(Scanned(mem, defrag, applet, false)))
    ensures r.Some? && r.value.Ok? ==>
              Store.Mark(r.value.value) == Defrag.NO_MARK || Store.Mark(r.value.value) == mem[defrag][|mem[defrag]| - 1]
    ensures (r.Some? && r.value.Ok? && mem[defrag][|mem[defrag]| - 1] != Defrag.NO_MARK
             && mem[defrag][|mem[defrag]| - 1] as nat != defrag
             && Store.Mark(r.value.value) == Defrag.NO_MARK) ==> Defrag.DefragClear(r.value.value)
    ensures r.Some? && r.value.Err? ==> r.value.error == Store.OutOfFlash || r.value.error == Store.InvalidLengthForTag
  {
    var fs := Scanned(mem, defrag, applet, false);
    assert Store.Mark(fs) == mem[defrag][|mem[defrag]| - 1];
    if BadMark(mem, defrag) {
      return None;
    }
    var fs', res := Defrag.FinishDefragmentation(fs);
    if res.Err? {
      return Some(Err(res.error));
    }
    return Some(Ok(fs'));
  }

  // ---------------------------------------------------------------------------------
  // A torn block at the end of a sector

  /** As written, after a torn block `next_block` stays where the block began, and the byte
      there has just been zeroed: the room `write` takes from `next_block` on is not
      erased, so whatever it programs there reads back as zeros. */
  lemma TornBlockAsWritten(fs: Store.Fs, id: nat)
    requires Store.Wf(fs) && id < |fs.mem| && id != fs.defrag
    requires fs.nextBlocks[id] < |fs.mem[id]|
    requires Codec.ParseHdr(fs.mem[id][fs.nextBlocks[id]..]) == Err(Codec.Broken)
    ensures var (r, done) := Step(fs, id, false);
            && done && r.nextBlocks[id] == fs.nextBlocks[id]
            && r.mem[id][r.nextBlocks[id]] == 0
  {
    var zone := fs.mem[id][fs.nextBlocks[id]..];
    Codec.ParseHdrOk(zone);
    assert zone[0] != 0xFF;
  }

  /** A torn block: a header for a one-byte tag with a one-byte length field, not yet
      valid, a length of 6, the tag and two bytes of data, and then erased bytes, where
      the block would need ten bytes in an eight-byte sector. */
  const TORN_SECTOR: seq<bv8> := [0xC2, 0x06, 0x41, 0x42, 0x43, 0xFF, 0xFF, 0xFF]

  /** The torn block is found torn: its length field asks for more bytes than the sector
      holds after it. */
  lemma TornSectorBroken()
    ensures Codec.ParseHdr(TORN_SECTOR) == Err(Codec.Broken)
  {
    assert Codec.LenLen(TORN_SECTOR[0]) == 1 && Codec.TagLen(TORN_SECTOR[0]) == 1;
    assert Codec.DecodeLength(TORN_SECTOR[1..2]) == 6;
  }

  /** On a store whose sector 0 holds the torn block, the walk as written leaves
      `next_block` at 0, on a zero byte; a header programmed there reads back as a zero
      run, and not as the block written. */
  lemma TornBlockExample(hdr: bv8)
    ensures var fs := Initial([TORN_SECTOR, [0xFF]], 1, 0);
            var (r, done) := Step(fs, 0, false);
            var back := Codec.ParseHdr([FlashLl.And(r.mem[0][0], hdr)] + r.mem[0][1..]);
            done && r.nextBlocks[0] == 0 && back.Err? && back.error.Erased?
  {
    var fs := Initial([TORN_SECTOR, [0xFF]], 1, 0);
    assert fs.mem[0][fs.nextBlocks[0]..] == TORN_SECTOR;
    TornSectorBroken();
    TornBlockAsWritten(fs, 0);
    var r := Step(fs, 0, false).0;
    FlashLl.AndFacts(r.mem[0][0], hdr);
  }

  /** The same store through the whole walk of `new`: as written, sector 0 ends with
      `next_block` at 0, on a byte just zeroed; with the corrected step, at 5, where the
      erased room begins. */
  lemma ScannedTornExample()
    ensures var r := Scanned([TORN_SECTOR, [0xFF]], 1, 0, false);
            r.nextBlocks[0] == 0 && r.mem[0][0] == 0
    ensures Scanned([TORN_SECTOR, [0xFF]], 1, 0, true).nextBlocks[0] == 5
  {
    var fs := Initial([TORN_SECTOR, [0xFF]], 1, 0);
    assert fs.mem[0][fs.nextBlocks[0]..] == TORN_SECTOR;
    TornSectorBroken();
    TornBlockAsWritten(fs, 0);
    var w := ScanSector(fs, 0, false);
    assert ScanFrom(w, 1, false) == ScanFrom(w, 2, false) == w;
    assert LiveEnd(TORN_SECTOR) == 5 by {
      assert TORN_SECTOR[4] != 0xFF && TORN_SECTOR[5] == 0xFF;
    }
    var c := ScanSector(fs, 0, true);
    assert ScanFrom(c, 1, true) == ScanFrom(c, 2, true) == c;
  }

  /** With `next_block` moved past the zeroed bytes, the room after it is erased again,
      up to the end of the sector, so `write` can use it. */
  lemma TornBlockResumes(fs: Store.Fs, id: nat)
    requires Store.Wf(fs) && id < |fs.mem| && id != fs.defrag
    requires fs.nextBlocks[id] < |fs.mem[id]|
    requires Codec.ParseHdr(fs.mem[id][fs.nextBlocks[id]..]) == Err(Codec.Broken)
    ensures var (r, done) := Step(fs, id, true);
            && done && fs.nextBlocks[id] < r.nextBlocks[id]
            && (forall k | fs.nextBlocks[id] <= k < r.nextBlocks[id] :: r.mem[id][k] == 0)
            && (forall k | r.nextBlocks[id] <= k < |r.mem[id]| :: r.mem[id][k] == 0xFF)
  {
    var zone := fs.mem[id][fs.nextBlocks[id]..];
    Codec.ParseHdrOk(zone);
    assert zone[0] != 0xFF;
    assert LiveEnd(zone) > 0;
  }

}
