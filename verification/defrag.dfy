/** Defragmentation (`src/fs/mod.rs`): the last byte of the defragmentation sector names the
    sector being defragmented, 0xFF meaning none. `finish_defragmentation` copies the valid
    blocks of that sector to the defragmentation sector with `write_impl`, erases the sector,
    copies the valid blocks of the defragmentation sector back, and erases the
    defragmentation sector, which clears the mark; `defragment` sets the mark and then does
    the same. */
module Defrag {
  import opened Wrappers
  import Store
  import Codec
  import Flash
  import FlashLl
  import FileSystem
  import Consistency
  import Bytes

  /** The mark means "no defragmentation running". */
  const NO_MARK: bv8 := 0xFF

  /** A mark `finish_defragmentation` can act on: none, or the id of a sector of the store
      (the source indexes its table of sectors with it, and panics on any other id). */
  predicate MarkOk(fs: Store.Fs)
    requires Store.Wf(fs)
  {
    Store.Mark(fs) == NO_MARK || (Store.Mark(fs) as nat) < |fs.mem|
  }

  /** The defragmentation sector is erased and its counters are zero. */
  predicate DefragClear(fs: Store.Fs)
    requires Store.Wf(fs)
  {
    && (forall k | 0 <= k < |fs.mem[fs.defrag]| :: fs.mem[fs.defrag][k] == 0xFF)
    && fs.nextBlocks[fs.defrag] == 0 && fs.validSizes[fs.defrag] == 0
  }

  /** How a copy loop ends: at the end of its zone or at an empty header, or at a torn block,
      upon which `finish_defragmentation` gives up and reports success. */
  datatype CopyEnd = Finished | Torn

  /** `write_impl` of a single slice writes that slice. */
  lemma ConcatOne(data: seq<bv8>)
    ensures Store.Concat([data]) == data
  {
    assert [data][1..] == [];
  }

  /** One copy loop of `finish_defragmentation`: walk the blocks of sector `from` below
      `limit` with `parse_hdr`, and write every valid one to sector `to` with `write_impl`;
      stop at an empty header, at a torn block, or at the first error of `write_impl`. Only
      `write_impl` changes the store, so the store keeps its shape and its mark, and stays
      consistent when it was. */
  method CopyBlocks(fs: Store.Fs, from: nat, limit: nat, to: nat)
      returns (fs': Store.Fs, r: Result<CopyEnd, Store.Error>)
    requires Store.Wf(fs) && from < |fs.mem| && to < |fs.mem| && limit <= |fs.mem[from]|
    ensures Store.Wf(fs') && Store.SameShape(fs, fs')
    ensures Store.Mark(fs') == Store.Mark(fs)
    ensures Consistency.Consistent(fs) ==> Consistency.Consistent(fs')
    ensures r.Err? ==> r.error == Store.OutOfFlash || r.error == Store.InvalidLengthForTag
  {
    fs' := fs;
    var ptr := 0;
    while ptr < limit
      invariant Store.Wf(fs') && Store.SameShape(fs, fs') && ptr <= limit
      invariant Store.Mark(fs') == Store.Mark(fs)
      invariant Consistency.Consistent(fs) ==> Consistency.Consistent(fs')
      decreases limit - ptr
    {
      var zone := fs'.mem[from][ptr..limit];
      var parsed := Codec.ParseHdr(zone);
      Codec.ParseHdrOk(zone);
      match parsed
      case Err(Empty) =>
        return fs', Ok(Finished);
      case Err(Broken) =>
        return fs', Ok(Torn);
      case Err(Erased(size)) =>
        ptr := ptr + size;
      case Ok(block) =>
        if block.valid {
          ConcatOne(block.data);
          var w;
          fs', w := FileSystem.WriteImpl(fs', block.tag, [block.data], to);
          if w.Err? {
            return fs', Err(w.error);
          }
        }
        ptr := ptr + block.size;
    }
    r := Ok(Finished);
  }

  /** `finish_defragmentation()`: nothing when the mark is 0xFF. Otherwise copy the valid
      blocks of the marked sector out, erase it and zero its counters, copy the valid blocks
      of the defragmentation sector (its last byte excluded) back, then erase the
      defragmentation sector and zero its counters. A torn block makes it stop there and
      report success; a failing `write_impl` makes it stop and report the error. Writing
      blocks never touches the mark, so it is cleared only by the last erase: when the mark
      is cleared, the whole defragmentation is done. */
  method FinishDefragmentation(fs: Store.Fs) returns (fs': Store.Fs, r: Result<(), Store.Error>)
    requires Store.Wf(fs) && MarkOk(fs)
    ensures Store.Wf(fs') && Store.SameShape(fs, fs')
    ensures Store.Mark(fs) == NO_MARK ==> fs' == fs && r.Ok?
    ensures Store.Mark(fs') == NO_MARK || Store.Mark(fs') == Store.Mark(fs)
    ensures Store.Mark(fs) != NO_MARK && Store.Mark(fs) as nat != fs.defrag && Store.Mark(fs') == NO_MARK ==>
              DefragClear(fs') && r.Ok?
    ensures r.Err? ==> r.error == Store.OutOfFlash || r.error == Store.InvalidLengthForTag
  {
    var mark := Store.Mark(fs);
    if mark == NO_MARK {
      return fs, Ok(());
    }
    var sid := mark as nat;
    var end;
    fs', end := CopyBlocks(fs, sid, |fs.mem[sid]|, fs.defrag);
    if end.Err? {
      return fs', Err(end.error);
    }
    if end.value == Torn {
      return fs', Ok(());
    }
    fs' := Store.EraseSector(fs', sid);
    fs', end := CopyBlocks(fs', fs.defrag, |fs.mem[fs.defrag]| - 1, sid);
    if end.Err? {
      return fs', Err(end.error);
    }
    if end.value == Torn {
      return fs', Ok(());
    }
    fs' := Store.EraseSector(fs', fs.defrag);
    r := Ok(());
  }

  /** A programmed byte is 0xFF only if both bytes were, and is otherwise no larger than
      the byte written. */
  lemma AndBelow(prev: bv8, val: bv8)
    ensures FlashLl.And(prev, val) == 0xFF || FlashLl.And(prev, val) as nat <= val as nat
  {
    assert FlashLl.And(prev, val) <= val;
  }

  /** The `with_writer` of `defragment`: the mark is programmed with the sector id as a
      byte (`sector_id.0 as u8`, which keeps the low 8 bits). Nothing else changes, and the
      mark names the sector, a sector of lower id when the id is wider than a byte, or none. */
  function SetMark(fs: Store.Fs, sid: nat): (r: Store.Fs)
    requires Store.Wf(fs) && sid < |fs.mem|
    ensures Store.Wf(r) && Store.SameShape(fs, r) && MarkOk(r)
    ensures r.files == fs.files && r.nextBlocks == fs.nextBlocks && r.validSizes == fs.validSizes
    ensures Store.Mark(r) == FlashLl.And(Store.Mark(fs), Bytes.ToByte(sid % 256))
    ensures forall s | 0 <= s < |fs.mem| && s != fs.defrag :: r.mem[s] == fs.mem[s]
    ensures forall k | 0 <= k < |fs.mem[fs.defrag]| - 1 :: r.mem[fs.defrag][k] == fs.mem[fs.defrag][k]
  {
    var d := fs.defrag;
    var at := |fs.mem[d]| - 1;
    var id := Bytes.ToByte(sid % 256);
    Bytes.ToByteValue(sid % 256);
    var m := Flash.EditsMem(fs.mem[d], at, 1, [Flash.Put(0, id)]);
    Flash.OneEdit(fs.mem[d], at, 1, Flash.Put(0, id));
    Store.WfWithMem(fs, fs.mem[d := m]);
    AndBelow(Store.Mark(fs), id);
    fs.(mem := fs.mem[d := m])
  }

  /** `defragment(sector_id)`: set the mark, then `finish_defragmentation`. Started with no
      defragmentation pending, on a sector other than the defragmentation sector whose id
      fits a byte other than 0xFF, it either completes (the mark is cleared and the
      defragmentation sector is clear) or leaves the mark naming the sector, so that the
      next start-up resumes it. */
  method Defragment(fs: Store.Fs, sid: nat) returns (fs': Store.Fs, r: Result<(), Store.Error>)
    requires Store.Wf(fs) && sid < |fs.mem|
    ensures Store.Wf(fs') && Store.SameShape(fs, fs')
    ensures Store.Mark(fs') == NO_MARK || Store.Mark(fs') == FlashLl.And(Store.Mark(fs), Bytes.ToByte(sid % 256))
    ensures Store.Mark(fs) == NO_MARK && sid < 0xFF && sid != fs.defrag ==>
              || (Store.Mark(fs') == NO_MARK && DefragClear(fs') && r.Ok?)
              || Store.Mark(fs') == Bytes.ToByte(sid)
    ensures r.Err? ==> r.error == Store.OutOfFlash || r.error == Store.InvalidLengthForTag
  {
    var marked := SetMark(fs, sid);
    FlashLl.AndFacts(Store.Mark(fs), Bytes.ToByte(sid % 256));
    Bytes.ToByteValue(sid % 256);
    fs', r := FinishDefragmentation(marked);
  }
}
