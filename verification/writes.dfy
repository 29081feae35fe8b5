/** The public writing operations of a `FileSystem` (`src/fs/mod.rs`): `write`, which looks
    for a sector with room for the block and defragments sectors until one has some;
    `write_applet`, which writes to the applet sector, defragmenting it once if needed; and
    `edit_at`, which rewrites part of a file's data, in place when its sector has room and
    through the defragmentation sector otherwise. */
module Writes {
  import opened Wrappers
  import Store
  import Codec
  import HashSet
  import Consistency
  import FileSystem
  import Defrag
  import DefragOrder

  /** `write(tag, data)`: write to the first sector `available_sector` gives. When there is
      none, defragment the sectors of `DefragOrder.Order` from the last one back, asking
      `available_sector` again after each, until one is found; fail with `OutOfFlash` when
      none is. The block is then written with `write_impl`. When a sector was available from
      the start, nothing is defragmented: the call succeeds exactly when the tag has a valid
      length, and on a consistent store the tag then reads back the data and every other
      tag reads as before. */
  method Write(fs: Store.Fs, tag: seq<bv8>, data: seq<bv8>) returns (fs': Store.Fs, r: Result<(), Store.Error>)
    requires Store.Wf(fs) && |data| < Codec.USIZE_LIMIT
    ensures Store.Wf(fs') && Store.SameShape(fs, fs')
    ensures r.Err? ==> r.error == Store.OutOfFlash || r.error == Store.InvalidLengthForTag
    ensures r.Ok? ==> Codec.ValidTagLen(|tag|)
    ensures Store.AvailableSector(fs, Codec.BlockLen(|tag|, |data|), tag).Ok? ==>
              && (r.Ok? <==> Codec.ValidTagLen(|tag|))
              && (r.Err? ==> fs' == fs)
              && (r.Ok? && Consistency.Consistent(fs) ==>
                    && Consistency.Consistent(fs') && Store.Lookup(fs', tag) == Ok(data)
                    && Store.OthersKept(Store.Files(fs), Store.Files(fs'), tag))
    ensures && Store.AvailableSector(fs, Codec.BlockLen(|tag|, |data|), tag).Err?
            && (forall s | 0 <= s < |fs.mem| :: !DefragOrder.ToDefragment(fs, s)) ==>
              fs' == fs && r == Err(Store.OutOfFlash)
  {
    var size := Codec.BlockLen(|tag|, |data|);
    var sector := Store.AvailableSector(fs, size, tag);
    fs' := fs;
    if sector.Err? {
      fs', sector := DefragmentUntilAvailable(fs, size, tag);
      if sector.Err? {
        return fs', Err(sector.error);
      }
    }
    Defrag.ConcatOne(data);
    fs', r := FileSystem.WriteImpl(fs', tag, [data], sector.value);
  }

  /** The loop of `write`: defragment the sectors of `DefragOrder.Order` from the last one
      back, and stop at the first after which `available_sector` finds a sector, or at the
      first error of `defragment`. With no sector to defragment, nothing changes. */
  method DefragmentUntilAvailable(fs: Store.Fs, size: nat, tag: seq<bv8>)
      returns (fs': Store.Fs, sector: Result<nat, Store.Error>)
    requires Store.Wf(fs)
    ensures Store.Wf(fs') && Store.SameShape(fs, fs')
    ensures sector.Err? ==> sector.error == Store.OutOfFlash || sector.error == Store.InvalidLengthForTag
    ensures sector.Ok? ==> sector == Store.AvailableSector(fs', size, tag)
    ensures (forall s | 0 <= s < |fs.mem| :: !DefragOrder.ToDefragment(fs, s)) ==>
              fs' == fs && sector == Store.AvailableSector(fs, size, tag)
  {
    var order := DefragOrder.Order(fs);
    assert (forall s | 0 <= s < |fs.mem| :: !DefragOrder.ToDefragment(fs, s)) ==> order == [] by {
      if order != [] {
        assert DefragOrder.ToDefragment(fs, order[0]);
      }
    }
    fs' := fs;
    sector := Store.AvailableSector(fs, size, tag);
    var i := |order|;
    while i > 0
      invariant 0 <= i <= |order|
      invariant Store.Wf(fs') && Store.SameShape(fs, fs')
      invariant sector == Store.AvailableSector(fs', size, tag)
      invariant i == |order| ==> fs' == fs
      decreases i
    {
      i := i - 1;
      var d;
      fs', d := Defrag.Defragment(fs', order[i]);
      if d.Err? {
        return fs', Err(d.error);
      }
      sector := Store.AvailableSector(fs', size, tag);
      if sector.Ok? {
        break;
      }
    }
  }

  /** `write_applet(tag, data)`: write to the applet sector when `is_available` says it has
      room; otherwise defragment it and ask again, failing with `OutOfFlash` when it still
      has none. When it had room from the start, the call is `write_impl` on it. */
  method WriteApplet(fs: Store.Fs, tag: seq<bv8>, data: seq<bv8>) returns (fs': Store.Fs, r: Result<(), Store.Error>)
    requires Store.Wf(fs) && |data| < Codec.USIZE_LIMIT
    ensures Store.Wf(fs') && Store.SameShape(fs, fs')
    ensures r.Err? ==> r.error == Store.OutOfFlash || r.error == Store.InvalidLengthForTag
    ensures r.Ok? ==> Codec.ValidTagLen(|tag|)
    ensures Store.IsAvailable(fs, fs.applet, Codec.BlockLen(|tag|, |data|), tag) ==>
              && (r.Ok? <==> Codec.ValidTagLen(|tag|) && Store.Fits(fs, fs.applet, Codec.BlockLen(|tag|, |data|)))
              && (r.Err? ==> fs' == fs)
              && (r.Ok? && Consistency.Consistent(fs) ==>
                    && Consistency.Consistent(fs') && Store.Lookup(fs', tag) == Ok(data)
                    && Store.OthersKept(Store.Files(fs), Store.Files(fs'), tag))
  {
    var size := Codec.BlockLen(|tag|, |data|);
    Defrag.ConcatOne(data);
    if Store.IsAvailable(fs, fs.applet, size, tag) {
      fs', r := FileSystem.WriteImpl(fs, tag, [data], fs.applet);
    } else {
      var d;
      fs', d := Defrag.Defragment(fs, fs.applet);
      if d.Err? {
        return fs', Err(d.error);
      }
      if Store.IsAvailable(fs', fs.applet, size, tag) {
        fs', r := FileSystem.WriteImpl(fs', tag, [data], fs.applet);
      } else {
        r := Err(Store.OutOfFlash);
      }
    }
  }

  // ---------------------------------------------------------------------------------
  // edit_at

  /** The slices `edit_at` hands to `write_impl`: the data before the edit, the new bytes,
      and the data after them. */
  function EditPieces(prev: seq<bv8>, off: nat, data: seq<bv8>): (r: seq<seq<bv8>>)
    requires off + |data| <= |prev|
  {
    [prev[..off], data, prev[off + |data|..]]
  }

  /** Three slices written one after the other. */
  lemma ConcatThree(a: seq<bv8>, b: seq<bv8>, c: seq<bv8>)
    ensures Store.Concat([a, b, c]) == a + b + c
  {
    assert [a, b, c] == [a] + [b, c] && [b, c] == [b] + [c] && [c] == [c] + [];
    Store.ConcatCons(a, [b, c]);
    Store.ConcatCons(b, [c]);
    Store.ConcatCons(c, []);
  }

  /** The data of a file after `edit_at(tag, off, data)`: as long as before, with `data` at
      `off` and every other byte as it was. */
  function Edited(prev: seq<bv8>, off: nat, data: seq<bv8>): (r: seq<bv8>)
    requires off + |data| <= |prev|
    ensures |r| == |prev| && r[off .. off + |data|] == data
    ensures forall k | 0 <= k < |prev| && !(off <= k < off + |data|) :: r[k] == prev[k]
  {
    ConcatThree(prev[..off], data, prev[off + |data|..]);
    Store.Concat(EditPieces(prev, off, data))
  }

  /** `is_available` for a block as long as the file's on the file's own sector, once the
      file has left the index: the block it replaces is no longer counted as replaced. */
  predicate RoomInPlace(fs: Store.Fs, f: Store.File, blen: nat)
    requires Store.Wf(fs) && f.sector < |fs.mem|
  {
    && fs.nextBlocks[f.sector] + blen <= |fs.mem[f.sector]|
    && fs.validSizes[f.sector] + blen <= |fs.mem[fs.defrag]| - 1
  }

  /** The state once `edit_at` has taken the file `cur` out of the index. */
  ghost predicate TakenOut(fs: Store.Fs, rest: Store.Fs, cur: Store.File)
  {
    && Store.Wf(fs) && cur in Store.Files(fs) && Store.Wf(rest)
    && rest.mem == fs.mem && rest.nextBlocks == fs.nextBlocks && rest.validSizes == fs.validSizes
    && rest.defrag == fs.defrag && rest.applet == fs.applet
    && Store.Files(rest) == Store.Files(fs) - {cur} && !Store.Indexes(rest, cur.tag)
  }

  /** `edit_at(tag, offset, data)`: take the file out of the index (`NoSuchTag` if there is
      none), write a block with the edited data with `write_impl`, on the file's own sector
      when `is_available` says it has room and on the defragmentation sector otherwise,
      invalidate the old block with `erase_file`, and in the second case defragment the
      file's sector. The source slices the data at `offset` and `offset + data.len()` and
      panics when these are past its end; here they are required in range.

      When the tag length is invalid or the new block does not fit, the file has already
      left the index: it no longer reads, though its block is still valid on flash. In
      place, on a consistent store, the call succeeds when the block fits, the tag then
      reads back the edited data and every other tag reads as before. */
  method EditAt(fs: Store.Fs, tag: seq<bv8>, off: nat, data: seq<bv8>) returns (fs': Store.Fs, r: Result<(), Store.Error>)
    requires Store.Wf(fs)
    requires forall f | f in Store.Files(fs) && f.tag == tag :: off + |data| <= |f.data| < Codec.USIZE_LIMIT
    ensures Store.Wf(fs') && Store.SameShape(fs, fs')
    ensures r.Err? ==> r.error == Store.NoSuchTag || r.error == Store.OutOfFlash || r.error == Store.InvalidLengthForTag
    ensures !Store.Indexes(fs, tag) ==> r == Err(Store.NoSuchTag) && fs' == fs
    ensures forall f | f in Store.Files(fs) && f.tag == tag ::
              && (!Codec.ValidTagLen(|tag|) ==>
                    r == Err(Store.InvalidLengthForTag) && fs'.mem == fs.mem && Store.Files(fs') == Store.Files(fs) - {f})
              && (RoomInPlace(fs, f, Codec.BlockLen(|tag|, |f.data|)) && Codec.ValidTagLen(|tag|) ==>
                    InPlace(fs, fs', r, f, off, data))
              && (!RoomInPlace(fs, f, Codec.BlockLen(|tag|, |f.data|)) && Codec.ValidTagLen(|tag|)
                  && !Store.Fits(fs, fs.defrag, Codec.BlockLen(|tag|, |f.data|)) ==>
                    r == Err(Store.OutOfFlash) && fs'.mem == fs.mem && Store.Files(fs') == Store.Files(fs) - {f})
  {
    var (files', taken) := HashSet.Take(fs.files, tag, Store.FileKey, Store.FileHash);
    if taken.None? {
      return fs, Err(Store.NoSuchTag);
    }
    var cur := taken.value;
    Store.OnlyFileWithTag(fs, cur);
    var rest := fs.(files := files');
    assert TakenOut(fs, rest, cur);
    if Store.IsAvailable(rest, cur.sector, Codec.BlockLen(|tag|, |cur.data|), tag) {
      fs', r := EditInPlace(fs, rest, cur, off, data);
    } else {
      fs', r := EditThroughDefrag(fs, rest, cur, off, data);
    }
  }

  /** What the in-place case of `edit_at` gives for the file `f`: success exactly when the
      new block fits on the file's sector; on failure the file has left the index and the
      flash is as it was; on success the valid size of the sector trades the old block's size
      for the new one's, and a consistent store stays consistent, with the edited data under
      the tag and every other tag as before. */
  ghost predicate InPlace(fs: Store.Fs, fs': Store.Fs, r: Result<(), Store.Error>, f: Store.File, off: nat, data: seq<bv8>)
    requires Store.Wf(fs) && f in Store.Files(fs) && off + |data| <= |f.data|
  {
    var blen := Codec.BlockLen(|f.tag|, |f.data|);
    && (r.Ok? <==> Store.Fits(fs, f.sector, blen))
    && (r.Err? ==> r == Err(Store.OutOfFlash) && fs'.mem == fs.mem && Store.Files(fs') == Store.Files(fs) - {f})
    && (r.Ok? ==> fs'.validSizes == fs.validSizes[f.sector := fs.validSizes[f.sector] - f.size + blen])
    && (r.Ok? && Consistency.Consistent(fs) ==>
          && Consistency.Consistent(fs') && Store.Lookup(fs', f.tag) == Ok(Edited(f.data, off, data))
          && Store.OthersKept(Store.Files(fs), Store.Files(fs'), f.tag))
  }

  /** The first branch of `edit_at`: `write_impl` of the edited data on the file's own
      sector, then `erase_file` of the old block. */
  method EditInPlace(fs: Store.Fs, rest: Store.Fs, cur: Store.File, off: nat, data: seq<bv8>)
      returns (fs': Store.Fs, r: Result<(), Store.Error>)
    requires TakenOut(fs, rest, cur) && off + |data| <= |cur.data| < Codec.USIZE_LIMIT
    ensures Store.Wf(fs') && Store.SameShape(fs, fs')
    ensures !Codec.ValidTagLen(|cur.tag|) ==>
              r == Err(Store.InvalidLengthForTag) && fs'.mem == fs.mem && Store.Files(fs') == Store.Files(fs) - {cur}
    ensures r.Err? ==> r.error == Store.OutOfFlash || r.error == Store.InvalidLengthForTag
    ensures RoomInPlace(fs, cur, Codec.BlockLen(|cur.tag|, |cur.data|)) && Codec.ValidTagLen(|cur.tag|) ==>
              InPlace(fs, fs', r, cur, off, data)
  {
    var tag := cur.tag;
    var blen := Codec.BlockLen(|tag|, |cur.data|);
    var pieces := EditPieces(cur.data, off, data);
    assert Store.Concat(pieces) == Edited(cur.data, off, data);
    fs', r := FileSystem.WriteImpl(rest, tag, pieces, cur.sector);
    if r.Err? {
      return;
    }
    var written := fs';
    assert Store.FileInBounds(written.mem, cur);
    fs' := Store.EraseFile(fs', cur);
    EditedSizes(fs, rest, written, fs', cur);
    EditedInPlace(fs, rest, written, fs', cur, off, data);
  }

  /** The second branch of `edit_at`: `write_impl` of the edited data on the
      defragmentation sector, `erase_file` of the old block, then `defragment` of the file's
      sector. */
  method EditThroughDefrag(fs: Store.Fs, rest: Store.Fs, cur: Store.File, off: nat, data: seq<bv8>)
      returns (fs': Store.Fs, r: Result<(), Store.Error>)
    requires TakenOut(fs, rest, cur) && off + |data| <= |cur.data| < Codec.USIZE_LIMIT
    ensures Store.Wf(fs') && Store.SameShape(fs, fs')
    ensures r.Err? ==> r.error == Store.OutOfFlash || r.error == Store.InvalidLengthForTag
    ensures !Codec.ValidTagLen(|cur.tag|) || !Store.Fits(fs, fs.defrag, Codec.BlockLen(|cur.tag|, |cur.data|)) ==>
              && r == (if Codec.ValidTagLen(|cur.tag|) then Err(Store.OutOfFlash) else Err(Store.InvalidLengthForTag))
              && fs'.mem == fs.mem && Store.Files(fs') == Store.Files(fs) - {cur}
  {
    var tag := cur.tag;
    var pieces := EditPieces(cur.data, off, data);
    assert Store.Concat(pieces) == Edited(cur.data, off, data);
    fs', r := FileSystem.WriteImpl(rest, tag, pieces, fs.defrag);
    if r.Err? {
      return;
    }
    assert Store.FileInBounds(fs'.mem, cur);
    fs' := Store.EraseFile(fs', cur);
    fs', r := Defrag.Defragment(fs', cur.sector);
  }

  /** The in-place case of `edit_at`: writing the edited block on the file's sector then
      invalidating the old one adds the block's size to the sector's valid size and takes
      the old one's off. */
  lemma EditedSizes(fs: Store.Fs, rest: Store.Fs, written: Store.Fs, r: Store.Fs, cur: Store.File)
    requires TakenOut(fs, rest, cur)
    requires Store.Wf(written) && Store.SameShape(rest, written)
    requires forall s | 0 <= s < |rest.mem| ::
               written.validSizes[s]
               == rest.validSizes[s] - Store.SizeOn(Store.Files(rest), s, cur.tag)
                  + if s == cur.sector then Codec.BlockLen(|cur.tag|, |cur.data|) else 0
    requires Store.FileInBounds(written.mem, cur) && Store.Invalidates(written, cur, r)
    ensures r.validSizes == fs.validSizes[cur.sector := fs.validSizes[cur.sector] - cur.size + Codec.BlockLen(|cur.tag|, |cur.data|)]
  {
    assert forall s :: Store.SizeOn(Store.Files(rest), s, cur.tag) == 0;
  }

  /** The in-place case of `edit_at` keeps a consistent store consistent, with the edited
      data under the tag: the new block lies past the old one, which no other indexed file
      overlaps, so invalidating the old block leaves every indexed block as it was. */
  lemma EditedInPlace(fs: Store.Fs, rest: Store.Fs, written: Store.Fs, r: Store.Fs, cur: Store.File,
                      off: nat, data: seq<bv8>)
    requires TakenOut(fs, rest, cur) && off + |data| <= |cur.data|
    requires Store.Wf(written) && Store.SameShape(rest, written)
    requires written.nextBlocks == rest.nextBlocks[cur.sector := rest.nextBlocks[cur.sector] + Codec.BlockLen(|cur.tag|, |cur.data|)]
    requires Consistency.Consistent(rest) ==>
               && Consistency.Consistent(written)
               && Store.Lookup(written, cur.tag) == Ok(Edited(cur.data, off, data))
               && Store.OthersKept(Store.Files(rest), Store.Files(written), cur.tag)
               && forall g | g in Store.Files(written) && g.tag == cur.tag ::
                    g.sector == cur.sector && Store.HdrPos(g) == rest.nextBlocks[cur.sector]
    requires Store.FileInBounds(written.mem, cur) && Store.Wf(r) && r.files == written.files
    requires Store.Invalidates(written, cur, r)
    ensures Consistency.Consistent(fs) ==>
              && Consistency.Consistent(r) && Store.Lookup(r, cur.tag) == Ok(Edited(cur.data, off, data))
              && Store.OthersKept(Store.Files(fs), Store.Files(r), cur.tag)
  {
    if Consistency.Consistent(fs) {
      Consistency.FewerFilesConsistent(fs, rest);
      StaleBlock(fs, rest, written, cur);
      Consistency.InvalidateStaleKeepsConsistent(written, cur, r);
      var g :| g in Store.Files(written) && g.tag == cur.tag && Store.Lookup(written, cur.tag) == Ok(g.data);
      Store.FileOfTag(r, g);
    }
  }

  /** After the in-place write of `edit_at`, the old block lies below `next_block` and no
      indexed block overlaps it: the other files' blocks did not before, and the new block
      lies past `next_block` of the old store. */
  lemma StaleBlock(fs: Store.Fs, rest: Store.Fs, written: Store.Fs, cur: Store.File)
    requires TakenOut(fs, rest, cur) && Consistency.Consistent(fs)
    requires Store.Wf(written) && Store.SameShape(rest, written)
    requires written.nextBlocks[cur.sector] >= rest.nextBlocks[cur.sector]
    requires Store.OthersKept(Store.Files(rest), Store.Files(written), cur.tag)
    requires forall g | g in Store.Files(written) && g.tag == cur.tag ::
               g.sector == cur.sector && Store.HdrPos(g) == rest.nextBlocks[cur.sector]
    requires Store.FileInBounds(written.mem, cur)
    ensures cur.size >= 1 && Store.HdrPos(cur) < written.nextBlocks[cur.sector]
    ensures forall g | g in Store.Files(written) :: Consistency.Disjoint(cur, g)
  {
    assert Consistency.OnFlash(fs, cur);
    Consistency.OnFlashSize(fs, cur);
    forall g | g in Store.Files(written) ensures Consistency.Disjoint(cur, g) {
      if g.tag != cur.tag {
        assert g in Store.Files(fs) && g != cur;
      }
    }
  }
}
