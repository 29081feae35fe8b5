/** The operations of a `FileSystem` (`src/fs/mod.rs`) that change it: `erase`,
    `write_impl` and the public operations built on them. Each one takes the state and gives
    back the state after the call together with what the call returns, since several of them
    change the state before they fail. */
module FileSystem {
  import opened Wrappers
  import Store
  import HashSet
  import Codec
  import Consistency

  /** `erase(tag)`: take the file out of the index (`NoSuchTag` if there is none) and
      invalidate its block with `erase_file`. */
  method Erase(fs: Store.Fs, tag: seq<bv8>) returns (fs': Store.Fs, r: Result<(), Store.Error>)
    requires Store.Wf(fs)
    ensures Store.Wf(fs') && !Store.Indexes(fs', tag)
    ensures fs'.nextBlocks == fs.nextBlocks && Store.SameShape(fs, fs') && Store.Mark(fs') == Store.Mark(fs)
    ensures r.Err? <==> !Store.Indexes(fs, tag)
    ensures r.Err? ==> r.error == Store.NoSuchTag && fs' == fs
    ensures forall f | f in Store.Files(fs) && f.tag == tag ::
              Store.Invalidates(fs, f, fs') && Store.Files(fs') == Store.Files(fs) - {f}
  {
    var (files', taken) := HashSet.Take(fs.files, tag, Store.FileKey, Store.FileHash);
    if taken.None? {
      return fs, Err(Store.NoSuchTag);
    }
    var f := taken.value;
    Store.OnlyFileWithTag(fs, f);
    fs' := Store.EraseFile(fs.(files := files'), f);
    assert Store.HdrPos(f) < Store.Capacity(fs, f.sector);
    r := Ok(());
  }

  /** The `write_impl` callback on the contents of a sector, for a block at `at`: only the
      block's bytes can change, and on erased flash they become exactly `Encode(tag, data)`. */
  method LayBlock(mem: seq<bv8>, at: nat, tag: seq<bv8>, pieces: seq<seq<bv8>>) returns (r: seq<bv8>)
    requires Codec.ValidTagLen(|tag|) && |Store.Concat(pieces)| < Codec.USIZE_LIMIT
    requires at + Codec.BlockLen(|tag|, |Store.Concat(pieces)|) <= |mem|
    ensures |r| == |mem|
    ensures forall k {:trigger r[k]} | 0 <= k < |mem| && !(at <= k < at + Codec.BlockLen(|tag|, |Store.Concat(pieces)|)) ::
              r[k] == mem[k]
    ensures (forall k | at <= k < at + Codec.BlockLen(|tag|, |Store.Concat(pieces)|) :: mem[k] == 0xFF) ==>
              r[at .. at + Codec.BlockLen(|tag|, |Store.Concat(pieces)|)] == Codec.Encode(tag, Store.Concat(pieces))
  {
    r := Store.WriteBlock(mem, at, tag, pieces);
    assert forall k {:trigger r[k]} | 0 <= k < |mem| && !(at <= k < at + Codec.BlockLen(|tag|, |Store.Concat(pieces)|)) ::
      r[k] == mem[k];
    if forall k | at <= k < at + Codec.BlockLen(|tag|, |Store.Concat(pieces)|) :: mem[k] == 0xFF {
      Consistency.WriteBlockErased(mem, at, tag, pieces, Store.Concat(pieces));
    }
  }

  /** The `write_impl` callback run at `next_block` of sector `sid`: the store is the same
      but for the block's bytes. On a consistent store, where the room past `next_block` is
      erased, those bytes become exactly `Encode(tag, data)`. */
  method ProgramBlock(fs: Store.Fs, sid: nat, tag: seq<bv8>, pieces: seq<seq<bv8>>) returns (p: Store.Fs)
    requires Store.Wf(fs) && sid < |fs.mem|
    requires Codec.ValidTagLen(|tag|) && |Store.Concat(pieces)| < Codec.USIZE_LIMIT
    requires Store.Fits(fs, sid, Codec.BlockLen(|tag|, |Store.Concat(pieces)|))
    ensures Store.Wf(p) && p.nextBlocks == fs.nextBlocks && Store.SameShape(fs, p) && Store.Mark(p) == Store.Mark(fs)
    ensures Store.SameBut(fs, p, sid, fs.nextBlocks[sid], Codec.BlockLen(|tag|, |Store.Concat(pieces)|))
    ensures Consistency.Consistent(fs) ==> Consistency.Pending(p, sid, Codec.Encode(tag, Store.Concat(pieces)))
  {
    var sector := LayBlock(fs.mem[sid], fs.nextBlocks[sid], tag, pieces);
    Store.WfWithMem(fs, fs.mem[sid := sector]);
    p := fs.(mem := fs.mem[sid := sector]);
    if Consistency.Consistent(fs) {
      assert Consistency.ErasedFrom(fs, sid, fs.nextBlocks[sid]);
      Consistency.LaidPending(fs, p, sid, Codec.Encode(tag, Store.Concat(pieces)));
    }
  }

  /** The last step of `write_impl`: index the file read back from the block of the given
      shape at `next_block` (unless a file with its tag is already indexed), and advance
      `next_block` and the valid size of the sector by the block's size. */
  method AddFile(fs: Store.Fs, sid: nat, taglen: nat, datalen: nat) returns (r: Store.Fs, nf: Store.File)
    requires Store.Wf(fs) && sid < |fs.mem|
    requires Store.Fits(fs, sid, Codec.BlockLen(taglen, datalen))
    ensures Store.Wf(r) && r.mem == fs.mem && r.defrag == fs.defrag && r.applet == fs.applet
    ensures r.nextBlocks == fs.nextBlocks[sid := fs.nextBlocks[sid] + Codec.BlockLen(taglen, datalen)]
    ensures r.validSizes == fs.validSizes[sid := fs.validSizes[sid] + Codec.BlockLen(taglen, datalen)]
    ensures nf == Store.NewFile(fs.mem[sid], sid, fs.nextBlocks[sid], taglen, datalen)
    ensures Store.Files(r) == if Store.Indexes(fs, nf.tag) then Store.Files(fs) else Store.Files(fs) + {nf}
  {
    var blen := Codec.BlockLen(taglen, datalen);
    nf := Store.NewFile(fs.mem[sid], sid, fs.nextBlocks[sid], taglen, datalen);
    var (files, _) := HashSet.Insert(fs.files, nf, Store.FileKey, Store.FileHash);
    r := fs.(files := files,
             nextBlocks := fs.nextBlocks[sid := fs.nextBlocks[sid] + blen],
             validSizes := fs.validSizes[sid := fs.validSizes[sid] + blen]);
    assert Store.Wf(r) by {
      assert forall f | f in Store.Files(r) :: f in Store.Files(fs) || f == nf;
    }
  }

  /** `AddFile` for the block `Encode(tag, data)`: when that block was laid at `next_block`
      of an otherwise consistent store without a file with the tag, the store it gives is
      consistent and the tag reads back the data. */
  method AddBlock(fs: Store.Fs, sid: nat, tag: seq<bv8>, data: seq<bv8>) returns (r: Store.Fs, ghost nf: Store.File)
    requires Store.Wf(fs) && sid < |fs.mem|
    requires Codec.ValidTagLen(|tag|) && |data| < Codec.USIZE_LIMIT
    requires Store.Fits(fs, sid, Codec.BlockLen(|tag|, |data|))
    ensures Store.Wf(r) && r.mem == fs.mem && r.defrag == fs.defrag && r.applet == fs.applet
    ensures Store.Mark(r) == Store.Mark(fs)
    ensures r.nextBlocks == fs.nextBlocks[sid := fs.nextBlocks[sid] + Codec.BlockLen(|tag|, |data|)]
    ensures r.validSizes == fs.validSizes[sid := fs.validSizes[sid] + Codec.BlockLen(|tag|, |data|)]
    ensures Consistency.Pending(fs, sid, Codec.Encode(tag, data)) && !Store.Indexes(fs, tag) ==>
              && Consistency.Consistent(r) && Store.Lookup(r, tag) == Ok(data)
              && Store.Files(r) == Store.Files(fs) + {nf} && nf.tag == tag
              && nf.sector == sid && Store.FileInBounds(r.mem, nf) && Store.HdrPos(nf) == fs.nextBlocks[sid]
  {
    r, nf := AddFile(fs, sid, |tag|, |data|);
    if Consistency.Pending(fs, sid, Codec.Encode(tag, data)) && !Store.Indexes(fs, tag) {
      Consistency.AddKeepsConsistent(fs, sid, tag, data, nf, r);
    }
  }

  /** `write_impl(tag, data, sector_id)`: `InvalidLengthForTag` unless the tag has 1 to 29
      bytes; `OutOfFlash` unless the block fits between `next_block` and the end of the
      sector (the defragmentation sector's last byte excluded); in both cases nothing
      changes. Otherwise write the block, erase the previous file with that tag if any,
      index the new one as read back from flash, and advance the sector's `next_block` by
      the block's size. On a consistent store the result is consistent and the tag reads
      back the data. */
  method WriteImpl(fs: Store.Fs, tag: seq<bv8>, pieces: seq<seq<bv8>>, sid: nat)
      returns (fs': Store.Fs, r: Result<(), Store.Error>)
    requires Store.Wf(fs) && sid < |fs.mem|
    requires |Store.Concat(pieces)| < Codec.USIZE_LIMIT
    ensures Store.Wf(fs') && Store.SameShape(fs, fs') && Store.Mark(fs') == Store.Mark(fs)
    ensures !Codec.ValidTagLen(|tag|) ==> r == Err(Store.InvalidLengthForTag) && fs' == fs
    ensures Codec.ValidTagLen(|tag|) && !Store.Fits(fs, sid, Codec.BlockLen(|tag|, |Store.Concat(pieces)|)) ==>
              r == Err(Store.OutOfFlash) && fs' == fs
    ensures Codec.ValidTagLen(|tag|) && Store.Fits(fs, sid, Codec.BlockLen(|tag|, |Store.Concat(pieces)|)) ==>
              r.Ok?
    ensures r.Ok? ==> fs'.nextBlocks == fs.nextBlocks[sid := fs.nextBlocks[sid] + Codec.BlockLen(|tag|, |Store.Concat(pieces)|)]
    ensures r.Ok? ==> forall s | 0 <= s < |fs.mem| ::
              fs'.validSizes[s]
              == fs.validSizes[s] - Store.SizeOn(Store.Files(fs), s, tag)
                 + if s == sid then Codec.BlockLen(|tag|, |Store.Concat(pieces)|) else 0
    ensures r.Ok? ==> forall f | f in Store.Files(fs) && f.tag == tag ::
              !Codec.IsValidHeader(fs'.mem[f.sector][Store.HdrPos(f)])
    ensures r.Ok? && Consistency.Consistent(fs) ==>
              && Consistency.Consistent(fs')
              && Store.Lookup(fs', tag) == Ok(Store.Concat(pieces))
              && Store.OthersKept(Store.Files(fs), Store.Files(fs'), tag)
              && (forall f | f in Store.Files(fs) && f.tag == tag :: f !in Store.Files(fs'))
              && forall g | g in Store.Files(fs') && g.tag == tag :: g.sector == sid && Store.HdrPos(g) == fs.nextBlocks[sid]
  {
    if !Codec.ValidTagLen(|tag|) {
      return fs, Err(Store.InvalidLengthForTag);
    }
    if Store.Capacity(fs, sid) - fs.nextBlocks[sid] < Codec.BlockLen(|tag|, |Store.Concat(pieces)|) {
      return fs, Err(Store.OutOfFlash);
    }
    fs' := WriteChecked(fs, tag, pieces, sid);
    r := Ok(());
  }

  /** `write_impl` once the tag length and the room on the sector are checked: program the
      block, then index it. */
  method WriteChecked(fs: Store.Fs, tag: seq<bv8>, pieces: seq<seq<bv8>>, sid: nat) returns (fs': Store.Fs)
    requires Store.Wf(fs) && sid < |fs.mem|
    requires Codec.ValidTagLen(|tag|) && |Store.Concat(pieces)| < Codec.USIZE_LIMIT
    requires Store.Fits(fs, sid, Codec.BlockLen(|tag|, |Store.Concat(pieces)|))
    ensures Store.Wf(fs') && Store.SameShape(fs, fs') && Store.Mark(fs') == Store.Mark(fs)
    ensures fs'.nextBlocks == fs.nextBlocks[sid := fs.nextBlocks[sid] + Codec.BlockLen(|tag|, |Store.Concat(pieces)|)]
    ensures forall s | 0 <= s < |fs.mem| ::
              fs'.validSizes[s]
              == fs.validSizes[s] - Store.SizeOn(Store.Files(fs), s, tag)
                 + if s == sid then Codec.BlockLen(|tag|, |Store.Concat(pieces)|) else 0
    ensures forall f | f in Store.Files(fs) && f.tag == tag ::
              !Codec.IsValidHeader(fs'.mem[f.sector][Store.HdrPos(f)])
    ensures Consistency.Consistent(fs) ==>
              && Consistency.Consistent(fs')
              && Store.Lookup(fs', tag) == Ok(Store.Concat(pieces))
              && Store.OthersKept(Store.Files(fs), Store.Files(fs'), tag)
              && (forall f | f in Store.Files(fs) && f.tag == tag :: f !in Store.Files(fs'))
              && forall g | g in Store.Files(fs') && g.tag == tag :: g.sector == sid && Store.HdrPos(g) == fs.nextBlocks[sid]
  {
    var p := ProgramBlock(fs, sid, tag, pieces);
    assert Store.Files(p) == Store.Files(fs);
    fs' := IndexBlock(p, sid, tag, Store.Concat(pieces));
  }

  /** The rest of `write_impl` once the block is programmed: erase the previous file with
      the tag, if any, then index the block and advance the sector's counters. When the block
      was laid on an otherwise consistent store, the result is consistent and the tag reads
      back the data. */
  method IndexBlock(p: Store.Fs, sid: nat, tag: seq<bv8>, data: seq<bv8>) returns (fs': Store.Fs)
    requires Store.Wf(p) && sid < |p.mem|
    requires Codec.ValidTagLen(|tag|) && |data| < Codec.USIZE_LIMIT
    requires Store.Fits(p, sid, Codec.BlockLen(|tag|, |data|))
    ensures Store.Wf(fs') && Store.SameShape(p, fs') && Store.Mark(fs') == Store.Mark(p)
    ensures fs'.nextBlocks == p.nextBlocks[sid := p.nextBlocks[sid] + Codec.BlockLen(|tag|, |data|)]
    ensures forall s | 0 <= s < |p.mem| ::
              fs'.validSizes[s]
              == p.validSizes[s] - Store.SizeOn(Store.Files(p), s, tag) + if s == sid then Codec.BlockLen(|tag|, |data|) else 0
    ensures forall f | f in Store.Files(p) && f.tag == tag ::
              !Codec.IsValidHeader(fs'.mem[f.sector][Store.HdrPos(f)])
    ensures Consistency.Pending(p, sid, Codec.Encode(tag, data)) ==>
              && Consistency.Consistent(fs') && Store.Lookup(fs', tag) == Ok(data)
              && Store.OthersKept(Store.Files(p), Store.Files(fs'), tag)
              && (forall f | f in Store.Files(p) && f.tag == tag :: f !in Store.Files(fs'))
              && forall g | g in Store.Files(fs') && g.tag == tag :: g.sector == sid && Store.HdrPos(g) == p.nextBlocks[sid]
  {
    var d, er := Erase(p, tag);
    ghost var nf;
    fs', nf := AddBlock(d, sid, tag, data);
    ErasedThenAdded(p, d, fs', er, tag, sid, data, nf);
  }

  /** What `IndexBlock` gives, from what `Erase` and `AddBlock` ensure. */
  lemma ErasedThenAdded(p: Store.Fs, d: Store.Fs, r: Store.Fs, er: Result<(), Store.Error>,
                        tag: seq<bv8>, sid: nat, data: seq<bv8>, nf: Store.File)
    requires Store.Wf(p) && sid < |p.mem|
    requires Codec.ValidTagLen(|tag|) && |data| < Codec.USIZE_LIMIT
    requires Store.Wf(d) && !Store.Indexes(d, tag)
    requires d.nextBlocks == p.nextBlocks && Store.SameShape(p, d)
    requires er.Err? <==> !Store.Indexes(p, tag)
    requires er.Err? ==> er.error == Store.NoSuchTag && d == p
    requires forall f | f in Store.Files(p) && f.tag == tag ::
               Store.Invalidates(p, f, d) && Store.Files(d) == Store.Files(p) - {f}
    requires Store.Wf(r) && r.mem == d.mem
    requires r.validSizes == d.validSizes[sid := d.validSizes[sid] + Codec.BlockLen(|tag|, |data|)]
    requires Consistency.Pending(d, sid, Codec.Encode(tag, data)) && !Store.Indexes(d, tag) ==>
               && Consistency.Consistent(r) && Store.Lookup(r, tag) == Ok(data)
               && Store.Files(r) == Store.Files(d) + {nf} && nf.tag == tag
               && nf.sector == sid && Store.FileInBounds(r.mem, nf) && Store.HdrPos(nf) == d.nextBlocks[sid]
    ensures forall s | 0 <= s < |p.mem| ::
              r.validSizes[s]
              == p.validSizes[s] - Store.SizeOn(Store.Files(p), s, tag) + if s == sid then Codec.BlockLen(|tag|, |data|) else 0
    ensures forall f | f in Store.Files(p) && f.tag == tag ::
              !Codec.IsValidHeader(r.mem[f.sector][Store.HdrPos(f)])
    ensures Consistency.Pending(p, sid, Codec.Encode(tag, data)) ==>
              && Consistency.Consistent(r) && Store.Lookup(r, tag) == Ok(data)
              && Store.OthersKept(Store.Files(p), Store.Files(r), tag)
              && (forall f | f in Store.Files(p) && f.tag == tag :: f !in Store.Files(r))
              && forall g | g in Store.Files(r) && g.tag == tag :: g.sector == sid && Store.HdrPos(g) == p.nextBlocks[sid]
  {
    EraseThenAdd(p, d, r, er, tag, sid, Codec.BlockLen(|tag|, |data|));
    if Consistency.Pending(p, sid, Codec.Encode(tag, data)) {
      ErasePending(p, d, er, tag, sid, Codec.Encode(tag, data));
      Replaced(p, d, r, tag, sid, Codec.Encode(tag, data), nf);
    }
  }

  /** `erase` keeps a pending state pending. The erase is given by what `Erase` ensures. */
  lemma ErasePending(p: Store.Fs, d: Store.Fs, er: Result<(), Store.Error>, tag: seq<bv8>, sid: nat, enc: seq<bv8>)
    requires Store.Wf(p) && sid < |p.mem|
    requires Store.Wf(d) && !Store.Indexes(d, tag)
    requires d.nextBlocks == p.nextBlocks && Store.SameShape(p, d)
    requires er.Err? <==> !Store.Indexes(p, tag)
    requires er.Err? ==> er.error == Store.NoSuchTag && d == p
    requires forall f | f in Store.Files(p) && f.tag == tag ::
               Store.Invalidates(p, f, d) && Store.Files(d) == Store.Files(p) - {f}
    ensures Consistency.Pending(p, sid, enc) ==> Consistency.Pending(d, sid, enc)
  {
    if f :| f in Store.Files(p) && f.tag == tag {
      if Consistency.Pending(p, sid, enc) {
        Consistency.InvalidateKeepsPending(p, f, d, sid, enc);
      }
    }
  }

  /** The counters and the old header after `erase` then the last step of `write_impl`:
      the valid size of the old file's sector loses its size, that of the target sector gains
      the block's, and the old header is marked no longer valid. */
  lemma EraseThenAdd(p: Store.Fs, d: Store.Fs, r: Store.Fs, er: Result<(), Store.Error>, tag: seq<bv8>, sid: nat, blen: nat)
    requires Store.Wf(p) && sid < |p.mem|
    requires Store.Wf(d) && d.nextBlocks == p.nextBlocks && Store.SameShape(p, d)
    requires er.Err? <==> !Store.Indexes(p, tag)
    requires er.Err? ==> er.error == Store.NoSuchTag && d == p
    requires forall f | f in Store.Files(p) && f.tag == tag ::
               Store.Invalidates(p, f, d) && Store.Files(d) == Store.Files(p) - {f}
    requires r.mem == d.mem && r.validSizes == d.validSizes[sid := d.validSizes[sid] + blen]
    ensures forall s | 0 <= s < |p.mem| ::
              r.validSizes[s] == p.validSizes[s] - Store.SizeOn(Store.Files(p), s, tag) + if s == sid then blen else 0
    ensures forall f | f in Store.Files(p) && f.tag == tag ::
              !Codec.IsValidHeader(r.mem[f.sector][Store.HdrPos(f)])
  {
    if f :| f in Store.Files(p) && f.tag == tag {
      Store.SizeOnFile(p, f);
      Store.OnlyFileWithTag(p, f);
    }
  }

  /** In a pending state, the previous file with the tag (if any) is not the one the last
      step of `write_impl` indexes, so after `erase` then that step only the tag's file has
      changed in the index. */
  lemma Replaced(p: Store.Fs, d: Store.Fs, r: Store.Fs, tag: seq<bv8>, sid: nat, enc: seq<bv8>, nf: Store.File)
    requires Consistency.Pending(p, sid, enc)
    requires Store.Wf(d) && !Store.Indexes(d, tag) && d.nextBlocks == p.nextBlocks
    requires forall f | f in Store.Files(p) && f.tag == tag :: Store.Files(d) == Store.Files(p) - {f}
    requires !Store.Indexes(p, tag) ==> d == p
    requires Store.Files(r) == Store.Files(d) + {nf} && nf.tag == tag
    requires nf.sector == sid && Store.FileInBounds(r.mem, nf) && Store.HdrPos(nf) == d.nextBlocks[sid]
    ensures Store.OthersKept(Store.Files(p), Store.Files(r), tag)
    ensures forall f | f in Store.Files(p) && f.tag == tag :: f !in Store.Files(r)
    ensures forall g | g in Store.Files(r) && g.tag == tag :: g == nf
  {
    forall f | f in Store.Files(p) && f.tag == tag
      ensures f !in Store.Files(r)
    {
      assert Consistency.OnFlash(p, f);
      Consistency.OnFlashSize(p, f);
    }
  }
}
