/** The invariant that ties the index of a `FileSystem` to the flash it describes, and the
    proofs that `write_impl` and `erase` keep it: every indexed file is found, valid, by
    `parse_hdr` at its header and before its sector's `next_block`; the blocks of distinct
    files do not overlap; everything from `next_block` to the end of a sector's usable room
    is still erased. Under it, reading a tag after writing it gives back the data written. */
module Consistency {
  import opened Wrappers
  import Store
  import Codec
  import Flash
  import FlashLl
  import Crc8

  /** The block of a file, as `parse_hdr` finds it on flash: valid, with the file's tag,
      data and size, before its sector's `next_block`. */
  predicate OnFlash(fs: Store.Fs, f: Store.File)
    requires Store.FileInBounds(fs.mem, f) && |fs.nextBlocks| == |fs.mem|
  {
    var p := Store.HdrPos(f);
    && f.dataStart == f.tagStart + |f.tag|
    && p + f.size <= fs.nextBlocks[f.sector]
    && Codec.LenLen(fs.mem[f.sector][p]) == Store.LenLenOf(|f.data|)
    && Codec.ParseHdr(fs.mem[f.sector][p..]) == Ok(Codec.Parsed(true, f.tag, f.data, f.size))
  }

  /** Two blocks that share no byte. */
  predicate Disjoint(f: Store.File, g: Store.File)
    requires f.tagStart >= 1 + Store.LenLenOf(|f.data|) && g.tagStart >= 1 + Store.LenLenOf(|g.data|)
  {
    || f.sector != g.sector
    || Store.HdrPos(f) + f.size <= Store.HdrPos(g)
    || Store.HdrPos(g) + g.size <= Store.HdrPos(f)
  }

  /** The index agrees with the flash. */
  predicate Indexed(fs: Store.Fs)
  {
    var indexed :=
      && Store.Wf(fs)
      && (forall f {:trigger OnFlash(fs, f)} | f in Store.Files(fs) :: OnFlash(fs, f))
      && (forall f, g {:trigger Disjoint(f, g)} | f in Store.Files(fs) && g in Store.Files(fs) && f != g :: Disjoint(f, g));
    indexed
  }

  /** Erased from `from` to the end of the room of sector `s`. */
  predicate ErasedFrom(fs: Store.Fs, s: nat, from: nat)
    requires Store.Wf(fs) && s < |fs.mem|
  {
    forall k | from <= k < Store.Capacity(fs, s) :: fs.mem[s][k] == 0xFF
  }

  /** Erased from `next_block` to the end of the room of every sector. */
  predicate FreeErased(fs: Store.Fs)
    requires Store.Wf(fs)
  {
    forall s | 0 <= s < |fs.mem| :: ErasedFrom(fs, s, fs.nextBlocks[s])
  }

  predicate Consistent(fs: Store.Fs)
  {
    Indexed(fs) && FreeErased(fs)
  }

  /** The state between laying the block `enc` at `next_block` of sector `sid` and indexing
      it: the index agrees with flash, the block is in place, and the room after it, and
      after `next_block` on every other sector, is still erased. */
  predicate Pending(fs: Store.Fs, sid: nat, enc: seq<bv8>)
  {
    var pending :=
      && Indexed(fs)
      && sid < |fs.mem|
      && fs.nextBlocks[sid] + |enc| <= Store.Capacity(fs, sid)
      && fs.mem[sid][fs.nextBlocks[sid] .. fs.nextBlocks[sid] + |enc|] == enc
      && ErasedFrom(fs, sid, fs.nextBlocks[sid] + |enc|)
      && forall s | 0 <= s < |fs.mem| && s != sid :: ErasedFrom(fs, s, fs.nextBlocks[s]);
    pending
  }

  // ---------------------------------------------------------------------------------
  // Parsing depends on the block's own bytes only

  /** A block parsed at the start of a zone is parsed the same from any zone that agrees
      with it on the block's bytes. */
  lemma ParseSamePrefix(z1: seq<bv8>, z2: seq<bv8>)
    requires Codec.ParseHdr(z1).Ok?
    requires Codec.ParseHdr(z1).value.size <= |z2|
    requires z2[..Codec.ParseHdr(z1).value.size] == z1[..Codec.ParseHdr(z1).value.size]
    ensures Codec.ParseHdr(z2) == Codec.ParseHdr(z1)
  {
    var p := Codec.ParseHdr(z1).value;
    Codec.ParseHdrOk(z1);
    var hdr := z1[0];
    var lenBytes := z1[1..1 + Codec.LenLen(hdr)];
    var block := Codec.Layout(hdr, lenBytes, p.tag, p.data);
    assert z1[..p.size] == block;
    var rest := z2[p.size..];
    assert z2 == block + rest by {
      assert z2 == z2[..p.size] + rest;
    }
    Codec.LayoutParses(hdr, lenBytes, p.tag, p.data, rest);
    assert |block| == p.size;
  }

  /** A block left byte for byte as it was is parsed as it was. */
  lemma BlockKept(m1: seq<bv8>, m2: seq<bv8>, at: nat)
    requires at < |m1| && |m2| == |m1|
    requires Codec.ParseHdr(m1[at..]).Ok?
    requires forall k | at <= k < at + Codec.ParseHdr(m1[at..]).value.size :: m2[k] == m1[k]
    ensures Codec.ParseHdr(m2[at..]) == Codec.ParseHdr(m1[at..])
    ensures m2[at] == m1[at]
  {
    var n := Codec.ParseHdr(m1[at..]).value.size;
    Codec.ParseHdrOk(m1[at..]);
    assert m2[at..][..n] == m1[at..][..n];
    ParseSamePrefix(m1[at..], m2[at..]);
  }

  // ---------------------------------------------------------------------------------
  // The `write_impl` callback on erased flash

  /** The first part of the callback programs the header not yet valid, the length, the
      tag and the data in one piece. */
  lemma LaidIsProgram(mem: seq<bv8>, at: nat, tag: seq<bv8>, pieces: seq<seq<bv8>>)
    requires Codec.ValidTagLen(|tag|) && |Store.Concat(pieces)| < Codec.USIZE_LIMIT
    requires at + Codec.BlockLen(|tag|, |Store.Concat(pieces)|) <= |mem|
    ensures Store.Laid(mem, at, tag, pieces)
            == FlashLl.Program(mem, at, Store.BodyBytes(tag, Store.Concat(pieces)))
  {
    var blen := Codec.BlockLen(|tag|, |Store.Concat(pieces)|);
    Flash.ContiguousEdits(mem, at, blen, 0, Store.BodyEdits(tag, pieces));
  }

  /** On erased flash, the first part of the callback leaves the body in place and the
      checksum byte erased. */
  lemma BodyLaid(mem: seq<bv8>, at: nat, tag: seq<bv8>, pieces: seq<seq<bv8>>, data: seq<bv8>, blen: nat)
      returns (m1: seq<bv8>)
    requires data == Store.Concat(pieces) && blen == Codec.BlockLen(|tag|, |data|)
    requires Codec.ValidTagLen(|tag|) && |data| < Codec.USIZE_LIMIT && at + blen <= |mem|
    requires forall k | at <= k < at + blen :: mem[k] == 0xFF
    ensures m1 == Store.Laid(mem, at, tag, pieces)
    ensures m1[at .. at + (blen - 1)] == Store.BodyBytes(tag, data)
    ensures m1[at + (blen - 1)] == 0xFF
  {
    var body := Store.BodyBytes(tag, data);
    LaidIsProgram(mem, at, tag, pieces);
    ErasedBody(mem, at, body);
    m1 := Store.Laid(mem, at, tag, pieces);
  }

  /** Programming erased flash with all but the last byte of a region. */
  lemma ErasedBody(mem: seq<bv8>, at: nat, body: seq<bv8>)
    requires at + |body| + 1 <= |mem|
    requires forall k | at <= k < at + |body| + 1 :: mem[k] == 0xFF
    ensures FlashLl.Program(mem, at, body)[at .. at + |body|] == body
    ensures FlashLl.Program(mem, at, body)[at + |body|] == 0xFF
  {
    FlashLl.ProgramErased(mem, at, body);
  }

  /** The checksum the callback computes from what it reads back is the one `Encode` ends
      the block with. */
  lemma CrcMatches(m1: seq<bv8>, at: nat, tag: seq<bv8>, data: seq<bv8>)
    requires Codec.ValidTagLen(|tag|) && |data| < Codec.USIZE_LIMIT
    requires at + Codec.BlockLen(|tag|, |data|) <= |m1|
    requires m1[at .. at + (Codec.BlockLen(|tag|, |data|) - 1)] == Store.BodyBytes(tag, data)
    ensures var blen := Codec.BlockLen(|tag|, |data|);
            var enc := Codec.Encode(tag, data);
            && Store.CrcEdit(m1, at, blen) == Flash.Put(blen - 1, enc[blen - 1])
            && m1[at] == Codec.Header(Codec.VALIDITY_NOTYET, |tag|, |data| > 0xFF)
            && enc[0] == Codec.Header(Codec.VALIDITY_VALID, |tag|, |data| > 0xFF)
            && enc[1 .. blen - 1] == m1[at + 1 .. at + (blen - 1)]
  {
    var blen := Codec.BlockLen(|tag|, |data|);
    var long := |data| > 0xFF;
    var lf := Codec.LengthField(long, |data|);
    var body := Store.BodyBytes(tag, data);
    var hdrN := Codec.Header(Codec.VALIDITY_NOTYET, |tag|, long);
    var hdrV := Codec.Header(Codec.VALIDITY_VALID, |tag|, long);
    Codec.HeaderFields(Codec.VALIDITY_NOTYET, |tag|, long);
    Codec.HeaderFields(Codec.VALIDITY_VALID, |tag|, long);
    assert m1[at] == body[0] == hdrN;
    assert m1[at + 1 .. at + (blen - 1)] == body[1..] == lf + tag + data;
    var crc := Crc8.Crc8(Codec.Unflagged(hdrV), lf + tag + data);
    Codec.SliceLayout(hdrV, lf, tag, data, crc, []);
    assert Codec.Encode(tag, data) == [hdrV] + (lf + tag + data) + [crc] + [];
  }

  /** Writing a block on erased flash lays down exactly what `Encode` says: header marked
      valid, length, tag, data, checksum. */
  lemma WriteBlockErased(mem: seq<bv8>, at: nat, tag: seq<bv8>, pieces: seq<seq<bv8>>, data: seq<bv8>)
    requires data == Store.Concat(pieces)
    requires Codec.ValidTagLen(|tag|) && |data| < Codec.USIZE_LIMIT
    requires at + Codec.BlockLen(|tag|, |data|) <= |mem|
    requires forall k | at <= k < at + Codec.BlockLen(|tag|, |data|) :: mem[k] == 0xFF
    ensures Store.WriteBlock(mem, at, tag, pieces)[at .. at + Codec.BlockLen(|tag|, |data|)]
            == Codec.Encode(tag, data)
  {
    var blen := Codec.BlockLen(|tag|, |data|);
    var m1 := BodyLaid(mem, at, tag, pieces, data, blen);
    SealedOnBody(m1, at, blen, tag, data);
    assert Store.WriteBlock(mem, at, tag, pieces) == Store.Sealed(m1, at, blen);
  }

  /** The second part of the callback on a body laid on erased flash gives `Encode`. */
  lemma SealedOnBody(m1: seq<bv8>, at: nat, blen: nat, tag: seq<bv8>, data: seq<bv8>)
    requires Codec.ValidTagLen(|tag|) && |data| < Codec.USIZE_LIMIT
    requires blen == Codec.BlockLen(|tag|, |data|) && at + blen <= |m1|
    requires m1[at .. at + (blen - 1)] == Store.BodyBytes(tag, data)
    requires m1[at + (blen - 1)] == 0xFF
    ensures Store.Sealed(m1, at, blen)[at .. at + blen] == Codec.Encode(tag, data)
  {
    CrcMatches(m1, at, tag, data);
    Codec.ValidityProgression(|tag|, |data| > 0xFF);
    SealedErased(m1, at, blen, Codec.Encode(tag, data));
  }

  /** The second part of the callback completes the block `enc` whose body, header not
      yet valid, the first part laid down. */
  lemma SealedErased(m1: seq<bv8>, at: nat, blen: nat, enc: seq<bv8>)
    requires 2 <= blen && at + blen <= |m1| && |enc| == blen
    requires Store.CrcEdit(m1, at, blen) == Flash.Put(blen - 1, enc[blen - 1])
    requires Store.Validated(m1[at]) == enc[0] && m1[at + (blen - 1)] == 0xFF
    requires enc[1 .. blen - 1] == m1[at + 1 .. at + (blen - 1)]
    ensures Store.Sealed(m1, at, blen)[at .. at + blen] == enc
  {
    var crcEdit := Store.CrcEdit(m1, at, blen);
    var m2 := Flash.EditsMem(m1, at, blen, [crcEdit]);
    Flash.OneEdit(m1, at, blen, crcEdit);
    var hdrEdit := Flash.Put(0, Store.Validated(m2[at]));
    var m3 := Flash.EditsMem(m2, at, blen, [hdrEdit]);
    Flash.OneEdit(m2, at, blen, hdrEdit);
    LastSteps(m1, m2, m3, at, blen, enc);
  }

  /** The last two calls of the callback on what the first part laid down: the checksum
      goes into the erased last byte, and the header is marked valid. */
  lemma LastSteps(m1: seq<bv8>, m2: seq<bv8>, m3: seq<bv8>, at: nat, blen: nat, enc: seq<bv8>)
    requires 2 <= blen && at + blen <= |m1| && |enc| == blen
    requires m2 == FlashLl.Program(m1, at + (blen - 1), [enc[blen - 1]])
    requires m3 == FlashLl.Program(m2, at + 0, [Store.Validated(m2[at])])
    requires Store.Validated(m1[at]) == enc[0] && m1[at + (blen - 1)] == 0xFF
    requires enc[1 .. blen - 1] == m1[at + 1 .. at + (blen - 1)]
    ensures m3[at .. at + blen] == enc
  {
    HeaderValidated(m1[at]);
    FlashLl.AndFacts(0xFF, enc[blen - 1]);
    assert m3[at] == enc[0];
    assert m3[at + (blen - 1)] == enc[blen - 1];
    forall k | 0 < k < blen - 1 ensures m3[at + k] == enc[k] {
      assert m1[at + k] == m1[at + 1 .. at + (blen - 1)][k - 1];
      assert enc[k] == enc[1 .. blen - 1][k - 1];
    }
    assert forall k | 0 <= k < blen :: m3[at .. at + blen][k] == enc[k];
  }

  /** Marking a header valid by AND-programming it with itself masked. */
  lemma HeaderValidated(hdr: bv8)
    ensures FlashLl.And(hdr, Store.Validated(hdr)) == Store.Validated(hdr)
  {
  }

  // ---------------------------------------------------------------------------------
  // What the steps of `erase` and `write_impl` keep

  /** A file whose block bytes are left as they were, and whose sector's `next_block`
      does not move back, is still found on flash. */
  lemma OnFlashKept(x: Store.Fs, y: Store.Fs, g: Store.File)
    requires Store.FileInBounds(x.mem, g) && |x.nextBlocks| == |x.mem| && OnFlash(x, g)
    requires |y.mem| == |x.mem| && |y.nextBlocks| == |y.mem|
    requires |y.mem[g.sector]| == |x.mem[g.sector]|
    requires x.nextBlocks[g.sector] <= y.nextBlocks[g.sector]
    requires forall k | Store.HdrPos(g) <= k < Store.HdrPos(g) + g.size ::
               y.mem[g.sector][k] == x.mem[g.sector][k]
    ensures Store.FileInBounds(y.mem, g) && OnFlash(y, g)
  {
    BlockKept(x.mem[g.sector], y.mem[g.sector], Store.HdrPos(g));
  }

  /** A block found on flash is at least two bytes long. */
  lemma OnFlashSize(fs: Store.Fs, f: Store.File)
    requires Store.FileInBounds(fs.mem, f) && |fs.nextBlocks| == |fs.mem| && OnFlash(fs, f)
    ensures f.size >= 2
  {
    Codec.ParseHdrOk(fs.mem[f.sector][Store.HdrPos(f)..]);
  }

  /** Invalidating the block of an indexed file and dropping the file from the index keeps
      the index in agreement with flash, and changes no byte from any `next_block` on. */
  lemma InvalidateKeepsIndexed(x: Store.Fs, f: Store.File, y: Store.Fs)
    requires Indexed(x) && f in Store.Files(x)
    requires Store.Wf(y) && Store.Invalidates(x, f, y) && Store.Files(y) == Store.Files(x) - {f}
    ensures Indexed(y)
    ensures Store.HdrPos(f) < x.nextBlocks[f.sector]
    ensures forall s, k | 0 <= s < |x.mem| && x.nextBlocks[s] <= k < |x.mem[s]| :: y.mem[s][k] == x.mem[s][k]
  {
    assert OnFlash(x, f);
    OnFlashSize(x, f);
    forall g | g in Store.Files(y) ensures OnFlash(y, g) {
      assert Disjoint(f, g) && OnFlash(x, g);
      OnFlashKept(x, y, g);
    }
  }

  /** `erase` keeps the store consistent. */
  lemma InvalidateKeepsConsistent(x: Store.Fs, f: Store.File, y: Store.Fs)
    requires Consistent(x) && f in Store.Files(x)
    requires Store.Wf(y) && Store.Invalidates(x, f, y) && Store.Files(y) == Store.Files(x) - {f}
    ensures Consistent(y)
  {
    InvalidateKeepsIndexed(x, f, y);
    forall s | 0 <= s < |y.mem| ensures ErasedFrom(y, s, y.nextBlocks[s]) {
      assert ErasedFrom(x, s, x.nextBlocks[s]);
    }
  }

  /** Laying the block `enc` at `next_block` of a sector of a consistent store, without
      touching anything else, gives a pending state. */
  lemma LaidPending(x: Store.Fs, y: Store.Fs, sid: nat, enc: seq<bv8>)
    requires Consistent(x) && sid < |x.mem|
    requires x.nextBlocks[sid] + |enc| <= Store.Capacity(x, sid)
    requires Store.Wf(y) && Store.SameBut(x, y, sid, x.nextBlocks[sid], |enc|)
    requires y.mem[sid][x.nextBlocks[sid] .. x.nextBlocks[sid] + |enc|] == enc
    ensures Pending(y, sid, enc)
  {
    forall g | g in Store.Files(y) ensures OnFlash(y, g) {
      assert OnFlash(x, g);
      OnFlashKept(x, y, g);
    }
    assert ErasedFrom(x, sid, x.nextBlocks[sid]);
    forall s | 0 <= s < |y.mem| && s != sid ensures ErasedFrom(y, s, y.nextBlocks[s]) {
      assert ErasedFrom(x, s, x.nextBlocks[s]);
    }
  }

  /** `erase` in a pending state keeps it pending. */
  lemma InvalidateKeepsPending(x: Store.Fs, f: Store.File, y: Store.Fs, sid: nat, enc: seq<bv8>)
    requires Pending(x, sid, enc) && f in Store.Files(x)
    requires Store.Wf(y) && Store.Invalidates(x, f, y) && Store.Files(y) == Store.Files(x) - {f}
    ensures Pending(y, sid, enc)
  {
    InvalidateKeepsIndexed(x, f, y);
    var at := x.nextBlocks[sid];
    assert y.mem[sid][at .. at + |enc|] == x.mem[sid][at .. at + |enc|];
    assert ErasedFrom(x, sid, at + |enc|);
    forall s | 0 <= s < |y.mem| && s != sid ensures ErasedFrom(y, s, y.nextBlocks[s]) {
      assert ErasedFrom(x, s, x.nextBlocks[s]);
    }
  }

  /** Where the tag and the data sit in a block `write_impl` lays down, and what its header
      says about the length field. */
  lemma EncodeFields(tag: seq<bv8>, data: seq<bv8>)
    requires Codec.ValidTagLen(|tag|) && |data| < Codec.USIZE_LIMIT
    ensures var enc := Codec.Encode(tag, data);
            var i := 1 + Store.LenLenOf(|data|);
            && enc[i .. i + |tag|] == tag
            && enc[i + |tag| .. i + |tag| + |data|] == data
            && Codec.LenLen(enc[0]) == Store.LenLenOf(|data|)
  {
    var long := |data| > 0xFF;
    var hdr := Codec.Header(Codec.VALIDITY_VALID, |tag|, long);
    var lf := Codec.LengthField(long, |data|);
    var crc := Crc8.Crc8(Codec.Unflagged(hdr), lf + tag + data);
    Codec.HeaderFields(Codec.VALIDITY_VALID, |tag|, long);
    Codec.SliceLayout(hdr, lf, tag, data, crc, []);
    assert Codec.Encode(tag, data) == [hdr] + (lf + tag + data) + [crc] + [];
  }

  /** The file `write_impl` indexes after laying the block `Encode(tag, data)` at `at` of
      sector `sid` reads back the tag and the data, and its block is found on flash. */
  lemma NewFileFound(r: Store.Fs, sid: nat, at: nat, tag: seq<bv8>, data: seq<bv8>)
      returns (nf: Store.File)
    requires Codec.ValidTagLen(|tag|) && |data| < Codec.USIZE_LIMIT
    requires sid < |r.mem| && |r.nextBlocks| == |r.mem|
    requires r.nextBlocks[sid] == at + Codec.BlockLen(|tag|, |data|) <= |r.mem[sid]|
    requires r.mem[sid][at .. at + Codec.BlockLen(|tag|, |data|)] == Codec.Encode(tag, data)
    ensures nf == Store.NewFile(r.mem[sid], sid, at, |tag|, |data|)
    ensures nf.tag == tag && nf.data == data
    ensures Store.FileInBounds(r.mem, nf) && OnFlash(r, nf)
  {
    nf := Store.NewFile(r.mem[sid], sid, at, |tag|, |data|);
    NewFileFields(r.mem[sid], sid, at, tag, data);
    var m := r.mem[sid];
    var enc := Codec.Encode(tag, data);
    assert m[at..] == enc + m[at + |enc|..];
    Codec.EncodeParses(tag, data, m[at + |enc|..]);
  }

  /** The tag and the data the file reads back from the block `Encode(tag, data)`. */
  lemma NewFileFields(m: seq<bv8>, sid: nat, at: nat, tag: seq<bv8>, data: seq<bv8>)
    requires Codec.ValidTagLen(|tag|) && |data| < Codec.USIZE_LIMIT
    requires at + Codec.BlockLen(|tag|, |data|) <= |m|
    requires m[at .. at + Codec.BlockLen(|tag|, |data|)] == Codec.Encode(tag, data)
    ensures Store.NewFile(m, sid, at, |tag|, |data|).tag == tag
    ensures Store.NewFile(m, sid, at, |tag|, |data|).data == data
    ensures Codec.LenLen(m[at]) == Store.LenLenOf(|data|)
  {
    var enc := Codec.Encode(tag, data);
    var i := 1 + Store.LenLenOf(|data|);
    EncodeFields(tag, data);
    SliceOfSlice(m, at, at + |enc|, i, i + |tag|);
    SliceOfSlice(m, at, at + |enc|, i + |tag|, i + |tag| + |data|);
    assert m[at] == enc[0];
  }

  /** Indexing the block laid in a pending state and advancing the sector's counters past
      it (the last step of `write_impl`) gives a consistent store where the tag reads back
      the data. */
  lemma AddKeepsConsistent(d: Store.Fs, sid: nat, tag: seq<bv8>, data: seq<bv8>, nf: Store.File, r: Store.Fs)
    requires Codec.ValidTagLen(|tag|) && |data| < Codec.USIZE_LIMIT
    requires Store.Wf(d) && sid < |d.mem| && Store.Fits(d, sid, Codec.BlockLen(|tag|, |data|))
    requires Store.Wf(r) && r.mem == d.mem && r.defrag == d.defrag
    requires r.nextBlocks == d.nextBlocks[sid := d.nextBlocks[sid] + Codec.BlockLen(|tag|, |data|)]
    requires nf == Store.NewFile(d.mem[sid], sid, d.nextBlocks[sid], |tag|, |data|)
    requires Store.Files(r) == if Store.Indexes(d, nf.tag) then Store.Files(d) else Store.Files(d) + {nf}
    requires Pending(d, sid, Codec.Encode(tag, data)) && !Store.Indexes(d, tag)
    ensures Consistent(r) && Store.Lookup(r, tag) == Ok(data)
    ensures Store.Files(r) == Store.Files(d) + {nf} && nf.tag == tag && nf.sector == sid
    ensures Store.FileInBounds(r.mem, nf) && Store.HdrPos(nf) == d.nextBlocks[sid]
  {
    AddedFile(d, sid, tag, data, nf, r);
    IndexedAfterAdd(d, r, sid, nf);
    FreeAfterAdd(d, r, sid, Codec.Encode(tag, data));
    Store.FileOfTag(r, nf);
  }

  /** The file the last step of `write_impl` indexes reads back the tag and the data, and
      its block is found on flash. */
  lemma AddedFile(d: Store.Fs, sid: nat, tag: seq<bv8>, data: seq<bv8>, nf: Store.File, r: Store.Fs)
    requires Codec.ValidTagLen(|tag|) && |data| < Codec.USIZE_LIMIT
    requires Pending(d, sid, Codec.Encode(tag, data))
    requires r.mem == d.mem && |r.nextBlocks| == |r.mem|
    requires r.nextBlocks[sid] == d.nextBlocks[sid] + Codec.BlockLen(|tag|, |data|)
    requires nf == Store.NewFile(d.mem[sid], sid, d.nextBlocks[sid], |tag|, |data|)
    ensures nf.tag == tag && nf.data == data && nf.sector == sid
    ensures Store.FileInBounds(r.mem, nf) && Store.HdrPos(nf) == d.nextBlocks[sid] && OnFlash(r, nf)
  {
    var nf' := NewFileFound(r, sid, d.nextBlocks[sid], tag, data);
  }

  /** Indexing a block found on flash right at `next_block`, and moving `next_block` past
      it, keeps the index in agreement with flash. */
  lemma IndexedAfterAdd(d: Store.Fs, r: Store.Fs, sid: nat, nf: Store.File)
    requires Indexed(d) && Store.Wf(r) && r.mem == d.mem && sid < |d.mem|
    requires forall s | 0 <= s < |d.mem| :: d.nextBlocks[s] <= r.nextBlocks[s]
    requires nf.sector == sid && Store.FileInBounds(r.mem, nf) && OnFlash(r, nf)
    requires Store.HdrPos(nf) == d.nextBlocks[sid]
    requires Store.Files(r) == Store.Files(d) + {nf}
    ensures Indexed(r)
  {
    forall g | g in Store.Files(r) ensures OnFlash(r, g) {
      if g != nf {
        assert OnFlash(d, g);
      }
    }
    forall f, g | f in Store.Files(r) && g in Store.Files(r) && f != g ensures Disjoint(f, g) {
      if f == nf {
        assert OnFlash(d, g);
      } else if g == nf {
        assert OnFlash(d, f);
      }
    }
  }

  /** Moving `next_block` of sector `sid` past the block laid in a pending state leaves the
      rest of every sector's room erased. */
  lemma FreeAfterAdd(d: Store.Fs, r: Store.Fs, sid: nat, enc: seq<bv8>)
    requires Pending(d, sid, enc)
    requires Store.Wf(r) && r.mem == d.mem && r.defrag == d.defrag
    requires r.nextBlocks == d.nextBlocks[sid := d.nextBlocks[sid] + |enc|]
    ensures FreeErased(r)
  {
    forall s | 0 <= s < |r.mem| ensures ErasedFrom(r, s, r.nextBlocks[s]) {
      if s == sid {
        assert ErasedFrom(d, sid, d.nextBlocks[sid] + |enc|);
      } else {
        assert ErasedFrom(d, s, d.nextBlocks[s]);
      }
    }
  }

  /** Dropping files from the index, with the flash and the counters as they were, keeps
      the store consistent. */
  lemma FewerFilesConsistent(x: Store.Fs, y: Store.Fs)
    requires Consistent(x) && Store.Wf(y)
    requires y.mem == x.mem && y.nextBlocks == x.nextBlocks && y.defrag == x.defrag
    requires Store.Files(y) <= Store.Files(x)
    ensures Consistent(y)
  {
    forall f | f in Store.Files(y) ensures OnFlash(y, f) {
      assert OnFlash(x, f);
    }
    forall s | 0 <= s < |y.mem| ensures ErasedFrom(y, s, y.nextBlocks[s]) {
      assert ErasedFrom(x, s, x.nextBlocks[s]);
    }
  }

  /** Clearing the validity bits of a block below `next_block` that no indexed file
      overlaps, with the index as it was, keeps the store consistent. */
  lemma InvalidateStaleKeepsConsistent(x: Store.Fs, f: Store.File, y: Store.Fs)
    requires Consistent(x) && Store.FileInBounds(x.mem, f) && f.size >= 1
    requires Store.HdrPos(f) < x.nextBlocks[f.sector]
    requires forall g | g in Store.Files(x) :: Disjoint(f, g)
    requires Store.Wf(y) && Store.Invalidates(x, f, y) && y.files == x.files
    ensures Consistent(y)
  {
    forall g | g in Store.Files(y) ensures OnFlash(y, g) {
      assert Disjoint(f, g) && OnFlash(x, g);
      OnFlashKept(x, y, g);
    }
    forall s | 0 <= s < |y.mem| ensures ErasedFrom(y, s, y.nextBlocks[s]) {
      assert ErasedFrom(x, s, x.nextBlocks[s]);
    }
  }

  /** A slice of a slice is a slice. */
  lemma SliceOfSlice<T>(s: seq<T>, a: nat, b: nat, i: nat, j: nat)
    requires a <= b <= |s| && i <= j <= b - a
    ensures s[a..b][i..j] == s[a + i .. a + j]
  {
    forall k | 0 <= k < j - i
      ensures s[a..b][i..j][k] == s[a + i .. a + j][k]
    {
      assert s[a..b][i..j][k] == s[a..b][i + k] == s[a + i + k];
    }
  }
}
