/** The on-flash block format of the tag/data store (`src/fs/mod.rs`): header byte, data
    length, tag, data and CRC-8 trailer, and the parser `parse_hdr`.

    Header byte, most significant bit first: two validity bits (11 = not yet valid, 01 =
    valid, 00 = no longer valid), five bits of tag length, one bit saying whether the data
    length takes 4 bytes (big-endian) or 1. The trailer is the CRC-8 of the header with its
    validity bits cleared, followed by every byte between header and trailer. */
module Codec {
  import opened Wrappers
  import Crc8
  import Bytes

  const VALIDITY_MASK: bv8 := 0xC0
  const VALIDITY_NOTYET: bv8 := 0xC0
  const VALIDITY_VALID: bv8 := 0x40
  const VALIDITY_NOLONGER: bv8 := 0x00
  const TAGLEN_MASK: bv8 := 0x3E
  const LENLEN_MASK: bv8 := 0x01
  const LENLEN_LONG: bv8 := 0x01
  const LENLEN_SHORT: bv8 := 0x00

  /** Tags of 1 to 29 bytes are accepted for writing: `write_impl` refuses an empty tag and
      any tag of at least `(TAGLEN_MASK >> 1) - 1 = 30` bytes. */
  const MAX_TAG_LEN: nat := 29

  /** Number of values of a `usize` on the 32-bit target. */
  const USIZE_LIMIT: nat := 0x1_0000_0000

  /** Why no block could be parsed at the start of a zone. */
  datatype ParseNoBlock =
    | Empty            // the header byte is 0xFF: nothing was ever written here
    | Broken           // the block is torn: it runs past the zone, or its checksum is wrong
    | Erased(size: nat) // a run of `size` zero bytes

  /** A block found at the start of a zone: its validity, tag, data and size on flash. */
  datatype Parsed = Parsed(valid: bool, tag: seq<bv8>, data: seq<bv8>, size: nat)

  /** The tag length recorded in a header byte. */
  function TagLen(hdr: bv8): nat
  {
    ((hdr & TAGLEN_MASK) >> 1) as nat
  }

  /** The width of the length field a header byte announces. */
  function LenLen(hdr: bv8): nat
  {
    if hdr & LENLEN_MASK == LENLEN_LONG then 4 else 1
  }

  /** Whether a header byte marks its block as valid. */
  predicate IsValidHeader(hdr: bv8)
  {
    hdr & VALIDITY_MASK == VALIDITY_VALID
  }

  /** The header byte with its validity bits cleared: what the checksum covers. */
  function Unflagged(hdr: bv8): bv8
  {
    hdr & !VALIDITY_MASK
  }

  /** A big-endian 32-bit length field, decoded (`zone[i] << 24 | ... | zone[i + 3]`). */
  function BigEndian(b0: bv8, b1: bv8, b2: bv8, b3: bv8): nat
  {
    b0 as nat * 0x100_0000 + b1 as nat * 0x1_0000 + b2 as nat * 0x100 + b3 as nat
  }

  /** The length field `write_impl` lays down: `datalen as u8`, or the four bytes
      `(datalen >> 24) as u8`, `(datalen >> 16) as u8`, `(datalen >> 8) as u8`,
      `datalen as u8`. */
  function LengthField(long: bool, n: nat): (r: seq<bv8>)
    requires long ==> n < USIZE_LIMIT
    requires !long ==> n < 0x100
    ensures |r| == (if long then 4 else 1)
    ensures DecodeLength(r) == n
  {
    if long then
      var q1 := n / 0x100;
      var q2 := q1 / 0x100;
      var q3 := q2 / 0x100;
      Bytes.ToByteValue(q3);
      Bytes.ToByteValue(q2 % 0x100);
      Bytes.ToByteValue(q1 % 0x100);
      Bytes.ToByteValue(n % 0x100);
      [Bytes.ToByte(q3), Bytes.ToByte(q2 % 0x100), Bytes.ToByte(q1 % 0x100), Bytes.ToByte(n % 0x100)]
    else
      Bytes.ToByteValue(n);
      [Bytes.ToByte(n)]
  }

  /** The value of a length field of 1 or 4 bytes. */
  function DecodeLength(lenBytes: seq<bv8>): nat
    requires |lenBytes| == 1 || |lenBytes| == 4
  {
    if |lenBytes| == 1 then lenBytes[0] as nat
    else BigEndian(lenBytes[0], lenBytes[1], lenBytes[2], lenBytes[3])
  }

  /** The run of zero bytes that starts at index `from` of `zone`: the index of the first
      non-zero byte at or after `from`, or the zone's length. */
  function ZeroRunEnd(zone: seq<bv8>, from: nat): (r: nat)
    requires from <= |zone|
    ensures from <= r <= |zone|
    ensures forall k | from <= k < r :: zone[k] == 0
    ensures r == |zone| || zone[r] != 0
    decreases |zone| - from
  {
    if from < |zone| && zone[from] == 0 then ZeroRunEnd(zone, from + 1) else from
  }

  /** A block as laid out on flash: header, length field, tag, data, then the CRC-8 of the
      unflagged header followed by everything between header and trailer. */
  function Layout(hdr: bv8, lenBytes: seq<bv8>, tag: seq<bv8>, data: seq<bv8>): seq<bv8>
  {
    [hdr] + (lenBytes + tag + data) + [Crc8.Crc8(Unflagged(hdr), lenBytes + tag + data)]
  }

  /** `parse_hdr(zone)`: the block at the start of `zone`.

      (With a 4-byte length field the source adds `usize` offsets that could wrap for a
      length near 2^32; the resulting out-of-range sub-read is turned into `Broken` by the
      source as well, so the unbounded sum here gives the same answer.) */
  function ParseHdr(zone: seq<bv8>): (r: Result<Parsed, ParseNoBlock>)
    ensures r == Err(Empty) <==> |zone| > 0 && zone[0] == 0xFF
    ensures (r.Err? && r.error.Erased?) <==> |zone| > 0 && zone[0] == 0x00
    ensures r.Err? && r.error.Erased? ==>
              && 0 < r.error.size <= |zone|
              && (forall k | 0 <= k < r.error.size :: zone[k] == 0)
              && (r.error.size == |zone| || zone[r.error.size] != 0)
  {
    if |zone| == 0 then Err(Broken)
    else
      var hdr := zone[0];
      if hdr == 0xFF then Err(Empty)
      else if hdr == 0x00 then Err(Erased(ZeroRunEnd(zone, 1)))
      else ParseBody(zone, IsValidHeader(hdr), LenLen(hdr), TagLen(hdr))
  }

  /** The part of `parse_hdr` after the header byte was found to be neither 0xFF nor zero:
      the length field, the bounds checks and the checksum comparison. */
  function ParseBody(zone: seq<bv8>, valid: bool, lenlen: nat, taglen: nat)
    : (r: Result<Parsed, ParseNoBlock>)
    requires |zone| > 0
    requires lenlen == 1 || lenlen == 4
    ensures r.Err? ==> r.error == Broken
    ensures r.Ok? ==> r.value.valid == valid && |r.value.tag| == taglen
  {
    if 1 + lenlen >= |zone| then Err(Broken)
    else
      var len := DecodeLength(zone[1..1 + lenlen]);
      var i := 1 + lenlen;
      if i + taglen + len >= |zone| then Err(Broken)
      else
        var j := i + taglen + len;
        if zone[j] != Crc8.Crc8(Unflagged(zone[0]), zone[1..j]) then Err(Broken)
        else Ok(Parsed(valid, zone[i..i + taglen], zone[i + taglen..j], j + 1))
  }

  /** The data of a parsed block is as long as its length field says. */
  lemma ParseBodyLength(zone: seq<bv8>, valid: bool, lenlen: nat, taglen: nat)
    requires |zone| > 0
    requires lenlen == 1 || lenlen == 4
    requires ParseBody(zone, valid, lenlen, taglen).Ok?
    ensures 1 + lenlen < ParseBody(zone, valid, lenlen, taglen).value.size <= |zone|
    ensures DecodeLength(zone[1..1 + lenlen]) == |ParseBody(zone, valid, lenlen, taglen).value.data|
  {
  }

  /** A parsed block has the layout `write_impl` produces, checksum included, filling the
      first `size` bytes of the zone. */
  lemma ParseBodyLayout(zone: seq<bv8>, valid: bool, lenlen: nat, taglen: nat)
    requires |zone| > 0
    requires lenlen == 1 || lenlen == 4
    requires ParseBody(zone, valid, lenlen, taglen).Ok?
    ensures 1 + lenlen < ParseBody(zone, valid, lenlen, taglen).value.size <= |zone|
    ensures zone[..ParseBody(zone, valid, lenlen, taglen).value.size]
            == Layout(zone[0], zone[1..1 + lenlen], ParseBody(zone, valid, lenlen, taglen).value.tag,
                      ParseBody(zone, valid, lenlen, taglen).value.data)
  {
    var i := 1 + lenlen;
    var j := i + taglen + DecodeLength(zone[1..i]);
    var lb, tg, dt := zone[1..i], zone[i..i + taglen], zone[i + taglen..j];
    assert ParseBody(zone, valid, lenlen, taglen) == Ok(Parsed(valid, tg, dt, j + 1));
    CutBlock(zone, i, i + taglen, j);
  }

  /** A block cut into header, length field, tag, data and trailer. */
  lemma CutBlock<T>(s: seq<T>, a: nat, b: nat, j: nat)
    requires 1 <= a <= b <= j < |s|
    ensures s[1..j] == s[1..a] + s[a..b] + s[b..j]
    ensures s[..j + 1] == [s[0]] + (s[1..a] + s[a..b] + s[b..j]) + [s[j]]
  {
    assert s[..j + 1] == [s[0]] + s[1..j] + [s[j]];
  }

  /** What a parsed block looks like, in terms of its header byte. */
  lemma ParseHdrOk(zone: seq<bv8>)
    ensures var r := ParseHdr(zone);
            r.Ok? ==>
              && |zone| > 0
              && zone[0] != 0x00 && zone[0] != 0xFF
              && r.value.valid == IsValidHeader(zone[0])
              && |r.value.tag| == TagLen(zone[0])
              && 1 + LenLen(zone[0]) < r.value.size <= |zone|
              && DecodeLength(zone[1..1 + LenLen(zone[0])]) == |r.value.data|
              && zone[..r.value.size]
                 == Layout(zone[0], zone[1..1 + LenLen(zone[0])], r.value.tag, r.value.data)
  {
    if ParseHdr(zone).Ok? {
      var hdr := zone[0];
      assert ParseHdr(zone) == ParseBody(zone, IsValidHeader(hdr), LenLen(hdr), TagLen(hdr));
      ParseBodyLength(zone, IsValidHeader(hdr), LenLen(hdr), TagLen(hdr));
      ParseBodyLayout(zone, IsValidHeader(hdr), LenLen(hdr), TagLen(hdr));
    }
  }

  /** The header byte `write_impl` lays down for a tag of `taglen` bytes, with the given
      validity bits: `validity | (taglen << 1) as u8 | lenlen`. */
  function Header(validity: bv8, taglen: nat, long: bool): bv8
    requires taglen <= MAX_TAG_LEN
  {
    validity | (Bytes.ToByte(taglen) << 1) | (if long then LENLEN_LONG else LENLEN_SHORT)
  }

  /** The fields of a header byte read back what was put in, whatever the validity bits, and
      such a header is neither an erased byte (0xFF) nor a zeroed one. */
  lemma HeaderFields(validity: bv8, taglen: nat, long: bool)
    requires validity & !VALIDITY_MASK == 0
    requires 1 <= taglen <= MAX_TAG_LEN
    ensures Header(validity, taglen, long) & VALIDITY_MASK == validity
    ensures TagLen(Header(validity, taglen, long)) == taglen
    ensures LenLen(Header(validity, taglen, long)) == (if long then 4 else 1)
    ensures Unflagged(Header(validity, taglen, long)) == Header(VALIDITY_NOLONGER, taglen, long)
    ensures Header(validity, taglen, long) != 0x00 && Header(validity, taglen, long) != 0xFF
  {
    var b := Bytes.ToByte(taglen);
    Bytes.ToByteValue(taglen);
    Bytes.ValueLe(b, 29);
    Bytes.ValueLe(1, b);
    HeaderBits(validity, b, if long then LENLEN_LONG else LENLEN_SHORT);
  }

  lemma HeaderBits(validity: bv8, b: bv8, l: bv8)
    requires validity & !VALIDITY_MASK == 0
    requires 1 <= b <= 29
    requires l == 0 || l == 1
    ensures (validity | (b << 1) | l) & VALIDITY_MASK == validity
    ensures ((validity | (b << 1) | l) & TAGLEN_MASK) >> 1 == b
    ensures (validity | (b << 1) | l) & LENLEN_MASK == l
    ensures (validity | (b << 1) | l) & !VALIDITY_MASK == (b << 1) | l
    ensures validity | (b << 1) | l != 0x00 && validity | (b << 1) | l != 0xFF
  {
  }

  /** Marking a block valid (`header & 0x7F`, 11 -> 01) and marking it no longer valid
      (`header & 0x3F`, 01 -> 00) only clear bits, never touch the bits the checksum covers,
      and turn the header `write_impl` lays down into the next one in the progression. */
  lemma ValidityProgression(taglen: nat, long: bool)
    requires 1 <= taglen <= MAX_TAG_LEN
    ensures Header(VALIDITY_NOTYET, taglen, long) & (VALIDITY_VALID | !VALIDITY_MASK)
            == Header(VALIDITY_VALID, taglen, long)
    ensures Header(VALIDITY_VALID, taglen, long) & (VALIDITY_NOLONGER | !VALIDITY_MASK)
            == Header(VALIDITY_NOLONGER, taglen, long)
    ensures IsValidHeader(Header(VALIDITY_VALID, taglen, long))
    ensures !IsValidHeader(Header(VALIDITY_NOTYET, taglen, long))
    ensures !IsValidHeader(Header(VALIDITY_NOLONGER, taglen, long))
  {
    var b := Bytes.ToByte(taglen);
    var l := if long then LENLEN_LONG else LENLEN_SHORT;
    Bytes.ToByteValue(taglen);
    Bytes.ValueLe(b, 29);
    ProgressionBits(b, l);
  }

  lemma ProgressionBits(b: bv8, l: bv8)
    requires b <= 29
    requires l == 0 || l == 1
    ensures (VALIDITY_NOTYET | (b << 1) | l) & (VALIDITY_VALID | !VALIDITY_MASK)
            == VALIDITY_VALID | (b << 1) | l
    ensures (VALIDITY_VALID | (b << 1) | l) & (VALIDITY_NOLONGER | !VALIDITY_MASK)
            == VALIDITY_NOLONGER | (b << 1) | l
    ensures (VALIDITY_VALID | (b << 1) | l) & VALIDITY_MASK == VALIDITY_VALID
    ensures (VALIDITY_NOTYET | (b << 1) | l) & VALIDITY_MASK != VALIDITY_VALID
    ensures (VALIDITY_NOLONGER | (b << 1) | l) & VALIDITY_MASK != VALIDITY_VALID
  {
  }

  /** Size on flash of a block: `block_len` = header and checksum, length field, tag, data. */
  function BlockLen(taglen: nat, datalen: nat): (r: nat)
    ensures r > taglen + datalen + 2
  {
    2 + (if datalen > 0xFF then 4 else 1) + taglen + datalen
  }

  /** Whether `write_impl` accepts a tag of this length. */
  predicate ValidTagLen(taglen: nat)
  {
    !(taglen == 0 || taglen >= MAX_TAG_LEN + 1)
  }

  /** The bytes a completed `write_impl` leaves on erased flash: header marked valid, length
      field (short when the data fits a byte), tag, data, checksum. */
  function Encode(tag: seq<bv8>, data: seq<bv8>): (r: seq<bv8>)
    requires ValidTagLen(|tag|)
    requires |data| < USIZE_LIMIT
    ensures |r| == BlockLen(|tag|, |data|)
  {
    var long := |data| > 0xFF;
    Layout(Header(VALIDITY_VALID, |tag|, long), LengthField(long, |data|), tag, data)
  }

  /** Parsing the layout of a block, whatever follows it in the zone, yields that block: its
      validity as the header says, its tag and data, and its full size. */
  lemma LayoutParses(hdr: bv8, lenBytes: seq<bv8>, tag: seq<bv8>, data: seq<bv8>, rest: seq<bv8>)
    requires hdr != 0x00 && hdr != 0xFF
    requires |lenBytes| == LenLen(hdr)
    requires DecodeLength(lenBytes) == |data|
    requires |tag| == TagLen(hdr)
    ensures ParseHdr(Layout(hdr, lenBytes, tag, data) + rest)
            == Ok(Parsed(IsValidHeader(hdr), tag, data, |Layout(hdr, lenBytes, tag, data)|))
  {
    var crc := Crc8.Crc8(Unflagged(hdr), lenBytes + tag + data);
    var zone := Layout(hdr, lenBytes, tag, data) + rest;
    SliceLayout(hdr, lenBytes, tag, data, crc, rest);
    var i := 1 + |lenBytes|;
    var j := i + |tag| + |data|;
    assert ParseHdr(zone) == ParseBody(zone, IsValidHeader(hdr), LenLen(hdr), TagLen(hdr));
  }

  /** The pieces of a block laid out at the start of a zone, read back by index. */
  lemma SliceLayout<T>(h: T, a: seq<T>, b: seq<T>, c: seq<T>, t: T, rest: seq<T>)
    ensures var zone := [h] + (a + b + c) + [t] + rest;
            var i := 1 + |a|;
            var j := i + |b| + |c|;
            && |zone| == j + 1 + |rest|
            && zone[0] == h
            && zone[1..i] == a
            && zone[i..i + |b|] == b
            && zone[i + |b|..j] == c
            && zone[1..j] == a + b + c
            && zone[j] == t
  {
    var zone := [h] + (a + b + c) + [t] + rest;
    var i := 1 + |a|;
    var j := i + |b| + |c|;
    assert zone[1..j] == a + b + c;
  }

  /** Round trip: parsing what `write_impl` lays down yields the tag and the data, marked
      valid, with size `block_len(|tag|, |data|)`. */
  lemma EncodeParses(tag: seq<bv8>, data: seq<bv8>, rest: seq<bv8>)
    requires ValidTagLen(|tag|)
    requires |data| < USIZE_LIMIT
    ensures ParseHdr(Encode(tag, data) + rest)
            == Ok(Parsed(true, tag, data, BlockLen(|tag|, |data|)))
  {
    var long := |data| > 0xFF;
    HeaderFields(VALIDITY_VALID, |tag|, long);
    ValidityProgression(|tag|, long);
    LayoutParses(Header(VALIDITY_VALID, |tag|, long), LengthField(long, |data|), tag, data, rest);
  }

  /** `header & 0x3F`: the header with its validity bits set to "no longer valid". */
  function Invalidated(hdr: bv8): (r: bv8)
    ensures r & VALIDITY_MASK == VALIDITY_NOLONGER
    ensures Unflagged(r) == Unflagged(hdr)
  {
    hdr & (VALIDITY_NOLONGER | !VALIDITY_MASK)
  }

  /** Invalidating the header of a block that has a tag keeps the block parseable with the
      same tag, data and size, now marked not valid: the checksum does not cover the validity
      bits. */
  lemma InvalidatedParses(zone: seq<bv8>)
    requires ParseHdr(zone).Ok?
    requires TagLen(zone[0]) > 0
    ensures ParseHdr([Invalidated(zone[0])] + zone[1..]) == Ok(ParseHdr(zone).value.(valid := false))
  {
    var p := ParseHdr(zone).value;
    ParseHdrOk(zone);
    var hdr := zone[0];
    var lenBytes := zone[1..1 + LenLen(hdr)];
    var h2 := Invalidated(hdr);
    InvalidatedFields(hdr);
    var crc := Crc8.Crc8(Unflagged(hdr), lenBytes + p.tag + p.data);
    var rest := zone[p.size..];
    ReplaceHead(zone, p.size, h2, lenBytes + p.tag + p.data, crc);
    assert [h2] + zone[1..] == Layout(h2, lenBytes, p.tag, p.data) + rest;
    LayoutParses(h2, lenBytes, p.tag, p.data, rest);
  }

  /** A zone that starts with a block, with its first byte replaced. */
  lemma ReplaceHead<T>(zone: seq<T>, size: nat, h: T, body: seq<T>, t: T)
    requires 0 < size <= |zone|
    requires zone[..size] == [zone[0]] + body + [t]
    ensures [h] + zone[1..] == [h] + body + [t] + zone[size..]
  {
    assert zone == zone[..size] + zone[size..];
  }

  lemma InvalidatedFields(hdr: bv8)
    requires ((hdr & TAGLEN_MASK) >> 1) as nat > 0
    ensures TagLen(Invalidated(hdr)) == TagLen(hdr)
    ensures LenLen(Invalidated(hdr)) == LenLen(hdr)
    ensures !IsValidHeader(Invalidated(hdr))
    ensures Invalidated(hdr) != 0x00 && Invalidated(hdr) != 0xFF
  {
    assert (hdr & TAGLEN_MASK) >> 1 != 0;
  }
}
