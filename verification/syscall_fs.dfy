/** The file-system syscalls (`src/syscall/fs.rs`), at the byte level: how userland passes a
    tag to the kernel, how errors travel back as a `usize`, what `syscall_read` copies, how
    the word-sized reads and writes address a file, and which tags each syscall accepts.
    Addresses are not modelled: a buffer is its bytes, and the checks that a pointer is
    readable or writable from the calling context are `Context.IsReadable` and
    `Context.IsWritable`. `usize` is 32 bits wide, so the error codes are `bv32`. */
module SyscallFs {
  import opened Wrappers
  import Store
  import Flash
  import Filename
  import Writes
  import Bytes

  // ---------------------------------------------------------------------------------
  // Tags

  /** The size of the tag buffer userland passes: a length byte and up to 32 tag bytes. */
  const TAG_ARG_LEN: nat := 33

  /** `pass_tag(tag)`: the length in byte 0, the tag after it, zeros after that. A tag of
      more than 32 bytes does not fit and the slice copy panics. */
  function PassTag(tag: seq<bv8>): (r: seq<bv8>)
    requires |tag| <= 32
    ensures |r| == TAG_ARG_LEN && r[0] as nat == |tag| && r[1..|tag| + 1] == tag
    ensures forall i | |tag| + 1 <= i < TAG_ARG_LEN :: r[i] == 0
  {
    [|tag| as bv8] + tag + seq(32 - |tag|, _ => 0)
  }

  /** `retrieve_tag(tagaddr)`: the tag a 33-byte tag buffer holds, or `None` when its length
      byte is 32 or more, where the kernel panics. */
  function RetrieveTag(buf: seq<bv8>): (r: Option<seq<bv8>>)
    requires |buf| == TAG_ARG_LEN
    ensures r.Some? <==> buf[0] < 32
    ensures r.Some? ==> |r.value| == buf[0] as nat && r.value == buf[1..|r.value| + 1]
  {
    if buf[0] < 32 then Some(buf[1..buf[0] as nat + 1]) else None
  }

  /** Passing a tag and retrieving it gives the tag back when it is shorter than 32 bytes;
      a 32-byte tag, which `pass_tag` accepts, makes the kernel panic. */
  lemma RetrievePassed(tag: seq<bv8>)
    requires |tag| <= 32
    ensures |tag| < 32 ==> RetrieveTag(PassTag(tag)) == Some(tag)
    ensures |tag| == 32 ==> RetrieveTag(PassTag(tag)) == None
  {
    var buf := PassTag(tag);
    assert buf[0] as nat == |tag|;
  }

  // ---------------------------------------------------------------------------------
  // Error codes

  /** `flash_error_to_usize`: bit 30 set, and 1, 2 or the low 28 bits of the controller's
      code under it. */
  function FlashErrorToUsize(e: Flash.IOError): (x: bv32)
    ensures x & 0x4000_0000 != 0 && x & 0xB000_0000 == 0
  {
    0x4000_0000 | match e
      case LockedError => 1
      case OutOfBounds => 2
      case UnknownError(code) => 0x0FFF_FFFF & code
  }

  /** `usize_to_flash_error`: the code with bit 30 cleared, read as 1, 2 or an unknown
      controller code. */
  function UsizeToFlashError(x: bv32): Flash.IOError
  {
    match x & 0xBFFF_FFFF
    case 1 => Flash.LockedError
    case 2 => Flash.OutOfBounds
    case y => Flash.UnknownError(y)
  }

  /** The flash errors whose code survives the trip: the two the driver raises, and the
      controller codes that fit in 28 bits and do not read as one of them. */
  predicate Encodable(e: Flash.IOError)
  {
    e.UnknownError? ==> e.code & 0xF000_0000 == 0 && e.code != 1 && e.code != 2
  }

  /** Decoding the code of a flash error gives it back exactly when it is encodable. */
  lemma FlashErrorRoundTrip(e: Flash.IOError)
    ensures UsizeToFlashError(FlashErrorToUsize(e)) == e <==> Encodable(e)
  {
    if e.UnknownError? {
      UnknownRoundTrip(e.code);
    }
  }

  lemma UnknownRoundTrip(c: bv32)
    ensures UsizeToFlashError(FlashErrorToUsize(Flash.UnknownError(c))) == Flash.UnknownError(c)
            <==> Encodable(Flash.UnknownError(c))
  {
    UnknownCode(c);
    ClearBit30(c);
    LowBits(c);
    var y := 0x0FFF_FFFF & c;
    var x := FlashErrorToUsize(Flash.UnknownError(c));
    assert x & 0xBFFF_FFFF == y;
    if y == 1 {
      assert UsizeToFlashError(x) == Flash.LockedError;
    } else if y == 2 {
      assert UsizeToFlashError(x) == Flash.OutOfBounds;
    } else {
      assert UsizeToFlashError(x) == Flash.UnknownError(y);
    }
  }

  /** The code of an unknown controller error: bit 30 and its low 28 bits. */
  lemma UnknownCode(c: bv32)
    ensures FlashErrorToUsize(Flash.UnknownError(c)) == 0x4000_0000 | (0x0FFF_FFFF & c)
  {
  }

  lemma ClearBit30(c: bv32)
    ensures (0x4000_0000 | (0x0FFF_FFFF & c)) & 0xBFFF_FFFF == 0x0FFF_FFFF & c
  {
  }

  lemma LowBits(c: bv32)
    ensures (0x0FFF_FFFF & c == c) <==> c & 0xF000_0000 == 0
  {
  }

  /** `fs_error_to_usize`: bit 31 set, and 1, 2, 3 or the flash error's code under it. */
  function FsErrorToUsize(e: Store.Error): (x: bv32)
    ensures x & 0x8000_0000 != 0
  {
    0x8000_0000 | match e
      case OutOfFlash => 1
      case NoSuchTag => 2
      case InvalidLengthForTag => 3
      case IO(f) => FlashErrorToUsize(f)
  }

  /** `usize_to_fs_error`: the code with bit 31 cleared, read as 1, 2, 3 or a flash error. */
  function UsizeToFsError(x: bv32): Store.Error
  {
    match x & 0x7FFF_FFFF
    case 1 => Store.OutOfFlash
    case 2 => Store.NoSuchTag
    case 3 => Store.InvalidLengthForTag
    case y => Store.IO(UsizeToFlashError(y))
  }

  /** Decoding the code of a store error gives it back exactly when any flash error in it is
      encodable; in particular `OutOfFlash`, `NoSuchTag`, `InvalidLengthForTag` and the I/O
      errors `LockedError` and `OutOfBounds` always come back. */
  lemma FsErrorRoundTrip(e: Store.Error)
    ensures UsizeToFsError(FsErrorToUsize(e)) == e <==> (e.IO? ==> Encodable(e.e))
  {
    if e.IO? {
      var c := FlashErrorToUsize(e.e);
      assert FsErrorToUsize(e) & 0x7FFF_FFFF == c;
      FlashErrorRoundTrip(e.e);
    }
  }

  /** The `usize` a store result travels back as: 0 for success. */
  function ResultCode(r: Result<(), Store.Error>): (x: bv32)
    ensures r.Ok? <==> x == 0
  {
    if r.Ok? then 0 else FsErrorToUsize(r.error)
  }

  /** What the userland wrappers rebuild from that `usize`. */
  function ResultOf(x: bv32): Result<(), Store.Error>
  {
    if x == 0 then Ok(()) else Err(UsizeToFsError(x))
  }

  /** A store result crosses the syscall boundary unchanged, unless it carries a controller
      code that is not encodable. */
  lemma ResultRoundTrip(r: Result<(), Store.Error>)
    requires r.Err? && r.error.IO? ==> Encodable(r.error.e)
    ensures ResultOf(ResultCode(r)) == r
  {
    if r.Err? {
      FsErrorRoundTrip(r.error);
      var x := FsErrorToUsize(r.error);
      assert ResultCode(r) == x && x != 0;
      assert UsizeToFsError(x) == r.error;
      assert ResultOf(x) == Err(r.error);
    } else {
      assert r.value == ();
    }
  }

  // ---------------------------------------------------------------------------------
  // syscall_read

  /** `syscall_read_impl(fs, tag, buffer)`: reads the file and copies the first
      `min(|buffer|, |data|)` bytes of it into the buffer; the rest of the buffer keeps its
      bytes, and when the read fails the buffer is untouched. */
  function ReadImpl(fs: Store.Fs, tag: seq<bv8>, buf: seq<bv8>): (r: (Result<(), Store.Error>, seq<bv8>))
    requires Store.Wf(fs)
    ensures |r.1| == |buf|
    ensures Store.Lookup(fs, tag).Err? ==> r.0 == Err(Store.NoSuchTag) && r.1 == buf
    ensures Store.Lookup(fs, tag).Ok? ==>
              var data := Store.Lookup(fs, tag).value;
              var n := if |buf| < |data| then |buf| else |data|;
              r.0 == Ok(()) && r.1[..n] == data[..n] && r.1[n..] == buf[n..]
  {
    match Store.Read(fs, tag)
    case Err(e) => (Err(e), buf)
    case Ok(data) =>
      var n := if |buf| < |data| then |buf| else |data|;
      (Ok(()), data[..n] + buf[n..])
  }

  // ---------------------------------------------------------------------------------
  // Word reads and writes

  /** `256^n`. */
  function Pow256(n: nat): (r: nat)
    ensures r >= 1
  {
    if n == 0 then 1 else 256 * Pow256(n - 1)
  }

  /** The `n` little-endian bytes of `v` (both targets are little-endian, so this is what
      `transmute` of a `u16` or `u32` gives). */
  function LittleEndian(v: nat, n: nat): (r: seq<bv8>)
    requires v < Pow256(n)
    ensures |r| == n
  {
    if n == 0 then [] else [Bytes.ToByte(v % 256)] + LittleEndian(v / 256, n - 1)
  }

  /** The value of little-endian bytes. */
  function ValueOf(bs: seq<bv8>): (v: nat)
    ensures v < Pow256(|bs|)
  {
    if bs == [] then 0 else bs[0] as nat + 256 * ValueOf(bs[1..])
  }

  /** Reading back the bytes of a value gives the value. */
  lemma {:induction false} ValueOfLittleEndian(v: nat, n: nat)
    requires v < Pow256(n)
    ensures ValueOf(LittleEndian(v, n)) == v
  {
    if n > 0 {
      ValueOfLittleEndian(v / 256, n - 1);
      var bs := LittleEndian(v, n);
      assert bs[1..] == LittleEndian(v / 256, n - 1);
      Bytes.ToByteValue(v % 256);
      assert ValueOf(bs) == v % 256 + 256 * (v / 256);
    }
  }

  /** The bytes the kernel hands to `edit_at` for a 1-, 2- or 4-byte write of `data`:
      `data as u8`, `data as u16` or `data as u32`, laid out little-endian. */
  function KernelBytes(width: nat, data: nat): (r: seq<bv8>)
    requires width == 1 || width == 2 || width == 4
    ensures |r| == width
  {
    LittleEndian(data % Pow256(width), width)
  }

  /** The byte offset a userland wrapper passes for a write at `offset`: `write_1b_at`
      passes it as it is, `write_2b_at` and `write_4b_at` count it in words and pass
      `2 * offset` and `4 * offset`; the kernel hands that offset to `edit_at` as it is. */
  function WriteOffset(width: nat, offset: nat): nat
    requires width == 1 || width == 2 || width == 4
  {
    Scaled(width, offset)
  }

  /** `width * offset`, for the three widths. */
  function Scaled(width: nat, offset: nat): (r: nat)
    requires width == 1 || width == 2 || width == 4
  {
    if width == 1 then offset else if width == 2 then 2 * offset else 4 * offset
  }

  /** The value a read of `width` bytes at word offset `offset` gives: `read_1b_at` indexes
      the data, `read_2b_at` and `read_4b_at` read a little-endian word at the `offset`-th
      `u16` or `u32` of the data. The source reads past the data without a check; here the
      word is required to be inside it. */
  function ReadWord(data: seq<bv8>, width: nat, offset: nat): (v: nat)
    requires width == 1 || width == 2 || width == 4
    requires Scaled(width, offset) + width <= |data|
    ensures v < Pow256(width)
  {
    ValueOf(data[Scaled(width, offset) .. Scaled(width, offset) + width])
  }

  /** The `n` bytes from index `at` of the memory that starts with `data`: the file's own
      bytes where they reach, and after them whatever memory `beyond` holds. */
  function Window(data: seq<bv8>, beyond: nat -> bv8, at: nat, n: nat): (r: seq<bv8>)
    ensures |r| == n
    ensures forall i | 0 <= i < n && at + i < |data| :: r[i] == data[at + i]
    ensures forall i | 0 <= i < n && at + i >= |data| :: r[i] == beyond(at + i - |data|)
    decreases n
  {
    if n == 0 then []
    else [if at < |data| then data[at] else beyond(at - |data|)] + Window(data, beyond, at + 1, n - 1)
  }

  /** `syscall_read_{1,2,4}b_at` once the file is found, as written; `None` is a panic.
      `read_1b_at` indexes the data, so it panics at or past the end. `read_2b_at` and
      `read_4b_at` take `&b[0]`, which panics only on an empty file, and then read the
      `offset`-th word through `wrapping_offset` with no bound check, so a word past the
      end is made of the bytes that follow the file in memory (`beyond`). */
  function ReadAt(data: seq<bv8>, beyond: nat -> bv8, width: nat, offset: nat): (r: Option<nat>)
    requires width == 1 || width == 2 || width == 4
    ensures r.None? <==> |data| == 0 || (width == 1 && offset >= |data|)
    ensures r.Some? ==> r.value < Pow256(width)
    ensures Scaled(width, offset) + width <= |data| ==> r == Some(ReadWord(data, width, offset))
  {
    if |data| == 0 || (width == 1 && offset >= |data|) then None
    else
      var at := Scaled(width, offset);
      var w := Window(data, beyond, at, width);
      assert at + width <= |data| ==> w == data[at .. at + width];
      Some(ValueOf(w))
  }

  /** As written, a 2- or 4-byte read that starts at or past the end of a non-empty file
      succeeds, and its value is made only of the memory after the file. */
  lemma ReadAtPastEnd(data: seq<bv8>, beyond: nat -> bv8, width: nat, offset: nat)
    requires width == 2 || width == 4
    requires |data| > 0 && Scaled(width, offset) >= |data|
    ensures ReadAt(data, beyond, width, offset)
            == Some(ValueOf(Window([], beyond, Scaled(width, offset) - |data|, width)))
  {
    var at := Scaled(width, offset);
    assert Window(data, beyond, at, width) == Window([], beyond, at - |data|, width);
  }

  /** Memory of zeros and memory of ones, for the example below. */
  function Zeros(k: nat): bv8 { 0 }
  function Ones(k: nat): bv8 { 0xFF }

  /** As written, `read_4b_at(tag, 0)` on a two-byte file hands back two bytes that are not
      the file's: the same file reads differently over different memory after it. */
  lemma ReadAtLeaksExample()
    ensures ReadAt([0, 0], Zeros, 4, 0) == Some(0)
    ensures ReadAt([0, 0], Ones, 4, 0) == Some(0xFFFF0000)
  {
    var lo := Window([0, 0], Zeros, 0, 4);
    assert lo[0] == 0 && lo[1] == 0 && lo[2] == 0 && lo[3] == 0;
    ValueOfFour(lo);
    var hi := Window([0, 0], Ones, 0, 4);
    assert hi[0] == 0 && hi[1] == 0 && hi[2] == 0xFF && hi[3] == 0xFF;
    ValueOfFour(hi);
  }

  lemma ValueOfFour(bs: seq<bv8>)
    requires |bs| == 4
    ensures ValueOf(bs) == bs[0] as nat + 0x100 * bs[1] as nat + 0x1_0000 * bs[2] as nat + 0x100_0000 * bs[3] as nat
  {
    assert bs[1..][1..] == bs[2..] && bs[2..][1..] == bs[3..] && bs[3..][1..] == [];
  }

  /** The corrected read: every width panics, as `read_1b_at` does, unless the whole word
      lies in the file. */
  function ReadAtChecked(data: seq<bv8>, width: nat, offset: nat): (r: Option<nat>)
    requires width == 1 || width == 2 || width == 4
  {
    if Scaled(width, offset) + width <= |data| then Some(ReadWord(data, width, offset)) else None
  }

  /** The corrected read answers exactly when the word lies in the file, with the written
      read's value whatever memory follows the file; where it refuses and the written read
      answers, the last byte of the written read's word lies outside the file. */
  lemma ReadAtCheckedAgrees(data: seq<bv8>, beyond: nat -> bv8, width: nat, offset: nat)
    requires width == 1 || width == 2 || width == 4
    ensures ReadAtChecked(data, width, offset).Some? <==> Scaled(width, offset) + width <= |data|
    ensures ReadAtChecked(data, width, offset).Some? ==>
              ReadAt(data, beyond, width, offset) == ReadAtChecked(data, width, offset)
    ensures ReadAtChecked(data, width, offset).None? && ReadAt(data, beyond, width, offset).Some? ==>
              var at := Scaled(width, offset);
              Window(data, beyond, at, width)[width - 1] == beyond(at + width - 1 - |data|)
  {
  }

  /** A value written through `write_{1,2,4}b_at` at some offset reads back through
      `read_{1,2,4}b_at` at the same offset: the wrapper's offset scaling and the kernel's
      pointer arithmetic address the same bytes, and the rest of the file is unchanged. */
  lemma WordRoundTrip(data: seq<bv8>, width: nat, offset: nat, v: nat)
    requires width == 1 || width == 2 || width == 4
    requires Scaled(width, offset) + width <= |data| && v < Pow256(width)
    ensures
      var edited := Writes.Edited(data, WriteOffset(width, offset), KernelBytes(width, v));
      && ReadWord(edited, width, offset) == v
      && |edited| == |data|
      && forall k | 0 <= k < |data| && !(Scaled(width, offset) <= k < Scaled(width, offset) + width) :: edited[k] == data[k]
  {
    ModSmall(v, Pow256(width));
    ValueOfLittleEndian(v, width);
    var at := Scaled(width, offset);
    var edited := Writes.Edited(data, at, KernelBytes(width, v));
    assert edited[at .. at + width] == KernelBytes(width, v);
  }

  lemma ModSmall(v: nat, m: nat)
    requires v < m
    ensures v % m == v
  {
  }

  // ---------------------------------------------------------------------------------
  // Which tags each syscall accepts

  /** The file-system syscalls that take a tag. */
  datatype Call =
    | Exists | Read | ReadInplace | Read1b | Read2b | Read4b | Length
    | Write | Erase | WriteApplet | EraseApplet | Write1b | Write2b | Write4b

  /** Whether the kernel lets context `id` go on with `call` on `tag`; when it does not, the
      kernel panics. Reads need `can_read`. Word writes need `can_write`. Plain writes and
      erases also need a tag that is not an applet, and the applet variants need one that
      is. `can_read` and `can_write` index the tag, so an empty tag (or an applet-field type
      byte alone) panics too. */
  predicate Accepts(installer: nat, id: nat, call: Call, tag: seq<bv8>)
  {
    && Filename.Indexable(tag)
    && match call
       case Exists | Read | ReadInplace | Read1b | Read2b | Read4b | Length =>
         Filename.CanRead(id, tag)
       case Write1b | Write2b | Write4b =>
         Filename.CanWrite(installer, id, tag)
       case Write | Erase =>
         Filename.CanWrite(installer, id, tag) && !Filename.IsApplet(tag)
       case WriteApplet | EraseApplet =>
         Filename.CanWrite(installer, id, tag) && Filename.IsApplet(tag)
  }

  /** The applet syscalls act exactly on CAP files and only for the Installer; the plain
      write and erase never do, so no tag is open to both. */
  lemma AppletGuards(installer: nat, id: nat, tag: seq<bv8>)
    ensures Accepts(installer, id, WriteApplet, tag) <==>
              id == installer && Filename.Parse(tag).Some? && Filename.Parse(tag).value.CapName?
    ensures Accepts(installer, id, EraseApplet, tag) <==> Accepts(installer, id, WriteApplet, tag)
    ensures Accepts(installer, id, Write, tag) ==>
              Filename.Parse(tag).Some? && !Filename.Parse(tag).value.CapName?
    ensures !(Accepts(installer, id, Write, tag) && Accepts(installer, id, WriteApplet, tag))
    ensures !(Accepts(installer, id, Erase, tag) && Accepts(installer, id, EraseApplet, tag))
  {
    if Filename.Indexable(tag) && Filename.CanWrite(installer, id, tag) {
      Filename.WritableIsNamed(installer, id, tag);
    }
  }
}
