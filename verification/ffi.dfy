/** The C interface's return codes and the method-info unpacking (`src/ffi.rs`). C callers
    see a failed store call as a non-zero `u8`, a failed flash call as a non-zero `u32` in
    `flash_error`, and `fs_init` tells a failure of the flash from a failure of the store by
    bit 6. */
module Ffi {
  import opened Wrappers
  import Flash
  import Store

  /** `flash_io_error_to_errno`: every controller code collapses to 3. */
  function FlashIoErrno(e: Flash.IOError): (c: bv32)
    ensures 1 <= c <= 3
  {
    match e
    case LockedError => 1
    case OutOfBounds => 2
    case UnknownError(_) => 3
  }

  /** `flash_init_error_to_errno`. */
  function FlashInitErrno(e: Flash.InitError): (c: bv32)
    ensures c == 1
  {
    match e
    case FlashInUse => 1
  }

  /** `fs_error_to_errno`: 1, 2, 3 for the store's own errors, and bit 7 with the flash code
      for an I/O error. */
  function FsErrno(e: Store.Error): (c: bv8)
    ensures c != 0 && c & 0x40 == 0
    ensures e.IO? <==> c & 0x80 != 0
  {
    match e
    case OutOfFlash => 1
    case NoSuchTag => 2
    case InvalidLengthForTag => 3
    case IO(f) => 0x80 | (FlashIoErrno(f) as bv8)
  }

  /** Errors as the codes can tell them apart: the controller's own code is dropped. */
  function Coarse(e: Store.Error): Store.Error
  {
    if e.IO? && e.e.UnknownError? then Store.IO(Flash.UnknownError(0)) else e
  }

  /** The store error codes tell every error apart except by the controller's own code. */
  lemma FsErrnoDistinct(a: Store.Error, b: Store.Error)
    ensures FsErrno(a) == FsErrno(b) <==> Coarse(a) == Coarse(b)
  {
  }

  /** Why `privileged_fs_init` failed: in the flash layer or in the store. */
  datatype FsInitError = FlashInit(flash: Flash.InitError) | FsInit(fs: Store.Error)

  /** `fs_init`: 0 on success, the flash code on a flash failure, and the store code with
      bit 6 raised on a store failure. */
  function FsInitCode(r: Result<(), FsInitError>): (c: bv8)
    ensures r.Ok? <==> c == 0
  {
    match r
    case Ok(_) => 0
    case Err(FlashInit(e)) => FlashInitErrno(e) as bv8
    case Err(FsInit(e)) => FsErrno(e) | 0x40
  }

  /** Bit 6 of a failure code says which layer failed, and the rest of the code says how,
      as `fs_error_to_errno` does. */
  lemma FsInitDistinct(r: Result<(), FsInitError>, s: Result<(), FsInitError>)
    ensures r.Err? && r.error.FsInit? <==> FsInitCode(r) & 0x40 != 0
    ensures r.Err? && s.Err? && r.error.FsInit? && s.error.FsInit? ==>
              (FsInitCode(r) == FsInitCode(s) <==> Coarse(r.error.fs) == Coarse(s.error.fs))
    ensures r.Err? && s.Err? && r.error.FlashInit? && s.error.FlashInit? ==> FsInitCode(r) == FsInitCode(s)
  {
    if r.Err? && s.Err? && r.error.FsInit? && s.error.FsInit? {
      FsErrnoDistinct(r.error.fs, s.error.fs);
      OrBit6(FsErrno(r.error.fs), FsErrno(s.error.fs));
    }
  }

  lemma OrBit6(a: bv8, b: bv8)
    requires a & 0x40 == 0 && b & 0x40 == 0
    ensures a | 0x40 == b | 0x40 <==> a == b
  {
  }

  /** `fs_exists`: 1 when the tag exists, 0 otherwise. */
  function FsExists(exists_: bool): (c: bv8)
    ensures c == 0 || c == 1
    ensures c == 1 <==> exists_
  {
    if exists_ then 1 else 0
  }

  /** `compute_method_info(value)`: the package, class and method numbers held in bits 16 to
      23, 8 to 15 and 0 to 7 of the value (each field is masked with `0xFFFF` and cast to
      `u8`, which keeps its low byte). */
  function ComputeMethodInfo(v: bv32): (r: (bv8, bv8, bv8))
  {
    ((((v >> 16) & 0xFFFF) % 0x100) as bv8,
     (((v >> 8) & 0xFFFF) % 0x100) as bv8,
     ((v & 0xFFFF) % 0x100) as bv8)
  }

  /** The value that carries a package, class and method number. */
  function Pack(package: bv8, claz: bv8, meth: bv8): (v: bv32)
  {
    ((package as bv32) << 16) | ((claz as bv32) << 8) | (meth as bv32)
  }

  /** Unpacking a packed value gives the three numbers back. */
  lemma UnpackPack(package: bv8, claz: bv8, meth: bv8)
    ensures ComputeMethodInfo(Pack(package, claz, meth)) == (package, claz, meth)
  {
  }

  /** Packing what was unpacked gives the low 24 bits of the value: the top byte is ignored. */
  lemma PackUnpack(v: bv32)
    ensures
      var (p, c, m) := ComputeMethodInfo(v);
      Pack(p, c, m) == v & 0x00FF_FFFF
  {
  }
}
