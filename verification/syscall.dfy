/** Syscall numbers and the kernel's entry point (`src/syscall/mod.rs`). Userland passes a
    `usize` number with three `usize` arguments; the kernel decodes the number with
    `from_usize`, runs the handler bound to it and, when the handler returns a value, writes
    it into the caller's saved context as the syscall's result. The handlers are not part of
    this function: they are a parameter here. */
module Syscall {
  import opened Wrappers

  /** The syscalls, in the order of their numbers 0 to 17. */
  datatype Syscall =
    | RemoteCall | RemoteResult | Test | UsartOutput
    | FsExists | FsRead | FsReadInplace | FsWrite | FsErase
    | FsRead1b | FsRead2b | FsRead4b | FsLength
    | FsWriteApplet | FsEraseApplet
    | FsWrite1b | FsWrite2b | FsWrite4b

  /** The largest syscall number. */
  const LAST: nat := 17

  /** `num as usize`: the discriminant each variant is declared with. */
  function Number(s: Syscall): (n: nat)
    ensures n <= LAST
  {
    match s
    case RemoteCall => 0
    case RemoteResult => 1
    case Test => 2
    case UsartOutput => 3
    case FsExists => 4
    case FsRead => 5
    case FsReadInplace => 6
    case FsWrite => 7
    case FsErase => 8
    case FsRead1b => 9
    case FsRead2b => 10
    case FsRead4b => 11
    case FsLength => 12
    case FsWriteApplet => 13
    case FsEraseApplet => 14
    case FsWrite1b => 15
    case FsWrite2b => 16
    case FsWrite4b => 17
  }

  /** `Syscall::from_usize`: the variant with that number, if any. */
  function FromUsize(x: nat): (r: Option<Syscall>)
    ensures r.Some? <==> x <= LAST
    ensures r.Some? ==> Number(r.value) == x
  {
    match x
    case 0 => Some(RemoteCall)
    case 1 => Some(RemoteResult)
    case 2 => Some(Test)
    case 3 => Some(UsartOutput)
    case 4 => Some(FsExists)
    case 5 => Some(FsRead)
    case 6 => Some(FsReadInplace)
    case 7 => Some(FsWrite)
    case 8 => Some(FsErase)
    case 9 => Some(FsRead1b)
    case 10 => Some(FsRead2b)
    case 11 => Some(FsRead4b)
    case 12 => Some(FsLength)
    case 13 => Some(FsWriteApplet)
    case 14 => Some(FsEraseApplet)
    case 15 => Some(FsWrite1b)
    case 16 => Some(FsWrite2b)
    case 17 => Some(FsWrite4b)
    case _ => None
  }

  /** Decoding the number a variant is sent with gives the variant back. */
  lemma FromNumber(s: Syscall)
    ensures FromUsize(Number(s)) == Some(s)
  {
  }

  /** The numbers are distinct: no two syscalls share one. */
  lemma NumberInjective(s: Syscall, t: Syscall)
    requires Number(s) == Number(t)
    ensures s == t
  {
    FromNumber(s);
    FromNumber(t);
  }

  /** A handler: the syscall's three arguments to an optional result. */
  type Handler = (Syscall, nat, nat, nat) -> Option<nat>

  /** What `syscall_received` does: it panics on a number no syscall has; otherwise the
      caller's result register holds the handler's result when there is one, and keeps its
      previous value when the handler returns none. */
  datatype Outcome = Panic | Resumed(result: nat)

  /** `syscall_received(num, arg1, arg2, arg3)`, with the caller's result register `reg`. */
  function Received(handler: Handler, num: nat, arg1: nat, arg2: nat, arg3: nat, reg: nat): (o: Outcome)
    ensures o.Panic? <==> num > LAST
    ensures o.Resumed? ==>
              var res := handler(FromUsize(num).value, arg1, arg2, arg3);
              o.result == if res.Some? then res.value else reg
  {
    match FromUsize(num)
    case None => Panic
    case Some(s) =>
      match handler(s, arg1, arg2, arg3)
      case Some(res) => Resumed(res)
      case None => Resumed(reg)
  }

  /** A syscall sent by number reaches the handler of that syscall. */
  lemma ReceivedDispatches(handler: Handler, s: Syscall, arg1: nat, arg2: nat, arg3: nat, reg: nat)
    ensures Received(handler, Number(s), arg1, arg2, arg3, reg).Resumed?
    ensures handler(s, arg1, arg2, arg3).Some? ==>
              Received(handler, Number(s), arg1, arg2, arg3, reg).result == handler(s, arg1, arg2, arg3).value
    ensures handler(s, arg1, arg2, arg3).None? ==>
              Received(handler, Number(s), arg1, arg2, arg3, reg).result == reg
  {
    FromNumber(s);
  }
}
