/** The one-slot argument buffer (`src/argbuf.rs`): a memory area of `argbuf_size()` bytes
    whose first `usize` holds the length of the stored argument and whose following bytes
    hold the argument. One side stores an argument with `set_argbuf`, the other takes it out
    with `get_argbuf`, which also wipes it.

    Every length the code stores or reads is asserted below `room = argbuf_size() - 4` (the
    width of a 32-bit `usize`), so only the first `room - 1` data bytes can ever be addressed;
    the model keeps exactly those as `cells`. The source's assertions are preconditions. */
module Argbuf {

  /** The width of the length word. */
  const USIZE_BYTES: nat := 4

  /** The area: its room after the length word, the stored length and the addressable data
      bytes. */
  datatype ArgBuf = ArgBuf(room: nat, len: nat, cells: seq<bv8>)

  /** The length invariant the source asserts on every access, and the data bytes the model
      keeps. */
  predicate Wf(a: ArgBuf)
  {
    a.room >= 1 && a.len < a.room && |a.cells| == a.room - 1
  }

  /** No stale byte: every data byte past the stored argument is zero. */
  predicate Clean(a: ArgBuf)
    requires Wf(a)
  {
    forall i | a.len <= i < |a.cells| :: a.cells[i] == 0
  }

  /** The area of a buffer of `size` bytes before `setup_argbuf`, with arbitrary contents. */
  function Area(size: nat, len: nat, cells: seq<bv8>): (a: ArgBuf)
    requires size > USIZE_BYTES && len < size - USIZE_BYTES
    requires |cells| == size - USIZE_BYTES - 1
    ensures Wf(a)
  {
    ArgBuf(size - USIZE_BYTES, len, cells)
  }

  /** `setup_argbuf`: the length becomes 0 and every addressable data byte 0. */
  function Setup(a: ArgBuf): (r: ArgBuf)
    requires a.room >= 1 && |a.cells| == a.room - 1
    ensures Wf(r) && Clean(r) && r.room == a.room && r.len == 0
    ensures forall i | 0 <= i < |r.cells| :: r.cells[i] == 0
  {
    ArgBuf(a.room, 0, seq(|a.cells|, _ => 0))
  }

  /** `set_argbuf(data)`: requires an empty slot and an argument shorter than the room;
      stores the argument at the start of the data bytes and records its length. */
  function Set(a: ArgBuf, data: seq<bv8>): (r: ArgBuf)
    requires Wf(a) && a.len == 0 && |data| < a.room
    ensures Wf(r) && r.room == a.room && r.len == |data|
    ensures r.cells[..|data|] == data && r.cells[|data|..] == a.cells[|data|..]
  {
    ArgBuf(a.room, |data|, data + a.cells[|data|..])
  }

  /** `get_argbuf(ret)`: requires a stored argument (non-zero length) and a destination of
      exactly its length (`copy_from_slice` panics otherwise); returns the argument, zeroes
      its bytes and empties the slot. */
  function Get(a: ArgBuf, retLen: nat): (r: (ArgBuf, seq<bv8>))
    requires Wf(a) && a.len != 0 && retLen == a.len
    ensures Wf(r.0) && r.0.room == a.room && r.0.len == 0
    ensures r.1 == a.cells[..a.len]
    ensures forall i | 0 <= i < a.len :: r.0.cells[i] == 0
    ensures r.0.cells[a.len..] == a.cells[a.len..]
  {
    (ArgBuf(a.room, 0, seq(a.len, _ => 0) + a.cells[a.len..]), a.cells[..a.len])
  }

  /** Storing keeps the buffer clean. */
  lemma SetClean(a: ArgBuf, data: seq<bv8>)
    requires Wf(a) && a.len == 0 && |data| < a.room && Clean(a)
    ensures Clean(Set(a, data))
  {
    var r := Set(a, data);
    forall i | r.len <= i < |r.cells| ensures r.cells[i] == 0 {
      assert r.cells[i] == r.cells[|data|..][i - |data|];
    }
  }

  /** Taking the argument out of a clean buffer leaves no byte of it behind: every data byte
      is zero again. */
  lemma GetWipes(a: ArgBuf)
    requires Wf(a) && a.len != 0 && Clean(a)
    ensures Clean(Get(a, a.len).0)
    ensures forall i | 0 <= i < |Get(a, a.len).0.cells| :: Get(a, a.len).0.cells[i] == 0
  {
    var r := Get(a, a.len).0;
    forall i | 0 <= i < |r.cells| ensures r.cells[i] == 0 {
      if i >= a.len {
        assert r.cells[i] == r.cells[a.len..][i - a.len];
      }
    }
  }

  /** The round trip: a non-empty argument stored in an empty slot comes back unchanged,
      and the slot is empty again, so the next argument can be stored. */
  lemma RoundTrip(a: ArgBuf, data: seq<bv8>)
    requires Wf(a) && a.len == 0 && 0 < |data| < a.room
    ensures Get(Set(a, data), |data|).1 == data
    ensures Get(Set(a, data), |data|).0.len == 0
  {
  }

  /** Two arguments passed one after the other after `setup_argbuf`, each taken out before
      the next is stored, both come back unchanged, and the buffer ends empty and all zero. */
  lemma TwoRoundTrips(a: ArgBuf, d1: seq<bv8>, d2: seq<bv8>)
    requires a.room >= 1 && |a.cells| == a.room - 1
    requires 0 < |d1| < a.room && 0 < |d2| < a.room
    ensures
      var s := Setup(a);
      var (s1, out1) := Get(Set(s, d1), |d1|);
      var (s2, out2) := Get(Set(s1, d2), |d2|);
      out1 == d1 && out2 == d2 && s2.len == 0 && Clean(s2)
      && forall i | 0 <= i < |s2.cells| :: s2.cells[i] == 0
  {
    var s := Setup(a);
    SetClean(s, d1);
    GetWipes(Set(s, d1));
    var s1 := Get(Set(s, d1), |d1|).0;
    SetClean(s1, d2);
    GetWipes(Set(s1, d2));
  }
}
