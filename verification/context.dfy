/** The arithmetic of execution contexts (`src/context.rs`): the checks that a userland
    address range lies in memory the calling context may read or write, the stack of saved
    processor contexts each context keeps (`TopOfStack`), and context ids. The kernel's
    globals (the current context's bottom and size, the program region) are parameters.
    Addresses are 32-bit `usize` values; `wrapping_offset` is written modulo 2^32. */
module Context {
  import opened Wrappers
  import Pow2

  /** The largest `usize`. */
  const USIZE_MAX: nat := Pow2.WORD - 1

  /** `usize::saturating_add`. */
  function SaturatingAdd(a: nat, b: nat): (r: nat)
    ensures r == if a + b <= USIZE_MAX then a + b else USIZE_MAX
  {
    if a + b <= USIZE_MAX then a + b else USIZE_MAX
  }

  /** The memory range of the context running in userland: `CURRENT_CONTEXT_BOTTOM` and
      `CURRENT_CONTEXT_SIZE`. A bottom of 0 means no context has been switched to yet. */
  datatype Current = Current(bottom: nat, size: nat)

  /** The range lies inside the address space. */
  predicate Wf(cur: Current)
  {
    cur.bottom + cur.size <= USIZE_MAX
  }

  /** `in_current_context(addr, size)`. */
  predicate InCurrentContext(cur: Current, addr: nat, size: nat)
  {
    cur.bottom == 0 || (cur.bottom <= addr && SaturatingAdd(addr, size) <= cur.bottom + cur.size)
  }

  /** `is_readable_from_current_context(addr, size)`: the current context's memory or the
      program's code. */
  predicate IsReadable(cur: Current, programBegin: nat, programSize: nat, addr: nat, size: nat)
  {
    || InCurrentContext(cur, addr, size)
    || (programBegin <= addr && SaturatingAdd(addr, size) <= programBegin + programSize)
  }

  /** `is_writable_from_current_context(addr, size)`: the current context's memory only. */
  predicate IsWritable(cur: Current, addr: nat, size: nat)
  {
    InCurrentContext(cur, addr, size)
  }

  /** Every byte of `[addr, addr + size)` below the top of the address space lies in
      `[low, high)`. */
  predicate BytesWithin(addr: nat, size: nat, low: nat, high: nat)
  {
    forall x | addr <= x < addr + size && x < USIZE_MAX :: Inside(x, low, high)
  }

  /** The address lies in `[low, high)`. */
  predicate Inside(x: nat, low: nat, high: nat)
  {
    low <= x < high
  }

  /** Once a context runs, an accepted range never reaches out of it, whatever the size: a
      range whose end overflows saturates instead of wrapping around. Conversely, a non-empty
      range that does not overflow is accepted when all its bytes are in the context. */
  lemma InCurrentContextMeaning(cur: Current, addr: nat, size: nat)
    requires Wf(cur) && cur.bottom != 0
    ensures InCurrentContext(cur, addr, size) ==> BytesWithin(addr, size, cur.bottom, cur.bottom + cur.size)
    ensures size > 0 && addr + size <= USIZE_MAX && BytesWithin(addr, size, cur.bottom, cur.bottom + cur.size)
            ==> InCurrentContext(cur, addr, size)
  {
    if size > 0 && addr + size <= USIZE_MAX && BytesWithin(addr, size, cur.bottom, cur.bottom + cur.size) {
      assert Inside(addr, cur.bottom, cur.bottom + cur.size);
      assert Inside(addr + size - 1, cur.bottom, cur.bottom + cur.size);
    }
  }

  /** A range whose end overflows is accepted only when the context runs to the top of the
      address space. */
  lemma OverflowingRange(cur: Current, addr: nat, size: nat)
    requires Wf(cur) && cur.bottom != 0 && addr + size > USIZE_MAX
    ensures InCurrentContext(cur, addr, size) <==> cur.bottom <= addr && cur.bottom + cur.size == USIZE_MAX
  {
  }

  /** What a context may write it may also read. */
  lemma WritableIsReadable(cur: Current, programBegin: nat, programSize: nat, addr: nat, size: nat)
    requires IsWritable(cur, addr, size)
    ensures IsReadable(cur, programBegin, programSize, addr, size)
  {
  }

  // ---------------------------------------------------------------------------------
  // Stacks of saved processor contexts

  /** A context's stack: its bounds and the address of the saved processor context on top,
      if any. `frame` below is `size_of::<Context>()`. */
  datatype TopOfStack = TopOfStack(lowest: nat, highest: nat, context: Option<nat>)

  /** `TopOfStack::empty(lowest, highest)`. */
  function Empty(lowest: nat, highest: nat): TopOfStack
  {
    TopOfStack(lowest, highest, None)
  }

  /** The address the next frame is pushed below: the saved context on top, or `highest`. */
  function Top(t: TopOfStack): nat
  {
    if t.context.Some? then t.context.value else t.highest
  }

  /** `push_context`: the new frame goes one frame below the top (`wrapping_offset(-1)`),
      and must not go below `lowest` (the assertion) nor be null (the `unwrap`); `None` is
      the kernel's panic. */
  function Push(t: TopOfStack, frame: nat): (r: Option<TopOfStack>)
    requires frame > 0
    ensures r.Some? ==> r.value.lowest == t.lowest && r.value.highest == t.highest
    ensures r.Some? ==> r.value.context.Some? && t.lowest <= r.value.context.value
    ensures r.Some? && frame <= Top(t) < Pow2.WORD ==> r.value.context.value + frame == Top(t)
  {
    var top := (Top(t) - frame) % Pow2.WORD;
    if top < t.lowest || top == 0 then None else Some(TopOfStack(t.lowest, t.highest, Some(top)))
  }

  /** `pop_context`: popping an empty stack panics (`None`); otherwise the top moves one
      frame up (`wrapping_offset(1)`), and the stack is empty once a frame there would reach
      `highest`. */
  function Pop(t: TopOfStack, frame: nat): (r: Option<TopOfStack>)
    requires frame > 0
    ensures t.context.None? ==> r.None?
    ensures r.Some? ==> r.value.lowest == t.lowest && r.value.highest == t.highest
  {
    match t.context
    case None => None
    case Some(c) =>
      var next := (c + frame) % Pow2.WORD;
      if next + frame >= t.highest then Some(TopOfStack(t.lowest, t.highest, None))
      else if next == 0 then None
      else Some(TopOfStack(t.lowest, t.highest, Some(next)))
  }

  /** Popping what was just pushed restores the stack: an empty stack is empty again, and a
      saved context whose frame ends below `highest` is on top again. */
  lemma PopPush(t: TopOfStack, frame: nat)
    requires 0 < frame < Pow2.WORD && Top(t) < Pow2.WORD && Push(t, frame).Some?
    requires t.context.Some? ==> t.context.value + frame < t.highest && t.context.value > 0
    ensures Pop(Push(t, frame).value, frame) == Some(t)
  {
    var top := Top(t);
    if top < frame {
      assert (top - frame) % Pow2.WORD == top - frame + Pow2.WORD;
    }
  }

  /** A saved context whose frame ends at `highest` is not restored by the pop: the stack
      comes out empty. */
  lemma PopPushAtTop(t: TopOfStack, frame: nat)
    requires 0 < frame < Pow2.WORD && t.context.Some? && t.context.value + frame == t.highest
    requires t.context.value < Pow2.WORD && Push(t, frame).Some?
    ensures Pop(Push(t, frame).value, frame) == Some(Empty(t.lowest, t.highest))
  {
    var c := t.context.value;
    if c < frame {
      assert (c - frame) % Pow2.WORD == c - frame + Pow2.WORD;
    }
  }

  // ---------------------------------------------------------------------------------
  // Context ids

  /** `ContextID::new(id)` with `count` contexts set up: the id, or `None` where the kernel
      panics. */
  function NewId(id: nat, count: nat): (r: Option<nat>)
    ensures r.Some? <==> id < count
    ensures r.Some? ==> r.value == id
  {
    if id < count then Some(id) else None
  }
}
