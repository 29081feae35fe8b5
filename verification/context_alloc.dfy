/** Carving the contexts' memory out of the RAM range the linker reserves for them
    (`src/contextallocator.rs`). Context 0 keeps the memory the kernel started in; every
    other context gets a naturally aligned block of the same power-of-two size (so that one
    MPU region covers it), whose lower half is its stack and upper half its heap.

    The reserved range `[begin, begin + available)` is a parameter (`begin_addr()` and
    `available_size()`), and so are the remote-call entry points of the contexts. A size is
    given by its exponent `k`: every size the allocator tries is a power of two. Zeroing the
    carved blocks is a memory write and is not modelled.

    The fit test as written charges `n` blocks for the `n - 1` blocks it carves
    (`AllocateOfSizeAsWritten`); the rest of the model uses the test that charges what is
    carved (`AllocateOfSize`). */
module ContextAlloc {
  import opened Wrappers
  import Pow2
  import Context

  /** The metadata of one context: context 0 keeps the kernel's own memory, the others get a
      carved block with its stack and heap. */
  datatype Meta =
    | Ctx0(entry: nat)
    | Carved(entry: nat, begin: nat, size: nat, stack: Context.TopOfStack, heapBegin: nat, heapSize: nat)

  /** `(b + size - 1) & !(size - 1)` for `size == 2^k`: the least multiple of `2^k` at or
      above `b`, computed bit by bit from the lowest one. */
  function AlignUp(b: nat, k: nat): (r: nat)
    ensures b <= r < b + Pow2.Pow2(k)
    ensures Pow2.LowBitsZero(r, k)
    decreases k
  {
    if k == 0 then b else 2 * AlignUp((b + 1) / 2, k - 1)
  }

  /** No aligned address lies between `b` and `AlignUp(b, k)`. */
  lemma {:induction false} AlignUpLeast(b: nat, k: nat, x: nat)
    requires b <= x && Pow2.LowBitsZero(x, k)
    ensures AlignUp(b, k) <= x
    decreases k
  {
    if k > 0 {
      AlignUpLeast((b + 1) / 2, k - 1, x / 2);
    }
  }

  /** The block of size `2^k` at `b`: the stack on its lower half, empty, and the heap on
      its upper half (`size >> 1` bytes each). */
  function Block(entry: nat, b: nat, k: nat): (m: Meta)
    ensures m.Carved? && m.entry == entry && m.begin == b && m.size == Pow2.Pow2(k)
    ensures m.stack == Context.Empty(b, m.heapBegin) && m.heapBegin == b + m.heapSize
    ensures m.heapSize + m.heapSize + (if k == 0 then 1 else 0) == m.size
  {
    var half := Pow2.Pow2(k) / 2;
    Carved(entry, b, Pow2.Pow2(k), Context.Empty(b, b + half), b + half, half)
  }

  /** `size * i`, counted block by block. */
  function Offset(size: nat, i: nat): nat
  {
    if i == 0 then 0 else Offset(size, i - 1) + size
  }

  /** The count is the product the source writes. */
  lemma {:induction false} OffsetIsProduct(size: nat, i: nat)
    ensures Offset(size, i) == size * i
  {
    if i > 0 {
      OffsetIsProduct(size, i - 1);
      calc {
        size * i;
        size * ((i - 1) + 1);
        size * (i - 1) + size;
      }
    }
  }

  /** The blocks of size `2^k` carved from `aligned` for the contexts with the given entry
      points: context `i >= 1` gets the `i`-th block, `aligned + size * (i - 1)`. */
  function Carve(entries: seq<nat>, aligned: nat, k: nat): (r: seq<Meta>)
    requires |entries| >= 1
    ensures |r| == |entries| && r[0] == Ctx0(entries[0])
    ensures forall i | 1 <= i < |r| :: r[i] == Block(entries[i], aligned + Offset(Pow2.Pow2(k), i - 1), k)
  {
    seq(|entries|, i requires 0 <= i < |entries| =>
      if i == 0 then Ctx0(entries[0]) else Block(entries[i], aligned + Offset(Pow2.Pow2(k), i - 1), k))
  }

  /** `allocate_contexts_of_size` as written: `None` when the padding plus `n` blocks reach
      the end of the range, although only `n - 1` blocks are carved. */
  function AllocateOfSizeAsWritten(entries: seq<nat>, begin: nat, available: nat, k: nat): (r: Option<seq<Meta>>)
    requires |entries| >= 1
    ensures r.Some? ==> r.value == Carve(entries, AlignUp(begin, k), k)
  {
    var aligned := AlignUp(begin, k);
    if (aligned - begin) + Offset(Pow2.Pow2(k), |entries|) >= available then None
    else Some(Carve(entries, aligned, k))
  }

  /** `allocate_contexts_of_size` with the fit test charging the `n - 1` carved blocks: `None`
      when the last block would end past the range. */
  function AllocateOfSize(entries: seq<nat>, begin: nat, available: nat, k: nat): (r: Option<seq<Meta>>)
    requires |entries| >= 1
    ensures r.Some? ==> r.value == Carve(entries, AlignUp(begin, k), k)
  {
    var aligned := AlignUp(begin, k);
    if (aligned - begin) + Offset(Pow2.Pow2(k), |entries| - 1) > available then None
    else Some(Carve(entries, aligned, k))
  }

  /** The exponent of the first size tried: the largest power of two at most
      `available / (n - 1)`, `1 << (31 - leading_zeros(optimal))`; `None` when that bound is
      0 and the subtraction overflows. */
  function FirstExponent(n: nat, available: nat): (r: Option<nat>)
    requires n >= 2 && available < Pow2.WORD
    ensures r.None? <==> available / (n - 1) == 0
    ensures r.Some? ==> Pow2.Pow2(r.value) <= available / (n - 1) < 2 * Pow2.Pow2(r.value)
  {
    var optimal := available / (n - 1);
    var lz := Pow2.LeadingZeros(optimal);
    if lz > 31 then None else Some(31 - lz)
  }

  /** One size tried, with the fit test as written or the corrected one. */
  function OfSize(entries: seq<nat>, begin: nat, available: nat, k: nat, asWritten: bool): Option<seq<Meta>>
    requires |entries| >= 1
  {
    if asWritten then AllocateOfSizeAsWritten(entries, begin, available, k)
    else AllocateOfSize(entries, begin, available, k)
  }

  /** `allocate_contexts`, given the fit test of a size: the first size, then once its half
      (a halved size of 1 is 0 and `size - 1` overflows), and `None`, the kernel's panic,
      when both fail. `assert!(c.len() > 1)` is the precondition. */
  function Allocate(entries: seq<nat>, begin: nat, available: nat, asWritten: bool): (r: Option<seq<Meta>>)
    requires |entries| >= 2 && available < Pow2.WORD
    ensures r.Some? ==> exists k: nat :: r == OfSize(entries, begin, available, k, asWritten)
  {
    var first := FirstExponent(|entries|, available);
    if first.None? then None
    else
      var k := first.value;
      if OfSize(entries, begin, available, k, asWritten).Some? then OfSize(entries, begin, available, k, asWritten)
      else if k == 0 then None
      else OfSize(entries, begin, available, k - 1, asWritten)
  }

  // ---------------------------------------------------------------------------------
  // The layout

  /** Sums of multiples of `2^k` are multiples of `2^k`. */
  lemma {:induction false} AddAligned(x: nat, y: nat, k: nat)
    requires Pow2.LowBitsZero(x, k) && Pow2.LowBitsZero(y, k)
    ensures Pow2.LowBitsZero(x + y, k)
    decreases k
  {
    if k > 0 {
      AddAligned(x / 2, y / 2, k - 1);
      assert (x + y) / 2 == x / 2 + y / 2;
    }
  }

  /** `2^k` is a multiple of `2^k`. */
  lemma {:induction false} Pow2Aligned(k: nat)
    ensures Pow2.LowBitsZero(Pow2.Pow2(k), k)
    decreases k
  {
    if k > 0 {
      Pow2Aligned(k - 1);
      assert Pow2.Pow2(k) / 2 == Pow2.Pow2(k - 1);
    }
  }

  /** Whole blocks of size `2^k` take a multiple of `2^k`. */
  lemma {:induction false} OffsetAligned(k: nat, i: nat)
    ensures Pow2.LowBitsZero(Offset(Pow2.Pow2(k), i), k)
  {
    if i > 0 {
      OffsetAligned(k, i - 1);
      Pow2Aligned(k);
      AddAligned(Offset(Pow2.Pow2(k), i - 1), Pow2.Pow2(k), k);
    } else {
      ZeroAligned(k);
    }
  }

  /** 0 is aligned to every size. */
  lemma {:induction false} ZeroAligned(k: nat)
    ensures Pow2.LowBitsZero(0, k)
  {
    if k > 0 {
      ZeroAligned(k - 1);
    }
  }

  /** More blocks take more room. */
  lemma {:induction false} OffsetMonotone(size: nat, i: nat, j: nat)
    requires i <= j
    ensures Offset(size, i) <= Offset(size, j)
    decreases j
  {
    if i < j {
      OffsetMonotone(size, i, j - 1);
    }
  }

  /** Larger blocks take more room. */
  lemma {:induction false} OffsetMonotoneSize(a: nat, b: nat, i: nat)
    requires a <= b
    ensures Offset(a, i) <= Offset(b, i)
  {
    if i > 0 {
      OffsetMonotoneSize(a, b, i - 1);
    }
  }

  /** Blocks of twice the size take twice the room. */
  lemma {:induction false} OffsetDouble(size: nat, i: nat)
    ensures Offset(2 * size, i) == Offset(size, i) + Offset(size, i)
  {
    if i > 0 {
      OffsetDouble(size, i - 1);
    }
  }

  /** `m` blocks of `a / m` fit in `a`. */
  lemma OffsetOfQuotient(a: nat, m: nat)
    requires m >= 1
    ensures Offset(a / m, m) <= a
  {
    OffsetIsProduct(a / m, m);
    assert (a / m) * m <= a;
  }

  /** The carved blocks are aligned to their size when the first one is, lie one after the
      other from `aligned` on, and never overlap. */
  lemma CarveLayout(entries: seq<nat>, aligned: nat, k: nat)
    requires |entries| >= 1 && Pow2.LowBitsZero(aligned, k)
    ensures var r := Carve(entries, aligned, k);
      forall i | 1 <= i < |r| ::
        && Pow2.LowBitsZero(r[i].begin, k)
        && aligned <= r[i].begin
        && r[i].begin + r[i].size <= aligned + Offset(Pow2.Pow2(k), |r| - 1)
    ensures var r := Carve(entries, aligned, k);
      forall i, j | 1 <= i < j < |r| :: r[i].begin + r[i].size <= r[j].begin
  {
    var r := Carve(entries, aligned, k);
    var size := Pow2.Pow2(k);
    forall i | 1 <= i < |r|
      ensures Pow2.LowBitsZero(r[i].begin, k)
      ensures r[i].begin + r[i].size <= aligned + Offset(size, |r| - 1)
    {
      OffsetAligned(k, i - 1);
      AddAligned(aligned, Offset(size, i - 1), k);
      OffsetMonotone(size, i, |r| - 1);
    }
    forall i, j | 1 <= i < j < |r|
      ensures r[i].begin + r[i].size <= r[j].begin
    {
      OffsetMonotone(size, i, j - 1);
    }
  }

  /** An accepted size gives every context but the first a block of that size inside the
      reserved range, aligned to its size, disjoint from the others, with the stack on its
      lower half and the heap on its upper half; the size is refused exactly when the last
      block would end past the range. */
  lemma AllocateOfSizeLayout(entries: seq<nat>, begin: nat, available: nat, k: nat)
    requires |entries| >= 1
    ensures AllocateOfSize(entries, begin, available, k).None?
            <==> AlignUp(begin, k) + Pow2.Pow2(k) * (|entries| - 1) > begin + available
    ensures AllocateOfSize(entries, begin, available, k).Some? ==>
      var r := AllocateOfSize(entries, begin, available, k).value;
      && |r| == |entries| && r[0] == Ctx0(entries[0])
      && (forall i | 1 <= i < |r| ::
            && r[i].Carved? && r[i].entry == entries[i] && r[i].size == Pow2.Pow2(k)
            && Pow2.LowBitsZero(r[i].begin, k)
            && begin <= r[i].begin && r[i].begin + r[i].size <= begin + available
            && r[i].stack == Context.Empty(r[i].begin, r[i].heapBegin)
            && r[i].heapBegin == r[i].begin + r[i].heapSize)
      && (forall i, j | 1 <= i < j < |r| :: r[i].begin + r[i].size <= r[j].begin)
  {
    OffsetIsProduct(Pow2.Pow2(k), |entries| - 1);
    CarveLayout(entries, AlignUp(begin, k), k);
  }

  /** Every size the fit test as written accepts, the corrected test accepts too, with the
      same layout: the written test only refuses more. */
  lemma AsWrittenIsStricter(entries: seq<nat>, begin: nat, available: nat, k: nat)
    requires |entries| >= 1
    ensures AllocateOfSizeAsWritten(entries, begin, available, k).Some? ==>
              AllocateOfSize(entries, begin, available, k) == AllocateOfSizeAsWritten(entries, begin, available, k)
  {
    OffsetMonotone(Pow2.Pow2(k), |entries| - 1, |entries|);
  }

  // ---------------------------------------------------------------------------------
  // When allocation succeeds

  /** With the corrected fit test, `allocate_contexts` panics exactly when
      `available / (n - 1)` is 0: the first size is refused only when it is at least 2, and
      then the halved size always fits. */
  lemma AllocateSucceeds(entries: seq<nat>, begin: nat, available: nat)
    requires |entries| >= 2 && available < Pow2.WORD
    ensures Allocate(entries, begin, available, false).Some? <==> available / (|entries| - 1) >= 1
  {
    var n := |entries|;
    var first := FirstExponent(n, available);
    if first.Some? {
      var k := first.value;
      if AllocateOfSize(entries, begin, available, k).None? {
        if k == 0 {
          OffsetOfQuotient(available, n - 1);
          assert false;
        }
        HalvedFits(entries, begin, available, k);
      }
    }
  }

  /** The halved size `2^(k-1)` fits whenever `2^k` is at most `available / (n - 1)`: the
      padding is below one halved block and the `n - 1` halved blocks take at most
      `available - 2^(k-1)`. */
  lemma HalvedFits(entries: seq<nat>, begin: nat, available: nat, k: nat)
    requires |entries| >= 2 && k >= 1 && Pow2.Pow2(k) <= available / (|entries| - 1)
    ensures AllocateOfSize(entries, begin, available, k - 1).Some?
  {
    var m := |entries| - 1;
    var half := Pow2.Pow2(k - 1);
    OffsetMonotoneSize(2 * half, available / m, m);
    OffsetOfQuotient(available, m);
    OffsetDouble(half, m);
    OffsetMonotone(half, 1, m);
  }

  // ---------------------------------------------------------------------------------
  // The fit test as written

  /** With two contexts the fit test as written never accepts the first size: the largest
      power of two at most `available` is more than half of it, and the test charges two
      blocks. */
  lemma AsWrittenRefusesFirstForTwo(entries: seq<nat>, begin: nat, available: nat)
    requires |entries| == 2 && 1 <= available < Pow2.WORD
    ensures var k := FirstExponent(2, available).value;
            AllocateOfSizeAsWritten(entries, begin, available, k).None?
  {
    var k := FirstExponent(2, available).value;
    assert Offset(Pow2.Pow2(k), 1) == Pow2.Pow2(k);
    assert Offset(Pow2.Pow2(k), 2) == Pow2.Pow2(k) + Pow2.Pow2(k);
  }

  /** Two contexts and a reserved range of exactly `2^k` bytes at an address aligned to
      `2^k` (say `0x1000` bytes at `0x1000`): one block of `2^k` bytes fills it, and the
      corrected allocation carves it, but the test as written refuses both `2^k` and
      `2^(k-1)` and the kernel panics. */
  lemma AsWrittenPanicsOnExactFit(entries: seq<nat>, begin: nat, k: nat)
    requires |entries| == 2 && k >= 1 && Pow2.Pow2(k) < Pow2.WORD && Pow2.LowBitsZero(begin, k)
    ensures Allocate(entries, begin, Pow2.Pow2(k), true).None?
    ensures var r := Allocate(entries, begin, Pow2.Pow2(k), false);
            r.Some? && r.value[1].begin == begin && r.value[1].size == Pow2.Pow2(k)
  {
    FirstExponentOfPow2(k);
    ExactFitAsWritten(entries, begin, k);
    BothSizesRefused(entries, begin, Pow2.Pow2(k), k, true);
    ExactFitCorrected(entries, begin, k);
    FirstSizeTaken(entries, begin, Pow2.Pow2(k), k, false);
  }

  /** When both sizes tried are refused, the allocation panics. */
  lemma BothSizesRefused(entries: seq<nat>, begin: nat, available: nat, k: nat, asWritten: bool)
    requires |entries| >= 2 && available < Pow2.WORD && k >= 1
    requires FirstExponent(|entries|, available) == Some(k)
    requires OfSize(entries, begin, available, k, asWritten).None?
    requires OfSize(entries, begin, available, k - 1, asWritten).None?
    ensures Allocate(entries, begin, available, asWritten).None?
  {
  }

  /** When the first size tried fits, the allocation uses it. */
  lemma FirstSizeTaken(entries: seq<nat>, begin: nat, available: nat, k: nat, asWritten: bool)
    requires |entries| >= 2 && available < Pow2.WORD
    requires FirstExponent(|entries|, available) == Some(k)
    requires OfSize(entries, begin, available, k, asWritten).Some?
    ensures Allocate(entries, begin, available, asWritten) == OfSize(entries, begin, available, k, asWritten)
  {
  }

  /** The test as written refuses both sizes tried. */
  lemma ExactFitAsWritten(entries: seq<nat>, begin: nat, k: nat)
    requires |entries| == 2 && k >= 1 && Pow2.LowBitsZero(begin, k)
    ensures OfSize(entries, begin, Pow2.Pow2(k), k, true).None?
    ensures OfSize(entries, begin, Pow2.Pow2(k), k - 1, true).None?
  {
    ExactFitAligned(begin, k);
    RefusesExactFit(entries, begin, k);
  }

  /** An address aligned to `2^k` is its own alignment to `2^k` and to `2^(k-1)`. */
  lemma ExactFitAligned(begin: nat, k: nat)
    requires k >= 1 && Pow2.LowBitsZero(begin, k)
    ensures AlignUp(begin, k) == begin && AlignUp(begin, k - 1) == begin
  {
    AlignedIsFixed(begin, k);
    AlignedLower(begin, k);
    AlignedIsFixed(begin, k - 1);
  }

  /** The corrected test accepts the first size, and context 1 gets the whole range. */
  lemma ExactFitCorrected(entries: seq<nat>, begin: nat, k: nat)
    requires |entries| == 2 && Pow2.LowBitsZero(begin, k)
    ensures OfSize(entries, begin, Pow2.Pow2(k), k, false) == Some(Carve(entries, begin, k))
    ensures Carve(entries, begin, k)[1].begin == begin
    ensures Carve(entries, begin, k)[1].size == Pow2.Pow2(k)
  {
    AlignedIsFixed(begin, k);
    assert Offset(Pow2.Pow2(k), 1) == Pow2.Pow2(k);
    SecondBlock(entries, begin, k);
  }

  /** With two contexts, the first size tried for a range of `2^k` bytes is `2^k`. */
  lemma FirstExponentOfPow2(k: nat)
    requires Pow2.Pow2(k) < Pow2.WORD
    ensures FirstExponent(2, Pow2.Pow2(k)) == Some(k)
  {
    var r := FirstExponent(2, Pow2.Pow2(k)).value;
    if r < k {
      Pow2.Pow2Monotone(r + 1, k);
      assert false;
    } else if r > k {
      Pow2.Pow2Monotone(k + 1, r);
      assert false;
    }
  }

  /** With two contexts, a range of exactly `2^k` bytes at an address aligned to `2^k` is
      refused by the test as written both at `2^k` and at `2^(k-1)`. */
  lemma RefusesExactFit(entries: seq<nat>, begin: nat, k: nat)
    requires |entries| == 2 && k >= 1
    requires AlignUp(begin, k) == begin && AlignUp(begin, k - 1) == begin
    ensures OfSize(entries, begin, Pow2.Pow2(k), k, true).None?
    ensures OfSize(entries, begin, Pow2.Pow2(k), k - 1, true).None?
  {
    var p := Pow2.Pow2(k - 1);
    assert Pow2.Pow2(k) == p + p;
    assert Offset(p, 1) == p;
    assert Offset(p, 2) == p + p;
    assert Offset(p + p, 1) == p + p;
  }

  /** Context 1 gets the first block. */
  lemma SecondBlock(entries: seq<nat>, aligned: nat, k: nat)
    requires |entries| >= 2
    ensures Carve(entries, aligned, k)[1].begin == aligned
    ensures Carve(entries, aligned, k)[1].size == Pow2.Pow2(k)
  {
  }

  /** An address aligned to `2^k` is aligned to `2^(k-1)`. */
  lemma {:induction false} AlignedLower(b: nat, k: nat)
    requires k >= 1 && Pow2.LowBitsZero(b, k)
    ensures Pow2.LowBitsZero(b, k - 1)
    decreases k
  {
    if k > 1 {
      AlignedLower(b / 2, k - 1);
    }
  }

  /** An address that is already a multiple of `2^k` is its own alignment. */
  lemma AlignedIsFixed(b: nat, k: nat)
    requires Pow2.LowBitsZero(b, k)
    ensures AlignUp(b, k) == b
  {
    AlignUpLeast(b, k, b);
  }
}
