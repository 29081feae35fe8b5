/** Bytes are `bv8` throughout the model. The kernel's `x as u8` casts of small counts are
    written `ToByte(x)`, defined by counting so that its value is provable cheaply. */
module Bytes {

  /** The byte whose value is `x` (the cast `x as u8` of a value below 256). */
  function ToByte(x: nat): (b: bv8)
    requires x < 0x100
  {
    if x == 0 then 0 else ToByte(x - 1) + 1
  }

  /** The byte's value is `x`. */
  lemma {:induction false} ToByteValue(x: nat)
    requires x < 0x100
    ensures ToByte(x) as nat == x
  {
    if x > 0 {
      ToByteValue(x - 1);
      Succ(ToByte(x - 1));
    }
  }

  /** Converting a byte to its value and back gives the byte. */
  lemma ToByteOfValue(b: bv8)
    ensures ToByte(b as nat) == b
  {
    ToByteValue(b as nat);
    ValueInjective(ToByte(b as nat), b);
  }

  lemma Succ(b: bv8)
    requires b as nat < 0xFF
    ensures (b + 1) as nat == b as nat + 1
  {
  }

  lemma ValueInjective(a: bv8, b: bv8)
    requires a as nat == b as nat
    ensures a == b
  {
  }

  lemma ValueLe(a: bv8, b: bv8)
    requires a as nat <= b as nat
    ensures a <= b
  {
  }

  /** Every byte of `s` is 0xFF: erased flash. */
  predicate AllErased(s: seq<bv8>)
  {
    forall k | 0 <= k < |s| :: s[k] == 0xFF
  }

  /** Every byte of `s` is 0x00. */
  predicate AllZero(s: seq<bv8>)
  {
    forall k | 0 <= k < |s| :: s[k] == 0x00
  }
}
