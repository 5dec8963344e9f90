/** Single bits of a 32-bit word, as pmm.c's bit helpers handle them. The lemmas keep raw
    bit-vector terms apart from each other: each is a few operations on one or two words. */
module Bits {

  const BITS_PER_ENTRY := 32

  function Mask(i: nat): bv32
    requires i < BITS_PER_ENTRY
  {
    1 << i
  }

  function With(w: bv32, m: bv32): bv32 { w | m }

  function Without(w: bv32, m: bv32): bv32 { w & !m }

  predicate On(w: bv32, m: bv32) { w & m != 0 }

  predicate Bit(w: bv32, i: nat)
    requires i < BITS_PER_ENTRY
  {
    On(w, Mask(i))
  }

  lemma {:induction false} MaskBit(i: nat, j: nat)
    requires i < BITS_PER_ENTRY && j < BITS_PER_ENTRY
    ensures On(Mask(i), Mask(j)) <==> i == j
  {
    hide On, Mask;
    if i == j {
      MaskOn(i);
    } else {
      MaskOff(i, j);
    }
  }

  lemma {:induction false} MaskOn(i: nat)
    requires i < BITS_PER_ENTRY
    ensures On(Mask(i), Mask(i))
  {
  }

  lemma {:induction false} MaskOff(i: nat, j: nat)
    requires i < BITS_PER_ENTRY && j < BITS_PER_ENTRY && i != j
    ensures !On(Mask(i), Mask(j))
  {
  }

  lemma {:induction false} OffMeansZero(w: bv32, m: bv32)
    requires !On(w, m)
    ensures w & m == 0
  {
  }

  lemma {:induction false} SameMasked(w: bv32, x: bv32, m: bv32)
    requires x & m == w & m
    ensures On(x, m) == On(w, m)
  {
  }

  lemma {:induction false} OrApart(w: bv32, a: bv32, b: bv32)
    requires a & b == 0
    ensures With(w, a) & b == w & b
  {
  }

  lemma {:induction false} AndNotApart(w: bv32, a: bv32, b: bv32)
    requires a & b == 0
    ensures Without(w, a) & b == w & b
  {
  }

  lemma {:induction false} OrSame(w: bv32, a: bv32)
    requires On(a, a)
    ensures On(With(w, a), a)
  {
    assert (w | a) & a == a;
  }

  lemma {:induction false} AndNotSame(w: bv32, a: bv32)
    ensures !On(Without(w, a), a)
  {
  }

  /** Setting bit i turns on just that bit. */
  lemma {:induction false} SetBit(w: bv32, i: nat, j: nat)
    requires i < BITS_PER_ENTRY && j < BITS_PER_ENTRY
    ensures Bit(With(w, Mask(i)), j) <==> i == j || Bit(w, j)
  {
    hide Mask, On, With;
    MaskBit(i, j);
    var a, b := Mask(i), Mask(j);
    if i == j {
      OrSame(w, a);
    } else {
      OffMeansZero(a, b);
      OrApart(w, a, b);
      SameMasked(w, With(w, a), b);
    }
  }

  /** Clearing bit i turns off just that bit. */
  lemma {:induction false} ClearBit(w: bv32, i: nat, j: nat)
    requires i < BITS_PER_ENTRY && j < BITS_PER_ENTRY
    ensures Bit(Without(w, Mask(i)), j) <==> i != j && Bit(w, j)
  {
    hide Mask, On, Without;
    MaskBit(i, j);
    var a, b := Mask(i), Mask(j);
    if i == j {
      AndNotSame(w, a);
    } else {
      OffMeansZero(a, b);
      AndNotApart(w, a, b);
      SameMasked(w, Without(w, a), b);
    }
  }

  lemma {:induction false} AllOnes(i: nat)
    requires i < BITS_PER_ENTRY
    ensures Bit(0xFFFF_FFFF, i)
  {
    MaskBit(i, i);
    assert 0xFFFF_FFFF & Mask(i) == Mask(i);
    assert Mask(i) & Mask(i) == Mask(i);
  }
}
