/**
 Bitwise and/or on natural numbers, and the mask facts that the address computations of
 kern/mm.c rest on.
 */
module Bits {

  function And(a: nat, b: nat): nat
    decreases a
  {
    if a == 0 then 0 else (if a % 2 == 1 && b % 2 == 1 then 1 else 0) + 2 * And(a / 2, b / 2)
  }

  function Or(a: nat, b: nat): nat
    decreases a + b
  {
    if a == 0 && b == 0 then 0 else (if a % 2 == 1 || b % 2 == 1 then 1 else 0) + 2 * Or(a / 2, b / 2)
  }

  /** x shifted left by k bits. */
  function Shl(x: nat, k: nat): (r: nat)
    ensures r >= x
  {
    if k == 0 then x else 2 * Shl(x, k - 1)
  }

  lemma Half(z: nat, l: nat)
    ensures (2 * z + l) / 2 == z + l / 2 && (2 * z + l) % 2 == l % 2
  {
  }

  /** Masking with b shifted left by k sees only the bits of a above k. */
  lemma {:induction false} AndShifted(h: nat, l: nat, b: nat, k: nat)
    requires l < Shl(1, k)
    ensures And(Shl(h, k) + l, Shl(b, k)) == Shl(And(h, b), k)
  {
    if k > 0 {
      AndShifted(h, l / 2, b, k - 1);
      Half(Shl(h, k - 1), l);
      Half(Shl(b, k - 1), 0);
      var x, y := Shl(h, k) + l, Shl(b, k);
      if x == 0 {
        assert And(x / 2, y / 2) == 0;
      }
    }
  }

  /** A mask of n ones keeps the n low bits. */
  lemma {:induction false} AndOnes(h: nat, l: nat, n: nat)
    requires l < Shl(1, n)
    ensures And(Shl(h, n) + l, Shl(1, n) - 1) == l
  {
    if n == 0 {
      AndZero(h);
    } else {
      AndOnes(h, l / 2, n - 1);
      Half(Shl(h, n - 1), l);
      Half(Shl(1, n - 1) - 1, 1);
    }
  }

  lemma {:induction false} AndZero(a: nat)
    ensures And(a, 0) == 0
  {
    if a != 0 {
      AndZero(a / 2);
    }
  }

  /** Or-ing bits into zeros is addition. */
  lemma {:induction false} OrDisjoint(h: nat, l: nat, k: nat)
    requires l < Shl(1, k)
    ensures Or(Shl(h, k), l) == Shl(h, k) + l
  {
    if k == 0 {
      OrZero(h);
    } else {
      OrDisjoint(h, l / 2, k - 1);
      Half(Shl(h, k - 1), 0);
    }
  }

  lemma {:induction false} OrZero(h: nat)
    ensures Or(h, 0) == h
  {
    if h != 0 {
      OrZero(h / 2);
    }
  }

  lemma {:induction false} ShlMul(x: nat, k: nat)
    ensures Shl(x, k) == x * Shl(1, k)
  {
    if k > 0 {
      ShlMul(x, k - 1);
      MulTwo(x, Shl(1, k - 1));
    }
  }

  lemma MulTwo(x: nat, y: nat)
    ensures x * (2 * y) == 2 * (x * y)
  {
  }

  /** The powers of two the masks of the paging code use. */
  lemma {:induction false} Powers()
    ensures Shl(1, 1) == 2 && Shl(1, 10) == 0x400 && Shl(1, 12) == 0x1000 && Shl(1, 20) == 0x10_0000
    ensures Shl(1, 4) == 16 && Shl(1, 28) == 0x1000_0000 && Shl(1, 22) == 0x40_0000 && Shl(1, 31) == 0x8000_0000
  {
  }

  lemma {:induction false} ShlZero(k: nat)
    ensures Shl(0, k) == 0
  {
    ShlMul(0, k);
  }

  /** Masking v with n ones above k low zeros clears the low bits, if v has no more than n + k bits. */
  lemma {:induction false} MaskAbove(h: nat, l: nat, n: nat, k: nat)
    requires l < Shl(1, k) && h < Shl(1, n)
    ensures And(Shl(h, k) + l, Shl(Shl(1, n) - 1, k)) == Shl(h, k)
  {
    AndShifted(h, l, Shl(1, n) - 1, k);
    ShlZero(n);
    AndOnes(0, h, n);
  }

  /** The mask of the directory index bits. */
  lemma {:induction false} MaskDirectory(v: nat)
    requires v < 0x1_0000_0000
    ensures And(v, 0xFFC0_0000) == v / 0x40_0000 * 0x40_0000
  {
    Powers();
    ShlMul(v / 0x40_0000, 22);
    ShlMul(0x3FF, 22);
    MaskAbove(v / 0x40_0000, v % 0x40_0000, 10, 22);
  }

  /** The mask of the page number bits. */
  lemma {:induction false} MaskPage(v: nat)
    requires v < 0x1_0000_0000
    ensures And(v, 0xFFFF_F000) == v / 0x1000 * 0x1000
  {
    Powers();
    ShlMul(v / 0x1000, 12);
    ShlMul(0xF_FFFF, 12);
    MaskAbove(v / 0x1000, v % 0x1000, 20, 12);
  }

  /** The mask that aligns a stack pointer. */
  lemma {:induction false} MaskSixteen(v: nat)
    requires v < 0x1_0000_0000
    ensures And(v, 0xFFFF_FFF0) == v / 16 * 16
  {
    Powers();
    ShlMul(v / 16, 4);
    ShlMul(0xFFF_FFFF, 4);
    MaskAbove(v / 16, v % 16, 28, 4);
  }

  /** The mask that clears bit 0. */
  lemma {:induction false} MaskBitZero(w: nat)
    requires w < 0x1_0000_0000
    ensures And(w, 0xFFFF_FFFE) == w / 2 * 2
  {
    Powers();
    ShlMul(w / 2, 1);
    ShlMul(0x7FFF_FFFF, 1);
    MaskAbove(w / 2, w % 2, 31, 1);
  }

  /** The low 12 bits. */
  lemma {:induction false} MaskOffset(v: nat)
    ensures And(v, 0xFFF) == v % 0x1000
  {
    Powers();
    ShlMul(v / 0x1000, 12);
    AndOnes(v / 0x1000, v % 0x1000, 12);
  }

  /** Or-ing low bits into a page-aligned number. */
  lemma {:induction false} OrOffset(h: nat, l: nat)
    requires l < 0x1000
    ensures Or(h * 0x1000, l) == h * 0x1000 + l
  {
    Powers();
    ShlMul(h, 12);
    OrDisjoint(h, l, 12);
  }

  /** Or-ing low bits into a 4MB-aligned number. */
  lemma {:induction false} OrRegion(h: nat, l: nat)
    requires l < 0x40_0000
    ensures Or(h * 0x40_0000, l) == h * 0x40_0000 + l
  {
    Powers();
    ShlMul(h, 22);
    OrDisjoint(h, l, 22);
  }
}
