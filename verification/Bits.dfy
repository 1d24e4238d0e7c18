/** The bitwise operators of an unsigned machine word, written on naturals. */
module Bits {

  const WORD_BITS := 64

  function Pow2(i: nat): (p: nat)
    ensures p > 0
  {
    if i == 0 then 1 else 2 * Pow2(i - 1)
  }

  /** A word of the given width. */
  predicate Fits(x: nat, width: nat) {
    x < Pow2(width)
  }

  function And(x: nat, y: nat): nat {
    if x == 0 || y == 0 then 0 else 2 * And(x / 2, y / 2) + (x % 2) * (y % 2)
  }

  function Or(x: nat, y: nat): nat {
    if x == 0 then y else if y == 0 then x
    else 2 * Or(x / 2, y / 2) + (if x % 2 == 1 || y % 2 == 1 then 1 else 0)
  }

  /** `~x` in a word of the given width. */
  function Complement(x: nat, width: nat): nat
    requires Fits(x, width)
  {
    if width == 0 then 0 else 2 * Complement(x / 2, width - 1) + (1 - x % 2)
  }

  /** Bit number i, counted from the least significant one. */
  predicate TestBit(x: nat, i: nat) {
    if i == 0 then x % 2 == 1 else TestBit(x / 2, i - 1)
  }

  lemma {:induction false} TestZero(i: nat)
    ensures !TestBit(0, i)
  {
    if i > 0 {
      TestZero(i - 1);
    }
  }

  lemma {:induction false} TestAnd(x: nat, y: nat, i: nat)
    ensures TestBit(And(x, y), i) <==> TestBit(x, i) && TestBit(y, i)
  {
    if x == 0 || y == 0 {
      TestZero(i);
    } else if i > 0 {
      TestAnd(x / 2, y / 2, i - 1);
      assert And(x, y) / 2 == And(x / 2, y / 2);
    } else {
      assert And(x, y) % 2 == (x % 2) * (y % 2);
    }
  }

  lemma {:induction false} TestOr(x: nat, y: nat, i: nat)
    ensures TestBit(Or(x, y), i) <==> TestBit(x, i) || TestBit(y, i)
  {
    if x == 0 || y == 0 {
      TestZero(i);
    } else if i > 0 {
      TestOr(x / 2, y / 2, i - 1);
      assert Or(x, y) / 2 == Or(x / 2, y / 2);
    }
  }

  lemma {:induction false} TestComplement(x: nat, width: nat, i: nat)
    requires Fits(x, width) && i < width
    ensures TestBit(Complement(x, width), i) <==> !TestBit(x, i)
  {
    if i > 0 {
      TestComplement(x / 2, width - 1, i - 1);
      assert Complement(x, width) / 2 == Complement(x / 2, width - 1);
    }
  }

  lemma {:induction false} TestPow2(k: nat, i: nat)
    ensures TestBit(Pow2(k), i) <==> i == k
  {
    if k == 0 && i > 0 {
      TestZero(i - 1);
    } else if k > 0 && i > 0 {
      TestPow2(k - 1, i - 1);
      assert Pow2(k) / 2 == Pow2(k - 1);
    }
  }

  /** The test the bitmap makes: masking with `1 << i` is nonzero exactly when bit i is set. */
  lemma {:induction false} AndPow2(x: nat, i: nat)
    ensures And(x, Pow2(i)) != 0 <==> TestBit(x, i)
  {
    if x == 0 {
      TestZero(i);
    } else if i > 0 {
      AndPow2(x / 2, i - 1);
      assert Pow2(i) / 2 == Pow2(i - 1);
    } else if x / 2 != 0 {
      assert And(x, 1) == 2 * And(x / 2, 0) + x % 2;
    }
  }

  lemma {:induction false} OrFits(x: nat, y: nat, width: nat)
    requires Fits(x, width) && Fits(y, width)
    ensures Fits(Or(x, y), width)
  {
    if x > 0 && y > 0 {
      OrFits(x / 2, y / 2, width - 1);
    }
  }

  lemma {:induction false} AndFits(x: nat, y: nat, width: nat)
    requires Fits(x, width)
    ensures Fits(And(x, y), width)
  {
    if x > 0 && y > 0 {
      AndFits(x / 2, y / 2, width - 1);
      assert (x % 2) * (y % 2) <= 1;
    }
  }

  lemma {:induction false} Pow2Fits(i: nat, width: nat)
    requires i < width
    ensures Fits(Pow2(i), width)
  {
    if i > 0 {
      Pow2Fits(i - 1, width - 1);
    }
  }

  /** `x | (1 << i)` sets bit i and no other; `x & ~(1 << i)` clears bit i and no other. */
  lemma MaskUpdate(x: nat, i: nat, j: nat)
    requires Fits(x, WORD_BITS) && i < WORD_BITS && j < WORD_BITS
    ensures Fits(Pow2(i), WORD_BITS)
    ensures Fits(Or(x, Pow2(i)), WORD_BITS) && Fits(And(x, Complement(Pow2(i), WORD_BITS)), WORD_BITS)
    ensures TestBit(Or(x, Pow2(i)), j) <==> i == j || TestBit(x, j)
    ensures TestBit(And(x, Complement(Pow2(i), WORD_BITS)), j) <==> i != j && TestBit(x, j)
  {
    Pow2Fits(i, WORD_BITS);
    OrFits(x, Pow2(i), WORD_BITS);
    AndFits(x, Complement(Pow2(i), WORD_BITS), WORD_BITS);
    TestPow2(i, j);
    TestOr(x, Pow2(i), j);
    TestComplement(Pow2(i), WORD_BITS, j);
    TestAnd(x, Complement(Pow2(i), WORD_BITS), j);
  }
}
