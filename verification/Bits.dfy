/**
 Unsigned machine words as naturals, with the bitwise operators defined on binary digits.
 Width is explicit: an operation that can leave the word takes the remainder.
 */
module Bits {

  /** 2 to the power k. */
  function Pow2(k: nat): (p: nat)
    ensures p >= 1
  {
    if k == 0 then 1 else 2 * Pow2(k - 1)
  }

  /** Bit k of x, that is (x >> k) & 1 != 0. */
  predicate Bit(x: nat, k: nat) {
    if k == 0 then x % 2 == 1 else Bit(x / 2, k - 1)
  }

  /** x & y. */
  function And(x: nat, y: nat): (r: nat)
    ensures r <= x && r <= y
  {
    if x == 0 || y == 0 then 0
    else (if x % 2 == 1 && y % 2 == 1 then 1 else 0) + 2 * And(x / 2, y / 2)
  }

  /** x | y. */
  function Or(x: nat, y: nat): (r: nat)
    ensures r >= x && r >= y
    decreases x + y
  {
    if x == 0 then y
    else if y == 0 then x
    else (if x % 2 == 1 || y % 2 == 1 then 1 else 0) + 2 * Or(x / 2, y / 2)
  }

  /** x & ~y. */
  function AndNot(x: nat, y: nat): (r: nat)
    ensures r <= x
  {
    if x == 0 then 0 else (if x % 2 == 1 && y % 2 == 0 then 1 else 0) + 2 * AndNot(x / 2, y / 2)
  }

  /** x ^ y. */
  function Xor(x: nat, y: nat): nat
    decreases x + y
  {
    if x == 0 then y
    else if y == 0 then x
    else (if x % 2 != y % 2 then 1 else 0) + 2 * Xor(x / 2, y / 2)
  }

  /** -x in a word of w bits. */
  function Neg(x: nat, w: nat): nat
    requires x < Pow2(w)
  {
    if x == 0 then 0 else Pow2(w) - x
  }

  /** x - y in a word of w bits, wrapping below zero. */
  function WrapSub(x: nat, y: nat, w: nat): nat
    requires x < Pow2(w) && y < Pow2(w)
  {
    if x >= y then x - y else Pow2(w) + x - y
  }

  /** x << 1 in a word of w bits: the top bit falls off. */
  function Double(x: nat, w: nat): (r: nat)
    requires x < Pow2(w)
    ensures r < Pow2(w)
  {
    if 2 * x < Pow2(w) then 2 * x else 2 * x - Pow2(w)
  }

  /** x << k in a word of w bits, one place at a time. */
  function Shl(x: nat, k: nat, w: nat): (r: nat)
    requires x < Pow2(w)
    ensures r < Pow2(w)
    decreases k
  {
    if k == 0 then x else Shl(Double(x, w), k - 1, w)
  }

  /** x >> k, one place at a time. */
  function Shr(x: nat, k: nat): nat {
    if k == 0 then x else Shr(x / 2, k - 1)
  }

  // ---- Digits of the operators

  lemma {:induction false} AndBit(x: nat, y: nat, k: nat)
    ensures Bit(And(x, y), k) <==> Bit(x, k) && Bit(y, k)
    decreases k
  {
    AndHalf(x, y);
    hide And;
    if k > 0 { AndBit(x / 2, y / 2, k - 1); }
  }

  /** The lowest bit and the other bits of the operators. */
  lemma AndHalf(x: nat, y: nat)
    ensures And(x, y) / 2 == And(x / 2, y / 2) && (And(x, y) % 2 == 1 <==> x % 2 == 1 && y % 2 == 1)
  {
    if x != 0 && y != 0 { Digit(if x % 2 == 1 && y % 2 == 1 then 1 else 0, And(x / 2, y / 2)); }
  }

  lemma OrHalf(x: nat, y: nat)
    ensures Or(x, y) / 2 == Or(x / 2, y / 2) && (Or(x, y) % 2 == 1 <==> x % 2 == 1 || y % 2 == 1)
  {
    if x != 0 && y != 0 { Digit(if x % 2 == 1 || y % 2 == 1 then 1 else 0, Or(x / 2, y / 2)); }
  }

  lemma AndNotHalf(x: nat, y: nat)
    ensures AndNot(x, y) / 2 == AndNot(x / 2, y / 2) && (AndNot(x, y) % 2 == 1 <==> x % 2 == 1 && y % 2 == 0)
  {
    if x != 0 { Digit(if x % 2 == 1 && y % 2 == 0 then 1 else 0, AndNot(x / 2, y / 2)); }
  }

  lemma XorHalf(x: nat, y: nat)
    ensures Xor(x, y) / 2 == Xor(x / 2, y / 2) && (Xor(x, y) % 2 == 1 <==> x % 2 != y % 2)
  {
    if x != 0 && y != 0 { Digit(if x % 2 != y % 2 then 1 else 0, Xor(x / 2, y / 2)); }
  }

  lemma Digit(bit: nat, rest: nat)
    requires bit <= 1
    ensures (bit + 2 * rest) / 2 == rest && (bit + 2 * rest) % 2 == bit
  {
  }

  lemma {:induction false} OrBit(x: nat, y: nat, k: nat)
    ensures Bit(Or(x, y), k) <==> Bit(x, k) || Bit(y, k)
    decreases k
  {
    OrHalf(x, y);
    hide Or;
    if k > 0 { OrBit(x / 2, y / 2, k - 1); }
  }

  lemma {:induction false} AndNotBit(x: nat, y: nat, k: nat)
    ensures Bit(AndNot(x, y), k) <==> Bit(x, k) && !Bit(y, k)
    decreases k
  {
    AndNotHalf(x, y);
    hide AndNot;
    if k > 0 { AndNotBit(x / 2, y / 2, k - 1); }
  }

  lemma {:induction false} ZeroBit(k: nat)
    ensures !Bit(0, k)
  {
    if k > 0 {
      ZeroBit(k - 1);
    }
  }

  lemma {:induction false} Pow2Bit(i: nat, k: nat)
    ensures Bit(Pow2(i), k) <==> i == k
  {
    if i == 0 && k > 0 {
      ZeroBit(k - 1);
    } else if i > 0 && k > 0 {
      Pow2Bit(i - 1, k - 1);
    }
  }

  lemma {:induction false} ShrBit(x: nat, i: nat, k: nat)
    ensures Bit(Shr(x, i), k) <==> Bit(x, i + k)
    decreases i
  {
    if i > 0 {
      ShrBit(x / 2, i - 1, k);
    }
  }

  /** Dropping one more place halves. */
  lemma {:induction false} ShrOneMore(x: nat, k: nat)
    ensures Shr(x, k + 1) == Shr(x, k) / 2
    ensures Bit(x, k) <==> Shr(x, k) % 2 == 1
    decreases k
  {
    if k > 0 {
      ShrOneMore(x / 2, k - 1);
    }
  }

  lemma {:induction false} ShrTwice(x: nat, j: nat, k: nat)
    ensures Shr(Shr(x, j), k) == Shr(x, j + k)
    decreases j
  {
    if j > 0 {
      ShrTwice(x / 2, j - 1, k);
    }
  }

  lemma {:induction false} ShrMonotone(x: nat, y: nat, k: nat)
    requires x <= y
    ensures Shr(x, k) <= Shr(y, k)
    decreases k
  {
    if k > 0 {
      ShrMonotone(x / 2, y / 2, k - 1);
    }
  }

  lemma TwiceProduct(q: nat, p: nat)
    ensures q * (2 * p) == 2 * (q * p)
  {
  }

  lemma HalfRange(x: nat, t: nat, p: nat)
    ensures t <= x / 2 < t + p <==> 2 * t <= x < 2 * t + 2 * p
  {
  }

  lemma {:induction false} ShrBounds(x: nat, q: nat, k: nat)
    ensures Shr(x, k) == q <==> q * Pow2(k) <= x < q * Pow2(k) + Pow2(k)
    decreases k
  {
    if k > 0 {
      ShrBounds(x / 2, q, k - 1);
      TwiceProduct(q, Pow2(k - 1));
      HalfRange(x, q * Pow2(k - 1), Pow2(k - 1));
    } else {
      assert q * Pow2(0) == q;
    }
  }

  lemma {:induction false} DropTopBit(x: nat, w: nat, j: nat)
    requires Pow2(w) <= x < 2 * Pow2(w) && j < w
    ensures Bit(x - Pow2(w), j) <==> Bit(x, j)
    decreases w
  {
    assert x - Pow2(w) == x - 2 * Pow2(w - 1);
    if j > 0 {
      DropTopBit(x / 2, w - 1, j - 1);
    }
  }

  lemma DoubledBit(x: nat, w: nat, j: nat)
    requires x < Pow2(w) && j < w
    ensures Bit(Double(x, w), j) <==> j > 0 && Bit(x, j - 1)
  {
    if 2 * x >= Pow2(w) && j > 0 {
      DropTopBit(x, w - 1, j - 1);
    }
  }

  lemma {:induction false} ShlBit(x: nat, k: nat, w: nat, j: nat)
    requires x < Pow2(w) && j < w
    ensures Bit(Shl(x, k, w), j) <==> j >= k && Bit(x, j - k)
    decreases k
  {
    if k > 0 {
      ShlBit(Double(x, w), k - 1, w, j);
      if j >= k - 1 {
        DoubledBit(x, w, j - (k - 1));
      }
    }
  }

  lemma {:induction false} Pow2Add(a: nat, b: nat)
    ensures Pow2(a + b) == Pow2(a) * Pow2(b)
  {
    if a > 0 {
      Pow2Add(a - 1, b);
      assert 2 * (Pow2(a - 1) * Pow2(b)) == 2 * Pow2(a - 1) * Pow2(b);
    }
  }

  lemma Pow2Values()
    ensures Pow2(7) == 128 && Pow2(8) == 256 && Pow2(16) == 0x1_0000 && Pow2(32) == 0x1_0000_0000
    ensures Pow2(64) == 0x1_0000_0000_0000_0000
  {
    assert Pow2(2) == 4 && Pow2(4) == 16 && Pow2(6) == 64 && Pow2(7) == 128 && Pow2(8) == 256;
    Pow2Add(8, 8);
    Pow2Add(16, 16);
    Pow2Add(32, 32);
  }

  lemma {:induction false} ShlOneMore(x: nat, k: nat, w: nat)
    requires x < Pow2(w)
    ensures Shl(x, k + 1, w) == Double(Shl(x, k, w), w)
    decreases k
  {
    if k > 0 {
      ShlOneMore(Double(x, w), k - 1, w);
    }
  }

  /** The word with bits k..w-1 on. */
  lemma {:induction false} HighBits(k: nat, w: nat, j: nat)
    requires k <= w
    ensures Pow2(k) <= Pow2(w)
    ensures Bit(Pow2(w) - Pow2(k), j) <==> k <= j < w
    decreases w
  {
    if k == w {
      ZeroBit(j);
    } else if k == 0 {
      HighBits(0, w - 1, if j == 0 then 0 else j - 1);
      assert (Pow2(w) - 1) / 2 == Pow2(w - 1) - 1;
    } else {
      HighBits(k - 1, w - 1, if j == 0 then 0 else j - 1);
      assert (Pow2(w) - Pow2(k)) / 2 == Pow2(w - 1) - Pow2(k - 1);
    }
  }

  lemma {:induction false} Pow2Monotone(j: nat, k: nat)
    requires j <= k
    ensures Pow2(j) <= Pow2(k)
    ensures j < k ==> 2 * Pow2(j) <= Pow2(k)
  {
    if j < k {
      Pow2Monotone(j, k - 1);
    }
  }

  /** The lowest bit that is on. */
  lemma {:induction false} LowestOn(x: nat, w: nat) returns (i: nat)
    requires 0 < x < Pow2(w)
    ensures i < w && Bit(x, i) && forall j :: 0 <= j < i ==> !Bit(x, j)
  {
    if x % 2 == 1 {
      i := 0;
    } else {
      var h := LowestOn(x / 2, w - 1);
      i := h + 1;
      forall j | 0 <= j < i ensures !Bit(x, j) {
        if j > 0 { assert !Bit(x / 2, j - 1); }
      }
    }
  }

  // ---- Isolating the lowest bit

  /** x & -x. */
  function LeastBit(x: nat, w: nat): nat
    requires x < Pow2(w)
  {
    And(x, Neg(x, w))
  }

  lemma {:induction false} ComplementIsDisjoint(x: nat, w: nat)
    requires x < Pow2(w)
    ensures And(x, Pow2(w) - 1 - x) == 0
  {
    if x != 0 {
      ComplementIsDisjoint(x / 2, w - 1);
      assert (Pow2(w) - 1 - x) / 2 == Pow2(w - 1) - 1 - x / 2;
    }
  }

  lemma {:induction false} LeastBitIsLowest(x: nat, w: nat, i: nat)
    requires 0 < x < Pow2(w) && i < w && Bit(x, i)
    requires forall j :: 0 <= j < i ==> !Bit(x, j)
    ensures LeastBit(x, w) == Pow2(i)
    decreases w
  {
    if i == 0 {
      assert (Pow2(w) - x) / 2 == Pow2(w - 1) - 1 - x / 2;
      ComplementIsDisjoint(x / 2, w - 1);
    } else {
      assert !Bit(x, 0);
      forall j | 0 <= j < i - 1 ensures !Bit(x / 2, j) { assert !Bit(x, j + 1); }
      LeastBitIsLowest(x / 2, w - 1, i - 1);
      assert (Pow2(w) - x) / 2 == Pow2(w - 1) - x / 2;
    }
  }
}
