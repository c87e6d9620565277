/** The 32-bit bin maps of dlmalloc: marking, clearing, and finding the first marked bin. */
module BinMap {
  import opened Bits

  const NBINS: nat := 32

  predicate IsMarked(binmap: nat, i: nat) {
    And(binmap, Pow2(i)) != 0
  }

  function Mark(binmap: nat, i: nat): nat {
    Or(binmap, Pow2(i))
  }

  function Clear(binmap: nat, i: nat): nat {
    AndNot(binmap, Pow2(i))
  }

  /** A mask with every bit to the left of the least bit of x on. */
  function LeftBits(x: nat): nat
    requires x < Pow2(NBINS)
  {
    Or(Double(x, NBINS), Neg(Double(x, NBINS), NBINS))
  }

  lemma MarkedIsBit(binmap: nat, i: nat)
    ensures IsMarked(binmap, i) <==> Bit(binmap, i)
  {
    if Bit(binmap, i) {
      AndBit(binmap, Pow2(i), i);
      Pow2Bit(i, i);
      ZeroBit(i);
    } else {
      NoCommonBit(binmap, i);
    }
  }

  lemma {:induction false} NoCommonBit(x: nat, i: nat)
    requires !Bit(x, i)
    ensures And(x, Pow2(i)) == 0
    decreases i
  {
    if x != 0 && i > 0 {
      NoCommonBit(x / 2, i - 1);
    }
  }

  lemma MarkSetsOneBit(m: nat, i: nat, j: nat)
    ensures IsMarked(Mark(m, i), j) <==> i == j || IsMarked(m, j)
  {
    MarkedIsBit(m, j);
    MarkedIsBit(Mark(m, i), j);
    OrBit(m, Pow2(i), j);
    Pow2Bit(i, j);
  }

  lemma ClearDropsOneBit(m: nat, i: nat, j: nat)
    ensures IsMarked(Clear(m, i), j) <==> i != j && IsMarked(m, j)
  {
    MarkedIsBit(m, j);
    MarkedIsBit(Clear(m, i), j);
    AndNotBit(m, Pow2(i), j);
    Pow2Bit(i, j);
  }

  lemma {:induction false} OrFits(x: nat, y: nat, w: nat)
    requires x < Pow2(w) && y < Pow2(w)
    ensures Or(x, y) < Pow2(w)
  {
    if x != 0 && y != 0 {
      OrFits(x / 2, y / 2, w - 1);
    }
  }

  lemma MarkFits(m: nat, i: nat)
    requires m < Pow2(NBINS) && i < NBINS
    ensures Mark(m, i) < Pow2(NBINS) && Clear(m, i) < Pow2(NBINS)
  {
    Pow2Monotone(i, NBINS);
    OrFits(m, Pow2(i), NBINS);
  }

  lemma {:induction false} MaskOneBit(x: nat, b: nat)
    ensures And(x, Pow2(b)) == if Bit(x, b) then Pow2(b) else 0
    decreases b
  {
    if x == 0 {
      ZeroBit(b);
    } else if b > 0 {
      MaskOneBit(x / 2, b - 1);
    }
  }

  lemma {:induction false} ShrOnes(i: nat, k: nat)
    requires k <= i
    ensures Shr(Pow2(i) - 1, k) == Pow2(i - k) - 1
    decreases k
  {
    if k > 0 {
      assert (Pow2(i) - 1) / 2 == Pow2(i - 1) - 1;
      ShrOnes(i - 1, k - 1);
    }
  }

  lemma HalvingStep(y: nat, i: nat, n: nat, b: nat, k: nat)
    requires y == Pow2(i) - 1 && n + b == Pow2(b) && k == (if i > Pow2(b) then Pow2(b) else 0)
    ensures And(Shr(y, n), Pow2(b)) == k && Shr(y, k) == Pow2(i - k) - 1
  {
    MaskOneBit(Shr(y, n), b);
    ShrBit(y, n, b);
    HighBits(0, i, n + b);
    ShrOnes(i, k);
  }

  /** One stage of compute_bit2idx, on the word with the bits below i on: K = Y >> n & m, Y >>= K. */
  method BitStage(y: nat, n: nat, m: nat, ghost i: nat, ghost b: nat) returns (k: nat, y': nat)
    requires y == Pow2(i) - 1 && m == Pow2(b) && n + b == m
    ensures k == (if i > m then m else 0) && y' == Pow2(i - k) - 1
  {
    HalvingStep(y, i, n, b, if i > m then m else 0);
    k := And(Shr(y, n), m);
    y' := Shr(y, k);
  }

  /** compute_bit2idx undoes idx2bit on all 32 bits. */
  method ComputeBitToIdx(x: nat, ghost bit: nat) returns (i: nat)
    requires bit < NBINS && x == Pow2(bit)
    ensures i == bit
  {
    assert Pow2(0) == 1 && Pow2(1) == 2 && Pow2(2) == 4 && Pow2(3) == 8 && Pow2(4) == 16;
    var k0, y0 := BitStage(x - 1, 16 - 4, 16, bit, 4);
    var k1, y1 := BitStage(y0, 8 - 3, 8, bit - k0, 3);
    var k2, y2 := BitStage(y1, 4 - 2, 4, bit - k0 - k1, 2);
    var k3, y3 := BitStage(y2, 2 - 1, 2, bit - k0 - k1 - k2, 1);
    var k4, y4 := BitStage(y3, 1 - 0, 1, bit - k0 - k1 - k2 - k3, 0);
    i := k0 + k1 + k2 + k3 + k4 + y4;
  }

  /** Searching a non-empty map by its least bit finds its lowest marked bin. */
  method LowestBin(m: nat) returns (i: nat)
    requires 0 < m < Pow2(NBINS)
    ensures i < NBINS && IsMarked(m, i) && forall j :: 0 <= j < i ==> !IsMarked(m, j)
  {
    ghost var low := LowestOn(m, NBINS);
    LeastBitIsLowest(m, NBINS, low);
    i := ComputeBitToIdx(LeastBit(m, NBINS), low);
    MarkedIsBit(m, i);
    forall j | 0 <= j < i ensures !IsMarked(m, j) { MarkedIsBit(m, j); }
  }

  lemma LeftBitsOfIdx(i: nat, j: nat)
    requires i < NBINS && j < NBINS
    ensures Pow2(i) < Pow2(NBINS)
    ensures Bit(LeftBits(Pow2(i)), j) <==> i < j
  {
    Pow2Monotone(i, NBINS);
    Pow2Monotone(i + 1, NBINS);
    var d := Double(Pow2(i), NBINS);
    OrBit(d, Neg(d, NBINS), j);
    if i + 1 == NBINS {
      ZeroBit(j);
    } else {
      assert d == Pow2(i + 1);
      Pow2Bit(i + 1, j);
      HighBits(i + 1, NBINS, j);
    }
  }

  lemma MarksToTheLeft(m: nat, idx: nat, left: nat, j: nat)
    requires m < Pow2(NBINS) && idx < NBINS && j < NBINS
    requires Pow2(idx) < Pow2(NBINS) && left == And(LeftBits(Pow2(idx)), m)
    ensures IsMarked(left, j) <==> idx < j && IsMarked(m, j)
  {
    MarkedIsBit(left, j);
    MarkedIsBit(m, j);
    AndBit(LeftBits(Pow2(idx)), m, j);
    LeftBitsOfIdx(idx, j);
  }

  /** The first non-empty bin strictly to the left of idx, if there is one. */
  method NextBin(m: nat, idx: nat) returns (found: bool, i: nat)
    requires m < Pow2(NBINS) && idx < NBINS
    ensures !found ==> forall j :: idx < j < NBINS ==> !IsMarked(m, j)
    ensures found ==> idx < i < NBINS && IsMarked(m, i) && forall j :: idx < j < i ==> !IsMarked(m, j)
  {
    LeftBitsOfIdx(idx, 0);
    var leftbits := And(LeftBits(Pow2(idx)), m);
    forall j | 0 <= j < NBINS ensures IsMarked(leftbits, j) <==> idx < j && IsMarked(m, j) {
      MarksToTheLeft(m, idx, leftbits, j);
    }
    found, i := leftbits != 0, 0;
    if found {
      i := LowestBin(leftbits);
    } else {
      forall j | idx < j < NBINS ensures !IsMarked(m, j) { MarkedIsBit(leftbits, j); ZeroBit(j); }
    }
  }

  // ---- The small-bin search of dlmalloc

  /** The test smallbits & 3 finds a chunk in bin idx or the bin after it; idx + (~smallbits & 1) is that bin. */
  lemma RemainderlessFit(m: nat, idx: nat, smallbits: nat)
    requires m < Pow2(NBINS) && idx < NBINS && smallbits == Shr(m, idx)
    ensures And(smallbits, 3) == 0 ==> !IsMarked(m, idx) && !IsMarked(m, idx + 1)
    ensures And(smallbits, 3) != 0 ==> var i := idx + AndNot(1, smallbits); i < NBINS && IsMarked(m, i)
    ensures IsMarked(m, idx) ==> AndNot(1, smallbits) == 0
    ensures AndNot(1, smallbits) <= 1
  {
    hide IsMarked, And, AndNot, Shr;
    ShrBit(m, idx, 0);
    ShrBit(m, idx, 1);
    MarkedIsBit(m, idx);
    MarkedIsBit(m, idx + 1);
    LowTwoBits(smallbits);
    if idx + 1 == NBINS { NoBitBeyond(m, NBINS, NBINS); }
  }

  lemma LowTwoBits(x: nat)
    ensures And(x, 3) == 0 <==> !Bit(x, 0) && !Bit(x, 1)
    ensures AndNot(1, x) == if Bit(x, 0) then 0 else 1
  {
    assert And(x / 2, 1) == x / 2 % 2;
    assert Bit(x, 1) <==> Bit(x / 2, 0);
  }

  lemma {:induction false} NoBitBeyond(x: nat, w: nat, j: nat)
    requires x < Pow2(w) && w <= j
    ensures !Bit(x, j)
    decreases j
  {
    if w == 0 {
      ZeroBit(j);
    } else {
      NoBitBeyond(x / 2, w - 1, j - 1);
    }
  }

  /** The first non-empty small bin beyond the two that were tested. */
  method NextSmallBin(m: nat, idx: nat, smallbits: nat) returns (i: nat)
    requires m < Pow2(NBINS) && idx < NBINS && smallbits == Shr(m, idx) && smallbits != 0 && And(smallbits, 3) == 0
    ensures idx + 2 <= i < NBINS && IsMarked(m, i) && forall j :: idx <= j < i ==> !IsMarked(m, j)
  {
    hide IsMarked, And, LeftBits, Pow2;
    RemainderlessFit(m, idx, smallbits);
    LeftBitsOfIdx(idx, 0);
    ShrFits(m, NBINS, idx);
    var leftbits := And(Shl(smallbits, idx, NBINS), LeftBits(Pow2(idx)));
    forall j | 0 <= j < NBINS ensures IsMarked(leftbits, j) <==> idx < j && IsMarked(m, j) {
      MarksFromShift(m, idx, smallbits, leftbits, j);
    }
    ghost var k := FirstMark(m, idx, smallbits);
    ZeroHasNoMark(leftbits, k);
    i := LowestBin(leftbits);
  }

  lemma {:induction false} ShrFits(x: nat, w: nat, k: nat)
    requires x < Pow2(w)
    ensures Shr(x, k) < Pow2(w)
    decreases k
  {
    if k > 0 {
      ShrFits(x / 2, w, k - 1);
    }
  }

  lemma MarksFromShift(m: nat, idx: nat, smallbits: nat, leftbits: nat, j: nat)
    requires m < Pow2(NBINS) && idx < NBINS && j < NBINS && smallbits == Shr(m, idx) && smallbits < Pow2(NBINS)
    requires Pow2(idx) < Pow2(NBINS) && leftbits == And(Shl(smallbits, idx, NBINS), LeftBits(Pow2(idx)))
    ensures IsMarked(leftbits, j) <==> idx < j && IsMarked(m, j)
  {
    hide LeftBits, IsMarked, And, Shl, Shr, Pow2, Bit;
    MarkedIsBit(leftbits, j);
    MarkedIsBit(m, j);
    AndBit(Shl(smallbits, idx, NBINS), LeftBits(Pow2(idx)), j);
    LeftBitsOfIdx(idx, j);
    ShlBit(smallbits, idx, NBINS, j);
    if idx <= j { ShrBit(m, idx, j - idx); }
  }

  lemma FirstMark(m: nat, idx: nat, smallbits: nat) returns (k: nat)
    requires m < Pow2(NBINS) && smallbits == Shr(m, idx) && 0 < smallbits < Pow2(NBINS) && !IsMarked(m, idx)
    ensures idx < k < NBINS && IsMarked(m, k)
  {
    hide IsMarked, Shr;
    var j := LowestOn(smallbits, NBINS);
    k := idx + j;
    ShrBit(m, idx, j);
    MarkedIsBit(m, k);
    if k >= NBINS { NoBitBeyond(m, NBINS, k); }
  }

  lemma ZeroHasNoMark(x: nat, k: nat)
    requires IsMarked(x, k)
    ensures x != 0
  {
  }

  /** When nothing is left after the shift, all bins from idx on are empty. */
  lemma NoMarksFrom(m: nat, idx: nat, j: nat)
    requires Shr(m, idx) == 0 && idx <= j
    ensures !IsMarked(m, j)
  {
    ShrBit(m, idx, j - idx);
    ZeroBit(j - idx);
    MarkedIsBit(m, j);
  }
}
