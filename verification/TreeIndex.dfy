/**
 Request padding and tree-bin indexing of dlmalloc 2.8.3, for 64-bit size_t and no footers.
 */
module TreeIndex {
  import opened Bits
  import BinMap

  const NBINS: nat := 32
  const SIZE_T_BITSIZE: nat := 64
  const CHUNK_OVERHEAD: nat := 8
  const MIN_CHUNK_SIZE: nat := 32
  const MIN_REQUEST: nat := 23
  const MIN_LARGE_SIZE: nat := 256
  const MAX_SMALL_REQUEST: nat := 240
  const MAX_SIZE_T: nat := 0xFFFF_FFFF_FFFF_FFFF
  const MAX_REQUEST: nat := 0x1_0000_0000_0000_0000 - 128

  /** The request rounded up to a chunk size: a multiple of 8 with room for the overhead word. */
  function PadRequest(bytes: nat): (nb: nat)
    ensures nb % 8 == 0 && bytes + CHUNK_OVERHEAD <= nb < bytes + CHUNK_OVERHEAD + 8
  {
    (bytes + CHUNK_OVERHEAD + 7) / 8 * 8
  }

  function RequestToSize(bytes: nat): (nb: nat)
    ensures nb % 8 == 0 && nb >= MIN_CHUNK_SIZE && nb >= bytes + CHUNK_OVERHEAD
    ensures bytes <= MAX_SMALL_REQUEST ==> nb < MIN_LARGE_SIZE
    ensures bytes > MAX_SMALL_REQUEST ==> nb >= MIN_LARGE_SIZE
    ensures bytes < MAX_REQUEST ==> nb <= MAX_SIZE_T
  {
    if bytes < MIN_REQUEST then MIN_CHUNK_SIZE else PadRequest(bytes)
  }

  /** The chunk size that dlmalloc looks for; too large a request becomes one that must fail. */
  function ChunkRequest(bytes: nat): (nb: nat)
    ensures bytes < MAX_REQUEST ==> nb >= bytes + CHUNK_OVERHEAD && nb % 8 == 0 && nb >= MIN_CHUNK_SIZE
    ensures bytes <= MAX_SIZE_T ==> nb <= MAX_SIZE_T
  {
    if bytes >= MAX_REQUEST then MAX_SIZE_T else RequestToSize(bytes)
  }

  predicate IsSmall(size: nat) {
    size / 8 < NBINS
  }

  // ---- Tree bins

  /** The size of the smallest chunk held in bin i. */
  function MinSizeForTreeIndex(i: nat): nat {
    Or(Pow2(i / 2 + 8), i % 2 * Pow2(i / 2 + 7))
  }

  /** The range of sizes of bin i; the last bin has no upper bound. */
  predicate InTreeBin(size: nat, i: nat) {
    && i < NBINS
    && MinSizeForTreeIndex(i) <= size
    && (i < NBINS - 1 ==> size < MinSizeForTreeIndex(i + 1))
  }

  /** The places by which a size is shifted to put the first bit its bin leaves open at the sign. */
  function LeftShiftForTreeIndex(i: nat): nat
    requires i < NBINS
  {
    if i == NBINS - 1 then 0 else (SIZE_T_BITSIZE - 1) - (i / 2 + 8 - 2)
  }

  /** Pow2(e) is the leading bit of x. */
  ghost predicate HasLog(x: nat, e: nat) {
    Pow2(e) <= x < 2 * Pow2(e)
  }

  lemma {:induction false} LogExists(x: nat) returns (e: nat)
    requires x > 0
    ensures HasLog(x, e)
  {
    if x == 1 {
      e := 0;
    } else {
      var h := LogExists(x / 2);
      e := h + 1;
    }
  }

  lemma LogBelow(x: nat, e: nat, w: nat)
    requires HasLog(x, e) && x < Pow2(w)
    ensures e < w
  {
    if e >= w {
      Pow2Monotone(w, e);
    }
  }

  lemma {:induction false} ShlLog(x: nat, e: nat, k: nat, w: nat)
    requires HasLog(x, e) && e + k < w && x < Pow2(w)
    ensures HasLog(Shl(x, k, w), e + k)
    decreases k
  {
    if k > 0 {
      Pow2Monotone(e + 2, w + 1);
      ShlLog(Double(x, w), e + 1, k - 1, w);
    }
  }

  lemma WrappedTop(d: nat, s: nat, h: nat, w: nat)
    requires w == h + h && s < h && Pow2(w) - Pow2(h) <= d < Pow2(w)
    ensures Bit(Shr(d, h), s)
  {
    Pow2Add(h, h);
    ShrBounds(d, Pow2(h) - 1, h);
    assert (Pow2(h) - 1) * Pow2(h) == Pow2(h) * Pow2(h) - Pow2(h);
    HighBits(0, h, s);
  }

  lemma SmallTop(d: nat, h: nat)
    requires d < Pow2(h)
    ensures Shr(d, h) == 0
  {
    ShrBounds(d, 0, h);
  }

  /** The sign of y - 2^t shows up above the lower half of the word. */
  lemma StageTest(y: nat, e: nat, s: nat, t: nat, h: nat, w: nat)
    requires s < h && t <= h && w == h + h && HasLog(y, e) && e < h
    ensures y < Pow2(w) && Pow2(t) < Pow2(w)
    ensures And(Shr(WrapSub(y, Pow2(t), w), h), Pow2(s)) == if e < t then Pow2(s) else 0
  {
    Pow2Monotone(h, w);
    Pow2Monotone(e + 1, h);
    Pow2Monotone(t, h);
    var d := WrapSub(y, Pow2(t), w);
    BinMap.MaskOneBit(Shr(d, h), s);
    if e < t {
      Pow2Monotone(e + 1, t);
      WrappedTop(d, s, h, w);
    } else {
      Pow2Monotone(t, e);
      SmallTop(d, h);
      ZeroBit(s);
    }
  }

  /** One stage of the binary logarithm: K = ((Y - c) >> 16) & m, then Y <<= K. */
  method ShiftStage(y: nat, c: nat, m: nat, ghost e: nat, ghost s: nat, ghost t: nat)
    returns (k: nat, y': nat)
    requires HasLog(y, e) && e < 16 && s < 16 && m == Pow2(s) && t == 16 - m && c == Pow2(t)
    ensures k == (if e < t then m else 0) && HasLog(y', e + k) && e + k < 16
  {
    StageTest(y, e, s, t, 16, 32);
    k := And(Shr(WrapSub(y, c, 32), 16), m);
    ShlLog(y, e, k, 32);
    y' := Shl(y, k, 32);
  }

  lemma TopBitOfLog(top: nat, m: nat, t: nat)
    requires t > 0 && HasLog(top, m) && t - 1 <= m <= t
    ensures Shr(top, t) == m + 1 - t
  {
    ShrBounds(top, m + 1 - t, t);
  }

  /** The branch-free binary logarithm of a number below 2^16. */
  method FloorLog(x: nat) returns (k: nat)
    requires 0 < x <= 0xFFFF
    ensures HasLog(x, k)
  {
    hide Pow2, Shr, HasLog;
    Pow2Values();
    ghost var e := LogExists(x);
    LogBelow(x, e, 16);
    StagePowers();
    var n, y := ShiftStage(x, 0x100, 8, e, 3, 8);
    ghost var e1 := e + n;
    var k1, y1 := ShiftStage(y, 0x1000, 4, e1, 2, 12);
    ghost var e2 := e1 + k1;
    var k2, y2 := ShiftStage(y1, 0x4000, 2, e2, 1, 14);
    TopBitOfLog(y2, e2 + k2, 15);
    k := 14 - (n + k1 + k2) + Shr(y2, 15);
  }

  lemma StagePowers()
    ensures Pow2(1) == 2 && Pow2(2) == 4 && Pow2(3) == 8 && Pow2(8) == 0x100
    ensures Pow2(12) == 0x1000 && Pow2(14) == 0x4000
  {
    Pow2Values();
    Pow2Add(8, 4);
    Pow2Add(8, 6);
  }

  /**
   compute_tree_index: the binary logarithm of size >> 8, and the bit below it. It finds the bin
   whose range holds the size.
   */
  method ComputeTreeIndex(size: nat) returns (i: nat)
    requires size <= MAX_SIZE_T
    ensures size < MIN_LARGE_SIZE ==> i == 0
    ensures size >= MIN_LARGE_SIZE ==> InTreeBin(size, i)
  {
    ShrBounds(size, 0, 8);
    Pow2Values();
    var x := Shr(size, 8);
    if x == 0 {
      i := 0;
    } else if x > 0xFFFF {
      i := NBINS - 1;
      LastBin(size, x);
    } else {
      var k := FloorLog(x);
      LogBelow(x, k, 16);
      i := 2 * k + (if Bit(size, k + 7) then 1 else 0);
      LogBin(size, k);
    }
  }

  lemma LastBin(size: nat, x: nat)
    requires x == Shr(size, 8) && x > 0xFFFF
    ensures InTreeBin(size, NBINS - 1)
  {
    hide MinSizeForTreeIndex;
    ShrBounds(size, x, 8);
    Pow2Values();
    MinSizeIs(NBINS - 1);
    Pow2Add(16, 6);
    assert Pow2(6) == 64;
  }

  lemma LogBin(size: nat, e: nat)
    requires HasLog(Shr(size, 8), e) && e < 16
    ensures InTreeBin(size, 2 * e + (if Bit(size, e + 7) then 1 else 0))
  {
    hide MinSizeForTreeIndex;
    ShrBounds(Shr(size, 8), 1, e);
    ShrTwice(size, 8, e);
    ShrOneMore(size, e + 7);
    var i := 2 * e + (if Bit(size, e + 7) then 1 else 0);
    MinSizeIs(i);
    ShrBounds(size, 2 + i % 2, e + 7);
  }

  lemma MinSizeIs(i: nat)
    ensures MinSizeForTreeIndex(i) == (2 + i % 2) * Pow2(i / 2 + 7)
    ensures MinSizeForTreeIndex(i + 1) == MinSizeForTreeIndex(i) + Pow2(i / 2 + 7)
  {
    hide MinSizeForTreeIndex;
    var k := i / 2;
    MinSizeOfPair(k);
    if i == 2 * k {
      assert i % 2 == 0;
    } else {
      assert i == 2 * k + 1 && i % 2 == 1 && i + 1 == 2 * (k + 1);
      MinSizeOfPair(k + 1);
    }
  }

  lemma MinSizeOfPair(k: nat)
    ensures MinSizeForTreeIndex(2 * k) == 2 * Pow2(k + 7)
    ensures MinSizeForTreeIndex(2 * k + 1) == 3 * Pow2(k + 7)
  {
    OrOfBits(k + 7);
    var e, p := Pow2(k + 8), Pow2(k + 7);
    calc {
      MinSizeForTreeIndex(2 * k);
      { assert (2 * k) / 2 == k && (2 * k) % 2 == 0; }
      Or(e, 0);
    }
    calc {
      MinSizeForTreeIndex(2 * k + 1);
      { assert (2 * k + 1) / 2 == k && (2 * k + 1) % 2 == 1; }
      Or(e, p);
    }
  }

  lemma {:induction false} OrOfBits(k: nat)
    ensures Or(Pow2(k + 1), Pow2(k)) == 3 * Pow2(k) && Or(Pow2(k + 1), 0) == 2 * Pow2(k)
  {
    if k > 0 {
      OrOfBits(k - 1);
    }
  }

  lemma SmallestLarge()
    ensures MinSizeForTreeIndex(0) == MIN_LARGE_SIZE
  {
    MinSizeOfPair(0);
    Pow2Values();
    hide MinSizeForTreeIndex;
    assert MinSizeForTreeIndex(2 * 0) == 2 * Pow2(0 + 7);
  }

  // ---- What a bin fixes about its sizes

  /** The number of low bits that bin i leaves open. */
  function RootBits(i: nat): nat {
    if i == NBINS - 1 then SIZE_T_BITSIZE else i / 2 + 7
  }

  /** The leading bits that bin i fixes. */
  function RootPrefix(i: nat): nat {
    if i == NBINS - 1 then 0 else 2 + i % 2
  }

  lemma TreeBinPrefix(size: nat, i: nat)
    requires size <= MAX_SIZE_T && InTreeBin(size, i)
    ensures Shr(size, RootBits(i)) == RootPrefix(i)
  {
    hide MinSizeForTreeIndex;
    if i == NBINS - 1 {
      Pow2Values();
      ShrBounds(size, 0, 64);
    } else {
      MinSizeIs(i);
      ShrBounds(size, 2 + i % 2, i / 2 + 7);
    }
  }

  lemma ShiftAndBits(i: nat)
    requires i < NBINS
    ensures RootBits(i) <= SIZE_T_BITSIZE && LeftShiftForTreeIndex(i) == SIZE_T_BITSIZE - RootBits(i)
  {
  }

  lemma SizeFitsWord(size: nat)
    requires size <= MAX_SIZE_T
    ensures size < Pow2(64)
  {
    Pow2Values();
  }

  /** The ranges of the tree bins are in order. */
  lemma TreeBinsOrdered(a: nat, i: nat, b: nat, j: nat)
    requires InTreeBin(a, i) && InTreeBin(b, j)
    ensures i < j ==> a < b
    ensures a == b ==> i == j
  {
    hide MinSizeForTreeIndex;
    if i < j {
      MinSizeMonotone(i + 1, j);
    } else if j < i {
      MinSizeMonotone(j + 1, i);
    }
  }

  lemma {:induction false} MinSizeMonotone(i: nat, j: nat)
    requires i <= j
    ensures MinSizeForTreeIndex(i) <= MinSizeForTreeIndex(j)
    decreases j
  {
    hide MinSizeForTreeIndex;
    if i < j {
      MinSizeIs(j - 1);
      MinSizeMonotone(i, j - 1);
    }
  }
}
