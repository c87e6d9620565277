/** Base 128 varints: what CodedOutputData writes and CodedInputData reads back. */
module Varints {
  import opened Bits

  newtype Byte = b: int | 0 <= b < 256

  const TWO_31: int := 0x8000_0000
  const TWO_32: int := 0x1_0000_0000
  const TWO_63: int := 0x8000_0000_0000_0000
  const TWO_64: int := 0x1_0000_0000_0000_0000

  // ---- Words and signed numbers

  /** The signed number that a word of half + half values stands for. */
  function ToSigned(u: nat, half: int): int {
    if u < half then u else u - 2 * half
  }

  function ToWord(i: int, half: int): (u: nat)
    requires -half <= i < half
    ensures u < 2 * half && ToSigned(u, half) == i
  {
    if i >= 0 then i else i + 2 * half
  }

  // ---- Writing

  /** The bytes of writeRawVarint32 and writeRawVarint64 for a word. */
  function Enc(v: nat): (s: seq<Byte>)
    ensures |s| >= 1
  {
    if v < 128 then [v as Byte] else [(v % 128 + 128) as Byte] + Enc(v / 128)
  }

  /** The bytes of writeInt32: a negative number is written as a 64-bit word. */
  function EncInt32(i: int): seq<Byte>
    requires -TWO_31 <= i < TWO_31
  {
    if i >= 0 then Enc(i) else Enc(ToWord(i, TWO_63))
  }

  // ---- Reading

  datatype Error = OutOfRange | LengthError | InvalidArgument

  /** A value and the position behind it, or the exception thrown. */
  datatype Parsed = Value(v: nat, next: nat) | Thrown(error: Error)

  /**
   readRawVarint32 from its k-th byte on: four bytes of 7 bits, 4 bits of the fifth, then up to 5 bytes to
   discard.
   */
  function Read32(s: seq<Byte>, i: nat, k: nat): (r: Parsed)
    requires k <= 4
    ensures r.Value? ==> i < r.next <= |s|
    decreases 4 - k
  {
    if i >= |s| then Thrown(OutOfRange)
    else if k == 4 then
      if s[i] < 128 then Value(s[i] as nat % 16, i + 1)
      else
        match Discard(s, i + 1, 5)
        case Value(_, next) => Value(s[i] as nat % 16, next)
        case r => r
    else if s[i] < 128 then Value(s[i] as nat, i + 1)
    else
      match Read32(s, i + 1, k + 1)
      case Value(v, next) => Value(s[i] as nat - 128 + 128 * v, next)
      case r => r
  }

  /** The bytes of a varint beyond 32 bits. */
  function Discard(s: seq<Byte>, i: nat, left: nat): (r: Parsed)
    ensures r.Value? ==> i < r.next <= |s|
    decreases left
  {
    if left == 0 then Thrown(InvalidArgument)
    else if i >= |s| then Thrown(OutOfRange)
    else if s[i] < 128 then Value(0, i + 1)
    else Discard(s, i + 1, left - 1)
  }

  /** readInt64 from its k-th byte on: of the tenth byte one bit fits, and it must be the last. */
  function Read64(s: seq<Byte>, i: nat, k: nat): (r: Parsed)
    requires k <= 9
    ensures r.Value? ==> i < r.next <= |s|
    decreases 9 - k
  {
    if i >= |s| then Thrown(OutOfRange)
    else if k == 9 then (if s[i] < 128 then Value(s[i] as nat % 2, i + 1) else Thrown(InvalidArgument))
    else if s[i] < 128 then Value(s[i] as nat, i + 1)
    else
      match Read64(s, i + 1, k + 1)
      case Value(v, next) => Value(s[i] as nat - 128 + 128 * v, next)
      case r => r
  }

  /** b occurs in s at i. */
  ghost predicate HasAt(s: seq<Byte>, i: nat, b: seq<Byte>) {
    i + |b| <= |s| && s[i..i + |b|] == b
  }

  lemma HasParts(s: seq<Byte>, i: nat, a: seq<Byte>, b: seq<Byte>)
    requires HasAt(s, i, a + b)
    ensures HasAt(s, i, a) && HasAt(s, i + |a|, b)
  {
    assert s[i..i + |a|] == (a + b)[..|a|];
    assert s[i + |a|..i + |a| + |b|] == (a + b)[|a|..];
  }

  lemma HasFirst(s: seq<Byte>, i: nat, b: seq<Byte>)
    requires HasAt(s, i, b) && |b| > 0
    ensures s[i] == b[0] && HasAt(s, i + 1, b[1..])
  {
    assert s[i] == s[i..i + |b|][0];
    assert s[i + 1..i + |b|] == s[i..i + |b|][1..];
  }

  /** One step through an encoding. */
  lemma EncStep(s: seq<Byte>, i: nat, v: nat)
    requires HasAt(s, i, Enc(v))
    ensures i < |s|
    ensures v < 128 ==> s[i] as nat == v && |Enc(v)| == 1
    ensures v >= 128 ==> s[i] as nat == v % 128 + 128 && HasAt(s, i + 1, Enc(v / 128)) && |Enc(v)| == 1 + |Enc(v / 128)|
  {
    HasFirst(s, i, Enc(v));
  }

  /** A 32-bit word is read back; k bytes of it have been read before. */
  lemma {:induction false} ReadBack32(s: seq<Byte>, i: nat, v: nat, k: nat)
    requires HasAt(s, i, Enc(v)) && k <= 4
    requires v < (if k == 0 then TWO_32 else if k == 1 then 0x200_0000 else if k == 2 then 0x4_0000
                  else if k == 3 then 0x800 else 16)
    ensures Read32(s, i, k) == Value(v, i + |Enc(v)|)
    decreases 4 - k
  {
    EncStep(s, i, v);
    if v >= 128 {
      ReadBack32(s, i + 1, v / 128, k + 1);
    }
  }

  function Pow128(k: nat): (p: nat)
    ensures p >= 1
  {
    if k == 0 then 1 else 128 * Pow128(k - 1)
  }

  /** A 64-bit word is read back. */
  lemma {:induction false} ReadBack64(s: seq<Byte>, i: nat, v: nat, k: nat)
    requires HasAt(s, i, Enc(v)) && k <= 9 && v < 2 * Pow128(9 - k)
    ensures Read64(s, i, k) == Value(v, i + |Enc(v)|)
    decreases 9 - k
  {
    EncStep(s, i, v);
    if v >= 128 {
      assert k < 9 && v / 128 < 2 * Pow128(9 - (k + 1));
      ReadBack64(s, i + 1, v / 128, k + 1);
    }
  }

  lemma RoundTripUInt32(s: seq<Byte>, i: nat, v: nat)
    requires HasAt(s, i, Enc(v)) && v < TWO_32
    ensures Read32(s, i, 0) == Value(v, i + |Enc(v)|)
  {
    ReadBack32(s, i, v, 0);
  }

  lemma RoundTripUInt64(s: seq<Byte>, i: nat, v: nat)
    requires HasAt(s, i, Enc(v)) && v < TWO_64
    ensures Read64(s, i, 0) == Value(v, i + |Enc(v)|)
  {
    assert Pow128(3) == 0x20_0000 && Pow128(6) == 0x400_0000_0000 && Pow128(9) == 0x8000_0000_0000_0000;
    ReadBack64(s, i, v, 0);
  }

  lemma RoundTripInt64(s: seq<Byte>, i: nat, v: int)
    requires -TWO_63 <= v < TWO_63 && HasAt(s, i, Enc(ToWord(v, TWO_63)))
    ensures var r := Read64(s, i, 0); r.Value? && ToSigned(r.v, TWO_63) == v && r.next == i + |Enc(ToWord(v, TWO_63))|
  {
    RoundTripUInt64(s, i, ToWord(v, TWO_63));
  }

  /** The five bytes that the reader of a negative 32-bit number discards. */
  lemma DiscardOnes(s: seq<Byte>, i: nat)
    requires HasAt(s, i, Enc(0x1FFF_FFFF))
    ensures |Enc(0x1FFF_FFFF)| == 5 && Discard(s, i, 5) == Value(0, i + 5)
  {
    EncStep(s, i, 0x1FFF_FFFF);
    EncStep(s, i + 1, 0x3F_FFFF);
    EncStep(s, i + 2, 0x7FFF);
    EncStep(s, i + 3, 0xFF);
    EncStep(s, i + 4, 1);
  }

  /** The low 32 bits of a negative number written as a 64-bit word are read back. */
  lemma {:induction false} ReadBackNegative(s: seq<Byte>, i: nat, v: nat, u: nat, k: nat)
    requires HasAt(s, i, Enc(v)) && k <= 4
    requires v == u + (if k == 0 then 0xFFFF_FFFF_0000_0000 else if k == 1 then 0x1FF_FFFF_FE00_0000
                       else if k == 2 then 0x3_FFFF_FFFC_0000 else if k == 3 then 0x7FF_FFFF_F800 else 0xF_FFFF_FFF0)
    requires (if k == 0 then TWO_31 else if k == 1 then 0x100_0000 else if k == 2 then 0x2_0000
              else if k == 3 then 0x400 else 8) <= u
    requires u < (if k == 0 then TWO_32 else if k == 1 then 0x200_0000 else if k == 2 then 0x4_0000
                  else if k == 3 then 0x800 else 16)
    ensures Read32(s, i, k) == Value(u, i + |Enc(v)|) && |Enc(v)| == 10 - k
    decreases 4 - k
  {
    hide HasAt, Enc;
    EncStep(s, i, v);
    if k == 4 {
      DiscardOnes(s, i + 1);
    } else {
      ReadBackNegative(s, i + 1, v / 128, u / 128, k + 1);
    }
  }

  /** Every int32 is read back, negatives from 10 bytes. */
  lemma RoundTripInt32(s: seq<Byte>, i: nat, v: int)
    requires -TWO_31 <= v < TWO_31 && HasAt(s, i, EncInt32(v))
    ensures var r := Read32(s, i, 0); r.Value? && ToSigned(r.v, TWO_31) == v && r.next == i + |EncInt32(v)|
    ensures v < 0 ==> |EncInt32(v)| == 10
  {
    if v >= 0 {
      RoundTripUInt32(s, i, v);
    } else {
      ReadBackNegative(s, i, ToWord(v, TWO_63), ToWord(v, TWO_31), 0);
    }
  }

  // ---- Size functions

  /** value & (all ones << k) == 0 */
  predicate FitsBits(v: nat, k: nat, w: nat)
    requires k <= w
  {
    HighBits(k, w, 0);
    And(v, Pow2(w) - Pow2(k)) == 0
  }

  lemma {:induction false} FitsBitsIsBound(v: nat, k: nat, w: nat)
    requires k <= w && v < Pow2(w)
    ensures FitsBits(v, k, w) <==> v < Pow2(k)
    decreases w
  {
    HighBits(k, w, 0);
    if k == 0 {
      AllOnes(v, w);
    } else if v > 0 && w > 0 {
      HighBits(k - 1, w - 1, 0);
      assert (Pow2(w) - Pow2(k)) / 2 == Pow2(w - 1) - Pow2(k - 1);
      FitsBitsIsBound(v / 2, k - 1, w - 1);
    }
  }

  lemma {:induction false} AllOnes(v: nat, w: nat)
    requires v < Pow2(w)
    ensures And(v, Pow2(w) - 1) == v
    decreases w
  {
    if v > 0 && w > 0 {
      assert (Pow2(w) - 1) / 2 == Pow2(w - 1) - 1;
      AllOnes(v / 2, w - 1);
    }
  }

  function RawVarint32Size(v: nat): nat
    requires v < TWO_32
  {
    if FitsBits(v, 7, 32) then 1
    else if FitsBits(v, 14, 32) then 2
    else if FitsBits(v, 21, 32) then 3
    else if FitsBits(v, 28, 32) then 4
    else 5
  }

  function UInt64Size(v: nat): nat
    requires v < TWO_64
  {
    if FitsBits(v, 7, 64) then 1
    else if FitsBits(v, 14, 64) then 2
    else if FitsBits(v, 21, 64) then 3
    else if FitsBits(v, 28, 64) then 4
    else if FitsBits(v, 35, 64) then 5
    else if FitsBits(v, 42, 64) then 6
    else if FitsBits(v, 49, 64) then 7
    else if FitsBits(v, 56, 64) then 8
    else if FitsBits(v, 63, 64) then 9
    else 10
  }

  function Int32Size(i: int): nat
    requires -TWO_31 <= i < TWO_31
  {
    if i >= 0 then RawVarint32Size(i) else 10
  }

  lemma {:induction false} EncSize(v: nat, n: nat)
    requires n > 0 && v < Pow128(n) && (n > 1 ==> v >= Pow128(n - 1))
    ensures |Enc(v)| == n
    decreases n
  {
    if n > 1 {
      EncSize(v / 128, n - 1);
    }
  }

  lemma SmallPowers()
    ensures Pow2(7) == 0x80 && Pow2(14) == 0x4000 && Pow2(21) == 0x20_0000 && Pow2(28) == 0x1000_0000
    ensures Pow2(32) == TWO_32
    ensures Pow128(1) == 0x80 && Pow128(2) == 0x4000 && Pow128(3) == 0x20_0000 && Pow128(4) == 0x1000_0000
    ensures Pow128(5) == 0x8_0000_0000
  {
    Pow2Values();
    Pow2Add(7, 7);
    Pow2Add(14, 7);
    Pow2Add(14, 14);
  }

  /** pbRawVarint32Size is the number of bytes written. */
  lemma RawVarint32SizeIsLength(v: nat)
    requires v < TWO_32
    ensures RawVarint32Size(v) == |Enc(v)|
  {
    SmallPowers();
    FitsBitsIsBound(v, 7, 32);
    FitsBitsIsBound(v, 14, 32);
    FitsBitsIsBound(v, 21, 32);
    FitsBitsIsBound(v, 28, 32);
    hide FitsBits, Pow2, Pow128, Enc;
    EncSize(v, RawVarint32Size(v));
  }

  lemma LargePowers()
    ensures Pow2(35) == 0x8_0000_0000 && Pow2(42) == 0x400_0000_0000 && Pow2(49) == 0x2_0000_0000_0000
    ensures Pow2(56) == 0x100_0000_0000_0000 && Pow2(63) == TWO_63 && Pow2(64) == TWO_64
    ensures Pow128(5) == 0x8_0000_0000 && Pow128(6) == 0x400_0000_0000 && Pow128(7) == 0x2_0000_0000_0000
    ensures Pow128(8) == 0x100_0000_0000_0000 && Pow128(9) == TWO_63 && Pow128(10) > TWO_64
  {
    Pow2Values();
    SmallPowers();
    Pow2Add(28, 7);
    Pow2Add(35, 7);
    Pow2Add(42, 7);
    Pow2Add(49, 7);
    Pow2Add(56, 7);
  }

  /** pbUInt64Size is the number of bytes written. */
  lemma UInt64SizeIsLength(v: nat)
    requires v < TWO_64
    ensures UInt64Size(v) == |Enc(v)|
  {
    SmallPowers();
    LargePowers();
    FitsBitsIsBound(v, 7, 64);
    FitsBitsIsBound(v, 14, 64);
    FitsBitsIsBound(v, 21, 64);
    FitsBitsIsBound(v, 28, 64);
    FitsBitsIsBound(v, 35, 64);
    FitsBitsIsBound(v, 42, 64);
    FitsBitsIsBound(v, 49, 64);
    FitsBitsIsBound(v, 56, 64);
    FitsBitsIsBound(v, 63, 64);
    hide FitsBits, Pow2, Pow128, Enc;
    EncSize(v, UInt64Size(v));
  }

  lemma Int32SizeIsLength(i: int)
    requires -TWO_31 <= i < TWO_31
    ensures Int32Size(i) == |EncInt32(i)|
  {
    if i >= 0 {
      RawVarint32SizeIsLength(i);
    } else {
      RoundTripInt32(EncInt32(i), 0, i);
    }
  }
}
