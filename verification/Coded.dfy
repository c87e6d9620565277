/** CodedInputData and CodedOutputData: readers and writers over a piece of memory. */
module Coded {
  import opened Varints

  // ---- Length-delimited data

  /** The bytes [start, next) that a length before them delimits, or the exception thrown. */
  datatype Delimited = Data(start: nat, next: nat) | Failed(error: Error)

  /** readString and readData at position i: a length below 2^31 and that many bytes. */
  function ReadDelimited(s: seq<Byte>, i: nat): (r: Delimited)
    ensures r.Data? ==> i < r.start <= r.next <= |s|
  {
    match Read32(s, i, 0)
    case Value(v, next) =>
      if v >= TWO_31 then Failed(LengthError)
      else if v <= |s| - next then Data(next, next + v)
      else Failed(OutOfRange)
    case Thrown(e) => Failed(e)
  }

  function EncData(b: seq<Byte>): seq<Byte> {
    Enc(|b|) + b
  }

  /** Data written with its length is read back. */
  lemma ReadBackData(s: seq<Byte>, i: nat, b: seq<Byte>)
    requires HasAt(s, i, EncData(b)) && |b| < TWO_31
    ensures ReadDelimited(s, i) == Data(i + |Enc(|b|)|, i + |EncData(b)|)
    ensures s[i + |Enc(|b|)|..i + |EncData(b)|] == b
  {
    HasParts(s, i, Enc(|b|), b);
    RoundTripUInt32(s, i, |b|);
  }

  class CodedInputData {
    const data: seq<Byte>
    var position: nat

    ghost predicate Valid()
      reads this
    {
      position <= |data|
    }

    constructor (bytes: seq<Byte>)
      ensures Valid() && data == bytes && position == 0
    {
      data := bytes;
      position := 0;
    }

    method Seek(addedSize: nat) returns (ok: bool)
      requires Valid()
      modifies this
      ensures Valid() && ok == (old(position) + addedSize <= |data|)
      ensures position == if ok then old(position) + addedSize else old(position)
    {
      ok := position + addedSize <= |data|;
      if ok {
        position := position + addedSize;
      }
    }

    /** readRawByte; a byte from 128 on is negative there. */
    method ReadRawByte() returns (ok: bool, b: Byte)
      requires Valid()
      modifies this
      ensures Valid() && ok == (old(position) < |data|)
      ensures ok ==> b == data[old(position)] && position == old(position) + 1
      ensures !ok ==> position == old(position)
    {
      if position == |data| {
        return false, 0;
      }
      ok, b := true, data[position];
      position := position + 1;
    }

    method ReadRawVarint32() returns (r: Parsed)
      requires Valid()
      modifies this
      ensures Valid() && r == Read32(data, old(position), 0)
      ensures r.Value? ==> position == r.next && r.v < TWO_32
    {
      hide Read32, Continued;
      ghost var start := position;
      Whole(Read32(data, start, 0));
      var ok, tmp := ReadRawByte();
      ReadOne(data, start, 0, 0, 1);
      if !ok { return Thrown(OutOfRange); }
      if tmp < 128 { return Value(tmp as nat, position); }
      var result: nat := tmp as nat - 128;
      ok, tmp := ReadRawByte();
      ReadOne(data, start + 1, 1, result, 0x80);
      if !ok { return Thrown(OutOfRange); }
      var bits: nat := tmp as nat;
      if tmp < 128 { return Value(result + bits * 0x80, position); }
      result := result + (bits - 128) * 0x80;
      ok, tmp := ReadRawByte();
      ReadOne(data, start + 2, 2, result, 0x4000);
      if !ok { return Thrown(OutOfRange); }
      bits := tmp as nat;
      if tmp < 128 { return Value(result + bits * 0x4000, position); }
      result := result + (bits - 128) * 0x4000;
      ok, tmp := ReadRawByte();
      ReadOne(data, start + 3, 3, result, 0x20_0000);
      if !ok { return Thrown(OutOfRange); }
      bits := tmp as nat;
      if tmp < 128 { return Value(result + bits * 0x20_0000, position); }
      result := result + (bits - 128) * 0x20_0000;
      r := ReadFifthByte(result);
    }

    /** The fifth byte gives the top 4 bits; a continuation is discarded. */
    method ReadFifthByte(result: nat) returns (r: Parsed)
      requires Valid() && result < 0x1000_0000
      modifies this
      ensures Valid() && r == Continued(result, 0x1000_0000, Read32(data, old(position), 4))
      ensures r.Value? ==> position == r.next && r.v < TWO_32
    {
      var ok, tmp := ReadRawByte();
      if !ok {
        return Thrown(OutOfRange);
      }
      var bits: nat := tmp as nat % 16;
      var word := result + bits * 0x1000_0000;
      if tmp < 128 {
        return Value(word, position);
      }
      ghost var start := position;
      for i := 0 to 5
        invariant Valid() && Discard(data, start, 5) == Discard(data, position, 5 - i)
      {
        ok, tmp := ReadRawByte();
        if !ok {
          return Thrown(OutOfRange);
        }
        if tmp < 128 {
          return Value(word, position);
        }
      }
      r := Thrown(InvalidArgument);
    }

    /** readInt64, as a word: 7 bits of each byte, shifted into place. */
    method ReadInt64() returns (r: Parsed)
      requires Valid()
      modifies this
      ensures Valid() && r == Read64(data, old(position), 0)
      ensures r.Value? ==> position == r.next
    {
      hide Read64, Continued;
      var result: nat, scale: nat, k: nat := 0, 1, 0;
      ghost var start := position;
      Whole(Read64(data, start, 0));
      while k < 10
        invariant Valid() && k <= 10 && (k == 10 ==> Read64(data, start, 0) == Thrown(InvalidArgument))
        invariant k < 10 ==> Read64(data, start, 0) == Continued(result, scale, Read64(data, position, k))
      {
        ReadOne64(data, position, k, result, scale);
        var ok, b := ReadRawByte();
        if !ok {
          return Thrown(OutOfRange);
        }
        var bits: nat := if k == 9 then b as nat % 2 else b as nat % 128;
        result := result + bits * scale;
        if b < 128 {
          return Value(result, position);
        }
        scale, k := scale * 128, k + 1;
      }
      r := Thrown(InvalidArgument);
    }

    /** readString and readData: the bytes, or the exception thrown. */
    method ReadData() returns (r: Delimited)
      requires Valid()
      modifies this
      ensures Valid() && r == ReadDelimited(data, old(position))
      ensures r.Data? ==> position == r.next
    {
      var size := ReadRawVarint32();
      if size.Thrown? {
        return Failed(size.error);
      }
      if size.v >= TWO_31 {
        return Failed(LengthError);
      }
      if size.v <= |data| - position {
        r := Data(position, position + size.v);
        position := position + size.v;
      } else {
        r := Failed(OutOfRange);
      }
    }
  }

  /** A varint whose low bits have been read as result, scale beyond them. */
  function Continued(result: nat, scale: nat, r: Parsed): Parsed {
    match r
    case Value(v, next) => Value(result + scale * v, next)
    case Thrown(e) => Thrown(e)
  }

  lemma Whole(r: Parsed)
    ensures Continued(0, 1, r) == r
  {
  }

  /** Reading byte k of a varint. */
  lemma Spread(scale: nat, bits: nat, v: nat)
    ensures scale * (bits + 128 * v) == bits * scale + scale * 128 * v
  {
    assert scale * (128 * v) == scale * 128 * v;
  }

  lemma ReadOne(s: seq<Byte>, i: nat, k: nat, result: nat, scale: nat)
    requires k < 4
    ensures i >= |s| ==> Continued(result, scale, Read32(s, i, k)) == Thrown(OutOfRange)
    ensures i < |s| && s[i] < 128
            ==> Continued(result, scale, Read32(s, i, k)) == Value(result + s[i] as nat * scale, i + 1)
    ensures i < |s| && s[i] >= 128 ==>
              Continued(result, scale, Read32(s, i, k)) ==
              Continued(result + (s[i] as nat - 128) * scale, scale * 128, Read32(s, i + 1, k + 1))
  {
    if i < |s| && s[i] >= 128 {
      match Read32(s, i + 1, k + 1)
      case Value(v, next) =>
        Spread(scale, s[i] as nat - 128, v);
      case Thrown(_) =>
    }
  }

  lemma ReadOne64(s: seq<Byte>, i: nat, k: nat, result: nat, scale: nat)
    requires k <= 9
    ensures i >= |s| ==> Continued(result, scale, Read64(s, i, k)) == Thrown(OutOfRange)
    ensures i < |s| && s[i] < 128 ==>
              Continued(result, scale, Read64(s, i, k))
              == Value(result + (if k == 9 then s[i] as nat % 2 else s[i] as nat % 128) * scale, i + 1)
    ensures i < |s| && s[i] >= 128 && k == 9 ==> Continued(result, scale, Read64(s, i, k)) == Thrown(InvalidArgument)
    ensures i < |s| && s[i] >= 128 && k < 9 ==>
              Continued(result, scale, Read64(s, i, k)) ==
              Continued(result + s[i] as nat % 128 * scale, scale * 128, Read64(s, i + 1, k + 1))
  {
    if i < |s| && s[i] >= 128 && k < 9 {
      match Read64(s, i + 1, k + 1)
      case Value(v, next) =>
        Spread(scale, s[i] as nat - 128, v);
      case Thrown(_) =>
    }
  }

  // ---- Writing

  /** s with b written over it at i. */
  function Overwritten(s: seq<Byte>, i: nat, b: seq<Byte>): (r: seq<Byte>)
    requires i + |b| <= |s|
    ensures |r| == |s|
  {
    s[..i] + b + s[i + |b|..]
  }

  lemma OverwrittenByNothing(s: seq<Byte>, i: nat)
    requires i <= |s|
    ensures Overwritten(s, i, []) == s
  {
  }

  lemma EncUnfold(v: nat, low: Byte, rest: nat)
    requires v >= 128 ==> low as nat == v % 128 + 128 && rest == v / 128
    ensures v < 128 ==> Enc(v) == [v as Byte]
    ensures v >= 128 ==> Enc(v) == [low] + Enc(rest) && rest < v
  {
  }

  lemma OverwrittenTwice(s: seq<Byte>, i: nat, a: seq<Byte>, b: seq<Byte>)
    requires i + |a| + |b| <= |s|
    ensures Overwritten(Overwritten(s, i, a), i + |a|, b) == Overwritten(s, i, a + b)
  {
  }

  class CodedOutputData {
    const ptr: array<Byte>
    const start: nat
    const size: nat
    var position: nat

    ghost predicate Valid()
      reads this
    {
      position <= size && start + size <= ptr.Length
    }

    constructor (memory: array<Byte>, from: nat, length: nat)
      requires from + length <= memory.Length
      ensures Valid() && ptr == memory && start == from && size == length && position == 0
    {
      ptr, start, size := memory, from, length;
      position := 0;
    }

    method SpaceLeft() returns (n: nat)
      requires Valid()
      ensures n == size - position
    {
      n := if size <= position then 0 else size - position;
    }

    /** seek: a position beyond the end throws, after it has been moved. */
    method Seek(addedSize: nat) returns (ok: bool)
      modifies this
      ensures position == old(position) + addedSize && ok == (position <= size)
    {
      position := position + addedSize;
      ok := position <= size;
    }

    method WriteRawByte(value: Byte) returns (ok: bool)
      requires Valid()
      modifies this, ptr
      ensures Valid() && ok == (old(position) < size)
      ensures !ok ==> position == old(position) && ptr[..] == old(ptr[..])
      ensures ok ==> position == old(position) + 1
                     && ptr[..] == Overwritten(old(ptr[..]), start + old(position), [value])
    {
      if position == size {
        return false;
      }
      ptr[start + position] := value;
      position := position + 1;
      ok := true;
    }

    /** The bytes of b are written if there is room for them; otherwise the writer throws. */
    twostate predicate Wrote(b: seq<Byte>, ok: bool)
      reads this, ptr
    {
      && Valid() && old(Valid()) && ok == (old(position) + |b| <= size)
      && (ok ==> position == old(position) + |b| && ptr[..] == Overwritten(old(ptr[..]), start + old(position), b))
    }

    method WriteRawVarint(v: nat) returns (ok: bool)
      requires Valid()
      modifies this, ptr
      ensures Wrote(Enc(v), ok)
    {
      hide Overwritten, Enc;
      var value := v;
      ghost var written: seq<Byte> := [];
      ghost var before, at := ptr[..], start + position;
      OverwrittenByNothing(before, at);
      while value >= 128
        invariant Valid() && Enc(v) == written + Enc(value)
        invariant position == old(position) + |written| && ptr[..] == Overwritten(before, at, written)
        decreases value
      {
        var low, rest := (value % 128 + 128) as Byte, value / 128;
        EncUnfold(value, low, rest);
        ok := WriteRawByte(low);
        if !ok {
          return;
        }
        OverwrittenTwice(before, at, written, [low]);
        written := written + [low];
        value := rest;
      }
      EncUnfold(value, 0, 0);
      ok := WriteRawByte(value as Byte);
      if ok { OverwrittenTwice(before, at, written, [value as Byte]); }
    }

    method WriteInt32(value: int) returns (ok: bool)
      requires Valid() && -TWO_31 <= value < TWO_31
      modifies this, ptr
      ensures Wrote(EncInt32(value), ok)
    {
      if value >= 0 {
        ok := WriteRawVarint(value);
      } else {
        ok := WriteRawVarint(ToWord(value, TWO_63));
      }
    }

    method WriteInt64(value: int) returns (ok: bool)
      requires Valid() && -TWO_63 <= value < TWO_63
      modifies this, ptr
      ensures Wrote(Enc(ToWord(value, TWO_63)), ok)
    {
      ok := WriteRawVarint(ToWord(value, TWO_63));
    }

    method WriteRawData(b: seq<Byte>) returns (ok: bool)
      requires Valid()
      modifies this, ptr
      ensures Wrote(b, ok)
      ensures !ok ==> position == old(position) && ptr[..] == old(ptr[..])
    {
      if position + |b| > size {
        return false;
      }
      ghost var before := ptr[..];
      forall k | 0 <= k < |b| {
        ptr[start + position + k] := b[k];
      }
      assert ptr[..] == Overwritten(before, start + position, b);
      position := position + |b|;
      ok := true;
    }

    /** writeData and writeString: the length, then the bytes. */
    method WriteData(b: seq<Byte>) returns (ok: bool)
      requires Valid() && |b| < TWO_31
      modifies this, ptr
      ensures Wrote(EncData(b), ok)
    {
      ghost var before := ptr[..];
      ok := WriteRawVarint(|b|);
      if ok {
        ok := WriteRawData(b);
        if ok { OverwrittenTwice(before, start + old(position), Enc(|b|), b); }
      }
    }
  }
}
