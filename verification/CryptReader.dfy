/**
 CodedInputDataCrypt: a reader that decrypts into a buffer, aligned to cipher blocks, and reads like the plain
 one.
 */
module CryptReader {
  import opened Varints
  import opened Coded
  import opened LogFormat
  import Compaction
  import MapCoder

  const AES_KEY_LEN: nat := 16

  /** A cipher in stream mode: bytes are decrypted in order, from where it stands; m_number is its place in a block. */
  class Decrypter {
    const plain: Bytes
    var at: nat

    constructor (text: Bytes, start: nat)
      ensures plain == text && at == start
    {
      plain, at := text, start;
    }

    function Number(): nat
      reads this
    {
      at % AES_KEY_LEN
    }

    method Decrypt(length: nat, output: array<Byte>, index: nat)
      requires at + length <= |plain| && index + length <= output.Length
      modifies this`at, output
      ensures at == old(at) + length
      ensures output[..] == Overwritten(old(output[..]), index, plain[old(at)..old(at) + length])
    {
      ghost var m := output[..];
      forall k | 0 <= k < length {
        output[index + k] := plain[at + k];
      }
      assert output[..] == Overwritten(m, index, plain[at..at + length]);
      at := at + length;
    }
  }

  function RoundUp(n: nat): nat { (n + AES_KEY_LEN - 1) / AES_KEY_LEN * AES_KEY_LEN }

  function RoundDown(n: nat): nat { n / AES_KEY_LEN * AES_KEY_LEN }

  lemma Rounded(n: nat)
    ensures RoundUp(n) % 16 == 0 && n <= RoundUp(n) < n + 16
    ensures RoundDown(n) % 16 == 0 && RoundDown(n) <= n < RoundDown(n) + 16
  {
    WholeBlocks((n + AES_KEY_LEN - 1) / AES_KEY_LEN);
    WholeBlocks(n / AES_KEY_LEN);
  }

  lemma WholeBlocks(q: nat)
    ensures q * AES_KEY_LEN % AES_KEY_LEN == 0
  {
  }

  /** The bytes to decrypt for length more: to the end of a block, or of the source. */
  function ToDecrypt(length: nat, number: nat, left: nat): nat
    requires number < AES_KEY_LEN
  {
    var aligned :=
      if number == 0 then RoundUp(length)
      else
        var first := AES_KEY_LEN - number;
        if length < first then first else RoundUp(length - first) + first;
    if left < aligned then left else aligned
  }

  lemma EndsOfBlocks(at: nat, n: nat)
    requires n % 16 == 0 || (at % 16 != 0 && n == 16 - at % 16)
    ensures at % 16 == 0 || n % 16 != 0 ==> (at + n) % 16 == 0
  {
  }

  lemma ToDecryptAligned(length: nat, at: nat, left: nat)
    ensures var n := ToDecrypt(length, at % 16, left);
            && n <= left && n >= (if length < left then length else left)
            && (n == left || (at + n) % 16 == 0)
  {
    hide RoundUp;
    var number := at % 16;
    if number == 0 {
      Rounded(length);
      EndsOfBlocks(at, RoundUp(length));
    } else {
      Rounded(if length < 16 - number then 0 else length - (16 - number));
      EndsOfBlocks(at, 16 - number);
      EndsOfBlocks(at + (16 - number), if length < 16 - number then 0 else RoundUp(length - (16 - number)));
    }
  }

  /** m[from..end] is the plain text that ends at position at. */
  ghost predicate Stands(m: Bytes, plain: Bytes, from: nat, end: nat, at: nat) {
    from <= end <= |m| && end <= at + from && at <= |plain| && m[from..end] == plain[at + from - end..at]
  }

  /** Two positions that lie alike in their blocks. */
  ghost predicate InStep(a: nat, b: nat) {
    a % AES_KEY_LEN == b % AES_KEY_LEN
  }

  lemma BothFurther(a: nat, b: nat, n: nat)
    requires InStep(a, b)
    ensures InStep(a + n, b + n)
  {
  }

  lemma BlocksBack(a: nat, b: nat, n: nat)
    requires InStep(a, b) && n % AES_KEY_LEN == 0 && n <= a
    ensures InStep(a - n, b)
  {
  }

  /** Blocks decrypted from a block boundary on, and what is left behind them. */
  lemma BlocksOf(total: nat, unread: nat, start: nat)
    requires start % AES_KEY_LEN == 0
    ensures total == AES_KEY_LEN * (total / AES_KEY_LEN) + total % AES_KEY_LEN
    ensures InStep(total % AES_KEY_LEN, start + total)
    ensures total % AES_KEY_LEN == 0 ==> InStep(AES_KEY_LEN, start + total)
    ensures total % AES_KEY_LEN == 0 ==> (start + total) % AES_KEY_LEN == 0
  {
  }

  /** A value in the place of another one. */
  function Replaced(word: nat, r: Parsed): Parsed {
    match r
    case Value(_, next) => Value(word, next)
    case Thrown(e) => Thrown(e)
  }

  /** The last byte that counts for a 32-bit varint. */
  lemma FifthByte(s: Bytes, i: nat, result: nat)
    ensures var r := Continued(result, 0x1000_0000, Read32(s, i, 4));
            if i >= |s| then r == Thrown(OutOfRange)
            else
              var word := result + s[i] as nat % 16 * 0x1000_0000;
              r == if s[i] < 128 then Value(word, i + 1) else Replaced(word, Discard(s, i + 1, 5))
  {
    hide Discard;
  }

  class CodedInputDataCrypt {
    const plain: Bytes
    const decrypter: Decrypter
    var position: nat
    var decryptPosition: nat
    var buffer: array<Byte>
    var bufferPosition: nat
    var decryptLength: nat
    var discardPosition: nat

    /** From here on the buffer holds plain text. */
    ghost var from: nat

    /**
     decryptPosition - decryptLength + bufferPosition is position; the buffered bytes are the plain
     text that they stand for; the cipher stands where decryption goes on.
     */
    ghost predicate Valid()
      reads this, buffer, decrypter
    {
      && decrypter.plain == plain && decryptPosition == decrypter.at <= |plain|
      && from <= bufferPosition <= decryptLength <= buffer.Length && from < AES_KEY_LEN <= buffer.Length
      && decryptPosition + bufferPosition == position + decryptLength
      && InStep(decryptLength, decryptPosition)
      && Stands(buffer[..], plain, from, decryptLength, decryptPosition)
    }

    /** The bytes from the discard position on are kept; skipBytes leaves it stale until the next record. */
    ghost predicate Keeps()
      reads this
    {
      from <= discardPosition <= bufferPosition
    }

    ghost predicate Aligned()
      reads this
    {
      decryptPosition == |plain| || decryptPosition % AES_KEY_LEN == 0
    }

    /** The reader of a text whose cipher stands at start; seek brings the position there. */
    constructor (text: Bytes, start: nat, crypt: Decrypter)
      requires crypt.plain == text && crypt.at == start
      ensures plain == text && decrypter == crypt && position == 0 && decryptPosition == 0
      ensures bufferPosition == decryptLength == discardPosition == from == start % AES_KEY_LEN
      ensures fresh(buffer) && buffer.Length == 2 * AES_KEY_LEN
    {
      plain, decrypter := text, crypt;
      position, decryptPosition := 0, 0;
      bufferPosition, decryptLength, discardPosition := crypt.at % AES_KEY_LEN, crypt.at % AES_KEY_LEN,
                                                        crypt.at % AES_KEY_LEN;
      buffer := new Byte[2 * AES_KEY_LEN];
      from := crypt.at % AES_KEY_LEN;
    }

    /** seek, before anything has been read, to where the cipher stands. */
    method Seek(addedSize: nat) returns (ok: bool)
      requires position == 0 && decryptPosition == 0 && decrypter.plain == plain && decrypter.at == addedSize
      requires bufferPosition == decryptLength == discardPosition == from == addedSize % AES_KEY_LEN
      requires 16 <= buffer.Length
      modifies this`position, this`decryptPosition
      ensures ok == (addedSize <= |plain|)
      ensures ok ==> Valid() && Keeps() && position == addedSize && bufferPosition == decryptLength
    {
      position := position + addedSize;
      decryptPosition := decryptPosition + addedSize;
      ok := position <= |plain|;
    }

    /** memmove and realloc of consumeBytes: afterwards length bytes fit behind those decrypted. */
    method MakeSpace(length: nat)
      requires Valid() && Keeps()
      modifies this`buffer, this`bufferPosition, this`decryptLength, this`discardPosition, this`from, buffer
      ensures Valid() && Keeps() && length <= buffer.Length - decryptLength
      ensures decryptLength - bufferPosition == old(decryptLength - bufferPosition)
      ensures bufferPosition - discardPosition >= old(bufferPosition - discardPosition)
      ensures buffer == old(buffer) || fresh(buffer)
    {
      var bytesLeftInBuffer := buffer.Length - decryptLength;
      if bytesLeftInBuffer < length && discardPosition > 0 {
        var posToMove := RoundDown(discardPosition);
        Rounded(discardPosition);
        if posToMove > 0 {
          MoveDown(posToMove);
          bytesLeftInBuffer := buffer.Length - decryptLength;
        }
      }
      if bytesLeftInBuffer < length {
        Reallocate(buffer.Length + length);
      }
    }

    method MoveDown(posToMove: nat)
      requires Valid() && Keeps() && 16 <= posToMove <= discardPosition && posToMove % AES_KEY_LEN == 0
      modifies this`bufferPosition, this`decryptLength, this`discardPosition, this`from, buffer
      ensures Valid() && Keeps()
      ensures decryptLength - bufferPosition == old(decryptLength - bufferPosition)
      ensures bufferPosition - discardPosition >= old(bufferPosition - discardPosition)
    {
      hide Overwritten, Stands, InStep;
      ghost var m, at, end := buffer[..], decryptPosition, decryptLength;
      BlocksBack(decryptLength, decryptPosition, posToMove);
      var sizeToMove := decryptLength - posToMove;
      Compaction.Memmove(buffer, 0, posToMove, sizeToMove);
      MovedPlain(m, buffer[..], plain, from, posToMove, end, at);
      bufferPosition := bufferPosition - posToMove;
      decryptLength := decryptLength - posToMove;
      discardPosition := 0;
      from := 0;
    }

    method Reallocate(newSize: nat)
      requires Valid() && newSize >= buffer.Length
      modifies this`buffer
      ensures Valid() && fresh(buffer) && buffer.Length == newSize
    {
      var before := buffer[..];
      var memory := new Byte[newSize](i requires 0 <= i => if i < |before| then before[i] else 0);
      assert memory[from..decryptLength] == before[from..decryptLength];
      assert memory[..][from..decryptLength] == memory[from..decryptLength];
      buffer := memory;
    }

    /** consumeBytes: afterwards length bytes, or all that are left, are in the buffer. */
    method ConsumeBytes(length: nat, discardPreData: bool)
      requires Valid() && (discardPreData || Keeps())
      modifies this`buffer, this`bufferPosition, this`decryptPosition, this`decryptLength, this`discardPosition,
               this`from, buffer, decrypter
      ensures Valid() && Keeps() && (buffer == old(buffer) || fresh(buffer))
      ensures decryptLength - bufferPosition >= if length < |plain| - position then length else |plain| - position
      ensures old(Aligned()) || (length > 0 && old(bufferPosition == decryptLength)) ==> Aligned()
      ensures bufferPosition - discardPosition >= if discardPreData then 0 else old(bufferPosition - discardPosition)
    {
      hide ToDecrypt, Stands;
      if discardPreData {
        discardPosition := bufferPosition;
      }
      var decryptedBytesLeft := decryptLength - bufferPosition;
      if decryptedBytesLeft >= length {
        return;
      }
      var need := ToDecrypt(length - decryptedBytesLeft, decrypter.Number(), |plain| - decryptPosition);
      ToDecryptAligned(length - decryptedBytesLeft, decryptPosition, |plain| - decryptPosition);
      MakeSpace(need);
      DecryptMore(need);
    }

    method DecryptMore(need: nat)
      requires Valid() && decryptPosition + need <= |plain| && need <= buffer.Length - decryptLength
      modifies this`decryptPosition, this`decryptLength, buffer, decrypter
      ensures Valid() && decryptPosition == old(decryptPosition) + need && decryptLength == old(decryptLength) + need
    {
      hide Overwritten, Stands, InStep;
      ghost var m, at := buffer[..], decryptPosition;
      BothFurther(decryptLength, decryptPosition, need);
      decrypter.Decrypt(need, buffer, decryptLength);
      MorePlain(m, buffer[..], plain, from, decryptLength, at, need);
      decryptPosition := decryptPosition + need;
      decryptLength := decryptLength + need;
    }

    /**
     statusBeforeDecrypt: the cipher as it was rollback bytes before the position; it is worked back from
     decrypted bytes still in the buffer.
     */
    method StatusBeforeDecrypt(rollback: nat) returns (status: nat)
      requires Valid() && rollback <= bufferPosition - from
      ensures status + rollback == position
    {
      var rollbackSize := rollback + (decryptLength - bufferPosition);
      status := decrypter.at - rollbackSize;
    }

    /** skipBytes: whole blocks are decrypted one over the other, so that the buffer ends with the last one. */
    method SkipBytes(length: nat)
      requires Valid() && Aligned() && length <= |plain| - position
      modifies this`position, this`decryptPosition, this`bufferPosition, this`decryptLength, this`from, buffer,
               decrypter
      ensures Valid() && Aligned() && position == old(position) + length
    {
      position := position + length;
      var decryptedBytesLeft := decryptLength - bufferPosition;
      if decryptedBytesLeft >= length {
        bufferPosition := bufferPosition + length;
        return;
      }
      var rest := length - decryptedBytesLeft;
      var size := if RoundUp(rest) < |plain| - decryptPosition then RoundUp(rest) else |plain| - decryptPosition;
      Rounded(rest);
      SkipBlocks(size, size - rest);
    }

    /** The loop of skipBytes: size bytes are decrypted, of which the last unread ones are still to be read. */
    method SkipBlocks(total: nat, unread: nat)
      requires decrypter.plain == plain && decryptPosition == decrypter.at && decryptPosition % AES_KEY_LEN == 0
      requires decryptPosition + total <= |plain| && unread < total && unread < AES_KEY_LEN
      requires buffer.Length >= AES_KEY_LEN
      requires total % AES_KEY_LEN == 0 || (decryptPosition + total == |plain| && unread < total % AES_KEY_LEN)
      requires position == decryptPosition + total - unread
      modifies this`decryptPosition, this`bufferPosition, this`decryptLength, this`from, buffer, decrypter
      ensures Valid() && Aligned()
    {
      hide Overwritten, Stands, InStep;
      var size := total;
      var round := size / AES_KEY_LEN;
      BlocksOf(total, unread, decryptPosition);
      ghost var start := decryptPosition;
      for index := 0 to round
        invariant decrypter.plain == plain && decryptPosition == decrypter.at
        invariant decryptPosition == start + AES_KEY_LEN * index && size == total - AES_KEY_LEN * index
        invariant index > 0 ==> Stands(buffer[..], plain, 0, AES_KEY_LEN, decryptPosition)
      {
        DecryptToFront(AES_KEY_LEN);
        size := size - AES_KEY_LEN;
      }
      from := 0;
      assert size == total % AES_KEY_LEN;
      if size > 0 {
        DecryptToFront(size);
        bufferPosition := size - unread;
        decryptLength := size;
      } else {
        bufferPosition := AES_KEY_LEN - unread;
        decryptLength := AES_KEY_LEN;
      }
    }

    method DecryptToFront(n: nat)
      requires decrypter.plain == plain && decryptPosition == decrypter.at && decryptPosition + n <= |plain|
      requires n <= buffer.Length
      modifies this`decryptPosition, buffer, decrypter
      ensures decryptPosition == decrypter.at == old(decryptPosition) + n
      ensures Stands(buffer[..], plain, 0, n, decryptPosition)
    {
      hide Overwritten, Stands;
      ghost var m := buffer[..];
      decrypter.Decrypt(n, buffer, 0);
      OverwrittenFront(m, buffer[..], plain, decryptPosition, n);
      decryptPosition := decryptPosition + n;
    }

    /** The next k bytes, or all that are left, are in the buffer. */
    ghost predicate Ready(k: nat)
      reads this
    {
      position <= |plain| && bufferPosition <= decryptLength
      && decryptLength - bufferPosition >= if k < |plain| - position then k else |plain| - position
    }

    /** readRawByte; the caller has made sure that the byte is in the buffer. */
    method ReadRawByte(ghost k: nat) returns (ok: bool, b: Byte)
      requires Valid() && Ready(k + 1)
      modifies this`position, this`bufferPosition
      ensures Valid() && ok == (old(position) < |plain|) && Ready(k)
      ensures ok ==> b == plain[old(position)] && position == old(position) + 1
                     && bufferPosition == old(bufferPosition) + 1
      ensures !ok ==> position == old(position) && bufferPosition == old(bufferPosition)
    {
      if position == |plain| {
        return false, 0;
      }
      BufferedByte(buffer[..], plain, from, bufferPosition, decryptLength, decryptPosition);
      ok, b := true, buffer[bufferPosition];
      position := position + 1;
      bufferPosition := bufferPosition + 1;
    }

    /** readRawVarint32: ten bytes are made ready first. */
    method ReadRawVarint32(discardPreData: bool) returns (r: Parsed)
      requires Valid() && (discardPreData || Keeps()) && (Aligned() || bufferPosition == decryptLength)
      modifies this, buffer, decrypter
      ensures Valid() && Keeps() && Aligned() && (buffer == old(buffer) || fresh(buffer))
      ensures r == Read32(plain, old(position), 0)
      ensures r.Value? ==> position == r.next && r.v < TWO_32
      ensures r.Value? ==> bufferPosition - discardPosition
                           >= r.next - old(position)
                              + if discardPreData then 0 else old(bufferPosition - discardPosition)
    {
      hide Read32, Discard, Stands;
      ConsumeBytes(10, discardPreData);
      r := ReadReadyVarint();
    }

    method ReadReadyVarint() returns (r: Parsed)
      requires Valid() && Ready(10)
      modifies this`position, this`bufferPosition
      ensures Valid() && r == Read32(plain, old(position), 0) && old(position) <= position
      ensures bufferPosition - old(bufferPosition) == position - old(position)
      ensures r.Value? ==> position == r.next && r.v < TWO_32
    {
      hide Read32, Continued, Discard, Stands, InStep;
      ghost var start := position;
      Whole(Read32(plain, start, 0));
      var ok, tmp := ReadRawByte(9);
      ReadOne(plain, start, 0, 0, 1);
      if !ok { return Thrown(OutOfRange); }
      if tmp < 128 { return Value(tmp as nat, position); }
      var result: nat := tmp as nat - 128;
      ok, tmp := ReadRawByte(8);
      ReadOne(plain, start + 1, 1, result, 0x80);
      if !ok { return Thrown(OutOfRange); }
      var bits: nat := tmp as nat;
      if tmp < 128 { return Value(result + bits * 0x80, position); }
      result := result + (bits - 128) * 0x80;
      r := ReadThirdByte(result);
    }

    method ReadThirdByte(low: nat) returns (r: Parsed)
      requires Valid() && Ready(8) && low < 0x4000
      modifies this`position, this`bufferPosition
      ensures Valid() && r == Continued(low, 0x4000, Read32(plain, old(position), 2)) && old(position) <= position
      ensures bufferPosition - old(bufferPosition) == position - old(position)
      ensures r.Value? ==> position == r.next && r.v < TWO_32
    {
      hide Read32, Continued, Discard, Stands, InStep;
      ghost var start := position;
      var result := low;
      var ok, tmp := ReadRawByte(7);
      ReadOne(plain, start, 2, result, 0x4000);
      if !ok { return Thrown(OutOfRange); }
      var bits: nat := tmp as nat;
      if tmp < 128 { return Value(result + bits * 0x4000, position); }
      result := result + (bits - 128) * 0x4000;
      ok, tmp := ReadRawByte(6);
      ReadOne(plain, start + 1, 3, result, 0x20_0000);
      if !ok { return Thrown(OutOfRange); }
      bits := tmp as nat;
      if tmp < 128 { return Value(result + bits * 0x20_0000, position); }
      result := result + (bits - 128) * 0x20_0000;
      r := ReadFifthByte(result);
    }

    method ReadFifthByte(result: nat) returns (r: Parsed)
      requires Valid() && Ready(6) && result < 0x1000_0000
      modifies this`position, this`bufferPosition
      ensures Valid() && r == Continued(result, 0x1000_0000, Read32(plain, old(position), 4))
      ensures old(position) <= position
      ensures bufferPosition - old(bufferPosition) == position - old(position)
      ensures r.Value? ==> position == r.next && r.v < TWO_32
    {
      hide Stands, InStep, Discard, Read32;
      FifthByte(plain, position, result);
      var ok, tmp := ReadRawByte(5);
      if !ok {
        return Thrown(OutOfRange);
      }
      var bits: nat := tmp as nat % 16;
      var word := result + bits * 0x1000_0000;
      if tmp < 128 {
        return Value(word, position);
      }
      r := ReadDiscarded(word);
    }

    /** The five bytes of a negative number that are read and dropped. */
    method ReadDiscarded(word: nat) returns (r: Parsed)
      requires Valid() && Ready(5)
      modifies this`position, this`bufferPosition
      ensures Valid() && r == Replaced(word, Discard(plain, old(position), 5)) && old(position) <= position
      ensures bufferPosition - old(bufferPosition) == position - old(position)
      ensures r.Value? ==> position == r.next && r.v == word
    {
      hide Stands, InStep;
      ghost var start := position;
      for i := 0 to 5
        invariant Valid() && Ready(5 - i) && Discard(plain, start, 5) == Discard(plain, position, 5 - i)
        invariant bufferPosition - old(bufferPosition) == position - old(position) && start <= position
      {
        var ok, tmp := ReadRawByte(4 - i);
        if !ok {
          return Thrown(OutOfRange);
        }
        if tmp < 128 {
          return Value(word, position);
        }
      }
      r := Thrown(InvalidArgument);
    }

    /** The first varint of a log. */
    method ReadInt32() returns (r: Parsed)
      requires Valid() && Keeps() && (Aligned() || bufferPosition == decryptLength)
      modifies this, buffer, decrypter
      ensures Valid() && Keeps() && Aligned() && (buffer == old(buffer) || fresh(buffer))
      ensures r == Read32(plain, old(position), 0) && (r.Value? ==> position == r.next)
    {
      r := ReadRawVarint32(false);
    }

    /** readString of a record's key: what has been read before may be discarded. */
    method ReadString() returns (d: Delimited, key: Bytes)
      requires Valid() && (Aligned() || bufferPosition == decryptLength)
      modifies this, buffer, decrypter
      ensures Valid() && Keeps() && Aligned() && (buffer == old(buffer) || fresh(buffer))
      ensures d == ReadDelimited(plain, old(position))
      ensures d.Data? ==> position == d.next && key == plain[d.start..d.next]
                          && bufferPosition - discardPosition >= d.next - old(position)
    {
      hide Read32, Stands;
      key := [];
      var size := ReadRawVarint32(true);
      if size.Thrown? {
        return Failed(size.error), [];
      }
      if size.v >= TWO_31 {
        return Failed(LengthError), [];
      }
      if size.v <= |plain| - position {
        ConsumeBytes(size.v, false);
        d := Data(position, position + size.v);
        key := Take(size.v);
      } else {
        d := Failed(OutOfRange);
      }
    }

    /** The next bytes, out of the buffer. */
    method Take(n: nat) returns (bytes: Bytes)
      requires Valid() && n <= |plain| - position && n <= decryptLength - bufferPosition
      modifies this`position, this`bufferPosition
      ensures Valid() && position == old(position) + n && bufferPosition == old(bufferPosition) + n
      ensures bytes == plain[old(position)..position]
    {
      BufferedBytes(buffer[..], plain, from, bufferPosition, decryptLength, decryptPosition, n);
      hide Stands;
      bytes := buffer[bufferPosition..bufferPosition + n];
      position := position + n;
      bufferPosition := bufferPosition + n;
    }

    /**
     readData of a record: a long value is passed over, and the cipher status at the record's start kept with
     its offset.
     */
    method ReadData(offset: nat, keySize: nat, ghost start: nat, ghost k: Delimited) returns (d: Delimited,
                    holder: HolderCrypt)
      requires Valid() && Keeps() && Aligned()
      requires k == ReadDelimited(plain, start) && k.Data? && position == k.next && keySize == Low16(k.next - k.start)
      requires offset == Low32(start) && bufferPosition - discardPosition >= position - start
      modifies this, buffer, decrypter
      ensures Valid() && Aligned() && (buffer == old(buffer) || fresh(buffer))
      ensures d == ReadDelimited(plain, k.next)
      ensures d.Data? ==> Rollback(keySize, d.next - d.start) <= d.start - start
      ensures d.Data? ==> position == d.next && holder == CryptHolder(plain, start, keySize, d.start, d.next)
    {
      hide Read32, Stands, RawVarint32Size, Enc, Low16, Low32, ReadDelimited, InStep;
      assert ReadDelimited(plain, k.next) == ReadDelimited(plain, position);
      Delimiting(plain, position);
      holder := Stored([]);
      var size := ReadRawVarint32(false);
      if size.Thrown? {
        return Failed(size.error), holder;
      }
      if size.v >= TWO_31 {
        return Failed(LengthError), holder;
      }
      if size.v > |plain| - position {
        return Failed(OutOfRange), holder;
      }
      d := Data(position, position + size.v);
      RollbackFits(plain, start, k, d);
      if IsValueStoredAsOffset(size.v) {
        RawVarint32SizeIsLength(size.v);
        RawVarint32SizeIsLength(keySize);
        var pbKeyValueSize := RawVarint32Size(size.v) + RawVarint32Size(keySize);
        var status := StatusBeforeDecrypt(pbKeyValueSize + keySize);
        holder := Offset(pbKeyValueSize, keySize, size.v, offset, status);
        SkipBytes(size.v);
      } else {
        ConsumeBytes(size.v, false);
        var value := Take(size.v);
        holder := Stored(value);
      }
    }
  }

  // ---- Records

  predicate IsValueStoredAsOffset(valueSize: nat) {
    valueSize >= 256
  }

  /** KeyValueHolderCrypt: a value by its place, with the status of the cipher there, or the value itself. */
  datatype HolderCrypt =
    | Offset(pbKeyValueSize: nat, keySize: nat, valueSize: nat, offset: nat, status: nat)
    | Stored(value: Bytes)

  function RealValueSize(h: HolderCrypt): nat {
    match h
    case Offset(_, _, valueSize, _, _) => valueSize
    case Stored(value) => |value|
  }

  /** The bytes of a record in front of its value, as they are worked out from key and value size. */
  function Rollback(keySize: nat, valueSize: nat): nat {
    |Enc(valueSize)| + |Enc(keySize)| + keySize
  }

  /** The holder of the record at i whose value is s[start..next]. */
  function CryptHolder(s: Bytes, i: nat, keySize: nat, start: nat, next: nat): HolderCrypt
    requires keySize < TWO_16 && start <= next <= |s| && next - start < TWO_31
    requires Rollback(keySize, next - start) <= start
  {
    var size := next - start;
    if IsValueStoredAsOffset(size) then
      Offset(|Enc(size)| + |Enc(keySize)|, keySize, size, Low32(i), start - Rollback(keySize, size))
    else Stored(s[start..next])
  }

  /** A varint takes at least the bytes of its shortest encoding. */
  lemma {:induction false} VarintAtLeast(s: Bytes, i: nat, k: nat)
    requires k <= 4 && Read32(s, i, k).Value?
    ensures |Enc(Read32(s, i, k).v)| <= Read32(s, i, k).next - i
    decreases 4 - k
  {
    var v := Read32(s, i, k).v;
    if s[i] >= 128 {
      if k == 4 {
        assert v < 16;
      } else {
        VarintAtLeast(s, i + 1, k + 1);
        var w := Read32(s, i + 1, k + 1).v;
        assert v >= 128 ==> v / 128 == w;
      }
    } else {
      assert v < 128;
    }
  }

  lemma {:induction false} EncMonotone(a: nat, b: nat)
    requires a <= b
    ensures |Enc(a)| <= |Enc(b)|
    decreases b
  {
    if a >= 128 {
      EncMonotone(a / 128, b / 128);
    }
  }

  /** readData from a varint on. */
  lemma Delimiting(s: Bytes, i: nat)
    ensures var r, d := Read32(s, i, 0), ReadDelimited(s, i);
            && (r.Thrown? ==> d == Failed(r.error))
            && (r.Value? && r.v >= TWO_31 ==> d == Failed(LengthError))
            && (r.Value? && r.v < TWO_31 ==> d == if r.v <= |s| - r.next then Data(r.next, r.next + r.v)
                                                  else Failed(OutOfRange))
  {
  }

  /** The length in front of delimited data, as it is read and as it would be written. */
  lemma DelimitedLength(s: Bytes, i: nat)
    requires ReadDelimited(s, i).Data?
    ensures var d := ReadDelimited(s, i);
            var n := d.next - d.start;
            n < TWO_31 && RawVarint32Size(n) == |Enc(n)| <= d.start - i
  {
    hide Read32, RawVarint32Size, Enc;
    var n := ReadDelimited(s, i).next - ReadDelimited(s, i).start;
    VarintAtLeast(s, i, 0);
    RawVarint32SizeIsLength(n);
  }

  /**
   What is rolled back lies within the record; for shortest encodings and keys below 2^16 bytes it is all that
   precedes the value.
   */
  lemma RollbackFits(s: Bytes, i: nat, k: Delimited, v: Delimited)
    requires k == ReadDelimited(s, i) && k.Data? && v == ReadDelimited(s, k.next) && v.Data?
    ensures v.next - v.start < TWO_31 && Rollback(Low16(k.next - k.start), v.next - v.start) <= v.start - i
    ensures k.next - k.start < TWO_16 && k.start - i == |Enc(k.next - k.start)|
            && v.start - k.next == |Enc(v.next - v.start)|
            ==> v.start - Rollback(Low16(k.next - k.start), v.next - v.start) == i
  {
    hide Read32, RawVarint32Size, Enc, ReadDelimited, Low16;
    var n := k.next - k.start;
    DelimitedLength(s, i);
    DelimitedLength(s, k.next);
    assert Low16(n) <= n by { LowIsLess(n); }
    EncMonotone(Low16(n), n);
    RawVarint32SizeIsLength(Low16(n));
  }

  lemma LowIsLess(n: nat)
    ensures Low16(n) <= n
  {
  }

  lemma OverwrittenFront(m: Bytes, m': Bytes, plain: Bytes, at: nat, n: nat)
    requires n <= |m| && at + n <= |plain| && m' == Overwritten(m, 0, plain[at..at + n])
    ensures Stands(m', plain, 0, n, at + n)
  {
  }

  lemma BufferedBytes(m: Bytes, plain: Bytes, from: nat, i: nat, end: nat, at: nat, n: nat)
    requires Stands(m, plain, from, end, at) && from <= i && i + n <= end
    ensures at + i >= end && m[i..i + n] == plain[at + i - end..at + i - end + n]
  {
    var a, b := m[i..i + n], plain[at + i - end..at + i - end + n];
    forall x | 0 <= x < n ensures a[x] == b[x] {
      assert m[from..end][i - from + x] == plain[at + from - end..at][i - from + x];
    }
  }

  lemma BufferedByte(m: Bytes, plain: Bytes, from: nat, i: nat, end: nat, at: nat)
    requires Stands(m, plain, from, end, at) && from <= i < end
    ensures at + i >= end && m[i] == plain[at + i - end]
  {
    assert m[from..end][i - from] == plain[at + from - end..at][i - from];
  }

  /** Moving the buffer down keeps it in step with the plain text. */
  lemma MovedPlain(m: Bytes, m': Bytes, plain: Bytes, from: nat, pos: nat, end: nat, at: nat)
    requires Stands(m, plain, from, end, at) && from <= pos <= end && m' == Overwritten(m, 0, m[pos..pos + (end - pos)])
    ensures Stands(m', plain, 0, end - pos, at)
  {
    var a, b := m'[0..end - pos], plain[at - (end - pos)..at];
    forall x | 0 <= x < |a| ensures a[x] == b[x] {
      assert m[from..end][pos - from + x] == plain[at + from - end..at][pos - from + x];
    }
  }

  /** Decrypted bytes behind the buffered ones extend the plain text in the buffer. */
  lemma MorePlain(m: Bytes, m': Bytes, plain: Bytes, from: nat, end: nat, at: nat, n: nat)
    requires Stands(m, plain, from, end, at) && end + n <= |m| && at + n <= |plain|
    requires m' == Overwritten(m, end, plain[at..at + n])
    ensures Stands(m', plain, from, end + n, at + n)
  {
    assert plain[at + from - end..at + n] == plain[at + from - end..at] + plain[at..at + n];
    assert m'[from..end + n] == m[from..end] + plain[at..at + n];
  }

  // ---- Decoding a log

  type IndexCrypt = map<Bytes, HolderCrypt>

  datatype ReadCrypt = EntryCrypt(key: Bytes, holder: HolderCrypt, next: nat) | SkippedCrypt(next: nat)
    | BadCrypt(error: Error)

  /** One record of the plain text, as the decrypting reader records it. */
  function ReadRecordCrypt(s: Bytes, i: nat): (r: ReadCrypt)
    ensures r.EntryCrypt? || r.SkippedCrypt? ==> i < r.next <= |s|
  {
    match ReadDelimited(s, i)
    case Failed(e) => BadCrypt(e)
    case Data(keyStart, keyEnd) =>
      if keyStart == keyEnd then SkippedCrypt(keyEnd)
      else
        match ReadDelimited(s, keyEnd)
        case Failed(e) => BadCrypt(e)
        case Data(start, next) =>
          RollbackFits(s, i, Data(keyStart, keyEnd), Data(start, next));
          EntryCrypt(s[keyStart..keyEnd], CryptHolder(s, i, Low16(keyEnd - keyStart), start, next), next)
  }

  function ApplyCrypt(dic: IndexCrypt, key: Bytes, h: HolderCrypt): IndexCrypt {
    if RealValueSize(h) > 0 then dic[key := h] else dic - {key}
  }

  datatype ReplayedCrypt = ReplayedCrypt(dic: IndexCrypt, ok: bool)

  /** decodeOneMap over the plain text, with the holders of the decrypting reader. */
  function ReplayCrypt(s: Bytes, i: nat, dic: IndexCrypt): ReplayedCrypt
    requires i <= |s|
    decreases |s| - i
  {
    if i == |s| then ReplayedCrypt(dic, true)
    else
      match ReadRecordCrypt(s, i)
      case BadCrypt(_) => ReplayedCrypt(dic, false)
      case SkippedCrypt(next) => ReplayCrypt(s, next, dic)
      case EntryCrypt(key, h, next) => ReplayCrypt(s, next, ApplyCrypt(dic, key, h))
  }

  lemma RecordSkipped(s: Bytes, i: nat, k: Delimited)
    requires k == ReadDelimited(s, i)
    ensures k.Failed? ==> ReadRecordCrypt(s, i) == BadCrypt(k.error)
    ensures k.Data? && k.start == k.next ==> ReadRecordCrypt(s, i) == SkippedCrypt(k.next)
  {
  }

  lemma RecordEntered(s: Bytes, i: nat, k: Delimited, v: Delimited)
    requires k == ReadDelimited(s, i) && k.Data? && k.start < k.next && v == ReadDelimited(s, k.next)
    ensures v.Failed? ==> ReadRecordCrypt(s, i) == BadCrypt(v.error)
    ensures v.Data? ==> Rollback(Low16(k.next - k.start), v.next - v.start) <= v.start && v.next - v.start < TWO_31
    ensures v.Data? ==> ReadRecordCrypt(s, i)
                        == EntryCrypt(s[k.start..k.next], CryptHolder(s, i, Low16(k.next - k.start), v.start, v.next),
                                      v.next)
  {
    hide Low16, CryptHolder, Rollback;
    if v.Data? { RollbackFits(s, i, k, v); }
  }

  method ReadEntry(input: CodedInputDataCrypt) returns (r: ReadCrypt)
    requires input.Valid() && (input.Aligned() || input.bufferPosition == input.decryptLength)
    requires input.position < |input.plain|
    modifies input, input.buffer, input.decrypter
    ensures input.Valid() && input.Aligned() && (input.buffer == old(input.buffer) || fresh(input.buffer))
    ensures r == ReadRecordCrypt(input.plain, old(input.position))
    ensures r.EntryCrypt? || r.SkippedCrypt? ==> input.position == r.next
  {
    hide ReadDelimited, Stands, CryptHolder, Rollback, ReadRecordCrypt, Low16, Low32;
    ghost var start := input.position;
    var offset := Low32(input.position);
    var k, key := input.ReadString();
    RecordSkipped(input.plain, start, k);
    if k.Failed? {
      return BadCrypt(k.error);
    }
    if |key| == 0 {
      return SkippedCrypt(k.next);
    }
    var v, holder := input.ReadData(offset, Low16(|key|), start, k);
    RecordEntered(input.plain, start, k, v);
    if v.Failed? {
      return BadCrypt(v.error);
    }
    r := EntryCrypt(key, holder, v.next);
  }

  method DecodeEntries(input: CodedInputDataCrypt, dic: IndexCrypt) returns (r: ReplayedCrypt)
    requires input.Valid() && (input.Aligned() || input.bufferPosition == input.decryptLength)
    modifies input, input.buffer, input.decrypter
    ensures r == ReplayCrypt(input.plain, old(input.position), dic)
  {
    hide ReadRecordCrypt, ApplyCrypt, Stands;
    ghost var start := input.position;
    var d := dic;
    while input.position < |input.plain|
      invariant input.Valid() && (input.Aligned() || input.bufferPosition == input.decryptLength)
      invariant input.buffer == old(input.buffer) || fresh(input.buffer)
      invariant ReplayCrypt(input.plain, start, dic) == ReplayCrypt(input.plain, input.position, d)
      decreases |input.plain| - input.position
    {
      var e := ReadEntry(input);
      match e
      case BadCrypt(_) => return ReplayedCrypt(d, false);
      case SkippedCrypt(_) =>
      case EntryCrypt(key, h, _) => d := ApplyCrypt(d, key, h);
    }
    r := ReplayedCrypt(d, true);
  }

  /** What decodeOneMap makes of a text whose cipher stands at position. */
  function DecodedCrypt(s: Bytes, position: nat, greedy: bool, dic: IndexCrypt): IndexCrypt {
    var start := if greedy then dic else map[];
    var r := if position == 0 then
               (match Read32(s, 0, 0)
                case Thrown(_) => ReplayedCrypt(start, false)
                case Value(_, next) => ReplayCrypt(s, next, start))
             else if position <= |s| then ReplayCrypt(s, position, start)
             else ReplayedCrypt(start, false);
    if greedy || r.ok then r.dic else dic
  }

  /** decodeOneMap with a cipher, from the beginning of the log or from a position where the cipher stands. */
  method DecodeOneMap(text: Bytes, crypt: Decrypter, position: nat, greedy: bool, dic: IndexCrypt)
    returns (dic': IndexCrypt)
    requires crypt.plain == text && crypt.at == position
    modifies crypt
    ensures dic' == DecodedCrypt(text, position, greedy, dic)
  {
    hide ReplayCrypt, Read32, Stands;
    var input := new CodedInputDataCrypt(text, position, crypt);
    var start := if greedy then dic else map[];
    var ok := input.Seek(position);
    if position == 0 {
      var size := input.ReadInt32();
      ok := size.Value?;
    }
    var r := ReplayedCrypt(start, false);
    if ok {
      r := DecodeEntries(input, start);
    }
    dic' := if greedy || r.ok then r.dic else dic;
  }

  // ---- The same map as the plain reader

  /** Both holders describe the same value. */
  ghost predicate SameValue(s: Bytes, h: Holder, c: HolderCrypt) {
    && RealValueSize(c) == h.valueSize && End(h) <= |s|
    && match c
       case Offset(_, keySize, _, offset, _) => keySize == h.keySize && offset == h.offset
       case Stored(value) => value == ValueOf(s, h)
  }

  ghost predicate SameMap(s: Bytes, dic: Index, cdic: IndexCrypt) {
    dic.Keys == cdic.Keys && forall k :: k in dic ==> SameValue(s, dic[k], cdic[k])
  }

  /** From i on, every head of a record fits its 16 bits. */
  ghost predicate HeadsFit(s: Bytes, i: nat)
    requires i <= |s|
    decreases |s| - i
  {
    i < |s| ==>
      match ReadRecord(s, i)
      case Bad(_) => true
      case Skipped(next) => HeadsFit(s, next)
      case Entry(_, h, next) => next == i + RecordSize(h) && HeadsFit(s, next)
  }

  lemma SameRecord(s: Bytes, i: nat)
    requires |s| < TWO_32 && i <= |s|
    ensures ReadRecord(s, i).Bad? <==> ReadRecordCrypt(s, i).BadCrypt?
    ensures ReadRecord(s, i).Skipped? ==> ReadRecordCrypt(s, i) == SkippedCrypt(ReadRecord(s, i).next)
    ensures ReadRecord(s, i).Entry? ==>
              var e, c := ReadRecord(s, i), ReadRecordCrypt(s, i);
              && c.EntryCrypt? && c.key == e.key && c.next == e.next && RealValueSize(c.holder) == e.holder.valueSize
              && (e.next == i + RecordSize(e.holder) ==> SameValue(s, e.holder, c.holder))
  {
    hide ReadDelimited, Low16, Rollback;
  }

  lemma ApplySame(s: Bytes, dic: Index, cdic: IndexCrypt, key: Bytes, h: Holder, c: HolderCrypt)
    requires SameMap(s, dic, cdic) && SameValue(s, h, c)
    ensures SameMap(s, Apply(dic, key, h), ApplyCrypt(cdic, key, c))
  {
    hide SameValue;
    assert RealValueSize(c) == h.valueSize by { SizesSame(s, h, c); }
  }

  lemma SizesSame(s: Bytes, h: Holder, c: HolderCrypt)
    requires SameValue(s, h, c)
    ensures RealValueSize(c) == h.valueSize
  {
  }

  /** The two indexes have the same keys, with values of the same sizes. */
  ghost predicate SameSizes(dic: Index, cdic: IndexCrypt) {
    dic.Keys == cdic.Keys && forall k :: k in dic ==> RealValueSize(cdic[k]) == dic[k].valueSize
  }

  lemma ApplySameSizes(dic: Index, cdic: IndexCrypt, key: Bytes, h: Holder, c: HolderCrypt)
    requires SameSizes(dic, cdic) && RealValueSize(c) == h.valueSize
    ensures SameSizes(Apply(dic, key, h), ApplyCrypt(cdic, key, c))
  {
  }

  /** Replaying any bytes with and without a cipher finds the same keys and sizes, and fails alike. */
  lemma {:induction false} ReplayFindsSame(s: Bytes, i: nat, dic: Index, cdic: IndexCrypt)
    requires |s| < TWO_32 && i <= |s| && SameSizes(dic, cdic)
    ensures Replay(s, i, dic).ok == ReplayCrypt(s, i, cdic).ok
    ensures SameSizes(Replay(s, i, dic).dic, ReplayCrypt(s, i, cdic).dic)
    decreases |s| - i
  {
    hide ReadRecord, ReadRecordCrypt, SameSizes, SameValue, Apply, ApplyCrypt;
    if i < |s| {
      SameRecord(s, i);
      match ReadRecord(s, i)
      case Bad(_) =>
      case Skipped(next) => ReplayFindsSame(s, next, dic, cdic);
      case Entry(key, h, next) =>
        var c := ReadRecordCrypt(s, i);
        ApplySameSizes(dic, cdic, key, h, c.holder);
        ReplayFindsSame(s, next, Apply(dic, key, h), ApplyCrypt(cdic, key, c.holder));
    }
  }

  /** The same values too, when the heads of all records fit the 16 bits in which the plain holder records them. */
  lemma {:induction false} SameReplay(s: Bytes, i: nat, dic: Index, cdic: IndexCrypt)
    requires |s| < TWO_32 && i <= |s| && HeadsFit(s, i) && SameMap(s, dic, cdic)
    ensures SameMap(s, Replay(s, i, dic).dic, ReplayCrypt(s, i, cdic).dic)
    decreases |s| - i
  {
    hide ReadRecord, ReadRecordCrypt, SameMap, SameValue, Apply, ApplyCrypt;
    if i < |s| {
      SameRecord(s, i);
      match ReadRecord(s, i)
      case Bad(_) =>
      case Skipped(next) => SameReplay(s, next, dic, cdic);
      case Entry(key, h, next) =>
        var c := ReadRecordCrypt(s, i);
        ApplySame(s, dic, cdic, key, h, c.holder);
        SameReplay(s, next, Apply(dic, key, h), ApplyCrypt(cdic, key, c.holder));
    }
  }

  /** The heads of all records from position on, which is behind the header when it is 0, fit. */
  ghost predicate LogHeadsFit(s: Bytes, position: nat) {
    if position == 0 then
      match Read32(s, 0, 0)
      case Thrown(_) => true
      case Value(_, next) => HeadsFit(s, next)
    else position <= |s| ==> HeadsFit(s, position)
  }

  /**
   Decoding a map with a cipher is decoding it without: for any bytes and any start, greedy or not, with and
   without an exception, the keys and sizes are the same; and the values are when the heads of all records fit.
   */
  lemma SameDecoded(s: Bytes, position: nat, greedy: bool, dic: Index, cdic: IndexCrypt)
    requires |s| < TWO_32 && SameSizes(dic, cdic)
    ensures SameSizes(MapCoder.Decoded(s, position, greedy, dic), DecodedCrypt(s, position, greedy, cdic))
    ensures LogHeadsFit(s, position) && SameMap(s, dic, cdic) ==>
              SameMap(s, MapCoder.Decoded(s, position, greedy, dic), DecodedCrypt(s, position, greedy, cdic))
  {
    hide SameSizes, SameMap, HeadsFit, Replay, ReplayCrypt, Read32;
    NothingIsSame(s);
    var start: Index := if greedy then dic else map[];
    var cstart: IndexCrypt := if greedy then cdic else map[];
    var i := if position != 0 then position
             else match Read32(s, 0, 0) case Thrown(_) => |s| + 1 case Value(_, next) => next;
    if i <= |s| {
      ReplayFindsSame(s, i, start, cstart);
      if HeadsFit(s, i) && SameMap(s, dic, cdic) { SameReplay(s, i, start, cstart); }
    }
  }

  lemma NothingIsSame(s: Bytes)
    ensures SameSizes(map[], map[]) && SameMap(s, map[], map[])
  {
  }
}
