/** The log of an MMKV file: records of a key and a value, replayed into an index of offsets. */
module LogFormat {
  import opened Varints
  import opened Coded

  type Bytes = seq<Byte>

  /** KeyValueHolder: where a record lies; 16-bit, 16-bit, 32-bit and 32-bit fields. */
  datatype Holder = Holder(computedKVSize: nat, keySize: nat, valueSize: nat, offset: nat)

  type Index = map<Bytes, Holder>

  const TWO_16: nat := 0x1_0000

  function Low16(n: int): (r: nat)
    ensures r < TWO_16 && (0 <= n < TWO_16 ==> r == n)
  {
    n % TWO_16
  }

  function Low32(n: int): (r: nat)
    ensures r < TWO_32 && (0 <= n < TWO_32 ==> r == n)
  {
    n % TWO_32
  }

  /** The constructor of KeyValueHolder, with its truncations. */
  function MakeHolder(keyLength: nat, valueLength: nat, off: nat): Holder
    requires valueLength < TWO_32
  {
    var keySize := Low16(keyLength);
    var sized := Low16(keySize + Low16(RawVarint32Size(keySize)));
    Holder(Low16(sized + Low16(RawVarint32Size(valueLength))), keySize, valueLength, Low32(off))
  }

  /** The holder that describes a record at off, in unbounded numbers. */
  function HolderOf(keyLength: nat, valueLength: nat, off: nat): Holder {
    Holder(|Enc(keyLength)| + keyLength + |Enc(valueLength)|, keyLength, valueLength, off)
  }

  /** The lengths of a record fit the fields of its holder. */
  predicate Fits(keyLength: nat, valueLength: nat) {
    |Enc(keyLength)| + keyLength + |Enc(valueLength)| < TWO_16 && valueLength < TWO_31
  }

  /** The constructor is exact just when key and length prefixes are below 2^16 bytes together. */
  lemma HolderIsExact(keyLength: nat, valueLength: nat, off: nat)
    requires keyLength < TWO_32 && valueLength < TWO_31 && off < TWO_32
    ensures MakeHolder(keyLength, valueLength, off) == HolderOf(keyLength, valueLength, off)
            <==> Fits(keyLength, valueLength)
  {
    hide RawVarint32Size, Enc, Low16, Low32;
    SizeAtMost5(keyLength);
    SizeAtMost5(valueLength);
    SmallMod(keyLength);
    SmallMod(off);
    if keyLength < TWO_16 {
      RawVarint32SizeIsLength(keyLength);
      RawVarint32SizeIsLength(valueLength);
      var a, b := RawVarint32Size(keyLength), RawVarint32Size(valueLength);
      SmallMod(a);
      SmallMod(b);
      SmallMod(keyLength + a);
      SmallMod(Low16(keyLength + a) + b);
    }
  }

  lemma SmallMod(n: nat)
    requires n < TWO_32
    ensures Low32(n) == n && Low16(n) < TWO_16
    ensures n < TWO_16 ==> Low16(n) == n
    ensures TWO_16 <= n < 2 * TWO_16 ==> Low16(n) == n - TWO_16
  {
  }

  lemma SizeAtMost5(v: nat)
    requires v < TWO_32
    ensures 1 <= |Enc(v)| <= 5
  {
    RawVarint32SizeIsLength(v);
    hide Enc;
  }

  /** With a value of one byte, a key of 65531 bytes still fits its holder, and the holder of one byte more says 0. */
  lemma LongKeyBreaksHolder()
    ensures Fits(65531, 1) && !Fits(65532, 1)
    ensures MakeHolder(65532, 1, 4).computedKVSize == 0 && HolderOf(65532, 1, 4).computedKVSize == TWO_16
  {
    assert |Enc(65531)| == 3 && |Enc(65532)| == 3 && |Enc(1)| == 1;
    RawVarint32SizeIsLength(65532);
    RawVarint32SizeIsLength(1);
    hide RawVarint32Size, Enc, Low16, Low32;
    SmallMod(65532);
    SmallMod(3);
    SmallMod(1);
    SmallMod(65532 + 3);
    SmallMod(65532 + 3 + 1);
  }

  // ---- Records

  /** The result of reading one record. */
  datatype Read = Entry(key: Bytes, holder: Holder, next: nat) | Skipped(next: nat) | Bad(error: Error)

  /** readString and readData with a holder: a record without a key has no value either. */
  function ReadRecord(s: Bytes, i: nat): (r: Read)
    ensures r.Entry? || r.Skipped? ==> i < r.next <= |s|
  {
    match ReadDelimited(s, i)
    case Failed(e) => Bad(e)
    case Data(keyStart, keyEnd) =>
      if keyStart == keyEnd then Skipped(keyEnd)
      else
        match ReadDelimited(s, keyEnd)
        case Failed(e) => Bad(e)
        case Data(valueStart, next) =>
          Entry(s[keyStart..keyEnd],
                Holder(Low16(valueStart - Low32(i)), Low16(keyEnd - keyStart), next - valueStart, Low32(i)), next)
  }

  /** An index after a record: a record without a value deletes. */
  function Apply(dic: Index, key: Bytes, h: Holder): Index {
    if h.valueSize > 0 then dic[key := h] else dic - {key}
  }

  datatype Replayed = Replayed(dic: Index, ok: bool)

  /** decodeOneMap from position i on: the index at the end, or at the first exception. */
  function Replay(s: Bytes, i: nat, dic: Index): Replayed
    requires i <= |s|
    decreases |s| - i
  {
    if i == |s| then Replayed(dic, true)
    else
      match ReadRecord(s, i)
      case Bad(_) => Replayed(dic, false)
      case Skipped(next) => Replay(s, next, dic)
      case Entry(key, h, next) => Replay(s, next, Apply(dic, key, h))
  }

  function EncRecord(key: Bytes, value: Bytes): Bytes {
    EncData(key) + EncData(value)
  }

  /** What is in front of the value of a record. */
  function EncHead(key: Bytes, valueLength: nat): Bytes {
    EncData(key) + Enc(valueLength)
  }

  // ---- Reading looks at the bytes of the record only

  /** The same bytes are in s from i to i + n and in t from j to j + n. */
  ghost predicate SameBytes(s: Bytes, i: nat, t: Bytes, j: nat, n: nat) {
    i + n <= |s| && j + n <= |t| && s[i..i + n] == t[j..j + n]
  }

  lemma SameByte(s: Bytes, i: nat, t: Bytes, j: nat, n: nat, k: nat)
    requires SameBytes(s, i, t, j, n) && k < n
    ensures s[i + k] == t[j + k]
  {
    assert s[i..i + n][k] == t[j..j + n][k];
  }

  lemma SamePart(s: Bytes, i: nat, t: Bytes, j: nat, n: nat, a: nat, b: nat)
    requires SameBytes(s, i, t, j, n) && a <= b <= n
    ensures SameBytes(s, i + a, t, j + a, b - a)
  {
    var p, q := s[i + a..i + a + (b - a)], t[j + a..j + a + (b - a)];
    forall x | 0 <= x < |p| ensures p[x] == q[x] { SameByte(s, i, t, j, n, a + x); }
  }

  lemma {:induction false} DiscardMoves(s: Bytes, i: nat, t: Bytes, j: nat, n: nat, left: nat)
    requires SameBytes(s, i, t, j, n) && Discard(s, i, left).Value? && Discard(s, i, left).next <= i + n
    ensures Discard(t, j, left) == Value(0, j + (Discard(s, i, left).next - i))
    decreases left
  {
    SameByte(s, i, t, j, n, 0);
    if s[i] >= 128 {
      SamePart(s, i, t, j, n, 1, n);
      DiscardMoves(s, i + 1, t, j + 1, n - 1, left - 1);
    }
  }

  lemma {:induction false} Read32Moves(s: Bytes, i: nat, t: Bytes, j: nat, n: nat, k: nat)
    requires k <= 4 && SameBytes(s, i, t, j, n) && Read32(s, i, k).Value? && Read32(s, i, k).next <= i + n
    ensures Read32(t, j, k) == Value(Read32(s, i, k).v, j + (Read32(s, i, k).next - i))
    decreases 4 - k
  {
    hide Discard;
    SameByte(s, i, t, j, n, 0);
    if s[i] >= 128 {
      SamePart(s, i, t, j, n, 1, n);
      if k == 4 {
        DiscardMoves(s, i + 1, t, j + 1, n - 1, 5);
      } else {
        Read32Moves(s, i + 1, t, j + 1, n - 1, k + 1);
      }
    }
  }

  lemma DelimitedMoves(s: Bytes, i: nat, t: Bytes, j: nat, n: nat)
    requires SameBytes(s, i, t, j, n) && ReadDelimited(s, i).Data? && ReadDelimited(s, i).next <= i + n
    ensures var r := ReadDelimited(s, i); ReadDelimited(t, j) == Data(j + (r.start - i), j + (r.next - i))
  {
    hide Read32;
    Read32Moves(s, i, t, j, n, 0);
  }

  /** The parts of a record that was read. */
  lemma RecordParts(s: Bytes, i: nat) returns (k: Delimited, v: Delimited)
    requires ReadRecord(s, i).Entry? && i < TWO_32
    ensures IsParts(s, i, k, v) && ReadRecord(s, i) == EntryOf(s, i, k, v)
  {
    hide ReadDelimited, Low16, Low32;
    assert Low32(i) == i;
    k := ReadDelimited(s, i);
    v := ReadDelimited(s, k.next);
  }

  ghost predicate IsParts(s: Bytes, i: nat, k: Delimited, v: Delimited) {
    && ReadDelimited(s, i) == k && k.Data? && k.start < k.next
    && ReadDelimited(s, k.next) == v && v.Data?
  }

  function EntryOf(s: Bytes, i: nat, k: Delimited, v: Delimited): Read
    requires k.Data? && v.Data? && i <= k.start <= k.next <= |s| && k.next <= v.start <= v.next
  {
    Entry(s[k.start..k.next], Holder(Low16(v.start - i), Low16(k.next - k.start), v.next - v.start, i), v.next)
  }

  lemma PartsMakeRecord(s: Bytes, i: nat, k: Delimited, v: Delimited)
    requires IsParts(s, i, k, v) && i < TWO_32
    ensures ReadRecord(s, i) == EntryOf(s, i, k, v)
  {
    hide ReadDelimited, Low16, Low32;
    assert Low32(i) == i;
  }

  function Shift(d: Delimited, i: nat, j: nat): Delimited
    requires d.Data? && i <= d.start <= d.next
  {
    Data(j + (d.start - i), j + (d.next - i))
  }

  /** A record reads the same elsewhere, but for its offset. */
  lemma RecordMoves(s: Bytes, i: nat, t: Bytes, j: nat, n: nat)
    requires ReadRecord(s, i).Entry? && SameBytes(s, i, t, j, n) && ReadRecord(s, i).next == i + n
    requires |s| < TWO_32 && |t| < TWO_32
    ensures var r := ReadRecord(s, i); ReadRecord(t, j) == Entry(r.key, r.holder.(offset := j), j + n)
  {
    hide ReadRecord, Low16, ReadDelimited, SameBytes;
    SameSlices(s, i, t, j, n);
    var k, v := RecordParts(s, i);
    DelimitedMoves(s, i, t, j, n);
    SamePart(s, i, t, j, n, k.next - i, n);
    DelimitedMoves(s, k.next, t, j + (k.next - i), n - (k.next - i));
    PartsMakeRecord(t, j, Shift(k, i, j), Shift(v, i, j));
    SamePart(s, i, t, j, n, k.start - i, k.next - i);
    SameSlices(s, k.start, t, j + (k.start - i), k.next - k.start);
  }

  lemma SameSlices(s: Bytes, i: nat, t: Bytes, j: nat, n: nat)
    requires SameBytes(s, i, t, j, n)
    ensures i + n <= |s| && j + n <= |t| && s[i..i + n] == t[j..j + n]
  {
  }

  /** Bytes behind a record do not matter to it. */
  lemma RecordExtends(s: Bytes, i: nat, t: Bytes)
    requires !ReadRecord(s, i).Bad?
    ensures ReadRecord(s + t, i) == ReadRecord(s, i)
  {
    hide ReadDelimited;
    var u, n := s + t, |s| - i;
    assert SameBytes(s, i, u, i, n) by { assert u[i..i + n] == s[i..i + n]; }
    DelimitedMoves(s, i, u, i, n);
    var k := ReadDelimited(s, i);
    if k.start != k.next {
      SamePart(s, i, u, i, n, k.next - i, n);
      DelimitedMoves(s, k.next, u, k.next, n - (k.next - i));
      SamePart(s, i, u, i, n, k.start - i, k.next - i);
    }
  }

  /** Replaying a longer log is replaying its end on the index of its beginning. */
  lemma {:induction false} ReplayExtends(s: Bytes, i: nat, dic: Index, t: Bytes)
    requires i <= |s| && Replay(s, i, dic).ok
    ensures Replay(s + t, i, dic) == Replay(s + t, |s|, Replay(s, i, dic).dic)
    decreases |s| - i
  {
    if i < |s| {
      RecordExtends(s, i, t);
      match ReadRecord(s, i)
      case Skipped(next) => ReplayExtends(s, next, dic, t);
      case Entry(key, h, next) => ReplayExtends(s, next, Apply(dic, key, h), t);
    }
  }

  // ---- Records as the store writes them

  /** A record written by the store is read back with its exact holder. */
  lemma ReadBackRecord(s: Bytes, i: nat, key: Bytes, value: Bytes)
    requires HasAt(s, i, EncRecord(key, value)) && key != [] && Fits(|key|, |value|) && |s| < TWO_32
    ensures ReadRecord(s, i) == Entry(key, HolderOf(|key|, |value|, i), i + |EncRecord(key, value)|)
  {
    HasParts(s, i, EncData(key), EncData(value));
    assert |EncData(key)| == |Enc(|key|)| + |key| && |EncData(value)| == |Enc(|value|)| + |value|;
    hide HasAt, EncData, Enc, ReadDelimited, ReadRecord, Low16, Low32;
    var j := i + |EncData(key)|;
    ReadBackData(s, i, key);
    ReadBackData(s, j, value);
    var k, v := Data(i + |Enc(|key|)|, j), Data(j + |Enc(|value|)|, j + |EncData(value)|);
    PartsMakeRecord(s, i, k, v);
    SmallMod(v.start - i);
    SmallMod(|key|);
  }

  /** Key k has a record at h.offset in s, and h describes it exactly. */
  ghost predicate IsEntry(s: Bytes, k: Bytes, h: Holder) {
    && k != [] && h.valueSize > 0 && Fits(|k|, h.valueSize) && h == HolderOf(|k|, h.valueSize, h.offset)
    && End(h) <= |s| && HasAt(s, h.offset, EncHead(k, h.valueSize))
  }

  /** The bytes of a record. */
  function RecordSize(h: Holder): nat { h.computedKVSize + h.valueSize }

  function End(h: Holder): nat { h.offset + RecordSize(h) }

  /** toMMBuffer: the value bytes of a record. */
  function ValueOf(s: Bytes, h: Holder): Bytes
    requires End(h) <= |s|
  {
    s[h.offset + h.computedKVSize..End(h)]
  }

  /** An entry is a whole record. */
  lemma EntryIsRecord(s: Bytes, k: Bytes, h: Holder)
    requires IsEntry(s, k, h)
    ensures HasAt(s, h.offset, EncRecord(k, ValueOf(s, h))) && |EncRecord(k, ValueOf(s, h))| == RecordSize(h)
  {
    var i, head, v := h.offset, EncHead(k, h.valueSize), ValueOf(s, h);
    assert EncRecord(k, v) == head + v;
    assert s[i..End(h)] == s[i..i + |head|] + s[i + |head|..End(h)];
  }

  lemma RecordIsEntry(s: Bytes, i: nat, key: Bytes, value: Bytes)
    requires HasAt(s, i, EncRecord(key, value)) && key != [] && value != [] && Fits(|key|, |value|)
    ensures IsEntry(s, key, HolderOf(|key|, |value|, i)) && ValueOf(s, HolderOf(|key|, |value|, i)) == value
  {
    var head := EncHead(key, |value|);
    assert EncRecord(key, value) == head + value;
    HasParts(s, i, head, value);
  }

  /** The same record elsewhere is an entry with the same value. */
  lemma EntryMoves(s: Bytes, k: Bytes, h: Holder, t: Bytes, j: nat)
    requires IsEntry(s, k, h) && SameBytes(s, h.offset, t, j, RecordSize(h))
    ensures IsEntry(t, k, h.(offset := j)) && ValueOf(t, h.(offset := j)) == ValueOf(s, h)
  {
    EntryIsRecord(s, k, h);
    assert HasAt(t, j, EncRecord(k, ValueOf(s, h)));
    RecordIsEntry(t, j, k, ValueOf(s, h));
  }

  // ---- Indexes

  /** Every key of the index has its record behind the header, and records do not overlap. */
  ghost predicate Sound(s: Bytes, dic: Index) {
    && (forall k :: k in dic ==> IsEntry(s, k, dic[k]) && dic[k].offset >= 4)
    && (forall j, k :: j in dic && k in dic && j != k ==> End(dic[j]) <= dic[k].offset || End(dic[k]) <= dic[j].offset)
  }

  /** The stored map: the value bytes of every key. */
  ghost function Contents(s: Bytes, dic: Index): map<Bytes, Bytes>
    requires Sound(s, dic)
  {
    map k | k in dic :: ValueOf(s, dic[k])
  }

  /** The placeholder for the size of the map: 0x00ffffff in 4 bytes. */
  const ITEM_SIZE_HOLDER: nat := 0x00FF_FFFF
  const HEADER: Bytes := [0xFF, 0xFF, 0xFF, 0x07]

  lemma HeaderIsHolder()
    ensures Enc(ITEM_SIZE_HOLDER) == HEADER
  {
    assert Enc(7) == [7];
    assert Enc(0x3FF) == [0xFF, 7];
    assert Enc(0x1_FFFF) == [0xFF, 0xFF, 7];
    assert Enc(0xFF_FFFF) == [0xFF, 0xFF, 0xFF, 7];
  }

  /** The replay of a whole log: behind the varint of its header. */
  function ReplayLog(s: Bytes, dic: Index): Replayed {
    match Read32(s, 0, 0)
    case Thrown(_) => Replayed(dic, false)
    case Value(_, next) => Replay(s, next, dic)
  }

  /** The log begins with the placeholder, and the index is what replaying it gives. */
  ghost predicate Agrees(s: Bytes, dic: Index) {
    HasAt(s, 0, HEADER) && ReplayLog(s, map[]) == Replayed(dic, true)
  }

  lemma ReplayFrom4(s: Bytes, dic: Index)
    requires HasAt(s, 0, HEADER)
    ensures ReplayLog(s, dic) == Replay(s, 4, dic)
  {
    HeaderIsHolder();
    RoundTripUInt32(s, 0, ITEM_SIZE_HOLDER);
  }

  lemma EmptyLog()
    ensures Agrees(HEADER, map[]) && Sound(HEADER, map[]) && Contents(HEADER, map[]) == map[]
  {
    ReplayFrom4(HEADER, map[]);
  }

  /** The map after a record: an empty value deletes. */
  function Stored(c: map<Bytes, Bytes>, key: Bytes, value: Bytes): map<Bytes, Bytes> {
    if value != [] then c[key := value] else c - {key}
  }

  lemma PrefixEntry(s: Bytes, k: Bytes, h: Holder, t: Bytes)
    requires IsEntry(s, k, h)
    ensures IsEntry(s + t, k, h) && ValueOf(s + t, h) == ValueOf(s, h)
  {
    var i, n := h.offset, RecordSize(h);
    assert (s + t)[i..i + n] == s[i..i + n];
    EntryMoves(s, k, h, s + t, i);
    assert h.(offset := i) == h;
  }

  /** The index after a record appended to the log. */
  function Indexed(s: Bytes, dic: Index, key: Bytes, value: Bytes): Index {
    Apply(dic, key, HolderOf(|key|, |value|, |s|))
  }

  /** Appending a record keeps the index in agreement with the log and updates the stored map. */
  lemma AppendAgrees(s: Bytes, dic: Index, key: Bytes, value: Bytes)
    requires Agrees(s, dic) && key != [] && Fits(|key|, |value|) && |s + EncRecord(key, value)| < TWO_32
    ensures Agrees(s + EncRecord(key, value), Indexed(s, dic, key, value))
  {
    var r := EncRecord(key, value);
    var u := s + r;
    assert HasAt(u, 0, HEADER) by { assert u[..4] == s[..4]; }
    ReplayFrom4(s, map[]);
    ReplayFrom4(u, map[]);
    ReplayExtends(s, 4, map[], r);
    assert HasAt(u, |s|, r);
    ReadBackRecord(u, |s|, key, value);
    hide EncRecord, Fits, HolderOf, ReadRecord;
    ReplayLast(u, |s|, dic, key, HolderOf(|key|, |value|, |s|));
  }

  lemma ReplayLast(u: Bytes, i: nat, dic: Index, key: Bytes, h: Holder)
    requires i < |u| && ReadRecord(u, i) == Entry(key, h, |u|)
    ensures Replay(u, i, dic) == Replayed(Apply(dic, key, h), true)
  {
    hide ReadRecord;
  }

  /** The entries of dic are entries of u too, with the same values, and lie before position n. */
  ghost predicate Kept(s: Bytes, u: Bytes, dic: Index, n: nat) {
    forall k :: k in dic ==>
      && IsEntry(s, k, dic[k]) && IsEntry(u, k, dic[k]) && ValueOf(u, dic[k]) == ValueOf(s, dic[k]) && End(dic[k]) <= n
  }

  lemma SoundAfter(s: Bytes, u: Bytes, dic: Index, key: Bytes, h: Holder)
    requires Sound(s, dic) && Kept(s, u, dic, h.offset) && h.offset >= 4 && (h.valueSize > 0 ==> IsEntry(u, key, h))
    ensures Sound(u, Apply(dic, key, h))
  {
    hide IsEntry, End;
    var dic' := Apply(dic, key, h);
    forall k | k in dic' ensures IsEntry(u, k, dic'[k]) && dic'[k].offset >= 4 { }
    forall j, k | j in dic' && k in dic' && j != k
      ensures End(dic'[j]) <= dic'[k].offset || End(dic'[k]) <= dic'[j].offset
    {
    }
  }

  lemma ContentsAfter(s: Bytes, u: Bytes, dic: Index, key: Bytes, h: Holder, value: Bytes)
    requires Sound(s, dic) && Kept(s, u, dic, h.offset) && Sound(u, Apply(dic, key, h)) && h.valueSize == |value|
    requires value != [] ==> IsEntry(u, key, h) && ValueOf(u, h) == value
    ensures Contents(u, Apply(dic, key, h)) == Stored(Contents(s, dic), key, value)
  {
    hide IsEntry, ValueOf, Sound;
    var c', c := Contents(u, Apply(dic, key, h)), Stored(Contents(s, dic), key, value);
    forall k ensures k in c' <==> k in c { }
    forall k | k in c' ensures c'[k] == c[k] { }
  }

  lemma AppendSound(s: Bytes, dic: Index, key: Bytes, value: Bytes)
    requires Sound(s, dic) && key != [] && Fits(|key|, |value|) && |s| >= 4
    ensures Sound(s + EncRecord(key, value), Indexed(s, dic, key, value))
    ensures Contents(s + EncRecord(key, value), Indexed(s, dic, key, value)) == Stored(Contents(s, dic), key, value)
  {
    var r := EncRecord(key, value);
    var u, h := s + r, HolderOf(|key|, |value|, |s|);
    forall k | k in dic
      ensures IsEntry(s, k, dic[k]) && IsEntry(u, k, dic[k]) && ValueOf(u, dic[k]) == ValueOf(s, dic[k])
      ensures End(dic[k]) <= |s|
    {
      PrefixEntry(s, k, dic[k], r);
    }
    if value != [] {
      assert HasAt(u, |s|, r);
      RecordIsEntry(u, |s|, key, value);
    }
    hide IsEntry, EncRecord, ValueOf, Fits, Sound, Contents;
    SoundAfter(s, u, dic, key, h);
    ContentsAfter(s, u, dic, key, h, value);
  }
}
