/** MiniPBCoder on vectors of strings: a container header and the strings, each with its length. */
module MiniPB {
  import opened Varints
  import opened Coded

  type Str = seq<Byte>

  function EncAll(v: seq<Str>): seq<Byte> {
    if v == [] then [] else EncData(v[0]) + EncAll(v[1..])
  }

  /** The encoding of a vector. */
  function EncVector(v: seq<Str>): seq<Byte> {
    EncData(EncAll(v))
  }

  lemma {:induction false} EncAllSnoc(v: seq<Str>, s: Str)
    ensures EncAll(v + [s]) == EncAll(v) + EncData(s)
  {
    if v == [] {
      assert v + [s] == [s];
      assert EncAll([s]) == EncData(s) + EncAll([s][1..]);
    } else {
      assert (v + [s])[1..] == v[1..] + [s];
      EncAllSnoc(v[1..], s);
    }
  }

  lemma {:induction false} EncAllTake(v: seq<Str>, n: nat)
    requires n < |v|
    ensures EncAll(v[..n + 1]) == EncAll(v[..n]) + EncData(v[n])
    ensures |EncAll(v[..n + 1])| <= |EncAll(v)|
    decreases |v| - n
  {
    assert v[..n + 1] == v[..n] + [v[n]];
    EncAllSnoc(v[..n], v[n]);
    if n + 1 < |v| {
      EncAllTake(v, n + 1);
    } else {
      assert v[..n + 1] == v;
    }
  }

  lemma NothingEncoded()
    ensures EncAll([]) == []
  {
  }

  // ---- Encoding

  /** PBEncodeItem: what is written, and how many bytes it takes. */
  datatype Item = Container(valueSize: nat, compiledSize: nat)
    | StringItem(value: Str, valueSize: nat, compiledSize: nat)

  /** Items describe vector v: the container first, then one item a string. */
  ghost predicate Prepared(items: seq<Item>, v: seq<Str>) {
    && |items| == |v| + 1 && items[0].Container?
    && items[0].valueSize == |EncAll(v)|
    && forall k :: 1 <= k < |items| ==> items[k] == StringItem(v[k - 1], |v[k - 1]|, |EncData(v[k - 1])|)
  }

  /** The encoding fits the 32-bit sizes of the coder. */
  ghost predicate Encodable(v: seq<Str>) {
    && |EncVector(v)| < TWO_32
    && forall s :: s in v ==> |s| < TWO_31
  }

  lemma StringFits(v: seq<Str>, k: nat)
    requires Encodable(v) && k < |v|
    ensures |v[k]| < TWO_31 && |EncAll(v[..k])| + |EncData(v[k])| <= |EncAll(v)| < TWO_32
  {
    assert v[k] in v;
    EncAllTake(v, k);
  }

  /** prepareObjectForEncode. */
  method Prepare(v: seq<Str>) returns (items: seq<Item>)
    requires Encodable(v)
    ensures Prepared(items, v) && items[0].compiledSize == |EncVector(v)|
  {
    hide EncAll, RawVarint32Size, Enc;
    assert EncAll([]) == [] by { NothingEncoded(); }
    items := [Container(0, 0)];
    var valueSize := 0;
    for k := 0 to |v|
      invariant |items| == k + 1 && items[0].Container? && valueSize == |EncAll(v[..k])|
      invariant forall j :: 1 <= j <= k ==> items[j] == StringItem(v[j - 1], |v[j - 1]|, |EncData(v[j - 1])|)
    {
      StringFits(v, k);
      EncAllTake(v, k);
      RawVarint32SizeIsLength(|v[k]|);
      var compiled := RawVarint32Size(|v[k]|) + |v[k]|;
      items := items + [StringItem(v[k], |v[k]|, compiled)];
      valueSize := valueSize + compiled;
    }
    assert v[..|v|] == v;
    RawVarint32SizeIsLength(valueSize);
    items := items[0 := Container(valueSize, RawVarint32Size(valueSize) + valueSize)];
  }

  /** encodeDataWithObject: the buffer of the computed size is filled exactly. */
  method EncodeVector(v: seq<Str>) returns (buffer: array<Byte>)
    requires Encodable(v)
    ensures fresh(buffer) && buffer[..] == EncVector(v)
  {
    assert EncVector(v) == Enc(|EncAll(v)|) + EncAll(v);
    hide EncAll, Overwritten, Enc, EncData, EncVector, Encodable;
    NothingEncoded();
    assert v[..0] == [];
    var items := Prepare(v);
    buffer := new Byte[items[0].compiledSize];
    var output := new CodedOutputData(buffer, 0, buffer.Length);
    ghost var blank, header := buffer[..], Enc(items[0].valueSize);
    var ok := output.WriteRawVarint(items[0].valueSize);
    assert header + [] == header;
    assert Filled(output, buffer, blank, header + EncAll(v[..0]));
    hide Filled;
    WriteItems(output, items, v, blank, header);
    FilledWhole(output, buffer, blank, header + EncAll(v));
  }

  /** writeRootObject behind the container header. */
  method WriteItems(output: CodedOutputData, items: seq<Item>, ghost v: seq<Str>, ghost blank: seq<Byte>,
                    ghost header: seq<Byte>)
    requires Encodable(v) && Prepared(items, v) && |header| + |EncAll(v)| == |blank|
    requires Filled(output, output.ptr, blank, header + EncAll(v[..0]))
    modifies output, output.ptr
    ensures Filled(output, output.ptr, blank, header + EncAll(v))
  {
    hide EncAll, Enc, EncData, EncVector, Filled, Encodable;
    for index := 1 to |items|
      invariant Filled(output, output.ptr, blank, header + EncAll(v[..index - 1]))
    {
      ItemStep(v, index - 1, header);
      WriteItem(output, items[index].value, blank, header + EncAll(v[..index - 1]));
    }
    assert v[..|v|] == v;
  }

  lemma ItemStep(v: seq<Str>, k: nat, header: seq<Byte>)
    requires Encodable(v) && k < |v|
    ensures |v[k]| < TWO_31 && |header + EncAll(v[..k])| + |EncData(v[k])| <= |header| + |EncAll(v)|
    ensures header + EncAll(v[..k + 1]) == header + EncAll(v[..k]) + EncData(v[k])
  {
    hide EncAll, Enc, EncData, EncVector, Encodable;
    StringFits(v, k);
    EncAllTake(v, k);
  }

  lemma FilledWhole(output: CodedOutputData, buffer: array<Byte>, blank: seq<Byte>, b: seq<Byte>)
    requires Filled(output, buffer, blank, b) && |b| == |blank|
    ensures buffer[..] == b
  {
    OverwrittenWhole(blank, b);
  }

  /** The output has filled the buffer from its start with b. */
  ghost predicate Filled(output: CodedOutputData, buffer: array<Byte>, blank: seq<Byte>, b: seq<Byte>)
    reads output, buffer
  {
    && output.Valid() && output.start == 0 && output.ptr == buffer && output.size == buffer.Length == |blank|
    && output.position == |b| <= |blank| && buffer[..] == Overwritten(blank, 0, b)
  }

  /** One string item is written; the buffer has room for it. */
  method WriteItem(output: CodedOutputData, s: Str, ghost blank: seq<Byte>, ghost b: seq<Byte>)
    requires Filled(output, output.ptr, blank, b) && |b| + |EncData(s)| <= |blank| && |s| < TWO_31
    modifies output, output.ptr
    ensures Filled(output, output.ptr, blank, b + EncData(s))
  {
    hide EncData, Overwritten;
    var ok := output.WriteData(s);
    OverwrittenTwice(blank, 0, b, EncData(s));
  }

  lemma OverwrittenWhole(s: seq<Byte>, b: seq<Byte>)
    requires |s| == |b|
    ensures Overwritten(s, 0, b) == b
  {
  }

  // ---- Decoding

  /** The strings read, or the exception thrown. */
  datatype Decoded = Strings(v: seq<Str>) | Exception(error: Error)

  function ReadStrings(s: seq<Byte>, i: nat): Decoded
    requires i <= |s|
    decreases |s| - i
  {
    if i == |s| then Strings([])
    else
      match ReadDelimited(s, i)
      case Failed(e) => Exception(e)
      case Data(start, next) => Prepend([s[start..next]], ReadStrings(s, next))
  }

  function Prepend(v: seq<Str>, d: Decoded): Decoded {
    match d
    case Strings(w) => Strings(v + w)
    case Exception(e) => Exception(e)
  }

  /** What decodeOneVector makes of any bytes. */
  function VectorOf(s: seq<Byte>): Decoded {
    match Read32(s, 0, 0)
    case Thrown(e) => Exception(e)
    case Value(_, next) => ReadStrings(s, next)
  }

  /** decodeOneVector. */
  method DecodeVector(bytes: seq<Byte>) returns (r: Decoded)
    ensures r == VectorOf(bytes)
  {
    hide ReadDelimited, Read32;
    var input := new CodedInputData(bytes);
    var size := input.ReadRawVarint32();
    if size.Thrown? {
      return Exception(size.error);
    }
    var strings := [];
    ghost var start := size.next;
    while input.position < |bytes|
      invariant fresh(input) && input.Valid() && input.data == bytes
      invariant ReadStrings(bytes, start) == Prepend(strings, ReadStrings(bytes, input.position))
      decreases |bytes| - input.position
    {
      ghost var i := input.position;
      var d := input.ReadData();
      if d.Failed? {
        return Exception(d.error);
      }
      PrependTwice(strings, bytes[d.start..d.next], ReadStrings(bytes, d.next));
      strings := strings + [bytes[d.start..d.next]];
    }
    r := Strings(strings);
  }

  lemma PrependTwice(v: seq<Str>, s: Str, d: Decoded)
    ensures Prepend(v, Prepend([s], d)) == Prepend(v + [s], d)
  {
    if d.Strings? { assert v + ([s] + d.v) == v + [s] + d.v; }
  }

  /** Decoding the encoding of a vector gives the vector. */
  lemma VectorRoundTrip(v: seq<Str>)
    requires Encodable(v)
    ensures VectorOf(EncVector(v)) == Strings(v)
  {
    var s, h := EncVector(v), |Enc(|EncAll(v)|)|;
    HeaderIsRead(s, v);
    assert v[..0] == [] && v[0..] == v;
    hide EncVector, Enc;
    StringsAreRead(s, v, 0);
  }

  lemma HeaderIsRead(bytes: seq<Byte>, v: seq<Str>)
    requires bytes == EncVector(v) && Encodable(v)
    ensures Read32(bytes, 0, 0) == Value(|EncAll(v)|, |Enc(|EncAll(v)|)|)
    ensures |bytes| == |Enc(|EncAll(v)|)| + |EncAll(v)|
  {
    assert HasAt(bytes, 0, Enc(|EncAll(v)|));
    RoundTripUInt32(bytes, 0, |EncAll(v)|);
  }

  /** From where string k begins, the strings from k on are read. */
  lemma EncVectorLength(v: seq<Str>)
    ensures |EncVector(v)| == |Enc(|EncAll(v)|)| + |EncAll(v)|
  {
    hide Enc, EncAll;
  }

  lemma {:induction false} StringsAreRead(bytes: seq<Byte>, v: seq<Str>, k: nat)
    requires bytes == EncVector(v) && Encodable(v) && k <= |v|
    ensures |Enc(|EncAll(v)|)| + |EncAll(v[..k])| <= |bytes|
    ensures ReadStrings(bytes, |Enc(|EncAll(v)|)| + |EncAll(v[..k])|) == Strings(v[k..])
    decreases |v| - k
  {
    hide EncVector, Enc, EncAll, EncData, ReadDelimited, Encodable, HasAt;
    EncVectorLength(v);
    if k == |v| {
      assert v[..k] == v;
    } else {
      var i := |Enc(|EncAll(v)|)| + |EncAll(v[..k])|;
      StringsAreRead(bytes, v, k + 1);
      StringFits(v, k);
      EncAllTake(v, k);
      StringAt(v, k);
      ReadBackData(bytes, i, v[k]);
      assert v[k..] == [v[k]] + v[k + 1..];
      assert |EncData(v[k])| > 0 by { DataNotEmpty(v[k]); }
    }
  }

  lemma DataNotEmpty(s: Str)
    ensures |EncData(s)| > 0
  {
  }

  lemma Middle(h: seq<Byte>, a: seq<Byte>, d: seq<Byte>, c: seq<Byte>)
    ensures HasAt(h + (a + d + c), |h| + |a|, d)
  {
  }

  lemma StringAt(v: seq<Str>, k: nat)
    requires k < |v|
    ensures HasAt(EncVector(v), |Enc(|EncAll(v)|)| + |EncAll(v[..k])|, EncData(v[k]))
  {
    var h, e := Enc(|EncAll(v)|), EncAll(v);
    assert EncVector(v) == h + e;
    hide EncAll, Enc, EncData, EncVector;
    Split(v, k);
    EncAllTake(v, k);
    Middle(h, EncAll(v[..k]), EncData(v[k]), EncAll(v[k + 1..]));
  }

  lemma {:induction false} Split(v: seq<Str>, k: nat)
    requires k < |v|
    ensures EncAll(v) == EncAll(v[..k]) + EncData(v[k]) + EncAll(v[k + 1..])
    decreases k
  {
    if k == 0 {
      assert v[..0] == [];
    } else {
      Split(v[1..], k - 1);
      assert v[1..][..k - 1] == v[1..k] && v[1..][k..] == v[k + 1..];
      assert v[..k][1..] == v[1..k] && v[..k][0] == v[0];
    }
  }
}
