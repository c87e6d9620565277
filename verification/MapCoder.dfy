/** MiniPBCoder on maps: decodeOneMap over plain bytes. */
module MapCoder {
  import opened Varints
  import opened Coded
  import opened LogFormat

  /** The index that decodeMap or greedyDecodeMap leaves in dic; greedily, what was read before an exception stays. */
  function Decoded(bytes: Bytes, position: nat, greedy: bool, dic: Index): Index {
    var start := if greedy then dic else map[];
    var r := if position == 0 then ReplayLog(bytes, start)
             else if position <= |bytes| then Replay(bytes, position, start)
             else Replayed(start, false);
    if greedy || r.ok then r.dic else dic
  }

  /** readString and, for a key that is not empty, readData, both filling a holder. */
  method ReadEntry(input: CodedInputData) returns (r: Read)
    requires input.Valid() && input.position < |input.data|
    modifies input
    ensures input.Valid() && r == ReadRecord(input.data, old(input.position))
    ensures r.Entry? || r.Skipped? ==> input.position == r.next
  {
    hide ReadDelimited;
    var offset := Low32(input.position);
    var k := input.ReadData();
    if k.Failed? {
      return Bad(k.error);
    }
    if k.start == k.next {
      return Skipped(k.next);
    }
    var key := input.data[k.start..k.next];
    var v := input.ReadData();
    if v.Failed? {
      return Bad(v.error);
    }
    r := Entry(key, Holder(Low16(v.start - offset), Low16(k.next - k.start), v.next - v.start, offset), v.next);
  }

  /** The loop of decodeOneMap. */
  method DecodeEntries(input: CodedInputData, dic: Index) returns (r: Replayed)
    requires input.Valid()
    modifies input
    ensures r == Replay(input.data, old(input.position), dic)
  {
    hide ReadRecord, Apply;
    ghost var start := input.position;
    var d := dic;
    while input.position < |input.data|
      invariant input.Valid() && Replay(input.data, start, dic) == Replay(input.data, input.position, d)
      decreases |input.data| - input.position
    {
      var e := ReadEntry(input);
      match e
      case Bad(_) => return Replayed(d, false);
      case Skipped(_) =>
      case Entry(key, h, _) => d := Apply(d, key, h);
    }
    r := Replayed(d, true);
  }

  method DecodeOneMap(bytes: Bytes, position: nat, greedy: bool, dic: Index) returns (dic': Index)
    ensures dic' == Decoded(bytes, position, greedy, dic)
  {
    hide Replay, Read32;
    var input := new CodedInputData(bytes);
    var start := if greedy then dic else map[];
    var ok := true;
    if position > 0 {
      ok := input.Seek(position);
    } else {
      var size := input.ReadRawVarint32();
      ok := size.Value?;
    }
    var r := Replayed(start, false);
    if ok {
      r := DecodeEntries(input, start);
    }
    dic' := if greedy || r.ok then r.dic else dic;
  }
}
