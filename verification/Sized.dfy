/** What can be known of a store without its bytes: the stored map, the bytes used and the size of the file. */
module Sized {
  import opened Varints
  import opened Coded
  import opened LogFormat
  import opened Compaction

  const PAGE_SIZE: nat := 4096

  // ---- File sizes

  /** The file size to which truncate rounds. */
  function PageRounded(size: nat): (r: nat)
    ensures size <= r < size + PAGE_SIZE + 1 && r % PAGE_SIZE == 0 && r >= PAGE_SIZE
  {
    if size < PAGE_SIZE || size % PAGE_SIZE != 0 then (size / PAGE_SIZE + 1) * PAGE_SIZE else size
  }

  lemma OnePage()
    ensures PageRounded(PAGE_SIZE) == PAGE_SIZE
  {
  }

  /** The file size, doubled until it is larger than needed. */
  function DoubledUntil(size: nat, needed: nat): (r: nat)
    requires size > 0
    ensures r > needed && r >= size
    decreases needed - size
  {
    if needed >= size then DoubledUntil(size * 2, needed) else size
  }

  method Doubled(fileSize: nat, needed: nat) returns (size: nat)
    requires fileSize > 0
    ensures size == DoubledUntil(fileSize * 2, needed)
  {
    size := fileSize * 2;
    while needed >= size
      invariant size > 0 && DoubledUntil(size, needed) == DoubledUntil(fileSize * 2, needed)
      decreases needed - size
    {
      size := size * 2;
    }
  }

  function Max(a: nat, b: nat): nat { if a < b then b else a }

  function Times(a: nat, b: nat): nat { a * b }

  /** The bytes for items to come: the average size for half as many items again, and for at least 8. */
  function FutureUsage(lenNeeded: nat, dicCount: nat): nat {
    Times(lenNeeded / Max(1, dicCount), Max(8, (dicCount + 1) / 2))
  }

  /** The size of the file in which lenNeeded bytes are to fit: as it is, or doubled and rounded. */
  function ExtendedSize(fileSize: nat, lenNeeded: nat, dicCount: nat): (r: nat)
    requires fileSize > 0
    ensures lenNeeded < r
  {
    var needed := lenNeeded + FutureUsage(lenNeeded, dicCount);
    if needed >= fileSize then PageRounded(DoubledUntil(fileSize * 2, needed)) else fileSize
  }

  /** The extension succeeds: none is needed, or there is room on the disk. */
  predicate CanExtend(fileSize: nat, lenNeeded: nat, dicCount: nat, disk: nat)
    requires fileSize > 0
  {
    ExtendedSize(fileSize, lenNeeded, dicCount) == fileSize || ExtendedSize(fileSize, lenNeeded, dicCount) <= disk
  }

  // ---- The bytes of the live records

  /** The bytes of the records of ks. */
  ghost function ListSize(m: map<Bytes, Bytes>, ks: seq<Bytes>): nat
    requires forall k :: k in ks ==> k in m
  {
    if ks == [] then 0 else ListSize(m, ks[..|ks| - 1]) + |EncRecord(ks[|ks| - 1], m[ks[|ks| - 1]])|
  }

  /** The size of the log that a rewrite leaves: a header and one record for each key. */
  ghost function LiveSize(m: map<Bytes, Bytes>): nat {
    OrderLists(m.Keys);
    4 + ListSize(m, KeyOrder(m.Keys))
  }

  lemma {:induction false} ListSizes(s: Bytes, dic: Index, ks: seq<Bytes>)
    requires Sound(s, dic) && forall k :: k in ks ==> k in dic
    ensures PackedSize(dic, ks) == ListSize(Contents(s, dic), ks)
  {
    hide Sound;
    if ks != [] {
      var k := ks[|ks| - 1];
      ListSizes(s, dic, ks[..|ks| - 1]);
      SoundSize(s, dic, k);
    }
  }

  lemma SoundSize(s: Bytes, dic: Index, k: Bytes)
    requires Sound(s, dic) && k in dic
    ensures RecordSize(dic[k]) == |EncRecord(k, Contents(s, dic)[k])|
  {
    assert IsEntry(s, k, dic[k]);
    hide IsEntry;
    EntryIsRecord(s, k, dic[k]);
  }

  lemma ContentsKeys(s: Bytes, dic: Index)
    requires Sound(s, dic)
    ensures Contents(s, dic).Keys == dic.Keys
  {
    hide IsEntry, ValueOf;
  }

  /** The size worked out from the holders is that of the stored map's records. */
  lemma RewrittenIsLive(s: Bytes, dic: Index)
    requires Sound(s, dic)
    ensures RewrittenSize(dic) == LiveSize(Contents(s, dic)) && Contents(s, dic).Keys == dic.Keys
  {
    hide Sound, Contents, ListSize, PackedSize, KeyOrder;
    ContentsKeys(s, dic);
    OrderLists(dic.Keys);
    ListSizes(s, dic, KeyOrder(dic.Keys));
  }

  // ---- The store as a machine on maps and sizes

  datatype Sized = Sized(contents: map<Bytes, Bytes>, used: nat, length: nat)

  /** n bytes fit behind the log, with one to spare; an empty store is rewritten before it is appended to. */
  ghost predicate RoomLeft(s: Sized, n: nat) {
    4 + s.used + n < s.length && |s.contents| > 0
  }

  /** Room for n bytes can be made: there is some, or the file can be extended for a rewritten log and n bytes. */
  ghost predicate CanMakeRoom(s: Sized, n: nat, disk: nat)
    requires s.length > 0
  {
    RoomLeft(s, n) || CanExtend(s.length, LiveSize(s.contents) + 4 + n, |s.contents|, disk)
  }

  /** The store when room has been made: as it is, or rewritten in a file that is large enough. */
  ghost function MadeRoom(s: Sized, n: nat): Sized
    requires s.length > 0
  {
    if RoomLeft(s, n) then s
    else s.(used := LiveSize(s.contents), length := ExtendedSize(s.length, LiveSize(s.contents) + 4 + n, |s.contents|))
  }

  /** A record is appended behind the room made; an empty value deletes. */
  ghost function Put(s: Sized, key: Bytes, value: Bytes): Sized
    requires s.length > 0
  {
    var r, n := MadeRoom(s, |EncRecord(key, value)|), |EncRecord(key, value)|;
    Sized(Stored(s.contents, key, value), r.used + n, r.length)
  }

  ghost predicate CanPut(s: Sized, key: Bytes, value: Bytes, disk: nat)
    requires s.length > 0
  {
    CanMakeRoom(s, |EncRecord(key, value)|, disk)
  }

  lemma BehindRoom(s: Sized, r: Sized, key: Bytes, value: Bytes)
    requires s.length > 0 && r == MadeRoom(s, |EncRecord(key, value)|)
    ensures var p := Put(s, key, value);
            p.used == r.used + |EncRecord(key, value)| && p.length == r.length && r.contents == s.contents
  {
    hide EncRecord, LiveSize, ExtendedSize, Stored;
  }

  /** Room that has been made is there: a put after it is the put with it. */
  lemma PutAfterRoom(s: Sized, r: Sized, key: Bytes, value: Bytes, disk: nat)
    requires s.length > 0 && r == MadeRoom(s, |EncRecord(key, value)|) && RoomLeft(r, |EncRecord(key, value)|)
    ensures r.length > 0 && Put(r, key, value) == Put(s, key, value) && CanPut(r, key, value, disk)
    ensures r.contents == s.contents
  {
    hide EncRecord, LiveSize, CanExtend, ExtendedSize, Stored;
  }

  /** The store emptied, in a file of one page unless the disk is too small even for that. */
  ghost function Emptied(s: Sized, disk: nat): Sized {
    Sized(map[], 0, if PAGE_SIZE <= disk then PAGE_SIZE else s.length)
  }

  /** Several keys removed by a rewrite; without a key left the store is emptied. */
  ghost function Without(s: Sized, keys: seq<Bytes>, disk: nat): Sized {
    var rest := s.contents - (set k | k in keys);
    if rest == s.contents then s
    else if rest == map[] then Emptied(s, disk)
    else Sized(rest, LiveSize(rest), s.length)
  }
}
