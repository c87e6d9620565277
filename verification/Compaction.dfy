/** memmoveDictionary: the live records of a log are moved together in place. */
module Compaction {
  import opened Varints
  import opened Coded
  import opened LogFormat

  // ---- What compaction makes of a log

  /** ks lists the keys of the index in the order of their offsets. */
  ghost predicate Lists(dic: Index, ks: seq<Bytes>) {
    && (forall k :: k in ks <==> k in dic)
    && InOrder(dic, ks)
  }

  ghost predicate InOrder(dic: Index, ks: seq<Bytes>) {
    && (forall k :: k in ks ==> k in dic)
    && (forall i, j :: 0 <= i < j < |ks| ==> dic[ks[i]].offset < dic[ks[j]].offset)
  }

  /** The bytes of the record at h. */
  function RecordAt(s: Bytes, h: Holder): Bytes
    requires End(h) <= |s|
  {
    s[h.offset..End(h)]
  }

  ghost predicate Within(s: Bytes, dic: Index, ks: seq<Bytes>) {
    forall k :: k in ks ==> k in dic && End(dic[k]) <= |s|
  }

  /** The records of ks, one behind the other. */
  ghost function Packed(s: Bytes, dic: Index, ks: seq<Bytes>): Bytes
    requires Within(s, dic, ks)
  {
    if ks == [] then [] else Packed(s, dic, ks[..|ks| - 1]) + RecordAt(s, dic[ks[|ks| - 1]])
  }

  /**
   The log s with index dic has become log with index dic': its live records in order of offset, packed behind
   the header.
   */
  ghost predicate Compacted(s: Bytes, dic: Index, log: Bytes, dic': Index, ks: seq<Bytes>) {
    Lists(dic, ks) && Within(s, dic, ks) && log == HEADER + Packed(s, dic, ks) && dic' == Repacked(dic, ks)
  }

  ghost function PackedSize(dic: Index, ks: seq<Bytes>): nat
    requires forall k :: k in ks ==> k in dic
  {
    if ks == [] then 0 else PackedSize(dic, ks[..|ks| - 1]) + RecordSize(dic[ks[|ks| - 1]])
  }

  /** The holders of ks, with offsets one behind the other from the header on. */
  ghost function Repacked(dic: Index, ks: seq<Bytes>): Index
    requires forall k :: k in ks ==> k in dic
  {
    if ks == [] then map[]
    else
      var k := ks[|ks| - 1];
      Repacked(dic, ks[..|ks| - 1])[k := dic[k].(offset := 4 + PackedSize(dic, ks[..|ks| - 1]))]
  }

  lemma {:induction false} PackedLength(s: Bytes, dic: Index, ks: seq<Bytes>)
    requires Within(s, dic, ks)
    ensures |Packed(s, dic, ks)| == PackedSize(dic, ks)
  {
    if ks != [] {
      PackedLength(s, dic, ks[..|ks| - 1]);
    }
  }

  lemma {:induction false} RepackedKeys(dic: Index, ks: seq<Bytes>, k: Bytes)
    requires forall k :: k in ks ==> k in dic
    ensures k in Repacked(dic, ks) <==> k in ks
  {
    if ks != [] {
      RepackedKeys(dic, ks[..|ks| - 1], k);
      assert ks == ks[..|ks| - 1] + [ks[|ks| - 1]];
    }
  }

  lemma FrontInOrder(dic: Index, ks: seq<Bytes>)
    requires InOrder(dic, ks) && ks != []
    ensures InOrder(dic, ks[..|ks| - 1]) && ks[|ks| - 1] !in ks[..|ks| - 1]
    ensures ks == ks[..|ks| - 1] + [ks[|ks| - 1]]
  {
    var n := |ks| - 1;
    assert ks == ks[..n] + [ks[n]];
    forall i | 0 <= i < n ensures ks[..n][i] != ks[n] {
      assert dic[ks[i]].offset < dic[ks[n]].offset;
    }
  }

  /** The records before each record leave room for all that precede it in the packed log. */
  lemma {:induction false} PackedBefore(s: Bytes, dic: Index, ks: seq<Bytes>)
    requires Sound(s, dic) && InOrder(dic, ks) && ks != []
    ensures 4 + PackedSize(dic, ks[..|ks| - 1]) <= dic[ks[|ks| - 1]].offset
    ensures 4 + PackedSize(dic, ks) <= End(dic[ks[|ks| - 1]]) <= |s|
  {
    var n := |ks| - 1;
    assert IsEntry(s, ks[n], dic[ks[n]]);
    hide IsEntry;
    if n > 0 {
      FrontInOrder(dic, ks);
      PackedBefore(s, dic, ks[..n]);
      assert ks[..n][n - 1] == ks[n - 1];
      assert dic[ks[n - 1]].offset < dic[ks[n]].offset;
    }
  }

  /** The keys ks have the same values in both logs. */
  ghost predicate SameValues(s: Bytes, dic: Index, u: Bytes, dic': Index, ks: seq<Bytes>)
    requires Sound(s, dic) && Sound(u, dic')
  {
    forall k :: k in ks ==> k in dic && k in dic' && Contents(u, dic')[k] == Contents(s, dic)[k]
  }

  /** The packed log, its index and its map. */
  lemma {:induction false} PackedAgrees(s: Bytes, dic: Index, ks: seq<Bytes>)
    requires Sound(s, dic) && InOrder(dic, ks) && 4 <= |s| < TWO_32 && Within(s, dic, ks)
    ensures Agrees(HEADER + Packed(s, dic, ks), Repacked(dic, ks))
    ensures Sound(HEADER + Packed(s, dic, ks), Repacked(dic, ks))
    ensures SameValues(s, dic, HEADER + Packed(s, dic, ks), Repacked(dic, ks), ks)
  {
    if ks == [] {
      EmptyLog();
      assert HEADER + [] == HEADER;
    } else {
      var n := |ks| - 1;
      var front, k := ks[..n], ks[n];
      FrontInOrder(dic, ks);
      PackedAgrees(s, dic, front);
      PackedBefore(s, dic, ks);
      PackedLength(s, dic, front);
      PackedStep(s, dic, front, k);
    }
  }

  /** The record of a key of a sound index. */
  lemma SoundRecord(s: Bytes, dic: Index, k: Bytes)
    requires Sound(s, dic) && k in dic
    ensures End(dic[k]) <= |s| && RecordAt(s, dic[k]) == EncRecord(k, ValueOf(s, dic[k]))
    ensures |EncRecord(k, ValueOf(s, dic[k]))| == RecordSize(dic[k])
    ensures ValueOf(s, dic[k]) != [] && k != [] && Fits(|k|, |ValueOf(s, dic[k])|)
    ensures dic[k] == HolderOf(|k|, |ValueOf(s, dic[k])|, dic[k].offset)
  {
    assert IsEntry(s, k, dic[k]);
    EntryIsRecord(s, k, dic[k]);
    hide Sound, Fits, EncRecord;
  }

  /** One more record: its bytes, and its place in the packed log. */
  lemma PackedSnoc(s: Bytes, dic: Index, front: seq<Bytes>, k: Bytes)
    requires k in dic && Within(s, dic, front) && Within(s, dic, front + [k])
    ensures Packed(s, dic, front + [k]) == Packed(s, dic, front) + RecordAt(s, dic[k])
    ensures Repacked(dic, front + [k]) == Repacked(dic, front)[k := dic[k].(offset := 4 + PackedSize(dic, front))]
  {
    var ks := front + [k];
    assert ks[..|ks| - 1] == front && ks[|ks| - 1] == k;
  }

  lemma PackedStep(s: Bytes, dic: Index, front: seq<Bytes>, k: Bytes)
    requires Sound(s, dic) && k in dic && 4 <= |s| < TWO_32 && Within(s, dic, front) && Within(s, dic, front + [k])
    requires |Packed(s, dic, front)| == PackedSize(dic, front)
    requires 4 + PackedSize(dic, front) + RecordSize(dic[k]) <= |s|
    requires Agrees(HEADER + Packed(s, dic, front), Repacked(dic, front))
    requires Sound(HEADER + Packed(s, dic, front), Repacked(dic, front))
    requires SameValues(s, dic, HEADER + Packed(s, dic, front), Repacked(dic, front), front)
    ensures var ks := front + [k]; var u := HEADER + Packed(s, dic, ks);
            Agrees(u, Repacked(dic, ks)) && Sound(u, Repacked(dic, ks)) && SameValues(s, dic, u, Repacked(dic, ks), ks)
  {
    hide Sound, Agrees, Repacked, Packed, EncRecord, Fits, PackedSize, RecordAt, SameValues;
    SoundRecord(s, dic, k);
    PackedSnoc(s, dic, front, k);
    var t, v, before := HEADER + Packed(s, dic, front), ValueOf(s, dic[k]), Repacked(dic, front);
    assert HEADER + Packed(s, dic, front + [k]) == t + EncRecord(k, v);
    assert Repacked(dic, front + [k]) == Indexed(t, before, k, v);
    hide HolderOf, ValueOf, RecordSize, Indexed;
    AppendAgrees(t, before, k, v);
    AppendSound(t, before, k, v);
    SameValuesStep(s, dic, t, before, t + EncRecord(k, v), Indexed(t, before, k, v), front, k);
  }

  lemma SameValuesStep(s: Bytes, dic: Index, t: Bytes, before: Index, u: Bytes, after: Index, front: seq<Bytes>,
                       k: Bytes)
    requires Sound(s, dic) && Sound(t, before) && Sound(u, after) && k in dic && SameValues(s, dic, t, before, front)
    requires ValueOf(s, dic[k]) != []
    requires Contents(u, after) == Stored(Contents(t, before), k, ValueOf(s, dic[k]))
    ensures SameValues(s, dic, u, after, front + [k])
  {
    hide Sound, ValueOf, IsEntry;
    forall j | j in front + [k] ensures j in dic && j in after && Contents(u, after)[j] == Contents(s, dic)[j] {
      assert j in Contents(u, after);
    }
  }

  /** Compaction preserves the meaning of a log. */
  lemma CompactionPreserves(s: Bytes, dic: Index, ks: seq<Bytes>)
    requires Sound(s, dic) && Lists(dic, ks) && 4 <= |s| < TWO_32
    ensures Within(s, dic, ks)
    ensures var u := HEADER + Packed(s, dic, ks);
            && Agrees(u, Repacked(dic, ks)) && Sound(u, Repacked(dic, ks))
            && Contents(u, Repacked(dic, ks)) == Contents(s, dic)
            && |u| == 4 + PackedSize(dic, ks) <= |s|
  {
    hide Sound, Agrees, Repacked, Packed, IsEntry, PackedSize, Contents, ValueOf;
    ListsWithin(s, dic, ks);
    PackedAgrees(s, dic, ks);
    PackedLength(s, dic, ks);
    if ks != [] { PackedBefore(s, dic, ks); } else { assert PackedSize(dic, []) == 0 by { NothingPacked(dic); } }
    forall k ensures k in Repacked(dic, ks) <==> k in ks { RepackedKeys(dic, ks, k); }
    var u := HEADER + Packed(s, dic, ks);
    SameContents(s, dic, u, Repacked(dic, ks), ks);
  }

  lemma NothingPacked(dic: Index)
    ensures PackedSize(dic, []) == 0
  {
  }

  lemma SameContents(s: Bytes, dic: Index, u: Bytes, dic': Index, ks: seq<Bytes>)
    requires Sound(s, dic) && Sound(u, dic') && SameValues(s, dic, u, dic', ks)
    requires forall k :: k in dic <==> k in ks
    requires forall k :: k in dic' <==> k in ks
    ensures Contents(u, dic') == Contents(s, dic)
  {
    hide Sound, ValueOf;
    var c, c' := Contents(s, dic), Contents(u, dic');
    forall k ensures k in c <==> k in c' { }
    forall k | k in c ensures c[k] == c'[k] { assert k in ks; }
  }

  // ---- The steps of memmoveDictionary

  /** std::sort on the holders, by offset. */
  method SortByOffset(dic: Index, vec: seq<Bytes>) returns (ks: seq<Bytes>)
    requires Sound0(dic) && (forall k :: k in vec <==> k in dic) && Distinct(vec)
    ensures Lists(dic, ks) && |ks| == |vec|
  {
    ks := [];
    for n := 0 to |vec|
      invariant InOrder(dic, ks) && |ks| == n && forall k :: k in ks <==> k in vec[..n]
    {
      assert vec[..n + 1] == vec[..n] + [vec[n]];
      assert vec[n] in vec && vec[n] !in ks;
      ks := InsertInOrder(dic, ks, vec[n]);
    }
    assert vec[..|vec|] == vec;
  }

  /** Different keys have different offsets. */
  ghost predicate Sound0(dic: Index) {
    forall j, k :: j in dic && k in dic && j != k ==> dic[j].offset != dic[k].offset
  }

  ghost predicate Distinct(vec: seq<Bytes>) {
    forall i, j :: 0 <= i < j < |vec| ==> vec[i] != vec[j]
  }

  method InsertInOrder(dic: Index, ks: seq<Bytes>, k: Bytes) returns (r: seq<Bytes>)
    requires Sound0(dic) && InOrder(dic, ks) && k in dic && k !in ks
    ensures InOrder(dic, r) && |r| == |ks| + 1 && forall j :: j in r <==> j == k || j in ks
  {
    var i := |ks|;
    while i > 0 && dic[ks[i - 1]].offset > dic[k].offset
      invariant 0 <= i <= |ks| && forall j :: i <= j < |ks| ==> dic[ks[j]].offset > dic[k].offset
    {
      i := i - 1;
    }
    assert i > 0 ==> ks[i - 1] != k && ks[i - 1] in dic;
    r := ks[..i] + [k] + ks[i..];
    InsertedInOrder(dic, ks, k, i, r);
  }

  lemma InsertedInOrder(dic: Index, ks: seq<Bytes>, k: Bytes, i: nat, r: seq<Bytes>)
    requires InOrder(dic, ks) && k in dic && i <= |ks| && r == ks[..i] + [k] + ks[i..]
    requires forall j :: i <= j < |ks| ==> dic[ks[j]].offset > dic[k].offset
    requires i > 0 ==> dic[ks[i - 1]].offset < dic[k].offset
    ensures InOrder(dic, r) && forall j :: j in r <==> j == k || j in ks
  {
    assert ks == ks[..i] + ks[i..];
    forall a, b | 0 <= a < b < |r| ensures r[a] in dic && r[b] in dic && dic[r[a]].offset < dic[r[b]].offset {
      InsertedOrder(dic, ks, k, i, r, a, b);
    }
  }

  lemma InsertedOrder(dic: Index, ks: seq<Bytes>, k: Bytes, i: nat, r: seq<Bytes>, a: nat, b: nat)
    requires InOrder(dic, ks) && k in dic && i <= |ks| && r == ks[..i] + [k] + ks[i..] && a < b < |r|
    requires forall j :: i <= j < |ks| ==> dic[ks[j]].offset > dic[k].offset
    requires i > 0 ==> dic[ks[i - 1]].offset < dic[k].offset
    ensures r[a] in dic && r[b] in dic && dic[r[a]].offset < dic[r[b]].offset
  {
    assert r[a] == if a < i then ks[a] else if a == i then k else ks[a - 1];
    assert r[b] == if b < i then ks[b] else if b == i then k else ks[b - 1];
  }

  /** An offset and a size. */
  datatype Section = Section(offset: nat, size: nat)

  /** The bytes of sections, one behind the other. */
  ghost function PackedSections(s: Bytes, secs: seq<Section>): Bytes
    requires forall c :: c in secs ==> c.offset + c.size <= |s|
  {
    if secs == [] then []
    else
      var c := secs[|secs| - 1];
      PackedSections(s, secs[..|secs| - 1]) + s[c.offset..c.offset + c.size]
  }

  /** Sections hold the records of ks: in order, apart from each other, behind the header. */
  ghost predicate Sectioned(s: Bytes, dic: Index, ks: seq<Bytes>, secs: seq<Section>) {
    && Within(s, dic, ks) && (secs == [] <==> ks == [])
    && (forall c :: c in secs ==> 4 <= c.offset && c.offset + c.size <= |s|)
    && SectionsApart(secs)
    && (secs != [] ==> secs[|secs| - 1].offset + secs[|secs| - 1].size == End(dic[ks[|ks| - 1]]))
    && PackedSections(s, secs) == Packed(s, dic, ks)
  }

  ghost predicate SectionsApart(secs: seq<Section>) {
    forall i, j :: 0 <= i < j < |secs| ==> secs[i].offset + secs[i].size <= secs[j].offset
  }

  lemma ApartSnoc(secs: seq<Section>, c: Section)
    requires SectionsApart(secs)
    requires secs != [] ==> secs[|secs| - 1].offset + secs[|secs| - 1].size <= c.offset
    ensures SectionsApart(secs + [c])
  {
    var r := secs + [c];
    forall i, j | 0 <= i < j < |r| ensures r[i].offset + r[i].size <= r[j].offset {
      assert r[i] == secs[i];
      if j == |secs| && i < |secs| - 1 { assert secs[i].offset + secs[i].size <= secs[|secs| - 1].offset; }
    }
  }

  lemma ApartResized(before: seq<Section>, c: Section, d: Section)
    requires SectionsApart(before + [c]) && d.offset == c.offset
    ensures SectionsApart(before + [d])
  {
    var r, q := before + [d], before + [c];
    forall i, j | 0 <= i < j < |r| ensures r[i].offset + r[i].size <= r[j].offset {
      assert r[i] == q[i] && r[j].offset == q[j].offset;
    }
  }

  lemma PackedSectionsSnoc(s: Bytes, secs: seq<Section>, c: Section)
    requires forall c :: c in secs ==> c.offset + c.size <= |s|
    requires c.offset + c.size <= |s|
    ensures forall d :: d in secs + [c] ==> d.offset + d.size <= |s|
    ensures PackedSections(s, secs + [c]) == PackedSections(s, secs) + s[c.offset..c.offset + c.size]
  {
    assert (secs + [c])[..|secs|] == secs;
  }

  /** A record that is not next to the last section starts a new one. */
  lemma NewSection(s: Bytes, dic: Index, front: seq<Bytes>, k: Bytes, secs: seq<Section>)
    requires Sectioned(s, dic, front, secs) && k in dic && End(dic[k]) <= |s| && dic[k].offset >= 4
    requires front != [] ==> End(dic[front[|front| - 1]]) <= dic[k].offset
    ensures Sectioned(s, dic, front + [k], secs + [Section(dic[k].offset, RecordSize(dic[k]))])
  {
    hide Packed, PackedSections, RecordAt, SectionsApart;
    var c := Section(dic[k].offset, RecordSize(dic[k]));
    PackedSnoc(s, dic, front, k);
    PackedSectionsSnoc(s, secs, c);
    ApartSnoc(secs, c);
    assert RecordAt(s, dic[k]) == s[c.offset..c.offset + c.size] by { RecordBytes(s, dic[k]); }
  }

  lemma RecordBytes(s: Bytes, h: Holder)
    requires End(h) <= |s|
    ensures RecordAt(s, h) == s[h.offset..h.offset + RecordSize(h)]
  {
  }

  /** A record next to the last section extends it. */
  lemma GrowSection(s: Bytes, dic: Index, front: seq<Bytes>, k: Bytes, before: seq<Section>, c: Section)
    requires Sectioned(s, dic, front, before + [c]) && k in dic && End(dic[k]) <= |s| && dic[k].offset >= 4
    requires dic[k].offset == c.offset + c.size
    ensures Sectioned(s, dic, front + [k], before + [Section(c.offset, c.size + RecordSize(dic[k]))])
  {
    hide Packed, PackedSections, RecordAt, SectionsApart;
    var d := Section(c.offset, c.size + RecordSize(dic[k]));
    assert c in before + [c] && forall e :: e in before ==> e in before + [c];
    PackedSnoc(s, dic, front, k);
    PackedSectionsSnoc(s, before, c);
    PackedSectionsSnoc(s, before, d);
    ApartResized(before, c, d);
    RecordBytes(s, dic[k]);
    assert s[d.offset..d.offset + d.size] == s[c.offset..c.offset + c.size] + s[d.offset + c.size..d.offset + d.size];
  }

  /** Merging nearby records into sections. */
  method MergeSections(dic: Index, ks: seq<Bytes>, ghost s: Bytes) returns (secs: seq<Section>)
    requires Sound(s, dic) && InOrder(dic, ks) && Within(s, dic, ks)
    ensures Sectioned(s, dic, ks, secs)
  {
    hide Sound, Sectioned, PackedSections, Packed;
    secs := [];
    assert Sectioned(s, dic, ks[..0], secs) by { NoSections(s, dic, ks[..0]); }
    for n := 0 to |ks|
      invariant Sectioned(s, dic, ks[..n], secs)
    {
      var k := ks[n];
      var h := dic[k];
      assert ks[..n + 1] == ks[..n] + [k];
      SectionRoom(s, dic, ks, n, secs);
      if n > 0 && h.offset == secs[|secs| - 1].offset + secs[|secs| - 1].size {
        var before, c := secs[..|secs| - 1], secs[|secs| - 1];
        assert secs == before + [c];
        GrowSection(s, dic, ks[..n], k, before, c);
        secs := before + [Section(c.offset, c.size + RecordSize(h))];
      } else {
        NewSection(s, dic, ks[..n], k, secs);
        secs := secs + [Section(h.offset, RecordSize(h))];
      }
    }
    assert ks[..|ks|] == ks;
  }

  lemma NoSections(s: Bytes, dic: Index, ks: seq<Bytes>)
    requires ks == []
    ensures Sectioned(s, dic, ks, [])
  {
  }

  lemma SectionRoom(s: Bytes, dic: Index, ks: seq<Bytes>, n: nat, secs: seq<Section>)
    requires Sound(s, dic) && InOrder(dic, ks) && Within(s, dic, ks) && n < |ks| && Sectioned(s, dic, ks[..n], secs)
    ensures dic[ks[n]].offset >= 4 && (n > 0 <==> secs != [])
    ensures n > 0 ==> End(dic[ks[n - 1]]) <= dic[ks[n]].offset && ks[..n][n - 1] == ks[n - 1]
  {
    if n > 0 {
      assert dic[ks[n - 1]].offset < dic[ks[n]].offset && ks[n - 1] in dic;
    }
  }

  /** memmove to a lower address. */
  method Memmove(a: array<Byte>, dst: nat, src: nat, n: nat)
    requires dst <= src && src + n <= a.Length
    modifies a
    ensures a[..] == Overwritten(old(a[..]), dst, old(a[src..src + n]))
  {
    ghost var m := a[..];
    hide Overwritten;
    OverwrittenByNothing(m, dst);
    assert m[src..src + 0] == [];
    for i := 0 to n
      invariant a[..] == Overwritten(m, dst, m[src..src + i])
    {
      BytesBeyond(m, a[..], dst, m[src..src + i], src + i, 1);
      assert a[..][src + i] == a[..][src + i..src + i + 1][0] == m[src + i];
      a[dst + i] := a[src + i];
      OneByte(m, a[..], dst, src, i);
    }
  }

  lemma OneByte(m: Bytes, a: Bytes, dst: nat, src: nat, i: nat)
    requires dst <= src && src + i < |m| && |a| == |m|
    requires a == Overwritten(m, dst, m[src..src + i])[dst + i := m[src + i]]
    ensures a == Overwritten(m, dst, m[src..src + (i + 1)])
  {
    assert m[src..src + (i + 1)] == m[src..src + i] + [m[src + i]];
  }

  /** What has been moved ends before the next section begins. */
  lemma {:induction false} SectionsRoom(s: Bytes, secs: seq<Section>, n: nat)
    requires SectionsApart(secs) && n <= |secs|
    requires forall c :: c in secs ==> 4 <= c.offset && c.offset + c.size <= |s|
    ensures forall c :: c in secs[..n] ==> 4 <= c.offset && c.offset + c.size <= |s|
    ensures n < |secs| ==> 4 + |PackedSections(s, secs[..n])| <= secs[n].offset
    ensures n > 0 ==> 4 + |PackedSections(s, secs[..n])| <= secs[n - 1].offset + secs[n - 1].size
    ensures |s| >= 4 ==> 4 + |PackedSections(s, secs[..n])| <= |s|
    decreases n
  {
    assert forall c :: c in secs[..n] ==> c in secs;
    if n > 0 {
      SectionsRoom(s, secs, n - 1);
      assert secs[..n] == secs[..n - 1] + [secs[n - 1]];
      PackedSectionsSnoc(s, secs[..n - 1], secs[n - 1]);
      assert secs[n - 1] in secs;
    }
  }

  lemma MoveStep(m: Bytes, m': Bytes, s: Bytes, secs: seq<Section>, n: nat)
    requires SectionsApart(secs) && n < |secs| && |m| >= 8 && 4 + |s| <= |m| && s == m[4..4 + |s|]
    requires forall c :: c in secs ==> 4 <= c.offset && c.offset + c.size <= |s|
    requires forall c :: c in secs[..n] ==> 4 <= c.offset && c.offset + c.size <= |s|
    requires 8 + |PackedSections(s, secs[..n])| <= |m| && m' == Overwritten(m, 8, PackedSections(s, secs[..n]))
    ensures var c := secs[n]; var dst := 8 + |PackedSections(s, secs[..n])|;
            && dst <= 4 + c.offset && 4 + c.offset + c.size <= |m'|
            && (forall d :: d in secs[..n + 1] ==> 4 <= d.offset && d.offset + d.size <= |s|)
            && 8 + |PackedSections(s, secs[..n + 1])| <= |m|
            && |PackedSections(s, secs[..n + 1])| == |PackedSections(s, secs[..n])| + c.size
            && Overwritten(m', dst, m'[4 + c.offset..4 + c.offset + c.size])
            == Overwritten(m, 8, PackedSections(s, secs[..n + 1]))
  {
    hide PackedSections, SectionsApart, Overwritten;
    var c, p := secs[n], PackedSections(s, secs[..n]);
    assert c in secs;
    SectionsRoom(s, secs, n);
    assert secs[..n + 1] == secs[..n] + [c];
    PackedSectionsSnoc(s, secs[..n], c);
    var moved := s[c.offset..c.offset + c.size];
    BytesBeyond(m, m', 8, p, 4 + c.offset, c.size);
    LogSlice(m, s, c.offset, c.size);
    OverwrittenTwice(m, 8, p, moved);
  }

  /** The log lies behind the 4 bytes of the file's size word. */
  lemma LogSlice(m: Bytes, s: Bytes, i: nat, n: nat)
    requires 4 + |s| <= |m| && s == m[4..4 + |s|] && i + n <= |s|
    ensures m[4 + i..4 + i + n] == s[i..i + n]
  {
    var a, b := m[4 + i..4 + i + n], s[i..i + n];
    forall x | 0 <= x < |b| ensures a[x] == b[x] { assert m[4 + (i + x)] == s[i + x]; }
  }

  lemma BytesBeyond(m: Bytes, m': Bytes, at: nat, p: Bytes, i: nat, n: nat)
    requires at + |p| <= i && i + n <= |m| && m' == Overwritten(m, at, p)
    ensures m'[i..i + n] == m[i..i + n]
  {
  }

  /** The sections are moved down behind the header, one after the other. */
  method MoveSections(file: array<Byte>, secs: seq<Section>, ghost s: Bytes) returns (writePtr: nat)
    requires SectionsApart(secs) && file.Length >= 8 && 4 + |s| <= file.Length && s == file[4..4 + |s|]
    requires forall c :: c in secs ==> 4 <= c.offset && c.offset + c.size <= |s|
    modifies file
    ensures writePtr == 8 + |PackedSections(s, secs)| <= file.Length
    ensures file[..] == Overwritten(old(file[..]), 8, PackedSections(s, secs))
  {
    hide SectionsApart, PackedSections, Overwritten;
    ghost var m := file[..];
    assert m[4..4 + |s|] == s;
    writePtr := 8;
    assert secs[..0] == [] && PackedSections(s, []) == [] by { NothingMoved(s); }
    OverwrittenByNothing(m, 8);
    for n := 0 to |secs|
      invariant forall c :: c in secs[..n] ==> 4 <= c.offset && c.offset + c.size <= |s|
      invariant writePtr == 8 + |PackedSections(s, secs[..n])| <= file.Length
      invariant file[..] == Overwritten(m, 8, PackedSections(s, secs[..n]))
    {
      var c := secs[n];
      ghost var m' := file[..];
      MoveStep(m, m', s, secs, n);
      assert file[4 + c.offset..4 + c.offset + c.size] == m'[4 + c.offset..4 + c.offset + c.size];
      Memmove(file, writePtr, 4 + c.offset, c.size);
      writePtr := writePtr + c.size;
    }
    assert secs[..|secs|] == secs;
  }

  lemma NothingMoved(s: Bytes)
    ensures PackedSections(s, []) == []
  {
  }

  /** The holders get the offsets of their records in the packed log. */
  method UpdateOffsets(dic: Index, ks: seq<Bytes>) returns (dic': Index)
    requires Lists(dic, ks)
    ensures dic' == Repacked(dic, ks)
  {
    hide PackedSize, Repacked, InOrder;
    dic' := dic;
    var offset := 4;
    assert ks[..0] == [];
    NothingPacked(dic);
    NothingRepacked(dic);
    for n := 0 to |ks|
      invariant (forall k :: k in ks[..n] ==> k in dic) && offset == 4 + PackedSize(dic, ks[..n])
      invariant dic' == dic + Repacked(dic, ks[..n])
    {
      var k := ks[n];
      assert k in ks && ks[..n + 1] == ks[..n] + [k] && ks[..n + 1][..n] == ks[..n];
      RepackedKeys(dic, ks[..n], k);
      RepackedSnoc(dic, ks[..n], k);
      OnceInOrder(dic, ks, n);
      assert dic'[k] == dic[k];
      dic' := dic'[k := dic'[k].(offset := offset)];
      offset := offset + RecordSize(dic[k]);
    }
    assert ks[..|ks|] == ks;
    forall k ensures k in Repacked(dic, ks) <==> k in ks { RepackedKeys(dic, ks, k); }
    assert dic + Repacked(dic, ks) == Repacked(dic, ks);
  }

  lemma NothingRepacked(dic: Index)
    ensures Repacked(dic, []) == map[]
  {
  }

  lemma RepackedSnoc(dic: Index, front: seq<Bytes>, k: Bytes)
    requires k in dic && forall j :: j in front ==> j in dic
    ensures forall j :: j in front + [k] ==> j in dic
    ensures PackedSize(dic, front + [k]) == PackedSize(dic, front) + RecordSize(dic[k])
    ensures Repacked(dic, front + [k]) == Repacked(dic, front)[k := dic[k].(offset := 4 + PackedSize(dic, front))]
  {
    assert (front + [k])[..|front|] == front;
  }

  lemma OnceInOrder(dic: Index, ks: seq<Bytes>, n: nat)
    requires InOrder(dic, ks) && n < |ks|
    ensures ks[n] !in ks[..n]
  {
    forall i | 0 <= i < n ensures ks[i] != ks[n] {
      assert dic[ks[i]].offset < dic[ks[n]].offset;
    }
  }

  /**
   memmoveDictionary: vec holds the keys in any order. The log behind the size word becomes the
   header and the packed records, and the output stands behind them.
   */
  method MemmoveDictionary(dic: Index, vec: seq<Bytes>, output: CodedOutputData, ghost s: Bytes)
    returns (dic': Index, ghost ks: seq<Bytes>)
    requires Distinct(vec) && forall k :: k in vec <==> k in dic
    requires output.Valid() && output.position == 0 && output.start == 4 && 4 + output.size == output.ptr.Length
    requires 4 <= |s| < TWO_32 && 4 + |s| <= output.ptr.Length && s == output.ptr[4..4 + |s|] && Sound(s, dic)
    modifies output, output.ptr
    ensures Lists(dic, ks) && dic' == Repacked(dic, ks) && Within(s, dic, ks)
    ensures 4 + |HEADER + Packed(s, dic, ks)| <= output.ptr.Length
    ensures output.ptr[..] == Overwritten(old(output.ptr[..]), 4, HEADER + Packed(s, dic, ks))
    ensures output.Valid() && output.position == |HEADER + Packed(s, dic, ks)| == 4 + PackedSize(dic, ks)
  {
    hide Sound, Sectioned, Lists, Packed, PackedSections, Repacked, PackedSize, Overwritten, IsEntry;
    SoundOffsets(s, dic);
    var sorted := SortByOffset(dic, vec);
    ks := sorted;
    ListsWithin(s, dic, ks);
    var secs := MergeSections(dic, sorted, s);
    SectionedParts(s, dic, ks, secs);
    ghost var m := output.ptr[..];
    var writePtr := MoveSections(output.ptr, secs, s);
    dic' := UpdateOffsets(dic, sorted);
    ghost var m1 := output.ptr[..];
    HeaderIsHolder();
    var ok := output.WriteRawVarint(ITEM_SIZE_HOLDER);
    ok := output.Seek(writePtr - 8);
    HeaderInFront(m, m1, Packed(s, dic, ks));
    PackedLength(s, dic, ks);
  }

  lemma ListsDistinct(dic: Index, ks: seq<Bytes>)
    requires Lists(dic, ks)
    ensures Distinct(ks) && forall k :: k in ks <==> k in dic
  {
    forall i, j | 0 <= i < j < |ks| ensures ks[i] != ks[j] {
      assert dic[ks[i]].offset < dic[ks[j]].offset;
    }
  }

  /** The order of the keys does not matter to the size of the rewritten log. */
  lemma {:induction false} SameTotal(dic: Index, vec: seq<Bytes>, ks: seq<Bytes>)
    requires Distinct(vec) && Distinct(ks) && (forall k :: k in vec <==> k in ks) && forall k :: k in ks ==> k in dic
    ensures PackedSize(dic, vec) == PackedSize(dic, ks)
    decreases |ks|
  {
    if ks != [] {
      var n := |ks| - 1;
      var front, k := ks[..n], ks[n];
      assert ks == front + [k] && k in vec;
      var i := Place(vec, k);
      var rest := vec[..i] + vec[i + 1..];
      RestOf(vec, i, rest);
      assert k !in front;
      assert forall j :: j in rest <==> j in front;
      SameTotal(dic, rest, front);
      SizeWithout(dic, vec, i);
    }
  }

  lemma Place(vec: seq<Bytes>, k: Bytes) returns (i: nat)
    requires k in vec
    ensures i < |vec| && vec[i] == k
  {
    i :| 0 <= i < |vec| && vec[i] == k;
  }

  lemma RestOf(vec: seq<Bytes>, i: nat, rest: seq<Bytes>)
    requires Distinct(vec) && i < |vec| && rest == vec[..i] + vec[i + 1..]
    ensures Distinct(rest) && forall j :: j in rest <==> j in vec && j != vec[i]
  {
    forall x | 0 <= x < |vec| && x != i ensures vec[x] in rest {
      assert vec[x] == rest[if x < i then x else x - 1];
    }
    forall y | 0 <= y < |rest| ensures rest[y] == vec[if y < i then y else y + 1] { }
    forall x | 0 <= x < |rest| ensures rest[x] in vec && rest[x] != vec[i] {
      assert rest[x] == vec[if x < i then x else x + 1];
    }
    forall x, y | 0 <= x < y < |rest| ensures rest[x] != rest[y] {
      assert rest[x] == vec[if x < i then x else x + 1] && rest[y] == vec[if y < i then y else y + 1];
    }
  }

  lemma WithoutFront(vec: seq<Bytes>, i: nat)
    requires i < |vec| - 1
    ensures var n, rest := |vec| - 1, vec[..i] + vec[i + 1..];
            && |rest| == n && rest[..n - 1] == vec[..n][..i] + vec[..n][i + 1..] && rest[n - 1] == vec[n]
            && vec[..n][i] == vec[i]
  {
  }

  lemma {:induction false} SizeWithout(dic: Index, vec: seq<Bytes>, i: nat)
    requires i < |vec| && forall k :: k in vec ==> k in dic
    ensures forall k :: k in vec[..i] + vec[i + 1..] ==> k in dic
    ensures PackedSize(dic, vec) == PackedSize(dic, vec[..i] + vec[i + 1..]) + RecordSize(dic[vec[i]])
    decreases |vec|
  {
    var n := |vec| - 1;
    var rest := vec[..i] + vec[i + 1..];
    forall k | k in rest ensures k in dic { assert k in vec; }
    if i == n {
      assert rest == vec[..n];
    } else {
      WithoutFront(vec, i);
      SizeWithout(dic, vec[..n], i);
      assert PackedSize(dic, rest) == PackedSize(dic, rest[..n - 1]) + RecordSize(dic[rest[n - 1]]);
    }
  }

  lemma SoundOffsets(s: Bytes, dic: Index)
    requires Sound(s, dic)
    ensures Sound0(dic)
  {
    forall j, k | j in dic && k in dic && j != k ensures dic[j].offset != dic[k].offset {
      assert IsEntry(s, j, dic[j]) && IsEntry(s, k, dic[k]);
    }
  }

  lemma ListsWithin(s: Bytes, dic: Index, ks: seq<Bytes>)
    requires Sound(s, dic) && Lists(dic, ks)
    ensures Within(s, dic, ks) && InOrder(dic, ks)
  {
    forall k | k in ks ensures k in dic && End(dic[k]) <= |s| { assert IsEntry(s, k, dic[k]); }
  }

  lemma SectionedParts(s: Bytes, dic: Index, ks: seq<Bytes>, secs: seq<Section>)
    requires Sectioned(s, dic, ks, secs)
    ensures SectionsApart(secs) && (forall c :: c in secs ==> 4 <= c.offset && c.offset + c.size <= |s|)
    ensures Within(s, dic, ks) && PackedSections(s, secs) == Packed(s, dic, ks)
  {
  }

  lemma HeaderInFront(m: Bytes, m1: Bytes, p: Bytes)
    requires 8 + |p| <= |m| && m1 == Overwritten(m, 8, p)
    ensures Overwritten(m1, 4, HEADER) == Overwritten(m, 4, HEADER + p)
  {
  }

  // ---- The size of a rewritten log

  /** Keys in some order. */
  ghost function KeyOrder(keys: set<Bytes>): seq<Bytes>
    decreases |keys|
  {
    if keys == {} then [] else
      var k :| k in keys;
      KeyOrder(keys - {k}) + [k]
  }

  lemma {:induction false} OrderLists(keys: set<Bytes>)
    ensures Distinct(KeyOrder(keys)) && forall k :: k in KeyOrder(keys) <==> k in keys
    decreases |keys|
  {
    if keys != {} {
      var last := KeyOrder(keys)[|KeyOrder(keys)| - 1];
      assert last in keys && KeyOrder(keys) == KeyOrder(keys - {last}) + [last];
      OrderLists(keys - {last});
    }
  }

  /** The size word that a rewritten log has: the header, and one record for each key. */
  ghost function RewrittenSize(dic: Index): nat {
    OrderLists(dic.Keys);
    4 + PackedSize(dic, KeyOrder(dic.Keys))
  }
}
