/** A process crash in the middle of an append, and the load that follows it. */
module Recovery {
  import opened Varints
  import opened Coded
  import opened LogFormat
  import opened Checksum
  import opened MapCoder
  import opened Sized
  import opened Store

  /**
   File and shared meta record hold a log of n bytes with index dic. The size word of the file may be
   another one, as after a crash behind it.
   */
  ghost predicate Holds(file: Bytes, meta: Meta, dic: Index, n: nat) {
    && 4 <= n && 4 + n <= |file| < TWO_32
    && Agrees(LogOf(file, n), dic) && Sound(LogOf(file, n), dic)
    && meta.actualSize == n && meta.crcDigest == Crc32(0, LogOf(file, n)) && meta.version >= VERSION_ACTUAL_SIZE
  }

  /** Every valid store that is not empty is such a state. */
  lemma ValidHolds(s: MMKV)
    requires s.Valid() && s.actualSize > 0
    ensures Holds(s.file[..], s.metaFile, s.dic, s.actualSize)
  {
    hide Crc32, Fixed32, Agrees, Sound;
    LoggedEmpty(s.Log(), s.dic);
  }

  /** What is in memory after k stores of an append: the bytes, the size word, the meta checksum, the meta size. */
  function Stores(file: Bytes, meta: Meta, n: nat, rec: Bytes, k: nat): (Bytes, Meta)
    requires 4 + n + |rec| <= |file| && k <= |rec| + 3
  {
    var bytes := Overwritten(file, 4 + n, rec[..if k < |rec| then k else |rec|]);
    var sized := if k > |rec| then Overwritten(bytes, 0, Fixed32(n + |rec|)) else bytes;
    var crc := if k > |rec| + 1 then Crc32(meta.crcDigest, rec) else meta.crcDigest;
    var size := if k > |rec| + 2 then n + |rec| else meta.actualSize;
    (sized, meta.(crcDigest := crc, actualSize := size))
  }

  /** All stores together are the append. */
  lemma AllStoresAppend(file: Bytes, meta: Meta, dic: Index, n: nat, rec: Bytes)
    requires Holds(file, meta, dic, n) && 4 + n + |rec| <= |file|
    ensures var s := Stores(file, meta, n, rec, |rec| + 3);
            var c := AppendedCache(Cache(file, meta, dic, n, meta.crcDigest), rec); s == (c.file, c.meta)
  {
    hide Crc32, Overwritten, Fixed32, Agrees, Sound, LogOf;
    assert rec[..|rec|] == rec;
  }

  /** The log before the append is intact after every store. */
  lemma OldLogStays(file: Bytes, meta: Meta, n: nat, rec: Bytes, k: nat)
    requires 4 + n + |rec| <= |file| && k <= |rec| + 3
    ensures var f := Stores(file, meta, n, rec, k).0;
            && |f| == |file| && LogOf(f, n) == LogOf(file, n)
            && (k > |rec| ==> f[..4] == Fixed32(n + |rec|))
            && (k >= |rec| ==> LogOf(f, n + |rec|) == LogOf(file, n) + rec)
  {
    var bytes := Overwritten(file, 4 + n, rec[..if k < |rec| then k else |rec|]);
    assert LogOf(bytes, n) == LogOf(file, n);
    if k >= |rec| {
      assert rec[..|rec|] == rec;
      WrittenBehind(file, bytes, n, rec);
      SplitLog(bytes, n, |rec|);
    }
    if k > |rec| {
      var sized := Overwritten(bytes, 0, Fixed32(n + |rec|));
      SizeWordApart(bytes, sized, n + |rec|);
      assert LogOf(sized, n) == LogOf(sized, n + |rec|)[..n] && LogOf(bytes, n) == LogOf(bytes, n + |rec|)[..n];
    }
  }

  /** The state loads as the log of n bytes of index dic. */
  ghost predicate LoadsAs(file: Bytes, meta: Meta, log: Bytes, dic: Index)
    requires |file| >= 4
  {
    var c := Reloaded(file, meta);
    4 + c.actualSize <= |c.file| && LogOf(c.file, c.actualSize) == log && c.dic == dic
  }

  /** A good log of the recorded size and checksum is loaded. */
  lemma GoodLoads(file: Bytes, meta: Meta, n: nat, dic: Index)
    requires 4 <= n && InFile(file, n) && Agrees(LogOf(file, n), dic)
    requires CheckDataValid(file, meta) == Load(n, Crc32(0, LogOf(file, n)), false)
          || CheckDataValid(file, meta) == Load(n, Crc32(0, LogOf(file, n)), true)
    ensures LoadsAs(file, meta, LogOf(file, n), dic)
  {
    hide Crc32, ReplayLog, ReadFixed32;
    CheckedLog(file, meta);
    assert Decoded(LogOf(file, n), 0, false, map[]) == dic;
  }

  lemma WordIsRead(file: Bytes, n: nat)
    requires |file| >= 4 && n < TWO_32 && file[..4] == Fixed32(n)
    ensures ReadFixed32(file) == n
  {
    Fixed32RoundTrip(n);
    assert file[..4][0] == file[0] && file[..4][1] == file[1] && file[..4][2] == file[2] && file[..4][3] == file[3];
  }

  /**
   A crash after any number of stores of an append loads exactly the map before or the map after the
   append: before, up to the size word; after, once the meta record is complete; and between the two
   meta stores after, through the size word, unless both logs have the same checksum.
   */
  lemma CrashRecovers(file: Bytes, meta: Meta, dic: Index, n: nat, key: Bytes, value: Bytes, k: nat)
    requires Holds(file, meta, dic, n) && key != [] && Fits(|key|, |value|)
    requires 4 + n + |EncRecord(key, value)| <= |file| && k <= |EncRecord(key, value)| + 3
    ensures var rec, log := EncRecord(key, value), LogOf(file, n); var s := Stores(file, meta, n, rec, k);
            var before := LoadsAs(s.0, s.1, log, dic);
            var after := LoadsAs(s.0, s.1, log + rec, Indexed(log, dic, key, value));
            && (k <= |rec| + 1 ==> before)
            && (k == |rec| + 2 ==> if Crc32(0, log + rec) == Crc32(0, log) then before else after)
            && (k == |rec| + 3 ==> after)
  {
    hide Crc32, Fixed32, ReadFixed32, Overwritten, Agrees, Sound, EncRecord, Fits, Indexed, LoadsAs, Stores, LogOf,
         CheckDataValid;
    var rec, log := EncRecord(key, value), LogOf(file, n);
    var s := Stores(file, meta, n, rec, k);
    var f, m := s.0, s.1;
    assert |log| == n by { LogLength(file, n); }
    RecordNotEmpty(key, value);
    AppendAgrees(log, dic, key, value);
    OldLogStays(file, meta, n, rec, k);
    CrcChains(0, log, rec);
    if k <= |rec| + 1 {
      EarlyCheck(file, meta, n, rec, k);
      GoodLoads(f, m, n, dic);
    } else {
      LateCheck(file, meta, n, rec, k);
      if k == |rec| + 2 && Crc32(0, log + rec) == Crc32(0, log) {
        GoodLoads(f, m, n, dic);
      } else {
        GoodLoads(f, m, n + |rec|, Indexed(log, dic, key, value));
      }
    }
  }

  lemma LogLength(file: Bytes, n: nat)
    requires 4 + n <= |file|
    ensures |LogOf(file, n)| == n
  {
  }

  lemma EarlyCheck(file: Bytes, meta: Meta, n: nat, rec: Bytes, k: nat)
    requires 4 + n + |rec| <= |file| && k <= |rec| + 1 && 0 < |rec| && meta.version >= VERSION_ACTUAL_SIZE
    requires meta.actualSize == n && meta.crcDigest == Crc32(0, LogOf(file, n))
    ensures var s := Stores(file, meta, n, rec, k);
            |s.0| == |file| && InFile(s.0, n) && CheckDataValid(s.0, s.1) == Load(n, Crc32(0, LogOf(file, n)), false)
  {
    hide Crc32, Fixed32, ReadFixed32, Overwritten, LogOf;
    OldLogStays(file, meta, n, rec, k);
  }

  /** With a new checksum, the old size is good only by a collision; the size word then leads to the new log. */
  lemma LateCheck(file: Bytes, meta: Meta, n: nat, rec: Bytes, k: nat)
    requires 4 + n + |rec| <= |file| < TWO_32 && |rec| + 2 <= k <= |rec| + 3 && 0 < |rec|
    requires meta.version >= VERSION_ACTUAL_SIZE
    requires meta.actualSize == n && meta.crcDigest == Crc32(0, LogOf(file, n))
    ensures var s, log := Stores(file, meta, n, rec, k), LogOf(file, n); var crc := Crc32(0, log + rec);
            && |s.0| == |file| && InFile(s.0, n) && InFile(s.0, n + |rec|)
            && CheckDataValid(s.0, s.1) == (
                 if k == |rec| + 2 then (if crc == Crc32(0, log) then Load(n, crc, false)
                                         else Load(n + |rec|, crc, true))
                 else Load(n + |rec|, crc, false))
  {
    hide Crc32, Fixed32, ReadFixed32, Overwritten, LogOf;
    var s, log := Stores(file, meta, n, rec, k), LogOf(file, n);
    OldLogStays(file, meta, n, rec, k);
    CrcChains(0, log, rec);
    WordIsRead(s.0, n + |rec|);
  }

  lemma RecordNotEmpty(key: Bytes, value: Bytes)
    ensures |EncRecord(key, value)| > 0
  {
  }

  /** Both maps are the right ones: what was stored before, and that with the record applied. */
  lemma CrashMaps(log: Bytes, dic: Index, key: Bytes, value: Bytes)
    requires Agrees(log, dic) && Sound(log, dic) && key != [] && Fits(|key|, |value|)
    ensures Sound(log + EncRecord(key, value), Indexed(log, dic, key, value))
    ensures Contents(log + EncRecord(key, value), Indexed(log, dic, key, value))
            == Stored(Contents(log, dic), key, value)
  {
    AppendSound(log, dic, key, value);
  }

  // ---- After the load

  /** A good log that is loaded, as it is recorded or by a recovery, leaves file and record in order. */
  lemma GoodStaysGood(file: Bytes, meta: Meta, n: nat, dic: Index, recovered: bool)
    requires 4 <= n && InFile(file, n) && |file| < TWO_32 && Agrees(LogOf(file, n), dic) && Sound(LogOf(file, n), dic)
    requires meta.version >= VERSION_ACTUAL_SIZE
    requires CheckDataValid(file, meta) == Load(n, Crc32(0, LogOf(file, n)), recovered)
    ensures var c := Reloaded(file, meta);
            |c.file| == |file| && Holds(c.file, c.meta, c.dic, c.actualSize) && c.crc == c.meta.crcDigest
  {
    hide Crc32, ReplayLog, ReadFixed32, Sound, Fixed32;
    CheckedLog(file, meta);
    assert Decoded(LogOf(file, n), 0, false, map[]) == dic;
  }

  /** Whatever the crash left, the load that follows puts file and record in order again, for the next append. */
  lemma CrashLeavesOrder(file: Bytes, meta: Meta, dic: Index, n: nat, key: Bytes, value: Bytes, k: nat)
    requires Holds(file, meta, dic, n) && key != [] && Fits(|key|, |value|)
    requires 4 + n + |EncRecord(key, value)| <= |file| && k <= |EncRecord(key, value)| + 3
    ensures var s := Stores(file, meta, n, EncRecord(key, value), k); var c := Reloaded(s.0, s.1);
            |c.file| == |file| && Holds(c.file, c.meta, c.dic, c.actualSize) && c.crc == c.meta.crcDigest
  {
    hide Crc32, Fixed32, ReadFixed32, Overwritten, Agrees, Sound, EncRecord, Fits, Indexed, Stores, LogOf,
         CheckDataValid, Reloaded;
    var rec, log := EncRecord(key, value), LogOf(file, n);
    var s := Stores(file, meta, n, rec, k);
    assert |log| == n by { LogLength(file, n); }
    assert s.1.version == meta.version by { VersionStays(file, meta, n, rec, k); }
    RecordNotEmpty(key, value);
    AppendAgrees(log, dic, key, value);
    AppendSound(log, dic, key, value);
    OldLogStays(file, meta, n, rec, k);
    CrcChains(0, log, rec);
    if k <= |rec| + 1 {
      EarlyCheck(file, meta, n, rec, k);
      GoodStaysGood(s.0, s.1, n, dic, false);
    } else {
      LateCheck(file, meta, n, rec, k);
      if k == |rec| + 2 && Crc32(0, log + rec) == Crc32(0, log) {
        GoodStaysGood(s.0, s.1, n, dic, false);
      } else {
        GoodStaysGood(s.0, s.1, n + |rec|, Indexed(log, dic, key, value), k == |rec| + 2);
      }
    }
  }

  lemma VersionStays(file: Bytes, meta: Meta, n: nat, rec: Bytes, k: nat)
    requires 4 + n + |rec| <= |file| && k <= |rec| + 3
    ensures Stores(file, meta, n, rec, k).1.version == meta.version
  {
    hide Overwritten, Crc32, Fixed32;
  }

  // ---- A crash of a running store

  /** The first k stores of an append: the bytes one by one, the size word, the meta checksum, the meta size. */
  method PartOfAppend(store: MMKV, rec: Bytes, k: nat)
    requires 4 + store.actualSize + |rec| <= store.file.Length && k <= |rec| + 3
    modifies store`metaFile, store.file
    ensures (store.file[..], store.metaFile)
            == Stores(old(store.file[..]), old(store.metaFile), store.actualSize, rec, k)
  {
    hide Crc32, Fixed32;
    ghost var m := store.file[..];
    var n := store.actualSize;
    var count := if k < |rec| then k else |rec|;
    forall i | 0 <= i < count {
      store.file[4 + n + i] := rec[i];
    }
    assert store.file[..] == Overwritten(m, 4 + n, rec[..count]);
    if k > |rec| {
      ghost var bytes := store.file[..];
      var word := Fixed32(n + |rec|);
      forall i | 0 <= i < 4 {
        store.file[i] := word[i];
      }
      assert store.file[..] == Overwritten(bytes, 0, word);
    }
    if k > |rec| + 1 {
      store.metaFile := store.metaFile.(crcDigest := Crc32(store.metaFile.crcDigest, rec));
    }
    if k > |rec| + 2 {
      store.metaFile := store.metaFile.(actualSize := n + |rec|);
    }
  }

  /** A store whose fields are those of a good file is valid. */
  lemma LoadedIsValid(store: MMKV)
    requires store.Mapped() && store.output.position == store.actualSize && store.metaInfo == store.metaFile
    requires store.crcDigest == store.metaInfo.crcDigest
    requires Holds(store.file[..], store.metaInfo, store.dic, store.actualSize)
    ensures store.Valid() && store.Map() == Contents(LogOf(store.file[..], store.actualSize), store.dic)
  {
    hide Crc32, Agrees, Sound, Contents;
  }

  /** The process dies in the middle of the append, and a new one opens the store. */
  method DieAndReopen(store: MMKV, rec: Bytes, k: nat, ghost key: Bytes, ghost value: Bytes)
    requires store.Valid() && store.actualSize > 0 && rec == EncRecord(key, value) && k <= |rec| + 3
    requires key != [] && Fits(|key|, |value|) && 4 + store.actualSize + |rec| < store.file.Length
    modifies store, store.file
    ensures store.Valid() && fresh(store.output) && store.file == old(store.file)
    ensures || (store.Map() == old(store.Map()) && store.actualSize == old(store.actualSize))
            || (store.Map() == Stored(old(store.Map()), key, value)
                && store.actualSize == old(store.actualSize) + |rec|)
    ensures k <= |rec| + 1 ==> store.actualSize == old(store.actualSize)
    ensures k == |rec| + 2 && store.actualSize == old(store.actualSize)
            ==> Crc32(0, store.Log() + rec) == Crc32(0, store.Log())
    ensures k == |rec| + 3 ==> store.actualSize == old(store.actualSize) + |rec|
  {
    hide Crc32, Overwritten, Agrees, Sound, Contents, EncRecord, Fits, Stores, Reloaded, Holds, Logged, Indexed;
    ghost var file, meta, dic, n := store.file[..], store.metaFile, store.dic, store.actualSize;
    ValidHolds(store);
    ghost var s := Stores(file, meta, n, rec, k);
    CrashRecovers(file, meta, dic, n, key, value, k);
    CrashLeavesOrder(file, meta, dic, n, key, value, k);
    CrashOutcome(file, meta, dic, n, key, value, k);
    PartOfAppend(store, rec, k);
    store.dic := map[];
    store.LoadFromFile();
    LoadedIsValid(store);
  }

  /** What the load after the crash finds, as a map and a size. */
  lemma CrashOutcome(file: Bytes, meta: Meta, dic: Index, n: nat, key: Bytes, value: Bytes, k: nat)
    requires Holds(file, meta, dic, n) && key != [] && Fits(|key|, |value|)
    requires 4 + n + |EncRecord(key, value)| <= |file| && k <= |EncRecord(key, value)| + 3
    ensures var rec, log := EncRecord(key, value), LogOf(file, n); var s := Stores(file, meta, n, rec, k);
            var c := Reloaded(s.0, s.1);
            && 4 + c.actualSize <= |c.file| && Sound(LogOf(c.file, c.actualSize), c.dic)
            && (|| (c.actualSize == n && LogOf(c.file, n) == log && Contents(log, c.dic) == Contents(log, dic))
                || (c.actualSize == n + |rec|
                    && Contents(LogOf(c.file, c.actualSize), c.dic) == Stored(Contents(log, dic), key, value)))
            && (k <= |rec| + 1 ==> c.actualSize == n) && (k == |rec| + 3 ==> c.actualSize == n + |rec|)
            && (k == |rec| + 2 && c.actualSize == n ==> Crc32(0, log + rec) == Crc32(0, log))
  {
    hide Crc32, Overwritten, Agrees, Sound, Contents, EncRecord, Fits, Stores, Reloaded, LogOf, Indexed;
    var rec, log := EncRecord(key, value), LogOf(file, n);
    var s := Stores(file, meta, n, rec, k);
    OldLogStays(file, meta, n, rec, k);
    var c := Reloaded(s.0, s.1);
    LogLength(file, n);
    RecordNotEmpty(key, value);
    CrashRecovers(file, meta, dic, n, key, value, k);
    CrashMaps(log, dic, key, value);
    LogLength(c.file, c.actualSize);
  }

  /**
   A put or, with an empty value, a removal that a crash cuts off after k stores of its append, and the
   reopening of the store: the record is there or it is not; room may have been made for it.
   */
  method CrashInPut(store: MMKV, key: Bytes, value: Bytes, disk: nat, k: nat) returns (done: bool)
    requires store.Valid() && disk < TWO_32 && key != [] && Fits(|key|, |value|)
    modifies store, store.file, store.output
    ensures store.Valid() && fresh({store.file, store.output} - {old(store.file), old(store.output)})
    ensures Interrupted(old(store.Abs()), key, value, disk, k, store.Abs(), done)
    ensures old(CanPut(store.Abs(), key, value, disk)) && k == |EncRecord(key, value)| + 2 && !done ==>
              Crc32(0, store.Log() + EncRecord(key, value)) == Crc32(0, store.Log())
  {
    hide Crc32, EncRecord, Fits, MMKV.Valid, MMKV.Map, Contents, LiveSize, CanExtend, ExtendedSize, Stored;
    var rec := EncRecord(key, value);
    store.FileIsThere();
    var room := store.EnsureMemorySize(|rec|, disk);
    done := false;
    if room {
      ghost var made := store.Abs();
      BehindRoom(old(store.Abs()), made, key, value);
      RoomInFile(store, |rec|);
      var used := store.actualSize;
      RecordNotEmpty(key, value);
      DieAndReopen(store, rec, if k < |rec| + 3 then k else |rec| + 3, key, value);
      done := store.actualSize != used;
      RoomInFile(store, 0);
    } else {
      store.Reload();
    }
  }

  lemma RoomInFile(store: MMKV, n: nat)
    requires store.Valid()
    ensures store.actualSize + 4 <= store.file.Length
    ensures n < store.output.size - store.output.position ==> 4 + store.actualSize + n < store.file.Length
    ensures store.Abs() == Sized(store.Map(), store.actualSize, store.file.Length)
  {
    hide Logged, Contents, Crc32;
  }

  /** The outcome of an append that was cut off after k stores. */
  ghost predicate Interrupted(s: Sized, key: Bytes, value: Bytes, disk: nat, k: nat, s': Sized, done: bool)
    requires s.length > 0
  {
    var n := |EncRecord(key, value)|;
    if !CanPut(s, key, value, disk) then !done && s' == s
    else s' == (if done then Put(s, key, value) else MadeRoom(s, n)) && (k <= n + 1 ==> !done) && (k >= n + 3 ==> done)
  }
}
