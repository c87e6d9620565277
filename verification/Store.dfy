/** The plain-text MMKV store of one process: log, index, meta record and mapped file. */
module Store {
  import opened Varints
  import opened Coded
  import opened LogFormat
  import opened Compaction
  import opened Checksum
  import opened MapCoder
  import opened Sized

  const VERSION_SEQUENCE: nat := 1
  const VERSION_ACTUAL_SIZE: nat := 3

  /** MMKVMetaInfo, without the initialisation vector and the reserved words. */
  datatype Meta = Meta(crcDigest: nat, version: nat, sequence: nat, actualSize: nat, lastActualSize: nat,
                       lastCrcDigest: nat)

  // ---- Judging a file

  /** The bytes that a file holds after its size word, up to n. */
  function LogOf(file: Bytes, n: nat): Bytes
    requires 4 + n <= |file|
  {
    file[4..4 + n]
  }

  /** A size that is checked before a checksum is taken over it. */
  predicate InFile(file: Bytes, n: nat) {
    n < |file| && n + 4 <= |file|
  }

  /** checkFileCRCValid for a size that may be too large. */
  predicate CrcValid(file: Bytes, n: nat, crc: nat) {
    InFile(file, n) && Crc32(0, LogOf(file, n)) == crc
  }

  /** readActualSize: from the meta record, or from the file's size word in old versions. */
  function ActualSizeOf(file: Bytes, meta: Meta): nat
    requires |file| >= 4
  {
    if meta.version >= VERSION_ACTUAL_SIZE then meta.actualSize else ReadFixed32(file)
  }

  /** What checkDataValid decides: load a log of a size and checksum, or discard. */
  datatype Verdict = Load(size: nat, crc: nat, recovered: bool) | Discard

  /** checkLastConfirmedInfo. */
  function LastConfirmed(file: Bytes, meta: Meta): Verdict
    requires |file| >= 4
  {
    if meta.version < VERSION_ACTUAL_SIZE then Discard
    else if ReadFixed32(file) != meta.actualSize && CrcValid(file, ReadFixed32(file), meta.crcDigest) then
      Load(ReadFixed32(file), meta.crcDigest, true)
    else if CrcValid(file, meta.lastActualSize, meta.lastCrcDigest) then
      Load(meta.lastActualSize, meta.lastCrcDigest, true)
    else Discard
  }

  function CheckDataValid(file: Bytes, meta: Meta): Verdict
    requires |file| >= 4
  {
    var n := ActualSizeOf(file, meta);
    if CrcValid(file, n, meta.crcDigest) then Load(n, meta.crcDigest, false) else LastConfirmed(file, meta)
  }

  // ---- The meta record after a write

  /** writeActualSize, as it changes the record in memory. */
  function SizeWritten(meta: Meta, size: nat, crc: nat, increaseSequence: bool): Meta {
    var m := meta.(actualSize := size, crcDigest := crc,
                   version := if meta.version < VERSION_SEQUENCE then VERSION_SEQUENCE else meta.version);
    if increaseSequence then
      m.(sequence := m.sequence + 1, lastActualSize := size, lastCrcDigest := crc,
         version := if m.version < VERSION_ACTUAL_SIZE then VERSION_ACTUAL_SIZE else m.version)
    else m
  }

  /** What it leaves in the shared file: the whole record, or the checksum and the size only. */
  function MetaFileWritten(metaFile: Meta, meta: Meta, needsFullWrite: bool): Meta {
    if needsFullWrite then meta
    else metaFile.(crcDigest := meta.crcDigest, actualSize := meta.actualSize)
  }

  /** The partial write is enough to keep the shared record equal to the one in memory. */
  lemma PartialWriteSuffices(before: Meta, size: nat, crc: nat, inc: bool)
    ensures MetaFileWritten(before, SizeWritten(before, size, crc, inc), inc || before.version < VERSION_SEQUENCE)
            == SizeWritten(before, size, crc, inc)
  {
  }

  // ---- Loading

  /** File and cache of a process whose meta record equals the shared one. */
  datatype Cache = Cache(file: Bytes, meta: Meta, dic: Index, actualSize: nat, crc: nat)

  /** writeActualSize, as it changes file and cache. */
  function Written(c: Cache, size: nat, crc: nat, inc: bool): Cache
    requires |c.file| >= 4
  {
    c.(file := Overwritten(c.file, 0, Fixed32(size)), meta := SizeWritten(c.meta, size, crc, inc), actualSize := size,
       crc := crc)
  }

  /** An append of record bytes: the bytes behind the log, then the digest and the size words. */
  function AppendedCache(c: Cache, rec: Bytes): Cache
    requires 4 + c.actualSize + |rec| <= |c.file|
  {
    Written(c.(file := Overwritten(c.file, 4 + c.actualSize, rec)), c.actualSize + |rec|, Crc32(c.crc, rec), false)
  }

  /** checkDataValid, as it changes file and cache. */
  function Checked(file: Bytes, meta: Meta): Cache
    requires |file| >= 4
  {
    var v := CheckDataValid(file, meta);
    var c := Cache(file, meta, map[], ActualSizeOf(file, meta), meta.crcDigest);
    if v.Load? && v.recovered then Written(c, v.size, v.crc, false) else c
  }

  /** loadFromFile on a cleared cache. */
  function Reloaded(file: Bytes, meta: Meta): Cache
    requires |file| >= 4
  {
    var v, c := CheckDataValid(file, meta), Checked(file, meta);
    if v.Load? && v.size > 0 then c.(dic := Decoded(LogOf(file, v.size), 0, false, map[]))
    else Written(c, 0, 0, c.actualSize > 0)
  }

  // ---- Size words and logs

  /** From version 3 on the size in the meta record counts, before that the word in the file. */
  ghost predicate SizeWordFits(file: Bytes, meta: Meta, n: nat)
    requires |file| >= 4
  {
    meta.version >= VERSION_ACTUAL_SIZE || file[..4] == Fixed32(n)
  }

  /** An index is right for a log: nothing has been logged, or the log replays to it. */
  ghost predicate Logged(s: Bytes, dic: Index) {
    if s == [] then dic == map[] else Agrees(s, dic) && Sound(s, dic)
  }

  lemma LoggedSound(s: Bytes, dic: Index)
    requires Logged(s, dic)
    ensures Sound(s, dic) && (|s| < 4 ==> s == [])
  {
  }

  class MMKV {
    var file: array<Byte>
    var output: CodedOutputData
    var dic: Index
    var actualSize: nat
    var crcDigest: nat
    var metaInfo: Meta
    var metaFile: Meta
    var hasFullWriteback: bool
    var needLoadFromFile: bool

    ghost predicate Mapped()
      reads this`file, this`output, output
    {
      && output.ptr == file && output.start == FIXED_32_SIZE && FIXED_32_SIZE + output.size == file.Length
      && output.Valid() && PAGE_SIZE <= file.Length < TWO_32
    }

    ghost function Log(): Bytes
      requires FIXED_32_SIZE + actualSize <= file.Length
      reads this`file, this`actualSize, file
    {
      file[4..4 + actualSize]
    }

    /**
     The output stands at the end of the log, and both size and checksum of the meta record are the log's.
     The size word of the file is too in old versions; later ones do not rely on it, and a crash can leave it behind.
     */
    ghost predicate Shape()
      reads this`file, this`output, this`actualSize, this`crcDigest, this`metaInfo, this`metaFile, file, output
    {
      && Mapped() && output.position == actualSize
      && SizeWordFits(file[..], metaInfo, actualSize)
      && crcDigest == Crc32(0, Log())
      && metaInfo.actualSize == actualSize && metaInfo.crcDigest == crcDigest && metaInfo.version >= VERSION_SEQUENCE
      && metaFile == metaInfo && (actualSize > 0 ==> metaInfo.version >= VERSION_ACTUAL_SIZE)
    }

    ghost predicate Valid()
      reads this, file, output
    {
      Shape() && Logged(Log(), dic)
    }

    /** The stored map. */
    ghost function Map(): map<Bytes, Bytes>
      requires Valid()
      reads this, file, output
    {
      Contents(Log(), dic)
    }

    /** The stored map, the bytes of the log and the size of the file. */
    ghost function Abs(): Sized
      requires Valid()
      reads this, file, output
    {
      Sized(Map(), actualSize, file.Length)
    }

    /** A new store over a file of zero bytes, with a meta record of zeros. */
    constructor (size: nat)
      requires PageRounded(size) < TWO_32
      ensures Valid() && Abs() == Sized(map[], 0, PageRounded(size)) && fresh(file) && fresh(output)
    {
      var length := PageRounded(size);
      var memory := new Byte[length](_ => 0);
      file := memory;
      output := new CodedOutputData(memory, FIXED_32_SIZE, length - FIXED_32_SIZE);
      dic, actualSize, crcDigest, hasFullWriteback, needLoadFromFile := map[], 0, 0, false, true;
      metaInfo := Meta(0, 0, 0, 0, 0, 0);
      metaFile := Meta(0, 0, 0, 0, 0, 0);
      new;
      BlankFile(memory[..]);
      LoadFromFile();
    }

    /** writeActualSize. */
    method WriteActualSize(size: nat, crc: nat, increaseSequence: bool)
      requires file.Length >= 4
      modifies this`actualSize, this`crcDigest, this`metaInfo, this`metaFile, file
      ensures State() == Written(old(State()), size, crc, increaseSequence)
      ensures old(metaFile == metaInfo) ==> metaFile == metaInfo
    {
      ghost var m := file[..];
      var word := Fixed32(size);
      forall k | 0 <= k < 4 {
        file[k] := word[k];
      }
      assert file[..] == Overwritten(m, 0, word);
      actualSize := size;
      crcDigest := crc;
      var needsFullWrite := increaseSequence || metaInfo.version < VERSION_SEQUENCE;
      metaInfo := SizeWritten(metaInfo, size, crc, increaseSequence);
      metaFile := MetaFileWritten(metaFile, metaInfo, needsFullWrite);
    }

    /** The keys of the index, in some order, and the size of the rewritten log. */
    method PrepareEncode() returns (vec: seq<Bytes>, totalSize: nat)
      ensures Distinct(vec) && forall k :: k in vec <==> k in dic
      ensures totalSize == 4 + PackedSize(dic, vec) == RewrittenSize(dic)
    {
      vec, totalSize := [], 4;
      var keys := dic.Keys;
      while keys != {}
        invariant keys <= dic.Keys && Distinct(vec) && forall k :: k in vec <==> k in dic && k !in keys
        invariant totalSize == 4 + PackedSize(dic, vec)
        decreases |keys|
      {
        var k :| k in keys;
        keys := keys - {k};
        RepackedSnoc(dic, vec, k);
        vec, totalSize := vec + [k], totalSize + RecordSize(dic[k]);
      }
      OrderLists(dic.Keys);
      SameTotal(dic, vec, KeyOrder(dic.Keys));
    }

    ghost function State(): Cache
      reads this, file
    {
      Cache(file[..], metaInfo, dic, actualSize, crcDigest)
    }

    /** checkDataValid, with the default handlers, which discard. */
    method CheckData() returns (loadFromFile: bool)
      requires file.Length >= PAGE_SIZE && metaInfo == metaFile && dic == map[]
      modifies this`actualSize, this`crcDigest, this`metaInfo, this`metaFile, file
      ensures loadFromFile == CheckDataValid(old(file[..]), old(metaInfo)).Load?
      ensures loadFromFile ==> State() == Checked(old(file[..]), old(metaInfo))
      ensures !loadFromFile ==> State().(crc := metaInfo.crcDigest) == Checked(old(file[..]), old(metaInfo))
      ensures metaInfo == metaFile
    {
      hide Crc32, Fixed32, ReadFixed32, SizeWritten, Overwritten;
      actualSize := ActualSizeOf(file[..], metaInfo);
      if InFile(file[..], actualSize) {
        crcDigest := Crc32(0, LogOf(file[..], actualSize));
        if crcDigest == metaInfo.crcDigest {
          return true;
        }
      }
      loadFromFile := CheckLastConfirmed();
    }

    method CheckLastConfirmed() returns (loadFromFile: bool)
      requires file.Length >= PAGE_SIZE && metaInfo == metaFile
      modifies this`actualSize, this`crcDigest, this`metaInfo, this`metaFile, file
      ensures var v := LastConfirmed(old(file[..]), old(metaInfo));
              && loadFromFile == v.Load?
              && (v.Load? ==> State() == Written(old(State()), v.size, v.crc, false))
              && (v.Discard? ==> State() == old(State()).(crc := crcDigest))
      ensures metaInfo == metaFile
    {
      hide Crc32, Fixed32, ReadFixed32, SizeWritten, Overwritten;
      loadFromFile := false;
      if metaInfo.version >= VERSION_ACTUAL_SIZE {
        var oldStyleActualSize := ReadFixed32(file[..]);
        if oldStyleActualSize != metaInfo.actualSize {
          if InFile(file[..], oldStyleActualSize) {
            crcDigest := Crc32(0, LogOf(file[..], oldStyleActualSize));
            if crcDigest == metaInfo.crcDigest {
              WriteActualSize(oldStyleActualSize, metaInfo.crcDigest, false);
              return true;
            }
          }
        }
        var lastActualSize := metaInfo.lastActualSize;
        if InFile(file[..], lastActualSize) {
          crcDigest := Crc32(0, LogOf(file[..], lastActualSize));
          if crcDigest == metaInfo.lastCrcDigest {
            WriteActualSize(lastActualSize, metaInfo.lastCrcDigest, false);
            loadFromFile := true;
          }
        }
      }
    }

    /** loadFromFile on a cleared cache. */
    method LoadFromFile()
      requires dic == map[] && PAGE_SIZE <= file.Length < TWO_32
      modifies this, file
      ensures fresh(output) && file == old(file) && Mapped() && output.position == actualSize
      ensures State() == Reloaded(old(file[..]), old(metaFile)) && metaInfo == metaFile && !needLoadFromFile
    {
      hide Crc32, Fixed32, ReadFixed32, Overwritten, Decoded, SizeWritten, ActualSizeOf;
      metaInfo := metaFile;
      ghost var m, meta := file[..], metaInfo;
      var loadFromFile := CheckData();
      output := new CodedOutputData(file, FIXED_32_SIZE, file.Length - FIXED_32_SIZE);
      if loadFromFile && actualSize > 0 {
        CheckedLog(m, meta);
        dic := DecodeOneMap(LogOf(file[..], actualSize), 0, false, dic);
        var ok := output.Seek(actualSize);
      } else if actualSize > 0 {
        WriteActualSize(0, 0, true);
      } else {
        WriteActualSize(0, 0, false);
      }
      needLoadFromFile := false;
    }

    /** clearMemoryCache; the output is that of the next load. */
    method ClearMemoryCache()
      modifies this`needLoadFromFile, this`hasFullWriteback, this`dic, this`actualSize, this`metaInfo
      ensures needLoadFromFile && (!old(needLoadFromFile) ==> dic == map[])
      ensures old(needLoadFromFile) ==> unchanged(this)
    {
      if needLoadFromFile {
        return;
      }
      needLoadFromFile, hasFullWriteback := true, false;
      dic := map[];
      actualSize := 0;
      metaInfo := metaInfo.(crcDigest := 0);
    }

    /** The cache is dropped and built again from the file: nothing changes. */
    method Reload()
      requires Valid()
      modifies this, file
      ensures Valid() && dic == old(dic) && Map() == old(Map()) && file == old(file) && fresh(output)
      ensures actualSize == old(actualSize) && metaInfo == old(metaInfo) && file[4..] == old(file[4..])
      ensures actualSize > 0 || old(file[..4] == Fixed32(0)) ==> file[..] == old(file[..])
    {
      hide Crc32, Fixed32, ReadFixed32, Overwritten, Decoded, Contents, Agrees, Sound;
      ghost var m, meta, s := file[..], metaFile, Log();
      ValidReloads(m, meta, dic, actualSize);
      RewrittenWord(m, 0);
      SameTail(m, Overwritten(m, 0, Fixed32(0)), actualSize);
      needLoadFromFile := false;
      ClearMemoryCache();
      LoadFromFile();
    }

    // ---- Making room

    /** truncate: the file gets a multiple of the page size, new bytes zero; on a full disk it stays as it is. */
    method Truncate(size: nat, disk: nat) returns (ok: bool)
      requires disk < TWO_32
      modifies this`file
      ensures ok == (size == old(file.Length) || PageRounded(size) <= disk)
      ensures !ok || size == old(file.Length) ==> file == old(file)
      ensures ok && size != old(file.Length) ==> fresh(file) && PAGE_SIZE <= file.Length == PageRounded(size) < TWO_32
      ensures ok && old(file.Length) <= file.Length ==> file[..old(file.Length)] == old(file[..])
    {
      if size == file.Length {
        return true;
      }
      var rounded := PageRounded(size);
      ok := rounded <= disk;
      if ok {
        var before := file[..];
        var memory := new Byte[rounded](i requires 0 <= i => if i < |before| then before[i] else 0);
        file := memory;
      }
    }

    /** doFullWriteBack: the log is compacted in place, and the meta record says so with the next sequence number. */
    method DoFullWriteBack(vec: seq<Bytes>, totalSize: nat) returns (ghost ks: seq<Bytes>)
      requires Writable() && Distinct(vec) && (forall k :: k in vec <==> k in dic)
      requires totalSize == 4 + PackedSize(dic, vec)
      modifies this, file
      ensures Valid() && fresh(output) && file == old(file) && dic.Keys == old(dic.Keys)
      ensures Map() == old(Stock()) && actualSize == totalSize && hasFullWriteback
      ensures Compacted(old(LogBytes(file[..], actualSize)), old(dic), Log(), dic, ks)
      ensures metaInfo == SizeWritten(old(metaInfo), totalSize, Crc32(0, Log()), true)
      ensures needLoadFromFile == old(needLoadFromFile)
    {
      hide Crc32, Fixed32, Overwritten, Contents, Agrees, Sound, Compacted, PackedSize, Logged, LogBytes, SizeWritten;
      ks := CompactLog(vec, totalSize);
      RecalculateCrc();
      hasFullWriteback := true;
    }

    /** The records of the index are in the file, whatever the output stands at and whatever else the log says. */
    ghost predicate Writable()
      reads this`file, this`actualSize, this`dic, this`metaInfo, this`metaFile, file
    {
      && PAGE_SIZE <= file.Length < TWO_32 && FIXED_32_SIZE + actualSize <= file.Length
      && Sound(Log(), dic) && (actualSize == 0 ==> dic == map[]) && (actualSize < 4 ==> actualSize == 0)
      && metaInfo == metaFile
    }

    /** The stored map of such a state. */
    ghost function Stock(): map<Bytes, Bytes>
      requires Writable()
      reads this`file, this`actualSize, this`dic, this`metaInfo, this`metaFile, file
    {
      Contents(Log(), dic)
    }

    method CompactLog(vec: seq<Bytes>, totalSize: nat) returns (ghost ks: seq<Bytes>)
      requires Writable() && Distinct(vec) && (forall k :: k in vec <==> k in dic)
      requires totalSize == 4 + PackedSize(dic, vec)
      modifies this`output, this`dic, this`actualSize, file
      ensures Writable() && Mapped() && output.position == actualSize == totalSize && Logged(Log(), dic)
      ensures fresh(output) && dic.Keys == old(dic.Keys) && Stock() == old(Stock())
      ensures Compacted(old(LogBytes(file[..], actualSize)), old(dic), Log(), dic, ks)
    {
      hide Fixed32, Overwritten, Contents, Agrees, Sound, Packed, Repacked, PackedSize, Lists, Within, LogBytes;
      ghost var m, s, before := file[..], LogBytes(file[..], actualSize), dic;
      LogBytesSound(m, actualSize, dic);
      output := new CodedOutputData(file, FIXED_32_SIZE, file.Length - FIXED_32_SIZE);
      dic, ks := MemmoveDictionary(dic, vec, output, s);
      ListsDistinct(before, ks);
      SameTotal(before, vec, ks);
      CompactionPreserves(s, before, ks);
      RepackedHasKeys(before, ks);
      actualSize := totalSize;
      LogAfter(m, file[..], HEADER + Packed(s, before, ks));
    }

    /** recaculateCRCDigestWithIV: digest, size words and a new sequence number. */
    method RecalculateCrc()
      requires Writable() && Mapped() && output.position == actualSize && Logged(Log(), dic)
      modifies this`actualSize, this`crcDigest, this`metaInfo, this`metaFile, file
      ensures Valid() && actualSize == old(actualSize) && Map() == old(Stock()) && Log() == old(Log())
      ensures metaInfo == SizeWritten(old(metaInfo), actualSize, Crc32(0, Log()), true)
    {
      hide Crc32, Fixed32, Overwritten, Contents, Logged;
      ghost var m, n := file[..], actualSize;
      crcDigest := Crc32(0, LogOf(file[..], actualSize));
      WriteActualSize(actualSize, crcDigest, true);
      SizeWordApart(m, file[..], n);
    }

    /** An append of n bytes needs no rewrite. */
    ghost predicate HasRoom(n: nat)
      reads this, output
    {
      n < output.size - output.position && |dic| > 0
    }

    /**
     ensureMemorySize: after success newSize bytes fit behind the log, with a byte to spare; it fails
     only when the disk has no room for the larger file. When there is room nothing changes.
     */
    method EnsureMemorySize(newSize: nat, disk: nat) returns (ok: bool)
      requires Valid() && disk < TWO_32
      modifies this, file, output
      ensures Valid() && Map() == old(Map()) && dic.Keys == old(dic.Keys)
      ensures ok == old(CanMakeRoom(Abs(), newSize, disk))
      ensures Abs() == if ok then old(MadeRoom(Abs(), newSize)) else old(Abs())
      ensures ok ==> newSize < output.size - output.position && actualSize > 0
      ensures !ok || old(HasRoom(newSize)) ==> unchanged(this) && unchanged(file) && unchanged(output)
      ensures fresh({file, output} - {old(file), old(output)})
    {
      hide Crc32, Fixed32, Overwritten, Contents, Logged, CanExtend, RewrittenSize, LiveSize, ExtendedSize;
      var space := output.SpaceLeft();
      SizesAgree();
      if newSize >= space || |dic| == 0 {
        ok := Rewrite(newSize, disk);
      } else {
        LoggedIsNotEmpty(Log(), dic);
        ok := true;
      }
    }

    /** The sizes that the index gives are those of the stored map. */
    lemma SizesAgree()
      requires Valid()
      ensures RewrittenSize(dic) == LiveSize(Map()) && |Map()| == |dic|
    {
      hide Logged, Crc32;
      LoggedSound(Log(), dic);
      RewrittenIsLive(Log(), dic);
      assert |Map().Keys| == |dic.Keys|;
    }

    /** The full rewrite, after the file has been extended as far as needed. */
    method Rewrite(newSize: nat, disk: nat) returns (ok: bool)
      requires Valid() && disk < TWO_32
      modifies this, file
      ensures Valid() && Map() == old(Map()) && dic.Keys == old(dic.Keys)
      ensures ok == CanExtend(old(file.Length), RewrittenSize(old(dic)) + FIXED_32_SIZE + newSize, |old(dic)|, disk)
      ensures ok ==> newSize < output.size - output.position && actualSize == RewrittenSize(old(dic)) > 0
      ensures ok ==> file.Length
                     == ExtendedSize(old(file.Length), RewrittenSize(old(dic)) + FIXED_32_SIZE + newSize, |old(dic)|)
      ensures !ok ==> unchanged(this) && unchanged(file)
      ensures (file == old(file) || fresh(file)) && (output == old(output) || fresh(output))
    {
      hide Crc32, Fixed32, Overwritten, Contents, PackedSize, Logged, PageRounded, Sound, CanExtend, RewrittenSize,
           ExtendedSize;
      LoggedEmpty(Log(), dic);
      var vec, sizeOfDic := PrepareEncode();
      ok := ExtendFile(sizeOfDic + FIXED_32_SIZE + newSize, |dic|, disk);
      if ok {
        ghost var ks := DoFullWriteBack(vec, sizeOfDic);
      }
    }

    /** The file is doubled until there is room for lenNeeded bytes and for items to come. */
    method ExtendFile(lenNeeded: nat, dicCount: nat, disk: nat) returns (ok: bool)
      requires Writable() && disk < TWO_32
      modifies this`file
      ensures Writable() && Stock() == old(Stock()) && (file == old(file) || fresh(file))
      ensures ok == CanExtend(old(file.Length), lenNeeded, dicCount, disk)
      ensures ok ==> file.Length == ExtendedSize(old(file.Length), lenNeeded, dicCount) > lenNeeded
      ensures !ok ==> file == old(file)
    {
      hide Contents, Logged, PageRounded, Sound, DoubledUntil, Times;
      ghost var m, n := file[..], actualSize;
      var fileSize := file.Length;
      var avgItemSize := lenNeeded / Max(1, dicCount);
      var futureUsage := Times(avgItemSize, Max(8, (dicCount + 1) / 2));
      ok := true;
      if lenNeeded >= fileSize || lenNeeded + futureUsage >= fileSize {
        fileSize := Doubled(fileSize, lenNeeded + futureUsage);
        ok := Truncate(fileSize, disk);
        if ok { PrefixLog(m, file[..], n); }
      }
    }

    /** What is written for a value: a data holder is written with its own length in front. */
    static function StoredValue(data: Bytes, isDataHolder: bool): Bytes {
      if isDataHolder then EncData(data) else data
    }

    /** The key to append: its bytes, or its encoding in an older record of the log. */
    ghost predicate KeyIs(keyData: KeyData, key: Bytes)
      reads this, file
    {
      match keyData
      case Raw(bytes) => bytes == key
      case InLog(offset, size) =>
        FIXED_32_SIZE + offset + size <= file.Length && file[4 + offset..4 + offset + size] == EncData(key)
    }

    /** The three writes of an append; there is room for them. */
    method WriteRecord(data: Bytes, keyData: KeyData, isKeyEncoded: bool, isDataHolder: bool, valueLength: nat,
                       ghost key: Bytes)
      requires Mapped() && KeyIs(keyData, key) && isKeyEncoded == keyData.InLog?
      requires valueLength == |StoredValue(data, isDataHolder)| && |key| < TWO_31 && |data| < TWO_31
      requires output.position + |EncRecord(key, StoredValue(data, isDataHolder))| <= output.size
      requires keyData.InLog? ==> keyData.offset + keyData.size <= output.position
      modifies output, file
      ensures Mapped() && output.position == old(output.position) + |EncRecord(key, StoredValue(data, isDataHolder))|
      ensures file[..] == Overwritten(old(file[..]), 4 + old(output.position),
                                      EncRecord(key, StoredValue(data, isDataHolder)))
    {
      hide Overwritten, Enc;
      ghost var m, at, stored := file[..], 4 + output.position, StoredValue(data, isDataHolder);
      assert EncRecord(key, stored) == EncData(key) + (Enc(|stored|) + stored);
      hide EncData;
      var ok := WriteKey(keyData, isKeyEncoded, key);
      if isDataHolder {
        ok := output.WriteRawVarint(valueLength);
        OverwrittenTwice(m, at, EncData(key), Enc(valueLength));
        ok := output.WriteData(data);
        OverwrittenTwice(m, at, EncData(key) + Enc(valueLength), EncData(data));
        assert EncData(key) + Enc(valueLength) + EncData(data) == EncData(key) + (Enc(valueLength) + EncData(data));
      } else {
        ok := output.WriteData(data);
        OverwrittenTwice(m, at, EncData(key), EncData(data));
        assert EncData(data) == Enc(|stored|) + stored by { DataParts(data); }
      }
    }

    method WriteKey(keyData: KeyData, isKeyEncoded: bool, ghost key: Bytes) returns (ok: bool)
      requires Mapped() && KeyIs(keyData, key) && isKeyEncoded == keyData.InLog? && |key| < TWO_31
      requires output.position + |EncData(key)| <= output.size
      requires keyData.InLog? ==> keyData.offset + keyData.size <= output.position
      modifies output, file
      ensures Mapped() && ok && output.position == old(output.position) + |EncData(key)|
      ensures file[..] == Overwritten(old(file[..]), 4 + old(output.position), EncData(key))
    {
      hide Overwritten, EncData;
      match keyData
      case InLog(offset, size) =>
        ok := output.WriteRawData(file[4 + offset..4 + offset + size]);
      case Raw(bytes) =>
        ok := output.WriteData(bytes);
    }

    /** The log ends behind the bytes just written: updateCRCDigest over them, and the size words. */
    method GrowLog(size: nat, ghost rec: Bytes)
      requires Mapped() && output.position == actualSize + size && |rec| == size
      requires LogOf(file[..], actualSize + size)[actualSize..] == rec
      requires crcDigest == Crc32(0, Log()) && metaInfo == metaFile && metaInfo.version >= VERSION_ACTUAL_SIZE
      modifies this`actualSize, this`crcDigest, this`metaInfo, this`metaFile, file
      ensures Shape() && Log() == old(Log()) + rec
      ensures State() == Written(old(State()), old(actualSize) + size, Crc32(old(crcDigest), rec), false)
    {
      hide Overwritten, Fixed32, Crc32;
      ghost var m, n := file[..], actualSize;
      actualSize := actualSize + size;
      crcDigest := Crc32(crcDigest, file[4 + actualSize - size..4 + actualSize]);
      SplitLog(m, n, size);
      CrcChains(0, LogOf(m, n), rec);
      WriteActualSize(actualSize, crcDigest, false);
      SizeWordApart(m, file[..], n + size);
    }

    /** doAppendDataWithKey. An encoded key is read from the log when it is written, after the room has been made. */
    method DoAppendDataWithKey(data: Bytes, keyData: KeyData, isDataHolder: bool, originKeyLength: nat, disk: nat,
                               ghost key: Bytes)
      returns (ok: bool, holder: Holder, ghost s: Bytes)
      requires Valid() && disk < TWO_32 && key != [] && originKeyLength == |key| && KeyIs(keyData, key)
      requires Lengths(|key|, |StoredValue(data, isDataHolder)|)
      requires keyData.InLog? ==> HasRoom(|EncRecord(key, StoredValue(data, isDataHolder))|)
                                  && keyData.offset + keyData.size <= actualSize
      modifies this, file, output
      ensures fresh({file, output} - {old(file), old(output)}) && dic.Keys == old(dic.Keys)
      ensures ok == old(CanPut(Abs(), key, StoredValue(data, isDataHolder), disk))
      ensures !ok ==> Valid() && Abs() == old(Abs())
      ensures ok ==> Shape() && Appended(s, Log(), dic, key, StoredValue(data, isDataHolder), holder)
      ensures ok ==> Behind(s, old(Put(Abs(), key, StoredValue(data, isDataHolder))), old(Map()))
    {
      hide Crc32, Fixed32, Overwritten, Contents, Logged, EncRecord, EncData, RawVarint32Size, MakeHolder, CanMakeRoom,
           MadeRoom, Put;
      ghost var stored := StoredValue(data, isDataHolder);
      RecordSizes(data, isDataHolder, key);
      var isKeyEncoded := originKeyLength < KeyLength(keyData);
      var valueLength := |data|;
      if isDataHolder {
        valueLength := valueLength + RawVarint32Size(valueLength);
      }
      var size := if isKeyEncoded then KeyLength(keyData) else KeyLength(keyData) + RawVarint32Size(KeyLength(keyData));
      size := size + valueLength + RawVarint32Size(valueLength);
      EncodedKeyIsLonger(keyData, key);
      ok := EnsureMemorySize(size, disk);
      holder, s := Holder(0, 0, 0, 0), [];
      if ok {
        ghost var room := Abs();
        BehindRoom(old(Abs()), room, key, stored);
        LoggedSound(Log(), dic);
        holder, s := AppendRecord(data, keyData, isKeyEncoded, isDataHolder, originKeyLength, valueLength, size, key);
      }
    }

    /** The log is s and a record more: bytes used and file size are those of after, and s holds the map before. */
    ghost predicate Behind(s: Bytes, after: Sized, before: map<Bytes, Bytes>)
      reads this
    {
      actualSize == after.used && file.Length == after.length && Sound(s, dic) && Contents(s, dic) == before
    }

    lemma EncodedKeyIsLonger(keyData: KeyData, key: Bytes)
      requires KeyIs(keyData, key)
      ensures KeyLength(keyData) == if keyData.InLog? then |EncData(key)| else |key|
    {
      hide EncData;
    }

    /** The record is written where there is room for it, and the log grows over it. */
    method AppendRecord(data: Bytes, keyData: KeyData, isKeyEncoded: bool, isDataHolder: bool, originKeyLength: nat,
                        valueLength: nat, size: nat, ghost key: Bytes)
      returns (holder: Holder, ghost s: Bytes)
      requires Valid() && actualSize > 0 && originKeyLength == |key| && KeyIs(keyData, key)
      requires isKeyEncoded == keyData.InLog?
      requires |key| < TWO_31 && |data| < TWO_31
      requires valueLength == |StoredValue(data, isDataHolder)| < TWO_31
      requires size == |EncRecord(key, StoredValue(data, isDataHolder))| < output.size - output.position
      requires keyData.InLog? ==> keyData.offset + keyData.size <= actualSize
      modifies this`actualSize, this`crcDigest, this`metaInfo, this`metaFile, file, output
      ensures Shape() && Appended(s, Log(), dic, key, StoredValue(data, isDataHolder), holder)
      ensures s == old(Log()) && actualSize == old(actualSize) + size
      ensures State() == AppendedCache(old(State()), EncRecord(key, StoredValue(data, isDataHolder)))
    {
      hide Crc32, Fixed32, Overwritten, Logged, EncRecord, EncData, RawVarint32Size, MakeHolder, StoredValue;
      var offset := actualSize;
      s := Log();
      ghost var m, rec := file[..], EncRecord(key, StoredValue(data, isDataHolder));
      WriteRecord(data, keyData, isKeyEncoded, isDataHolder, valueLength, key);
      WrittenBehind(m, file[..], offset, rec);
      GrowLog(size, rec);
      holder := MakeHolder(originKeyLength, valueLength, offset);
    }

    // ---- The public operations

    lemma FileIsThere()
      requires Valid()
      ensures PAGE_SIZE <= file.Length < TWO_32 && Abs().length == file.Length && metaInfo == metaFile
    {
      hide Logged, Contents;
    }

    lemma RoomIsLeft(n: nat, key: Bytes)
      requires Valid() && key in dic && n < output.size - output.position
      ensures HasRoom(n) && RoomLeft(Abs(), n)
    {
      hide Logged, Crc32, Contents;
      assert key in dic.Keys;
      SizesAgree();
    }

    /** The index tells where in the log a key's encoding is. */
    lemma KeyInStore(key: Bytes)
      requires Valid() && key in dic
      ensures key != [] && dic[key].keySize == |key| && dic[key].offset + |EncData(key)| <= actualSize
      ensures KeyIs(InLog(dic[key].offset, |EncData(key)|), key)
    {
      hide Crc32, Fixed32, EncData, Logged;
      KeyInLog(Log(), dic, key);
      KeyInFile(file[..], actualSize, dic[key].offset, |EncData(key)|);
    }

    /** appendDataWithKey for a key of the index: its encoding is taken from its older record. */
    method AppendWithHolder(data: Bytes, key: Bytes, isDataHolder: bool, disk: nat)
      returns (ok: bool, holder: Holder, ghost s: Bytes)
      requires Valid() && key in dic && disk < TWO_32 && Lengths(|key|, |StoredValue(data, isDataHolder)|)
      modifies this, file, output
      ensures fresh({file, output} - {old(file), old(output)}) && dic.Keys == old(dic.Keys)
      ensures ok == old(CanPut(Abs(), key, StoredValue(data, isDataHolder), disk))
      ensures !ok ==> Valid() && Abs() == old(Abs())
      ensures ok ==> Shape() && Appended(s, Log(), dic, key, StoredValue(data, isDataHolder), holder)
      ensures ok ==> Behind(s, old(Put(Abs(), key, StoredValue(data, isDataHolder))), old(Map()))
    {
      hide Crc32, Fixed32, Overwritten, Contents, Logged, EncRecord, EncData, RawVarint32Size, IsEntry, CanExtend,
           LiveSize, ExtendedSize, KeyIs, StoredValue, Appended, Shape, Stored, Behind, MadeRoom, Put;
      RecordSizes(data, isDataHolder, key);
      KeyInStore(key);
      var keyLength := dic[key].keySize;
      var rawKeySize := keyLength + RawVarint32Size(keyLength);
      var valueLength := |data|;
      if isDataHolder {
        valueLength := valueLength + RawVarint32Size(valueLength);
      }
      var size := rawKeySize + valueLength + RawVarint32Size(valueLength);
      assert size == |EncRecord(key, StoredValue(data, isDataHolder))|;
      FileIsThere();
      ok := EnsureMemorySize(size, disk);
      holder, s := Holder(0, 0, 0, 0), [];
      if ok {
        assert key in dic.Keys;
        KeyInStore(key);
        RoomIsLeft(size, key);
        PutAfterRoom(old(Abs()), Abs(), key, StoredValue(data, isDataHolder), disk);
        var keyData := InLog(dic[key].offset, rawKeySize);
        ok, holder, s := DoAppendDataWithKey(data, keyData, isDataHolder, keyLength, disk, key);
      }
    }

    /** The index gets the holder of the record that has been appended to the log s. */
    method EnterHolder(key: Bytes, holder: Holder, ghost s: Bytes, ghost value: Bytes, ghost before: Sized)
      requires Shape() && Appended(s, Log(), dic, key, value, holder) && key != [] && value != []
      requires Lengths(|key|, |value|)
      requires before.length > 0 && Behind(s, Put(before, key, value), before.contents)
      modifies this`dic, this`hasFullWriteback
      ensures Valid() <==> Fits(|key|, |value|)
      ensures Valid() ==> Abs() == Put(before, key, value)
    {
      hide Crc32, Fixed32, Contents, Logged, EncRecord, Fits, Appended, Sound, Put;
      AppendedIndex(s, Log(), dic, key, value, holder);
      StoredPut(before, key, value);
      dic := dic[key := holder];
      hasFullWriteback := false;
    }

    /** m_hasFullWriteback is reset. */
    method Touch()
      requires Valid()
      modifies this`hasFullWriteback
      ensures Valid() && Abs() == old(Abs())
    {
      hide Logged, Contents, Crc32;
      hasFullWriteback := false;
    }

    lemma RemovalIsFit(key: Bytes)
      requires Valid() && key in dic
      ensures Fits(|key|, 0) && Lengths(|key|, 0)
    {
      hide Crc32, Fixed32, Contents;
      RemovalFits(Log(), dic, key);
    }

    /** The index loses the key whose removal has been appended to the log s. */
    method EraseHolder(key: Bytes, holder: Holder, ghost s: Bytes, ghost before: Sized)
      requires Shape() && Appended(s, Log(), dic, key, [], holder) && key != [] && Lengths(|key|, 0) && Fits(|key|, 0)
      requires before.length > 0 && Behind(s, Put(before, key, []), before.contents)
      modifies this`dic
      ensures Valid() && Abs() == Put(before, key, [])
    {
      hide Crc32, Fixed32, Contents, Logged, EncRecord, Fits, Appended, Sound, Put;
      AppendedIndex(s, Log(), dic, key, [], holder);
      StoredPut(before, key, []);
      dic := dic - {key};
    }

    /**
     setDataForKey: the record is put, or nothing changes. A record that does not fit its holder is put all the
     same, and then, and only then, the store is not in order afterwards.
     */
    method SetDataForKey(data: Bytes, key: Bytes, isDataHolder: bool, disk: nat) returns (ok: bool)
      requires Valid() && disk < TWO_32 && Lengths(|key|, |StoredValue(data, isDataHolder)|)
      modifies this, file, output
      ensures fresh({file, output} - {old(file), old(output)})
      ensures ok == (key != [] && (isDataHolder || data != [])
                     && old(CanPut(Abs(), key, StoredValue(data, isDataHolder), disk)))
      ensures Valid() <==> !ok || Fits(|key|, |StoredValue(data, isDataHolder)|)
      ensures Valid() ==> Abs() == if ok then old(Put(Abs(), key, StoredValue(data, isDataHolder))) else old(Abs())
    {
      hide Crc32, Fixed32, Overwritten, Contents, Logged, EncRecord, EncData, Fits, Appended, CanPut, Put, StoredValue,
           Shape, Behind;
      FileIsThere();
      if (!isDataHolder && |data| == 0) || key == [] {
        return false;
      }
      StoredIsNotEmpty(data, isDataHolder);
      var holder;
      ghost var s;
      if key in dic {
        ok, holder, s := AppendWithHolder(data, key, isDataHolder, disk);
      } else {
        ok, holder, s := DoAppendDataWithKey(data, Raw(key), isDataHolder, |key|, disk, key);
      }
      if ok {
        EnterHolder(key, holder, s, StoredValue(data, isDataHolder), old(Abs()));
      }
    }

    /** removeDataForKey: a record without a value is appended. */
    method RemoveDataForKey(key: Bytes, disk: nat) returns (ok: bool)
      requires Valid() && disk < TWO_32
      modifies this, file, output
      ensures Valid() && fresh({file, output} - {old(file), old(output)})
      ensures ok == (key in old(Map()) && old(CanPut(Abs(), key, [], disk)))
      ensures Abs() == if ok then old(Put(Abs(), key, [])) else old(Abs())
    {
      hide Crc32, Fixed32, Overwritten, Contents, Logged, EncRecord, EncData, Fits, Appended, CanPut, Put, Shape,
           Behind;
      MapKeys();
      FileIsThere();
      if key == [] {
        MapHasNoEmptyKey();
        return false;
      }
      ok := false;
      if key in dic {
        Touch();
        RemovalIsFit(key);
        var holder;
        ghost var s;
        ok, holder, s := AppendWithHolder([], key, false, disk);
        if ok {
          EraseHolder(key, holder, s, old(Abs()));
        }
      }
    }

    lemma MapKeys()
      requires Valid()
      ensures Map().Keys == dic.Keys
    {
      hide Logged, ValueOf;
    }

    /** getDataForKey. */
    method GetDataForKey(key: Bytes) returns (found: bool, value: Bytes)
      requires Valid()
      ensures found == (key in Map()) && (found ==> value == Map()[key])
    {
      hide Crc32, Fixed32, Logged, Contents, ValueOf;
      found, value := key in dic, [];
      MapKeys();
      if found {
        var h := dic[key];
        LoggedSound(Log(), dic);
        ValueInFile(file[..], actualSize, dic, key);
        ContentsAt(Log(), dic, key);
        value := file[4 + h.offset + h.computedKVSize..4 + h.offset + h.computedKVSize + h.valueSize];
      }
    }

    /** set and getString: a string is a data holder. */
    method SetString(value: Bytes, key: Bytes, disk: nat) returns (ok: bool)
      requires Valid() && disk < TWO_32 && Lengths(|key|, |EncData(value)|)
      modifies this, file, output
      ensures fresh({file, output} - {old(file), old(output)})
      ensures ok == (key != [] && old(CanPut(Abs(), key, EncData(value), disk)))
      ensures Valid() <==> !ok || Fits(|key|, |EncData(value)|)
      ensures Valid() ==> Abs() == if ok then old(Put(Abs(), key, EncData(value))) else old(Abs())
    {
      hide CanPut, Put, EncRecord, EncData, Fits, Contents;
      if key == [] {
        return false;
      }
      ok := SetDataForKey(value, key, true, disk);
    }

    /** getString reads back every string that was set, the empty one too. */
    method GetString(key: Bytes) returns (found: bool, value: Bytes)
      requires Valid()
      ensures key !in Map() ==> !found
      ensures forall str: Bytes :: key in Map() && Map()[key] == EncData(str) && |str| < TWO_31 && key != []
                                   ==> found && value == str
    {
      hide EncData, Crc32, Fixed32, Logged, Contents;
      found, value := false, [];
      if key == [] {
        MapHasNoEmptyKey();
        return;
      }
      var data;
      found, data := GetDataForKey(key);
      if found && |data| > 0 {
        var input := new CodedInputData(data);
        var r := input.ReadData();
        found := r.Data?;
        if found {
          value := data[r.start..r.next];
        }
        forall str: Bytes | data == EncData(str) && |str| < TWO_31
          ensures found && value == str { StringIsReadBack(str); }
      } else {
        found := false;
        forall str: Bytes ensures data != EncData(str) || !(key in Map()) { StringIsNotEmpty(str); }
      }
    }

    lemma MapHasNoEmptyKey()
      requires Valid()
      ensures [] !in Map()
    {
      LoggedSound(Log(), dic);
      forall k | k in dic ensures k != [] { assert IsEntry(Log(), k, dic[k]); }
    }

    /** removeValuesForKeys: the keys leave the index, and the rest of the log is rewritten. */
    method RemoveValuesForKeys(keys: seq<Bytes>, disk: nat)
      requires Valid() && disk < TWO_32
      modifies this, file, output
      ensures Valid() && fresh({file, output} - {old(file), old(output)})
      ensures |keys| != 1 ==> Abs() == Without(old(Abs()), keys, disk)
      ensures |keys| == 1 ==>
                Abs() == if keys[0] in old(Map()) && old(CanPut(Abs(), keys[0], [], disk))
                         then old(Put(Abs(), keys[0], [])) else old(Abs())
    {
      hide Crc32, Fixed32, Overwritten, Contents, Logged, Sound, PageRounded, CanPut, Put, LiveSize;
      LoggedSound(Log(), dic);
      if keys == [] {
        return;
      }
      if |keys| == 1 {
        var ok := RemoveDataForKey(keys[0], disk);
        return;
      }
      RemoveSeveral(keys, disk);
    }

    method RemoveSeveral(keys: seq<Bytes>, disk: nat)
      requires Valid() && disk < TWO_32
      modifies this, file, output
      ensures Valid() && fresh({file, output} - {old(file), old(output)})
      ensures Abs() == Without(old(Abs()), keys, disk)
    {
      hide Crc32, Fixed32, Overwritten, Contents, Logged, Sound, PageRounded, LiveSize, RewrittenSize, Writable, Mapped,
           Shape;
      BasicShape();
      ghost var before := dic;
      var deleteCount := EraseKeys(keys);
      Lightened(before, keys);
      if deleteCount > 0 {
        hasFullWriteback := false;
        FullWriteback(disk);
      }
    }

    /** The index is that of the map m, whose records are somewhere in the log. */
    ghost predicate Lighter(m: map<Bytes, Bytes>)
      reads this`file, this`output, this`actualSize, this`metaInfo, this`metaFile, this`dic, file, output
    {
      && Writable() && Mapped() && metaInfo.version >= VERSION_SEQUENCE && actualSize > 0
      && Stock() == m && RewrittenSize(dic) == LiveSize(m) && (m == map[] <==> |dic| == 0)
    }

    /** The index has lost keys: what is left is lighter, and the stored map is less just when the index is. */
    lemma Lightened(before: Index, keys: seq<Bytes>)
      requires Shape() && Logged(Log(), before) && dic == before - (set k | k in keys)
      ensures Sound(Log(), before)
      ensures var m := Contents(Log(), before); var rest := m - (set k | k in keys);
              (rest == m <==> dic == before) && (dic != before ==> Lighter(rest))
    {
      hide Crc32, Fixed32, Contents, Sound, LiveSize, RewrittenSize, SizeWordFits;
      LoggedEmpty(Log(), before);
      FewerSound(Log(), before, dic, keys);
      FewerSizes(Log(), before, dic, keys);
    }

    lemma BasicShape()
      requires Shape()
      ensures FIXED_32_SIZE + actualSize <= file.Length
    {
    }

    method EraseKeys(keys: seq<Bytes>) returns (deleteCount: nat)
      modifies this`dic
      ensures dic == old(dic) - (set k | k in keys) && (deleteCount == 0 <==> dic == old(dic))
    {
      deleteCount := 0;
      for i := 0 to |keys|
        invariant dic == old(dic) - (set k | k in keys[..i]) && (deleteCount == 0 ==> dic == old(dic))
        invariant deleteCount > 0 ==> exists k :: k in old(dic) && k !in dic
      {
        assert keys[..i + 1] == keys[..i] + [keys[i]];
        if keys[i] in dic {
          dic := dic - {keys[i]};
          deleteCount := deleteCount + 1;
        }
      }
      assert keys[..|keys|] == keys;
    }

    /** fullWriteback on an index that may have lost keys; without keys everything is cleared. */
    method FullWriteback(disk: nat)
      requires Writable() && Mapped() && metaInfo.version >= VERSION_SEQUENCE && !hasFullWriteback && disk < TWO_32
      requires actualSize == 0 ==> Valid()
      modifies this, file
      ensures Valid() && fresh({file, output} - {old(file), old(output)}) && Map() == old(Stock())
      ensures actualSize == if |old(dic)| == 0 then 0 else RewrittenSize(old(dic))
      ensures file.Length == if |old(dic)| == 0 && disk >= PAGE_SIZE then PAGE_SIZE else old(file.Length)
    {
      hide Crc32, Fixed32, Overwritten, Contents, Logged, Sound, PackedSize, PageRounded, RewrittenSize;
      if |dic| == 0 {
        ClearAll(disk);
        NoContents(Log(), old(Log()), dic);
      } else {
        var vec, sizeOfDic := PrepareEncode();
        ghost var ks := DoFullWriteBack(vec, sizeOfDic);
      }
    }

    /** clearAll: the log is emptied in a file of one page, unless it is that already. */
    method ClearAll(disk: nat)
      requires PAGE_SIZE <= file.Length < TWO_32 && metaInfo == metaFile && disk < TWO_32
      requires actualSize == 0 ==> Valid()
      modifies this, file
      ensures Valid() && fresh({file, output} - {old(file), old(output)}) && dic == map[] && Map() == map[]
      ensures actualSize == 0 && file.Length == if disk >= PAGE_SIZE then PAGE_SIZE else old(file.Length)
      ensures old(file.Length != PAGE_SIZE || actualSize != 0) ==> metaInfo.sequence == old(metaInfo.sequence) + 1
      ensures old(file.Length == PAGE_SIZE && actualSize == 0) ==> unchanged(this)
    {
      hide Crc32, Fixed32, Overwritten, PageRounded;
      if file.Length == PAGE_SIZE && actualSize == 0 {
        NothingIn();
        return;
      }
      OnePage();
      var ok := Truncate(PAGE_SIZE, disk);
      ghost var m0 := file[..];
      WriteActualSize(0, 0, true);
      SizeWordApart(m0, file[..], 0);
      needLoadFromFile := false;
      ClearMemoryCache();
      ghost var m := file[..];
      ClearedReloads(m, metaFile);
      LoadFromFile();
      NothingToCheck();
      assert Log() == [];
      NothingIn();
    }

    lemma NothingIn()
      requires Valid() && actualSize == 0
      ensures dic == map[] && Map() == map[]
    {
      hide Crc32, Fixed32;
      assert Log() == [];
    }
  }

  datatype KeyData = Raw(bytes: Bytes) | InLog(offset: nat, size: nat)

  function KeyLength(k: KeyData): nat {
    match k
    case Raw(bytes) => |bytes|
    case InLog(_, size) => size
  }

  /** The log is s with the record of key and value behind it; dic is still the index of s. */
  ghost predicate Appended(s: Bytes, log: Bytes, dic: Index, key: Bytes, value: Bytes, h: Holder) {
    s != [] && Logged(s, dic) && log == s + EncRecord(key, value)
    && |value| < TWO_32 && h == MakeHolder(|key|, |value|, |s|)
  }

  lemma LoggedIsNotEmpty(s: Bytes, dic: Index)
    requires Logged(s, dic) && |dic| > 0
    ensures s != []
  {
  }

  lemma PrefixLog(m: Bytes, m': Bytes, n: nat)
    requires 4 + n <= |m| <= |m'| && m'[..|m|] == m
    ensures LogOf(m', n) == LogOf(m, n)
  {
    forall i | 0 <= i < n ensures LogOf(m', n)[i] == LogOf(m, n)[i] {
      assert m'[4 + i] == m'[..|m|][4 + i];
    }
  }

  lemma AppendedParts(s: Bytes, log: Bytes, dic: Index, key: Bytes, value: Bytes, h: Holder)
    requires Appended(s, log, dic, key, value, h)
    ensures log == s + EncRecord(key, value) != [] && |s| >= 4 && Agrees(s, dic) && Sound(s, dic)
    ensures |value| < TWO_32 && h == MakeHolder(|key|, |value|, |s|)
  {
    hide EncRecord, Agrees, MakeHolder;
    LoggedSound(s, dic);
  }

  /** The holders of an index that is right for a log are those of records that fit. */
  lemma HoldersFit(log: Bytes, dic: Index, key: Bytes, valueLength: nat, offset: nat)
    requires Logged(log, dic) && key in dic && valueLength < TWO_31
    requires dic[key] == MakeHolder(|key|, valueLength, offset)
    ensures Fits(|key|, valueLength)
  {
    hide Agrees;
    assert IsEntry(log, key, dic[key]);
  }

  /** Lengths that a varint can say. */
  predicate Lengths(keyLength: nat, valueLength: nat) {
    keyLength < TWO_31 && valueLength < TWO_31
  }

  lemma StoredPut(s: Sized, key: Bytes, value: Bytes)
    requires s.length > 0
    ensures Put(s, key, value).contents == if value != [] then s.contents[key := value] else s.contents - {key}
  {
  }

  /** The index after the append. */
  lemma AppendedIndex(s: Bytes, log: Bytes, dic: Index, key: Bytes, value: Bytes, h: Holder)
    requires Appended(s, log, dic, key, value, h) && key != [] && Lengths(|key|, |value|) && |log| < TWO_32
    ensures value != [] ==> (Logged(log, dic[key := h]) <==> Fits(|key|, |value|))
    ensures value != [] && Fits(|key|, |value|) ==> Contents(log, dic[key := h]) == Contents(s, dic)[key := value]
    ensures value == [] && Fits(|key|, 0)
            ==> Logged(log, dic - {key}) && Contents(log, dic - {key}) == Contents(s, dic) - {key}
  {
    hide Appended, Agrees, Sound, Contents, EncRecord, Fits, MakeHolder;
    AppendedParts(s, log, dic, key, value, h);
    if !Fits(|key|, |value|) {
      if value != [] && Logged(log, dic[key := h]) { HoldersFit(log, dic[key := h], key, |value|, |s|); }
      return;
    }
    HolderIsExact(|key|, |value|, |s|);
    AppendAgrees(s, dic, key, value);
    AppendSound(s, dic, key, value);
  }

  lemma StoredIsNotEmpty(data: Bytes, isDataHolder: bool)
    requires isDataHolder || data != []
    ensures MMKV.StoredValue(data, isDataHolder) != []
  {
  }

  lemma StringIsNotEmpty(str: Bytes)
    ensures EncData(str) != []
  {
  }

  lemma StringIsReadBack(str: Bytes)
    requires |str| < TWO_31
    ensures var r := ReadDelimited(EncData(str), 0); r.Data? && EncData(str)[r.start..r.next] == str
  {
    assert HasAt(EncData(str), 0, EncData(str));
    ReadBackData(EncData(str), 0, str);
  }

  /** The encoding of a key of the index is in the log. */
  lemma KeyInLog(log: Bytes, dic: Index, key: Bytes)
    requires Logged(log, dic) && key in dic
    ensures dic[key].keySize == |key| && key != [] && dic[key].offset + |EncData(key)| <= |log|
    ensures log[dic[key].offset..dic[key].offset + |EncData(key)|] == EncData(key) && log != []
  {
    assert IsEntry(log, key, dic[key]);
    HasParts(log, dic[key].offset, EncData(key), Enc(dic[key].valueSize));
  }

  lemma KeyInFile(file: Bytes, n: nat, offset: nat, size: nat)
    requires 4 + n <= |file| && offset + size <= n
    ensures file[4 + offset..4 + offset + size] == LogOf(file, n)[offset..offset + size]
  {
    LogSlice(file, LogOf(file, n), offset, size);
  }

  lemma ValueInFile(file: Bytes, n: nat, dic: Index, key: Bytes)
    requires 4 + n <= |file| && Sound(LogOf(file, n), dic) && key in dic
    ensures var h := dic[key]; var i := 4 + h.offset + h.computedKVSize;
            i + h.valueSize <= |file| && file[i..i + h.valueSize] == ValueOf(LogOf(file, n), h)
  {
    hide Enc;
    assert IsEntry(LogOf(file, n), key, dic[key]);
    hide IsEntry;
    KeyInFile(file, n, dic[key].offset + dic[key].computedKVSize, dic[key].valueSize);
  }

  lemma ContentsAt(log: Bytes, dic: Index, key: Bytes)
    requires Sound(log, dic) && key in dic
    ensures key in Contents(log, dic) && Contents(log, dic)[key] == ValueOf(log, dic[key])
  {
    hide ValueOf, IsEntry;
  }

  /** A removal of a key of the index fits its holder. */
  lemma RemovalFits(log: Bytes, dic: Index, key: Bytes)
    requires Logged(log, dic) && key in dic
    ensures Fits(|key|, 0) && Lengths(|key|, 0)
  {
    assert IsEntry(log, key, dic[key]);
    SizeAtMost5(dic[key].valueSize);
    assert |Enc(0)| == 1;
  }

  lemma LoggedEmpty(s: Bytes, dic: Index)
    requires Logged(s, dic)
    ensures Sound(s, dic) && (|s| < 4 ==> |s| == 0) && (|s| == 0 ==> dic == map[])
  {
  }

  /** Fewer keys leave a sound index, with fewer values. */
  lemma FewerSound(s: Bytes, dic: Index, dic': Index, keys: seq<Bytes>)
    requires Sound(s, dic) && dic' == dic - (set k | k in keys)
    ensures Sound(s, dic') && Contents(s, dic') == Contents(s, dic) - (set k | k in keys)
  {
    hide IsEntry, ValueOf;
    var c, c' := Contents(s, dic) - (set k | k in keys), Contents(s, dic');
    forall k ensures k in c <==> k in c' { }
    forall k | k in c ensures c[k] == c'[k] { }
  }

  lemma FewerSizes(s: Bytes, dic: Index, dic': Index, keys: seq<Bytes>)
    requires Sound(s, dic) && Sound(s, dic') && dic' == dic - (set k | k in keys)
    requires Contents(s, dic') == Contents(s, dic) - (set k | k in keys)
    ensures RewrittenSize(dic') == LiveSize(Contents(s, dic'))
    ensures (Contents(s, dic') == map[] <==> |dic'| == 0) && (Contents(s, dic') == Contents(s, dic) <==> dic' == dic)
  {
    hide Sound, Contents, RewrittenSize, LiveSize;
    RewrittenIsLive(s, dic');
    ContentsKeys(s, dic);
    EmptyMaps(Contents(s, dic'), dic');
    if dic'.Keys == dic.Keys { SameKeys(dic, dic', set k | k in keys); }
  }

  lemma EmptyMaps(m: map<Bytes, Bytes>, dic: Index)
    requires m.Keys == dic.Keys
    ensures (m == map[] <==> |dic| == 0) && |m| == |dic|
  {
    assert |m.Keys| == |m| && |dic.Keys| == |dic|;
    if |dic| == 0 { assert dic.Keys == {}; }
  }

  lemma SameKeys(dic: Index, dic': Index, ks: set<Bytes>)
    requires dic' == dic - ks && dic'.Keys == dic.Keys
    ensures dic' == dic
  {
  }

  lemma NoContents(s: Bytes, t: Bytes, dic: Index)
    requires |dic| == 0
    ensures dic == map[] && Sound(s, dic) && Sound(t, dic) && Contents(s, dic) == Contents(t, dic)
  {
    NothingStored(s, t);
  }

  /** A file whose size has been set to 0 loads as empty. */
  lemma ClearedReloads(file: Bytes, meta: Meta)
    requires 8 <= |file| < TWO_32 && file[..4] == Fixed32(0) && meta.actualSize == 0 && meta.crcDigest == 0
    requires meta.version >= VERSION_SEQUENCE
    ensures Reloaded(file, meta) == Cache(file, meta, map[], 0, 0)
  {
    NothingToCheck();
    hide Crc32;
    assert LogOf(file, 0) == [];
    ValidReloads(file, meta, map[], 0);
  }

  lemma DataParts(b: Bytes)
    ensures EncData(b) == Enc(|b|) + b
  {
  }

  lemma SplitLog(m: Bytes, n: nat, size: nat)
    requires 4 + n + size <= |m|
    ensures LogOf(m, n + size) == LogOf(m, n) + LogOf(m, n + size)[n..]
    ensures m[4 + n..4 + n + size] == LogOf(m, n + size)[n..]
  {
  }

  /** What has been written behind the log is its end. */
  lemma WrittenBehind(m: Bytes, m': Bytes, n: nat, rec: Bytes)
    requires 4 + n + |rec| <= |m| && m' == Overwritten(m, 4 + n, rec)
    ensures LogOf(m', n) == LogOf(m, n) && LogOf(m', n + |rec|)[n..] == rec && m'[..4] == m[..4]
  {
  }

  /** The sizes that are added up are those of the record. */
  lemma RecordSizes(data: Bytes, isDataHolder: bool, key: Bytes)
    requires Lengths(|key|, |MMKV.StoredValue(data, isDataHolder)|)
    ensures |key| < TWO_31 && |data| < TWO_31 && |MMKV.StoredValue(data, isDataHolder)| < TWO_31
    ensures |MMKV.StoredValue(data, isDataHolder)| == |data| + if isDataHolder then RawVarint32Size(|data|) else 0
    ensures |EncData(key)| == RawVarint32Size(|key|) + |key| > |key|
    ensures |EncRecord(key, MMKV.StoredValue(data, isDataHolder))|
            == |EncData(key)| + |MMKV.StoredValue(data, isDataHolder)|
            + RawVarint32Size(|MMKV.StoredValue(data, isDataHolder)|)
  {
    hide Enc, RawVarint32Size;
    RawVarint32SizeIsLength(|key|);
    RawVarint32SizeIsLength(|MMKV.StoredValue(data, isDataHolder)|);
    if isDataHolder { RawVarint32SizeIsLength(|data|); }
  }

  /** The log, or 4 bytes of blank file before anything has been logged. */
  ghost function LogBytes(file: Bytes, n: nat): Bytes
    requires 4 + n <= |file| && 8 <= |file|
  {
    file[4..4 + if n == 0 then 4 else n]
  }

  lemma LogBytesSound(file: Bytes, n: nat, dic: Index)
    requires 4 + n <= |file| && 8 <= |file| && Sound(LogOf(file, n), dic) && (n < 4 ==> n == 0)
    requires n == 0 ==> dic == map[]
    ensures var s := LogBytes(file, n); Sound(s, dic) && 4 <= |s| && Contents(s, dic) == Contents(LogOf(file, n), dic)
    ensures 4 + |LogBytes(file, n)| <= |file| && LogBytes(file, n) == file[4..4 + |LogBytes(file, n)|]
  {
    hide IsEntry, End;
    if n == 0 { NothingStored(LogBytes(file, n), LogOf(file, n)); }
  }

  lemma NothingStored(s: Bytes, t: Bytes)
    ensures Sound(s, map[]) && Sound(t, map[]) && Contents(s, map[]) == Contents(t, map[])
  {
    assert Contents(s, map[]) == map[] == Contents(t, map[]);
  }

  lemma RepackedHasKeys(dic: Index, ks: seq<Bytes>)
    requires Lists(dic, ks)
    ensures Repacked(dic, ks).Keys == dic.Keys
  {
    forall k ensures k in Repacked(dic, ks) <==> k in dic { RepackedKeys(dic, ks, k); }
  }

  lemma LogAfter(m: Bytes, m': Bytes, log: Bytes)
    requires 4 + |log| <= |m| && m' == Overwritten(m, 4, log)
    ensures LogOf(m', |log|) == log && m'[..4] == m[..4]
  {
  }

  /** Writing the size word leaves the log alone. */
  lemma SizeWordApart(m: Bytes, m': Bytes, n: nat)
    requires 4 + n <= |m| && m' == Overwritten(m, 0, Fixed32(n))
    ensures LogOf(m', n) == LogOf(m, n) && m'[..4] == Fixed32(n)
  {
  }

  /** A valid state is judged good as it is. */
  lemma ValidReloads(file: Bytes, meta: Meta, dic: Index, n: nat)
    requires 4 <= |file| && 4 + n <= |file| < TWO_32 && SizeWordFits(file, meta, n) && Logged(LogOf(file, n), dic)
    requires meta.actualSize == n && meta.crcDigest == Crc32(0, LogOf(file, n)) && meta.version >= VERSION_SEQUENCE
    ensures Reloaded(file, meta)
            == Cache(if n > 0 then file else Overwritten(file, 0, Fixed32(0)), meta, dic, n, meta.crcDigest)
  {
    SizeWordReads(file, meta, n);
    hide Crc32, ReplayLog, Fixed32, ReadFixed32, SizeWordFits;
    assert CheckDataValid(file, meta) == Load(n, meta.crcDigest, false);
    if n > 0 {
      assert LogOf(file, n) != [];
      assert Decoded(LogOf(file, n), 0, false, map[]) == dic;
    } else {
      assert LogOf(file, 0) == [] && Crc32(0, []) == 0 by { NothingToCheck(); }
    }
  }

  lemma SameTail(m: Bytes, m': Bytes, n: nat)
    requires |m| == |m'| && 4 + n <= |m| && m[4..] == m'[4..]
    ensures LogOf(m, n) == LogOf(m', n)
  {
    assert LogOf(m, n) == m[4..][..n] && LogOf(m', n) == m'[4..][..n];
  }

  lemma SizeWordReads(file: Bytes, meta: Meta, n: nat)
    requires 4 <= |file| && n < TWO_32 && SizeWordFits(file, meta, n) && meta.actualSize == n
    ensures ActualSizeOf(file, meta) == n
  {
    Fixed32RoundTrip(n);
    if meta.version < VERSION_ACTUAL_SIZE {
      assert forall i :: 0 <= i < 4 ==> file[i] == file[..4][i];
    }
  }

  /** Writing the word that is there already changes nothing, and writing it leaves the log alone. */
  lemma RewrittenWord(file: Bytes, n: nat)
    requires |file| >= 4
    ensures Overwritten(file, 0, Fixed32(n))[4..] == file[4..] && Overwritten(file, 0, Fixed32(n))[..4] == Fixed32(n)
    ensures file[..4] == Fixed32(n) ==> Overwritten(file, 0, Fixed32(n)) == file
  {
  }

  lemma NothingToCheck()
    ensures Crc32(0, []) == 0
  {
  }

  /** The size that is loaded is in the file, and the words that a recovery repairs are not in the log. */
  lemma CheckedLog(file: Bytes, meta: Meta)
    requires |file| >= 4 && CheckDataValid(file, meta).Load?
    ensures var v, c := CheckDataValid(file, meta), Checked(file, meta);
            && InFile(file, v.size) && |c.file| == |file| && c.actualSize == v.size
            && LogOf(c.file, v.size) == LogOf(file, v.size)
  {
    hide Crc32, Fixed32, ReadFixed32, Overwritten, LogOf;
    var v := CheckDataValid(file, meta);
    if v.recovered { SizeWordApart(file, Overwritten(file, 0, Fixed32(v.size)), v.size); }
  }

  lemma BlankFile(file: Bytes)
    requires |file| >= 4 && forall i :: 0 <= i < |file| ==> file[i] == 0
    ensures ReadFixed32(file) == 0 && file[..4] == Fixed32(0) && Crc32(0, LogOf(file, 0)) == 0
    ensures Overwritten(file, 0, Fixed32(0)) == file
  {
  }
}
