/** Several processes on one store: they follow the shared log by its sequence number and its running checksum. */
module Sharing {
  import opened Varints
  import opened Coded
  import opened LogFormat
  import opened Compaction
  import opened Checksum
  import opened MapCoder
  import opened Sized
  import opened Store

  /** The mapped file and the meta record that all processes share. */
  datatype Shared = Shared(file: Bytes, meta: Meta)

  /**
   The cache of one process: m_needLoadFromFile, the size it has mapped, m_dic, m_actualSize, m_crcDigest,
   m_metaInfo.
   */
  datatype Proc = Proc(needLoad: bool, fileSize: nat, dic: Index, actualSize: nat, crc: nat, meta: Meta)

  datatype World = World(shared: Shared, procs: seq<Proc>)

  // ---- Loading

  /** clearMemoryCache and loadFromFile; on a store that is in order nothing is written. */
  function FullLoad(sh: Shared): Proc
    requires |sh.file| >= 4
  {
    var c := Reloaded(sh.file, sh.meta);
    Proc(false, |sh.file|, c.dic, c.actualSize, c.crc, c.meta)
  }

  /** partialLoadFromFile: the new end of the log is checked and replayed on the cached index. */
  function PartialLoad(sh: Shared, p: Proc): Proc
    requires |sh.file| >= 4
  {
    var n := ActualSizeOf(sh.file, sh.meta);
    if n > 0 && InFile(sh.file, n) && n > p.actualSize
       && Crc32(p.crc, sh.file[4 + p.actualSize..4 + n]) == sh.meta.crcDigest then
      p.(dic := Decoded(LogOf(sh.file, n), p.actualSize, true, p.dic), actualSize := n, crc := sh.meta.crcDigest,
         meta := sh.meta)
    else FullLoad(sh)
  }

  /** checkLoadData, with the lock held. */
  function CheckLoadData(sh: Shared, p: Proc): Proc
    requires |sh.file| >= 4
  {
    if p.needLoad then FullLoad(sh)
    else if p.meta.sequence != sh.meta.sequence then FullLoad(sh)
    else if p.meta.crcDigest != sh.meta.crcDigest then
      if p.fileSize != |sh.file| then FullLoad(sh) else PartialLoad(sh, p)
    else p
  }

  // ---- What holds in every state

  function LogIn(sh: Shared, n: nat): Bytes
    requires 4 + n <= |sh.file|
  {
    LogOf(sh.file, n)
  }

  /**
   The shared store is initialised and in order: its log replays without an exception to an index of whole
   records.
   */
  ghost predicate SharedOk(sh: Shared) {
    var n := sh.meta.actualSize;
    && 4 <= n && 4 + n <= |sh.file| < TWO_32 && sh.meta.version >= VERSION_ACTUAL_SIZE
    && HasAt(LogIn(sh, n), 0, HEADER) && ReplayLog(LogIn(sh, n), map[]).ok
    && Sound(LogIn(sh, n), ReplayLog(LogIn(sh, n), map[]).dic)
    && sh.meta.crcDigest == Crc32(0, LogIn(sh, n))
  }

  /** The index that the whole shared log stands for. */
  ghost function SharedIndex(sh: Shared): Index
    requires SharedOk(sh)
  {
    ReplayLog(LogIn(sh, sh.meta.actualSize), map[]).dic
  }

  /** The cached log is the first p.actualSize bytes of the shared log, and p.dic its index. */
  ghost predicate CachesPrefix(sh: Shared, p: Proc)
    requires SharedOk(sh)
  {
    && 4 <= p.actualSize <= sh.meta.actualSize
    && p.crc == Crc32(0, LogIn(sh, p.actualSize))
    && ReplayLog(LogIn(sh, p.actualSize), map[]) == Replayed(p.dic, true)
  }

  /** Equal sequence numbers imply that the cached log is a prefix of the shared one. */
  ghost predicate ProcOk(sh: Shared, p: Proc)
    requires SharedOk(sh)
  {
    p.needLoad ||
    (&& p.meta.sequence <= sh.meta.sequence && p.meta.crcDigest == p.crc
     && (p.meta.sequence == sh.meta.sequence
         ==> CachesPrefix(sh, p) && p.meta == sh.meta.(crcDigest := p.crc, actualSize := p.actualSize)))
  }

  ghost predicate Inv(w: World) {
    SharedOk(w.shared) && forall i :: 0 <= i < |w.procs| ==> ProcOk(w.shared, w.procs[i])
  }

  /** Two different prefixes of the log do not have the same checksum. */
  ghost predicate NoCollision(sh: Shared, p: Proc)
    requires SharedOk(sh)
  {
    p.actualSize < sh.meta.actualSize ==> Crc32(0, LogIn(sh, p.actualSize)) != sh.meta.crcDigest
  }

  /** The process has the whole shared log, and its index is the replay of it. */
  ghost predicate Synced(sh: Shared, p: Proc)
    requires SharedOk(sh)
  {
    && !p.needLoad && p.actualSize == sh.meta.actualSize && p.crc == sh.meta.crcDigest
    && p.meta == sh.meta && p.dic == SharedIndex(sh)
  }

  // ---- checkLoadData

  lemma FullLoadSyncs(sh: Shared)
    requires SharedOk(sh)
    ensures |sh.file| >= 4 && Synced(sh, FullLoad(sh))
  {
    hide Crc32, ReplayLog, HasAt, Sound;
    var n := sh.meta.actualSize;
    assert CheckDataValid(sh.file, sh.meta) == Load(n, sh.meta.crcDigest, false);
  }

  /** Replaying only the new end on the index of the prefix is replaying the whole log. */
  lemma SuffixReplay(log: Bytes, n: nat, dic: Index)
    requires 4 <= n <= |log| && HasAt(log, 0, HEADER) && ReplayLog(log[..n], map[]) == Replayed(dic, true)
    ensures ReplayLog(log, map[]) == Replay(log, n, dic)
  {
    assert log == log[..n] + log[n..];
    assert log[..n][0..4] == log[0..4];
    ReplayFrom4(log[..n], map[]);
    ReplayFrom4(log, map[]);
    ReplayExtends(log[..n], 4, map[], log[n..]);
  }

  lemma PartialLoadSyncs(sh: Shared, p: Proc)
    requires SharedOk(sh) && !p.needLoad && CachesPrefix(sh, p) && p.actualSize < sh.meta.actualSize
    ensures Synced(sh, PartialLoad(sh, p))
  {
    hide Crc32, ReplayLog, Replay, Sound;
    var n, log := sh.meta.actualSize, LogIn(sh, sh.meta.actualSize);
    var m := p.actualSize;
    PrefixOfLog(sh.file, m, n);
    CrcChains(0, log[..m], log[m..]);
    assert log == log[..m] + log[m..];
    SuffixReplay(log, m, p.dic);
  }

  lemma PrefixOfLog(file: Bytes, m: nat, n: nat)
    requires m <= n && 4 + n <= |file|
    ensures LogOf(file, m) == LogOf(file, n)[..m] && file[4 + m..4 + n] == LogOf(file, n)[m..]
  {
  }

  /**
   After checkLoadData, with the lock still held, the index of the process is the replay of the whole
   shared log, however it got there, unless two prefixes of the log have the same checksum.
   */
  lemma CheckLoadDataSyncs(sh: Shared, p: Proc)
    requires SharedOk(sh) && ProcOk(sh, p)
    requires !p.needLoad && p.meta.sequence == sh.meta.sequence ==> NoCollision(sh, p)
    ensures |sh.file| >= 4 && Synced(sh, CheckLoadData(sh, p))
  {
    hide Crc32, ReplayLog, FullLoad, PartialLoad, Sound;
    FullLoadSyncs(sh);
    if !p.needLoad && p.meta.sequence == sh.meta.sequence {
      if p.meta.crcDigest != sh.meta.crcDigest {
        if p.fileSize == |sh.file| {
          PartialLoadSyncs(sh, p);
        }
      } else {
        assert p.actualSize == sh.meta.actualSize;
      }
    }
  }

  // ---- Steps

  /** The map that the shared log stands for. */
  ghost function SharedMap(sh: Shared): map<Bytes, Bytes>
    requires SharedOk(sh)
  {
    Contents(LogIn(sh, sh.meta.actualSize), SharedIndex(sh))
  }

  /** Process p, which has the whole log, appends a record; there is room for it. */
  function Append(sh: Shared, p: Proc, rec: Bytes): Shared
    requires 4 + p.actualSize + |rec| <= |sh.file|
  {
    var c := AppendedCache(Cache(sh.file, sh.meta, p.dic, p.actualSize, p.crc), rec);
    Shared(c.file, c.meta)
  }

  function AfterAppend(sh: Shared, p: Proc, key: Bytes, value: Bytes): Proc
    requires 4 + p.actualSize <= |sh.file| && 4 + p.actualSize + |EncRecord(key, value)| <= |sh.file|
  {
    p.(dic := Indexed(LogIn(sh, p.actualSize), p.dic, key, value), actualSize := p.actualSize + |EncRecord(key, value)|,
       crc := Crc32(p.crc, EncRecord(key, value)), meta := Append(sh, p, EncRecord(key, value)).meta)
  }

  /** The shared store after process p has rewritten the log as log, in a file of length bytes. */
  ghost predicate Rewritten(sh: Shared, sh': Shared, log: Bytes, length: nat)
    requires |sh.file| >= 4
  {
    && |sh.file| <= length == |sh'.file| < TWO_32 && 4 + |log| <= length
    && LogIn(sh', |log|) == log
    && sh'.meta == SizeWritten(sh.meta, |log|, Crc32(0, log), true)
  }

  lemma AppendKeepsShared(sh: Shared, p: Proc, key: Bytes, value: Bytes)
    requires SharedOk(sh) && Synced(sh, p) && key != [] && Fits(|key|, |value|)
    requires 4 + p.actualSize + |EncRecord(key, value)| < |sh.file|
    ensures var sh' := Append(sh, p, EncRecord(key, value));
            && SharedOk(sh') && Synced(sh', AfterAppend(sh, p, key, value))
            && SharedMap(sh') == Stored(SharedMap(sh), key, value)
            && sh'.meta.actualSize >= sh.meta.actualSize && |sh'.file| == |sh.file|
            && sh'.meta == sh.meta.(crcDigest := sh'.meta.crcDigest, actualSize := sh'.meta.actualSize)
            && (forall m :: 0 <= m <= sh.meta.actualSize ==> LogIn(sh', m) == LogIn(sh, m))
  {
    hide Crc32, ReplayLog, Sound, EncRecord, Fits, Overwritten, Fixed32, Contents, HasAt, Indexed;
    var n, rec, log := sh.meta.actualSize, EncRecord(key, value), LogIn(sh, sh.meta.actualSize);
    var sh' := Append(sh, p, rec);
    AppendedLog(sh.file, sh'.file, n, rec);
    assert Agrees(log, p.dic);
    assert |log| == n;
    AppendAgrees(log, p.dic, key, value);
    AppendSound(log, p.dic, key, value);
    CrcChains(0, log, rec);
    assert log + rec == LogIn(sh', n + |rec|);
  }

  lemma AppendedLog(file: Bytes, file': Bytes, n: nat, rec: Bytes)
    requires 4 + n + |rec| <= |file|
    requires file' == Overwritten(Overwritten(file, 4 + n, rec), 0, Fixed32(n + |rec|))
    ensures LogOf(file', n + |rec|) == LogOf(file, n) + rec
    ensures forall m :: 0 <= m <= n ==> LogOf(file', m) == LogOf(file, m)
  {
    var bytes := Overwritten(file, 4 + n, rec);
    WrittenBehind(file, bytes, n, rec);
    SplitLog(bytes, n, |rec|);
    SizeWordApart(bytes, file', n + |rec|);
    forall m | 0 <= m <= n ensures LogOf(file', m) == LogOf(file, m) {
      assert LogOf(file', m) == LogOf(file', n + |rec|)[..m];
      assert LogOf(file, m) == LogOf(file, n)[..m];
    }
  }

  lemma RewriteKeepsShared(sh: Shared, sh': Shared, p: Proc, ks: seq<Bytes>, length: nat)
    requires SharedOk(sh) && Synced(sh, p) && Lists(p.dic, ks) && Within(LogIn(sh, sh.meta.actualSize), p.dic, ks)
    requires Rewritten(sh, sh', HEADER + Packed(LogIn(sh, sh.meta.actualSize), p.dic, ks), length)
    ensures SharedOk(sh') && SharedMap(sh') == SharedMap(sh) && sh'.meta.sequence == sh.meta.sequence + 1
    ensures SharedIndex(sh') == Repacked(p.dic, ks)
  {
    hide Crc32, ReplayLog, Sound, Packed, Repacked, Lists, Contents, Within;
    CompactionPreserves(LogIn(sh, sh.meta.actualSize), p.dic, ks);
  }

  function AfterRewrite(sh': Shared, p: Proc, dic: Index): Proc {
    Proc(false, |sh'.file|, dic, sh'.meta.actualSize, sh'.meta.crcDigest, sh'.meta)
  }

  ghost predicate ReadStep(w: World, w': World, i: nat)
    requires Inv(w) && i < |w.procs|
  {
    w' == World(w.shared, w.procs[i := CheckLoadData(w.shared, w.procs[i])])
  }

  /** A set, or with an empty value a remove: under the exclusive lock, the check and then the append. */
  ghost predicate WriteStep(w: World, w': World, i: nat, key: Bytes, value: Bytes)
    requires Inv(w) && i < |w.procs|
  {
    var sh, p := w.shared, CheckLoadData(w.shared, w.procs[i]);
    && key != [] && Fits(|key|, |value|) && 4 + p.actualSize + |EncRecord(key, value)| < |sh.file|
    && w' == World(Append(sh, p, EncRecord(key, value)), w.procs[i := AfterAppend(sh, p, key, value)])
  }

  /** A full rewrite under the exclusive lock; the sequence number does not wrap. */
  ghost predicate RewriteStep(w: World, w': World, i: nat, ks: seq<Bytes>, length: nat)
    requires Inv(w) && i < |w.procs|
  {
    var sh, p := w.shared, CheckLoadData(w.shared, w.procs[i]);
    && Lists(p.dic, ks) && 4 + p.actualSize <= |sh.file| && Within(LogIn(sh, p.actualSize), p.dic, ks)
    && sh.meta.sequence + 1 < TWO_32
    && Rewritten(sh, w'.shared, HEADER + Packed(LogIn(sh, p.actualSize), p.dic, ks), length)
    && w'.procs == w.procs[i := AfterRewrite(w'.shared, p, Repacked(p.dic, ks))]
  }

  /** clearMemoryCache. */
  ghost predicate ClearStep(w: World, w': World, i: nat)
    requires Inv(w) && i < |w.procs|
  {
    && w'.shared == w.shared && |w'.procs| == |w.procs| && w'.procs[i].needLoad
    && w'.procs == w.procs[i := w'.procs[i]]
  }

  ghost predicate Next(w: World, w': World)
    requires Inv(w)
  {
    exists i :: 0 <= i < |w.procs| && NextOf(w, w', i)
  }

  ghost predicate NextOf(w: World, w': World, i: nat)
    requires Inv(w) && i < |w.procs|
  {
    || ReadStep(w, w', i)
    || ClearStep(w, w', i)
    || (exists key, value :: WriteStep(w, w', i, key, value))
    || (exists ks, length :: RewriteStep(w, w', i, ks, length))
  }

  /** No process of w is misled by a checksum. */
  ghost predicate NoCollisions(w: World)
    requires Inv(w)
  {
    forall i :: 0 <= i < |w.procs| && !w.procs[i].needLoad && w.procs[i].meta.sequence == w.shared.meta.sequence ==>
      NoCollision(w.shared, w.procs[i])
  }

  lemma SyncedIsOk(sh: Shared, p: Proc)
    requires SharedOk(sh) && Synced(sh, p)
    ensures ProcOk(sh, p)
  {
    hide Crc32, ReplayLog, Sound;
  }

  /** The caches of the other processes stay prefixes through an append, and fall behind through a rewrite. */
  lemma OthersStayOk(sh: Shared, sh': Shared, p: Proc)
    requires SharedOk(sh) && SharedOk(sh') && ProcOk(sh, p)
    requires || sh'.meta.sequence == sh.meta.sequence + 1
             || (&& sh'.meta.actualSize >= sh.meta.actualSize
                 && sh'.meta == sh.meta.(crcDigest := sh'.meta.crcDigest, actualSize := sh'.meta.actualSize)
                 && forall m :: 0 <= m <= sh.meta.actualSize ==> LogIn(sh', m) == LogIn(sh, m))
    ensures ProcOk(sh', p)
  {
    hide Crc32, ReplayLog, Sound;
  }

  /** Every step keeps the invariant. */
  lemma StepKeepsInv(w: World, w': World, i: nat)
    requires Inv(w) && NoCollisions(w) && i < |w.procs| && NextOf(w, w', i)
    ensures Inv(w')
  {
    hide SharedOk, ProcOk, Synced, NoCollision, Rewritten, Append, AfterAppend, CheckLoadData, Fits, EncRecord, Packed,
         Repacked, Lists, Within;
    var sh, p := w.shared, w.procs[i];
    CheckLoadDataSyncs(sh, p);
    SyncedIsOk(sh, CheckLoadData(sh, p));
    if exists key, value :: WriteStep(w, w', i, key, value) {
      var key, value :| WriteStep(w, w', i, key, value);
      WriteKeepsInv(w, w', i, key, value);
    } else if exists ks, length :: RewriteStep(w, w', i, ks, length) {
      var ks, length :| RewriteStep(w, w', i, ks, length);
      RewriteKeepsInv(w, w', i, ks, length);
    } else if ClearStep(w, w', i) {
      ClearKeepsInv(w, w', i);
    }
  }

  lemma ClearKeepsInv(w: World, w': World, i: nat)
    requires Inv(w) && i < |w.procs| && ClearStep(w, w', i)
    ensures Inv(w')
  {
    hide SharedOk;
  }

  lemma WriteKeepsInv(w: World, w': World, i: nat, key: Bytes, value: Bytes)
    requires Inv(w) && i < |w.procs| && Synced(w.shared, CheckLoadData(w.shared, w.procs[i]))
    requires WriteStep(w, w', i, key, value)
    ensures Inv(w')
  {
    hide SharedOk, ProcOk, Synced, Append, AfterAppend, CheckLoadData, Fits, EncRecord;
    var sh, p := w.shared, CheckLoadData(w.shared, w.procs[i]);
    AppendKeepsShared(sh, p, key, value);
    SyncedIsOk(w'.shared, w'.procs[i]);
    forall j | 0 <= j < |w.procs| && j != i ensures ProcOk(w'.shared, w'.procs[j]) {
      OthersStayOk(sh, w'.shared, w.procs[j]);
    }
  }

  lemma RewriteKeepsInv(w: World, w': World, i: nat, ks: seq<Bytes>, length: nat)
    requires Inv(w) && i < |w.procs| && Synced(w.shared, CheckLoadData(w.shared, w.procs[i]))
    requires RewriteStep(w, w', i, ks, length)
    ensures Inv(w')
  {
    hide SharedOk, ProcOk, CheckLoadData, Packed, Repacked, Lists, Within, Rewritten;
    var sh, p := w.shared, CheckLoadData(w.shared, w.procs[i]);
    RewriteKeepsShared(sh, w'.shared, p, ks, length);
    SyncedIsOk(w'.shared, w'.procs[i]);
    forall j | 0 <= j < |w.procs| && j != i ensures ProcOk(w'.shared, w'.procs[j]) {
      OthersStayOk(sh, w'.shared, w.procs[j]);
    }
  }

  // ---- Runs

  /** A run of steps by any of the processes, without checksum collisions. */
  ghost predicate IsRun(ws: seq<World>) {
    && (forall k :: 0 <= k < |ws| && Inv(ws[k]) ==> NoCollisions(ws[k]))
    && (forall k :: 0 <= k < |ws| - 1 && Inv(ws[k]) ==> Next(ws[k], ws[k + 1]))
  }

  /** Every state of a run that starts in order is in order; so every check of it ends with the whole log. */
  lemma {:induction false} RunKeepsInv(ws: seq<World>, k: nat)
    requires IsRun(ws) && k < |ws| && Inv(ws[0])
    ensures Inv(ws[k])
    ensures forall i :: 0 <= i < |ws[k].procs| ==> Synced(ws[k].shared, CheckLoadData(ws[k].shared, ws[k].procs[i]))
  {
    if k > 0 {
      RunKeepsInv(ws, k - 1);
      var w, w' := ws[k - 1], ws[k];
      assert ws[k - 1 + 1] == w';
      hide NextOf, Synced, SharedOk, ProcOk;
      var i :| 0 <= i < |w.procs| && NextOf(w, w', i);
      StepKeepsInv(w, w', i);
    }
    hide NoCollision, Synced, SharedOk, ProcOk, CheckLoadData;
    forall i | 0 <= i < |ws[k].procs| ensures Synced(ws[k].shared, CheckLoadData(ws[k].shared, ws[k].procs[i])) {
      CheckLoadDataSyncs(ws[k].shared, ws[k].procs[i]);
    }
  }

  // ---- The store of a process

  ghost function SharedOf(store: MMKV): Shared
    reads store, store.file
  {
    Shared(store.file[..], store.metaFile)
  }

  ghost function ProcOf(store: MMKV): Proc
    reads store
  {
    Proc(store.needLoadFromFile, store.file.Length, store.dic, store.actualSize, store.crcDigest, store.metaInfo)
  }

  /** A valid store with a log is a shared store in order, and its own process has the whole log. */
  lemma ValidIsSynced(store: MMKV)
    requires store.Valid() && store.actualSize > 0 && !store.needLoadFromFile
    ensures SharedOk(SharedOf(store)) && Synced(SharedOf(store), ProcOf(store))
    ensures SharedMap(SharedOf(store)) == store.Map()
  {
    hide Crc32, ReplayLog, Sound, Contents;
    LoggedEmpty(store.Log(), store.dic);
  }

  /** A process that has the whole log has a valid store. */
  lemma SyncedIsValid(store: MMKV)
    requires PAGE_SIZE <= store.file.Length && store.Mapped() && store.output.position == store.actualSize
    requires SharedOk(SharedOf(store)) && Synced(SharedOf(store), ProcOf(store))
    ensures store.Valid() && store.Map() == SharedMap(SharedOf(store))
  {
    hide Crc32, ReplayLog, Sound, Contents;
  }

  /** partialLoadFromFile. */
  method PartialLoadFromFile(store: MMKV)
    requires PAGE_SIZE <= store.file.Length < TWO_32 && !store.needLoadFromFile && store.Mapped()
    requires store.output.position == store.actualSize
    modifies store, store.file, store.output
    ensures ProcOf(store) == PartialLoad(old(SharedOf(store)), old(ProcOf(store)))
    ensures store.file == old(store.file) && store.Mapped() && store.output.position == store.actualSize
    ensures SharedOk(old(SharedOf(store))) ==> SharedOf(store) == old(SharedOf(store))
  {
    hide Crc32, Decoded, ActualSizeOf, Reloaded;
    ghost var sh := SharedOf(store);
    store.metaInfo := store.metaFile;
    var oldActualSize := store.actualSize;
    store.actualSize := ActualSizeOf(store.file[..], store.metaInfo);
    if store.actualSize > 0 {
      if InFile(store.file[..], store.actualSize) {
        if store.actualSize > oldActualSize {
          var addedSize := store.actualSize - oldActualSize;
          store.crcDigest := Crc32(store.crcDigest, store.file[4 + oldActualSize..4 + store.actualSize]);
          if store.crcDigest == store.metaInfo.crcDigest {
            store.dic := DecodeOneMap(LogOf(store.file[..], store.actualSize), oldActualSize, true, store.dic);
            var ok := store.output.Seek(addedSize);
            store.hasFullWriteback := false;
            return;
          }
        }
      }
    }
    LoadAgain(store, store.file);
  }

  /** clearMemoryCache and loadFromFile, which maps the file as it is on the disk now. */
  method LoadAgain(store: MMKV, onDisk: array<Byte>)
    requires PAGE_SIZE <= onDisk.Length < TWO_32 && (store.needLoadFromFile ==> store.dic == map[])
    modifies store, onDisk
    ensures ProcOf(store) == FullLoad(Shared(old(onDisk[..]), old(store.metaFile))) && store.file == onDisk
    ensures fresh(store.output)
    ensures store.Mapped() && store.output.position == store.actualSize
    ensures SharedOk(Shared(old(onDisk[..]), old(store.metaFile)))
            ==> SharedOf(store) == Shared(old(onDisk[..]), old(store.metaFile))
  {
    hide Reloaded, SharedOk;
    store.ClearMemoryCache();
    store.file := onDisk;
    GoodStays(SharedOf(store));
    store.LoadFromFile();
  }

  /** Loading a shared store that is in order writes nothing. */
  lemma GoodStays(sh: Shared)
    requires |sh.file| >= 4
    ensures SharedOk(sh) ==> Reloaded(sh.file, sh.meta).file == sh.file && Reloaded(sh.file, sh.meta).meta == sh.meta
  {
    hide Crc32, ReplayLog, Sound, HasAt;
  }

  /**
   checkLoadData, with the lock held; the mapping is that of the file on the disk unless its size has changed.
   Afterwards the process is where the machine's is, and on a shared store in order it has a valid store with the
   shared map.
   */
  method CheckLoad(store: MMKV, onDisk: array<Byte>)
    requires PAGE_SIZE <= onDisk.Length < TWO_32 && (store.needLoadFromFile ==> store.dic == map[])
    requires !store.needLoadFromFile ==> store.Mapped() && store.output.position == store.actualSize
    requires !store.needLoadFromFile && store.file.Length == onDisk.Length ==> store.file == onDisk
    modifies store, store.output, onDisk
    ensures ProcOf(store) == CheckLoadData(Shared(old(onDisk[..]), old(store.metaFile)), old(ProcOf(store)))
    ensures var sh := Shared(old(onDisk[..]), old(store.metaFile)); var p := old(ProcOf(store));
            SharedOk(sh) && ProcOk(sh, p) && (!p.needLoad && p.meta.sequence == sh.meta.sequence ==> NoCollision(sh, p))
            && (p.meta.sequence == sh.meta.sequence && !p.needLoad
                ==> p.fileSize == |sh.file| || p.meta.crcDigest != sh.meta.crcDigest)
            ==> store.Valid() && SharedOf(store) == sh && store.Map() == SharedMap(sh)
  {
    hide FullLoad, PartialLoad, Synced, SharedOk, ProcOk, NoCollision;
    ghost var sh, p := Shared(onDisk[..], store.metaFile), ProcOf(store);
    if store.needLoadFromFile {
      LoadAgain(store, onDisk);
    } else if store.metaInfo.sequence != store.metaFile.sequence {
      LoadAgain(store, onDisk);
    } else if store.metaInfo.crcDigest != store.metaFile.crcDigest {
      if store.file.Length != onDisk.Length {
        LoadAgain(store, onDisk);
      } else {
        PartialLoadFromFile(store);
      }
    }
    if SharedOk(sh) && ProcOk(sh, p) && (!p.needLoad && p.meta.sequence == sh.meta.sequence ==> NoCollision(sh, p)) {
      CheckLoadDataSyncs(sh, p);
      if SharedOf(store) == sh { SyncedIsValid(store); }
    }
  }

  /** doFullWriteBack of a process that has the whole log is the rewrite of the machine. */
  method RewriteLog(store: MMKV, vec: seq<Bytes>, totalSize: nat) returns (ghost ks: seq<Bytes>)
    requires store.Valid() && store.actualSize > 0 && !store.needLoadFromFile && store.metaInfo.sequence + 1 < TWO_32
    requires Distinct(vec) && (forall k :: k in vec <==> k in store.dic) && totalSize == 4 + PackedSize(store.dic, vec)
    modifies store, store.file
    ensures store.Valid() && store.Map() == old(store.Map())
    ensures Rewritten(old(SharedOf(store)), SharedOf(store), store.Log(), store.file.Length)
    ensures Compacted(old(store.Log()), old(store.dic), store.Log(), store.dic, ks)
    ensures ProcOf(store) == AfterRewrite(SharedOf(store), old(ProcOf(store)), store.dic)
  {
    hide Crc32, Fixed32, Contents, Logged, Sound, Compacted, Lists, Packed, Repacked, PackedSize;
    LoggedEmpty(store.Log(), store.dic);
    assert LogBytes(store.file[..], store.actualSize) == store.Log();
    ks := store.DoFullWriteBack(vec, totalSize);
  }

  /** An append of a store is the append of the machine. */
  lemma AppendIsShared(c: Cache, rec: Bytes, store: MMKV)
    requires 4 + c.actualSize + |rec| <= |c.file| && store.State() == AppendedCache(c, rec)
    requires store.metaFile == store.metaInfo
    ensures SharedOf(store) == Append(Shared(c.file, c.meta), Proc(false, |c.file|, c.dic, c.actualSize, c.crc, c.meta),
                                      rec)
  {
    hide AppendedCache;
  }
}
