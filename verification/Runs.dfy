/** Runs of one process on its store, with crashes between and inside its calls. */
module Runs {
  import opened Varints
  import opened Coded
  import opened LogFormat
  import opened Sized
  import opened Store
  import opened Recovery

  /**
   A call of a run. Reload drops the cache and reads the file again, as after a crash between two calls; a crash
   in a put or a removal cuts its append off after k stores, and the store is opened again.
   */
  datatype Call =
    | Set(key: Bytes, data: Bytes, isDataHolder: bool)
    | Remove(key: Bytes)
    | RemoveAll(keys: seq<Bytes>)
    | Clear
    | Reload
    | CrashInSet(key: Bytes, data: Bytes, isDataHolder: bool, k: nat)
    | CrashInRemove(key: Bytes, k: nat)

  /** There is something to write. */
  predicate Writes(key: Bytes, data: Bytes, isDataHolder: bool) {
    key != [] && (isDataHolder || data != [])
  }

  /** What a call makes of the store, and when it succeeds. Only a crash leaves a choice. */
  ghost predicate Does(s: Sized, call: Call, disk: nat, s': Sized, ok: bool)
    requires s.length > 0
  {
    match call
    case Set(key, data, isDataHolder) =>
      var value := MMKV.StoredValue(data, isDataHolder);
      && ok == (Writes(key, data, isDataHolder) && CanPut(s, key, value, disk))
      && s' == if ok then Put(s, key, value) else s
    case Remove(key) => Removes(s, key, disk, s', ok)
    case RemoveAll(keys) =>
      if |keys| == 1 then Removes(s, keys[0], disk, s', ok) else ok && s' == Without(s, keys, disk)
    case Clear => ok && s' == Emptied(s, disk)
    case Reload => ok && s' == s
    case CrashInSet(key, data, isDataHolder, k) =>
      if Writes(key, data, isDataHolder) then Interrupted(s, key, MMKV.StoredValue(data, isDataHolder), disk, k, s', ok)
      else !ok && s' == s
    case CrashInRemove(key, k) =>
      if key in s.contents then Interrupted(s, key, [], disk, k, s', ok) else !ok && s' == s
  }

  ghost predicate Removes(s: Sized, key: Bytes, disk: nat, s': Sized, ok: bool)
    requires s.length > 0
  {
    ok == (key in s.contents && CanPut(s, key, [], disk)) && s' == if ok then Put(s, key, []) else s
  }

  /** A record that its holder describes. */
  predicate Recordable(call: Call) {
    match call
    case Set(key, data, isDataHolder) => Fits(|key|, |MMKV.StoredValue(data, isDataHolder)|)
    case CrashInSet(key, data, isDataHolder, _) => Fits(|key|, |MMKV.StoredValue(data, isDataHolder)|)
    case _ => true
  }

  /** One call. */
  method Step(store: MMKV, call: Call, disk: nat) returns (ok: bool)
    requires store.Valid() && disk < TWO_32 && Recordable(call)
    modifies store, store.file, store.output
    ensures store.Valid() && Does(old(store.Abs()), call, disk, store.Abs(), ok)
    ensures fresh({store.file, store.output} - {old(store.file), old(store.output)})
  {
    hide MMKV.Valid, MMKV.Map, CanPut, Put, MMKV.StoredValue, Fits, EncRecord, Interrupted, Without;
    store.FileIsThere();
    match call
    case Set(key, data, isDataHolder) =>
      FitsLengths(|key|, |MMKV.StoredValue(data, isDataHolder)|);
      ok := store.SetDataForKey(data, key, isDataHolder, disk);
    case Remove(key) =>
      ok := store.RemoveDataForKey(key, disk);
    case RemoveAll(keys) =>
      ok := RemoveKeys(store, keys, disk);
    case Clear =>
      EmptyIsCleared(store, disk);
      store.ClearAll(disk);
      ok := true;
    case Reload =>
      store.Reload();
      ok := true;
    case CrashInSet(key, data, isDataHolder, k) =>
      if Writes(key, data, isDataHolder) {
        ok := CrashInPut(store, key, MMKV.StoredValue(data, isDataHolder), disk, k);
      } else {
        store.Reload();
        ok := false;
      }
    case CrashInRemove(key, k) =>
      ok := CrashInRemoval(store, key, disk, k);
  }

  lemma FitsLengths(keyLength: nat, valueLength: nat)
    requires Fits(keyLength, valueLength)
    ensures Lengths(keyLength, valueLength)
  {
  }

  /** A single key is removed by an append, which has been done if the key was there and is gone. */
  method RemoveKeys(store: MMKV, keys: seq<Bytes>, disk: nat) returns (ok: bool)
    requires store.Valid() && disk < TWO_32
    modifies store, store.file, store.output
    ensures store.Valid() && Does(old(store.Abs()), RemoveAll(keys), disk, store.Abs(), ok)
    ensures fresh({store.file, store.output} - {old(store.file), old(store.output)})
  {
    hide MMKV.Valid, MMKV.Map, CanPut, EncRecord, Without, MadeRoom;
    store.FileIsThere();
    ok := true;
    if |keys| == 1 {
      var before, _ := store.GetDataForKey(keys[0]);
      store.RemoveValuesForKeys(keys, disk);
      var after, _ := store.GetDataForKey(keys[0]);
      ok := before && !after;
    } else {
      store.RemoveValuesForKeys(keys, disk);
    }
  }

  method CrashInRemoval(store: MMKV, key: Bytes, disk: nat, k: nat) returns (ok: bool)
    requires store.Valid() && disk < TWO_32
    modifies store, store.file, store.output
    ensures store.Valid() && Does(old(store.Abs()), CrashInRemove(key, k), disk, store.Abs(), ok)
    ensures fresh({store.file, store.output} - {old(store.file), old(store.output)})
  {
    hide MMKV.Valid, MMKV.Map, CanPut, Put, EncRecord, Interrupted, Fits;
    store.FileIsThere();
    var found, _ := store.GetDataForKey(key);
    if found {
      KeyFits(store, key);
      ok := CrashInPut(store, key, [], disk, k);
    } else {
      store.Reload();
      ok := false;
    }
  }

  lemma KeyFits(store: MMKV, key: Bytes)
    requires store.Valid() && key in store.Map()
    ensures key != [] && Fits(|key|, 0)
  {
    hide MMKV.Valid, MMKV.Map, Fits;
    store.MapKeys();
    store.RemovalIsFit(key);
    store.MapHasNoEmptyKey();
  }

  /** clearAll does nothing to a store that is empty in one page, which is what it makes of every other. */
  lemma EmptyIsCleared(store: MMKV, disk: nat)
    requires store.Valid()
    ensures PAGE_SIZE <= store.file.Length < TWO_32 && store.metaInfo == store.metaFile
    ensures store.actualSize == 0 ==> store.Map() == map[]
  {
    hide MMKV.Valid, MMKV.Map;
    store.FileIsThere();
    if store.actualSize == 0 { store.NothingIn(); }
  }

  // ---- Runs

  /** The moments of a run: an empty store at first, and then call by call. */
  ghost predicate History(h: seq<Sized>, calls: seq<Call>, oks: seq<bool>, size: nat, disk: nat) {
    && |h| == |calls| + 1 == |oks| + 1 && h[0] == Sized(map[], 0, PageRounded(size))
    && forall i: nat :: i < |calls| ==> Follows(h, calls, oks, disk, i)
  }

  ghost predicate Follows(h: seq<Sized>, calls: seq<Call>, oks: seq<bool>, disk: nat, i: nat)
    requires |h| == |calls| + 1 == |oks| + 1 && i < |calls|
  {
    h[i].length > 0 && Does(h[i], calls[i], disk, h[i + 1], oks[i])
  }

  lemma HistoryGrows(h: seq<Sized>, calls: seq<Call>, oks: seq<bool>, size: nat, disk: nat, call: Call, next: Sized,
                     ok: bool)
    requires History(h, calls, oks, size, disk) && h[|calls|].length > 0 && Does(h[|calls|], call, disk, next, ok)
    ensures History(h + [next], calls + [call], oks + [ok], size, disk)
  {
    hide Does, PageRounded;
    var h', calls', oks' := h + [next], calls + [call], oks + [ok];
    forall i: nat | i < |calls'| ensures Follows(h', calls', oks', disk, i) {
      if i < |calls| { assert Follows(h, calls, oks, disk, i); }
    }
  }

  /**
   Every run from a new store, through rewrites, extensions, reloads and crashes, goes call by call as the machine
   on maps and sizes does: index and log stay in agreement, each call succeeds just when the machine's does, and
   map, bytes used and file size are the machine's.
   */
  method Run(size: nat, calls: seq<Call>, disk: nat) returns (store: MMKV, oks: seq<bool>, ghost h: seq<Sized>)
    requires PageRounded(size) < TWO_32 && disk < TWO_32
    requires forall c :: c in calls ==> Recordable(c)
    ensures store.Valid() && History(h, calls, oks, size, disk) && store.Abs() == h[|calls|]
  {
    hide MMKV.Valid, MMKV.Map, MMKV.Abs, Recordable, Does, PageRounded, History;
    store := new MMKV(size);
    oks, h := [], [store.Abs()];
    NewHistory(h, size, disk);
    assert calls[..0] == [];
    for n := 0 to |calls|
      invariant fresh(store) && fresh(store.file) && fresh(store.output)
      invariant store.Valid() && History(h, calls[..n], oks, size, disk) && |h| == n + 1 && store.Abs() == h[n]
    {
      assert calls[n] in calls;
      store.FileIsThere();
      var ok := Step(store, calls[n], disk);
      HistoryGrows(h, calls[..n], oks, size, disk, calls[n], store.Abs(), ok);
      h, oks := h + [store.Abs()], oks + [ok];
      assert calls[..n] + [calls[n]] == calls[..n + 1];
    }
    assert calls[..|calls|] == calls;
  }

  lemma NewHistory(h: seq<Sized>, size: nat, disk: nat)
    requires h == [Sized(map[], 0, PageRounded(size))]
    ensures History(h, [], [], size, disk)
  {
  }

  // ---- What a user of a run relies on

  /** What is stored is what the calls that succeeded have put there; a failed call changes nothing that is stored. */
  lemma OnlyWhatWasAsked(s: Sized, call: Call, disk: nat, s': Sized, ok: bool)
    requires s.length > 0 && Does(s, call, disk, s', ok)
    ensures !ok ==> s'.contents == s.contents
    ensures ok ==> s'.contents == Asked(s.contents, call)
  {
    hide LiveSize, EncRecord, CanExtend, ExtendedSize, MMKV.StoredValue;
    match call
    case RemoveAll(keys) => if |keys| == 1 { assert (set k | k in keys) == {keys[0]}; }
    case Set(key, data, isDataHolder) => ValueIsThere(data, isDataHolder);
    case CrashInSet(key, data, isDataHolder, _) =>
      if Writes(key, data, isDataHolder) { ValueIsThere(data, isDataHolder); }
    case _ =>
  }

  lemma ValueIsThere(data: Bytes, isDataHolder: bool)
    ensures isDataHolder || data != [] ==> MMKV.StoredValue(data, isDataHolder) != []
  {
  }

  function Asked(m: map<Bytes, Bytes>, call: Call): map<Bytes, Bytes> {
    match call
    case Set(key, data, isDataHolder) => m[key := MMKV.StoredValue(data, isDataHolder)]
    case CrashInSet(key, data, isDataHolder, _) => m[key := MMKV.StoredValue(data, isDataHolder)]
    case Remove(key) => m - {key}
    case CrashInRemove(key, _) => m - {key}
    case RemoveAll(keys) => m - (set k | k in keys)
    case Clear => map[]
    case Reload => m
  }
}
