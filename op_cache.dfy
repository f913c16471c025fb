/**
  The cache object: an in-memory map visible to every read, a separate map
  of the entries set with `persist`, and the backing file that mirrors the
  latter.  Every method is proved against the functions of module
  Persistence and OrderedMap.
 */
module OpCache {
  import opened Results
  import opened Json
  import OrderedMap
  import opened Snapshot
  import opened Persistence

  /** The file at the cache's resolved path.  Caches built on the same path share it. */
  class BackingFile {
    var state: File

    constructor (state: File)
      ensures this.state == state
    {
      this.state := state;
    }
  }

  /** How far a file is from a well-formed snapshot: a load recurses only on corrupt entries. */
  function Rank(file: File): nat {
    if file.Holds? && Classify(file.doc) == CorruptEntries then 1 else 0
  }

  /** `items.findIndex(([k]) => k === key)`. */
  method FindIndex(items: seq<Value>, key: Value) returns (index: int)
    requires AllArrays(items)
    ensures index == KeyIndex(items, key)
  {
    index := 0;
    while index < |items| && EntryKey(items[index]) != key
      invariant 0 <= index <= |items|
      invariant forall j | 0 <= j < index :: EntryKey(items[j]) != key
    {
      index := index + 1;
    }
    if index == |items| {
      index := -1;
    }
  }

  /** The `reduce` that collects the members that are not arrays, pushing each onto the accumulator. */
  method CorruptedItems(items: seq<Value>) returns (corrupted: seq<Value>)
    ensures corrupted == NonArrays(items)
  {
    corrupted := [];
    for i := 0 to |items|
      invariant corrupted == NonArrays(items[..i])
    {
      assert items[..i + 1][..i] == items[..i];
      if !items[i].Arr? {
        corrupted := corrupted + [items[i]];
      }
    }
    assert items[..|items|] == items;
  }

  class OPCache {
    const options: Options
    const disk: BackingFile
    /** The field `map`: everything visible to reads. */
    var store: seq<Pair>
    /** The entries set with `persist`; the file mirrors these. */
    var persistantMap: seq<Pair>

    ghost predicate Valid()
      reads this
    {
      && OrderedMap.DistinctKeys(store)
      && OrderedMap.DistinctKeys(persistantMap)
      && (!Persistent(options) ==> persistantMap == [])
    }

    /** Stores the options; `New` runs the rest of the JavaScript constructor. */
    constructor (options: Options, disk: BackingFile)
      ensures this.options == options && this.disk == disk
      ensures store == [] && persistantMap == []
    {
      this.options := options;
      this.disk := disk;
      store := [];
      persistantMap := [];
    }

    /** `new OPCache(options)`: `processOptions` then `createMap`; a throw from either means no
        cache is returned.  The file and the result follow `Open`. */
    static method New(options: Options, disk: BackingFile) returns (r: Result<OPCache, Error>)
      modifies disk
      ensures var o := Open(options, old(disk.state));
        && disk.state == o.file
        && (r.Ok? <==> o.result.Ok?)
        && (r.Err? ==> r.error == o.result.error)
        && (r.Ok? ==> && fresh(r.value) && r.value.Valid()
                      && r.value.options == options && r.value.disk == disk
                      && r.value.store == o.result.value && r.value.persistantMap == [])
    {
      var cache := new OPCache(options, disk);
      cache.ProcessOptions();
      var created := cache.CreateMap();
      if created.Fail? {
        return Err(created.error);
      }
      return Ok(cache);
    }

    /** With a path, make sure the file exists by writing `[]`. */
    method ProcessOptions()
      modifies disk
      ensures disk.state == if Persistent(options) then Created(old(disk.state)) else old(disk.state)
    {
      if Persistent(options) && disk.state.Absent? {
        disk.state := Holds(Arr([]));
      }
    }

    /** Start with nothing persisted; with a path, load the file, hand the data to `validate` and
        seed the map with it. */
    method CreateMap() returns (created: Outcome<Error>)
      modifies this`store, this`persistantMap, disk
      ensures var o := Open(options, old(disk.state));
        && disk.state == o.file && persistantMap == []
        && (created.Pass? <==> o.result.Ok?)
        && (created.Fail? ==> created.error == o.result.error)
        && (created.Pass? ==> store == o.result.value && Valid())
    {
      persistantMap := [];
      if Persistent(options) {
        if disk.state.Absent? {
          disk.state := Holds(Arr([]));
        }
        ghost var loadedFrom := disk.state;
        var persistedData := ReadFile();
        ReadYieldsEntryArrays(loadedFrom, [], options.throwOnCorruption);
        if persistedData.Err? {
          return Fail(persistedData.error);
        }
        if options.validate.Some? {
          var verdict := options.validate.value(persistedData.value);
          if verdict.Fail? {
            return Fail(Rejected(verdict.error));
          }
        }
        var seeded := NewMap(persistedData.value);
        if seeded.None? {
          return Fail(TypeError);
        }
        store := seeded.value;
      } else {
        store := [];
      }
      created := Pass;
    }

    /** `writeFile(data)`: with a path, replace the file with `JSON.stringify(data)`. */
    method WriteFile(data: seq<Value>)
      modifies disk
      ensures disk.state == if Persistent(options) then Written(data) else old(disk.state)
    {
      if Persistent(options) {
        disk.state := Written(data);
      }
    }

    /** `writeMemCache`: write the persisted entries, in order. */
    method WriteMemCache()
      modifies disk
      ensures disk.state == if Persistent(options) then Holds(Encode(persistantMap)) else old(disk.state)
    {
      if Persistent(options) {
        WriteFile(Entries(persistantMap));
      }
    }

    /** `tryParse`: `parsed` is what `JSON.parse` returned, `None` when it threw. */
    method TryParse(parsed: Option<Value>) returns (data: Result<Value, Error>)
      requires Persistent(options)
      modifies disk
      decreases if parsed.Some? then Rank(Holds(parsed.value)) else 0, 0
      ensures Loaded(data, disk.state) ==
        Parse(if parsed.Some? then parsed.value else Arr(Entries(persistantMap)),
              old(disk.state), persistantMap, options.throwOnCorruption)
    {
      var p := if parsed.Some? then parsed.value else Arr(Entries(persistantMap));
      var shape := Classify(p);
      if shape == NotArray {
        if options.throwOnCorruption {
          return Err(NotAnArray);
        }
        WriteMemCache();
        return Ok(p);
      } else if shape == CorruptEntries {
        if options.throwOnCorruption {
          var corrupted := CorruptedItems(p.items);
          return Err(ItemsCorrupted(corrupted));
        }
        WriteMemCache();
        EncodeIsPairList(persistantMap);
        data := ReadFile();
        return;
      }
      data := Ok(p);
    }

    /** `readFile()`: read and parse the file; an I/O error is rethrown in strict mode and answered
        with `[]` otherwise.  Without a path it returns undefined. */
    method ReadFile() returns (data: Result<Value, Error>)
      modifies disk
      decreases Rank(disk.state), 1
      ensures Persistent(options) ==>
        Loaded(data, disk.state) == Read(old(disk.state), persistantMap, options.throwOnCorruption)
      ensures !Persistent(options) ==> data == Ok(Undefined) && disk.state == old(disk.state)
    {
      if !Persistent(options) {
        return Ok(Undefined);
      }
      match disk.state
      case Absent =>
        data := ReadFailed();
      case Unreadable =>
        data := ReadFailed();
      case Garbled =>
        data := TryParse(None);
      case Holds(v) =>
        data := TryParse(Some(v));
    }

    /** The `catch` of `readFile` for an error of `readFileSync`. */
    method ReadFailed() returns (data: Result<Value, Error>)
      requires Persistent(options)
      modifies disk
      ensures Loaded(data, disk.state) == ReadFailure(old(disk.state), options.throwOnCorruption)
    {
      if options.throwOnCorruption {
        return Err(Persistence.ReadFailed);
      }
      WriteFile([]);
      data := Ok(Arr([]));
    }

    /** `persistKey`: with a path, record the entry as persisted and rewrite the whole snapshot. */
    method PersistKey(key: Value, val: Value)
      requires Valid()
      modifies this`persistantMap, disk
      ensures Valid()
      ensures Persistent(options) ==>
        persistantMap == OrderedMap.Set(old(persistantMap), key, val) && disk.state == Holds(Encode(persistantMap))
      ensures !Persistent(options) ==> persistantMap == old(persistantMap) && disk.state == old(disk.state)
    {
      if Persistent(options) {
        OrderedMap.SetShape(persistantMap, key, val);
        persistantMap := OrderedMap.Set(persistantMap, key, val);
        WriteFile(Entries(persistantMap));
      }
    }

    /** `dropPersistedKey`: with a path, forget the entry, re-read the file and remove the entry from
        what was read, as `Drop` says. */
    method DropPersistedKey(key: Value) returns (dropped: Outcome<Error>)
      requires Valid()
      modifies this`persistantMap, disk
      ensures Valid()
      ensures Persistent(options) ==>
        && persistantMap == OrderedMap.Delete(old(persistantMap), key)
        && Dropped(dropped, disk.state) == Drop(old(disk.state), persistantMap, key, options.throwOnCorruption)
      ensures !Persistent(options) ==>
        persistantMap == old(persistantMap) && disk.state == old(disk.state) && dropped == Pass
    {
      if Persistent(options) {
        OrderedMap.DeleteLookup(persistantMap, key, key);
        persistantMap := OrderedMap.Delete(persistantMap, key);
        ghost var readFrom := disk.state;
        var currentData := ReadFile();
        if currentData.Err? {
          return Fail(currentData.error);
        }
        var list := currentData.value;
        if !list.Arr? {
          return Fail(TypeError);
        }
        ReadYieldsEntryArrays(readFrom, persistantMap, options.throwOnCorruption);
        var persistedFileIndex := FindIndex(list.items, key);
        if persistedFileIndex != -1 {
          var spliced := list.items[..persistedFileIndex] + list.items[persistedFileIndex + 1..];
          WriteFile(spliced);
        } else {
          WriteMemCache();
          WriteFile(list.items);
        }
      }
      dropped := Pass;
    }

    /** `rmCacheFile`: with a path, remove the file; a missing file is not an error. */
    method RmCacheFile()
      modifies disk
      ensures disk.state == if Persistent(options) then Absent else old(disk.state)
    {
      if Persistent(options) {
        disk.state := Absent;
      }
    }

    /** `size`: the number of keys in the map. */
    function Size(): (n: nat)
      reads this
      requires Valid()
      ensures n == |OrderedMap.KeySet(store)|
    {
      OrderedMap.DistinctSize(store);
      |store|
    }

    /** `has(key)`. */
    function Has(key: Value): (present: bool)
      reads this
      ensures present <==> key in OrderedMap.KeySet(store)
    {
      OrderedMap.IndexOf(store, key) >= 0
    }

    /** `get(key)`: the value stored under `key`, or undefined. */
    function Get(key: Value): (v: Value)
      reads this
      ensures key in OrderedMap.KeySet(store) ==> (key, v) in store
      ensures key !in OrderedMap.KeySet(store) ==> v == Undefined
    {
      match OrderedMap.Lookup(store, key)
      case Some(x) => x
      case None => Undefined
    }

    /** `set(key, val, persist)`: update the map; with `persist` and a path, also persist the entry
        and rewrite the snapshot.  Returns the cache itself. */
    method Set(key: Value, val: Value, persist: bool) returns (self: OPCache)
      requires Valid()
      modifies this`store, this`persistantMap, disk
      ensures Valid() && self == this
      ensures store == OrderedMap.Set(old(store), key, val) && Get(key) == val
      ensures persist && Persistent(options) ==>
        persistantMap == OrderedMap.Set(old(persistantMap), key, val) && disk.state == Holds(Encode(persistantMap))
      ensures !(persist && Persistent(options)) ==>
        persistantMap == old(persistantMap) && disk.state == old(disk.state)
    {
      if persist && Persistent(options) {
        PersistKey(key, val);
      }
      OrderedMap.SetShape(store, key, val);
      OrderedMap.SetLookup(store, key, val, key);
      store := OrderedMap.Set(store, key, val);
      self := this;
    }

    /** `delete(key, persist)`: with `persist`, first drop the persisted entry (whose error aborts the
        call); then remove `key` from the map and report whether it was there. */
    method Delete(key: Value, persist: bool) returns (deleted: Result<bool, Error>)
      requires Valid()
      modifies this`store, this`persistantMap, disk
      ensures Valid()
      ensures !(persist && Persistent(options)) ==>
        persistantMap == old(persistantMap) && disk.state == old(disk.state)
      ensures persist && Persistent(options) ==>
        && persistantMap == OrderedMap.Delete(old(persistantMap), key)
        && disk.state == Drop(old(disk.state), persistantMap, key, options.throwOnCorruption).file
      ensures var failed := persist && Persistent(options) &&
          Drop(old(disk.state), persistantMap, key, options.throwOnCorruption).outcome.Fail?;
        && (failed ==>
              && deleted == Err(Drop(old(disk.state), persistantMap, key, options.throwOnCorruption).outcome.error)
              && store == old(store))
        && (!failed ==>
              && deleted == Ok(key in OrderedMap.KeySet(old(store)))
              && store == OrderedMap.Delete(old(store), key) && !Has(key))
    {
      if persist {
        var dropped := DropPersistedKey(key);
        if dropped.Fail? {
          return Err(dropped.error);
        }
      }
      deleted := Ok(Has(key));
      OrderedMap.DeleteLookup(store, key, key);
      store := OrderedMap.Delete(store, key);
    }

    /** `clear(persist)`: empty the map; only an explicit `false` also removes the file.  The
        persisted entries are left as they are. */
    method Clear(persist: Option<bool>)
      requires Valid()
      modifies this`store, disk
      ensures Valid() && store == []
      ensures disk.state == if persist == Some(false) && Persistent(options) then Absent else old(disk.state)
    {
      store := [];
      if persist == Some(false) {
        RmCacheFile();
      }
    }

    /** `persist()`: rewrite the snapshot from the persisted entries. */
    method Persist()
      modifies disk
      ensures disk.state == if Persistent(options) then Holds(Encode(persistantMap)) else old(disk.state)
    {
      if Persistent(options) {
        WriteMemCache();
      }
    }
  }
}
