/**
  Client code in the manner of the repository's tests: each method drives
  caches through a sequence of calls and states the file or the values that
  result, using only the contracts of the cache's methods and the lemmas
  about module Persistence.
 */
module Scenarios {
  import opened Results
  import opened Json
  import OrderedMap
  import opened Snapshot
  import opened Persistence
  import opened OpCache

  /** A cache on a fixed, already resolved path. */
  function OnPath(strict: bool): Options {
    Options(Some("node_modules/.cache/cache.json"), None, strict)
  }

  /** The tests start from an empty file, whose text `JSON.parse` rejects. */
  lemma OpenEmptyText(options: Options)
    requires Persistent(options) && options.validate.None?
    ensures Open(options, Garbled) == Opened(Ok([]), Garbled)
  {
    assert Entries([]) == [];
    assert Decode([]) == [];
  }

  /** The snapshot of JSON-safe pairs is the array of their `[key, value]` arrays. */
  lemma EncodeSafe(pairs: seq<Pair>)
    requires SafePairs(pairs)
    ensures Encode(pairs) == Arr(seq(|pairs|, i requires 0 <= i < |pairs| => Arr([pairs[i].0, pairs[i].1])))
  {
    EntriesSafe(pairs);
  }

  /** A value persisted by one instance is read by a fresh one on the same path, and a persisted
      delete from that instance leaves `[]` in the file. */
  method PersistReloadDelete(disk: BackingFile) returns (restored: Value, deleted: Result<bool, Error>)
    requires disk.state == Garbled
    modifies disk
    ensures restored == Str("bar")
    ensures deleted == Ok(true)
    ensures disk.state == Holds(Arr([]))
  {
    var oldCache := PersistFoo(disk);
    restored, deleted := ReloadAndDelete(disk);
  }

  /** On a file holding `[["foo","bar"]]`: a fresh cache has `foo`, and `delete("foo", true)` empties
      the file, although the fresh cache persisted nothing itself. */
  method ReloadAndDelete(disk: BackingFile) returns (restored: Value, deleted: Result<bool, Error>)
    requires disk.state == Holds(Encode([(Str("foo"), Str("bar"))]))
    modifies disk
    ensures restored == Str("bar")
    ensures deleted == Ok(true)
    ensures disk.state == Holds(Arr([]))
  {
    var foo, bar := Str("foo"), Str("bar");
    var file := disk.state;
    EncodeSafe([(foo, bar)]);
    OpenRestores(OnPath(false), [(foo, bar)]);
    var second := OPCache.New(OnPath(false), disk);
    var newCache := second.value;
    assert newCache.store == [(foo, bar)];
    restored := newCache.Get(foo);
    EncodeIsPairList([(foo, bar)]);
    assert Read(file, [], false) == Loaded(Ok(file.doc), file);
    assert KeyIndex(file.doc.items, foo) == 0;
    assert Drop(file, [], foo, false) == Dropped(Pass, Written([]));
    deleted := newCache.Delete(foo, true);
    assert Serialize(Arr([])) == Arr([]);
  }

  /** Chained `set` calls, on the `[]` file the persisted delete leaves: only the entries set with
      `persist` reach the file, in order.  A fresh instance then sees only them, which goes beyond
      what the repository's test looks at. */
  method ChainedSets(disk: BackingFile) returns (saved: Value, dropped: Value)
    requires disk.state == Holds(Arr([]))
    modifies disk
    ensures saved == Str("me") && dropped == Undefined
    ensures disk.state == Holds(Arr([Arr([Str("foo"), Str("bar")]), Arr([Str("save"), Str("me")])]))
  {
    var pairs := [(Str("foo"), Str("bar")), (Str("save"), Str("me"))];
    var cache := PersistTwoOfThree(disk);
    saved, dropped := ReloadTwo(disk);
    EncodeSafe(pairs);
  }

  /** A fresh cache on the file written by `PersistTwoOfThree`. */
  method ReloadTwo(disk: BackingFile) returns (saved: Value, dropped: Value)
    requires disk.state == Holds(Encode([(Str("foo"), Str("bar")), (Str("save"), Str("me"))]))
    modifies disk
    ensures saved == Str("me") && dropped == Undefined
    ensures disk.state == old(disk.state)
  {
    var pairs := [(Str("foo"), Str("bar")), (Str("save"), Str("me"))];
    assert SafePairs(pairs) && OrderedMap.DistinctKeys(pairs);
    OpenRestores(OnPath(false), pairs);
    var second := OPCache.New(OnPath(false), disk);
    var cache := second.value;
    assert cache.store == pairs;
    assert OrderedMap.IndexOf(pairs, Str("save")) == 1;
    saved := cache.Get(Str("save"));
    assert OrderedMap.IndexOf(pairs, Str("dont")) == -1;
    dropped := cache.Get(Str("dont"));
  }

  /** A fresh cache, `clear(true)`, then
      `cache.set("foo", "bar", true).set("dont", "save").set("save", "me", true)`. */
  method PersistTwoOfThree(disk: BackingFile) returns (cache: OPCache)
    requires disk.state == Holds(Arr([]))
    modifies disk
    ensures disk.state == Holds(Encode([(Str("foo"), Str("bar")), (Str("save"), Str("me"))]))
  {
    cache := ClearedCache(disk);
    var self := cache.Set(Str("foo"), Str("bar"), true);
    assert cache.persistantMap == [(Str("foo"), Str("bar"))];
    SetDontThenSave(cache);
  }

  /** The rest of the chain, on a cache whose only persisted entry is `foo`. */
  method SetDontThenSave(cache: OPCache)
    requires cache.Valid() && cache.options == OnPath(false)
    requires cache.persistantMap == [(Str("foo"), Str("bar"))]
    modifies cache`store, cache`persistantMap, cache.disk
    ensures cache.disk.state == Holds(Encode([(Str("foo"), Str("bar")), (Str("save"), Str("me"))]))
  {
    var self := cache.Set(Str("dont"), Str("save"), false);
    assert cache.persistantMap == [(Str("foo"), Str("bar"))];
    self := self.Set(Str("save"), Str("me"), true);
    assert OrderedMap.IndexOf([(Str("foo"), Str("bar"))], Str("save")) == -1;
    assert cache.persistantMap == [(Str("foo"), Str("bar")), (Str("save"), Str("me"))];
  }

  /** A fresh cache on a file holding `[]`, then `clear(true)`: the map is empty and the file kept. */
  method ClearedCache(disk: BackingFile) returns (cache: OPCache)
    requires disk.state == Holds(Arr([]))
    modifies disk
    ensures fresh(cache) && cache.Valid() && cache.disk == disk && cache.options == OnPath(false)
    ensures cache.store == [] && cache.persistantMap == []
    ensures disk.state == Holds(Arr([]))
  {
    assert Encode([]) == Arr([]);
    OpenRestores(OnPath(false), []);
    var first := OPCache.New(OnPath(false), disk);
    cache := first.value;
    cache.Clear(Some(true));
  }

  /** A fresh cache on the empty file, then `set("foo", "bar", true)`. */
  method PersistFoo(disk: BackingFile) returns (cache: OPCache)
    requires disk.state == Garbled
    modifies disk
    ensures fresh(cache) && cache.Valid() && cache.disk == disk && cache.options == OnPath(false)
    ensures cache.persistantMap == [(Str("foo"), Str("bar"))]
    ensures disk.state == Holds(Encode(cache.persistantMap))
  {
    OpenEmptyText(OnPath(false));
    var first := OPCache.New(OnPath(false), disk);
    cache := first.value;
    var _ := cache.Set(Str("foo"), Str("bar"), true);
  }

  /** `clear(false)` removes the file, and the next construction creates it again holding `[]`. */
  method ClearRemovesFile(disk: BackingFile) returns (size: nat)
    requires disk.state == Garbled
    modifies disk
    ensures disk.state == Holds(Arr([])) && size == 0
  {
    OpenEmptyText(OnPath(false));
    var first := OPCache.New(OnPath(false), disk);
    var cache := first.value;
    var _ := cache.Set(Str("foo"), Str("bar"), true);
    cache.Clear(Some(false));
    assert disk.state == Absent;
    OpenMissingFile(OnPath(false));
    var second := OPCache.New(OnPath(false), disk);
    size := second.value.Size();
  }

  /** After the file is overwritten with text that does not parse, `persist()` restores the
      persisted entries; a second `persist()` leaves the same contents. */
  method PersistRestoresFile(disk: BackingFile)
    requires disk.state == Garbled
    modifies disk
    ensures disk.state == Holds(Arr([Arr([Str("foo"), Str("bar")])]))
  {
    OpenEmptyText(OnPath(false));
    var first := OPCache.New(OnPath(false), disk);
    var cache := first.value;
    var _ := cache.Set(Str("foo"), Str("bar"), true);
    assert cache.persistantMap == [(Str("foo"), Str("bar"))];
    disk.state := Garbled;
    cache.Persist();
    var once := disk.state;
    cache.Persist();
    assert disk.state == once;
    EncodeSafe([(Str("foo"), Str("bar"))]);
  }

  /** In strict mode a file holding an object where an entry should be makes construction throw,
      naming that object; in lenient mode the same file loads, and is rewritten as `[]`. */
  method CorruptEntryStrictAndLenient(strictDisk: BackingFile, lenientDisk: BackingFile)
      returns (strict: Result<OPCache, Error>, lenient: Result<OPCache, Error>)
    requires strictDisk != lenientDisk
    requires strictDisk.state == lenientDisk.state == Holds(Arr([Obj([Member("foo", Str("bar"))])]))
    modifies strictDisk, lenientDisk
    ensures strict == Err(ItemsCorrupted([Obj([Member("foo", Str("bar"))])]))
    ensures lenient.Ok? && lenient.value.store == [] && lenientDisk.state == Holds(Arr([]))
  {
    var doc := Arr([Obj([Member("foo", Str("bar"))])]);
    assert NonArrays(doc.items) == [Obj([Member("foo", Str("bar"))])] by {
      assert doc.items[..0] == [];
    }
    strict := OPCache.New(OnPath(true), strictDisk);
    assert Encode([]) == Arr([]);
    assert Decode([]) == [];
    lenient := OPCache.New(OnPath(false), lenientDisk);
  }

  /** A validation hook that refuses the entry `["foo", "bar"]`. */
  function RefuseFooBar(data: Value): Outcome<string> {
    if data.Arr? && exists i | 0 <= i < |data.items| :: data.items[i] == Arr([Str("foo"), Str("bar")])
    then Fail("I dont want the value to be foo")
    else Pass
  }

  function Refusing(): Options {
    Options(Some("node_modules/.cache/cache.json"), Some(RefuseFooBar), false)
  }

  /** Construction fails when the hook throws on the loaded data. */
  method ValidationRefuses(disk: BackingFile) returns (refused: Result<OPCache, Error>)
    requires disk.state == Holds(Arr([Arr([Str("foo"), Str("bar")])]))
    modifies disk
    ensures refused == Err(Rejected("I dont want the value to be foo"))
  {
    var doc := disk.state.doc;
    assert Classify(doc) == PairList;
    assert Read(Created(disk.state), [], false) == Loaded(Ok(doc), disk.state);
    assert RefuseFooBar(doc) == Fail("I dont want the value to be foo") by {
      assert doc.items[0] == Arr([Str("foo"), Str("bar")]);
    }
    refused := OPCache.New(Refusing(), disk);
  }

  /** Construction succeeds when the hook does not throw, and the data is loaded. */
  method ValidationAccepts(disk: BackingFile) returns (accepted: Result<OPCache, Error>)
    requires disk.state == Holds(Arr([Arr([Str("foo"), Str("baz")])]))
    modifies disk
    ensures accepted.Ok? && accepted.value.Get(Str("foo")) == Str("baz")
  {
    var pairs := [(Str("foo"), Str("baz"))];
    EncodeSafe(pairs);
    assert Encode(pairs) == disk.state.doc;
    assert RefuseFooBar(Encode(pairs)) == Pass by {
      assert Encode(pairs).items == [Arr([Str("foo"), Str("baz")])];
    }
    OpenRestores(Refusing(), pairs);
    accepted := OPCache.New(Refusing(), disk);
  }
}
