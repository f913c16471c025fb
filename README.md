# OPCache in Dafny

`OPCache` is a `Map`-compatible cache that can persist chosen entries to a JSON file.
Every entry lives in an in-memory map (`map`). An entry set with `persist` is also
recorded in a second map (`persistantMap`), and the file is rewritten to hold the
snapshot `JSON.stringify([...persistantMap])`. A new instance on the same path
loads the file and seeds its map from it. A persisted delete re-reads the file
and removes the entry from what it read. A load meets one of four kinds of trouble,
and `throwOnCorruption` decides what each one does:

- The file cannot be read (missing, or an I/O error). A strict load rethrows
  and writes nothing. A lenient load writes `[]` and returns `[]`.
- The text does not parse. In both modes the load falls back to the persisted
  entries, returns them and writes nothing: the file is not healed.
- The document is not an array. A strict load throws "Cache corrupted: Not an
  array." A lenient load rewrites the file with the persisted entries but
  returns the document itself.
- Some entry is not an array. A strict load throws an error listing the
  entries that are not arrays. A lenient load rewrites the file with the
  persisted entries and returns what re-reading it gives, which is those
  entries.

This project models that class (`src/op-cache.ts`) and proves what it promises.
The modules are:

- `Json`: the JavaScript values the cache stores and reads. `Serialize` is
  `JSON.parse(JSON.stringify(v))`: `undefined` becomes `null` inside arrays, and
  undefined object members are dropped.
- `OrderedMap`: an insertion-ordered `Map` as a sequence of pairs with distinct
  keys. It has `set` (in place, or appended when new), `delete`, `get`, and
  `new Map(pairs)` (a later duplicate wins).
- `Snapshot`: the file format. `Encode` writes a map as `[[k, v], …]`. `Classify`
  sorts a parsed document into `NotArray`, `CorruptEntries` or `PairList`.
  `Decode` and `NewMap` are `new Map(parsed)`. `KeyIndex` is the `findIndex` of a
  persisted delete.
- `Persistence`: the persistence behaviour as functions of the file's state. It
  covers loading (`Read`, `Parse`), the persisted delete (`Drop`) and
  construction (`Open`), with the lemmas that state their properties.
- `OpCache`: the class itself, with its two maps as fields. The backing file is
  a shared `BackingFile` object, so two instances on one path see each other's
  writes. Each method of the core that changes state is a method here, proved
  to follow the functions of `Persistence` and `OrderedMap`, and `get`, `has`
  and `size` are functions. `readFile` and `tryParse` stay mutually recursive.
  The members listed under "Left out" have no counterpart.
- `Scenarios`: client code in the style of the repository's tests, with the
  resulting file contents and values stated and proved.

Modelling decisions:

- The file is `Absent | Unreadable | Garbled | Holds(value)`. `Holds(v)` is text
  that `JSON.parse` turns into `v`, and `Garbled` is text it rejects. JSON text
  itself (and its encoding) is not modelled: a write of `data` leaves
  `Holds(Serialize(Arr(data)))`.
- The JavaScript constructor can throw. In the model, `OPCache.New` is the
  constructor: it runs `processOptions` and `createMap` and returns `Err` where
  the source throws. The Dafny `constructor` only stores the options.
- The path is taken as already resolved. `Persistent(options)` is the source's
  truthiness test on `options.path`.
- `validate` is a function from the loaded data to `Pass` or `Fail(reason)`.
  `Fail` stands for the hook throwing.
- `throwOnCorruption` is a `bool`. The source tests it with `=== true` at line 89
  and by truthiness elsewhere; for a boolean the two agree.

Where the behaviour differs from how the system is usually described, the model
follows the code:

- The persisted delete, when the key is not in the file, calls `writeMemCache`
  and then `writeFile(currentData)`. The second write wins, so the file ends
  holding the list as read, not the persisted entries
  (`Persistence.DropMissWritesListAsRead`).
- A load whose text does not parse returns the persisted entries but neither
  rewrites nor heals the file (`Persistence.LenientRead`).
- A lenient load of a document that is not an array rewrites the file but
  returns the document itself. `new Map` then throws a `TypeError`, unless the
  document is `null` or `""` (`Persistence.LenientNonArrayOpen`). So construction
  does not always succeed in lenient mode.
- `clear(persist)` removes the file only for an explicit `false`. It never
  touches the persisted entries (`OpCache.OPCache.Clear`).

## Model

| member | source | states |
|---|---|---|
| Json.SerializeKeepsSafe | src/op-cache.ts:71 | A JSON-safe value (no `undefined` anywhere) survives `JSON.stringify` followed by `JSON.parse` unchanged |
| Json.SerializeIsSafe | src/op-cache.ts:71 | Whatever is written and parsed back is JSON-safe |
| Json.DefinedSafe | src/op-cache.ts:71 | Dropping undefined object members keeps every remaining member JSON-safe |
| Json.SerializeIdempotent | src/op-cache.ts:71 | Writing what was read back and reading it again gives the same value |
| Json.Defined | src/op-cache.ts:71 | No undefined member remains, and an object without undefined members is unchanged |
| Json.Serialize | src/op-cache.ts:71 | The parsed result is never undefined, is an array exactly when the input is, and keeps the array's length |
| Persistence.Written | src/op-cache.ts:69-73 | `writeFile(data)` leaves a file holding a JSON-safe array with one element per element of `data` |
| OrderedMap.IndexOf | src/op-cache.ts:137 | The position of the first pair with key `k`, or -1 when no pair has it |
| OrderedMap.Lookup | src/op-cache.ts:176-179 | `Map.get` finds a value exactly when the key is present, and the found pair is in the map |
| OrderedMap.Set | src/op-cache.ts:137 | `Map.set(k, v)`: the pair is present afterwards, the keys gain `k`, and the size grows by one exactly when `k` was new |
| OrderedMap.Delete | src/op-cache.ts:145 | `Map.delete(k)`: only pairs that were there remain, a missing key changes nothing, and the size drops by one exactly when `k` was present |
| OrderedMap.FromPairs | src/op-cache.ts:63 | `new Map(pairs)` has exactly the keys of the pairs, and no more entries than pairs |
| OrderedMap.SetLookup | src/op-cache.ts:189 | After `set(k, v)`, `k` maps to `v` and every other key keeps its value |
| OrderedMap.SetShape | src/op-cache.ts:137 | `Map.set` keeps keys distinct and adds `k` to the keys; an existing key keeps its position, and a new key is appended at the end (insertion order) |
| OrderedMap.DeleteShape | src/op-cache.ts:145 | `Map.delete` keeps keys distinct, removes exactly `k` from the keys, and keeps the other entries in order (those after `k` move up by one) |
| OrderedMap.DeleteLookup | src/op-cache.ts:208 | After `delete(k)`, `k` is absent and every other key keeps its value |
| OrderedMap.DistinctSize | src/op-cache.ts:172-174 | The number of pairs equals the number of distinct keys |
| OrderedMap.FromDistinctPairs | src/op-cache.ts:63 | `new Map(pairs)` of pairs with distinct keys is those pairs in order |
| OrderedMap.FromPairsLastWins | src/op-cache.ts:63 | `new Map(pairs)` has distinct keys, and each key maps to the value of its last pair |
| Snapshot.NonArraysEmpty | src/op-cache.ts:94 | No member fails the `every(Array.isArray)` test exactly when all are arrays, and a document has corrupt entries exactly when some member fails |
| Snapshot.Entries | src/op-cache.ts:77 | `[...map]`: one two-element array per pair, in order, from which `new Map` reads that pair's key and value back |
| Snapshot.Encode | src/op-cache.ts:139 | The written snapshot is an array of entry arrays, one per persisted pair |
| Snapshot.Classify | src/op-cache.ts:88-94 | The two shape checks: not an array exactly when `Array.isArray` fails; well formed exactly when every member is an array; corrupt entries exactly when some member is not |
| Snapshot.NonArrays | src/op-cache.ts:96-104 | The collected corrupted items are all non-arrays, and there are no more of them than members |
| Snapshot.Decode | src/op-cache.ts:63 | `new Map(entries)` has distinct keys, exactly the keys the entries name, and no more entries than the list |
| Snapshot.NonArraysMembers | src/op-cache.ts:96-104 | The corrupted items reported are exactly the members that are not arrays |
| Snapshot.NonArraysAppend | src/op-cache.ts:96-104 | The corrupted-item collection distributes over concatenation, so it is a left-to-right accumulation |
| Snapshot.NewMap | src/op-cache.ts:63 | `new Map(data)` succeeds exactly for an array, `undefined`, `null` or `""`, and yields distinct keys |
| Snapshot.KeyIndex | src/op-cache.ts:148-150 | `findIndex(([k]) => k === key)`: the first entry whose key is `key`, or -1 when none has it |
| Snapshot.EncodeIsPairList | src/op-cache.ts:77 | The snapshot written by `writeMemCache` is an array of entry arrays, one per persisted pair, so it classifies as well formed |
| Snapshot.EntriesSafe | src/op-cache.ts:139 | For JSON-safe pairs the written snapshot is exactly `[[k, v], …]` |
| Snapshot.RoundTrip | src/op-cache.ts:139 | Decoding the written snapshot with `new Map` gives back the persisted pairs in order |
| Snapshot.KeyIndexOfEntries | src/op-cache.ts:148-150 | On a snapshot, `findIndex` finds the key at the same position as in the persisted map |
| Snapshot.EntriesSplice | src/op-cache.ts:153 | Splicing entry `n` out of a snapshot is the snapshot of the pairs with pair `n` removed |
| Snapshot.DeleteSafe | src/op-cache.ts:145 | Deleting a key keeps the persisted pairs JSON-safe |
| Snapshot.SetSafe | src/op-cache.ts:137 | `set` of a JSON-safe key and value keeps the persisted pairs JSON-safe |
| Snapshot.SpliceEncoded | src/op-cache.ts:148-154 | Splicing a key's entry out of the written snapshot, and writing it back, gives the snapshot of the pairs with that key deleted |
| Persistence.ReadYieldsEntryArrays | src/op-cache.ts:81-133 | Any array a load returns holds only entry arrays |
| Persistence.Parse | src/op-cache.ts:81-114 | `tryParse` after parsing: strict mode never writes, lenient mode never fails, the only file it may write is the persisted snapshot, and it throws only on a malformed document |
| Persistence.ReadFailure | src/op-cache.ts:124-130 | The `catch` of `readFile` fails exactly in strict mode, where it leaves the file alone; in lenient mode it writes and returns `[]` |
| Persistence.Read | src/op-cache.ts:116-133 | `readFile`: strict mode never writes, lenient mode never fails, and the only files a load may write are `[]` and the persisted snapshot |
| Persistence.LenientRead | src/op-cache.ts:81-133 | A lenient load never throws. An I/O error writes and returns `[]`; unparsable text yields the persisted entries and leaves the file alone; a non-array document is returned as it is and corrupt entries yield the persisted snapshot, both after rewriting the file from the persisted entries; a well-formed file is returned unchanged |
| Persistence.StrictRead | src/op-cache.ts:81-133 | A strict load never writes, and throws exactly on an I/O error or a shape error. For corrupt entries the error lists exactly the members that are not arrays |
| Persistence.RepairIsStable | src/op-cache.ts:88-111 | After a lenient repair, a second load in either mode finds a well-formed snapshot and writes nothing |
| Persistence.DropKeepsSnapshot | src/op-cache.ts:143-160 | While the file holds the persisted snapshot of JSON-safe pairs, a persisted delete keeps the pairs JSON-safe and leaves the snapshot of the remaining pairs |
| Persistence.DropMissWritesListAsRead | src/op-cache.ts:155-158 | When the key is not on file, the second write wins: after the file was removed, the file ends as `[]` although an entry is still persisted |
| Persistence.Drop | src/op-cache.ts:143-160 | `dropPersistedKey` after the persisted delete: a success leaves the file holding a JSON-safe array, and a strict failure writes nothing |
| Persistence.OpenWithoutPath | src/op-cache.ts:64-66 | Without a path, construction never touches the file and starts with an empty map |
| Persistence.Created | src/op-cache.ts:42-48 | After `processOptions` the file exists, and an existing file is kept as it is |
| Persistence.Open | src/op-cache.ts:28-67 | Construction: without a path the file is untouched and the map empty; with a path the file exists afterwards; a seeded map has distinct keys |
| Persistence.OpenMissingFile | src/op-cache.ts:42-58 | A missing file is created as `[]`, and the map starts empty |
| Persistence.ValidationGate | src/op-cache.ts:59-63 | Construction succeeds only if `validate` accepts the loaded data; a rejection aborts it with the hook's own reason |
| Persistence.OpenRestores | src/op-cache.ts:52-63 | A new instance on a file holding a snapshot of distinct JSON-safe pairs gets exactly those pairs, in order, and leaves the file unchanged |
| Persistence.OpenLastDuplicateWins | src/op-cache.ts:63 | Loading a file with repeated keys keeps the last value of each key |
| Persistence.LenientNonArrayOpen | src/op-cache.ts:88-93 | A lenient load of a non-array document other than `null` or `""` rewrites the file, and construction then throws a `TypeError` |
| OpCache.FindIndex | src/op-cache.ts:148-150 | The loop computes `KeyIndex`: the first matching entry, or -1 |
| OpCache.CorruptedItems | src/op-cache.ts:96-104 | The `reduce` loop collects exactly the non-array members, in order |
| OpCache.OPCache.constructor | src/op-cache.ts:28-29 | Stores the options and the file, with both maps empty |
| OpCache.OPCache.New | src/op-cache.ts:28-32 | Construction follows `Open`: the new file state, success exactly when `Open` succeeds, the same error otherwise, and on success a fresh valid cache seeded with `Open`'s map and nothing persisted |
| OpCache.OPCache.ProcessOptions | src/op-cache.ts:42-50 | With a path, a missing file is created as `[]`; nothing else changes |
| OpCache.OPCache.CreateMap | src/op-cache.ts:52-67 | The map, the file and the error follow `Open`, with nothing persisted |
| OpCache.OPCache.WriteFile | src/op-cache.ts:69-73 | With a path, the file holds the stringified data; without one it is untouched |
| OpCache.OPCache.WriteMemCache | src/op-cache.ts:75-79 | With a path, the file holds the snapshot of the persisted entries |
| OpCache.OPCache.TryParse | src/op-cache.ts:81-114 | The result and the file follow `Parse` of the parsed value, or of the persisted entries when parsing threw |
| OpCache.OPCache.ReadFile | src/op-cache.ts:116-133 | With a path, the result and the file follow `Read`; without one it returns undefined and writes nothing |
| OpCache.OPCache.ReadFailed | src/op-cache.ts:124-130 | An I/O error is rethrown in strict mode; otherwise `[]` is written and returned |
| OpCache.OPCache.PersistKey | src/op-cache.ts:135-141 | With a path, the persisted map gains the entry and the file holds its new snapshot; without one nothing changes |
| OpCache.OPCache.DropPersistedKey | src/op-cache.ts:143-160 | With a path, the key leaves the persisted map, and the outcome and the file follow `Drop`; without one nothing changes |
| OpCache.OPCache.RmCacheFile | src/op-cache.ts:166-170 | With a path, the file is gone afterwards |
| OpCache.OPCache.Size | src/op-cache.ts:172-174 | `size` is the number of distinct keys in the map |
| OpCache.OPCache.Has | src/op-cache.ts:35 | `has(key)` holds exactly when `key` is in the map |
| OpCache.OPCache.Get | src/op-cache.ts:176-179 | `get(key)` is the stored value of a present key, and undefined for an absent one |
| OpCache.OPCache.Set | src/op-cache.ts:181-191 | The map gains `(key, val)` and `get(key)` is `val`. Only with `persist` and a path is the entry persisted and the snapshot rewritten; otherwise the persisted map and the file are unchanged. Returns the cache itself |
| OpCache.OPCache.Delete | src/op-cache.ts:204-209 | A failed persisted drop aborts with its error and leaves the map. Otherwise the key is removed, the result says whether it was present, and with `persist` the persisted map and file follow `Drop` |
| OpCache.OPCache.Clear | src/op-cache.ts:197-202 | The map is emptied; the file is removed only for `persist === false` and a path; the persisted map is kept |
| OpCache.OPCache.Persist | src/op-cache.ts:213-217 | With a path, the file holds the snapshot of the persisted entries |
| Scenarios.OpenEmptyText | src/op-cache.ts:81-87 | On an empty (unparsable) file a lenient cache starts empty and leaves the file as it is |
| Scenarios.EncodeSafe | src/op-cache.ts:139 | The snapshot of string pairs is literally `[[k, v], …]` |
| Scenarios.PersistReloadDelete | test/perstistance.ts:22-51 | A value persisted by one instance is read by the next, and a persisted delete from that instance leaves `[]` in the file |
| Scenarios.ReloadAndDelete | test/perstistance.ts:39-51 | On a file holding `[["foo","bar"]]`, a fresh cache has `foo`, and `delete("foo", true)` returns true and leaves `[]` |
| Scenarios.ChainedSets | src/op-cache.ts:52-63 | On the `[]` file: chained sets write only the two persisted pairs, in order (test/perstistance.ts:53-67), and a fresh instance then sees only them, which the test does not check |
| Scenarios.ReloadTwo | src/op-cache.ts:176-179 | A fresh instance on the two-pair snapshot has `save` and not `dont` |
| Scenarios.ClearedCache | test/perstistance.ts:54-57 | A fresh cache on `[]` after `clear(true)` has empty maps and keeps the file |
| Scenarios.SetDontThenSave | test/perstistance.ts:59 | With `foo` persisted, `set("dont", "save").set("save", "me", true)` writes `[["foo","bar"],["save","me"]]` |
| Scenarios.PersistTwoOfThree | test/perstistance.ts:53-67 | A fresh cache, `clear(true)`, then `set(…, true).set(…).set(…, true)` writes `[["foo","bar"],["save","me"]]` |
| Scenarios.PersistFoo | test/perstistance.ts:23-29 | A fresh cache on the empty file, then `set("foo", "bar", true)`: the file holds the snapshot `[["foo","bar"]]` |
| Scenarios.ClearRemovesFile | src/op-cache.ts:197-202 | `clear(false)` removes the file, and the next construction recreates it as `[]` with an empty map |
| Scenarios.PersistRestoresFile | src/op-cache.ts:213-217 | `persist()` after the file was overwritten with unparsable text restores `[["foo","bar"]]`, and a second `persist()` does not change it |
| Scenarios.CorruptEntryStrictAndLenient | src/op-cache.ts:94-111 | An object where an entry should be makes a strict construction throw, naming that object; a lenient construction succeeds, with an empty map, and heals the file to `[]` |
| Scenarios.ValidationRefuses | src/op-cache.ts:61 | A hook that throws on `["foo","bar"]` makes construction fail with its message |
| Scenarios.ValidationAccepts | src/op-cache.ts:61-63 | A hook that does not throw lets construction load the data |

## Left out

- `resolvePath` (src/op-cache.ts:162-164): paths are taken as already resolved, because the process's working directory is outside the model.
- `readFile(path)` with an explicit path (src/op-cache.ts:117-118): no caller passes one, and that branch returns undefined.
- `bindNativeMapProps`, `keys`, `values`, `forEach`, `entries` and the iterator (src/op-cache.ts:19-40, 193-195): these only forward to the native `Map`, so the model has `has` and not the iteration protocol.
- Real file-system calls, their encodings and write errors: the file is an abstract state, and writes always succeed.
- The text of JSON and of error messages: a file holds a parsed value, and errors are a datatype.
- Object and array keys are compared structurally. JavaScript's `===` compares them by reference, so two equal-looking object keys are distinct there and equal here.
- Numbers are integers. Floating point, `NaN` and `-0` (which `Map` and `===` treat differently) are not modelled.
- OpCache.OPCache.CreateMap: `validate` is modelled as a pure function, so the model cannot say it is called exactly once or that it may have effects.
- The lenient `catch` for an error thrown inside `tryParse` itself is not modelled: in lenient mode `tryParse` does not throw.
- Persistence.Drop: a non-array entry cannot reach the delete, so its `findIndex` is only modelled on entry arrays. This is what every load returns (`ReadYieldsEntryArrays`).
- Snapshot.NewMap: an object given to `new Map` as the whole document is always a `TypeError`; iterable objects are not modelled.
- Concurrency: two instances on one path interleave only at method boundaries.
- The sibling classes in `p-cache` and `m-cache` are not part of this model. The scenarios for corruption and validation follow those classes' tests but are stated for `OPCache`.
