/**
  The persistence state machine of the cache as functions of the file's
  state: loading with corruption classification and recovery, the
  read-splice-rewrite of a persisted delete, and construction.  The class
  in module OpCache is proved to follow these functions step by step.
 */
module Persistence {
  import opened Results
  import opened Json
  import OrderedMap
  import opened Snapshot

  /** The backing file as the cache observes it.  `Absent` and `Unreadable` both make
      `readFileSync` throw; only `Absent` makes `existsSync` false.  `Garbled` text makes
      `JSON.parse` throw; `Holds(v)` is text that parses to `v`. */
  datatype File = Absent | Unreadable | Garbled | Holds(doc: Value)

  /** The errors the cache can throw. */
  datatype Error =
    | NotAnArray                          // "Cache corrupted: Not an array."
    | ItemsCorrupted(items: seq<Value>)   // "The following items have been corrupted: …"
    | ReadFailed                          // what `readFileSync` threw
    | Rejected(reason: string)            // what the caller's `validate` threw
    | TypeError                           // `new Map(…)` or `findIndex` on a value that is not an array

  /** The constructor's options.  `validate` returns `Fail(reason)` where the caller's hook throws. */
  datatype Options = Options(
    path: Option<string>,
    validate: Option<Value -> Outcome<string>>,
    throwOnCorruption: bool)

  /** `options.path` is truthy: only then is there a backing file. */
  predicate Persistent(options: Options) {
    options.path.Some? && options.path.value != ""
  }

  /** The file after `writeFile(data)`: the text of `JSON.stringify(data)`, as parsing sees it. */
  function Written(data: seq<Value>): (f: File)
    ensures f.Holds? && f.doc.Arr? && |f.doc.items| == |data| && JsonSafe(f.doc)
  {
    SerializeIsSafe(Arr(data));
    Holds(Serialize(Arr(data)))
  }

  /** The result of a load and the file it leaves behind. */
  datatype Loaded = Loaded(result: Result<Value, Error>, file: File)

  /** `tryParse` once `JSON.parse` has produced `parsed` (or the persisted entries, when it threw):
      strict mode throws on either kind of corruption; lenient mode rewrites the file from the
      persisted entries, returning the parsed value for a non-array and the re-read file for
      corrupt entries. */
  function Parse(parsed: Value, file: File, persisted: seq<Pair>, strict: bool): (l: Loaded)
    ensures strict ==> l.file == file
    ensures !strict ==> l.result.Ok?
    ensures l.file == file || l.file == Holds(Encode(persisted))
    ensures l.result.Err? ==> Classify(parsed) != PairList
  {
    match Classify(parsed)
    case NotArray =>
      if strict then Loaded(Err(NotAnArray), file)
      else Loaded(Ok(parsed), Holds(Encode(persisted)))
    case CorruptEntries =>
      if strict then Loaded(Err(ItemsCorrupted(NonArrays(parsed.items))), file)
      else Loaded(Ok(Encode(persisted)), Holds(Encode(persisted)))
    case PairList => Loaded(Ok(parsed), file)
  }

  /** `readFile` for a cache with a path. */
  function Read(file: File, persisted: seq<Pair>, strict: bool): (l: Loaded)
    ensures strict ==> l.file == file
    ensures !strict ==> l.result.Ok?
    ensures l.file == file || l.file == Written([]) || l.file == Holds(Encode(persisted))
  {
    match file
    case Absent => ReadFailure(file, strict)
    case Unreadable => ReadFailure(file, strict)
    case Garbled => Parse(Arr(Entries(persisted)), file, persisted, strict)
    case Holds(v) => Parse(v, file, persisted, strict)
  }

  /** The `catch` of `readFile` for an I/O error: rethrow in strict mode, otherwise write `[]`. */
  function ReadFailure(file: File, strict: bool): (l: Loaded)
    ensures l.result.Err? <==> strict
    ensures strict ==> l.file == file
    ensures !strict ==> l == Loaded(Ok(Arr([])), Holds(Arr([])))
  {
    assert Serialize(Arr([])) == Arr([]);
    if strict then Loaded(Err(ReadFailed), file) else Loaded(Ok(Arr([])), Written([]))
  }

  /** Whatever array a load returns holds only arrays. */
  lemma ReadYieldsEntryArrays(file: File, persisted: seq<Pair>, strict: bool)
    ensures var r := Read(file, persisted, strict).result;
      r.Ok? && r.value.Arr? ==> AllArrays(r.value.items)
  {
    EncodeIsPairList(persisted);
  }

  /** A lenient load never throws: an I/O error leaves `[]` behind, a syntax error leaves the file
      as it is and yields the persisted entries, and a shape error rewrites the file from them. */
  lemma LenientRead(file: File, persisted: seq<Pair>)
    ensures var l := Read(file, persisted, false);
      && l.result.Ok?
      && (file.Absent? || file.Unreadable? ==> l == Loaded(Ok(Arr([])), Holds(Arr([]))))
      && (file.Garbled? ==> l == Loaded(Ok(Arr(Entries(persisted))), Garbled))
      && (file.Holds? && Classify(file.doc) != PairList ==> l.file == Holds(Encode(persisted)))
      && (file.Holds? && !file.doc.Arr? ==> l.result == Ok(file.doc))
      && (file.Holds? && Classify(file.doc) == CorruptEntries ==> l.result == Ok(Encode(persisted)))
      && (file.Holds? && Classify(file.doc) == PairList ==> l == Loaded(Ok(file.doc), file))
  {
    assert Serialize(Arr([])) == Arr([]);
  }

  /** A strict load never writes, and throws exactly for an I/O error or a shape error; for
      corrupt entries the error names exactly the members that are not arrays. */
  lemma StrictRead(file: File, persisted: seq<Pair>)
    ensures var l := Read(file, persisted, true);
      && (file.Absent? || file.Unreadable? ==> l.result == Err(ReadFailed))
      && (l.result.Err? <==> !file.Garbled? && !(file.Holds? && Classify(file.doc) == PairList))
      && (file.Holds? && !file.doc.Arr? ==> l.result == Err(NotAnArray))
      && (file.Holds? && Classify(file.doc) == CorruptEntries ==>
            l.result.Err? && l.result.error.ItemsCorrupted? &&
            forall x :: x in l.result.error.items <==> x in file.doc.items && !x.Arr?)
      && l.file == file
  {
    if file.Holds? && Classify(file.doc) == CorruptEntries {
      forall x ensures x in NonArrays(file.doc.items) <==> x in file.doc.items && !x.Arr? {
        NonArraysMembers(file.doc.items, x);
      }
    }
  }

  /** Self-healing is idempotent: after a lenient repair of a shape error, loading again finds a
      well-formed snapshot, returns it and writes nothing, in either mode. */
  lemma RepairIsStable(file: File, persisted: seq<Pair>, strict: bool)
    requires file.Holds? && Classify(file.doc) != PairList
    ensures var healed := Read(file, persisted, false).file;
      && healed.Holds? && Classify(healed.doc) == PairList
      && Read(healed, persisted, strict) == Loaded(Ok(healed.doc), healed)
  {
    EncodeIsPairList(persisted);
  }

  /** The outcome of `dropPersistedKey` and the file it leaves behind. */
  datatype Dropped = Dropped(outcome: Outcome<Error>, file: File)

  /** `dropPersistedKey(key)` once `key` has left the persisted entries: re-read the file, remove the
      first entry whose key is `key` and write the rest; when there is none, the memory snapshot is
      written and then overwritten by the list as read, so the file ends holding that list. */
  function Drop(file: File, persisted: seq<Pair>, key: Value, strict: bool): (d: Dropped)
    ensures d.outcome.Pass? ==> d.file.Holds? && d.file.doc.Arr? && JsonSafe(d.file.doc)
    ensures strict && d.outcome.Fail? ==> d.file == file
  {
    var l := Read(file, persisted, strict);
    match l.result
    case Err(e) => Dropped(Fail(e), l.file)
    case Ok(data) =>
      if !data.Arr? then Dropped(Fail(TypeError), l.file)
      else
        ReadYieldsEntryArrays(file, persisted, strict);
        var i := KeyIndex(data.items, key);
        if i >= 0 then Dropped(Pass, Written(data.items[..i] + data.items[i + 1..]))
        else Dropped(Pass, Written(data.items))
  }

  /** While the file holds the snapshot of the persisted entries, a persisted delete keeps it so:
      the file ends holding the snapshot of the entries with the key removed. */
  lemma DropKeepsSnapshot(persisted: seq<Pair>, key: Value, strict: bool)
    requires SafePairs(persisted)
    ensures var rest := OrderedMap.Delete(persisted, key);
      && SafePairs(rest)
      && Drop(Holds(Encode(persisted)), rest, key, strict) == Dropped(Pass, Holds(Encode(rest)))
  {
    var rest := OrderedMap.Delete(persisted, key);
    var file := Holds(Encode(persisted));
    DeleteSafe(persisted, key);
    EncodeIsPairList(persisted);
    assert Read(file, rest, strict) == Loaded(Ok(file.doc), file);
    SpliceEncoded(persisted, key);
    var i := KeyIndex(file.doc.items, key);
    if i >= 0 {
      assert Written(file.doc.items[..i] + file.doc.items[i + 1..]) == Holds(Encode(rest));
    } else {
      assert Written(file.doc.items) == Holds(Encode(rest));
    }
  }

  /** When the key is not on file, the file ends holding the list as read, not the persisted
      entries: after the file was removed, a lenient persisted delete leaves `[]` even though an
      entry is still persisted. */
  lemma DropMissWritesListAsRead()
    ensures var kept := [(Str("a"), Num(1))];
      && Drop(Absent, kept, Str("b"), false) == Dropped(Pass, Holds(Arr([])))
      && Holds(Encode(kept)) != Holds(Arr([]))
  {
    var kept := [(Str("a"), Num(1))];
    assert Serialize(Arr([])) == Arr([]);
    assert |Encode(kept).items| == 1;
  }

  /** The file once the constructor has made sure it exists, writing the text `[]` if not. */
  function Created(file: File): (f: File)
    ensures !f.Absent?
    ensures !file.Absent? ==> f == file
  {
    if file.Absent? then Holds(Arr([])) else file
  }

  /** The outcome of construction: the seeded map, or the error that aborts it, and the file. */
  datatype Opened = Opened(result: Result<seq<Pair>, Error>, file: File)

  /** `new OPCache(options)`: create a missing file as `[]`, load it with nothing persisted yet,
      call `validate` on what was loaded, and seed the map with `new Map(loaded)`. */
  function Open(options: Options, file: File): (o: Opened)
    ensures !Persistent(options) ==> o == Opened(Ok([]), file)
    ensures Persistent(options) ==> !o.file.Absent?
    ensures o.result.Ok? ==> OrderedMap.DistinctKeys(o.result.value)
  {
    if !Persistent(options) then Opened(Ok([]), file)
    else
      var l := Read(Created(file), [], options.throwOnCorruption);
      match l.result
      case Err(e) => Opened(Err(e), l.file)
      case Ok(data) =>
        var verdict := if options.validate.Some? then options.validate.value(data) else Pass;
        if verdict.Fail? then Opened(Err(Rejected(verdict.error)), l.file)
        else
          ReadYieldsEntryArrays(Created(file), [], options.throwOnCorruption);
          match NewMap(data)
          case None => Opened(Err(TypeError), l.file)
          case Some(m) => Opened(Ok(m), l.file)
  }

  /** The data `validate` is called with. */
  function LoadedData(options: Options, file: File): Result<Value, Error> {
    Read(Created(file), [], options.throwOnCorruption).result
  }

  /** Without a path the file is never touched and the map starts empty. */
  lemma OpenWithoutPath(options: Options, file: File)
    requires !Persistent(options)
    ensures Open(options, file) == Opened(Ok([]), file)
  {
  }

  /** A missing file is created holding `[]`, and the map starts empty. */
  lemma OpenMissingFile(options: Options)
    requires Persistent(options)
    requires options.validate.Some? ==> options.validate.value(Arr([])) == Pass
    ensures Open(options, Absent) == Opened(Ok([]), Holds(Arr([])))
  {
    assert Serialize(Arr([])) == Arr([]);
    assert Decode([]) == [];
  }

  /** The validation gate: construction succeeds only if `validate` accepts the loaded data, and a
      rejection aborts it with the hook's own reason. */
  lemma ValidationGate(options: Options, file: File, reason: string)
    requires Persistent(options) && options.validate.Some?
    ensures Open(options, file).result.Ok? ==>
      LoadedData(options, file).Ok? && options.validate.value(LoadedData(options, file).value) == Pass
    ensures LoadedData(options, file).Ok? && options.validate.value(LoadedData(options, file).value) == Fail(reason) ==>
      Open(options, file).result == Err(Rejected(reason))
  {
  }

  /** A fresh instance on a file holding a snapshot gets exactly the snapshot's pairs, in order,
      and leaves the file unchanged: what one instance persisted, the next one reads. */
  lemma OpenRestores(options: Options, pairs: seq<Pair>)
    requires Persistent(options)
    requires OrderedMap.DistinctKeys(pairs) && SafePairs(pairs)
    requires options.validate.Some? ==> options.validate.value(Encode(pairs)) == Pass
    ensures Open(options, Holds(Encode(pairs))) == Opened(Ok(pairs), Holds(Encode(pairs)))
  {
    EncodeIsPairList(pairs);
    RoundTrip(pairs);
  }

  /** Loading keeps the last of several entries with the same key. */
  lemma OpenLastDuplicateWins(options: Options, items: seq<Value>, k: Value)
    requires Persistent(options) && options.validate.None?
    requires AllArrays(items)
    ensures var o := Open(options, Holds(Arr(items)));
      && o == Opened(Ok(Decode(items)), Holds(Arr(items)))
      && OrderedMap.Lookup(Decode(items), k) == OrderedMap.LastValue(EntryPairs(items), k)
  {
    var file := Holds(Arr(items));
    assert Classify(file.doc) == PairList;
    assert Read(Created(file), [], options.throwOnCorruption) == Loaded(Ok(file.doc), file);
    assert NewMap(file.doc) == Some(Decode(items));
    OrderedMap.FromPairsLastWins(EntryPairs(items), k);
  }

  /** A lenient load of a document that is not an array rewrites the file and returns the document
      itself, which `new Map` rejects: construction throws a `TypeError` unless the document is
      `null` or the empty string. */
  lemma LenientNonArrayOpen(options: Options, doc: Value)
    requires Persistent(options) && !options.throwOnCorruption && options.validate.None?
    requires !doc.Arr? && doc != Null && doc != Str("") && doc != Undefined
    ensures Open(options, Holds(doc)) == Opened(Err(TypeError), Holds(Arr([])))
  {
    assert Encode([]) == Arr([]);
  }
}
