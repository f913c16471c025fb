/**
  The snapshot codec: how the ordered pairs of a map become the array of
  `[key, value]` arrays a cache file holds, how such an array is turned
  back into a map, and the shape checks a loaded document goes through.
 */
module Snapshot {
  import opened Results
  import opened Json
  import OrderedMap

  type Pair = (Value, Value)

  /** Keys and values that survive a JSON round trip unchanged. */
  ghost predicate SafePairs(pairs: seq<Pair>) {
    forall i | 0 <= i < |pairs| :: JsonSafe(pairs[i].0) && JsonSafe(pairs[i].1)
  }

  /** `[...map]`: each entry as a two-element array. */
  function Entries(pairs: seq<Pair>): (r: seq<Value>)
    ensures |r| == |pairs| && AllArrays(r)
    ensures forall i | 0 <= i < |r| :: EntryKey(r[i]) == pairs[i].0 && EntryValue(r[i]) == pairs[i].1
  {
    seq(|pairs|, i requires 0 <= i < |pairs| => Arr([pairs[i].0, pairs[i].1]))
  }

  /** What the file holds after `writeFile([...map])`. */
  function Encode(pairs: seq<Pair>): (r: Value)
    ensures r.Arr? && |r.items| == |pairs| && AllArrays(r.items)
  {
    var es := Entries(pairs);
    assert forall i | 0 <= i < |es| :: Serialize(Arr(es)).items[i] == Serialize(es[i]);
    Serialize(Arr(es))
  }

  /** `Array.isArray` holds of every member (the `every` test of a loaded document). */
  predicate AllArrays(items: seq<Value>) {
    forall i | 0 <= i < |items| :: items[i].Arr?
  }

  /** The members that are not arrays, in order: the list the strict-mode error names. */
  function NonArrays(items: seq<Value>): (r: seq<Value>)
    ensures |r| <= |items|
    ensures forall i | 0 <= i < |r| :: !r[i].Arr?
  {
    if items == [] then []
    else
      var last := items[|items| - 1];
      NonArrays(items[..|items| - 1]) + (if last.Arr? then [] else [last])
  }

  /** What a loaded document is, as far as corruption is concerned. */
  datatype Shape = NotArray | CorruptEntries | PairList

  /** The two shape checks of a parsed document, in the order they are made. */
  function Classify(v: Value): (r: Shape)
    ensures r == NotArray <==> !v.Arr?
    ensures r == PairList <==> v.Arr? && forall i | 0 <= i < |v.items| :: v.items[i].Arr?
    ensures r == CorruptEntries <==> v.Arr? && exists i | 0 <= i < |v.items| :: !v.items[i].Arr?
  {
    if !v.Arr? then NotArray
    else if !AllArrays(v.items) then CorruptEntries
    else PairList
  }

  /** The key of an entry array, as `([k]) => …` and `new Map` read it: its first element, or undefined. */
  function EntryKey(entry: Value): Value
    requires entry.Arr?
  {
    if |entry.items| > 0 then entry.items[0] else Undefined
  }

  /** The value of an entry array: its second element, or undefined. */
  function EntryValue(entry: Value): Value
    requires entry.Arr?
  {
    if |entry.items| > 1 then entry.items[1] else Undefined
  }

  /** The key and value `new Map` reads from each entry array. */
  function EntryPairs(items: seq<Value>): seq<Pair>
    requires AllArrays(items)
  {
    seq(|items|, i requires 0 <= i < |items| => (EntryKey(items[i]), EntryValue(items[i])))
  }

  /** `new Map(items)` for a list of entry arrays. */
  function Decode(items: seq<Value>): (r: seq<Pair>)
    requires AllArrays(items)
    ensures OrderedMap.DistinctKeys(r)
    ensures OrderedMap.KeySet(r) == OrderedMap.KeySet(EntryPairs(items))
    ensures |r| <= |items|
  {
    OrderedMap.FromPairsLastWins(EntryPairs(items), Undefined);
    OrderedMap.FromPairs(EntryPairs(items))
  }

  /** `new Map(v)` for whatever a load returns: `None` stands for the `TypeError` thrown for a
      value that is not iterable or whose members are not entry objects. */
  function NewMap(v: Value): (r: Option<seq<Pair>>)
    requires v.Arr? ==> AllArrays(v.items)
    ensures r.Some? <==> v.Arr? || v.Undefined? || v.Null? || v == Str("")
    ensures r.Some? ==> OrderedMap.DistinctKeys(r.value)
  {
    match v
    case Arr(items) => Some(Decode(items))
    case Undefined => Some([])
    case Null => Some([])
    case Str(s) => if s == "" then Some([]) else None
    case _ => None
  }

  /** `findIndex(([k]) => k === key)`: the first entry whose key is `key`, or -1. */
  function KeyIndex(items: seq<Value>, key: Value): (i: int)
    requires AllArrays(items)
    ensures -1 <= i < |items|
    ensures 0 <= i ==> EntryKey(items[i]) == key
    ensures forall j | 0 <= j < |items| && (i < 0 || j < i) :: EntryKey(items[j]) != key
  {
    if items == [] then -1
    else if EntryKey(items[0]) == key then 0
    else
      var r := KeyIndex(items[1..], key);
      if r < 0 then -1 else r + 1
  }

  /** A document is classified as entry corruption exactly when it is an array with a
      non-array member, and then the error names at least one member. */
  lemma {:induction false} NonArraysEmpty(items: seq<Value>)
    ensures NonArrays(items) == [] <==> AllArrays(items)
    ensures Classify(Arr(items)) == CorruptEntries <==> NonArrays(items) != []
  {
    if items != [] {
      NonArraysEmpty(items[..|items| - 1]);
      assert forall i | 0 <= i < |items| - 1 :: items[..|items| - 1][i] == items[i];
    }
  }

  /** The error lists exactly the members that are not arrays. */
  lemma {:induction false} NonArraysMembers(items: seq<Value>, x: Value)
    ensures x in NonArrays(items) <==> x in items && !x.Arr?
  {
    if items != [] {
      var p := items[..|items| - 1];
      NonArraysMembers(p, x);
      assert items == p + [items[|items| - 1]];
    }
  }

  /** The list keeps the members' order: it distributes over concatenation. */
  lemma {:induction false} NonArraysAppend(a: seq<Value>, b: seq<Value>)
    ensures NonArrays(a + b) == NonArrays(a) + NonArrays(b)
  {
    if b != [] {
      var b' := b[..|b| - 1];
      NonArraysAppend(a, b');
      assert (a + b)[..|a + b| - 1] == a + b';
    } else {
      assert a + b == a;
    }
  }

  /** An encoded snapshot is an array of entry arrays, one per pair. */
  lemma EncodeIsPairList(pairs: seq<Pair>)
    ensures Encode(pairs).Arr? && |Encode(pairs).items| == |pairs|
    ensures AllArrays(Encode(pairs).items)
    ensures Classify(Encode(pairs)) == PairList
  {
    var es := Entries(pairs);
    forall i | 0 <= i < |pairs| ensures Encode(pairs).items[i].Arr? {
      assert Encode(pairs).items[i] == Serialize(es[i]);
    }
  }

  lemma EntriesSafe(pairs: seq<Pair>)
    requires SafePairs(pairs)
    ensures JsonSafe(Arr(Entries(pairs)))
    ensures Encode(pairs) == Arr(Entries(pairs))
  {
    var es := Entries(pairs);
    forall i | 0 <= i < |es| ensures JsonSafe(es[i]) {
      assert es[i].items == [pairs[i].0, pairs[i].1];
    }
    SerializeKeepsSafe(Arr(es));
  }

  /** Decoding an encoded snapshot gives back its pairs, in order (for JSON-safe keys and values). */
  lemma RoundTrip(pairs: seq<Pair>)
    requires OrderedMap.DistinctKeys(pairs) && SafePairs(pairs)
    ensures Encode(pairs).Arr? && AllArrays(Encode(pairs).items)
    ensures Decode(Encode(pairs).items) == pairs
  {
    EntriesSafe(pairs);
    assert EntryPairs(Entries(pairs)) == pairs;
    OrderedMap.FromDistinctPairs(pairs);
  }

  /** The entry arrays of a map say where each of its keys is. */
  lemma KeyIndexOfEntries(pairs: seq<Pair>, k: Value)
    ensures AllArrays(Entries(pairs))
    ensures KeyIndex(Entries(pairs), k) == OrderedMap.IndexOf(pairs, k)
  {
    var items := Entries(pairs);
    assert forall j | 0 <= j < |items| :: EntryKey(items[j]) == pairs[j].0;
  }

  lemma EntriesSplice(pairs: seq<Pair>, n: nat)
    requires n < |pairs|
    ensures Entries(pairs[..n] + pairs[n + 1..]) == Entries(pairs)[..n] + Entries(pairs)[n + 1..]
  {
  }

  /** `set` of a JSON-safe key and value keeps the persisted pairs JSON-safe. */
  lemma SetSafe(pairs: seq<Pair>, k: Value, v: Value)
    requires SafePairs(pairs) && JsonSafe(k) && JsonSafe(v)
    ensures SafePairs(OrderedMap.Set(pairs, k, v))
  {
    var n := OrderedMap.IndexOf(pairs, k);
    var r := OrderedMap.Set(pairs, k, v);
    assert forall j | 0 <= j < |r| :: r[j] == (if j == n || j == |pairs| then (k, v) else pairs[j]);
  }

  /** `delete` keeps the persisted pairs JSON-safe. */
  lemma DeleteSafe(pairs: seq<Pair>, k: Value)
    requires SafePairs(pairs)
    ensures SafePairs(OrderedMap.Delete(pairs, k))
  {
    var n := OrderedMap.IndexOf(pairs, k);
    if n >= 0 {
      var rest := OrderedMap.Delete(pairs, k);
      assert forall j | 0 <= j < |rest| :: rest[j] == if j < n then pairs[j] else pairs[j + 1];
    }
  }

  /** Removing the first entry whose key is `k` from an encoded snapshot, or writing it back
      unchanged when there is none, gives the encoding of the map with `k` deleted. */
  lemma SpliceEncoded(pairs: seq<Pair>, k: Value)
    requires SafePairs(pairs)
    ensures Encode(pairs).Arr? && AllArrays(Encode(pairs).items)
    ensures
      var items := Encode(pairs).items;
      var i := KeyIndex(items, k);
      (0 <= i ==> Serialize(Arr(items[..i] + items[i + 1..])) == Encode(OrderedMap.Delete(pairs, k)))
      && (i < 0 ==> Serialize(Arr(items)) == Encode(OrderedMap.Delete(pairs, k)))
  {
    EntriesSafe(pairs);
    KeyIndexOfEntries(pairs, k);
    var n := OrderedMap.IndexOf(pairs, k);
    if n >= 0 {
      EntriesSplice(pairs, n);
    }
  }
}
