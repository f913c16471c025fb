/**
  JavaScript values as far as the cache stores them, and the value-level
  effect of writing a value with `JSON.stringify` and reading it back with
  `JSON.parse`.  Text-level JSON syntax is not modelled: a file holds the
  value that parsing its text yields.
 */
module Json {

  /** A named member of a plain object. */
  datatype Member = Member(name: string, value: Value)

  /** The JavaScript values a cache entry can hold.  `Undefined` is what
      `Map.get` returns for a missing key and what reading past the end of
      an array yields; it has no JSON form. */
  datatype Value =
    | Undefined
    | Null
    | Bool(b: bool)
    | Num(n: int)
    | Str(s: string)
    | Arr(items: seq<Value>)
    | Obj(members: seq<Member>)

  /** A value that contains no `undefined` anywhere: JSON represents it exactly. */
  predicate JsonSafe(v: Value) {
    match v
    case Undefined => false
    case Arr(xs) => forall i | 0 <= i < |xs| :: JsonSafe(xs[i])
    case Obj(ms) => forall i | 0 <= i < |ms| :: JsonSafe(ms[i].value)
    case _ => true
  }

  /** The members of an object that `JSON.stringify` keeps: those whose value is not undefined. */
  function Defined(ms: seq<Member>): (r: seq<Member>)
    ensures forall i | 0 <= i < |r| :: !r[i].value.Undefined?
    ensures (forall i | 0 <= i < |ms| :: !ms[i].value.Undefined?) ==> r == ms
  {
    if ms == [] then []
    else if ms[0].value.Undefined? then Defined(ms[1..])
    else [ms[0]] + Defined(ms[1..])
  }

  /** `JSON.parse(JSON.stringify(v))` for a value that sits inside an array:
      `undefined` becomes `null` and undefined object members disappear. */
  function Serialize(v: Value): (r: Value)
    ensures !r.Undefined?
    ensures v.Arr? <==> r.Arr?
    ensures v.Arr? ==> |r.items| == |v.items|
  {
    match v
    case Undefined => Null
    case Arr(xs) => Arr(seq(|xs|, i requires 0 <= i < |xs| => Serialize(xs[i])))
    case Obj(ms) =>
      Obj(Defined(seq(|ms|, i requires 0 <= i < |ms| =>
        Member(ms[i].name, if ms[i].value.Undefined? then Undefined else Serialize(ms[i].value)))))
    case _ => v
  }

  /** Writing and re-reading a JSON-safe value gives it back unchanged. */
  lemma {:induction false} SerializeKeepsSafe(v: Value)
    requires JsonSafe(v)
    ensures Serialize(v) == v
  {
    match v
    case Arr(xs) =>
      forall i | 0 <= i < |xs| ensures Serialize(xs[i]) == xs[i] {
        SerializeKeepsSafe(xs[i]);
      }
      assert Serialize(v).items == xs;
    case Obj(ms) =>
      var ms' := seq(|ms|, i requires 0 <= i < |ms| =>
        Member(ms[i].name, if ms[i].value.Undefined? then Undefined else Serialize(ms[i].value)));
      forall i | 0 <= i < |ms| ensures ms'[i] == ms[i] {
        SerializeKeepsSafe(ms[i].value);
      }
      assert ms' == ms;
    case _ =>
  }

  /** What a file holds after a write is always JSON-safe. */
  lemma {:induction false} SerializeIsSafe(v: Value)
    ensures JsonSafe(Serialize(v))
  {
    match v
    case Arr(xs) =>
      forall i | 0 <= i < |xs| ensures JsonSafe(Serialize(v).items[i]) {
        SerializeIsSafe(xs[i]);
      }
    case Obj(ms) =>
      var ms' := seq(|ms|, i requires 0 <= i < |ms| =>
        Member(ms[i].name, if ms[i].value.Undefined? then Undefined else Serialize(ms[i].value)));
      forall i | 0 <= i < |ms'| ensures !ms'[i].value.Undefined? ==> JsonSafe(ms'[i].value) {
        if !ms[i].value.Undefined? { SerializeIsSafe(ms[i].value); }
      }
      DefinedSafe(ms');
    case _ =>
  }

  lemma {:induction false} DefinedSafe(ms: seq<Member>)
    requires forall i | 0 <= i < |ms| :: !ms[i].value.Undefined? ==> JsonSafe(ms[i].value)
    ensures forall i | 0 <= i < |Defined(ms)| :: JsonSafe(Defined(ms)[i].value)
  {
    if ms != [] {
      DefinedSafe(ms[1..]);
    }
  }

  /** Writing a file twice from what was read gives the same contents. */
  lemma SerializeIdempotent(v: Value)
    ensures Serialize(Serialize(v)) == Serialize(v)
  {
    SerializeIsSafe(v);
    SerializeKeepsSafe(Serialize(v));
  }
}
