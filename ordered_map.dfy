/**
  An insertion-ordered associative container with the semantics of a
  JavaScript `Map`: a sequence of entries with pairwise distinct keys, in
  the order in which the keys were first inserted.
 */
module OrderedMap {
  import opened Results

  /** No key occurs twice. */
  ghost predicate DistinctKeys<K, V>(m: seq<(K, V)>) {
    forall i, j | 0 <= i < j < |m| :: m[i].0 != m[j].0
  }

  function KeySet<K, V>(m: seq<(K, V)>): set<K> {
    set i | 0 <= i < |m| :: m[i].0
  }

  /** The position of the first entry with key `k`, or -1. */
  function IndexOf<K(==), V>(m: seq<(K, V)>, k: K): (i: int)
    ensures -1 <= i < |m|
    ensures 0 <= i ==> m[i].0 == k
    ensures forall j | 0 <= j < |m| && (i < 0 || j < i) :: m[j].0 != k
  {
    if m == [] then -1
    else if m[0].0 == k then 0
    else
      var r := IndexOf(m[1..], k);
      if r < 0 then -1 else r + 1
  }

  /** `Map.prototype.get`, with `None` for a missing key. */
  function Lookup<K(==), V>(m: seq<(K, V)>, k: K): (r: Option<V>)
    ensures r.Some? <==> k in KeySet(m)
    ensures r.Some? ==> (k, r.value) in m
  {
    var i := IndexOf(m, k);
    if i < 0 then None else Some(m[i].1)
  }

  /** `Map.prototype.set`: replace the value in place when the key is present, otherwise append. */
  function Set<K(==), V>(m: seq<(K, V)>, k: K, v: V): (r: seq<(K, V)>)
    ensures (k, v) in r
    ensures KeySet(r) == KeySet(m) + {k}
    ensures |r| == if k in KeySet(m) then |m| else |m| + 1
  {
    var i := IndexOf(m, k);
    if i < 0 then
      assert KeySet(m + [(k, v)]) == KeySet(m) + {k} by {
        assert forall l | 0 <= l < |m| :: (m + [(k, v)])[l] == m[l];
        assert (m + [(k, v)])[|m|] == (k, v);
      }
      m + [(k, v)]
    else
      assert KeySet(m[i := (k, v)]) == KeySet(m) + {k} by {
        assert forall l | 0 <= l < |m| :: m[i := (k, v)][l].0 == m[l].0;
      }
      assert m[i := (k, v)][i] == (k, v);
      m[i := (k, v)]
  }

  /** `Map.prototype.delete`: drop the entry for `k`, keeping the others in order. */
  function Delete<K(==), V>(m: seq<(K, V)>, k: K): (r: seq<(K, V)>)
    ensures k !in KeySet(m) ==> r == m
    ensures |r| == if k in KeySet(m) then |m| - 1 else |m|
    ensures forall p | p in r :: p in m
  {
    var i := IndexOf(m, k);
    if i < 0 then m else m[..i] + m[i + 1..]
  }

  /** `new Map(pairs)`: `set` each pair in turn, so a later duplicate key overwrites the value
      but keeps the position of the first occurrence. */
  function FromPairs<K(==), V>(ps: seq<(K, V)>): (r: seq<(K, V)>)
    ensures KeySet(r) == KeySet(ps)
    ensures |r| <= |ps|
  {
    if ps == [] then []
    else
      var last := ps[|ps| - 1];
      assert KeySet(ps) == KeySet(ps[..|ps| - 1]) + {last.0} by {
        assert forall l | 0 <= l < |ps| - 1 :: ps[..|ps| - 1][l] == ps[l];
      }
      Set(FromPairs(ps[..|ps| - 1]), last.0, last.1)
  }

  /** The value of the last pair with key `k`, which `new Map` retains. */
  function LastValue<K(==), V>(ps: seq<(K, V)>, k: K): Option<V> {
    if ps == [] then None
    else if ps[|ps| - 1].0 == k then Some(ps[|ps| - 1].1)
    else LastValue(ps[..|ps| - 1], k)
  }

  /** After `set(k, v)`, `get(k)` is `v`, and every other key keeps its value. */
  lemma SetLookup<K, V>(m: seq<(K, V)>, k: K, v: V, k': K)
    requires DistinctKeys(m)
    ensures Lookup(Set(m, k, v), k') == if k' == k then Some(v) else Lookup(m, k')
  {
    var i := IndexOf(m, k);
    var r := Set(m, k, v);
    var j := IndexOf(r, k');
    if k' == k {
      if i >= 0 { assert r[i] == (k, v); }
      else { assert r[|m|] == (k, v); }
    } else if j >= 0 {
      assert r[j] == m[j];
    } else {
      assert forall l | 0 <= l < |m| && l != i :: r[l] == m[l];
    }
  }

  /** `set` keeps keys distinct, keeps the position of a present key, and appends a new one. */
  lemma SetShape<K, V>(m: seq<(K, V)>, k: K, v: V)
    requires DistinctKeys(m)
    ensures DistinctKeys(Set(m, k, v))
    ensures KeySet(Set(m, k, v)) == KeySet(m) + {k}
    ensures k in KeySet(m) ==> |Set(m, k, v)| == |m| && Set(m, k, v)[IndexOf(m, k)] == (k, v)
    ensures k !in KeySet(m) ==> Set(m, k, v) == m + [(k, v)]
  {
    var r := Set(m, k, v);
    var i := IndexOf(m, k);
    if i >= 0 {
      assert forall l | 0 <= l < |m| :: r[l].0 == m[l].0;
    } else {
      assert forall l | 0 <= l < |m| :: r[l] == m[l];
    }
    assert forall x | x in KeySet(r) :: x in KeySet(m) + {k};
    assert k in KeySet(r) by {
      if i >= 0 { assert r[i].0 == k; } else { assert r[|m|].0 == k; }
    }
    assert forall x | x in KeySet(m) :: x in KeySet(r) by {
      forall x | x in KeySet(m) ensures x in KeySet(r) {
        var l :| 0 <= l < |m| && m[l].0 == x;
        assert r[l].0 == x;
      }
    }
  }

  /** `delete` keeps keys distinct, removes exactly `k` from the keys, and leaves the other
      entries in their order: the entries before `k`'s stay where they are, the ones after it
      move up by one. */
  lemma DeleteShape<K, V>(m: seq<(K, V)>, k: K)
    requires DistinctKeys(m)
    ensures DistinctKeys(Delete(m, k))
    ensures KeySet(Delete(m, k)) == KeySet(m) - {k}
    ensures k in KeySet(m) ==>
      var i := IndexOf(m, k);
      forall l | 0 <= l < |Delete(m, k)| :: Delete(m, k)[l] == if l < i then m[l] else m[l + 1]
  {
    var i := IndexOf(m, k);
    var r := Delete(m, k);
    if i >= 0 {
      assert forall l | 0 <= l < |r| :: r[l] == if l < i then m[l] else m[l + 1];
      forall x | x in KeySet(m) && x != k ensures x in KeySet(r) {
        var l :| 0 <= l < |m| && m[l].0 == x;
        if l < i { assert r[l].0 == x; } else { assert r[l - 1].0 == x; }
      }
    }
  }

  /** After `delete(k)`, `get(k)` finds nothing and every other key keeps its value. */
  lemma DeleteLookup<K, V>(m: seq<(K, V)>, k: K, k': K)
    requires DistinctKeys(m)
    ensures DistinctKeys(Delete(m, k))
    ensures Lookup(Delete(m, k), k') == if k' == k then None else Lookup(m, k')
  {
    DeleteShape(m, k);
    var i := IndexOf(m, k);
    var r := Delete(m, k);
    var j := IndexOf(m, k');
    if i >= 0 && k' != k && j >= 0 {
      var jr := if j < i then j else j - 1;
      assert r[jr] == m[j];
      DistinctLookup(m, j);
      DistinctLookup(r, jr);
    }
  }

  /** With distinct keys, the entry at any position is the one `get` finds for its key. */
  lemma DistinctLookup<K, V>(m: seq<(K, V)>, i: nat)
    requires DistinctKeys(m) && i < |m|
    ensures Lookup(m, m[i].0) == Some(m[i].1)
  {
    var j := IndexOf(m, m[i].0);
    assert j == i;
  }

  /** A container with distinct keys has one entry per key. */
  lemma {:induction false} DistinctSize<K, V>(m: seq<(K, V)>)
    requires DistinctKeys(m)
    ensures |KeySet(m)| == |m|
  {
    if m != [] {
      var p := m[..|m| - 1];
      DistinctSize(p);
      assert KeySet(m) == KeySet(p) + {m[|m| - 1].0};
      assert m[|m| - 1].0 !in KeySet(p);
    }
  }

  /** `new Map(entries)` reproduces a list of entries whose keys are distinct. */
  lemma {:induction false} FromDistinctPairs<K, V>(ps: seq<(K, V)>)
    requires DistinctKeys(ps)
    ensures FromPairs(ps) == ps
  {
    if ps != [] {
      var p := ps[..|ps| - 1];
      var last := ps[|ps| - 1];
      FromDistinctPairs(p);
      assert last.0 !in KeySet(p);
      SetShape(p, last.0, last.1);
      assert p + [last] == ps;
    }
  }

  /** `new Map(pairs)` has distinct keys, and for a duplicated key the last pair wins. */
  lemma {:induction false} FromPairsLastWins<K, V>(ps: seq<(K, V)>, k: K)
    ensures DistinctKeys(FromPairs(ps))
    ensures Lookup(FromPairs(ps), k) == LastValue(ps, k)
  {
    if ps != [] {
      var p := ps[..|ps| - 1];
      var last := ps[|ps| - 1];
      FromPairsLastWins(p, k);
      SetShape(FromPairs(p), last.0, last.1);
      SetLookup(FromPairs(p), last.0, last.1, k);
    }
  }
}
