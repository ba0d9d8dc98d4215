/** The order of byte strings, and sorting by key (`sort_by` on keys, `dedup`). */
module Ordering {
  import opened Base
  import opened Semantics

  /** Byte by byte, a shorter string before its extensions. */
  predicate Less(a: Bytes, b: Bytes) {
    b != [] && (a == [] || a[0] < b[0] || (a[0] == b[0] && Less(a[1..], b[1..])))
  }

  lemma {:induction false} LessIsTotal(a: Bytes, b: Bytes)
    ensures Less(a, b) || a == b || Less(b, a)
    ensures Less(a, b) ==> a != b && !Less(b, a)
  {
    if a != [] && b != [] && a[0] == b[0] {
      assert a == [a[0]] + a[1..] && b == [b[0]] + b[1..];
      LessIsTotal(a[1..], b[1..]);
    }
  }

  lemma {:induction false} LessTransitive(a: Bytes, b: Bytes, c: Bytes)
    requires Less(a, b) && Less(b, c)
    ensures Less(a, c)
  {
    if a != [] && a[0] == b[0] && b[0] == c[0] {
      LessTransitive(a[1..], b[1..], c[1..]);
    }
  }

  /** Each key before the next, so no key twice. */
  ghost predicate InKeyOrder<V>(pairs: seq<(Bytes, V)>) {
    forall i, j :: 0 <= i < j < |pairs| ==> Less(pairs[i].0, pairs[j].0)
  }

  /** The pairs of the map, each once. */
  ghost predicate Lists<V>(pairs: seq<(Bytes, V)>, m: map<Bytes, V>) {
    && (forall i :: 0 <= i < |pairs| ==> pairs[i].0 in m && m[pairs[i].0] == pairs[i].1)
    && (forall k :: k in m ==> exists i :: 0 <= i < |pairs| && pairs[i].0 == k)
    && (forall i, j :: 0 <= i < j < |pairs| ==> pairs[i].0 != pairs[j].0)
  }

  function Inserted<V>(pairs: seq<(Bytes, V)>, p: (Bytes, V)): seq<(Bytes, V)> {
    if pairs == [] || Less(p.0, pairs[0].0) then [p] + pairs
    else [pairs[0]] + Inserted(pairs[1..], p)
  }

  /** The pairs sorted by key. */
  function Sorted<V>(pairs: seq<(Bytes, V)>): seq<(Bytes, V)> {
    if pairs == [] then [] else Inserted(Sorted(pairs[1..]), pairs[0])
  }

  lemma {:induction false} InsertedHas<V>(pairs: seq<(Bytes, V)>, p: (Bytes, V), q: (Bytes, V))
    ensures q in Inserted(pairs, p) <==> q in pairs || q == p
  {
    if pairs != [] && !Less(p.0, pairs[0].0) {
      InsertedHas(pairs[1..], p, q);
      assert q in pairs <==> q == pairs[0] || q in pairs[1..];
    }
  }

  lemma {:induction false} InsertedInOrder<V>(pairs: seq<(Bytes, V)>, p: (Bytes, V))
    requires InKeyOrder(pairs) && forall i :: 0 <= i < |pairs| ==> pairs[i].0 != p.0
    ensures InKeyOrder(Inserted(pairs, p))
  {
    var r := Inserted(pairs, p);
    if pairs == [] {
    } else if Less(p.0, pairs[0].0) {
      forall j | 1 <= j < |r|
        ensures Less(p.0, r[j].0)
      {
        if j > 1 {
          LessTransitive(p.0, pairs[0].0, pairs[j - 1].0);
        }
      }
    } else {
      LessIsTotal(p.0, pairs[0].0);
      InsertedInOrder(pairs[1..], p);
      forall j | 1 <= j < |r|
        ensures Less(pairs[0].0, r[j].0)
      {
        assert r[j] in Inserted(pairs[1..], p);
        InsertedHas(pairs[1..], p, r[j]);
      }
    }
  }

  lemma {:induction false} SortedHas<V>(pairs: seq<(Bytes, V)>, q: (Bytes, V))
    ensures q in Sorted(pairs) <==> q in pairs
  {
    if pairs != [] {
      SortedHas(pairs[1..], q);
      InsertedHas(Sorted(pairs[1..]), pairs[0], q);
      assert q in pairs <==> q == pairs[0] || q in pairs[1..];
    }
  }

  lemma {:induction false} SortedInOrder<V>(pairs: seq<(Bytes, V)>)
    requires forall i, j :: 0 <= i < j < |pairs| ==> pairs[i].0 != pairs[j].0
    ensures InKeyOrder(Sorted(pairs))
  {
    if pairs != [] {
      var rest := Sorted(pairs[1..]);
      SortedInOrder(pairs[1..]);
      forall i | 0 <= i < |rest|
        ensures rest[i].0 != pairs[0].0
      {
        SortedHas(pairs[1..], rest[i]);
      }
      InsertedInOrder(rest, pairs[0]);
    }
  }

  lemma InOrderIsDistinct<V>(pairs: seq<(Bytes, V)>)
    requires InKeyOrder(pairs)
    ensures forall i, j :: 0 <= i < j < |pairs| ==> pairs[i].0 != pairs[j].0
  {
    forall i, j | 0 <= i < j < |pairs|
      ensures pairs[i].0 != pairs[j].0
    {
      LessIsTotal(pairs[i].0, pairs[j].0);
    }
  }

  lemma SortedLists<V>(pairs: seq<(Bytes, V)>, m: map<Bytes, V>)
    requires Lists(pairs, m)
    ensures Lists(Sorted(pairs), m) && InKeyOrder(Sorted(pairs))
  {
    var r := Sorted(pairs);
    SortedInOrder(pairs);
    InOrderIsDistinct(r);
    forall i | 0 <= i < |r|
      ensures r[i].0 in m && m[r[i].0] == r[i].1
    {
      SortedHas(pairs, r[i]);
    }
    forall k | k in m
      ensures exists i :: 0 <= i < |r| && r[i].0 == k
    {
      var i :| 0 <= i < |pairs| && pairs[i].0 == k;
      SortedHas(pairs, pairs[i]);
    }
  }

  /** Two sorted listings of a map start with the same pair. */
  lemma SameFirst<V>(a: seq<(Bytes, V)>, b: seq<(Bytes, V)>, m: map<Bytes, V>)
    requires Lists(a, m) && Lists(b, m) && InKeyOrder(a) && InKeyOrder(b) && a != []
    ensures b != [] && a[0] == b[0]
  {
    assert a[0].0 in m;
    var j :| 0 <= j < |b| && b[j].0 == a[0].0;
    assert b[0].0 in m;
    var i :| 0 <= i < |a| && a[i].0 == b[0].0;
    if i > 0 && j > 0 {
      assert Less(a[0].0, a[i].0) && Less(b[0].0, b[j].0);
      LessIsTotal(a[0].0, b[0].0);
      assert false;
    }
  }

  lemma RestLists<V>(a: seq<(Bytes, V)>, m: map<Bytes, V>)
    requires Lists(a, m) && InKeyOrder(a) && a != []
    ensures Lists(a[1..], m - {a[0].0}) && InKeyOrder(a[1..])
  {
    var rest, n := a[1..], m - {a[0].0};
    forall k | k in n
      ensures exists i :: 0 <= i < |rest| && rest[i].0 == k
    {
      var i :| 0 <= i < |a| && a[i].0 == k;
      assert rest[i - 1].0 == k;
    }
  }

  /** A map has one sorted listing. */
  lemma {:induction false} OneListing<V>(a: seq<(Bytes, V)>, b: seq<(Bytes, V)>, m: map<Bytes, V>)
    requires Lists(a, m) && Lists(b, m) && InKeyOrder(a) && InKeyOrder(b)
    ensures a == b
    decreases |a|
  {
    hide Less, InKeyOrder;
    if a == [] {
      if b != [] {
        SameFirst(b, a, m);
      }
    } else {
      SameFirst(a, b, m);
      RestLists(a, m);
      RestLists(b, m);
      OneListing(a[1..], b[1..], m - {a[0].0});
      assert a == [a[0]] + a[1..] && b == [b[0]] + b[1..];
    }
  }

  function PairsOf<V>(m: map<Bytes, V>, order: seq<Bytes>): (pairs: seq<(Bytes, V)>)
    requires forall i :: 0 <= i < |order| ==> order[i] in m
    ensures |pairs| == |order|
  {
    seq(|order|, i requires 0 <= i < |order| => (order[i], m[order[i]]))
  }

  lemma EnumerationLists<V>(order: seq<Bytes>, m: map<Bytes, V>)
    requires Enumerates(order, m)
    ensures Lists(PairsOf(m, order), m)
  {
    var pairs := PairsOf(m, order);
    forall k | k in m
      ensures exists i :: 0 <= i < |pairs| && pairs[i].0 == k
    {
      var i :| 0 <= i < |order| && order[i] == k;
      assert pairs[i].0 == k;
    }
  }

  /** The pairs of a map in the order of the keys. */
  ghost function Listed<V>(m: map<Bytes, V>): (pairs: seq<(Bytes, V)>)
    ensures Lists(pairs, m) && InKeyOrder(pairs)
  {
    EnumerationLists(SomeOrder(m), m);
    SortedLists(PairsOf(m, SomeOrder(m)), m);
    Sorted(PairsOf(m, SomeOrder(m)))
  }

  /** However a hash table is walked, sorting by key yields the same listing. */
  lemma SortedIsListed<V>(pairs: seq<(Bytes, V)>, m: map<Bytes, V>)
    requires Lists(pairs, m)
    ensures Sorted(pairs) == Listed(m)
  {
    hide Listed, Sorted;
    SortedLists(pairs, m);
    OneListing(Sorted(pairs), Listed(m), m);
  }

  // ---- keys on their own ----

  ghost predicate Ascending(keys: seq<Bytes>) {
    forall i, j :: 0 <= i < j < |keys| ==> Less(keys[i], keys[j])
  }

  function InsertedKey(keys: seq<Bytes>, k: Bytes): seq<Bytes> {
    if keys == [] || Less(k, keys[0]) then [k] + keys
    else if k == keys[0] then keys
    else [keys[0]] + InsertedKey(keys[1..], k)
  }

  /** The keys sorted, each once. */
  function SortedOnce(keys: seq<Bytes>): seq<Bytes> {
    if keys == [] then [] else InsertedKey(SortedOnce(keys[1..]), keys[0])
  }

  lemma {:induction false} InsertedKeyHas(keys: seq<Bytes>, k: Bytes, q: Bytes)
    ensures q in InsertedKey(keys, k) <==> q in keys || q == k
  {
    if keys != [] && !Less(k, keys[0]) && k != keys[0] {
      InsertedKeyHas(keys[1..], k, q);
      assert q in keys <==> q == keys[0] || q in keys[1..];
    }
  }

  lemma {:induction false} InsertedKeyAscends(keys: seq<Bytes>, k: Bytes)
    requires Ascending(keys)
    ensures Ascending(InsertedKey(keys, k))
  {
    var r := InsertedKey(keys, k);
    if keys == [] {
    } else if Less(k, keys[0]) {
      forall j | 1 <= j < |r|
        ensures Less(k, r[j])
      {
        if j > 1 {
          LessTransitive(k, keys[0], keys[j - 1]);
        }
      }
    } else if k != keys[0] {
      LessIsTotal(k, keys[0]);
      InsertedKeyAscends(keys[1..], k);
      forall j | 1 <= j < |r|
        ensures Less(keys[0], r[j])
      {
        InsertedKeyHas(keys[1..], k, r[j]);
      }
    }
  }

  lemma {:induction false} SortedOnceIs(keys: seq<Bytes>)
    ensures Ascending(SortedOnce(keys))
    ensures forall q :: q in SortedOnce(keys) <==> q in keys
  {
    if keys != [] {
      SortedOnceIs(keys[1..]);
      InsertedKeyAscends(SortedOnce(keys[1..]), keys[0]);
      forall q
        ensures q in SortedOnce(keys) <==> q in keys
      {
        InsertedKeyHas(SortedOnce(keys[1..]), keys[0], q);
        assert q in keys <==> q == keys[0] || q in keys[1..];
      }
    }
  }
}
