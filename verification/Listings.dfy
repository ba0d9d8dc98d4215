/** The hash order decides how a listing reads, never whether it is refused. */
module Listings {
  import opened Base
  import opened Limits
  import opened Frames
  import opened Commands
  import opened Semantics
  import opened TtlIndex
  import opened Shards
  import opened Database

  /** A sum over some keys. */
  function Weight(w: Bytes -> nat, keys: seq<Bytes>): nat {
    if keys == [] then 0 else w(keys[0]) + Weight(w, keys[1..])
  }

  lemma {:induction false} WeightAppend(w: Bytes -> nat, a: seq<Bytes>, b: seq<Bytes>)
    ensures Weight(w, a + b) == Weight(w, a) + Weight(w, b)
  {
    if a == [] {
      assert a + b == b;
    } else {
      assert (a + b)[1..] == a[1..] + b;
      WeightAppend(w, a[1..], b);
    }
  }

  lemma {:induction false} WeightIgnoresOrder(w: Bytes -> nat, a: seq<Bytes>, b: seq<Bytes>)
    requires NoDuplicates(a) && NoDuplicates(b) && (forall k :: k in a <==> k in b)
    ensures Weight(w, a) == Weight(w, b) && |a| == |b|
    decreases |a|
  {
    if a == [] {
      FirstIsIn(b);
    } else {
      var x := a[0];
      assert x in a && x in b;
      var j :| 0 <= j < |b| && b[j] == x;
      var b' := b[..j] + b[j + 1..];
      assert b == b[..j] + ([x] + b[j + 1..]);
      WeightAppend(w, b[..j], [x] + b[j + 1..]);
      WeightAppend(w, b[..j], b[j + 1..]);
      assert ([x] + b[j + 1..])[1..] == b[j + 1..];
      Removed(a, b, j);
      WeightIgnoresOrder(w, a[1..], b');
    }
  }

  lemma FirstIsIn(s: seq<Bytes>)
    ensures s != [] ==> s[0] in s
  {
  }

  lemma Removed(a: seq<Bytes>, b: seq<Bytes>, j: nat)
    requires a != [] && j < |b| && b[j] == a[0]
    requires NoDuplicates(a) && NoDuplicates(b) && (forall k :: k in a <==> k in b)
    ensures var b' := b[..j] + b[j + 1..]; NoDuplicates(b') && (forall k :: k in a[1..] <==> k in b')
  {
    var b' := b[..j] + b[j + 1..];
    forall k
      ensures k in a[1..] <==> k in b'
    {
      if k in a[1..] {
        assert k in a && k != a[0];
        var i :| 0 <= i < |b| && b[i] == k;
        assert b'[if i < j then i else i - 1] == k;
      }
      if k in b' {
        var i :| 0 <= i < |b'| && b'[i] == k;
        assert b[if i < j then i else i + 1] == k;
        assert k in b && k != a[0];
        var l :| 0 <= l < |a| && a[l] == k;
        assert a[1..][l - 1] == k;
      }
    }
  }

  function ItemWeight(c: Command, fields: map<Bytes, Bytes>, field: Bytes): nat {
    var value := if field in fields then BulkLen(|fields[field]|) else 0;
    if c.HKeys? then BulkLen(|field|) else if c.HVals? then value else BulkLen(|field|) + value
  }

  /** The items of a listing. */
  function Items(c: Command, fields: map<Bytes, Bytes>, order: seq<Bytes>): seq<Bytes>
    requires forall i :: 0 <= i < |order| ==> order[i] in fields
  {
    if c.HKeys? then order else if c.HVals? then ValuesIn(fields, order) else Interleave(fields, order)
  }

  lemma {:induction false} BulksLenCons(x: Bytes, items: seq<Bytes>)
    ensures BulksLen([x] + items) == BulkLen(|x|) + BulksLen(items)
  {
    if items == [] {
      assert [x] + items == [x];
      assert [x][..0] == [];
    } else {
      var init := items[..|items| - 1];
      assert ([x] + items)[..|items|] == [x] + init;
      BulksLenCons(x, init);
    }
  }

  lemma {:induction false} ItemsWeigh(c: Command, fields: map<Bytes, Bytes>, order: seq<Bytes>)
    requires forall i :: 0 <= i < |order| ==> order[i] in fields
    ensures BulksLen(Items(c, fields, order)) == Weight(Weigher(c, fields), order)
    ensures |Items(c, fields, order)| == if c.HKeys? || c.HVals? then |order| else 2 * |order|
  {
    hide Items, BulkLen, ItemWeight;
    if order == [] {
      NoItems(c, fields);
    } else {
      ItemsWeigh(c, fields, order[1..]);
      ItemsCons(c, fields, order);
    }
  }

  function Weigher(c: Command, fields: map<Bytes, Bytes>): Bytes -> nat {
    f => ItemWeight(c, fields, f)
  }

  lemma NoItems(c: Command, fields: map<Bytes, Bytes>)
    ensures Items(c, fields, []) == []
  {
  }

  lemma ItemsCons(c: Command, fields: map<Bytes, Bytes>, order: seq<Bytes>)
    requires order != [] && (forall i :: 0 <= i < |order| ==> order[i] in fields)
    ensures BulksLen(Items(c, fields, order)) == ItemWeight(c, fields, order[0]) + BulksLen(Items(c, fields, order[1..]))
    ensures |Items(c, fields, order)| == |Items(c, fields, order[1..])| + if c.HKeys? || c.HVals? then 1 else 2
  {
    hide BulksLen, BulkLen;
    var x, rest := order[0], order[1..];
    if c.HKeys? {
      assert order == [x] + rest;
      BulksLenCons(x, rest);
    } else if c.HVals? {
      assert ValuesIn(fields, order) == [fields[x]] + ValuesIn(fields, rest);
      BulksLenCons(fields[x], ValuesIn(fields, rest));
    } else {
      assert [x, fields[x]] + Interleave(fields, rest) == [x] + ([fields[x]] + Interleave(fields, rest));
      BulksLenCons(x, [fields[x]] + Interleave(fields, rest));
      BulksLenCons(fields[x], Interleave(fields, rest));
    }
  }

  /** Every order gives the same answer to whether the listing is refused. */
  lemma RefusalIgnoresOrder(c: Command, fields: map<Bytes, Bytes>, one: seq<Bytes>, two: seq<Bytes>)
    requires Enumerates(one, fields) && Enumerates(two, fields)
    ensures Listing(c, fields, one).Error? <==> Listing(c, fields, two).Error?
  {
    hide Encode, BulksLen;
    WeightIgnoresOrder(Weigher(c, fields), one, two);
    ItemsWeigh(c, fields, one);
    ItemsWeigh(c, fields, two);
    EncodedBulkArrayLen(Items(c, fields, one));
    EncodedBulkArrayLen(Items(c, fields, two));
  }

  /** Whether a command of the store fails is decided by the plain map. */
  lemma SameRefusals(before: Keyspace, c: Command, now: Millis, r: Frame)
    requires ReplyMatches(before, c, now, r)
    ensures r.Error? <==> Step(before, c, now).reply.Error?
  {
    hide Listing, Enumerates;
    if IsListing(c) {
      var cur := LiveAt(before, c.key, now);
      assert cur == Lookup(Live(before, now), c.key);
      assert Step(before, c, now).reply == ListingReply(c, cur);
      if cur.Some? && cur.value.value.Hash? {
        var fields := cur.value.value.fields;
        var order :| Enumerates(order, fields) && r == Listing(c, fields, order);
        RefusalIgnoresOrder(c, fields, order, SomeOrder(fields));
      }
    }
  }
}
