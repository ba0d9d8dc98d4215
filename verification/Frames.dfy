/** Size limits and the response-length arithmetic (`src/limits.rs`). */
module Limits {
  import opened Base

  const MAX_BUFFERED_FRAME_BYTES: nat := 64 * 1024 * 1024
  const MAX_RESPONSE_FRAME_BYTES: nat := 64 * 1024 * 1024
  const MAX_BULK_LEN: nat := MAX_BUFFERED_FRAME_BYTES

  function CheckedAdd(a: nat, b: nat): (r: Option<nat>)
    ensures r.Some? ==> r.value == a + b
    ensures r.None? ==> a + b > USIZE_MAX
  {
    if a + b <= USIZE_MAX then Some(a + b) else None
  }

  /** Length of an encoded bulk string, computed step by step on 64-bit lengths. */
  function RespBulkLen(len: nat): (r: Option<nat>)
    ensures r == if BulkLen(len) <= USIZE_MAX then Some(BulkLen(len)) else None
  {
    var tag :- CheckedAdd(1, |Dec(len)|);
    var header :- CheckedAdd(tag, 2);
    var payload :- CheckedAdd(header, len);
    CheckedAdd(payload, 2)
  }

  function RespArrayHeaderLen(items: nat): (r: Option<nat>)
    ensures r == if HeaderLen(items) <= USIZE_MAX then Some(HeaderLen(items)) else None
  {
    var tag :- CheckedAdd(1, |Dec(items)|);
    CheckedAdd(tag, 2)
  }

  /** The unbounded lengths the checked sums above stand for. */
  function BulkLen(len: nat): nat {
    |Dec(len)| + len + 5
  }

  function HeaderLen(items: nat): nat {
    |Dec(items)| + 3
  }

  predicate BulkResponseFits(len: nat) {
    var n := RespBulkLen(len);
    n.Some? && n.value <= MAX_RESPONSE_FRAME_BYTES
  }

  lemma BulkLenMonotone(a: nat, b: nat)
    requires a <= b
    ensures BulkLen(a) + (b - a) <= BulkLen(b)
  {
    DecLenMonotone(a, b);
  }

  lemma BulkFitsMonotone(a: nat, b: nat)
    requires a <= b && BulkResponseFits(b)
    ensures BulkResponseFits(a)
  {
    BulkLenMonotone(a, b);
  }

  /** `checked_add_response_len`: adds to the running total only while the total stays in bounds. */
  method CheckedAddResponseLen(total: nat, add: nat) returns (ok: bool, newTotal: nat)
    ensures ok <==> total + add <= MAX_RESPONSE_FRAME_BYTES
    ensures newTotal == if ok then total + add else total
  {
    var sum := CheckedAdd(total, add);
    if sum.Some? && sum.value <= MAX_RESPONSE_FRAME_BYTES {
      return true, sum.value;
    }
    return false, total;
  }
}

/** RESP2 frames and their printer (`src/resp/mod.rs`, `src/resp/encoder.rs`). */
module Frames {
  import opened Base
  import opened Limits

  datatype Frame =
    | Simple(text: Bytes)
    | Error(message: Bytes)
    | Integer(n: int)
    | Bulk(data: Bytes)
    | Null
    | NullArray
    | Array(items: seq<Frame>)

  const CRLF: Bytes := "\r\n"

  /** The bytes of a frame. */
  function Encode(f: Frame): Bytes
    decreases f, 1
  {
    match f
    case Simple(s) => "+" + s + CRLF
    case Error(s) => "-" + s + CRLF
    case Integer(n) => ":" + DecInt(n) + CRLF
    case Bulk(b) => "$" + Dec(|b|) + CRLF + b + CRLF
    case Null => "$-1\r\n"
    case NullArray => "*-1\r\n"
    case Array(items) => "*" + Dec(|items|) + CRLF + EncodeAll(items)
  }

  function EncodeAll(items: seq<Frame>): Bytes
    decreases items, 0
  {
    if items == [] then [] else Encode(items[0]) + EncodeAll(items[1..])
  }

  /** `encoded_len`: the length without building the bytes, with checked sums. */
  function EncodedLen(f: Frame): Option<nat>
    decreases f, 1
  {
    match f
    case Simple(s) => CheckedLine(|s|)
    case Error(s) => CheckedLine(|s|)
    case Integer(n) => CheckedLine(|DecInt(n)|)
    case Bulk(b) => RespBulkLen(|b|)
    case Null => Some(5)
    case NullArray => Some(5)
    case Array(items) =>
      var header :- RespArrayHeaderLen(|items|);
      EncodedLenFrom(items, header)
  }

  function CheckedLine(len: nat): Option<nat> {
    var tag :- CheckedAdd(1, len);
    CheckedAdd(tag, 2)
  }

  /** The loop over the items: `len` is the running total. */
  function EncodedLenFrom(items: seq<Frame>, len: nat): Option<nat>
    decreases items, 0
  {
    if items == [] then Some(len)
    else
      var item :- EncodedLen(items[0]);
      var total :- CheckedAdd(len, item);
      EncodedLenFrom(items[1..], total)
  }

  lemma {:induction false} EncodedLenExact(f: Frame)
    ensures EncodedLen(f) == if |Encode(f)| <= USIZE_MAX then Some(|Encode(f)|) else None
    decreases f, 1
  {
    match f
    case Array(items) =>
      if HeaderLen(|items|) <= USIZE_MAX {
        EncodedLenFromExact(items, HeaderLen(|items|));
      }
      assert |Encode(f)| == HeaderLen(|items|) + |EncodeAll(items)|;
    case _ =>
  }

  lemma {:induction false} EncodedLenFromExact(items: seq<Frame>, len: nat)
    requires len <= USIZE_MAX
    ensures EncodedLenFrom(items, len)
         == if len + |EncodeAll(items)| <= USIZE_MAX then Some(len + |EncodeAll(items)|) else None
    decreases items, 0
  {
    if items != [] {
      EncodedLenExact(items[0]);
      if len + |Encode(items[0])| <= USIZE_MAX {
        EncodedLenFromExact(items[1..], len + |Encode(items[0])|);
      }
    }
  }

  lemma {:induction false} EncodeAllAppend(a: seq<Frame>, b: seq<Frame>)
    ensures EncodeAll(a + b) == EncodeAll(a) + EncodeAll(b)
  {
    if a == [] {
      assert a + b == b;
    } else {
      assert (a + b)[1..] == a[1..] + b;
      EncodeAllAppend(a[1..], b);
    }
  }

  lemma EncodeAllSnoc(a: seq<Frame>, f: Frame)
    ensures EncodeAll(a + [f]) == EncodeAll(a) + Encode(f)
  {
    EncodeAllAppend(a, [f]);
    assert [f][1..] == [];
    assert EncodeAll([f]) == Encode(f) + [];
  }

  /** The output buffer `encode` appends to. */
  class OutBuffer {
    var bytes: Bytes

    constructor ()
      ensures bytes == []
    {
      bytes := [];
    }

    method Put(s: Bytes)
      modifies this
      ensures bytes == old(bytes) + s
    {
      bytes := bytes + s;
    }

    method PutLine(tag: Bytes, text: Bytes)
      modifies this
      ensures bytes == old(bytes) + (tag + text + CRLF)
    {
      Put(tag);
      Put(text);
      Put(CRLF);
    }

    method PutFrame(f: Frame)
      modifies this
      ensures bytes == old(bytes) + Encode(f)
      decreases f, 1
    {
      match f
      case Simple(s) => PutLine("+", s);
      case Error(s) => PutLine("-", s);
      case Integer(n) => PutLine(":", DecInt(n));
      case Bulk(b) =>
        PutLine("$", Dec(|b|));
        Put(b);
        Put(CRLF);
        assert bytes == old(bytes) + ("$" + Dec(|b|) + CRLF + b + CRLF);
      case Null => Put("$-1\r\n");
      case NullArray => Put("*-1\r\n");
      case Array(items) =>
        PutLine("*", Dec(|items|));
        PutItems(items);
        assert bytes == old(bytes) + ("*" + Dec(|items|) + CRLF + EncodeAll(items));
    }

    method PutItems(items: seq<Frame>)
      modifies this
      ensures bytes == old(bytes) + EncodeAll(items)
      decreases items, 0
    {
      for i := 0 to |items|
        invariant bytes == old(bytes) + EncodeAll(items[..i])
      {
        PutFrame(items[i]);
        EncodeAllSnoc(items[..i], items[i]);
        assert items[..i + 1] == items[..i] + [items[i]];
      }
      assert items[..|items|] == items;
    }
  }
}
