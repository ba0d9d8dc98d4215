/** Well-formed UTF-8, as `std::str::from_utf8` accepts it (section 4 of RFC 3629). */
module Utf8 {
  import opened Base

  predicate InRange(s: Bytes, i: nat, lo: int, hi: int) {
    i < |s| && lo <= s[i] as int <= hi
  }

  predicate Tail(s: Bytes, i: nat) {
    InRange(s, i, 0x80, 0xBF)
  }

  /** Length of the well-formed sequence starting at `i`, or 0 when there is none. */
  function SequenceLen(s: Bytes, i: nat): (n: nat)
    requires i < |s|
    ensures i + n <= |s|
  {
    if InRange(s, i, 0x00, 0x7F) then 1
    else if InRange(s, i, 0xC2, 0xDF) && Tail(s, i + 1) then 2
    else if InRange(s, i, 0xE0, 0xE0) && InRange(s, i + 1, 0xA0, 0xBF) && Tail(s, i + 2) then 3
    else if InRange(s, i, 0xE1, 0xEC) && Tail(s, i + 1) && Tail(s, i + 2) then 3
    else if InRange(s, i, 0xED, 0xED) && InRange(s, i + 1, 0x80, 0x9F) && Tail(s, i + 2) then 3
    else if InRange(s, i, 0xEE, 0xEF) && Tail(s, i + 1) && Tail(s, i + 2) then 3
    else if InRange(s, i, 0xF0, 0xF0) && InRange(s, i + 1, 0x90, 0xBF) && Tail(s, i + 2) && Tail(s, i + 3) then 4
    else if InRange(s, i, 0xF1, 0xF3) && Tail(s, i + 1) && Tail(s, i + 2) && Tail(s, i + 3) then 4
    else if InRange(s, i, 0xF4, 0xF4) && InRange(s, i + 1, 0x80, 0x8F) && Tail(s, i + 2) && Tail(s, i + 3) then 4
    else 0
  }

  predicate ValidFrom(s: Bytes, i: nat)
    requires i <= |s|
    decreases |s| - i
  {
    i == |s| || (var n := SequenceLen(s, i); n > 0 && ValidFrom(s, i + n))
  }

  predicate Valid(s: Bytes) {
    ValidFrom(s, 0)
  }

  predicate Ascii(s: Bytes) {
    forall i :: 0 <= i < |s| ==> s[i] as int <= 0x7F
  }

  lemma {:induction false} AsciiIsValid(s: Bytes, i: nat)
    requires Ascii(s) && i <= |s|
    ensures ValidFrom(s, i)
    decreases |s| - i
  {
    if i < |s| {
      AsciiIsValid(s, i + 1);
    }
  }
}
