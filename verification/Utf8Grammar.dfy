/** Well-formed UTF-8 is exactly what encodes Unicode scalar values (sections 3 and 4 of RFC 3629). */
module Utf8Grammar {
  import opened Base
  import opened Utf8

  /** Code points up to U+10FFFF, without the surrogates. */
  predicate Scalar(u: nat) {
    u < 0xD800 || 0xE000 <= u <= 0x10FFFF
  }

  /** The bytes of a code point: six bits in each byte behind the first. */
  function Utf8Bytes(u: nat): Bytes
    requires Scalar(u)
  {
    if u < 0x80 then [u as char]
    else if u < 0x800 then [(0xC0 + u / 0x40) as char, (0x80 + u % 0x40) as char]
    else if u < 0x10000 then
      [(0xE0 + u / 0x1000) as char, (0x80 + u / 0x40 % 0x40) as char, (0x80 + u % 0x40) as char]
    else
      [(0xF0 + u / 0x40000) as char, (0x80 + u / 0x1000 % 0x40) as char,
       (0x80 + u / 0x40 % 0x40) as char, (0x80 + u % 0x40) as char]
  }

  predicate Scalars(us: seq<nat>) {
    forall i :: 0 <= i < |us| ==> Scalar(us[i])
  }

  function Text(us: seq<nat>): Bytes
    requires Scalars(us)
  {
    if us == [] then [] else Utf8Bytes(us[0]) + Text(us[1..])
  }

  // ---- one code point ----

  lemma StartsAt(s: Bytes, i: nat, u: nat)
    requires Scalar(u) && i + |Utf8Bytes(u)| <= |s| && s[i..i + |Utf8Bytes(u)|] == Utf8Bytes(u)
    ensures SequenceLen(s, i) == |Utf8Bytes(u)|
  {
    var b := Utf8Bytes(u);
    var t := s[i..i + |b|];
    assert forall j :: 0 <= j < |b| ==> t[j] == s[i + j];
    if u >= 0x10000 {
      FourBytes(u);
    } else if u >= 0x800 {
      ThreeBytes(u);
    }
  }

  lemma ThreeBytes(u: nat)
    requires 0x800 <= u < 0x10000
    ensures u == u / 0x1000 * 0x1000 + u / 0x40 % 0x40 * 0x40 + u % 0x40
    ensures u / 0x1000 < 16
  {
    assert u / 0x40 / 0x40 == u / 0x1000;
  }

  lemma FourBytes(u: nat)
    requires 0x10000 <= u <= 0x10FFFF
    ensures u == u / 0x40000 * 0x40000 + u / 0x1000 % 0x40 * 0x1000 + u / 0x40 % 0x40 * 0x40 + u % 0x40
    ensures u / 0x40000 <= 4
  {
    assert u / 0x40 / 0x40 == u / 0x1000 && u / 0x1000 / 0x40 == u / 0x40000;
  }

  /** The code point whose bytes stand at a position. */
  function PointAt(s: Bytes, i: nat): (u: nat)
    requires i < |s| && SequenceLen(s, i) > 0
  {
    var n := SequenceLen(s, i);
    if n == 1 then s[i] as nat
    else if n == 2 then (s[i] as int - 0xC0) * 0x40 + (s[i + 1] as int - 0x80)
    else if n == 3 then (s[i] as int - 0xE0) * 0x1000 + (s[i + 1] as int - 0x80) * 0x40 + (s[i + 2] as int - 0x80)
    else
      (s[i] as int - 0xF0) * 0x40000 + (s[i + 1] as int - 0x80) * 0x1000
      + (s[i + 2] as int - 0x80) * 0x40 + (s[i + 3] as int - 0x80)
  }

  lemma Shift(high: nat, low: nat)
    requires low < 0x40
    ensures (high * 0x40 + low) / 0x40 == high && (high * 0x40 + low) % 0x40 == low
  {
  }

  lemma Sextets(a: nat, b: nat, c: nat, d: nat)
    requires b < 0x40 && c < 0x40 && d < 0x40
    ensures var u := a * 0x40000 + b * 0x1000 + c * 0x40 + d;
      u / 0x40000 == a && u / 0x1000 == a * 0x40 + b && u / 0x1000 % 0x40 == b && u / 0x40 % 0x40 == c && u % 0x40 == d
  {
    var u2, u3 := a * 0x1000 + b * 0x40 + c, a * 0x40 + b;
    var u := u2 * 0x40 + d;
    Shift(u2, d);
    Shift(u3, c);
    Shift(a, b);
    assert u / 0x1000 == u / 0x40 / 0x40 == u3;
    assert u / 0x40000 == u / 0x1000 / 0x40 == a;
  }

  lemma PointStands(s: Bytes, i: nat)
    requires i < |s| && SequenceLen(s, i) > 0
    ensures var u := PointAt(s, i); Scalar(u) && s[i..i + SequenceLen(s, i)] == Utf8Bytes(u)
  {
    var n, t := SequenceLen(s, i), s[i..i + SequenceLen(s, i)];
    assert forall j :: 0 <= j < n ==> t[j] == s[i + j];
    if n == 2 {
      TwoStand(t);
    } else if n == 3 {
      ThreeStand(t);
    } else if n == 4 {
      FourStand(t);
    }
  }

  lemma TwoStand(t: Bytes)
    requires |t| == 2 && SequenceLen(t, 0) == 2
    ensures Scalar(PointAt(t, 0)) && t == Utf8Bytes(PointAt(t, 0))
  {
    Sextets(0, 0, t[0] as int - 0xC0, t[1] as int - 0x80);
  }

  lemma ThreeStand(t: Bytes)
    requires |t| == 3 && SequenceLen(t, 0) == 3
    ensures Scalar(PointAt(t, 0)) && t == Utf8Bytes(PointAt(t, 0))
  {
    Sextets(0, t[0] as int - 0xE0, t[1] as int - 0x80, t[2] as int - 0x80);
  }

  lemma FourStand(t: Bytes)
    requires |t| == 4 && SequenceLen(t, 0) == 4
    ensures Scalar(PointAt(t, 0)) && t == Utf8Bytes(PointAt(t, 0))
  {
    Sextets(t[0] as int - 0xF0, t[1] as int - 0x80, t[2] as int - 0x80, t[3] as int - 0x80);
  }

  // ---- whole strings ----

  lemma {:induction false} TextIsValid(s: Bytes, i: nat, us: seq<nat>)
    requires i <= |s| && Scalars(us) && s[i..] == Text(us)
    ensures ValidFrom(s, i)
    decreases |us|
  {
    hide SequenceLen, Utf8Bytes;
    if us != [] {
      var b := Utf8Bytes(us[0]);
      assert s[i..i + |b|] == s[i..][..|b|] == b;
      assert s[i + |b|..] == s[i..][|b|..] == Text(us[1..]);
      assert Utf8Bytes(us[0]) != [] by {
        SomeBytes(us[0]);
      }
      StartsAt(s, i, us[0]);
      TextIsValid(s, i + |b|, us[1..]);
    }
  }

  lemma SomeBytes(u: nat)
    requires Scalar(u)
    ensures Utf8Bytes(u) != []
  {
  }

  lemma {:induction false} ValidIsText(s: Bytes, i: nat) returns (us: seq<nat>)
    requires i <= |s| && ValidFrom(s, i)
    ensures Scalars(us) && s[i..] == Text(us)
    decreases |s| - i
  {
    hide SequenceLen, Utf8Bytes, PointAt;
    us := [];
    if i < |s| {
      var n, u := SequenceLen(s, i), PointAt(s, i);
      PointStands(s, i);
      var rest := ValidIsText(s, i + n);
      us := [u] + rest;
      assert us[1..] == rest;
      assert s[i..] == s[i..i + n] + s[i + n..];
    }
  }

  /** A string is accepted as UTF-8 exactly if it is the encoding of some scalar values. */
  lemma ValidIffEncoded(s: Bytes)
    ensures Valid(s) <==> exists us :: Scalars(us) && s == Text(us)
  {
    hide ValidFrom, Text;
    assert s[0..] == s;
    if Valid(s) {
      var us := ValidIsText(s, 0);
    }
    if us :| Scalars(us) && s == Text(us) {
      TextIsValid(s, 0, us);
    }
  }
}
