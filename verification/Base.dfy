/** Byte strings, the widths of the machine integers, and decimal text.

    A byte is the character with the same code. No statement below depends on
    characters above 255 being absent, so each holds for byte strings. */
module Base {
  type Bytes = seq<char>

  datatype Option<+T> = None | Some(value: T) {
    predicate IsFailure() { None? }
    function PropagateFailure<U>(): Option<U> requires None? { None }
    function Extract(): T requires Some? { value }
  }

  datatype Result<+T, +E> = Ok(value: T) | Err(error: E) {
    predicate IsFailure() { Err? }
    function PropagateFailure<U>(): Result<U, E> requires Err? { Err(error) }
    function Extract(): T requires Ok? { value }
  }

  const I64_MAX: int := 0x7FFF_FFFF_FFFF_FFFF
  const I64_MIN: int := -0x8000_0000_0000_0000
  const USIZE_MAX: int := 0xFFFF_FFFF_FFFF_FFFF
  const U128_MAX: int := 0xFFFF_FFFF_FFFF_FFFF_FFFF_FFFF_FFFF_FFFF

  predicate IsI64(n: int) {
    I64_MIN <= n <= I64_MAX
  }

  function Min(a: int, b: int): int {
    if a <= b then a else b
  }

  function Reverse<T>(s: seq<T>): (r: seq<T>)
    ensures |r| == |s|
    ensures forall i :: 0 <= i < |s| ==> r[i] == s[|s| - 1 - i]
  {
    if s == [] then [] else Reverse(s[1..]) + [s[0]]
  }

  function Flatten<T>(ss: seq<seq<T>>): seq<T> {
    if ss == [] then [] else ss[0] + Flatten(ss[1..])
  }

  lemma {:induction false} FlattenAppend<T>(ss: seq<seq<T>>, tt: seq<seq<T>>)
    ensures Flatten(ss + tt) == Flatten(ss) + Flatten(tt)
  {
    if ss == [] {
      assert ss + tt == tt;
    } else {
      assert (ss + tt)[1..] == ss[1..] + tt;
      FlattenAppend(ss[1..], tt);
    }
  }

  lemma FlattenSnoc<T>(ss: seq<seq<T>>, t: seq<T>)
    ensures Flatten(ss + [t]) == Flatten(ss) + t
  {
    FlattenAppend(ss, [t]);
    assert Flatten([t]) == t + Flatten([t][1..]);
  }

  // ---- decimal text ----

  function Digit(d: nat): char
    requires d < 10
  {
    '0' + d as char
  }

  predicate IsDigit(c: char) {
    '0' <= c <= '9'
  }

  predicate AllDigits(s: Bytes) {
    forall i :: 0 <= i < |s| ==> IsDigit(s[i])
  }

  /** The text of a number, as `to_string` writes it. */
  function Dec(n: nat): (s: Bytes)
    ensures 1 <= |s| && AllDigits(s)
  {
    if n < 10 then [Digit(n)] else Dec(n / 10) + [Digit(n % 10)]
  }

  function DecInt(n: int): Bytes {
    if n < 0 then "-" + Dec(-n) else Dec(n)
  }

  function DigitsValue(s: Bytes): nat
    requires AllDigits(s)
  {
    if s == [] then 0 else DigitsValue(s[..|s| - 1]) * 10 + (s[|s| - 1] - '0') as int
  }

  /** `str::parse::<i64>`: an optional sign, at least one digit, and a value in range. */
  function ParseI64(s: Bytes): (r: Option<int>)
    ensures r.Some? ==> IsI64(r.value)
  {
    if s == [] then None
    else if s[0] == '-' then InRange(Unsigned(s[1..]), true)
    else if s[0] == '+' then InRange(Unsigned(s[1..]), false)
    else InRange(Unsigned(s), false)
  }

  function Unsigned(digits: Bytes): Option<nat> {
    if digits == [] || !AllDigits(digits) then None else Some(DigitsValue(digits))
  }

  function InRange(magnitude: Option<nat>, negative: bool): (r: Option<int>)
    ensures r.Some? ==> IsI64(r.value)
  {
    if magnitude.None? then None
    else
      var v: int := if negative then 0 - magnitude.value else magnitude.value;
      if IsI64(v) then Some(v) else None
  }

  lemma {:induction false} DecValue(n: nat)
    ensures DigitsValue(Dec(n)) == n
  {
    if n >= 10 {
      DecValue(n / 10);
      assert Dec(n)[..|Dec(n)| - 1] == Dec(n / 10);
    } else {
      assert Dec(n)[..0] == [];
    }
  }

  /** Decimal text round trip: printing and parsing an i64 gives it back. */
  lemma ParseDecInt(n: int)
    ensures ParseI64(DecInt(n)) == if IsI64(n) then Some(n) else None
  {
    var digits := Dec(if n < 0 then -n else n);
    DecValue(if n < 0 then -n else n);
    if n < 0 {
      assert DecInt(n) == "-" + digits && ("-" + digits)[1..] == digits;
    } else {
      assert IsDigit(digits[0]);
    }
  }

  lemma ParseZero()
    ensures ParseI64("0") == Some(0)
  {
    ParseDecInt(0);
    assert DecInt(0) == "0";
  }

  lemma {:induction false} DecLenMonotone(a: nat, b: nat)
    requires a <= b
    ensures |Dec(a)| <= |Dec(b)|
  {
    if a >= 10 {
      DecLenMonotone(a / 10, b / 10);
    }
  }

  function Pow10(k: nat): nat {
    if k == 0 then 1 else 10 * Pow10(k - 1)
  }

  lemma {:induction false} DecLenBelowPow(n: nat, k: nat)
    requires n < Pow10(k)
    ensures |Dec(n)| <= if k == 0 then 1 else k
  {
    if n >= 10 && k > 0 {
      DecLenBelowPow(n / 10, k - 1);
    }
  }

  lemma {:induction false} DecLenAbovePow(n: nat, k: nat)
    requires n >= Pow10(k)
    ensures |Dec(n)| > k
  {
    if k > 0 {
      DecLenAbovePow(n / 10, k - 1);
    }
  }

  lemma Powers()
    ensures Pow10(18) == 1000000000000000000
    ensures Pow10(19) == 10000000000000000000
    ensures Pow10(20) == 100000000000000000000
  {
    assert Pow10(2) == 100;
    assert Pow10(4) == 10000;
    assert Pow10(6) == 1000000;
    assert Pow10(8) == 100000000;
    assert Pow10(10) == 10000000000;
    assert Pow10(12) == 1000000000000;
    assert Pow10(14) == 100000000000000;
    assert Pow10(16) == 10000000000000000;
    assert Pow10(18) == 1000000000000000000;
  }

  /** A usize prints in at most 20 characters. */
  lemma DecLenUsize(n: nat)
    requires n <= USIZE_MAX
    ensures |Dec(n)| <= 20
  {
    Powers();
    DecLenBelowPow(n, 20);
  }

  /** A positive i64 prints in at most 19 characters. */
  lemma DecLenI64(n: nat)
    requires n <= I64_MAX
    ensures |Dec(n)| <= 19
  {
    Powers();
    DecLenBelowPow(n, 19);
  }

  lemma NineteenDigits(n: nat)
    requires 1000000000000000000 <= n <= I64_MAX
    ensures |Dec(n)| == 19
  {
    DecLenI64(n);
    Powers();
    DecLenAbovePow(n, 18);
  }
}
