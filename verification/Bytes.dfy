/** Bytes, machine bounds, and decimal text. */
module Bytes {
  type byte = b: int | 0 <= b < 256

  const U32_LIMIT: int := 0x1_0000_0000
  const U64_LIMIT: int := 0x1_0000_0000_0000_0000
  const I64_LIMIT: int := 0x8000_0000_0000_0000

  /** The `i64` a wrapping computation leaves, `x` being the exact result. */
  function AsI64(x: int): int {
    var m := x % U64_LIMIT;
    if m >= I64_LIMIT then m - U64_LIMIT else m
  }

  /** A result that fits is left alone. */
  lemma Represented(x: int)
    requires -I64_LIMIT <= x < I64_LIMIT
    ensures AsI64(x) == x
  {
  }

  const ZERO: byte := 0x30
  const MINUS: byte := 0x2D
  const PLUS: byte := 0x2B
  const POINT: byte := 0x2E

  predicate IsDigit(b: byte) {
    0x30 <= b <= 0x39
  }

  predicate AllDigits(s: seq<byte>) {
    forall i :: 0 <= i < |s| ==> IsDigit(s[i])
  }

  function Pow10(n: nat): (r: nat)
    ensures r >= 1
  {
    if n == 0 then 1 else 10 * Pow10(n - 1)
  }

  /** The number a string of digits denotes, most significant first. */
  function DigitsValue(s: seq<byte>): nat
    requires AllDigits(s)
  {
    if s == [] then 0 else 10 * DigitsValue(s[..|s| - 1]) + (s[|s| - 1] - ZERO)
  }

  function Repeat(b: byte, n: nat): (s: seq<byte>)
    ensures |s| == n && forall i :: 0 <= i < n ==> s[i] == b
  {
    seq(n, _ => b)
  }

  lemma {:induction false} Pow10Sum(m: nat, n: nat)
    ensures Pow10(m + n) == Pow10(m) * Pow10(n)
  {
    if n > 0 {
      Pow10Sum(m, n - 1);
      assert Pow10(m) * (10 * Pow10(n - 1)) == 10 * (Pow10(m) * Pow10(n - 1));
    }
  }

  lemma Pow10Monotone(m: nat, n: nat)
    requires m <= n
    ensures Pow10(m) <= Pow10(n)
  {
  }

  lemma {:induction false} DigitsValueConcat(a: seq<byte>, b: seq<byte>)
    requires AllDigits(a) && AllDigits(b)
    ensures AllDigits(a + b)
    ensures DigitsValue(a + b) == DigitsValue(a) * Pow10(|b|) + DigitsValue(b)
    decreases |b|
  {
    if b == [] {
      assert a + b == a;
    } else {
      var init := b[..|b| - 1];
      DigitsValueConcat(a, init);
      assert (a + b)[..|a + b| - 1] == a + init;
      assert 10 * (DigitsValue(a) * Pow10(|init|)) == DigitsValue(a) * Pow10(|b|);
    }
  }

  lemma {:induction false} DigitsValueBound(s: seq<byte>)
    requires AllDigits(s)
    ensures DigitsValue(s) < Pow10(|s|)
  {
    if s != [] {
      DigitsValueBound(s[..|s| - 1]);
    }
  }

  lemma {:induction false} ZerosValue(s: seq<byte>)
    requires forall i :: 0 <= i < |s| ==> s[i] == ZERO
    ensures DigitsValue(s) == 0
  {
    if s != [] {
      ZerosValue(s[..|s| - 1]);
    }
  }

  lemma LeadingZeros(z: seq<byte>, s: seq<byte>)
    requires (forall i :: 0 <= i < |z| ==> z[i] == ZERO) && AllDigits(s)
    ensures AllDigits(z + s) && DigitsValue(z + s) == DigitsValue(s)
  {
    ZerosValue(z);
    DigitsValueConcat(z, s);
  }

  /** `n` in decimal, without leading zeros. */
  function Decimal(n: nat): seq<byte> {
    if n < 10 then [ZERO + n] else Decimal(n / 10) + [ZERO + n % 10]
  }

  /** `n` in decimal, zero-padded to at least `width` digits. */
  function Padded(n: nat, width: nat): seq<byte> {
    var digits := Decimal(n);
    if |digits| < width then Repeat(ZERO, width - |digits|) + digits else digits
  }

  /** Printing and reading a number are inverse. */
  lemma {:induction false} DecimalValue(n: nat)
    ensures |Decimal(n)| >= 1 && AllDigits(Decimal(n)) && DigitsValue(Decimal(n)) == n
    ensures n > 0 ==> Decimal(n)[0] != ZERO
  {
    if n >= 10 {
      DecimalValue(n / 10);
      var s := Decimal(n);
      assert s[..|s| - 1] == Decimal(n / 10);
    } else {
      assert DigitsValue([ZERO + n]) == 10 * DigitsValue([ZERO + n][..0]) + n;
    }
  }

  lemma {:induction false} DecimalLength(n: nat, k: nat)
    requires k >= 1 && n < Pow10(k)
    ensures |Decimal(n)| <= k
  {
    if n >= 10 {
      DecimalLength(n / 10, k - 1);
    }
  }

  lemma PaddedValue(n: nat, width: nat)
    requires width >= 1
    ensures AllDigits(Padded(n, width)) && DigitsValue(Padded(n, width)) == n
    ensures n < Pow10(width) ==> |Padded(n, width)| == width
  {
    DecimalValue(n);
    var digits := Decimal(n);
    if |digits| < width {
      LeadingZeros(Repeat(ZERO, width - |digits|), digits);
    }
    if n < Pow10(width) {
      DecimalLength(n, width);
    }
  }

  /** The bytes of a text of ASCII characters. */
  function Ascii(s: string): (bytes: seq<byte>)
    requires forall i :: 0 <= i < |s| ==> s[i] < 128 as char
    ensures |bytes| == |s| && forall i :: 0 <= i < |s| ==> bytes[i] == s[i] as int
  {
    seq(|s|, i requires 0 <= i < |s| => s[i] as int)
  }

  /** The position of the first `b`, or the length of `s` when there is none. */
  function FirstIndex(s: seq<byte>, b: byte): (i: nat)
    ensures i <= |s|
    ensures i < |s| ==> s[i] == b
    ensures forall j :: 0 <= j < i ==> s[j] != b
  {
    if s == [] || s[0] == b then 0 else 1 + FirstIndex(s[1..], b)
  }

  /** A first occurrence is where it is, whatever follows it. */
  lemma FirstIndexAt(a: seq<byte>, b: byte, rest: seq<byte>)
    requires b !in a
    ensures FirstIndex(a + [b] + rest, b) == |a|
  {
    assert (a + [b] + rest)[|a|] == b;
    assert forall j :: 0 <= j < |a| ==> (a + [b] + rest)[j] == a[j];
  }

  lemma FirstIndexAbsent(s: seq<byte>, b: byte)
    requires b !in s
    ensures FirstIndex(s, b) == |s|
  {
  }
}
