/** Variable-length decimal text to an `i64` at a target scale, in wrapping arithmetic behind a guard. */
module DynamicExtractor {
  import opened Wrappers
  import opened Words
  import opened Bytes
  import opened IntegerParser
  import opened DecimalText

  const MAX_EXACT_DIGITS: nat := 18

  type Read = Result<int, ParseErr>

  /** A leading sign, of either kind, and the rest. */
  function Signed(data: seq<byte>): (bool, seq<byte>) {
    if data != [] && data[0] == MINUS then (true, data[1..])
    else if data != [] && data[0] == PLUS then (false, data[1..])
    else (false, data)
  }

  function Body(data: seq<byte>): Number {
    SplitAtPoint(Signed(data).1)
  }

  /** Digits and at most one point. */
  predicate Spelled(data: seq<byte>) {
    AllDigits(Body(data).whole) && AllDigits(Body(data).fraction)
  }

  function DigitCount(n: Number): nat {
    |n.whole| + |n.fraction|
  }

  /** `check_exact`. The first guard that objects names the error: a malformed text is never an overflow, and
    * one too long is never a loss of precision. */
  function CheckExact(data: seq<byte>, decimals: nat): Option<ParseErr> {
    var n := Body(data);
    if data == [] then Some(Empty)
    else if !Spelled(data) || DigitCount(n) == 0 then Some(InvalidDigit)
    else if DigitCount(n) > MAX_EXACT_DIGITS then Some(Overflow)
    else if !AllZero(Dropped(n, decimals)) then Some(ParseErr.Precision)
    else None
  }

  /** The accumulator of `parse_digits`. */
  function FoldDigits(s: seq<byte>): int {
    if s == [] then 0
    else if !IsDigit(s[|s| - 1]) then FoldDigits(s[..|s| - 1])
    else AsI64(AsI64(FoldDigits(s[..|s| - 1]) * 10) + (s[|s| - 1] - ZERO))
  }

  /** `adjust_to_target_decimals`. */
  function Adjust(whole: int, fraction: int, count: nat, decimals: nat): int {
    var multiplier := AsI64(Pow10(decimals));
    if count < decimals then AsI64(AsI64(whole * multiplier) + AsI64(fraction * AsI64(Pow10(decimals - count))))
    else if count > decimals then AsI64(AsI64(whole * multiplier) + fraction / Pow10(count - decimals))
    else AsI64(AsI64(whole * multiplier) + fraction)
  }

  function ParseUnsigned(n: Number, hasPoint: bool, decimals: nat): int {
    if hasPoint then Adjust(FoldDigits(n.whole), FoldDigits(n.fraction), |n.fraction|, decimals)
    else AsI64(FoldDigits(n.whole) * AsI64(Pow10(decimals)))
  }

  /** `try_parse` on text that has passed the guard; with no point the fraction is empty. */
  function TryParse(data: seq<byte>, decimals: nat): int {
    var v := ParseUnsigned(Body(data), POINT in Signed(data).1, decimals);
    if Signed(data).0 then AsI64(-v) else v
  }

  /** `to_i64_exact`. */
  function ToI64Exact(data: seq<byte>, decimals: nat): Read {
    if CheckExact(data, decimals).Some? then Err(CheckExact(data, decimals).value) else Ok(TryParse(data, decimals))
  }

  /** `to_u64_exact`. */
  function ToU64Exact(data: seq<byte>, decimals: nat): Read {
    match ToI64Exact(data, decimals)
    case Err(e) => Err(e)
    case Ok(v) => if v < 0 then Err(NegOverflow) else Ok(v)
  }

  /** The loop of `check_exact`: digits are counted and the one point is noted. */
  method ScanBody(body: seq<byte>) returns (ok: bool, digits: nat, point: Option<nat>)
    ensures ok <==> AllDigits(SplitAtPoint(body).whole) && AllDigits(SplitAtPoint(body).fraction)
    ensures ok ==> digits == DigitCount(SplitAtPoint(body))
    ensures ok ==> point == if POINT in body then Some(|SplitAtPoint(body).whole|) else None
  {
    digits, point := 0, None;
    var p := FirstIndex(body, POINT);
    var i := 0;
    while i < |body|
      invariant 0 <= i <= |body|
      invariant forall j :: 0 <= j < i && j != p ==> IsDigit(body[j])
      invariant point == if p < i then Some(p) else None
      invariant digits == if p < i then i - 1 else i
    {
      if IsDigit(body[i]) {
        digits := digits + 1;
      } else if body[i] == POINT && point.None? {
        point := Some(i);
      } else {
        ghost var n := SplitAtPoint(body);
        assert i < p ==> n.whole[i] == body[i];
        assert i > p ==> n.fraction[i - p - 1] == body[i];
        return false, digits, point;
      }
      i := i + 1;
    }
    ok := true;
  }

  /** The loop of `parse_digits`. */
  method ParseDigits(bytes: seq<byte>) returns (result: int)
    ensures result == FoldDigits(bytes)
  {
    result := 0;
    var i := 0;
    while i < |bytes|
      invariant 0 <= i <= |bytes| && result == FoldDigits(bytes[..i])
    {
      assert bytes[..i + 1][..i] == bytes[..i];
      if IsDigit(bytes[i]) {
        result := AsI64(AsI64(result * 10) + (bytes[i] - ZERO));
      }
      i := i + 1;
    }
    assert bytes[..i] == bytes;
  }

  // ------------------------------------------------------------------------------------------------
  // Wrapping arithmetic
  // ------------------------------------------------------------------------------------------------

  /** Wrapping takes off a whole number of laps. */
  lemma Laps(x: int) returns (q: int)
    ensures AsI64(x) == x - U64_LIMIT * q && -I64_LIMIT <= AsI64(x) < I64_LIMIT
  {
    q := x / U64_LIMIT;
    if x % U64_LIMIT >= I64_LIMIT {
      q := q + 1;
    }
  }

  lemma SameLaps(x: int, y: int, q: int)
    requires x == y - U64_LIMIT * q
    ensures AsI64(x) == AsI64(y)
  {
    DivModUnique(y, U64_LIMIT, x / U64_LIMIT + q, x % U64_LIMIT);
  }

  /** An inner wrap does not show in the outcome. */
  lemma WrapSum(a: int, b: int)
    ensures AsI64(AsI64(a) + b) == AsI64(a + b)
  {
    var q := Laps(a);
    SameLaps(AsI64(a) + b, a + b, q);
  }

  lemma WrapProduct(a: int, k: int)
    ensures AsI64(AsI64(a) * k) == AsI64(a * k) && AsI64(k * AsI64(a)) == AsI64(k * a)
  {
    var q := Laps(a);
    assert AsI64(a) * k == a * k - U64_LIMIT * (q * k);
    SameLaps(AsI64(a) * k, a * k, q * k);
    assert k * AsI64(a) == AsI64(a) * k && k * a == a * k;
  }

  lemma WrapSums(a: int, b: int)
    ensures AsI64(AsI64(a) + AsI64(b)) == AsI64(a + b)
  {
    WrapSum(a, AsI64(b));
    WrapSum(b, a);
  }

  // ------------------------------------------------------------------------------------------------
  // What the guarded reader returns
  // ------------------------------------------------------------------------------------------------

  lemma {:induction false} FoldsToValue(s: seq<byte>)
    requires AllDigits(s) && |s| <= 18
    ensures FoldDigits(s) == DigitsValue(s) < I64_LIMIT
  {
    if s != [] {
      FoldsToValue(s[..|s| - 1]);
    }
    Small(s);
    if s != [] {
      Represented(DigitsValue(s[..|s| - 1]) * 10);
      Represented(DigitsValue(s));
    }
  }

  /** Text the guard lets through. */
  predicate Guarded(data: seq<byte>, decimals: nat) {
    Spelled(data) && 0 < DigitCount(Body(data)) <= MAX_EXACT_DIGITS && AllZero(Dropped(Body(data), decimals))
  }

  lemma GuardedIsValid(data: seq<byte>, decimals: nat)
    requires Spelled(data) && DigitCount(Body(data)) > 0
    ensures Body(data).Valid() && data != []
  {
    assert |Body(data).whole + Body(data).fraction| > 0;
  }

  /** The number in units of the scale, with its sign. */
  function Exact(data: seq<byte>, decimals: nat): int
    requires Body(data).Valid()
  {
    if Signed(data).0 then 0 - Scaled(Body(data), decimals) else Scaled(Body(data), decimals)
  }

  lemma WholeTimes(w: int, decimals: nat)
    ensures AsI64(w * AsI64(Pow10(decimals))) == AsI64(w * Pow10(decimals))
  {
    WrapProduct(Pow10(decimals), w);
  }

  lemma ScaledSplits(n: Number, decimals: nat)
    requires n.Valid()
    ensures var kept := Kept(n, decimals);
            Scaled(n, decimals) ==
            DigitsValue(n.whole) * Pow10(decimals) + DigitsValue(kept) * Pow10(decimals - |kept|)
  {
    var kept := Kept(n, decimals);
    DigitsValueConcat(n.whole, kept);
    Pow10Sum(|kept|, decimals - |kept|);
    Spread(DigitsValue(n.whole), Pow10(|kept|), DigitsValue(kept), Pow10(decimals - |kept|));
  }

  lemma Spread(w: nat, p: nat, k: nat, q: nat)
    ensures (w * p + k) * q == w * (p * q) + k * q
  {
  }

  lemma ShortFraction(n: Number, decimals: nat, w: int, f: int)
    requires n.Valid() && |n.fraction| <= decimals && w == DigitsValue(n.whole) && f == DigitsValue(n.fraction)
    ensures Adjust(w, f, |n.fraction|, decimals) == AsI64(Scaled(n, decimals))
  {
    var a, b := w * Pow10(decimals), f * Pow10(decimals - |n.fraction|);
    ScaledSplits(n, decimals);
    WholeTimes(w, decimals);
    WrapSums(a, b);
    WrapProduct(Pow10(decimals - |n.fraction|), f);
    assert AsI64(w * AsI64(Pow10(decimals))) == AsI64(a);
    if |n.fraction| == decimals {
      assert Pow10(0) == 1;
      WrapSum(a, f);
    }
  }

  /** Dividing the fraction digits by the power of ten past the scale leaves the digits kept. */
  lemma DividesOff(n: Number, decimals: nat)
    requires n.Valid() && |n.fraction| > decimals
    ensures DigitsValue(n.fraction) / Pow10(|n.fraction| - decimals) == DigitsValue(Kept(n, decimals))
  {
    var kept, dropped := Kept(n, decimals), Dropped(n, decimals);
    assert n.fraction == kept + dropped;
    DigitsValueConcat(kept, dropped);
    DigitsValueBound(dropped);
    DivisionIs(DigitsValue(n.fraction), DigitsValue(kept), Pow10(|dropped|), DigitsValue(dropped));
  }

  lemma DivisionIs(x: nat, q: nat, d: nat, r: nat)
    requires x == q * d + r && r < d
    ensures x / d == q
  {
    DivModUnique(x, d, q, r);
  }

  lemma LongFraction(n: Number, decimals: nat, w: int, f: int)
    requires n.Valid() && |n.fraction| > decimals && w == DigitsValue(n.whole) && f == DigitsValue(n.fraction)
    ensures Adjust(w, f, |n.fraction|, decimals) == AsI64(Scaled(n, decimals))
  {
    var kept := DigitsValue(Kept(n, decimals));
    var a := w * Pow10(decimals);
    assert Scaled(n, decimals) == a + kept by { ScaledSplits(n, decimals); assert Pow10(0) == 1; }
    DividesOff(n, decimals);
    WholeTimes(w, decimals);
    WrapSum(a, kept);
  }

  lemma UnsignedWrapped(n: Number, hasPoint: bool, decimals: nat)
    requires n.Valid() && DigitCount(n) <= 18 && (!hasPoint ==> n.fraction == [])
    ensures ParseUnsigned(n, hasPoint, decimals) == AsI64(Scaled(n, decimals))
  {
    var w, f := DigitsValue(n.whole), DigitsValue(n.fraction);
    assert FoldDigits(n.whole) == w by { FoldsToValue(n.whole); }
    assert FoldDigits(n.fraction) == f by { FoldsToValue(n.fraction); }
    if !hasPoint {
      NoFraction(n, decimals);
    } else if |n.fraction| <= decimals {
      ShortFraction(n, decimals, w, f);
    } else {
      LongFraction(n, decimals, w, f);
    }
  }

  lemma NoFraction(n: Number, decimals: nat)
    requires n.Valid() && n.fraction == []
    ensures AsI64(DigitsValue(n.whole) * AsI64(Pow10(decimals))) == AsI64(Scaled(n, decimals))
  {
    ScaledSplits(n, decimals);
    WholeTimes(DigitsValue(n.whole), decimals);
  }

  /** The parse is the exact count of units wrapped once. */
  lemma ParsesWrapped(data: seq<byte>, decimals: nat)
    requires Guarded(data, decimals)
    ensures Body(data).Valid() && TryParse(data, decimals) == AsI64(Exact(data, decimals))
  {
    GuardedIsValid(data, decimals);
    var body := Signed(data).1;
    if POINT !in body {
      NoPoint(body);
    }
    UnsignedWrapped(Body(data), POINT in body, decimals);
    NegatedWrap(Scaled(Body(data), decimals));
  }

  lemma NegatedWrap(x: int)
    ensures AsI64(-AsI64(x)) == AsI64(-x)
  {
    WrapProduct(x, -1);
    assert AsI64(x) * -1 == -AsI64(x) && x * -1 == -x;
  }

  lemma NoPoint(body: seq<byte>)
    requires POINT !in body
    ensures SplitAtPoint(body).fraction == []
  {
    FirstIndexAbsent(body, POINT);
  }

  /** The guarded reader returns, for exactly the texts that are well formed, at most eighteen digits long and
    * whole at the scale, the exact count of units wrapped into an `i64`. */
  lemma ReadsWrappedIff(data: seq<byte>, decimals: nat, v: int)
    ensures ToI64Exact(data, decimals) == Ok(v) <==>
            Guarded(data, decimals) && Body(data).Valid() && v == AsI64(Exact(data, decimals))
  {
    if Guarded(data, decimals) {
      ParsesWrapped(data, decimals);
    }
  }

  /** `v` units of the scale are the number, sign and all. */
  predicate DenotesText(data: seq<byte>, v: int, decimals: nat)
    requires Body(data).Valid()
  {
    Denotes(Body(data), if Signed(data).0 then 0 - v else v, decimals)
  }

  /** A value read is the number exactly when that count of units fits an `i64`; otherwise it has wrapped. */
  lemma ReadsExactlyIff(data: seq<byte>, decimals: nat)
    requires Guarded(data, decimals)
    ensures Body(data).Valid()
    ensures ToI64Exact(data, decimals).Ok?
    ensures DenotesText(data, ToI64Exact(data, decimals).value, decimals) <==>
            -I64_LIMIT <= Exact(data, decimals) < I64_LIMIT
  {
    ParsesWrapped(data, decimals);
    OnlyOneCount(data, Exact(data, decimals), AsI64(Exact(data, decimals)), decimals);
    FitsIff(Exact(data, decimals));
  }

  lemma FitsIff(x: int)
    ensures AsI64(x) == x <==> -I64_LIMIT <= x < I64_LIMIT
  {
  }

  lemma OnlyOneCount(data: seq<byte>, exact: int, v: int, decimals: nat)
    requires Body(data).Valid() && AllZero(Dropped(Body(data), decimals)) && exact == Exact(data, decimals)
    ensures DenotesText(data, v, decimals) <==> v == exact
  {
    DenotesIff(Body(data), if Signed(data).0 then 0 - v else v, decimals);
  }

  /** Integer digits and decimals that come to eighteen at most always fit. */
  lemma FitsEighteen(data: seq<byte>, decimals: nat)
    requires Guarded(data, decimals) && |Body(data).whole| + decimals <= 18
    ensures Body(data).Valid() && -I64_LIMIT < Exact(data, decimals) < I64_LIMIT
  {
    GuardedIsValid(data, decimals);
    var n := Body(data);
    var kept := Kept(n, decimals);
    var zeros := Repeat(ZERO, decimals - |kept|);
    var u := n.whole + kept + zeros;
    DigitsValueConcat(n.whole + kept, zeros);
    ZerosValue(zeros);
    Small(u);
  }

  /** One digit more can wrap: eleven nines at eight decimals read as a negative number. */
  lemma NineteenDigitsWrap()
    ensures ToI64Exact(Repeat(0x39, 11), 8) == Ok(-8_446_744_073_809_551_616)
  {
    var s := Repeat(0x39, 11);
    assert s[0] == 0x39;
    NoPoint(s);
    assert Body(s) == Number(s, []) by { FirstIndexAbsent(s, POINT); }
    assert s + [] == s;
    NinesValue();
    assert Pow10(8) == 100_000_000;
    assert Scaled(Body(s), 8) == 99_999_999_999 * 100_000_000;
    ReadsWrappedIff(s, 8, AsI64(Exact(s, 8)));
  }

  lemma NinesValue()
    ensures AllDigits(Repeat(0x39, 11)) && DigitsValue(Repeat(0x39, 11)) == 99_999_999_999
  {
    Nines(11);
    assert Pow10(4) == 10_000;
    assert Pow10(8) == 10_000 * Pow10(4);
    assert Pow10(11) == 1000 * Pow10(8);
  }

  lemma {:induction false} Nines(n: nat)
    ensures AllDigits(Repeat(0x39, n)) && DigitsValue(Repeat(0x39, n)) == Pow10(n) - 1
  {
    if n > 0 {
      Nines(n - 1);
      assert Repeat(0x39, n)[..n - 1] == Repeat(0x39, n - 1);
    }
  }
}
