/** Exponent notation written out in full, digit for digit. */
module PlainDecimal {
  import opened Wrappers
  import opened Bytes
  import opened IntegerParser
  import opened DecimalText
  import DynamicExtractor

  const PLAIN_DECIMAL_LEN: nat := 64

  /** A number in exponent form: the mantissa's digits, where its point sits among them, the exponent. */
  datatype Sci = Sci(negative: bool, digits: seq<byte>, point: nat, exponent: int) {
    predicate Valid() {
      digits != [] && AllDigits(digits) && point <= |digits|
    }

    /** The place of the last digit once the exponent is applied. */
    function Place(): int {
      exponent - (|digits| - point)
    }
  }

  predicate IsE(b: byte) {
    b == 0x45 || b == 0x65
  }

  function ExponentAt(s: seq<byte>): (i: nat)
    ensures i <= |s|
    ensures i < |s| ==> IsE(s[i])
    ensures forall j :: 0 <= j < i ==> !IsE(s[j])
  {
    if s == [] || IsE(s[0]) then 0 else 1 + ExponentAt(s[1..])
  }

  function ParseExponent(s: seq<byte>): Option<int> {
    var (negative, digits) := DynamicExtractor.Signed(s);
    if digits == [] || |digits| > 3 || !AllDigits(digits) then None
    else Some(if negative then 0 - DigitsValue(digits) else DigitsValue(digits))
  }

  function ParseSci(bytes: seq<byte>): (r: Option<Sci>)
    ensures r.Some? ==> r.value.Valid()
  {
    var e := ExponentAt(bytes);
    if e == |bytes| then None
    else
      var (negative, mantissa) := DynamicExtractor.Signed(bytes[..e]);
      var n := SplitAtPoint(mantissa);
      var exponent := ParseExponent(bytes[e + 1..]);
      if !AllDigits(n.whole) || !AllDigits(n.fraction) || n.whole + n.fraction == [] || exponent.None? then None
      else Some(Sci(negative, n.whole + n.fraction, |n.whole|, exponent.value))
  }

  /** The three forms: all fraction, no fraction, and the point among the digits. */
  function Unsigned(s: Sci): seq<byte>
    requires s.Valid()
  {
    var shifted := s.point + s.exponent;
    if shifted <= 0 then [ZERO, POINT] + Repeat(ZERO, -shifted) + s.digits
    else if shifted >= |s.digits| then s.digits + Repeat(ZERO, shifted - |s.digits|)
    else s.digits[..shifted] + [POINT] + s.digits[shifted..]
  }

  function Written(s: Sci): seq<byte>
    requires s.Valid()
  {
    (if s.negative then [MINUS] else []) + Unsigned(s)
  }

  /** `plain_decimal`: nothing when there is no exponent, or no room. */
  function Plain(bytes: seq<byte>): Option<seq<byte>> {
    match ParseSci(bytes)
    case None => None
    case Some(s) =>
      if |s.digits| > PLAIN_DECIMAL_LEN || |Written(s)| > PLAIN_DECIMAL_LEN then None else Some(Written(s))
  }

  // ------------------------------------------------------------------------------------------------
  // The rewriter
  // ------------------------------------------------------------------------------------------------

  /** The buffer and how much of it is written. */
  class Output {
    var buf: array<byte>
    var len: nat

    ghost predicate Valid()
      reads this
    {
      len <= buf.Length == PLAIN_DECIMAL_LEN
    }

    ghost function Text(): seq<byte>
      reads this, buf
      requires Valid()
    {
      buf[..len]
    }

    constructor ()
      ensures Valid() && fresh(buf) && Text() == []
    {
      buf := new byte[PLAIN_DECIMAL_LEN](_ => ZERO);
      len := 0;
    }

    method Push(b: byte) returns (ok: bool)
      requires Valid()
      modifies this`len, buf
      ensures Valid()
      ensures ok <==> old(|Text()|) < PLAIN_DECIMAL_LEN
      ensures Text() == if ok then old(Text()) + [b] else old(Text())
    {
      if len == PLAIN_DECIMAL_LEN {
        return false;
      }
      buf[len] := b;
      len := len + 1;
      return true;
    }

    method PushAll(s: seq<byte>) returns (ok: bool)
      requires Valid()
      modifies this`len, buf
      ensures Valid()
      ensures ok <==> old(|Text()|) + |s| <= PLAIN_DECIMAL_LEN
      ensures ok ==> Text() == old(Text()) + s
    {
      var i := 0;
      while i < |s|
        invariant 0 <= i <= |s| && Valid() && Text() == old(Text()) + s[..i]
      {
        ok := Push(s[i]);
        if !ok {
          return;
        }
        assert s[..i + 1] == s[..i] + [s[i]];
        i := i + 1;
      }
      assert s[..i] == s;
      return true;
    }

    method PushZeros(n: nat) returns (ok: bool)
      requires Valid()
      modifies this`len, buf
      ensures Valid()
      ensures ok <==> old(|Text()|) + n <= PLAIN_DECIMAL_LEN
      ensures ok ==> Text() == old(Text()) + Repeat(ZERO, n)
    {
      var i := 0;
      while i < n
        invariant 0 <= i <= n && Valid() && Text() == old(Text()) + Repeat(ZERO, i)
      {
        ok := Push(ZERO);
        if !ok {
          return;
        }
        assert Repeat(ZERO, i + 1) == Repeat(ZERO, i) + [ZERO];
        i := i + 1;
      }
      return true;
    }

    /** Three stretches in a row: digits or zeros around digits or a point. */
    method PushThree(a: seq<byte>, b: seq<byte>, c: seq<byte>) returns (ok: bool)
      requires Valid()
      modifies this`len, buf
      ensures Valid()
      ensures ok <==> old(|Text()|) + |a| + |b| + |c| <= PLAIN_DECIMAL_LEN
      ensures ok ==> Text() == old(Text()) + (a + b + c)
    {
      ok := PushAll(a);
      if ok {
        ok := PushAll(b);
      }
      if ok {
        ok := PushAll(c);
      }
    }

    /** The number written out; the exponent has been read and the mantissa fits. */
    method WriteUnsigned(s: Sci) returns (ok: bool)
      requires Valid() && s.Valid()
      modifies this`len, buf
      ensures Valid()
      ensures ok <==> old(|Text()|) + |Unsigned(s)| <= PLAIN_DECIMAL_LEN
      ensures ok ==> Text() == old(Text()) + Unsigned(s)
    {
      var shifted := s.point + s.exponent;
      if shifted <= 0 {
        ok := PushThree([ZERO, POINT], Repeat(ZERO, -shifted), s.digits);
      } else if shifted >= |s.digits| {
        ok := PushAll(s.digits);
        if ok {
          ok := PushZeros(shifted - |s.digits|);
        }
        Joined(old(Text()), s.digits, Repeat(ZERO, shifted - |s.digits|));
      } else {
        ok := PushThree(s.digits[..shifted], [POINT], s.digits[shifted..]);
      }
    }

    method Write(s: Sci) returns (ok: bool)
      requires Valid() && Text() == [] && s.Valid()
      modifies this`len, buf
      ensures Valid()
      ensures ok <==> |Written(s)| <= PLAIN_DECIMAL_LEN
      ensures ok ==> Text() == Written(s)
    {
      if s.negative {
        ok := Push(MINUS);
      }
      ok := WriteUnsigned(s);
    }
  }

  lemma Joined(a: seq<byte>, b: seq<byte>, c: seq<byte>)
    ensures a + b + c == a + (b + c)
  {
  }

  // ------------------------------------------------------------------------------------------------
  // The value is kept
  // ------------------------------------------------------------------------------------------------

  /** `m * 10^j` and `n * 10^k` are the same number. */
  predicate SameNumber(m: int, j: int, n: int, k: int) {
    var low := if j < k then j else k;
    m * Pow10(j - low) == n * Pow10(k - low)
  }

  /** The text without its sign, as a number. */
  function Number(s: Sci): Number
    requires s.Valid()
  {
    SplitAtPoint(Unsigned(s))
  }

  lemma SplitsAt(a: seq<byte>, b: seq<byte>)
    requires POINT !in a
    ensures SplitAtPoint(a + [POINT] + b) == DecimalText.Number(a, b)
    ensures SplitAtPoint(a) == DecimalText.Number(a, [])
  {
    FirstIndexAt(a, POINT, b);
    FirstIndexAbsent(a, POINT);
  }

  /** The whole digits and the fraction digits of the text written, form by form. */
  lemma PartsAllFraction(s: Sci)
    requires s.Valid() && s.point + s.exponent <= 0
    ensures Number(s) == DecimalText.Number([ZERO], Repeat(ZERO, -(s.point + s.exponent)) + s.digits)
  {
    var rest := Repeat(ZERO, -(s.point + s.exponent)) + s.digits;
    SplitsAt([ZERO], rest);
    assert Unsigned(s) == [ZERO] + [POINT] + rest;
  }

  lemma PartsNoFraction(s: Sci)
    requires s.Valid() && 0 < s.point + s.exponent && s.point + s.exponent >= |s.digits|
    ensures Number(s) == DecimalText.Number(s.digits + Repeat(ZERO, s.point + s.exponent - |s.digits|), [])
  {
    SplitsAt(s.digits + Repeat(ZERO, s.point + s.exponent - |s.digits|), []);
  }

  lemma PartsPointInside(s: Sci)
    requires s.Valid() && 0 < s.point + s.exponent < |s.digits|
    ensures Number(s) == DecimalText.Number(s.digits[..s.point + s.exponent], s.digits[s.point + s.exponent..])
  {
    SplitsAt(s.digits[..s.point + s.exponent], s.digits[s.point + s.exponent..]);
  }

  lemma ZerosAround(z: seq<byte>, d: seq<byte>)
    requires AllZero(z) && AllDigits(d)
    ensures AllDigits(z + d) && DigitsValue(z + d) == DigitsValue(d)
    ensures AllDigits(d + z) && DigitsValue(d + z) == DigitsValue(d) * Pow10(|z|)
  {
    LeadingZeros(z, d);
    DigitsValueConcat(d, z);
    ZerosValue(z);
  }

  lemma SameAtOnePlace(m: int, j: int)
    ensures SameNumber(m, j, m, j)
  {
  }

  lemma ScaledUp(m: int, k: nat)
    ensures SameNumber(m * Pow10(k), 0, m, k)
  {
    assert Pow10(0) == 1;
  }

  lemma AllFraction(d: seq<byte>, k: nat)
    requires d != [] && AllDigits(d)
    ensures var n := DecimalText.Number([ZERO], Repeat(ZERO, k) + d); n.Valid() && n.Mantissa() == DigitsValue(d)
  {
    LeadingZeros(Repeat(ZERO, k), d);
    LeadingZeros([ZERO], Repeat(ZERO, k) + d);
  }

  lemma NoFraction(d: seq<byte>, k: nat)
    requires d != [] && AllDigits(d)
    ensures var n := DecimalText.Number(d + Repeat(ZERO, k), []); n.Valid() && n.Mantissa() == DigitsValue(d) * Pow10(k)
  {
    assert d + Repeat(ZERO, k) + [] == d + Repeat(ZERO, k);
    ZerosAround(Repeat(ZERO, k), d);
  }

  lemma JoinsTo(whole: seq<byte>, fraction: seq<byte>, d: seq<byte>)
    requires whole + fraction == d && d != [] && AllDigits(d) && AllDigits(whole) && AllDigits(fraction)
    ensures var n := DecimalText.Number(whole, fraction); n.Valid() && n.Mantissa() == DigitsValue(d)
  {
  }

  lemma DigitsOf(d: seq<byte>, k: nat)
    requires AllDigits(d) && k <= |d|
    ensures d[..k] + d[k..] == d && AllDigits(d[..k]) && AllDigits(d[k..])
  {
  }

  predicate KeepsNumber(s: Sci)
    requires s.Valid()
  {
    var n := Number(s);
    n.Valid() && SameNumber(n.Mantissa(), 0 - |n.fraction|, DigitsValue(s.digits), s.Place())
  }

  lemma KeepsAllFraction(s: Sci)
    requires s.Valid() && s.point + s.exponent <= 0
    ensures KeepsNumber(s)
  {
    PartsAllFraction(s);
    AllFraction(s.digits, -(s.point + s.exponent));
    SameAtOnePlace(DigitsValue(s.digits), s.Place());
  }

  lemma KeepsNoFraction(s: Sci)
    requires s.Valid() && 0 < s.point + s.exponent && s.point + s.exponent >= |s.digits|
    ensures KeepsNumber(s)
  {
    PartsNoFraction(s);
    NoFraction(s.digits, s.point + s.exponent - |s.digits|);
    ScaledUp(DigitsValue(s.digits), s.Place());
  }

  lemma KeepsPointInside(s: Sci)
    requires s.Valid() && 0 < s.point + s.exponent < |s.digits|
    ensures KeepsNumber(s)
  {
    PartsPointInside(s);
    DigitsOf(s.digits, s.point + s.exponent);
    JoinsTo(Number(s).whole, Number(s).fraction, s.digits);
    SameAtOnePlace(DigitsValue(s.digits), s.Place());
  }

  /** The digits are moved, not recomputed: the text written is the same number to the last digit. */
  lemma KeepsValue(s: Sci)
    requires s.Valid()
    ensures KeepsNumber(s)
  {
    if s.point + s.exponent <= 0 {
      KeepsAllFraction(s);
    } else if s.point + s.exponent >= |s.digits| {
      KeepsNoFraction(s);
    } else {
      KeepsPointInside(s);
    }
  }

  lemma StartsUnsigned(s: Sci)
    requires s.Valid()
    ensures Unsigned(s) != [] && Unsigned(s)[0] != MINUS && Unsigned(s)[0] != PLUS
  {
    var shifted := s.point + s.exponent;
    if shifted > 0 {
      assert Unsigned(s)[0] == s.digits[0];
    }
  }

  /** And the sign is read back. */
  lemma KeepsSign(s: Sci)
    requires s.Valid()
    ensures DynamicExtractor.Signed(Written(s)) == (s.negative, Unsigned(s))
  {
    StartsUnsigned(s);
    if s.negative {
      assert Written(s)[1..] == Unsigned(s);
    } else {
      assert Written(s) == Unsigned(s);
    }
  }

  // ------------------------------------------------------------------------------------------------
  // Prices and sizes
  // ------------------------------------------------------------------------------------------------

  function Rewritten(bytes: seq<byte>): seq<byte> {
    if Plain(bytes).Some? then Plain(bytes).value else bytes
  }

  /** `Instrument::price`. */
  function Price(bytes: seq<byte>, decimals: nat): DynamicExtractor.Read {
    DynamicExtractor.ToI64Exact(Rewritten(bytes), decimals)
  }

  /** `Instrument::qty`. */
  function Qty(bytes: seq<byte>, decimals: nat): DynamicExtractor.Read {
    DynamicExtractor.ToU64Exact(Rewritten(bytes), decimals)
  }

  /** `v` units of `10^-decimals` are the number in exponent form. */
  predicate DenotesSci(s: Sci, v: int, decimals: nat)
    requires s.Valid()
  {
    SameNumber(if s.negative then -v else v, 0 - decimals, DigitsValue(s.digits), s.Place())
  }

  lemma Lowered(m: int, a: nat, b: nat)
    ensures m * Pow10(a + b) == (m * Pow10(a)) * Pow10(b)
  {
    Pow10Sum(a, b);
    assert m * (Pow10(a) * Pow10(b)) == (m * Pow10(a)) * Pow10(b);
  }

  /** Two numbers agree at their common place exactly when they agree at any lower one. */
  lemma SameBelow(m: int, j: int, n: int, k: int, low: int)
    requires low <= j && low <= k
    ensures SameNumber(m, j, n, k) <==> m * Pow10(j - low) == n * Pow10(k - low)
  {
    var top := if j < k then j else k;
    Lowered(m, j - top, top - low);
    Lowered(n, k - top, top - low);
    if m * Pow10(j - low) == n * Pow10(k - low) {
      Cancel(m * Pow10(j - top), n * Pow10(k - top), Pow10(top - low));
    }
  }

  lemma SameAbove(m: int, j: int, n: int, k: int, low: int, a: nat, b: nat)
    requires j == low + a && k == low + b
    ensures m * Pow10(a) == n * Pow10(b) <==> SameNumber(m, j, n, k)
  {
    assert j - low == a && k - low == b;
    SameBelow(m, j, n, k, low);
  }

  lemma SameAsBoth(m: int, j: int, n: int, k: int, p: int, l: int)
    requires SameNumber(n, k, p, l)
    ensures SameNumber(m, j, n, k) <==> SameNumber(m, j, p, l)
  {
    var low := if j < k then (if j < l then j else l) else if k < l then k else l;
    SameBelow(m, j, n, k, low);
    SameBelow(m, j, p, l, low);
    SameBelow(n, k, p, l, low);
  }

  /** Cross multiplication and comparison at a common place are the same. */
  lemma CrossMultiplied(v: int, m: int, decimals: nat, f: nat)
    ensures v * Pow10(f) == m * Pow10(decimals) <==> SameNumber(v, 0 - decimals, m, 0 - f)
  {
    var j, k, low := 0 - decimals, 0 - f, 0 - decimals - f;
    assert j == low + f && k == low + decimals;
    SameAbove(v, j, m, k, low, f, decimals);
  }

  /** The plain text and the exponent form denote the same counts of units. */
  lemma DenotesAlike(s: Sci, v: int, decimals: nat)
    requires s.Valid()
    ensures DynamicExtractor.Body(Written(s)).Valid()
    ensures DynamicExtractor.DenotesText(Written(s), v, decimals) <==> DenotesSci(s, v, decimals)
  {
    var n := Number(s);
    var m := if s.negative then -v else v;
    assert DynamicExtractor.Body(Written(s)) == n && DynamicExtractor.Signed(Written(s)).0 == s.negative by {
      KeepsSign(s);
    }
    assert n.Valid() && SameNumber(n.Mantissa(), 0 - |n.fraction|, DigitsValue(s.digits), s.Place()) by {
      KeepsValue(s);
    }
    CrossMultiplied(m, n.Mantissa(), decimals, |n.fraction|);
    SameAsBoth(m, 0 - decimals, n.Mantissa(), 0 - |n.fraction|, DigitsValue(s.digits), s.Place());
  }

  /** `v` units of the scale are the number the text names, in either notation. */
  predicate DenotesBytes(bytes: seq<byte>, v: int, decimals: nat) {
    match ParseSci(bytes)
    case Some(s) => DenotesSci(s, v, decimals)
    case None => DynamicExtractor.Body(bytes).Valid() && DynamicExtractor.DenotesText(bytes, v, decimals)
  }

  lemma SpelledHasNoE(bytes: seq<byte>)
    requires DynamicExtractor.Spelled(bytes)
    ensures forall i :: 0 <= i < |bytes| ==> !IsE(bytes[i])
  {
    var body := DynamicExtractor.Signed(bytes).1;
    var p, n := FirstIndex(body, POINT), SplitAtPoint(body);
    forall k | 0 <= k < |body| ensures !IsE(body[k]) {
      assert k < p ==> body[k] == n.whole[k];
      assert k > p ==> body[k] == n.fraction[k - p - 1];
    }
    assert body == bytes || body == bytes[1..];
    assert forall i :: 1 <= i < |bytes| ==> bytes[i] == bytes[1..][i - 1];
  }

  /** Text that still carries an exponent after the rewriter is refused, so what is read without rewriting has
    * none. */
  lemma DeclinedIsRefused(bytes: seq<byte>, decimals: nat)
    requires Plain(bytes).None? && exists i :: 0 <= i < |bytes| && IsE(bytes[i])
    ensures Price(bytes, decimals).Err? && Qty(bytes, decimals).Err?
  {
    if DynamicExtractor.Spelled(bytes) {
      SpelledHasNoE(bytes);
      assert false;
    }
  }

  /** Rewriting never changes what the text denotes. */
  lemma RewrittenDenotes(bytes: seq<byte>, v: int, decimals: nat)
    requires DynamicExtractor.Guarded(Rewritten(bytes), decimals)
    ensures DynamicExtractor.Body(Rewritten(bytes)).Valid()
    ensures DenotesBytes(bytes, v, decimals) <==> DynamicExtractor.DenotesText(Rewritten(bytes), v, decimals)
  {
    DynamicExtractor.GuardedIsValid(Rewritten(bytes), decimals);
    if Plain(bytes).Some? {
      DenotesAlike(ParseSci(bytes).value, v, decimals);
    } else {
      SpelledHasNoE(bytes);
    }
  }

  /** The count of units the text comes to, before it is wrapped. */
  function Units(bytes: seq<byte>, decimals: nat): int
    requires DynamicExtractor.Body(Rewritten(bytes)).Valid()
  {
    DynamicExtractor.Exact(Rewritten(bytes), decimals)
  }

  /** On any bytes at all, a price returned is the number the text names exactly when its count of units fits
    * an `i64`; otherwise it has wrapped. */
  lemma PriceIsExactIff(bytes: seq<byte>, decimals: nat)
    requires Price(bytes, decimals).Ok?
    ensures DynamicExtractor.Body(Rewritten(bytes)).Valid()
    ensures DenotesBytes(bytes, Price(bytes, decimals).value, decimals) <==>
            -I64_LIMIT <= Units(bytes, decimals) < I64_LIMIT
  {
    DynamicExtractor.ReadsWrappedIff(Rewritten(bytes), decimals, Price(bytes, decimals).value);
    DynamicExtractor.ReadsExactlyIff(Rewritten(bytes), decimals);
    RewrittenDenotes(bytes, Price(bytes, decimals).value, decimals);
  }

  /** The same of a size, which is refused when it is below zero. */
  lemma QtyIsExactIff(bytes: seq<byte>, decimals: nat)
    requires Qty(bytes, decimals).Ok?
    ensures Qty(bytes, decimals) == Price(bytes, decimals) && Qty(bytes, decimals).value >= 0
    ensures DynamicExtractor.Body(Rewritten(bytes)).Valid()
    ensures DenotesBytes(bytes, Qty(bytes, decimals).value, decimals) <==>
            0 <= Units(bytes, decimals) < I64_LIMIT
  {
    var v := Price(bytes, decimals).value;
    PriceIsExactIff(bytes, decimals);
    assert v == AsI64(Units(bytes, decimals)) by { DynamicExtractor.ReadsWrappedIff(Rewritten(bytes), decimals, v); }
    FitsFromZero(Units(bytes, decimals), v);
  }

  lemma FitsFromZero(units: int, v: int)
    requires v == AsI64(units) && v >= 0
    ensures -I64_LIMIT <= units < I64_LIMIT <==> 0 <= units < I64_LIMIT
  {
    DynamicExtractor.FitsIff(units);
  }

  /** A text denotes one count of units at most, and if the guard lets the text through and the count fits,
    * that is what is read. */
  lemma ReadsWhatIsDenoted(bytes: seq<byte>, decimals: nat, v: int)
    requires DynamicExtractor.Guarded(Rewritten(bytes), decimals)
    requires DenotesBytes(bytes, v, decimals) && -I64_LIMIT <= v < I64_LIMIT
    ensures Price(bytes, decimals) == Ok(v)
    ensures Qty(bytes, decimals) == if v < 0 then Err(NegOverflow) else Ok(v)
  {
    RewrittenDenotes(bytes, v, decimals);
    DynamicExtractor.OnlyOneCount(Rewritten(bytes), Units(bytes, decimals), v, decimals);
    DynamicExtractor.FitsIff(v);
    DynamicExtractor.ReadsWrappedIff(Rewritten(bytes), decimals, v);
  }

  /** Integer digits and decimals that come to eighteen at most: what is read is what the text denotes. */
  lemma EighteenAreExact(bytes: seq<byte>, decimals: nat)
    requires |DynamicExtractor.Body(Rewritten(bytes)).whole| + decimals <= 18
    ensures Price(bytes, decimals).Ok? ==> DenotesBytes(bytes, Price(bytes, decimals).value, decimals)
    ensures Qty(bytes, decimals).Ok? ==> DenotesBytes(bytes, Qty(bytes, decimals).value, decimals)
  {
    if Price(bytes, decimals).Ok? {
      PriceIsExactIff(bytes, decimals);
      DynamicExtractor.ReadsWrappedIff(Rewritten(bytes), decimals, Price(bytes, decimals).value);
      DynamicExtractor.FitsEighteen(Rewritten(bytes), decimals);
    }
  }
}
