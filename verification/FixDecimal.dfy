/** FIX decimal text to an integer at a scale, every step checked. */
module FixDecimal {
  import opened Wrappers
  import opened Bytes
  import opened DecimalText

  datatype DecimalError = Malformed | Precision

  const I64_MAX: int := I64_LIMIT - 1

  type Scan = Result<nat, DecimalError>

  /** One more digit, if the accumulator has room. */
  function Push(v: nat, b: byte): Scan {
    if !IsDigit(b) || 10 * v + (b - ZERO) > I64_MAX then Err(Malformed) else Ok(10 * v + (b - ZERO))
  }

  function ReadWhole(s: seq<byte>, v: nat): Scan
    decreases |s|
  {
    if s == [] then Ok(v)
    else if Push(v, s[0]).Err? then Push(v, s[0])
    else ReadWhole(s[1..], Push(v, s[0]).value)
  }

  /** The fraction: `room` more digits count, the rest must be zeros. */
  function ReadFraction(s: seq<byte>, v: nat, room: nat): Scan
    decreases |s|
  {
    if s == [] then PadZeros(v, room)
    else if !IsDigit(s[0]) then Err(Malformed)
    else if room == 0 then (if s[0] != ZERO then Err(Precision) else ReadFraction(s[1..], v, 0))
    else if Push(v, s[0]).Err? then Push(v, s[0])
    else ReadFraction(s[1..], Push(v, s[0]).value, room - 1)
  }

  function PadZeros(v: nat, room: nat): Scan
    decreases room
  {
    if room == 0 then Ok(v) else if 10 * v > I64_MAX then Err(Malformed) else PadZeros(10 * v, room - 1)
  }

  function Unsigned(bytes: seq<byte>): (bool, seq<byte>) {
    if bytes != [] && bytes[0] == MINUS then (true, bytes[1..]) else (false, bytes)
  }

  /** `parse_scaled_decimal`. */
  function ScaledDecimal(bytes: seq<byte>, decimals: nat): Result<int, DecimalError> {
    var (negative, digits) := Unsigned(bytes);
    var n := SplitAtPoint(digits);
    if n.whole == [] && n.fraction == [] then Err(Malformed)
    else
      match ReadWhole(n.whole, 0)
      case Err(e) => Err(e)
      case Ok(v) =>
        match ReadFraction(n.fraction, v, decimals)
        case Err(e) => Err(e)
        case Ok(v) => Ok(if negative then 0 - v else v)
  }

  method ScanWhole(s: seq<byte>) returns (r: Scan)
    ensures r == ReadWhole(s, 0)
  {
    var v := 0;
    var i := 0;
    while i < |s|
      invariant 0 <= i <= |s| && v >= 0 && ReadWhole(s[i..], v) == ReadWhole(s, 0)
    {
      assert s[i..][1..] == s[i + 1..];
      if !IsDigit(s[i]) || 10 * v + (s[i] - ZERO) > I64_MAX {
        return Err(Malformed);
      }
      v := 10 * v + (s[i] - ZERO);
      i := i + 1;
    }
    return Ok(v);
  }

  method ScanFraction(s: seq<byte>, whole: nat, decimals: nat) returns (r: Scan)
    ensures r == ReadFraction(s, whole, decimals)
  {
    var v, used, i := whole, 0, 0;
    while i < |s|
      invariant 0 <= i <= |s| && 0 <= used <= decimals && v >= 0
      invariant ReadFraction(s[i..], v, decimals - used) == ReadFraction(s, whole, decimals)
    {
      assert s[i..][1..] == s[i + 1..];
      if !IsDigit(s[i]) {
        return Err(Malformed);
      }
      if used < decimals {
        if 10 * v + (s[i] - ZERO) > I64_MAX {
          return Err(Malformed);
        }
        v := 10 * v + (s[i] - ZERO);
        used := used + 1;
      } else if s[i] != ZERO {
        return Err(Precision);
      }
      i := i + 1;
    }
    while used < decimals
      invariant 0 <= used <= decimals && v >= 0
      invariant PadZeros(v, decimals - used) == ReadFraction(s, whole, decimals)
    {
      if 10 * v > I64_MAX {
        return Err(Malformed);
      }
      v := 10 * v;
      used := used + 1;
    }
    return Ok(v);
  }

  /** The loops of `parse_scaled_decimal`. */
  method ParseScaledDecimal(bytes: seq<byte>, decimals: nat) returns (r: Result<int, DecimalError>)
    ensures r == ScaledDecimal(bytes, decimals)
  {
    var (negative, digits) := Unsigned(bytes);
    var n := SplitAtPoint(digits);
    if n.whole == [] && n.fraction == [] {
      return Err(Malformed);
    }
    var whole := ScanWhole(n.whole);
    if whole.Err? {
      return Err(whole.error);
    }
    var v := ScanFraction(n.fraction, whole.value, decimals);
    if v.Err? {
      return Err(v.error);
    }
    var magnitude: int := v.value;
    return Ok(if negative then -magnitude else magnitude);
  }

  // ------------------------------------------------------------------------------------------------
  // What it reads
  // ------------------------------------------------------------------------------------------------

  /** `v` followed by the digits of `s`. */
  function Extended(v: nat, s: seq<byte>): nat
    requires AllDigits(s)
  {
    v * Pow10(|s|) + DigitsValue(s)
  }

  lemma ExtendedStep(v: nat, s: seq<byte>)
    requires s != [] && AllDigits(s)
    ensures Extended(v, s) == Extended(10 * v + (s[0] - ZERO), s[1..])
    ensures Extended(v, s) >= 10 * v + (s[0] - ZERO)
  {
    var d, p := s[0] - ZERO, Pow10(|s| - 1);
    assert DigitsValue(s) == d * p + DigitsValue(s[1..]) by { LeadingDigitValue(s); }
    Distributed(v, d, p);
    Grows(10 * v + d, p);
  }

  lemma LeadingDigitValue(s: seq<byte>)
    requires s != [] && AllDigits(s)
    ensures DigitsValue(s) == (s[0] - ZERO) * Pow10(|s| - 1) + DigitsValue(s[1..])
  {
    assert s == s[..1] + s[1..];
    DigitsValueConcat(s[..1], s[1..]);
    assert s[..1][..0] == [];
    assert DigitsValue(s[..1]) == s[0] - ZERO;
  }

  lemma Distributed(v: nat, d: nat, p: nat)
    ensures v * (10 * p) + d * p == (10 * v + d) * p
  {
  }

  lemma Grows(a: nat, p: nat)
    requires p >= 1
    ensures a * p >= a
  {
  }

  lemma {:induction false} ReadsWholeIff(s: seq<byte>, v: nat)
    requires v <= I64_MAX
    ensures ReadWhole(s, v) ==
            if AllDigits(s) && Extended(v, s) <= I64_MAX then Ok(Extended(v, s)) else Err(Malformed)
    decreases |s|
  {
    if s != [] {
      assert AllDigits(s) <==> IsDigit(s[0]) && AllDigits(s[1..]) by { assert s == [s[0]] + s[1..]; }
      if AllDigits(s) {
        ExtendedStep(v, s);
      }
      if Push(v, s[0]).Ok? {
        ReadsWholeIff(s[1..], Push(v, s[0]).value);
      }
    }
  }

  lemma PadStep(v: nat, p: nat)
    requires p >= 1
    ensures v * (10 * p) == (10 * v) * p >= 10 * v
  {
    Grows(10 * v, p);
  }

  lemma {:induction false} PadsIff(v: nat, room: nat)
    requires v <= I64_MAX
    ensures PadZeros(v, room) == if v * Pow10(room) <= I64_MAX then Ok(v * Pow10(room)) else Err(Malformed)
    decreases room
  {
    if room > 0 {
      PadStep(v, Pow10(room - 1));
      if 10 * v <= I64_MAX {
        PadsIff(10 * v, room - 1);
      }
    }
  }

  lemma {:induction false} DroppedIff(s: seq<byte>, v: nat)
    ensures ReadFraction(s, v, 0) == Ok(v) <==> AllZero(s)
    ensures ReadFraction(s, v, 0).Ok? ==> ReadFraction(s, v, 0) == Ok(v)
    decreases |s|
  {
    if s != [] {
      assert s == [s[0]] + s[1..];
      DroppedIff(s[1..], v);
    }
  }

  /** The digits the scale has room for, and the rest. */
  function Head(s: seq<byte>, room: nat): seq<byte> {
    if |s| <= room then s else s[..room]
  }

  function Tail(s: seq<byte>, room: nat): seq<byte> {
    if |s| <= room then [] else s[room..]
  }

  /** The fraction read at a scale, when it is made of digits and the digits kept leave room. */
  predicate FractionFits(s: seq<byte>, v: nat, room: nat) {
    && AllDigits(s) && AllZero(Tail(s, room))
    && Extended(v, Head(s, room)) * Pow10(room - |Head(s, room)|) <= I64_MAX
  }

  lemma {:induction false} ReadsFractionIff(s: seq<byte>, v: nat, room: nat)
    requires v <= I64_MAX
    ensures FractionFits(s, v, room) ==>
              ReadFraction(s, v, room) == Ok(Extended(v, Head(s, room)) * Pow10(room - |Head(s, room)|))
    ensures ReadFraction(s, v, room).Ok? ==> FractionFits(s, v, room)
    decreases |s|
  {
    if s == [] {
      PadsIff(v, room);
      assert Head(s, room) == [] && Tail(s, room) == [];
      assert Extended(v, []) == v;
    } else if room == 0 {
      DroppedIff(s, v);
      assert Tail(s, 0) == s && Head(s, 0) == [] && Extended(v, []) == v && Pow10(0) == 1;
    } else {
      FractionStep(s, v, room);
      if Push(v, s[0]).Ok? {
        ReadsFractionIff(s[1..], Push(v, s[0]).value, room - 1);
      }
    }
  }

  lemma FractionStep(s: seq<byte>, v: nat, room: nat)
    requires s != [] && room > 0 && v <= I64_MAX
    ensures AllDigits(s) <==> IsDigit(s[0]) && AllDigits(s[1..])
    ensures Tail(s, room) == Tail(s[1..], room - 1) && |Head(s, room)| == |Head(s[1..], room - 1)| + 1
    ensures AllDigits(s) ==>
              && Extended(v, Head(s, room)) == Extended(10 * v + (s[0] - ZERO), Head(s[1..], room - 1))
              && Extended(v, Head(s, room)) * Pow10(room - |Head(s, room)|) >= 10 * v + (s[0] - ZERO)
  {
    assert s == [s[0]] + s[1..];
    var h := Head(s, room);
    assert h[1..] == Head(s[1..], room - 1);
    if AllDigits(s) {
      ExtendedStep(v, h);
      Grows(Extended(v, h), Pow10(room - |h|));
    }
  }

  /** The two loops together keep exactly the digits within the scale. */
  lemma ReadsScaled(n: Number, decimals: nat)
    requires n.Valid()
    ensures Extended(DigitsValue(n.whole), Kept(n, decimals)) * Pow10(decimals - |Kept(n, decimals)|) ==
              Scaled(n, decimals)
    ensures Scaled(n, decimals) >= DigitsValue(n.whole)
  {
    var kept := Kept(n, decimals);
    assert DigitsValue(n.whole + kept) == Extended(DigitsValue(n.whole), kept) by { DigitsValueConcat(n.whole, kept); }
    Grows(DigitsValue(n.whole), Pow10(|kept|));
    Grows(DigitsValue(n.whole + kept), Pow10(decimals - |kept|));
  }

  /** The text is a sign and a number. */
  predicate WellFormed(bytes: seq<byte>) {
    SplitAtPoint(Unsigned(bytes).1).Valid()
  }

  predicate Fits(n: Number, decimals: nat)
    requires n.Valid()
  {
    AllZero(Dropped(n, decimals)) && Scaled(n, decimals) <= I64_MAX
  }

  lemma UnsignedReads(n: Number, decimals: nat)
    requires n.whole + n.fraction != []
    ensures var whole := ReadWhole(n.whole, 0);
            var r := if whole.Err? then whole else ReadFraction(n.fraction, whole.value, decimals);
            && (n.Valid() && Fits(n, decimals) ==> r == Ok(Scaled(n, decimals)))
            && (r.Ok? ==> n.Valid() && Fits(n, decimals))
  {
    ReadsWholeIff(n.whole, 0);
    if n.Valid() {
      ReadsScaled(n, decimals);
    }
    if ReadWhole(n.whole, 0).Ok? {
      assert Extended(0, n.whole) == DigitsValue(n.whole);
      ReadsFractionIff(n.fraction, DigitsValue(n.whole), decimals);
      assert Head(n.fraction, decimals) == Kept(n, decimals) && Tail(n.fraction, decimals) == Dropped(n, decimals);
    }
  }

  lemma NothingThere(n: Number)
    ensures n.whole + n.fraction == [] <==> n.whole == [] && n.fraction == []
  {
  }

  /** The reader returns `v` exactly when the text is well formed, denotes `v` units of the scale to the last
    * digit, and the magnitude is at most `i64::MAX`. */
  lemma ReadsExactlyIff(bytes: seq<byte>, decimals: nat, v: int)
    ensures ScaledDecimal(bytes, decimals) == Ok(v) <==>
            && WellFormed(bytes)
            && -0x7FFF_FFFF_FFFF_FFFF <= v <= 0x7FFF_FFFF_FFFF_FFFF
            && Denotes(SplitAtPoint(Unsigned(bytes).1), if Unsigned(bytes).0 then 0 - v else v, decimals)
  {
    var (negative, digits) := Unsigned(bytes);
    var n := SplitAtPoint(digits);
    NothingThere(n);
    assert I64_MAX == 0x7FFF_FFFF_FFFF_FFFF;
    if n.whole + n.fraction != [] {
      UnsignedReads(n, decimals);
      if n.Valid() {
        DenotesIff(n, if negative then 0 - v else v, decimals);
      }
    }
  }

  /** The digits a text begins with. */
  function LeadingDigits(s: seq<byte>): (d: seq<byte>)
    ensures |d| <= |s| && d == s[..|d|] && AllDigits(d)
  {
    if s == [] || !IsDigit(s[0]) then [] else [s[0]] + LeadingDigits(s[1..])
  }

  /** Too fine for the room: a digit behind it is not zero, and those within it fit. */
  predicate TooFine(d: seq<byte>, v: nat, room: nat)
    requires AllDigits(d)
  {
    |d| > room && Extended(v, d[..room]) <= I64_MAX && !AllZero(d[room..])
  }

  lemma FinerByOne(d: seq<byte>, v: nat, room: nat)
    requires AllDigits(d) && d != [] && room > 0
    ensures TooFine(d, v, room) <==> TooFine(d[1..], 10 * v + (d[0] - ZERO), room - 1)
    ensures TooFine(d, v, room) ==> 10 * v + (d[0] - ZERO) <= I64_MAX
  {
    if |d| > room {
      assert d[..room][1..] == d[1..][..room - 1];
      ExtendedStep(v, d[..room]);
    }
  }

  lemma FineAtOnce(d: seq<byte>, v: nat)
    requires AllDigits(d) && d != [] && v <= I64_MAX
    ensures TooFine(d, v, 0) <==> d[0] != ZERO || TooFine(d[1..], v, 0)
  {
    assert d[..0] == [] && d[1..][..0] == [] && Extended(v, []) == v by { assert Pow10(0) == 1; }
    assert d[0..] == d && d[1..][0..] == d[1..];
    assert d == [d[0]] + d[1..];
  }

  lemma {:induction false} PrecisionFrom(s: seq<byte>, v: nat, room: nat)
    requires v <= I64_MAX
    ensures ReadFraction(s, v, room) == Err(Precision) <==> TooFine(LeadingDigits(s), v, room)
    decreases |s|
  {
    var d := LeadingDigits(s);
    if s == [] {
      PadsIff(v, room);
    } else if IsDigit(s[0]) {
      assert d[1..] == LeadingDigits(s[1..]);
      if room == 0 {
        FineAtOnce(d, v);
        PrecisionFrom(s[1..], v, 0);
      } else {
        FinerByOne(d, v, room);
        if Push(v, s[0]).Ok? {
          PrecisionFrom(s[1..], Push(v, s[0]).value, room - 1);
        }
      }
    }
  }

  /** Any text is refused for precision exactly when it has digits past the scale that are not all zero, the
    * number within the scale fits, and nothing in front of them is malformed; what follows them makes no
    * difference. Whatever else is refused is malformed. */
  lemma PrecisionIff(bytes: seq<byte>, decimals: nat)
    ensures var n := SplitAtPoint(Unsigned(bytes).1);
            var d := LeadingDigits(n.fraction);
            ScaledDecimal(bytes, decimals) == Err(Precision) <==>
            && AllDigits(n.whole) && |d| > decimals && !AllZero(d[decimals..])
            && DigitsValue(n.whole + d[..decimals]) <= 0x7FFF_FFFF_FFFF_FFFF
  {
    var n := SplitAtPoint(Unsigned(bytes).1);
    var d := LeadingDigits(n.fraction);
    ReadsWholeIff(n.whole, 0);
    if AllDigits(n.whole) {
      assert Extended(0, n.whole) == DigitsValue(n.whole);
      if |d| > decimals {
        DigitsValueConcat(n.whole, d[..decimals]);
        Grows(DigitsValue(n.whole), Pow10(decimals));
      }
      if DigitsValue(n.whole) <= I64_MAX {
        PrecisionFrom(n.fraction, DigitsValue(n.whole), decimals);
      }
    }
  }
}
