/** Decimal texts in either notation, and what an instrument's readers make of every one of them. */
module Notation {
  import opened Wrappers
  import opened Bytes
  import opened IntegerParser
  import opened DecimalText
  import DynamicExtractor
  import PlainDecimal

  datatype Sign = Bare | Minus | Plus

  datatype Exponent = Exponent(mark: byte, sign: Sign, digits: seq<byte>)

  /** A sign, digits with at most one point among them, and perhaps a power of ten. */
  datatype Text = Text(sign: Sign, whole: seq<byte>, point: bool, fraction: seq<byte>, exponent: Option<Exponent>) {
    predicate Valid() {
      && AllDigits(whole) && AllDigits(fraction) && whole + fraction != [] && (point || fraction == [])
      && (exponent.Some? ==>
            exponent.value.mark in {0x45, 0x65} && exponent.value.digits != [] && AllDigits(exponent.value.digits))
    }

    function Power(): int
      requires Valid()
    {
      if exponent.None? then 0
      else if exponent.value.sign.Minus? then 0 - DigitsValue(exponent.value.digits)
      else DigitsValue(exponent.value.digits)
    }
  }

  function SignText(s: Sign): seq<byte> {
    match s
    case Bare => []
    case Minus => [0x2D]
    case Plus => [0x2B]
  }

  function BodyText(t: Text): seq<byte> {
    if t.point then t.whole + [0x2E] + t.fraction else t.whole
  }

  function MantissaText(t: Text): seq<byte> {
    SignText(t.sign) + BodyText(t)
  }

  function PowerText(e: Exponent): seq<byte> {
    SignText(e.sign) + e.digits
  }

  function Spell(t: Text): seq<byte> {
    if t.exponent.None? then MantissaText(t)
    else MantissaText(t) + [t.exponent.value.mark] + PowerText(t.exponent.value)
  }

  /** `v` units of `10^-decimals` are the number: its digits, as a power of ten moves them. */
  predicate Names(t: Text, v: int, decimals: nat)
    requires t.Valid()
  {
    PlainDecimal.SameNumber(
      if t.sign.Minus? then -v else v, 0 - decimals, DigitsValue(t.whole + t.fraction), t.Power() - |t.fraction|)
  }

  // ------------------------------------------------------------------------------------------------
  // Taking a text apart
  // ------------------------------------------------------------------------------------------------

  lemma SignIsRead(s: Sign, rest: seq<byte>)
    requires rest != [] && rest[0] != 0x2D && rest[0] != 0x2B
    ensures DynamicExtractor.Signed(SignText(s) + rest) == (s.Minus?, rest)
  {
    if s.Bare? {
      assert SignText(s) + rest == rest;
    } else {
      assert (SignText(s) + rest)[1..] == rest;
    }
  }

  lemma BodyStarts(t: Text)
    requires t.Valid()
    ensures BodyText(t) != [] && BodyText(t)[0] != 0x2D && BodyText(t)[0] != 0x2B
  {
    if t.whole != [] {
      assert BodyText(t)[0] == t.whole[0];
    } else {
      assert BodyText(t)[0] == 0x2E;
    }
  }

  lemma BodyIsSplit(t: Text)
    requires t.Valid()
    ensures SplitAtPoint(BodyText(t)) == Number(t.whole, t.fraction)
    ensures DynamicExtractor.Signed(MantissaText(t)) == (t.sign.Minus?, BodyText(t))
  {
    PlainDecimal.SplitsAt(t.whole, t.fraction);
    BodyStarts(t);
    SignIsRead(t.sign, BodyText(t));
  }

  lemma NoMarkIn(t: Text)
    requires t.Valid()
    ensures forall i :: 0 <= i < |MantissaText(t)| ==> !PlainDecimal.IsE(MantissaText(t)[i])
  {
    var body := BodyText(t);
    assert forall i :: 0 <= i < |body| ==> !PlainDecimal.IsE(body[i]);
  }

  lemma MarkIsFound(front: seq<byte>, mark: byte, rest: seq<byte>)
    requires PlainDecimal.IsE(mark) && forall i :: 0 <= i < |front| ==> !PlainDecimal.IsE(front[i])
    ensures PlainDecimal.ExponentAt(front + [mark] + rest) == |front|
    ensures PlainDecimal.ExponentAt(front) == |front|
  {
    var s := front + [mark] + rest;
    assert s[|front|] == mark;
    assert forall j :: 0 <= j < |front| ==> s[j] == front[j];
  }

  lemma PowerIsRead(e: Exponent)
    requires e.digits != [] && AllDigits(e.digits)
    ensures PlainDecimal.ParseExponent(PowerText(e)) ==
            if |e.digits| > 3 then None
            else Some(if e.sign.Minus? then 0 - DigitsValue(e.digits) else DigitsValue(e.digits))
  {
    SignIsRead(e.sign, e.digits);
  }

  /** The exponent form as the rewriter holds it. */
  function Parts(t: Text): PlainDecimal.Sci
    requires t.Valid()
  {
    PlainDecimal.Sci(t.sign.Minus?, t.whole + t.fraction, |t.whole|, t.Power())
  }

  lemma CutAtMark(front: seq<byte>, mark: byte, rest: seq<byte>)
    ensures var s := front + [mark] + rest; s[..|front|] == front && s[|front| + 1..] == rest
  {
  }

  /** The scan is put together of its parts. */
  lemma ScansParts(bytes: seq<byte>, front: seq<byte>, rest: seq<byte>, negative: bool, body: seq<byte>, n: Number)
    requires PlainDecimal.ExponentAt(bytes) == |front| < |bytes|
    requires bytes[..|front|] == front && bytes[|front| + 1..] == rest
    requires DynamicExtractor.Signed(front) == (negative, body) && SplitAtPoint(body) == n && n.Valid()
    ensures PlainDecimal.ParseSci(bytes) ==
            match PlainDecimal.ParseExponent(rest)
            case None => None
            case Some(e) => Some(PlainDecimal.Sci(negative, n.whole + n.fraction, |n.whole|, e))
  {
  }

  lemma PowerFormIsCut(t: Text)
    requires t.Valid() && t.exponent.Some?
    ensures var front := MantissaText(t);
            && PlainDecimal.ExponentAt(Spell(t)) == |front| < |Spell(t)|
            && Spell(t)[..|front|] == front && Spell(t)[|front| + 1..] == PowerText(t.exponent.value)
  {
    var e, front := t.exponent.value, MantissaText(t);
    NoMarkIn(t);
    MarkIsFound(front, e.mark, PowerText(e));
    CutAtMark(front, e.mark, PowerText(e));
  }

  lemma PartsOf(t: Text, power: Option<int>) returns (sci: Option<PlainDecimal.Sci>)
    requires t.Valid() && t.exponent.Some? && power == PlainDecimal.ParseExponent(PowerText(t.exponent.value))
    ensures sci == match power
                   case None => None
                   case Some(e) => Some(PlainDecimal.Sci(t.sign.Minus?, t.whole + t.fraction, |t.whole|, e))
    ensures sci == if |t.exponent.value.digits| > 3 then None else Some(Parts(t))
  {
    PowerIsRead(t.exponent.value);
    sci := if |t.exponent.value.digits| > 3 then None else Some(Parts(t));
  }

  lemma PowerFormIsRead(t: Text)
    requires t.Valid() && t.exponent.Some?
    ensures PlainDecimal.ParseSci(Spell(t)) == if |t.exponent.value.digits| > 3 then None else Some(Parts(t))
  {
    var power := PowerText(t.exponent.value);
    var sci := PartsOf(t, PlainDecimal.ParseExponent(power));
    assert PlainDecimal.ParseSci(Spell(t)) == sci by {
      PowerFormIsCut(t);
      BodyIsSplit(t);
      ScansParts(Spell(t), MantissaText(t), power, t.sign.Minus?, BodyText(t), Number(t.whole, t.fraction));
    }
  }

  lemma PlainFormIsRead(t: Text)
    requires t.Valid() && t.exponent.None?
    ensures PlainDecimal.ParseSci(Spell(t)).None?
  {
    NoMarkIn(t);
    MarkIsFound(MantissaText(t), 0x45, []);
  }

  // ------------------------------------------------------------------------------------------------
  // Written out
  // ------------------------------------------------------------------------------------------------

  /** Where the point stands once the exponent has moved it. */
  function Shifted(t: Text): int
    requires t.Valid()
  {
    |t.whole| + t.Power()
  }

  /** How many digits there are once the exponent is written out: zeros fill up on either side. */
  function Places(t: Text): nat
    requires t.Valid()
  {
    var n := |t.whole| + |t.fraction|;
    if t.exponent.None? then n
    else if Shifted(t) <= 0 then 1 - Shifted(t) + n
    else if Shifted(t) >= n then Shifted(t)
    else n
  }

  /** And how many bytes: a sign only when it is a minus, a point only when a digit follows it. */
  function Length(t: Text): nat
    requires t.Valid()
  {
    Places(t) + (if t.sign.Minus? then 1 else 0) + if Shifted(t) < |t.whole| + |t.fraction| then 1 else 0
  }

  /** The rewriter takes exponents of three digits, and sixty-four bytes. */
  predicate WritesOut(t: Text)
    requires t.Valid() && t.exponent.Some?
  {
    |t.exponent.value.digits| <= 3 && |t.whole| + |t.fraction| <= 64 && Length(t) <= 64
  }

  /** The digits of the text written, as whole and fraction. */
  lemma WrittenNumber(s: PlainDecimal.Sci, places: nat)
    requires s.Valid()
    requires places == if s.point + s.exponent <= 0 then 1 - (s.point + s.exponent) + |s.digits|
                       else if s.point + s.exponent >= |s.digits| then s.point + s.exponent else |s.digits|
    ensures var n := PlainDecimal.Number(s); |n.whole| + |n.fraction| == places
  {
    if s.point + s.exponent <= 0 {
      PlainDecimal.PartsAllFraction(s);
    } else if s.point + s.exponent >= |s.digits| {
      PlainDecimal.PartsNoFraction(s);
    } else {
      PlainDecimal.PartsPointInside(s);
    }
  }

  lemma WrittenParts(t: Text)
    requires t.Valid() && t.exponent.Some?
    ensures var n := PlainDecimal.Number(Parts(t)); n.Valid() && |n.whole| + |n.fraction| == Places(t)
    ensures |PlainDecimal.Written(Parts(t))| == Length(t)
  {
    PlainDecimal.KeepsValue(Parts(t));
    WrittenNumber(Parts(t), Places(t));
  }

  /** What the readers see. */
  predicate SeenAs(t: Text, data: seq<byte>)
    requires t.Valid()
  {
    && data != [] && DynamicExtractor.Spelled(data) && DynamicExtractor.Body(data).Valid()
    && DynamicExtractor.DigitCount(DynamicExtractor.Body(data)) == Places(t)
  }

  ghost predicate SameCounts(t: Text, data: seq<byte>, decimals: nat)
    requires t.Valid() && DynamicExtractor.Body(data).Valid()
  {
    forall v: int :: Names(t, v, decimals) <==> DynamicExtractor.DenotesText(data, v, decimals)
  }

  lemma WrittenIsSeen(t: Text)
    requires t.Valid() && t.exponent.Some?
    ensures SeenAs(t, PlainDecimal.Written(Parts(t)))
  {
    WrittenParts(t);
    PlainDecimal.KeepsSign(Parts(t));
    PlainDecimal.StartsUnsigned(Parts(t));
  }

  lemma NamesParts(t: Text, v: int, decimals: nat)
    requires t.Valid()
    ensures Names(t, v, decimals) <==> PlainDecimal.DenotesSci(Parts(t), v, decimals)
  {
    assert Parts(t).Place() == t.Power() - |t.fraction|;
  }

  lemma WrittenCountsOne(t: Text, v: int, decimals: nat)
    requires t.Valid() && DynamicExtractor.Body(PlainDecimal.Written(Parts(t))).Valid()
    ensures Names(t, v, decimals) <==>
            DynamicExtractor.DenotesText(PlainDecimal.Written(Parts(t)), v, decimals)
  {
    NamesParts(t, v, decimals);
    PlainDecimal.DenotesAlike(Parts(t), v, decimals);
  }

  lemma WrittenCounts(t: Text, decimals: nat)
    requires t.Valid() && DynamicExtractor.Body(PlainDecimal.Written(Parts(t))).Valid()
    ensures SameCounts(t, PlainDecimal.Written(Parts(t)), decimals)
  {
    forall v: int ensures Names(t, v, decimals) <==>
                          DynamicExtractor.DenotesText(PlainDecimal.Written(Parts(t)), v, decimals)
    {
      WrittenCountsOne(t, v, decimals);
    }
  }

  lemma PowerFormIsWritten(t: Text)
    requires t.Valid() && t.exponent.Some?
    ensures PlainDecimal.Rewritten(Spell(t)) == if WritesOut(t) then PlainDecimal.Written(Parts(t)) else Spell(t)
  {
    PowerFormIsRead(t);
    WrittenParts(t);
  }

  lemma PowerFormIsSeen(t: Text, decimals: nat)
    requires t.Valid() && t.exponent.Some? && WritesOut(t)
    ensures var data := PlainDecimal.Rewritten(Spell(t)); SeenAs(t, data) && SameCounts(t, data, decimals)
  {
    PowerFormIsWritten(t);
    WrittenIsSeen(t);
    WrittenCounts(t, decimals);
  }

  lemma PlainNames(t: Text, v: int, decimals: nat, x: int, m: nat, f: nat)
    requires t.Valid() && t.exponent.None? && x == (if t.sign.Minus? then 0 - v else v)
    requires m == DigitsValue(t.whole + t.fraction) && f == |t.fraction|
    ensures Names(t, v, decimals) <==> PlainDecimal.SameNumber(x, 0 - decimals, m, 0 - f)
  {
    assert t.Power() == 0;
  }

  lemma PlainDenotes(data: seq<byte>, v: int, decimals: nat, n: Number, x: int, m: nat, f: nat)
    requires DynamicExtractor.Body(data) == n && n.Valid() && m == n.Mantissa() && f == |n.fraction|
    requires x == if DynamicExtractor.Signed(data).0 then 0 - v else v
    ensures DynamicExtractor.DenotesText(data, v, decimals) <==> PlainDecimal.SameNumber(x, 0 - decimals, m, 0 - f)
  {
    PlainDecimal.CrossMultiplied(x, m, decimals, f);
  }

  lemma PlainCountsOne(t: Text, data: seq<byte>, v: int, decimals: nat)
    requires t.Valid() && t.exponent.None?
    requires DynamicExtractor.Body(data) == Number(t.whole, t.fraction)
    requires DynamicExtractor.Signed(data).0 == t.sign.Minus?
    ensures Names(t, v, decimals) <==> DynamicExtractor.DenotesText(data, v, decimals)
  {
    var x, m, f := if t.sign.Minus? then 0 - v else v, DigitsValue(t.whole + t.fraction), |t.fraction|;
    PlainNames(t, v, decimals, x, m, f);
    PlainDenotes(data, v, decimals, Number(t.whole, t.fraction), x, m, f);
  }

  lemma PlainFormIsSeen(t: Text, decimals: nat)
    requires t.Valid() && t.exponent.None?
    ensures var data := PlainDecimal.Rewritten(Spell(t)); SeenAs(t, data) && SameCounts(t, data, decimals)
  {
    PlainFormIsRead(t);
    BodyIsSplit(t);
    BodyStarts(t);
    assert Number(t.whole, t.fraction).Valid();
    forall v: int ensures Names(t, v, decimals) <==> DynamicExtractor.DenotesText(Spell(t), v, decimals) {
      PlainCountsOne(t, Spell(t), v, decimals);
    }
  }

  /** Text that keeps its exponent. */
  lemma PowerFormIsKept(t: Text, decimals: nat)
    requires t.Valid() && t.exponent.Some? && !WritesOut(t)
    ensures PlainDecimal.Rewritten(Spell(t)) == Spell(t) && Spell(t) != [] && !DynamicExtractor.Spelled(Spell(t))
  {
    PowerFormIsWritten(t);
    assert PlainDecimal.IsE(Spell(t)[|MantissaText(t)|]);
    if DynamicExtractor.Spelled(Spell(t)) {
      PlainDecimal.SpelledHasNoE(Spell(t));
      assert false;
    }
  }

  // ------------------------------------------------------------------------------------------------
  // The answer
  // ------------------------------------------------------------------------------------------------

  /** `w` is `v` in an `i64`, whole laps of it apart. */
  predicate Wraps(v: int, w: int) {
    -0x8000_0000_0000_0000 <= w < 0x8000_0000_0000_0000 && (v - w) % 0x1_0000_0000_0000_0000 == 0
  }

  lemma WrapsAround(v: int)
    ensures Wraps(v, AsI64(v))
  {
  }

  /** No exponent the rewriter cannot take, at most eighteen digits, and then the whole count of units, wrapped:
    * the first of these that fails names the error. */
  ghost predicate Answers(t: Text, decimals: nat, r: DynamicExtractor.Read)
    requires t.Valid()
  {
    if t.exponent.Some? && !WritesOut(t) then r == Err(InvalidDigit)
    else if Places(t) > 18 then r == Err(Overflow)
    else
      && (forall v: int {:trigger Names(t, v, decimals)} :: Names(t, v, decimals) ==> r.Ok? && Wraps(v, r.value))
      && ((forall v: int {:trigger Names(t, v, decimals)} :: !Names(t, v, decimals)) ==> r == Err(ParseErr.Precision))
  }

  lemma SeenIsAnswered(t: Text, data: seq<byte>, decimals: nat, r: DynamicExtractor.Read)
    requires t.Valid() && SeenAs(t, data) && SameCounts(t, data, decimals)
    requires t.exponent.Some? ==> WritesOut(t)
    requires r == DynamicExtractor.ToI64Exact(data, decimals)
    ensures Answers(t, decimals, r)
  {
    var n := DynamicExtractor.Body(data);
    if Places(t) <= 18 {
      if AllZero(Dropped(n, decimals)) {
        var exact := DynamicExtractor.Exact(data, decimals);
        DynamicExtractor.ReadsWrappedIff(data, decimals, AsI64(exact));
        WrapsAround(exact);
        forall v: int | Names(t, v, decimals) ensures r.Ok? && Wraps(v, r.value) {
          DynamicExtractor.OnlyOneCount(data, exact, v, decimals);
        }
        DynamicExtractor.OnlyOneCount(data, exact, exact, decimals);
        assert Names(t, exact, decimals);
      } else {
        forall v: int ensures !Names(t, v, decimals) {
          DenotesIff(n, if DynamicExtractor.Signed(data).0 then 0 - v else v, decimals);
        }
      }
    }
  }

  /** Every text in either notation: what an instrument reads as a price, and as a size. */
  lemma TextIsAnswered(t: Text, decimals: nat)
    requires t.Valid()
    ensures Answers(t, decimals, PlainDecimal.Price(Spell(t), decimals))
  {
    if t.exponent.Some? && !WritesOut(t) {
      PowerFormIsKept(t, decimals);
    } else {
      if t.exponent.Some? {
        PowerFormIsSeen(t, decimals);
      } else {
        PlainFormIsSeen(t, decimals);
      }
      SeenIsAnswered(t, PlainDecimal.Rewritten(Spell(t)), decimals, PlainDecimal.Price(Spell(t), decimals));
    }
  }

  /** A size is read as a price is, and refused when that is below zero. */
  lemma SizeIsPrice(bytes: seq<byte>, decimals: nat)
    ensures var price := PlainDecimal.Price(bytes, decimals);
            PlainDecimal.Qty(bytes, decimals) ==
            if price.Ok? && price.value < 0 then Err(NegOverflow) else price
  {
  }

  // ------------------------------------------------------------------------------------------------
  // Everything else
  // ------------------------------------------------------------------------------------------------

  function SignOf(s: seq<byte>): Sign {
    if s != [] && s[0] == 0x2D then Minus else if s != [] && s[0] == 0x2B then Plus else Bare
  }

  lemma SignComesBack(s: seq<byte>)
    ensures SignText(SignOf(s)) + DynamicExtractor.Signed(s).1 == s
  {
  }

  lemma SplitComesBack(body: seq<byte>)
    ensures var n := SplitAtPoint(body); body == if 0x2E in body then n.whole + [0x2E] + n.fraction else n.whole
    ensures 0x2E !in body ==> SplitAtPoint(body).fraction == []
  {
    if 0x2E !in body {
      FirstIndexAbsent(body, POINT);
    }
  }

  /** Digits around at most one point, perhaps signed, are the front of a text. */
  lemma FrontComesBack(s: seq<byte>, exponent: Option<Exponent>) returns (t: Text)
    requires DynamicExtractor.Spelled(s) && DynamicExtractor.DigitCount(DynamicExtractor.Body(s)) > 0
    requires exponent.Some? ==>
               exponent.value.mark in {0x45, 0x65} && exponent.value.digits != [] && AllDigits(exponent.value.digits)
    ensures t.Valid() && t.exponent == exponent && MantissaText(t) == s
  {
    var body := DynamicExtractor.Signed(s).1;
    var n := SplitAtPoint(body);
    SignComesBack(s);
    SplitComesBack(body);
    DynamicExtractor.GuardedIsValid(s, 0);
    t := Text(SignOf(s), n.whole, 0x2E in body, n.fraction, exponent);
  }

  lemma PowerComesBack(s: seq<byte>, mark: byte) returns (e: Exponent)
    requires PlainDecimal.ParseExponent(s).Some?
    ensures e.mark == mark && e.digits != [] && AllDigits(e.digits) && PowerText(e) == s
  {
    SignComesBack(s);
    e := Exponent(mark, SignOf(s), DynamicExtractor.Signed(s).1);
  }

  lemma SciIsCut(bytes: seq<byte>) returns (front: seq<byte>, mark: byte, rest: seq<byte>)
    requires PlainDecimal.ParseSci(bytes).Some?
    ensures bytes == front + [mark] + rest && PlainDecimal.IsE(mark) && PlainDecimal.ParseExponent(rest).Some?
    ensures DynamicExtractor.Spelled(front) && DynamicExtractor.DigitCount(DynamicExtractor.Body(front)) > 0
  {
    var at := PlainDecimal.ExponentAt(bytes);
    front, mark, rest := bytes[..at], bytes[at], bytes[at + 1..];
    assert |DynamicExtractor.Body(front).whole + DynamicExtractor.Body(front).fraction| > 0;
  }

  lemma PowerFormComesBack(bytes: seq<byte>) returns (t: Text)
    requires PlainDecimal.ParseSci(bytes).Some?
    ensures t.Valid() && Spell(t) == bytes
  {
    var front, mark, rest := SciIsCut(bytes);
    var e := PowerComesBack(rest, mark);
    t := FrontComesBack(front, Some(e));
  }

  ghost predicate IsText(bytes: seq<byte>) {
    exists t: Text :: t.Valid() && Spell(t) == bytes
  }

  /** Any bytes at all that are no such text are refused as empty or as no digits. */
  lemma OthersAreRefused(bytes: seq<byte>, decimals: nat)
    requires !IsText(bytes)
    ensures PlainDecimal.Price(bytes, decimals) == if bytes == [] then Err(Empty) else Err(InvalidDigit)
  {
    if PlainDecimal.ParseSci(bytes).Some? {
      var t := PowerFormComesBack(bytes);
      assert false;
    }
    if DynamicExtractor.Spelled(bytes) && DynamicExtractor.DigitCount(DynamicExtractor.Body(bytes)) > 0 {
      var t := FrontComesBack(bytes, None);
      assert false;
    }
  }
}
