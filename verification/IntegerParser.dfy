/** Unsigned decimal text to `u64`, a machine word of digits at a time. */
module IntegerParser {
  import opened Wrappers
  import opened Words
  import opened Bytes
  import opened SwarLanes
  import opened DecimalCheck
  import opened DecimalFold

  datatype ParseErr =
    | Empty | InvalidDigit | Overflow | NegOverflow
    | InvalidPointIndex | InvalidPointLocation | InvalidLength | Precision

  type Parsed = Result<nat, ParseErr>

  // ------------------------------------------------------------------------------------------------
  // Chunks
  // ------------------------------------------------------------------------------------------------

  /** `checked_conversion_u8` to `_u128`, by the width of the chunk. */
  function Checked(s: seq<byte>): Parsed
    requires |s| in {1, 2, 4, 8, 16}
  {
    if |s| == 1 then (if IsDigit(s[0]) then Ok(s[0] - ZERO) else Err(InvalidDigit))
    else if !CheckDecimalBits(LeWord(s), |s|) then Err(InvalidDigit)
    else if |s| == 2 then Ok(TwoToU16(LeWord(s)))
    else if |s| == 4 then Ok(FourToU32(LeWord(s)))
    else if |s| == 8 then Ok(EightToU64(LeWord(s)))
    else Ok(SixteenToU128(LeWord(s)))
  }

  /** A chunk is read exactly when the word check passes it, and then by its low nibbles. */
  lemma CheckedIs(s: seq<byte>)
    requires |s| in {1, 2, 4, 8, 16}
    ensures Checked(s) == if Passes(s) then Ok(Loose(s)) else Err(InvalidDigit)
  {
    if |s| == 1 {
      assert s == [s[0]];
      LooseOne(s[0]);
      NibbleOfDigit(s[0]);
    } else {
      CheckAcceptsIff(s);
      if |s| == 2 {
        TwoFolds(s);
      } else if |s| == 4 {
        FourFolds(s);
      } else if |s| == 8 {
        EightFolds(s);
      } else {
        SixteenFolds(s);
      }
    }
  }

  lemma CheckedDigits(s: seq<byte>)
    requires |s| in {1, 2, 4, 8, 16} && AllDigits(s)
    ensures Checked(s) == Ok(DigitsValue(s))
  {
    CheckedIs(s);
    LooseIsValue(s);
  }

  // ------------------------------------------------------------------------------------------------
  // Dispatch by length
  // ------------------------------------------------------------------------------------------------

  /** `hi * m + lo` in `u64`, the first chunk that fails deciding the error. */
  function Join(hi: Parsed, m: nat, lo: Parsed): Parsed {
    if hi.Err? then hi else if lo.Err? then lo else Ok((hi.value * m + lo.value) % U64_LIMIT)
  }

  function Join3(hi: Parsed, m: nat, mid: Parsed, n: nat, lo: Parsed): Parsed {
    if hi.Err? then hi else if mid.Err? then mid else if lo.Err? then lo
    else Ok((hi.value * m + mid.value * n + lo.value) % U64_LIMIT)
  }

  /** A wrapping multiplication, a checked addition, and the limits a signed caller asks for. */
  function CheckedSum(upper: nat, lower: nat, neg: bool, pos: bool): Parsed {
    var v := upper % U64_LIMIT + lower;
    if v >= U64_LIMIT then Err(Overflow)
    else if neg && v > I64_LIMIT then Err(NegOverflow)
    else if pos && v > I64_LIMIT - 1 then Err(Overflow)
    else Ok(v)
  }

  function CheckedJoin(hi: Parsed, m: nat, lo: Parsed, neg: bool, pos: bool): Parsed {
    if hi.Err? then hi else if lo.Err? then lo else CheckedSum(hi.value * m, lo.value, neg, pos)
  }

  function StripZeros(u: seq<byte>): (r: seq<byte>)
    ensures |r| <= |u|
    ensures r == u[|u| - |r|..]
    ensures forall i :: 0 <= i < |u| - |r| ==> u[i] == ZERO
    ensures r != [] ==> r[0] != ZERO
  {
    if u != [] && u[0] == ZERO then StripZeros(u[1..]) else u
  }

  /** The arms for at most eight digits. */
  function UpToEight(u: seq<byte>): Parsed
    requires 1 <= |u| <= 8
  {
    match |u|
    case 3 => Join(Checked(u[..2]), 10, Checked(u[2..]))
    case 5 => Join(Checked(u[..4]), 10, Checked(u[4..]))
    case 6 => Join(Checked(u[..4]), 100, Checked(u[4..]))
    case 7 => Join3(Checked(u[..4]), 1000, Checked(u[4..6]), 10, Checked(u[6..]))
    case _ => Checked(u)
  }

  /** The checked sums of the longer arms: a wide chunk and what a narrower reader makes of the rest. */
  function LastSeven(u: seq<byte>): Parsed
    requires |u| == 7
  {
    Join3(Checked(u[..4]), 1000, Checked(u[4..6]), 10, Checked(u[6..]))
  }

  function LastThree(u: seq<byte>): Parsed
    requires |u| == 3
  {
    Join(Checked(u[..2]), 10, Checked(u[2..]))
  }

  /** The arms for nine to twelve. */
  function UpToTwelve(u: seq<byte>): Parsed
    requires 9 <= |u| <= 12
  {
    match |u|
    case 9 => Join(Checked(u[..8]), 10, Checked(u[8..]))
    case 10 => Join(Checked(u[..8]), 100, Checked(u[8..]))
    case 11 => Join3(Checked(u[..8]), 1000, Checked(u[8..10]), 10, Checked(u[10..]))
    case _ => Join(Checked(u[..8]), 10_000, Checked(u[8..]))
  }

  /** The arms for thirteen to sixteen. */
  function UpToSixteen(u: seq<byte>): Parsed
    requires 13 <= |u| <= 16
  {
    match |u|
    case 13 => Join3(Checked(u[..8]), 100_000, Checked(u[8..12]), 10, Checked(u[12..]))
    case 14 => Join3(Checked(u[..8]), 1_000_000, Checked(u[8..12]), 100, Checked(u[12..]))
    case 15 => CheckedJoin(Checked(u[..8]), 10_000_000, LastSeven(u[8..]), false, false)
    case _ => Join(Checked(u), 1, Ok(0))
  }

  function Nineteen(u: seq<byte>, neg: bool, pos: bool): Parsed
    requires |u| == 19
  {
    CheckedJoin(Checked(u[..16]), 1000, LastThree(u[16..]), neg, pos)
  }

  function Twenty(u: seq<byte>, neg: bool, pos: bool): Parsed
    requires |u| == 20
  {
    CheckedJoin(Checked(u[..16]), 10_000, Checked(u[16..]), neg, pos)
  }

  /** The arms for seventeen to twenty; only the last two look at the limits. */
  function UpToTwenty(u: seq<byte>, neg: bool, pos: bool): Parsed
    requires 17 <= |u| <= 20
  {
    match |u|
    case 17 => Join(Checked(u[..16]), 10, Checked(u[16..]))
    case 18 => Join(Checked(u[..16]), 100, Checked(u[16..]))
    case 19 => Nineteen(u, neg, pos)
    case _ => Twenty(u, neg, pos)
  }

  /** `u64::unsigned_decimal_core`. */
  function UnsignedDecimal(u: seq<byte>, neg: bool, pos: bool): Parsed
    decreases |u|
  {
    if |u| == 0 then Err(Empty)
    else if |u| <= 8 then UpToEight(u)
    else if |u| <= 12 then UpToTwelve(u)
    else if |u| <= 16 then UpToSixteen(u)
    else if |u| <= 20 then UpToTwenty(u, neg, pos)
    else if |StripZeros(u)| > 20 then Err(Overflow)
    else UnsignedDecimal(StripZeros(u), neg, pos)
  }

  /** The loop of the long arm: leading zeros are passed over one at a time. */
  method SkipZeros(u: seq<byte>) returns (r: seq<byte>)
    ensures r == StripZeros(u)
  {
    var start := 0;
    while start < |u| && u[start] == ZERO
      invariant start <= |u| && StripZeros(u[start..]) == StripZeros(u)
    {
      assert u[start..][1..] == u[start + 1..];
      start := start + 1;
    }
    r := u[start..];
  }

  // ------------------------------------------------------------------------------------------------
  // What the dispatch computes
  // ------------------------------------------------------------------------------------------------

  lemma Powers()
    ensures Pow10(1) == 10 && Pow10(2) == 100 && Pow10(3) == 1000 && Pow10(4) == 10_000 && Pow10(5) == 100_000
    ensures Pow10(6) == 1_000_000 && Pow10(7) == 10_000_000 && Pow10(8) == 100_000_000
    ensures Pow10(16) == 10_000_000_000_000_000 && Pow10(19) == 10_000_000_000_000_000_000
  {
    assert Pow10(4) == 10_000;
    assert Pow10(8) == 10_000 * Pow10(4);
    assert Pow10(12) == 10_000 * Pow10(8);
    assert Pow10(16) == 10_000 * Pow10(12);
  }

  /** A run of digits cut in two. */
  lemma Cut(u: seq<byte>, k: nat)
    requires AllDigits(u) && k <= |u|
    ensures AllDigits(u[..k]) && AllDigits(u[k..])
    ensures DigitsValue(u) == DigitsValue(u[..k]) * Pow10(|u| - k) + DigitsValue(u[k..])
  {
    assert u == u[..k] + u[k..];
    DigitsValueConcat(u[..k], u[k..]);
  }

  /** A run of digits cut in three, the last part one or two digits long. */
  lemma CutTwice(u: seq<byte>, k: nat, l: nat)
    requires AllDigits(u) && k <= l <= |u|
    ensures AllDigits(u[..k]) && AllDigits(u[k..l]) && AllDigits(u[l..])
    ensures DigitsValue(u) ==
            DigitsValue(u[..k]) * Pow10(|u| - k) + DigitsValue(u[k..l]) * Pow10(|u| - l) + DigitsValue(u[l..])
  {
    Cut(u, k);
    Cut(u[k..], l - k);
    assert u[k..][..l - k] == u[k..l] && u[k..][l - k..] == u[l..];
  }

  lemma Below(u: seq<byte>, limit: nat)
    requires AllDigits(u) && Pow10(|u|) <= limit
    ensures DigitsValue(u) < limit && DigitsValue(u) % limit == DigitsValue(u)
  {
    DigitsValueBound(u);
    DivModUnique(DigitsValue(u), limit, 0, DigitsValue(u));
  }

  predicate ChunkSize(n: nat) {
    n in {1, 2, 4, 8, 16}
  }

  lemma JoinReads(u: seq<byte>, k: nat, m: nat)
    requires AllDigits(u) && k <= |u| <= 19 && ChunkSize(k) && ChunkSize(|u| - k) && m == Pow10(|u| - k)
    ensures Join(Checked(u[..k]), m, Checked(u[k..])) == Ok(DigitsValue(u))
  {
    Cut(u, k);
    CheckedDigits(u[..k]);
    CheckedDigits(u[k..]);
    Fits(u);
  }

  lemma Join3Reads(u: seq<byte>, k: nat, l: nat, m: nat, n: nat)
    requires AllDigits(u) && k <= l <= |u| <= 19 && ChunkSize(k) && ChunkSize(l - k) && ChunkSize(|u| - l)
    requires m == Pow10(|u| - k) && n == Pow10(|u| - l)
    ensures Join3(Checked(u[..k]), m, Checked(u[k..l]), n, Checked(u[l..])) == Ok(DigitsValue(u))
  {
    CutTwice(u, k, l);
    CheckedDigits(u[..k]);
    CheckedDigits(u[k..l]);
    CheckedDigits(u[l..]);
    Fits(u);
  }

  lemma Fits(u: seq<byte>)
    requires AllDigits(u) && |u| <= 19
    ensures DigitsValue(u) < U64_LIMIT && DigitsValue(u) % U64_LIMIT == DigitsValue(u)
  {
    Powers();
    Pow10Monotone(|u|, 19);
    Below(u, U64_LIMIT);
  }

  lemma ReadsUpToEight(u: seq<byte>)
    requires AllDigits(u) && 1 <= |u| <= 8
    ensures UpToEight(u) == Ok(DigitsValue(u))
  {
    Powers();
    match |u|
    case 3 => JoinReads(u, 2, 10);
    case 5 => JoinReads(u, 4, 10);
    case 6 => JoinReads(u, 4, 100);
    case 7 => Join3Reads(u, 4, 6, 1000, 10);
    case _ => CheckedDigits(u);
  }

  lemma ReadsUpToTwelve(u: seq<byte>)
    requires AllDigits(u) && 9 <= |u| <= 12
    ensures UpToTwelve(u) == Ok(DigitsValue(u))
  {
    Powers();
    match |u|
    case 9 => JoinReads(u, 8, 10);
    case 10 => JoinReads(u, 8, 100);
    case 11 => Join3Reads(u, 8, 10, 1000, 10);
    case _ => JoinReads(u, 8, 10_000);
  }

  lemma ThirteenReads(u: seq<byte>)
    requires AllDigits(u) && |u| == 13
    ensures UpToSixteen(u) == Ok(DigitsValue(u))
  {
    Powers();
    Join3Reads(u, 8, 12, 100_000, 10);
  }

  lemma FourteenReads(u: seq<byte>)
    requires AllDigits(u) && |u| == 14
    ensures UpToSixteen(u) == Ok(DigitsValue(u))
  {
    Powers();
    Join3Reads(u, 8, 12, 1_000_000, 100);
  }

  lemma SixteenReads(u: seq<byte>)
    requires AllDigits(u) && |u| == 16
    ensures UpToSixteen(u) == Ok(DigitsValue(u))
  {
    CheckedDigits(u);
    Fits(u);
  }

  lemma ReadsUpToSixteen(u: seq<byte>)
    requires AllDigits(u) && 13 <= |u| <= 16
    ensures UpToSixteen(u) == Ok(DigitsValue(u))
  {
    match |u|
    case 13 => ThirteenReads(u);
    case 14 => FourteenReads(u);
    case 15 => FifteenReads(u);
    case _ => SixteenReads(u);
  }

  lemma FifteenReads(u: seq<byte>)
    requires AllDigits(u) && |u| == 15
    ensures UpToSixteen(u) == Ok(DigitsValue(u))
  {
    assert LastSeven(u[8..]) == Ok(DigitsValue(u[8..])) by { Powers(); Join3Reads(u[8..], 4, 6, 1000, 10); }
    CheckedDigits(u[..8]);
    CheckedJoinReads(u, 8, 10_000_000, false, false) by { Powers(); Fits(u); }
    Small(u);
  }

  /** The value `v` as a caller who asked for the given limits receives it. */
  function Limited(v: nat, neg: bool, pos: bool): Parsed {
    if neg && v > I64_LIMIT then Err(NegOverflow) else if pos && v > I64_LIMIT - 1 then Err(Overflow) else Ok(v)
  }

  lemma CheckedSumExact(upper: nat, lower: nat, neg: bool, pos: bool)
    requires upper + lower < U64_LIMIT
    ensures CheckedSum(upper, lower, neg, pos) == Limited(upper + lower, neg, pos)
  {
    DivModUnique(upper, U64_LIMIT, 0, upper);
  }

  lemma CheckedJoinReads(u: seq<byte>, k: nat, m: nat, neg: bool, pos: bool)
    requires AllDigits(u) && k <= |u| && m == Pow10(|u| - k) && DigitsValue(u) < U64_LIMIT
    ensures CheckedJoin(Ok(DigitsValue(u[..k])), m, Ok(DigitsValue(u[k..])), neg, pos) ==
              Limited(DigitsValue(u), neg, pos)
  {
    Cut(u, k);
    CheckedSumExact(DigitsValue(u[..k]) * m, DigitsValue(u[k..]), neg, pos);
  }

  lemma NineteenReads(u: seq<byte>, neg: bool, pos: bool)
    requires AllDigits(u) && |u| == 19
    ensures Nineteen(u, neg, pos) == Limited(DigitsValue(u), neg, pos)
  {
    assert LastThree(u[16..]) == Ok(DigitsValue(u[16..])) by { Powers(); JoinReads(u[16..], 2, 10); }
    CheckedDigits(u[..16]);
    Fits(u);
    CheckedJoinReads(u, 16, 1000, neg, pos) by { assert Pow10(3) == 1000; }
  }

  lemma TwentyReads(u: seq<byte>, neg: bool, pos: bool)
    requires AllDigits(u) && |u| == 20
    ensures Twenty(u, neg, pos) == CheckedSum(DigitsValue(u[..16]) * 10_000, DigitsValue(u[16..]), neg, pos)
  {
    CheckedDigits(u[..16]);
    CheckedDigits(u[16..]);
  }

  lemma TwentyValue(t: seq<byte>)
    requires AllDigits(t) && |t| == 20
    ensures AllDigits(t[..16]) && AllDigits(t[16..])
    ensures DigitsValue(t) == DigitsValue(t[..16]) * 10_000 + DigitsValue(t[16..])
  {
    Cut(t, 16);
    assert Pow10(4) == 10_000;
  }

  lemma TwentyFits(u: seq<byte>, neg: bool, pos: bool)
    requires AllDigits(u) && |u| == 20 && DigitsValue(u) < U64_LIMIT
    ensures Twenty(u, neg, pos) == Limited(DigitsValue(u), neg, pos)
  {
    TwentyValue(u);
    TwentyReads(u, neg, pos);
    SumOf(Twenty(u, neg, pos), DigitsValue(u), DigitsValue(u[..16]) * 10_000, DigitsValue(u[16..]), neg, pos);
  }

  lemma SumOf(p: Parsed, v: nat, upper: nat, lower: nat, neg: bool, pos: bool)
    requires p == CheckedSum(upper, lower, neg, pos) && v == upper + lower < U64_LIMIT
    ensures p == Limited(v, neg, pos)
  {
    CheckedSumExact(upper, lower, neg, pos);
  }

  lemma ReadsUpToTwenty(u: seq<byte>, neg: bool, pos: bool)
    requires AllDigits(u) && 17 <= |u| <= 20 && DigitsValue(u) < U64_LIMIT
    ensures UpToTwenty(u, neg, pos) == Limited(DigitsValue(u), neg, pos)
  {
    Powers();
    match |u|
    case 17 => JoinReads(u, 16, 10); Small(u);
    case 18 => JoinReads(u, 16, 100); Small(u);
    case 19 => NineteenReads(u, neg, pos);
    case _ => TwentyFits(u, neg, pos);
  }

  lemma Small(u: seq<byte>)
    requires AllDigits(u) && |u| <= 18
    ensures DigitsValue(u) < I64_LIMIT
  {
    Pow10Monotone(|u|, 18);
    Powers();
    assert Pow10(19) == 10 * Pow10(18);
    DigitsValueBound(u);
  }

  lemma StripsToSameValue(u: seq<byte>)
    requires AllDigits(u)
    ensures AllDigits(StripZeros(u)) && DigitsValue(StripZeros(u)) == DigitsValue(u)
  {
    var r := StripZeros(u);
    assert u == u[..|u| - |r|] + r;
    LeadingZeros(u[..|u| - |r|], r);
  }

  lemma LeadingDigit(u: seq<byte>)
    requires AllDigits(u) && u != [] && u[0] != ZERO
    ensures DigitsValue(u) >= Pow10(|u| - 1)
  {
    Cut(u, 1);
    assert DigitsValue(u[..1]) >= 1 by { assert u[..1][..0] == []; }
    AtLeast(DigitsValue(u[..1]), Pow10(|u| - 1));
  }

  lemma AtLeast(a: nat, b: nat)
    requires a >= 1
    ensures a * b >= b
  {
  }

  /** More than twenty digits without a leading zero do not fit a machine word. */
  lemma LongIsLarge(u: seq<byte>)
    requires AllDigits(u) && |u| > 20 && u[0] != ZERO
    ensures DigitsValue(u) >= U64_LIMIT
  {
    LeadingDigit(u);
    Pow10Monotone(20, |u| - 1);
    Powers();
    assert Pow10(20) == 10 * Pow10(19);
  }

  lemma ReadsTwenty(u: seq<byte>, neg: bool, pos: bool)
    requires AllDigits(u) && 1 <= |u| <= 20 && DigitsValue(u) < U64_LIMIT
    ensures UnsignedDecimal(u, neg, pos) == Limited(DigitsValue(u), neg, pos)
  {
    if |u| <= 8 {
      ReadsUpToEight(u);
      Small(u);
    } else if |u| <= 12 {
      ReadsUpToTwelve(u);
      Small(u);
    } else if |u| <= 16 {
      ReadsUpToSixteen(u);
      Small(u);
    } else {
      ReadsUpToTwenty(u, neg, pos);
    }
  }

  // ------------------------------------------------------------------------------------------------
  // Exactly when it is right
  // ------------------------------------------------------------------------------------------------

  /** What a digit-by-digit loop with checked arithmetic returns. */
  function Exactly(v: nat, neg: bool, pos: bool): Parsed {
    if v >= U64_LIMIT then Err(Overflow) else Limited(v, neg, pos)
  }

  /** The digits the length dispatch sees: leading zeros go only when there are more than twenty in all. */
  function Significant(u: seq<byte>): seq<byte> {
    if |u| > 20 then StripZeros(u) else u
  }

  /** The twenty-digit sum once its scaled part has wrapped. */
  function WrappedSum(upper: nat, lower: nat): nat {
    upper % U64_LIMIT + lower
  }

  /** The scaled part leaves the word, and the wrapped sum comes back into it unnoticed by the limits. */
  predicate SumEscapes(upper: nat, lower: nat, neg: bool, pos: bool) {
    var w := WrappedSum(upper, lower);
    upper >= U64_LIMIT && w < U64_LIMIT && ((neg && w > I64_LIMIT) || !(pos && w > I64_LIMIT - 1))
  }

  predicate Escapes(t: seq<byte>, neg: bool, pos: bool)
    requires AllDigits(t)
  {
    |t| == 20 && SumEscapes(DigitsValue(t[..16]) * 10_000, DigitsValue(t[16..]), neg, pos)
  }

  /** What an escaped sum is taken for. */
  function Mistaken(upper: nat, lower: nat, neg: bool): Parsed {
    var w := WrappedSum(upper, lower);
    if neg && w > I64_LIMIT then Err(NegOverflow) else Ok(w)
  }

  lemma SumIff(p: Parsed, v: nat, upper: nat, lower: nat, neg: bool, pos: bool)
    requires p == CheckedSum(upper, lower, neg, pos) && v == upper + lower
    ensures p == Exactly(v, neg, pos) <==> !SumEscapes(upper, lower, neg, pos)
    ensures SumEscapes(upper, lower, neg, pos) ==> p == Mistaken(upper, lower, neg)
  {
    if upper < U64_LIMIT {
      DivModUnique(upper, U64_LIMIT, 0, upper);
    }
  }

  lemma TwentyDispatch(t: seq<byte>, neg: bool, pos: bool)
    requires |t| == 20
    ensures UnsignedDecimal(t, neg, pos) == Twenty(t, neg, pos)
  {
  }

  lemma TwentySum(t: seq<byte>, neg: bool, pos: bool)
    requires AllDigits(t) && |t| == 20
    ensures UnsignedDecimal(t, neg, pos) == CheckedSum(DigitsValue(t[..16]) * 10_000, DigitsValue(t[16..]), neg, pos)
  {
    TwentyDispatch(t, neg, pos);
    TwentyReads(t, neg, pos);
  }

  /** On twenty digits the leading sixteen are scaled with a wrapping multiplication: the answer is the one a
    * checked loop gives exactly when the wrap does not escape. */
  lemma TwentyDigitsIff(t: seq<byte>, neg: bool, pos: bool)
    requires AllDigits(t) && |t| == 20
    ensures UnsignedDecimal(t, neg, pos) == Exactly(DigitsValue(t), neg, pos) <==> !Escapes(t, neg, pos)
    ensures Escapes(t, neg, pos) ==>
              UnsignedDecimal(t, neg, pos) == Mistaken(DigitsValue(t[..16]) * 10_000, DigitsValue(t[16..]), neg)
  {
    TwentySum(t, neg, pos);
    TwentyValue(t);
    SumIff(UnsignedDecimal(t, neg, pos), DigitsValue(t), DigitsValue(t[..16]) * 10_000, DigitsValue(t[16..]), neg, pos);
  }

  lemma ShortReads(t: seq<byte>, neg: bool, pos: bool)
    requires AllDigits(t) && 1 <= |t| <= 19
    ensures UnsignedDecimal(t, neg, pos) == Exactly(DigitsValue(t), neg, pos)
  {
    Fits(t);
    ReadsTwenty(t, neg, pos);
  }

  lemma LongReads(u: seq<byte>, neg: bool, pos: bool)
    requires |u| > 20
    ensures UnsignedDecimal(u, neg, pos) ==
            if |StripZeros(u)| > 20 then Err(Overflow) else UnsignedDecimal(StripZeros(u), neg, pos)
  {
  }

  /** Over every digit text and both limits, the reader agrees with a digit-by-digit loop exactly when some
    * digit is left to read and the twenty-digit sum does not escape the word. Zeros alone, more than twenty of
    * them, are taken for no text at all; an escaped sum is returned as it wrapped. */
  lemma ReadsDigitsIff(u: seq<byte>, neg: bool, pos: bool)
    requires AllDigits(u) && u != []
    ensures AllDigits(Significant(u))
    ensures UnsignedDecimal(u, neg, pos) == Exactly(DigitsValue(u), neg, pos) <==>
            Significant(u) != [] && !Escapes(Significant(u), neg, pos)
    ensures Significant(u) == [] ==> UnsignedDecimal(u, neg, pos) == Err(Empty) && DigitsValue(u) == 0
    ensures Escapes(Significant(u), neg, pos) ==>
              var t := Significant(u);
              UnsignedDecimal(u, neg, pos) == Mistaken(DigitsValue(t[..16]) * 10_000, DigitsValue(t[16..]), neg)
  {
    var t := Significant(u);
    if |u| > 20 {
      StripsToSameValue(u);
      LongReads(u, neg, pos);
    }
    if |t| > 20 {
      LongIsLarge(t);
    } else if |t| == 20 {
      TwentyDigitsIff(t, neg, pos);
    } else if t != [] {
      ShortReads(t, neg, pos);
    }
  }

  /** The text of 18446744073709560000, which is more than a machine word holds. */
  function WrappingText(): (u: seq<byte>)
    ensures |u| == 20 && AllDigits(u)
    ensures DigitsValue(u[..16]) == 1844674407370956 && DigitsValue(u[16..]) == 0
  {
    PaddedValue(1844674407370956, 16);
    WrappingHead();
    ZerosValue(Repeat(ZERO, 4));
    var u := Padded(1844674407370956, 16) + Repeat(ZERO, 4);
    assert u[..16] == Padded(1844674407370956, 16) && u[16..] == Repeat(ZERO, 4);
    u
  }

  lemma WrappingHead()
    ensures 1844674407370956 < Pow10(16)
  {
    Powers();
  }

  lemma StartsWithDigit(t: seq<byte>)
    requires AllDigits(t) && |t| >= 16 && DigitsValue(t[..16]) >= Pow10(15)
    ensures t[0] != ZERO
  {
    var head := t[..16];
    if head[0] == ZERO {
      assert head == [ZERO] + head[1..];
      LeadingZeros([ZERO], head[1..]);
      DigitsValueBound(head[1..]);
    }
  }

  lemma {:induction false} StripsTo(k: nat, t: seq<byte>)
    requires t != [] && t[0] != ZERO
    ensures StripZeros(Repeat(ZERO, k) + t) == t
  {
    var u := Repeat(ZERO, k) + t;
    if k == 0 {
      assert u == t;
    } else {
      assert u[0] == ZERO && u[1..] == Repeat(ZERO, k - 1) + t;
      StripsTo(k - 1, t);
    }
  }

  lemma WrappingValue()
    ensures DigitsValue(WrappingText()) == 18446744073709560000 && WrappingText()[0] != ZERO
  {
    TwentyValue(WrappingText());
    assert Pow10(15) <= 1844674407370956 by { Powers(); assert Pow10(16) == 10 * Pow10(15); }
    StartsWithDigit(WrappingText());
  }

  /** It is read as 8384, by the signed callers too, and so is it behind any number of zeros. */
  lemma TwentyDigitsWrap(zeros: nat, neg: bool, pos: bool)
    ensures var u := Repeat(ZERO, zeros) + WrappingText();
            AllDigits(u) && DigitsValue(u) == 18446744073709560000 && UnsignedDecimal(u, neg, pos) == Ok(8384)
  {
    var t := WrappingText();
    var u := Repeat(ZERO, zeros) + t;
    WrappingValue();
    LeadingZeros(Repeat(ZERO, zeros), t);
    assert WrappedSum(1844674407370956 * 10_000, 0) == 8384 by {
      DivModUnique(18446744073709560000, U64_LIMIT, 1, 8384);
    }
    TwentyDigitsIff(t, neg, pos);
    if zeros == 0 {
      assert u == t;
    } else {
      StripsTo(zeros, t);
      LongReads(u, neg, pos);
    }
  }
}
