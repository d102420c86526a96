/** KRX time-of-day fields, and the day they are given by the moment they arrive. */
module KrxClock {
  import opened Wrappers
  import opened Bytes
  import opened IntegerParser
  import opened Hhmmss
  import opened FixedExtractor

  const SPACE: byte := 0x20
  const NS_PER_DAY: int := 86_400_000_000_000
  const KST_OFFSET_NS: int := 32_400_000_000_000
  const HALF_DAY: int := 43_200_000_000_000

  datatype KrxError = Field(at: nat, err: ParseErr) | TimeRange(at: nat)

  predicate Blank(field: seq<byte>) {
    forall i :: 0 <= i < |field| ==> field[i] == SPACE
  }

  method IsBlank(field: seq<byte>) returns (blank: bool)
    ensures blank <==> Blank(field)
  {
    var i := 0;
    while i < |field|
      invariant 0 <= i <= |field| && Blank(field[..i])
    {
      if field[i] != SPACE {
        return false;
      }
      i := i + 1;
    }
    assert field[..i] == field;
    return true;
  }

  /** The digits are range-checked before they are folded. */
  predicate OutOfRange(hhmmss: seq<byte>)
    requires |hhmmss| == 6
  {
    || hhmmss[0] > 0x32
    || (hhmmss[0] == 0x32 && hhmmss[1] > 0x33)
    || hhmmss[2] > 0x35
    || hhmmss[4] > 0x35
  }

  type TimeRead = Result<Option<nat>, KrxError>

  function Nanos(seconds: nat, sub: nat, micros: bool): nat {
    seconds * 1_000_000_000 + if micros then sub * 1_000 else sub * 1_000_000
  }

  function Assemble(seconds: Parsed, sub: Parsed, micros: bool, at: nat): TimeRead {
    if seconds.Err? then Err(Field(at, seconds.error))
    else if sub.Err? then Err(Field(at + 6, sub.error))
    else Ok(Some(Nanos(seconds.value, sub.value, micros)))
  }

  /** `time_of_day_ns`. */
  function TimeOfDayNs(field: seq<byte>, at: nat): TimeRead {
    if |field| != 12 && |field| != 9 then Err(Field(at, InvalidLength))
    else if Blank(field) then Ok(None)
    else if OutOfRange(field[..6]) then Err(TimeRange(at))
    else Assemble(ParseSeconds(field[..6]), UnsignedDecimal(field[6..], false, false), |field| == 12, at)
  }

  /** The last instant at or before `recv` that is a whole number of days from `base`, in wrapping `i64`
    * arithmetic; `/` by a positive constant is `div_euclid`. */
  function DayBefore(base: int, recv: int): int {
    AsI64(base + AsI64(AsI64(recv - base) / NS_PER_DAY * NS_PER_DAY))
  }

  /** The nearer of it and the next day's, never before the epoch. */
  function NearerDay(before: int, recv: int): int {
    var after := AsI64(before + NS_PER_DAY);
    var chosen := if AsI64(recv - before) <= AsI64(after - recv) then before else after;
    if chosen < 0 then 0 else chosen
  }

  /** `absolute_ns`. */
  function AbsoluteNs(timeOfDay: nat, recvNs: nat): int {
    NearerDay(DayBefore(AsI64(AsI64(timeOfDay) - KST_OFFSET_NS), AsI64(recvNs)), AsI64(recvNs))
  }

  // ------------------------------------------------------------------------------------------------
  // Reading a time of day
  // ------------------------------------------------------------------------------------------------

  /** Nanoseconds since midnight as `HHMMSSuuuuuu`, whole microseconds. */
  function Printed(tod: nat): seq<byte> {
    var s := tod / 1_000_000_000;
    Padded(s / 3600, 2) + Padded(s / 60 % 60, 2) + Padded(s % 60, 2) + Padded(tod / 1000 % 1_000_000, 6)
  }

  lemma TwoDigitTens(u: seq<byte>)
    requires |u| == 2 && AllDigits(u)
    ensures DigitsValue(u) == 10 * (u[0] - ZERO) + (u[1] - ZERO)
  {
    assert u[..1] == [u[0]] && [u[0]][..0] == [];
    assert DigitsValue([u[0]]) == u[0] - ZERO;
  }

  /** For digits, the comparison of tens places is the whole range check. */
  lemma RangeIff(u: seq<byte>)
    requires |u| == 6 && AllDigits(u)
    ensures AllDigits(u[..2]) && AllDigits(u[2..4]) && AllDigits(u[4..])
    ensures OutOfRange(u) <==> !(DigitsValue(u[..2]) < 24 && DigitsValue(u[2..4]) < 60 && DigitsValue(u[4..]) < 60)
  {
    TwoDigitTens(u[..2]);
    TwoDigitTens(u[2..4]);
    TwoDigitTens(u[4..]);
  }

  lemma ReadsParts(field: seq<byte>, at: nat, seconds: nat, sub: nat)
    requires |field| in {9, 12} && IsDigit(field[0])
    requires ParseSeconds(field[..6]) == Ok(seconds) && UnsignedDecimal(field[6..], false, false) == Ok(sub)
    ensures TimeOfDayNs(field, at) ==
            if OutOfRange(field[..6]) then Err(TimeRange(at))
            else Ok(Some(Nanos(seconds, sub, |field| == 12)))
  {
    assert !Blank(field);
  }

  lemma NanosAre(read: TimeRead, at: nat, outOfRange: bool, seconds: nat, sub: nat, micros: bool)
    requires read == if outOfRange then Err(TimeRange(at)) else Ok(Some(Nanos(seconds, sub, micros)))
    ensures read ==
            if outOfRange then Err(TimeRange(at))
            else Ok(Some(seconds * 1_000_000_000 + if micros then sub * 1_000 else sub * 1_000_000))
  {
  }

  lemma DigitsInRange(field: seq<byte>) returns (seconds: nat)
    requires |field| in {9, 12} && AllDigits(field)
    ensures AllDigits(field[..2]) && AllDigits(field[2..4]) && AllDigits(field[4..6]) && AllDigits(field[6..])
    ensures ParseSeconds(field[..6]) == Ok(seconds)
    ensures var h, m, s := DigitsValue(field[..2]), DigitsValue(field[2..4]), DigitsValue(field[4..6]);
            seconds == 3600 * h + 60 * m + s && (OutOfRange(field[..6]) <==> !(h < 24 && m < 60 && s < 60))
  {
    var u := field[..6];
    assert u[..2] == field[..2] && u[2..4] == field[2..4] && u[4..] == field[4..6];
    RangeIff(u);
    seconds := 3600 * DigitsValue(field[..2]) + 60 * DigitsValue(field[2..4]) + DigitsValue(field[4..6]);
    ReadsSeconds(u);
  }

  /** A field of digits is read exactly when it names a time of day, and then to its nanosecond. */
  lemma ReadsTimeIff(field: seq<byte>, at: nat)
    requires |field| in {9, 12} && AllDigits(field)
    ensures AllDigits(field[..2]) && AllDigits(field[2..4]) && AllDigits(field[4..6]) && AllDigits(field[6..])
    ensures var h, m, s, sub := DigitsValue(field[..2]), DigitsValue(field[2..4]), DigitsValue(field[4..6]),
              DigitsValue(field[6..]);
            TimeOfDayNs(field, at) ==
            if h < 24 && m < 60 && s < 60
            then
              Ok(Some((3600 * h + 60 * m + s) * 1_000_000_000 + if |field| == 12 then sub * 1_000 else sub * 1_000_000))
            else Err(TimeRange(at))
  {
    var seconds := DigitsInRange(field);
    SmallValue(field[6..]);
    ReadsParts(field, at, seconds, DigitsValue(field[6..]));
    NanosAre(TimeOfDayNs(field, at), at, OutOfRange(field[..6]), seconds, DigitsValue(field[6..]), |field| == 12);
  }

  /** Any field at all: its length, then blanks, then the ranges of its first six bytes, then those bytes and the
    * rest as numbers; what is reported first says where in the record it stands. */
  lemma AnyField(field: seq<byte>, at: nat)
    ensures var r := TimeOfDayNs(field, at);
            if |field| != 9 && |field| != 12 then r == Err(Field(at, InvalidLength))
            else if forall i :: 0 <= i < |field| ==> field[i] == 0x20 then r == Ok(None)
            else if field[0] > 0x32 || (field[0] == 0x32 && field[1] > 0x33) || field[2] > 0x35 || field[4] > 0x35
            then r == Err(TimeRange(at))
            else if field[1] > 0x39 || field[3] > 0x39 || field[5] > 0x39 then r == Err(Field(at, InvalidDigit))
            else
              var sub := UnsignedDecimal(field[6..], false, false);
              if sub.Err? then r == Err(Field(at + 6, sub.error)) else r.Ok? && r.value.Some?
  {
    if |field| in {9, 12} {
      SixIff(field[..6]);
    }
  }

  lemma SplitDay(tod: nat)
    requires tod < NS_PER_DAY && tod % 1000 == 0
    ensures var s := tod / 1_000_000_000;
            s / 3600 < 24 && s / 60 % 60 < 60 && s % 60 < 60 &&
            (3600 * (s / 3600) + 60 * (s / 60 % 60) + s % 60) * 1_000_000_000 + (tod / 1000 % 1_000_000) * 1000 == tod
  {
    var s, us := tod / 1_000_000_000, tod / 1000;
    assert s / 60 / 60 == s / 3600;
    assert us == 1_000_000 * s + us % 1_000_000;
  }

  lemma Sliced(a: seq<byte>, b: seq<byte>, c: seq<byte>, d: seq<byte>)
    requires |a| == 2 && |b| == 2 && |c| == 2 && |d| == 6
    ensures var p := a + b + c + d; p[..2] == a && p[2..4] == b && p[4..6] == c && p[6..] == d
  {
  }

  lemma PrintedParts(tod: nat)
    requires tod < NS_PER_DAY
    ensures var s, p := tod / 1_000_000_000, Printed(tod);
            |p| == 12 && AllDigits(p) &&
            p[..2] == Padded(s / 3600, 2) && p[2..4] == Padded(s / 60 % 60, 2) &&
            p[4..6] == Padded(s % 60, 2) && p[6..] == Padded(tod / 1000 % 1_000_000, 6)
  {
    var s := tod / 1_000_000_000;
    PaddedFits(s / 3600, 2);
    PaddedFits(s / 60 % 60, 2);
    PaddedFits(s % 60, 2);
    PaddedFits(tod / 1000 % 1_000_000, 6);
    Sliced(Padded(s / 3600, 2), Padded(s / 60 % 60, 2), Padded(s % 60, 2), Padded(tod / 1000 % 1_000_000, 6));
  }

  lemma PaddedFits(n: nat, width: nat)
    requires (width == 2 && n < 100) || (width == 6 && n < 1_000_000)
    ensures |Padded(n, width)| == width && AllDigits(Padded(n, width)) && DigitsValue(Padded(n, width)) == n
  {
    assert Pow10(2) == 100 && Pow10(6) == 1_000_000;
    PaddedValue(n, width);
  }

  lemma ReadsTime(field: seq<byte>, at: nat, h: nat, m: nat, s: nat, sub: nat)
    requires |field| == 12 && AllDigits(field) && h < 24 && m < 60 && s < 60
    requires DigitsValue(field[..2]) == h && DigitsValue(field[2..4]) == m
    requires DigitsValue(field[4..6]) == s && DigitsValue(field[6..]) == sub
    ensures TimeOfDayNs(field, at) == Ok(Some(Nanos(3600 * h + 60 * m + s, sub, true)))
  {
    ReadsTimeIff(field, at);
  }

  /** Printing a whole microsecond of the day and reading it back. */
  lemma ReadsPrinted(tod: nat, at: nat)
    requires tod < NS_PER_DAY && tod % 1000 == 0
    ensures TimeOfDayNs(Printed(tod), at) == Ok(Some(tod))
  {
    var s := tod / 1_000_000_000;
    var h, m, sec, sub := s / 3600, s / 60 % 60, s % 60, tod / 1000 % 1_000_000;
    assert h < 24 && Nanos(3600 * h + 60 * m + sec, sub, true) == tod by { SplitDay(tod); }
    PrintedParts(tod);
    PaddedFits(h, 2);
    PaddedFits(m, 2);
    PaddedFits(sec, 2);
    PaddedFits(sub, 6);
    ReadsTime(Printed(tod), at, h, m, sec, sub);
  }

  // ------------------------------------------------------------------------------------------------
  // Choosing the day
  // ------------------------------------------------------------------------------------------------

  /** The KST time of day of an instant: nine hours ahead of UTC. */
  function KstTimeOfDay(t: nat): (tod: nat)
    ensures tod < NS_PER_DAY
  {
    (t + 32_400_000_000_000) % 86_400_000_000_000
  }

  /** The nearest instant to `recv` that is a whole number of days from `base`, the earlier on a tie. */
  predicate Nearest(x: int, base: int, recv: int) {
    (x - base) % 86_400_000_000_000 == 0 && -43_200_000_000_000 <= x - recv < 43_200_000_000_000
  }

  lemma NearestIsUnique(x: int, y: int, base: int, recv: int)
    requires Nearest(x, base, recv) && (y - base) % NS_PER_DAY == 0
    ensures x == y <==> Nearest(y, base, recv)
  {
  }

  lemma AbsoluteFromBase(tod: nat, recv: nat)
    requires tod < NS_PER_DAY && recv < I64_LIMIT
    ensures AbsoluteNs(tod, recv) == NearerDay(DayBefore(tod - KST_OFFSET_NS, recv), recv)
  {
    Represented(tod);
    Represented(tod - KST_OFFSET_NS);
    Represented(recv);
  }

  /** The day before, when the distance to it does not wrap. */
  lemma DayBeforeIs(base: int, recv: nat) returns (q: int)
    requires -NS_PER_DAY <= base < NS_PER_DAY && recv < I64_LIMIT && recv - base < I64_LIMIT
    ensures DayBefore(base, recv) == base + q * NS_PER_DAY
    ensures recv - NS_PER_DAY < base + q * NS_PER_DAY <= recv
  {
    q := (recv - base) / NS_PER_DAY;
    Represented(recv - base);
    Represented(q * NS_PER_DAY);
    Represented(base + q * NS_PER_DAY);
  }

  /** The choice, when only the later candidate can leave the range. */
  lemma NearerDayIs(before: int, recv: nat)
    requires recv < I64_LIMIT && recv - NS_PER_DAY < before <= recv
    ensures var nearer := if recv - before <= HALF_DAY then before else before + NS_PER_DAY;
            NearerDay(before, recv) == if 0 <= nearer < I64_LIMIT then nearer else 0
  {
    var after := before + NS_PER_DAY;
    Represented(recv - before);
    Represented(after - recv);
    if after < I64_LIMIT {
      Represented(after);
    } else {
      WrapsDown(after);
      assert AsI64(after) - recv < -I64_LIMIT || AsI64(after) - recv == after - recv - U64_LIMIT;
      WrapsUp(AsI64(after) - recv);
    }
  }

  lemma WrapsDown(x: int)
    requires I64_LIMIT <= x < U64_LIMIT
    ensures AsI64(x) == x - U64_LIMIT
  {
  }

  lemma WrapsUp(x: int)
    requires -U64_LIMIT <= x < -I64_LIMIT
    ensures AsI64(x) == x + U64_LIMIT
  {
  }

  /** Of the instants with that time of day the nearest is chosen, and the epoch when it lies before it. */
  lemma ChoosesNearest(tod: nat, recv: nat) returns (x: int)
    requires tod < NS_PER_DAY && recv < I64_LIMIT && recv - (tod - KST_OFFSET_NS) < I64_LIMIT
    ensures Nearest(x, tod - KST_OFFSET_NS, recv)
    ensures AbsoluteNs(tod, recv) == if 0 <= x < I64_LIMIT then x else 0
  {
    var base := tod - KST_OFFSET_NS;
    AbsoluteFromBase(tod, recv);
    var q := DayBeforeIs(base, recv);
    var before := base + q * NS_PER_DAY;
    NearerDayIs(before, recv);
    x := if recv - before <= HALF_DAY then before else before + NS_PER_DAY;
    assert (x - base) % NS_PER_DAY == 0 by { OnTheGrid(q); OnTheGrid(q + 1); }
  }

  lemma OnTheGrid(q: int)
    ensures q * NS_PER_DAY % NS_PER_DAY == 0
  {
  }

  lemma InstantOfDay(t: nat)
    ensures (t - (KstTimeOfDay(t) - KST_OFFSET_NS)) % NS_PER_DAY == 0
  {
  }

  /** An instant is recovered from its KST time of day exactly when it was received within twelve hours of
    * it, midnight or not: up to and including twelve hours late, less than twelve hours early. */
  lemma RecoversIff(t: nat, recv: nat)
    requires recv < I64_LIMIT - NS_PER_DAY
    ensures AbsoluteNs(KstTimeOfDay(t), recv) == t <==> -43_200_000_000_000 <= t - recv < 43_200_000_000_000
  {
    var tod := KstTimeOfDay(t);
    var x := ChoosesNearest(tod, recv);
    InstantOfDay(t);
    NearestIsUnique(x, t, tod - KST_OFFSET_NS, recv);
  }

  // ------------------------------------------------------------------------------------------------
  // The last hours an `i64` can hold
  // ------------------------------------------------------------------------------------------------

  /** When the distance wraps, the candidate is off by the width of the word. */
  lemma DayBeforeWraps(base: int, recv: nat) returns (q: int)
    requires -NS_PER_DAY <= base < 0 && recv < I64_LIMIT && recv - base >= I64_LIMIT
    ensures DayBefore(base, recv) == base + q * NS_PER_DAY + U64_LIMIT
    ensures recv - NS_PER_DAY < base + q * NS_PER_DAY + U64_LIMIT <= recv
  {
    var d := recv - base - U64_LIMIT;
    WrapsDown(recv - base);
    q := d / NS_PER_DAY;
    if q * NS_PER_DAY >= -I64_LIMIT {
      Represented(q * NS_PER_DAY);
      WrapsUp(base + q * NS_PER_DAY);
    } else {
      WrapsUp(q * NS_PER_DAY);
      Represented(base + q * NS_PER_DAY + U64_LIMIT);
    }
  }

  lemma OffTheGrid(x: int, base: int, q: int)
    requires (x - base) % NS_PER_DAY == 0
    ensures x != base + q * NS_PER_DAY + U64_LIMIT
  {
    assert U64_LIMIT % NS_PER_DAY != 0;
  }

  /** Of the instants within twelve hours of their arrival, those whose arrival is so late that its distance
    * from the reading's base wraps are lost, and no others: only the last nine hours of the range. */
  lemma RecoversNearIff(t: nat, recv: nat)
    requires t < I64_LIMIT && recv < I64_LIMIT && -HALF_DAY <= t - recv < HALF_DAY
    ensures AbsoluteNs(KstTimeOfDay(t), recv) == t <==> recv - (KstTimeOfDay(t) - KST_OFFSET_NS) < I64_LIMIT
  {
    var tod := KstTimeOfDay(t);
    var base := tod - KST_OFFSET_NS;
    InstantOfDay(t);
    if recv - base < I64_LIMIT {
      var x := ChoosesNearest(tod, recv);
      NearestIsUnique(x, t, base, recv);
    } else {
      AbsoluteFromBase(tod, recv);
      var q := DayBeforeWraps(base, recv);
      NearerDayIs(base + q * NS_PER_DAY + U64_LIMIT, recv);
      OffTheGrid(t, base, q);
      OffTheGrid(t, base, q + 1);
    }
  }

  /** The last KST midnight an `i64` of nanoseconds reaches, nine hours before it runs out. */
  const LAST_MIDNIGHT: int := 9_223_340_400_000_000_000

  lemma MidnightBefore(t: nat)
    ensures t - (KstTimeOfDay(t) - KST_OFFSET_NS) == NS_PER_DAY * ((t + KST_OFFSET_NS) / NS_PER_DAY)
  {
  }

  lemma LastDay(t: nat, days: int)
    requires t < I64_LIMIT && days == (t + KST_OFFSET_NS) / NS_PER_DAY
    ensures t < LAST_MIDNIGHT <==> days < 106_752
  {
  }

  /** An instant that arrives at the moment it names is given back exactly when it lies before the last KST
    * midnight of the range: every later one, `i64` holding it or not, is lost. */
  lemma RecoversAtOnceIff(t: nat)
    requires t < I64_LIMIT
    ensures AbsoluteNs(KstTimeOfDay(t), t) == t <==> t < LAST_MIDNIGHT
    ensures LAST_MIDNIGHT < I64_LIMIT
  {
    var days := (t + KST_OFFSET_NS) / NS_PER_DAY;
    MidnightBefore(t);
    LastDay(t, days);
    assert NS_PER_DAY * days < I64_LIMIT <==> days < 106_752;
    RecoversNearIff(t, t);
  }

  /** Print, read, assemble: the field of an instant within twelve hours of its arrival gives it back. */
  lemma FieldRoundTripIff(t: nat, recv: nat, at: nat)
    requires t % 1000 == 0 && t < I64_LIMIT && recv < I64_LIMIT && -HALF_DAY <= t - recv < HALF_DAY
    ensures var read := TimeOfDayNs(Printed(KstTimeOfDay(t)), at);
            read.Ok? && read.value.Some? &&
            (AbsoluteNs(read.value.value, recv) == t <==> recv - (KstTimeOfDay(t) - KST_OFFSET_NS) < I64_LIMIT)
  {
    ReadsPrinted(KstTimeOfDay(t), at);
    RecoversNearIff(t, recv);
  }
}
