/** FIX UTC timestamps: printed from a clock reading, and parsed back. */
module UtcTime {
  import opened Wrappers
  import opened Words
  import opened Bytes
  import opened Calendar
  import opened FixFields

  const NS_PER_SEC: int := 1_000_000_000
  const DASH: byte := 0x2D
  const COLON: byte := 0x3A

  /** `YYYYMMDD-HH:MM:SS.mmm`, as `write_sending_time` prints it. */
  function SendingTime(now: nat): seq<byte> {
    var secs := now / NS_PER_SEC;
    var sod := secs % 86_400;
    CalendarIsValid(secs / 86_400);
    StampText(CivilFromDays(secs / 86_400), sod / 3600, sod / 60 % 60, sod % 60, now % NS_PER_SEC / 1_000_000)
  }

  function StampText(c: Date, h: nat, m: nat, s: nat, millis: nat): seq<byte>
    requires Valid(c)
  {
    DateText(c) + [DASH] + ClockText(h, m, s) + [POINT] + Padded(millis, 3)
  }

  function DateText(c: Date): seq<byte>
    requires Valid(c)
  {
    Padded(c.year % 10_000, 4) + Padded(c.month, 2) + Padded(c.day, 2)
  }

  function ClockText(h: nat, m: nat, s: nat): seq<byte> {
    Padded(h, 2) + [COLON] + Padded(m, 2) + [COLON] + Padded(s, 2)
  }

  lemma CalendarIsValid(days: int)
    ensures Valid(CivilFromDays(days))
  {
    var _ := DaysRoundTrip(days);
  }

  /** `parse_utc_date`; days before the epoch and nanoseconds past the word are refused. */
  function ParseUtcDate(bytes: seq<byte>): Option<nat> {
    if |bytes| != 8 then None
    else
      match (ParseU64(bytes[..4]), ParseU64(bytes[4..6]), ParseU64(bytes[6..8]))
      case (Some(y), Some(m), Some(d)) =>
        if !(1 <= m <= 12) || !(1 <= d <= 31) then None
        else
          var days := DaysFromCivil(Date(y, m, d));
          if days < 0 || days * 86_400 >= U64_LIMIT || days * 86_400 * NS_PER_SEC >= U64_LIMIT then None
          else Some(days * 86_400 * NS_PER_SEC)
      case _ => None
  }

  function ParseFraction(bytes: seq<byte>): Option<nat> {
    if bytes == [] then Some(0)
    else if bytes[0] != POINT || |bytes| == 1 || |bytes| > 10 then None
    else
      match ParseU64(bytes[1..])
      case None => None
      case Some(v) => Some(v * Pow10(9 - (|bytes| - 1)))
  }

  /** `parse_utc_time`. */
  function ParseUtcTime(bytes: seq<byte>): Option<nat> {
    if |bytes| < 8 || bytes[2] != COLON || bytes[5] != COLON then None
    else
      match (ParseU64(bytes[..2]), ParseU64(bytes[3..5]), ParseU64(bytes[6..8]))
      case (Some(h), Some(m), Some(s)) =>
        if h > 23 || m > 59 || s > 60 then None
        else
          (match ParseFraction(bytes[8..])
           case None => None
           case Some(f) => Some((h * 3600 + m * 60 + s) * NS_PER_SEC + f))
      case _ => None
  }

  /** `parse_utc_timestamp`, the sum in wrapping arithmetic. */
  function ParseUtcTimestamp(bytes: seq<byte>): Option<nat> {
    if |bytes| < 17 || bytes[8] != DASH then None else Combined(ParseUtcDate(bytes[..8]), ParseUtcTime(bytes[9..]))
  }

  function Combined(date: Option<nat>, time: Option<nat>): Option<nat> {
    if date.None? || time.None? then None else Some((date.value + time.value) % U64_LIMIT)
  }

  // ------------------------------------------------------------------------------------------------
  // The round trip
  // ------------------------------------------------------------------------------------------------

  lemma PaddedParses(n: nat, width: nat)
    requires (width == 2 && n < 100) || (width == 3 && n < 1000) || (width == 4 && n < 10_000)
    ensures |Padded(n, width)| == width && AllDigits(Padded(n, width)) && ParseU64(Padded(n, width)) == Some(n)
  {
    assert Pow10(2) == 100 && Pow10(3) == 1000 && Pow10(4) == 10_000;
    PaddedValue(n, width);
  }

  /** A day a clock reading can name falls in a four-digit year. */
  lemma YearHasFourDigits(days: int)
    requires 0 <= days <= 213_503
    ensures 0 <= CivilFromDays(days).year < 10_000
  {
    var z := days + 719_468;
    var era, doe := z / 146_097, z % 146_097;
    PlaceIsValid(doe);
    var p := PlaceOf(doe);
    CivilAt(era, p);
    YearStart(p);
  }

  lemma DateParts(a: seq<byte>, b: seq<byte>, c: seq<byte>)
    requires |a| == 4 && |b| == 2 && |c| == 2
    ensures var s := a + b + c; |s| == 8 && s[..4] == a && s[4..6] == b && s[6..8] == c
  {
  }

  lemma DateFrom(a: seq<byte>, b: seq<byte>, c: seq<byte>, date: Date, days: nat)
    requires |a| == 4 && |b| == 2 && |c| == 2 && 1 <= date.month <= 12 && 1 <= date.day <= 31
    requires date.year >= 0 && ParseU64(a) == Some(date.year) && ParseU64(b) == Some(date.month) &&
               ParseU64(c) == Some(date.day)
    requires DaysFromCivil(date) == days && days <= 213_503
    ensures ParseUtcDate(a + b + c) == Some(days * 86_400 * NS_PER_SEC)
  {
    DateParts(a, b, c);
  }

  lemma PlacesParse(year: nat, month: nat, day: nat)
    requires year < 10_000 && month < 100 && day < 100
    ensures |Padded(year, 4)| == 4 && |Padded(month, 2)| == 2 && |Padded(day, 2)| == 2
    ensures ParseU64(Padded(year, 4)) == Some(year)
    ensures ParseU64(Padded(month, 2)) == Some(month) && ParseU64(Padded(day, 2)) == Some(day)
  {
    PaddedParses(year, 4);
    PaddedParses(month, 2);
    PaddedParses(day, 2);
  }

  /** The calendar date survives the text. */
  lemma DateTextParses(c: Date, days: nat)
    requires Valid(c) && 0 <= c.year < 10_000 && DaysFromCivil(c) == days <= 213_503
    ensures |DateText(c)| == 8 && ParseUtcDate(DateText(c)) == Some(days * 86_400 * NS_PER_SEC)
  {
    assert c.year % 10_000 == c.year && c.day <= 31;
    PlacesParse(c.year, c.month, c.day);
    DateFrom(Padded(c.year, 4), Padded(c.month, 2), Padded(c.day, 2), c, days);
  }

  lemma ClockParts(a: seq<byte>, b: seq<byte>, c: seq<byte>, f: seq<byte>)
    requires |a| == 2 && |b| == 2 && |c| == 2
    ensures var s := (a + [COLON] + b + [COLON] + c) + [POINT] + f;
            && |s| == 9 + |f| && s[..2] == a && s[2] == COLON && s[3..5] == b && s[5] == COLON && s[6..8] == c
            && s[8..] == [POINT] + f
  {
    assert ((a + [COLON] + b + [COLON] + c) + [POINT] + f)[8..] == [POINT] + f;
  }

  lemma FractionParses(millis: nat)
    requires millis < 1000
    ensures ParseFraction([POINT] + Padded(millis, 3)) == Some(millis * 1_000_000)
  {
    PaddedParses(millis, 3);
    assert Pow10(6) == 1_000_000;
    assert ([POINT] + Padded(millis, 3))[1..] == Padded(millis, 3);
  }

  /** And so does the time of day, to the millisecond. */
  lemma TimeParses(h: nat, m: nat, s: nat, millis: nat)
    requires h < 24 && m < 60 && s < 60 && millis < 1000
    ensures |ClockText(h, m, s)| == 8
    ensures ParseUtcTime(ClockText(h, m, s) + [POINT] + Padded(millis, 3)) ==
            Some((h * 3600 + m * 60 + s) * NS_PER_SEC + millis * 1_000_000)
  {
    PaddedParses(h, 2);
    PaddedParses(m, 2);
    PaddedParses(s, 2);
    ClockParts(Padded(h, 2), Padded(m, 2), Padded(s, 2), Padded(millis, 3));
    FractionParses(millis);
    PaddedParses(millis, 3);
  }

  lemma StampFrom(stamp: seq<byte>, date: seq<byte>, time: seq<byte>, d: nat, t: nat)
    requires |date| == 8 && |time| >= 8 && ParseUtcDate(date) == Some(d) && ParseUtcTime(time) == Some(t)
    requires d + t < U64_LIMIT && stamp == date + [DASH] + time
    ensures ParseUtcTimestamp(stamp) == Some(d + t)
  {
    assert stamp[8] == DASH && stamp[..8] == date && stamp[9..] == time;
    DivModUnique(d + t, U64_LIMIT, 0, d + t);
  }

  lemma Regrouped(date: seq<byte>, clock: seq<byte>, millis: seq<byte>)
    ensures date + [DASH] + clock + [POINT] + millis == date + [DASH] + (clock + [POINT] + millis)
  {
  }

  lemma SplitSeconds(sod: nat)
    requires sod < 86_400
    ensures sod / 3600 < 24 && sod / 3600 * 3600 + sod / 60 % 60 * 60 + sod % 60 == sod
  {
    assert sod / 60 / 60 == sod / 3600;
  }

  lemma SplitNow(now: nat, secs: nat, millis: nat)
    requires secs == now / NS_PER_SEC && millis == now % NS_PER_SEC / 1_000_000 && now < U64_LIMIT
    ensures millis < 1000 && secs / 86_400 <= 213_503
    ensures secs * NS_PER_SEC + millis * 1_000_000 == now - now % 1_000_000
  {
    DivModUnique(now, 1_000_000, secs * 1000 + millis, now % NS_PER_SEC % 1_000_000);
  }

  /** A reading cut into a date, hours, minutes, seconds and milliseconds. */
  lemma Pieces(now: nat)
    returns (c: Date, h: nat, m: nat, s: nat, millis: nat, days: nat, clock: nat)
    requires now < U64_LIMIT
    ensures Valid(c) && c == CivilFromDays(days) && days <= 213_503
    ensures h < 24 && m < 60 && s < 60 && millis < 1000
    ensures clock == (h * 3600 + m * 60 + s) * NS_PER_SEC + millis * 1_000_000
    ensures days * 86_400 * NS_PER_SEC + clock == now - now % 1_000_000
    ensures SendingTime(now) == StampText(c, h, m, s, millis)
  {
    var secs := now / NS_PER_SEC;
    var sod := secs % 86_400;
    days, h, m, s, millis := secs / 86_400, sod / 3600, sod / 60 % 60, sod % 60, now % NS_PER_SEC / 1_000_000;
    CalendarIsValid(days);
    c := CivilFromDays(days);
    SplitNow(now, secs, millis);
    SplitSeconds(sod);
    clock := sod * NS_PER_SEC + millis * 1_000_000;
  }

  lemma DayHalf(c: Date, days: nat) returns (text: seq<byte>, date: nat)
    requires Valid(c) && c == CivilFromDays(days) && days <= 213_503
    ensures text == DateText(c) && date == days * 86_400 * NS_PER_SEC
    ensures |text| == 8 && ParseUtcDate(text) == Some(date)
  {
    var d := DaysRoundTrip(days);
    YearHasFourDigits(days);
    DateTextParses(c, days);
    text, date := DateText(c), days * 86_400 * NS_PER_SEC;
  }

  lemma TimeHalf(h: nat, m: nat, s: nat, millis: nat, clock: nat) returns (time: seq<byte>)
    requires h < 24 && m < 60 && s < 60 && millis < 1000
    requires clock == (h * 3600 + m * 60 + s) * NS_PER_SEC + millis * 1_000_000
    ensures time == ClockText(h, m, s) + [POINT] + Padded(millis, 3)
    ensures |time| == 12 && ParseUtcTime(time) == Some(clock)
  {
    time := ClockText(h, m, s) + [POINT] + Padded(millis, 3);
    TimeParses(h, m, s, millis);
    PaddedParses(millis, 3);
  }

  /** The two halves of a stamp, and what each is read as. */
  lemma Halves(now: nat) returns (stamp: seq<byte>, text: seq<byte>, time: seq<byte>, date: nat, clock: nat)
    requires now < U64_LIMIT
    ensures |text| == 8 && ParseUtcDate(text) == Some(date) && |time| == 12 && ParseUtcTime(time) == Some(clock)
    ensures date + clock == now - now % 1_000_000
    ensures stamp == SendingTime(now) && stamp == text + [DASH] + time
  {
    var c, h, m, s, millis, days, rest := Pieces(now);
    text, date := DayHalf(c, days);
    time := TimeHalf(h, m, s, millis, rest);
    stamp, clock := SendingTime(now), rest;
    Regrouped(text, ClockText(h, m, s), Padded(millis, 3));
  }

  lemma HalvesParse(stamp: seq<byte>, text: seq<byte>, time: seq<byte>, date: nat, clock: nat, now: nat)
    requires |text| == 8 && ParseUtcDate(text) == Some(date) && |time| == 12 && ParseUtcTime(time) == Some(clock)
    requires stamp == text + [DASH] + time && date + clock == now - now % 1_000_000 && now < U64_LIMIT
    ensures |stamp| == 21 && ParseUtcTimestamp(stamp) == Some(now - now % 1_000_000)
  {
    StampFrom(stamp, text, time, date, clock);
  }

  /** Every clock reading a `u64` of nanoseconds can hold survives the text, to its millisecond. */
  lemma StampRoundTrip(now: nat, stamp: seq<byte>)
    requires now < U64_LIMIT && stamp == SendingTime(now)
    ensures |stamp| == 21 && ParseUtcTimestamp(stamp) == Some(now - now % 1_000_000)
  {
    var same, text, time, date, clock := Halves(now);
    HalvesParse(stamp, text, time, date, clock, now);
  }

  // ------------------------------------------------------------------------------------------------
  // What any text is read as
  // ------------------------------------------------------------------------------------------------

  /** Nothing, or a point and one to nine digits, which are the fraction of a second that `f` nanoseconds are. */
  predicate NamesFraction(text: seq<byte>, f: nat) {
    if text == [] then f == 0
    else
      && 2 <= |text| <= 10 && text[0] == 0x2E && AllDigits(text[1..])
      && f * Pow10(|text| - 1) == DigitsValue(text[1..]) * 1_000_000_000
  }

  lemma NanosOfDigits(k: nat, v: nat, f: nat)
    requires 1 <= k <= 9
    ensures f * Pow10(k) == v * 1_000_000_000 <==> f == v * Pow10(9 - k)
  {
    Pow10Sum(9 - k, k);
    assert Pow10(9) == 1_000_000_000 by { assert Pow10(4) == 10_000; assert Pow10(9) == 100_000 * Pow10(4); }
    assert v * 1_000_000_000 == (v * Pow10(9 - k)) * Pow10(k);
    Cancels(f, v * Pow10(9 - k), Pow10(k));
  }

  lemma Cancels(a: nat, b: nat, c: nat)
    requires c >= 1
    ensures a * c == b * c <==> a == b
  {
    if a * c == b * c {
      DivModUnique(a * c, c, a, 0);
      DivModUnique(a * c, c, b, 0);
    }
  }

  lemma FractionIff(text: seq<byte>, f: nat)
    ensures ParseFraction(text) == Some(f) <==> NamesFraction(text, f)
  {
    if 2 <= |text| <= 10 && text[0] == 0x2E && AllDigits(text[1..]) {
      NanosOfDigits(|text| - 1, DigitsValue(text[1..]), f);
    }
  }

  /** `HH:MM:SS` and a fraction; a second may be the sixtieth. */
  predicate NamesTime(text: seq<byte>, ns: nat) {
    && |text| >= 8 && text[2] == 0x3A && text[5] == 0x3A
    && AllDigits(text[..2]) && AllDigits(text[3..5]) && AllDigits(text[6..8])
    && (var h, m, s := DigitsValue(text[..2]), DigitsValue(text[3..5]), DigitsValue(text[6..8]);
        && h < 24 && m < 60 && s <= 60
        && var whole := ((h * 60 + m) * 60 + s) * 1_000_000_000; ns >= whole && NamesFraction(text[8..], ns - whole))
  }

  /** Any bytes at all: a time is read exactly when they are one, one to nine digits of a second counted. */
  lemma TimeIff(text: seq<byte>, ns: nat)
    ensures ParseUtcTime(text) == Some(ns) <==> NamesTime(text, ns)
  {
    if |text| >= 8 && AllDigits(text[..2]) && AllDigits(text[3..5]) && AllDigits(text[6..8]) {
      var h, m, s := DigitsValue(text[..2]), DigitsValue(text[3..5]), DigitsValue(text[6..8]);
      var whole := ((h * 60 + m) * 60 + s) * 1_000_000_000;
      if ns >= whole {
        FractionIff(text[8..], ns - whole);
      }
    }
  }

  /** Eight digits with a month of the year and a day up to 31, midnight not before 1970 nor past the word. */
  predicate NamesDate(text: seq<byte>, ns: nat) {
    && |text| == 8 && AllDigits(text[..4]) && AllDigits(text[4..6]) && AllDigits(text[6..8])
    && (var y, m, d := DigitsValue(text[..4]), DigitsValue(text[4..6]), DigitsValue(text[6..8]);
        && 1 <= m <= 12 && 1 <= d <= 31
        && ns == DaysFromCivil(Date(y, m, d)) * 86_400_000_000_000 < 0x1_0000_0000_0000_0000)
  }

  lemma DateIff(text: seq<byte>, ns: nat)
    ensures ParseUtcDate(text) == Some(ns) <==> NamesDate(text, ns)
  {
  }

  /** A date that is read is read as the day it names exactly when the calendar has it: the thirty-first of a
    * shorter month is a day of the next. */
  lemma ReadAsItselfIff(text: seq<byte>, ns: nat)
    requires NamesDate(text, ns)
    ensures var c := Date(DigitsValue(text[..4]), DigitsValue(text[4..6]), DigitsValue(text[6..8]));
            CivilFromDays(ns / 86_400_000_000_000) == c <==> Valid(c)
  {
    var c := Date(DigitsValue(text[..4]), DigitsValue(text[4..6]), DigitsValue(text[6..8]));
    var days := DaysFromCivil(c);
    DivModUnique(ns, 86_400_000_000_000, days, 0);
    CalendarIsValid(days);
    if Valid(c) {
      CivilRoundTrip(c);
    }
  }

  /** A date, `-` and a time; the sum of the two wraps around the word. */
  ghost predicate NamesInstant(text: seq<byte>, ns: nat) {
    && |text| >= 17 && text[8] == 0x2D
    && exists date: nat, time: nat {:trigger NamesDate(text[..8], date), NamesTime(text[9..], time)} ::
         NamesDate(text[..8], date) && NamesTime(text[9..], time) && ns == Wrapped(date, time)
  }

  function Wrapped(date: nat, time: nat): int {
    if date + time < 0x1_0000_0000_0000_0000 then date + time else date + time - 0x1_0000_0000_0000_0000
  }

  lemma WrapsOnce(date: nat, time: nat)
    requires date < U64_LIMIT && time < U64_LIMIT
    ensures (date + time) % U64_LIMIT == Wrapped(date, time)
  {
  }

  lemma FractionIsShort(text: seq<byte>, f: nat)
    requires NamesFraction(text, f)
    ensures f < 1_000_000_000
  {
    if text != [] {
      DigitsValueBound(text[1..]);
      ShortOf(f, DigitsValue(text[1..]), Pow10(|text| - 1));
    }
  }

  lemma ShortOf(f: nat, v: nat, scale: nat)
    requires f * scale == v * 1_000_000_000 && v < scale
    ensures f < 1_000_000_000
  {
    assert scale * (f - 1_000_000_000) == f * scale - 1_000_000_000 * scale;
    MulSign(scale, f - 1_000_000_000);
  }

  lemma TimeIsShort(text: seq<byte>, ns: nat)
    requires NamesTime(text, ns)
    ensures ns < 87_000_000_000_000
  {
    var h, m, s := DigitsValue(text[..2]), DigitsValue(text[3..5]), DigitsValue(text[6..8]);
    FractionIsShort(text[8..], ns - ((h * 60 + m) * 60 + s) * 1_000_000_000);
  }

  /** Any bytes at all: what a stamp is read as. */
  lemma StampIff(text: seq<byte>, ns: nat)
    ensures ParseUtcTimestamp(text) == Some(ns) <==> NamesInstant(text, ns)
  {
    if ParseUtcTimestamp(text).Some? {
      var date, time := ParseUtcDate(text[..8]).value, ParseUtcTime(text[9..]).value;
      DateIff(text[..8], date);
      TimeIff(text[9..], time);
      TimeIsShort(text[9..], time);
      WrapsOnce(date, time);
    }
    if NamesInstant(text, ns) {
      var date: nat, time: nat :| NamesDate(text[..8], date) && NamesTime(text[9..], time) &&
        ns == Wrapped(date, time);
      DateIff(text[..8], date);
      TimeIff(text[9..], time);
      TimeIsShort(text[9..], time);
      WrapsOnce(date, time);
    }
  }
}
