/** The proleptic Gregorian calendar: dates to day numbers and back. */
module Calendar {
  import opened Words

  datatype Date = Date(year: int, month: int, day: int)

  /** Division that truncates toward zero. */
  function TruncDiv(a: int, b: int): int
    requires b > 0
  {
    if a >= 0 then a / b else -((-a) / b)
  }

  /** The era of a year or a day, `n` of them to an era. */
  function EraOf(x: int, n: int): int
    requires n > 0
  {
    TruncDiv(if x >= 0 then x else x - (n - 1), n)
  }

  /** Days before March of the year `yoe` of an era. */
  function YearDays(yoe: int): int {
    yoe * 365 + yoe / 4 - yoe / 100
  }

  /** Days before the month `mp` of a year that begins in March. */
  function Before(mp: int): int {
    (153 * mp + 2) / 5
  }

  /** The year a month belongs to when years begin in March, and the day of that year. */
  function MarchYear(c: Date): int {
    if c.month <= 2 then c.year - 1 else c.year
  }

  function MarchDay(c: Date): int {
    Before((c.month + 9) % 12) + c.day - 1
  }

  /** `days_from_civil`. */
  function DaysFromCivil(c: Date): int {
    var y := MarchYear(c);
    var era := EraOf(y, 400);
    era * 146_097 + (YearDays(y - era * 400) + MarchDay(c)) - 719_468
  }

  function YearFromDay(doe: int): int {
    (doe - doe / 1_460 + doe / 36_524 - doe / 146_096) / 365
  }

  /** The date of a day `doy` of the year `y`, which begins in March. */
  function MonthAndDay(y: int, doy: int): Date {
    var mp := (5 * doy + 2) / 153;
    var m := if mp < 10 then mp + 3 else mp - 9;
    Date(if m <= 2 then y + 1 else y, m, doy - Before(mp) + 1)
  }

  /** `civil_from_days`. */
  function CivilFromDays(days: int): Date {
    var z := days + 719_468;
    var era := EraOf(z, 146_097);
    var doe := z - era * 146_097;
    var yoe := YearFromDay(doe);
    MonthAndDay(yoe + era * 400, doe - YearDays(yoe))
  }

  // ------------------------------------------------------------------------------------------------
  // The calendar
  // ------------------------------------------------------------------------------------------------

  predicate Leap(y: int) {
    y % 4 == 0 && (y % 100 != 0 || y % 400 == 0)
  }

  function DaysInMonth(y: int, m: int): int {
    if m == 2 then (if Leap(y) then 29 else 28) else if m == 4 || m == 6 || m == 9 || m == 11 then 30 else 31
  }

  predicate Valid(c: Date) {
    1 <= c.month <= 12 && 1 <= c.day <= DaysInMonth(c.year, c.month)
  }

  // ------------------------------------------------------------------------------------------------
  // Eras, and the year within one
  // ------------------------------------------------------------------------------------------------

  /** Both functions round the era down, negative ones too. */
  lemma EraIsFloor(x: int, n: int)
    requires n > 0
    ensures EraOf(x, n) == x / n
  {
    if x < 0 {
      var q, r := x / n, x % n;
      assert x == n * q + r;
      var y := -(x - (n - 1));
      assert y == n * -q + (n - 1 - r);
      DivModUnique(y, n, -q, n - 1 - r);
    }
  }

  lemma EraOfDay(era: int, doe: int)
    requires 0 <= doe < 146_097
    ensures EraOf(era * 146_097 + doe, 146_097) == era
  {
    EraIsFloor(era * 146_097 + doe, 146_097);
    DivModUnique(era * 146_097 + doe, 146_097, era, doe);
  }

  lemma EraOfYear(era: int, yoe: int)
    requires 0 <= yoe < 400
    ensures EraOf(yoe + era * 400, 400) == era
  {
    EraIsFloor(yoe + era * 400, 400);
    DivModUnique(yoe + era * 400, 400, era, yoe);
  }

  /** A day of an era by its century, the four-year cycle in it, the year in that, and the day of the year,
    * which begins in March. */
  datatype Place = Place(c: int, q: int, r: int, doy: int) {
    function YearOfEra(): int {
      100 * c + 4 * q + r
    }

    function DayOfEra(): int {
      36_524 * c + 1_461 * q + 365 * r + doy
    }

    /** The year ends in a leap day. */
    predicate EndsInLeapDay() {
      r == 3 && (q != 24 || c == 3)
    }

    predicate Valid() {
      0 <= c <= 3 && 0 <= q <= 24 && 0 <= r <= 3 && 0 <= doy <= if EndsInLeapDay() then 365 else 364
    }
  }

  lemma YearStart(p: Place)
    requires p.Valid()
    ensures YearDays(p.YearOfEra()) + p.doy == p.DayOfEra()
    ensures 0 <= p.YearOfEra() < 400 && 0 <= p.DayOfEra() < 146_097
  {
    DivModUnique(p.YearOfEra(), 4, 25 * p.c + p.q, p.r);
    DivModUnique(p.YearOfEra(), 100, p.c, 4 * p.q + p.r);
  }

  /** The correction terms take off the leap days gone by, and one more late in a cycle. */
  lemma FindsYear(p: Place)
    requires p.Valid()
    ensures YearFromDay(p.DayOfEra()) == p.YearOfEra()
  {
    var doe := p.DayOfEra();
    var t := 24 * p.c + p.q + 365 * p.r + p.doy;
    var late := if t >= 1_460 then 1 else 0;
    assert doe / 1_460 == 25 * p.c + p.q + late by {
      DivModUnique(doe, 1_460, 25 * p.c + p.q + late, t - 1_460 * late);
    }
    assert doe / 36_524 - doe / 146_096 == p.c by { LastDay(p); }
    DivModUnique(365 * p.YearOfEra() + p.doy - late, 365, p.YearOfEra(), p.doy - late);
  }

  /** Only the last day of the era is past the end of its century, and there the two terms cancel. */
  lemma LastDay(p: Place)
    requires p.Valid()
    ensures p.DayOfEra() / 36_524 - p.DayOfEra() / 146_096 == p.c
  {
    var doe := p.DayOfEra();
    if doe == 146_096 {
      assert p.c == 3;
    } else {
      DivModUnique(doe, 36_524, p.c, doe - 36_524 * p.c);
      DivModUnique(doe, 146_096, 0, doe);
    }
  }

  function Least(a: int, b: int): int {
    if a <= b then a else b
  }

  /** Every day of an era has its place. */
  function PlaceOf(doe: int): Place {
    var c := Least(doe / 36_524, 3);
    var q := Least((doe - 36_524 * c) / 1_461, 24);
    var r := Least((doe - 36_524 * c - 1_461 * q) / 365, 3);
    Place(c, q, r, doe - 36_524 * c - 1_461 * q - 365 * r)
  }

  lemma PlaceIsValid(doe: int)
    requires 0 <= doe < 146_097
    ensures PlaceOf(doe).Valid() && PlaceOf(doe).DayOfEra() == doe
  {
  }

  // ------------------------------------------------------------------------------------------------
  // Months and days
  // ------------------------------------------------------------------------------------------------

  /** The day of the year falls in the month the formula names. */
  lemma FindsMonth(mp: int, doy: int)
    requires 0 <= mp <= 11 && Before(mp) <= doy < Before(mp + 1)
    ensures (5 * doy + 2) / 153 == mp
  {
  }

  lemma MonthOf(doy: int) returns (mp: int)
    requires 0 <= doy <= 365
    ensures 0 <= mp <= 11 && Before(mp) <= doy < Before(mp + 1) && mp == (5 * doy + 2) / 153
  {
    mp := (5 * doy + 2) / 153;
  }

  /** The lengths of the months from March to January; February is what is left of the year. */
  lemma MonthLengths(y: int, mp: int)
    requires 0 <= mp <= 11
    ensures var m := if mp < 10 then mp + 3 else mp - 9;
            && 1 <= m <= 12 && (m + 9) % 12 == mp
            && (mp < 11 ==> DaysInMonth(y, m) == Before(mp + 1) - Before(mp))
            && (mp == 11 ==> m == 2 && Before(11) == 337 && Before(12) == 367)
  {
    assert mp in {0, 1, 2, 3, 4, 5, 6, 7, 8, 9, 10, 11};
  }

  lemma LeapYears(p: Place, era: int)
    requires p.Valid()
    ensures Leap(era * 400 + p.YearOfEra() + 1) <==> p.EndsInLeapDay()
  {
    var yoe := p.YearOfEra() + 1;
    var y := era * 400 + yoe;
    assert y % 4 == (p.r + 1) % 4 by {
      DivModUnique(y, 4, 100 * era + 25 * p.c + p.q + (p.r + 1) / 4, (p.r + 1) % 4);
    }
    var s := 4 * p.q + p.r + 1;
    assert y % 100 == s % 100 by { DivModUnique(y, 100, 4 * era + p.c + s / 100, s % 100); }
    assert y % 400 == yoe % 400 by { DivModUnique(y, 400, era + yoe / 400, yoe % 400); }
  }

  // ------------------------------------------------------------------------------------------------
  // The round trips
  // ------------------------------------------------------------------------------------------------

  /** The date at a place in an era. */
  function DateAt(era: int, p: Place): Date {
    MonthAndDay(p.YearOfEra() + era * 400, p.doy)
  }

  function DayAt(era: int, p: Place): int {
    era * 146_097 + p.DayOfEra() - 719_468
  }

  lemma CivilSteps(days: int, era: int, doe: int, yoe: int, doy: int)
    requires EraOf(days + 719_468, 146_097) == era && days + 719_468 - era * 146_097 == doe
    requires YearFromDay(doe) == yoe && doe - YearDays(yoe) == doy
    ensures CivilFromDays(days) == MonthAndDay(yoe + era * 400, doy)
  {
  }

  lemma CivilAt(era: int, p: Place)
    requires p.Valid()
    ensures CivilFromDays(DayAt(era, p)) == DateAt(era, p)
  {
    var doe, yoe := p.DayOfEra(), p.YearOfEra();
    assert YearFromDay(doe) == yoe by { FindsYear(p); }
    assert 0 <= doe < 146_097 && doe - YearDays(yoe) == p.doy by { YearStart(p); }
    assert EraOf(era * 146_097 + doe, 146_097) == era by { EraOfDay(era, doe); }
    CivilSteps(DayAt(era, p), era, doe, yoe, p.doy);
  }

  lemma DateIsValid(era: int, p: Place)
    requires p.Valid()
    ensures Valid(DateAt(era, p))
  {
    var mp := MonthOf(p.doy);
    var c := DateAt(era, p);
    MonthLengths(c.year, mp);
    LeapYears(p, era);
  }

  /** The date at a place falls in its year, on its day. */
  lemma DatePlaced(era: int, p: Place)
    requires p.Valid()
    ensures MarchYear(DateAt(era, p)) == p.YearOfEra() + era * 400 && MarchDay(DateAt(era, p)) == p.doy
  {
    var mp := MonthOf(p.doy);
    MonthLengths(p.YearOfEra() + era * 400, mp);
  }

  lemma DaysAt(era: int, p: Place, c: Date)
    requires p.Valid() && MarchYear(c) == p.YearOfEra() + era * 400 && MarchDay(c) == p.doy
    ensures DaysFromCivil(c) == DayAt(era, p)
  {
    YearStart(p);
    EraOfYear(era, p.YearOfEra());
  }

  /** Every day number is the number of the date it names, in every era. */
  lemma DaysRoundTrip(days: int) returns (c: Date)
    ensures c == CivilFromDays(days) && Valid(c) && DaysFromCivil(c) == days
  {
    var z := days + 719_468;
    var era, doe := z / 146_097, z % 146_097;
    PlaceIsValid(doe);
    var p := PlaceOf(doe);
    assert DayAt(era, p) == days;
    CivilAt(era, p);
    DateIsValid(era, p);
    c := DateAt(era, p);
    DatePlaced(era, p);
    DaysAt(era, p, c);
  }

  lemma YearParts(yoe: int)
    requires 0 <= yoe < 400
    ensures 0 <= yoe / 100 <= 3 && 0 <= yoe % 100 / 4 <= 24 && yoe == 100 * (yoe / 100) + 4 * (yoe % 100 / 4) + yoe % 4
  {
  }

  lemma YearPlace(y: int) returns (era: int, p: Place)
    ensures p.Valid() && p.doy == 0 && y == p.YearOfEra() + era * 400
  {
    era := y / 400;
    var yoe := y % 400;
    YearParts(yoe);
    p := Place(yoe / 100, yoe % 100 / 4, yoe % 4, 0);
  }

  lemma DayFits(c: Date)
    requires Valid(c)
    ensures 0 <= MarchDay(c) <= if Leap(MarchYear(c) + 1) then 365 else 364
    ensures var mp := (c.month + 9) % 12; 0 <= mp <= 11 && Before(mp) <= MarchDay(c) < Before(mp + 1)
  {
    MonthLengths(c.year, (c.month + 9) % 12);
  }

  lemma MonthBack(c: Date)
    requires Valid(c)
    ensures MonthAndDay(MarchYear(c), MarchDay(c)) == c
  {
    var mp := if c.month <= 2 then c.month + 9 else c.month - 3;
    assert (c.month + 9) % 12 == mp && (5 * MarchDay(c) + 2) / 153 == mp by {
      DayFits(c);
      FindsMonth((c.month + 9) % 12, MarchDay(c));
    }
    assert MarchDay(c) - Before(mp) + 1 == c.day;
  }

  /** The place of a date in its era. */
  lemma PlaceOfDate(c: Date) returns (era: int, p: Place)
    requires Valid(c)
    ensures p.Valid() && DateAt(era, p) == c
  {
    var start: Place;
    era, start := YearPlace(MarchYear(c));
    p := start.(doy := MarchDay(c));
    assert p.Valid() by {
      LeapYears(start, era);
      DayFits(c);
    }
    MonthBack(c);
  }

  /** Every valid date is the date its day number names. */
  lemma CivilRoundTrip(c: Date)
    requires Valid(c)
    ensures CivilFromDays(DaysFromCivil(c)) == c
  {
    var era, p := PlaceOfDate(c);
    DatePlaced(era, p);
    DaysAt(era, p, c);
    CivilAt(era, p);
  }

  /** The day after. */
  function Next(c: Date): Date {
    if c.day < DaysInMonth(c.year, c.month) then c.(day := c.day + 1)
    else if c.month < 12 then Date(c.year, c.month + 1, 1)
    else Date(c.year + 1, 1, 1)
  }

  /** The number of the first of March of a year. */
  function MarchFirst(y: int): int {
    EraOf(y, 400) * 146_097 + YearDays(y - EraOf(y, 400) * 400) - 719_468
  }

  lemma MarchFirstAt(era: int, p: Place)
    requires p.Valid() && p.doy == 0
    ensures MarchFirst(p.YearOfEra() + era * 400) == DayAt(era, p)
  {
    YearStart(p);
    EraOfYear(era, p.YearOfEra());
  }

  /** The place of the next year's first of March. */
  function NextYear(era: int, p: Place): (int, Place) {
    if p.r < 3 then (era, p.(r := p.r + 1))
    else if p.q < 24 then (era, Place(p.c, p.q + 1, 0, 0))
    else if p.c < 3 then (era, Place(p.c + 1, 0, 0, 0))
    else (era + 1, Place(0, 0, 0, 0))
  }

  lemma NextYearIs(era: int, p: Place)
    requires p.Valid() && p.doy == 0
    ensures var (e, n) := NextYear(era, p);
            && n.Valid() && n.doy == 0 && n.YearOfEra() + e * 400 == p.YearOfEra() + era * 400 + 1
            && DayAt(e, n) - DayAt(era, p) == if p.EndsInLeapDay() then 366 else 365
  {
  }

  /** From one March to the next there are 365 days, or 366 when a leap day lies between. */
  lemma YearLength(y: int)
    ensures MarchFirst(y + 1) - MarchFirst(y) == if Leap(y + 1) then 366 else 365
  {
    var era, p := YearPlace(y);
    var next := NextYear(era, p);
    assert next.1.Valid() && next.1.doy == 0 && y + 1 == next.1.YearOfEra() + next.0 * 400 &&
      DayAt(next.0, next.1) - DayAt(era, p) == (if p.EndsInLeapDay() then 366 else 365) by { NextYearIs(era, p); }
    assert MarchFirst(y) == DayAt(era, p) by { MarchFirstAt(era, p); }
    assert MarchFirst(y + 1) == DayAt(next.0, next.1) by { MarchFirstAt(next.0, next.1); }
    assert Leap(y + 1) <==> p.EndsInLeapDay() by { LeapYears(p, era); }
  }

  /** The month, March being the first and counted from 0. */
  function MarchMonth(c: Date): int {
    (c.month + 9) % 12
  }

  lemma DaysFromMarch(c: Date)
    ensures DaysFromCivil(c) == MarchFirst(MarchYear(c)) + Before(MarchMonth(c)) + c.day - 1
  {
  }

  lemma NextMonthPlace(c: Date)
    requires Valid(c) && c.day == DaysInMonth(c.year, c.month) && c.month != 2
    ensures Valid(Next(c)) && Next(c).day == 1
    ensures MarchYear(Next(c)) == MarchYear(c) && MarchMonth(Next(c)) == MarchMonth(c) + 1
  {
  }

  /** Every month but the last of the March year is as long as the table says. */
  lemma MonthIsFull(c: Date)
    requires Valid(c) && c.day == DaysInMonth(c.year, c.month) && c.month != 2
    ensures Before(MarchMonth(c) + 1) == Before(MarchMonth(c)) + c.day
  {
    MonthLengths(c.year, MarchMonth(c));
  }

  lemma NextMonth(c: Date)
    requires Valid(c) && c.day == DaysInMonth(c.year, c.month) && c.month != 2
    ensures Valid(Next(c)) && DaysFromCivil(Next(c)) == DaysFromCivil(c) + 1
  {
    DaysFromMarch(c);
    DaysFromMarch(Next(c));
    NextMonthPlace(c);
    MonthIsFull(c);
  }

  lemma FebruaryPlace(c: Date)
    requires Valid(c) && c.day == DaysInMonth(c.year, c.month) && c.month == 2
    ensures Next(c) == Date(c.year, 3, 1) && MarchYear(c) == c.year - 1 && MarchYear(Next(c)) == c.year
    ensures Before(MarchMonth(c)) == 337 && Before(MarchMonth(Next(c))) == 0
    ensures c.day == if Leap(c.year) then 29 else 28
  {
  }

  lemma NextMarch(c: Date)
    requires Valid(c) && c.day == DaysInMonth(c.year, c.month) && c.month == 2
    ensures Valid(Next(c)) && DaysFromCivil(Next(c)) == DaysFromCivil(c) + 1
  {
    DaysFromMarch(c);
    DaysFromMarch(Next(c));
    FebruaryPlace(c);
    YearLength(c.year - 1);
  }

  /** Together with the epoch this makes it the calendar: the day after a date has the next number. */
  lemma NextDay(c: Date)
    requires Valid(c)
    ensures Valid(Next(c)) && DaysFromCivil(Next(c)) == DaysFromCivil(c) + 1
  {
    if c.day < DaysInMonth(c.year, c.month) {
      DaysFromMarch(c);
      DaysFromMarch(Next(c));
    } else if c.month == 2 {
      NextMarch(c);
    } else {
      NextMonth(c);
    }
  }

  /** The epoch is day zero. */
  lemma Epoch()
    ensures DaysFromCivil(Date(1970, 1, 1)) == 0
  {
  }
}
