/** The calendar conversion of the citytime sample: days since 1970-01-01 to a proleptic Gregorian date. */
module Civil {

  datatype Date = Date(year: int, month: int, day: int)

  datatype Clock = Clock(date: Date, hour: int, minute: int, second: int)

  // ----- The calendar itself (section 3.2.1 of ISO 8601:2004), independent of the algorithm -----

  predicate IsLeap(year: int) {
    year % 4 == 0 && (year % 100 != 0 || year % 400 == 0)
  }

  function MonthLength(year: int, month: int): int {
    if month == 2 then (if IsLeap(year) then 29 else 28)
    else if month == 4 || month == 6 || month == 9 || month == 11 then 30
    else 31
  }

  predicate ValidDate(date: Date) {
    && 1 <= date.month <= 12
    && 1 <= date.day <= MonthLength(date.year, date.month)
  }

  function NextDay(date: Date): Date {
    if date.day < MonthLength(date.year, date.month) then date.(day := date.day + 1)
    else if date.month < 12 then Date(date.year, date.month + 1, 1)
    else Date(date.year + 1, 1, 1)
  }

  /** Days of a year that precede the first of `month`, summed month by month. */
  function DaysBeforeMonth(year: int, month: int): int
    requires 1 <= month <= 12
    decreases month
  {
    if month == 1 then 0 else DaysBeforeMonth(year, month - 1) + MonthLength(year, month - 1)
  }

  /** Days from the first of January of year 1 to the first of January of `year`, counting leap years. */
  function DaysBeforeYear(year: int): int {
    var y := year - 1;
    365 * y + y / 4 - y / 100 + y / 400
  }

  /** The day number of a date: 0 is 1970-01-01. */
  function DayNumber(date: Date): int
    requires 1 <= date.month <= 12
  {
    DaysBeforeYear(date.year) + DaysBeforeMonth(date.year, date.month) + date.day - 1 - DaysBeforeYear(1970)
  }

  // ----- The algorithm -----

  /** Division that truncates toward zero, as `/` does on signed integers. */
  function TruncDiv(a: int, b: int): int
    requires b > 0
  {
    if a >= 0 then a / b else -(-a / b)
  }

  function CivilFromDays(days: int): Date {
    var z := days + 719468;
    var era := TruncDiv(if z >= 0 then z else z - 146096, 146097);
    DateInEra(era, z - era * 146097)
  }

  /** The date of a day of an era of 400 years that starts in March. */
  function DateInEra(era: int, doe: int): Date {
    var yoe := (doe - doe / 1460 + doe / 36524 - doe / 146096) / 365;
    var y := yoe + era * 400;
    var doy := doe - (365 * yoe + yoe / 4 - yoe / 100);
    var mp := (5 * doy + 2) / 153;
    var d := doy - (153 * mp + 2) / 5 + 1;
    var m := if mp < 10 then mp + 3 else mp - 9;
    Date(if m <= 2 then y + 1 else y, m, d)
  }

  // ----- Proofs -----

  /** The truncating division with its negative correction is the floor. */
  lemma EraIsFloor(z: int)
    ensures TruncDiv(if z >= 0 then z else z - 146096, 146097) == z / 146097
  {
  }

  /** The day of the era on which March-based year `y` of the era starts. */
  function YearStart(y: int): int {
    365 * y + y / 4 - y / 100 + y / 400
  }

  /** A day of the era splits into century, four-year cycle, year of the cycle and day of the year. */
  lemma SplitEra(doe: int) returns (c: int, q: int, k: int, doy: int)
    requires 0 <= doe < 146097
    ensures 0 <= c < 4 && 0 <= q < 25 && 0 <= k < 4 && 0 <= doy <= 365
    ensures doe == 36524 * c + 1461 * q + 365 * k + doy
    ensures doy == 365 ==> k == 3 && (q == 24 ==> c == 3)
  {
    c := if doe == 146096 then 3 else doe / 36524;
    var r := doe - 36524 * c;
    q := r / 1461;
    var s := r - 1461 * q;
    k := if s == 1460 then 3 else s / 365;
    doy := s - 365 * k;
  }

  lemma QuotientIs(a: int, b: int, q: int)
    requires b > 0 && b * q <= a < b * q + b
    ensures a / b == q
  {
    var d := a / b - q;
    assert b * d == b * (a / b) - b * q;
    NonzeroMultiple(b, d);
  }

  lemma NonzeroMultiple(b: int, d: int)
    requires b > 0
    ensures d >= 1 ==> b * d >= b
    ensures d <= -1 ==> b * d <= -b
  {
  }

  lemma YearOfSplit(doe: int, c: int, q: int, k: int, doy: int)
    requires 0 <= c < 4 && 0 <= q < 25 && 0 <= k < 4 && 0 <= doy <= 365
    requires doe == 36524 * c + 1461 * q + 365 * k + doy
    requires doy == 365 ==> k == 3 && (q == 24 ==> c == 3)
    ensures (doe - doe / 1460 + doe / 36524 - doe / 146096) / 365 == 100 * c + 4 * q + k
  {
    var rest := 24 * c + q + 365 * k + doy;
    var e := if rest >= 1460 then 1 else 0;
    QuotientIs(doe, 1460, 25 * c + q + e);
    if doe == 146096 {
      assert c == 3 && doe / 36524 == 4 && doe / 146096 == 1;
    } else {
      QuotientIs(doe, 36524, c);
      QuotientIs(doe, 146096, 0);
    }
    QuotientIs(doe - doe / 1460 + c, 365, 100 * c + 4 * q + k);
  }

  lemma YearOfEra(doe: int)
    requires 0 <= doe < 146097
    ensures var yoe := (doe - doe / 1460 + doe / 36524 - doe / 146096) / 365;
            0 <= yoe < 400 && YearStart(yoe) <= doe < YearStart(yoe + 1)
  {
    var c, q, k, doy := SplitEra(doe);
    YearOfSplit(doe, c, q, k, doy);
    StartOfSplitYear(c, q, k);
  }

  lemma StartOfSplitYear(c: int, q: int, k: int)
    requires 0 <= c < 4 && 0 <= q < 25 && 0 <= k < 4
    ensures var y := 100 * c + 4 * q + k;
            && YearStart(y) == 36524 * c + 1461 * q + 365 * k
            && YearStart(y + 1) == YearStart(y) + (if k == 3 && (q == 24 ==> c == 3) then 366 else 365)
  {
    var y := 100 * c + 4 * q + k;
    YearStartIs(y, 25 * c + q, c, 0);
    if k < 3 {
      YearStartIs(y + 1, 25 * c + q, c, 0);
    } else if q < 24 {
      YearStartIs(y + 1, 25 * c + q + 1, c, 0);
    } else {
      YearStartIs(y + 1, 25 * c + 25, c + 1, if c == 3 then 1 else 0);
    }
  }

  lemma YearStartIs(y: int, by4: int, by100: int, by400: int)
    requires 4 * by4 <= y < 4 * by4 + 4 && 100 * by100 <= y < 100 * by100 + 100 && 400 * by400 <= y < 400 * by400 + 400
    ensures YearStart(y) == 365 * y + by4 - by100 + by400
  {
    QuotientIs(y, 4, by4);
    QuotientIs(y, 100, by100);
    QuotientIs(y, 400, by400);
  }

  /** Where in the March-based year `y` of its era a day falls. */
  lemma DayOfYear(y: int, era: int, doy: int)
    requires 0 <= y < 400
    requires 0 <= doy < YearStart(y + 1) - YearStart(y)
    ensures doy < 365 || (doy == 365 && IsLeap(y + era * 400 + 1))
  {
    assert y / 4 * 4 <= y;
    var c, k := y / 100, y % 100;
    var q, t := k / 4, k % 4;
    assert y == 100 * c + 4 * q + t;
    StartOfSplitYear(c, q, t);
    if doy >= 365 {
      assert t == 3 && (q == 24 ==> c == 3);
      assert y + era * 400 + 1 == 400 * era + 100 * c + 4 * q + 4;
      LeapAfter(era, c, q);
    }
  }

  lemma LeapAfter(era: int, c: int, q: int)
    requires 0 <= c < 4 && 0 <= q < 25
    ensures IsLeap(400 * era + 100 * c + 4 * q + 4) <==> (q == 24 ==> c == 3)
  {
    var y := 400 * era + 100 * c + 4 * q + 4;
    assert y == 4 * (100 * era + 25 * c + q + 1);
    if q == 24 {
      assert y == 100 * (4 * era + c + 1);
      if c == 3 {
        assert y == 400 * (era + 1);
      } else {
        assert y == 400 * era + 100 * (c + 1);
      }
    } else {
      assert y == 100 * (4 * era + c) + 4 * (q + 1);
    }
  }

  /** March-based month and day of a day of the year, by the 153-day rule. */
  function MarchMonth(doy: int): int {
    (5 * doy + 2) / 153
  }

  function MarchMonthStart(mp: int): int {
    (153 * mp + 2) / 5
  }

  lemma MonthRule(doy: int)
    requires 0 <= doy <= 365
    ensures 0 <= MarchMonth(doy) < 12
    ensures MarchMonthStart(MarchMonth(doy)) <= doy < MarchMonthStart(MarchMonth(doy) + 1)
  {
  }

  lemma YearStartShift(y: int, era: int)
    ensures YearStart(y + 400 * era) == YearStart(y) + 146097 * era
  {
    assert (y + 400 * era) / 4 == y / 4 + 100 * era;
    assert (y + 400 * era) / 100 == y / 100 + 4 * era;
    assert (y + 400 * era) / 400 == y / 400 + era;
  }

  lemma YearLength(y: int)
    ensures YearStart(y) - YearStart(y - 1) == if IsLeap(y) then 366 else 365
  {
    StepQuotient(y, 4);
    StepQuotient(y, 100);
    StepQuotient(y, 400);
  }

  lemma StepQuotient(y: int, b: int)
    requires b > 1
    ensures y / b - (y - 1) / b == if y % b == 0 then 1 else 0
  {
    if y % b == 0 {
      QuotientIs(y - 1, b, y / b - 1);
    } else {
      QuotientIs(y - 1, b, y / b);
    }
  }

  /** The calendar's day number, written with the March-based year the algorithm uses. */
  lemma MarchForm(y: int, mp: int)
    requires 0 <= mp < 12
    ensures var m := if mp < 10 then mp + 3 else mp - 9;
            var year := if m <= 2 then y + 1 else y;
            && 1 <= m <= 12
            && DaysBeforeYear(year) + DaysBeforeMonth(year, m) == YearStart(y) + MarchMonthStart(mp) - 306
            && (mp < 11 ==> MonthLength(year, m) == MarchMonthStart(mp + 1) - MarchMonthStart(mp))
            && (mp == 11 ==> MonthLength(year, m) == if IsLeap(y + 1) then 29 else 28)
  {
    if mp < 10 {
      FromMarch(y, mp);
    } else {
      NextJanuary(y);
    }
  }

  lemma FromMarch(y: int, mp: int)
    requires 0 <= mp < 10
    ensures DaysBeforeYear(y) + DaysBeforeMonth(y, mp + 3) == YearStart(y) + MarchMonthStart(mp) - 306
    ensures MonthLength(y, mp + 3) == MarchMonthStart(mp + 1) - MarchMonthStart(mp)
  {
    YearLength(y);
    MonthTable(y, mp + 3);
    StartShift(y);
  }

  lemma NextJanuary(y: int)
    ensures DaysBeforeYear(y + 1) + DaysBeforeMonth(y + 1, 1) == YearStart(y) + MarchMonthStart(10) - 306
    ensures DaysBeforeYear(y + 1) + DaysBeforeMonth(y + 1, 2) == YearStart(y) + MarchMonthStart(11) - 306
    ensures MonthLength(y + 1, 1) == MarchMonthStart(11) - MarchMonthStart(10)
  {
    MonthTable(y + 1, 1);
    StartShift(y + 1);
  }

  /** The two counts of days agree, one year apart. */
  lemma StartShift(y: int)
    ensures DaysBeforeYear(y) == YearStart(y - 1)
  {
  }

  lemma MonthTable(year: int, m: int)
    requires 1 <= m <= 12
    ensures DaysBeforeMonth(year, 1) == 0 && DaysBeforeMonth(year, 2) == 31
    ensures m >= 3 ==> DaysBeforeMonth(year, m) == 59 + (if IsLeap(year) then 1 else 0) + MarchMonthStart(m - 3)
    decreases m
  {
    if m >= 3 {
      MonthTable(year, m - 1);
    } else {
      assert DaysBeforeMonth(year, 1) == 0;
    }
  }

  /** The day of the era, as the March-based year of the era and the day of that year. */
  lemma EraForm(doe: int) returns (yoe: int, doy: int)
    requires 0 <= doe < 146097
    ensures yoe == (doe - doe / 1460 + doe / 36524 - doe / 146096) / 365
    ensures doy == doe - (365 * yoe + yoe / 4 - yoe / 100)
    ensures 0 <= yoe < 400 && 0 <= doy <= 365 && doe == YearStart(yoe) + doy
    ensures forall era :: doy == 365 ==> IsLeap(yoe + era * 400 + 1)
  {
    YearOfEra(doe);
    yoe := (doe - doe / 1460 + doe / 36524 - doe / 146096) / 365;
    assert yoe / 400 == 0;
    doy := doe - YearStart(yoe);
    forall era: int
      ensures doy < 365 || (doy == 365 && IsLeap(yoe + era * 400 + 1))
    {
      DayOfYear(yoe, era, doy);
    }
    DayOfYear(yoe, 0, doy);
  }

  lemma CivilInEra(days: int)
    ensures var era := (days + 719468) / 146097;
            CivilFromDays(days) == DateInEra(era, days + 719468 - era * 146097)
  {
    EraIsFloor(days + 719468);
  }

  /** The algorithm with its year and day of the year named. */
  lemma EraSteps(era: int, doe: int, yoe: int, doy: int)
    requires yoe == (doe - doe / 1460 + doe / 36524 - doe / 146096) / 365
    requires doy == doe - (365 * yoe + yoe / 4 - yoe / 100)
    ensures var mp := MarchMonth(doy);
            var m := if mp < 10 then mp + 3 else mp - 9;
            var y := yoe + era * 400;
            DateInEra(era, doe) == Date(if m <= 2 then y + 1 else y, m, doy - MarchMonthStart(mp) + 1)
  {
  }

  lemma MonthOfYear(y: int, doy: int) returns (mp: int, d: int)
    requires 0 <= doy <= 365 && (doy == 365 ==> IsLeap(y + 1))
    ensures mp == MarchMonth(doy) && d == doy - MarchMonthStart(mp) + 1
    ensures 0 <= mp < 12 && 1 <= d
    ensures mp < 11 ==> d <= MarchMonthStart(mp + 1) - MarchMonthStart(mp)
    ensures mp == 11 ==> d <= if IsLeap(y + 1) then 29 else 28
  {
    MonthRule(doy);
    mp := MarchMonth(doy);
    d := doy - MarchMonthStart(mp) + 1;
  }

  /** What the algorithm makes of a day of an era, in the March-based terms it computes with. */
  lemma DateInEraForm(era: int, doe: int) returns (y: int, mp: int, d: int)
    requires 0 <= doe < 146097
    ensures 0 <= mp < 12 && 1 <= d
    ensures DateInEra(era, doe) == Date(if mp < 10 then y else y + 1, if mp < 10 then mp + 3 else mp - 9, d)
    ensures 146097 * era + doe == YearStart(y) + MarchMonthStart(mp) + d - 1
    ensures mp < 11 ==> d <= MarchMonthStart(mp + 1) - MarchMonthStart(mp)
    ensures mp == 11 ==> d <= if IsLeap(y + 1) then 29 else 28
  {
    var yoe, doy := EraForm(doe);
    y := yoe + era * 400;
    mp, d := MonthOfYear(y, doy);
    EraSteps(era, doe, yoe, doy);
    YearStartShift(yoe, era);
  }

  lemma CivilForm(days: int) returns (y: int, mp: int, d: int)
    ensures 0 <= mp < 12 && 1 <= d
    ensures CivilFromDays(days) == Date(if mp < 10 then y else y + 1, if mp < 10 then mp + 3 else mp - 9, d)
    ensures days + 719468 == YearStart(y) + MarchMonthStart(mp) + d - 1
    ensures mp < 11 ==> d <= MarchMonthStart(mp + 1) - MarchMonthStart(mp)
    ensures mp == 11 ==> d <= if IsLeap(y + 1) then 29 else 28
  {
    var era := (days + 719468) / 146097;
    CivilInEra(days);
    y, mp, d := DateInEraForm(era, days + 719468 - era * 146097);
  }

  /**
   * For every integer day number the algorithm returns a date of the calendar,
   * and the day number of that date is the one it was given.
   */
  lemma CivilIsValidInverse(days: int)
    ensures ValidDate(CivilFromDays(days))
    ensures DayNumber(CivilFromDays(days)) == days
  {
    var y, mp, d := CivilForm(days);
    MarchForm(y, mp);
    assert DaysBeforeYear(1970) == 719162;
  }

  lemma YearsDoNotOverlap(y1: int, y2: int)
    requires y1 < y2
    ensures DaysBeforeYear(y1) + 365 <= DaysBeforeYear(y2)
    ensures IsLeap(y1) ==> DaysBeforeYear(y1) + 366 <= DaysBeforeYear(y2)
    decreases y2 - y1
  {
    YearLength(y2 - 1);
    if y1 + 1 < y2 {
      YearsDoNotOverlap(y1, y2 - 1);
    }
  }

  lemma MonthsDoNotOverlap(year: int, m1: int, m2: int)
    requires 1 <= m1 < m2 <= 12
    ensures DaysBeforeMonth(year, m1) + MonthLength(year, m1) <= DaysBeforeMonth(year, m2)
    decreases m2
  {
    if m1 + 1 < m2 {
      MonthsDoNotOverlap(year, m1, m2 - 1);
    }
  }

  lemma WithinYear(date: Date)
    requires ValidDate(date)
    ensures 0 <= DaysBeforeMonth(date.year, date.month) + date.day - 1 < if IsLeap(date.year) then 366 else 365
  {
    MonthTable(date.year, 12);
    MonthTable(date.year, date.month);
    if date.month < 12 {
      MonthsDoNotOverlap(date.year, date.month, 12);
    }
  }

  /** Earlier dates have smaller day numbers, so a day number names at most one date. */
  lemma DayNumberOrders(a: Date, b: Date)
    requires ValidDate(a) && ValidDate(b)
    ensures DayNumber(a) == DayNumber(b) ==> a == b
    ensures (a.year < b.year || (a.year == b.year && (a.month < b.month || (a.month == b.month && a.day < b.day))))
            ==> DayNumber(a) < DayNumber(b)
  {
    WithinYear(a);
    WithinYear(b);
    if a.year < b.year {
      YearsDoNotOverlap(a.year, b.year);
    } else if b.year < a.year {
      YearsDoNotOverlap(b.year, a.year);
    } else if a.month < b.month {
      MonthsDoNotOverlap(a.year, a.month, b.month);
    } else if b.month < a.month {
      MonthsDoNotOverlap(a.year, b.month, a.month);
    }
  }

  /** The other half of the inverse: every date of the calendar comes back from its day number. */
  lemma CivilOfDayNumber(date: Date)
    requires ValidDate(date)
    ensures CivilFromDays(DayNumber(date)) == date
  {
    CivilIsValidInverse(DayNumber(date));
    DayNumberOrders(CivilFromDays(DayNumber(date)), date);
  }

  lemma NextDayNumber(date: Date)
    requires ValidDate(date)
    ensures ValidDate(NextDay(date))
    ensures DayNumber(NextDay(date)) == DayNumber(date) + 1
  {
    if date.day == MonthLength(date.year, date.month) {
      NextMonthStarts(date.year, date.month);
    }
  }

  /** The day numbers of two months that follow each other differ by the length of the first. */
  lemma NextMonthStarts(year: int, month: int)
    requires 1 <= month <= 12
    ensures var next := if month < 12 then Date(year, month + 1, 1) else Date(year + 1, 1, 1);
            ValidDate(next) && DayNumber(next) == DayNumber(Date(year, month, 1)) + MonthLength(year, month)
  {
    if month == 12 {
      MonthTable(year, 12);
      YearLength(year);
      StartShift(year);
      StartShift(year + 1);
    }
  }

  lemma DayNumberNames(date: Date, days: int)
    requires ValidDate(date) && DayNumber(date) == days
    ensures CivilFromDays(days) == date
  {
    CivilOfDayNumber(date);
  }

  /** Day n + 1 is the calendar successor of day n, and day 0 is the Unix epoch. */
  lemma CivilSuccessor(days: int)
    ensures CivilFromDays(days + 1) == NextDay(CivilFromDays(days))
    ensures CivilFromDays(0) == Date(1970, 1, 1)
  {
    var date := CivilFromDays(days);
    CivilIsValidInverse(days);
    NextDayNumber(date);
    DayNumberNames(NextDay(date), days + 1);
    EpochIsDayZero();
  }

  lemma EpochIsDayZero()
    ensures CivilFromDays(0) == Date(1970, 1, 1)
  {
    assert DayNumber(Date(1970, 1, 1)) == 0;
    CivilOfDayNumber(Date(1970, 1, 1));
  }

  // ----- The split of local seconds into date and time of day -----

  function LocalClock(localSecs: int): Clock {
    var secsOfDay := localSecs % 86400;
    Clock(CivilFromDays(localSecs / 86400), secsOfDay / 3600, (secsOfDay / 60) % 60, secsOfDay % 60)
  }

  /** The clock face is in range and names exactly the second it was computed from. */
  lemma LocalClockRecovers(localSecs: int)
    ensures var c := LocalClock(localSecs);
            && ValidDate(c.date)
            && 0 <= c.hour < 24 && 0 <= c.minute < 60 && 0 <= c.second < 60
            && DayNumber(c.date) * 86400 + c.hour * 3600 + c.minute * 60 + c.second == localSecs
  {
    CivilIsValidInverse(localSecs / 86400);
    var s := localSecs % 86400;
    QuotientIs(s / 60, 60, s / 3600);
  }
}
