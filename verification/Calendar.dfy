/** The closed-form civil calendar against the Gregorian one counted day by day. */
module Calendar {
  datatype Date = Date(year: int, month: int, day: int)

  // ----- the Gregorian calendar -----

  predicate IsLeap(year: int) {
    year % 4 == 0 && (year % 100 != 0 || year % 400 == 0)
  }

  function DaysInMonth(year: int, month: int): int {
    if month == 2 then (if IsLeap(year) then 29 else 28)
    else if month in {4, 6, 9, 11} then 30
    else 31
  }

  predicate IsDate(d: Date) {
    1 <= d.month <= 12 && 1 <= d.day <= DaysInMonth(d.year, d.month)
  }

  function NextDay(d: Date): Date {
    if d.day < DaysInMonth(d.year, d.month) then Date(d.year, d.month, d.day + 1)
    else if d.month < 12 then Date(d.year, d.month + 1, 1)
    else Date(d.year + 1, 1, 1)
  }

  // ----- the closed forms -----

  /** Division that truncates toward zero. */
  function Quotient(a: int, b: int): int
    requires b > 0
  {
    if a >= 0 then a / b else -((-a) / b)
  }

  function DaysFromCivil(d: Date): int {
    var y := if d.month <= 2 then d.year - 1 else d.year;
    var era := Quotient(if y >= 0 then y else y - 399, 400);
    var yoe := y - era * 400;
    var mp := if d.month > 2 then d.month - 3 else d.month + 9;
    var doy := Quotient(153 * mp + 2, 5) + d.day - 1;
    var doe := yoe * 365 + Quotient(yoe, 4) - Quotient(yoe, 100) + doy;
    era * 146097 + doe - 719468
  }

  function CivilFromDays(days: int): Date {
    var z := days + 719468;
    var era := Quotient(if z >= 0 then z else z - 146096, 146097);
    var doe := z - era * 146097;
    var yoe := Quotient(doe - Quotient(doe, 1460) + Quotient(doe, 36524) - Quotient(doe, 146096), 365);
    var year := yoe + era * 400;
    var doy := doe - (365 * yoe + Quotient(yoe, 4) - Quotient(yoe, 100));
    var mp := Quotient(5 * doy + 2, 153);
    var day := doy - Quotient(153 * mp + 2, 5) + 1;
    var month := if mp < 10 then mp + 3 else mp - 9;
    Date(if month <= 2 then year + 1 else year, month, day)
  }

  // ----- eras, years of an era and days of a year, counted from 1 March -----

  /** The day of the era on which a year of the era starts. */
  function YearStart(yoe: int): int {
    365 * yoe + yoe / 4 - yoe / 100
  }

  /** The length of the year that starts on 1 March of year `yoe` of an era. */
  function YearLength(yoe: int): int {
    if IsLeap(yoe + 1) then 366 else 365
  }

  function YearOfEra(doe: int): int {
    (doe - doe / 1460 + doe / 36524 - doe / 146096) / 365
  }

  /** A year of an era by century, four-year cycle and year of the cycle. */
  lemma YearStartByCycles(c: int, q: int, r: int)
    requires 0 <= c <= 3 && 0 <= q <= 24 && 0 <= r <= 3
    ensures YearStart(100 * c + 4 * q + r) == 36524 * c + 1461 * q + 365 * r
    ensures IsLeap(100 * c + 4 * q + r + 1) <==> r == 3 && (q < 24 || c == 3)
  {
    var yoe := 100 * c + 4 * q + r;
    assert yoe / 4 == 25 * c + q && yoe / 100 == c;
    assert (yoe + 1) % 4 == (r + 1) % 4;
  }

  /** The closed form finds the year of a day given by its cycles. */
  lemma YearOfEraByCycles(c: int, q: int, r: int, doy: int)
    requires 0 <= c <= 3 && 0 <= q <= 24 && 0 <= r <= 3
    requires 0 <= doy <= 365 && (doy == 365 ==> r == 3 && (q < 24 || c == 3))
    ensures YearOfEra(36524 * c + 1461 * q + 365 * r + doy) == 100 * c + 4 * q + r
  {
    var doe := 36524 * c + 1461 * q + 365 * r + doy;
    var t := 24 * c + q + 365 * r + doy;
    var carry := if t >= 1460 then 1 else 0;
    assert doe == 1460 * (25 * c + q) + t;
    assert doe / 1460 == 25 * c + q + carry;
    var last := if doe == 146096 then 1 else 0;
    assert doe / 36524 == c + last && doe / 146096 == last;
  }

  /** Every day of an era lies in the year that the closed form computes. */
  lemma YearOfEraIs(doe: int, yoe: int)
    requires 0 <= yoe <= 399 && YearStart(yoe) <= doe < YearStart(yoe) + YearLength(yoe)
    ensures 0 <= doe <= 146096 && YearOfEra(doe) == yoe
  {
    var c, q, r := yoe / 100, yoe % 100 / 4, yoe % 4;
    assert yoe == 100 * c + 4 * q + r;
    YearStartByCycles(c, q, r);
    YearOfEraByCycles(c, q, r, doe - YearStart(yoe));
  }

  lemma EraDayHasYear(doe: int)
    requires 0 <= doe <= 146096
    ensures 0 <= YearOfEra(doe) <= 399
    ensures YearStart(YearOfEra(doe)) <= doe < YearStart(YearOfEra(doe)) + YearLength(YearOfEra(doe))
  {
    hide YearOfEra; hide YearStart; hide IsLeap;
    var c := if doe == 146096 then 3 else doe / 36524;
    var inCentury := doe - 36524 * c;
    var q := inCentury / 1461;
    var inCycle := inCentury - 1461 * q;
    var r := if inCycle == 1460 then 3 else inCycle / 365;
    YearStartByCycles(c, q, r);
    YearOfEraByCycles(c, q, r, inCycle - 365 * r);
  }

  /** The month of a day of the year, and back; months counted from March. */
  lemma MonthOfDay(mp: int, day: int)
    requires 0 <= mp <= 11 && 1 <= day <= (if mp == 11 then 29 else if mp in {1, 3, 6, 8} then 30 else 31)
    ensures var doy := (153 * mp + 2) / 5 + day - 1;
            0 <= doy <= 365 && (5 * doy + 2) / 153 == mp && (doy == 365 <==> mp == 11 && day == 29)
  {
  }

  lemma DayHasMonth(doy: int)
    requires 0 <= doy <= 365
    ensures var mp := (5 * doy + 2) / 153;
            var day := doy - (153 * mp + 2) / 5 + 1;
            && 0 <= mp <= 11
            && 1 <= day <= (if mp == 11 then 29 else if mp in {1, 3, 6, 8} then 30 else 31)
            && (mp == 11 && day == 29 <==> doy == 365)
  {
  }

  /** The year that starts on the last 1 March up to a date, and the days since. */
  function MarchYear(d: Date): int {
    if d.month <= 2 then d.year - 1 else d.year
  }

  function DayOfMarchYear(d: Date): int {
    (153 * (if d.month > 2 then d.month - 3 else d.month + 9) + 2) / 5 + d.day - 1
  }

  /** The source's era is the floor of the division. */
  lemma EraIsFloor(z: int, length: int)
    requires length == 400 || length == 146097
    ensures Quotient(if z >= 0 then z else z - (length - 1), length) == z / length
  {
    var q, r := z / length, z % length;
    if z < 0 {
      assert -(z - (length - 1)) == length * -q + (length - 1 - r);
      assert (-(z - (length - 1))) / length == -q;
    }
  }

  lemma DaysByEra(d: Date)
    requires 1 <= d.month <= 12
    ensures DaysFromCivil(d) ==
            MarchYear(d) / 400 * 146097 + YearStart(MarchYear(d) % 400) + DayOfMarchYear(d) - 719468
  {
    EraIsFloor(MarchYear(d), 400);
  }

  /** The date on a day of the year that starts on 1 March of `y`. */
  function DateInYear(y: int, doy: int): Date {
    var mp := (5 * doy + 2) / 153;
    var month := if mp < 10 then mp + 3 else mp - 9;
    Date(if month <= 2 then y + 1 else y, month, doy - (153 * mp + 2) / 5 + 1)
  }

  lemma CivilByEra(days: int)
    ensures var z := days + 719468;
            var yoe := YearOfEra(z % 146097);
            var doy := z % 146097 - YearStart(yoe);
            0 <= doy <= 365 && CivilFromDays(days) == DateInYear(yoe + z / 146097 * 400, doy)
  {
    hide YearOfEra; hide YearStart; hide Quotient; hide CivilFromDays; hide IsLeap;
    var z := days + 719468;
    EraDayHasYear(z % 146097);
    EraIsFloor(z, 146097);
    var doe := z % 146097;
    assert z - z / 146097 * 146097 == doe;
    CivilWithinEra(days, z / 146097, doe);
  }

  // On what is not negative, truncating division is the floor.

  lemma YearIsQuotient(doe: int)
    requires doe >= 0 && YearOfEra(doe) >= 0
    ensures Quotient(doe - Quotient(doe, 1460) + Quotient(doe, 36524) - Quotient(doe, 146096), 365) == YearOfEra(doe)
  {
  }

  lemma StartIsQuotient(yoe: int)
    requires yoe >= 0
    ensures 365 * yoe + Quotient(yoe, 4) - Quotient(yoe, 100) == YearStart(yoe)
  {
  }

  lemma MonthIsQuotient(doy: int)
    requires doy >= 0
    ensures Quotient(5 * doy + 2, 153) == (5 * doy + 2) / 153
    ensures Quotient(153 * ((5 * doy + 2) / 153) + 2, 5) == (153 * ((5 * doy + 2) / 153) + 2) / 5
  {
  }

  lemma CivilWithinEra(days: int, era: int, doe: int)
    requires Quotient(if days + 719468 >= 0 then days + 719468 else days + 719468 - 146096, 146097) == era
    requires days + 719468 - era * 146097 == doe && 0 <= doe <= 146096
    requires 0 <= YearOfEra(doe) <= 399 && YearStart(YearOfEra(doe)) <= doe
    ensures var yoe := YearOfEra(doe);
            var doy := doe - YearStart(yoe);
            CivilFromDays(days) == DateInYear(yoe + era * 400, doy)
  {
    hide Quotient; hide YearOfEra; hide YearStart;
    YearIsQuotient(doe);
    StartIsQuotient(YearOfEra(doe));
    MonthIsQuotient(doe - YearStart(YearOfEra(doe)));
  }

  lemma LeapByEra(era: int, r: int)
    ensures IsLeap(400 * era + r) <==> IsLeap(r)
  {
    AddFours(100 * era, r);
    AddHundreds(4 * era, r);
    AddEras(era, r);
  }

  lemma AddFours(k: int, r: int)
    ensures (4 * k + r) % 4 == r % 4
  {
  }

  lemma AddHundreds(k: int, r: int)
    ensures (100 * k + r) % 100 == r % 100
  {
  }

  lemma AddEras(k: int, r: int)
    ensures (400 * k + r) % 400 == r % 400 && (400 * k + r) / 400 == k + r / 400
  {
  }

  lemma LeapRepeats(year: int)
    ensures IsLeap(year) <==> IsLeap(year % 400)
    ensures IsLeap(year + 1) <==> IsLeap(year % 400 + 1)
  {
    LeapByEra(year / 400, year % 400);
    LeapByEra(year / 400, year % 400 + 1);
  }

  lemma DayFitsYear(d: Date)
    requires IsDate(d)
    ensures 0 <= DayOfMarchYear(d) < YearLength(MarchYear(d) % 400)
  {
    LeapRepeats(MarchYear(d));
    MonthOfDay(if d.month > 2 then d.month - 3 else d.month + 9, d.day);
  }

  /** Counting days and reading them back gives the date. */
  lemma CivilOfDays(d: Date)
    requires IsDate(d)
    ensures CivilFromDays(DaysFromCivil(d)) == d
  {
    hide CivilFromDays; hide DaysFromCivil; hide YearOfEra; hide YearStart; hide Quotient;
    var y := MarchYear(d);
    DaysByEra(d);
    DayFitsYear(d);
    var doe := YearStart(y % 400) + DayOfMarchYear(d);
    YearOfEraIs(doe, y % 400);
    CivilByEra(DaysFromCivil(d));
    var z := DaysFromCivil(d) + 719468;
    assert z == y / 400 * 146097 + doe;
    assert z / 146097 == y / 400 && z % 146097 == doe;
    MonthOfDay(if d.month > 2 then d.month - 3 else d.month + 9, d.day);
  }

  lemma DayInYear(y: int, doy: int)
    requires 0 <= doy <= 365 && (doy == 365 ==> IsLeap(y + 1))
    ensures var d := DateInYear(y, doy);
            IsDate(d) && 1 <= d.month <= 12 && MarchYear(d) == y && DayOfMarchYear(d) == doy
  {
    hide IsLeap;
    DayHasMonth(doy);
  }

  lemma EraIs(z: int, era: int, doe: int)
    requires 0 <= doe < 146097 && z == era * 146097 + doe
    ensures Quotient(if z >= 0 then z else z - 146096, 146097) == era
  {
    hide Quotient;
    EraIsFloor(z, 146097);
  }

  /** The date of a day of an era counts back to it. */
  lemma DayOfEra(days: int, era: int, doe: int)
    requires 0 <= doe < 146097 && days + 719468 == era * 146097 + doe
    ensures IsDate(CivilFromDays(days)) && DaysFromCivil(CivilFromDays(days)) == days
  {
    hide *;
    var yoe := YearOfEra(doe);
    EraDayHasYear(doe);
    EraIs(days + 719468, era, doe);
    CivilWithinEra(days, era, doe);
    var y, doy := yoe + era * 400, doe - YearStart(yoe);
    AddEras(era, yoe);
    assert y == 400 * era + yoe;
    LeapRepeats(y);
    YearHasDay(y, doy, yoe);
    DayInYear(y, doy);
    DaysByEra(DateInYear(y, doy));
  }

  lemma YearHasDay(y: int, doy: int, yoe: int)
    requires 0 <= doy < YearLength(yoe) && (IsLeap(y + 1) <==> IsLeap(yoe + 1))
    ensures 0 <= doy <= 365 && (doy == 365 ==> IsLeap(y + 1))
  {
    hide IsLeap;
  }

  /** Every day count is the count of the valid date it is read as. */
  lemma DaysOfCivil(days: int)
    ensures IsDate(CivilFromDays(days))
    ensures DaysFromCivil(CivilFromDays(days)) == days
  {
    hide *;
    var z := days + 719468;
    DayOfEra(days, z / 146097, z % 146097);
  }

  /** One day later is the next calendar day, one count up. */
  lemma NextDayCounts(d: Date)
    requires IsDate(d)
    ensures IsDate(NextDay(d)) && DaysFromCivil(NextDay(d)) == DaysFromCivil(d) + 1
  {
    hide DaysFromCivil; hide Quotient; hide IsLeap; hide YearStart;
    var n := NextDay(d);
    DaysByEra(d);
    DaysByEra(n);
    if MarchYear(n) != MarchYear(d) {
      YearTurns(MarchYear(d));
      LeapRepeats(MarchYear(d));
    }
  }

  /** A year's end is the next year's start, also where an era ends. */
  lemma YearTurns(y: int)
    ensures (y + 1) / 400 * 146097 + YearStart((y + 1) % 400) ==
            y / 400 * 146097 + YearStart(y % 400) + YearLength(y % 400)
  {
    var yoe := y % 400;
    if yoe == 399 {
      assert y + 1 == 400 * (y / 400 + 1);
      assert (y + 1) / 400 == y / 400 + 1 && (y + 1) % 400 == 0;
    } else {
      assert y + 1 == 400 * (y / 400) + (yoe + 1);
      assert (y + 1) / 400 == y / 400 && (y + 1) % 400 == yoe + 1;
      YearEnds(yoe);
    }
  }

  lemma YearEnds(yoe: int)
    requires 0 <= yoe < 399
    ensures YearStart(yoe + 1) == YearStart(yoe) + YearLength(yoe)
  {
    var c, q, r := yoe / 100, yoe % 100 / 4, yoe % 4;
    assert yoe == 100 * c + 4 * q + r;
    YearStartByCycles(c, q, r);
    if r < 3 {
      YearStartByCycles(c, q, r + 1);
    } else if q < 24 {
      YearStartByCycles(c, q + 1, 0);
    } else {
      YearStartByCycles(c + 1, 0, 0);
    }
  }

  /** The closed form is the calendar: it starts at 1970-01-01 and turns to the
      next calendar day with every count. */
  lemma CivilFollowsCalendar(days: int)
    ensures CivilFromDays(0) == Date(1970, 1, 1)
    ensures IsDate(CivilFromDays(days))
    ensures CivilFromDays(days + 1) == NextDay(CivilFromDays(days))
  {
    hide CivilFromDays; hide DaysFromCivil;
    assert CivilFromDays(0) == Date(1970, 1, 1) by { EpochIs1970(); }
    DaysOfCivil(days);
    NextDayCounts(CivilFromDays(days));
    CivilOfDays(NextDay(CivilFromDays(days)));
  }

  lemma EpochIs1970()
    ensures CivilFromDays(0) == Date(1970, 1, 1)
  {
    hide CivilFromDays;
    CivilOfDays(Date(1970, 1, 1));
  }

  /** The ranges that the source notes beside its intermediate values. */
  lemma CivilRanges(days: int)
    ensures var z := days + 719468;
            var era := Quotient(if z >= 0 then z else z - 146096, 146097);
            var doe := z - era * 146097;
            var yoe := YearOfEra(doe);
            var doy := doe - YearStart(yoe);
            && 0 <= doe <= 146096 && 0 <= yoe <= 399 && 0 <= doy <= 365
            && 0 <= (5 * doy + 2) / 153 <= 11
            && 1 <= CivilFromDays(days).day <= 31 && 1 <= CivilFromDays(days).month <= 12
  {
    hide CivilFromDays;
    var z := days + 719468;
    assert Quotient(if z >= 0 then z else z - 146096, 146097) == z / 146097;
    CivilByEra(days);
    EraDayHasYear(z % 146097);
    DaysOfCivil(days);
  }

  /** Later dates count more days. */
  lemma YearsAreLong(d: Date)
    requires IsDate(d) && d.year >= 1970
    ensures DaysFromCivil(d) >= 0
    ensures d.year - 1970 <= DaysFromCivil(d)
  {
    hide DaysFromCivil; hide Quotient;
    DaysByEra(d);
    DayFitsYear(d);
    var y := MarchYear(d);
    assert y == y / 400 * 400 + y % 400;
  }

  lemma EarlyYears(d: Date)
    requires IsDate(d) && d.year < 1970
    ensures DaysFromCivil(d) < 0
  {
    hide DaysFromCivil; hide Quotient;
    DaysByEra(d);
    DayFitsYear(d);
    var y := MarchYear(d);
    assert y == y / 400 * 400 + y % 400;
  }
}
