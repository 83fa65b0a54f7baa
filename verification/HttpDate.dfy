/** IMF-fixdate (section 5.6.7 of RFC 9110): printing and parsing. */
module HttpDate {
  import opened Bytes
  import opened Numerals
  import opened Calendar

  const WEEKDAYS: seq<bytes> := ["Sun", "Mon", "Tue", "Wed", "Thu", "Fri", "Sat"]
  const MONTHS: seq<bytes> :=
    ["Jan", "Feb", "Mar", "Apr", "May", "Jun", "Jul", "Aug", "Sep", "Oct", "Nov", "Dec"]

  const DAY_SECS: nat := 86400

  /** Weekday of a day count; the epoch was a Thursday. */
  function Weekday(days: nat): (w: nat)
    ensures w < 7
  {
    (days % 7 + 4) % 7
  }

  function TimeText(secs: nat): bytes {
    Padded(secs / 3600, 2) + ":" + (Padded(secs % 3600 / 60, 2) + ":" + Padded(secs % 60, 2))
  }

  /** The date of a day count that is not before the epoch. */
  function DateOf(days: nat): (d: Date)
    ensures IsDate(d) && DaysFromCivil(d) == days && 1970 <= d.year <= 1970 + days
  {
    DaysOfCivil(days);
    YearOfDays(days);
    CivilFromDays(days)
  }

  function HttpDateOf(secs: nat): bytes {
    var d := DateOf(secs / DAY_SECS);
    WEEKDAYS[Weekday(secs / DAY_SECS)] + "," + " " +
    (Padded(d.day, 2) + " " +
     (MONTHS[d.month - 1] + " " +
      (Padded(d.year, 4) + " " +
       (TimeText(secs % DAY_SECS) + " " + "GMT"))))
  }

  function MonthOf(token: bytes): Option<int> {
    MonthFrom(token, 0)
  }

  /** Position of a month name, counted from 1. */
  function MonthFrom(token: bytes, i: nat): Option<int>
    requires i <= 12
    decreases 12 - i
  {
    if i == 12 then None
    else if MONTHS[i] == token then Some(i + 1)
    else MonthFrom(token, i + 1)
  }

  function ParseTime(token: bytes): Option<nat> {
    var parts := SplitOn(token, ':');
    if |parts| != 3 then None
    else
      match (ParseU64(parts[0]), ParseU64(parts[1]), ParseU64(parts[2]))
      case (Some(hour), Some(minute), Some(second)) =>
        if hour > 23 || minute > 59 || second > 60 then None else Some(hour * 3600 + minute * 60 + second)
      case _ => None
  }

  function ParseHttpDate(value: bytes): Option<nat> {
    var parts := SplitOn(value, ' ');
    if |parts| != 6 || parts[5] != "GMT" then None
    else
      match (ParseI64(parts[1]), MonthOf(parts[2]), ParseI64(parts[3]), ParseTime(parts[4]))
      case (Some(day), Some(month), Some(year), Some(time)) =>
        var days := DaysFromCivil(Date(year, month, day));
        if day < 1 || day > 31 || days < 0 then None else Some(days * DAY_SECS + time)
      case _ => None
  }

  // ----- proofs -----

  lemma YearOfDays(days: nat)
    ensures 1970 <= CivilFromDays(days).year <= 1970 + days
  {
    hide CivilFromDays; hide DaysFromCivil;
    var d := CivilFromDays(days);
    DaysOfCivil(days);
    if d.year >= 1970 {
      YearsAreLong(d);
    } else {
      EarlyYears(d);
    }
  }

  lemma DigitsArePlain(s: bytes)
    requires AllDigits(s)
    ensures ' ' !in s && ':' !in s
  {
  }

  lemma TimeReads(secs: nat)
    requires secs < DAY_SECS
    ensures ParseTime(TimeText(secs)) == Some(secs) && ' ' !in TimeText(secs)
  {
    hide ParseU64; hide Padded; hide SplitOn;
    var h, m, s := Padded(secs / 3600, 2), Padded(secs % 3600 / 60, 2), Padded(secs % 60, 2);
    DigitsArePlain(h);
    DigitsArePlain(m);
    DigitsArePlain(s);
    SplitOnFirst(h, ':', m + ":" + s);
    SplitOnFirst(m, ':', s);
    SplitOnFirst(s, ':', []);
    ParsePadded(secs / 3600, 2);
    ParsePadded(secs % 3600 / 60, 2);
    ParsePadded(secs % 60, 2);
  }

  lemma MonthReads(month: int)
    requires 1 <= month <= 12
    ensures MonthOf(MONTHS[month - 1]) == Some(month) && ' ' !in MONTHS[month - 1]
  {
    MonthFromReads(month - 1, 0);
  }

  lemma {:induction false} MonthFromReads(k: nat, i: nat)
    requires i <= k < 12
    ensures MonthFrom(MONTHS[k], i) == Some(k + 1) && ' ' !in MONTHS[k]
    decreases 12 - i
  {
    if i < k {
      MonthFromReads(k, i + 1);
    }
  }

  /** Every 64-bit timestamp reads back from its printed date. */
  lemma DateReads(secs: nat)
    requires secs <= U64_MAX
    ensures ParseHttpDate(HttpDateOf(secs)) == Some(secs)
  {
    hide SplitOn; hide ParseTime; hide TimeText; hide MonthOf; hide ParseI64; hide Padded; hide DaysFromCivil;
    hide CivilFromDays;
    var days, time := secs / DAY_SECS, secs % DAY_SECS;
    var d := DateOf(days);
    var weekday := WEEKDAYS[Weekday(days)] + ",";
    WeekdayIsPlain(Weekday(days));
    var day, month, year, clock := Padded(d.day, 2), MONTHS[d.month - 1], Padded(d.year, 4), TimeText(time);
    MonthReads(d.month);
    TimeReads(time);
    DigitsArePlain(day);
    DigitsArePlain(year);
    ParsePadded(d.day, 2);
    ParsePadded(d.year, 4);
    var t4 := clock + " " + "GMT";
    var t3 := year + " " + t4;
    var t2 := month + " " + t3;
    var t1 := day + " " + t2;
    SplitOnFirst("GMT", ' ', []);
    SplitOnFirst(clock, ' ', "GMT");
    SplitOnFirst(year, ' ', t4);
    SplitOnFirst(month, ' ', t3);
    SplitOnFirst(day, ' ', t2);
    SplitOnFirst(weekday, ' ', t1);
    assert SplitOn(HttpDateOf(secs), ' ') == [weekday, day, month, year, clock, "GMT"];
  }

  lemma WeekdayIsPlain(w: nat)
    requires w < 7
    ensures ' ' !in WEEKDAYS[w] + ","
  {
  }

  // ----- the names -----

  function MonthName(month: int): bytes
    requires 1 <= month <= 12
  {
    match month
    case 1 => "Jan"
    case 2 => "Feb"
    case 3 => "Mar"
    case 4 => "Apr"
    case 5 => "May"
    case 6 => "Jun"
    case 7 => "Jul"
    case 8 => "Aug"
    case 9 => "Sep"
    case 10 => "Oct"
    case 11 => "Nov"
    case 12 => "Dec"
  }

  /** The day that many days after the epoch, which was a Thursday. */
  function DayName(days: nat): bytes {
    match days % 7
    case 0 => "Thu"
    case 1 => "Fri"
    case 2 => "Sat"
    case 3 => "Sun"
    case 4 => "Mon"
    case 5 => "Tue"
    case 6 => "Wed"
  }

  /** The names of a date: the months in their order, the days in theirs. */
  lemma NamesAre(month: int, days: nat)
    requires 1 <= month <= 12
    ensures MONTHS[month - 1] == MonthName(month) && WEEKDAYS[Weekday(days)] == DayName(days)
  {
    hide MonthName; hide MONTHS; hide DayName; hide WEEKDAYS; hide Weekday;
    MonthNameIs(month);
    DayNameIs(days);
  }

  lemma MonthNameIs(month: int)
    requires 1 <= month <= 12
    ensures |MONTHS| == 12 && MONTHS[month - 1] == MonthName(month)
  {
  }

  lemma DayNameIs(days: nat)
    ensures |WEEKDAYS| == 7 && WEEKDAYS[Weekday(days)] == DayName(days)
  {
  }

  lemma TwoDigits(n: nat)
    requires n < 100
    ensures Padded(n, 2) == [DigitChar(n / 10), DigitChar(n % 10)]
  {
    if n < 10 {
      assert Dec(n) == [DigitChar(n)];
    } else {
      assert Dec(n) == Dec(n / 10) + [DigitChar(n % 10)];
    }
  }

  /** The six parts of a date, one space apart. */
  function DateText(weekday: bytes, day: bytes, month: bytes, year: bytes, time: bytes): bytes {
    weekday + " " + (day + " " + (month + " " + (year + " " + (time + " " + "GMT"))))
  }

  function ClockText(hour: bytes, minute: bytes, second: bytes): bytes {
    hour + ":" + (minute + ":" + second)
  }

  /** A printed date: its names, and its numbers with leading zeros. */
  lemma DateIsSpelled(secs: nat)
    ensures var d := DateOf(secs / DAY_SECS);
            1 <= d.month <= 12
            && HttpDateOf(secs) ==
               DateText(DayName(secs / DAY_SECS) + ",", Padded(d.day, 2), MonthName(d.month), Padded(d.year, 4),
                        TimeText(secs % DAY_SECS))
  {
    hide DaysFromCivil; hide CivilFromDays; hide Padded; hide TimeText; hide MonthName; hide DayName; hide Weekday;
    hide MONTHS; hide WEEKDAYS;
    NamesAre(DateOf(secs / DAY_SECS).month, secs / DAY_SECS);
  }

  /** The example date of section 5.6.7 of RFC 9110: Sun, 06 Nov 1994 08:49:37 GMT. */
  lemma ExampleDate()
    ensures HttpDateOf(784111777) == DateText("Sun,", "06", "Nov", "1994", ClockText("08", "49", "37"))
    ensures ParseHttpDate(HttpDateOf(784111777)) == Some(784111777)
  {
    hide DaysFromCivil; hide CivilFromDays; hide Padded; hide Print; hide ParseHttpDate; hide HttpDateOf; hide DateText;
    assert 784111777 / DAY_SECS == 9075 && 784111777 % DAY_SECS == 31777;
    ExampleDay();
    CivilOfDays(Date(1994, 11, 6));
    DateIsSpelled(784111777);
    ExampleParts();
    DateReads(784111777);
  }

  lemma ExampleDay()
    ensures IsDate(Date(1994, 11, 6)) && DaysFromCivil(Date(1994, 11, 6)) == 9075
  {
  }

  lemma ExampleParts()
    ensures Padded(6, 2) == "06" && Padded(1994, 4) == "1994" && TimeText(31777) == ClockText("08", "49", "37")
    ensures DayName(9075) + "," == "Sun,"
  {
    hide Padded;
    TwoDigits(6);
    TwoDigits(8);
    TwoDigits(49);
    TwoDigits(37);
    ExampleYear();
  }

  lemma ExampleYear()
    ensures Padded(1994, 4) == "1994"
  {
    assert Dec(1994) == Dec(199) + [DigitChar(4)];
    assert Dec(199) == Dec(19) + [DigitChar(9)];
    assert Dec(19) == Dec(1) + [DigitChar(9)];
  }

  // ----- which texts are dates -----

  /** The parts of a date, as text. */
  datatype DateParts = DateParts(
    weekday: bytes, day: bytes, month: int, year: bytes, hour: bytes, minute: bytes, second: bytes)
  {
    function Text(): bytes
      requires 1 <= month <= 12
    {
      DateText(weekday, day, MonthName(month), year, ClockText(hour, minute, second))
    }

    /** Numbers in their ranges; the day is only held against the longest month, and the
        weekday against nothing. */
    predicate Valid() {
      && ' ' !in weekday && 1 <= month <= 12
      && ParseI64(day).Some? && 1 <= ParseI64(day).value <= 31 && ParseI64(year).Some?
      && ParseU64(hour).Some? && ParseU64(hour).value <= 23
      && ParseU64(minute).Some? && ParseU64(minute).value <= 59
      && ParseU64(second).Some? && ParseU64(second).value <= 60
    }

    function Days(): int
      requires Valid()
    {
      DaysFromCivil(Date(ParseI64(year).value, month, ParseI64(day).value))
    }

    function Secs(): nat
      requires Valid()
    {
      ParseU64(hour).value * 3600 + ParseU64(minute).value * 60 + ParseU64(second).value
    }
  }

  lemma NumberIsPlain(s: bytes)
    requires ParseU64(s).Some? || ParseI64(s).Some?
    ensures ' ' !in s && ':' !in s
  {
    hide Value;
    assert s != [] && AllDigits(s[1..]);
    DigitsArePlain(s[1..]);
    assert s[0] == '+' || s[0] == '-' || AllDigits(s);
    assert s == [s[0]] + s[1..];
  }

  lemma {:induction false} MonthFromIs(token: bytes, i: nat)
    requires i <= 12 && MonthFrom(token, i).Some?
    ensures 1 <= MonthFrom(token, i).value <= 12 && token == MONTHS[MonthFrom(token, i).value - 1]
    decreases 12 - i
  {
    if MONTHS[i] != token {
      MonthFromIs(token, i + 1);
    }
  }

  lemma ClockReads(hour: bytes, minute: bytes, second: bytes)
    requires ParseU64(hour).Some? && ParseU64(minute).Some? && ParseU64(second).Some?
    requires ParseU64(hour).value <= 23 && ParseU64(minute).value <= 59 && ParseU64(second).value <= 60
    ensures ParseTime(ClockText(hour, minute, second)) ==
            Some(ParseU64(hour).value * 3600 + ParseU64(minute).value * 60 + ParseU64(second).value)
    ensures ' ' !in ClockText(hour, minute, second)
  {
    hide ParseU64; hide ParseI64; hide SplitOn;
    NumberIsPlain(hour);
    NumberIsPlain(minute);
    NumberIsPlain(second);
    assert ClockText(hour, minute, second) == hour + ":" + (minute + ":" + second);
    SplitOnFirst(hour, ':', minute + ":" + second);
    SplitOnFirst(minute, ':', second);
    SplitOnFirst(second, ':', []);
  }

  lemma ClockParses(token: bytes) returns (hour: bytes, minute: bytes, second: bytes)
    requires ParseTime(token).Some?
    ensures token == ClockText(hour, minute, second)
    ensures ParseU64(hour).Some? && ParseU64(minute).Some? && ParseU64(second).Some?
    ensures ParseU64(hour).value <= 23 && ParseU64(minute).value <= 59 && ParseU64(second).value <= 60
    ensures ParseTime(token).value ==
            ParseU64(hour).value * 3600 + ParseU64(minute).value * 60 + ParseU64(second).value
  {
    hide ParseU64; hide SplitOn;
    var parts := SplitOn(token, ':');
    hour, minute, second := parts[0], parts[1], parts[2];
    SplitOnParts(token, ':');
    var rest := token[|hour| + 1..];
    SplitOnParts(rest, ':');
    SplitOnParts(rest[|minute| + 1..], ':');
  }

  lemma DateSplits(weekday: bytes, day: bytes, month: bytes, year: bytes, time: bytes)
    requires ' ' !in weekday && ' ' !in day && ' ' !in month && ' ' !in year && ' ' !in time
    ensures SplitOn(DateText(weekday, day, month, year, time), ' ') == [weekday, day, month, year, time, "GMT"]
  {
    hide SplitOn;
    var t4 := time + " " + "GMT";
    var t3 := year + " " + t4;
    var t2 := month + " " + t3;
    var t1 := day + " " + t2;
    SplitOnFirst("GMT", ' ', []);
    SplitOnFirst(time, ' ', "GMT");
    SplitOnFirst(year, ' ', t4);
    SplitOnFirst(month, ' ', t3);
    SplitOnFirst(day, ' ', t2);
    SplitOnFirst(weekday, ' ', t1);
  }

  lemma DateJoins(value: bytes)
    requires |SplitOn(value, ' ')| == 6 && SplitOn(value, ' ')[5] == "GMT"
    ensures var p := SplitOn(value, ' '); value == DateText(p[0], p[1], p[2], p[3], p[4]) && ' ' !in p[0]
  {
    hide SplitOn;
    var p := SplitOn(value, ' ');
    SplitOnParts(value, ' ');
    var s1 := value[|p[0]| + 1..];
    SplitOnParts(s1, ' ');
    var s2 := s1[|p[1]| + 1..];
    SplitOnParts(s2, ' ');
    var s3 := s2[|p[2]| + 1..];
    SplitOnParts(s3, ' ');
    var s4 := s3[|p[3]| + 1..];
    SplitOnParts(s4, ' ');
    SplitOnParts(s4[|p[4]| + 1..], ' ');
  }

  lemma PartsRead(p: DateParts)
    requires p.Valid()
    ensures ParseHttpDate(p.Text()) == if p.Days() < 0 then None else Some(p.Days() * DAY_SECS + p.Secs())
  {
    hide ParseU64; hide ParseI64; hide SplitOn; hide DaysFromCivil; hide ParseTime; hide MonthFrom; hide DateText;
    var month := MonthName(p.month);
    NamesAre(p.month, 0);
    MonthReads(p.month);
    NumberIsPlain(p.day);
    NumberIsPlain(p.year);
    ClockReads(p.hour, p.minute, p.second);
    DateSplits(p.weekday, p.day, month, p.year, ClockText(p.hour, p.minute, p.second));
  }

  lemma DateParses(value: bytes) returns (p: DateParts)
    requires ParseHttpDate(value).Some?
    ensures p.Valid() && p.Text() == value
  {
    hide ParseU64; hide ParseI64; hide SplitOn; hide DaysFromCivil; hide ParseTime; hide DateText;
    var s := SplitOn(value, ' ');
    DateJoins(value);
    var hour, minute, second := ClockParses(s[4]);
    MonthFromIs(s[2], 0);
    var m := MonthOf(s[2]).value;
    NamesAre(m, 0);
    p := DateParts(s[0], s[1], m, s[3], hour, minute, second);
  }

  predicate PartsDenote(p: DateParts, value: bytes, secs: nat)
    requires p.Valid()
  {
    p.Text() == value && p.Days() >= 0 && secs == p.Days() * DAY_SECS + p.Secs()
  }

  /** A text is read as a time exactly if it is a date in that form, not before the epoch,
      and the time is the one that it denotes. */
  lemma ParsesExactlyDates(value: bytes, secs: nat)
    ensures ParseHttpDate(value) == Some(secs) <==>
            exists p: DateParts :: p.Valid() && PartsDenote(p, value, secs)
  {
    hide ParseHttpDate; hide DateParts.Days; hide DateParts.Secs; hide DateText; hide ParseI64; hide ParseU64;
    if ParseHttpDate(value) == Some(secs) {
      var p := DateParses(value);
      PartsRead(p);
    }
    if exists p: DateParts :: p.Valid() && PartsDenote(p, value, secs) {
      var p: DateParts :| p.Valid() && PartsDenote(p, value, secs);
      PartsRead(p);
    }
  }

  /** The printed weekday starts at Thursday and advances by one each day. */
  lemma WeekdayAdvances(days: nat)
    ensures WEEKDAYS[Weekday(0)] == "Thu"
    ensures Weekday(days + 1) == (Weekday(days) + 1) % 7
  {
    assert days == 7 * (days / 7) + days % 7;
  }
}
