/** Where the source's 64-bit arithmetic and the unbounded arithmetic of the model
    are the same. */
module Widths {
  import opened Bytes
  import opened Numerals
  import opened Calendar
  import opened Http
  import opened HttpDate
  import opened Chunked
  import RateLimiting

  // ----- chunk sizes -----

  /** The decoder comes to a size line whose data would end past the largest
      position. */
  predicate Overflows(buf: bytes, pos: nat, bodyLength: nat, maxBody: nat)
    requires pos <= |buf|
    decreases |buf| - pos
  {
    match FindFrom(buf, CRLF, pos)
    case None => false
    case Some(k) =>
      match HexSize(SizeToken(buf[pos..k]))
      case Err(_) => false
      case Ok(size) =>
        var next := k + 2 + size + 2;
        size > 0
        && (next > U64_MAX
            || (next <= |buf| && buf[next - 2..next] == CRLF && bodyLength + size <= maxBody
                && Overflows(buf, next, bodyLength + size, maxBody)))
  }

  /** The decoder with checked additions: nothing where one of them overflows. */
  function CheckedDecodeFrom(buf: bytes, pos: nat, body: bytes, maxBody: nat): Option<Result<ChunkOutcome, ParseError>>
    requires pos <= |buf|
    decreases |buf| - pos
  {
    match FindFrom(buf, CRLF, pos)
    case None => Some(if |buf| - pos > MAX_CHUNK_LINE_BYTES then Err(MalformedChunk) else Ok(Unfinished))
    case Some(k) =>
      match HexSize(SizeToken(buf[pos..k]))
      case Err(e) => Some(Err(e))
      case Ok(size) =>
        var end := k + 2 + size;
        if size == 0 then Some(DecodeFrom(buf, pos, body, maxBody))
        else if end > U64_MAX || end + 2 > U64_MAX then None
        else if |buf| < end + 2 then Some(Ok(Unfinished))
        else if buf[end..end + 2] != CRLF then Some(Err(MalformedChunk))
        else if |body + buf[k + 2..end]| > maxBody then Some(Err(BodyTooLarge))
        else CheckedDecodeFrom(buf, end + 2, body + buf[k + 2..end], maxBody)
  }

  /** Checked and unbounded decoding differ exactly where an addition overflows. */
  lemma {:induction false} CheckedIsExact(buf: bytes, pos: nat, body: bytes, maxBody: nat)
    requires pos <= |buf|
    ensures CheckedDecodeFrom(buf, pos, body, maxBody) ==
            if Overflows(buf, pos, |body|, maxBody) then None else Some(DecodeFrom(buf, pos, body, maxBody))
    decreases |buf| - pos
  {
    hide FindFrom; hide SizeToken; hide HexSize; hide SkipTrailers;
    match FindFrom(buf, CRLF, pos)
    case None =>
    case Some(k) =>
      match HexSize(SizeToken(buf[pos..k]))
      case Err(_) =>
      case Ok(size) =>
        var end := k + 2 + size;
        if size > 0 && end + 2 <= U64_MAX && end + 2 <= |buf| && buf[end..end + 2] == CRLF && |body| + size <= maxBody {
          CheckedIsExact(buf, end + 2, body + buf[k + 2..end], maxBody);
        }
  }

  /** In a buffer that fits the address space an addition overflows only where the
      model waits for more bytes: every body and every refusal of the model is free
      of overflow. */
  lemma {:induction false} OverflowIsUnfinished(buf: bytes, pos: nat, body: bytes, maxBody: nat)
    requires pos <= |buf| <= U64_MAX && Overflows(buf, pos, |body|, maxBody)
    ensures DecodeFrom(buf, pos, body, maxBody) == Ok(Unfinished)
    decreases |buf| - pos
  {
    hide FindFrom; hide SizeToken; hide HexSize; hide SkipTrailers;
    var k := FindFrom(buf, CRLF, pos).value;
    var size := HexSize(SizeToken(buf[pos..k])).value;
    var end := k + 2 + size;
    if end + 2 <= U64_MAX {
      OverflowIsUnfinished(buf, end + 2, body + buf[k + 2..end], maxBody);
    }
  }

  // ----- calendar arithmetic -----

  predicate FitsI64(n: int) {
    0 <= n + I64_MAX + 1 && n <= I64_MAX
  }

  /** The first and the last year all of whose dates are counted without overflow. */
  const MIN_YEAR: int := -25_252_734_927_764_584
  const MAX_YEAR: int := 25_252_734_927_766_553

  /** Every intermediate value of counting the days of a date. */
  predicate CountFits(d: Date) {
    var y := MarchYear(d);
    var shifted := if y >= 0 then y else y - 399;
    var era := Quotient(shifted, 400);
    var yoe := y - era * 400;
    var doy := DayOfMarchYear(d);
    var doe := yoe * 365 + Quotient(yoe, 4) - Quotient(yoe, 100) + doy;
    && FitsI64(y) && FitsI64(shifted) && FitsI64(era * 400) && FitsI64(yoe * 365) && FitsI64(doy) && FitsI64(doe)
    && FitsI64(era * 146097) && FitsI64(era * 146097 + doe) && FitsI64(era * 146097 + doe - 719468)
  }

  predicate InRange(month: int, day: int) {
    1 <= month <= 12 && 1 <= day <= 31
  }

  lemma DayBounds(d: Date)
    requires InRange(d.month, d.day)
    ensures 0 <= DayOfMarchYear(d) <= 367
    ensures d.month > 2 ==> DayOfMarchYear(d) <= 305
    ensures d.month <= 2 ==> DayOfMarchYear(d) >= 306
    ensures d.month == 12 && d.day == 31 ==> DayOfMarchYear(d) == 305
    ensures d.month == 3 && d.day == 1 ==> DayOfMarchYear(d) == 0
    ensures d.month == 1 && d.day == 1 ==> DayOfMarchYear(d) == 306
  {
  }

  /** The same by eras: only the era's first day and the day itself can overflow. */
  lemma CountFitsByEra(d: Date)
    requires InRange(d.month, d.day)
    ensures var y := MarchYear(d);
            var start := y / 400 * 146097;
            CountFits(d) <==>
            && FitsI64(y) && (y < 0 ==> FitsI64(y - 399)) && FitsI64(start)
            && FitsI64(start + YearStart(y % 400) + DayOfMarchYear(d))
            && FitsI64(start + YearStart(y % 400) + DayOfMarchYear(d) - 719468)
  {
    hide Quotient; hide DayOfMarchYear;
    var y := MarchYear(d);
    EraIsFloor(y, 400);
    DayBounds(d);
    StartIsQuotient(y % 400);
    assert y - y / 400 * 400 == y % 400;
    assert FitsI64(y) && (y < 0 ==> FitsI64(y - 399)) ==> FitsI64(y / 400 * 400);
  }

  /** Where a March year stands in its era, near the two ends. */
  lemma EraBounds(y: int)
    requires MIN_YEAR - 1 <= y <= MAX_YEAR
    ensures 4 - LAST_ERA <= y / 400 <= LAST_ERA
    ensures y / 400 == LAST_ERA ==> y % 400 <= 153
    ensures y == MAX_YEAR ==> y % 400 == 153
    ensures y / 400 == 4 - LAST_ERA ==> y % 400 >= 215
    ensures y > MIN_YEAR - 1 && y / 400 == 4 - LAST_ERA ==> y % 400 >= 216
  {
  }

  const LAST_ERA: int := 63_131_837_319_416

  lemma StartBounds(yoe: int)
    requires 0 <= yoe < 400
    ensures 0 <= YearStart(yoe) <= 145732
    ensures yoe <= 153 ==> YearStart(yoe) <= 55882
    ensures yoe <= 152 ==> YearStart(yoe) <= 55517
    ensures yoe >= 215 ==> YearStart(yoe) >= 78526
    ensures yoe >= 216 ==> YearStart(yoe) >= 78892
  {
  }

  /** All dates of these years are counted without overflow. */
  lemma YearsFit(year: int, month: int, day: int)
    requires MIN_YEAR <= year <= MAX_YEAR && InRange(month, day)
    ensures CountFits(Date(year, month, day))
  {
    hide CountFits; hide DayOfMarchYear; hide YearStart;
    var d := Date(year, month, day);
    CountFitsByEra(d);
    DayBounds(d);
    var y := MarchYear(d);
    EraBounds(y);
    StartBounds(y % 400);
    if y == MAX_YEAR {
      assert d.month > 2;
    }
  }

  /** Of any other year some date is not. */
  lemma OtherYearsOverflow(year: int)
    requires year < MIN_YEAR || year > MAX_YEAR
    ensures !CountFits(Date(year, 12, 31)) || !CountFits(Date(year, 1, 1))
  {
    hide CountFits; hide DayOfMarchYear; hide YearStart;
    var first, last := Date(year, 1, 1), Date(year, 12, 31);
    CountFitsByEra(first);
    CountFitsByEra(last);
    DayBounds(first);
    DayBounds(last);
    if year > MAX_YEAR {
      LateYear(year);
    } else {
      EarlyYear(year - 1);
    }
  }

  lemma LateYear(y: int)
    requires y > MAX_YEAR
    ensures y / 400 * 146097 + YearStart(y % 400) + 305 > I64_MAX
  {
    var yoe := y % 400;
    assert y / 400 >= LAST_ERA;
    assert y / 400 == LAST_ERA ==> yoe >= 154;
    assert yoe >= 154 ==> YearStart(yoe) >= 56247;
    assert YearStart(yoe) >= 0;
  }

  lemma EarlyYear(y: int)
    requires y < MIN_YEAR - 1
    ensures y / 400 * 146097 + YearStart(y % 400) + 306 - 719468 + I64_MAX + 1 < 0
  {
    var yoe := y % 400;
    assert y / 400 <= 4 - LAST_ERA;
    assert y / 400 == 4 - LAST_ERA ==> yoe <= 214;
    assert yoe <= 214 ==> YearStart(yoe) <= 78161;
    assert YearStart(yoe) <= 145732;
  }

  /** The years all of whose dates are counted without overflow, exactly. */
  lemma YearRangeIsExact(year: int)
    ensures (forall month, day :: InRange(month, day) ==> CountFits(Date(year, month, day))) <==>
            MIN_YEAR <= year <= MAX_YEAR
  {
    hide CountFits;
    if MIN_YEAR <= year <= MAX_YEAR {
      forall month, day | InRange(month, day) ensures CountFits(Date(year, month, day)) {
        YearsFit(year, month, day);
      }
    } else {
      OtherYearsOverflow(year);
      assert InRange(12, 31) && InRange(1, 1);
    }
  }

  /** The last year all of whose dates have a 64-bit second count. */
  const LAST_SECONDS_YEAR: int := 584_554_051_222

  predicate SecondsFit(d: Date, time: nat) {
    DaysFromCivil(d) * DAY_SECS + time <= U64_MAX
  }

  /** All dates up to that year fit, and none from two years later on does. */
  lemma SecondsRange(d: Date, time: nat)
    requires InRange(d.month, d.day) && time <= DAY_SECS
    ensures d.year <= LAST_SECONDS_YEAR ==> SecondsFit(d, time)
    ensures d.year >= LAST_SECONDS_YEAR + 2 ==> !SecondsFit(d, time)
  {
    hide DaysFromCivil; hide DayOfMarchYear; hide YearStart;
    DaysByEra(d);
    DayBounds(d);
    var y := MarchYear(d);
    SecondsEra(y);
    StartBounds(y % 400);
  }

  /** The year in between ends too late. */
  lemma NextYearOverflows(time: nat)
    ensures !SecondsFit(Date(LAST_SECONDS_YEAR + 1, 12, 31), time)
  {
    assert DaysFromCivil(Date(LAST_SECONDS_YEAR + 1, 12, 31)) == 213_503_982_334_653;
  }

  /** The years all of whose seconds have a 64-bit count, exactly. */
  lemma SecondsRangeIsExact(year: int)
    ensures (forall month, day, time: nat | InRange(month, day) && time <= DAY_SECS ::
               SecondsFit(Date(year, month, day), time))
            <==> year <= LAST_SECONDS_YEAR
  {
    hide SecondsFit;
    forall month, day, time: nat | InRange(month, day) && time <= DAY_SECS
      ensures year <= LAST_SECONDS_YEAR ==> SecondsFit(Date(year, month, day), time)
    {
      SecondsRange(Date(year, month, day), time);
    }
    if year > LAST_SECONDS_YEAR {
      assert InRange(12, 31);
      SecondsRange(Date(year, 12, 31), 0);
      NextYearOverflows(0);
      assert !SecondsFit(Date(year, 12, 31), 0);
    }
  }

  lemma SecondsEra(y: int)
    ensures y <= LAST_SECONDS_YEAR ==> y / 400 * 146097 + YearStart(y % 400) + 367 - 719468 <= 213_503_982_334_600
    ensures y >= LAST_SECONDS_YEAR + 1 ==> y / 400 * 146097 + YearStart(y % 400) + 306 - 719468 >= 213_503_982_334_602
    ensures y >= LAST_SECONDS_YEAR + 2 ==> y / 400 * 146097 + YearStart(y % 400) - 719468 >= 213_503_982_334_602
  {
  }

  /** Every date that the server prints is read back without overflow. */
  lemma PrintedDatesFit(secs: nat)
    requires secs <= U64_MAX
    ensures CountFits(DateOf(secs / DAY_SECS)) && FitsI64(secs / DAY_SECS + 719468)
    ensures DaysFromCivil(DateOf(secs / DAY_SECS)) * DAY_SECS + secs % DAY_SECS == secs
  {
    hide CountFits; hide DaysFromCivil; hide DateOf;
    var d := DateOf(secs / DAY_SECS);
    assert secs / DAY_SECS <= 213_503_982_334_601;
    LongestMonth(d);
    YearsFit(d.year, d.month, d.day);
  }

  lemma LongestMonth(d: Date)
    requires IsDate(d)
    ensures InRange(d.month, d.day)
  {
    hide IsLeap;
  }

  // ----- the rate limiter -----

  /** Both additions of a tick stay within 64 bits. */
  predicate TickFits(e: RateLimiting.Entry, config: RateLimiting.Config, now: nat) {
    now < e.bannedUntil
    || (e.count + 1 <= U64_MAX && (RateLimiting.Tick(e, config, now).1.Deny? ==> now + config.banSecs <= U64_MAX))
  }

  /** The tick of one request, on the entry that it is made on. */
  predicate StepFits(s: RateLimiting.Limiter, config: RateLimiting.Config, hit: RateLimiting.Hit) {
    var room := RateLimiting.WithRoom(s, config, hit.peer, hit.now);
    config.enabled && !RateLimiting.FailsOpen(s, config, hit.peer, hit.now) ==>
      TickFits(if hit.peer in room.entries then room.entries[hit.peer]
          else RateLimiting.Started(hit.now), config, hit.now)
  }

  predicate CountsUpTo(entries: RateLimiting.Table, n: nat) {
    forall p :: p in entries ==> entries[p].count <= n
  }

  lemma TickCounts(e: RateLimiting.Entry, config: RateLimiting.Config, now: nat, n: nat)
    requires e.count <= n
    ensures RateLimiting.Tick(e, config, now).0.count <= n + 1
  {
  }

  /** In a run of fewer than 2^64 requests, at times that leave room for a ban, no
      addition overflows. */
  lemma {:induction false} RunFits(
    s: RateLimiting.Limiter, config: RateLimiting.Config, hits: seq<RateLimiting.Hit>, n: nat, k: nat)
    requires CountsUpTo(s.entries, n) && n + |hits| <= U64_MAX && k < |hits|
    requires forall i :: 0 <= i < |hits| ==> hits[i].now + config.banSecs <= U64_MAX
    ensures StepFits(RateLimiting.After(s, config, hits[..k]), config, hits[k])
    decreases k
  {
    hide RateLimiting.Tick;
    if k == 0 {
      assert hits[..0] == [];
    } else {
      var hit := hits[0];
      var room := RateLimiting.WithRoom(s, config, hit.peer, hit.now);
      var e := if hit.peer in room.entries then room.entries[hit.peer] else RateLimiting.Started(hit.now);
      TickCounts(e, config, hit.now, n);
      var next := RateLimiting.Check(s, config, hit.peer, hit.now).0;
      assert hits[..k][1..] == hits[1..][..k - 1];
      RunFits(next, config, hits[1..], n + 1, k - 1);
    }
  }

  /** Where a ban is imposed later than that, its end overflows. */
  lemma LateBanOverflows(e: RateLimiting.Entry, config: RateLimiting.Config, now: nat)
    requires now >= e.bannedUntil && e.count + 1 <= U64_MAX
    ensures TickFits(e, config, now) <==>
            (RateLimiting.Tick(e, config, now).1.Allow? || now <= U64_MAX - config.banSecs)
  {
    hide RateLimiting.Tick;
  }
}
