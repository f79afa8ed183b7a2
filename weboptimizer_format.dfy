/**
 * WeboptimizerFormat: export of a valid week as `{start, end}` pairs of
 * seconds since Monday 00:00 of the current week.
 *
 * Instants are week-relative milliseconds (Monday 00:00 of the current week
 * is 0). "Now" is an explicit Instant in the website's zone: stringToInterval
 * places each interval on today, and the export then moves both of its ends
 * to day i of their own week, as DateTime.withDayOfWeek does.
 */
module WeboptimizerFormat {
  import opened Base
  import opened Time
  import opened Text
  import opened HoursConfiguration

  /** One element of the output array, in seconds since Monday 00:00. */
  datatype Period = Period(start: int, end: int)

  /** Java's long division by 1000, which truncates toward zero. */
  function ToSeconds(ms: int): (r: int)
    ensures ms >= 0 ==> 0 <= r && 0 <= ms - r * SecondMs < SecondMs
    ensures ms < 0 ==> r <= 0 && 0 <= r * SecondMs - ms < SecondMs
  {
    if ms >= 0 then ms / SecondMs else -((-ms) / SecondMs)
  }

  /** Joda's Interval constructor: an end before the start is an IllegalArgumentException. */
  function NewInterval(start: int, end: int): (r: Result<Span>)
    ensures r.Success? <==> start <= end
    ensures r.Success? ==> r.value.start == start && r.value.end == end
    ensures r.Failure? ==> r.error == EndBeforeStart
  {
    if end < start then Failure(EndBeforeStart) else Success(Span(start, end))
  }

  /** Every span starts no later than it ends. */
  predicate Ordered(intervals: seq<Span>)
  {
    forall k :: 0 <= k < |intervals| ==> intervals[k].start <= intervals[k].end
  }

  /** Today's midnight, where stringToInterval places its span. */
  function TodayStart(now: Instant): int
  {
    StartOfDay(WeekMillis(now))
  }

  /** One interval of day i: stringToInterval's span of today with both ends moved to day i of their own week. */
  function TokenInterval(piece: string, i: int, now: Instant): Result<Span>
  {
    var sp :- StringToInterval(piece);
    NewInterval(WithDayOfWeek(TodayStart(now) + sp.start, i), WithDayOfWeek(TodayStart(now) + sp.end, i))
  }

  // ---------------------------------------------------------------------------
  // Loops that stop at the first exception
  // ---------------------------------------------------------------------------

  /** The values of rs in order, or the error of the first failure: a loop that throws at its first bad step. */
  function Collect<T>(rs: seq<Result<T>>): Result<seq<T>>
  {
    if rs == [] then Success([])
    else
      var prev :- Collect(rs[..|rs| - 1]);
      var last :- rs[|rs| - 1];
      Success(prev + [last])
  }

  /** Collect succeeds exactly when every step does, and then holds every step's value in order. */
  lemma {:induction false} CollectIff<T>(rs: seq<Result<T>>)
    ensures Collect(rs).Success? <==> forall k :: 0 <= k < |rs| ==> rs[k].Success?
    ensures Collect(rs).Success? ==>
      |Collect(rs).value| == |rs| && forall k :: 0 <= k < |rs| ==> Collect(rs).value[k] == rs[k].value
  {
    if rs != [] {
      var init := rs[..|rs| - 1];
      CollectIff(init);
      assert forall k :: 0 <= k < |init| ==> init[k] == rs[k];
    }
  }

  /** A failing Collect reports the error of its first failing step. */
  lemma {:induction false} CollectFirstFailure<T>(rs: seq<Result<T>>)
    requires Collect(rs).Failure?
    ensures exists k :: 0 <= k < |rs| && rs[k].Failure? && Collect(rs).error == rs[k].error &&
                        (forall j :: 0 <= j < k ==> rs[j].Success?)
  {
    var init := rs[..|rs| - 1];
    assert forall k :: 0 <= k < |init| ==> init[k] == rs[k];
    if Collect(init).Failure? {
      CollectFirstFailure(init);
      var k :| 0 <= k < |init| && init[k].Failure? && Collect(init).error == init[k].error &&
        forall j :: 0 <= j < k ==> init[j].Success?;
      assert rs[k] == init[k];
    } else {
      CollectIff(init);
      assert rs[|rs| - 1].Failure?;
    }
  }

  /** Once a prefix has failed, the later steps are never looked at. */
  lemma {:induction false} CollectFailsFrom<T>(rs: seq<Result<T>>, m: nat)
    requires m <= |rs| && Collect(rs[..m]).Failure?
    ensures Collect(rs) == Collect(rs[..m])
    decreases |rs| - m
  {
    if m < |rs| {
      assert rs[..m + 1][..m] == rs[..m];
      CollectFailsFrom(rs, m + 1);
    } else {
      assert rs[..m] == rs;
    }
  }

  // ---------------------------------------------------------------------------
  // The intervals of a day and of the week
  // ---------------------------------------------------------------------------

  /** One step per piece of a comma list. */
  function TokenResults(pieces: seq<string>, i: int, now: Instant): (rs: seq<Result<Span>>)
    ensures |rs| == |pieces| && forall k :: 0 <= k < |pieces| ==> rs[k] == TokenInterval(pieces[k], i, now)
  {
    seq(|pieces|, k requires 0 <= k < |pieces| => TokenInterval(pieces[k], i, now))
  }

  /** The pieces of a comma list in order; the first that throws ends the export. */
  function TokenIntervals(pieces: seq<string>, i: int, now: Instant): Result<seq<Span>>
  {
    Collect(TokenResults(pieces, i, now))
  }

  /**
   * "*" on day i: that day's midnight to one second before the next midnight.
   * The Interval built from these two instants never has its end first.
   */
  function AllDayInterval(i: int, now: Instant): Span
  {
    var start := StartOfDay(WithDayOfWeek(WeekMillis(now), i));
    Span(start, start + DayMs - SecondMs)
  }

  /** What day i adds, the patterns tried in the source's order; a day matching none is an IllegalStateException. */
  function DayIntervals(entry: string, i: int, now: Instant): Result<seq<Span>>
  {
    if MatchesIntervals(entry) then TokenIntervals(SplitCommas(entry), i, now)
    else if entry == AllDay then Success([AllDayInterval(i, now)])
    else if entry == Disabled then Success([])
    else Failure(IllegalState)
  }

  /** One step per day, day k + 1 at index k. */
  function DayResults(config: seq<string>, now: Instant): (rs: seq<Result<seq<Span>>>)
    ensures |rs| == |config|
  {
    if config == [] then []
    else DayResults(config[..|config| - 1], now) + [DayIntervals(config[|config| - 1], |config|, now)]
  }

  /** Day k + 1's step sits at index k. */
  lemma {:induction false} DayResultsAt(config: seq<string>, now: Instant, k: int)
    requires 0 <= k < |config|
    ensures DayResults(config, now)[k] == DayIntervals(config[k], k + 1, now)
  {
    if k < |config| - 1 {
      DayResultsAt(config[..|config| - 1], now, k);
    }
  }

  /** Every day k + 1 has its step at index k. */
  lemma DayResultsAll(config: seq<string>, now: Instant)
    ensures forall k :: 0 <= k < |config| ==> DayResults(config, now)[k] == DayIntervals(config[k], k + 1, now)
  {
    forall k | 0 <= k < |config| {
      DayResultsAt(config, now, k);
    }
  }

  predicate DaySucceeds(config: seq<string>, d: int, now: Instant)
    requires 1 <= d <= |config|
  {
    DayIntervals(config[d - 1], d, now).Success?
  }

  /** The intervals of all days, one list after another. */
  function Flatten(days: seq<seq<Span>>): seq<Span>
  {
    if days == [] then [] else Flatten(days[..|days| - 1]) + days[|days| - 1]
  }

  /** The intervals of the days in day order; the first day that throws ends the export. */
  function WeekIntervals(config: seq<string>, now: Instant): Result<seq<Span>>
  {
    var days :- Collect(DayResults(config, now));
    Success(Flatten(days))
  }

  /** Monday 00:00 of the current week: withDayOfWeek(MONDAY).withTimeAtStartOfDay(). */
  function MondayStart(now: Instant): int
  {
    StartOfDay(WithDayOfWeek(WeekMillis(now), 1))
  }

  /** One output object: both ends as whole seconds after Monday. */
  function PeriodOf(interval: Span, monday: int): Period
  {
    Period(ToSeconds(interval.start - monday), ToSeconds(interval.end - monday))
  }

  function Periods(intervals: seq<Span>, monday: int): (r: seq<Period>)
    ensures |r| == |intervals| && forall k :: 0 <= k < |r| ==> r[k] == PeriodOf(intervals[k], monday)
  {
    seq(|intervals|, k requires 0 <= k < |intervals| => PeriodOf(intervals[k], monday))
  }

  /** fromHoursConfig as a value: validate, collect the intervals of the days, then write them as offsets. */
  function Export(config: seq<string>, now: Instant): Result<seq<Period>>
  {
    match ValidateWeek(config)
    case Fail(e) => Failure(e)
    case Pass =>
      var intervals :- WeekIntervals(config, now);
      Success(Periods(intervals, MondayStart(now)))
  }

  // ---------------------------------------------------------------------------
  // fromHoursConfig
  // ---------------------------------------------------------------------------

  /** fromHoursConfig: a loop over the days that appends intervals, then a loop that writes the offsets. */
  method FromHoursConfig(config: seq<string>, now: Instant) returns (r: Result<seq<Period>>)
    ensures r == Export(config, now)
  {
    var validation := ValidateWeek(config);
    if validation.Fail? {
      return Failure(validation.error);
    }
    ValidateWeekIff(config);
    var intervals: seq<Span> := [];
    var monday := StartOfDay(WithDayOfWeek(WeekMillis(now), 1));
    ghost var results := DayResults(config, now);
    ghost var days: seq<seq<Span>> := [];
    for i := 1 to 8
      invariant Collect(results[..i - 1]) == Success(days)
      invariant intervals == Flatten(days)
    {
      assert results[..i][..i - 1] == results[..i - 1];
      DayResultsAt(config, now, i - 1);
      var next := AppendDay(config[i - 1], i, now, intervals);
      if next.Failure? {
        CollectFailsFrom(results, i);
        return Failure(next.error);
      }
      ghost var day := DayIntervals(config[i - 1], i, now).value;
      assert (days + [day])[..|days|] == days;
      days := days + [day];
      intervals := next.value;
    }
    assert results[..7] == results;
    var result := WritePeriods(intervals, monday);
    r := Success(result);
  }

  /** The output loop: one {start, end} object per interval, in seconds after Monday. */
  method WritePeriods(intervals: seq<Span>, monday: int) returns (result: seq<Period>)
    ensures result == Periods(intervals, monday)
  {
    result := [];
    for j := 0 to |intervals|
      invariant |result| == j
      invariant forall k :: 0 <= k < j ==> result[k] == PeriodOf(intervals[k], monday)
    {
      result := result + [Period(ToSeconds(intervals[j].start - monday), ToSeconds(intervals[j].end - monday))];
    }
  }

  /** One pass of the day loop: the intervals of day i appended to those collected so far. */
  method AppendDay(entry: string, i: int, now: Instant, intervals: seq<Span>) returns (r: Result<seq<Span>>)
    requires IsValid(entry)
    ensures DayIntervals(entry, i, now).Failure? ==> r == Failure(DayIntervals(entry, i, now).error)
    ensures DayIntervals(entry, i, now).Success? ==> r == Success(intervals + DayIntervals(entry, i, now).value)
  {
    ValidEntryShape(entry);
    LiteralsAreNotIntervals();
    if MatchesIntervals(entry) {
      r := AppendTokens(SplitCommas(entry), i, now, intervals);
    } else if entry == AllDay {
      var start := StartOfDay(WithDayOfWeek(WeekMillis(now), i));
      var end := start + DayMs - SecondMs;
      assert DayIntervals(entry, i, now) == Success([Span(start, end)]);
      r := Success(intervals + [Span(start, end)]);
    } else if entry == Disabled {
      assert DayIntervals(entry, i, now) == Success([]) && intervals + [] == intervals;
      r := Success(intervals);
    } else {
      assert false;
    }
  }

  /** The inner loop over a comma list: each piece resolved, placed on day i and appended, or the first Interval that throws. */
  method AppendTokens(pieces: seq<string>, i: int, now: Instant, intervals: seq<Span>) returns (r: Result<seq<Span>>)
    requires AllResolve(pieces)
    ensures TokenIntervals(pieces, i, now).Failure? ==> r == Failure(TokenIntervals(pieces, i, now).error)
    ensures TokenIntervals(pieces, i, now).Success? ==> r == Success(intervals + TokenIntervals(pieces, i, now).value)
  {
    var result := intervals;
    ghost var results := TokenResults(pieces, i, now);
    ghost var added: seq<Span> := [];
    for k := 0 to |pieces|
      invariant Collect(results[..k]) == Success(added)
      invariant result == intervals + added
    {
      assert results[..k + 1][..k] == results[..k];
      // validation has already resolved every piece
      var span := StringToInterval(pieces[k]).value;
      var interval := NewInterval(WithDayOfWeek(TodayStart(now) + span.start, i),
                                  WithDayOfWeek(TodayStart(now) + span.end, i));
      assert results[k] == interval;
      if interval.Failure? {
        CollectFailsFrom(results, k + 1);
        return Failure(interval.error);
      }
      result := result + [interval.value];
      added := added + [interval.value];
    }
    assert results[..|pieces|] == results;
    r := Success(result);
  }

  /** A valid day matches one of the three patterns the export tries, and a comma list has only pieces that resolve. */
  lemma ValidEntryShape(entry: string)
    requires IsValid(entry)
    ensures MatchesIntervals(entry) || entry == AllDay || entry == Disabled
    ensures MatchesIntervals(entry) ==> AllResolve(SplitCommas(entry))
  {
    ValidIff(entry);
    LiteralsAreNotIntervals();
  }

  // ---------------------------------------------------------------------------
  // What the export computes
  // ---------------------------------------------------------------------------

  /**
   * On pieces that all resolve, a comma list either yields one interval per
   * piece, each starting no later than it ends, or fails because an Interval
   * would end before it starts.
   */
  lemma TokenIntervalsValid(pieces: seq<string>, i: int, now: Instant)
    requires AllResolve(pieces)
    ensures TokenIntervals(pieces, i, now).Failure? ==> TokenIntervals(pieces, i, now).error == EndBeforeStart
    ensures TokenIntervals(pieces, i, now).Success? ==>
      |TokenIntervals(pieces, i, now).value| == |pieces| && Ordered(TokenIntervals(pieces, i, now).value)
  {
    var rs := TokenResults(pieces, i, now);
    CollectIff(rs);
    if Collect(rs).Failure? {
      CollectFirstFailure(rs);
      var k :| 0 <= k < |rs| && rs[k].Failure? && Collect(rs).error == rs[k].error &&
               (forall j :: 0 <= j < k ==> rs[j].Success?);
      assert StringToInterval(pieces[k]).Success?;
    }
  }

  /**
   * On a valid entry the export never reaches its IllegalStateException: a day
   * either yields intervals that start no later than they end, or fails because
   * an Interval would end before it starts.
   */
  lemma ValidDayIntervals(entry: string, i: int, now: Instant)
    requires IsValid(entry)
    ensures DayIntervals(entry, i, now).Failure? ==> DayIntervals(entry, i, now).error == EndBeforeStart
    ensures DayIntervals(entry, i, now).Success? ==> Ordered(DayIntervals(entry, i, now).value)
    ensures entry == Disabled ==> DayIntervals(entry, i, now) == Success([])
    ensures entry == AllDay ==> DayIntervals(entry, i, now) == Success([AllDayInterval(i, now)])
  {
    ValidEntryShape(entry);
    LiteralsAreNotIntervals();
    if MatchesIntervals(entry) {
      TokenIntervalsValid(SplitCommas(entry), i, now);
    }
  }

  lemma OrderedConcat(a: seq<Span>, b: seq<Span>)
    requires Ordered(a) && Ordered(b)
    ensures Ordered(a + b)
  {
    assert forall k :: |a| <= k < |a + b| ==> (a + b)[k] == b[k - |a|];
  }

  /** Lists of ordered spans flatten to an ordered list. */
  lemma {:induction false} FlattenOrdered(days: seq<seq<Span>>)
    requires forall k :: 0 <= k < |days| ==> Ordered(days[k])
    ensures Ordered(Flatten(days))
  {
    if days != [] {
      var init := days[..|days| - 1];
      assert forall k :: 0 <= k < |init| ==> init[k] == days[k];
      FlattenOrdered(init);
      OrderedConcat(Flatten(init), days[|days| - 1]);
    }
  }

  /** The week's intervals exist exactly when every day's do. */
  lemma WeekIntervalsIff(config: seq<string>, now: Instant)
    ensures WeekIntervals(config, now).Success? <==> forall d :: 1 <= d <= |config| ==> DaySucceeds(config, d, now)
  {
    var rs := DayResults(config, now);
    DayResultsAll(config, now);
    CollectIff(rs);
    if forall d :: 1 <= d <= |config| ==> DaySucceeds(config, d, now) {
      forall k | 0 <= k < |rs|
        ensures rs[k].Success?
      {
        assert DaySucceeds(config, k + 1, now);
      }
    }
  }

  /** The step of a valid day fails only with EndBeforeStart and otherwise yields ordered spans. */
  lemma ValidDayStep(config: seq<string>, now: Instant, k: int)
    requires 0 <= k < |config| && IsValid(config[k])
    ensures DayResults(config, now)[k].Failure? ==> DayResults(config, now)[k].error == EndBeforeStart
    ensures DayResults(config, now)[k].Success? ==> Ordered(DayResults(config, now)[k].value)
  {
    DayResultsAt(config, now, k);
    ValidDayIntervals(config[k], k + 1, now);
  }

  /** On a week of valid entries the export fails only with an Interval whose end comes first, never with IllegalState. */
  lemma WeekIntervalsError(config: seq<string>, now: Instant)
    requires forall k :: 0 <= k < |config| ==> IsValid(config[k])
    ensures WeekIntervals(config, now).Failure? ==> WeekIntervals(config, now).error == EndBeforeStart
  {
    var rs := DayResults(config, now);
    if Collect(rs).Failure? {
      CollectFirstFailure(rs);
      var k :| 0 <= k < |rs| && rs[k].Failure? && Collect(rs).error == rs[k].error &&
               (forall j :: 0 <= j < k ==> rs[j].Success?);
      ValidDayStep(config, now, k);
    }
  }

  /** On a week of valid entries every interval of the export starts no later than it ends. */
  lemma WeekIntervalsOrdered(config: seq<string>, now: Instant)
    requires forall k :: 0 <= k < |config| ==> IsValid(config[k])
    ensures WeekIntervals(config, now).Success? ==> Ordered(WeekIntervals(config, now).value)
  {
    var rs := DayResults(config, now);
    forall k | 0 <= k < |rs| && rs[k].Success?
      ensures Ordered(rs[k].value)
    {
      ValidDayStep(config, now, k);
    }
    CollectOrdered(rs);
  }

  /** Steps that each yield ordered spans collect and flatten to ordered spans. */
  lemma CollectOrdered(rs: seq<Result<seq<Span>>>)
    requires forall k :: 0 <= k < |rs| && rs[k].Success? ==> Ordered(rs[k].value)
    ensures Collect(rs).Success? ==> Ordered(Flatten(Collect(rs).value))
  {
    if Collect(rs).Success? {
      CollectIff(rs);
      FlattenOrdered(Collect(rs).value);
    }
  }

  /** Java's division of a non-negative multiple of 1000 by 1000 is exact. */
  lemma ExactSeconds(x: int)
    requires x >= 0
    ensures ToSeconds(x * SecondMs) == x
  {
  }

  /** Truncating division keeps the order of its operands. */
  lemma ToSecondsMonotone(a: int, b: int)
    requires a <= b
    ensures ToSeconds(a) <= ToSeconds(b)
  {
    if a < 0 && b >= 0 {
      assert ToSeconds(a) <= 0 <= ToSeconds(b);
    } else if a < 0 {
      assert (-b) / SecondMs <= (-a) / SecondMs;
    }
  }

  /** An invalid week is rejected by validation, with validation's error, before anything is computed. */
  lemma ExportRejectsInvalid(config: seq<string>, now: Instant)
    ensures !IsValidWeek(config) ==> ValidateWeek(config).Fail? && Export(config, now) == Failure(ValidateWeek(config).error)
    ensures !IsValidWeek(config) && |config| != 7 ==> Export(config, now) == Failure(WrongLength)
  {
    ValidateWeekIff(config);
  }

  /** The export succeeds exactly on a valid week whose every day yields its intervals. */
  lemma ExportIff(config: seq<string>, now: Instant)
    ensures Export(config, now).Success? <==> IsValidWeek(config) && forall d :: 1 <= d <= 7 ==> DaySucceeds(config, d, now)
  {
    ValidateWeekIff(config);
    WeekIntervalsIff(config, now);
  }

  /**
   * On a valid week the IllegalStateException is unreachable: the export either
   * fails because an Interval would end before it starts, or writes one
   * {start, end} pair per interval with start no later than end.
   */
  lemma ExportOfValidWeek(config: seq<string>, now: Instant)
    requires IsValidWeek(config)
    ensures Export(config, now).Failure? ==> Export(config, now).error == EndBeforeStart
    ensures Export(config, now).Success? ==>
      forall k :: 0 <= k < |Export(config, now).value| ==> Export(config, now).value[k].start <= Export(config, now).value[k].end
  {
    ValidateWeekIff(config);
    WeekIntervalsError(config, now);
    WeekIntervalsOrdered(config, now);
    if Export(config, now).Success? {
      var intervals := WeekIntervals(config, now).value;
      var monday := MondayStart(now);
      forall k | 0 <= k < |intervals|
        ensures PeriodOf(intervals[k], monday).start <= PeriodOf(intervals[k], monday).end
      {
        ToSecondsMonotone(intervals[k].start - monday, intervals[k].end - monday);
      }
    }
  }

  // ---------------------------------------------------------------------------
  // Where the intervals land
  // ---------------------------------------------------------------------------

  /** For a valid now, Monday 00:00 of the current week is the origin of the week-relative clock. */
  lemma MondayIsOrigin(now: Instant)
    requires now.Valid()
    ensures MondayStart(now) == 0
  {
    StartOfWeekDay(now, 1);
  }

  /** "*" on day i is written as day i's first second to its last: ((i - 1) * 86400, i * 86400 - 1). */
  lemma AllDayPeriod(i: int, now: Instant)
    requires now.Valid() && 1 <= i <= 7
    ensures PeriodOf(AllDayInterval(i, now), MondayStart(now)) == Period((i - 1) * 86400, i * 86400 - 1)
  {
    MondayIsOrigin(now);
    StartOfWeekDay(now, i);
    ExactSeconds((i - 1) * 86400);
    ExactSeconds(i * 86400 - 1);
  }

  /**
   * Where one interval of a comma list lands on day i. A span that ends before
   * midnight keeps its times of day. One that ends at the next midnight has
   * that end moved to day i of the week the midnight is in: next week when
   * today is Sunday, otherwise this week, where it can precede the start.
   */
  lemma TokenPlacement(piece: string, i: int, now: Instant)
    requires now.Valid() && 1 <= i <= 7 && StringToInterval(piece).Success?
    ensures StringToInterval(piece).value.end < DayMs ==>
      TokenInterval(piece, i, now) ==
        Success(Span((i - 1) * DayMs + StringToInterval(piece).value.start, (i - 1) * DayMs + StringToInterval(piece).value.end))
    ensures StringToInterval(piece).value.end == DayMs && now.dayOfWeek == 7 ==>
      TokenInterval(piece, i, now) ==
        Success(Span((i - 1) * DayMs + StringToInterval(piece).value.start, WeekMs + (i - 1) * DayMs))
    ensures StringToInterval(piece).value.end == DayMs && now.dayOfWeek < 7 && StringToInterval(piece).value.start == 0 ==>
      TokenInterval(piece, i, now) == Success(Span((i - 1) * DayMs, (i - 1) * DayMs))
    ensures StringToInterval(piece).value.end == DayMs && now.dayOfWeek < 7 && StringToInterval(piece).value.start > 0 ==>
      TokenInterval(piece, i, now) == Failure(EndBeforeStart)
  {
    var sp := StringToInterval(piece).value;
    StartOfWeekDay(now, i);
    var today := now.dayOfWeek;
    assert TodayStart(now) == (today - 1) * DayMs;
    SameWeekDay(today, sp.start, i);
    if sp.end < DayMs {
      SameWeekDay(today, sp.end, i);
    } else if today == 7 {
      assert TodayStart(now) + sp.end == WeekMs;
      NextWeekDay(i);
    } else {
      assert TodayStart(now) + sp.end == (today + 1 - 1) * DayMs + 0;
      SameWeekDay(today + 1, 0, i);
    }
  }

  // ---------------------------------------------------------------------------
  // Weeks with the same entry on every day (copyForAllDays)
  // ---------------------------------------------------------------------------

  /** A single interval is a comma list of one piece, so its day holds that one interval or fails with it. */
  lemma SingleDay(s: string, d: int, now: Instant)
    requires MatchInterval(s).Some?
    ensures TokenInterval(s, d, now).Success? ==> DayIntervals(s, d, now) == Success([TokenInterval(s, d, now).value])
    ensures TokenInterval(s, d, now).Failure? ==> DayIntervals(s, d, now) == Failure(TokenInterval(s, d, now).error)
  {
    MatchHasNoComma(s);
    SplitPlain(s);
    assert MatchesIntervals(s);
    var rs := TokenResults([s], d, now);
    assert rs[..0] == [] && rs[0] == TokenInterval(s, d, now);
    assert Collect(rs[..0]) == Success([]);
    assert DayIntervals(s, d, now) == Collect(rs);
    if rs[0].Success? {
      var none: seq<Span> := [];
      assert Collect(rs) == Success(none + [rs[0].value]);
      assert none + [rs[0].value] == [rs[0].value];
    }
  }

  /** Lists of one span each flatten to those spans. */
  lemma {:induction false} FlattenSingletons(days: seq<seq<Span>>)
    requires forall k :: 0 <= k < |days| ==> |days[k]| == 1
    ensures |Flatten(days)| == |days| && forall k :: 0 <= k < |days| ==> Flatten(days)[k] == days[k][0]
  {
    if days != [] {
      var init := days[..|days| - 1];
      assert forall k :: 0 <= k < |init| ==> init[k] == days[k];
      FlattenSingletons(init);
    }
  }

  /** A week that repeats one single interval yields, day k + 1 at index k, that interval placed on each day. */
  lemma UniformWeek(s: string, now: Instant)
    requires MatchInterval(s).Some?
    ensures WeekIntervals(Repeat(s, 7), now).Success? <==> forall d :: 1 <= d <= 7 ==> TokenInterval(s, d, now).Success?
    ensures WeekIntervals(Repeat(s, 7), now).Success? ==>
      |WeekIntervals(Repeat(s, 7), now).value| == 7 &&
      forall k :: 0 <= k < 7 ==> WeekIntervals(Repeat(s, 7), now).value[k] == TokenInterval(s, k + 1, now).value
  {
    var rs := DayResults(Repeat(s, 7), now);
    DayResultsAll(Repeat(s, 7), now);
    forall k | 0 <= k < 7
      ensures TokenInterval(s, k + 1, now).Success? ==> rs[k] == Success([TokenInterval(s, k + 1, now).value])
      ensures TokenInterval(s, k + 1, now).Failure? ==> rs[k].Failure?
    {
      SingleDay(s, k + 1, now);
    }
    CollectIff(rs);
    if forall d :: 1 <= d <= 7 ==> TokenInterval(s, d, now).Success? {
      forall k | 0 <= k < 7
        ensures rs[k].Success?
      {
        assert TokenInterval(s, k + 1, now).Success?;
      }
      FlattenSingletons(Collect(rs).value);
    } else {
      var d :| 1 <= d <= 7 && TokenInterval(s, d, now).Failure?;
      assert rs[d - 1].Failure?;
    }
  }

  /**
   * A week that repeats one single interval exports one pair per day, day k + 1
   * at index k, exactly when the interval can be placed on every day; otherwise
   * it fails with an end before a start.
   */
  lemma UniformExport(s: string, now: Instant)
    requires now.Valid() && MatchInterval(s).Some? && StringToInterval(s).Success?
    ensures Export(Repeat(s, 7), now).Success? <==> forall d :: 1 <= d <= 7 ==> TokenInterval(s, d, now).Success?
    ensures Export(Repeat(s, 7), now).Success? ==>
      |Export(Repeat(s, 7), now).value| == 7 &&
      forall k :: 0 <= k < 7 ==> Export(Repeat(s, 7), now).value[k] == PeriodOf(TokenInterval(s, k + 1, now).value, 0)
    ensures Export(Repeat(s, 7), now).Failure? ==> Export(Repeat(s, 7), now).error == EndBeforeStart
  {
    var config := Repeat(s, 7);
    ValidateSingle(s);
    assert IsValidWeek(config);
    ValidateWeekIff(config);
    ExportOfValidWeek(config, now);
    MondayIsOrigin(now);
    UniformWeek(s, now);
  }

  /** copyForAllDays("09-17"): day k + 1 is open from 09:00 to 17:00, i.e. seconds k * 86400 + 32400 to k * 86400 + 61200. */
  lemma NineToFiveExport(now: Instant)
    requires now.Valid()
    ensures Export(Repeat("09-17", 7), now).Success?
    ensures |Export(Repeat("09-17", 7), now).value| == 7
    ensures forall k :: 0 <= k < 7 ==>
      Export(Repeat("09-17", 7), now).value[k] == Period(k * 86400 + 32400, k * 86400 + 61200)
  {
    var s := "09-17";
    NineToFiveToken();
    forall d | 1 <= d <= 7 ensures TokenInterval(s, d, now).Success? {
      NineToFiveDay(d - 1, now);
    }
    UniformExport(s, now);
    forall k | 0 <= k < 7
      ensures PeriodOf(TokenInterval(s, k + 1, now).value, 0) == Period(k * 86400 + 32400, k * 86400 + 61200)
    {
      NineToFiveDay(k, now);
    }
  }

  lemma NineToFiveToken()
    ensures MatchInterval("09-17").Some? && StringToInterval("09-17") == Success(Span(32400000, 61200000))
  {
    ResolvesAs("09-17", IntervalGroups(ClockGroups(9, None), ClockGroups(17, None)));
  }

  /** Day k + 1 of a "09-17" week, placed and written out in seconds. */
  lemma NineToFiveDay(k: int, now: Instant)
    requires now.Valid() && 0 <= k < 7
    ensures TokenInterval("09-17", k + 1, now) == Success(Span(k * DayMs + 32400000, k * DayMs + 61200000))
    ensures PeriodOf(TokenInterval("09-17", k + 1, now).value, 0) == Period(k * 86400 + 32400, k * 86400 + 61200)
  {
    NineToFiveToken();
    TokenPlacement("09-17", k + 1, now);
    assert k * DayMs + 32400000 == (k * 86400 + 32400) * SecondMs;
    assert k * DayMs + 61200000 == (k * 86400 + 61200) * SecondMs;
    ExactSeconds(k * 86400 + 32400);
    ExactSeconds(k * 86400 + 61200);
  }

  /**
   * copyForAllDays("01-00"): the end is next midnight, which lands on day i of
   * next week when today is Sunday and on day i 00:00 of this week otherwise,
   * before the 01:00 start. So the export succeeds only on a Sunday, with day
   * k + 1 running from k * 86400 + 3600 to (k + 7) * 86400.
   */
  lemma OneToMidnightExport(now: Instant)
    requires now.Valid()
    ensures Export(Repeat("01-00", 7), now).Success? <==> now.dayOfWeek == 7
    ensures now.dayOfWeek == 7 ==>
      |Export(Repeat("01-00", 7), now).value| == 7 &&
      forall k :: 0 <= k < 7 ==> Export(Repeat("01-00", 7), now).value[k] == Period(k * 86400 + 3600, (k + 7) * 86400)
    ensures now.dayOfWeek < 7 ==> Export(Repeat("01-00", 7), now) == Failure(EndBeforeStart)
  {
    if now.dayOfWeek == 7 {
      OneToMidnightOnSunday(now);
    } else {
      OneToMidnightToken();
      UniformExport("01-00", now);
      TokenPlacement("01-00", 1, now);
    }
  }

  lemma OneToMidnightOnSunday(now: Instant)
    requires now.Valid() && now.dayOfWeek == 7
    ensures Export(Repeat("01-00", 7), now).Success?
    ensures |Export(Repeat("01-00", 7), now).value| == 7
    ensures forall k :: 0 <= k < 7 ==> Export(Repeat("01-00", 7), now).value[k] == Period(k * 86400 + 3600, (k + 7) * 86400)
  {
    var s := "01-00";
    OneToMidnightToken();
    forall d | 1 <= d <= 7 ensures TokenInterval(s, d, now).Success? {
      OneToMidnightSunday(d - 1, now);
    }
    UniformExport(s, now);
    forall k | 0 <= k < 7
      ensures PeriodOf(TokenInterval(s, k + 1, now).value, 0) == Period(k * 86400 + 3600, (k + 7) * 86400)
    {
      OneToMidnightSunday(k, now);
    }
  }

  lemma OneToMidnightToken()
    ensures MatchInterval("01-00").Some? && StringToInterval("01-00") == Success(Span(HourMs, DayMs))
  {
    ResolvesAs("01-00", IntervalGroups(ClockGroups(1, None), ClockGroups(0, None)));
  }

  /** Day k + 1 of a "01-00" week exported on a Sunday: the end lands on the same day of next week. */
  lemma OneToMidnightSunday(k: int, now: Instant)
    requires now.Valid() && now.dayOfWeek == 7 && 0 <= k < 7
    ensures TokenInterval("01-00", k + 1, now) == Success(Span(k * DayMs + HourMs, WeekMs + k * DayMs))
    ensures PeriodOf(TokenInterval("01-00", k + 1, now).value, 0) == Period(k * 86400 + 3600, (k + 7) * 86400)
  {
    OneToMidnightToken();
    TokenPlacement("01-00", k + 1, now);
    assert k * DayMs + HourMs == (k * 86400 + 3600) * SecondMs;
    assert WeekMs + k * DayMs == ((k + 7) * 86400) * SecondMs;
    ExactSeconds(k * 86400 + 3600);
    ExactSeconds((k + 7) * 86400);
  }

  /** copyForAllDays("00-00:30") is rejected by validation: an end at hour 00 may not carry minutes. */
  lemma MidnightWithMinutesExport(now: Instant)
    ensures Export(Repeat("00-00:30", 7), now) == Failure(MidnightWithMinutes)
  {
    var s := "00-00:30";
    RejectedValues(s);
    var config := Repeat(s, 7);
    assert config[0] == s;
    assert ValidateWeek(config) == Fail(MidnightWithMinutes);
  }

  /** copyForAllDays("*"): day k + 1 is written as its first second to its last, k * 86400 to (k + 1) * 86400 - 1. */
  lemma AllDayWeekExport(now: Instant)
    requires now.Valid()
    ensures Export(Repeat(AllDay, 7), now).Success?
    ensures |Export(Repeat(AllDay, 7), now).value| == 7
    ensures forall k :: 0 <= k < 7 ==> Export(Repeat(AllDay, 7), now).value[k] == Period(k * 86400, (k + 1) * 86400 - 1)
  {
    var config := Repeat(AllDay, 7);
    LiteralsAreNotIntervals();
    assert IsValidWeek(config);
    ValidateWeekIff(config);
    var rs := DayResults(config, now);
    DayResultsAll(config, now);
    forall k | 0 <= k < 7
      ensures rs[k] == Success([AllDayInterval(k + 1, now)])
    {
      ValidDayIntervals(config[k], k + 1, now);
    }
    CollectIff(rs);
    var days := Collect(rs).value;
    FlattenSingletons(days);
    forall k | 0 <= k < 7
      ensures PeriodOf(AllDayInterval(k + 1, now), MondayStart(now)) == Period(k * 86400, (k + 1) * 86400 - 1)
    {
      AllDayPeriod(k + 1, now);
    }
  }
}
