/**
 * HoursConfiguration: the day-string language of weekly allowed hours.
 *
 * A day string is "*" (allowed all day), "-" (disabled), or a comma list of
 * intervals `HH[:MM]-HH[:MM]`. A week is a sequence of 7 day strings, index 0
 * being Monday. This module recognises the grammar, resolves an interval to a
 * span of today (an end of 00 or 24 means next midnight), validates days and
 * weeks, prints an interval back, builds uniform weeks and answers whether a
 * given instant is allowed.
 */
module HoursConfiguration {
  import opened Base
  import opened Time
  import opened Text

  /** The only string matching ALL_DAY_REGEX `^\*$`. */
  const AllDay: string := "*"
  /** The only string matching DISABLED_DAY_REGEX `^-$`. */
  const Disabled: string := "-"

  // ---------------------------------------------------------------------------
  // Grammar: SINGLE_INTERVAL_REGEX `(\d{2})(:(\d{2}))?-(\d{2})(:(\d{2}))?`
  // ---------------------------------------------------------------------------

  /** The groups one `(\d{2})(:(\d{2}))?` half captures: an hour and, when present, minutes. */
  datatype ClockGroups = ClockGroups(hour: int, minute: Option<int>)

  /** The groups of a whole single-interval match. */
  datatype IntervalGroups = IntervalGroups(start: ClockGroups, end: ClockGroups)

  predicate ClockInRange(c: ClockGroups)
  {
    0 <= c.hour < 100 && (c.minute.Some? ==> 0 <= c.minute.value < 100)
  }

  predicate GroupsInRange(g: IntervalGroups)
  {
    ClockInRange(g.start) && ClockInRange(g.end)
  }

  /** The text a half with these groups consists of. */
  function ClockText(c: ClockGroups): string
    requires ClockInRange(c)
  {
    Pad2(c.hour) + (if c.minute.Some? then ":" + Pad2(c.minute.value) else "")
  }

  /** The text a single interval with these groups consists of: the language of the pattern. */
  function GroupsText(g: IntervalGroups): string
    requires GroupsInRange(g)
  {
    ClockText(g.start) + "-" + ClockText(g.end)
  }

  /** Reads `\d{2}(:\d{2})?` at the front of s, taking the minutes whenever they are there. */
  function ReadClock(s: string): Option<(ClockGroups, string)>
  {
    if |s| >= 2 && IsDigit(s[0]) && IsDigit(s[1]) then
      if |s| >= 5 && s[2] == ':' && IsDigit(s[3]) && IsDigit(s[4]) then
        Some((ClockGroups(Num2(s[0], s[1]), Some(Num2(s[3], s[4]))), s[5..]))
      else
        Some((ClockGroups(Num2(s[0], s[1]), None), s[2..]))
    else
      None
  }

  /**
   * SINGLE_INTERVAL_REGEX.matcher(s).matches(), with its groups. Taking the
   * optional minutes greedily loses no match: after two digits, a ':' can
   * continue neither to '-' nor to the end of the text.
   */
  function MatchInterval(s: string): Option<IntervalGroups>
  {
    match ReadClock(s)
    case None => None
    case Some((start, rest)) =>
      if rest != [] && rest[0] == '-' then
        match ReadClock(rest[1..])
        case None => None
        case Some((end, tail)) => if tail == [] then Some(IntervalGroups(start, end)) else None
      else None
  }

  lemma ReadClockText(s: string)
    requires ReadClock(s).Some?
    ensures ClockInRange(ReadClock(s).value.0)
    ensures s == ClockText(ReadClock(s).value.0) + ReadClock(s).value.1
  {
    Pad2OfNum2(s[0], s[1]);
    if |s| >= 5 && s[2] == ':' && IsDigit(s[3]) && IsDigit(s[4]) {
      Pad2OfNum2(s[3], s[4]);
      assert s == [s[0], s[1]] + ":" + [s[3], s[4]] + s[5..];
    } else {
      assert s == [s[0], s[1]] + s[2..];
    }
  }

  lemma ReadClockOfText(c: ClockGroups, rest: string)
    requires ClockInRange(c)
    requires rest == [] || rest[0] != ':'
    ensures ReadClock(ClockText(c) + rest) == Some((c, rest))
  {
    var s := ClockText(c) + rest;
    var h := Pad2(c.hour);
    if c.minute.Some? {
      var m := Pad2(c.minute.value);
      assert s == h + ":" + m + rest;
      assert s[0] == h[0] && s[1] == h[1] && s[2] == ':' && s[3] == m[0] && s[4] == m[1];
      assert s[5..] == rest;
    } else {
      assert s == h + rest;
      assert s[0] == h[0] && s[1] == h[1] && s[2..] == rest;
    }
  }

  /** The recognizer accepts exactly the texts of the pattern, and reads back the groups they were written from. */
  lemma MatchIntervalExact(s: string, g: IntervalGroups)
    ensures MatchInterval(s) == Some(g) <==> GroupsInRange(g) && s == GroupsText(g)
  {
    if MatchInterval(s) == Some(g) {
      MatchIntervalSound(s);
    }
    if GroupsInRange(g) && s == GroupsText(g) {
      MatchIntervalComplete(g);
    }
  }

  lemma MatchIntervalSound(s: string)
    requires MatchInterval(s).Some?
    ensures GroupsInRange(MatchInterval(s).value) && s == GroupsText(MatchInterval(s).value)
  {
    ReadClockText(s);
    var (start, rest) := ReadClock(s).value;
    var tail := rest[1..];
    ReadClockText(tail);
    var (end, empty) := ReadClock(tail).value;
    assert tail == ClockText(end);
    assert rest == "-" + tail;
    assert s == ClockText(start) + "-" + ClockText(end);
  }

  lemma MatchIntervalComplete(g: IntervalGroups)
    requires GroupsInRange(g)
    ensures MatchInterval(GroupsText(g)) == Some(g)
  {
    var s := GroupsText(g);
    var tail := ClockText(g.end);
    var rest := "-" + tail;
    assert s == ClockText(g.start) + rest;
    ReadClockOfText(g.start, rest);
    assert rest[1..] == tail + [];
    ReadClockOfText(g.end, []);
  }

  /** A single-interval match holds no comma. */
  lemma MatchHasNoComma(s: string)
    requires MatchInterval(s).Some?
    ensures ',' !in s
  {
    var g := MatchInterval(s).value;
    MatchIntervalExact(s, g);
    var a, b := ClockText(g.start), ClockText(g.end);
    assert ',' !in a && ',' !in b;
    assert s == a + "-" + b;
  }

  /** INTERVALS_REGEX `^I(,I)*$` for the single-interval pattern I: every comma piece is an interval. */
  predicate MatchesIntervals(s: string)
  {
    var pieces := SplitCommas(s);
    forall k :: 0 <= k < |pieces| ==> MatchInterval(pieces[k]).Some?
  }

  // ---------------------------------------------------------------------------
  // Resolution: stringToInterval
  // ---------------------------------------------------------------------------

  function MinutesOf(c: ClockGroups): int
  {
    if c.minute.Some? then c.minute.value else 0
  }

  /**
   * What a single interval can resolve to: whole minutes, a start today, and an
   * end no earlier than the start that is either later today (01:00 at the
   * earliest) or next midnight.
   */
  predicate TokenSpan(sp: Span)
  {
    && 0 <= sp.start < DayMs && sp.start % MinuteMs == 0
    && sp.start <= sp.end
    && (sp.end == DayMs || (HourMs <= sp.end < DayMs && sp.end % MinuteMs == 0))
  }

  /** The end hour Joda-Time is given: it has no hour 24, so 24 is mapped back to 0. */
  function EndHour(g: IntervalGroups): int
  {
    if g.end.hour == 24 then 0 else g.end.hour
  }

  /** Every field is one Joda-Time accepts: hours 0..23 (after the 24 mapping) and minutes 0..59. */
  predicate FieldsInRange(g: IntervalGroups)
  {
    0 <= g.start.hour < 24 && 0 <= MinutesOf(g.start) < 60 && 0 <= EndHour(g) < 24 && 0 <= MinutesOf(g.end) < 60
  }

  /** An end of 00 or 24 that carries non-zero minutes. */
  predicate MidnightEndWithMinutes(g: IntervalGroups)
  {
    EndHour(g) == 0 && MinutesOf(g.end) != 0
  }

  /** The start instant of today the groups name. */
  function StartMs(g: IntervalGroups): int
  {
    ClockMs(g.start.hour, MinutesOf(g.start))
  }

  /** The end instant: an end of 00 (or 24) is the start of the next day. */
  function EndMs(g: IntervalGroups): int
  {
    if EndHour(g) == 0 then DayMs else ClockMs(EndHour(g), MinutesOf(g.end))
  }

  /**
   * The resolution of matched groups to a span of today: a field out of range,
   * minutes on a midnight end and an end before the start are each rejected,
   * in that order, and anything else is the span from start to end.
   */
  function Resolve(g: IntervalGroups): (r: Result<Span>)
    ensures r.Success? <==> FieldsInRange(g) && !MidnightEndWithMinutes(g) && StartMs(g) <= EndMs(g)
    ensures !FieldsInRange(g) ==> r == Failure(FieldOutOfRange)
    ensures FieldsInRange(g) && MidnightEndWithMinutes(g) ==> r == Failure(MidnightWithMinutes)
    ensures FieldsInRange(g) && !MidnightEndWithMinutes(g) && EndMs(g) < StartMs(g) ==> r == Failure(EndBeforeStart)
    ensures r.Success? ==> r.value == Span(StartMs(g), EndMs(g)) && TokenSpan(r.value)
    ensures r.Success? ==> (r.value.end == DayMs <==> g.end.hour == 0 || g.end.hour == 24)
    ensures r.Success? && r.value.end != DayMs ==> r.value.end == ClockMs(g.end.hour, MinutesOf(g.end))
  {
    if !FieldsInRange(g) then
      Failure(FieldOutOfRange)
    else if MidnightEndWithMinutes(g) then
      Failure(MidnightWithMinutes)
    else
      ClockFields(g.start.hour, MinutesOf(g.start));
      ClockFields(EndHour(g), MinutesOf(g.end));
      if EndMs(g) < StartMs(g) then Failure(EndBeforeStart) else Success(Span(StartMs(g), EndMs(g)))
  }

  /** stringToInterval: the span of today a single interval denotes. */
  function StringToInterval(s: string): (r: Result<Span>)
    ensures r.Success? ==> MatchInterval(s).Some? && TokenSpan(r.value)
    ensures MatchInterval(s).None? ==> r == Failure(Malformed)
    ensures MatchInterval(s).Some? ==> r == Resolve(MatchInterval(s).value)
  {
    match MatchInterval(s)
    case None => Failure(Malformed)
    case Some(g) => Resolve(g)
  }

  // ---------------------------------------------------------------------------
  // Printing: intervalToString
  // ---------------------------------------------------------------------------

  /** One printed half: a two-digit hour, then `:MM` only when the minutes are not zero. */
  function InstantText(t: int): string
  {
    Pad2(HourOfDay(t)) + (if MinuteOfHour(t) != 0 then ":" + Pad2(MinuteOfHour(t)) else "")
  }

  /** The canonical text of a span. */
  function IntervalText(sp: Span): string
  {
    InstantText(sp.start) + "-" + InstantText(sp.end)
  }

  /** intervalToString, appending to a builder as the source does. */
  method IntervalToString(interval: Span) returns (text: string)
    ensures text == IntervalText(interval)
  {
    var result := "";
    result := result + Pad2(HourOfDay(interval.start));
    if MinuteOfHour(interval.start) != 0 {
      result := result + ":" + Pad2(MinuteOfHour(interval.start));
    }
    result := result + "-";
    result := result + Pad2(HourOfDay(interval.end));
    if MinuteOfHour(interval.end) != 0 {
      result := result + ":" + Pad2(MinuteOfHour(interval.end));
    }
    text := result;
  }

  function InstantGroups(t: int): ClockGroups
  {
    ClockGroups(HourOfDay(t), if MinuteOfHour(t) != 0 then Some(MinuteOfHour(t)) else None)
  }

  /** Printing a span is writing the pattern's text for these groups. */
  lemma IntervalTextGroups(sp: Span)
    ensures GroupsInRange(IntervalGroups(InstantGroups(sp.start), InstantGroups(sp.end)))
    ensures IntervalText(sp) == GroupsText(IntervalGroups(InstantGroups(sp.start), InstantGroups(sp.end)))
  {
  }

  /** Parsing the printed text of any span a single interval can denote gives that span back. */
  lemma PrintThenParse(sp: Span)
    requires TokenSpan(sp)
    ensures StringToInterval(IntervalText(sp)) == Success(sp)
  {
    var g := IntervalGroups(InstantGroups(sp.start), InstantGroups(sp.end));
    IntervalTextGroups(sp);
    MatchIntervalExact(IntervalText(sp), g);
    ClockOfFields(sp.start);
    if sp.end != DayMs {
      ClockOfFields(sp.end);
      assert 1 <= HourOfDay(sp.end);
    } else {
      assert HourOfDay(sp.end) == 0 && MinuteOfHour(sp.end) == 0;
    }
  }

  /** Printing after one parse is stable: re-parsing the printed token yields the same span and the same text. */
  lemma ParsePrintRoundTrip(s: string)
    requires StringToInterval(s).Success?
    ensures var sp := StringToInterval(s).value;
      && StringToInterval(IntervalText(sp)) == Success(sp)
      && IntervalText(StringToInterval(IntervalText(sp)).value) == IntervalText(sp)
  {
    PrintThenParse(StringToInterval(s).value);
  }

  /** A printed span is never one of the two literals and holds no comma. */
  lemma IntervalTextShape(sp: Span)
    ensures |IntervalText(sp)| >= 5 && ',' !in IntervalText(sp)
    ensures IntervalText(sp) != AllDay && IntervalText(sp) != Disabled
  {
  }

  // ---------------------------------------------------------------------------
  // Validation
  // ---------------------------------------------------------------------------

  /**
   * validate(String): a comma list of intervals is split and, when it has more
   * than one piece, each piece is validated recursively; a single interval must
   * resolve; otherwise only "-" and "*" are accepted.
   */
  function Validate(s: string): Outcome
    decreases |s|, 1, 0
  {
    if MatchesIntervals(s) then
      var chunks := SplitCommas(s);
      if |chunks| == 0 then Fail(Malformed)  // "Empty configuration": split yields at least one piece
      else if |chunks| > 1 then ValidateEach(chunks, |s|)
      else match StringToInterval(chunks[0])
        case Failure(e) => Fail(e)
        case Success(_) => Pass
    else if s != Disabled && s != AllDay then Fail(Malformed)
    else Pass
  }

  /** forEach(validate) over the pieces of a longer string: the first failure is thrown. */
  function ValidateEach(chunks: seq<string>, bound: nat): Outcome
    requires forall k :: 0 <= k < |chunks| ==> |chunks[k]| < bound
    decreases bound, 0, |chunks|
  {
    if chunks == [] then Pass
    else match Validate(chunks[0])
      case Fail(e) => Fail(e)
      case Pass => ValidateEach(chunks[1..], bound)
  }

  /** isValid(String): validate does not throw. */
  predicate IsValid(singleDayConfig: string)
  {
    Validate(singleDayConfig).Pass?
  }

  predicate AllResolve(pieces: seq<string>)
  {
    forall k :: 0 <= k < |pieces| ==> StringToInterval(pieces[k]).Success?
  }

  lemma ValidateSingle(p: string)
    requires MatchInterval(p).Some?
    ensures Validate(p).Pass? <==> StringToInterval(p).Success?
    ensures Validate(p).Fail? ==> Validate(p).error == StringToInterval(p).error
  {
    MatchHasNoComma(p);
    SplitPlain(p);
  }

  lemma {:induction false} ValidateEachIff(chunks: seq<string>, bound: nat)
    requires forall k :: 0 <= k < |chunks| ==> |chunks[k]| < bound
    requires forall k :: 0 <= k < |chunks| ==> MatchInterval(chunks[k]).Some?
    ensures ValidateEach(chunks, bound).Pass? <==> AllResolve(chunks)
  {
    if chunks != [] {
      ValidateSingle(chunks[0]);
      ValidateEachIff(chunks[1..], bound);
      assert forall k :: 1 <= k < |chunks| ==> chunks[1..][k - 1] == chunks[k];
    }
  }

  /** validate accepts exactly "*", "-" and comma lists whose every piece is an interval that resolves. */
  lemma ValidIff(s: string)
    ensures IsValid(s) <==> s == AllDay || s == Disabled || AllResolve(SplitCommas(s))
  {
    if MatchesIntervals(s) {
      LiteralsAreNotIntervals();
      ValidListIff(s);
    } else {
      NotListValidIff(s);
    }
  }

  /** A text of the interval-list pattern is valid exactly when every piece resolves. */
  lemma ValidListIff(s: string)
    requires MatchesIntervals(s)
    ensures IsValid(s) <==> AllResolve(SplitCommas(s))
  {
    var chunks := SplitCommas(s);
    assert MatchInterval(chunks[0]).Some?;
    MatchHasNoComma(chunks[0]);
    if |chunks| > 1 {
      ValidateEachIff(chunks, |s|);
    }
  }

  /** Outside the interval-list pattern only the literals are valid, and some piece does not resolve. */
  lemma NotListValidIff(s: string)
    requires !MatchesIntervals(s)
    ensures IsValid(s) <==> s == AllDay || s == Disabled
    ensures !AllResolve(SplitCommas(s))
  {
    var chunks := SplitCommas(s);
    var k :| 0 <= k < |chunks| && MatchInterval(chunks[k]).None?;
    assert StringToInterval(chunks[k]).Failure?;
  }

  /** A valid day is "*", "-", or the comma-join of texts of the pattern, each resolving. */
  lemma ValidDayShape(s: string)
    requires IsValid(s) && s != AllDay && s != Disabled
    ensures var pieces := SplitCommas(s);
      && s == JoinCommas(pieces)
      && forall k :: 0 <= k < |pieces| ==>
           var g := MatchInterval(pieces[k]).value;
           GroupsInRange(g) && pieces[k] == GroupsText(g) && Resolve(g).Success?
  {
    ValidIff(s);
    var pieces := SplitCommas(s);
    forall k | 0 <= k < |pieces|
      ensures var g := MatchInterval(pieces[k]).value;
           GroupsInRange(g) && pieces[k] == GroupsText(g) && Resolve(g).Success?
    {
      MatchIntervalExact(pieces[k], MatchInterval(pieces[k]).value);
    }
  }

  /** Joining intervals that each resolve gives a valid day. */
  lemma ValidTokenList(pieces: seq<string>)
    requires |pieces| >= 1 && AllResolve(pieces)
    ensures IsValid(JoinCommas(pieces))
  {
    forall k | 0 <= k < |pieces| ensures ',' !in pieces[k] {
      MatchHasNoComma(pieces[k]);
    }
    SplitJoin(pieces);
    ValidIff(JoinCommas(pieces));
  }

  /** Day strings the source's tests reject for their shape. */
  lemma RejectedShapes(s: string)
    requires s in ["", "hello-world", " *", "0-23", "00:23", "00-20;20-23"]
    ensures !IsValid(s)
  {
    if s == "00:23" {
      assert s[5..] == [];
    } else if s == "00-20;20-23" {
      assert s[2..] == "-20;20-23" && s[2..][1..] == "20;20-23" && s[2..][1..][2..] == ";20-23";
    }
    NotAnInterval(s);
  }

  /** A comma-free text that is not an interval and not a literal is invalid. */
  lemma NotAnInterval(s: string)
    requires ',' !in s && s != AllDay && s != Disabled
    requires MatchInterval(s).None?
    ensures !IsValid(s)
  {
    SplitPlain(s);
    ValidIff(s);
  }

  /** A comma inside an interval leaves pieces that are not intervals. */
  lemma RejectedCommaInside(s: string)
    requires s == "00,20-20,23"
    ensures !IsValid(s)
  {
    var a, b, c := "00", "20-20", "23";
    assert s == a + [','] + (b + [','] + c);
    SplitThree(a, b, c);
    assert MatchInterval(a).None?;
    NotValidWhenPieceFails(s, 0);
  }

  lemma SplitThree(a: string, b: string, c: string)
    requires ',' !in a && ',' !in b && ',' !in c
    ensures SplitCommas(a + [','] + (b + [','] + c)) == [a, b, c]
  {
    SplitPlain(c);
    SplitPrefix(b, c);
    SplitPrefix(a, b + [','] + c);
  }

  /** An end before the start, minutes on a midnight end and hours beyond the clock are rejected, each with its own error. */
  lemma RejectedValues(s: string)
    requires s in ["18-02", "00-00:30", "10-24:30", "25-26"]
    ensures s == "18-02" ==> Validate(s) == Fail(EndBeforeStart)
    ensures s == "00-00:30" || s == "10-24:30" ==> Validate(s) == Fail(MidnightWithMinutes)
    ensures s == "25-26" ==> Validate(s) == Fail(FieldOutOfRange)
  {
    if s == "18-02" {
      ResolvesAs(s, IntervalGroups(ClockGroups(18, None), ClockGroups(2, None)));
    } else if s == "00-00:30" {
      ResolvesAs(s, IntervalGroups(ClockGroups(0, None), ClockGroups(0, Some(30))));
    } else if s == "10-24:30" {
      ResolvesAs(s, IntervalGroups(ClockGroups(10, None), ClockGroups(24, Some(30))));
    } else {
      ResolvesAs(s, IntervalGroups(ClockGroups(25, None), ClockGroups(26, None)));
    }
  }

  lemma ParsesAs(s: string, g: IntervalGroups)
    requires GroupsInRange(g) && s == GroupsText(g)
    ensures StringToInterval(s) == Resolve(g)
  {
    MatchIntervalComplete(g);
  }

  lemma ResolvesAs(s: string, g: IntervalGroups)
    requires GroupsInRange(g) && s == GroupsText(g)
    ensures StringToInterval(s) == Resolve(g)
    ensures Resolve(g).Failure? ==> Validate(s) == Fail(Resolve(g).error)
    ensures Resolve(g).Success? ==> Validate(s) == Pass
  {
    MatchIntervalComplete(g);
    ValidateSingle(s);
  }

  lemma NotValidWhenPieceFails(s: string, k: int)
    requires s != AllDay && s != Disabled
    requires 0 <= k < |SplitCommas(s)| && StringToInterval(SplitCommas(s)[k]).Failure?
    ensures !IsValid(s)
  {
    ValidIff(s);
  }

  /** validate(String[]) and validate(Collection): exactly 7 entries, then each is validated in order. */
  function ValidateWeek(configuration: seq<string>): Outcome
  {
    if |configuration| != 7 then Fail(WrongLength) else ValidateDays(configuration)
  }

  function ValidateDays(days: seq<string>): Outcome
  {
    if days == [] then Pass
    else match Validate(days[0])
      case Fail(e) => Fail(e)
      case Pass => ValidateDays(days[1..])
  }

  /** isValid(String[]) and isValid(Collection): exactly 7 entries, all valid. */
  predicate IsValidWeek(configuration: seq<string>)
  {
    |configuration| == 7 && forall k :: 0 <= k < 7 ==> IsValid(configuration[k])
  }

  lemma {:induction false} ValidateDaysIff(days: seq<string>)
    ensures ValidateDays(days).Pass? <==> forall k :: 0 <= k < |days| ==> IsValid(days[k])
  {
    if days != [] {
      ValidateDaysIff(days[1..]);
      assert forall k :: 1 <= k < |days| ==> days[1..][k - 1] == days[k];
    }
  }

  /** The 7-wide validate passes exactly when the 7-wide isValid holds. */
  lemma ValidateWeekIff(configuration: seq<string>)
    ensures ValidateWeek(configuration).Pass? <==> IsValidWeek(configuration)
  {
    ValidateDaysIff(configuration);
  }

  // ---------------------------------------------------------------------------
  // Evaluation: isAllowedNow
  // ---------------------------------------------------------------------------

  /** Joda's Interval.contains: the end is excluded. */
  predicate Contains(sp: Span, t: int)
  {
    sp.start <= t < sp.end
  }

  /** t lies in sp with the end minute included. */
  predicate CoversMinute(sp: Span, t: int)
  {
    sp.start <= t && t / MinuteMs <= sp.end / MinuteMs
  }

  predicate TokenCovers(piece: string, t: int)
  {
    match StringToInterval(piece)
    case Success(sp) => CoversMinute(sp, t)
    case Failure(_) => false
  }

  /** The anyMatch over the pieces of a validated day: the end is widened by one minute before contains. */
  function AnyMatch(pieces: seq<string>, t: int): bool
    requires AllResolve(pieces)
  {
    if pieces == [] then false
    else
      var sp := StringToInterval(pieces[0]).value;
      Contains(Span(sp.start, sp.end + MinuteMs), t) || AnyMatch(pieces[1..], t)
  }

  /** Widening a whole-minute end by one minute includes exactly the end minute. */
  lemma InclusiveEndMinute(sp: Span, t: int)
    requires sp.end % MinuteMs == 0
    ensures Contains(Span(sp.start, sp.end + MinuteMs), t) <==> CoversMinute(sp, t)
  {
    var q, u := sp.end / MinuteMs, t / MinuteMs;
    assert sp.end == q * MinuteMs;
    assert u * MinuteMs <= t < u * MinuteMs + MinuteMs;
  }

  lemma {:induction false} AnyMatchIff(pieces: seq<string>, t: int)
    requires AllResolve(pieces)
    ensures AnyMatch(pieces, t) <==> exists k :: 0 <= k < |pieces| && TokenCovers(pieces[k], t)
  {
    if pieces != [] {
      InclusiveEndMinute(StringToInterval(pieces[0]).value, t);
      assert AllResolve(pieces[1..]) by {
        assert forall k :: 1 <= k < |pieces| ==> pieces[1..][k - 1] == pieces[k];
      }
      AnyMatchIff(pieces[1..], t);
      if AnyMatch(pieces[1..], t) {
        var k :| 0 <= k < |pieces[1..]| && TokenCovers(pieces[1..][k], t);
        assert TokenCovers(pieces[k + 1], t);
      }
      if exists k :: 0 <= k < |pieces| && TokenCovers(pieces[k], t) {
        var k :| 0 <= k < |pieces| && TokenCovers(pieces[k], t);
        if k > 0 {
          assert pieces[1..][k - 1] == pieces[k];
        }
      }
    }
  }

  lemma LiteralsAreNotIntervals()
    ensures !MatchesIntervals(AllDay) && !MatchesIntervals(Disabled)
    ensures IsValid(AllDay) && IsValid(Disabled)
  {
    SplitPlain(AllDay);
    SplitPlain(Disabled);
  }

  /**
   * isAllowedNow(String): the day string is validated first; "-" is never
   * allowed, "*" always is, and a comma list is allowed at t exactly when some
   * interval starts at or before t and ends in t's minute or later.
   */
  function IsAllowedNow(currentDayRules: string, millisOfDay: int): (r: Result<bool>)
    ensures r.Failure? <==> !IsValid(currentDayRules)
    ensures r.Failure? ==> r.error == Validate(currentDayRules).error
    ensures currentDayRules == Disabled ==> r == Success(false)
    ensures currentDayRules == AllDay ==> r == Success(true)
    ensures r.Success? && currentDayRules != AllDay && currentDayRules != Disabled ==>
      var pieces := SplitCommas(currentDayRules);
      (r.value <==> exists k :: 0 <= k < |pieces| && TokenCovers(pieces[k], millisOfDay))
  {
    match Validate(currentDayRules)
    case Fail(e) => Failure(e)
    case Pass =>
      LiteralsAreNotIntervals();
      if MatchesIntervals(currentDayRules) then
        ValidIff(currentDayRules);
        AnyMatchIff(SplitCommas(currentDayRules), millisOfDay);
        Success(AnyMatch(SplitCommas(currentDayRules), millisOfDay))
      else if currentDayRules == AllDay then Success(true)
      else if currentDayRules == Disabled then Success(false)
      else Success(false)  // logged as matching no grammar and treated as not allowed
  }

  /** getCurrentDayIndex: Monday is index 0. */
  function CurrentDayIndex(now: Instant): (i: int)
    requires now.Valid()
    ensures 0 <= i < 7 && i + 1 == now.dayOfWeek
  {
    now.dayOfWeek - 1
  }

  /** isAllowedNow(String[]) and isAllowedNow(List): exactly 7 entries, then today's entry alone is evaluated. */
  function IsAllowedNowWeek(configuration: seq<string>, now: Instant): (r: Result<bool>)
    requires now.Valid()
    ensures |configuration| != 7 ==> r == Failure(WrongLength)
    ensures |configuration| == 7 ==> r == IsAllowedNow(configuration[now.dayOfWeek - 1], now.millisOfDay)
  {
    if |configuration| != 7 then Failure(WrongLength)
    else
      var today := configuration[CurrentDayIndex(now)];
      assert today == configuration[now.dayOfWeek - 1];
      IsAllowedNow(today, now.millisOfDay)
  }

  /** Only today's entry is looked at: the other six need not even be valid. */
  lemma OnlyTodayMatters(a: seq<string>, b: seq<string>, now: Instant)
    requires now.Valid() && |a| == 7 && |b| == 7
    requires a[now.dayOfWeek - 1] == b[now.dayOfWeek - 1]
    ensures IsAllowedNowWeek(a, now) == IsAllowedNowWeek(b, now)
  {
  }

  /** A day holding a single interval allows exactly the instants that interval covers, end minute included. */
  lemma SingleIntervalAllowed(s: string, t: int)
    requires StringToInterval(s).Success?
    ensures IsAllowedNow(s, t) == Success(CoversMinute(StringToInterval(s).value, t))
  {
    MatchHasNoComma(s);
    SplitPlain(s);
    ValidIff(s);
    LiteralsAreNotIntervals();
  }

  /** A day holding a comma list allows exactly the instants some piece covers. */
  lemma ListAllowed(s: string, pieces: seq<string>, t: int)
    requires SplitCommas(s) == pieces && AllResolve(pieces)
    requires s != AllDay && s != Disabled
    ensures IsAllowedNow(s, t) == Success(exists k :: 0 <= k < |pieces| && TokenCovers(pieces[k], t))
  {
    ValidIff(s);
  }

  /** "00-00", "00-24" and "*" allow every instant of the day. */
  lemma MidnightEndsAllowWholeDay(s: string, t: int)
    requires s in [AllDay, "00-00", "00-24"]
    requires 0 <= t < DayMs
    ensures IsAllowedNow(s, t) == Success(true)
  {
    if s != AllDay {
      ParsesAs(s, IntervalGroups(ClockGroups(0, None), ClockGroups(if s == "00-00" then 0 else 24, None)));
      SingleIntervalAllowed(s, t);
    }
  }

  /** The minutes example: "10:37-12:45" allows from 10:37:00 up to, and excluding, 12:46:00. */
  lemma MinutesAllowed(t: int)
    ensures IsAllowedNow("10:37-12:45", t) == Success(ClockMs(10, 37) <= t < ClockMs(12, 46))
  {
    var s := "10:37-12:45";
    ParsesAs(s, IntervalGroups(ClockGroups(10, Some(37)), ClockGroups(12, Some(45))));
    SingleIntervalAllowed(s, t);
    InclusiveEndMinute(Span(ClockMs(10, 37), ClockMs(12, 45)), t);
  }

  /** Day strings the source's tests expect to allow 12:00. */
  lemma NoonAllowed(s: string)
    requires s in ["00-00", "00-24", "12-00", "11-13", "09-10,11-14,18-21"]
    ensures IsAllowedNow(s, ClockMs(12, 0)) == Success(true)
  {
    var t := ClockMs(12, 0);
    if s == "00-00" || s == "00-24" {
      MidnightEndsAllowWholeDay(s, t);
    } else if s == "12-00" {
      ParsesAs(s, IntervalGroups(ClockGroups(12, None), ClockGroups(0, None)));
      SingleIntervalAllowed(s, t);
    } else if s == "11-13" {
      ParsesAs(s, IntervalGroups(ClockGroups(11, None), ClockGroups(13, None)));
      SingleIntervalAllowed(s, t);
    } else {
      NoonAllowedList(s, "09-10", "11-14", "18-21");
    }
  }

  lemma NoonAllowedList(s: string, a: string, b: string, c: string)
    requires a == "09-10" && b == "11-14" && c == "18-21"
    requires s == a + [','] + (b + [','] + c)
    ensures IsAllowedNow(s, ClockMs(12, 0)) == Success(true)
  {
    NoonAllowedPieces(a, b, c);
    SplitThree(a, b, c);
    ListAllowed(s, [a, b, c], ClockMs(12, 0));
    assert TokenCovers([a, b, c][1], ClockMs(12, 0));
  }

  lemma NoonAllowedPieces(a: string, b: string, c: string)
    requires a == "09-10" && b == "11-14" && c == "18-21"
    ensures StringToInterval(a) == Success(Span(ClockMs(9, 0), ClockMs(10, 0)))
    ensures StringToInterval(b) == Success(Span(ClockMs(11, 0), ClockMs(14, 0)))
    ensures StringToInterval(c) == Success(Span(ClockMs(18, 0), ClockMs(21, 0)))
  {
    WholeHours(a, 9, 10);
    WholeHours(b, 11, 14);
    WholeHours(c, 18, 21);
  }

  /** A piece "HH-HH" of two whole hours, the end not midnight and not before the start, is that span of the day. */
  lemma WholeHours(s: string, startHour: int, endHour: int)
    requires 0 <= startHour <= endHour < 24 && endHour != 0
    requires s == GroupsText(IntervalGroups(ClockGroups(startHour, None), ClockGroups(endHour, None)))
    ensures StringToInterval(s) == Success(Span(ClockMs(startHour, 0), ClockMs(endHour, 0)))
  {
    ParsesAs(s, IntervalGroups(ClockGroups(startHour, None), ClockGroups(endHour, None)));
  }

  /** "10-11,13-15" does not allow 12:00. */
  lemma NoonExcluded(s: string)
    requires s == "10-11,13-15"
    ensures IsAllowedNow(s, ClockMs(12, 0)) == Success(false)
  {
    NoonExcludedList(s, "10-11", "13-15");
  }

  lemma NoonExcludedList(s: string, a: string, b: string)
    requires a == "10-11" && b == "13-15" && s == a + [','] + b
    ensures IsAllowedNow(s, ClockMs(12, 0)) == Success(false)
  {
    var t := ClockMs(12, 0);
    SplitPlain(b);
    SplitPrefix(a, b);
    NoonExcludedPieces(a, b);
    ListAllowed(s, [a, b], t);
    assert !TokenCovers([a, b][0], t) && !TokenCovers([a, b][1], t);
  }

  lemma NoonExcludedPieces(a: string, b: string)
    requires a == "10-11" && b == "13-15"
    ensures StringToInterval(a) == Success(Span(ClockMs(10, 0), ClockMs(11, 0)))
    ensures StringToInterval(b) == Success(Span(ClockMs(13, 0), ClockMs(15, 0)))
  {
    WholeHours(a, 10, 11);
    WholeHours(b, 13, 15);
  }

  /** The edge cases at 23:00: an interval ending at midnight and one ending at 23 both allow it. */
  lemma ElevenPmAllowed(s: string)
    requires s in ["23-00", "00-23"]
    ensures IsAllowedNow(s, ClockMs(23, 0)) == Success(true)
  {
    if s == "23-00" {
      ParsesAs(s, IntervalGroups(ClockGroups(23, None), ClockGroups(0, None)));
    } else {
      ParsesAs(s, IntervalGroups(ClockGroups(0, None), ClockGroups(23, None)));
    }
    SingleIntervalAllowed(s, ClockMs(23, 0));
  }

  /** A week of "11-13" allows 12:00 on every day. */
  lemma WeekAllowedAtNoon(now: Instant)
    requires now.Valid() && now.millisOfDay == ClockMs(12, 0)
    ensures IsAllowedNowWeek(seq(7, _ => "11-13"), now) == Success(true)
  {
    var week := seq(7, _ => "11-13");
    assert week[now.dayOfWeek - 1] == "11-13";
    NoonAllowed("11-13");
  }

  // ---------------------------------------------------------------------------
  // Building weeks: copyForAllDays, copyForWeekdays
  // ---------------------------------------------------------------------------

  /** new String[7] filled with s. */
  method FillWeek(s: string) returns (result: array<string>)
    ensures fresh(result) && result.Length == 7
    ensures forall k :: 0 <= k < 7 ==> result[k] == s
  {
    result := new string[7](_ => s);
  }

  /** copyForAllDays: a valid day repeated on all 7 days; an invalid day is rejected. */
  method CopyForAllDays(singleDayConfig: string) returns (r: Result<seq<string>>)
    ensures r.Success? <==> IsValid(singleDayConfig)
    ensures r.Failure? ==> r.error == Validate(singleDayConfig).error
    ensures r.Success? ==> |r.value| == 7 && forall k :: 0 <= k < 7 ==> r.value[k] == singleDayConfig
    ensures r.Success? ==> IsValidWeek(r.value)
  {
    var v := Validate(singleDayConfig);
    if v.Fail? {
      return Failure(v.error);
    }
    var result := FillWeek(singleDayConfig);
    r := Success(result[..]);
  }

  /** copyForWeekdays: the valid day on Monday to Friday, "-" on Saturday and Sunday. */
  method CopyForWeekdays(weekdayConfig: string) returns (r: Result<seq<string>>)
    ensures r.Success? <==> IsValid(weekdayConfig)
    ensures r.Failure? ==> r.error == Validate(weekdayConfig).error
    ensures r.Success? ==> |r.value| == 7 && forall k :: 0 <= k < 5 ==> r.value[k] == weekdayConfig
    ensures r.Success? ==> r.value[5] == Disabled && r.value[6] == Disabled
    ensures r.Success? ==> IsValidWeek(r.value)
  {
    var v := Validate(weekdayConfig);
    if v.Fail? {
      return Failure(v.error);
    }
    // copyForAllDays validates again and cannot fail here; its array is then overwritten
    var result := FillWeek(weekdayConfig);
    result[5] := Disabled;
    result[6] := Disabled;
    LiteralsAreNotIntervals();
    r := Success(result[..]);
  }
}
