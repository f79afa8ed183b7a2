/**
 * FrontendHoursFormat: conversion between a week of day strings and the
 * frontend's list of `{days, range}` entries, where `days` holds day numbers
 * (1 = Monday) and `range` is "*" or a single interval.
 *
 * Decoding (toHoursConfig) collects, per day, the spans of the entries that
 * list it, rejecting a span that overlaps one already there, then writes each
 * day back as "-", "*" or a comma list. Encoding (fromHoursConfig) groups the
 * single intervals of a week by the days that contain them.
 */
module FrontendHoursFormat {
  import opened Base
  import opened Time
  import opened Text
  import opened HoursConfiguration

  /** One element of the frontend JSON array; a missing key is None. */
  datatype Entry = Entry(days: Option<seq<int>>, range: Option<string>)

  /** The span "*" stands for: today's midnight to the last millisecond of today. */
  const AllDaySpan: Span := Span(0, DayMs - 1)

  /** Joda's Interval.overlaps: the two half-open intervals share an instant. */
  predicate Overlaps(a: Span, b: Span)
  {
    a.start < b.end && b.start < a.end
  }

  /** A span a range can stand for: the whole-day span or what a single interval resolves to. */
  predicate RangeSpan(sp: Span)
  {
    sp == AllDaySpan || TokenSpan(sp)
  }

  /** The whole-day span shares an instant with every span a range can stand for. */
  lemma AllDayOverlaps(sp: Span)
    requires RangeSpan(sp)
    ensures Overlaps(sp, AllDaySpan) && Overlaps(AllDaySpan, sp)
  {
  }

  /** The span of an entry's range: "*" first, then a single interval; anything else is malformed. */
  function RangeInterval(range: string): (r: Result<Span>)
    ensures r.Success? <==> range == AllDay || StringToInterval(range).Success?
    ensures r.Success? ==> RangeSpan(r.value) && (r.value == AllDaySpan <==> range == AllDay)
    ensures MatchInterval(range).None? && range != AllDay ==> r == Failure(MalformedRange)
  {
    if range == AllDay then Success(AllDaySpan)
    else if MatchInterval(range).Some? then StringToInterval(range)
    else Failure(MalformedRange)
  }

  /** "-" and comma lists are not ranges. */
  lemma NonRangesRejected(range: string)
    requires range == Disabled || ',' in range
    ensures RangeInterval(range) == Failure(MalformedRange)
  {
    if MatchInterval(range).Some? {
      MatchHasNoComma(range);
      LiteralsAreNotIntervals();
      SplitPlain(range);
    }
  }

  // ---------------------------------------------------------------------------
  // Decoding, step by step: the 7 per-day lists ([] stands for a null slot)
  // ---------------------------------------------------------------------------

  function EmptySlots(): (slots: seq<seq<Span>>)
    ensures |slots| == 7 && forall d :: 0 <= d < 7 ==> slots[d] == []
  {
    seq(7, _ => [])
  }

  /** The overlap filter of one day's list is not empty. */
  predicate OverlapsAny(sp: Span, existing: seq<Span>)
  {
    exists k :: 0 <= k < |existing| && Overlaps(sp, existing[k])
  }

  /** Adding a span to day `day`: an unknown day is out of bounds, an overlap is rejected, otherwise the span is appended. */
  function AddToDay(slots: seq<seq<Span>>, day: int, sp: Span): (r: Result<seq<seq<Span>>>)
    requires |slots| == 7
    ensures r.Success? ==> |r.value| == 7
  {
    if !(1 <= day <= 7) then Failure(DayOutOfRange)
    else if OverlapsAny(sp, slots[day - 1]) then Failure(Overlap)
    else Success(slots[day - 1 := slots[day - 1] + [sp]])
  }

  /**
   * days.forEach: the span is added to each listed day in turn. AddToDaysIff
   * states when this succeeds and that day d then holds the span once per
   * time d is listed.
   */
  function AddToDays(slots: seq<seq<Span>>, days: seq<int>, sp: Span): (r: Result<seq<seq<Span>>>)
    requires |slots| == 7
    ensures r.Success? ==> |r.value| == 7
    decreases |days|
  {
    if days == [] then Success(slots)
    else
      var next :- AddToDay(slots, days[0], sp);
      AddToDays(next, days[1..], sp)
  }

  /** One entry: both keys must be present and the range must be valid before any day is touched. */
  function AddEntry(slots: seq<seq<Span>>, e: Entry): (r: Result<seq<seq<Span>>>)
    requires |slots| == 7
    ensures r.Success? ==> |r.value| == 7
  {
    if e.days.None? then Failure(MissingDays)
    else if e.range.None? then Failure(MissingRange)
    else
      var sp :- RangeInterval(e.range.value);
      AddToDays(slots, e.days.value, sp)
  }

  /**
   * hours.forEach: the entries in order; the first failure ends the decoding.
   * AccumulateIff states that this succeeds exactly when the entries Fit, and
   * that the result is then what each day Received.
   */
  function Accumulate(slots: seq<seq<Span>>, hours: seq<Entry>): (r: Result<seq<seq<Span>>>)
    requires |slots| == 7
    ensures r.Success? ==> |r.value| == 7
    decreases |hours|
  {
    if hours == [] then Success(slots)
    else
      var next :- AddEntry(slots, hours[0]);
      Accumulate(next, hours[1..])
  }

  /** The condition of the "*" branch: the first range starts in hour 0 and ends on the last millisecond of its day. */
  predicate CoversWholeDay(sp: Span)
  {
    HourOfDay(sp.start) == 0 && sp.end == EndOfDay(sp.end)
  }

  /** The canonical texts of some spans, in order. */
  function Texts(spans: seq<Span>): (r: seq<string>)
    ensures |r| == |spans| && forall k :: 0 <= k < |spans| ==> r[k] == IntervalText(spans[k])
  {
    if spans == [] then [] else [IntervalText(spans[0])] + Texts(spans[1..])
  }

  /** The collapse of one day's list to a day string. */
  function CollapseDay(intervals: seq<Span>): Result<string>
  {
    if intervals == [] then Success(Disabled)
    else if CoversWholeDay(intervals[0]) then
      if |intervals| > 2 then Failure(IllegalState) else Success(AllDay)
    else Success(JoinCommas(Texts(intervals)))
  }

  /** The stream map over the 7 lists: the first day whose collapse throws ends it. */
  function CollapseAll(slots: seq<seq<Span>>): (r: Result<seq<string>>)
    ensures r.Success? ==> |r.value| == |slots|
    ensures r.Success? ==> forall d :: 0 <= d < |slots| ==> CollapseDay(slots[d]) == Success(r.value[d])
    ensures r.Failure? ==> exists d :: 0 <= d < |slots| && CollapseDay(slots[d]).Failure?
  {
    if slots == [] then Success([])
    else
      var head :- CollapseDay(slots[0]);
      var tail :- CollapseAll(slots[1..]);
      assert forall d :: 1 <= d < |slots| ==> slots[1..][d - 1] == slots[d];
      Success([head] + tail)
  }

  /** toHoursConfig as a value: decode, collapse, then validate the result. */
  function HoursConfigOf(hours: seq<Entry>): Result<seq<string>>
  {
    var slots :- Accumulate(EmptySlots(), hours);
    var result :- CollapseAll(slots);
    match ValidateWeek(result)
    case Fail(e) => Failure(e)
    case Pass => Success(result)
  }

  /** toHoursConfig, filling the 7 lists in place with nested loops. */
  method ToHoursConfig(hours: seq<Entry>) returns (r: Result<seq<string>>)
    ensures r == HoursConfigOf(hours)
  {
    var entries := new seq<Span>[7](_ => []);
    assert entries[..] == EmptySlots();
    var i := 0;
    while i < |hours|
      invariant 0 <= i <= |hours|
      invariant Accumulate(entries[..], hours[i..]) == Accumulate(EmptySlots(), hours)
    {
      assert hours[i..] == [hours[i]] + hours[i + 1..];
      var entry := hours[i];
      if entry.days.None? {
        return Failure(MissingDays);
      }
      if entry.range.None? {
        return Failure(MissingRange);
      }
      var range := entry.range.value;
      var interval: Span;
      if range == AllDay {
        interval := AllDaySpan;
      } else if MatchInterval(range).Some? {
        var parsed := StringToInterval(range);
        if parsed.Failure? {
          return Failure(parsed.error);
        }
        interval := parsed.value;
      } else {
        return Failure(MalformedRange);
      }
      assert RangeInterval(range) == Success(interval);
      var days := entry.days.value;
      ghost var before := entries[..];
      var j := 0;
      while j < |days|
        invariant 0 <= j <= |days|
        invariant AddToDays(entries[..], days[j..], interval) == AddToDays(before, days, interval)
      {
        assert days[j..] == [days[j]] + days[j + 1..];
        var day := days[j] - 1;
        if !(0 <= day < 7) {
          return Failure(DayOutOfRange);
        }
        var existing := entries[day];
        var k := 0;
        while k < |existing|
          invariant 0 <= k <= |existing|
          invariant forall m :: 0 <= m < k ==> !Overlaps(interval, existing[m])
        {
          if Overlaps(interval, existing[k]) {
            return Failure(Overlap);
          }
          k := k + 1;
        }
        entries[day] := existing + [interval];
        j := j + 1;
      }
      assert days[j..] == [];
      i := i + 1;
    }
    assert hours[i..] == [];
    var result :- CollapseAll(entries[..]);
    var check := ValidateWeek(result);
    if check.Fail? {
      return Failure(check.error);
    }
    r := Success(result);
  }

  // ---------------------------------------------------------------------------
  // What decoding accepts, and what it produces
  // ---------------------------------------------------------------------------

  /** Each span of `added` avoids every span before it, in `prefix` or earlier in `added`. */
  predicate Extends(prefix: seq<Span>, added: seq<Span>)
  {
    forall b, a :: 0 <= b < |added| && 0 <= a < |prefix| + b ==> !Overlaps(added[b], (prefix + added)[a])
  }

  /** No span overlaps an earlier one. */
  predicate Disjoint(spans: seq<Span>)
  {
    forall a, b :: 0 <= a < b < |spans| ==> !Overlaps(spans[b], spans[a])
  }

  lemma ExtendsEmpty(spans: seq<Span>)
    ensures Extends([], spans) <==> Disjoint(spans)
  {
    assert [] + spans == spans;
  }

  lemma ExtendsOne(prefix: seq<Span>, sp: Span)
    ensures Extends(prefix, [sp]) <==> !OverlapsAny(sp, prefix)
  {
    if OverlapsAny(sp, prefix) {
      var k :| 0 <= k < |prefix| && Overlaps(sp, prefix[k]);
      assert [sp][0] == sp && (prefix + [sp])[k] == prefix[k];
    } else {
      forall b, a | 0 <= b < 1 && 0 <= a < |prefix| + b
        ensures !Overlaps([sp][b], (prefix + [sp])[a])
      {
        assert (prefix + [sp])[a] == prefix[a];
      }
    }
  }

  lemma ExtendsSplit(p: seq<Span>, x: seq<Span>, y: seq<Span>)
    ensures Extends(p, x + y) <==> Extends(p, x) && Extends(p + x, y)
  {
    assert p + (x + y) == (p + x) + y;
    if Extends(p, x + y) {
      forall b, a | 0 <= b < |x| && 0 <= a < |p| + b
        ensures !Overlaps(x[b], (p + x)[a])
      {
        assert (x + y)[b] == x[b];
        assert (p + (x + y))[a] == (p + x)[a];
      }
      forall b, a | 0 <= b < |y| && 0 <= a < |p + x| + b
        ensures !Overlaps(y[b], (p + x + y)[a])
      {
        assert (x + y)[|x| + b] == y[b];
      }
    }
    if Extends(p, x) && Extends(p + x, y) {
      forall b, a | 0 <= b < |x + y| && 0 <= a < |p| + b
        ensures !Overlaps((x + y)[b], (p + (x + y))[a])
      {
        if b < |x| {
          assert (x + y)[b] == x[b];
          assert (p + (x + y))[a] == (p + x)[a];
        } else {
          assert (x + y)[b] == y[b - |x|];
        }
      }
    }
  }

  predicate DaysInRange(days: seq<int>)
  {
    forall j :: 0 <= j < |days| ==> 1 <= days[j] <= 7
  }

  /**
   * Adding one span to a list of days succeeds exactly when every day number
   * is in 1..7 and, on each day, each added copy avoids what is already there;
   * each day then ends with one copy per listing of it.
   */
  lemma {:induction false} AddToDaysIff(slots: seq<seq<Span>>, days: seq<int>, sp: Span)
    requires |slots| == 7
    ensures AddToDays(slots, days, sp).Success? <==>
      DaysInRange(days) && forall day :: 1 <= day <= 7 ==> Extends(slots[day - 1], Repeat(sp, Count(days, day)))
    ensures AddToDays(slots, days, sp).Success? ==>
      forall d :: 0 <= d < 7 ==> AddToDays(slots, days, sp).value[d] == slots[d] + Repeat(sp, Count(days, d + 1))
    decreases |days|
  {
    if days == [] {
      assert Repeat(sp, 0) == [];
    } else {
      var x, rest := days[0], days[1..];
      assert days == [x] + rest;
      if !(1 <= x <= 7) {
        assert !DaysInRange(days);
      } else if OverlapsAny(sp, slots[x - 1]) {
        FirstDayOverlaps(slots, days, sp);
      } else {
        var next := slots[x - 1 := slots[x - 1] + [sp]];
        assert AddToDays(slots, days, sp) == AddToDays(next, rest, sp);
        AddToDaysIff(next, rest, sp);
        assert DaysInRange(days) <==> DaysInRange(rest) by {
          assert forall j :: 0 <= j < |rest| ==> rest[j] == days[j + 1];
        }
        if AddToDays(slots, days, sp).Success? {
          forall day | 1 <= day <= 7 ensures Extends(slots[day - 1], Repeat(sp, Count(days, day))) {
            FirstDayAdded(slots, days, sp, day);
          }
        } else if DaysInRange(days) {
          var day :| 1 <= day <= 7 && !Extends(next[day - 1], Repeat(sp, Count(rest, day)));
          FirstDayAdded(slots, days, sp, day);
        }
        if AddToDays(slots, days, sp).Success? {
          var r := AddToDays(slots, days, sp).value;
          forall d | 0 <= d < 7 ensures r[d] == slots[d] + Repeat(sp, Count(days, d + 1)) {
            FirstDayAdded(slots, days, sp, d + 1);
            assert r[(d + 1) - 1] == next[(d + 1) - 1] + Repeat(sp, Count(rest, d + 1));
          }
        }
      }
    }
  }

  /** When the first listed day already holds an overlapping span, no arrangement of the copies avoids it. */
  lemma FirstDayOverlaps(slots: seq<seq<Span>>, days: seq<int>, sp: Span)
    requires |slots| == 7 && days != [] && 1 <= days[0] <= 7
    requires OverlapsAny(sp, slots[days[0] - 1])
    ensures !Extends(slots[days[0] - 1], Repeat(sp, Count(days, days[0])))
  {
    var x := days[0];
    assert days == [x] + days[1..];
    var n := Count(days, x);
    assert n >= 1;
    assert Repeat(sp, n) == [sp] + Repeat(sp, n - 1);
    ExtendsSplit(slots[x - 1], [sp], Repeat(sp, n - 1));
    ExtendsOne(slots[x - 1], sp);
  }

  /** After adding the span to the first listed day, the remaining copies are what is left to add. */
  lemma FirstDayAdded(slots: seq<seq<Span>>, days: seq<int>, sp: Span, day: int)
    requires |slots| == 7 && days != [] && 1 <= days[0] <= 7 && 1 <= day <= 7
    requires !OverlapsAny(sp, slots[days[0] - 1])
    ensures var next := slots[days[0] - 1 := slots[days[0] - 1] + [sp]];
      && (Extends(slots[day - 1], Repeat(sp, Count(days, day))) <==>
          Extends(next[day - 1], Repeat(sp, Count(days[1..], day))))
      && slots[day - 1] + Repeat(sp, Count(days, day)) == next[day - 1] + Repeat(sp, Count(days[1..], day))
  {
    var x, rest := days[0], days[1..];
    var next := slots[x - 1 := slots[x - 1] + [sp]];
    var n := Count(rest, day);
    if day == x {
      assert Count(days, day) == n + 1;
      ExtendsOne(slots[x - 1], sp);
      assert Repeat(sp, n + 1) == [sp] + Repeat(sp, n);
      ExtendsSplit(slots[x - 1], [sp], Repeat(sp, n));
    } else {
      assert Count(days, day) == n;
      assert next[day - 1] == slots[day - 1];
    }
  }

  /** An entry decoding accepts: both keys, a valid range, and day numbers in 1..7. */
  predicate WellFormed(e: Entry)
  {
    && e.days.Some? && e.range.Some?
    && RangeInterval(e.range.value).Success?
    && DaysInRange(e.days.value)
  }

  predicate AllWellFormed(hours: seq<Entry>)
  {
    forall i :: 0 <= i < |hours| ==> WellFormed(hours[i])
  }

  function EntrySpan(e: Entry): (sp: Span)
    requires WellFormed(e)
    ensures RangeSpan(sp)
  {
    RangeInterval(e.range.value).value
  }

  /** The spans day `day` receives, in arrival order: each entry's span once per listing of the day. */
  function DaySpans(hours: seq<Entry>, day: int): (r: seq<Span>)
    requires AllWellFormed(hours)
    ensures forall k :: 0 <= k < |r| ==> RangeSpan(r[k])
  {
    if hours == [] then []
    else
      assert forall i :: 1 <= i < |hours| ==> hours[1..][i - 1] == hours[i];
      Repeat(EntrySpan(hours[0]), Count(hours[0].days.value, day)) + DaySpans(hours[1..], day)
  }

  /** Every entry is well formed and, on each day, every arriving span avoids those before it. */
  predicate Fits(slots: seq<seq<Span>>, hours: seq<Entry>)
    requires |slots| == 7
  {
    AllWellFormed(hours) && forall day :: 1 <= day <= 7 ==> Extends(slots[day - 1], DaySpans(hours, day))
  }

  /** Each list followed by the spans its day receives. */
  function Received(slots: seq<seq<Span>>, hours: seq<Entry>): (r: seq<seq<Span>>)
    requires |slots| == 7 && AllWellFormed(hours)
    ensures |r| == 7 && forall d :: 0 <= d < 7 ==> r[d] == slots[d] + DaySpans(hours, d + 1)
  {
    seq(7, d requires 0 <= d < 7 => slots[d] + DaySpans(hours, d + 1))
  }

  /**
   * Decoding entries onto some lists succeeds exactly when every entry is well
   * formed and, on each day, every arriving span avoids those before it; each
   * list then ends with the spans it received.
   */
  lemma {:induction false} AccumulateIff(slots: seq<seq<Span>>, hours: seq<Entry>)
    requires |slots| == 7
    ensures Accumulate(slots, hours).Success? <==> Fits(slots, hours)
    ensures Accumulate(slots, hours).Success? ==> Accumulate(slots, hours).value == Received(slots, hours)
    decreases |hours|
  {
    if hours == [] {
      forall d | 0 <= d < 7 ensures Received(slots, hours)[d] == slots[d] {
        assert DaySpans(hours, d + 1) == [];
      }
    } else if AddEntry(slots, hours[0]).Failure? {
      FirstEntryFails(slots, hours);
    } else {
      var next := AddEntry(slots, hours[0]).value;
      assert Accumulate(slots, hours) == Accumulate(next, hours[1..]);
      AccumulateIff(next, hours[1..]);
      FirstEntryAdded(slots, hours);
    }
  }

  lemma AllWellFormedTail(hours: seq<Entry>)
    requires hours != []
    ensures AllWellFormed(hours) <==> WellFormed(hours[0]) && AllWellFormed(hours[1..])
  {
    assert forall i :: 1 <= i < |hours| ==> hours[1..][i - 1] == hours[i];
  }

  /** An entry that cannot be added makes the whole list unfit. */
  lemma FirstEntryFails(slots: seq<seq<Span>>, hours: seq<Entry>)
    requires |slots| == 7 && hours != [] && AddEntry(slots, hours[0]).Failure?
    ensures !Fits(slots, hours)
  {
    var e, rest := hours[0], hours[1..];
    AllWellFormedTail(hours);
    if WellFormed(e) {
      var sp := EntrySpan(e);
      AddToDaysIff(slots, e.days.value, sp);
      var day :| 1 <= day <= 7 && !Extends(slots[day - 1], Repeat(sp, Count(e.days.value, day)));
      if AllWellFormed(hours) {
        assert DaySpans(hours, day) == Repeat(sp, Count(e.days.value, day)) + DaySpans(rest, day);
        ExtendsSplit(slots[day - 1], Repeat(sp, Count(e.days.value, day)), DaySpans(rest, day));
      }
    }
  }

  /** After an entry is added, what remains to fit is the rest of the entries on the new lists. */
  lemma FirstEntryAdded(slots: seq<seq<Span>>, hours: seq<Entry>)
    requires |slots| == 7 && hours != [] && AddEntry(slots, hours[0]).Success?
    ensures var next := AddEntry(slots, hours[0]).value;
      && (Fits(slots, hours) <==> Fits(next, hours[1..]))
      && (Fits(slots, hours) ==> Received(slots, hours) == Received(next, hours[1..]))
  {
    var e, rest := hours[0], hours[1..];
    var next := AddEntry(slots, e).value;
    AllWellFormedTail(hours);
    var sp := RangeInterval(e.range.value).value;
    AddToDaysIff(slots, e.days.value, sp);
    assert WellFormed(e);
    if AllWellFormed(hours) {
      if !Fits(slots, hours) {
        var day :| 1 <= day <= 7 && !Extends(slots[day - 1], DaySpans(hours, day));
        FirstEntryDays(slots, hours, day);
        assert !Extends(next[day - 1], DaySpans(rest, day));
      } else {
        forall day | 1 <= day <= 7 ensures Extends(next[day - 1], DaySpans(rest, day)) {
          FirstEntryDays(slots, hours, day);
        }
        forall d | 0 <= d < 7 ensures Received(slots, hours)[d] == Received(next, rest)[d] {
          FirstEntryDays(slots, hours, d + 1);
          assert slots[(d + 1) - 1] + DaySpans(hours, d + 1) == next[(d + 1) - 1] + DaySpans(rest, d + 1);
        }
      }
    }
  }

  /** The day-by-day view of adding the first entry. */
  lemma FirstEntryDays(slots: seq<seq<Span>>, hours: seq<Entry>, day: int)
    requires |slots| == 7 && hours != [] && AddEntry(slots, hours[0]).Success? && AllWellFormed(hours)
    requires 1 <= day <= 7
    ensures var next := AddEntry(slots, hours[0]).value;
      && (Extends(slots[day - 1], DaySpans(hours, day)) <==> Extends(next[day - 1], DaySpans(hours[1..], day)))
      && slots[day - 1] + DaySpans(hours, day) == next[day - 1] + DaySpans(hours[1..], day)
  {
    var e, rest := hours[0], hours[1..];
    var sp := EntrySpan(e);
    var days := e.days.value;
    assert AddEntry(slots, e) == AddToDays(slots, days, sp);
    var next := AddToDays(slots, days, sp).value;
    AllWellFormedTail(hours);
    AddToDaysIff(slots, days, sp);
    var added := Repeat(sp, Count(days, day));
    assert DaySpans(hours, day) == added + DaySpans(rest, day);
    assert AddToDays(slots, days, sp).Success?;
    assert forall d :: 1 <= d <= 7 ==> Extends(slots[d - 1], Repeat(sp, Count(days, d)));
    assert next[day - 1] == slots[day - 1] + added;
    ExtendsSplit(slots[day - 1], added, DaySpans(rest, day));
  }

  /** What a day holding these spans is written as: "-" when empty, "*" for the whole-day span alone, otherwise the comma list. */
  function DayText(spans: seq<Span>): string
  {
    if spans == [] then Disabled
    else if spans == [AllDaySpan] then AllDay
    else JoinCommas(Texts(spans))
  }

  /** A span from a single interval never takes the "*" branch of the collapse. */
  lemma TokenNotWholeDay(sp: Span)
    requires TokenSpan(sp)
    ensures !CoversWholeDay(sp) && sp != AllDaySpan
  {
    if sp.end != DayMs {
      assert sp.end % DayMs == sp.end;
    }
  }

  /**
   * A day whose spans do not overlap collapses without the IllegalState error,
   * to its DayText, and that text is a valid day.
   */
  lemma CollapseDisjoint(spans: seq<Span>)
    requires Disjoint(spans) && forall k :: 0 <= k < |spans| ==> RangeSpan(spans[k])
    ensures CollapseDay(spans) == Success(DayText(spans))
    ensures IsValid(DayText(spans))
  {
    LiteralsAreNotIntervals();
    if spans != [] {
      if |spans| >= 2 {
        forall k | 0 <= k < |spans| ensures TokenSpan(spans[k]) {
          var j := if k == 0 then 1 else 0;
          AllDayOverlaps(spans[j]);
        }
      }
      if spans[0] == AllDaySpan {
        assert spans == [AllDaySpan];
      } else {
        TokenNotWholeDay(spans[0]);
        var texts := Texts(spans);
        forall k | 0 <= k < |texts| ensures StringToInterval(texts[k]).Success? {
          PrintThenParse(spans[k]);
        }
        ValidTokenList(texts);
      }
    }
  }

  /**
   * toHoursConfig succeeds exactly when every entry has both keys, a range
   * that is "*" or a valid single interval and days in 1..7, and no day receives
   * two overlapping spans. Day d is then DayText of the spans it received, in
   * arrival order, and the week is valid: the collapse's IllegalState and the
   * final validation never fire.
   */
  lemma HoursConfigOfIff(hours: seq<Entry>)
    ensures HoursConfigOf(hours).Success? <==>
      AllWellFormed(hours) && forall day :: 1 <= day <= 7 ==> Disjoint(DaySpans(hours, day))
    ensures HoursConfigOf(hours).Success? ==>
      |HoursConfigOf(hours).value| == 7 &&
      forall d :: 0 <= d < 7 ==> HoursConfigOf(hours).value[d] == DayText(DaySpans(hours, d + 1))
    ensures HoursConfigOf(hours).Success? ==> IsValidWeek(HoursConfigOf(hours).value)
    ensures HoursConfigOf(hours).Failure? ==> Accumulate(EmptySlots(), hours).Failure?
  {
    AccumulateIff(EmptySlots(), hours);
    FitsEmptyIff(EmptySlots(), hours);
    if Accumulate(EmptySlots(), hours).Success? {
      var slots := Received(EmptySlots(), hours);
      CollapseDecoded(hours);
      var result := CollapseAll(slots).value;
      ValidateWeekIff(result);
      assert HoursConfigOf(hours) == Success(result);
    }
  }

  lemma FitsEmptyIff(slots: seq<seq<Span>>, hours: seq<Entry>)
    requires |slots| == 7 && forall d :: 0 <= d < 7 ==> slots[d] == []
    ensures Fits(slots, hours) <==>
      AllWellFormed(hours) && forall day :: 1 <= day <= 7 ==> Disjoint(DaySpans(hours, day))
  {
    if AllWellFormed(hours) {
      if Fits(slots, hours) {
        forall day | 1 <= day <= 7 ensures Disjoint(DaySpans(hours, day)) {
          assert Extends(slots[day - 1], DaySpans(hours, day));
          ExtendsEmpty(DaySpans(hours, day));
        }
      } else {
        var day :| 1 <= day <= 7 && !Extends(slots[day - 1], DaySpans(hours, day));
        ExtendsEmpty(DaySpans(hours, day));
        assert !Disjoint(DaySpans(hours, day));
      }
    }
  }

  /** Collapsing decoded lists: each day becomes its DayText, and the week passes validation. */
  lemma CollapseDecoded(hours: seq<Entry>)
    requires AllWellFormed(hours) && forall day :: 1 <= day <= 7 ==> Disjoint(DaySpans(hours, day))
    ensures var slots := Received(EmptySlots(), hours);
      && CollapseAll(slots).Success?
      && (forall d :: 0 <= d < 7 ==> CollapseAll(slots).value[d] == DayText(DaySpans(hours, d + 1)))
      && IsValidWeek(CollapseAll(slots).value)
  {
    var slots := Received(EmptySlots(), hours);
    forall d | 0 <= d < 7
      ensures slots[d] == DaySpans(hours, d + 1)
      ensures CollapseDay(slots[d]) == Success(DayText(slots[d])) && IsValid(DayText(slots[d]))
    {
      assert [] + DaySpans(hours, d + 1) == DaySpans(hours, d + 1);
      CollapseDisjoint(slots[d]);
    }
    var result := CollapseAll(slots);
    assert result.Success?;
  }

  /** Under toHoursConfig, a day no entry lists is disabled. */
  lemma UnmentionedDayDisabled(hours: seq<Entry>, day: int)
    requires 1 <= day <= 7 && HoursConfigOf(hours).Success?
    requires forall i :: 0 <= i < |hours| ==> hours[i].days.Some? && day !in hours[i].days.value
    ensures HoursConfigOf(hours).value[day - 1] == Disabled
  {
    HoursConfigOfIff(hours);
    DaySpansUnlisted(hours, day);
  }

  lemma {:induction false} DaySpansUnlisted(hours: seq<Entry>, day: int)
    requires AllWellFormed(hours)
    requires forall i :: 0 <= i < |hours| ==> day !in hours[i].days.value
    ensures DaySpans(hours, day) == []
  {
    if hours != [] {
      assert AllWellFormed(hours[1..]) && forall i :: 0 <= i < |hours[1..]| ==> day !in hours[1..][i].days.value by {
        assert forall i :: 1 <= i < |hours| ==> hours[1..][i - 1] == hours[i];
      }
      DaySpansUnlisted(hours[1..], day);
      CountIsMultiplicity(hours[0].days.value, day);
    }
  }

  /** An entry without its days key, or with days but no range key, fails before anything is decoded. */
  lemma MissingKeysRejected(e: Entry, rest: seq<Entry>)
    requires e.days.None? || e.range.None?
    ensures HoursConfigOf([e] + rest) == Failure(if e.days.None? then MissingDays else MissingRange)
  {
    assert ([e] + rest)[0] == e;
  }

  /** Two ranges for Monday that share 11:00-12:00 are rejected as overlapping. */
  lemma OverlapRejected(a: string, b: string)
    requires a == "09-12" && b == "11-14"
    ensures HoursConfigOf([Entry(Some([1]), Some(a)), Entry(Some([1]), Some(b))]) == Failure(Overlap)
  {
    ParsesAs(a, IntervalGroups(ClockGroups(9, None), ClockGroups(12, None)));
    ParsesAs(b, IntervalGroups(ClockGroups(11, None), ClockGroups(14, None)));
    var first := Span(ClockMs(9, 0), ClockMs(12, 0));
    var second := Span(ClockMs(11, 0), ClockMs(14, 0));
    assert RangeInterval(a) == Success(first);
    assert RangeInterval(b) == Success(second);
    var empty := EmptySlots();
    assert empty[0] + [first] == [first];
    var slots := empty[0 := [first]];
    assert !OverlapsAny(first, empty[0]);
    assert AddToDay(empty, 1, first) == Success(slots);
    assert AddToDays(empty, [1], first) == AddToDays(slots, [], first);
    assert AddEntry(empty, Entry(Some([1]), Some(a))) == Success(slots);
    assert OverlapsAny(second, slots[0]) by {
      assert Overlaps(second, slots[0][0]);
    }
    var e1, e2 := Entry(Some([1]), Some(a)), Entry(Some([1]), Some(b));
    assert AddEntry(slots, e2) == Failure(Overlap);
    assert Accumulate(slots, [e2]) == Failure(Overlap);
    assert [e1, e2][1..] == [e2];
    assert Accumulate(empty, [e1, e2]) == Failure(Overlap);
  }

  // ---------------------------------------------------------------------------
  // Encoding: fromHoursConfig groups the pieces of each day by range
  // ---------------------------------------------------------------------------

  function PieceSet(pieces: seq<string>): set<string>
  {
    set p | p in pieces
  }

  /** The comma-separated pieces of every day of the week. */
  function DayPieces(config: seq<string>): (week: seq<seq<string>>)
    ensures |week| == |config| && forall d :: 0 <= d < |config| ==> week[d] == SplitCommas(config[d])
  {
    seq(|config|, d requires 0 <= d < |config| => SplitCommas(config[d]))
  }

  /** The distinct ranges among the pieces of the first n days. */
  function RangesUpTo(week: seq<seq<string>>, n: nat): set<string>
    requires n <= |week|
  {
    if n == 0 then {} else RangesUpTo(week, n - 1) + PieceSet(week[n - 1])
  }

  /** The day numbers among the first n days that hold `range`, in day order, once per occurrence. */
  function DaysOf(week: seq<seq<string>>, range: string, n: nat): seq<int>
    requires n <= |week|
  {
    if n == 0 then [] else DaysOf(week, range, n - 1) + Repeat<int>(n, Count(week[n - 1], range))
  }

  /** The map after the first n days and then the pieces `pieces` of day n + 1. */
  function Grouping(week: seq<seq<string>>, n: nat, pieces: seq<string>): map<string, seq<int>>
    requires n <= |week|
  {
    map range | range in RangesUpTo(week, n) + PieceSet(pieces) :: DaysOf(week, range, n) + Repeat(n + 1, Count(pieces, range))
  }

  /** groupedRanges once every day has been split: each range of the week and the days that hold it. */
  function GroupedRanges(config: seq<string>): map<string, seq<int>>
  {
    Grouping(DayPieces(config), |config|, [])
  }

  /** hours holds one entry per range in `done`, with that range's days, and nothing else. */
  predicate Lists(hours: seq<Entry>, grouped: map<string, seq<int>>, done: set<string>)
  {
    && (forall k :: 0 <= k < |hours| ==>
          hours[k].range.Some? && hours[k].range.value in done && hours[k].range.value in grouped &&
          hours[k].days == Some(grouped[hours[k].range.value]))
    && (forall k, j :: 0 <= k < j < |hours| ==> hours[k].range != hours[j].range)
    && (forall range :: range in done ==> exists k :: 0 <= k < |hours| && hours[k].range == Some(range))
  }

  /** hours is the map written out as a JSON array, in whatever order the map yields its keys. */
  predicate Enumerates(hours: seq<Entry>, grouped: map<string, seq<int>>)
  {
    Lists(hours, grouped, grouped.Keys)
  }

  lemma {:induction false} DaysOfAbsent(week: seq<seq<string>>, range: string, n: nat)
    requires n <= |week| && range !in RangesUpTo(week, n)
    ensures DaysOf(week, range, n) == []
  {
    if n > 0 {
      DaysOfAbsent(week, range, n - 1);
      assert range !in week[n - 1];
      CountIsMultiplicity(week[n - 1], range);
    }
  }

  /** One computeIfAbsent(range).add(day): the range's list, new or not, gains the day at its end. */
  lemma GroupingStep(week: seq<seq<string>>, n: nat, pieces: seq<string>, k: nat)
    requires n < |week| && k < |pieces|
    ensures var g := Grouping(week, n, pieces[..k]);
      Grouping(week, n, pieces[..k + 1]) == g[pieces[k] := (if pieces[k] in g then g[pieces[k]] else []) + [n + 1]]
  {
    var range := pieces[k];
    assert pieces[..k + 1] == pieces[..k] + [range];
    GroupingAppend(week, n, pieces[..k], range);
  }

  lemma GroupingAppend(week: seq<seq<string>>, n: nat, pieces: seq<string>, range: string)
    requires n < |week|
    ensures var g := Grouping(week, n, pieces);
      Grouping(week, n, pieces + [range]) == g[range := (if range in g then g[range] else []) + [n + 1]]
  {
    var g := Grouping(week, n, pieces);
    var h := Grouping(week, n, pieces + [range]);
    var expected := g[range := (if range in g then g[range] else []) + [n + 1]];
    assert PieceSet(pieces + [range]) == PieceSet(pieces) + {range};
    assert h.Keys == expected.Keys;
    var m := Count(pieces, range);
    if range !in g {
      DaysOfAbsent(week, range, n);
      CountIsMultiplicity(pieces, range);
      assert m == 0;
    }
    assert Repeat(n + 1, m) + [n + 1] == Repeat(n + 1, m + 1);
    forall other | other in h ensures h[other] == expected[other] {
      CountAppend(pieces, range, other);
    }
  }

  /** Appending y adds one occurrence of y and nothing else. */
  lemma CountAppend(pieces: seq<string>, y: string, x: string)
    ensures Count(pieces + [y], x) == Count(pieces, x) + if y == x then 1 else 0
  {
    CountConcat(pieces, [y], x);
    assert [y][1..] == [];
  }

  /** After the last piece of day n + 1 the map is the one for the first n + 1 days. */
  lemma GroupingNextDay(week: seq<seq<string>>, n: nat)
    requires n < |week|
    ensures Grouping(week, n, week[n]) == Grouping(week, n + 1, [])
  {
    var g := Grouping(week, n, week[n]);
    var h := Grouping(week, n + 1, []);
    GroupingNextDayKeys(week, n);
    forall range | range in g ensures g[range] == h[range] {
      GroupingNextDayValue(week, n, range);
    }
    SameMap(g, h);
  }

  lemma GroupingNextDayKeys(week: seq<seq<string>>, n: nat)
    requires n < |week|
    ensures Grouping(week, n, week[n]).Keys == Grouping(week, n + 1, []).Keys
  {
    assert RangesUpTo(week, n + 1) == RangesUpTo(week, n) + PieceSet(week[n]);
    assert PieceSet([]) == {};
  }

  lemma GroupingNextDayValue(week: seq<seq<string>>, n: nat, range: string)
    requires n < |week| && range in Grouping(week, n, week[n])
    ensures range in Grouping(week, n + 1, [])
    ensures Grouping(week, n, week[n])[range] == Grouping(week, n + 1, [])[range]
  {
    GroupingNextDayKeys(week, n);
    assert Repeat(n + 2, 0) == [];
  }

  lemma SameMap<K, V>(a: map<K, V>, b: map<K, V>)
    requires a.Keys == b.Keys && forall k :: k in a ==> a[k] == b[k]
    ensures a == b
  {
  }

  /** fromHoursConfig: validate, group the ranges by day, then write out one entry per range. */
  method FromHoursConfig(config: seq<string>) returns (r: Result<seq<Entry>>)
    ensures ValidateWeek(config).Fail? ==> r == Failure(ValidateWeek(config).error)
    ensures ValidateWeek(config).Pass? ==> r.Success? && Enumerates(r.value, GroupedRanges(config))
  {
    if ValidateWeek(config).Fail? {
      return Failure(ValidateWeek(config).error);
    }
    var groupedRanges := GroupByRange(config);
    var result := WriteEntries(groupedRanges);
    r := Success(result);
  }

  /** The for loop over the days: each piece of day i + 1 is added to its range's list (computeIfAbsent(range).add). */
  method GroupByRange(config: seq<string>) returns (groupedRanges: map<string, seq<int>>)
    ensures groupedRanges == GroupedRanges(config)
  {
    ghost var week := DayPieces(config);
    groupedRanges := map[];
    assert PieceSet([]) == {};
    for i := 0 to |config|
      invariant groupedRanges == Grouping(week, i, [])
    {
      var pieces := SplitCommas(config[i]);
      for k := 0 to |pieces|
        invariant groupedRanges == Grouping(week, i, pieces[..k])
      {
        var range := pieces[k];
        var days := if range in groupedRanges then groupedRanges[range] else [];
        GroupingStep(week, i, pieces, k);
        groupedRanges := groupedRanges[range := days + [i + 1]];
      }
      assert pieces[..|pieces|] == pieces == week[i];
      GroupingNextDay(week, i);
    }
  }

  /** groupedRanges.forEach: one entry per key, in an order the map chooses. */
  method WriteEntries(groupedRanges: map<string, seq<int>>) returns (result: seq<Entry>)
    ensures Enumerates(result, groupedRanges)
  {
    result := [];
    var remaining := groupedRanges.Keys;
    while remaining != {}
      invariant remaining <= groupedRanges.Keys
      invariant Lists(result, groupedRanges, groupedRanges.Keys - remaining)
      decreases remaining
    {
      var range :| range in remaining;
      var entry := Entry(Some(groupedRanges[range]), Some(range));
      ghost var before := result;
      ghost var doneBefore := groupedRanges.Keys - remaining;
      result := result + [entry];
      remaining := remaining - {range};
      forall other | other in groupedRanges.Keys - remaining
        ensures exists k :: 0 <= k < |result| && result[k].range == Some(other)
      {
        if other == range {
          assert result[|before|].range == Some(other);
        } else {
          assert other in doneBefore;
          var k :| 0 <= k < |before| && before[k].range == Some(other);
          assert result[k] == before[k];
        }
      }
    }
    assert groupedRanges.Keys - remaining == groupedRanges.Keys;
  }

  // ---------------------------------------------------------------------------
  // What the grouping holds
  // ---------------------------------------------------------------------------

  lemma {:induction false} RangesUpToIff(week: seq<seq<string>>, n: nat, range: string)
    requires n <= |week|
    ensures range in RangesUpTo(week, n) <==> exists d :: 0 <= d < n && range in week[d]
  {
    if n > 0 {
      RangesUpToIff(week, n - 1, range);
    }
  }

  lemma {:induction false} DaysOfCount(week: seq<seq<string>>, range: string, n: nat, day: int)
    requires n <= |week|
    ensures 1 <= day <= n ==> Count(DaysOf(week, range, n), day) == Count(week[day - 1], range)
    ensures !(1 <= day <= n) ==> Count(DaysOf(week, range, n), day) == 0
  {
    if n > 0 {
      DaysOfCount(week, range, n - 1, day);
      var c := Count(week[n - 1], range);
      CountConcat(DaysOf(week, range, n - 1), Repeat<int>(n, c), day);
      RepeatCount<int>(n, c, day);
    }
  }

  lemma {:induction false} DaysOfOrdered(week: seq<seq<string>>, range: string, n: nat)
    requires n <= |week|
    ensures forall j :: 0 <= j < |DaysOf(week, range, n)| ==> 1 <= DaysOf(week, range, n)[j] <= n
    ensures forall i, j :: 0 <= i < j < |DaysOf(week, range, n)| ==> DaysOf(week, range, n)[i] <= DaysOf(week, range, n)[j]
  {
    if n > 0 {
      DaysOfOrdered(week, range, n - 1);
      var prev := DaysOf(week, range, n - 1);
      var added := Repeat<int>(n, Count(week[n - 1], range));
      var days := prev + added;
      assert DaysOf(week, range, n) == days;
      forall j | 0 <= j < |days| ensures 1 <= days[j] <= n && (j >= |prev| ==> days[j] == n) {
        if j < |prev| {
          assert days[j] == prev[j];
          assert 1 <= prev[j] <= n - 1;
        } else {
          assert days[j] == added[j - |prev|];
        }
      }
      forall i, j | 0 <= i < j < |days| ensures days[i] <= days[j] {
        if j < |prev| {
          assert days[i] == prev[i] && days[j] == prev[j];
          assert prev[i] <= prev[j];
        }
      }
    }
  }

  /**
   * The grouping's keys are exactly the pieces of the days. The days of a
   * range are day numbers in 1..|config| in ascending order, and day d occurs
   * once for each time the range is a piece of day d.
   */
  lemma GroupedRangesMeaning(config: seq<string>, range: string, day: int)
    ensures range in GroupedRanges(config) <==> exists d :: 0 <= d < |config| && range in SplitCommas(config[d])
    ensures range in GroupedRanges(config) ==>
      var days := GroupedRanges(config)[range];
      && (forall j :: 0 <= j < |days| ==> 1 <= days[j] <= |config|)
      && (forall i, j :: 0 <= i < j < |days| ==> days[i] <= days[j])
      && multiset(days)[day] == if 1 <= day <= |config| then multiset(SplitCommas(config[day - 1]))[range] else 0
  {
    var n := |config|;
    var week := DayPieces(config);
    assert PieceSet([]) == {};
    RangesUpToIff(week, n, range);
    if range in GroupedRanges(config) {
      var days := GroupedRanges(config)[range];
      assert days == DaysOf(week, range, n) + Repeat(n + 1, 0);
      assert days == DaysOf(week, range, n);
      DaysOfCount(week, range, n, day);
      DaysOfOrdered(week, range, n);
      CountIsMultiplicity(days, day);
      if 1 <= day <= n {
        CountIsMultiplicity(week[day - 1], range);
      }
    }
  }

  /** A range lists day d exactly when it is one of the pieces of day d. */
  lemma GroupedDayIff(config: seq<string>, range: string, day: int)
    requires range in GroupedRanges(config) && 1 <= day <= |config|
    ensures day in GroupedRanges(config)[range] <==> range in SplitCommas(config[day - 1])
  {
    GroupedRangesMeaning(config, range, day);
  }

  // ---------------------------------------------------------------------------
  // Round trip: toHoursConfig(fromHoursConfig(config))
  // ---------------------------------------------------------------------------

  /** The only entry listing `day` is entry k0, and it lists it once: the day receives that entry's span alone. */
  lemma {:induction false} DaySpansOne(hours: seq<Entry>, day: int, k0: int)
    requires AllWellFormed(hours) && 0 <= k0 < |hours|
    requires forall k :: 0 <= k < |hours| ==> Count(hours[k].days.value, day) == if k == k0 then 1 else 0
    ensures DaySpans(hours, day) == [EntrySpan(hours[k0])]
  {
    assert forall i :: 1 <= i < |hours| ==> hours[1..][i - 1] == hours[i];
    if k0 == 0 {
      forall i | 0 <= i < |hours[1..]| ensures day !in hours[1..][i].days.value {
        CountIsMultiplicity(hours[i + 1].days.value, day);
      }
      DaySpansUnlisted(hours[1..], day);
    } else {
      DaySpansOne(hours[1..], day, k0 - 1);
      assert Repeat(EntrySpan(hours[0]), 0) == [];
    }
  }

  /** A day both directions agree on: "*", or a single interval written canonically. */
  predicate SimpleDay(s: string)
  {
    s == AllDay || (StringToInterval(s).Success? && IntervalText(StringToInterval(s).value) == s)
  }

  /** A simple day is valid, is its own only piece, is a range, and a day holding just its span is written as the day itself. */
  lemma SimpleDayFacts(s: string)
    requires SimpleDay(s)
    ensures SplitCommas(s) == [s] && IsValid(s)
    ensures RangeInterval(s).Success? && DayText([RangeInterval(s).value]) == s
  {
    LiteralsAreNotIntervals();
    if s == AllDay {
      SplitPlain(s);
    } else {
      MatchHasNoComma(s);
      SplitPlain(s);
      ValidIff(s);
      var sp := StringToInterval(s).value;
      TokenNotWholeDay(sp);
      assert Texts([sp]) == [IntervalText(sp)];
    }
  }

  /**
   * For a week of simple days, every way of writing out fromHoursConfig's map
   * decodes back to the week: each day is the piece of exactly one entry.
   */
  lemma RoundTrip(config: seq<string>, hours: seq<Entry>)
    requires |config| == 7 && forall d :: 0 <= d < 7 ==> SimpleDay(config[d])
    requires Enumerates(hours, GroupedRanges(config))
    ensures ValidateWeek(config) == Pass
    ensures HoursConfigOf(hours) == Success(config)
  {
    forall d | 0 <= d < 7
      ensures SplitCommas(config[d]) == [config[d]] && IsValid(config[d])
      ensures RangeInterval(config[d]).Success? && DayText([RangeInterval(config[d]).value]) == config[d]
    {
      SimpleDayFacts(config[d]);
    }
    ValidateWeekIff(config);
    RoundTripWellFormed(config, hours);
    forall day | 1 <= day <= 7 ensures DaySpans(hours, day) == [RangeInterval(config[day - 1]).value] {
      RoundTripDay(config, hours, day);
    }
    RoundTripDecodes(config, hours);
  }

  lemma RoundTripWellFormed(config: seq<string>, hours: seq<Entry>)
    requires |config| == 7
    requires forall d :: 0 <= d < 7 ==> SplitCommas(config[d]) == [config[d]] && RangeInterval(config[d]).Success?
    requires Enumerates(hours, GroupedRanges(config))
    ensures AllWellFormed(hours)
  {
    forall k | 0 <= k < |hours| ensures WellFormed(hours[k]) {
      var range := hours[k].range.value;
      GroupedRangesMeaning(config, range, 0);
      var d :| 0 <= d < 7 && range in SplitCommas(config[d]);
      assert range == config[d];
    }
  }

  lemma RoundTripDecodes(config: seq<string>, hours: seq<Entry>)
    requires |config| == 7 && AllWellFormed(hours)
    requires forall d :: 0 <= d < 7 ==> RangeInterval(config[d]).Success? && DayText([RangeInterval(config[d]).value]) == config[d]
    requires forall day :: 1 <= day <= 7 ==> DaySpans(hours, day) == [RangeInterval(config[day - 1]).value]
    ensures HoursConfigOf(hours) == Success(config)
  {
    forall day | 1 <= day <= 7 ensures Disjoint(DaySpans(hours, day)) {
      assert |DaySpans(hours, day)| == 1;
    }
    HoursConfigOfIff(hours);
    var result := HoursConfigOf(hours).value;
    forall d | 0 <= d < 7 ensures result[d] == config[d] {
      assert result[d] == DayText(DaySpans(hours, d + 1));
      assert DaySpans(hours, d + 1) == [RangeInterval(config[d]).value];
    }
    assert result == config;
  }

  lemma RoundTripDay(config: seq<string>, hours: seq<Entry>, day: int)
    requires |config| == 7 && 1 <= day <= 7
    requires forall d :: 0 <= d < 7 ==> SplitCommas(config[d]) == [config[d]] && RangeInterval(config[d]).Success?
    requires Enumerates(hours, GroupedRanges(config)) && AllWellFormed(hours)
    ensures DaySpans(hours, day) == [RangeInterval(config[day - 1]).value]
  {
    var grouped := GroupedRanges(config);
    var own := config[day - 1];
    GroupedRangesMeaning(config, own, day);
    assert own in SplitCommas(config[day - 1]);
    var k0 :| 0 <= k0 < |hours| && hours[k0].range == Some(own);
    forall k | 0 <= k < |hours| ensures Count(hours[k].days.value, day) == if k == k0 then 1 else 0 {
      var range := hours[k].range.value;
      GroupedRangesMeaning(config, range, day);
      assert multiset(hours[k].days.value)[day] == multiset([own])[range];
      CountIsMultiplicity(hours[k].days.value, day);
    }
    DaySpansOne(hours, day, k0);
  }

  /** The source's round trip: a week of "09-17" on every day comes back unchanged. */
  lemma NineToFiveRoundTrip(hours: seq<Entry>)
    requires Enumerates(hours, GroupedRanges(Repeat("09-17", 7)))
    ensures HoursConfigOf(hours) == Success(Repeat("09-17", 7))
  {
    var s := "09-17";
    ParsesAs(s, IntervalGroups(ClockGroups(9, None), ClockGroups(17, None)));
    var sp := StringToInterval(s).value;
    assert sp == Span(ClockMs(9, 0), ClockMs(17, 0));
    ClockFields(9, 0);
    ClockFields(17, 0);
    assert IntervalText(sp) == Pad2(9) + "-" + Pad2(17);
    assert SimpleDay(s);
    RoundTrip(Repeat(s, 7), hours);
  }

  /**
   * A disabled day breaks the round trip: fromHoursConfig writes an entry with
   * range "-", which toHoursConfig rejects, whatever order the entries come in.
   */
  lemma DisabledDayBreaksRoundTrip(config: seq<string>, hours: seq<Entry>, day: int)
    requires 1 <= day <= |config| && config[day - 1] == Disabled
    requires Enumerates(hours, GroupedRanges(config))
    ensures HoursConfigOf(hours).Failure?
  {
    SplitPlain(Disabled);
    GroupedRangesMeaning(config, Disabled, day);
    assert Disabled in SplitCommas(config[day - 1]);
    var k :| 0 <= k < |hours| && hours[k].range == Some(Disabled);
    NonRangesRejected(Disabled);
    assert !WellFormed(hours[k]);
    HoursConfigOfIff(hours);
  }
}
