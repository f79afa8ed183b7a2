# hours-configuration in Dafny

A model of the core of the hours-configuration library, which describes the
hours at which an action is allowed. Each day of a week is one string: `*`
(all day), `-` (disabled) or a comma list of intervals `HH[:MM]-HH[:MM]`. A
week is 7 such strings, Monday first. The project models three parts:

- `HoursConfiguration` (hours_configuration.dfy) covers:
  - the day grammar and its regular expressions, as a recognizer proved to accept exactly the texts of the pattern;
  - `stringToInterval`, which resolves a token to a span of today, with an end of `00` or `24` rolling over to next midnight;
  - `intervalToString`;
  - `validate` and `isValid`, for one day and for a 7-entry week;
  - `isAllowedNow` for one day and for a week, with the end minute included;
  - `copyForAllDays` and `copyForWeekdays`.
- `FrontendHoursFormat` (frontend_hours_format.dfy) covers:
  - `toHoursConfig`, which decodes `{days, range}` entries into 7 per-day lists in place, rejects overlaps, collapses each day to a day string and validates the result;
  - `fromHoursConfig`, which groups the comma-separated pieces of a week by the days that hold them, in a map.
- `WeboptimizerFormat` (weboptimizer_format.dfy) covers `fromHoursConfig`: it exports a week as `{start, end}` pairs of seconds after Monday 00:00 of the current week.

Supporting modules:
- `Base` holds results and error kinds. Each Java exception becomes a `Failure` carrying the kind of rejection.
- `Time` holds the few Joda-Time operations used, as integer milliseconds under one fixed zone offset.
- `Text` holds two-digit numbers, `String.split(",")` and `Collectors.joining(",")`.

Modelling conventions:
- **Instants.** "Now" is an explicit `Instant`: the ISO day of week and the millisecond of the day.
- **Two clocks.**
  - Spans produced by `stringToInterval` are measured from today's midnight.
  - The Weboptimizer export measures from Monday 00:00 of the current week.
- **Code shape.**
  - Imperative code is modelled by methods with loops, proved equal to a specification function:
    - `ToHoursConfig` fills an array of 7 lists;
    - `GroupByRange` updates a map;
    - the Weboptimizer loops append to lists.
  - The properties are proved about those functions.

Where the code and its documentation or tests disagree, the model follows the code:

- An interval whose end equals its start (`"01-01"`, `"00-00"` on the export) is accepted. Only an end strictly before the start is rejected.
- A `24:MM` end with non-zero minutes is rejected like `00:MM`: hour 24 is mapped to 0 before the minutes are checked.
- `fromHoursConfig` (frontend) groups the comma-separated pieces of each day, not whole day strings. A disabled day is written as an entry with range `"-"`, which `toHoursConfig` rejects, so the round trip fails on any week with a `-` day (`DisabledDayBreaksRoundTrip`).
- The Weboptimizer export of `*` ends one second before the next midnight, not one minute.
- The Weboptimizer export places a rollover end with `withDayOfWeek(i)` applied to tomorrow's midnight. That instant is day i 00:00 of this week, before the start, unless today is Sunday: then tomorrow lies in next week.
  - So `copyForAllDays("01-00")` is rejected with an end-before-start error on Monday to Saturday. On Sunday each day ends at the same day of next week (`OneToMidnightExport`).
  - The source's test expects each end at the next day's midnight.
- `copyForAllDays("00-00:30")` is rejected by validation (`MidnightWithMinutesExport`), where the source's test expects a 30-minute period.

## Model

| member | source | states |
|---|---|---|
| Text.Pad2OfNum2 | src/main/java/com/cliengo/HoursConfiguration.java:327-334 | `%02d` of a parsed two-digit group gives back the same two characters |
| Text.SplitJoin | src/main/java/com/cliengo/FrontendHoursFormat.java:95 | splitting on commas undoes joining comma-free pieces with commas |
| Time.ClockFields | src/main/java/com/cliengo/HoursConfiguration.java:304-305 | an instant set to a valid hour and minute lies within the day, on a whole minute, and reads back those fields |
| Time.ClockOfFields | src/main/java/com/cliengo/HoursConfiguration.java:327-334 | a whole-minute time of day is the clock time of its own hour and minute fields |
| Time.SameWeekDay | src/main/java/com/cliengo/WeboptimizerFormat.java:63-64 | withDayOfWeek moves a time of day on one day of this week to the same time on another day of this week |
| Time.NextWeekDay | src/main/java/com/cliengo/WeboptimizerFormat.java:64 | next Monday's midnight moved to day d stays in next week |
| Time.StartOfWeekDay | src/main/java/com/cliengo/WeboptimizerFormat.java:45-52 | today starts (dayOfWeek − 1) days after Monday 00:00, and day d of the week starts (d − 1) days after it |
| HoursConfiguration.MatchInterval | src/main/java/com/cliengo/HoursConfiguration.java:35 | the single-interval pattern as a recognizer; MatchIntervalExact states that it accepts exactly the texts of in-range groups, and returns those groups |
| HoursConfiguration.MatchesIntervals | src/main/java/com/cliengo/HoursConfiguration.java:49 | the interval-list pattern: every comma piece matches the single-interval pattern; ValidIff and LiteralsAreNotIntervals state what it lets through |
| HoursConfiguration.MatchIntervalExact | src/main/java/com/cliengo/HoursConfiguration.java:35 | the recognizer matches a text with given groups exactly when the text is the pattern's text for those groups |
| HoursConfiguration.MatchIntervalSound | src/main/java/com/cliengo/HoursConfiguration.java:35 | a recognized text is the pattern's text of the groups it yields |
| HoursConfiguration.MatchIntervalComplete | src/main/java/com/cliengo/HoursConfiguration.java:35 | every text of the pattern is recognized, with its own groups |
| HoursConfiguration.MatchHasNoComma | src/main/java/com/cliengo/HoursConfiguration.java:35-49 | a single-interval match holds no comma, so a comma list splits into its intervals |
| HoursConfiguration.Resolve | src/main/java/com/cliengo/HoursConfiguration.java:295-314 | resolution fails exactly when a field is out of Joda's range (FieldOutOfRange, checked first, after 24 is mapped to 0), the end is 00/24 with non-zero minutes (MidnightWithMinutes), or the end is before the start (EndBeforeStart); otherwise it is the span from hh·60+mm minutes to the end's clock time, or to next midnight when the end hour is 00 or 24 |
| HoursConfiguration.StringToInterval | src/main/java/com/cliengo/HoursConfiguration.java:289-315 | a text that does not match the pattern is Malformed; a matching text gives exactly the resolution of its groups, with all of Resolve's failure cases |
| HoursConfiguration.IntervalToString | src/main/java/com/cliengo/HoursConfiguration.java:323-337 | the builder produces the canonical text: two-digit hour, `:MM` only for non-zero minutes, for start and end |
| HoursConfiguration.IntervalTextGroups | src/main/java/com/cliengo/HoursConfiguration.java:323-337 | the printed text is the pattern's text for the span's hour and minute groups |
| HoursConfiguration.PrintThenParse | src/main/java/com/cliengo/HoursConfiguration.java:317-337 | parsing the printed text of any span a token can denote gives that span back |
| HoursConfiguration.ParsePrintRoundTrip | src/main/java/com/cliengo/HoursConfiguration.java:317-337 | after one parse, printing and re-parsing are stable: same span, same text |
| HoursConfiguration.IntervalTextShape | src/main/java/com/cliengo/HoursConfiguration.java:323-337 | a printed span has at least 5 characters, no comma, and is neither `*` nor `-` |
| HoursConfiguration.ValidateSingle | src/main/java/com/cliengo/HoursConfiguration.java:265-267 | a single interval validates exactly when it resolves, and fails with the resolution's error |
| HoursConfiguration.Validate | src/main/java/com/cliengo/HoursConfiguration.java:258-272 | validate(String); ValidIff states that it passes exactly on `*`, `-` and lists whose every piece resolves, and ValidateSingle / ValidateEachIff which error it throws |
| HoursConfiguration.ValidateEach | src/main/java/com/cliengo/HoursConfiguration.java:263-264 | forEach(validate) over the pieces; ValidateEachIff states that it passes exactly when every piece resolves and otherwise fails with the first failing piece's error |
| HoursConfiguration.IsValid | src/main/java/com/cliengo/HoursConfiguration.java:153-160 | isValid(String) is validate not throwing; ValidIff characterises it |
| HoursConfiguration.ValidateEachIff | src/main/java/com/cliengo/HoursConfiguration.java:263-264 | validating each piece of a list passes exactly when every piece resolves |
| HoursConfiguration.ValidIff | src/main/java/com/cliengo/HoursConfiguration.java:258-272 | a day is valid exactly when it is `*`, `-`, or every comma piece is an interval that resolves |
| HoursConfiguration.ValidListIff | src/main/java/com/cliengo/HoursConfiguration.java:259-268 | a text of the interval-list pattern is valid exactly when every comma piece resolves |
| HoursConfiguration.NotListValidIff | src/main/java/com/cliengo/HoursConfiguration.java:269-271 | outside the interval-list pattern only `*` and `-` are valid, and some piece is not an interval |
| HoursConfiguration.ValidDayShape | src/main/java/com/cliengo/HoursConfiguration.java:258-272 | a valid day other than the literals is the comma-join of pattern texts whose groups resolve |
| HoursConfiguration.ValidTokenList | src/main/java/com/cliengo/HoursConfiguration.java:258-272 | joining one or more resolving intervals with commas gives a valid day |
| HoursConfiguration.RejectedShapes | src/test/java/com/cliengo/HoursConfigurationTest.java:34-50 | `""`, `"hello-world"`, `" *"`, `"0-23"`, `"00:23"` and `"00-20;20-23"` are not valid |
| HoursConfiguration.NotAnInterval | src/main/java/com/cliengo/HoursConfiguration.java:269-271 | a comma-free text that is neither an interval nor a literal is not valid |
| HoursConfiguration.RejectedCommaInside | src/test/java/com/cliengo/HoursConfigurationTest.java:52-53 | `"00,20-20,23"` is not valid |
| HoursConfiguration.SplitThree | src/main/java/com/cliengo/HoursConfiguration.java:260 | three comma-free pieces joined by commas split back into those three |
| HoursConfiguration.RejectedValues | src/main/java/com/cliengo/HoursConfiguration.java:300-314 | `"18-02"` fails with EndBeforeStart, `"00-00:30"` and `"10-24:30"` with MidnightWithMinutes, `"25-26"` with FieldOutOfRange |
| HoursConfiguration.ParsesAs | src/main/java/com/cliengo/HoursConfiguration.java:289-298 | the pattern's text for some groups resolves as those groups |
| HoursConfiguration.ResolvesAs | src/main/java/com/cliengo/HoursConfiguration.java:265-267 | a single interval validates exactly as its groups resolve |
| HoursConfiguration.NotValidWhenPieceFails | src/main/java/com/cliengo/HoursConfiguration.java:264 | a list with a piece that does not resolve is not valid |
| HoursConfiguration.ValidateDaysIff | src/main/java/com/cliengo/HoursConfiguration.java:234 | validating the days in order passes exactly when every day is valid |
| HoursConfiguration.ValidateDays | src/main/java/com/cliengo/HoursConfiguration.java:234 | forEach(validate) over the days; ValidateDaysIff states that it passes exactly when every day is valid, otherwise with the first failing day's error |
| HoursConfiguration.ValidateWeek | src/main/java/com/cliengo/HoursConfiguration.java:230-235 | the 7-wide validate: WrongLength unless there are 7 entries, then each day; ValidateWeekIff ties it to IsValidWeek |
| HoursConfiguration.IsValidWeek | src/main/java/com/cliengo/HoursConfiguration.java:168-170 | the 7-wide isValid: exactly 7 entries, all valid; ValidateWeekIff states it holds exactly when ValidateWeek passes |
| HoursConfiguration.ValidateWeekIff | src/main/java/com/cliengo/HoursConfiguration.java:230-249 | the 7-wide validate passes exactly when the 7-wide isValid holds: exactly 7 entries, all valid |
| HoursConfiguration.InclusiveEndMinute | src/main/java/com/cliengo/HoursConfiguration.java:133-134 | widening a whole-minute end by one minute before contains includes exactly the instants up to the end minute |
| HoursConfiguration.AnyMatch | src/main/java/com/cliengo/HoursConfiguration.java:130-135 | the anyMatch over a validated day's pieces; AnyMatchIff states it is true exactly when some piece covers the instant, end minute included |
| HoursConfiguration.AnyMatchIff | src/main/java/com/cliengo/HoursConfiguration.java:130-135 | the anyMatch holds exactly when some piece covers the instant, end minute included |
| HoursConfiguration.LiteralsAreNotIntervals | src/main/java/com/cliengo/HoursConfiguration.java:49-57 | `*` and `-` are valid and do not match the interval-list pattern |
| HoursConfiguration.IsAllowedNow | src/main/java/com/cliengo/HoursConfiguration.java:121-144 | fails exactly on invalid days, with validate's error; `-` is never allowed, `*` always; a list is allowed exactly when some piece covers the instant |
| HoursConfiguration.CurrentDayIndex | src/main/java/com/cliengo/HoursConfiguration.java:218-221 | the index is in 0..6 and is the day of week minus one |
| HoursConfiguration.IsAllowedNowWeek | src/main/java/com/cliengo/HoursConfiguration.java:75-103 | a week without exactly 7 entries fails with WrongLength; otherwise today's entry alone is evaluated |
| HoursConfiguration.OnlyTodayMatters | src/main/java/com/cliengo/HoursConfiguration.java:75-80 | two weeks that agree on today's entry give the same answer |
| HoursConfiguration.SingleIntervalAllowed | src/main/java/com/cliengo/HoursConfiguration.java:129-135 | a single-interval day allows exactly the instants its span covers, end minute included |
| HoursConfiguration.ListAllowed | src/main/java/com/cliengo/HoursConfiguration.java:129-135 | a list day allows exactly the instants some piece covers |
| HoursConfiguration.MidnightEndsAllowWholeDay | src/test/java/com/cliengo/HoursConfigurationTest.java:61-67 | `*`, `"00-00"` and `"00-24"` allow every instant of the day |
| HoursConfiguration.MinutesAllowed | src/test/java/com/cliengo/HoursConfigurationTest.java:136-155 | `"10:37-12:45"` allows exactly 10:37:00 up to, excluding, 12:46:00 |
| HoursConfiguration.NoonAllowed | src/test/java/com/cliengo/HoursConfigurationTest.java:61-101 | `"00-00"`, `"00-24"`, `"12-00"`, `"11-13"` and `"09-10,11-14,18-21"` allow 12:00 |
| HoursConfiguration.NoonAllowedList | src/test/java/com/cliengo/HoursConfigurationTest.java:70-77 | `"09-10,11-14,18-21"` allows 12:00 |
| HoursConfiguration.NoonAllowedPieces | src/test/java/com/cliengo/HoursConfigurationTest.java:70-77 | the pieces `09-10`, `11-14` and `18-21` are the spans 9:00–10:00, 11:00–14:00 and 18:00–21:00 of the day |
| HoursConfiguration.WholeHours | src/main/java/com/cliengo/HoursConfiguration.java:289-315 | a piece of two whole hours, the end neither midnight nor before the start, is the span between those hours |
| HoursConfiguration.NoonExcluded | src/test/java/com/cliengo/HoursConfigurationTest.java:104-112 | `"10-11,13-15"` does not allow 12:00 |
| HoursConfiguration.NoonExcludedList | src/test/java/com/cliengo/HoursConfigurationTest.java:104-112 | neither piece of `"10-11,13-15"` covers 12:00 |
| HoursConfiguration.NoonExcludedPieces | src/test/java/com/cliengo/HoursConfigurationTest.java:104-112 | the pieces `10-11` and `13-15` are the spans 10:00–11:00 and 13:00–15:00 of the day |
| HoursConfiguration.ElevenPmAllowed | src/test/java/com/cliengo/HoursConfigurationTest.java:79-90 | `"23-00"` and `"00-23"` allow 23:00 |
| HoursConfiguration.WeekAllowedAtNoon | src/test/java/com/cliengo/HoursConfigurationTest.java:92-101 | a week of `"11-13"` allows 12:00 on any day |
| HoursConfiguration.FillWeek | src/main/java/com/cliengo/HoursConfiguration.java:191-192 | a new 7-element array holding the day in every slot |
| HoursConfiguration.CopyForAllDays | src/main/java/com/cliengo/HoursConfiguration.java:189-194 | succeeds exactly on a valid day, with validate's error otherwise; the result is 7 copies and a valid week |
| HoursConfiguration.CopyForWeekdays | src/main/java/com/cliengo/HoursConfiguration.java:203-210 | succeeds exactly on a valid day; Monday to Friday hold the day, Saturday and Sunday `-`; the result is a valid week |
| FrontendHoursFormat.AllDayOverlaps | src/main/java/com/cliengo/FrontendHoursFormat.java:72 | the `*` span overlaps every span a range can stand for |
| FrontendHoursFormat.RangeInterval | src/main/java/com/cliengo/FrontendHoursFormat.java:50-61 | a range succeeds exactly when it is `*` or a resolving single interval; `*` alone gives the whole-day span; a non-interval other than `*` is MalformedRange |
| FrontendHoursFormat.NonRangesRejected | src/main/java/com/cliengo/FrontendHoursFormat.java:57-60 | `-` and any text with a comma are MalformedRange |
| FrontendHoursFormat.AddToDay | src/main/java/com/cliengo/FrontendHoursFormat.java:66-78 | adding a span to one day: DayOutOfRange outside 1..7, Overlap when it overlaps a span already there, otherwise appended; ExtendsOne and AddToDaysIff state this for a list of days |
| FrontendHoursFormat.ExtendsEmpty | src/main/java/com/cliengo/FrontendHoursFormat.java:72-78 | appending spans one by one to an empty list without overlap is the list being pairwise disjoint in order |
| FrontendHoursFormat.ExtendsOne | src/main/java/com/cliengo/FrontendHoursFormat.java:72-78 | one span can be appended exactly when it overlaps nothing already there |
| FrontendHoursFormat.ExtendsSplit | src/main/java/com/cliengo/FrontendHoursFormat.java:72-78 | appending x then y succeeds exactly when x fits and then y fits after x |
| FrontendHoursFormat.AddToDays | src/main/java/com/cliengo/FrontendHoursFormat.java:65-80 | days.forEach(add); AddToDaysIff states when it succeeds and that day d then holds the span once per listing |
| FrontendHoursFormat.AddToDaysIff | src/main/java/com/cliengo/FrontendHoursFormat.java:65-80 | adding a span to a list of days succeeds exactly when all days are in 1..7 and each day can take the span as many times as it is listed; each list then gains that many copies |
| FrontendHoursFormat.FirstDayOverlaps | src/main/java/com/cliengo/FrontendHoursFormat.java:72-75 | an overlap on the first listed day makes the whole entry unfit |
| FrontendHoursFormat.FirstDayAdded | src/main/java/com/cliengo/FrontendHoursFormat.java:78 | after the first day takes the span, what remains to fit is the rest of the days |
| FrontendHoursFormat.EntrySpan | src/main/java/com/cliengo/FrontendHoursFormat.java:50-61 | a well-formed entry's span is one a range can stand for |
| FrontendHoursFormat.DaySpans | src/main/java/com/cliengo/FrontendHoursFormat.java:64-80 | every span a day receives is one a range can stand for |
| FrontendHoursFormat.AddEntry | src/main/java/com/cliengo/FrontendHoursFormat.java:41-80 | one entry of the array: MissingDays / MissingRange, then the range's span added to its days; FirstEntryFails and FirstEntryAdded state its effect |
| FrontendHoursFormat.Accumulate | src/main/java/com/cliengo/FrontendHoursFormat.java:40-81 | hours.forEach over the entries, stopping at the first failure; AccumulateIff states it succeeds exactly when the entries fit and then gives what each day received |
| FrontendHoursFormat.AccumulateIff | src/main/java/com/cliengo/FrontendHoursFormat.java:40-81 | decoding the entries succeeds exactly when every entry is well formed and each day's arriving spans avoid earlier ones; each list is then its received spans in arrival order |
| FrontendHoursFormat.AllWellFormedTail | src/main/java/com/cliengo/FrontendHoursFormat.java:40 | a list of entries is well formed exactly when its head and its tail are |
| FrontendHoursFormat.FirstEntryFails | src/main/java/com/cliengo/FrontendHoursFormat.java:41-80 | an entry that cannot be added makes the whole list unfit |
| FrontendHoursFormat.FirstEntryAdded | src/main/java/com/cliengo/FrontendHoursFormat.java:40-81 | after the first entry, what remains to fit is the rest of the entries on the new lists |
| FrontendHoursFormat.FirstEntryDays | src/main/java/com/cliengo/FrontendHoursFormat.java:64-80 | the day-by-day view of adding the first entry |
| FrontendHoursFormat.CollapseDay | src/main/java/com/cliengo/FrontendHoursFormat.java:84-98 | one day's list collapsed to a day string; CollapseAll and CollapseDecoded state the result for every day |
| FrontendHoursFormat.CollapseAll | src/main/java/com/cliengo/FrontendHoursFormat.java:84-98 | a success has one string per list, each the collapse of that list; a failure comes from some list |
| FrontendHoursFormat.TokenNotWholeDay | src/main/java/com/cliengo/FrontendHoursFormat.java:88 | a span from a single interval never takes the `*` branch |
| FrontendHoursFormat.CollapseDisjoint | src/main/java/com/cliengo/FrontendHoursFormat.java:84-99 | a disjoint list of range spans collapses without the IllegalStateException to a valid day string |
| FrontendHoursFormat.ToHoursConfig | src/main/java/com/cliengo/FrontendHoursFormat.java:35-101 | the nested loops over the 7 in-place lists compute the decoding specification exactly, failures included |
| FrontendHoursFormat.HoursConfigOf | src/main/java/com/cliengo/FrontendHoursFormat.java:35-101 | toHoursConfig as a value; HoursConfigOfIff states when it succeeds and what each day becomes |
| FrontendHoursFormat.HoursConfigOfIff | src/main/java/com/cliengo/FrontendHoursFormat.java:35-101 | decoding succeeds exactly when every entry has both keys, a valid range and days in 1..7, and no day receives overlapping spans; day d is then `-`, `*` or the comma list of its spans, and the week is valid |
| FrontendHoursFormat.FitsEmptyIff | src/main/java/com/cliengo/FrontendHoursFormat.java:37-38 | starting from 7 empty lists, fitting is well-formedness plus disjoint spans on every day |
| FrontendHoursFormat.DayText | src/main/java/com/cliengo/FrontendHoursFormat.java:84-98 | the text a day's spans are written as: `-` when empty, `*` for the whole-day span alone, otherwise the comma list; CollapseDecoded states that decoded days collapse to it |
| FrontendHoursFormat.CollapseDecoded | src/main/java/com/cliengo/FrontendHoursFormat.java:84-99 | collapsing decoded lists writes each day as its day text and passes validation |
| FrontendHoursFormat.UnmentionedDayDisabled | src/main/java/com/cliengo/FrontendHoursFormat.java:86-87 | a day no entry lists becomes `-` |
| FrontendHoursFormat.DaySpansUnlisted | src/main/java/com/cliengo/FrontendHoursFormat.java:65-67 | a day no entry lists receives nothing |
| FrontendHoursFormat.MissingKeysRejected | src/main/java/com/cliengo/FrontendHoursFormat.java:41-46 | an entry without `days` fails with MissingDays, one with `days` but without `range` with MissingRange |
| FrontendHoursFormat.OverlapRejected | src/main/java/com/cliengo/FrontendHoursFormat.java:72-75 | `"09-12"` and `"11-14"` on Monday are rejected as overlapping |
| FrontendHoursFormat.DaysOfAbsent | src/main/java/com/cliengo/FrontendHoursFormat.java:113-117 | a range that occurs on none of the first n days has no days |
| FrontendHoursFormat.GroupingStep | src/main/java/com/cliengo/FrontendHoursFormat.java:116 | one computeIfAbsent(range).add(day) appends the day to the range's list, new or not |
| FrontendHoursFormat.GroupingAppend | src/main/java/com/cliengo/FrontendHoursFormat.java:116 | grouping one more piece appends the day to that piece's list |
| FrontendHoursFormat.GroupingNextDay | src/main/java/com/cliengo/FrontendHoursFormat.java:114-117 | after the last piece of a day, the map is the one for the days so far |
| FrontendHoursFormat.GroupingNextDayKeys | src/main/java/com/cliengo/FrontendHoursFormat.java:114-117 | the keys after a day's last piece are those of the days so far |
| FrontendHoursFormat.GroupingNextDayValue | src/main/java/com/cliengo/FrontendHoursFormat.java:114-117 | the lists after a day's last piece are those of the days so far |
| FrontendHoursFormat.FromHoursConfig | src/main/java/com/cliengo/FrontendHoursFormat.java:110-132 | an invalid week fails with validate's error; a valid one gives one entry per grouped range, with its days, in some order |
| FrontendHoursFormat.GroupByRange | src/main/java/com/cliengo/FrontendHoursFormat.java:113-117 | the loop builds the grouping specification's map |
| FrontendHoursFormat.WriteEntries | src/main/java/com/cliengo/FrontendHoursFormat.java:120-130 | the JSON array lists every key of the map once with its days, and nothing else |
| FrontendHoursFormat.RangesUpToIff | src/main/java/com/cliengo/FrontendHoursFormat.java:114-117 | a range is among the first n days' pieces exactly when one of those days has it as a piece |
| FrontendHoursFormat.DaysOfCount | src/main/java/com/cliengo/FrontendHoursFormat.java:114-117 | a range lists day d once per occurrence among day d's pieces |
| FrontendHoursFormat.DaysOfOrdered | src/main/java/com/cliengo/FrontendHoursFormat.java:114-117 | a range's days are day numbers 1..n in ascending order |
| FrontendHoursFormat.GroupedRanges | src/main/java/com/cliengo/FrontendHoursFormat.java:113-117 | the range→days map; GroupedRangesMeaning states its keys and the days each key lists |
| FrontendHoursFormat.GroupedRangesMeaning | src/main/java/com/cliengo/FrontendHoursFormat.java:113-117 | the keys are exactly the pieces of the week; each list holds 1-based day numbers in ascending order, day d once per occurrence of the range in day d |
| FrontendHoursFormat.GroupedDayIff | src/main/java/com/cliengo/FrontendHoursFormat.java:114-116 | a range lists day d exactly when it is a piece of day d |
| FrontendHoursFormat.DaySpansOne | src/main/java/com/cliengo/FrontendHoursFormat.java:64-80 | a day listed once, by one entry, receives that entry's span alone |
| FrontendHoursFormat.SimpleDayFacts | src/main/java/com/cliengo/FrontendHoursFormat.java:84-98 | a `*` or canonical single-interval day is valid, is its own only piece, is a range, and collapses back to itself |
| FrontendHoursFormat.RoundTrip | src/main/java/com/cliengo/FrontendHoursFormat.java:35-132 | for a week whose every day is `*` or one canonical interval, every array fromHoursConfig can write decodes back to the week |
| FrontendHoursFormat.RoundTripWellFormed | src/main/java/com/cliengo/FrontendHoursFormat.java:120-130 | the written entries of such a week are all well formed |
| FrontendHoursFormat.RoundTripDecodes | src/main/java/com/cliengo/FrontendHoursFormat.java:84-99 | a decoding in which each day receives exactly its own span gives the week back |
| FrontendHoursFormat.RoundTripDay | src/main/java/com/cliengo/FrontendHoursFormat.java:64-80 | in such a week each day receives exactly its own span |
| FrontendHoursFormat.NineToFiveRoundTrip | src/test/java/com/cliengo/FrontendHoursFormatTest.java:14-22 | a week of `"09-17"` survives fromHoursConfig then toHoursConfig |
| FrontendHoursFormat.DisabledDayBreaksRoundTrip | src/main/java/com/cliengo/FrontendHoursFormat.java:110-117 | a week with a `-` day is written with a `"-"` range, which toHoursConfig rejects whatever the entry order |
| WeboptimizerFormat.FromHoursConfig | src/main/java/com/cliengo/WeboptimizerFormat.java:39-91 | validation, the day loop and the output loop compute the export specification exactly, failures included |
| WeboptimizerFormat.AppendDay | src/main/java/com/cliengo/WeboptimizerFormat.java:54-78 | one pass of the day loop appends that day's intervals, or fails with the day's error |
| WeboptimizerFormat.AppendTokens | src/main/java/com/cliengo/WeboptimizerFormat.java:57-66 | the loop over a comma list appends each piece's interval, or fails at the first Interval that throws |
| WeboptimizerFormat.WritePeriods | src/main/java/com/cliengo/WeboptimizerFormat.java:80-88 | one `{start, end}` pair per interval, in order, as seconds after Monday |
| WeboptimizerFormat.NewInterval | src/main/java/com/cliengo/WeboptimizerFormat.java:62-64 | Joda's `new Interval`: it succeeds exactly when start ≤ end, keeps both ends, and otherwise fails with EndBeforeStart |
| WeboptimizerFormat.TokenInterval | src/main/java/com/cliengo/WeboptimizerFormat.java:61-64 | one piece of day i, both ends moved by withDayOfWeek(i); TokenPlacement states where it lands in each end case |
| WeboptimizerFormat.DayIntervals | src/main/java/com/cliengo/WeboptimizerFormat.java:55-77 | what day i adds, patterns tried in the source's order; ValidDayIntervals and SingleDay state it for valid days |
| WeboptimizerFormat.DayResults | src/main/java/com/cliengo/WeboptimizerFormat.java:54-55 | one step per day of the loop; DayResultsAt states that index k is day k + 1's step |
| WeboptimizerFormat.WeekIntervals | src/main/java/com/cliengo/WeboptimizerFormat.java:54-78 | the intervals of all days in day order; WeekIntervalsIff, WeekIntervalsError and WeekIntervalsOrdered state when it succeeds, how it fails and that its intervals are ordered |
| WeboptimizerFormat.CollectIff | src/main/java/com/cliengo/WeboptimizerFormat.java:54-78 | a loop that stops at the first exception succeeds exactly when every step does, and then holds each step's value in order |
| WeboptimizerFormat.CollectFirstFailure | src/main/java/com/cliengo/WeboptimizerFormat.java:54-78 | a failing loop reports the error of its first failing step, all earlier steps having succeeded |
| WeboptimizerFormat.CollectFailsFrom | src/main/java/com/cliengo/WeboptimizerFormat.java:54-78 | once a prefix of the steps fails, the later steps do not change the result |
| WeboptimizerFormat.DayResultsAt | src/main/java/com/cliengo/WeboptimizerFormat.java:54-55 | pass i of the day loop handles `config[i - 1]` as day i |
| WeboptimizerFormat.ValidDayStep | src/main/java/com/cliengo/WeboptimizerFormat.java:54-78 | the step of a valid day fails only with EndBeforeStart and otherwise yields ordered intervals |
| WeboptimizerFormat.TokenIntervalsValid | src/main/java/com/cliengo/WeboptimizerFormat.java:60-66 | on resolving pieces a comma list yields one ordered pair per piece, or fails with EndBeforeStart |
| WeboptimizerFormat.ValidDayIntervals | src/main/java/com/cliengo/WeboptimizerFormat.java:54-78 | on a valid day the IllegalStateException is unreachable: `-` adds nothing, `*` one interval, and the only failure is EndBeforeStart |
| WeboptimizerFormat.OrderedConcat | src/main/java/com/cliengo/WeboptimizerFormat.java:62 | appending ordered intervals to ordered intervals keeps them ordered |
| WeboptimizerFormat.FlattenOrdered | src/main/java/com/cliengo/WeboptimizerFormat.java:54-78 | the days' ordered intervals, one day after another, are ordered |
| WeboptimizerFormat.CollectOrdered | src/main/java/com/cliengo/WeboptimizerFormat.java:54-78 | days that each yield ordered intervals collect to ordered intervals |
| WeboptimizerFormat.WeekIntervalsIff | src/main/java/com/cliengo/WeboptimizerFormat.java:54-78 | the week's intervals exist exactly when every day's do |
| WeboptimizerFormat.WeekIntervalsError | src/main/java/com/cliengo/WeboptimizerFormat.java:54-78 | on valid days the day loop fails only with EndBeforeStart |
| WeboptimizerFormat.WeekIntervalsOrdered | src/main/java/com/cliengo/WeboptimizerFormat.java:62-72 | on valid days every collected interval starts no later than it ends |
| WeboptimizerFormat.ToSeconds | src/main/java/com/cliengo/WeboptimizerFormat.java:84-85 | Java's long division by 1000: truncates toward zero, so the result is within one second of the milliseconds, toward zero |
| WeboptimizerFormat.ToSecondsMonotone | src/main/java/com/cliengo/WeboptimizerFormat.java:84-85 | truncating division by 1000 keeps the order of its operands |
| WeboptimizerFormat.ExportRejectsInvalid | src/main/java/com/cliengo/WeboptimizerFormat.java:40 | an invalid week fails with validate's error, WrongLength when it does not have 7 entries |
| WeboptimizerFormat.Export | src/main/java/com/cliengo/WeboptimizerFormat.java:39-91 | fromHoursConfig as a value; ExportIff, ExportRejectsInvalid and ExportOfValidWeek state when it succeeds and what it writes |
| WeboptimizerFormat.ExportIff | src/main/java/com/cliengo/WeboptimizerFormat.java:39-91 | the export succeeds exactly on a valid week whose every day yields its intervals |
| WeboptimizerFormat.ExportOfValidWeek | src/main/java/com/cliengo/WeboptimizerFormat.java:39-91 | on a valid week the export fails only with EndBeforeStart, and every written pair has start ≤ end |
| WeboptimizerFormat.MondayIsOrigin | src/main/java/com/cliengo/WeboptimizerFormat.java:45-52 | Monday 00:00 of the current week is instant 0 of the week clock |
| WeboptimizerFormat.AllDayPeriod | src/main/java/com/cliengo/WeboptimizerFormat.java:68-72 | `*` on day i is written as ((i − 1)·86400, i·86400 − 1) |
| WeboptimizerFormat.TokenPlacement | src/main/java/com/cliengo/WeboptimizerFormat.java:61-64 | a token ending before midnight lands on day i at its own times of day; a rollover end lands on day i of next week on a Sunday, and otherwise on day i 00:00 of this week, failing unless the start is 00:00 |
| WeboptimizerFormat.SingleDay | src/main/java/com/cliengo/WeboptimizerFormat.java:57-66 | a single-interval day yields exactly that interval's pair, or its error |
| WeboptimizerFormat.FlattenSingletons | src/main/java/com/cliengo/WeboptimizerFormat.java:54-78 | days that yield one interval each give one interval per day, in day order |
| WeboptimizerFormat.UniformWeek | src/main/java/com/cliengo/WeboptimizerFormat.java:54-78 | a week repeating one interval yields that interval placed on each day, day k + 1 at index k, exactly when it can be placed on every day |
| WeboptimizerFormat.UniformExport | src/main/java/com/cliengo/WeboptimizerFormat.java:39-91 | a week repeating one interval exports 7 pairs, day k + 1 at index k, or fails with EndBeforeStart |
| WeboptimizerFormat.NineToFiveExport | src/test/java/com/cliengo/WeboptimizerFormatTest.java:16-27 | a week of `"09-17"` exports (k·86400 + 32400, k·86400 + 61200) for k = 0..6 |
| WeboptimizerFormat.NineToFiveToken | src/test/java/com/cliengo/WeboptimizerFormatTest.java:16-27 | `"09-17"` is one interval, 9:00 to 17:00 of the day |
| WeboptimizerFormat.NineToFiveDay | src/test/java/com/cliengo/WeboptimizerFormatTest.java:21-25 | day k + 1 of a `"09-17"` week is placed at (k·86400 + 32400, k·86400 + 61200) seconds |
| WeboptimizerFormat.OneToMidnightExport | src/test/java/com/cliengo/WeboptimizerFormatTest.java:29-40 | a week of `"01-00"` exports only on a Sunday, as (k·86400 + 3600, (k + 7)·86400); on other days it fails with EndBeforeStart |
| WeboptimizerFormat.OneToMidnightOnSunday | src/test/java/com/cliengo/WeboptimizerFormatTest.java:29-40 | on a Sunday a week of `"01-00"` exports 7 pairs (k·86400 + 3600, (k + 7)·86400) |
| WeboptimizerFormat.OneToMidnightToken | src/test/java/com/cliengo/WeboptimizerFormatTest.java:29-40 | `"01-00"` is one interval, 1:00 to the next midnight |
| WeboptimizerFormat.OneToMidnightSunday | src/main/java/com/cliengo/WeboptimizerFormat.java:61-64 | on a Sunday day k + 1 of a `"01-00"` week ends at the midnight of the same day next week |
| WeboptimizerFormat.MidnightWithMinutesExport | src/test/java/com/cliengo/WeboptimizerFormatTest.java:42-53 | a week of `"00-00:30"` fails validation with MidnightWithMinutes |
| WeboptimizerFormat.AllDayWeekExport | src/main/java/com/cliengo/WeboptimizerFormat.java:68-72 | a week of `*` exports (k·86400, (k + 1)·86400 − 1) for k = 0..6 |

## Left out

- Time zones, daylight saving and the UTC conversions (`new DateTime(zone)`, `withZone`). Time is integer milliseconds under one fixed offset: the zone only decides what "today" and "now" are, and both are parameters.
- The ambient clock. Each operation reads "now" once, as its `Instant` parameter. The source reads the clock several times in one call (HoursConfiguration.java:122 against 304-305, WeboptimizerFormat.java:45 against 61 and 70); the model assumes all reads give the same instant.
- The `java.util.regex` engine. It is replaced by a recognizer proved to accept exactly the texts of the patterns.
- Gson's `JsonArray` and `JsonObject`. An entry is a datatype in which a missing key is `None`. Non-integer `days` values and non-string ranges are out of scope.
- Exception messages. Only the kind of each exception is kept, as an `Error` value.
- The `System.err` message at HoursConfiguration.java:141. That branch returns false and cannot be reached after validation.
- The order of a `HashMap`'s keys. The frontend export is stated for every order in which the map's entries can be written.
- The `timeZone`-less overloads of `isAllowedNow`, `stringToInterval` and the 7-wide `validate`/`isValid` on arrays and collections. Each is the same operation as the modelled one.
- `copyForWeekdays` calls `copyForAllDays`, which validates the day a second time. That second validation cannot fail, so the model validates once.
- Java's `int` and `long` widths. All values stay far inside them, so integers are unbounded.
- The "Empty configuration" branch at HoursConfiguration.java:261-262. It is kept in `Validate` but cannot be taken: splitting yields at least one piece.
- IndexOutOfBoundsException for a frontend day outside 1..7. It is modelled as the failure DayOutOfRange rather than excluded by a precondition.
