# Salah at 35k — a Dafny model

Salah at 35k works out when the five daily prayers (and sunrise) fall during a
flight, and where Mecca lies relative to the aircraft's heading at each of
those moments. It scrapes the flight's track log from FlightAware and cleans
it. For each track point it computes the prayer times at the aircraft's
position and the flight's local clock. Where the two meet it reads off the
crossing point. Around this calculator sit:

- helpers that resolve flight identifiers and parse FlightAware's history table;
- `FetchDate`, which turns text such as "Mon 7:00 AM +03" into a date of the current week;
- the Streamlit front ends' helpers that label, sort, group and filter flights.

This project models that core in Dafny and proves what each part promises.
Library calls the core only consumes become function-typed parameters:

- `float()` on the track text;
- the PrayTimes library;
- the qibla bearing;
- `strptime`;
- `html.unescape`;
- the IANA zone database;
- `difflib`'s similarity ratio.

The current time is also a parameter.

Modules, one per concern:

- `Common`: Python values (`Option`, exceptions as `Result.Err`, floats as
  "real or NaN", `int()` truncation, slicing).
- `Text`: the `str` methods the source relies on.
- `ClockText`: 12- and 24-hour clock text in `salah_at_35k_calculator.py`.
- `Track`: the clean-up of the scraped rows, `get_repeated_substring`, the
  time correction and the row loop of `salah_calculator`.
- `Schedule`: crossing detection, the ordering of the six entries, the qibla
  bearings and the schedule rows.
- `StableSort`: Python's stable `sort`/`sorted`, as an insertion sort.
- `Pipeline`: `salah_calculator` end to end, without I/O.
- `FlightData`: identifier helpers, `parse_airport`, `strip_tags` and the
  history table of `FlightDatalogic.py`.
- `FetchDate`: `FetchDate` of `FlightDatalogic.py`.
- `FrontendDev`: the helpers of `Frontend_Dev.py`.
- `Frontend`: `_norm` and `filter_by_airline` of `Frontend.py`.

Decimal hours are Dafny `real`s. NaN and "no data" are `Option`s (or the
`Float` datatype where a NaN flows through arithmetic). A raised `ValueError`
or `IndexError` is a `Result.Err` that ends the run.

Where the code and its documented design disagree, the model follows the code:

- `calculate_inflight_prayertime` returns the flight clock at the crossing,
  not the prayer time.
- A track row whose clock is the "-----" sentinel makes `timezone_correction`
  call `int()` on NaN. The whole run then raises, and no NaN row is produced.
- The early and late branches of the midnight wrap (lines 392-399) end with
  the same formula, so the placement of line 399 changes nothing.
- `_norm` can leave a space at either end: "(Delta)" becomes " delta ".
  Normalising again only strips those spaces (`Frontend.NormTwice`).

## Model

| member | source | states |
|---|---|---|
| Common.Trunc | salah_at_35k_calculator.py:95-96 | `int()` of a float truncates toward zero: within one of the input, on the side of zero |
| Common.Slice | salah_at_35k_calculator.py:348 | `s[lo:hi]`: as long as the range between the two clamped bounds (empty when they cross), element k being the input element at the clamped lower bound plus k |
| Common.SliceBound | salah_at_35k_calculator.py:348 | a slice bound lands in 0..n: unchanged inside the sequence, counted from the end when negative, 0 below -n and n beyond n |
| Common.From | salah_at_35k_calculator.py:346 | `s[k:]`: the suffix from k, empty past the end |
| Common.FloatSub | salah_at_35k_calculator.py:539 | `q - h` on floats is a number exactly when both operands are, and then the difference; NaN otherwise |
| Common.Filter | salah_at_35k_calculator.py:347-349 | a boolean-mask selection never has more rows than its input |
| Common.FilterMeaning | salah_at_35k_calculator.py:347-349 | an element is kept exactly when it is an input element the mask accepts, and nothing is duplicated |
| Common.FilterAppend | salah_at_35k_calculator.py:347-349 | the mask works row by row: filtering distributes over concatenation |
| Common.FilterAll | salah_at_35k_calculator.py:347-348 | a mask that accepts everything keeps every row |
| Common.FilterTwice | salah_at_35k_calculator.py:347-349 | two masks in a row are one mask by their conjunction |
| Common.Collect | salah_at_35k_calculator.py:452-457 | parsing a list of texts one by one gives one value per text when nothing raises |
| Common.CollectEach | salah_at_35k_calculator.py:452-457 | each value is its own text's parse; the whole raises exactly when some text does, with the first such exception |
| Text.Split | salah_at_35k_calculator.py:68-69 | `split(":")` yields at least one field and no field holds the separator; the fields joined with ":" give the text back, and text without ":" is its own single field |
| Text.SplitAt | salah_at_35k_calculator.py:68-69 | text up to the first separator is the first field, the rest split on |
| Text.Lower | FlightDatalogic.py:432 | `lower()` of a character: upper-case ASCII letters move down 32, everything else unchanged |
| Text.Upper | FlightDatalogic.py:447 | `upper()` of a character: lower-case ASCII letters move up 32, everything else unchanged |
| Text.LowerStr | FlightDatalogic.py:432 | `lower()` of a string maps each character by `Lower` |
| Text.UpperStr | FlightDatalogic.py:447 | `upper()` of a string maps each character by `Upper` |
| Text.LowerChars | Frontend.py:42 | lower-cased text holds no upper-case letter |
| Text.LowerKeeps | Frontend.py:42 | text without upper-case letters is its own lower case |
| Text.LeadingSpaces | FlightDatalogic.py:422 | `\s*` at the start: the longest whitespace prefix |
| Text.LeadingSpacesBefore | FlightDatalogic.py:422 | the leading whitespace stops at the first non-whitespace character |
| Text.LeadingSpacesOf | FlightDatalogic.py:422 | whitespace followed by text that does not start with whitespace is exactly that whitespace |
| Text.TrailingSpaces | FlightDatalogic.py:419 | the longest whitespace suffix |
| Text.LStrip | FlightDatalogic.py:419 | `lstrip()` leaves text that does not start with whitespace |
| Text.RStrip | FlightDatalogic.py:419 | `rstrip()` leaves text that does not end with whitespace |
| Text.Strip | FlightDatalogic.py:419 | `strip()` leaves text with whitespace at neither end |
| Text.StripChars | Frontend.py:42 | stripping only drops characters |
| Text.StripEnds | FlightDatalogic.py:443 | text with whitespace at neither end is already stripped |
| Text.StripNoSpace | FlightDatalogic.py:443 | text without whitespace is already stripped |
| Text.ContainsAt | salah_at_35k_calculator.py:348 | an occurrence at some position makes `p in s` true |
| Text.ContainsWitness | salah_at_35k_calculator.py:348 | `p in s` has an occurrence at some position |
| Text.IndexOf | FlightDatalogic.py:84 | the first position of a character that occurs: it is there and not before |
| Text.ParseDigits | salah_at_35k_calculator.py:68-69 | digit text has a value exactly when it is digits with single underscores between digits (PEP 515); plain digits have their decimal value |
| Text.Ungrouped | salah_at_35k_calculator.py:68-69 | dropping the underscores of digits-and-underscores leaves digits; plain digits are unchanged |
| Text.UngroupedAppend | salah_at_35k_calculator.py:68-69 | dropping underscores distributes over concatenation |
| Text.GroupedJoin | salah_at_35k_calculator.py:68-69 | two digit groups joined by one underscore are grouped digits |
| Text.UngroupedJoin | salah_at_35k_calculator.py:68-69 | two digit groups joined by one underscore lose only the underscore |
| Text.ParseDigitsGrouping | salah_at_35k_calculator.py:68-69 | `1_0` reads as `10`: an underscore between digit groups does not change the value |
| Text.ParseIntGrouped | salah_at_35k_calculator.py:68-69 | `int()` of grouped digits is the value of the digits with underscores dropped |
| Text.ParseIntDigits | salah_at_35k_calculator.py:68-69 | `int()` of digit text is the digits' value |
| Text.DigitChar | salah_at_35k_calculator.py:546 | a digit 0..9 as its character |
| Text.Dec | salah_at_35k_calculator.py:546 | the decimal text of a natural number is digits whose value is that number |
| Text.IntStr | salah_at_35k_calculator.py:546 | `str(n)` is never empty |
| Text.Pad2 | salah_at_35k_calculator.py:546 | `f"{n:02d}"` for n in 0..99: two digits whose value is n |
| Text.WordEnd | Frontend_Dev.py:114 | a word ends at the first whitespace; text that starts with a non-space has a non-empty first word |
| Text.Words | Frontend_Dev.py:114 | `split()`: every field is non-empty and holds no whitespace |
| Text.WordEndOf | Frontend_Dev.py:114 | a word ends at the first whitespace |
| Text.WordsAllSpace | Frontend_Dev.py:114 | `split()` of all-whitespace text has no field |
| Text.WordsCons | Frontend_Dev.py:114 | `split()` of whitespace, a word, then text starting with whitespace or empty is that word followed by the fields of the rest |
| Text.JoinSpaceCollapsed | FlightDatalogic.py:324 | joining non-empty words with single spaces gives single-spaced text, non-empty when there is a word |
| Text.CollapseSpaces | FlightDatalogic.py:324 | `" ".join(s.split())` is single-spaced text with no space at either end |
| ClockText.To24HourDial | salah_at_35k_calculator.py:84-89 | for hours 1..12: "12 AM" is 0, "12 PM" is 12, any other PM hour adds 12, any other AM hour is unchanged; the result is in 0..23 and is PM exactly when at least 12 |
| ClockText.Extract24HrTimeReads | salah_at_35k_calculator.py:74-91 | "hh:mm XM" reads as the 24-hour hour of that dial and the minutes unchanged; any suffix but "PM" counts as AM |
| ClockText.ClockTextSlices | salah_at_35k_calculator.py:79-80 | `time_12hr[-2:]` is the suffix and `time_12hr[:-3]` the clock of "clock?XY" |
| ClockText.SentinelIsNaN | salah_at_35k_calculator.py:61-63 | "-----" reads as the (NaN, NaN) pair in both parsers |
| ClockText.HourMinute | salah_at_35k_calculator.py:68-69 | field 0 is read first and a ValueError there wins; text without ":" whose field 0 reads raises IndexError ("list index out of range") |
| ClockText.HourMinuteReads | salah_at_35k_calculator.py:68-69 | `int` of the fields before and after ":" gives the hour and minute digits' values |
| ClockText.Parse24HrTimeReads | salah_at_35k_calculator.py:60-71 | "hh:mm" reads as (hh, mm) |
| ClockText.ConvertTo12HrDial | salah_at_35k_calculator.py:94-108 | for a time in [0, 24): an hour in 1..12, minutes in 0..59, AM exactly before noon, and the 12-hour hour maps back to the time's whole hour |
| ClockText.Format12RoundTrip | salah_at_35k_calculator.py:542-546 | formatting a time in [0, 24) as "hh:mm XM" and reading it back with `Extract24HrTime` recovers its whole hour and whole minute |
| ClockText.TimezoneCorrection | salah_at_35k_calculator.py:185-188 | fails exactly on the NaN pair (`int(nan)` raises); otherwise an hour and minute |
| ClockText.TimezoneCorrectionShifts | salah_at_35k_calculator.py:185-188 | for an offset in whole minutes, the corrected clock is the input clock moved back by the offset |
| Track.Facilities | salah_at_35k_calculator.py:345 | the facility column, one entry per row |
| Track.Unique | salah_at_35k_calculator.py:345 | `unique()`: the same values, no repeats, the first value first |
| Track.FacilityFilteredNone | salah_at_35k_calculator.py:347-348 | filtering with no facility keeps every row |
| Track.FacilityStep | salah_at_35k_calculator.py:347-348 | one pass of the loop drops the rows containing the facility's first five characters on top of the earlier passes |
| Track.GapStep | salah_at_35k_calculator.py:349 | dropping the "Gap" rows completes the kept-rows filter |
| Track.Sanitise | salah_at_35k_calculator.py:345-351 | the loop's result is the rows that mention neither "Gap" nor any facility but the first, with 5 dropped from the head and 15 from the tail |
| Track.KeepRowsAppend | salah_at_35k_calculator.py:347-349 | the filter works row by row, keeping order |
| Track.KeepRowsMembers | salah_at_35k_calculator.py:347-349 | a row survives exactly when it is in the input and clears every filter |
| Track.TrimDrops | salah_at_35k_calculator.py:351 | `iloc[5:-15]` keeps the rows from the sixth on, 20 fewer, and nothing when 20 or fewer remain |
| Track.GetRepeatedSubstring | salah_at_35k_calculator.py:121-126 | the result is a prefix that the input repeats exactly; it is the input or at most half its length; no shorter prefix repeats to the input |
| Track.QuotientOne | salah_at_35k_calculator.py:124 | `len(s) // len(part)` is 1 when the length is at least j and below 2j |
| Track.LongPrefixNoPeriod | salah_at_35k_calculator.py:122 | no prefix longer than half the text (and shorter than it) repeats to the text |
| Track.RepeatPeriod | salah_at_35k_calculator.py:124 | a prefix repeated at least twice starts with itself and then its first character again |
| Track.RepeatedUnitExamples | salah_at_35k_calculator.py:121-126 | "350350" gives "350" and "12" gives "12" |
| Track.Mod24 | salah_at_35k_calculator.py:460-462 | `np.mod(x, 24)` lies in [0, 24), is x itself inside that range, and differs from x by a whole multiple of 24 |
| Track.MidnightWrap | salah_at_35k_calculator.py:392-399 | the correction is the plain difference or that shifted by one day; not early, it is non-negative exactly when departure plus 24 h reaches the route start, and early, it is at most zero exactly when the route start plus 24 h reaches the departure; for clocks in [0, 24) it lies in [0, 24) (late) or (-24, 0] (early) |
| Track.PrayerHoursIn | salah_at_35k_calculator.py:452-457 | one parsed time per prayer asked for |
| Track.PrayerHoursInEach | salah_at_35k_calculator.py:452-457 | each prayer time is its own text's parse; the parses fail exactly when one of them raises, and then with the error of the first one that does |
| Track.ParsePosition | salah_at_35k_calculator.py:452-457 | every prayer has its place in the parse order |
| Track.PrayerHoursEach | salah_at_35k_calculator.py:433-468 | all six prayer texts parse or the row raises, and "-----" gives no time |
| Track.FlightTime | salah_at_35k_calculator.py:443-462 | a row's flight clock is in [0, 24) whenever the correction is known, and raises exactly when the row's clock text does |
| Track.Readings | salah_at_35k_calculator.py:422 | one altitude reading per row |
| Track.ReadingsAt | salah_at_35k_calculator.py:422 | the i-th reading is the i-th row's |
| Track.ReadAltitude | salah_at_35k_calculator.py:422 | the loop's altitude read is the row's reading: its repeated unit through `float()` |
| Track.ReadPoint | salah_at_35k_calculator.py:421-470 | a track point keeps the carried altitude, and has a flight clock in [0, 24) exactly when the correction is known |
| Track.Steps | salah_at_35k_calculator.py:420-471 | one step per row visited |
| Track.StepsAt | salah_at_35k_calculator.py:420-471 | step i reads row i with the altitude carried through row i |
| Track.Prefix | salah_at_35k_calculator.py:420-471 | the first n values, as many as asked |
| Track.PrefixAt | salah_at_35k_calculator.py:420-471 | element i of the first n values is value i |
| Track.ReadEach | salah_at_35k_calculator.py:420-471 | one outcome per row |
| Track.ReadEachAt | salah_at_35k_calculator.py:420-471 | row i's outcome is the row read at the altitude carried through row i |
| Track.CarryAltitude | salah_at_35k_calculator.py:420-471 | `prev_height` after row i is that row's altitude when it reads one, else the earlier value |
| Track.AllOk | salah_at_35k_calculator.py:420-471 | the loop finishes with every step's value in order, or fails exactly when some step raises |
| Track.AllOkFirstErr | salah_at_35k_calculator.py:420-471 | the run fails with the first raising row's exception |
| Track.AllOkStopsAt | salah_at_35k_calculator.py:420-471 | after a run of rows that succeed, the first row that raises is the loop's exception |
| Track.AllOkExtend | salah_at_35k_calculator.py:420-471 | a successful step appends its point to the points so far |
| Track.ReadRow | salah_at_35k_calculator.py:421-470 | the loop body computes step i |
| Track.CollectTrack | salah_at_35k_calculator.py:403-471 | the loop over the rows with its `prev_height` accumulator yields exactly the row-by-row steps, or the first exception |
| Track.CarriedAltitudeIsLastReading | salah_at_35k_calculator.py:418-429 | the altitude is 0 when no reading so far parsed, and otherwise the last reading that did |
| Track.TrackPointsInDay | salah_at_35k_calculator.py:403-471 | a finished loop has one point per row, with the carried altitude and a flight clock in [0, 24) when the correction is known; the loop fails exactly when some row raises |
| Schedule.Diff | salah_at_35k_calculator.py:474-479 | the absolute difference, missing when either time is |
| Schedule.Argwhere | salah_at_35k_calculator.py:112 | the ascending list of all indices whose difference is at most 0.2 h, NaN never matching |
| Schedule.CalculateInflightPrayertime | salah_at_35k_calculator.py:111-118 | the first index within 0.2 h, with every earlier one farther, and the flight clock there; no index and no time when none qualifies |
| Schedule.DiffColumn | salah_at_35k_calculator.py:474-479 | one difference per track point |
| Schedule.FlightColumn | salah_at_35k_calculator.py:460-462 | one flight clock per track point |
| Schedule.CrossingIsFirstMatch | salah_at_35k_calculator.py:474-490 | a prayer's crossing is the first track point where the flight clock meets that prayer time; index and time are present together |
| Schedule.Combined | salah_at_35k_calculator.py:503-515 | six entries in declaration order (Fajr, Sunrise, Dhuhr, Asr, Maghrib, Isha), each its prayer's crossing |
| Schedule.KeyLeTotal | salah_at_35k_calculator.py:518 | the sort key's order is total |
| Schedule.Unplaced | salah_at_35k_calculator.py:518 | the entries without an index, taken from the input |
| Schedule.UnplacedTies | salah_at_35k_calculator.py:518 | the entries without an index are exactly those tied at the "missing" key |
| Schedule.OrderedEntries | salah_at_35k_calculator.py:517-521 | the sorted list is a permutation of the six entries, each still its prayer's crossing with its index inside the track |
| Schedule.PlacedFirstAscending | salah_at_35k_calculator.py:518 | indexed entries come before the others, in ascending index order |
| Schedule.UnplacedInDeclarationOrder | salah_at_35k_calculator.py:518 | the stable sort keeps the entries without an index in declaration order |
| Schedule.Relative | salah_at_35k_calculator.py:537-539 | the relative bearing exists exactly when both bearings do and is absolute minus heading, NaN propagating |
| Schedule.PlanOf | salah_at_35k_calculator.py:523-557 | six schedule rows and six absolute and relative bearings |
| Schedule.CollectCrossings | salah_at_35k_calculator.py:503-515 | the loop builds `combined` |
| Schedule.Bearings | salah_at_35k_calculator.py:524-535 | per sorted entry, the qibla bearing and heading at its index, none without an index |
| Schedule.RelativeBearings | salah_at_35k_calculator.py:537-539 | per entry, the relative bearing of its pair |
| Schedule.ScheduleRows | salah_at_35k_calculator.py:548-557 | per entry, its schedule row |
| Schedule.AssembleSchedule | salah_at_35k_calculator.py:503-557 | the statements from `combined` to `schedule` produce the plan |
| Schedule.PlanRowsConsistent | salah_at_35k_calculator.py:523-557 | each row names a prayer and carries its crossing index and its crossing time; the 24-hour time, both bearings and the 12-hour text are missing (or "—") exactly when the index is |
| Schedule.PlanRowAt | salah_at_35k_calculator.py:523-557 | the same for one row |
| Schedule.PlanTimesOnTrack | salah_at_35k_calculator.py:501-557 | a row with an index reports the flight clock of that track point, which is known |
| StableSort.SortPermutes | salah_at_35k_calculator.py:518 | sorting permutes its input |
| StableSort.InsertPermutes | salah_at_35k_calculator.py:518 | inserting one element adds exactly that element |
| StableSort.InsertSorted | salah_at_35k_calculator.py:518 | inserting into sorted input under a total preorder keeps it sorted |
| StableSort.InsertTies | Frontend_Dev.py:94 | an inserted element goes after every element that ties with it |
| StableSort.NoTiesAbove | Frontend_Dev.py:94 | sorted input that starts strictly above a key has nothing tying with it |
| StableSort.TiesAppend | Frontend_Dev.py:94 | the ties of a concatenation are the ties of each part, in order |
| StableSort.SortSorted | salah_at_35k_calculator.py:518 | under a total order the output is sorted |
| StableSort.SortStable | Frontend_Dev.py:94 | elements with equal keys keep their input order |
| Pipeline.SalahCalculator | salah_at_35k_calculator.py:345-557 | the stages in the source's order, the first exception ending the run |
| Pipeline.SalahOutcome | salah_at_35k_calculator.py:345-557 | with 20 or fewer rows left after filtering the run raises at `iloc[0]`; a finished run has 20 fewer rows than the filtered ones (`iloc[5:-15]` drops 5 from the head and 15 from the tail), and the first kept row's origin coordinates (`float(...[:6])` of its latitude and longitude) read as floats |
| Pipeline.SalahFinished | salah_at_35k_calculator.py:403-557 | a finished run's plan is `PlanOf` the track the loop builds (one point per surviving row, altitudes carried forward); every row is consistent with that track, and a row with an index reports that point's flight clock, a time in [0, 24) |
| FlightData.FirstDigit | FlightDatalogic.py:114 | the first digit at or after a position |
| FlightData.DigitRunEnd | FlightDatalogic.py:114 | the end of the digit run starting at a position |
| FlightData.FirstDigitRun | FlightDatalogic.py:113-115 | `_digits`: "" exactly when there is no digit, else the first maximal run of digits |
| FlightData.KeepAlnum | FlightDatalogic.py:120 | only ASCII letters and digits remain |
| FlightData.NormalizeFlight | FlightDatalogic.py:118-120 | only upper-case letters and digits remain, never more than the input |
| FlightData.KeepAlnumAppend | FlightDatalogic.py:120 | the filter works character by character |
| FlightData.NormalizeFlightKeepsOrder | FlightDatalogic.py:118-120 | each alphanumeric character is kept upper-cased, in order, and every other character dropped |
| FlightData.KeepAlnumAll | FlightDatalogic.py:120 | alphanumeric text is kept whole |
| FlightData.NormalizeFlightIdempotent | FlightDatalogic.py:118-120 | normalising twice is normalising once |
| FlightData.SegmentEnd | FlightDatalogic.py:127 | the end of the run of characters other than "/", "?" and "#" |
| FlightData.FindIdent | FlightDatalogic.py:127 | the first position where "/live/flight/" (any case) is followed by a segment character |
| FlightData.ExtractIdentFromUrl | FlightDatalogic.py:123-128 | none exactly when no "/live/flight/" is followed by a segment; otherwise the non-empty segment after the first such occurrence |
| FlightData.ExtractIdentExample | FlightDatalogic.py:125 | ".../live/flight/UAL123/history" gives "UAL123" |
| FlightData.ParenGroup | FlightDatalogic.py:84 | after the opening parenthesis the code group is non-empty, holds no ")", is closed by the first ")" and followed only by whitespace |
| FlightData.LazyEnd | FlightDatalogic.py:84 | the shortest name that completes a match from a start |
| FlightData.SearchFrom | FlightDatalogic.py:84 | `re.search`: the leftmost start, then the shortest name |
| FlightData.ParseAirport | FlightDatalogic.py:83-87 | the raw text exactly when the pattern does not match; else the stripped name and code of the leftmost, laziest match |
| FlightData.CodeAtClose | FlightDatalogic.py:84 | text ending in " (CODE)" has a code group at the parenthesis |
| FlightData.CloseSpaces | FlightDatalogic.py:84 | `\s*` before " (" at the end of the name takes exactly one space |
| FlightData.CloseIndex | FlightDatalogic.py:84 | `[^)]+` stops at the appended ")" |
| FlightData.CodeAtInsideName | FlightDatalogic.py:84 | no earlier split of a name without "(" matches |
| FlightData.ParseAirportNameCode | FlightDatalogic.py:83-87 | "Name (CODE)" splits into the stripped name and code |
| FlightData.RemoveTags | FlightDatalogic.py:322 | no "<…>" tag is left and no character is invented |
| FlightData.ReplaceNbsp | FlightDatalogic.py:323 | no non-breaking space is left, length kept |
| FlightData.VisibleAppend | FlightDatalogic.py:324 | non-whitespace content is taken piecewise |
| FlightData.VisibleOfSpaces | FlightDatalogic.py:324 | whitespace has no visible content |
| FlightData.VisibleOfWord | FlightDatalogic.py:324 | a word is all visible content |
| FlightData.VisibleHas | FlightDatalogic.py:324 | a non-space character occurs exactly when it occurs in the visible content |
| FlightData.NoTagVisible | FlightDatalogic.py:322 | tag-freeness does not depend on whitespace |
| FlightData.VisibleNbsp | FlightDatalogic.py:323 | replacing non-breaking spaces keeps the visible content |
| FlightData.VisibleWords | FlightDatalogic.py:324 | `split()` keeps every visible character in order |
| FlightData.VisibleJoin | FlightDatalogic.py:324 | joining words with spaces keeps their characters |
| FlightData.CollapseKeepsVisible | FlightDatalogic.py:324 | `" ".join(s.split())` keeps the visible content |
| FlightData.StripCollapsed | FlightDatalogic.py:324 | the trailing `.strip()` changes nothing on joined words |
| FlightData.StripTags | FlightDatalogic.py:318-324 | "" for empty input; otherwise no tag, no non-breaking space, no edge whitespace and no double spaces |
| FlightData.StripTagsKeepsText | FlightDatalogic.py:318-324 | the output's visible characters are those of the unescaped text with the tags removed, in order |
| FlightData.ItemOf | FlightDatalogic.py:257-288 | an item carries a status exactly when it carries no duration, the status exactly when the seventh cell matches Scheduled, Cancelled, Diverted, En route or Delayed, that cell's text in whichever field is set, both airports parsed, the date reformatted by `strptime` or kept raw when it does not parse, and the aircraft, departure and arrival cells by position |
| FlightData.CollectHistory | FlightDatalogic.py:246-288 | the loop appends exactly the items of the rows not skipped (fewer than six cells, banner or header row) |
| FlightData.HistoryItemsAppend | FlightDatalogic.py:246-288 | rows contribute independently, in order |
| FlightData.HistoryItemsOne | FlightDatalogic.py:248-255 | a skipped row gives nothing, another its own item |
| FlightData.HistoryItemsEmpty | FlightDatalogic.py:246-291 | no items exactly when every row is skipped |
| FlightData.ConcatAppend | FlightDatalogic.py:246-288 | the items of two row runs are those of each, in order |
| FlightData.ConcatEmpty | FlightDatalogic.py:246-291 | no items exactly when no row gives any |
| FlightData.GetFlightHistory | FlightDatalogic.py:207-292 | `count` is the number of items, the source is FlightAware, the ident is reported once resolved, and there is an error exactly when no table was scraped: "No flight found" when no ident resolved or the page had no table, "Fetch error: " and the exception's message when resolving or fetching raised |
| FlightData.GetFlightHistoryJson | FlightDatalogic.py:295-303 | status 200 exactly when the scraped table has a row that is not skipped, 404 otherwise |
| FetchDate.DigitRun | FlightDatalogic.py:422 | the leading digit run |
| FetchDate.MeridiemAt | FlightDatalogic.py:422 | the optional meridiem group as written consumes two letters |
| FetchDate.MeridiemSwallowsZone | FlightDatalogic.py:422 | as written, a zone that begins "Am"/"Pm" followed by a letter has those two letters read as the meridiem |
| FetchDate.MeridiemWordAt | FlightDatalogic.py:422 | with a word boundary the meridiem is the as-written match when a non-word character or the end follows, and nothing otherwise |
| FetchDate.MeridiemWordKeepsZone | FlightDatalogic.py:422 | with the boundary a zone such as "America/Toronto" is left whole, and "AM"/"PM" before a space is still read |
| FetchDate.Meridiem | FlightDatalogic.py:422 | either meridiem group, when it matches, takes two characters within the text |
| FetchDate.ClockAt | FlightDatalogic.py:422 | the clock is one or two hour digits and two minute digits |
| FetchDate.MatchHeader | FlightDatalogic.py:422-427 | a match captures digit-only hour and minute groups and a zone with no newline that does not start with whitespace |
| FetchDate.ZoneAt | FlightDatalogic.py:422 | after the clock: the optional meridiem, then `\s*(.*)$`, so the zone is the end of the text, holds no newline and starts with no whitespace |
| FetchDate.ZoneAtPlain | FlightDatalogic.py:422 | whitespace then a zone that no meridiem group takes (as written: not starting with am/pm; with the boundary: also an am/pm run into a word character) leaves no meridiem and the whole zone |
| FetchDate.ZoneTextParts | FlightDatalogic.py:422 | the zone is the end of "spaces, meridiem, gap, zone" |
| FetchDate.MeridiemAfterSpaces | FlightDatalogic.py:422 | whitespace then am/pm is read as that meridiem, under the boundary only when no word character follows |
| FetchDate.ZoneAtMeridiem | FlightDatalogic.py:422 | "spaces, am/pm, whitespace, zone" gives that meridiem and that zone |
| FetchDate.ClockAtReads | FlightDatalogic.py:422 | `(\d{1,2}:\d{2})` at a position reads "h:mm" or "hh:mm" and ends after the minutes |
| FetchDate.MatchHeaderFrom | FlightDatalogic.py:422-427 | a day, whitespace and a clock at their positions give the header with what `ZoneAt` finds in the rest |
| FetchDate.HeaderTextParts | FlightDatalogic.py:422 | the positions of day, gap, clock and rest in the header text |
| FetchDate.HeaderTextGroups | FlightDatalogic.py:422 | the day group is the first three letters and the clock follows the gap |
| FetchDate.MatchHeaderReads | FlightDatalogic.py:422-427 | "Ddd<ws>h:mm<rest>" is refused exactly when `ZoneAt` refuses the rest, and otherwise gives that day, hour and minute with the meridiem and zone found in the rest |
| FetchDate.DayIndex | FlightDatalogic.py:430-434 | Monday 0 … Sunday 6 for the lower-cased name; none exactly when it is not a day name |
| FetchDate.Lookup | FlightDatalogic.py:449-450 | found exactly when the key is in the table, with that entry's value |
| FetchDate.AbbreviationKeys | FlightDatalogic.py:10-45 | every table key begins with an upper-case letter |
| FetchDate.DropUtcPrefix | FlightDatalogic.py:458 | text not starting with "utc"/"gmt" in any case is unchanged; otherwise exactly the prefix and the whitespace after it are removed, leaving the end of the text |
| FetchDate.DropUtcPrefixAt | FlightDatalogic.py:458 | for "UTC", whitespace, then text not starting with whitespace, the result is that text |
| FetchDate.UtcPrefixedStart | FlightDatalogic.py:458 | a "UTC"/"GMT" prefix starts with a letter |
| FetchDate.MatchOffset | FlightDatalogic.py:459 | a match needs a leading "+" or "-" and is negative exactly for "-"; the hour and minute groups are at most 99 |
| FetchDate.DigitsBound | FlightDatalogic.py:459 | a one- or two-digit group is at most 99 |
| FetchDate.DigitsValueBound | FlightDatalogic.py:459 | one digit is below 10, two below 100 |
| FetchDate.NumericOffset | FlightDatalogic.py:462-469 | raises exactly when hours exceed 14 or minutes 59; otherwise ±(60·hours + minutes), negative only with "-" |
| FetchDate.TableOffset | FlightDatalogic.py:449-454 | an offset exactly for a table key; its magnitude is 60·abs(hh) + abs(mm) of that key's entry and it is negative exactly when the entry's hours are |
| FetchDate.AbbreviationLetters | FlightDatalogic.py:10-45 | every table key is upper-case letters only |
| FetchDate.NotAbbreviation | FlightDatalogic.py:449-456 | upper-cased text with a non-letter is neither a table key nor "UTC"/"GMT" |
| FetchDate.ZoneOffsetUnlisted | FlightDatalogic.py:443-458 | stripped text with a non-letter skips the table and the "UTC"/"GMT" test |
| FetchDate.SignedIsUnlisted | FlightDatalogic.py:447-458 | stripped text starting with a sign skips the table and the "UTC"/"GMT" test |
| FetchDate.SignedGoesNumeric | FlightDatalogic.py:458-469 | signed text that the offset pattern reads as an offset is that numeric offset |
| FetchDate.TwoDigits | FlightDatalogic.py:463 | two digits read as tens and units |
| FetchDate.MinutesPartReads | FlightDatalogic.py:459 | ":mm" or "mm" reads as the minutes |
| FetchDate.WithHourDigitsReads | FlightDatalogic.py:459 | the hour digits then the minutes read as both values |
| FetchDate.OneDigitHour | FlightDatalogic.py:459 | a one-digit hour cannot be read as two |
| FetchDate.MatchOffsetReads | FlightDatalogic.py:459-463 | "+h[h][:]mm" matches with its sign, hours and minutes |
| FetchDate.ZoneOffsetNumeric | FlightDatalogic.py:443-469 | a signed "hh:mm" or "hhmm" zone is the numeric offset of its sign, hours and minutes |
| FetchDate.MatchOffsetHoursOnly | FlightDatalogic.py:459-463 | "+h", "+hh", "-h" or "-hh" matches with its sign, those hours and zero minutes |
| FetchDate.ZoneOffsetHoursOnly | FlightDatalogic.py:443-469 | a zone such as "+03" or "-05" is the numeric offset of its sign and hours, zero minutes |
| FetchDate.ZoneOffsetPrefixed | FlightDatalogic.py:443-469 | a zone such as "UTC+3" or "GMT +03:00" is the numeric offset of what follows the prefix |
| FetchDate.ZoneOffsetName | FlightDatalogic.py:443-474 | a name with a non-letter (such as "America/Toronto") goes to the zone database: its offset, or "Invalid timezone: " and the name |
| FetchDate.Weekday | FlightDatalogic.py:497 | a weekday in 0..6 |
| FetchDate.SelectWeek | FlightDatalogic.py:497-511 | the target has the requested weekday, 0..6 days ahead in future mode and 0..6 days back otherwise |
| FetchDate.WeekdayWindowUnique | FlightDatalogic.py:500-509 | within seven days a weekday fixes the date, so the target is the only one |
| FetchDate.ParseRequest | FlightDatalogic.py:419-474 | a parsed request has a day index in 0..6 |
| FetchDate.ParseRequestFrom | FlightDatalogic.py:419-474 | a matched header with a known day and a valid clock is that day with its zone's offset, or the zone's error |
| FetchDate.RequestTextStripped | FlightDatalogic.py:419 | "Ddd h:mm<rest>" with no whitespace at the end is unchanged by `strip()` |
| FetchDate.RequestHeader | FlightDatalogic.py:419-427 | "Ddd h:mm<rest>" gives the header of that day and clock with the meridiem and zone `ZoneAt` finds in the rest |
| FetchDate.ParseRequestReads | FlightDatalogic.py:419-474 | "Ddd h:mm<rest>" with a known day and a valid clock is that day with the offset of the zone found in the rest, or that zone's error |
| FetchDate.SwallowedTail | FlightDatalogic.py:422 | as written, " " then a name starting am/pm and a letter gives those two letters as the meridiem and the rest of the name as the zone |
| FetchDate.KeptTail | FlightDatalogic.py:422 | with the boundary, the same text gives no meridiem and the whole name |
| FetchDate.ParseRequestSwallowsZone | FlightDatalogic.py:419-474 | as written, "Mon 7:00 America/Toronto" and every request like it fails with "Invalid timezone: " and the name without its first two letters |
| FetchDate.ParseRequestSwallowsClock | FlightDatalogic.py:419-441 | as written, "Mon 13:00 America/Toronto" and every request like it with an hour 13..23 fails in `strptime`, though the clock alone is valid |
| FetchDate.ParseRequestWordKeepsZone | FlightDatalogic.py:419-474 | with the boundary, such a request reads the day and the whole zone name's offset |
| FetchDate.FetchDate | FlightDatalogic.py:403-511 | with the pattern as written: raises exactly when the text, day, clock or zone is refused, with that error; otherwise the requested weekday within the week after (future mode) or before today in that zone |
| FrontendDev.ApLabel | Frontend_Dev.py:66-69 | never empty; a dict's non-empty "code", else its non-empty "name", else "—"; a non-empty string itself; otherwise "—" |
| FrontendDev.FirstWithDigit | Frontend_Dev.py:114 | the first token holding a digit, none exactly when no token does |
| FrontendDev.StripTzToken | Frontend_Dev.py:111-114 | the first whitespace-separated token with a digit, else the stripped text |
| FrontendDev.StripTzClockFirst | Frontend_Dev.py:111-114 | "08:20AM +03" gives "08:20AM": a clock token before a zone is kept, the zone dropped |
| FrontendDev.ComputeFlightEarly | Frontend_Dev.py:122-129 | true exactly when the lower-cased status contains "early"; false for a missing status |
| FrontendDev.AtLeastTotal | Frontend_Dev.py:89-94 | the descending (date, time) order is total |
| FrontendDev.SortFlights | Frontend_Dev.py:84-94 | a permutation of the rows, non-increasing in (date or `date.min`, time or midnight) |
| FrontendDev.SortFlightsStable | Frontend_Dev.py:94 | rows with equal (date, time) keep their input order |
| FrontendDev.CombineLocal | Frontend_Dev.py:297-305 | none exactly when neither the date nor the departure time parses; otherwise the missing part is today or midnight |
| FrontendDev.SelectPartition | Frontend_Dev.py:316-334 | every row lands in exactly one of current, future and past |
| FrontendDev.SelectStep | Frontend_Dev.py:316-334 | one more row extends exactly the list of its own bucket |
| FrontendDev.KeyedByAppend | Frontend_Dev.py:316-334 | an appended row extends the list of its own bucket and no other |
| FrontendDev.KeyedByPartition | Frontend_Dev.py:316-334 | the three buckets together are a permutation of the rows |
| FrontendDev.KeyedByMembers | Frontend_Dev.py:316-334 | a bucket holds only rows of that bucket |
| FrontendDev.CategorizeFlights | Frontend_Dev.py:307-340 | each list is `sort_flights` of its bucket's rows in input order |
| FrontendDev.CategorizeMeaning | Frontend_Dev.py:307-340 | the lists together are a permutation of the rows; current holds departures dated today, future those later than now on another day, past the rest and the rows without timing |
| FrontendDev.SortedMember | Frontend_Dev.py:336-340 | every row of a sorted bucket belongs to that bucket |
| FrontendDev.SelectMembers | Frontend_Dev.py:317-334 | every selected row belongs to its bucket |
| Frontend.ReplacePunctuation | Frontend.py:43 | each punctuation character becomes a space, the rest unchanged |
| Frontend.ReplacePunctuationKeeps | Frontend.py:43 | text free of punctuation is unchanged |
| Frontend.CollapseRuns | Frontend.py:44 | no longer than the input, starting with a space exactly when it does, only spaces and the input's non-space characters, never two whitespace characters in a row |
| Frontend.CollapseRunsKeeps | Frontend.py:44 | text with only single spaces is unchanged |
| Frontend.NormShape | Frontend.py:40-45 | no upper-case letter, no punctuation, no whitespace but single spaces |
| Frontend.CollapseShape | Frontend.py:44 | collapsing text free of upper case and punctuation leaves it in normal shape |
| Frontend.ReplacePunctuationChars | Frontend.py:43 | after lower-casing and the punctuation pass, neither upper case nor punctuation remains |
| Frontend.SpacedChars | Frontend.py:42-43 | before collapsing, no upper-case letter or punctuation remains |
| Frontend.NormTwice | Frontend.py:40-45 | normalising a normalised name only strips its edge spaces |
| Frontend.StripKeepsRuns | Frontend.py:42 | stripping keeps text with single spaces so |
| Frontend.SingleSpacedSlice | Frontend.py:44 | a slice of single-spaced text is single-spaced |
| Frontend.LastAirline | Frontend.py:58 | the last column that lower-cases to "airline", none exactly when there is none |
| Frontend.AirlineColumn | Frontend.py:58-62 | none exactly when no column lower-cases to "airline"; otherwise the last such column |
| Frontend.Matching | Frontend.py:67-70 | never more rows than the input |
| Frontend.MatchingMeaning | Frontend.py:67-70 | a row is kept exactly when it is an input row matching exactly or with ratio ≥ 0.92; no row is duplicated |
| Frontend.FilterByAirline | Frontend.py:52-70 | columns kept; the frame unchanged for an empty or "All airlines" selection or without an airline column; otherwise the matching rows in order |
| Frontend.FilterByAirlineMeaning | Frontend.py:62-70 | a filtered frame keeps exactly the input rows whose normalised airline equals the normalised selection or is at least 0.92 similar to it |

## Findings

| source | as written | input that shows it | evidently intended | confidence | as-written member | corrected member |
|---|---|---|---|---|---|---|
| FlightDatalogic.py:422 | the optional meridiem group `(?:\s*([AaPp][Mm]))?` has no word boundary | "Mon 7:00 America/Toronto" (an IANA name the docstring lists): "Am" is taken as the meridiem and the zone becomes "erica/Toronto", which raises "Invalid timezone" | `(?:\s*([AaPp][Mm])\b)?`, so only a whole "AM"/"PM" counts | not executed | FetchDate.ParseRequestSwallowsZone | FetchDate.ParseRequestWordKeepsZone |

The header functions take a `wordBoundary` flag. `FetchDate.FetchDate` uses the
pattern as written (`false`), so it keeps the behaviour above; the corrected
pattern (`true`, `FetchDate.MeridiemWordAt`) is proved to keep the whole zone
name. `FetchDate.MeridiemSwallowsZone` and `FetchDate.MeridiemWordKeepsZone`
state the same difference for the meridiem group alone. With the pattern as
written, "Mon 13:00 America/Toronto" also fails, in `strptime` on "13:00 AM"
(`FetchDate.ParseRequestSwallowsClock`).

## Left out

- Network and scraping: `duckduckgo_link`, the FlightAware scrape, `resolve_flightaware_ident`, `_ddg_find_flightaware_ident`, `_scrape_history_page`, `find_activity_table`, `fetch_flightaware_page` and `find_flights`. The scraped rows, cell texts and the outcome of the scrape (`FlightData.Fetch`) are inputs.
- BeautifulSoup's `get_text(" ", strip=True)`: the cell texts of the history table are inputs.
- The PrayTimes library, `float()`, `qibla_direction`, `html.unescape`, `ZoneInfo` and `SequenceMatcher.ratio` are function parameters. So is `strptime` where it reads the history date (FlightData.ItemOf) and the front-end date and time fields (FrontendDev.Parsers). The model assumes nothing about them beyond determinism. The `strptime` clock check of `fetch_date` ("%I:%M %p" or "%H:%M") is modelled concretely by FetchDate.ClockValid.
- `get_tz_offset_loc` and `find_tz_offset` (pytz and TimezoneFinder): the correction offset and the origin's UTC offset are inputs.
- Pipeline.SalahCalculator: the reading of the origin coordinates (lines 367-370) is kept only as the exception it can raise. The coordinates go to the omitted time-zone lookup.
- Plotting: `rotate_shape`, `draw_plane_with_arrow`, the qibla figures and the debug figure. Also left out are the CSV writes and the `print` calls.
- Floating point: times and bearings are exact reals, so rounding in `np.mod`, `/ 60` and `* 60` is not modelled. `round(t, 3)` in the schedule keeps the exact time.
- Schedule.PlanOf: `time_24h` is the exact crossing time rather than `round(t, 3)`.
- The pandas `str.contains` filters are read as plain substring tests, not regular expressions. Facility names with regex metacharacters therefore behave differently.
- Letter case, digits, `\s` and `\b` are ASCII plus Python's whitespace set. Unicode case folding (`casefold`, `upper` on non-ASCII letters) and Unicode digits are not modelled.
- `get_flight_history_json`: the JSON text and the status-500 path for unexpected exceptions (line 304) are left out. Only the status code and the envelope are modelled.
- `FetchDate.FetchDate`: a zone from the database is taken as a whole number of minutes at the current instant. Seconds of the current time are ignored.
- ClockText.HourMinute: the ValueError text is the fixed prefix "invalid literal for int()". Python's message also names the base and quotes the field, and that part is not reproduced.
- `FetchDate.ParseRequest`: `strptime`'s refusal is one error text for both formats. The text of Python's message is not reproduced.
- `categorize_flights`: the arrival time parsed on lines 323-324 is never used, because both branches on lines 327-330 append to `current`. The model omits it, and `now` is one parameter for both `dt.now()` calls.
- Flight records: every field the helpers read is a string (a missing key reads as ""). Values of other types, duplicate column names and pandas indexes are not modelled.
- The Streamlit UI and session state: `render_*`, `handle_search`, `_select_flight`, `call_salah_for_selected`, `main`, `menu` and `load_airports`. The other front-end files are left out too.
- The track arrays are one sequence of per-row records rather than ten parallel numpy arrays.
- Track.Sanitise: every track cell is text. A missing (NaN) cell is not modelled, so neither is the TypeError that `unique_facility[:5]` raises on a NaN facility (salah_at_35k_calculator.py:348), nor how `~str.contains` treats a NaN latitude cell (lines 347-349).
