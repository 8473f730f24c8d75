/** The track-log half of `salah_calculator` (salah_at_35k_calculator.py):
    sanitising the scraped rows, the repair of doubled altitude text, the
    correction between the scraped clock and the departure clock, and the
    row loop that fills one track point per surviving row. */
module Track {
  import opened Common
  import opened Text
  import opened ClockText

  /** One scraped track-log row, every column as its text. */
  datatype RawRow = RawRow(clock: string, latitude: string, longitude: string,
                           course: string, feet: string, facility: string)

  // ----- sanitising the rows -----

  /** The "Reporting Facility" column. */
  function Facilities(rows: seq<RawRow>): (r: seq<string>)
    ensures |r| == |rows|
    ensures forall i :: 0 <= i < |rows| ==> r[i] == rows[i].facility
  {
    if rows == [] then [] else [rows[0].facility] + Facilities(rows[1..])
  }

  /** pandas `unique()`: the distinct values in order of first appearance. */
  function Unique(s: seq<string>): (u: seq<string>)
    ensures forall x :: x in u <==> x in s
    ensures forall i, j :: 0 <= i < j < |u| ==> u[i] != u[j]
    ensures |s| > 0 ==> |u| > 0 && u[0] == s[0]
  {
    if s == [] then []
    else
      var u := Unique(s[..|s| - 1]);
      assert forall x :: x in s <==> x in s[..|s| - 1] || x == s[|s| - 1];
      if s[|s| - 1] in u then u else u + [s[|s| - 1]]
  }

  /** Every distinct facility but the first one seen. */
  function OtherFacilities(rows: seq<RawRow>): seq<string>
  {
    From(Unique(Facilities(rows)), 1)
  }

  /** The latitude text contains the first five characters of none of `fs`. */
  predicate FacilityClear(row: RawRow, fs: seq<string>)
  {
    forall k :: 0 <= k < |fs| ==> !Contains(row.latitude, Slice(fs[k], 0, 5))
  }

  /** A row that survives the facility filters and the "Gap" filter. */
  predicate Keep(row: RawRow, fs: seq<string>)
  {
    FacilityClear(row, fs) && !Contains(row.latitude, "Gap")
  }

  /** The latitude text does not contain `text`. */
  function Lacks(text: string): RawRow -> bool
  {
    (row: RawRow) => !Contains(row.latitude, text)
  }

  /** `FacilityClear` as a function of the row. */
  function Clear(fs: seq<string>): RawRow -> bool
  {
    (row: RawRow) => FacilityClear(row, fs)
  }

  /** `Keep` as a function of the row. */
  function Keeper(fs: seq<string>): RawRow -> bool
  {
    (row: RawRow) => Keep(row, fs)
  }

  /** `df[~df["LatitudeLat"].str.contains(text)]`. */
  function DropContaining(rows: seq<RawRow>, text: string): seq<RawRow>
  {
    Filter(rows, Lacks(text))
  }

  /** The rows that pass the filters of the facilities in `fs`, in order. */
  function FacilityFiltered(rows: seq<RawRow>, fs: seq<string>): seq<RawRow>
  {
    Filter(rows, Clear(fs))
  }

  /** The rows that pass every filter, in order. */
  function KeepRows(rows: seq<RawRow>, fs: seq<string>): seq<RawRow>
  {
    Filter(rows, Keeper(fs))
  }

  /** `df.iloc[5:-15]`. */
  function Trim(rows: seq<RawRow>): seq<RawRow>
  {
    Slice(rows, 5, -15)
  }

  /** With no facility to filter, every row is kept. */
  lemma FacilityFilteredNone(rows: seq<RawRow>)
    ensures FacilityFiltered(rows, []) == rows
  {
    FilterAll(rows, Clear([]));
  }

  /** One more facility filter narrows the filtered rows to those clear of
      that facility as well. */
  lemma FacilityStep(rows: seq<RawRow>, fs: seq<string>, f: string)
    ensures DropContaining(FacilityFiltered(rows, fs), Slice(f, 0, 5)) == FacilityFiltered(rows, fs + [f])
  {
    forall r ensures Clear(fs + [f])(r) == (Clear(fs)(r) && Lacks(Slice(f, 0, 5))(r)) {
      assert forall k :: 0 <= k < |fs| ==> (fs + [f])[k] == fs[k];
      assert (fs + [f])[|fs|] == f;
    }
    FilterTwice(rows, Clear(fs), Lacks(Slice(f, 0, 5)), Clear(fs + [f]));
  }

  /** The "Gap" filter after all facility filters leaves exactly `KeepRows`. */
  lemma GapStep(rows: seq<RawRow>, fs: seq<string>)
    ensures DropContaining(FacilityFiltered(rows, fs), "Gap") == KeepRows(rows, fs)
  {
    FilterTwice(rows, Clear(fs), Lacks("Gap"), Keeper(fs));
  }

  /** The cleanup of lines 345-351: drop rows whose latitude text carries a
      facility label (other than the first facility seen) or "Gap", then
      drop the first 5 and the last 15 rows. */
  method Sanitise(rows: seq<RawRow>) returns (kept: seq<RawRow>)
    ensures kept == Trim(KeepRows(rows, OtherFacilities(rows)))
  {
    var others := OtherFacilities(rows);
    kept := rows;
    FacilityFilteredNone(rows);
    var k := 0;
    while k < |others|
      invariant 0 <= k <= |others|
      invariant kept == FacilityFiltered(rows, others[..k])
    {
      FacilityStep(rows, others[..k], others[k]);
      assert others[..k + 1] == others[..k] + [others[k]];
      kept := DropContaining(kept, Slice(others[k], 0, 5));
      k := k + 1;
    }
    assert others[..k] == others;
    GapStep(rows, others);
    kept := DropContaining(kept, "Gap");
    kept := Trim(kept);
  }

  /** Filtering keeps order: it distributes over concatenation. */
  lemma KeepRowsAppend(a: seq<RawRow>, b: seq<RawRow>, fs: seq<string>)
    ensures KeepRows(a + b, fs) == KeepRows(a, fs) + KeepRows(b, fs)
  {
    FilterAppend(a, b, Keeper(fs));
  }

  /** A row survives the filters exactly when it passes them. */
  lemma KeepRowsMembers(rows: seq<RawRow>, fs: seq<string>)
    ensures |KeepRows(rows, fs)| <= |rows|
    ensures forall x :: x in KeepRows(rows, fs) ==> x in rows && Keep(x, fs)
    ensures forall x :: x in rows && Keep(x, fs) ==> x in KeepRows(rows, fs)
  {
    var keep := Keeper(fs);
    FilterMeaning(rows, keep);
    forall x | x in KeepRows(rows, fs) ensures x in rows && Keep(x, fs) {
      assert keep(x);
    }
    forall x | x in rows && Keep(x, fs) ensures x in KeepRows(rows, fs) {
      assert keep(x);
    }
  }

  /** The trim drops exactly the first 5 and the last 15 rows, and leaves
      nothing from 20 rows or fewer. */
  lemma TrimDrops(rows: seq<RawRow>)
    ensures |Trim(rows)| == if |rows| > 20 then |rows| - 20 else 0
    ensures forall i :: 0 <= i < |Trim(rows)| ==> Trim(rows)[i] == rows[i + 5]
  {
  }

  // ----- altitude text -----

  /** Python's `p * k`. */
  function Repeat(p: string, k: nat): string
  {
    if k == 0 then "" else p + Repeat(p, k - 1)
  }

  /** `s` is its first `i` characters repeated `len(s) // i` times. */
  predicate RepeatsWith(s: string, i: nat)
    requires 1 <= i <= |s|
  {
    s == Repeat(s[..i], |s| / i)
  }

  /** The first prefix length from `i` to `|s| / 2` at which `s` repeats,
      or all of `s`. */
  function RepeatedUnitFrom(s: string, i: nat): string
    requires i >= 1
    decreases |s| / 2 + 1 - i
  {
    if i > |s| / 2 then s
    else if RepeatsWith(s, i) then s[..i]
    else RepeatedUnitFrom(s, i + 1)
  }

  /** What `get_repeated_substring` returns. */
  function RepeatedUnit(s: string): string
  {
    RepeatedUnitFrom(s, 1)
  }

  lemma QuotientOne(n: nat, j: nat)
    requires 0 < j <= n < 2 * j
    ensures n / j == 1
  {
    assert n == j * 1 + (n - j) && 0 <= n - j < j;
  }

  /** `get_repeated_substring`: the shortest prefix, of at most half the
      length, of which `s` is an exact repetition; `s` itself when there is
      none (an altitude scraped as "350350" reads as "350"). */
  method GetRepeatedSubstring(s: string) returns (part: string)
    ensures part == RepeatedUnit(s)
    ensures |part| <= |s| && part == s[..|part|]
    ensures |s| > 0 ==> |part| > 0 && s == Repeat(part, |s| / |part|)
    ensures part == s || 2 * |part| <= |s|
    ensures forall j :: 1 <= j < |part| ==> !RepeatsWith(s, j)
  {
    var i := 1;
    while i <= |s| / 2
      invariant 1 <= i <= |s| / 2 + 1
      invariant RepeatedUnitFrom(s, i) == RepeatedUnit(s)
      invariant forall j :: 1 <= j < i ==> !RepeatsWith(s, j)
    {
      var p := s[..i];
      if s == Repeat(p, |s| / |p|) {
        return p;
      }
      i := i + 1;
    }
    forall j | |s| / 2 < j < |s|
      ensures !RepeatsWith(s, j)
    {
      LongPrefixNoPeriod(s, j);
    }
    if |s| > 0 {
      assert Repeat(s, 1) == s + Repeat(s, 0);
    }
    return s;
  }

  /** A prefix longer than half of `s`, but not all of it, is no period. */
  lemma LongPrefixNoPeriod(s: string, j: nat)
    requires |s| / 2 < j < |s|
    ensures !RepeatsWith(s, j)
  {
    QuotientOne(|s|, j);
    assert Repeat(s[..j], 1) == s[..j] + Repeat(s[..j], 0);
  }

  /** A repetition of at least two copies repeats its first character one
      period later. */
  lemma {:induction false} RepeatPeriod(p: string, k: nat)
    requires |p| > 0 && k >= 2
    ensures |Repeat(p, k)| > |p| && Repeat(p, k)[|p|] == p[0]
    ensures Repeat(p, k)[..|p|] == p
  {
    assert Repeat(p, k) == p + (p + Repeat(p, k - 2));
  }

  lemma RepeatedUnitExamples()
    ensures RepeatedUnit("350350") == "350"
    ensures RepeatedUnit("12") == "12"
  {
    var s := "350350";
    assert !RepeatsWith(s, 1) by { RepeatPeriod(s[..1], 6); }
    assert !RepeatsWith(s, 2) by { RepeatPeriod(s[..2], 3); }
    assert RepeatsWith(s, 3) by {
      assert s[..3] == "350";
      assert Repeat("350", 2) == "350" + ("350" + Repeat("350", 0));
    }
    assert !RepeatsWith("12", 1) by { RepeatPeriod("12"[..1], 2); }
  }

  // ----- clocks -----

  /** `np.mod(x, 24)`: the time of day of a decimal hour count. */
  function Mod24(x: real): (r: real)
    ensures 0.0 <= r < 24.0
    ensures 0.0 <= x < 24.0 ==> r == x
    ensures ((x - r) / 24.0).Floor as real == (x - r) / 24.0
  {
    x - 24.0 * (x / 24.0).Floor as real
  }

  /** A scraped clock column ("Day hh:mmAM", the time from index 4 on)
      read as decimal hours in origin time. */
  function OriginClock(text: string, offset: real): Result<real>
  {
    match Extract24HrTime(From(text, 4))
    case Err(e) => Err(e)
    case Ok(c) =>
      match TimezoneCorrection(c, offset)
      case Err(e) => Err(e)
      case Ok(d) => Ok(Hours(d.hour, d.minute))
  }

  /** Lines 392-399: when early, the route start is moved a day later if it
      precedes the departure; otherwise the departure is moved a day later
      if it precedes the route start. The correction is departure minus
      route start. */
  function MidnightWrap(routeStart: real, departure: real, early: bool): (c: real)
    ensures c == departure - routeStart || c == departure - routeStart + (if early then -24.0 else 24.0)
    ensures !early ==> (c >= 0.0 <==> departure + 24.0 >= routeStart)
    ensures early ==> (c <= 0.0 <==> routeStart + 24.0 >= departure)
    ensures 0.0 <= routeStart < 24.0 && 0.0 <= departure < 24.0 ==>
              if early then -24.0 < c <= 0.0 else 0.0 <= c < 24.0
  {
    if early then
      var rs := if routeStart < departure then routeStart + 24.0 else routeStart;
      departure - rs
    else
      var dep := if departure < routeStart then departure + 24.0 else departure;
      dep - routeStart
  }

  /** `time_correction` (lines 377-399): the first row's clock, corrected to
      origin time, against the departure clock. A "-----" departure gives
      NaN (`None`); unreadable text raises. */
  function TimeCorrection(routeStartClock: string, departure: string, offset: real, early: bool): Result<Option<real>>
  {
    match OriginClock(routeStartClock, offset)
    case Err(e) => Err(e)
    case Ok(routeStart) =>
      match Extract24HrTime(departure)
      case Err(e) => Err(e)
      case Ok(NaNPair) => Ok(None)
      case Ok(HourMin(h, m)) => Ok(Some(MidnightWrap(routeStart, Hours(h, m), early)))
  }

  // ----- the row loop -----

  /** The six prayer boundaries, in the order the schedule lists them. */
  datatype Boundary = Fajr | Sunrise | Dhuhr | Asr | Maghrib | Isha
  {
    function Label(): string
    {
      match this
      case Fajr => "Fajr"
      case Sunrise => "Sunrise"
      case Dhuhr => "Dhuhr"
      case Asr => "Asr"
      case Maghrib => "Maghrib"
      case Isha => "Isha"
    }
  }

  const Boundaries: seq<Boundary> := [Fajr, Sunrise, Dhuhr, Asr, Maghrib, Isha]

  /** One value per prayer boundary. */
  datatype PerBoundary<T> = PerBoundary(fajr: T, sunrise: T, dhuhr: T, asr: T, maghrib: T, isha: T)
  {
    function Get(b: Boundary): T
    {
      match b
      case Fajr => fajr
      case Sunrise => sunrise
      case Dhuhr => dhuhr
      case Asr => asr
      case Maghrib => maghrib
      case Isha => isha
    }
  }

  /** What the row loop takes from outside: Python's `float()` on text
      (`None` where it raises ValueError), and `prayTimes.getTimes` for the
      run's date and origin UTC offset at (latitude, longitude, metres),
      which gives each boundary as "HH:MM" text or "-----". */
  datatype Environment = Environment(
    toFloat: string -> Option<Float>,
    prayerTimes: (Float, Float, real) -> PerBoundary<string>)

  /** One filled slot of the row loop's arrays: the six prayer columns
      hold decimal hours, `None` for NaN. */
  datatype TrackPoint = TrackPoint(heading: Float, altitude: real, latitude: Float, longitude: Float,
                                   flightTime: Option<real>, prayer: PerBoundary<Option<real>>)

  /** The contents of a freshly zeroed slot (`np.zeros`). */
  const Zero := TrackPoint(Real(0.0), 0.0, Real(0.0), Real(0.0), Some(0.0),
                           PerBoundary(Some(0.0), Some(0.0), Some(0.0), Some(0.0), Some(0.0), Some(0.0)))

  const NotAFloat := "could not convert string to float"

  /** pandas' IndexError for a position past the end of a frame. */
  const OutOfBounds := "single positional indexer is out-of-bounds"

  /** A prayer-time text as decimal hours; "-----" is NaN. */
  function PrayerHour(text: string): Result<Option<real>>
  {
    match Parse24HrTime(text)
    case Err(e) => Err(e)
    case Ok(NaNPair) => Ok(None)
    case Ok(HourMin(h, m)) => Ok(Some(Hours(h, m)))
  }

  /** The order in which the row loop parses the six prayer columns. */
  const ParseOrder: seq<Boundary> := [Fajr, Dhuhr, Asr, Maghrib, Isha, Sunrise]

  /** `PrayerHour` of the text of a prayer. */
  function HourOf(texts: PerBoundary<string>): Boundary -> Result<Option<real>>
  {
    b => PrayerHour(texts.Get(b))
  }

  /** The prayer texts of `order` as decimal hours, parsed in that order;
      the first that raises is the error. */
  function PrayerHoursIn(texts: PerBoundary<string>, order: seq<Boundary>): (r: Result<seq<Option<real>>>)
    ensures r.Ok? ==> |r.value| == |order|
  {
    Collect(order, HourOf(texts))
  }

  /** The six prayer texts as decimal hours, parsed in the order fajr,
      dhuhr, asr, maghrib, isha, sunrise. */
  function PrayerHours(texts: PerBoundary<string>): Result<PerBoundary<Option<real>>>
  {
    match PrayerHoursIn(texts, ParseOrder)
    case Err(e) => Err(e)
    case Ok(v) => Ok(PerBoundary(v[0], v[5], v[1], v[2], v[3], v[4]))
  }

  /** Each parsed time is its own text's; parsing fails exactly when one
      of the texts does, with the error of the first that does. */
  lemma PrayerHoursInEach(texts: PerBoundary<string>, order: seq<Boundary>)
    ensures var r := PrayerHoursIn(texts, order);
            && (r.Ok? ==> forall k :: 0 <= k < |order| ==> PrayerHour(texts.Get(order[k])) == Ok(r.value[k]))
            && (r.Err? <==> exists k :: 0 <= k < |order| && PrayerHour(texts.Get(order[k])).Err?)
            && (r.Err? ==> exists k :: 0 <= k < |order| && PrayerHour(texts.Get(order[k])) == Err(r.reason)
                                       && forall j :: 0 <= j < k ==> PrayerHour(texts.Get(order[j])).Ok?)
  {
    var f := HourOf(texts);
    CollectEach(order, f);
    assert forall k :: 0 <= k < |order| ==> f(order[k]) == PrayerHour(texts.Get(order[k]));
  }

  /** Where `b` comes in the parse order. */
  function ParsePosition(b: Boundary): (k: nat)
    ensures k < |ParseOrder| && ParseOrder[k] == b
  {
    match b
    case Fajr => 0
    case Dhuhr => 1
    case Asr => 2
    case Maghrib => 3
    case Isha => 4
    case Sunrise => 5
  }

  /** Each of the six columns holds its own text's hours, `None` exactly
      for "-----"; the row raises exactly when one of the six texts does. */
  lemma PrayerHoursEach(texts: PerBoundary<string>)
    ensures var r := PrayerHours(texts);
            && (r.Ok? ==> forall b: Boundary :: PrayerHour(texts.Get(b)) == Ok(r.value.Get(b)))
            && (r.Err? <==> exists b: Boundary :: PrayerHour(texts.Get(b)).Err?)
    ensures PrayerHour(InvalidTime) == Ok(None)
  {
    PrayerHoursInEach(texts, ParseOrder);
    var r := PrayerHours(texts);
    var rs := PrayerHoursIn(texts, ParseOrder);
    if rs.Ok? {
      forall b: Boundary ensures PrayerHour(texts.Get(b)) == Ok(r.value.Get(b)) {
        var k := ParsePosition(b);
        assert PrayerHour(texts.Get(ParseOrder[k])) == Ok(rs.value[k]);
      }
    } else {
      var k :| 0 <= k < |ParseOrder| && PrayerHour(texts.Get(ParseOrder[k])).Err?;
      assert PrayerHour(texts.Get(ParseOrder[k])).Err?;
    }
    SentinelIsNaN();
  }

  /** The flight clock of a row in the departure's frame: the origin-time
      reading shifted by the correction, reduced modulo 24. */
  function FlightTime(clock: string, offset: real, correction: Option<real>): (r: Result<Option<real>>)
    ensures r.Ok? ==> (r.value.Some? <==> correction.Some?)
    ensures r.Ok? && r.value.Some? ==> 0.0 <= r.value.value < 24.0
    ensures r.Err? <==> OriginClock(clock, offset).Err?
  {
    match OriginClock(clock, offset)
    case Err(e) => Err(e)
    case Ok(t) =>
      match correction
      case None => Ok(None)
      case Some(c) => Ok(Some(Mod24(t + c)))
  }

  /** The altitude text of a row read as a float. */
  function Reading(row: RawRow, toFloat: string -> Option<Float>): Option<Float>
  {
    toFloat(RepeatedUnit(row.feet))
  }

  /** The altitude readings of the rows, in order. */
  function Readings(rows: seq<RawRow>, toFloat: string -> Option<Float>): (r: seq<Option<Float>>)
    ensures |r| == |rows|
  {
    seq(|rows|, i requires 0 <= i < |rows| => Reading(rows[i], toFloat))
  }

  lemma ReadingsAt(rows: seq<RawRow>, toFloat: string -> Option<Float>, i: nat)
    requires i < |rows|
    ensures Readings(rows, toFloat)[i] == Reading(rows[i], toFloat)
  {
  }

  /** No reading in `lo..hi` is an altitude. */
  predicate NoAltitudeIn(readings: seq<Option<Float>>, lo: nat, hi: nat)
    requires hi <= |readings|
  {
    forall k :: lo <= k < hi ==> !IsAltitude(readings[k])
  }

  /** `prev_height` once the first `n` readings are taken: the last
      readable, non-NaN one among them, 0 if none. */
  function CarriedAltitude(readings: seq<Option<Float>>, n: nat): real
    requires n <= |readings|
  {
    if n == 0 then 0.0
    else if IsAltitude(readings[n - 1]) then readings[n - 1].value.v
    else CarriedAltitude(readings, n - 1)
  }

  /** `prev_height` after reading `i`: that reading if it is an altitude,
      else the one carried so far. */
  lemma CarryAltitude(readings: seq<Option<Float>>, i: nat, previous: real)
    requires i < |readings| && previous == CarriedAltitude(readings, i)
    ensures CarriedAltitude(readings, i + 1)
         == if readings[i].Some? && readings[i].value.Real? then readings[i].value.v else previous
  {
  }

  /** One iteration of the row loop, given the altitude it records. */
  function ReadPoint(row: RawRow, altitude: real, offset: real, correction: Option<real>,
                     env: Environment): (r: Result<TrackPoint>)
    ensures r.Ok? ==> r.value.altitude == altitude
    ensures r.Ok? ==> (r.value.flightTime.Some? <==> correction.Some?)
    ensures r.Ok? && r.value.flightTime.Some? ==> 0.0 <= r.value.flightTime.value < 24.0
  {
    var heading := env.toFloat(Slice(row.course, 2, -1));
    var reading := Reading(row, env.toFloat);
    var lat := env.toFloat(Slice(row.latitude, 0, 6));
    var lon := env.toFloat(Slice(row.longitude, 0, 6));
    if heading.None? || reading.None? || lat.None? || lon.None? then Err(NotAFloat)
    else
      var texts := env.prayerTimes(lat.value, lon.value, altitude * 0.3048);
      match FlightTime(row.clock, offset, correction)
      case Err(e) => Err(e)
      case Ok(t) =>
        match PrayerHours(texts)
        case Err(e) => Err(e)
        case Ok(hours) => Ok(TrackPoint(heading.value, altitude, lat.value, lon.value, t, hours))
  }

  /** The first `n` values of `f`, in order. */
  function Prefix<T>(n: nat, f: nat -> T): (r: seq<T>)
    ensures |r| == n
  {
    if n == 0 then [] else Prefix(n - 1, f) + [f(n - 1)]
  }

  lemma {:induction false} PrefixAt<T>(n: nat, f: nat -> T, i: nat)
    requires i < n
    ensures Prefix(n, f)[i] == f(i)
  {
    if i < n - 1 {
      PrefixAt(n - 1, f, i);
    }
  }

  /** One iteration of the row loop as a value: a row read at a given
      altitude. */
  function Reader(offset: real, correction: Option<real>, env: Environment): (RawRow, real) -> Result<TrackPoint>
  {
    (row, altitude) => ReadPoint(row, altitude, offset, correction, env)
  }

  /** Row `i` `read` at its carried altitude (nothing is read past the
      last row). */
  function ReadAt(rows: seq<RawRow>, read: (RawRow, real) -> Result<TrackPoint>, toFloat: string -> Option<Float>)
    : nat -> Result<TrackPoint>
  {
    (i: nat) => if i < |rows| then read(rows[i], CarriedAltitude(Readings(rows, toFloat), i + 1)) else Err(OutOfBounds)
  }

  /** The outcome of each row. Rows do not depend on each other except
      through the carried altitude. */
  function ReadEach(rows: seq<RawRow>, read: (RawRow, real) -> Result<TrackPoint>, toFloat: string -> Option<Float>)
    : (r: seq<Result<TrackPoint>>)
    ensures |r| == |rows|
  {
    Prefix(|rows|, ReadAt(rows, read, toFloat))
  }

  lemma ReadEachAt(rows: seq<RawRow>, read: (RawRow, real) -> Result<TrackPoint>, toFloat: string -> Option<Float>, i: nat)
    requires i < |rows|
    ensures ReadEach(rows, read, toFloat)[i] == read(rows[i], CarriedAltitude(Readings(rows, toFloat), i + 1))
  {
    PrefixAt(|rows|, ReadAt(rows, read, toFloat), i);
  }

  /** The row loop's steps. */
  function Steps(rows: seq<RawRow>, offset: real, correction: Option<real>, env: Environment)
    : (r: seq<Result<TrackPoint>>)
    ensures |r| == |rows|
  {
    ReadEach(rows, Reader(offset, correction, env), env.toFloat)
  }

  lemma StepsAt(rows: seq<RawRow>, offset: real, correction: Option<real>, env: Environment, i: nat)
    requires i < |rows|
    ensures Steps(rows, offset, correction, env)[i]
         == ReadPoint(rows[i], CarriedAltitude(Readings(rows, env.toFloat), i + 1), offset, correction, env)
  {
    ReadEachAt(rows, Reader(offset, correction, env), env.toFloat, i);
  }

  /** Running the steps in order: the first error aborts, otherwise every
      value in order. */
  function AllOk<T>(steps: seq<Result<T>>): (r: Result<seq<T>>)
    ensures r.Ok? ==> |r.value| == |steps| && forall i :: 0 <= i < |steps| ==> steps[i] == Ok(r.value[i])
    ensures r.Err? <==> exists i :: 0 <= i < |steps| && steps[i].Err?
  {
    if steps == [] then Ok([])
    else
      var init := steps[..|steps| - 1];
      assert forall i :: 0 <= i < |init| ==> init[i] == steps[i];
      match AllOk(init)
      case Err(e) => Err(e)
      case Ok(vs) =>
        match steps[|steps| - 1]
        case Err(e) => Err(e)
        case Ok(v) => Ok(vs + [v])
  }

  /** The error the steps end with is that of the first step that fails. */
  lemma {:induction false} AllOkFirstErr<T>(steps: seq<Result<T>>, i: nat)
    requires i < |steps| && steps[i].Err? && forall j :: 0 <= j < i ==> steps[j].Ok?
    ensures AllOk(steps) == Err(steps[i].reason)
  {
    if i < |steps| - 1 {
      AllOkFirstErr(steps[..|steps| - 1], i);
    } else {
      var init := steps[..|steps| - 1];
      assert forall j :: 0 <= j < |init| ==> init[j].Ok?;
    }
  }

  /** After a run of successes, the first failure is the result. */
  lemma AllOkStopsAt<T>(steps: seq<Result<T>>, i: nat, vs: seq<T>)
    requires i < |steps| && AllOk(steps[..i]) == Ok(vs) && steps[i].Err?
    ensures AllOk(steps) == Err(steps[i].reason)
  {
    assert forall j :: 0 <= j < i ==> steps[..i][j] == steps[j];
    AllOkFirstErr(steps, i);
  }

  /** One more successful step extends the values by its own. */
  lemma AllOkExtend<T>(steps: seq<Result<T>>, i: nat, vs: seq<T>, v: T)
    requires i < |steps| && AllOk(steps[..i]) == Ok(vs) && steps[i] == Ok(v)
    ensures AllOk(steps[..i + 1]) == Ok(vs + [v])
  {
    assert steps[..i + 1][..i] == steps[..i];
  }

  /** The body of the row loop once the altitude is carried: row `i` read
      at that altitude. */
  method ReadRow(rows: seq<RawRow>, i: nat, altitude: real, offset: real, correction: Option<real>, env: Environment)
    returns (step: Result<TrackPoint>)
    requires i < |rows| && altitude == CarriedAltitude(Readings(rows, env.toFloat), i + 1)
    ensures step == Steps(rows, offset, correction, env)[i]
  {
    step := ReadPoint(rows[i], altitude, offset, correction, env);
    StepsAt(rows, offset, correction, env, i);
  }

  /** Line 422: the altitude text reduced to its repeated unit, read as a
      float. */
  method ReadAltitude(row: RawRow, env: Environment) returns (reading: Option<Float>)
    ensures reading == Reading(row, env.toFloat)
  {
    var unit := GetRepeatedSubstring(row.feet);
    reading := env.toFloat(unit);
  }

  /** The row loop of lines 403-471: one slot per surviving row, altitude
      carried forward over unreadable (NaN) readings; the first row that
      raises aborts the loop. */
  method CollectTrack(rows: seq<RawRow>, offset: real, correction: Option<real>, env: Environment)
    returns (r: Result<seq<TrackPoint>>)
    ensures r == AllOk(Steps(rows, offset, correction, env))
  {
    ghost var steps := Steps(rows, offset, correction, env);
    ghost var readings := Readings(rows, env.toFloat);
    var points := new TrackPoint[|rows|](_ => Zero);
    var previous := 0.0;
    var i := 0;
    assert steps[..0] == [] && points[..0] == [];
    while i < |rows|
      invariant 0 <= i <= |rows|
      invariant AllOk(steps[..i]) == Ok(points[..i])
      invariant previous == CarriedAltitude(readings, i)
    {
      var reading := ReadAltitude(rows[i], env);
      ReadingsAt(rows, env.toFloat, i);
      CarryAltitude(readings, i, previous);
      if reading.Some? && reading.value.Real? {
        previous := reading.value.v;
      }
      var step := ReadRow(rows, i, previous, offset, correction, env);
      if step.Err? {
        AllOkStopsAt(steps, i, points[..i]);
        return Err(step.reason);
      }
      ghost var done := points[..i];
      assert AllOk(steps[..i + 1]) == Ok(done + [step.value]) by {
        AllOkExtend(steps, i, done, step.value);
      }
      points[i] := step.value;
      assert points[..i + 1] == done + [step.value];
      i := i + 1;
    }
    assert i == points.Length;
    assert steps[..i] == steps && points[..] == points[..i];
    return Ok(points[..]);
  }

  // ----- properties of the row loop -----

  /** A reading that is a number (not NaN, not unreadable). */
  predicate IsAltitude(reading: Option<Float>)
  {
    reading.Some? && reading.value.Real?
  }

  /** The recorded altitude is the last readable, non-NaN reading at or
      before the row, or 0 when there is none. */
  lemma {:induction false} CarriedAltitudeIsLastReading(readings: seq<Option<Float>>, n: nat)
    requires n <= |readings|
    ensures NoAltitudeIn(readings, 0, n) ==> CarriedAltitude(readings, n) == 0.0
    ensures forall j :: 0 <= j < n && IsAltitude(readings[j]) && NoAltitudeIn(readings, j + 1, n) ==>
                        CarriedAltitude(readings, n) == readings[j].value.v
  {
    if n > 0 {
      CarriedAltitudeIsLastReading(readings, n - 1);
      forall j | 0 <= j < n && IsAltitude(readings[j]) && NoAltitudeIn(readings, j + 1, n)
        ensures CarriedAltitude(readings, n) == readings[j].value.v
      {
        if j < n - 1 {
          assert !IsAltitude(readings[n - 1]);
          assert NoAltitudeIn(readings, j + 1, n - 1);
        }
      }
    }
  }

  /** Every point of a completed loop records its carried altitude, has a
      flight clock in [0, 24) (NaN exactly when the correction is NaN); the
      loop raises exactly when some row does. */
  lemma TrackPointsInDay(rows: seq<RawRow>, offset: real, correction: Option<real>, env: Environment)
    ensures var r := AllOk(Steps(rows, offset, correction, env));
            && (r.Ok? ==> |r.value| == |rows| && forall i :: 0 <= i < |rows| ==>
                  && r.value[i].altitude == CarriedAltitude(Readings(rows, env.toFloat), i + 1)
                  && (r.value[i].flightTime.Some? <==> correction.Some?)
                  && (r.value[i].flightTime.Some? ==> 0.0 <= r.value[i].flightTime.value < 24.0))
            && (r.Err? <==>
                  exists i :: 0 <= i < |rows| &&
                                ReadPoint(rows[i], CarriedAltitude(Readings(rows, env.toFloat), i + 1), offset, correction, env).Err?)
  {
    var steps := Steps(rows, offset, correction, env);
    var r := AllOk(steps);
    if r.Ok? {
      forall i | 0 <= i < |rows|
        ensures r.value[i].altitude == CarriedAltitude(Readings(rows, env.toFloat), i + 1)
        ensures r.value[i].flightTime.Some? <==> correction.Some?
        ensures r.value[i].flightTime.Some? ==> 0.0 <= r.value[i].flightTime.value < 24.0
      {
        StepsAt(rows, offset, correction, env, i);
      }
    }
    if r.Err? {
      var i :| 0 <= i < |rows| && steps[i].Err?;
      StepsAt(rows, offset, correction, env, i);
    } else {
      forall i | 0 <= i < |rows|
        ensures ReadPoint(rows[i], CarriedAltitude(Readings(rows, env.toFloat), i + 1), offset, correction, env).Ok?
      {
        StepsAt(rows, offset, correction, env, i);
      }
    }
  }
}
