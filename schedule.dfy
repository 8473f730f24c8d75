/** The end of `salah_calculator`: where the flight clock meets each prayer
    time, the six crossings ordered into a schedule, and the qibla bearing
    at each crossing. */
module Schedule {
  import opened Common
  import opened ClockText
  import opened StableSort
  import opened Track
  import opened Text

  // ----- crossing detection -----

  /** The 0.2 h (12 minute) tolerance of `calculate_inflight_prayertime`. */
  const Tolerance: real := 0.2

  /** `np.abs(prayer - flight)` on one slot; NaN on either side gives NaN. */
  function Diff(prayer: Option<real>, flight: Option<real>): (d: Option<real>)
    ensures d.Some? <==> prayer.Some? && flight.Some?
    ensures d.Some? ==> 0.0 <= d.value && (d.value == prayer.value - flight.value || d.value == flight.value - prayer.value)
  {
    if prayer.None? || flight.None? then None
    else if prayer.value >= flight.value then Some(prayer.value - flight.value)
    else Some(flight.value - prayer.value)
  }

  /** `diff <= 0.2`; a comparison with NaN is false. */
  predicate Within(d: Option<real>)
  {
    d.Some? && d.value <= Tolerance
  }

  /** `np.argwhere(diff <= 0.2)` from index `from` on: every qualifying
      index, in increasing order. */
  function Argwhere(diffs: seq<Option<real>>, from: nat): (r: seq<nat>)
    requires from <= |diffs|
    ensures forall k :: 0 <= k < |r| ==> from <= r[k] < |diffs| && Within(diffs[r[k]])
    ensures forall j :: from <= j < |diffs| && Within(diffs[j]) ==> j in r
    ensures forall k, l :: 0 <= k < l < |r| ==> r[k] < r[l]
    decreases |diffs| - from
  {
    if from == |diffs| then []
    else (if Within(diffs[from]) then [from] else []) + Argwhere(diffs, from + 1)
  }

  /** What `calculate_inflight_prayertime` returns: the first qualifying
      index and the flight clock there, or NaN for both. */
  datatype Crossing = Crossing(index: Option<nat>, time: Option<real>)

  /** `calculate_inflight_prayertime`: the first index within tolerance and
      the flight clock (not the prayer time) at that index. */
  function CalculateInflightPrayertime(diffs: seq<Option<real>>, flights: seq<Option<real>>): (c: Crossing)
    requires |diffs| == |flights|
    ensures c.index.None? <==> forall j :: 0 <= j < |diffs| ==> !Within(diffs[j])
    ensures c.index.Some? ==>
              && c.index.value < |diffs|
              && Within(diffs[c.index.value])
              && (forall j :: 0 <= j < c.index.value ==> !Within(diffs[j]))
              && c.time == flights[c.index.value]
    ensures c.index.None? ==> c.time.None?
  {
    var found := Argwhere(diffs, 0);
    if |found| == 0 then Crossing(None, None)
    else
      assert forall j :: 0 <= j < found[0] && Within(diffs[j]) ==> j in found;
      Crossing(Some(found[0]), flights[found[0]])
  }

  /** Lines 474-479: one boundary's difference column. */
  function DiffColumn(points: seq<TrackPoint>, b: Boundary): (r: seq<Option<real>>)
    ensures |r| == |points|
  {
    seq(|points|, i requires 0 <= i < |points| => Diff(points[i].prayer.Get(b), points[i].flightTime))
  }

  /** The `flight_times` array. */
  function FlightColumn(points: seq<TrackPoint>): (r: seq<Option<real>>)
    ensures |r| == |points|
  {
    seq(|points|, i requires 0 <= i < |points| => points[i].flightTime)
  }

  /** Lines 481-490: the crossing of one boundary. */
  function CrossingOf(points: seq<TrackPoint>, b: Boundary): Crossing
  {
    CalculateInflightPrayertime(DiffColumn(points, b), FlightColumn(points))
  }

  /** A crossing is reported at the first slot where both the flight clock
      and the prayer time are known and within tolerance, and its time is
      the flight clock there, which is then known. */
  lemma CrossingIsFirstMatch(points: seq<TrackPoint>, b: Boundary)
    ensures var c := CrossingOf(points, b);
            && (c.index.Some? <==> exists i :: 0 <= i < |points| && Within(DiffColumn(points, b)[i]))
            && (c.index.Some? ==>
                  var i := c.index.value;
                  && i < |points|
                  && points[i].flightTime.Some? && points[i].prayer.Get(b).Some?
                  && Within(DiffColumn(points, b)[i])
                  && (forall j :: 0 <= j < i ==> !Within(DiffColumn(points, b)[j]))
                  && c.time == points[i].flightTime)
            && (c.index.Some? <==> c.time.Some?)
  {
    var c := CrossingOf(points, b);
    var diffs := DiffColumn(points, b);
    if c.index.Some? {
      var i := c.index.value;
      assert diffs[i] == Diff(points[i].prayer.Get(b), points[i].flightTime);
      assert FlightColumn(points)[i] == points[i].flightTime;
    }
  }

  // ----- ordering the schedule -----

  /** One `combined` entry: index and time, or `None` for both, and the
      boundary it belongs to. */
  datatype Entry = Entry(index: Option<nat>, time: Option<real>, boundary: Boundary)

  /** The crossing of `b` as an entry of `combined` (lines 503-515). */
  function EntryOf(points: seq<TrackPoint>, b: Boundary): Entry
  {
    var c := CrossingOf(points, b);
    Entry(c.index, c.time, b)
  }

  /** `combined` before the sort: one entry per boundary, Fajr to Isha. */
  function Combined(points: seq<TrackPoint>): (r: seq<Entry>)
    ensures |r| == |Boundaries|
    ensures forall k :: 0 <= k < |r| ==> r[k] == EntryOf(points, Boundaries[k])
  {
    seq(|Boundaries|, k requires 0 <= k < |Boundaries| => EntryOf(points, Boundaries[k]))
  }

  /** Python's sort key `(x[0] is None, x[0] if x[0] is not None else 10**9)`. */
  datatype Key = Key(missing: bool, value: int)

  const MissingIndex: int := 1_000_000_000

  /** The key every entry without an index shares. */
  const MissingKey: Key := Key(true, MissingIndex)

  function EntryKey(e: Entry): Key
  {
    match e.index
    case None => MissingKey
    case Some(i) => Key(false, i)
  }

  /** Python's order on the key tuples: `False < True`, then the number. */
  predicate KeyLe(a: Key, b: Key)
  {
    if a.missing != b.missing then !a.missing else a.value <= b.value
  }

  lemma KeyLeTotal()
    ensures TotalPreorder(KeyLe)
  {
  }

  /** `combined` after `combined.sort(key=...)`. */
  function Ordered(points: seq<TrackPoint>): seq<Entry>
  {
    Sort(Combined(points), EntryKey, KeyLe)
  }

  /** The entries without an index, in order. */
  function Unplaced(s: seq<Entry>): (r: seq<Entry>)
    ensures forall k :: 0 <= k < |r| ==> r[k].index.None? && r[k] in s
  {
    if s == [] then []
    else (if s[0].index.None? then [s[0]] else []) + Unplaced(s[1..])
  }

  lemma {:induction false} UnplacedTies(s: seq<Entry>)
    ensures Ties(s, MissingKey, EntryKey, KeyLe) == Unplaced(s)
  {
    if s != [] {
      UnplacedTies(s[1..]);
      assert Tie(KeyLe, EntryKey(s[0]), MissingKey) <==> s[0].index.None?;
    }
  }

  /** The sorted entries are the six crossings, each under its own label,
      and no index lies outside the track. */
  lemma OrderedEntries(points: seq<TrackPoint>)
    ensures |Ordered(points)| == |Boundaries|
    ensures multiset(Ordered(points)) == multiset(Combined(points))
    ensures forall k :: 0 <= k < |Ordered(points)| ==>
              && Ordered(points)[k] == EntryOf(points, Ordered(points)[k].boundary)
              && (Ordered(points)[k].index.Some? ==> Ordered(points)[k].index.value < |points|)
  {
    var s := Combined(points);
    SortPermutes(s, EntryKey, KeyLe);
    forall k | 0 <= k < |Ordered(points)|
      ensures Ordered(points)[k] == EntryOf(points, Ordered(points)[k].boundary)
      ensures Ordered(points)[k].index.Some? ==> Ordered(points)[k].index.value < |points|
    {
      var e := Ordered(points)[k];
      assert e in multiset(Ordered(points));
      assert e in s;
      var j :| 0 <= j < |s| && s[j] == e;
      CrossingIsFirstMatch(points, Boundaries[j]);
    }
  }

  /** The entries with an index come first, in increasing index order. */
  lemma PlacedFirstAscending(points: seq<TrackPoint>)
    ensures forall k, l :: 0 <= k < l < |Ordered(points)| && Ordered(points)[l].index.Some? ==>
              && Ordered(points)[k].index.Some?
              && Ordered(points)[k].index.value <= Ordered(points)[l].index.value
  {
    KeyLeTotal();
    SortSorted(Combined(points), EntryKey, KeyLe);
  }

  /** The entries without an index keep their Fajr-to-Isha order, since
      they share one key and the sort is stable. */
  lemma UnplacedInDeclarationOrder(points: seq<TrackPoint>)
    ensures Unplaced(Ordered(points)) == Unplaced(Combined(points))
  {
    KeyLeTotal();
    SortStable(Combined(points), MissingKey, EntryKey, KeyLe);
    UnplacedTies(Ordered(points));
    UnplacedTies(Combined(points));
  }

  // ----- qibla and the schedule rows -----

  /** One `schedule` dict: the index and 24-hour time are `None` where
      the source writes "—" and `None`. */
  datatype ScheduleRow = ScheduleRow(name: string, index: Option<nat>, time24: Option<real>, time12: string)

  /** What the schedule step hands back: the rows, and per row the absolute
      and relative qibla bearing from which the figures are drawn. */
  datatype Plan = Plan(schedule: seq<ScheduleRow>, qiblaAbsolute: seq<Option<Float>>,
                       qiblaRelative: seq<Option<Float>>)

  /** The row of `schedule` an entry becomes (lines 548-557). */
  function Row(e: Entry): ScheduleRow
  {
    ScheduleRow(e.boundary.Label(), e.index, e.time, Format12(e.time))
  }

  /** `qibla_direction` at the entry's track point, `None` without an index. */
  function QiblaAt(points: seq<TrackPoint>, qibla: (Float, Float) -> Float, e: Entry): Option<Float>
    requires e.index.Some? ==> e.index.value < |points|
  {
    match e.index
    case None => None
    case Some(i) => Some(qibla(points[i].latitude, points[i].longitude))
  }

  /** The heading at the entry's track point, `None` without an index. */
  function HeadingAt(points: seq<TrackPoint>, e: Entry): Option<Float>
    requires e.index.Some? ==> e.index.value < |points|
  {
    match e.index
    case None => None
    case Some(i) => Some(points[i].heading)
  }

  /** Lines 537-539: `None` if either side is `None`, else `q - h`. */
  function Relative(q: Option<Float>, h: Option<Float>): (r: Option<Float>)
    ensures r.Some? <==> q.Some? && h.Some?
    ensures r.Some? ==> (r.value.Real? <==> q.value.Real? && h.value.Real?)
    ensures r.Some? && r.value.Real? ==> r.value.v + h.value.v == q.value.v
  {
    if q.None? || h.None? then None else Some(FloatSub(q.value, h.value))
  }

  /** The schedule step as a whole: the sorted entries, row by row. */
  function PlanOf(points: seq<TrackPoint>, qibla: (Float, Float) -> Float): (p: Plan)
    ensures |p.schedule| == |p.qiblaAbsolute| == |p.qiblaRelative| == |Boundaries|
  {
    var s := Ordered(points);
    OrderedEntries(points);
    Plan(seq(|s|, k requires 0 <= k < |s| => Row(s[k])),
         seq(|s|, k requires 0 <= k < |s| => QiblaAt(points, qibla, s[k])),
         seq(|s|, k requires 0 <= k < |s| => Relative(QiblaAt(points, qibla, s[k]), HeadingAt(points, s[k]))))
  }

  /** No entry's index lies outside the track. */
  predicate IndexesBelow(entries: seq<Entry>, n: nat)
  {
    forall k :: 0 <= k < |entries| && entries[k].index.Some? ==> entries[k].index.value < n
  }

  /** Lines 503-515: `combined`, one entry appended per boundary. */
  method CollectCrossings(points: seq<TrackPoint>) returns (combined: seq<Entry>)
    ensures combined == Combined(points)
  {
    combined := [];
    for k := 0 to |Boundaries|
      invariant |combined| == k
      invariant forall j :: 0 <= j < k ==> combined[j] == EntryOf(points, Boundaries[j])
    {
      var b := Boundaries[k];
      var c := CalculateInflightPrayertime(DiffColumn(points, b), FlightColumn(points));
      assert Entry(c.index, c.time, b) == EntryOf(points, Boundaries[k]);
      combined := combined + [Entry(c.index, c.time, b)];
    }
    assert combined == Combined(points);
  }

  /** Lines 524-535: the qibla bearing and the heading at each indexed
      entry, `None` for the others. */
  method Bearings(points: seq<TrackPoint>, qibla: (Float, Float) -> Float, sorted: seq<Entry>)
    returns (qiblaAbs: seq<Option<Float>>, headings: seq<Option<Float>>)
    requires IndexesBelow(sorted, |points|)
    ensures |qiblaAbs| == |headings| == |sorted|
    ensures forall j :: 0 <= j < |sorted| ==> qiblaAbs[j] == QiblaAt(points, qibla, sorted[j])
    ensures forall j :: 0 <= j < |sorted| ==> headings[j] == HeadingAt(points, sorted[j])
  {
    qiblaAbs, headings := [], [];
    for k := 0 to |sorted|
      invariant |qiblaAbs| == |headings| == k
      invariant forall j :: 0 <= j < k ==> qiblaAbs[j] == QiblaAt(points, qibla, sorted[j])
      invariant forall j :: 0 <= j < k ==> headings[j] == HeadingAt(points, sorted[j])
    {
      match sorted[k].index
      case Some(i) =>
        qiblaAbs := qiblaAbs + [Some(qibla(points[i].latitude, points[i].longitude))];
        headings := headings + [Some(points[i].heading)];
      case None =>
        qiblaAbs := qiblaAbs + [None];
        headings := headings + [None];
    }
  }

  /** Lines 537-539: the relative bearing of each pair. */
  method RelativeBearings(qiblaAbs: seq<Option<Float>>, headings: seq<Option<Float>>)
    returns (qiblaRel: seq<Option<Float>>)
    requires |qiblaAbs| == |headings|
    ensures |qiblaRel| == |qiblaAbs|
    ensures forall j :: 0 <= j < |qiblaAbs| ==> qiblaRel[j] == Relative(qiblaAbs[j], headings[j])
  {
    qiblaRel := [];
    for k := 0 to |qiblaAbs|
      invariant |qiblaRel| == k
      invariant forall j :: 0 <= j < k ==> qiblaRel[j] == Relative(qiblaAbs[j], headings[j])
    {
      var q, h := qiblaAbs[k], headings[k];
      qiblaRel := qiblaRel + [if q.None? || h.None? then None else Some(FloatSub(q.value, h.value))];
    }
  }

  /** Lines 548-557: one schedule row per sorted entry. */
  method ScheduleRows(sorted: seq<Entry>) returns (schedule: seq<ScheduleRow>)
    ensures |schedule| == |sorted|
    ensures forall j :: 0 <= j < |sorted| ==> schedule[j] == Row(sorted[j])
  {
    schedule := [];
    for k := 0 to |sorted|
      invariant |schedule| == k
      invariant forall j :: 0 <= j < k ==> schedule[j] == Row(sorted[j])
    {
      var e := sorted[k];
      schedule := schedule + [ScheduleRow(e.boundary.Label(), e.index, e.time, Format12(e.time))];
    }
  }

  /** Lines 503-557: collect the crossings, sort them, then derive the
      bearings and the rows. */
  method AssembleSchedule(points: seq<TrackPoint>, qibla: (Float, Float) -> Float) returns (plan: Plan)
    ensures plan == PlanOf(points, qibla)
  {
    var combined := CollectCrossings(points);
    var sorted := Sort(combined, EntryKey, KeyLe);
    OrderedEntries(points);
    var qiblaAbs, headings := Bearings(points, qibla, sorted);
    var qiblaRel := RelativeBearings(qiblaAbs, headings);
    var schedule := ScheduleRows(sorted);
    plan := Plan(schedule, qiblaAbs, qiblaRel);
  }

  /** Row `k` of plan `p` names a prayer and carries that prayer's crossing
      index and time; its 24-hour time, both bearings and its 12-hour text are
      missing (or the dash) exactly when the index is. */
  ghost predicate RowConsistent(points: seq<TrackPoint>, p: Plan, k: nat)
  {
    && k < |p.schedule| && k < |p.qiblaAbsolute| && k < |p.qiblaRelative|
    && var row := p.schedule[k];
       && (exists b: Boundary :: && row.name == b.Label() && row.index == CrossingOf(points, b).index
                                 && row.time24 == CrossingOf(points, b).time)
       && (row.index.None? <==> row.time24.None?)
       && (row.index.None? <==> p.qiblaAbsolute[k].None?)
       && (row.index.None? <==> p.qiblaRelative[k].None?)
       && (row.index.None? <==> row.time12 == "\U{2014}")
  }

  lemma PlanRowAt(points: seq<TrackPoint>, qibla: (Float, Float) -> Float, k: nat)
    requires k < |Boundaries|
    ensures RowConsistent(points, PlanOf(points, qibla), k)
  {
    var p := PlanOf(points, qibla);
    var s := Ordered(points);
    OrderedEntries(points);
    var e := s[k];
    CrossingIsFirstMatch(points, e.boundary);
    assert p.schedule[k] == Row(e);
    if e.time.Some? {
      var c := ConvertTo12Hr(e.time.value);
      assert |Format12(e.time)| >= 4 by {
        assert Format12(e.time) == Pad2(c.hour) + ":" + Pad2(c.minute) + " " + c.meridiem.Name();
        assert |c.meridiem.Name()| == 2;
      }
    }
  }

  lemma PlanRowsConsistent(points: seq<TrackPoint>, qibla: (Float, Float) -> Float)
    ensures forall k :: 0 <= k < |Boundaries| ==> RowConsistent(points, PlanOf(points, qibla), k)
  {
    forall k | 0 <= k < |Boundaries| {
      PlanRowAt(points, qibla, k);
    }
  }

  /** A row with an index reports the flight clock of that track point,
      which is then known. */
  lemma PlanTimesOnTrack(points: seq<TrackPoint>, qibla: (Float, Float) -> Float)
    ensures forall k :: 0 <= k < |Boundaries| && PlanOf(points, qibla).schedule[k].index.Some? ==>
              var row := PlanOf(points, qibla).schedule[k];
              && row.index.value < |points|
              && points[row.index.value].flightTime.Some?
              && row.time24 == points[row.index.value].flightTime
  {
    var p := PlanOf(points, qibla);
    var s := Ordered(points);
    OrderedEntries(points);
    forall k | 0 <= k < |Boundaries| && p.schedule[k].index.Some?
      ensures p.schedule[k].index.value < |points|
      ensures points[p.schedule[k].index.value].flightTime.Some?
      ensures p.schedule[k].time24 == points[p.schedule[k].index.value].flightTime
    {
      CrossingIsFirstMatch(points, s[k].boundary);
      assert p.schedule[k] == Row(s[k]);
    }
  }
}
