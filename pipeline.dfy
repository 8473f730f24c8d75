/** `salah_calculator` from the scraped track rows on: sanitise, read the
    origin position and the time correction from the first surviving row,
    run the row loop, and assemble the schedule. The scrape itself, the
    time-zone lookups and the figures are outside the model: the rows, the
    UTC offset correction and the departure text are inputs. */
module Pipeline {
  import opened Common
  import opened Track
  import opened Schedule

  /** The rows that survive sanitising. */
  function Surviving(rows: seq<RawRow>): seq<RawRow>
  {
    Trim(KeepRows(rows, OtherFacilities(rows)))
  }

  /** The origin position `float(...[:6])` of the first surviving row. */
  predicate OriginReadable(first: RawRow, toFloat: string -> Option<Float>)
  {
    toFloat(Slice(first.latitude, 0, 6)).Some? && toFloat(Slice(first.longitude, 0, 6)).Some?
  }

  /** The whole computation as a function of its inputs. */
  function Salah(rows: seq<RawRow>, departure: string, early: bool, offset: real, env: Environment,
                 qibla: (Float, Float) -> Float): Result<Plan>
  {
    var kept := Surviving(rows);
    if |kept| == 0 then Err(OutOfBounds)
    else if !OriginReadable(kept[0], env.toFloat) then Err(NotAFloat)
    else
      match TimeCorrection(kept[0].clock, departure, offset, early)
      case Err(e) => Err(e)
      case Ok(correction) =>
        match AllOk(Steps(kept, offset, correction, env))
        case Err(e) => Err(e)
        case Ok(points) => Ok(PlanOf(points, qibla))
  }

  /** Lines 345-557 without I/O: each stage in the source's order, the first
      one that raises ending the run. */
  method SalahCalculator(rows: seq<RawRow>, departure: string, early: bool, offset: real, env: Environment,
                         qibla: (Float, Float) -> Float)
    returns (r: Result<Plan>)
    ensures r == Salah(rows, departure, early, offset, env, qibla)
  {
    var kept := Sanitise(rows);
    if |kept| == 0 {
      return Err(OutOfBounds);
    }
    var latitude := env.toFloat(Slice(kept[0].latitude, 0, 6));
    var longitude := env.toFloat(Slice(kept[0].longitude, 0, 6));
    if latitude.None? || longitude.None? {
      return Err(NotAFloat);
    }
    var correction := TimeCorrection(kept[0].clock, departure, offset, early);
    if correction.Err? {
      return Err(correction.reason);
    }
    var track := CollectTrack(kept, offset, correction.value, env);
    if track.Err? {
      return Err(track.reason);
    }
    var plan := AssembleSchedule(track.value, qibla);
    return Ok(plan);
  }

  /** A run with too few surviving rows stops at the first row lookup; a
      finished run had more than twenty rows after filtering and a readable
      origin position. */
  lemma SalahOutcome(rows: seq<RawRow>, departure: string, early: bool, offset: real, env: Environment,
                     qibla: (Float, Float) -> Float)
    ensures |KeepRows(rows, OtherFacilities(rows))| <= 20 ==>
              Salah(rows, departure, early, offset, env, qibla) == Err(OutOfBounds)
    ensures Salah(rows, departure, early, offset, env, qibla).Ok? ==>
              && |Surviving(rows)| == |KeepRows(rows, OtherFacilities(rows))| - 20
              && OriginReadable(Surviving(rows)[0], env.toFloat)
  {
    TrimDrops(KeepRows(rows, OtherFacilities(rows)));
  }

  /** A finished run's schedule is assembled from the points the row loop
      produced from the surviving rows: each point carries the altitude
      carried through its row, and every row of the schedule with an index
      reports the flight clock of that point, a time of day in [0, 24). */
  lemma SalahFinished(rows: seq<RawRow>, departure: string, early: bool, offset: real, env: Environment,
                      qibla: (Float, Float) -> Float)
    requires Salah(rows, departure, early, offset, env, qibla).Ok?
    ensures var kept := Surviving(rows);
            && |kept| > 0
            && TimeCorrection(kept[0].clock, departure, offset, early).Ok?
            && var correction := TimeCorrection(kept[0].clock, departure, offset, early).value;
               var track := AllOk(Steps(kept, offset, correction, env));
               var plan := Salah(rows, departure, early, offset, env, qibla).value;
               && track.Ok?
               && plan == PlanOf(track.value, qibla)
               && |track.value| == |kept|
               && (forall i :: 0 <= i < |kept| ==>
                     track.value[i].altitude == CarriedAltitude(Readings(kept, env.toFloat), i + 1))
               && (forall k :: 0 <= k < |Boundaries| ==> RowConsistent(track.value, plan, k))
               && (forall k :: 0 <= k < |Boundaries| && plan.schedule[k].index.Some? ==>
                     && plan.schedule[k].index.value < |kept|
                     && plan.schedule[k].time24 == track.value[plan.schedule[k].index.value].flightTime
                     && plan.schedule[k].time24.Some?
                     && 0.0 <= plan.schedule[k].time24.value < 24.0)
  {
    var kept := Surviving(rows);
    var correction := TimeCorrection(kept[0].clock, departure, offset, early).value;
    var points := AllOk(Steps(kept, offset, correction, env)).value;
    TrackPointsInDay(kept, offset, correction, env);
    PlanRowsConsistent(points, qibla);
    PlanTimesOnTrack(points, qibla);
  }
}
