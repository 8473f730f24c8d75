/** Clock-text conversions of salah_at_35k_calculator.py: 12-hour text to a
    24-hour (hour, minute) pair, "HH:MM" prayer-time text to a pair, a
    decimal hour back to 12-hour form, and the timezone correction. */
module ClockText {
  import opened Common
  import opened Text

  /** A parsed reading: an (hour, minute) pair, or the (NaN, NaN) pair the
      source returns for the "no data" sentinel. */
  datatype Clock = NaNPair | HourMin(hour: int, minute: int)

  datatype Meridiem = AM | PM
  {
    function Name(): string { if AM? then "AM" else "PM" }
  }

  /** What `ConvertTo12Hr` returns. */
  datatype Clock12 = Clock12(hour: int, minute: int, meridiem: Meridiem)

  /** The "no data" sentinel of track clocks and prayer times. */
  const InvalidTime := "-----"

  /** `int(text.split(":")[0])`, then `int(text.split(":")[1])`: a field
      that is not a whole number raises ValueError; text without ':' has no
      field 1, which raises IndexError once field 0 has been read. */
  function HourMinute(text: string): (r: Result<Clock>)
    ensures ':' !in text ==> r.Err?
    ensures ':' !in text && ParseInt(text).Some? ==> r == Err("list index out of range")
    ensures ParseInt(Split(text, ':')[0]).None? ==> r == Err("invalid literal for int()")
  {
    var fields := Split(text, ':');
    match ParseInt(fields[0])
    case None => Err("invalid literal for int()")
    case Some(h) =>
      if |fields| < 2 then Err("list index out of range")
      else
        match ParseInt(fields[1])
        case None => Err("invalid literal for int()")
        case Some(m) => Ok(HourMin(h, m))
  }

  /** `Parse24HrTime`: the sentinel gives (NaN, NaN); text starting with '-'
      gives (0, 0); otherwise "H:M" is read field by field. */
  function Parse24HrTime(text: string): Result<Clock>
  {
    if text == InvalidTime then Ok(NaNPair)
    else if |text| == 0 then Err("string index out of range")
    else if text[0] == '-' then Ok(HourMin(0, 0))
    else HourMinute(text)
  }

  /** The meridiem rule of `Extract24HrTime`: 12 PM stays 12, any other PM
      hour gains 12, 12 AM becomes 0, any other AM hour is kept. */
  function To24Hour(hour: int, pm: bool): int
  {
    if pm then (if hour != 12 then hour + 12 else hour)
    else (if hour == 12 then 0 else hour)
  }

  /** `Extract24HrTime`: the last two characters are the meridiem (anything
      but "PM" counts as AM), all but the last three are "H:M". */
  function Extract24HrTime(text: string): Result<Clock>
  {
    if text == InvalidTime then Ok(NaNPair)
    else
      var meridiem := Slice(text, -2, |text|);
      var clock := Slice(text, 0, -3);
      match HourMinute(clock)
      case Ok(HourMin(h, m)) => Ok(HourMin(To24Hour(h, meridiem == "PM"), m))
      case other => other
  }

  /** Decimal hours of an (hour, minute) pair: `hr + mins / 60`. */
  function Hours(hour: int, minute: int): real
  {
    hour as real + minute as real / 60.0
  }

  /** `ConvertTo12Hr`: truncate to whole hours and whole minutes, then map
      the hour onto the 12-hour dial. */
  function ConvertTo12Hr(t: real): Clock12
  {
    var hrs := Trunc(t);
    var mins := Trunc((t - hrs as real) * 60.0);
    if hrs > 12 then Clock12(hrs - 12, mins, PM)
    else if hrs == 12 then Clock12(hrs, mins, PM)
    else if hrs == 0 then Clock12(hrs + 12, mins, AM)
    else Clock12(hrs, mins, AM)
  }

  /** `to_12h` in `salah_calculator`: "HH:MM AM", or an em dash for no time. */
  function Format12(t: Option<real>): string
  {
    match t
    case None => "\U{2014}"
    case Some(v) =>
      var c := ConvertTo12Hr(v);
      Pad2(c.hour) + ":" + Pad2(c.minute) + " " + c.meridiem.Name()
  }

  /** `timezone_correction`: subtract the whole hours of the offset from the
      hour and its fractional part, in minutes, from the minute; `int()` of
      a NaN minute raises. */
  function TimezoneCorrection(c: Clock, offset: real): Result<Clock>
    ensures c.NaNPair? <==> TimezoneCorrection(c, offset).Err?
    ensures TimezoneCorrection(c, offset).Ok? ==> TimezoneCorrection(c, offset).value.HourMin?
  {
    match c
    case NaNPair => Err("cannot convert float NaN to integer")
    case HourMin(h, m) =>
      var hourCorrection := Trunc(offset);
      var minuteCorrection := (offset - hourCorrection as real) * 60.0;
      Ok(HourMin(h - hourCorrection, Trunc(m as real - minuteCorrection)))
  }

  // ----- properties -----

  /** On the 12-hour dial the meridiem rule is a bijection onto 0..23:
      12 AM is 0, 12 PM is 12, other PM hours gain 12, other AM hours stay. */
  lemma To24HourDial(hour: int, pm: bool)
    requires 1 <= hour <= 12
    ensures var h := To24Hour(hour, pm);
            && 0 <= h < 24
            && (pm <==> h >= 12)
            && (hour == 12 && !pm ==> h == 0)
            && (hour == 12 && pm ==> h == 12)
            && (hour != 12 && pm ==> h == hour + 12)
            && (hour != 12 && !pm ==> h == hour)
  {
  }

  /** Text "H:M?XY" (any separator character, any two-character suffix) is
      read as hour H under the meridiem rule with suffix "PM" or anything
      else, and minute M unchanged. */
  lemma Extract24HrTimeReads(hh: string, mm: string, sep: char, suffix: string)
    requires |hh| > 0 && AllDigits(hh) && |mm| > 0 && AllDigits(mm) && |suffix| == 2
    ensures Extract24HrTime(hh + ":" + mm + [sep] + suffix)
         == Ok(HourMin(To24Hour(DigitsValue(hh), suffix == "PM"), DigitsValue(mm)))
  {
    var text := hh + ":" + mm + [sep] + suffix;
    assert text != InvalidTime by { assert text[|hh|] == ':'; }
    ClockTextSlices(hh + ":" + mm, sep, suffix);
    HourMinuteReads(hh, mm);
  }

  /** The two slices `Extract24HrTime` takes of "clock?XY". */
  lemma ClockTextSlices(clock: string, sep: char, suffix: string)
    requires |clock| > 0 && |suffix| == 2
    ensures var text := clock + [sep] + suffix;
            Slice(text, -2, |text|) == suffix && Slice(text, 0, -3) == clock
  {
    var text := clock + [sep] + suffix;
    var n := |text|;
    assert Slice(text, -2, n) == text[n - 2..n] == suffix;
    assert Slice(text, 0, -3) == text[..n - 3] == clock;
  }

  lemma HourMinuteReads(hh: string, mm: string)
    requires |hh| > 0 && AllDigits(hh) && |mm| > 0 && AllDigits(mm)
    ensures HourMinute(hh + ":" + mm) == Ok(HourMin(DigitsValue(hh), DigitsValue(mm)))
  {
    assert ':' !in hh by { assert forall i :: 0 <= i < |hh| ==> IsDigit(hh[i]); }
    assert ':' !in mm by { assert forall i :: 0 <= i < |mm| ==> IsDigit(mm[i]); }
    SplitAt(hh, mm, ':');
    assert hh + ":" + mm == hh + [':'] + mm;
    assert Split(hh + ":" + mm, ':') == [hh, mm];
    ParseIntDigits(hh);
    ParseIntDigits(mm);
  }

  /** The sentinel is read as (NaN, NaN) by both parsers. */
  lemma SentinelIsNaN()
    ensures Extract24HrTime(InvalidTime) == Ok(NaNPair)
    ensures Parse24HrTime(InvalidTime) == Ok(NaNPair)
  {
  }

  /** "HH:MM" prayer-time text is read as (HH, MM). */
  lemma Parse24HrTimeReads(hh: string, mm: string)
    requires |hh| > 0 && AllDigits(hh) && |mm| > 0 && AllDigits(mm)
    ensures Parse24HrTime(hh + ":" + mm) == Ok(HourMin(DigitsValue(hh), DigitsValue(mm)))
  {
    var text := hh + ":" + mm;
    assert IsDigit(text[0]);
    assert text != InvalidTime by { assert text[0] != InvalidTime[0]; }
    HourMinuteReads(hh, mm);
  }

  /** For a time of day in [0, 24): the 12-hour hour is in 1..12, the
      minute in 0..59, "AM" exactly for hours 0..11, and the meridiem rule
      gives back the whole hour. */
  lemma ConvertTo12HrDial(t: real)
    requires 0.0 <= t < 24.0
    ensures var c := ConvertTo12Hr(t);
            && 1 <= c.hour <= 12 && 0 <= c.minute < 60
            && (c.meridiem == AM <==> t < 12.0)
            && To24Hour(c.hour, c.meridiem == PM) == t.Floor
            && c.minute == ((t - t.Floor as real) * 60.0).Floor
  {
    var f := (t - t.Floor as real) * 60.0;
    assert 0.0 <= f < 60.0;
  }

  /** The formatted 12-hour text of a time of day is read back by
      `Extract24HrTime` as that time's whole hour and whole minute. */
  lemma Format12RoundTrip(t: real)
    requires 0.0 <= t < 24.0
    ensures Extract24HrTime(Format12(Some(t)))
         == Ok(HourMin(t.Floor, ((t - t.Floor as real) * 60.0).Floor))
  {
    var c := ConvertTo12Hr(t);
    ConvertTo12HrDial(t);
    var text := Pad2(c.hour) + ":" + Pad2(c.minute) + " " + c.meridiem.Name();
    assert text == Pad2(c.hour) + ":" + Pad2(c.minute) + [' '] + c.meridiem.Name();
    Extract24HrTimeReads(Pad2(c.hour), Pad2(c.minute), ' ', c.meridiem.Name());
  }

  /** For an offset that is a whole number `k` of minutes the correction
      shifts the reading by exactly the offset. */
  lemma TimezoneCorrectionShifts(h: int, m: int, k: int)
    ensures var off := k as real / 60.0;
            var r := TimezoneCorrection(HourMin(h, m), off);
            r.Ok? && r.value.HourMin? && Hours(r.value.hour, r.value.minute) == Hours(h, m) - off
  {
    var off := k as real / 60.0;
    var q := Trunc(off);
    var minuteCorrection := (off - q as real) * 60.0;
    assert minuteCorrection == (k - 60 * q) as real;
    var d := m - (k - 60 * q);
    assert m as real - minuteCorrection == d as real;
    assert Trunc(d as real) == d;
  }
}
