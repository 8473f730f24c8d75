/** `FetchDate`: from text such as "Mon 7:00 AM +03" and a flight status,
    the date of that weekday in the current week of the given zone. The
    clock (`dt.now`) and the IANA zone database are inputs: `nowMinutes`
    is the current instant in minutes since 1970-01-01 UTC, and `zone`
    gives a zone name's UTC offset in minutes at that instant, `None` for
    an unknown name. Dates are proleptic Gregorian ordinals
    (`date.toordinal()`). */
module FetchDate {
  import opened Common
  import opened Text

  // ----- the leading "Day hh:mm [AM|PM] zone" -----

  /** What `^\s*([A-Za-z]{3})\s+(\d{1,2}:\d{2})(?:\s*([AaPp][Mm]))?\s*(.*)$`
      captures. */
  datatype Header = Header(day: string, hour: string, minute: string, meridiem: Option<string>, zone: string)

  predicate IsAsciiLetter(c: char) { IsUpperAscii(c) || IsLowerAscii(c) }

  /** Length of the run of ASCII digits at the start of `s`. */
  function DigitRun(s: string): (k: nat)
    ensures k <= |s| && AllDigits(s[..k]) && (k < |s| ==> !IsDigit(s[k]))
  {
    if |s| > 0 && IsDigit(s[0]) then
      var k := DigitRun(s[1..]) + 1;
      assert s[..k] == [s[0]] + s[1..][..k - 1];
      k
    else 0
  }

  /** The optional `\s*([AaPp][Mm])` at the start of `s`, as written at
      line 422: the meridiem and how much it consumes. Nothing stops it at
      the start of a longer word. */
  function MeridiemAt(s: string): (r: Option<(string, nat)>)
    ensures r.Some? ==> r.value.1 <= |s| && |r.value.0| == 2
  {
    var w := LeadingSpaces(s);
    if w + 2 <= |s| && s[w] in "AaPp" && s[w + 1] in "Mm" then Some((s[w..w + 2], w + 2)) else None
  }

  /** As written, a zone name that starts with "Am" loses its first two
      letters to the meridiem: "Mon 7:00 America/Toronto" is read as 7:00 AM
      in the zone "erica/Toronto", which is refused. */
  lemma MeridiemSwallowsZone(zone: string)
    requires |zone| > 2 && zone[0] in "AaPp" && zone[1] in "Mm" && IsAsciiLetter(zone[2])
    ensures MeridiemAt(" " + zone) == Some((zone[..2], 3))
  {
    var s := " " + zone;
    assert LeadingSpaces(s) == 1 by {
      assert !IsSpace(s[1]);
      LeadingSpacesBefore(s, 1);
    }
    assert s[1..3] == zone[..2];
  }

  /** A word character, for `\b`. */
  predicate IsWordChar(c: char) { IsAlnum(c) || c == '_' }

  /** The meridiem group with the word boundary the docstring's examples
      need, `(?:\s*([AaPp][Mm])\b)?`: only a whole word "AM" or "PM". */
  function MeridiemWordAt(s: string): (r: Option<(string, nat)>)
    ensures r.Some? ==> r.value.1 <= |s| && |r.value.0| == 2
    ensures r.Some? ==> MeridiemAt(s) == r && (r.value.1 == |s| || !IsWordChar(s[r.value.1]))
    ensures r.None? && MeridiemAt(s).Some? ==>
              MeridiemAt(s).value.1 < |s| && IsWordChar(s[MeridiemAt(s).value.1])
  {
    match MeridiemAt(s)
    case Some((a, n)) => if n == |s| || !IsWordChar(s[n]) then Some((a, n)) else None
    case None => None
  }

  /** With the boundary, a zone name is left whole, and a meridiem before a
      zone is still read. */
  lemma MeridiemWordKeepsZone(zone: string, meridiem: string, rest: string)
    requires |zone| > 2 && zone[0] in "AaPp" && zone[1] in "Mm" && IsAsciiLetter(zone[2])
    requires |meridiem| == 2 && meridiem[0] in "AaPp" && meridiem[1] in "Mm"
    requires rest == [] || !IsWordChar(rest[0])
    ensures MeridiemWordAt(" " + zone) == None
    ensures MeridiemWordAt(" " + meridiem + rest) == Some((meridiem, 3))
  {
    var s := " " + zone;
    MeridiemSwallowsZone(zone);
    assert s[3] == zone[2];
    var t := " " + meridiem + rest;
    assert LeadingSpaces(t) == 1 by {
      assert t[1] == meridiem[0] && !IsSpace(t[1]);
      LeadingSpacesBefore(t, 1);
    }
    assert t[1..3] == meridiem;
    assert |t| > 3 ==> t[3] == rest[0];
  }

  /** `[A-Za-z]{3}` at position `p`. */
  predicate DayAt(s: string, p: nat)
  {
    p + 3 <= |s| && IsAsciiLetter(s[p]) && IsAsciiLetter(s[p + 1]) && IsAsciiLetter(s[p + 2])
  }

  /** `\d{1,2}:\d{2}` at position `h`: the hour and minute digits and the
      position after them. Two hour digits are tried before one, and either
      must be followed by ':'. */
  function ClockAt(s: string, h: nat): (r: Option<(string, string, nat)>)
    requires h <= |s|
    ensures r.Some? ==> && 1 <= |r.value.0| <= 2 && AllDigits(r.value.0)
                        && |r.value.1| == 2 && AllDigits(r.value.1) && r.value.2 <= |s|
  {
    var n := DigitRun(s[h..]);
    if 1 <= n <= 2 && h + n + 3 <= |s| && s[h + n] == ':' && IsDigit(s[h + n + 1]) && IsDigit(s[h + n + 2]) then
      assert s[h..h + n] == s[h..][..n];
      Some((s[h..h + n], [s[h + n + 1], s[h + n + 2]], h + n + 3))
    else None
  }

  /** Text that the meridiem group as written would take: "am" or "pm" in
      any letter case at its start. */
  predicate MeridiemLike(t: string)
  {
    |t| >= 2 && t[0] in "AaPp" && t[1] in "Mm"
  }

  /** The meridiem group as written at line 422 or, with `wordBoundary`,
      the corrected one. */
  function Meridiem(s: string, wordBoundary: bool): (r: Option<(string, nat)>)
    ensures r.Some? ==> r.value.1 <= |s| && |r.value.0| == 2
  {
    if wordBoundary then MeridiemWordAt(s) else MeridiemAt(s)
  }

  /** The header pattern on the stripped input. The hour is the one or two
      digits before ':'; the zone is everything after the whitespace that
      follows, and `.` stops at a newline. */
  function MatchHeader(s: string, wordBoundary: bool): (r: Option<Header>)
    ensures r.Some? ==> AllDigits(r.value.hour) && AllDigits(r.value.minute)
    ensures r.Some? ==> '\n' !in r.value.zone && (r.value.zone == [] || !IsSpace(r.value.zone[0]))
  {
    var p := LeadingSpaces(s);
    if !DayAt(s, p) then None
    else
      var q := p + 3;
      var h := q + LeadingSpaces(s[q..]);
      if h == q then None
      else
        match ClockAt(s, h)
        case None => None
        case Some((hour, minute, m)) =>
          match ZoneAt(s[m..], wordBoundary)
          case None => None
          case Some((meridiem, zone)) => Some(Header(s[p..q], hour, minute, meridiem, zone))
  }

  /** `(?:\s*([AaPp][Mm]))?\s*(.*)$` on the text after the clock: the
      meridiem, if any, and the zone text, which is a suffix of `t` that
      starts with no whitespace; `None` where a newline follows. */
  function ZoneAt(t: string, wordBoundary: bool): (r: Option<(Option<string>, string)>)
    ensures r.Some? ==> '\n' !in r.value.1 && (r.value.1 == [] || !IsSpace(r.value.1[0]))
    ensures r.Some? ==> |r.value.1| <= |t| && r.value.1 == t[|t| - |r.value.1|..]
  {
    var meridiem := Meridiem(t, wordBoundary);
    var z0 := if meridiem.Some? then meridiem.value.1 else 0;
    var z := z0 + LeadingSpaces(t[z0..]);
    if '\n' in t[z..] then None
    else Some((if meridiem.Some? then Some(meridiem.value.0) else None, t[z..]))
  }

  /** Whitespace and a zone that the meridiem group cannot take: no
      meridiem, and the zone is the text after the whitespace. */
  lemma ZoneAtPlain(spaces: string, zoneText: string, wordBoundary: bool)
    requires AllSpace(spaces) && '\n' !in zoneText && (zoneText == [] || !IsSpace(zoneText[0]))
    requires !MeridiemLike(zoneText) || (wordBoundary && |zoneText| > 2 && IsWordChar(zoneText[2]))
    ensures ZoneAt(spaces + zoneText, wordBoundary) == Some((None, zoneText))
  {
    var t := spaces + zoneText;
    LeadingSpacesOf(spaces, zoneText);
    assert t[|spaces|..] == zoneText;
    assert MeridiemAt(t).Some? ==> MeridiemLike(zoneText) by {
      if MeridiemAt(t).Some? {
        assert t[|spaces|] == zoneText[0] && t[|spaces| + 1] == zoneText[1];
      }
    }
    if MeridiemLike(zoneText) {
      assert t[|spaces| + 2] == zoneText[2];
    }
    assert Meridiem(t, wordBoundary) == None;
    assert t[0..] == t;
  }

  /** Where the parts of "  AM  zone" begin. */
  lemma ZoneTextParts(spaces: string, meridiem: string, gap: string, zoneText: string)
    requires |meridiem| == 2
    ensures var t := spaces + meridiem + gap + zoneText;
            && t == spaces + (meridiem + (gap + zoneText))
            && t[|spaces| + 2..] == gap + zoneText && t[|spaces| + 2 + |gap|..] == zoneText
  {
  }

  /** A meridiem after whitespace is taken, by the word-boundary pattern
      too when a non-word character or the end follows it. */
  lemma MeridiemAfterSpaces(spaces: string, meridiem: string, rest: string, wordBoundary: bool)
    requires AllSpace(spaces) && |meridiem| == 2 && MeridiemLike(meridiem)
    requires wordBoundary ==> rest == [] || !IsWordChar(rest[0])
    ensures Meridiem(spaces + (meridiem + rest), wordBoundary) == Some((meridiem, |spaces| + 2))
  {
    var t := spaces + (meridiem + rest);
    LeadingSpacesOf(spaces, meridiem + rest);
    assert t[|spaces|..|spaces| + 2] == meridiem;
    assert |t| > |spaces| + 2 ==> t[|spaces| + 2] == rest[0];
  }

  /** Whitespace, a meridiem, more whitespace and the zone: the meridiem is
      read and the zone is the rest. With the word boundary the meridiem
      must not run on into the zone. */
  lemma ZoneAtMeridiem(spaces: string, meridiem: string, gap: string, zoneText: string, wordBoundary: bool)
    requires AllSpace(spaces) && |meridiem| == 2 && MeridiemLike(meridiem) && AllSpace(gap)
    requires '\n' !in zoneText && (zoneText == [] || !IsSpace(zoneText[0]))
    requires wordBoundary ==> gap != [] || zoneText == [] || !IsWordChar(zoneText[0])
    ensures ZoneAt(spaces + meridiem + gap + zoneText, wordBoundary) == Some((Some(meridiem), zoneText))
  {
    var t := spaces + meridiem + gap + zoneText;
    var n := |spaces| + 2;
    ZoneTextParts(spaces, meridiem, gap, zoneText);
    assert Meridiem(t, wordBoundary) == Some((meridiem, n)) by {
      var rest := gap + zoneText;
      assert gap != [] ==> rest[0] == gap[0] && IsSpace(gap[0]);
      MeridiemAfterSpaces(spaces, meridiem, rest, wordBoundary);
    }
    LeadingSpacesOf(gap, zoneText);
  }

  /** An "h:mm" or "hh:mm" clock at `h` is read as its digits. */
  lemma ClockAtReads(s: string, h: nat, hh: string, mm: string, tail: string)
    requires 1 <= |hh| <= 2 && AllDigits(hh) && |mm| == 2 && AllDigits(mm)
    requires h <= |s| && s[h..] == hh + ":" + mm + tail
    ensures ClockAt(s, h) == Some((hh, mm, h + |hh| + 3))
  {
    var r := s[h..];
    assert DigitRun(r) == |hh| by {
      assert r[|hh|] == ':';
    }
    assert s[h..h + |hh|] == hh;
    assert s[h + |hh|] == ':' && s[h + |hh| + 1] == mm[0] && s[h + |hh| + 2] == mm[1];
    assert [mm[0], mm[1]] == mm;
  }

  /** The header read from its parts once each group's position is known. */
  lemma MatchHeaderFrom(s: string, day: string, hh: string, mm: string, h: nat, m: nat, tail: string, wordBoundary: bool)
    requires LeadingSpaces(s) == 0 && DayAt(s, 0) && s[..3] == day
    requires 3 < h <= |s| && h == 3 + LeadingSpaces(s[3..])
    requires ClockAt(s, h) == Some((hh, mm, m)) && s[m..] == tail
    ensures MatchHeader(s, wordBoundary)
              == match ZoneAt(tail, wordBoundary)
                 case None => None
                 case Some((meridiem, zone)) => Some(Header(day, hh, mm, meridiem, zone))
  {
    assert s[0..3] == day;
  }

  /** Where the groups of "Ddd  h:mm..." begin. */
  lemma HeaderTextParts(day: string, gap: string, hh: string, mm: string, tail: string)
    requires |day| == 3 && |mm| == 2
    ensures var s := day + gap + hh + ":" + mm + tail;
            && s[..3] == day && s[3..] == gap + (hh + ":" + mm + tail)
            && s[3 + |gap|..] == hh + ":" + mm + tail && s[3 + |gap| + |hh| + 3..] == tail
  {
  }

  /** In "Ddd  h:mm...", the groups of the header pattern sit where the
      parts were put. */
  lemma HeaderTextGroups(day: string, gap: string, hh: string, mm: string, tail: string)
    requires |day| == 3 && DayAt(day, 0) && |gap| > 0 && AllSpace(gap)
    requires 1 <= |hh| <= 2 && AllDigits(hh) && |mm| == 2 && AllDigits(mm)
    ensures var s := day + gap + hh + ":" + mm + tail;
            var h := 3 + |gap|;
            && LeadingSpaces(s) == 0 && DayAt(s, 0) && s[..3] == day
            && 3 < h <= |s| && h == 3 + LeadingSpaces(s[3..])
            && ClockAt(s, h) == Some((hh, mm, h + |hh| + 3)) && s[h + |hh| + 3..] == tail
  {
    var s := day + gap + hh + ":" + mm + tail;
    var h := 3 + |gap|;
    HeaderTextParts(day, gap, hh, mm, tail);
    assert LeadingSpaces(s) == 0 by {
      assert s[0] == day[0];
      LeadingSpacesBefore(s, 0);
    }
    assert h == 3 + LeadingSpaces(s[3..]) by {
      var clock := hh + ":" + mm + tail;
      assert clock[0] == hh[0] && IsDigit(hh[0]);
      LeadingSpacesOf(gap, clock);
    }
    ClockAtReads(s, h, hh, mm, tail);
  }

  /** A day name, whitespace and an "h:mm" or "hh:mm" clock: the header is
      read off those, with the meridiem and zone of the text after the
      clock. */
  lemma MatchHeaderReads(day: string, gap: string, hh: string, mm: string, tail: string, wordBoundary: bool)
    requires |day| == 3 && DayAt(day, 0) && |gap| > 0 && AllSpace(gap)
    requires 1 <= |hh| <= 2 && AllDigits(hh) && |mm| == 2 && AllDigits(mm)
    ensures MatchHeader(day + gap + hh + ":" + mm + tail, wordBoundary)
              == match ZoneAt(tail, wordBoundary)
                 case None => None
                 case Some((meridiem, zone)) => Some(Header(day, hh, mm, meridiem, zone))
  {
    var h := 3 + |gap|;
    HeaderTextGroups(day, gap, hh, mm, tail);
    MatchHeaderFrom(day + gap + hh + ":" + mm + tail, day, hh, mm, h, h + |hh| + 3, tail, wordBoundary);
  }

  const Days: seq<string> := ["mon", "tue", "wed", "thu", "fri", "sat", "sun"]

  /** `days.index(day_str.lower())`: Monday 0 ... Sunday 6. */
  function DayIndex(day: string): (r: Option<nat>)
    ensures r.Some? ==> r.value < 7 && Days[r.value] == LowerStr(day)
    ensures r.None? <==> LowerStr(day) !in Days
  {
    var l := LowerStr(day);
    if l in Days then
      var i :| 0 <= i < 7 && Days[i] == l;
      Some(i)
    else None
  }

  /** The `strptime` check of the clock: "%I:%M %p" (hour 1-12) with a
      meridiem, "%H:%M" (hour 0-23) without; minutes 0-59. */
  predicate ClockValid(hour: string, minute: string, meridiem: Option<string>)
    requires AllDigits(hour) && AllDigits(minute)
  {
    && DigitsValue(minute) <= 59
    && if meridiem.Some? then 1 <= DigitsValue(hour) <= 12 else DigitsValue(hour) <= 23
  }

  // ----- the zone -----

  /** `_TZ_ABBREV_OFFSETS`: (abbreviation, hours, minutes). */
  const Abbreviations: seq<(string, int, int)> := [
    ("UTC", 0, 0), ("GMT", 0, 0), ("Z", 0, 0),
    ("EDT", -4, 0), ("EST", -5, 0), ("CDT", -5, 0), ("CST", -6, 0),
    ("MDT", -6, 0), ("MST", -7, 0), ("PDT", -7, 0), ("PST", -8, 0),
    ("BST", 1, 0), ("IST", 5, 30), ("WET", 0, 0), ("WEST", 1, 0),
    ("CET", 1, 0), ("CEST", 2, 0), ("EET", 2, 0), ("EEST", 3, 0),
    ("JST", 9, 0), ("KST", 9, 0), ("AEST", 10, 0), ("AEDT", 11, 0),
    ("ACST", 9, 30), ("ACDT", 10, 30), ("NZST", 12, 0), ("NZDT", 13, 0)]

  /** The dictionary lookup: the (hours, minutes) of the first entry named
      `key`. */
  function Lookup(table: seq<(string, int, int)>, key: string): (r: Option<(int, int)>)
    ensures r.Some? <==> exists i :: 0 <= i < |table| && table[i].0 == key
    ensures r.Some? ==> exists i :: 0 <= i < |table| && table[i] == (key, r.value.0, r.value.1)
  {
    if table == [] then None
    else if table[0].0 == key then
      Some((table[0].1, table[0].2))
    else
      var r := Lookup(table[1..], key);
      assert forall i :: 1 <= i < |table| ==> table[i] == table[1..][i - 1];
      r
  }

  /** Every abbreviation starts with an upper-case letter. */
  lemma AbbreviationKeys()
    ensures forall i :: 0 <= i < |Abbreviations| ==> |Abbreviations[i].0| > 0 && IsUpperAscii(Abbreviations[i].0[0])
  {
  }

  function Abs(x: int): nat { if x < 0 then -x else x }

  /** Text that starts with "UTC" or "GMT" in any letter case. */
  predicate UtcPrefixed(tz: string)
  {
    |tz| >= 3 && LowerStr(tz[..3]) in {"utc", "gmt"}
  }

  /** `re.sub(r"^(?i:UTC|GMT)\s*", "", tz)`: one leading "UTC" or "GMT" in
      any letter case, and the whitespace after it, removed. */
  function DropUtcPrefix(tz: string): (r: string)
    ensures !UtcPrefixed(tz) ==> r == tz
    ensures UtcPrefixed(tz) ==> && |r| <= |tz| - 3 && r == tz[|tz| - |r|..]
                                && AllSpace(tz[3..|tz| - |r|]) && (r == [] || !IsSpace(r[0]))
  {
    if UtcPrefixed(tz) then
      var rest := tz[3..];
      var k := LeadingSpaces(rest);
      assert tz[3..3 + k] == rest[..k];
      rest[k..]
    else tz
  }

  /** A numeric offset: negative or not, hours, minutes. */
  datatype Offset = Offset(negative: bool, hours: nat, minutes: nat)

  /** `(?::?(\d{2}))?\s*$` after the hour digits: the minutes, trying
      ":MM" before "MM"; `None` where the group cannot be taken. */
  function MinutesPart(after: string): Option<nat>
  {
    if |after| >= 3 && after[0] == ':' && IsDigit(after[1]) && IsDigit(after[2]) && AllSpace(after[3..]) then
      Some((after[1] as int - '0' as int) * 10 + (after[2] as int - '0' as int))
    else if |after| >= 2 && IsDigit(after[0]) && IsDigit(after[1]) && AllSpace(after[2..]) then
      Some((after[0] as int - '0' as int) * 10 + (after[1] as int - '0' as int))
    else None
  }

  /** The rest of the pattern with the hour taken as the first `n` digits:
      the group if it fits, else no group and only whitespace left. */
  function WithHourDigits(rest: string, n: nat): Option<(nat, nat)>
  {
    if n <= |rest| && AllDigits(rest[..n]) then
      var after := rest[n..];
      match MinutesPart(after)
      case Some(mm) => Some((DigitsValue(rest[..n]), mm))
      case None => if AllSpace(after) then Some((DigitsValue(rest[..n]), 0)) else None
    else None
  }

  /** `re.match(r"^([+-])\s*(\d{1,2})(?::?(\d{2}))?\s*$", cleaned)`: `\d{1,2}`
      tries two digits before one. */
  function MatchOffset(cleaned: string): (r: Option<Offset>)
    ensures r.Some? ==> |cleaned| > 0 && (cleaned[0] == '+' || cleaned[0] == '-')
    ensures r.Some? ==> r.value.negative == (cleaned[0] == '-')
    ensures r.Some? ==> r.value.hours <= 99 && r.value.minutes <= 99
  {
    if |cleaned| == 0 || (cleaned[0] != '+' && cleaned[0] != '-') then None
    else
      var rest := cleaned[1..][LeadingSpaces(cleaned[1..])..];
      var hm := match WithHourDigits(rest, 2) case Some(v) => Some(v) case None => WithHourDigits(rest, 1);
      match hm
      case None => None
      case Some(v) =>
        DigitsBound(rest);
        Some(Offset(cleaned[0] == '-', v.0, v.1))
  }

  lemma DigitsBound(rest: string)
    ensures forall n :: 1 <= n <= 2 && n <= |rest| && AllDigits(rest[..n]) ==> DigitsValue(rest[..n]) <= 99
  {
    forall n | 1 <= n <= 2 && n <= |rest| && AllDigits(rest[..n]) ensures DigitsValue(rest[..n]) <= 99 {
      DigitsValueBound(rest[..n]);
    }
  }

  lemma {:induction false} DigitsValueBound(s: string)
    requires AllDigits(s) && |s| <= 2
    ensures DigitsValue(s) < if |s| == 2 then 100 else 10
  {
    if |s| > 0 {
      assert IsDigit(s[|s| - 1]);
      var init := s[..|s| - 1];
      assert AllDigits(init);
      if |s| == 2 {
        assert init[..0] == [];
        assert IsDigit(init[0]);
        assert DigitsValue(init) == init[0] as int - '0' as int;
      }
    }
  }

  /** A matched numeric offset in minutes, refused beyond 14 hours or 59
      minutes. */
  function NumericOffset(o: Offset, tzRaw: string): (r: Result<int>)
    ensures r.Ok? <==> o.hours <= 14 && o.minutes <= 59
    ensures r.Ok? ==> Abs(r.value) == 60 * o.hours + o.minutes
    ensures r.Ok? ==> (r.value < 0 ==> o.negative) && (o.negative ==> r.value <= 0)
  {
    if o.hours > 14 || o.minutes > 59 then Err("Invalid numeric offset: " + tzRaw)
    else
      var delta := 60 * o.hours + o.minutes;
      Ok(if o.negative then -delta else delta)
  }

  /** The zone part as a UTC offset in minutes: none means UTC, then the
      abbreviation table, then "UTC"/"GMT", then a numeric offset after an
      optional "UTC"/"GMT" prefix, then the zone database. */
  function ZoneOffset(tzText: string, zone: string -> Option<int>): (r: Result<int>)
  {
    var tzRaw := Strip(tzText);
    if tzRaw == [] then Ok(0) else RawZoneOffset(tzRaw, zone)
  }

  /** The stripped, non-empty zone text: the table, then "UTC"/"GMT", then
      the rest. */
  function RawZoneOffset(tzRaw: string, zone: string -> Option<int>): (r: Result<int>)
  {
    match TableOffset(UpperStr(tzRaw))
    case Some(delta) => Ok(delta)
    case None => if UpperStr(tzRaw) in {"UTC", "GMT"} then Ok(0) else UnlistedZoneOffset(tzRaw, zone)
  }

  /** A zone outside the table: a numeric offset after an optional
      "UTC"/"GMT" prefix, else the zone database. */
  function UnlistedZoneOffset(tzRaw: string, zone: string -> Option<int>): (r: Result<int>)
  {
    match MatchOffset(DropUtcPrefix(tzRaw))
    case Some(o) => NumericOffset(o, tzRaw)
    case None =>
      match zone(tzRaw)
      case Some(offset) => Ok(offset)
      case None => Err("Invalid timezone: " + tzRaw)
  }

  /** An abbreviation's offset in minutes: both parts negated when the
      hours are negative. */
  function TableOffset(upper: string): (r: Option<int>)
    ensures r.Some? <==> exists i :: 0 <= i < |Abbreviations| && Abbreviations[i].0 == upper
    ensures r.Some? ==> exists i :: && 0 <= i < |Abbreviations| && Abbreviations[i].0 == upper
                                    && Abs(r.value) == 60 * Abs(Abbreviations[i].1) + Abs(Abbreviations[i].2)
                                    && (r.value < 0 <==> Abbreviations[i].1 < 0)
  {
    match Lookup(Abbreviations, upper)
    case Some((hh, mm)) =>
      var delta := 60 * Abs(hh) + Abs(mm);
      Some(if hh < 0 then -delta else delta)
    case None => None
  }

  /** Text that starts with a sign and is already stripped bypasses the
      table and the "UTC"/"GMT" prefix and goes to the offset pattern. */
  lemma SignedGoesNumeric(text: string, o: Offset, zone: string -> Option<int>)
    requires |text| > 0 && (text[0] == '+' || text[0] == '-') && !IsSpace(text[|text| - 1])
    requires MatchOffset(text) == Some(o)
    ensures ZoneOffset(text, zone) == NumericOffset(o, text)
  {
    SignedIsUnlisted(text, zone);
    assert DropUtcPrefix(text) == text by {
      if |text| >= 3 {
        var lower := LowerStr(text[..3]);
        assert lower[0] == text[0];
        assert lower != "utc" && lower != "gmt";
      }
    }
    assert UnlistedZoneOffset(text, zone) == NumericOffset(o, text);
  }

  lemma SignedIsUnlisted(text: string, zone: string -> Option<int>)
    requires |text| > 0 && (text[0] == '+' || text[0] == '-') && !IsSpace(text[|text| - 1])
    ensures ZoneOffset(text, zone) == UnlistedZoneOffset(text, zone)
  {
    StripEnds(text);
    var upper := UpperStr(text);
    assert TableOffset(upper) == None by {
      assert upper[0] == text[0];
      AbbreviationKeys();
    }
    assert upper != "UTC" && upper != "GMT" by {
      assert upper[0] == text[0];
    }
  }

  /** `\d{2}` read as a number. */
  lemma TwoDigits(mm: string)
    requires |mm| == 2 && AllDigits(mm)
    ensures DigitsValue(mm) == (mm[0] as int - '0' as int) * 10 + (mm[1] as int - '0' as int)
  {
    var first := mm[..1];
    assert AllDigits(first) && first[..0] == [] && first[0] == mm[0];
    assert DigitsValue(first) == mm[0] as int - '0' as int;
    assert mm[..|mm| - 1] == first;
  }

  /** The separator between hour and minute digits. */
  function Colon(colon: bool): string { if colon then ":" else "" }

  /** The minutes group after the hour digits. */
  lemma MinutesPartReads(mm: string, colon: bool)
    requires |mm| == 2 && AllDigits(mm)
    ensures MinutesPart(Colon(colon) + mm) == Some(DigitsValue(mm))
  {
    TwoDigits(mm);
    var after := Colon(colon) + mm;
    assert IsDigit(mm[0]) && IsDigit(mm[1]);
    if colon {
      assert after == [':', mm[0], mm[1]];
      assert after[3..] == [];
    } else {
      assert after == mm && after[2..] == [];
    }
  }

  /** With the hour taken as exactly its digits, the rest is the minutes. */
  lemma WithHourDigitsReads(hh: string, mm: string, colon: bool)
    requires 1 <= |hh| <= 2 && AllDigits(hh) && |mm| == 2 && AllDigits(mm)
    ensures WithHourDigits(hh + Colon(colon) + mm, |hh|) == Some((DigitsValue(hh), DigitsValue(mm)))
  {
    var tail := hh + Colon(colon) + mm;
    assert tail[..|hh|] == hh;
    assert tail[|hh|..] == Colon(colon) + mm;
    MinutesPartReads(mm, colon);
  }

  /** A one-digit hour cannot be read as two digits. */
  lemma OneDigitHour(hh: string, mm: string, colon: bool)
    requires |hh| == 1 && AllDigits(hh) && |mm| == 2 && AllDigits(mm)
    ensures WithHourDigits(hh + Colon(colon) + mm, 2) == None
  {
    var tail := hh + Colon(colon) + mm;
    if colon {
      assert !IsDigit(tail[1]);
      assert !AllDigits(tail[..2]);
    } else {
      assert tail[2..] == [mm[1]];
      assert IsDigit(mm[1]) && !IsSpace(tail[2..][0]);
    }
  }

  /** The offset pattern reads "+H:MM", "-HH:MM", "+HMM" and "-HHMM" as the
      sign, the hour digits and the minute digits. */
  lemma MatchOffsetReads(sign: char, hh: string, mm: string, colon: bool)
    requires sign == '+' || sign == '-'
    requires 1 <= |hh| <= 2 && AllDigits(hh) && |mm| == 2 && AllDigits(mm)
    ensures MatchOffset([sign] + hh + Colon(colon) + mm)
              == Some(Offset(sign == '-', DigitsValue(hh), DigitsValue(mm)))
  {
    var text := [sign] + hh + Colon(colon) + mm;
    var tail := hh + Colon(colon) + mm;
    assert text[1..] == tail;
    assert LeadingSpaces(tail) == 0 by { assert IsDigit(tail[0]); }
    assert tail[0..] == tail;
    WithHourDigitsReads(hh, mm, colon);
    if |hh| == 1 {
      OneDigitHour(hh, mm, colon);
    }
  }

  /** A numeric offset "+H:MM" / "-HH:MM" (or without the colon) is read as
      signed minutes, and one out of range (hours above 14, minutes above
      59) is refused. */
  lemma ZoneOffsetNumeric(sign: char, hh: string, mm: string, colon: bool, zone: string -> Option<int>)
    requires sign == '+' || sign == '-'
    requires 1 <= |hh| <= 2 && AllDigits(hh) && |mm| == 2 && AllDigits(mm)
    ensures var text := [sign] + hh + Colon(colon) + mm;
            ZoneOffset(text, zone) == NumericOffset(Offset(sign == '-', DigitsValue(hh), DigitsValue(mm)), text)
  {
    var text := [sign] + hh + Colon(colon) + mm;
    MatchOffsetReads(sign, hh, mm, colon);
    assert text[|text| - 1] == mm[1] && IsDigit(mm[1]);
    SignedGoesNumeric(text, Offset(sign == '-', DigitsValue(hh), DigitsValue(mm)), zone);
  }

  /** "+H", "-HH": the hours alone, no minutes. */
  lemma MatchOffsetHoursOnly(text: string)
    requires 2 <= |text| <= 3 && (text[0] == '+' || text[0] == '-') && AllDigits(text[1..])
    ensures MatchOffset(text) == Some(Offset(text[0] == '-', DigitsValue(text[1..]), 0))
  {
    var hh := text[1..];
    assert LeadingSpaces(hh) == 0 by { assert IsDigit(hh[0]); }
    assert hh[0..] == hh && hh[..|hh|] == hh && hh[|hh|..] == [];
  }

  /** A signed hour alone is read as whole hours. */
  lemma ZoneOffsetHoursOnly(text: string, zone: string -> Option<int>)
    requires 2 <= |text| <= 3 && (text[0] == '+' || text[0] == '-') && AllDigits(text[1..])
    ensures ZoneOffset(text, zone) == NumericOffset(Offset(text[0] == '-', DigitsValue(text[1..]), 0), text)
  {
    assert IsDigit(text[1..][|text| - 2]);
    MatchOffsetHoursOnly(text);
    SignedGoesNumeric(text, Offset(text[0] == '-', DigitsValue(text[1..]), 0), zone);
  }

  /** Every abbreviation is upper-case letters. */
  lemma AbbreviationLetters()
    ensures forall i, j :: 0 <= i < |Abbreviations| && 0 <= j < |Abbreviations[i].0| ==> IsUpperAscii(Abbreviations[i].0[j])
  {
  }

  /** Text with a character that is not a letter is neither an abbreviation
      nor "UTC"/"GMT". */
  lemma NotAbbreviation(text: string, k: nat)
    requires k < |text| && !IsAsciiLetter(text[k])
    ensures TableOffset(UpperStr(text)) == None && UpperStr(text) !in {"UTC", "GMT"}
  {
    var upper := UpperStr(text);
    assert upper[k] == text[k];
    AbbreviationLetters();
  }

  /** A stripped zone outside the table and not "UTC"/"GMT" goes to the
      offset pattern and the zone database. */
  lemma ZoneOffsetUnlisted(text: string, k: nat, zone: string -> Option<int>)
    requires |text| > 0 && !IsSpace(text[0]) && !IsSpace(text[|text| - 1])
    requires k < |text| && !IsAsciiLetter(text[k])
    ensures ZoneOffset(text, zone) == UnlistedZoneOffset(text, zone)
  {
    StripEnds(text);
    NotAbbreviation(text, k);
  }

  /** "UTC" or "GMT" in any letter case, optional whitespace, then from
      position `n` a signed offset: the prefix is dropped and the offset
      read. */
  lemma ZoneOffsetPrefixed(text: string, n: nat, o: Offset, zone: string -> Option<int>)
    requires 3 <= n < |text| && UtcPrefixed(text) && AllSpace(text[3..n])
    requires (text[n] == '+' || text[n] == '-') && !IsSpace(text[|text| - 1])
    requires MatchOffset(text[n..]) == Some(o)
    ensures ZoneOffset(text, zone) == NumericOffset(o, text)
  {
    DropUtcPrefixAt(text, n);
    assert UnlistedZoneOffset(text, zone) == NumericOffset(o, text);
    UtcPrefixedStart(text);
    ZoneOffsetUnlisted(text, n, zone);
  }

  /** Text with the prefix starts with a letter. */
  lemma UtcPrefixedStart(text: string)
    requires UtcPrefixed(text)
    ensures IsAsciiLetter(text[0]) && !IsSpace(text[0])
  {
    assert LowerStr(text[..3])[0] == Lower(text[0]);
  }

  /** After "UTC"/"GMT" and whitespace up to `n`, the prefix removal leaves
      the text from `n`. */
  lemma DropUtcPrefixAt(text: string, n: nat)
    requires 3 <= n <= |text| && UtcPrefixed(text) && AllSpace(text[3..n])
    requires n == |text| || !IsSpace(text[n])
    ensures DropUtcPrefix(text) == text[n..]
  {
    var rest := text[3..];
    assert rest == text[3..n] + text[n..];
    LeadingSpacesOf(text[3..n], text[n..]);
    assert rest[n - 3..] == text[n..];
  }

  /** A zone name that is neither an abbreviation, nor "UTC"/"GMT", nor an
      offset goes to the zone database; a name it does not know is
      refused. */
  lemma ZoneOffsetName(name: string, k: nat, zone: string -> Option<int>)
    requires |name| > 0 && IsAsciiLetter(name[0]) && !IsSpace(name[|name| - 1]) && !UtcPrefixed(name)
    requires k < |name| && !IsAsciiLetter(name[k])
    ensures ZoneOffset(name, zone) == match zone(name)
                                     case Some(offset) => Ok(offset)
                                     case None => Err("Invalid timezone: " + name)
  {
    ZoneOffsetUnlisted(name, k, zone);
  }

  // ----- the week -----

  /** `date.weekday()` of an ordinal: Monday 0 ... Sunday 6 (ordinal 1,
      0001-01-01, is a Monday). */
  function Weekday(ordinal: int): (d: nat)
    ensures d < 7
  {
    (ordinal + 6) % 7
  }

  /** The ordinal of 1970-01-01. */
  const UnixEpochOrdinal := 719163

  /** `dt.datetime.now(tz).date()`: the local day of the instant. */
  function Today(nowMinutes: int, offset: int): int
  {
    UnixEpochOrdinal + (nowMinutes + offset) / 1440
  }

  /** Future mode: a future keyword ("scheduled", "delay") and no past one. */
  predicate FutureMode(status: Option<string>)
  {
    var n := LowerStr(Strip(match status case Some(s) => s case None => ""));
    && (Contains(n, "scheduled") || Contains(n, "delay"))
    && !(Contains(n, "arrived") || Contains(n, "gate arrival") || Contains(n, "gate-arrival")
         || Contains(n, "en route") || Contains(n, "enroute") || Contains(n, "on time") || Contains(n, "ontime"))
  }

  /** Lines 497-511: move from today to the requested weekday, forward in
      future mode and backward otherwise. */
  method SelectWeek(dayIndex: nat, today: int, future: bool) returns (target: int)
    requires dayIndex < 7
    ensures Weekday(target) == dayIndex
    ensures future ==> 0 <= target - today <= 6
    ensures !future ==> -6 <= target - today <= 0
  {
    var todayIdx := Weekday(today);
    var diff := dayIndex - todayIdx;
    if future {
      if diff < 0 {
        diff := diff + 7;
      }
    } else {
      if diff > 0 {
        diff := diff - 7;
      }
    }
    target := today + diff;
  }

  /** Seven consecutive days hold each weekday once, so the window and the
      weekday fix the date. */
  lemma WeekdayWindowUnique(a: int, b: int)
    requires Weekday(a) == Weekday(b) && -6 <= a - b <= 6
    ensures a == b
  {
  }

  /** Everything `FetchDate` reads from its text, or the error it raises. */
  datatype Request = Request(dayIndex: nat, offset: int)

  /** The input checks of `FetchDate` in its order: the pattern, the day
      name, the clock, the zone. `wordBoundary` false is the pattern as
      written. */
  function ParseRequest(input: string, zone: string -> Option<int>, wordBoundary: bool): (r: Result<Request>)
    ensures r.Ok? ==> r.value.dayIndex < 7
  {
    match MatchHeader(Strip(input), wordBoundary)
    case None => Err("Invalid format. Example: 'Mon 7:00 AM +03' or 'Sun 21:00 UTC'")
    case Some(h) =>
      match DayIndex(h.day)
      case None => Err("Invalid day: " + h.day)
      case Some(d) =>
        if !ClockValid(h.hour, h.minute, h.meridiem) then Err("time data does not match format")
        else
          match ZoneOffset(h.zone, zone)
          case Err(e) => Err(e)
          case Ok(offset) => Ok(Request(d, offset))
  }

  /** The checks after the pattern, once the header is known. */
  lemma ParseRequestFrom(input: string, h: Header, zone: string -> Option<int>, wordBoundary: bool)
    requires MatchHeader(Strip(input), wordBoundary) == Some(h)
    requires DayIndex(h.day).Some? && ClockValid(h.hour, h.minute, h.meridiem)
    ensures ParseRequest(input, zone, wordBoundary)
              == match ZoneOffset(h.zone, zone)
                 case Ok(offset) => Ok(Request(DayIndex(h.day).value, offset))
                 case Err(e) => Err(e)
  {
  }

  /** "Ddd h:mm..." has nothing to strip. */
  lemma RequestTextStripped(day: string, hh: string, mm: string, tail: string)
    requires |day| == 3 && DayAt(day, 0) && |mm| == 2 && AllDigits(mm)
    requires tail == [] || !IsSpace(tail[|tail| - 1])
    ensures Strip(day + " " + hh + ":" + mm + tail) == day + " " + hh + ":" + mm + tail
  {
    var input := day + " " + hh + ":" + mm + tail;
    HeaderTextParts(day, " ", hh, mm, tail);
    assert input[0] == day[0];
    if tail == [] {
      assert input[|input| - 1] == mm[1];
    } else {
      assert input[|input| - 1] == tail[|tail| - 1];
    }
    StripEnds(input);
  }

  /** The header of "Ddd h:mm" and the text after the clock. */
  lemma RequestHeader(day: string, hh: string, mm: string, tail: string, meridiem: Option<string>,
                      zoneText: string, wordBoundary: bool)
    requires |day| == 3 && DayAt(day, 0)
    requires 1 <= |hh| <= 2 && AllDigits(hh) && |mm| == 2 && AllDigits(mm)
    requires tail == [] || !IsSpace(tail[|tail| - 1])
    requires ZoneAt(tail, wordBoundary) == Some((meridiem, zoneText))
    ensures MatchHeader(Strip(day + " " + hh + ":" + mm + tail), wordBoundary)
              == Some(Header(day, hh, mm, meridiem, zoneText))
  {
    RequestTextStripped(day, hh, mm, tail);
    MatchHeaderReads(day, " ", hh, mm, tail, wordBoundary);
  }

  /** "Ddd h:mm" and the text after the clock, in which the meridiem
      group finds `meridiem` and leaves `zoneText`: with a known day and a
      valid clock the request is that day and the zone's offset, or the
      zone's error. */
  lemma ParseRequestReads(day: string, hh: string, mm: string, tail: string, meridiem: Option<string>,
                          zoneText: string, zone: string -> Option<int>, wordBoundary: bool)
    requires |day| == 3 && DayAt(day, 0) && DayIndex(day).Some?
    requires 1 <= |hh| <= 2 && AllDigits(hh) && |mm| == 2 && AllDigits(mm)
    requires tail == [] || !IsSpace(tail[|tail| - 1])
    requires ZoneAt(tail, wordBoundary) == Some((meridiem, zoneText))
    requires ClockValid(hh, mm, meridiem)
    ensures ParseRequest(day + " " + hh + ":" + mm + tail, zone, wordBoundary)
              == match ZoneOffset(zoneText, zone)
                 case Ok(offset) => Ok(Request(DayIndex(day).value, offset))
                 case Err(e) => Err(e)
  {
    var input := day + " " + hh + ":" + mm + tail;
    var h := Header(day, hh, mm, meridiem, zoneText);
    RequestHeader(day, hh, mm, tail, meridiem, zoneText, wordBoundary);
    ParseRequestFrom(input, Header(day, hh, mm, meridiem, zoneText), zone, wordBoundary);
  }

  /** " " and a name starting with "am"/"pm" and a letter, after the clock:
      as written the meridiem group takes the two letters. */
  lemma SwallowedTail(name: string)
    requires |name| > 2 && MeridiemLike(name) && IsAsciiLetter(name[2])
    requires '\n' !in name && !IsSpace(name[|name| - 1])
    ensures ZoneAt(" " + name, false) == Some((Some(name[..2]), name[2..]))
    ensures !IsSpace((" " + name)[|name|])
  {
    assert " " + name == " " + name[..2] + "" + name[2..];
    ZoneAtMeridiem(" ", name[..2], "", name[2..], false);
  }

  /** The same text with the word boundary: no meridiem, the whole name. */
  lemma KeptTail(name: string)
    requires |name| > 2 && MeridiemLike(name) && IsAsciiLetter(name[2])
    requires '\n' !in name && !IsSpace(name[|name| - 1])
    ensures ZoneAt(" " + name, true) == Some((None, name))
    ensures !IsSpace((" " + name)[|name|]) && IsAsciiLetter(name[0])
  {
    ZoneAtPlain(" ", name, true);
  }

  /** As written, a zone name that starts with "am" or "pm" after the
      clock loses those letters to the meridiem, so the rest of the name is
      looked up and, unknown, refused: "Mon 7:00 America/Toronto" fails with
      "Invalid timezone: erica/Toronto". */
  lemma ParseRequestSwallowsZone(day: string, hh: string, mm: string, name: string, k: nat, zone: string -> Option<int>)
    requires |day| == 3 && DayAt(day, 0) && DayIndex(day).Some?
    requires 1 <= |hh| <= 2 && AllDigits(hh) && |mm| == 2 && AllDigits(mm)
    requires |name| > 2 && MeridiemLike(name) && IsAsciiLetter(name[2])
    requires ClockValid(hh, mm, Some(name[..2]))
    requires '\n' !in name && !IsSpace(name[|name| - 1]) && !UtcPrefixed(name[2..])
    requires 2 < k < |name| && !IsAsciiLetter(name[k]) && zone(name[2..]) == None
    ensures ParseRequest(day + " " + hh + ":" + mm + (" " + name), zone, false)
              == Err("Invalid timezone: " + name[2..])
  {
    var rest := name[2..];
    SwallowedTail(name);
    assert rest[k - 2] == name[k];
    ZoneOffsetName(rest, k - 2, zone);
    ParseRequestReads(day, hh, mm, " " + name, Some(name[..2]), rest, zone, false);
  }

  /** As written, the same input with a 24-hour clock past 12 is refused
      by the clock check, because the swallowed letters make it a 12-hour
      clock: "Mon 13:00 America/Toronto". */
  lemma ParseRequestSwallowsClock(day: string, hh: string, mm: string, name: string, zone: string -> Option<int>)
    requires |day| == 3 && DayAt(day, 0) && DayIndex(day).Some?
    requires 1 <= |hh| <= 2 && AllDigits(hh) && |mm| == 2 && AllDigits(mm)
    requires 12 < DigitsValue(hh) <= 23 && DigitsValue(mm) <= 59
    requires |name| > 2 && MeridiemLike(name) && IsAsciiLetter(name[2])
    requires '\n' !in name && !IsSpace(name[|name| - 1])
    ensures ClockValid(hh, mm, None)
    ensures ParseRequest(day + " " + hh + ":" + mm + (" " + name), zone, false)
              == Err("time data does not match format")
  {
    SwallowedTail(name);
    RequestHeader(day, hh, mm, " " + name, Some(name[..2]), name[2..], false);
  }

  /** With the word boundary, such a zone name is kept whole and looked up:
      "Mon 7:00 America/Toronto" is 7:00 in America/Toronto. */
  lemma ParseRequestWordKeepsZone(day: string, hh: string, mm: string, name: string, k: nat,
                                  zone: string -> Option<int>, offset: int)
    requires |day| == 3 && DayAt(day, 0) && DayIndex(day).Some?
    requires 1 <= |hh| <= 2 && AllDigits(hh) && |mm| == 2 && AllDigits(mm) && ClockValid(hh, mm, None)
    requires |name| > 2 && MeridiemLike(name) && IsAsciiLetter(name[2])
    requires '\n' !in name && !IsSpace(name[|name| - 1]) && !UtcPrefixed(name)
    requires k < |name| && !IsAsciiLetter(name[k]) && zone(name) == Some(offset)
    ensures ParseRequest(day + " " + hh + ":" + mm + (" " + name), zone, true)
              == Ok(Request(DayIndex(day).value, offset))
  {
    KeptTail(name);
    ZoneOffsetName(name, k, zone);
    ParseRequestReads(day, hh, mm, " " + name, None, name, zone, true);
  }

  /** `FetchDate`: the requested weekday within the week before (or, in
      future mode, after) today in the given zone. */
  method FetchDate(input: string, status: Option<string>, nowMinutes: int, zone: string -> Option<int>)
    returns (r: Result<int>)
    ensures r.Err? <==> ParseRequest(input, zone, false).Err?
    ensures r.Err? ==> r.reason == ParseRequest(input, zone, false).reason
    ensures r.Ok? ==>
              var q := ParseRequest(input, zone, false).value;
              var today := Today(nowMinutes, q.offset);
              && Weekday(r.value) == q.dayIndex
              && (FutureMode(status) ==> 0 <= r.value - today <= 6)
              && (!FutureMode(status) ==> -6 <= r.value - today <= 0)
  {
    var request := ParseRequest(input, zone, false);
    if request.Err? {
      return Err(request.reason);
    }
    var today := Today(nowMinutes, request.value.offset);
    var target := SelectWeek(request.value.dayIndex, today, FutureMode(status));
    return Ok(target);
  }
}
