/** The flight-list helpers of the Streamlit front end: labels, the time
    text of a row, the "early" flag, and the sorting and grouping of the
    flight history into current, future and past flights. `strptime` over
    `DATE_FORMATS` and `TIME_FORMATS` is outside the model and comes in as
    `Parsers`; the wall clock comes in as `now`. */
module FrontendDev {
  import opened Common
  import opened Text
  import opened StableSort

  /** A history row. A missing key or a `None` value reads as "", as every
      use of these fields does (`r.get(...) or ""`); the other keys ride
      along in `rest`. */
  datatype Flight = Flight(date: string, departureLocal: string, arrivalLocal: string, status: string,
                           rest: map<string, string>)

  /** `parse_date_safe` (a date as a proleptic Gregorian ordinal) and
      `parse_time_safe` (a time as seconds after midnight). */
  datatype Parsers = Parsers(date: string -> Option<int>, time: string -> Option<nat>)

  // ----- labels -----

  /** An airport value: a dict, a string, or `None`. */
  datatype AirportValue = AirportDict(entries: map<string, string>) | AirportText(text: string) | NoAirport

  /** A placeholder dash. */
  const Dash := "\U{2014}"

  /** `ap_label`: a dict's non-empty "code", else its non-empty "name", else
      a dash; a non-empty string itself; anything else a dash. */
  function ApLabel(ap: AirportValue): (r: string)
    ensures r != ""
    ensures ap.AirportDict? && "code" in ap.entries && ap.entries["code"] != "" ==> r == ap.entries["code"]
    ensures ap.AirportDict? && !("code" in ap.entries && ap.entries["code"] != "") ==>
              r == if "name" in ap.entries && ap.entries["name"] != "" then ap.entries["name"] else Dash
    ensures ap.AirportText? ==> r == if ap.text != "" then ap.text else Dash
    ensures ap.NoAirport? ==> r == Dash
  {
    match ap
    case AirportDict(m) =>
      if "code" in m && m["code"] != "" then m["code"]
      else if "name" in m && m["name"] != "" then m["name"]
      else Dash
    case AirportText(s) => if s != "" then s else Dash
    case NoAirport => Dash
  }

  // ----- the clock text of a row -----

  predicate HasDigit(s: string) { exists i :: 0 <= i < |s| && IsDigit(s[i]) }

  /** The position of the first token holding a digit. */
  function FirstWithDigit(tokens: seq<string>): (r: Option<nat>)
    ensures r.None? <==> forall k :: 0 <= k < |tokens| ==> !HasDigit(tokens[k])
    ensures r.Some? ==> && r.value < |tokens| && HasDigit(tokens[r.value])
                        && forall k :: 0 <= k < r.value ==> !HasDigit(tokens[k])
  {
    if tokens == [] then None
    else if HasDigit(tokens[0]) then Some(0)
    else
      match FirstWithDigit(tokens[1..])
      case None => None
      case Some(k) => Some(k + 1)
  }

  /** `strip_tz`: the clock token of a "clock zone" text. */
  function StripTz(clockText: string): string
  {
    var text := Strip(clockText);
    var w := Words(text);
    match FirstWithDigit(w)
    case Some(k) => w[k]
    case None => text
  }

  /** `strip_tz` gives the first whitespace-separated token that holds a
      digit, else the stripped text. */
  lemma StripTzToken(clockText: string)
    ensures var w, r := Words(Strip(clockText)), StripTz(clockText);
            && ((forall k :: 0 <= k < |w| ==> !HasDigit(w[k])) ==> r == Strip(clockText))
            && ((exists k :: 0 <= k < |w| && HasDigit(w[k])) ==>
                  exists k :: 0 <= k < |w| && r == w[k] && HasDigit(r) && NoSpace(r)
                              && forall j :: 0 <= j < k ==> !HasDigit(w[j]))
  {
    var w := Words(Strip(clockText));
    var found := FirstWithDigit(w);
    if found.Some? {
      var k := found.value;
      assert StripTz(clockText) == w[k];
      assert NoSpace(w[k]);
    }
  }

  /** A clock token followed by a zone: "08:20AM +03" gives "08:20AM". */
  lemma StripTzClockFirst(clock: string, zone: string)
    requires |clock| > 0 && NoSpace(clock) && HasDigit(clock)
    requires |zone| > 0 && !IsSpace(zone[|zone| - 1])
    ensures StripTz(clock + " " + zone) == clock
  {
    var text := clock + " " + zone;
    assert text[|text| - 1] == zone[|zone| - 1];
    StripEnds(text);
    assert LStrip(text) == text by { assert LeadingSpaces(text) == 0; }
    assert text[|clock|..][0] == ' ';
    assert text == clock + text[|clock|..];
    WordEndOf(clock, text[|clock|..]);
    assert text[..|clock|] == clock;
    assert Words(text)[0] == clock;
  }

  /** `compute_flight_early`: "early" in the lower-cased status; any other
      status, "scheduled" included, and a missing one give false. */
  function ComputeFlightEarly(f: Flight): (r: bool)
    ensures r <==> Contains(LowerStr(f.status), "early")
    ensures f.status == "" ==> !r
  {
    var status := LowerStr(f.status);
    if Contains(status, "early") then true
    else if Contains(status, "scheduled") then false
    else false
  }

  // ----- sorting -----

  /** A local date and time: the ordinal day and seconds after midnight. */
  datatype When = When(day: int, second: int)

  /** `date.min`. */
  const DateMin := 1

  /** The key of `sort_flights`: the parsed date or `date.min`, and the
      parsed departure time or midnight. */
  function FlightKey(p: Parsers): Flight -> When
  {
    (f: Flight) => When(match p.date(f.date) case Some(d) => d case None => DateMin,
                        match p.time(f.departureLocal) case Some(t) => t case None => 0)
  }

  /** `a` comes no earlier than `b`: the order of `reverse=True`. */
  predicate AtLeast(a: When, b: When)
  {
    a.day > b.day || (a.day == b.day && a.second >= b.second)
  }

  lemma AtLeastTotal()
    ensures TotalPreorder(AtLeast)
  {
  }

  /** `sort_flights`: most recent first, by (date, departure time). */
  function SortFlights(rows: seq<Flight>, p: Parsers): (r: seq<Flight>)
    ensures |r| == |rows| && multiset(r) == multiset(rows)
    ensures forall i, j :: 0 <= i < j < |r| ==> AtLeast(FlightKey(p)(r[i]), FlightKey(p)(r[j]))
  {
    SortPermutes(rows, FlightKey(p), AtLeast);
    AtLeastTotal();
    SortSorted(rows, FlightKey(p), AtLeast);
    Sort(rows, FlightKey(p), AtLeast)
  }

  /** Rows with the same date and time keep their input order. */
  lemma SortFlightsStable(rows: seq<Flight>, p: Parsers, k: When)
    ensures Ties(SortFlights(rows, p), k, FlightKey(p), AtLeast) == Ties(rows, k, FlightKey(p), AtLeast)
  {
    AtLeastTotal();
    SortStable(rows, k, FlightKey(p), AtLeast);
  }

  // ----- grouping -----

  /** `parse_local_clock_safe`: the time of the clock token. */
  function LocalClock(text: string, p: Parsers): Option<nat>
  {
    p.time(StripTz(text))
  }

  /** `_combine_local_datetime`: `None` when neither the date nor the
      departure time parses; otherwise the missing one is today or midnight. */
  function CombineLocal(f: Flight, today: int, p: Parsers): (r: Option<When>)
    ensures r.None? <==> p.date(f.date).None? && LocalClock(f.departureLocal, p).None?
    ensures r.Some? ==> r.value.day == (if p.date(f.date).Some? then p.date(f.date).value else today)
    ensures r.Some? ==> r.value.second == (match LocalClock(f.departureLocal, p) case Some(t) => t case None => 0)
  {
    var d := p.date(f.date);
    var t := LocalClock(f.departureLocal, p);
    if d.None? && t.None? then None
    else Some(When(match d case Some(x) => x case None => today, match t case Some(x) => x case None => 0))
  }

  datatype Bucket = Current | Future | Past

  /** Strictly after. */
  predicate After(a: When, b: When)
  {
    a.day > b.day || (a.day == b.day && a.second > b.second)
  }

  /** Where `categorize_flights` puts a row, `now` being the local date and
      time. */
  function BucketOf(f: Flight, now: When, p: Parsers): Bucket
  {
    match CombineLocal(f, now.day, p)
    case None => Past
    case Some(departure) =>
      if departure.day == now.day then Current
      else if After(departure, now) then Future
      else Past
  }

  /** `BucketOf` as a function of the row. */
  function Bucketing(now: When, p: Parsers): Flight -> Bucket
  {
    f => BucketOf(f, now, p)
  }

  /** The elements of `xs` whose key is `k`, in order. */
  function KeyedBy<T, K(==)>(xs: seq<T>, k: K, key: T -> K): seq<T>
  {
    if xs == [] then []
    else
      var init := KeyedBy(xs[..|xs| - 1], k, key);
      if key(xs[|xs| - 1]) == k then init + [xs[|xs| - 1]] else init
  }

  /** An element extends the part of its own key and no other. */
  lemma KeyedByAppend<T, K>(xs: seq<T>, x: T, k: K, key: T -> K)
    ensures KeyedBy(xs + [x], k, key) == if key(x) == k then KeyedBy(xs, k, key) + [x] else KeyedBy(xs, k, key)
  {
    assert (xs + [x])[..|xs|] == xs;
  }

  /** Keying by bucket splits a sequence into three parts. */
  lemma {:induction false} KeyedByPartition<T>(xs: seq<T>, key: T -> Bucket)
    ensures multiset(KeyedBy(xs, Current, key)) + multiset(KeyedBy(xs, Future, key))
              + multiset(KeyedBy(xs, Past, key)) == multiset(xs)
  {
    if xs != [] {
      var init, last := xs[..|xs| - 1], xs[|xs| - 1];
      KeyedByPartition(init, key);
      assert xs == init + [last];
      KeyedByAppend(init, last, Current, key);
      KeyedByAppend(init, last, Future, key);
      KeyedByAppend(init, last, Past, key);
      assert multiset(xs) == multiset(init) + multiset{last};
      match key(last)
      case Current =>
        assert multiset(KeyedBy(xs, Current, key)) == multiset(KeyedBy(init, Current, key)) + multiset{last};
      case Future =>
        assert multiset(KeyedBy(xs, Future, key)) == multiset(KeyedBy(init, Future, key)) + multiset{last};
      case Past =>
        assert multiset(KeyedBy(xs, Past, key)) == multiset(KeyedBy(init, Past, key)) + multiset{last};
    }
  }

  /** Only elements with key `k` are kept. */
  lemma {:induction false} KeyedByMembers<T, K>(xs: seq<T>, k: K, key: T -> K)
    ensures forall i :: 0 <= i < |KeyedBy(xs, k, key)| ==> key(KeyedBy(xs, k, key)[i]) == k
  {
    if xs != [] {
      var init := xs[..|xs| - 1];
      KeyedByMembers(init, k, key);
      var r, ri := KeyedBy(xs, k, key), KeyedBy(init, k, key);
      forall i | 0 <= i < |r| ensures key(r[i]) == k {
        if i < |ri| {
          assert r[i] == ri[i];
        }
      }
    }
  }

  /** The rows of one bucket, in input order. */
  function Select(rows: seq<Flight>, b: Bucket, now: When, p: Parsers): seq<Flight>
  {
    KeyedBy(rows, b, Bucketing(now, p))
  }

  /** One more row extends its own bucket and no other. */
  lemma SelectStep(rows: seq<Flight>, i: nat, now: When, p: Parsers)
    requires i < |rows|
    ensures forall b :: Select(rows[..i + 1], b, now, p)
                          == if BucketOf(rows[i], now, p) == b then Select(rows[..i], b, now, p) + [rows[i]]
                             else Select(rows[..i], b, now, p)
  {
    assert rows[..i + 1] == rows[..i] + [rows[i]];
    forall b {
      KeyedByAppend(rows[..i], rows[i], b, Bucketing(now, p));
    }
  }

  /** Each row goes to exactly one bucket. */
  lemma SelectPartition(rows: seq<Flight>, now: When, p: Parsers)
    ensures multiset(Select(rows, Current, now, p)) + multiset(Select(rows, Future, now, p))
              + multiset(Select(rows, Past, now, p)) == multiset(rows)
  {
    KeyedByPartition(rows, Bucketing(now, p));
  }

  datatype Buckets = Buckets(current: seq<Flight>, future: seq<Flight>, past: seq<Flight>)

  /** `categorize_flights`: one pass appending each row to its bucket, then
      `sort_flights` on each. */
  method CategorizeFlights(rows: seq<Flight>, now: When, p: Parsers) returns (r: Buckets)
    ensures r.current == SortFlights(Select(rows, Current, now, p), p)
    ensures r.future == SortFlights(Select(rows, Future, now, p), p)
    ensures r.past == SortFlights(Select(rows, Past, now, p), p)
  {
    var current, future, past := [], [], [];
    for i := 0 to |rows|
      invariant current == Select(rows[..i], Current, now, p)
      invariant future == Select(rows[..i], Future, now, p)
      invariant past == Select(rows[..i], Past, now, p)
    {
      SelectStep(rows, i, now, p);
      var f := rows[i];
      var departure := CombineLocal(f, now.day, p);
      if departure.None? {
        past := past + [f];
        continue;
      }
      if departure.value.day == now.day {
        current := current + [f];
      } else if After(departure.value, now) {
        future := future + [f];
      } else {
        past := past + [f];
      }
    }
    assert rows[..|rows|] == rows;
    r := Buckets(SortFlights(current, p), SortFlights(future, p), SortFlights(past, p));
  }

  /** The three buckets hold every row once, and each row's bucket follows
      its departure: none or before today in past, today in current, later
      in future. */
  lemma CategorizeMeaning(rows: seq<Flight>, now: When, p: Parsers)
    ensures var current := SortFlights(Select(rows, Current, now, p), p);
            var future := SortFlights(Select(rows, Future, now, p), p);
            var past := SortFlights(Select(rows, Past, now, p), p);
            && multiset(current) + multiset(future) + multiset(past) == multiset(rows)
            && (forall f :: f in current ==> CombineLocal(f, now.day, p).Some?
                                             && CombineLocal(f, now.day, p).value.day == now.day)
            && (forall f :: f in future ==> CombineLocal(f, now.day, p).Some?
                                            && CombineLocal(f, now.day, p).value.day != now.day
                                            && After(CombineLocal(f, now.day, p).value, now))
            && (forall f :: f in past ==> CombineLocal(f, now.day, p).None?
                                          || (CombineLocal(f, now.day, p).value.day != now.day
                                              && !After(CombineLocal(f, now.day, p).value, now)))
  {
    SelectPartition(rows, now, p);
    forall f | f in SortFlights(Select(rows, Current, now, p), p) ensures BucketOf(f, now, p) == Current {
      SortedMember(rows, Current, now, p, f);
    }
    forall f | f in SortFlights(Select(rows, Future, now, p), p) ensures BucketOf(f, now, p) == Future {
      SortedMember(rows, Future, now, p, f);
    }
    forall f | f in SortFlights(Select(rows, Past, now, p), p) ensures BucketOf(f, now, p) == Past {
      SortedMember(rows, Past, now, p, f);
    }
  }

  /** A row of a sorted bucket belongs to that bucket. */
  lemma SortedMember(rows: seq<Flight>, b: Bucket, now: When, p: Parsers, f: Flight)
    requires f in SortFlights(Select(rows, b, now, p), p)
    ensures BucketOf(f, now, p) == b
  {
    var s := Select(rows, b, now, p);
    assert f in multiset(s) by {
      assert f in multiset(SortFlights(s, p));
    }
    var k :| 0 <= k < |s| && s[k] == f;
    KeyedByMembers(rows, b, Bucketing(now, p));
    assert Bucketing(now, p)(s[k]) == b;
  }

  /** A bucket holds only rows that belong to it. */
  lemma SelectMembers(rows: seq<Flight>, b: Bucket, now: When, p: Parsers)
    ensures forall k :: 0 <= k < |Select(rows, b, now, p)| ==> BucketOf(Select(rows, b, now, p)[k], now, p) == b
  {
    KeyedByMembers(rows, b, Bucketing(now, p));
  }
}
