/** The text helpers of the flight-history scraper: flight identifiers, the
    FlightAware URL, airport cells, HTML fragments and the history table
    rows. The scraping itself (HTTP, HTML parsing) is outside the model:
    table rows arrive as the texts of their cells. */
module FlightData {
  import opened Common
  import opened Text

  // ----- identifiers -----

  /** Index of the first ASCII digit at or after `i`, or `|s|`. */
  function FirstDigit(s: string, i: nat): (k: nat)
    requires i <= |s|
    ensures i <= k <= |s| && (k < |s| ==> IsDigit(s[k]))
    ensures forall j :: i <= j < k ==> !IsDigit(s[j])
    decreases |s| - i
  {
    if i == |s| || IsDigit(s[i]) then i else FirstDigit(s, i + 1)
  }

  /** End of the run of digits that starts at `i`. */
  function DigitRunEnd(s: string, i: nat): (k: nat)
    requires i <= |s|
    ensures i <= k <= |s| && (k < |s| ==> !IsDigit(s[k]))
    ensures forall j :: i <= j < k ==> IsDigit(s[j])
    decreases |s| - i
  {
    if i == |s| || !IsDigit(s[i]) then i else DigitRunEnd(s, i + 1)
  }

  /** `r` is a maximal run of digits at `i` with no digit before it. */
  predicate FirstRunAt(s: string, i: nat, r: string)
  {
    && i + |r| <= |s| && s[i..i + |r|] == r
    && AllDigits(r)
    && (forall j :: 0 <= j < i ==> !IsDigit(s[j]))
    && (i + |r| == |s| || !IsDigit(s[i + |r|]))
  }

  /** `_digits` (`re.findall(r"\d+", s)[0]`): the first maximal run of
      digits, "" when there is no digit. */
  function FirstDigitRun(s: string): (r: string)
    ensures r == "" <==> forall j :: 0 <= j < |s| ==> !IsDigit(s[j])
    ensures r != "" ==> exists i :: FirstRunAt(s, i, r)
  {
    var i := FirstDigit(s, 0);
    var r := s[i..DigitRunEnd(s, i)];
    assert r != "" ==> FirstRunAt(s, i, r);
    r
  }

  /** The ASCII letters and digits of `s`, in order. */
  function KeepAlnum(s: string): (r: string)
    ensures forall i :: 0 <= i < |r| ==> IsAlnum(r[i])
    ensures |r| <= |s|
  {
    if s == [] then []
    else (if IsAlnum(s[0]) then [s[0]] else []) + KeepAlnum(s[1..])
  }

  /** `_normalize_flight`: `re.sub(r"[^A-Za-z0-9]", "", s).upper()`. */
  function NormalizeFlight(s: string): (r: string)
    ensures forall i :: 0 <= i < |r| ==> IsUpperAscii(r[i]) || IsDigit(r[i])
    ensures |r| <= |s|
  {
    UpperStr(KeepAlnum(s))
  }

  lemma {:induction false} KeepAlnumAppend(a: string, b: string)
    ensures KeepAlnum(a + b) == KeepAlnum(a) + KeepAlnum(b)
  {
    if a != [] {
      KeepAlnumAppend(a[1..], b);
      assert (a + b)[1..] == a[1..] + b;
    } else {
      assert a + b == b;
    }
  }

  /** The output is built character by character: each ASCII letter or
      digit of the input, upper-cased, in input order, and nothing else. */
  lemma NormalizeFlightKeepsOrder(a: string, b: string, c: char)
    ensures NormalizeFlight(a + b) == NormalizeFlight(a) + NormalizeFlight(b)
    ensures NormalizeFlight([c]) == if IsAlnum(c) then [Upper(c)] else []
  {
    KeepAlnumAppend(a, b);
    assert [c][1..] == [];
  }

  lemma {:induction false} KeepAlnumAll(s: string)
    requires forall i :: 0 <= i < |s| ==> IsAlnum(s[i])
    ensures KeepAlnum(s) == s
  {
    if s != [] {
      KeepAlnumAll(s[1..]);
    }
  }

  /** Normalising twice is normalising once. */
  lemma NormalizeFlightIdempotent(s: string)
    ensures NormalizeFlight(NormalizeFlight(s)) == NormalizeFlight(s)
  {
    var r := NormalizeFlight(s);
    KeepAlnumAll(r);
    assert UpperStr(r) == r;
  }

  // ----- the FlightAware URL -----

  const LiveFlight := "/live/flight/"

  /** A segment character: anything but '/', '?' and '#'. */
  predicate SegmentChar(c: char) { c != '/' && c != '?' && c != '#' }

  /** End of the run of segment characters that starts at `i`. */
  function SegmentEnd(url: string, i: nat): (k: nat)
    requires i <= |url|
    ensures i <= k <= |url| && (k < |url| ==> !SegmentChar(url[k]))
    ensures forall j :: i <= j < k ==> SegmentChar(url[j])
    decreases |url| - i
  {
    if i == |url| || !SegmentChar(url[i]) then i else SegmentEnd(url, i + 1)
  }

  /** `/live/flight/([^/?#]+)` matches at `i` (letters in either case). */
  predicate IdentAt(url: string, i: nat)
  {
    && i + |LiveFlight| < |url|
    && LowerStr(url[i..i + |LiveFlight|]) == LiveFlight
    && SegmentChar(url[i + |LiveFlight|])
  }

  /** The segment of the match at `i`. */
  function IdentOf(url: string, i: nat): string
    requires IdentAt(url, i)
  {
    url[i + |LiveFlight|..SegmentEnd(url, i + |LiveFlight|)]
  }

  /** The leftmost match at or after `i`. */
  function FindIdent(url: string, i: nat): (r: Option<nat>)
    ensures r.Some? ==> i <= r.value && IdentAt(url, r.value)
    ensures forall j :: i <= j && (r.None? || j < r.value) ==> !IdentAt(url, j)
    decreases |url| - i
  {
    if i + |LiveFlight| >= |url| then None
    else if IdentAt(url, i) then Some(i)
    else FindIdent(url, i + 1)
  }

  /** `_extract_ident_from_url`: the non-empty segment after the leftmost
      "/live/flight/" that has one, up to the next '/', '?' or '#'. */
  function ExtractIdentFromUrl(url: string): (r: Option<string>)
    ensures r.None? <==> forall j :: !IdentAt(url, j)
    ensures r.Some? ==>
              && |r.value| > 0
              && (forall k :: 0 <= k < |r.value| ==> SegmentChar(r.value[k]))
              && exists i :: IdentAt(url, i) && r.value == IdentOf(url, i) && forall j :: j < i ==> !IdentAt(url, j)
  {
    match FindIdent(url, 0)
    case None => None
    case Some(i) => Some(IdentOf(url, i))
  }

  /** A FlightAware history URL gives the flight's ident. */
  lemma ExtractIdentExample()
    ensures ExtractIdentFromUrl("/live/flight/UAL123/history") == Some("UAL123")
  {
    var url := "/live/flight/UAL123/history";
    assert IdentAt(url, 0) by {
      assert url[0..13] == LiveFlight;
      LowerKeeps(LiveFlight);
    }
    assert IdentOf(url, 0) == "UAL123" by {
      assert SegmentEnd(url, 13) == 19 by { assert url[19] == '/'; }
      assert url[13..19] == "UAL123";
    }
  }

  // ----- airport cells -----

  /** `parse_airport`'s result: `{"name", "code"}` or `{"raw"}`. */
  datatype Airport = Named(name: string, code: string) | Raw(text: string)

  /** `([^)]+)\)\s*$` on the text after the opening parenthesis: the
      characters before the first ')', when there is at least one and only
      whitespace follows that ')'. */
  function ParenGroup(rest: string): (r: Option<string>)
    ensures r.Some? ==> 0 < |r.value| < |rest| && ')' !in r.value
    ensures r.Some? ==> rest[|r.value|] == ')' && rest[..|r.value|] == r.value && AllSpace(rest[|r.value| + 1..])
  {
    if ')' in rest then
      var i := IndexOf(rest, ')');
      if i > 0 && AllSpace(rest[i + 1..]) then Some(rest[..i]) else None
    else None
  }

  /** `\s*\(([^)]+)\)\s*$` at position `a`: the code group, if it matches. */
  function CodeAt(text: string, a: nat): (r: Option<string>)
    requires a <= |text|
  {
    var b := a + LeadingSpaces(text[a..]);
    if b < |text| && text[b] == '(' then ParenGroup(text[b + 1..]) else None
  }

  /** The whole pattern matches with group 1 = `text[s..a]` (`.` never
      matches a newline). */
  predicate GroupsAt(text: string, s: nat, a: nat)
  {
    s < a <= |text| && '\n' !in text[s..a] && CodeAt(text, a).Some?
  }

  /** The lazy `.+?`: the shortest group 1 from `s`, trying ends from `a`. */
  function LazyEnd(text: string, s: nat, a: nat): (r: Option<nat>)
    requires s < a <= |text| && '\n' !in text[s..a - 1]
    ensures r.Some? ==> a <= r.value && GroupsAt(text, s, r.value)
    ensures forall e :: a <= e && (r.None? || e < r.value) ==> !GroupsAt(text, s, e)
    decreases |text| - a
  {
    if text[a - 1] == '\n' then
      assert forall e :: a <= e <= |text| ==> text[a - 1] in text[s..e];
      None
    else
      assert '\n' !in text[s..a] by {
        assert text[s..a] == text[s..a - 1] + [text[a - 1]];
      }
      if CodeAt(text, a).Some? then Some(a)
      else
        assert !GroupsAt(text, s, a);
        if a == |text| then None
        else LazyEnd(text, s, a + 1)
  }

  /** `re.search`: the leftmost start at or after `s` with a match. */
  function SearchFrom(text: string, s: nat): (r: Option<(nat, nat)>)
    requires s <= |text|
    ensures r.Some? ==> s <= r.value.0 && GroupsAt(text, r.value.0, r.value.1)
    ensures r.Some? ==> forall e :: r.value.0 < e < r.value.1 ==> !GroupsAt(text, r.value.0, e)
    ensures forall t: nat, e: nat :: s <= t && (r.None? || t < r.value.0) ==> !GroupsAt(text, t, e)
    decreases |text| - s
  {
    if s == |text| then None
    else
      match LazyEnd(text, s, s + 1)
      case Some(a) => Some((s, a))
      case None => SearchFrom(text, s + 1)
  }

  /** The match is the leftmost one, with the shortest group 1 there. */
  ghost predicate FirstMatch(text: string, s: nat, a: nat)
  {
    && GroupsAt(text, s, a)
    && (forall t: nat, e: nat :: t < s ==> !GroupsAt(text, t, e))
    && (forall e :: s < e < a ==> !GroupsAt(text, s, e))
  }

  /** `parse_airport`: `re.search(r"(.+?)\s*\(([^)]+)\)\s*$", text)`, both
      groups stripped, or the raw text when nothing matches. */
  function ParseAirport(text: string): (r: Airport)
    ensures r.Raw? <==> forall s: nat, a: nat :: !GroupsAt(text, s, a)
    ensures r.Raw? ==> r.text == text
    ensures r.Named? ==>
              exists s: nat, a: nat :: FirstMatch(text, s, a) && r == Named(Strip(text[s..a]), Strip(CodeAt(text, a).value))
  {
    match SearchFrom(text, 0)
    case None => Raw(text)
    case Some((s, a)) =>
      assert FirstMatch(text, s, a);
      Named(Strip(text[s..a]), Strip(CodeAt(text, a).value))
  }

  /** The spaces before " (" at the end of the name are exactly one. */
  lemma CloseSpaces(name: string, code: string)
    ensures LeadingSpaces((name + " (" + code + ")")[|name|..]) == 1
  {
    var tail := " (" + code + ")";
    assert (name + " (" + code + ")")[|name|..] == tail;
    assert tail[1..] == "(" + code + ")";
    assert LeadingSpaces(tail[1..]) == 0;
  }

  /** The first ')' of `code + ")"` is the appended one. */
  lemma CloseIndex(code: string)
    requires ')' !in code
    ensures ')' in code + ")" && IndexOf(code + ")", ')') == |code|
  {
    var rest := code + ")";
    assert rest[|code|] == ')' && rest[..|code|] == code;
  }

  lemma CodeAtClose(name: string, code: string)
    requires |code| > 0 && ')' !in code
    ensures CodeAt(name + " (" + code + ")", |name|) == Some(code)
  {
    var text := name + " (" + code + ")";
    var rest := code + ")";
    CloseSpaces(name, code);
    CloseIndex(code);
    assert text[|name| + 1] == '(' && text[|name| + 2..] == rest;
    assert rest[|code| + 1..] == [] && rest[..|code|] == code;
  }

  lemma CodeAtInsideName(name: string, code: string, a: nat)
    requires 0 < a < |name| && '(' !in name && !IsSpace(name[|name| - 1])
    ensures CodeAt(name + " (" + code + ")", a).None?
  {
    var text := name + " (" + code + ")";
    var n := |name|;
    var k := LeadingSpaces(text[a..]);
    LeadingSpacesBefore(text[a..], n - 1 - a);
    assert text[a + k] == name[a + k];
  }

  /** A cell "Name (CODE)" whose name has no '(' or newline and does not
      end in whitespace splits into that name and code. */
  lemma ParseAirportNameCode(name: string, code: string)
    requires |name| > 0 && '(' !in name && '\n' !in name && !IsSpace(name[|name| - 1])
    requires |code| > 0 && ')' !in code
    ensures ParseAirport(name + " (" + code + ")") == Named(Strip(name), Strip(code))
  {
    var text := name + " (" + code + ")";
    var n := |name|;
    CodeAtClose(name, code);
    assert text[0..n] == name;
    assert GroupsAt(text, 0, n);
    var r := ParseAirport(text);
    var s: nat, a: nat :| FirstMatch(text, s, a) && r == Named(Strip(text[s..a]), Strip(CodeAt(text, a).value));
    assert s == 0;
    if a < n {
      CodeAtInsideName(name, code, a);
    }
    assert a == n;
  }

  // ----- HTML fragments -----

  /** `re.sub(r"<[^>]*>", "", s)`: a '<' with a '>' somewhere after it
      starts a tag that runs to the first such '>'; a '<' without one is
      kept. */
  function RemoveTags(s: string): (r: string)
    ensures forall c :: c in r ==> c in s
    ensures NoTag(r)
    decreases |s|
  {
    if s == [] then []
    else if s[0] == '<' && '>' in s[1..] then
      var rest := s[1..][IndexOf(s[1..], '>') + 1..];
      assert forall c :: c in rest ==> c in s;
      RemoveTags(rest)
    else
      var r := [s[0]] + RemoveTags(s[1..]);
      assert r[1..] == RemoveTags(s[1..]);
      r
  }

  /** No '<' is followed, anywhere later, by a '>'. */
  predicate NoTag(s: string)
  {
    s == [] || ((s[0] == '<' ==> '>' !in s[1..]) && NoTag(s[1..]))
  }

  /** `s.replace("\xa0", " ")`. */
  function ReplaceNbsp(s: string): (r: string)
    ensures |r| == |s| && '\U{A0}' !in r
  {
    if s == [] then [] else [if s[0] == '\U{A0}' then ' ' else s[0]] + ReplaceNbsp(s[1..])
  }

  /** A character other than whitespace. */
  const NotSpace: char -> bool := c => !IsSpace(c)

  /** The non-whitespace characters of `s`, in order. */
  function Visible(s: string): string
  {
    Filter(s, NotSpace)
  }

  /** The words, concatenated. */
  function Flat(ws: seq<string>): string
  {
    if ws == [] then [] else ws[0] + Flat(ws[1..])
  }

  lemma VisibleAppend(a: string, b: string)
    ensures Visible(a + b) == Visible(a) + Visible(b)
  {
    FilterAppend(a, b, NotSpace);
  }

  lemma {:induction false} VisibleOfSpaces(s: string)
    requires AllSpace(s)
    ensures Visible(s) == []
  {
    if s != [] {
      VisibleOfSpaces(s[1..]);
    }
  }

  lemma {:induction false} VisibleOfWord(s: string)
    requires NoSpace(s)
    ensures Visible(s) == s
  {
    if s != [] {
      VisibleOfWord(s[1..]);
    }
  }

  lemma {:induction false} VisibleHas(s: string, c: char)
    requires !IsSpace(c)
    ensures c in s <==> c in Visible(s)
  {
    if s != [] {
      VisibleHas(s[1..], c);
      assert c in s <==> c == s[0] || c in s[1..];
    }
  }

  lemma {:induction false} NoTagVisible(s: string)
    ensures NoTag(s) <==> NoTag(Visible(s))
  {
    if s != [] {
      NoTagVisible(s[1..]);
      VisibleHas(s[1..], '>');
      if !IsSpace(s[0]) {
        assert Visible(s) == [s[0]] + Visible(s[1..]);
        assert Visible(s)[1..] == Visible(s[1..]);
      } else {
        assert Visible(s) == Visible(s[1..]);
      }
    }
  }

  lemma {:induction false} VisibleNbsp(s: string)
    ensures Visible(ReplaceNbsp(s)) == Visible(s)
  {
    if s != [] {
      VisibleNbsp(s[1..]);
      assert ReplaceNbsp(s)[1..] == ReplaceNbsp(s[1..]);
    }
  }

  lemma {:induction false} VisibleWords(s: string)
    ensures Flat(Words(s)) == Visible(s)
    decreases |s|
  {
    var t := LStrip(s);
    assert Visible(s) == Visible(t) by {
      var n := LeadingSpaces(s);
      assert s == s[..n] + t;
      VisibleAppend(s[..n], t);
      VisibleOfSpaces(s[..n]);
    }
    if t != [] {
      var k := WordEnd(t);
      assert Visible(t) == t[..k] + Visible(t[k..]) by {
        assert t == t[..k] + t[k..];
        VisibleAppend(t[..k], t[k..]);
        VisibleOfWord(t[..k]);
      }
      VisibleWords(t[k..]);
      assert Words(s) == [t[..k]] + Words(t[k..]);
      assert Flat(Words(s)) == t[..k] + Flat(Words(t[k..]));
    }
  }

  lemma {:induction false} VisibleJoin(ws: seq<string>)
    requires forall k :: 0 <= k < |ws| ==> NoSpace(ws[k])
    ensures Visible(JoinSpace(ws)) == Flat(ws)
  {
    if |ws| == 1 {
      VisibleOfWord(ws[0]);
      assert Flat(ws) == ws[0] + Flat([]);
    } else if |ws| > 1 {
      VisibleJoin(ws[1..]);
      VisibleOfWord(ws[0]);
      VisibleAppend(ws[0] + " ", JoinSpace(ws[1..]));
      VisibleAppend(ws[0], " ");
      assert Visible(" ") == [];
    }
  }

  /** Collapsing whitespace keeps every other character, in order. */
  lemma CollapseKeepsVisible(s: string)
    ensures Visible(CollapseSpaces(s)) == Visible(s)
  {
    VisibleJoin(Words(s));
    VisibleWords(s);
  }

  lemma StripCollapsed(s: string)
    requires Collapsed(s)
    ensures Strip(s) == s
  {
    if s != [] {
      assert !IsSpace(s[0]) && !IsSpace(s[|s| - 1]);
    }
  }

  /** `strip_tags`: "" for "", otherwise unescape entities, drop the tags,
      turn non-breaking spaces into spaces and collapse the whitespace.
      `html.unescape` is the parameter `unescape`. */
  function StripTags(s: string, unescape: string -> string): (r: string)
    ensures s == "" ==> r == ""
    ensures Collapsed(r) && NoTag(r) && '\U{A0}' !in r
  {
    if s == "" then ""
    else
      var t := ReplaceNbsp(RemoveTags(unescape(s)));
      var r := CollapseSpaces(t);
      StripCollapsed(r);
      CollapseKeepsVisible(t);
      VisibleNbsp(RemoveTags(unescape(s)));
      NoTagVisible(RemoveTags(unescape(s)));
      NoTagVisible(r);
      Strip(r)
  }

  /** Only whitespace changes once the tags are gone: the visible text of
      the result is that of the unescaped, tag-free input. */
  lemma StripTagsKeepsText(s: string, unescape: string -> string)
    requires s != ""
    ensures Visible(StripTags(s, unescape)) == Visible(RemoveTags(unescape(s)))
  {
    var t := ReplaceNbsp(RemoveTags(unescape(s)));
    StripCollapsed(CollapseSpaces(t));
    CollapseKeepsVisible(t);
    VisibleNbsp(RemoveTags(unescape(s)));
  }

  // ----- the history table -----

  /** `En\s*route` somewhere in lower-cased text. */
  predicate HasEnRoute(l: string)
    decreases |l|
  {
    || (StartsWith(l, "en") && StartsWith(l[2 + LeadingSpaces(l[2..])..], "route"))
    || (|l| > 0 && HasEnRoute(l[1..]))
  }

  /** The last column holds a status: `(Scheduled|Cancelled|Diverted|En\s*route|Delayed)`,
      any letter case. */
  predicate IsStatus(cell: string)
  {
    var l := LowerStr(cell);
    Contains(l, "scheduled") || Contains(l, "cancelled") || Contains(l, "diverted") || HasEnRoute(l)
    || Contains(l, "delayed")
  }

  /** A banner or page-chrome row: `ACTIVITY LOG|history search|Buy now`,
      any letter case. */
  predicate IsBanner(joined: string)
  {
    var l := LowerStr(joined);
    Contains(l, "activity log") || Contains(l, "history search") || Contains(l, "buy now")
  }

  /** The first seven cells (`tds[:7]`). */
  function Cells(tds: seq<string>): seq<string>
  {
    if |tds| <= 7 then tds else tds[..7]
  }

  /** Rows the table loop skips: fewer than six cells, a banner, or the
      header row. */
  predicate Skipped(tds: seq<string>)
  {
    |tds| < 6 || IsBanner(JoinSpace(Cells(tds))) || LowerStr(Strip(tds[0])) == "date"
  }

  /** One item of the history: the cells by position, the two airports
      split, the last column as status or as duration. */
  datatype HistoryItem = HistoryItem(date: string, aircraft: string, origin: Airport, destination: Airport,
                                     departure: string, arrival: string,
                                     duration: Option<string>, status: Option<string>)

  /** The seventh cell, "" when there is none. */
  function LastColumn(cells: seq<string>): string
  {
    if |cells| > 6 then cells[6] else ""
  }

  /** The item a kept row becomes; `parseDate` is the `strptime(..., "%d-%b-%Y")`
      reformatting to ISO, `None` where it raises (the raw text is kept). */
  function ItemOf(tds: seq<string>, parseDate: string -> Option<string>): (r: HistoryItem)
    requires |tds| >= 6
    ensures r.status.Some? <==> r.duration.None?
    ensures r.status.Some? <==> IsStatus(LastColumn(Cells(tds)))
    ensures (if r.status.Some? then r.status.value else r.duration.value) == LastColumn(Cells(tds))
    ensures r.origin == ParseAirport(tds[2]) && r.destination == ParseAirport(tds[3])
    ensures r.date == match parseDate(tds[0]) case Some(iso) => iso case None => tds[0]
    ensures r.aircraft == tds[1] && r.departure == tds[4] && r.arrival == tds[5]
  {
    var cells := Cells(tds);
    var last := LastColumn(cells);
    var date := match parseDate(cells[0]) case Some(iso) => iso case None => cells[0];
    HistoryItem(date, cells[1], ParseAirport(cells[2]), ParseAirport(cells[3]), cells[4], cells[5],
                if IsStatus(last) then None else Some(last),
                if IsStatus(last) then Some(last) else None)
  }

  /** What one row contributes: nothing when it is skipped, else its item. */
  function RowItems(parseDate: string -> Option<string>): seq<string> -> seq<HistoryItem>
  {
    tds => if Skipped(tds) then [] else [ItemOf(tds, parseDate)]
  }

  /** `f` of each element, concatenated in order. */
  function Concat<A, B>(xs: seq<A>, f: A -> seq<B>): seq<B>
  {
    if xs == [] then [] else Concat(xs[..|xs| - 1], f) + f(xs[|xs| - 1])
  }

  lemma {:induction false} ConcatAppend<A, B>(a: seq<A>, b: seq<A>, f: A -> seq<B>)
    ensures Concat(a + b, f) == Concat(a, f) + Concat(b, f)
    decreases |b|
  {
    if b == [] {
      assert a + b == a;
    } else {
      var init := b[..|b| - 1];
      ConcatAppend(a, init, f);
      assert (a + b)[..|a + b| - 1] == a + init;
    }
  }

  lemma {:induction false} ConcatEmpty<A, B>(xs: seq<A>, f: A -> seq<B>)
    ensures Concat(xs, f) == [] <==> forall i :: 0 <= i < |xs| ==> f(xs[i]) == []
  {
    if xs != [] {
      var init := xs[..|xs| - 1];
      ConcatEmpty(init, f);
      assert forall i :: 0 <= i < |init| ==> init[i] == xs[i];
    }
  }

  /** The items the table loop appends, row by row. */
  function HistoryItems(rows: seq<seq<string>>, parseDate: string -> Option<string>): seq<HistoryItem>
  {
    Concat(rows, RowItems(parseDate))
  }

  /** Lines 246-288: the loop over the table rows. */
  method CollectHistory(rows: seq<seq<string>>, parseDate: string -> Option<string>)
    returns (items: seq<HistoryItem>)
    ensures items == HistoryItems(rows, parseDate)
  {
    items := [];
    for i := 0 to |rows|
      invariant items == HistoryItems(rows[..i], parseDate)
    {
      var tds := rows[i];
      assert rows[..i + 1][..i] == rows[..i];
      if |tds| < 6 {
        continue;
      }
      var cells := if |tds| <= 7 then tds else tds[..7];
      if IsBanner(JoinSpace(cells)) {
        continue;
      }
      if LowerStr(Strip(cells[0])) == "date" {
        continue;
      }
      items := items + [ItemOf(tds, parseDate)];
    }
    assert rows[..|rows|] == rows;
  }

  /** The items follow the rows: rows contribute independently, in order. */
  lemma HistoryItemsAppend(a: seq<seq<string>>, b: seq<seq<string>>, parseDate: string -> Option<string>)
    ensures HistoryItems(a + b, parseDate) == HistoryItems(a, parseDate) + HistoryItems(b, parseDate)
  {
    ConcatAppend(a, b, RowItems(parseDate));
  }

  /** A skipped row contributes nothing and a kept row its own item. */
  lemma HistoryItemsOne(tds: seq<string>, parseDate: string -> Option<string>)
    ensures HistoryItems([tds], parseDate) == if Skipped(tds) then [] else [ItemOf(tds, parseDate)]
  {
    assert [tds][..0] == [];
    assert Concat([tds], RowItems(parseDate)) == Concat([], RowItems(parseDate)) + RowItems(parseDate)(tds);
  }

  /** No item comes out exactly when every row is skipped. */
  lemma HistoryItemsEmpty(rows: seq<seq<string>>, parseDate: string -> Option<string>)
    ensures HistoryItems(rows, parseDate) == [] <==> forall i :: 0 <= i < |rows| ==> Skipped(rows[i])
  {
    ConcatEmpty(rows, RowItems(parseDate));
    assert forall i :: 0 <= i < |rows| ==> (RowItems(parseDate)(rows[i]) == [] <==> Skipped(rows[i]));
  }

  /** How the scrape went: no ident, an exception while resolving, an
      exception while fetching the page, or the page with its table, if
      one was found. */
  datatype Fetch =
    | NoIdent
    | ResolveFailed(message: string)
    | ScrapeFailed(ident: string, message: string)
    | Scraped(ident: string, table: Option<seq<seq<string>>>)

  /** The envelope `get_flight_history` returns. */
  datatype Envelope = Envelope(count: nat, source: string, resolvedIdent: Option<string>,
                               items: seq<HistoryItem>, error: Option<string>)

  /** `get_flight_history` after the scrape: fill in the envelope. */
  method GetFlightHistory(fetch: Fetch, parseDate: string -> Option<string>) returns (e: Envelope)
    ensures e.count == |e.items| && e.source == "FlightAware"
    ensures e.items == if fetch.Scraped? && fetch.table.Some? then HistoryItems(fetch.table.value, parseDate) else []
    ensures e.resolvedIdent == if fetch.Scraped? || fetch.ScrapeFailed? then Some(fetch.ident) else None
    ensures e.error.None? <==> fetch.Scraped? && fetch.table.Some?
    ensures fetch.NoIdent? || (fetch.Scraped? && fetch.table.None?) ==> e.error == Some("No flight found")
    ensures fetch.ResolveFailed? || fetch.ScrapeFailed? ==> e.error == Some("Fetch error: " + fetch.message)
  {
    e := Envelope(0, "FlightAware", None, [], None);
    match fetch
    case NoIdent =>
      e := e.(error := Some("No flight found"));
    case ResolveFailed(message) =>
      e := e.(error := Some("Fetch error: " + message));
    case ScrapeFailed(ident, message) =>
      e := e.(resolvedIdent := Some(ident));
      e := e.(error := Some("Fetch error: " + message));
    case Scraped(ident, table) =>
      e := e.(resolvedIdent := Some(ident));
      if table.None? {
        e := e.(error := Some("No flight found"));
      } else {
        var items := CollectHistory(table.value, parseDate);
        e := e.(items := items, count := |items|);
      }
  }

  /** `get_flight_history_json`'s status: 200 when an item was found, else 404. */
  function StatusCode(e: Envelope): int
  {
    if e.count > 0 then 200 else 404
  }

  /** Lines 295-303 without the JSON text: 200 exactly when the page had a
      table with a row that is not skipped, 404 otherwise. */
  method GetFlightHistoryJson(fetch: Fetch, parseDate: string -> Option<string>) returns (e: Envelope, status: int)
    ensures status == 200 <==>
              fetch.Scraped? && fetch.table.Some? &&
                exists i :: 0 <= i < |fetch.table.value| && !Skipped(fetch.table.value[i])
    ensures status == 200 || status == 404
  {
    e := GetFlightHistory(fetch, parseDate);
    if fetch.Scraped? && fetch.table.Some? {
      HistoryItemsEmpty(fetch.table.value, parseDate);
    }
    status := StatusCode(e);
  }
}
