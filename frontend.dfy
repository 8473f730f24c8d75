/** The airline filter of the flight-finder page: airline names are
    normalised for tolerant comparison, and a frame of flights keeps the rows
    whose airline matches the selection exactly or closely. `difflib`'s
    `SequenceMatcher(...).ratio()` is outside the model and comes in as
    `ratio`. */
module Frontend {
  import opened Common
  import opened Text

  /** The class `["“”‘’'.,&/()\-]` of characters read as spaces. */
  const Punctuation: set<char> := {'"', '\U{201C}', '\U{201D}', '\U{2018}', '\U{2019}', '\'', '.', ',', '&', '/', '(', ')', '-'}

  /** Every punctuation character becomes a space. */
  function ReplacePunctuation(s: string): (r: string)
    ensures |r| == |s|
    ensures forall i :: 0 <= i < |s| ==> r[i] == if s[i] in Punctuation then ' ' else s[i]
  {
    seq(|s|, i requires 0 <= i < |s| => if s[i] in Punctuation then ' ' else s[i])
  }

  /** `re.sub(r"\s+", " ", s)`: each run of whitespace becomes one space. */
  function CollapseRuns(s: string): (r: string)
    ensures |r| <= |s|
    ensures |s| > 0 ==> |r| > 0 && (IsSpace(r[0]) <==> IsSpace(s[0]))
    ensures forall i :: 0 <= i < |r| ==> r[i] == ' ' || (r[i] in s && !IsSpace(r[i]))
    ensures forall i :: 0 <= i < |r| - 1 && IsSpace(r[i]) ==> !IsSpace(r[i + 1])
    decreases |s|
  {
    if s == [] then []
    else if IsSpace(s[0]) then
      var rest := s[LeadingSpaces(s)..];
      var tail := CollapseRuns(rest);
      assert forall c :: c in rest ==> c in s;
      [' '] + tail
    else
      var tail := CollapseRuns(s[1..]);
      assert forall c :: c in s[1..] ==> c in s;
      [s[0]] + tail
  }

  /** A text without whitespace runs is left as it is. */
  lemma {:induction false} CollapseRunsKeeps(s: string)
    requires forall i :: 0 <= i < |s| && IsSpace(s[i]) ==> s[i] == ' '
    requires forall i :: 0 <= i < |s| - 1 && IsSpace(s[i]) ==> !IsSpace(s[i + 1])
    ensures CollapseRuns(s) == s
  {
    if s != [] {
      if IsSpace(s[0]) {
        assert |s| > 1 ==> !IsSpace(s[1]);
        assert LeadingSpaces(s) == 1 by {
          if |s| > 1 { LeadingSpacesBefore(s, 1); }
        }
      }
      CollapseRunsKeeps(s[1..]);
    }
  }

  /** `_norm`: lower-cased and stripped, punctuation read as spaces, and
      whitespace runs collapsed. */
  function Norm(s: string): string
  {
    CollapseRuns(ReplacePunctuation(Strip(LowerStr(s))))
  }

  /** Text with no upper-case letter, no punctuation, no whitespace but
      single spaces, and never two spaces in a row: the shape of `_norm`'s
      output. */
  predicate NormalShape(r: string)
  {
    && (forall i :: 0 <= i < |r| ==> !IsUpperAscii(r[i]) && r[i] !in Punctuation)
    && (forall i :: 0 <= i < |r| ==> IsSpace(r[i]) ==> r[i] == ' ')
    && (forall i :: 0 <= i < |r| - 1 && r[i] == ' ' ==> r[i + 1] != ' ')
  }

  /** Collapsing the runs of text free of upper-case letters and
      punctuation gives the normal shape. */
  lemma CollapseShape(spaced: string)
    requires forall c :: c in spaced ==> !IsUpperAscii(c) && c !in Punctuation
    ensures NormalShape(CollapseRuns(spaced))
  {
    var r := CollapseRuns(spaced);
    forall i | 0 <= i < |r| ensures !IsUpperAscii(r[i]) && r[i] !in Punctuation {
      if r[i] != ' ' {
        assert r[i] in spaced;
      }
    }
  }

  /** `_norm`'s output has the normal shape. */
  lemma NormShape(s: string)
    ensures NormalShape(Norm(s))
  {
    SpacedChars(s);
    CollapseShape(ReplacePunctuation(Strip(LowerStr(s))));
  }

  /** Before the runs are collapsed, no character is upper-case or
      punctuation. */
  lemma SpacedChars(s: string)
    ensures var spaced := ReplacePunctuation(Strip(LowerStr(s)));
            forall c :: c in spaced ==> !IsUpperAscii(c) && c !in Punctuation
  {
    var lower := LowerStr(s);
    LowerChars(s);
    StripChars(lower);
    ReplacePunctuationChars(Strip(lower));
  }

  /** Replacing punctuation leaves none, and brings in no upper-case
      letter. */
  lemma ReplacePunctuationChars(t: string)
    requires forall c :: c in t ==> !IsUpperAscii(c)
    ensures forall c :: c in ReplacePunctuation(t) ==> !IsUpperAscii(c) && c !in Punctuation
  {
    var spaced := ReplacePunctuation(t);
    forall c | c in spaced ensures !IsUpperAscii(c) && c !in Punctuation {
      var j :| 0 <= j < |spaced| && spaced[j] == c;
      assert t[j] in t;
    }
  }

  /** Text free of punctuation is left as it is. */
  lemma ReplacePunctuationKeeps(s: string)
    requires forall i :: 0 <= i < |s| ==> s[i] !in Punctuation
    ensures ReplacePunctuation(s) == s
  {
  }

  /** Normalising twice only strips the spaces punctuation left at the ends:
      "(Delta)" normalises to " delta ", and that to "delta". */
  lemma NormTwice(s: string)
    ensures Norm(Norm(s)) == Strip(Norm(s))
  {
    var n := Norm(s);
    NormShape(s);
    LowerKeeps(n);
    var stripped := Strip(n);
    StripChars(n);
    StripKeepsRuns(n);
    assert forall i :: 0 <= i < |stripped| ==> stripped[i] !in Punctuation by {
      forall i | 0 <= i < |stripped| ensures stripped[i] !in Punctuation {
        assert stripped[i] in stripped;
      }
    }
    ReplacePunctuationKeeps(stripped);
    CollapseRunsKeeps(stripped);
  }

  /** Whitespace only as single spaces, never two in a row. */
  predicate SingleSpaced(s: string)
  {
    && (forall i :: 0 <= i < |s| ==> IsSpace(s[i]) ==> s[i] == ' ')
    && (forall i :: 0 <= i < |s| - 1 && IsSpace(s[i]) ==> !IsSpace(s[i + 1]))
  }

  /** A slice of single-spaced text is single-spaced. */
  lemma SingleSpacedSlice(s: string, a: nat, b: nat)
    requires SingleSpaced(s) && a <= b <= |s|
    ensures SingleSpaced(s[a..b])
  {
    var t := s[a..b];
    assert forall i :: 0 <= i < |t| ==> t[i] == s[a + i];
  }

  /** Stripping keeps "single spaces only" text so. */
  lemma StripKeepsRuns(s: string)
    requires forall i :: 0 <= i < |s| ==> IsSpace(s[i]) ==> s[i] == ' '
    requires forall i :: 0 <= i < |s| - 1 && s[i] == ' ' ==> s[i + 1] != ' '
    ensures SingleSpaced(Strip(s))
  {
    assert SingleSpaced(s);
    var l := LStrip(s);
    assert l == s[LeadingSpaces(s)..|s|];
    SingleSpacedSlice(s, LeadingSpaces(s), |s|);
    assert RStrip(l) == l[0..|l| - TrailingSpaces(l)];
    SingleSpacedSlice(l, 0, |l| - TrailingSpaces(l));
  }

  // ----- the filter -----

  /** A frame: its column names, and per row a cell per column, `None` for
      a missing value. */
  datatype Frame = Frame(columns: seq<string>, rows: seq<map<string, Option<string>>>)

  /** A column name that lower-cases to "airline". */
  predicate IsAirline(column: string)
  {
    LowerStr(column) == "airline"
  }

  /** Where the last "airline" column is. */
  function LastAirline(columns: seq<string>): (r: Option<nat>)
    ensures r.None? <==> forall k :: 0 <= k < |columns| ==> !IsAirline(columns[k])
    ensures r.Some? ==> r.value < |columns| && IsAirline(columns[r.value])
                        && forall j :: r.value < j < |columns| ==> !IsAirline(columns[j])
  {
    if columns == [] then None
    else if IsAirline(columns[|columns| - 1]) then Some(|columns| - 1)
    else
      var r := LastAirline(columns[..|columns| - 1]);
      assert forall k :: 0 <= k < |columns| - 1 ==> columns[..|columns| - 1][k] == columns[k];
      r
  }

  /** `{c.lower(): c for c in df.columns}["airline"]`: later columns
      overwrite earlier ones, so the last column whose lower-cased name is
      "airline". */
  function AirlineColumn(columns: seq<string>): (r: Option<string>)
    ensures r.None? <==> forall k :: 0 <= k < |columns| ==> !IsAirline(columns[k])
    ensures r.Some? ==> exists k :: 0 <= k < |columns| && columns[k] == r.value && IsAirline(columns[k])
                                    && forall j :: k < j < |columns| ==> !IsAirline(columns[j])
  {
    match LastAirline(columns)
    case None => None
    case Some(k) => Some(columns[k])
  }

  /** `fillna("")` then `_norm` of a row's airline cell. */
  function CellNorm(row: map<string, Option<string>>, col: string): string
  {
    Norm(if col in row && row[col].Some? then row[col].value else "")
  }

  /** The similarity threshold. */
  const Threshold: real := 0.92

  /** `exact_mask | close_mask` for one row. */
  predicate Matches(row: map<string, Option<string>>, col: string, target: string, ratio: (string, string) -> real)
  {
    var v := CellNorm(row, col);
    v == target || ratio(v, target) >= Threshold
  }

  /** The mask as a function of the row. */
  function Matcher(col: string, target: string, ratio: (string, string) -> real): map<string, Option<string>> -> bool
  {
    row => Matches(row, col, target, ratio)
  }

  /** `df[mask]`: the matching rows, in order. */
  function Matching(rows: seq<map<string, Option<string>>>, col: string, target: string,
                    ratio: (string, string) -> real): (r: seq<map<string, Option<string>>>)
    ensures |r| <= |rows|
  {
    Filter(rows, Matcher(col, target, ratio))
  }

  /** A row is selected exactly when it is an input row that matches, either
      exactly or with a ratio of at least 0.92, and no row is kept twice. */
  lemma MatchingMeaning(rows: seq<map<string, Option<string>>>, col: string, target: string,
                        ratio: (string, string) -> real)
    ensures forall row :: row in Matching(rows, col, target, ratio) ==> row in rows && Matches(row, col, target, ratio)
    ensures forall row :: row in rows && Matches(row, col, target, ratio) ==> row in Matching(rows, col, target, ratio)
    ensures multiset(Matching(rows, col, target, ratio)) <= multiset(rows)
  {
    var keep := Matcher(col, target, ratio);
    FilterMeaning(rows, keep);
    forall row | row in Matching(rows, col, target, ratio)
      ensures row in rows && Matches(row, col, target, ratio)
    {
      assert keep(row);
    }
    forall row | row in rows && Matches(row, col, target, ratio)
      ensures row in Matching(rows, col, target, ratio)
    {
      assert keep(row);
    }
  }

  /** `filter_by_airline`. */
  function FilterByAirline(df: Frame, selected: string, ratio: (string, string) -> real): (r: Frame)
    ensures r.columns == df.columns
    ensures selected == "" || selected == "All airlines" || AirlineColumn(df.columns).None? ==> r == df
    ensures !(selected == "" || selected == "All airlines") && AirlineColumn(df.columns).Some? ==>
              r.rows == Matching(df.rows, AirlineColumn(df.columns).value, Norm(selected), ratio)
  {
    if selected == "" || selected == "All airlines" then df
    else
      match AirlineColumn(df.columns)
      case None => df
      case Some(col) => Frame(df.columns, Matching(df.rows, col, Norm(selected), ratio))
  }

  /** A filtered frame keeps exactly the input rows whose airline matches
      the normalised selection, exactly or closely. */
  lemma FilterByAirlineMeaning(df: Frame, selected: string, ratio: (string, string) -> real)
    requires selected != "" && selected != "All airlines"
    requires AirlineColumn(df.columns).Some?
    ensures var col, r := AirlineColumn(df.columns).value, FilterByAirline(df, selected, ratio);
            && (forall row :: row in r.rows ==> row in df.rows && Matches(row, col, Norm(selected), ratio))
            && (forall row :: row in df.rows && Matches(row, col, Norm(selected), ratio) ==> row in r.rows)
  {
    MatchingMeaning(df.rows, AirlineColumn(df.columns).value, Norm(selected), ratio);
  }
}
