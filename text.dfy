/** Python `str` behaviour the core relies on: whitespace, case mapping
    (ASCII), `strip`, `split`, `" ".join(s.split())`, substring tests and
    `int(text)` / `f"{n:02d}"` on decimal text. */
module Text {
  import opened Common

  predicate IsDigit(c: char) { '0' <= c <= '9' }
  predicate IsUpperAscii(c: char) { 'A' <= c <= 'Z' }
  predicate IsLowerAscii(c: char) { 'a' <= c <= 'z' }
  predicate IsAlnum(c: char) { IsDigit(c) || IsUpperAscii(c) || IsLowerAscii(c) }

  /** The characters CPython's `str.isspace`, `str.split()`, `str.strip()`
      and the regular-expression class `\s` treat as whitespace. */
  predicate IsSpace(c: char)
  {
    || '\t' <= c <= '\r'
    || '\U{1C}' <= c <= '\U{1F}'
    || c == ' ' || c == '\U{85}' || c == '\U{A0}' || c == '\U{1680}'
    || '\U{2000}' <= c <= '\U{200A}'
    || c == '\U{2028}' || c == '\U{2029}' || c == '\U{202F}' || c == '\U{205F}' || c == '\U{3000}'
  }

  predicate NoSpace(s: string) { forall i :: 0 <= i < |s| ==> !IsSpace(s[i]) }
  predicate AllSpace(s: string) { forall i :: 0 <= i < |s| ==> IsSpace(s[i]) }
  predicate AllDigits(s: string) { forall i :: 0 <= i < |s| ==> IsDigit(s[i]) }

  function Lower(c: char): (r: char)
    ensures !IsUpperAscii(r)
    ensures IsUpperAscii(c) ==> r as int == c as int + 32
    ensures !IsUpperAscii(c) ==> r == c
  {
    if IsUpperAscii(c) then (c as int + 32) as char else c
  }

  function Upper(c: char): (r: char)
    ensures !IsLowerAscii(r)
    ensures IsLowerAscii(c) ==> r as int == c as int - 32
    ensures !IsLowerAscii(c) ==> r == c
  {
    if IsLowerAscii(c) then (c as int - 32) as char else c
  }

  function LowerStr(s: string): (r: string)
    ensures |r| == |s| && forall i :: 0 <= i < |s| ==> r[i] == Lower(s[i])
  {
    seq(|s|, i requires 0 <= i < |s| => Lower(s[i]))
  }

  function UpperStr(s: string): (r: string)
    ensures |r| == |s| && forall i :: 0 <= i < |s| ==> r[i] == Upper(s[i])
  {
    seq(|s|, i requires 0 <= i < |s| => Upper(s[i]))
  }

  /** Number of whitespace characters at the start of `s`. */
  function LeadingSpaces(s: string): (k: nat)
    ensures k <= |s| && AllSpace(s[..k]) && (k < |s| ==> !IsSpace(s[k]))
  {
    if |s| > 0 && IsSpace(s[0]) then
      var k := LeadingSpaces(s[1..]) + 1;
      assert s[..k] == [s[0]] + s[1..][..k - 1];
      k
    else 0
  }

  /** The leading whitespace stops at the first non-whitespace character. */
  lemma {:induction false} LeadingSpacesBefore(s: string, j: nat)
    requires j < |s| && !IsSpace(s[j])
    ensures LeadingSpaces(s) <= j
  {
    if j > 0 && IsSpace(s[0]) {
      LeadingSpacesBefore(s[1..], j - 1);
    }
  }

  /** Whitespace followed by text that does not start with whitespace:
      the leading whitespace is exactly the first part. */
  lemma LeadingSpacesOf(spaces: string, t: string)
    requires AllSpace(spaces) && (t == [] || !IsSpace(t[0]))
    ensures LeadingSpaces(spaces + t) == |spaces|
  {
    var s := spaces + t;
    if t != [] {
      assert s[|spaces|] == t[0];
      LeadingSpacesBefore(s, |spaces|);
    }
  }

  /** Number of whitespace characters at the end of `s`. */
  function TrailingSpaces(s: string): (k: nat)
    ensures k <= |s| && AllSpace(s[|s| - k..]) && (k < |s| ==> !IsSpace(s[|s| - k - 1]))
  {
    if |s| > 0 && IsSpace(s[|s| - 1]) then
      var k := TrailingSpaces(s[..|s| - 1]) + 1;
      assert s[..|s| - 1][|s| - k..] == s[|s| - k..|s| - 1];
      assert s[|s| - k..] == s[|s| - k..|s| - 1] + [s[|s| - 1]];
      k
    else 0
  }

  /** Python's `s.lstrip()`. */
  function LStrip(s: string): (r: string)
    ensures r == [] || !IsSpace(r[0])
  {
    s[LeadingSpaces(s)..]
  }

  /** Python's `s.rstrip()`. */
  function RStrip(s: string): (r: string)
    ensures r == [] || !IsSpace(r[|r| - 1])
  {
    s[..|s| - TrailingSpaces(s)]
  }

  /** Python's `s.strip()`. */
  function Strip(s: string): (r: string)
    ensures r == [] || (!IsSpace(r[0]) && !IsSpace(r[|r| - 1]))
  {
    RStrip(LStrip(s))
  }

  /** Stripping only drops characters. */
  lemma StripChars(s: string)
    ensures forall c :: c in Strip(s) ==> c in s
  {
    var l := LStrip(s);
    assert forall c :: c in l ==> c in s;
    assert forall c :: c in RStrip(l) ==> c in l;
  }

  /** Lower-cased text holds no upper-case letter. */
  lemma LowerChars(s: string)
    ensures forall c :: c in LowerStr(s) ==> !IsUpperAscii(c)
  {
    forall c | c in LowerStr(s) ensures !IsUpperAscii(c) {
      var j :| 0 <= j < |s| && LowerStr(s)[j] == c;
    }
  }

  /** Text without upper-case letters is its own lower case. */
  lemma LowerKeeps(s: string)
    requires forall i :: 0 <= i < |s| ==> !IsUpperAscii(s[i])
    ensures LowerStr(s) == s
  {
  }

  /** Text that neither starts nor ends with whitespace is already stripped. */
  lemma StripEnds(s: string)
    requires s == [] || (!IsSpace(s[0]) && !IsSpace(s[|s| - 1]))
    ensures Strip(s) == s
  {
    assert LStrip(s) == s;
  }

  lemma StripNoSpace(s: string)
    requires NoSpace(s)
    ensures Strip(s) == s
  {
    if |s| > 0 {
      assert !IsSpace(s[0]) && !IsSpace(s[|s| - 1]);
    }
  }

  /** `p` is a prefix of `s`. */
  predicate StartsWith(s: string, p: string) { |p| <= |s| && s[..|p|] == p }

  /** Python's `p in s` on strings. */
  predicate Contains(s: string, p: string)
    decreases |s|
  {
    StartsWith(s, p) || (|s| > 0 && Contains(s[1..], p))
  }

  lemma ContainsAt(s: string, p: string, i: nat)
    requires i + |p| <= |s| && s[i..i + |p|] == p
    ensures Contains(s, p)
    decreases i
  {
    if i > 0 {
      assert s[1..][i - 1..i - 1 + |p|] == s[i..i + |p|];
      ContainsAt(s[1..], p, i - 1);
    }
  }

  lemma ContainsWitness(s: string, p: string) returns (i: nat)
    requires Contains(s, p)
    ensures i + |p| <= |s| && s[i..i + |p|] == p
    decreases |s|
  {
    if StartsWith(s, p) {
      i := 0;
    } else {
      var j := ContainsWitness(s[1..], p);
      assert s[1..][j..j + |p|] == s[j + 1..j + 1 + |p|];
      i := j + 1;
    }
  }

  /** Index of the first `c` in `s`. */
  function IndexOf(s: string, c: char): (i: nat)
    requires c in s
    ensures i < |s| && s[i] == c && c !in s[..i]
  {
    if s[0] == c then 0 else IndexOf(s[1..], c) + 1
  }

  /** Python's `sep.join(fields)`. */
  function JoinWith(fields: seq<string>, sep: char): string
  {
    if fields == [] then "" else if |fields| == 1 then fields[0]
    else fields[0] + [sep] + JoinWith(fields[1..], sep)
  }

  /** Python's `s.split(sep)` for a one-character separator: the pieces
      between separators, which joined with the separator give `s` back. */
  function Split(s: string, sep: char): (r: seq<string>)
    ensures |r| >= 1
    ensures forall k :: 0 <= k < |r| ==> sep !in r[k]
    ensures (|r| == 1) == (sep !in s)
    ensures sep !in s ==> r == [s]
    ensures JoinWith(r, sep) == s
    decreases |s|
  {
    if sep !in s then [s]
    else
      var i := IndexOf(s, sep);
      var rest := Split(s[i + 1..], sep);
      assert JoinWith([s[..i]] + rest, sep) == s[..i] + [sep] + JoinWith(rest, sep) by {
        assert ([s[..i]] + rest)[1..] == rest;
      }
      assert s == s[..i] + [sep] + s[i + 1..];
      [s[..i]] + rest
  }

  lemma SplitAt(a: string, b: string, sep: char)
    requires sep !in a
    ensures Split(a + [sep] + b, sep) == [a] + Split(b, sep)
  {
    var s := a + [sep] + b;
    assert s[..|a|] == a;
    assert s[|a| + 1..] == b;
    assert forall k :: 0 <= k < |a| ==> s[k] == a[k];
    var i := IndexOf(s, sep);
    assert i <= |a| by {
      assert s[|a|] == sep;
    }
  }

  /** The numeric value of a string of decimal digits. */
  function DigitsValue(s: string): (n: nat)
    requires AllDigits(s)
  {
    if s == [] then 0 else DigitsValue(s[..|s| - 1]) * 10 + (s[|s| - 1] as int - '0' as int)
  }

  /** Digits grouped as in Python's `int()` (PEP 515): one or more digits,
      where a single `_` may stand between two digits. */
  predicate Grouped(d: string)
  {
    && |d| > 0
    && forall i :: 0 <= i < |d| && !IsDigit(d[i]) ==>
         d[i] == '_' && 0 < i < |d| - 1 && IsDigit(d[i - 1]) && IsDigit(d[i + 1])
  }

  /** The digits of grouped text, underscores dropped. */
  function Ungrouped(d: string): (r: string)
    ensures (forall i :: 0 <= i < |d| ==> IsDigit(d[i]) || d[i] == '_') ==> AllDigits(r)
    ensures AllDigits(d) ==> r == d
    decreases |d|
  {
    if d == [] then []
    else
      var r := (if d[0] == '_' then [] else [d[0]]) + Ungrouped(d[1..]);
      assert AllDigits(d) ==> d == [d[0]] + d[1..];
      r
  }

  /** Digit text to its value; `None` unless it is grouped digits. */
  function ParseDigits(d: string): (r: Option<nat>)
    ensures r.Some? <==> Grouped(d)
    ensures |d| > 0 && AllDigits(d) ==> r == Some(DigitsValue(d))
  {
    if Grouped(d) then Some(DigitsValue(Ungrouped(d))) else None
  }

  lemma {:induction false} UngroupedAppend(a: string, b: string)
    ensures Ungrouped(a + b) == Ungrouped(a) + Ungrouped(b)
    decreases |a|
  {
    if a == [] {
      assert a + b == b;
    } else {
      var head := if a[0] == '_' then [] else [a[0]];
      assert (a + b)[0] == a[0] && (a + b)[1..] == a[1..] + b;
      assert Ungrouped(a + b) == head + Ungrouped(a[1..] + b);
      UngroupedAppend(a[1..], b);
      assert Ungrouped(a) == head + Ungrouped(a[1..]);
    }
  }

  lemma GroupedJoin(a: string, b: string)
    requires |a| > 0 && AllDigits(a) && |b| > 0 && AllDigits(b)
    ensures Grouped(a + "_" + b)
  {
    var d := a + "_" + b;
    forall i | 0 <= i < |d|
      ensures IsDigit(d[i]) || (d[i] == '_' && 0 < i < |d| - 1 && IsDigit(d[i - 1]) && IsDigit(d[i + 1]))
    {
      if i < |a| { assert d[i] == a[i]; }
      else if i > |a| { assert d[i] == b[i - |a| - 1]; }
      else { assert d[i - 1] == a[|a| - 1] && d[i + 1] == b[0]; }
    }
  }

  lemma UngroupedJoin(a: string, b: string)
    requires AllDigits(a) && AllDigits(b)
    ensures Ungrouped(a + "_" + b) == a + b
  {
    var tail := "_" + b;
    assert tail[0] == '_' && tail[1..] == b;
    assert Ungrouped(tail) == b;
    assert a + "_" + b == a + tail;
    UngroupedAppend(a, tail);
  }

  /** An underscore between two digit groups is ignored: `1_0` reads as `10`. */
  lemma ParseDigitsGrouping(a: string, b: string)
    requires |a| > 0 && AllDigits(a) && |b| > 0 && AllDigits(b)
    ensures ParseDigits(a + "_" + b) == ParseDigits(a + b) == Some(DigitsValue(a + b))
  {
    GroupedJoin(a, b);
    UngroupedJoin(a, b);
    assert AllDigits(a + b);
  }

  /** Python's `int(text)` on base-10 text: optional surrounding whitespace,
      an optional sign, grouped digits; anything else is a ValueError. */
  function ParseInt(s: string): (r: Option<int>)
  {
    var t := Strip(s);
    if |t| > 0 && (t[0] == '+' || t[0] == '-') then
      match ParseDigits(t[1..])
      case None => None
      case Some(v) => Some(if t[0] == '-' then -(v as int) else v)
    else
      match ParseDigits(t)
      case None => None
      case Some(v) => Some(v)
  }

  function DigitChar(d: int): (c: char)
    requires 0 <= d < 10
    ensures IsDigit(c) && c as int - '0' as int == d
  {
    ('0' as int + d) as char
  }

  /** Decimal text of a natural number, without leading zeros. */
  function Dec(n: nat): (s: string)
    ensures |s| > 0 && AllDigits(s)
    ensures DigitsValue(s) == n
  {
    if n < 10 then [DigitChar(n)]
    else
      var s := Dec(n / 10) + [DigitChar(n % 10)];
      assert s[..|s| - 1] == Dec(n / 10);
      s
  }

  /** Python's `str(n)` on an int. */
  function IntStr(n: int): (s: string)
    ensures |s| > 0
  {
    if n < 0 then "-" + Dec(-n) else Dec(n)
  }

  /** Python's `f"{n:02d}"`: zero-padded to at least two characters. */
  function Pad2(n: int): (s: string)
    ensures 0 <= n < 100 ==> |s| == 2 && AllDigits(s) && DigitsValue(s) == n
  {
    if 0 <= n < 10 then
      var s := "0" + Dec(n);
      assert s[..1] == "0";
      s
    else
      assert 10 <= n < 100 ==> Dec(n) == Dec(n / 10) + [DigitChar(n % 10)];
      IntStr(n)
  }

  /** `int()` of grouped digits is the value of the digits, underscores dropped. */
  lemma ParseIntGrouped(s: string)
    requires Grouped(s)
    ensures ParseInt(s) == Some(DigitsValue(Ungrouped(s)) as int)
  {
    assert NoSpace(s) by {
      forall i | 0 <= i < |s| ensures !IsSpace(s[i]) { assert IsDigit(s[i]) || s[i] == '_'; }
    }
    StripNoSpace(s);
    assert Strip(s) == s;
    assert IsDigit(s[0]);
  }

  lemma ParseIntDigits(s: string)
    requires |s| > 0 && AllDigits(s)
    ensures ParseInt(s) == Some(DigitsValue(s))
  {
    assert NoSpace(s) by {
      forall i | 0 <= i < |s| ensures !IsSpace(s[i]) { assert IsDigit(s[i]); }
    }
    StripNoSpace(s);
    var t := Strip(s);
    assert t == s;
    assert IsDigit(t[0]);
    assert !(t[0] == '+' || t[0] == '-');
  }

  /** A string with single spaces as its only whitespace and no space at
      either end: what `" ".join(s.split())` produces. */
  predicate Collapsed(s: string)
  {
    && (|s| > 0 ==> !IsSpace(s[0]) && !IsSpace(s[|s| - 1]))
    && (forall i :: 0 <= i < |s| && IsSpace(s[i]) ==> s[i] == ' ')
    && (forall i :: 0 <= i < |s| - 1 && s[i] == ' ' ==> s[i + 1] != ' ')
  }

  /** Index of the first whitespace character of `s`, or `|s|`. */
  function WordEnd(s: string): (k: nat)
    ensures k <= |s| && NoSpace(s[..k]) && (k < |s| ==> IsSpace(s[k]))
    ensures |s| > 0 && !IsSpace(s[0]) ==> k > 0
  {
    if |s| == 0 || IsSpace(s[0]) then 0
    else
      var k := WordEnd(s[1..]) + 1;
      assert s[..k] == [s[0]] + s[1..][..k - 1];
      k
  }

  /** Python's `s.split()`: the maximal runs of non-whitespace, in order. */
  function Words(s: string): (r: seq<string>)
    ensures forall k :: 0 <= k < |r| ==> |r[k]| > 0 && NoSpace(r[k])
    decreases |s|
  {
    var t := LStrip(s);
    if t == [] then []
    else
      var k := WordEnd(t);
      var rest := Words(t[k..]);
      assert |t[k..]| < |s|;
      [t[..k]] + rest
  }

  /** The scan for the end of a word stops at the whitespace after it. */
  lemma {:induction false} WordEndOf(w: string, rest: string)
    requires NoSpace(w) && (rest == [] || IsSpace(rest[0]))
    ensures WordEnd(w + rest) == |w|
  {
    if w != [] {
      assert (w + rest)[1..] == w[1..] + rest;
      WordEndOf(w[1..], rest);
    } else {
      assert w + rest == rest;
    }
  }

  /** Text that is all whitespace has no words. */
  lemma WordsAllSpace(s: string)
    requires AllSpace(s)
    ensures Words(s) == []
  {
    assert LeadingSpaces(s) == |s|;
  }

  /** Whitespace, a word, then whitespace or the end: that word comes
      first, followed by the words of the rest. */
  lemma WordsCons(spaces: string, w: string, rest: string)
    requires AllSpace(spaces) && |w| > 0 && NoSpace(w) && (rest == [] || IsSpace(rest[0]))
    ensures Words(spaces + w + rest) == [w] + Words(rest)
  {
    var t := w + rest;
    assert spaces + w + rest == spaces + t;
    LeadingSpacesOf(spaces, t);
    assert LStrip(spaces + t) == t;
    WordEndOf(w, rest);
    assert t[..|w|] == w && t[|w|..] == rest;
  }

  /** Python's `" ".join(words)`. */
  function JoinSpace(ws: seq<string>): string
  {
    if ws == [] then "" else if |ws| == 1 then ws[0] else ws[0] + " " + JoinSpace(ws[1..])
  }

  lemma {:induction false} JoinSpaceCollapsed(ws: seq<string>)
    requires forall k :: 0 <= k < |ws| ==> |ws[k]| > 0 && NoSpace(ws[k])
    ensures Collapsed(JoinSpace(ws))
    ensures ws != [] ==> |JoinSpace(ws)| > 0
  {
    if |ws| == 1 {
      assert JoinSpace(ws) == ws[0];
    } else if |ws| > 1 {
      var w, rest := ws[0], JoinSpace(ws[1..]);
      JoinSpaceCollapsed(ws[1..]);
      var s := w + " " + rest;
      assert s == JoinSpace(ws);
      assert forall i :: 0 <= i < |w| ==> s[i] == w[i];
      assert forall i :: |w| < i < |s| ==> s[i] == rest[i - |w| - 1];
      assert s[|w|] == ' ' && s[|w| + 1] == rest[0];
      assert s[|s| - 1] == rest[|rest| - 1];
    }
  }

  /** Python's `" ".join(s.split())`. */
  function CollapseSpaces(s: string): (r: string)
    ensures Collapsed(r)
  {
    JoinSpaceCollapsed(Words(s));
    JoinSpace(Words(s))
  }
}
