/** Values shared by every part of the model: optional values, outcomes that
    may be a raised Python exception, and IEEE doubles reduced to
    "a real number or NaN". */
module Common {

  datatype Option<T> = None | Some(value: T)

  /** `Err` stands for a Python exception (ValueError, IndexError) that
      aborts the computation; its text only names the reason. */
  datatype Result<T> = Ok(value: T) | Err(reason: string)

  /** A Python float: a finite real number or NaN. */
  datatype Float = Real(v: real) | NaN

  /** Python's `a - b` on floats: NaN in, NaN out. */
  function FloatSub(a: Float, b: Float): (r: Float)
    ensures r.Real? <==> a.Real? && b.Real?
    ensures r.Real? ==> r.v + b.v == a.v
  {
    if a.Real? && b.Real? then Real(a.v - b.v) else NaN
  }

  /** Python's `int(x)` on a float: truncation toward zero. */
  function Trunc(x: real): (r: int)
    ensures x >= 0.0 ==> r as real <= x < r as real + 1.0
    ensures x < 0.0 ==> r as real - 1.0 < x <= r as real
  {
    if x >= 0.0 then x.Floor else -((-x).Floor)
  }

  /** `Python slice bound`: a possibly negative index clamped into 0..n. */
  function SliceBound(i: int, n: nat): (r: nat)
    ensures r <= n
    ensures 0 <= i <= n ==> r == i
    ensures -(n as int) <= i < 0 ==> r as int == n as int + i
    ensures i < -(n as int) ==> r == 0
    ensures i > n ==> r == n
  {
    if i < 0 then (if n + i < 0 then 0 else n + i) else (if i > n then n else i)
  }

  /** Python's `s[lo:hi]` with negative indices counted from the end. */
  function Slice<T>(s: seq<T>, lo: int, hi: int): (r: seq<T>)
    ensures var a, b := SliceBound(lo, |s|), SliceBound(hi, |s|);
            && |r| == (if a < b then b - a else 0)
            && forall k :: 0 <= k < |r| ==> r[k] == s[a + k]
  {
    var a, b := SliceBound(lo, |s|), SliceBound(hi, |s|);
    if a < b then s[a..b] else []
  }

  /** Python's `s[k:]`. */
  function From<T>(s: seq<T>, k: int): (r: seq<T>)
    ensures 0 <= k <= |s| ==> r == s[k..]
    ensures k > |s| ==> r == []
  {
    Slice(s, k, |s|)
  }

  /** The elements of `xs` that `keep` accepts, in order. */
  function Filter<T>(xs: seq<T>, keep: T -> bool): (r: seq<T>)
    ensures |r| <= |xs|
  {
    if xs == [] then []
    else (if keep(xs[0]) then [xs[0]] else []) + Filter(xs[1..], keep)
  }

  /** A filter keeps exactly the accepted elements, none of them twice. */
  lemma {:induction false} FilterMeaning<T>(xs: seq<T>, keep: T -> bool)
    ensures forall x :: x in Filter(xs, keep) ==> x in xs && keep(x)
    ensures forall x :: x in xs && keep(x) ==> x in Filter(xs, keep)
    ensures multiset(Filter(xs, keep)) <= multiset(xs)
  {
    if xs != [] {
      FilterMeaning(xs[1..], keep);
      assert xs == [xs[0]] + xs[1..];
    }
  }

  /** Filtering works element by element: it distributes over
      concatenation. */
  lemma {:induction false} FilterAppend<T>(a: seq<T>, b: seq<T>, keep: T -> bool)
    ensures Filter(a + b, keep) == Filter(a, keep) + Filter(b, keep)
  {
    if a == [] {
      assert a + b == b;
    } else {
      FilterAppend(a[1..], b, keep);
      var head := if keep(a[0]) then [a[0]] else [];
      assert Filter(a + b, keep) == head + Filter(a[1..] + b, keep) by {
        assert (a + b)[0] == a[0] && (a + b)[1..] == a[1..] + b;
      }
      assert head + (Filter(a[1..], keep) + Filter(b, keep)) == (head + Filter(a[1..], keep)) + Filter(b, keep);
    }
  }

  /** A filter that accepts everything keeps everything. */
  lemma {:induction false} FilterAll<T>(xs: seq<T>, keep: T -> bool)
    requires forall x :: keep(x)
    ensures Filter(xs, keep) == xs
  {
    if xs != [] {
      FilterAll(xs[1..], keep);
    }
  }

  /** Two filters in a row are one filter by the conjunction. */
  lemma {:induction false} FilterTwice<T>(xs: seq<T>, first: T -> bool, second: T -> bool, both: T -> bool)
    requires forall x :: both(x) == (first(x) && second(x))
    ensures Filter(Filter(xs, first), second) == Filter(xs, both)
  {
    if xs != [] {
      var rest := xs[1..];
      FilterTwice(rest, first, second, both);
      if first(xs[0]) {
        var t := Filter(xs, first);
        assert t == [xs[0]] + Filter(rest, first);
        assert t[0] == xs[0] && t[1..] == Filter(rest, first);
      } else {
        assert Filter(xs, first) == Filter(rest, first);
      }
    }
  }

  /** `f` applied to each element in order; the first error stops it. */
  function Collect<A, B>(xs: seq<A>, f: A -> Result<B>): (r: Result<seq<B>>)
    ensures r.Ok? ==> |r.value| == |xs|
  {
    if xs == [] then Ok([])
    else
      match f(xs[0])
      case Err(e) => Err(e)
      case Ok(y) =>
        match Collect(xs[1..], f)
        case Err(e) => Err(e)
        case Ok(ys) => Ok([y] + ys)
  }

  /** A collected result holds each element's value; it fails exactly when
      some element fails, and then with the error of the first one. */
  lemma {:induction false} CollectEach<A, B>(xs: seq<A>, f: A -> Result<B>)
    ensures var r := Collect(xs, f);
            && (r.Ok? ==> forall k :: 0 <= k < |xs| ==> f(xs[k]) == Ok(r.value[k]))
            && (r.Err? <==> exists k :: 0 <= k < |xs| && f(xs[k]).Err?)
            && (r.Err? ==> exists k :: 0 <= k < |xs| && f(xs[k]) == Err(r.reason)
                                       && forall j :: 0 <= j < k ==> f(xs[j]).Ok?)
  {
    if xs != [] {
      var rest := xs[1..];
      CollectEach(rest, f);
      var r := Collect(xs, f);
      if f(xs[0]).Err? {
        assert f(xs[0]) == Err(r.reason);
      } else if Collect(rest, f).Err? {
        var k :| 0 <= k < |rest| && rest[k] == xs[k + 1] && f(rest[k]) == Err(r.reason)
                 && forall j :: 0 <= j < k ==> f(rest[j]).Ok?;
        forall j | 0 <= j < k + 1 ensures f(xs[j]).Ok? {
          if j > 0 { assert xs[j] == rest[j - 1]; }
        }
      } else {
        forall k | 0 <= k < |xs| ensures f(xs[k]) == Ok(r.value[k]) {
          if k > 0 { assert xs[k] == rest[k - 1]; }
        }
      }
    }
  }
}
