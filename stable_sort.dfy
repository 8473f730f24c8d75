/** Python's `list.sort(key=...)` and `sorted(..., key=...)`: a stable sort
    by a key under a total preorder. `reverse=True` keeps equal keys in
    input order too, so it is the same sort under the converse order. */
module StableSort {

  /** `le` is total and transitive. */
  ghost predicate TotalPreorder<K(!new)>(le: (K, K) -> bool)
  {
    && (forall a, b :: le(a, b) || le(b, a))
    && (forall a, b, c :: le(a, b) && le(b, c) ==> le(a, c))
  }

  /** Every element's key is at most every later element's key. */
  predicate Sorted<T, K>(s: seq<T>, key: T -> K, le: (K, K) -> bool)
  {
    forall i, j :: 0 <= i < j < |s| ==> le(key(s[i]), key(s[j]))
  }

  /** `a` and `b` have equivalent keys. */
  predicate Tie<K>(le: (K, K) -> bool, a: K, b: K)
  {
    le(a, b) && le(b, a)
  }

  /** Inserts `x` after every element whose key is at most `x`'s. */
  function Insert<T, K>(x: T, s: seq<T>, key: T -> K, le: (K, K) -> bool): seq<T>
  {
    if s == [] then [x]
    else if le(key(s[0]), key(x)) then [s[0]] + Insert(x, s[1..], key, le)
    else [x] + s
  }

  /** The stable sort: each element goes after every earlier element whose
      key is at most its own. */
  function Sort<T, K>(s: seq<T>, key: T -> K, le: (K, K) -> bool): seq<T>
  {
    if s == [] then [] else Insert(s[|s| - 1], Sort(s[..|s| - 1], key, le), key, le)
  }

  /** The elements of `s` whose key ties with `k`, in order. */
  function Ties<T, K>(s: seq<T>, k: K, key: T -> K, le: (K, K) -> bool): seq<T>
  {
    if s == [] then []
    else (if Tie(le, key(s[0]), k) then [s[0]] else []) + Ties(s[1..], k, key, le)
  }

  // ----- proofs -----

  lemma {:induction false} InsertPermutes<T, K>(x: T, s: seq<T>, key: T -> K, le: (K, K) -> bool)
    ensures multiset(Insert(x, s, key, le)) == multiset(s) + multiset{x}
  {
    if s != [] && le(key(s[0]), key(x)) {
      InsertPermutes(x, s[1..], key, le);
      assert s == [s[0]] + s[1..];
    }
  }

  lemma {:induction false} InsertSorted<T, K(!new)>(x: T, s: seq<T>, key: T -> K, le: (K, K) -> bool)
    requires TotalPreorder(le) && Sorted(s, key, le)
    ensures Sorted(Insert(x, s, key, le), key, le)
  {
    if s != [] {
      if le(key(s[0]), key(x)) {
        var t := Insert(x, s[1..], key, le);
        InsertSorted(x, s[1..], key, le);
        InsertPermutes(x, s[1..], key, le);
        forall j | 0 <= j < |t| ensures le(key(s[0]), key(t[j])) {
          assert t[j] in multiset(t);
          assert t[j] == x || t[j] in multiset(s[1..]);
        }
      } else {
        forall j | 0 <= j < |s| ensures le(key(x), key(s[j])) {
          assert le(key(x), key(s[0]));
        }
      }
    }
  }

  lemma {:induction false} InsertTies<T, K(!new)>(x: T, s: seq<T>, k: K, key: T -> K, le: (K, K) -> bool)
    requires TotalPreorder(le) && Sorted(s, key, le)
    ensures Ties(Insert(x, s, key, le), k, key, le) == Ties(s, k, key, le) + Ties([x], k, key, le)
  {
    if s == [] {
    } else if le(key(s[0]), key(x)) {
      InsertTies(x, s[1..], k, key, le);
      assert [s[0]] + Insert(x, s[1..], key, le) == Insert(x, s, key, le);
    } else {
      // every element of s is strictly above x, so none of them ties with x
      if Tie(le, key(x), k) {
        NoTiesAbove(s, key(x), k, key, le);
      }
      assert ([x] + s)[1..] == s;
    }
  }

  /** In a sorted sequence whose first key is strictly above `lo`, nothing
      ties with a key that ties with `lo`. */
  lemma {:induction false} NoTiesAbove<T, K(!new)>(s: seq<T>, lo: K, k: K, key: T -> K, le: (K, K) -> bool)
    requires TotalPreorder(le) && Sorted(s, key, le) && s != []
    requires !le(key(s[0]), lo) && Tie(le, lo, k)
    ensures Ties(s, k, key, le) == []
    decreases |s|
  {
    assert !Tie(le, key(s[0]), k);
    if |s| > 1 {
      assert le(key(s[0]), key(s[1]));
      assert !le(key(s[1]), lo);
      NoTiesAbove(s[1..], lo, k, key, le);
    }
  }

  lemma {:induction false} TiesAppend<T, K>(a: seq<T>, b: seq<T>, k: K, key: T -> K, le: (K, K) -> bool)
    ensures Ties(a + b, k, key, le) == Ties(a, k, key, le) + Ties(b, k, key, le)
  {
    if a != [] {
      TiesAppend(a[1..], b, k, key, le);
      assert (a + b)[1..] == a[1..] + b;
    } else {
      assert a + b == b;
    }
  }

  /** The result is a permutation of the input. */
  lemma {:induction false} SortPermutes<T, K>(s: seq<T>, key: T -> K, le: (K, K) -> bool)
    ensures |Sort(s, key, le)| == |s|
    ensures multiset(Sort(s, key, le)) == multiset(s)
  {
    if s != [] {
      var init := s[..|s| - 1];
      SortPermutes(init, key, le);
      InsertPermutes(s[|s| - 1], Sort(init, key, le), key, le);
      assert s == init + [s[|s| - 1]];
      assert |Sort(s, key, le)| == |multiset(Sort(s, key, le))| == |multiset(s)| == |s|;
    }
  }

  /** The result is ordered by key. */
  lemma {:induction false} SortSorted<T, K(!new)>(s: seq<T>, key: T -> K, le: (K, K) -> bool)
    requires TotalPreorder(le)
    ensures Sorted(Sort(s, key, le), key, le)
  {
    if s != [] {
      SortSorted(s[..|s| - 1], key, le);
      InsertSorted(s[|s| - 1], Sort(s[..|s| - 1], key, le), key, le);
    }
  }

  /** Stability: the elements whose keys tie keep their input order. */
  lemma {:induction false} SortStable<T, K(!new)>(s: seq<T>, k: K, key: T -> K, le: (K, K) -> bool)
    requires TotalPreorder(le)
    ensures Ties(Sort(s, key, le), k, key, le) == Ties(s, k, key, le)
  {
    if s != [] {
      var init, x := s[..|s| - 1], s[|s| - 1];
      SortStable(init, k, key, le);
      SortSorted(init, key, le);
      InsertTies(x, Sort(init, key, le), k, key, le);
      assert s == init + [x];
      TiesAppend(init, [x], k, key, le);
    }
  }
}
