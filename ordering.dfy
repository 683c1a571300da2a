/** The order Rust puts on strings and the stable sort the projections apply to
    their lists (`Vec::sort` and `Vec::sort_by`). */
module Ordering {

  /** `a < b` for Rust's `Ord for str`: lexicographic, a proper prefix first.
      Comparing characters by code point agrees with Rust's byte-wise comparison
      of UTF-8. */
  predicate Less(a: string, b: string)
    decreases |a|
  {
    |b| > 0 && (|a| == 0 || if a[0] == b[0] then Less(a[1..], b[1..]) else a[0] < b[0])
  }

  /** `a` does not sort after `b`. */
  predicate NotAfter(a: string, b: string)
  {
    !Less(b, a)
  }

  lemma {:induction false} LessIrreflexive(a: string)
    ensures !Less(a, a)
    decreases |a|
  {
    if |a| > 0 {
      LessIrreflexive(a[1..]);
    }
  }

  lemma {:induction false} LessTransitive(a: string, b: string, c: string)
    requires Less(a, b) && Less(b, c)
    ensures Less(a, c)
    decreases |a|
  {
    if |a| > 0 && a[0] == b[0] && b[0] == c[0] {
      LessTransitive(a[1..], b[1..], c[1..]);
    }
  }

  lemma {:induction false} LessTotal(a: string, b: string)
    requires a != b
    ensures Less(a, b) || Less(b, a)
    decreases |a|
  {
    if |a| > 0 && |b| > 0 && a[0] == b[0] {
      assert a == [a[0]] + a[1..] && b == [b[0]] + b[1..];
      LessTotal(a[1..], b[1..]);
    }
  }

  /** `NotAfter` is a total preorder (in fact a total order). */
  lemma NotAfterTransitive(a: string, b: string, c: string)
    requires NotAfter(a, b) && NotAfter(b, c)
    ensures NotAfter(a, c)
  {
    if Less(c, a) && a != b {
      LessTotal(a, b);
      LessTransitive(c, a, b);
    }
  }

  lemma NotAfterOfLess(a: string, b: string)
    requires Less(a, b)
    ensures NotAfter(a, b)
  {
    if Less(b, a) {
      LessTransitive(a, b, a);
      LessIrreflexive(a);
    }
  }

  /** Ascending by `key`, as `sort_by(|a, b| key(a).cmp(key(b)))` leaves a list. */
  ghost predicate SortedBy<T>(s: seq<T>, key: T -> string)
  {
    forall i, j :: 0 <= i < j < |s| ==> NotAfter(key(s[i]), key(s[j]))
  }

  /** Inserts `x` after every element whose key is not greater than its own, so
      that equal keys keep their order. */
  function Insert<T>(t: seq<T>, x: T, key: T -> string): (r: seq<T>)
    ensures multiset(r) == multiset(t) + multiset{x}
    ensures |r| == |t| + 1
  {
    if t == [] then [x]
    else if Less(key(x), key(t[0])) then [x] + t
    else
      assert t == [t[0]] + t[1..];
      [t[0]] + Insert(t[1..], x, key)
  }

  /** The stable sort by `key`: an insertion sort, which yields the one stable
      arrangement a merge sort yields too. */
  function SortBy<T>(s: seq<T>, key: T -> string): (r: seq<T>)
    ensures multiset(r) == multiset(s)
    ensures |r| == |s|
  {
    if s == [] then []
    else
      assert s == s[..|s| - 1] + [s[|s| - 1]];
      Insert(SortBy(s[..|s| - 1], key), s[|s| - 1], key)
  }

  lemma {:induction false} InsertSorted<T>(t: seq<T>, x: T, key: T -> string)
    requires SortedBy(t, key)
    ensures SortedBy(Insert(t, x, key), key)
    decreases |t|
  {
    if t == [] {
    } else if Less(key(x), key(t[0])) {
      var r := Insert(t, x, key);
      forall i, j | 0 <= i < j < |r| ensures NotAfter(key(r[i]), key(r[j])) {
        if i == 0 {
          NotAfterOfLess(key(x), key(t[0]));
          if j > 1 {
            NotAfterTransitive(key(x), key(t[0]), key(r[j]));
          }
        }
      }
    } else {
      var rest := Insert(t[1..], x, key);
      InsertSorted(t[1..], x, key);
      var r := [t[0]] + rest;
      forall i, j | 0 <= i < j < |r| ensures NotAfter(key(r[i]), key(r[j])) {
        if i == 0 {
          var y := r[j];
          assert y in multiset(rest);
          assert y in multiset(t[1..]) || y == x;
          if y == x {
            if key(x) == key(t[0]) {
              LessIrreflexive(key(x));
            }
          } else {
            var m :| 0 <= m < |t[1..]| && t[1..][m] == y;
            assert t[1 + m] == y;
          }
        } else {
          assert r[i] == rest[i - 1] && r[j] == rest[j - 1];
        }
      }
    }
  }

  lemma {:induction false} SortBySorted<T>(s: seq<T>, key: T -> string)
    ensures SortedBy(SortBy(s, key), key)
    decreases |s|
  {
    if s != [] {
      SortBySorted(s[..|s| - 1], key);
      InsertSorted(SortBy(s[..|s| - 1], key), s[|s| - 1], key);
    }
  }

  /** The elements of `s` whose key is `k`, in order. */
  function KeyRun<T>(s: seq<T>, key: T -> string, k: string): seq<T>
  {
    if s == [] then []
    else (if key(s[0]) == k then [s[0]] else []) + KeyRun(s[1..], key, k)
  }

  lemma {:induction false} KeyRunAppend<T>(a: seq<T>, b: seq<T>, key: T -> string, k: string)
    ensures KeyRun(a + b, key, k) == KeyRun(a, key, k) + KeyRun(b, key, k)
    decreases |a|
  {
    if a == [] {
      assert a + b == b;
    } else {
      assert (a + b)[1..] == a[1..] + b;
      KeyRunAppend(a[1..], b, key, k);
    }
  }

  lemma {:induction false} KeyRunNone<T>(t: seq<T>, key: T -> string, k: string)
    requires forall i :: 0 <= i < |t| ==> key(t[i]) != k
    ensures KeyRun(t, key, k) == []
    decreases |t|
  {
    if t != [] {
      KeyRunNone(t[1..], key, k);
    }
  }

  lemma {:induction false} InsertKeyRun<T>(t: seq<T>, x: T, key: T -> string, k: string)
    requires SortedBy(t, key)
    ensures KeyRun(Insert(t, x, key), key, k)
         == KeyRun(t, key, k) + (if key(x) == k then [x] else [])
    decreases |t|
  {
    if t == [] {
    } else if Less(key(x), key(t[0])) {
      if key(x) == k {
        forall i | 0 <= i < |t| ensures key(t[i]) != k {
          if i == 0 {
            LessIrreflexive(key(x));
          }
        }
        KeyRunNone(t, key, k);
      }
      assert ([x] + t)[1..] == t;
    } else {
      assert SortedBy(t[1..], key);
      InsertKeyRun(t[1..], x, key, k);
      assert ([t[0]] + Insert(t[1..], x, key))[1..] == Insert(t[1..], x, key);
    }
  }

  /** Stability: for every key, the elements carrying it come out in the order
      they went in. */
  lemma {:induction false} SortByStable<T>(s: seq<T>, key: T -> string, k: string)
    ensures KeyRun(SortBy(s, key), key, k) == KeyRun(s, key, k)
    decreases |s|
  {
    if s != [] {
      var init, last := s[..|s| - 1], s[|s| - 1];
      var tail := if key(last) == k then [last] else [];
      calc {
        KeyRun(SortBy(s, key), key, k);
        KeyRun(Insert(SortBy(init, key), last, key), key, k);
        { SortBySorted(init, key);
          InsertKeyRun(SortBy(init, key), last, key, k); }
        KeyRun(SortBy(init, key), key, k) + tail;
        { SortByStable(init, key, k); }
        KeyRun(init, key, k) + tail;
        { assert KeyRun([last], key, k) == tail + KeyRun([], key, k); }
        KeyRun(init, key, k) + KeyRun([last], key, k);
        { KeyRunAppend(init, [last], key, k); }
        KeyRun(init + [last], key, k);
        { assert s == init + [last]; }
        KeyRun(s, key, k);
      }
    }
  }

  /** What the projections rely on: the sorted list is ascending, a permutation
      of its input, and stable. */
  lemma SortByCorrect<T>(s: seq<T>, key: T -> string)
    ensures SortedBy(SortBy(s, key), key)
    ensures multiset(SortBy(s, key)) == multiset(s)
    ensures forall k :: KeyRun(SortBy(s, key), key, k) == KeyRun(s, key, k)
  {
    SortBySorted(s, key);
    forall k ensures KeyRun(SortBy(s, key), key, k) == KeyRun(s, key, k) {
      SortByStable(s, key, k);
    }
  }
}
