/**
 * Sorting by a numeric key in non-increasing order, as the scripts do with
 * `sorted(..., key=..., reverse=True)` and `sort_values(..., ascending=False)`.
 * The sort here is an insertion sort that is stable: among elements with the
 * same key it keeps the input order.
 */
module Sorting {

  ghost predicate SortedDesc<T>(s: seq<T>, key: T -> real) {
    forall i, j :: 0 <= i < j < |s| ==> key(s[i]) >= key(s[j])
  }

  /** The elements of `s` whose key is `k`, in their order in `s`. */
  function WithKey<T>(s: seq<T>, key: T -> real, k: real): seq<T> {
    if s == [] then []
    else (if key(s[0]) == k then [s[0]] else []) + WithKey(s[1..], key, k)
  }

  /** Inserts `x` into `s` after the leading elements whose key is at least `x`'s. */
  function Insert<T>(x: T, s: seq<T>, key: T -> real): seq<T> {
    if s == [] then [x]
    else if key(s[0]) >= key(x) then [s[0]] + Insert(x, s[1..], key)
    else [x] + s
  }

  /** A sorted sequence stays sorted behind an element whose key bounds all of its. */
  lemma SortedCons<T>(a: T, r: seq<T>, key: T -> real)
    requires SortedDesc(r, key)
    requires forall j :: 0 <= j < |r| ==> key(a) >= key(r[j])
    ensures SortedDesc([a] + r, key)
  {
    var c := [a] + r;
    forall i, j | 0 <= i < j < |c| ensures key(c[i]) >= key(c[j]) {
      assert c[j] == r[j - 1];
      if i > 0 {
        assert c[i] == r[i - 1];
      }
    }
  }

  /** A bound on the keys of `s` and of `x` bounds the keys after insertion. */
  lemma {:induction false} InsertBounded<T>(x: T, s: seq<T>, key: T -> real, b: real)
    requires key(x) <= b && forall j :: 0 <= j < |s| ==> key(s[j]) <= b
    ensures forall j :: 0 <= j < |Insert(x, s, key)| ==> key(Insert(x, s, key)[j]) <= b
    decreases |s|
  {
    if s != [] && key(s[0]) >= key(x) {
      InsertBounded(x, s[1..], key, b);
      var rest := Insert(x, s[1..], key);
      forall j | 0 <= j < |[s[0]] + rest| ensures key(([s[0]] + rest)[j]) <= b {
        if j > 0 {
          assert ([s[0]] + rest)[j] == rest[j - 1];
        }
      }
    } else if s != [] {
      forall j | 0 <= j < |[x] + s| ensures key(([x] + s)[j]) <= b {
        if j > 0 {
          assert ([x] + s)[j] == s[j - 1];
        }
      }
    }
  }

  /** Inserting into a sorted sequence keeps it sorted and adds exactly `x`. */
  lemma {:induction false} InsertSpec<T>(x: T, s: seq<T>, key: T -> real)
    requires SortedDesc(s, key)
    ensures var r := Insert(x, s, key);
      && |r| == |s| + 1
      && SortedDesc(r, key)
      && multiset(r) == multiset(s) + multiset{x}
    decreases |s|
  {
    if s != [] && key(s[0]) >= key(x) {
      var rest := Insert(x, s[1..], key);
      InsertSpec(x, s[1..], key);
      InsertBounded(x, s[1..], key, key(s[0]));
      SortedCons(s[0], rest, key);
      assert s == [s[0]] + s[1..];
    } else if s != [] {
      SortedCons(x, s, key);
    }
  }

  /** The elements of `s` sorted by non-increasing key. */
  function SortDesc<T>(s: seq<T>, key: T -> real): (r: seq<T>)
    ensures SortedDesc(r, key)
    ensures multiset(r) == multiset(s)
    ensures |r| == |s|
  {
    if s == [] then []
    else
      var init := SortDesc(s[..|s| - 1], key);
      InsertSpec(s[|s| - 1], init, key);
      assert s == s[..|s| - 1] + [s[|s| - 1]];
      Insert(s[|s| - 1], init, key)
  }

  lemma {:induction false} WithKeyAppend<T>(a: seq<T>, b: seq<T>, key: T -> real, k: real)
    ensures WithKey(a + b, key, k) == WithKey(a, key, k) + WithKey(b, key, k)
    decreases |a|
  {
    if a != [] {
      assert (a + b)[0] == a[0];
      assert (a + b)[1..] == a[1..] + b;
      WithKeyAppend(a[1..], b, key, k);
    } else {
      assert a + b == b;
    }
  }

  lemma {:induction false} WithKeyAbsent<T>(s: seq<T>, key: T -> real, k: real)
    requires forall i :: 0 <= i < |s| ==> key(s[i]) < k
    ensures WithKey(s, key, k) == []
    decreases |s|
  {
    if s != [] {
      WithKeyAbsent(s[1..], key, k);
    }
  }

  lemma SortedTail<T>(s: seq<T>, key: T -> real)
    requires SortedDesc(s, key) && s != []
    ensures SortedDesc(s[1..], key)
  {
    forall i, j | 0 <= i < j < |s| - 1 ensures key(s[1..][i]) >= key(s[1..][j]) {
      assert s[1..][i] == s[i + 1] && s[1..][j] == s[j + 1];
    }
  }

  /** A sorted sequence whose first key is below `k` has no element with key `k`. */
  lemma WithKeyBelowHead<T>(s: seq<T>, key: T -> real, k: real)
    requires SortedDesc(s, key) && s != [] && key(s[0]) < k
    ensures WithKey(s, key, k) == []
  {
    forall i | 0 <= i < |s| ensures key(s[i]) < k {
      if i > 0 {
        assert key(s[0]) >= key(s[i]);
      }
    }
    WithKeyAbsent(s, key, k);
  }

  /** The elements with key `k` of a sequence with a head. */
  lemma WithKeyCons<T>(a: T, r: seq<T>, key: T -> real, k: real)
    ensures WithKey([a] + r, key, k) == (if key(a) == k then [a] else []) + WithKey(r, key, k)
  {
    var c := [a] + r;
    assert c[0] == a && c[1..] == r;
  }

  lemma {:induction false} InsertWithKey<T>(x: T, s: seq<T>, key: T -> real, k: real)
    requires SortedDesc(s, key)
    ensures WithKey(Insert(x, s, key), key, k)
         == WithKey(s, key, k) + (if key(x) == k then [x] else [])
    decreases |s|
  {
    if s == [] {
      WithKeyCons(x, [], key, k);
    } else if key(s[0]) >= key(x) {
      var rest := Insert(x, s[1..], key);
      SortedTail(s, key);
      InsertWithKey(x, s[1..], key, k);
      WithKeyCons(s[0], rest, key, k);
      WithKeyCons(s[0], s[1..], key, k);
      assert [s[0]] + s[1..] == s;
    } else {
      WithKeyCons(x, s, key, k);
      if key(x) == k {
        WithKeyBelowHead(s, key, k);
      }
    }
  }

  /**
   * Stability: for every key value, the elements carrying it appear in the
   * sorted sequence in the same order as in the input.
   */
  lemma {:induction false} SortDescStable<T>(s: seq<T>, key: T -> real, k: real)
    ensures WithKey(SortDesc(s, key), key, k) == WithKey(s, key, k)
    decreases |s|
  {
    if s != [] {
      var init, last := s[..|s| - 1], s[|s| - 1];
      SortDescStable(init, key, k);
      InsertWithKey(last, SortDesc(init, key), key, k);
      assert s == init + [last];
      WithKeyAppend(init, [last], key, k);
      assert WithKey([last], key, k) == if key(last) == k then [last] else [];
    }
  }
}
