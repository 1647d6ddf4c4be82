/**
 * Ordering by an integer key, as both sides of the site use it: the browser's
 * `Array.prototype.sort` with the comparator `(a, b) => a.key - b.key`, which
 * ECMA-262 (2019 edition on, section 22.1.3.27) requires to be stable, and the
 * database's `ORDER BY key` / `findFirst({ orderBy: { key: "desc" } })`.
 */
module Ordering {
  import opened JsBuiltins

  predicate SortedBy<T>(s: seq<T>, key: T -> int) {
    forall i, j :: 0 <= i < j < |s| ==> key(s[i]) <= key(s[j])
  }

  /** Inserts `x` before the first element whose key is not smaller than its own. */
  function Insert<T>(x: T, s: seq<T>, key: T -> int): (r: seq<T>)
    ensures |r| == |s| + 1
    ensures multiset(r) == multiset(s) + multiset{x}
    ensures key(r[0]) == key(x) || (s != [] && key(r[0]) == key(s[0]))
  {
    if s == [] || key(x) <= key(s[0]) then [x] + s
    else
      assert s == [s[0]] + s[1..];
      [s[0]] + Insert(x, s[1..], key)
  }

  /** Inserting into a sorted sequence keeps it sorted. */
  lemma {:induction false} InsertKeepsSorted<T>(x: T, s: seq<T>, key: T -> int)
    requires SortedBy(s, key)
    ensures SortedBy(Insert(x, s, key), key)
  {
    if s != [] && key(x) > key(s[0]) {
      var tail := Insert(x, s[1..], key);
      InsertKeepsSorted(x, s[1..], key);
      var r := [s[0]] + tail;
      assert key(s[0]) <= key(tail[0]);
      forall i, j | 0 <= i < j < |r| ensures key(r[i]) <= key(r[j]) {
        if i > 0 {
          assert r[i] == tail[i - 1] && r[j] == tail[j - 1];
        } else {
          assert r[j] == tail[j - 1];
          assert key(tail[0]) <= key(tail[j - 1]);
        }
      }
    }
  }

  /** A stable insertion sort by `key`. */
  function SortBy<T>(s: seq<T>, key: T -> int): (r: seq<T>)
    ensures |r| == |s|
    ensures multiset(r) == multiset(s)
    ensures SortedBy(r, key)
  {
    if s == [] then []
    else
      assert s == [s[0]] + s[1..];
      var t := SortBy(s[1..], key);
      InsertKeepsSorted(s[0], t, key);
      Insert(s[0], t, key)
  }

  /** Sorting keeps a property every element has. */
  lemma SortByKeeps<T>(s: seq<T>, p: T -> bool, key: T -> int)
    requires forall i :: 0 <= i < |s| ==> p(s[i])
    ensures forall i :: 0 <= i < |SortBy(s, key)| ==> p(SortBy(s, key)[i])
  {
    var r := SortBy(s, key);
    forall i | 0 <= i < |r| ensures p(r[i]) {
      assert r[i] in multiset(r);
      assert r[i] in s;
    }
  }

  /** The elements of `s` whose key is `k`, in their order in `s`. */
  function WithKey<T>(s: seq<T>, key: T -> int, k: int): seq<T> {
    if s == [] then []
    else if key(s[0]) == k then [s[0]] + WithKey(s[1..], key, k)
    else WithKey(s[1..], key, k)
  }

  lemma {:induction false} InsertStable<T>(x: T, s: seq<T>, key: T -> int, k: int)
    ensures WithKey(Insert(x, s, key), key, k) == WithKey([x] + s, key, k)
  {
    if s == [] || key(x) <= key(s[0]) {
    } else {
      InsertStable(x, s[1..], key, k);
      var r := Insert(x, s, key);
      assert r == [s[0]] + Insert(x, s[1..], key);
      assert ([x] + s)[1..] == s;
      assert ([x] + s[1..])[1..] == s[1..];
      if key(x) == k {
        // s[0] has a smaller key than x, so it is dropped on both sides
        assert key(s[0]) != k;
      }
    }
  }

  /** Stability: among elements with equal keys, the sort keeps the input order. */
  lemma {:induction false} SortByStable<T>(s: seq<T>, key: T -> int, k: int)
    ensures WithKey(SortBy(s, key), key, k) == WithKey(s, key, k)
  {
    if s != [] {
      SortByStable(s[1..], key, k);
      InsertStable(s[0], SortBy(s[1..], key), key, k);
      assert ([s[0]] + SortBy(s[1..], key))[1..] == SortBy(s[1..], key);
    }
  }

  /** Sorting an already sorted sequence leaves it as it is. */
  lemma {:induction false} SortBySorted<T>(s: seq<T>, key: T -> int)
    requires SortedBy(s, key)
    ensures SortBy(s, key) == s
  {
    if s != [] {
      assert SortedBy(s[1..], key);
      SortBySorted(s[1..], key);
      assert s == [s[0]] + s[1..];
    }
  }

  /** The largest key in `s`, or None for an empty sequence (`findFirst` ordered descending). */
  function MaxKey<T>(s: seq<T>, key: T -> int): (r: Option<int>)
    ensures r == None <==> s == []
    ensures r != None ==> (exists i :: 0 <= i < |s| && key(s[i]) == r.value)
    ensures r != None ==> forall i :: 0 <= i < |s| ==> key(s[i]) <= r.value
  {
    if s == [] then None
    else
      match MaxKey(s[1..], key)
      case None => Some(key(s[0]))
      case Some(m) =>
        assert key(s[1..][0]) == key(s[1]);
        Some(if key(s[0]) >= m then key(s[0]) else m)
  }
}
