/** Python's `sorted`, which is stable: an insertion sort that puts an element
    in front of the first element it may precede, so that elements the order
    does not separate keep their original order (`reverse=True` included). */
module Sorting {

  /** A relation `le` ("may come first") that sorts: total and transitive. */
  ghost predicate TotalPreorder<T(!new)>(le: (T, T) -> bool) {
    && (forall x, y :: le(x, y) || le(y, x))
    && (forall x, y, z :: le(x, y) && le(y, z) ==> le(x, z))
  }

  ghost predicate SortedBy<T>(s: seq<T>, le: (T, T) -> bool) {
    forall i, j :: 0 <= i < j < |s| ==> le(s[i], s[j])
  }

  function Insert<T>(x: T, s: seq<T>, le: (T, T) -> bool): (r: seq<T>)
    ensures |r| == |s| + 1
    ensures multiset(r) == multiset(s) + multiset{x}
  {
    if s == [] || le(x, s[0]) then [x] + s
    else
      assert s == [s[0]] + s[1..];
      [s[0]] + Insert(x, s[1..], le)
  }

  /** `sorted(s)` under the order `le`. */
  function SortBy<T>(s: seq<T>, le: (T, T) -> bool): (r: seq<T>)
    ensures |r| == |s|
    ensures multiset(r) == multiset(s)
  {
    if s == [] then []
    else
      assert s == [s[0]] + s[1..];
      Insert(s[0], SortBy(s[1..], le), le)
  }

  lemma {:induction false} InsertSorted<T(!new)>(x: T, s: seq<T>, le: (T, T) -> bool)
    requires TotalPreorder(le) && SortedBy(s, le)
    ensures SortedBy(Insert(x, s, le), le)
  {
    if s == [] || le(x, s[0]) {
    } else {
      InsertSorted(x, s[1..], le);
      var r := Insert(x, s[1..], le);
      assert le(s[0], x);
      forall k | 0 <= k < |r| ensures le(s[0], r[k]) {
        assert r[k] in multiset(r);
        if r[k] != x {
          assert r[k] in multiset(s[1..]);
          var m :| 0 <= m < |s[1..]| && s[1..][m] == r[k];
          assert s[m + 1] == r[k];
        }
      }
    }
  }

  /** The result of `SortBy` is ordered by `le` (and, above, a permutation of its input). */
  lemma {:induction false} SortBySorted<T(!new)>(s: seq<T>, le: (T, T) -> bool)
    requires TotalPreorder(le)
    ensures SortedBy(SortBy(s, le), le)
  {
    if s != [] {
      SortBySorted(s[1..], le);
      InsertSorted(s[0], SortBy(s[1..], le), le);
    }
  }

  /** Sorting by a key, highest key first (`sorted(..., key=key, reverse=True)`). */
  function ByKeyDesc<T>(key: T -> real): (T, T) -> bool
  {
    (x: T, y: T) => key(x) >= key(y)
  }

  /** Sorting reals in increasing order (`sorted(values)`). */
  function RealAsc(): (real, real) -> bool
  {
    (x: real, y: real) => x <= y
  }

  lemma ByKeyDescTotal<T(!new)>(key: T -> real)
    ensures TotalPreorder(ByKeyDesc(key))
  {
  }

  lemma RealAscTotal()
    ensures TotalPreorder(RealAsc())
  {
  }

  /** Sorting by a key in decreasing order: ordered, a permutation, and its last element has the least key. */
  lemma SortByKeyDesc<T(!new)>(s: seq<T>, key: T -> real)
    ensures var r := SortBy(s, ByKeyDesc(key));
      && multiset(r) == multiset(s)
      && (forall i, j :: 0 <= i < j < |r| ==> key(r[i]) >= key(r[j]))
      && (s != [] ==> forall i :: 0 <= i < |s| ==> key(r[|r| - 1]) <= key(s[i]))
  {
    ByKeyDescTotal(key);
    SortBySorted(s, ByKeyDesc(key));
    var r := SortBy(s, ByKeyDesc(key));
    forall i | 0 <= i < |s| ensures key(r[|r| - 1]) <= key(s[i]) {
      assert s[i] in multiset(r);
      var m :| 0 <= m < |r| && r[m] == s[i];
      if m < |r| - 1 {
        assert ByKeyDesc(key)(r[m], r[|r| - 1]);
      }
    }
  }

  /** The elements of s whose key is v, in their order in s. */
  function WithKey<T>(s: seq<T>, key: T -> real, v: real): seq<T>
  {
    if s == [] then []
    else (if key(s[0]) == v then [s[0]] else []) + WithKey(s[1..], key, v)
  }

  /** Inserting x only passes elements with a strictly greater key, so among the elements with x's key,
      x comes first. */
  lemma {:induction false} InsertWithKey<T>(x: T, s: seq<T>, key: T -> real, v: real)
    ensures WithKey(Insert(x, s, ByKeyDesc(key)), key, v)
      == (if key(x) == v then [x] else []) + WithKey(s, key, v)
  {
    var r := Insert(x, s, ByKeyDesc(key));
    if s == [] || key(x) >= key(s[0]) {
      assert r[1..] == s;
    } else {
      var rest := Insert(x, s[1..], ByKeyDesc(key));
      assert r == [s[0]] + rest && r[1..] == rest;
      InsertWithKey(x, s[1..], key, v);
    }
  }

  /** `sorted(..., key=key, reverse=True)` is stable: for every key value, the elements carrying it keep
      their order. */
  lemma {:induction false} SortByKeyDescStable<T>(s: seq<T>, key: T -> real, v: real)
    ensures WithKey(SortBy(s, ByKeyDesc(key)), key, v) == WithKey(s, key, v)
  {
    if s != [] {
      SortByKeyDescStable(s[1..], key, v);
      InsertWithKey(s[0], SortBy(s[1..], ByKeyDesc(key)), key, v);
    }
  }

  /** Sorting reals increasingly: ordered and a permutation. */
  lemma SortRealAsc(s: seq<real>)
    ensures var r := SortBy(s, RealAsc());
      && multiset(r) == multiset(s)
      && (forall i, j :: 0 <= i < j < |r| ==> r[i] <= r[j])
  {
    RealAscTotal();
    SortBySorted(s, RealAsc());
    var r := SortBy(s, RealAsc());
    assert SortedBy(r, RealAsc());
    forall i, j | 0 <= i < j < |r| ensures r[i] <= r[j] {
      assert RealAsc()(r[i], r[j]);
    }
  }
}
