/** Python dictionaries whose iteration order or `values()` matter, modelled as
    insertion-ordered association lists: assigning to an existing key keeps its
    position, a new key goes to the end. Dictionaries that are only looked up
    are modelled as Dafny maps instead. */
module PyDict {
  import opened Wrappers

  type Dict<K, V> = seq<(K, V)>

  function Keys<K, V>(d: Dict<K, V>): (r: seq<K>)
    ensures |r| == |d| && forall i :: 0 <= i < |d| ==> r[i] == d[i].0
  {
    seq(|d|, i requires 0 <= i < |d| => d[i].0)
  }

  /** `list(d.values())`, duplicates included. */
  function Values<K, V>(d: Dict<K, V>): (r: seq<V>)
    ensures |r| == |d| && forall i :: 0 <= i < |d| ==> r[i] == d[i].1
  {
    seq(|d|, i requires 0 <= i < |d| => d[i].1)
  }

  ghost predicate UniqueKeys<K, V>(d: Dict<K, V>) {
    forall i, j :: 0 <= i < j < |d| ==> d[i].0 != d[j].0
  }

  /** `d[k]` when `k in d`, otherwise None (where Python raises KeyError). */
  function Get<K(==), V>(d: Dict<K, V>, k: K): (r: Option<V>)
    ensures r.Some? <==> k in Keys(d)
    ensures r.Some? ==> (k, r.value) in d
  {
    if d == [] then None
    else if d[0].0 == k then Some(d[0].1)
    else
      assert Keys(d) == [d[0].0] + Keys(d[1..]);
      Get(d[1..], k)
  }

  /** On a dictionary without repeated keys, Get finds the entry at any index. */
  lemma {:induction false} GetAt<K, V>(d: Dict<K, V>, i: nat)
    requires UniqueKeys(d) && i < |d|
    ensures Get(d, d[i].0) == Some(d[i].1)
  {
    if i > 0 {
      GetAt(d[1..], i - 1);
    }
  }

  /** A dictionary with the keys of one without repeated keys has none either, and Get finds its entries by index. */
  lemma GetSameKeys<K, V, W>(d: Dict<K, V>, e: Dict<K, W>, q: nat)
    requires UniqueKeys(e) && Keys(d) == Keys(e) && q < |d|
    ensures UniqueKeys(d)
    ensures Get(d, e[q].0) == Some(d[q].1)
  {
    forall i, j | 0 <= i < j < |d| ensures d[i].0 != d[j].0 {
      assert d[i].0 == Keys(e)[i] && d[j].0 == Keys(e)[j];
    }
    assert d[q].0 == Keys(e)[q];
    GetAt(d, q);
  }

  /** `d[k] = v`: an existing key keeps its position, a new key is appended. */
  function Put<K(==), V>(d: Dict<K, V>, k: K, v: V): (r: Dict<K, V>)
    ensures Keys(r) == if k in Keys(d) then Keys(d) else Keys(d) + [k]
  {
    if d == [] then [(k, v)]
    else
      KeysCons(d[0], d[1..]);
      assert [d[0]] + d[1..] == d;
      if d[0].0 == k then
        KeysCons((k, v), d[1..]);
        [(k, v)] + d[1..]
      else
        var rest := Put(d[1..], k, v);
        KeysCons(d[0], rest);
        [d[0]] + rest
  }

  /** The keys of an entry followed by a dictionary. */
  lemma KeysCons<K, V>(x: (K, V), d: Dict<K, V>)
    ensures Keys([x] + d) == [x.0] + Keys(d)
  {
    assert Keys([x] + d) == [x.0] + Keys(d);
  }

  /** After `d[k] = v`, k maps to v and every other key keeps its value. */
  lemma {:induction false} PutGet<K, V>(d: Dict<K, V>, k: K, v: V, k': K)
    ensures Get(Put(d, k, v), k') == if k' == k then Some(v) else Get(d, k')
  {
    if d != [] && d[0].0 != k {
      PutGet(d[1..], k, v, k');
    }
  }

  /** Assignment never introduces a repeated key. */
  lemma PutUnique<K, V>(d: Dict<K, V>, k: K, v: V)
    requires UniqueKeys(d)
    ensures UniqueKeys(Put(d, k, v))
  {
    var r := Put(d, k, v);
    assert forall i :: 0 <= i < |r| ==> r[i].0 == Keys(r)[i];
  }

  /** Assigning to a present key replaces its entry in place. */
  lemma {:induction false} PutAt<K, V>(d: Dict<K, V>, p: nat, v: V)
    requires UniqueKeys(d) && p < |d|
    ensures Put(d, d[p].0, v) == d[p := (d[p].0, v)]
  {
    if p > 0 {
      PutAt(d[1..], p - 1, v);
      assert d[1..][p - 1 := (d[p].0, v)] == d[p := (d[p].0, v)][1..];
    }
  }

  /** Assigning to an absent key appends it. */
  lemma {:induction false} PutNew<K, V>(d: Dict<K, V>, k: K, v: V)
    requires k !in Keys(d)
    ensures Put(d, k, v) == d + [(k, v)]
  {
    if d != [] {
      assert Keys(d) == [d[0].0] + Keys(d[1..]);
      PutNew(d[1..], k, v);
      assert d == [d[0]] + d[1..];
    }
  }

  /** `{k: f(k, v) for k, v in d.items()}`. */
  function MapItems<K, V, W>(d: Dict<K, V>, f: (K, V) -> W): (r: Dict<K, W>)
    ensures Keys(r) == Keys(d)
    ensures |r| == |d| && forall i :: 0 <= i < |d| ==> r[i].1 == f(d[i].0, d[i].1)
  {
    seq(|d|, i requires 0 <= i < |d| => (d[i].0, f(d[i].0, d[i].1)))
  }

  /** `{k: f(k, v) for k, v in d.items()}` when f may raise: the failure is the
      one of the first item, in iteration order, on which f fails. */
  function TryMapItems<K, V, W, E(==)>(d: Dict<K, V>, f: (K, V) -> Result<W, E>): (r: Result<Dict<K, W>, E>)
    ensures r.Success? <==> forall i :: 0 <= i < |d| ==> f(d[i].0, d[i].1).Success?
    ensures r.Success? ==> Keys(r.value) == Keys(d) && |r.value| == |d|
    ensures r.Success? ==> forall i :: 0 <= i < |d| ==> r.value[i].1 == f(d[i].0, d[i].1).value
    ensures r.Failure? ==> exists i :: 0 <= i < |d| && f(d[i].0, d[i].1).Failure? && f(d[i].0, d[i].1).error == r.error
                             && forall j :: 0 <= j < i ==> f(d[j].0, d[j].1).Success?
  {
    if d == [] then Success([])
    else
      var head := f(d[0].0, d[0].1);
      if head.Failure? then Failure(head.error)
      else
        var rest := TryMapItems(d[1..], f);
        if rest.Failure? then
          TryMapItemsLaterFailure(d, f, rest.error);
          Failure(rest.error)
        else
          KeysCons(d[0], d[1..]);
          KeysCons((d[0].0, head.value), rest.value);
          assert [d[0]] + d[1..] == d;
          TryMapItemsTail(d, f);
          Success([(d[0].0, head.value)] + rest.value)
  }

  /** Items after the first are the items of the tail, one place further on. */
  lemma TryMapItemsTail<K, V, W, E>(d: Dict<K, V>, f: (K, V) -> Result<W, E>)
    requires d != []
    ensures forall i :: 0 < i < |d| ==> d[i] == d[1..][i - 1]
  {
  }

  /** A failure in the tail, after a first item that maps, is a failure of the whole at the next index. */
  lemma TryMapItemsLaterFailure<K, V, W, E>(d: Dict<K, V>, f: (K, V) -> Result<W, E>, e: E)
    requires d != [] && f(d[0].0, d[0].1).Success?
    requires exists i :: 0 <= i < |d[1..]| && f(d[1..][i].0, d[1..][i].1).Failure? && f(d[1..][i].0, d[1..][i].1).error == e
                         && forall j :: 0 <= j < i ==> f(d[1..][j].0, d[1..][j].1).Success?
    ensures exists i :: 0 <= i < |d| && f(d[i].0, d[i].1).Failure? && f(d[i].0, d[i].1).error == e
                        && forall j :: 0 <= j < i ==> f(d[j].0, d[j].1).Success?
  {
    var i :| 0 <= i < |d[1..]| && f(d[1..][i].0, d[1..][i].1).Failure? && f(d[1..][i].0, d[1..][i].1).error == e
             && forall j :: 0 <= j < i ==> f(d[1..][j].0, d[1..][j].1).Success?;
    assert d[i + 1] == d[1..][i];
    forall j | 0 < j < i + 1 ensures f(d[j].0, d[j].1).Success? {
      assert d[j] == d[1..][j - 1];
    }
  }
}
