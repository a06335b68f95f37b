/** The list-building idioms of the source: `itertools.combinations`, the
    pairing `[s[i:i+2] for i in range(0, len(s), 2)]`, `chain.from_iterable`,
    list repetition `count * s` and the nested comprehension
    `[(x, o) for o in outer for x in inner]`. */
module Itertools {

  /** `list(combinations(s, 2))`, as pairs, in combinations order. */
  function Pairs<T>(s: seq<T>): seq<(T, T)>
  {
    if s == [] then []
    else seq(|s| - 1, j requires 0 <= j < |s| - 1 => (s[0], s[j + 1])) + Pairs(s[1..])
  }

  lemma {:induction false} PairsLength<T>(s: seq<T>)
    ensures 2 * |Pairs(s)| == |s| * (|s| - 1)
  {
    if s != [] {
      PairsLength(s[1..]);
      assert |s| * (|s| - 1) == 2 * (|s| - 1) + (|s| - 1) * (|s| - 2);
    }
  }

  /** Every pair (s[i], s[j]) with i < j appears, and nothing else does. */
  lemma {:induction false} PairsMembers<T>(s: seq<T>, a: T, b: T)
    ensures (a, b) in Pairs(s) <==> exists i, j :: 0 <= i < j < |s| && a == s[i] && b == s[j]
  {
    if s != [] {
      var head := seq(|s| - 1, j requires 0 <= j < |s| - 1 => (s[0], s[j + 1]));
      PairsMembers(s[1..], a, b);
      if (a, b) in Pairs(s) {
        if (a, b) in head {
          var j :| 0 <= j < |head| && head[j] == (a, b);
          assert a == s[0] && b == s[j + 1];
        } else {
          assert (a, b) in Pairs(s[1..]);
          var i, j :| 0 <= i < j < |s[1..]| && a == s[1..][i] && b == s[1..][j];
          assert a == s[i + 1] && b == s[j + 1];
        }
      }
      if exists i, j :: 0 <= i < j < |s| && a == s[i] && b == s[j] {
        var i, j :| 0 <= i < j < |s| && a == s[i] && b == s[j];
        if i == 0 {
          assert head[j - 1] == (a, b);
        } else {
          assert a == s[1..][i - 1] && b == s[1..][j - 1];
        }
      }
    }
  }

  /** `list(combinations(s, k))`, each combination as a sequence, in combinations order. */
  function Combinations<T>(s: seq<T>, k: nat): seq<seq<T>>
    decreases |s|
  {
    if k == 0 then [[]]
    else if s == [] then []
    else PrependAll(s[0], Combinations(s[1..], k - 1)) + Combinations(s[1..], k)
  }

  function PrependAll<T>(x: T, ss: seq<seq<T>>): (r: seq<seq<T>>)
    ensures |r| == |ss| && forall i :: 0 <= i < |ss| ==> r[i] == [x] + ss[i]
  {
    seq(|ss|, i requires 0 <= i < |ss| => [x] + ss[i])
  }

  /** Every combination has k elements, and there is none exactly when s is shorter than k. */
  lemma CombinationsShape<T>(s: seq<T>, k: nat)
    ensures forall c :: c in Combinations(s, k) ==> |c| == k
    ensures Combinations(s, k) == [] <==> |s| < k
  {
    CombinationsLengths(s, k);
    CombinationsEmpty(s, k);
    forall c | c in Combinations(s, k) ensures |c| == k {
      var i :| 0 <= i < |Combinations(s, k)| && Combinations(s, k)[i] == c;
    }
  }

  lemma {:induction false} CombinationsLengths<T>(s: seq<T>, k: nat)
    ensures forall i :: 0 <= i < |Combinations(s, k)| ==> |Combinations(s, k)[i]| == k
    decreases |s|
  {
    if k != 0 && s != [] {
      CombinationsLengths(s[1..], k - 1);
      CombinationsLengths(s[1..], k);
      var shorter := Combinations(s[1..], k - 1);
      var longer := Combinations(s[1..], k);
      var all := Combinations(s, k);
      assert all == PrependAll(s[0], shorter) + longer;
      forall i | 0 <= i < |all| ensures |all[i]| == k {
        if i < |shorter| {
          assert all[i] == [s[0]] + shorter[i];
        } else {
          assert all[i] == longer[i - |shorter|];
        }
      }
    }
  }

  lemma {:induction false} CombinationsEmpty<T>(s: seq<T>, k: nat)
    ensures Combinations(s, k) == [] <==> |s| < k
    decreases |s|
  {
    if k != 0 && s != [] {
      CombinationsEmpty(s[1..], k - 1);
      CombinationsEmpty(s[1..], k);
    }
  }

  /** Pairs are exactly the 2-combinations, in the same order. */
  lemma {:induction false} PairsAreCombinations<T>(s: seq<T>)
    ensures |Pairs(s)| == |Combinations(s, 2)|
    ensures forall i :: 0 <= i < |Pairs(s)| ==>
      Combinations(s, 2)[i] == [Pairs(s)[i].0, Pairs(s)[i].1]
  {
    if s != [] {
      PairsAreCombinations(s[1..]);
      Singletons(s[1..]);
    }
  }

  lemma {:induction false} Singletons<T>(s: seq<T>)
    ensures Combinations(s, 1) == seq(|s|, i requires 0 <= i < |s| => [s[i]])
  {
    if s != [] {
      Singletons(s[1..]);
      var r := Combinations(s, 1);
      assert Combinations(s[1..], 0) == [[]];
      assert r == PrependAll(s[0], [[]]) + Combinations(s[1..], 1);
      forall i | 0 <= i < |s| ensures r[i] == [s[i]] {
        if i > 0 {
          assert r[i] == Combinations(s[1..], 1)[i - 1];
        }
      }
    }
  }

  /** `[s[i:i+2] for i in range(0, len(s), 2)]`: consecutive pairs, the last one short if |s| is odd. */
  function Chunks2<T>(s: seq<T>): seq<seq<T>>
    decreases |s|
  {
    if s == [] then [] else if |s| <= 2 then [s] else [s[..2]] + Chunks2(s[2..])
  }

  /** `list(chain.from_iterable(ss))`. */
  function Flatten<T>(ss: seq<seq<T>>): seq<T>
  {
    if ss == [] then [] else ss[0] + Flatten(ss[1..])
  }

  /** On an even-length input the chunks are the pairs (s[0], s[1]), (s[2], s[3]), ... */
  lemma {:induction false} Chunks2Even<T>(s: seq<T>)
    requires |s| % 2 == 0
    ensures |Chunks2(s)| == |s| / 2
    ensures forall i :: 0 <= i < |s| / 2 ==> Chunks2(s)[i] == s[2 * i..2 * i + 2]
    decreases |s|
  {
    if |s| > 2 {
      Chunks2Even(s[2..]);
      forall i | 0 <= i < |s| / 2 ensures Chunks2(s)[i] == s[2 * i..2 * i + 2] {
        if i > 0 {
          assert Chunks2(s)[i] == Chunks2(s[2..])[i - 1];
          assert s[2..][2 * (i - 1)..2 * (i - 1) + 2] == s[2 * i..2 * i + 2];
        }
      }
    }
  }

  /** Chunking loses and reorders nothing. */
  lemma {:induction false} Chunks2Flatten<T>(s: seq<T>)
    ensures Flatten(Chunks2(s)) == s
    decreases |s|
  {
    if |s| > 2 {
      Chunks2Flatten(s[2..]);
      assert s == s[..2] + s[2..];
    }
  }

  lemma {:induction false} FlattenAppend<T>(a: seq<seq<T>>, b: seq<seq<T>>)
    ensures Flatten(a + b) == Flatten(a) + Flatten(b)
  {
    if a != [] {
      assert (a + b)[1..] == a[1..] + b;
      FlattenAppend(a[1..], b);
    } else {
      assert a + b == b;
    }
  }

  /** `count * s` for a list s: empty for count <= 0. */
  function Repeat<T>(count: int, s: seq<T>): seq<T>
    decreases if count < 0 then 0 else count
  {
    if count <= 0 then [] else s + Repeat(count - 1, s)
  }

  lemma {:induction false} RepeatShape<T>(count: int, s: seq<T>)
    ensures |Repeat(count, s)| == (if count < 0 then 0 else count) * |s|
    ensures forall x :: x in Repeat(count, s) <==> 0 < count && x in s
    decreases if count < 0 then 0 else count
  {
    if count > 0 {
      RepeatShape(count - 1, s);
    }
  }

  /** `[(x, o) for o in outer for x in inner]`: outer-major, each pair carrying the inner element first. */
  function OuterMajorPairs<A, B>(outer: seq<B>, inner: seq<A>): seq<(A, B)>
  {
    if outer == [] then []
    else seq(|inner|, i requires 0 <= i < |inner| => (inner[i], outer[0])) + OuterMajorPairs(outer[1..], inner)
  }

  lemma {:induction false} OuterMajorPairsLength<A, B>(outer: seq<B>, inner: seq<A>)
    ensures |OuterMajorPairs(outer, inner)| == |outer| * |inner|
  {
    if outer != [] {
      OuterMajorPairsLength(outer[1..], inner);
      assert |outer| * |inner| == |inner| + (|outer| - 1) * |inner|;
    }
  }

  lemma {:induction false} OuterMajorPairsMembers<A, B>(outer: seq<B>, inner: seq<A>, a: A, b: B)
    ensures (a, b) in OuterMajorPairs(outer, inner) <==> a in inner && b in outer
  {
    if outer != [] {
      OuterMajorPairsMembers(outer[1..], inner, a, b);
      var head := seq(|inner|, i requires 0 <= i < |inner| => (inner[i], outer[0]));
      assert OuterMajorPairs(outer, inner) == head + OuterMajorPairs(outer[1..], inner);
      if a in inner && b == outer[0] {
        var i :| 0 <= i < |inner| && inner[i] == a;
        assert head[i] == (a, b);
      }
      if b in outer && b != outer[0] {
        var o :| 0 <= o < |outer| && outer[o] == b;
        assert outer[1..][o - 1] == b;
      }
      if (a, b) in head {
        var i :| 0 <= i < |head| && head[i] == (a, b);
      }
    }
  }

  /** Repetition `count * s` holds s[u] at every position b * |s| + u. */
  lemma {:induction false} RepeatAt<T>(count: int, s: seq<T>, b: nat, u: nat)
    requires b < count && u < |s|
    ensures b * |s| + u < |Repeat(count, s)|
    ensures Repeat(count, s)[b * |s| + u] == s[u]
    decreases count
  {
    RepeatShape(count, s);
    if b > 0 {
      RepeatAt(count - 1, s, b - 1, u);
      assert b * |s| + u == |s| + ((b - 1) * |s| + u);
    }
  }

  /** The pair of outer element o and inner element x sits at position o * |inner| + x. */
  lemma {:induction false} OuterMajorPairsAt<A, B>(outer: seq<B>, inner: seq<A>, o: nat, x: nat)
    requires o < |outer| && x < |inner|
    ensures o * |inner| + x < |OuterMajorPairs(outer, inner)|
    ensures OuterMajorPairs(outer, inner)[o * |inner| + x] == (inner[x], outer[o])
  {
    OuterMajorPairsLength(outer, inner);
    if o > 0 {
      OuterMajorPairsAt(outer[1..], inner, o - 1, x);
      assert o * |inner| + x == |inner| + ((o - 1) * |inner| + x);
    }
  }
}
