/**
  Order-based selections over sequences of reals, as numpy performs them:
  `np.max`, `np.min`, `np.where` on a boolean mask, `np.argsort` and
  `np.median`. Index sequences (`seq<nat>`) stand for numpy index arrays.
 */
module Ordering {

  /** The largest element, as `np.max` of a non-empty array. */
  function Max(s: seq<real>): (m: real)
    requires |s| > 0
    ensures forall i :: 0 <= i < |s| ==> s[i] <= m
    ensures exists i :: 0 <= i < |s| && s[i] == m
  {
    if |s| == 1 then s[0]
    else
      var rest := Max(s[..|s| - 1]);
      if s[|s| - 1] <= rest then rest else s[|s| - 1]
  }

  /** The smallest element, as `np.min` of a non-empty array. */
  function Min(s: seq<real>): (m: real)
    requires |s| > 0
    ensures forall i :: 0 <= i < |s| ==> m <= s[i]
    ensures exists i :: 0 <= i < |s| && s[i] == m
  {
    if |s| == 1 then s[0]
    else
      var rest := Min(s[..|s| - 1]);
      if rest <= s[|s| - 1] then rest else s[|s| - 1]
  }

  /** Every row of a matrix is non-empty. */
  predicate NonEmptyRows(m: seq<seq<real>>) {
    forall i :: 0 <= i < |m| ==> |m[i]| > 0
  }

  /** The largest entry of a matrix, as `np.max` of a two-dimensional array. */
  function MatrixMax(m: seq<seq<real>>): real
    requires |m| > 0 && NonEmptyRows(m)
  {
    Max(seq(|m|, i requires 0 <= i < |m| => Max(m[i])))
  }

  /** The largest entry bounds every entry and is one of them. */
  lemma MatrixMaxIsLargestEntry(m: seq<seq<real>>)
    requires |m| > 0 && NonEmptyRows(m)
    ensures forall i, j :: 0 <= i < |m| && 0 <= j < |m[i]| ==> m[i][j] <= MatrixMax(m)
    ensures exists i, j :: 0 <= i < |m| && 0 <= j < |m[i]| && m[i][j] == MatrixMax(m)
  {
    var rows := seq(|m|, i requires 0 <= i < |m| => Max(m[i]));
    assert forall i :: 0 <= i < |m| ==> rows[i] == Max(m[i]);
    var i :| 0 <= i < |m| && rows[i] == MatrixMax(m);
    var j :| 0 <= j < |m[i]| && m[i][j] == Max(m[i]);
  }

  /** The tests that the selections below apply to a value. */
  function Below(v: real): real -> bool {
    x => x < v
  }

  function AtMost(v: real): real -> bool {
    x => x <= v
  }

  /** `|x - m| < tol`, the closeness test for candidates of an extreme. */
  function Near(m: real, tol: real): real -> bool {
    x => (if x < m then m - x else x - m) < tol
  }

  /**
    The positions whose value passes `p`, in increasing order: `np.where(mask)[0]`.
    They are exactly the passing positions, each once.
   */
  function IndicesWhere(s: seq<real>, p: real -> bool): (ix: seq<nat>)
    ensures forall j :: 0 <= j < |ix| ==> ix[j] < |s| && p(s[ix[j]])
    ensures forall j, k :: 0 <= j < k < |ix| ==> ix[j] < ix[k]
    ensures forall i :: 0 <= i < |s| && p(s[i]) ==> i in ix
  {
    if |s| == 0 then []
    else
      var front := IndicesWhere(s[..|s| - 1], p);
      if p(s[|s| - 1]) then front + [|s| - 1] else front
  }

  /** Every index in `ix` addresses an element of an array of length `n`. */
  predicate InRange(ix: seq<nat>, n: nat) {
    forall j :: 0 <= j < |ix| ==> ix[j] < n
  }

  function Range(n: nat): (ix: seq<nat>)
    ensures |ix| == n && InRange(ix, n)
    ensures forall j :: 0 <= j < n ==> ix[j] == j
  {
    seq(n, (i: nat) => i)
  }

  /** How many of the positions `ix` hold a value of `key` passing `p`. */
  function CountAt(ix: seq<nat>, key: seq<real>, p: real -> bool): (c: nat)
    requires InRange(ix, |key|)
    ensures c <= |ix|
  {
    if |ix| == 0 then 0
    else CountAt(ix[..|ix| - 1], key, p) + (if p(key[ix[|ix| - 1]]) then 1 else 0)
  }

  /** How many elements of `key` pass `p`. */
  function CountWhere(key: seq<real>, p: real -> bool): nat {
    CountAt(Range(|key|), key, p)
  }

  lemma {:induction false} CountAppend(a: seq<nat>, b: seq<nat>, key: seq<real>, p: real -> bool)
    requires InRange(a, |key|) && InRange(b, |key|)
    ensures InRange(a + b, |key|)
    ensures CountAt(a + b, key, p) == CountAt(a, key, p) + CountAt(b, key, p)
  {
    if |b| == 0 {
      assert a + b == a;
    } else {
      var b' := b[..|b| - 1];
      assert (a + b)[..|a + b| - 1] == a + b';
      CountAppend(a, b', key, p);
    }
  }

  /** When every addressed value passes `p`, all of them are counted; when none does, none is. */
  lemma {:induction false} CountExtremes(ix: seq<nat>, key: seq<real>, p: real -> bool)
    requires InRange(ix, |key|)
    ensures (forall j :: 0 <= j < |ix| ==> p(key[ix[j]])) ==> CountAt(ix, key, p) == |ix|
    ensures (forall j :: 0 <= j < |ix| ==> !p(key[ix[j]])) ==> CountAt(ix, key, p) == 0
  {
    if |ix| > 0 {
      CountExtremes(ix[..|ix| - 1], key, p);
    }
  }

  /** Counting only looks at the addressed values, so a longer key changes nothing. */
  lemma {:induction false} CountPrefixKey(ix: seq<nat>, key: seq<real>, m: nat, p: real -> bool)
    requires m <= |key| && InRange(ix, m)
    ensures CountAt(ix, key[..m], p) == CountAt(ix, key, p)
  {
    if |ix| > 0 {
      CountPrefixKey(ix[..|ix| - 1], key, m, p);
    }
  }

  /** Strictly increasing indices below `n` number at most `n`. */
  lemma {:induction false} IncreasingIndicesBound(ix: seq<nat>, n: nat)
    requires InRange(ix, n)
    requires forall j, k :: 0 <= j < k < |ix| ==> ix[j] < ix[k]
    ensures |ix| <= n
  {
    if |ix| > 0 {
      var last := ix[|ix| - 1];
      IncreasingIndicesBound(ix[..|ix| - 1], last);
    }
  }

  /** `np.where` returns as many positions as there are passing values. */
  lemma {:induction false} IndicesWhereCount(s: seq<real>, p: real -> bool)
    ensures |IndicesWhere(s, p)| == CountWhere(s, p)
  {
    var n := |s|;
    if n > 0 {
      var front := s[..n - 1];
      IndicesWhereCount(front, p);
      assert front == s[..n - 1];
      CountPrefixKey(Range(n - 1), s, n - 1, p);
      RangeStepCount(s, n, p);
      assert [n - 1][..0] == [];
    }
  }

  /** Positions `s` list indices of `key` in ascending order of their values. */
  predicate Sorted(s: seq<nat>, key: seq<real>) {
    InRange(s, |key|) &&
    forall a, b :: 0 <= a < b < |s| ==> key[s[a]] <= key[s[b]]
  }

  /** Inserts index `i` after every entry whose value is at most `key[i]`. */
  function Insert(i: nat, s: seq<nat>, key: seq<real>): (r: seq<nat>)
    requires i < |key| && InRange(s, |key|)
    ensures |r| == |s| + 1 && InRange(r, |key|)
    ensures multiset(r) == multiset(s) + multiset{i}
  {
    if |s| == 0 then [i]
    else if key[s[0]] <= key[i] then
      assert s == [s[0]] + s[1..];
      [s[0]] + Insert(i, s[1..], key)
    else [i] + s
  }

  lemma {:induction false} InsertSorted(i: nat, s: seq<nat>, key: seq<real>)
    requires i < |key| && Sorted(s, key)
    ensures Sorted(Insert(i, s, key), key)
  {
    if |s| > 0 && key[s[0]] <= key[i] {
      var t := Insert(i, s[1..], key);
      InsertSorted(i, s[1..], key);
      forall b | 0 <= b < |t|
        ensures key[s[0]] <= key[t[b]]
      {
        assert t[b] in multiset(t);
        if t[b] != i {
          assert t[b] in multiset(s[1..]);
          var k :| 0 <= k < |s[1..]| && s[1..][k] == t[b];
          assert t[b] == s[k + 1];
        }
      }
    }
  }

  lemma {:induction false} InsertCount(i: nat, s: seq<nat>, key: seq<real>, p: real -> bool)
    requires i < |key| && InRange(s, |key|)
    ensures CountAt(Insert(i, s, key), key, p) == CountAt(s, key, p) + CountAt([i], key, p)
  {
    if |s| == 0 {
    } else if key[s[0]] <= key[i] {
      InsertCount(i, s[1..], key, p);
      CountAppend([s[0]], Insert(i, s[1..], key), key, p);
      CountAppend([s[0]], s[1..], key, p);
      assert [s[0]] + s[1..] == s;
    } else {
      CountAppend([i], s, key, p);
    }
  }

  /** The first `n` indices of `key`, arranged by `Insert` into ascending order of value. */
  function ArgsortPrefix(key: seq<real>, n: nat): (p: seq<nat>)
    requires n <= |key|
    ensures |p| == n && Sorted(p, key)
    ensures multiset(p) == multiset(Range(n))
  {
    if n == 0 then []
    else
      var front := ArgsortPrefix(key, n - 1);
      InsertSorted(n - 1, front, key);
      assert Range(n) == Range(n - 1) + [n - 1];
      Insert(n - 1, front, key)
  }

  /**
    The permutation that sorts `key` ascending, as `np.argsort`. Which of
    several equal values comes first is not part of its promise.
   */
  function Argsort(key: seq<real>): (p: seq<nat>)
    ensures |p| == |key| && Sorted(p, key)
    ensures multiset(p) == multiset(Range(|key|))
  {
    ArgsortPrefix(key, |key|)
  }

  lemma {:induction false} ArgsortPrefixCount(key: seq<real>, n: nat, p: real -> bool)
    requires n <= |key|
    ensures CountAt(ArgsortPrefix(key, n), key, p) == CountAt(Range(n), key, p)
  {
    if n > 0 {
      ArgsortPrefixCount(key, n - 1, p);
      ArgsortStepCount(key, n, p);
      RangeStepCount(key, n, p);
    }
  }

  lemma ArgsortStepCount(key: seq<real>, n: nat, p: real -> bool)
    requires 0 < n <= |key|
    ensures CountAt(ArgsortPrefix(key, n), key, p) ==
      CountAt(ArgsortPrefix(key, n - 1), key, p) + CountAt([n - 1], key, p)
  {
    var front := ArgsortPrefix(key, n - 1);
    assert ArgsortPrefix(key, n) == Insert(n - 1, front, key);
    InsertCount(n - 1, front, key, p);
  }

  lemma RangeStepCount(key: seq<real>, n: nat, p: real -> bool)
    requires 0 < n <= |key|
    ensures CountAt(Range(n), key, p) == CountAt(Range(n - 1), key, p) + CountAt([n - 1], key, p)
  {
    assert Range(n) == Range(n - 1) + [n - 1];
    CountAppend(Range(n - 1), [n - 1], key, p);
  }

  /** Sorting loses and invents nothing: any count over the sorted order equals the count over `key`. */
  lemma ArgsortCount(key: seq<real>, p: real -> bool)
    ensures CountAt(Argsort(key), key, p) == CountWhere(key, p)
  {
    ArgsortPrefixCount(key, |key|, p);
  }

  /** In a sorted arrangement, no more than `t` values lie strictly below the value at position `t`. */
  lemma SortedBelowCount(s: seq<nat>, key: seq<real>, t: nat)
    requires Sorted(s, key) && t < |s|
    ensures CountAt(s, key, Below(key[s[t]])) <= t
  {
    var v := key[s[t]];
    assert s == s[..t] + s[t..];
    CountAppend(s[..t], s[t..], key, Below(v));
    CountExtremes(s[t..], key, Below(v));
  }

  /** In a sorted arrangement, the first `t + 1` values are at most the value at position `t`. */
  lemma SortedAtMostCount(s: seq<nat>, key: seq<real>, t: nat, w: real)
    requires Sorted(s, key) && t < |s| && key[s[t]] <= w
    ensures CountAt(s, key, AtMost(w)) >= t + 1
  {
    assert s == s[..t + 1] + s[t + 1..];
    CountAppend(s[..t + 1], s[t + 1..], key, AtMost(w));
    CountExtremes(s[..t + 1], key, AtMost(w));
  }

  /** In a sorted arrangement, values from position `t` on are at least `w`, so at most `t` lie below `w`. */
  lemma SortedBelowBound(s: seq<nat>, key: seq<real>, t: nat, w: real)
    requires Sorted(s, key) && t < |s| && w <= key[s[t]]
    ensures CountAt(s, key, Below(w)) <= t
  {
    assert s == s[..t] + s[t..];
    CountAppend(s[..t], s[t..], key, Below(w));
    CountExtremes(s[t..], key, Below(w));
  }

  /**
    The element of rank `k` in ascending order, as `np.argsort(key)[k]`
    selects it, is an order statistic: at most `k` values lie strictly
    below it and more than `k` lie at or below it.
   */
  lemma ArgsortRank(key: seq<real>, k: nat)
    requires k < |key|
    ensures CountWhere(key, Below(key[Argsort(key)[k]])) <= k
    ensures k < CountWhere(key, AtMost(key[Argsort(key)[k]]))
  {
    var s := Argsort(key);
    var v := key[s[k]];
    SortedBelowCount(s, key, k);
    SortedAtMostCount(s, key, k, v);
    ArgsortCount(key, Below(v));
    ArgsortCount(key, AtMost(v));
  }

  /**
    The median, as `np.median`: the middle value of the sorted values, or
    the mean of the two middle values when their number is even. It splits
    the values in half: at most half of them lie strictly below it and at
    least half lie at or below it.
   */
  function Median(r: seq<real>): (m: real)
    requires |r| > 0
    ensures 2 * CountWhere(r, Below(m)) <= |r|
    ensures |r| <= 2 * CountWhere(r, AtMost(m))
  {
    var s := Argsort(r);
    var n := |r|;
    var m := if n % 2 == 1 then r[s[n / 2]] else (r[s[n / 2 - 1]] + r[s[n / 2]]) / 2.0;
    MedianSplits(r, s, m);
    m
  }

  /** The halving argument for `Median`, over the sorted order `s` of `r`. */
  lemma MedianSplits(r: seq<real>, s: seq<nat>, m: real)
    requires |r| > 0 && s == Argsort(r)
    requires m == if |r| % 2 == 1 then r[s[|r| / 2]] else (r[s[|r| / 2 - 1]] + r[s[|r| / 2]]) / 2.0
    ensures 2 * CountWhere(r, Below(m)) <= |r|
    ensures |r| <= 2 * CountWhere(r, AtMost(m))
  {
    var n := |r|;
    if n % 2 == 1 {
      SortedBelowBound(s, r, n / 2, m);
      SortedAtMostCount(s, r, n / 2, m);
    } else {
      assert r[s[n / 2 - 1]] <= r[s[n / 2]];
      SortedBelowBound(s, r, n / 2, m);
      SortedAtMostCount(s, r, n / 2 - 1, m);
    }
    ArgsortCount(r, Below(m));
    ArgsortCount(r, AtMost(m));
  }
}
