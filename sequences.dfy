/** Flattening nested sequences and summing them, as `list.extend` and `np.sum` do. */
module Sequences {

  /** The inner sequences joined end to end, in order. */
  function Concat<T>(ss: seq<seq<T>>): seq<T> {
    if |ss| == 0 then [] else Concat(ss[..|ss| - 1]) + ss[|ss| - 1]
  }

  /** The number of elements over all inner sequences, counted from the front. */
  function TotalLength<T>(ss: seq<seq<T>>): nat {
    if |ss| == 0 then 0 else |ss[0]| + TotalLength(ss[1..])
  }

  lemma {:induction false} TotalLengthAppend<T>(a: seq<seq<T>>, b: seq<seq<T>>)
    ensures TotalLength(a + b) == TotalLength(a) + TotalLength(b)
  {
    if |a| == 0 {
      assert a + b == b;
    } else {
      assert (a + b)[1..] == a[1..] + b;
      TotalLengthAppend(a[1..], b);
    }
  }

  /** Joining adds up the lengths: nothing is dropped and nothing is added. */
  lemma {:induction false} ConcatLength<T>(ss: seq<seq<T>>)
    ensures |Concat(ss)| == TotalLength(ss)
  {
    if |ss| > 0 {
      var front := ss[..|ss| - 1];
      ConcatLength(front);
      assert ss == front + [ss[|ss| - 1]];
      TotalLengthAppend(front, [ss[|ss| - 1]]);
    }
  }

  lemma {:induction false} ConcatAppend<T>(a: seq<seq<T>>, b: seq<seq<T>>)
    ensures Concat(a + b) == Concat(a) + Concat(b)
  {
    if |b| == 0 {
      assert a + b == a;
    } else {
      var b' := b[..|b| - 1];
      assert (a + b)[..|a + b| - 1] == a + b';
      ConcatAppend(a, b');
    }
  }

  /**
    Element `j` of inner sequence `e` sits in the joined sequence right
    after all the elements of the sequences before `e`.
   */
  lemma {:induction false} ConcatPosition<T>(ss: seq<seq<T>>, e: nat, j: nat)
    requires e < |ss| && j < |ss[e]|
    ensures TotalLength(ss[..e]) + j < |Concat(ss)|
    ensures Concat(ss)[TotalLength(ss[..e]) + j] == ss[e][j]
  {
    var before, rest := ss[..e], ss[e..];
    assert ss == before + rest;
    ConcatAppend(before, rest);
    ConcatLength(before);
    assert rest == [ss[e]] + rest[1..];
    ConcatAppend([ss[e]], rest[1..]);
    assert Concat([ss[e]]) == ss[e] by {
      assert [ss[e]][..0] == [];
    }
  }

  /** A value occurs in the joined sequence exactly when it occurs in one of the inner sequences. */
  lemma {:induction false} ConcatMembership<T>(ss: seq<seq<T>>, x: T)
    ensures x in Concat(ss) <==> exists e :: 0 <= e < |ss| && x in ss[e]
  {
    if |ss| > 0 {
      var front := ss[..|ss| - 1];
      ConcatMembership(front, x);
      if x in Concat(ss) && x !in ss[|ss| - 1] {
        var e :| 0 <= e < |front| && x in front[e];
        assert x in ss[e];
      }
      if exists e :: 0 <= e < |ss| && x in ss[e] {
        var e :| 0 <= e < |ss| && x in ss[e];
        if e < |ss| - 1 {
          assert x in front[e];
        }
      }
    }
  }

  /** `np.sum` of integers. */
  function SumInts(s: seq<int>): int {
    if |s| == 0 then 0 else SumInts(s[..|s| - 1]) + s[|s| - 1]
  }

  /** `np.sum` of reals. */
  function SumReals(s: seq<real>): real {
    if |s| == 0 then 0.0 else SumReals(s[..|s| - 1]) + s[|s| - 1]
  }

  lemma {:induction false} SumIntsAppend(a: seq<int>, b: seq<int>)
    ensures SumInts(a + b) == SumInts(a) + SumInts(b)
  {
    if |b| == 0 {
      assert a + b == a;
    } else {
      var b' := b[..|b| - 1];
      assert (a + b)[..|a + b| - 1] == a + b';
      SumIntsAppend(a, b');
    }
  }

  lemma {:induction false} SumRealsAppend(a: seq<real>, b: seq<real>)
    ensures SumReals(a + b) == SumReals(a) + SumReals(b)
  {
    if |b| == 0 {
      assert a + b == a;
    } else {
      var b' := b[..|b| - 1];
      assert (a + b)[..|a + b| - 1] == a + b';
      SumRealsAppend(a, b');
    }
  }

  predicate Binary(s: seq<int>) {
    forall i :: 0 <= i < |s| ==> s[i] == 0 || s[i] == 1
  }

  /**
    The sum of a 0/1 sequence counts its ones: it is the number of 1
    entries, so it lies between 0 and the length, reaching the length
    exactly when every entry is 1 and 0 exactly when every entry is 0.
   */
  lemma {:induction false} BinarySum(s: seq<int>)
    requires Binary(s)
    ensures SumInts(s) == multiset(s)[1]
    ensures 0 <= SumInts(s) <= |s|
    ensures SumInts(s) == |s| <==> forall i :: 0 <= i < |s| ==> s[i] == 1
    ensures SumInts(s) == 0 <==> forall i :: 0 <= i < |s| ==> s[i] == 0
  {
    if |s| > 0 {
      var front := s[..|s| - 1];
      BinarySum(front);
      assert s == front + [s[|s| - 1]];
      assert multiset(s) == multiset(front) + multiset{s[|s| - 1]};
      if forall i :: 0 <= i < |s| ==> s[i] == 1 {
        assert forall i :: 0 <= i < |front| ==> front[i] == 1;
      }
      if forall i :: 0 <= i < |s| ==> s[i] == 0 {
        assert forall i :: 0 <= i < |front| ==> front[i] == 0;
      }
    }
  }

  /** Every element is non-negative. */
  predicate NonNegative(s: seq<real>) {
    forall i :: 0 <= i < |s| ==> 0.0 <= s[i]
  }

  lemma {:induction false} NonNegativeSum(s: seq<real>)
    requires NonNegative(s)
    ensures 0.0 <= SumReals(s)
  {
    if |s| > 0 {
      NonNegativeSum(s[..|s| - 1]);
    }
  }
}
