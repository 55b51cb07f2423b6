/**
  The classifier's per-tick output and the choice of its top entry.

  `processPredictions` sorts the prediction list in place with the comparator
  `b.probability - a.probability` and reads entry 0. JavaScript's `Array.prototype.sort`
  is stable, so the sort is by descending probability with ties kept in input order;
  `SortDescending` is that sort, and `Top` is its first entry.
*/
module Predictions {

  /** One entry of the classifier's output: a class name and its probability. */
  datatype Prediction = Prediction(className: string, probability: real)

  /** The classifier's output for one tick, not assumed to be sorted. */
  type Sample = seq<Prediction>

  ghost predicate SortedDescending(s: Sample) {
    forall i, j :: 0 <= i < j < |s| ==> s[i].probability >= s[j].probability
  }

  /** The entries of `s` whose probability is exactly `v`, in their order in `s`. */
  function WithProbability(s: Sample, v: real): (r: Sample)
    ensures |r| <= |s|
  {
    if |s| == 0 then []
    else (if s[0].probability == v then [s[0]] else []) + WithProbability(s[1..], v)
  }

  /**
    A sort keeps ties in order when, for every probability, the entries carrying it
    appear in the output in the same order as in the input.
  */
  ghost predicate KeepsTiesInOrder(s: Sample, r: Sample) {
    forall v :: WithProbability(r, v) == WithProbability(s, v)
  }

  /** `i` is the first index of `s` holding the largest probability. */
  ghost predicate IsFirstMax(s: Sample, i: int) {
    && 0 <= i < |s|
    && (forall j :: 0 <= j < |s| ==> s[j].probability <= s[i].probability)
    && (forall j :: 0 <= j < i ==> s[j].probability < s[i].probability)
  }

  lemma WithProbabilityCons(x: Prediction, t: Sample, v: real)
    ensures WithProbability([x] + t, v) == (if x.probability == v then [x] else []) + WithProbability(t, v)
  {
    assert ([x] + t)[1..] == t;
  }

  /**
    Inserts `x` in front of the first entry of `t` that is not strictly more probable,
    so that `x` precedes the entries it ties with.
  */
  function Insert(x: Prediction, t: Sample): (r: Sample)
    ensures |r| == |t| + 1
    ensures r[0] == x || (|t| > 0 && r[0] == t[0] && t[0].probability > x.probability)
  {
    if |t| == 0 || t[0].probability <= x.probability then [x] + t
    else
      assert t == [t[0]] + t[1..];
      [t[0]] + Insert(x, t[1..])
  }

  lemma {:induction false} InsertPermutes(x: Prediction, t: Sample)
    ensures multiset(Insert(x, t)) == multiset(t) + multiset{x}
  {
    if |t| > 0 && t[0].probability > x.probability {
      InsertPermutes(x, t[1..]);
      assert t == [t[0]] + t[1..];
    }
  }

  lemma {:induction false} InsertSorted(x: Prediction, t: Sample)
    requires SortedDescending(t)
    ensures SortedDescending(Insert(x, t))
  {
    if |t| == 0 || t[0].probability <= x.probability {
    } else {
      var rest := Insert(x, t[1..]);
      InsertSorted(x, t[1..]);
      assert Insert(x, t) == [t[0]] + rest;
      InsertPermutes(x, t[1..]);
      forall k | 0 <= k < |rest|
        ensures t[0].probability >= rest[k].probability
      {
        assert rest[k] in multiset(rest);
        assert rest[k] == x || rest[k] in multiset(t[1..]);
      }
    }
  }

  lemma {:induction false} InsertKeepsTies(x: Prediction, t: Sample, v: real)
    ensures WithProbability(Insert(x, t), v) == (if x.probability == v then [x] else []) + WithProbability(t, v)
  {
    if |t| == 0 || t[0].probability <= x.probability {
      WithProbabilityCons(x, t, v);
    } else {
      var rest := Insert(x, t[1..]);
      InsertKeepsTies(x, t[1..], v);
      assert t == [t[0]] + t[1..];
      WithProbabilityCons(t[0], rest, v);
      WithProbabilityCons(t[0], t[1..], v);
    }
  }

  /** The stable descending sort performed by `predictions.sort(...)`. */
  function SortDescending(s: Sample): (r: Sample)
    ensures |r| == |s|
  {
    if |s| == 0 then []
    else
      Insert(s[0], SortDescending(s[1..]))
  }

  /**
    The sort orders by descending probability and keeps entries of equal probability
    in their input order, which is what a stable sort with this comparator produces.
  */
  lemma {:induction false} SortDescendingIsStableSort(s: Sample)
    ensures multiset(SortDescending(s)) == multiset(s)
    ensures SortedDescending(SortDescending(s))
    ensures KeepsTiesInOrder(s, SortDescending(s))
  {
    if |s| > 0 {
      var sortedTail := SortDescending(s[1..]);
      SortDescendingIsStableSort(s[1..]);
      InsertSorted(s[0], sortedTail);
      InsertPermutes(s[0], sortedTail);
      assert s == [s[0]] + s[1..];
      forall v ensures WithProbability(SortDescending(s), v) == WithProbability(s, v) {
        InsertKeepsTies(s[0], sortedTail, v);
        WithProbabilityCons(s[0], s[1..], v);
      }
    }
  }

  /** The head of the stable descending sort is the first entry of maximal probability. */
  lemma {:induction false} SortHeadIsFirstMax(s: Sample)
    requires |s| > 0
    ensures exists i :: IsFirstMax(s, i) && s[i] == SortDescending(s)[0]
  {
    if |s| == 1 {
      assert IsFirstMax(s, 0);
    } else {
      var tail := s[1..];
      var sortedTail := SortDescending(tail);
      SortHeadIsFirstMax(tail);
      var i :| IsFirstMax(tail, i) && tail[i] == sortedTail[0];
      var head := SortDescending(s)[0];
      assert head == Insert(s[0], sortedTail)[0];
      if sortedTail[0].probability <= s[0].probability {
        assert head == s[0];
        forall j | 0 <= j < |s|
          ensures s[j].probability <= s[0].probability
        {
          if j > 0 {
            assert s[j] == tail[j - 1];
          }
        }
        assert IsFirstMax(s, 0);
      } else {
        assert head == sortedTail[0];
        forall j | 0 <= j < |s|
          ensures s[j].probability <= s[i + 1].probability
          ensures j < i + 1 ==> s[j].probability < s[i + 1].probability
        {
          if j > 0 {
            assert s[j] == tail[j - 1];
          }
        }
        assert IsFirstMax(s, i + 1);
      }
    }
  }

  /**
    The prediction `processPredictions` acts on: entry 0 after the sort, which
    `SortHeadIsFirstMax` shows to be the first entry of maximal probability.
  */
  function Top(s: Sample): Prediction
    requires |s| > 0
  {
    SortDescending(s)[0]
  }

  /** Two first-maximum indices of the same sequence coincide. */
  lemma FirstMaxUnique(s: Sample, i: int, j: int)
    requires IsFirstMax(s, i) && IsFirstMax(s, j)
    ensures i == j
  {
    assert s[i].probability <= s[j].probability <= s[i].probability;
  }

  /**
    A single left-to-right pass that moves only on a strictly larger probability; it
    picks the same entry as the sort.
  */
  method FirstMaxIndex(s: Sample) returns (best: nat)
    requires |s| > 0
    ensures IsFirstMax(s, best)
    ensures s[best] == Top(s)
  {
    best := 0;
    var k := 1;
    while k < |s|
      invariant 1 <= k <= |s|
      invariant best < k
      invariant forall j :: 0 <= j < k ==> s[j].probability <= s[best].probability
      invariant forall j :: 0 <= j < best ==> s[j].probability < s[best].probability
    {
      if s[k].probability > s[best].probability {
        best := k;
      }
      k := k + 1;
    }
    SortHeadIsFirstMax(s);
    ghost var i :| IsFirstMax(s, i) && s[i] == Top(s);
    FirstMaxUnique(s, i, best);
  }
}
