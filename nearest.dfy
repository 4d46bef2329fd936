/**
 * `arr.sort((a, b) => Math.abs(a.idx - attIdx) - Math.abs(b.idx - attIdx))`:
 * matches ordered by their distance from the word "attendance". The
 * comparator only looks at the distance; `Array.prototype.sort` is stable, so
 * matches at the same distance keep their document order.
 */
module Nearest {
  import opened Numeric

  function Dist(m: Match, anchor: nat): nat
  {
    if m.at >= anchor then m.at - anchor else anchor - m.at
  }

  /** a comes before b: nearer the anchor, or as near and earlier in the document. */
  predicate Before(a: Match, b: Match, anchor: nat)
  {
    Dist(a, anchor) < Dist(b, anchor) || (Dist(a, anchor) == Dist(b, anchor) && a.at < b.at)
  }

  predicate Increasing(ms: seq<Match>)
  {
    forall k, k' | 0 <= k < k' < |ms| :: ms[k].at < ms[k'].at
  }

  predicate SortedNearest(ms: seq<Match>, anchor: nat)
  {
    forall k, k' | 0 <= k < k' < |ms| :: Before(ms[k], ms[k'], anchor)
  }

  /** Insert x after every element at most as far from the anchor as x. */
  function InsertByDistance(sorted: seq<Match>, x: Match, anchor: nat): (r: seq<Match>)
    ensures multiset(r) == multiset(sorted) + multiset{x}
  {
    if sorted == [] then [x]
    else if Dist(sorted[0], anchor) <= Dist(x, anchor) then
      assert sorted == [sorted[0]] + sorted[1..];
      [sorted[0]] + InsertByDistance(sorted[1..], x, anchor)
    else [x] + sorted
  }

  /** The stable sort by distance, as an insertion sort. */
  function SortByDistance(ms: seq<Match>, anchor: nat): (r: seq<Match>)
    ensures multiset(r) == multiset(ms)
  {
    if ms == [] then []
    else
      assert ms == ms[..|ms| - 1] + [ms[|ms| - 1]];
      InsertByDistance(SortByDistance(ms[..|ms| - 1], anchor), ms[|ms| - 1], anchor)
  }

  lemma {:induction false} InsertKeepsSorted(sorted: seq<Match>, x: Match, anchor: nat)
    requires SortedNearest(sorted, anchor)
    requires forall k | 0 <= k < |sorted| :: sorted[k].at < x.at
    ensures SortedNearest(InsertByDistance(sorted, x, anchor), anchor)
  {
    var r := InsertByDistance(sorted, x, anchor);
    if sorted == [] {
    } else if Dist(sorted[0], anchor) <= Dist(x, anchor) {
      var rest := sorted[1..];
      var ins := InsertByDistance(rest, x, anchor);
      InsertKeepsSorted(rest, x, anchor);
      assert r == [sorted[0]] + ins;
      forall k' | 0 <= k' < |ins|
        ensures Before(sorted[0], ins[k'], anchor)
      {
        assert ins[k'] in multiset(ins);
        assert ins[k'] in multiset(rest) || ins[k'] == x;
        if ins[k'] != x {
          var j :| 0 <= j < |rest| && rest[j] == ins[k'];
          assert rest[j] == sorted[j + 1];
        }
      }
      forall k, k' | 0 <= k < k' < |r|
        ensures Before(r[k], r[k'], anchor)
      {
        assert r[k'] == ins[k' - 1];
        if k > 0 {
          assert r[k] == ins[k - 1];
        }
      }
    } else {
      assert r == [x] + sorted;
      forall k' | 0 <= k' < |sorted|
        ensures Before(x, sorted[k'], anchor)
      {
        if k' > 0 {
          assert Before(sorted[0], sorted[k'], anchor);
        }
      }
      forall k, k' | 0 <= k < k' < |r|
        ensures Before(r[k], r[k'], anchor)
      {
        assert r[k'] == sorted[k' - 1];
        if k > 0 {
          assert r[k] == sorted[k - 1];
        }
      }
    }
  }

  /** Sorting matches given in document order yields the (distance, position) order. */
  lemma {:induction false} SortedByDistance(ms: seq<Match>, anchor: nat)
    requires Increasing(ms)
    ensures SortedNearest(SortByDistance(ms, anchor), anchor)
    ensures multiset(SortByDistance(ms, anchor)) == multiset(ms)
  {
    if ms != [] {
      var init := ms[..|ms| - 1];
      var last := ms[|ms| - 1];
      var sortedInit := SortByDistance(init, anchor);
      SortedByDistance(init, anchor);
      forall k | 0 <= k < |sortedInit|
        ensures sortedInit[k].at < last.at
      {
        assert sortedInit[k] in multiset(init);
        var j :| 0 <= j < |init| && init[j] == sortedInit[k];
        assert ms[j] == init[j];
      }
      InsertKeepsSorted(sortedInit, last, anchor);
    }
  }

  /** Every element of the sorted list comes from the input. */
  lemma SortedFrom(ms: seq<Match>, anchor: nat, k: nat)
    requires k < |SortByDistance(ms, anchor)|
    ensures SortByDistance(ms, anchor)[k] in ms
  {
    assert SortByDistance(ms, anchor)[k] in multiset(SortByDistance(ms, anchor));
  }

  /** Every input element has a place in the sorted list. */
  lemma SortedPlace(ms: seq<Match>, anchor: nat, o: Match) returns (j: nat)
    requires o in ms
    ensures j < |SortByDistance(ms, anchor)| && SortByDistance(ms, anchor)[j] == o
  {
    assert o in multiset(SortByDistance(ms, anchor));
    j :| 0 <= j < |SortByDistance(ms, anchor)| && SortByDistance(ms, anchor)[j] == o;
  }
}
