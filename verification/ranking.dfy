/**
 * Python's `sorted(items, key=score, reverse=True)` on a dict's items.
 *
 * Python's sort is stable, also with `reverse=True`, so item `i` ends up
 * before item `j` exactly when its score is higher, or the scores are equal
 * and `i` came first. Items are identified by their position in the dict's
 * insertion order; `Ranked` returns those positions in sorted order.
 */
module Ranking {

  /** Item `i` is placed before item `j` by the stable descending sort. */
  predicate Before(scores: seq<int>, i: nat, j: nat)
    requires i < |scores| && j < |scores|
  {
    scores[i] > scores[j] || (scores[i] == scores[j] && i < j)
  }

  predicate InRange(scores: seq<int>, r: seq<nat>) {
    forall a :: 0 <= a < |r| ==> r[a] < |scores|
  }

  /** `r` lists item positions in the order of the stable descending sort. */
  predicate SortedBy(scores: seq<int>, r: seq<nat>)
    requires InRange(scores, r)
  {
    forall a, b :: 0 <= a < b < |r| ==> Before(scores, r[a], r[b])
  }

  /** Inserts item `x` before the first item it is to be placed before. */
  function Insert(scores: seq<int>, x: nat, r: seq<nat>): (t: seq<nat>)
    requires x < |scores| && InRange(scores, r)
    ensures InRange(scores, t)
    ensures |t| == |r| + 1
    ensures forall y :: y in t <==> y in r || y == x
  {
    if r == [] then [x]
    else if Before(scores, x, r[0]) then [x] + r
    else [r[0]] + Insert(scores, x, r[1..])
  }

  /** Insertion into a sorted list of other items keeps it sorted. */
  lemma {:induction false} InsertSorted(scores: seq<int>, x: nat, r: seq<nat>)
    requires x < |scores| && InRange(scores, r) && SortedBy(scores, r) && x !in r
    ensures SortedBy(scores, Insert(scores, x, r))
  {
    if r == [] {
    } else if Before(scores, x, r[0]) {
      var t := [x] + r;
      forall a, b | 0 <= a < b < |t| ensures Before(scores, t[a], t[b]) {
        assert t[b] == r[b - 1];
        if a == 0 {
          if b > 1 { assert Before(scores, r[0], r[b - 1]); }
        } else {
          assert t[a] == r[a - 1];
        }
      }
    } else {
      assert r[0] != x;
      assert Before(scores, r[0], x);
      InsertSorted(scores, x, r[1..]);
      var rest := Insert(scores, x, r[1..]);
      var t := [r[0]] + rest;
      forall a, b | 0 <= a < b < |t| ensures Before(scores, t[a], t[b]) {
        assert t[b] == rest[b - 1];
        if a == 0 {
          assert t[b] in rest;
          if t[b] != x {
            var k :| 0 <= k < |r[1..]| && r[1..][k] == t[b];
            assert Before(scores, r[0], r[k + 1]);
          }
        } else {
          assert t[a] == rest[a - 1];
        }
      }
    }
  }

  /** The first `n` items in sorted order. */
  function RankedUpTo(scores: seq<int>, n: nat): (r: seq<nat>)
    requires n <= |scores|
    ensures InRange(scores, r)
    ensures |r| == n
    ensures forall y :: y in r ==> y < n
    ensures forall i :: 0 <= i < n ==> i in r
  {
    if n == 0 then [] else Insert(scores, n - 1, RankedUpTo(scores, n - 1))
  }

  lemma {:induction false} RankedUpToSorted(scores: seq<int>, n: nat)
    requires n <= |scores|
    ensures SortedBy(scores, RankedUpTo(scores, n))
  {
    if n > 0 {
      RankedUpToSorted(scores, n - 1);
      InsertSorted(scores, n - 1, RankedUpTo(scores, n - 1));
    }
  }

  /** The result of the stable descending sort: every item exactly once, in `Before` order. */
  function Ranked(scores: seq<int>): (r: seq<nat>)
    ensures InRange(scores, r) && SortedBy(scores, r)
    ensures |r| == |scores|
    ensures forall i :: 0 <= i < |scores| ==> i in r
  {
    RankedUpToSorted(scores, |scores|);
    RankedUpTo(scores, |scores|)
  }

  /** `r[..k]` of a sorted list: every item taken is placed before every item left out. */
  lemma TopBeforeRest(scores: seq<int>, r: seq<nat>, k: nat, a: nat, b: nat)
    requires InRange(scores, r) && SortedBy(scores, r)
    requires a < k <= b < |r|
    ensures scores[r[a]] >= scores[r[b]]
    ensures scores[r[a]] == scores[r[b]] ==> r[a] < r[b]
  {
  }

  /** When all scores tie, the stable sort keeps the original order. */
  lemma {:induction false} UniformScoresKeepOrder(scores: seq<int>, n: nat)
    requires n <= |scores|
    requires forall i, j :: 0 <= i < j < |scores| ==> scores[i] == scores[j]
    ensures forall a :: 0 <= a < n ==> RankedUpTo(scores, n)[a] == a
  {
    if n > 0 {
      UniformScoresKeepOrder(scores, n - 1);
      var init := RankedUpTo(scores, n - 1);
      InsertLast(scores, n - 1, init);
    }
  }

  /** Inserting a tied item that comes after every listed item appends it. */
  lemma {:induction false} InsertLast(scores: seq<int>, x: nat, r: seq<nat>)
    requires x < |scores| && InRange(scores, r)
    requires forall a :: 0 <= a < |r| ==> r[a] < x && scores[r[a]] == scores[x]
    ensures Insert(scores, x, r) == r + [x]
  {
    if r != [] {
      InsertLast(scores, x, r[1..]);
      assert r == [r[0]] + r[1..];
    }
  }

  /** The sorted positions are pairwise different. */
  lemma RankedDistinct(scores: seq<int>)
    ensures forall a, b :: 0 <= a < b < |Ranked(scores)| ==> Ranked(scores)[a] != Ranked(scores)[b]
  {
    var r := Ranked(scores);
    forall a, b | 0 <= a < b < |r| ensures r[a] != r[b] {
      assert Before(scores, r[a], r[b]);
    }
  }
}
