/**
  Ranking of row indices by a per-row score, highest score first.

  This is what `sorted(enumerate(scores), key=lambda x: x[1], reverse=True)` computes
  in content_based.py: Python's sort is stable also when `reverse=True`, so rows with
  equal scores keep ascending row-index order. The same ranking stands for the
  descending argsort of the predicted ratings in app.py.
*/
module Ranking {

  /** Row `i` is ranked ahead of row `j`: a strictly higher score, or an equal score
      and a smaller row index. A strict total order on the rows. */
  predicate Ahead(scores: seq<real>, i: nat, j: nat)
    requires i < |scores| && j < |scores|
  {
    scores[i] > scores[j] || (scores[i] == scores[j] && i < j)
  }

  /** `r` lists rows of `scores` in strictly ranked order (hence without repetition). */
  predicate RankedBy(scores: seq<real>, r: seq<nat>)
  {
    && (forall k :: 0 <= k < |r| ==> r[k] < |scores|)
    && (forall a, b :: 0 <= a < b < |r| ==> Ahead(scores, r[a], r[b]))
  }

  /** Inserts row `k` into a ranked list at its place. */
  function Insert(scores: seq<real>, k: nat, r: seq<nat>): (r': seq<nat>)
    requires k < |scores| && k !in r && RankedBy(scores, r)
    ensures |r'| == |r| + 1
    ensures forall x: nat :: x in r' <==> x in r || x == k
    ensures RankedBy(scores, r')
  {
    if r == [] then [k]
    else if Ahead(scores, k, r[0]) then [k] + r
    else
      var rest := Insert(scores, k, r[1..]);
      assert forall b :: 0 <= b < |rest| ==> rest[b] == k || rest[b] in r[1..];
      [r[0]] + rest
  }

  /** Rows `0 .. m-1` in ranked order. */
  function RankPrefix(scores: seq<real>, m: nat): (r: seq<nat>)
    requires m <= |scores|
    ensures |r| == m
    ensures forall x: nat :: x in r <==> x < m
    ensures RankedBy(scores, r)
  {
    if m == 0 then [] else Insert(scores, m - 1, RankPrefix(scores, m - 1))
  }

  /** All rows of `scores`, highest score first, ties in ascending row order. */
  function Rank(scores: seq<real>): (r: seq<nat>)
    ensures |r| == |scores|
    ensures forall x: nat :: x in r <==> x < |scores|
    ensures RankedBy(scores, r)
  {
    RankPrefix(scores, |scores|)
  }

  /** The ranking is a stable descending sort: every row appears exactly once, scores
      never increase along the list, and equal scores keep ascending row order. */
  lemma RankIsStableDescending(scores: seq<real>)
    ensures |Rank(scores)| == |scores|
    ensures forall x: nat :: x < |scores| ==> x in Rank(scores)
    ensures forall a, b :: 0 <= a < b < |scores| ==> Rank(scores)[a] != Rank(scores)[b]
    ensures forall a, b :: 0 <= a < b < |scores| ==>
              scores[Rank(scores)[a]] >= scores[Rank(scores)[b]]
    ensures forall a, b :: 0 <= a < b < |scores| && scores[Rank(scores)[a]] == scores[Rank(scores)[b]] ==>
              Rank(scores)[a] < Rank(scores)[b]
  {
    var r := Rank(scores);
    forall a, b | 0 <= a < b < |scores|
      ensures r[a] != r[b] && scores[r[a]] >= scores[r[b]]
    {
      assert Ahead(scores, r[a], r[b]);
    }
  }

  /** The first `k` ranked rows dominate the rest: a row outside them scores no higher
      than any row inside them. */
  lemma {:induction false} TopDominates(scores: seq<real>, k: nat, j: nat)
    requires k <= |scores| && j < |scores| && j !in Rank(scores)[..k]
    ensures forall a :: 0 <= a < k ==> scores[Rank(scores)[a]] >= scores[j]
  {
    var r := Rank(scores);
    assert j in r;
    var p :| 0 <= p < |r| && r[p] == j;
    forall a | 0 <= a < k ensures scores[r[a]] >= scores[j] {
      assert Ahead(scores, r[a], r[p]);
    }
  }
}
