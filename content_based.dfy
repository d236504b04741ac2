/**
  The content similarity engine of content_based.py (`ContentBasedRecommender`).

  The TF-IDF fit and `linear_kernel` are sklearn calls over floats; the model takes
  their output as given: the book-to-book cosine matrix `sim` (one row per book) and,
  for a free-text query, the row of query-to-book scores. The two `random.uniform`
  draws of `_process_scores` are parameters `u` in [0, 0.07] and `v` in [0, 0.05].
  What is modelled is what the code does with those numbers: the stable descending
  ranking, the slicing, the min/max calibration and the title lookup.
*/
module ContentBased {
  import opened Wrappers
  import opened Ranking

  /** A catalogue row as `_prepare_model` receives it: author and description may be missing. */
  datatype Book = Book(title: string, author: Option<string>, description: Option<string>)

  predicate DistinctTitles(books: seq<Book>)
  {
    forall i, j :: 0 <= i < j < |books| ==> books[i].title != books[j].title
  }

  /** The two draws of `_process_scores`: `target_max = 0.99 - u`, `target_min = 0.80 + v`. */
  predicate ValidDraws(u: real, v: real)
  {
    0.0 <= u <= 0.07 && 0.0 <= v <= 0.05
  }

  /** An `n` x `n` score matrix, as `linear_kernel(tfidf_matrix, tfidf_matrix)` returns. */
  predicate IsSquare(sim: seq<seq<real>>, n: nat)
  {
    |sim| == n && forall i :: 0 <= i < n ==> |sim[i]| == n
  }

  function SeqMax(s: seq<real>): (m: real)
    requires |s| > 0
    ensures m in s && forall k :: 0 <= k < |s| ==> s[k] <= m
  {
    if |s| == 1 then s[0]
    else
      var m := SeqMax(s[1..]);
      if s[0] >= m then s[0] else m
  }

  function SeqMin(s: seq<real>): (m: real)
    requires |s| > 0
    ensures m in s && forall k :: 0 <= k < |s| ==> m <= s[k]
  {
    if |s| == 1 then s[0]
    else
      var m := SeqMin(s[1..]);
      if s[0] <= m then s[0] else m
  }

  lemma ProductPositive(x: real, y: real)
    requires x > 0.0 && y > 0.0
    ensures x * y > 0.0
  {
  }

  /** Where `a` lies within [0, d], as a fraction of `d`. */
  function Fraction(a: real, d: real): (f: real)
    requires 0.0 <= a <= d && d > 0.0
    ensures 0.0 <= f <= 1.0 && f * d == a
    ensures a == 0.0 ==> f == 0.0
    ensures a == d ==> f == 1.0
  {
    var f := a / d;
    assert f * d == a;
    NonNegativeFactor(f, d);
    assert (1.0 - f) * d == d - a;
    NonNegativeFactor(1.0 - f, d);
    f
  }

  lemma NonNegativeFactor(x: real, d: real)
    requires d > 0.0 && x * d >= 0.0
    ensures x >= 0.0
  {
    if x < 0.0 { ProductPositive(-x, d); }
  }

  lemma NonNegativeProduct(x: real, y: real)
    requires x >= 0.0 && y >= 0.0
    ensures x * y >= 0.0
  {
    if x > 0.0 && y > 0.0 { ProductPositive(x, y); }
  }

  /** Linear remap of `s` from [lo, hi] onto [tmin, tmax]: the position of the result
      within the target range is the position of `s` within the source range. */
  function Remap(s: real, lo: real, hi: real, tmin: real, tmax: real): (c: real)
    requires lo < hi && tmin < tmax && lo <= s <= hi
    ensures tmin <= c <= tmax
    ensures (c - tmin) * (hi - lo) == (s - lo) * (tmax - tmin)
    ensures s == lo ==> c == tmin
    ensures s == hi ==> c == tmax
  {
    var d := hi - lo;
    var f := Fraction(s - lo, d);
    var w := tmax - tmin;
    NonNegativeProduct(f, w);
    NonNegativeProduct(1.0 - f, w);
    assert (1.0 - f) * w == w - f * w;
    assert (f * w) * d == (f * d) * w;
    tmin + f * w
  }

  lemma PositiveFactor(x: real, d: real)
    requires d > 0.0 && x * d > 0.0
    ensures x > 0.0
  {
    if x < 0.0 { ProductPositive(-x, d); }
  }

  /** A larger part of `d` is a larger fraction of it. */
  lemma FractionMonotone(a1: real, a2: real, d: real)
    requires 0.0 <= a1 <= d && 0.0 <= a2 <= d && d > 0.0
    ensures a1 <= a2 ==> Fraction(a1, d) <= Fraction(a2, d)
    ensures a1 < a2 ==> Fraction(a1, d) < Fraction(a2, d)
  {
    var f1 := Fraction(a1, d);
    var f2 := Fraction(a2, d);
    assert f1 * d == a1;
    assert f2 * d == a2;
    var x := f2 - f1;
    assert x * d == f2 * d - f1 * d;
    assert x * d == a2 - a1;
    if a1 < a2 {
      PositiveFactor(x, d);
    } else if a1 == a2 {
      NonNegativeFactor(x, d);
    }
  }

  lemma ScaleMonotone(f1: real, f2: real, w: real)
    requires w > 0.0
    ensures f1 <= f2 ==> f1 * w <= f2 * w
    ensures f1 < f2 ==> f1 * w < f2 * w
  {
    assert f2 * w - f1 * w == (f2 - f1) * w;
    if f1 < f2 {
      ProductPositive(f2 - f1, w);
    }
  }

  lemma RemapMonotone(s1: real, s2: real, lo: real, hi: real, tmin: real, tmax: real)
    requires lo < hi && tmin < tmax && lo <= s1 <= hi && lo <= s2 <= hi
    ensures s1 <= s2 ==> Remap(s1, lo, hi, tmin, tmax) <= Remap(s2, lo, hi, tmin, tmax)
    ensures s1 < s2 ==> Remap(s1, lo, hi, tmin, tmax) < Remap(s2, lo, hi, tmin, tmax)
  {
    var d := hi - lo;
    var w := tmax - tmin;
    var f1 := Fraction(s1 - lo, d);
    var f2 := Fraction(s2 - lo, d);
    assert Remap(s1, lo, hi, tmin, tmax) == tmin + f1 * w;
    assert Remap(s2, lo, hi, tmin, tmax) == tmin + f2 * w;
    FractionMonotone(s1 - lo, s2 - lo, d);
    ScaleMonotone(f1, f2, w);
  }

  /** The score calibration of `_process_scores` on the raw scores of one result set. */
  function Calibrated(raw: seq<real>, u: real, v: real): (c: seq<real>)
    requires ValidDraws(u, v)
    ensures |c| == |raw|
    ensures forall k :: 0 <= k < |c| ==> 0.80 <= c[k] <= 0.99
    ensures forall a, b :: 0 <= a < |raw| && 0 <= b < |raw| && raw[a] <= raw[b] ==> c[a] <= c[b]
    ensures forall a, b :: 0 <= a < |raw| && 0 <= b < |raw| && raw[a] < raw[b] ==> c[a] < c[b]
    ensures (forall a, b :: 0 <= a < |raw| && 0 <= b < |raw| ==> raw[a] == raw[b]) ==>
              forall k :: 0 <= k < |c| ==> c[k] == 0.95
    ensures |raw| > 0 && SeqMin(raw) < SeqMax(raw) ==>
              forall k :: 0 <= k < |raw| ==>
                (raw[k] == SeqMin(raw) ==> c[k] == 0.80 + v) &&
                (raw[k] == SeqMax(raw) ==> c[k] == 0.99 - u)
    ensures |raw| > 0 && SeqMin(raw) < SeqMax(raw) ==>
              forall k :: 0 <= k < |raw| ==> c[k] == Remap(raw[k], SeqMin(raw), SeqMax(raw), 0.80 + v, 0.99 - u)
  {
    if raw == [] then []
    else
      var hi, lo := SeqMax(raw), SeqMin(raw);
      if hi == lo then seq(|raw|, k => 0.95)
      else
        RemapAll(raw, lo, hi, 0.80 + v, 0.99 - u)
  }

  /** `Remap` applied to every score of `raw`, all of which lie in [lo, hi]. */
  function RemapAll(raw: seq<real>, lo: real, hi: real, tmin: real, tmax: real): (c: seq<real>)
    requires lo < hi && tmin < tmax
    requires forall k :: 0 <= k < |raw| ==> lo <= raw[k] <= hi
    ensures |c| == |raw|
    ensures forall k :: 0 <= k < |raw| ==> c[k] == Remap(raw[k], lo, hi, tmin, tmax)
    ensures forall a, b :: 0 <= a < |raw| && 0 <= b < |raw| ==>
              (raw[a] <= raw[b] ==> c[a] <= c[b]) && (raw[a] < raw[b] ==> c[a] < c[b])
  {
    var c := seq(|raw|, k requires 0 <= k < |raw| => Remap(raw[k], lo, hi, tmin, tmax));
    forall a, b | 0 <= a < |raw| && 0 <= b < |raw|
      ensures (raw[a] <= raw[b] ==> c[a] <= c[b]) && (raw[a] < raw[b] ==> c[a] < c[b])
    {
      RemapMonotone(raw[a], raw[b], lo, hi, tmin, tmax);
    }
    c
  }

  /** `list(enumerate(row))` taken at the rows `ids`, in that order. */
  function Pairs(row: seq<real>, ids: seq<nat>): (p: seq<(nat, real)>)
    requires forall k :: 0 <= k < |ids| ==> ids[k] < |row|
    ensures |p| == |ids| && forall k :: 0 <= k < |ids| ==> p[k] == (ids[k], row[ids[k]])
  {
    seq(|ids|, k requires 0 <= k < |ids| => (ids[k], row[ids[k]]))
  }

  /** `_process_scores`: the title of each selected row, with its calibrated score, in the
      order of the selection. */
  function ProcessScores(titles: seq<string>, simScores: seq<(nat, real)>, u: real, v: real)
    : (r: seq<(string, real)>)
    requires ValidDraws(u, v)
    requires forall k :: 0 <= k < |simScores| ==> simScores[k].0 < |titles|
    ensures |r| == |simScores|
    ensures forall k :: 0 <= k < |r| ==>
              r[k].0 == titles[simScores[k].0] && r[k].1 == Calibrated(Seconds(simScores), u, v)[k]
    ensures forall k :: 0 <= k < |r| ==> 0.80 <= r[k].1 <= 0.99
  {
    var c := Calibrated(Seconds(simScores), u, v);
    seq(|simScores|, k requires 0 <= k < |simScores| => (titles[simScores[k].0], c[k]))
  }

  /** A selection taken from a ranking keeps its calibrated scores in non-increasing order. */
  lemma {:induction false} ProcessedScoresDescend(titles: seq<string>, row: seq<real>, ids: seq<nat>, u: real, v: real)
    requires ValidDraws(u, v) && |titles| == |row| && RankedBy(row, ids)
    ensures var r := ProcessScores(titles, Pairs(row, ids), u, v);
      && (forall k :: 0 <= k < |r| ==> 0.80 <= r[k].1 <= 0.99)
      && (forall a, b :: 0 <= a < b < |r| ==> r[b].1 <= r[a].1)
  {
    var p := Pairs(row, ids);
    var raw := Seconds(p);
    var c := Calibrated(raw, u, v);
    forall a, b | 0 <= a < b < |ids| ensures raw[b] <= raw[a] {
      assert Ahead(row, ids[a], ids[b]);
    }
  }

  /** `s` without the element `x`, order kept. */
  function Without(s: seq<nat>, x: nat): (r: seq<nat>)
    ensures forall y :: y in r <==> y in s && y != x
    ensures x !in s ==> r == s
    ensures x in s && (forall i, j :: 0 <= i < j < |s| ==> s[i] != s[j]) ==> |r| == |s| - 1
  {
    if s == [] then []
    else if s[0] == x then Without(s[1..], x)
    else [s[0]] + Without(s[1..], x)
  }

  /** Removing a row from a ranking leaves a ranking. */
  lemma {:induction false} WithoutKeepsRanking(scores: seq<real>, s: seq<nat>, x: nat)
    requires RankedBy(scores, s)
    ensures RankedBy(scores, Without(s, x))
  {
    if s != [] {
      var tail := s[1..];
      assert RankedBy(scores, tail) by {
        forall a, b | 0 <= a < b < |tail| ensures Ahead(scores, tail[a], tail[b]) {
          assert tail[a] == s[a + 1] && tail[b] == s[b + 1];
        }
      }
      WithoutKeepsRanking(scores, tail, x);
      if s[0] != x {
        var rest := Without(tail, x);
        forall b | 0 <= b < |rest| ensures rest[b] < |scores| && Ahead(scores, s[0], rest[b]) {
          assert rest[b] in tail;
          var j :| 0 <= j < |tail| && tail[j] == rest[b];
          assert Ahead(scores, s[0], s[j + 1]);
        }
      }
    }
  }

  /** The rows `get_recommendations` keeps: `sorted(...)[1 : top_n + 1]`, the ranking
      without its first entry, cut to `top_n`. */
  function DropFirstSelection(row: seq<real>, topN: nat): (kept: seq<nat>)
    requires |row| > 0
    ensures |kept| == Min(topN, |row| - 1)
    ensures forall k :: 0 <= k < |kept| ==> kept[k] == Rank(row)[k + 1]
    ensures RankedBy(row, kept)
  {
    var ranked := Rank(row);
    ranked[1..Min(topN + 1, |ranked|)]
  }

  /** The ranking with row `self` removed, cut to `top_n`. */
  function SelfExcludedSelection(row: seq<real>, self: nat, topN: nat): (kept: seq<nat>)
    requires self < |row|
    ensures |kept| == Min(topN, |row| - 1)
    ensures forall k :: 0 <= k < |kept| ==> kept[k] != self
    ensures RankedBy(row, kept)
    ensures forall j, k :: 0 <= j < |row| && j != self && j !in kept && 0 <= k < |kept| ==>
              Ahead(row, kept[k], j)
    ensures kept == Without(Rank(row), self)[..Min(topN, |row| - 1)]
  {
    var ranked := Rank(row);
    RankIsStableDescending(row);
    var others := Without(ranked, self);
    WithoutKeepsRanking(row, ranked, self);
    var kept := others[..Min(topN, |others|)];
    assert forall k :: 0 <= k < |kept| ==> kept[k] in others;
    assert forall j :: 0 <= j < |row| && j != self ==> j in others by {
      forall j | 0 <= j < |row| && j != self ensures j in others {
        assert j in ranked;
      }
    }
    PrefixDominates(row, others, |kept|);
    kept
  }

  /** In a ranking, the first `n` entries are ahead of every entry after them. */
  lemma PrefixDominates(scores: seq<real>, r: seq<nat>, n: nat)
    requires RankedBy(scores, r) && n <= |r|
    ensures forall j, k :: j in r && j !in r[..n] && 0 <= k < n ==> Ahead(scores, r[k], j)
  {
    forall j, k | j in r && j !in r[..n] && 0 <= k < n ensures Ahead(scores, r[k], j) {
      var m :| 0 <= m < |r| && r[m] == j;
      assert forall i :: 0 <= i < n ==> r[..n][i] == r[i];
      assert m >= n;
    }
  }

  /** When row `self` scores strictly above every other row, dropping the first-ranked
      entry and removing `self` select the same rows. */
  lemma SelectionsAgreeWhenSelfScoresHighest(row: seq<real>, self: nat, topN: nat)
    requires self < |row|
    requires forall j :: 0 <= j < |row| && j != self ==> row[j] < row[self]
    ensures DropFirstSelection(row, topN) == SelfExcludedSelection(row, self, topN)
  {
    var ranked := Rank(row);
    RankIsStableDescending(row);
    assert self in ranked;
    assert ranked[0] == self;
    assert ranked == [self] + ranked[1..];
    assert self !in ranked[1..];
    assert Without(ranked, self) == ranked[1..];
  }

  /** Under an index that sends every title to its own row, rows other than `self`
      carry titles other than the title of `self`. */
  lemma OtherRowsOtherTitles(titles: seq<string>, indices: map<string, nat>, self: nat, rows: seq<nat>)
    requires forall i :: 0 <= i < |titles| ==> titles[i] in indices && indices[titles[i]] == i
    requires self < |titles|
    requires forall k :: 0 <= k < |rows| ==> rows[k] < |titles| && rows[k] != self
    ensures forall k :: 0 <= k < |rows| ==> titles[rows[k]] != titles[self]
  {
    forall k | 0 <= k < |rows| ensures titles[rows[k]] != titles[self] {
      assert indices[titles[rows[k]]] == rows[k];
    }
  }

  /** The engine after `_prepare_model`: the `title`, `author`, `description` and
      `content` columns of `books_df`, and the title -> row index. */
  class ContentBasedRecommender {
    var titles: seq<string>
    var authors: seq<string>
    var descriptions: seq<string>
    var content: seq<string>
    var indices: map<string, nat>

    ghost predicate Valid()
      reads this
    {
      && |authors| == |titles| && |descriptions| == |titles| && |content| == |titles|
      && (forall i :: 0 <= i < |titles| ==> content[i] == authors[i] + " " + descriptions[i])
      && (forall t :: t in indices <==> t in titles)
      && (forall i :: 0 <= i < |titles| ==> titles[i] in indices && indices[titles[i]] == i)
    }

    /** `_prepare_model`: missing authors and descriptions become "", each book's document
        is `author + " " + description`, and every title is indexed by its row. */
    constructor (books: seq<Book>)
      requires DistinctTitles(books)
      ensures Valid()
      ensures |titles| == |books|
      ensures forall i :: 0 <= i < |books| ==>
                && titles[i] == books[i].title
                && authors[i] == books[i].author.GetOr("")
                && descriptions[i] == books[i].description.GetOr("")
                && content[i] == books[i].author.GetOr("") + " " + books[i].description.GetOr("")
    {
      var n := |books|;
      var ds := seq(n, i requires 0 <= i < n => books[i].description.GetOr(""));
      var au := seq(n, i requires 0 <= i < n => books[i].author.GetOr(""));
      var ts := seq(n, i requires 0 <= i < n => books[i].title);
      descriptions := ds;
      authors := au;
      content := seq(n, i requires 0 <= i < n => au[i] + " " + ds[i]);
      titles := ts;
      indices := map i | 0 <= i < n :: ts[i] := i;
    }

    /** `get_recommendations` as written: rank the query row of the cosine matrix, drop
        the first-ranked entry, keep at most `top_n`. */
    function GetRecommendations(title: string, topN: nat, sim: seq<seq<real>>, u: real, v: real)
      : (r: seq<(string, real)>)
      reads this
      requires Valid() && IsSquare(sim, |titles|) && ValidDraws(u, v)
      ensures title !in titles ==> r == []
      ensures title in titles ==>
                && |r| == Min(topN, |titles| - 1)
                && (forall k :: 0 <= k < |r| ==> r[k].0 == titles[Rank(sim[indices[title]])[k + 1]])
                && r == ProcessScores(titles, Pairs(sim[indices[title]], DropFirstSelection(sim[indices[title]], topN)), u, v)
      ensures forall k :: 0 <= k < |r| ==> 0.80 <= r[k].1 <= 0.99
      ensures forall a, b :: 0 <= a < b < |r| ==> r[b].1 <= r[a].1
    {
      if title !in indices then []
      else
        var row := sim[indices[title]];
        var kept := DropFirstSelection(row, topN);
        ProcessedScoresDescend(titles, row, kept, u, v);
        ProcessScores(titles, Pairs(row, kept), u, v)
    }

    /** `recommend_by_description`: rank the query-to-book scores and keep the first
        `top_n`, with no exclusion. */
    function RecommendByDescription(queryScores: seq<real>, topN: nat, u: real, v: real)
      : (r: seq<(string, real)>)
      reads this
      requires Valid() && |queryScores| == |titles| && ValidDraws(u, v)
      ensures |r| == Min(topN, |titles|)
      ensures forall k :: 0 <= k < |r| ==> r[k].0 == titles[Rank(queryScores)[k]]
      ensures r == ProcessScores(titles, Pairs(queryScores, Rank(queryScores)[..Min(topN, |titles|)]), u, v)
      ensures forall k :: 0 <= k < |r| ==> 0.80 <= r[k].1 <= 0.99
      ensures forall a, b :: 0 <= a < b < |r| ==> r[b].1 <= r[a].1
    {
      var ranked := Rank(queryScores);
      var kept := ranked[..Min(topN, |ranked|)];
      ProcessedScoresDescend(titles, queryScores, kept, u, v);
      ProcessScores(titles, Pairs(queryScores, kept), u, v)
    }

    /** Book-to-book recommendations that never contain the query book: the query row is
        removed from the ranking instead of the first-ranked entry. */
    function GetRecommendationsExcludingSelf(title: string, topN: nat, sim: seq<seq<real>>, u: real, v: real)
      : (r: seq<(string, real)>)
      reads this
      requires Valid() && IsSquare(sim, |titles|) && ValidDraws(u, v)
      ensures title !in titles ==> r == []
      ensures title in titles ==>
                var kept := SelfExcludedSelection(sim[indices[title]], indices[title], topN);
                && |r| == Min(topN, |titles| - 1)
                && (forall k :: 0 <= k < |r| ==> r[k].0 == titles[kept[k]])
                && r == ProcessScores(titles, Pairs(sim[indices[title]], kept), u, v)
      ensures forall k :: 0 <= k < |r| ==> r[k].0 != title
      ensures forall k :: 0 <= k < |r| ==> 0.80 <= r[k].1 <= 0.99
      ensures forall a, b :: 0 <= a < b < |r| ==> r[b].1 <= r[a].1
    {
      if title !in indices then []
      else
        var idx := indices[title];
        var row := sim[idx];
        var kept := SelfExcludedSelection(row, idx, topN);
        OtherRowsOtherTitles(titles, indices, idx, kept);
        ProcessedScoresDescend(titles, row, kept, u, v);
        ProcessScores(titles, Pairs(row, kept), u, v)
    }
  }

  /** When the query book scores strictly above every other book against itself, the
      as-written recommendations and the self-excluding ones coincide. */
  lemma AsWrittenAgreesWhenSelfScoresHighest(
    rec: ContentBasedRecommender, title: string, topN: nat, sim: seq<seq<real>>, u: real, v: real)
    requires rec.Valid() && IsSquare(sim, |rec.titles|) && ValidDraws(u, v)
    requires title in rec.indices
    requires forall j :: 0 <= j < |rec.titles| && j != rec.indices[title] ==>
               sim[rec.indices[title]][j] < sim[rec.indices[title]][rec.indices[title]]
    ensures rec.GetRecommendations(title, topN, sim, u, v) ==
            rec.GetRecommendationsExcludingSelf(title, topN, sim, u, v)
  {
    SelectionsAgreeWhenSelfScoresHighest(sim[rec.indices[title]], rec.indices[title], topN);
  }

  /** Two books with the same content tie at cosine 1.0; asking for books like the later
      one returns that very book, because the earlier row takes the dropped first slot. */
  lemma QueryBookReturnedOnTie(rec: ContentBasedRecommender)
    requires rec.Valid() && rec.titles == ["A", "B"]
    ensures rec.GetRecommendations("B", 5, [[1.0, 1.0], [1.0, 1.0]], 0.0, 0.0) == [("B", 0.95)]
  {
    var row := [1.0, 1.0];
    assert rec.indices["B"] == 1;
    assert RankPrefix(row, 0) == [];
    assert RankPrefix(row, 1) == Insert(row, 0, []) == [0];
    assert !Ahead(row, 1, 0);
    assert Insert(row, 1, [0]) == [0] + Insert(row, 1, []) == [0, 1];
    assert Rank(row) == [0, 1];
    assert Pairs(row, [1]) == [(1, 1.0)];
    assert Seconds([(1, 1.0)]) == [1.0];
    assert Calibrated([1.0], 0.0, 0.0) == [0.95];
  }
}
