/**
  The decision logic of app.py: whether `train_nn_model` reuses the saved checkpoint or
  retrains, how the Neural Picks tab turns predicted ratings into the top three books,
  which author `get_user_favorite_genre` reports, and the pure helpers of
  `render_book_card` (rating colour band, genre tags, description truncation).
*/
module App {
  import opened Wrappers
  import opened Ranking
  import opened Preprocessing
  import opened Strings
  import opened NeuralNetwork

  // ---------------------------------------------------------------------------
  // train_nn_model
  // ---------------------------------------------------------------------------

  /** Number of training epochs `train_nn_model` asks `train_model` for. */
  const Epochs: nat := 5

  /** What reading `model_metadata.json` gave: `Unreadable` when opening, parsing or
      `.get` raised; otherwise the value of its `num_ratings` key (`None` when the key is
      absent or its value is not an integer). */
  datatype Metadata = Unreadable | Read(numRatings: Option<int>)

  /** How a call of `train_nn_model` ends. `InsufficientData`: building the shuffled
      loader over an empty ratings frame raises, and nothing is trained or saved. */
  datatype TrainOutcome =
    | Reused
    | Retrained(modelSaved: bool, recordedCount: Option<nat>)
    | InsufficientData

  /** `train_nn_model`. The file system and torch are parameters: whether the checkpoint
      and the metadata file exist, what the metadata read gave, and whether loading the
      checkpoint, saving it and writing the metadata succeed.

      The checkpoint is reused exactly when no retrain is forced, it exists and loads,
      and either there is no metadata file or the metadata records the current number of
      ratings; a stale or unreadable record forces a retrain. A retrain records the
      current count whenever the metadata write succeeds, and the progress bar ends at
      100% on every path that returns a model. */
  method TrainNNModel(
    numRatings: nat, forceRetrain: bool, modelExists: bool, metaExists: bool, meta: Metadata,
    loadOk: bool, modelSaveOk: bool, metaWriteOk: bool, hasCallback: bool)
    returns (outcome: TrainOutcome, progress: seq<(nat, nat)>)
    ensures outcome.Reused? <==>
              !forceRetrain && modelExists && loadOk && (!metaExists || meta == Read(Some(numRatings)))
    ensures outcome.InsufficientData? <==> !outcome.Reused? && numRatings == 0
    ensures outcome.Retrained? ==> outcome.modelSaved == modelSaveOk
    ensures outcome.Retrained? && metaWriteOk ==> outcome.recordedCount == Some(numRatings)
    ensures outcome.Retrained? && !metaWriteOk ==> outcome.recordedCount == None
    ensures !hasCallback || outcome.InsufficientData? ==> progress == []
    ensures hasCallback && outcome.Reused? ==> progress == [(Epochs, Epochs)]
    ensures hasCallback && outcome.Retrained? ==>
              |progress| == Epochs && forall e :: 0 <= e < Epochs ==> progress[e] == (e + 1, Epochs)
    ensures hasCallback && !outcome.InsufficientData? ==> progress[|progress| - 1] == (Epochs, Epochs)
  {
    var shouldRetrain := forceRetrain;
    if !shouldRetrain && modelExists && metaExists {
      match meta {
        case Unreadable =>
          shouldRetrain := true;
        case Read(recorded) =>
          if recorded != Some(numRatings) {
            shouldRetrain := true;
          }
      }
    }
    if !shouldRetrain && modelExists && loadOk {
      progress := if hasCallback then [(Epochs, Epochs)] else [];
      return Reused, progress;
    }
    if numRatings == 0 {
      return InsufficientData, [];
    }
    progress := TrainModel(Epochs, hasCallback);
    var recorded := if metaWriteOk then Some(numRatings) else None;
    outcome := Retrained(modelSaveOk, recorded);
  }

  // ---------------------------------------------------------------------------
  // Neural Picks
  // ---------------------------------------------------------------------------

  predicate Injective(m: map<int, nat>)
  {
    forall x, y :: x in m && y in m && x != y ==> m[x] != m[y]
  }

  /** `{v: k for k, v in m.items()}` over an injective map: its exact inverse. */
  function Inverse(m: map<int, nat>): (inv: map<nat, int>)
    requires Injective(m)
    ensures inv.Keys == m.Values
    ensures forall x :: x in m ==> m[x] in inv && inv[m[x]] == x
    ensures forall j :: j in inv ==> inv[j] in m && m[inv[j]] == j
  {
    map x | x in m :: m[x] := x
  }

  /** Every encoded index `0 .. |bookMap|-1` decodes back to a book. */
  lemma InverseCoversIndices(bookMap: map<int, nat>)
    requires IsIndexMap(bookMap)
    ensures Injective(bookMap)
    ensures forall j: nat :: j < |bookMap| ==> j in Inverse(bookMap)
  {
  }

  /** Lines 1059-1079 of the Neural Picks tab: predictions are made for the books in
      encoded order `0 .. n-1`, the three highest are taken (`argsort(descending=True)[:3]`),
      and their indices are decoded back to book ids with the inverted encoder. */
  function TopPicks(bookMap: map<int, nat>, predictions: seq<real>): seq<(int, real)>
    requires IsIndexMap(bookMap) && |predictions| == |bookMap|
  {
    var top: seq<nat> := Rank(predictions)[..Min(3, |predictions|)];
    InverseCoversIndices(bookMap);
    var inv := Inverse(bookMap);
    seq(|top|, k requires 0 <= k < |top| => (inv[top[k]], predictions[top[k]]))
  }

  /** The Neural Picks are the best books for the user: at most three distinct books,
      each shown with its own prediction, in non-increasing order, and no book left out
      is predicted higher than one shown. */
  lemma TopPicksAreBest(bookMap: map<int, nat>, predictions: seq<real>)
    requires IsIndexMap(bookMap) && |predictions| == |bookMap|
    ensures var picks := TopPicks(bookMap, predictions);
      && |picks| == Min(3, |bookMap|)
      && (forall k :: 0 <= k < |picks| ==>
            picks[k].0 in bookMap && bookMap[picks[k].0] < |predictions| &&
            picks[k].1 == predictions[bookMap[picks[k].0]])
      && (forall a, b :: 0 <= a < b < |picks| ==> picks[a].0 != picks[b].0 && picks[a].1 >= picks[b].1)
      && (forall x :: x in bookMap && (forall k :: 0 <= k < |picks| ==> picks[k].0 != x) ==>
            bookMap[x] < |predictions| &&
            forall k :: 0 <= k < |picks| ==> predictions[bookMap[x]] <= picks[k].1)
  {
    InverseCoversIndices(bookMap);
    var top: seq<nat> := Rank(predictions)[..Min(3, |predictions|)];
    var inv := Inverse(bookMap);
    var picks := TopPicks(bookMap, predictions);
    assert forall k :: 0 <= k < |top| ==> top[k] < |bookMap|;
    assert |picks| == |top| && forall k :: 0 <= k < |top| ==> picks[k] == (inv[top[k]], predictions[top[k]]);
    forall k | 0 <= k < |picks| ensures picks[k].0 in bookMap && bookMap[picks[k].0] == top[k] {
      assert top[k] in inv;
    }
    PicksDescend(bookMap, predictions, top, inv, picks);
    forall x | x in bookMap && (forall k :: 0 <= k < |picks| ==> picks[k].0 != x)
      ensures bookMap[x] < |predictions| &&
              forall k :: 0 <= k < |picks| ==> predictions[bookMap[x]] <= picks[k].1
    {
      PicksDominate(bookMap, predictions, top, inv, picks, x);
    }
  }

  /** The decoded picks are distinct books in non-increasing order of prediction. */
  lemma PicksDescend(
    bookMap: map<int, nat>, predictions: seq<real>, top: seq<nat>, inv: map<nat, int>,
    picks: seq<(int, real)>)
    requires Injective(bookMap) && inv == Inverse(bookMap)
    requires top == Rank(predictions)[..Min(3, |predictions|)]
    requires forall k :: 0 <= k < |top| ==> top[k] in inv
    requires |picks| == |top| &&
             forall k :: 0 <= k < |top| ==> picks[k] == (inv[top[k]], predictions[top[k]])
    ensures forall a, b :: 0 <= a < b < |picks| ==> picks[a].0 != picks[b].0 && picks[a].1 >= picks[b].1
  {
    var r := Rank(predictions);
    forall a, b | 0 <= a < b < |picks| ensures picks[a].0 != picks[b].0 && picks[a].1 >= picks[b].1 {
      assert top[a] == r[a] && top[b] == r[b];
      assert Ahead(predictions, r[a], r[b]);
      assert bookMap[inv[top[a]]] == top[a] && bookMap[inv[top[b]]] == top[b];
    }
  }

  /** A book that is not picked is predicted no higher than any picked one. */
  lemma PicksDominate(
    bookMap: map<int, nat>, predictions: seq<real>, top: seq<nat>, inv: map<nat, int>,
    picks: seq<(int, real)>, x: int)
    requires IsIndexMap(bookMap) && |predictions| == |bookMap| && Injective(bookMap)
    requires inv == Inverse(bookMap)
    requires top == Rank(predictions)[..Min(3, |predictions|)]
    requires forall k :: 0 <= k < |top| ==> top[k] in inv
    requires |picks| == |top| &&
             forall k :: 0 <= k < |top| ==> picks[k] == (inv[top[k]], predictions[top[k]])
    requires x in bookMap && forall k :: 0 <= k < |picks| ==> picks[k].0 != x
    ensures bookMap[x] < |predictions|
    ensures forall k :: 0 <= k < |picks| ==> predictions[bookMap[x]] <= picks[k].1
  {
    var j := bookMap[x];
    assert j in inv && inv[j] == x;
    assert j !in top by {
      forall k | 0 <= k < |top| ensures top[k] != j {
        assert picks[k].0 == inv[top[k]];
      }
    }
    TopDominates(predictions, |top|, j);
  }

  /** The Neural Picks tab for `userId`: a user unknown to the encoder gets the cold-start
      warning (`None`); any other user gets the top picks, whatever the user. */
  function NeuralPicks(
    userId: int, userMap: map<int, nat>, bookMap: map<int, nat>, predictions: seq<real>)
    : (r: Option<seq<(int, real)>>)
    requires IsIndexMap(bookMap) && |predictions| == |bookMap|
    ensures r.None? <==> userId !in userMap
    ensures r.Some? ==> r.value == TopPicks(bookMap, predictions) && |r.value| == Min(3, |bookMap|)
  {
    if userId !in userMap then None
    else
      TopPicksAreBest(bookMap, predictions);
      Some(TopPicks(bookMap, predictions))
  }

  // ---------------------------------------------------------------------------
  // get_user_favorite_genre
  // ---------------------------------------------------------------------------

  /** The two columns of the books frame the favourite-author query uses. */
  datatype CatalogRow = CatalogRow(bookId: int, author: string)

  /** Rating row `i` of `userId` and catalogue row `b` of the same book: one row of
      `user_ratings.merge(books, on="book_id")`. */
  predicate Matches(userId: int, ratings: seq<RatingRow>, books: seq<CatalogRow>, i: int, b: int)
  {
    0 <= i < |ratings| && 0 <= b < |books| &&
    ratings[i].userId == userId && books[b].bookId == ratings[i].bookId
  }

  /** The catalogue rows of one book, paired with one rating. */
  function JoinOne(rating: int, bookId: int, books: seq<CatalogRow>): (j: seq<(int, string)>)
    ensures forall p :: p in j <==>
              exists b :: 0 <= b < |books| && books[b].bookId == bookId && p == (rating, books[b].author)
    ensures |books| == 1 ==> j == (if books[0].bookId == bookId then [(rating, books[0].author)] else [])
  {
    if books == [] then []
    else
      var rest := JoinOne(rating, bookId, books[..|books| - 1]);
      var last := books[|books| - 1];
      assert forall b :: 0 <= b < |books| - 1 ==> books[..|books| - 1][b] == books[b];
      if last.bookId == bookId then rest + [(rating, last.author)] else rest
  }

  /** `(rating, author)` for every row of the inner join of the user's ratings with the
      books frame, in rating order. */
  function UserBooks(userId: int, ratings: seq<RatingRow>, books: seq<CatalogRow>): (j: seq<(int, string)>)
    ensures forall p :: p in j <==>
              exists i, b :: Matches(userId, ratings, books, i, b) && p == (ratings[i].rating, books[b].author)
  {
    if ratings == [] then []
    else
      var front := ratings[..|ratings| - 1];
      var last := ratings[|ratings| - 1];
      var rest := UserBooks(userId, front, books);
      var here := if last.userId == userId then JoinOne(last.rating, last.bookId, books) else [];
      assert forall i, b :: Matches(userId, front, books, i, b) ==> Matches(userId, ratings, books, i, b);
      assert forall i, b :: Matches(userId, ratings, books, i, b) && i < |ratings| - 1 ==>
               Matches(userId, front, books, i, b);
      rest + here
  }

  /** The join of a one-row ratings frame: that row's matches, or nothing for another user. */
  lemma UserBooksOfOneRating(userId: int, r: RatingRow, books: seq<CatalogRow>)
    ensures UserBooks(userId, [r], books) == if r.userId == userId then JoinOne(r.rating, r.bookId, books) else []
  {
    assert [r][..0] == [];
  }

  /** The join is taken rating row by rating row: joining two frames one after the other
      is joining each and concatenating, so duplicates are kept and rating order holds. */
  lemma {:induction false} UserBooksAppend(userId: int, a: seq<RatingRow>, b: seq<RatingRow>, books: seq<CatalogRow>)
    ensures UserBooks(userId, a + b, books) == UserBooks(userId, a, books) + UserBooks(userId, b, books)
    decreases |b|
  {
    if b == [] {
      assert a + b == a;
    } else {
      var b' := b[..|b| - 1];
      assert (a + b)[..|a + b| - 1] == a + b';
      assert (a + b)[|a + b| - 1] == b[|b| - 1];
      UserBooksAppend(userId, a, b', books);
    }
  }

  /** Within one rating, the matches come catalogue row by catalogue row. */
  lemma {:induction false} JoinOneAppend(rating: int, bookId: int, a: seq<CatalogRow>, b: seq<CatalogRow>)
    ensures JoinOne(rating, bookId, a + b) == JoinOne(rating, bookId, a) + JoinOne(rating, bookId, b)
    decreases |b|
  {
    if b == [] {
      assert a + b == a;
    } else {
      var b' := b[..|b| - 1];
      assert (a + b)[..|a + b| - 1] == a + b';
      assert (a + b)[|a + b| - 1] == b[|b| - 1];
      JoinOneAppend(rating, bookId, a, b');
    }
  }

  /** A user without ratings has no joined books. */
  lemma {:induction false} NoRatingsNoBooks(userId: int, ratings: seq<RatingRow>, books: seq<CatalogRow>)
    requires !HasRatings(userId, ratings)
    ensures UserBooks(userId, ratings, books) == []
  {
    if ratings != [] {
      var front := ratings[..|ratings| - 1];
      assert !HasRatings(userId, front) by {
        forall i | 0 <= i < |front| ensures front[i].userId != userId {
          assert front[i] == ratings[i];
        }
      }
      NoRatingsNoBooks(userId, front, books);
      assert ratings[|ratings| - 1].userId != userId;
    }
  }

  /** `user_books[user_books["rating"] >= 4.0]`. */
  function HighRated(rows: seq<(int, string)>): (h: seq<(int, string)>)
    ensures forall p :: p in h <==> p in rows && p.0 >= 4
    ensures forall p: (int, string) :: p.0 >= 4 ==> multiset(h)[p] == multiset(rows)[p]
  {
    if rows == [] then []
    else
      var rest := HighRated(rows[..|rows| - 1]);
      var last := rows[|rows| - 1];
      assert rows == rows[..|rows| - 1] + [last];
      assert forall p :: p in rows <==> p in rows[..|rows| - 1] || p == last;
      if last.0 >= 4 then rest + [last] else rest
  }

  /** The filter keeps rows in their order: filtering two frames one after the other is
      filtering each and concatenating. */
  lemma {:induction false} HighRatedAppend(a: seq<(int, string)>, b: seq<(int, string)>)
    ensures HighRated(a + b) == HighRated(a) + HighRated(b)
    decreases |b|
  {
    if b == [] {
      assert a + b == a;
    } else {
      var b' := b[..|b| - 1];
      assert (a + b)[..|a + b| - 1] == a + b';
      assert (a + b)[|a + b| - 1] == b[|b| - 1];
      HighRatedAppend(a, b');
    }
  }

  /** Occurrences of `a` in `xs`. */
  function Count(xs: seq<string>, a: string): nat
  {
    if xs == [] then 0 else Count(xs[..|xs| - 1], a) + (if xs[|xs| - 1] == a then 1 else 0)
  }

  /** `a` is what `xs.mode().iloc[0]` picks: a value of `xs` occurring at least as often as
      any other, and the smallest string among those that occur equally often. */
  predicate IsModeOf(xs: seq<string>, a: string)
  {
    a in xs &&
    forall b :: b in xs ==> Count(xs, b) < Count(xs, a) || (Count(xs, b) == Count(xs, a) && LexLe(a, b))
  }

  /** The best candidate of `cands` by occurrences in `xs`, smaller string on ties. */
  function Best(xs: seq<string>, cands: seq<string>): (r: string)
    requires |cands| > 0
    ensures r in cands
    ensures forall c :: c in cands ==>
              Count(xs, c) < Count(xs, r) || (Count(xs, c) == Count(xs, r) && LexLe(r, c))
  {
    if |cands| == 1 then
      LexLeReflexive(cands[0]);
      cands[0]
    else
      var b := Best(xs, cands[1..]);
      var c0 := cands[0];
      assert forall c :: c in cands ==> c == c0 || c in cands[1..];
      if Count(xs, c0) > Count(xs, b) || (Count(xs, c0) == Count(xs, b) && LexLe(c0, b)) then
        LexLeReflexive(c0);
        BestStep(xs, c0, b, cands[1..]);
        c0
      else
        LexLeTotal(c0, b);
        b
  }

  /** A candidate at least as good as the best of the rest beats all of the rest. */
  lemma BestStep(xs: seq<string>, c0: string, b: string, rest: seq<string>)
    requires Count(xs, c0) > Count(xs, b) || (Count(xs, c0) == Count(xs, b) && LexLe(c0, b))
    requires forall c :: c in rest ==>
               Count(xs, c) < Count(xs, b) || (Count(xs, c) == Count(xs, b) && LexLe(b, c))
    ensures forall c :: c in rest ==>
              Count(xs, c) < Count(xs, c0) || (Count(xs, c) == Count(xs, c0) && LexLe(c0, c))
  {
    forall c | c in rest
      ensures Count(xs, c) < Count(xs, c0) || (Count(xs, c) == Count(xs, c0) && LexLe(c0, c))
    {
      if Count(xs, c) == Count(xs, c0) {
        LexLeTransitive(c0, b, c);
      }
    }
  }

  /** `xs.mode().iloc[0]` on a non-empty column. */
  function MostFrequent(xs: seq<string>): (r: string)
    requires |xs| > 0
    ensures IsModeOf(xs, r)
  {
    Best(xs, xs)
  }

  /** The mode with the smallest-string tie-break is unique: the query has one answer. */
  lemma ModeIsUnique(xs: seq<string>, a: string, b: string)
    requires IsModeOf(xs, a) && IsModeOf(xs, b)
    ensures a == b
  {
    LexLeAntisymmetric(a, b);
  }

  predicate HasRatings(userId: int, ratings: seq<RatingRow>)
  {
    exists i :: 0 <= i < |ratings| && ratings[i].userId == userId
  }

  /** `get_user_favorite_genre`, which returns an author: `None` when no rating of the
      user joins a catalogue row; otherwise the most frequent author among the user's
      books rated 4 or more, or among all the user's books when none is rated that high,
      the smallest name winning a tie. */
  function FavoriteAuthor(userId: int, ratings: seq<RatingRow>, books: seq<CatalogRow>): (r: Option<string>)
    ensures r.None? <==> UserBooks(userId, ratings, books) == []
    ensures r.Some? && HighRated(UserBooks(userId, ratings, books)) != [] ==>
              IsModeOf(Seconds(HighRated(UserBooks(userId, ratings, books))), r.value)
    ensures r.Some? && HighRated(UserBooks(userId, ratings, books)) == [] ==>
              IsModeOf(Seconds(UserBooks(userId, ratings, books)), r.value)
    ensures r.Some? ==>
              (exists p :: p in UserBooks(userId, ratings, books) && p.0 >= 4) ==
              (exists p :: p in UserBooks(userId, ratings, books) && p.0 >= 4 && p.1 == r.value)
  {
    if !HasRatings(userId, ratings) then
      NoRatingsNoBooks(userId, ratings, books);
      None
    else
      var userBooks := UserBooks(userId, ratings, books);
      var high := HighRated(userBooks);
      var pool := if high == [] then userBooks else high;
      if pool == [] then None
      else
        var a := MostFrequent(Seconds(pool));
        assert exists k :: 0 <= k < |pool| && pool[k].1 == a;
        Some(a)
  }

  // ---------------------------------------------------------------------------
  // render_book_card helpers
  // ---------------------------------------------------------------------------

  const Green := "#10b981"
  const Amber := "#f59e0b"
  const Red := "#ef4444"

  /** The colour of the rating badge: green from 4.0 up, amber from 3.0 up, red below. */
  function RatingColor(rating: real): (c: string)
    ensures c == Green <==> rating >= 4.0
    ensures c == Amber <==> 3.0 <= rating < 4.0
    ensures c == Red <==> rating < 3.0
  {
    if rating >= 4.0 then Green else if rating >= 3.0 then Amber else Red
  }

  /** Number of characters of the description shown on a card before it is cut. */
  const CardLimit: nat := 130

  /** The card's short description: kept whole up to the limit; otherwise its first
      `CardLimit` characters, stripped of white space at both ends, followed by "...". */
  function ShortDescription(d: string): (r: string)
    ensures |d| <= CardLimit ==> r == d
    ensures |d| > CardLimit ==> r == Strip(d[..CardLimit]) + "..."
    ensures |d| > CardLimit ==>
              exists i, j :: 0 <= i <= j <= CardLimit && r == d[i..j] + "..." &&
                SpaceBetween(d, 0, i) && SpaceBetween(d, j, CardLimit)
    ensures |r| <= CardLimit + 3
  {
    if |d| > CardLimit then
      StripOfPrefix(d, CardLimit);
      Strip(d[..CardLimit]) + "..."
    else d
  }

  /** Stripping the first `n` characters of `d` leaves an infix of them, with only white
      space cut at either end. */
  lemma StripOfPrefix(d: string, n: nat)
    requires n <= |d|
    ensures exists i, j :: 0 <= i <= j <= n && Strip(d[..n]) == d[i..j] &&
              SpaceBetween(d, 0, i) && SpaceBetween(d, j, n)
  {
    var head := d[..n];
    var i := LeadingSpace(head, 0);
    var j := StripEnd(head, i, n);
    assert Strip(head) == head[i..j];
    assert forall k :: 0 <= k < n ==> head[k] == d[k];
    assert head[i..j] == d[i..j];
    assert SpaceBetween(d, 0, i) && SpaceBetween(d, j, n);
  }

  /** `str(genres).replace("[", "").replace("]", "").replace("'", "")`. */
  function CleanGenres(g: string): (c: string)
    ensures forall x :: x in c <==> x in g && x != '[' && x != ']' && x != '\''
  {
    RemoveChar(RemoveChar(RemoveChar(g, '['), ']'), '\'')
  }

  /** The genre tags of a card. Missing genres, an empty string and pandas' missing value
      (`"nan"` once printed) give none; otherwise at most the first three pieces of the
      cleaned list, separated by ", ". Each tag consists of characters of the genres
      string other than brackets and quotes, and joining the tags back gives a prefix of
      the cleaned string, the whole of it when there were at most three pieces. */
  function GenreTags(genres: Option<string>): (tags: seq<string>)
    ensures genres.None? || genres.value == "" || genres.value == "nan" ==> tags == []
    ensures genres.Some? && genres.value != "" && genres.value != "nan" ==>
              && 1 <= |tags| <= 3
              && (forall t, k :: 0 <= t < |tags| && 0 <= k < |tags[t]| ==>
                    tags[t][k] in genres.value && tags[t][k] != '[' && tags[t][k] != ']' && tags[t][k] != '\'')
              && JoinCommaSpace(tags) <= CleanGenres(genres.value)
              && (|SplitCommaSpace(CleanGenres(genres.value))| <= 3 ==> JoinCommaSpace(tags) == CleanGenres(genres.value))
              && (forall t :: 0 <= t < |tags| ==> NoSeparator(tags[t]))
              && var parts := SplitCommaSpace(CleanGenres(genres.value));
                 tags == parts[..Min(3, |parts|)]
  {
    match genres
    case None => []
    case Some(g) =>
      if g == "" || g == "nan" then []
      else
        var c := CleanGenres(g);
        var parts := SplitCommaSpace(c);
        FirstPiecesOfSplit(c);
        parts[..Min(3, |parts|)]
  }

  /** The first (at most three) pieces of a split: separator-free pieces made of the
      string's characters that join back to a prefix of it, the whole of it when there
      were no more pieces. */
  lemma FirstPiecesOfSplit(c: string)
    ensures var parts := SplitCommaSpace(c);
      var tags := parts[..Min(3, |parts|)];
      && 1 <= |tags| <= 3
      && (forall t, k :: 0 <= t < |tags| && 0 <= k < |tags[t]| ==> tags[t][k] in c)
      && (forall t :: 0 <= t < |tags| ==> NoSeparator(tags[t]))
      && JoinCommaSpace(tags) <= c
      && (|parts| <= 3 ==> JoinCommaSpace(tags) == c)
  {
    var parts := SplitCommaSpace(c);
    var n := Min(3, |parts|);
    SplitJoinRoundTrip(c);
    JoinPrefix(parts, n);
    assert n == |parts| ==> parts[..n] == parts;
    assert forall t :: 0 <= t < n ==> parts[..n][t] == parts[t];
  }
}
