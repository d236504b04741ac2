/**
  The ratings table of database.py and the three queries on it the recommender uses:
  `add_rating` (update the user's rating of a book, or insert one), `get_user_ratings`
  (book id to rating for one user) and `get_book_average_rating` (the mean rating of one
  book, rounded to one decimal).
*/
module Database {
  import opened Wrappers

  /** One row of the `ratings` table. `timestamp` is the time of the last write. */
  datatype Rating = Rating(ratingId: nat, userId: int, bookId: int, rating: int, timestamp: int)

  predicate IsPair(row: Rating, userId: int, bookId: int)
  {
    row.userId == userId && row.bookId == bookId
  }

  /** Position of the first row, in table order, rated by `userId` for `bookId`: the row
      `SELECT rating_id ... WHERE user_id = ? AND book_id = ?` followed by `fetchone()`
      returns on a table scan. */
  function FirstMatch(rows: seq<Rating>, userId: int, bookId: int): (k: Option<nat>)
    ensures k.None? <==> forall i :: 0 <= i < |rows| ==> !IsPair(rows[i], userId, bookId)
    ensures k.Some? ==>
              k.value < |rows| && IsPair(rows[k.value], userId, bookId) &&
              forall i :: 0 <= i < k.value ==> !IsPair(rows[i], userId, bookId)
  {
    if rows == [] then None
    else if IsPair(rows[0], userId, bookId) then Some(0)
    else
      match FirstMatch(rows[1..], userId, bookId)
      case None => None
      case Some(k) => Some(k + 1)
  }

  /** No two rows share a rating id: `rating_id` is the primary key. */
  predicate DistinctIds(rows: seq<Rating>)
  {
    forall i, j :: 0 <= i < j < |rows| ==> rows[i].ratingId != rows[j].ratingId
  }

  /** Every id in use is below the next id AUTOINCREMENT will hand out. */
  predicate IdsBelow(rows: seq<Rating>, nextId: nat)
  {
    forall i :: 0 <= i < |rows| ==> rows[i].ratingId < nextId
  }

  /** Each user rates each book at most once. */
  predicate UniquePairs(rows: seq<Rating>)
  {
    forall i, j :: 0 <= i < j < |rows| ==>
      rows[i].userId != rows[j].userId || rows[i].bookId != rows[j].bookId
  }

  /** `UPDATE ratings SET rating = ?, timestamp = CURRENT_TIMESTAMP WHERE rating_id = ?`. */
  function SetRatingById(rows: seq<Rating>, id: nat, rating: int, now: int): (rows': seq<Rating>)
    ensures |rows'| == |rows|
    ensures forall i :: 0 <= i < |rows| ==>
              rows'[i] == if rows[i].ratingId == id then rows[i].(rating := rating, timestamp := now) else rows[i]
  {
    seq(|rows|, i requires 0 <= i < |rows| =>
      if rows[i].ratingId == id then rows[i].(rating := rating, timestamp := now) else rows[i])
  }

  /** The table after `add_rating(userId, bookId, rating)` at time `now`, with the
      AUTOINCREMENT counter: the first row of the pair gets the new rating and time, or,
      when the pair has no row, a row with a fresh id is appended. */
  function Upserted(rows: seq<Rating>, nextId: nat, userId: int, bookId: int, rating: int, now: int)
    : (result: (seq<Rating>, nat))
    ensures FirstMatch(rows, userId, bookId).None? ==> |result.0| == |rows| + 1 && result.1 == nextId + 1
    ensures FirstMatch(rows, userId, bookId).Some? ==> |result.0| == |rows| && result.1 == nextId
    ensures forall i :: 0 <= i < |rows| && FirstMatch(rows, userId, bookId) != Some(i) ==> result.0[i] == rows[i]
  {
    match FirstMatch(rows, userId, bookId)
    case Some(k) => (rows[k := rows[k].(rating := rating, timestamp := now)], nextId)
    case None => (rows + [Rating(nextId, userId, bookId, rating, now)], nextId + 1)
  }

  /** With distinct ids, updating by the id of row `k` changes row `k` only. */
  lemma UpdateById(rows: seq<Rating>, k: nat, rating: int, now: int)
    requires DistinctIds(rows) && k < |rows|
    ensures SetRatingById(rows, rows[k].ratingId, rating, now) == rows[k := rows[k].(rating := rating, timestamp := now)]
  {
    var rows' := SetRatingById(rows, rows[k].ratingId, rating, now);
    forall i | 0 <= i < |rows| && i != k ensures rows'[i] == rows[i] {
      if i < k {
        assert rows[i].ratingId != rows[k].ratingId;
      } else {
        assert rows[k].ratingId != rows[i].ratingId;
      }
    }
  }

  /** The ratings table: its rows in table order and the AUTOINCREMENT counter. */
  class RatingsTable {
    var rows: seq<Rating>
    var nextId: nat

    ghost predicate Valid()
      reads this
    {
      DistinctIds(rows) && IdsBelow(rows, nextId)
    }

    /** The freshly created, empty table; AUTOINCREMENT starts at 1. */
    constructor ()
      ensures Valid()
      ensures rows == [] && nextId == 1
    {
      rows := [];
      nextId := 1;
    }

    /** `add_rating`: looks up the user's row for the book; updates it by its rating id
        when there is one, and inserts a new row otherwise. */
    method AddRating(userId: int, bookId: int, rating: int, now: int)
      requires Valid()
      modifies this
      ensures Valid()
      ensures (rows, nextId) == Upserted(old(rows), old(nextId), userId, bookId, rating, now)
    {
      var existing := FirstMatch(rows, userId, bookId);
      if existing.Some? {
        UpdateById(rows, existing.value, rating, now);
        rows := SetRatingById(rows, rows[existing.value].ratingId, rating, now);
      } else {
        rows := rows + [Rating(nextId, userId, bookId, rating, now)];
        nextId := nextId + 1;
      }
    }
  }

  /** After an upsert the first row of the pair holds the new rating and time: reading
      the rating back gives what was written. */
  lemma UpsertStoresRating(rows: seq<Rating>, nextId: nat, userId: int, bookId: int, rating: int, now: int)
    ensures var rows' := Upserted(rows, nextId, userId, bookId, rating, now).0;
      FirstMatch(rows', userId, bookId).Some? &&
      rows'[FirstMatch(rows', userId, bookId).value].rating == rating &&
      rows'[FirstMatch(rows', userId, bookId).value].timestamp == now
  {
    var rows' := Upserted(rows, nextId, userId, bookId, rating, now).0;
    match FirstMatch(rows, userId, bookId)
    case Some(k) =>
      assert IsPair(rows'[k], userId, bookId);
      assert forall i :: 0 <= i < k ==> rows'[i] == rows[i];
    case None =>
      assert IsPair(rows'[|rows|], userId, bookId);
      assert forall i :: 0 <= i < |rows| ==> rows'[i] == rows[i];
  }

  /** Rating the same book twice adds no second row: two upserts of one pair leave the
      table as the second one alone would. */
  lemma UpsertIdempotent(
    rows: seq<Rating>, nextId: nat, userId: int, bookId: int, r1: int, t1: int, r2: int, t2: int)
    ensures var once := Upserted(rows, nextId, userId, bookId, r1, t1);
      Upserted(once.0, once.1, userId, bookId, r2, t2) == Upserted(rows, nextId, userId, bookId, r2, t2)
  {
    var once := Upserted(rows, nextId, userId, bookId, r1, t1);
    match FirstMatch(rows, userId, bookId)
    case Some(k) =>
      assert forall i :: 0 <= i < k ==> once.0[i] == rows[i];
      assert IsPair(once.0[k], userId, bookId);
      assert FirstMatch(once.0, userId, bookId) == Some(k);
      var updated := rows[k].(rating := r2, timestamp := t2);
      assert once.0[k].(rating := r2, timestamp := t2) == updated;
      assert once.0[k := updated] == rows[k := updated];
    case None =>
      var n := |rows|;
      assert forall i :: 0 <= i < n ==> once.0[i] == rows[i];
      assert IsPair(once.0[n], userId, bookId);
      assert FirstMatch(once.0, userId, bookId) == Some(n);
      var appended := Rating(nextId, userId, bookId, r2, t2);
      assert once.0[n := appended] == rows + [appended];
  }

  /** The upsert keeps every user's rating of a book in a single row. */
  lemma UpsertKeepsPairsUnique(rows: seq<Rating>, nextId: nat, userId: int, bookId: int, rating: int, now: int)
    requires UniquePairs(rows)
    ensures UniquePairs(Upserted(rows, nextId, userId, bookId, rating, now).0)
  {
    var rows' := Upserted(rows, nextId, userId, bookId, rating, now).0;
    match FirstMatch(rows, userId, bookId)
    case Some(k) =>
      forall i, j | 0 <= i < j < |rows'|
        ensures rows'[i].userId != rows'[j].userId || rows'[i].bookId != rows'[j].bookId
      {
        assert rows'[i].userId == rows[i].userId && rows'[i].bookId == rows[i].bookId;
        assert rows'[j].userId == rows[j].userId && rows'[j].bookId == rows[j].bookId;
      }
    case None =>
      forall i, j | 0 <= i < j < |rows'|
        ensures rows'[i].userId != rows'[j].userId || rows'[i].bookId != rows'[j].bookId
      {
        if j == |rows| {
          assert !IsPair(rows[i], userId, bookId);
        }
      }
  }

  /** `get_user_ratings`: `dict(zip(book_id, rating))` over the user's rows in table
      order, so for a book rated in several rows the last one wins. Exactly the books the
      user rated are keys. */
  function UserRatings(rows: seq<Rating>, userId: int): (m: map<int, int>)
    ensures forall b :: b in m <==> exists i :: 0 <= i < |rows| && IsPair(rows[i], userId, b)
    ensures forall i ::
              (0 <= i < |rows| && rows[i].userId == userId &&
               forall j :: i < j < |rows| ==> !IsPair(rows[j], userId, rows[i].bookId)) ==>
              rows[i].bookId in m && m[rows[i].bookId] == rows[i].rating
  {
    if rows == [] then map[]
    else
      var front := rows[..|rows| - 1];
      var last := rows[|rows| - 1];
      var m := UserRatings(front, userId);
      assert forall i :: 0 <= i < |front| ==> front[i] == rows[i];
      if last.userId == userId then m[last.bookId := last.rating] else m
  }

  /** With one row per pair, every rating of the user appears in the query's answer. */
  lemma UserRatingsListsEveryRating(rows: seq<Rating>, userId: int)
    requires UniquePairs(rows)
    ensures forall i :: 0 <= i < |rows| && rows[i].userId == userId ==>
              UserRatings(rows, userId)[rows[i].bookId] == rows[i].rating
  {
    forall i | 0 <= i < |rows| && rows[i].userId == userId
      ensures UserRatings(rows, userId)[rows[i].bookId] == rows[i].rating
    {
      forall j | i < j < |rows| ensures !IsPair(rows[j], userId, rows[i].bookId) {
      }
    }
  }

  /** After `add_rating(userId, bookId, rating)` the user's ratings map the book to the
      new rating, and every other book keeps its rating. */
  lemma RatingReadBack(rows: seq<Rating>, nextId: nat, userId: int, bookId: int, rating: int, now: int)
    requires UniquePairs(rows)
    ensures var after := UserRatings(Upserted(rows, nextId, userId, bookId, rating, now).0, userId);
      var before := UserRatings(rows, userId);
      && bookId in after && after[bookId] == rating
      && (forall b :: b != bookId ==> (b in after <==> b in before))
      && (forall b :: b != bookId && b in before ==> after[b] == before[b])
  {
    var rows' := Upserted(rows, nextId, userId, bookId, rating, now).0;
    UpsertKeepsPairsUnique(rows, nextId, userId, bookId, rating, now);
    UpsertStoresRating(rows, nextId, userId, bookId, rating, now);
    UserRatingsListsEveryRating(rows, userId);
    UserRatingsListsEveryRating(rows', userId);
    var after, before := UserRatings(rows', userId), UserRatings(rows, userId);
    var k := FirstMatch(rows', userId, bookId).value;
    assert after[bookId] == rows'[k].rating;
    forall b | b != bookId ensures b in after <==> b in before {
      if b in before {
        var i :| 0 <= i < |rows| && IsPair(rows[i], userId, b);
        assert rows'[i] == rows[i];
      }
      if b in after {
        var i :| 0 <= i < |rows'| && IsPair(rows'[i], userId, b);
        assert i < |rows| && rows'[i] == rows[i];
      }
    }
    forall b | b != bookId && b in before ensures after[b] == before[b] {
      var i :| 0 <= i < |rows| && IsPair(rows[i], userId, b);
      assert rows'[i] == rows[i];
    }
  }

  /** `SELECT ... rating FROM ratings WHERE book_id = ?`, in table order. */
  function RatingsOf(rows: seq<Rating>, bookId: int): (rs: seq<int>)
    ensures forall x :: x in rs ==> exists i :: 0 <= i < |rows| && rows[i].bookId == bookId && rows[i].rating == x
    ensures forall i :: 0 <= i < |rows| && rows[i].bookId == bookId ==> rows[i].rating in rs
    ensures |rows| == 1 ==> rs == (if rows[0].bookId == bookId then [rows[0].rating] else [])
  {
    if rows == [] then []
    else
      var rest := RatingsOf(rows[..|rows| - 1], bookId);
      var last := rows[|rows| - 1];
      assert forall i :: 0 <= i < |rows| - 1 ==> rows[..|rows| - 1][i] == rows[i];
      if last.bookId == bookId then rest + [last.rating] else rest
  }

  /** The selection goes row by row in table order: selecting from two runs of rows one
      after the other is selecting from each and concatenating, one rating per row. */
  lemma {:induction false} RatingsOfAppend(a: seq<Rating>, b: seq<Rating>, bookId: int)
    ensures RatingsOf(a + b, bookId) == RatingsOf(a, bookId) + RatingsOf(b, bookId)
    decreases |b|
  {
    if b == [] {
      assert a + b == a;
    } else {
      var b' := b[..|b| - 1];
      assert (a + b)[..|a + b| - 1] == a + b';
      assert (a + b)[|a + b| - 1] == b[|b| - 1];
      RatingsOfAppend(a, b', bookId);
    }
  }

  function Sum(xs: seq<int>): int
  {
    if xs == [] then 0 else Sum(xs[..|xs| - 1]) + xs[|xs| - 1]
  }

  /** Python's `round(total / count, 1)` in tenths, on the exact quotient: the nearest
      whole number of tenths, ties going to the even one. */
  function RoundHalfEvenTenths(total: int, count: nat): (t: int)
    requires count > 0
    ensures -(count as int) <= 2 * (10 * total - count * t) <= count
    ensures 2 * (10 * total - count * t) == count || 2 * (10 * total - count * t) == -(count as int) ==> t % 2 == 0
  {
    var q := (10 * total) / count;
    var rem := (10 * total) % count;
    assert 10 * total == count * q + rem;
    assert count * (q + 1) == count * q + count;
    if 2 * rem > count || (2 * rem == count && q % 2 != 0) then q + 1 else q
  }

  /** `get_book_average_rating`: `AVG(rating)` over the book's rows, `0.0` when it has
      none, rounded to one decimal. The result is a whole number of tenths within 0.05
      of the mean (`2 * |10 * total - count * 10 * avg| <= count`). */
  function BookAverageRating(rows: seq<Rating>, bookId: int): (avg: real)
    ensures RatingsOf(rows, bookId) == [] ==> avg == 0.0
    ensures (avg * 10.0).Floor as real == avg * 10.0
    ensures var rs := RatingsOf(rows, bookId);
      rs != [] ==>
        -(|rs| as real) <= 2.0 * (10.0 * (Sum(rs) as real) - (|rs| as real) * (avg * 10.0)) <= |rs| as real
  {
    var rs := RatingsOf(rows, bookId);
    if rs == [] then 0.0
    else
      var t := RoundHalfEvenTenths(Sum(rs), |rs|);
      assert (|rs| * t) as real == (|rs| as real) * (t as real);
      t as real / 10.0
  }

  lemma {:induction false} SumBounds(xs: seq<int>, lo: int, hi: int)
    requires forall k :: 0 <= k < |xs| ==> lo <= xs[k] <= hi
    ensures lo * |xs| <= Sum(xs) <= hi * |xs|
  {
    if xs != [] {
      SumBounds(xs[..|xs| - 1], lo, hi);
      assert lo * |xs| == lo * (|xs| - 1) + lo;
      assert hi * |xs| == hi * (|xs| - 1) + hi;
    }
  }

  /** When every rating of the book lies on the scale `lo .. hi`, so does its rounded
      average. */
  lemma AverageWithinScale(rows: seq<Rating>, bookId: int, lo: int, hi: int)
    requires forall i :: 0 <= i < |rows| && rows[i].bookId == bookId ==> lo <= rows[i].rating <= hi
    requires RatingsOf(rows, bookId) != []
    ensures lo as real <= BookAverageRating(rows, bookId) <= hi as real
  {
    var rs := RatingsOf(rows, bookId);
    assert forall k :: 0 <= k < |rs| ==> lo <= rs[k] <= hi by {
      forall k | 0 <= k < |rs| ensures lo <= rs[k] <= hi {
        assert rs[k] in rs;
      }
    }
    SumBounds(rs, lo, hi);
    var c := |rs|;
    var t := RoundHalfEvenTenths(Sum(rs), c);
    ScaledBounds(Sum(rs), c, t, lo, hi);
  }

  /** A number of tenths within half a tenth of `total / count`, with the total between
      `lo * count` and `hi * count`, lies between `10 * lo` and `10 * hi`. */
  lemma ScaledBounds(total: int, count: nat, t: int, lo: int, hi: int)
    requires count > 0
    requires lo * count <= total <= hi * count
    requires -(count as int) <= 2 * (10 * total - count * t) <= count
    ensures 10 * lo <= t <= 10 * hi
  {
    assert count * (2 * t) == 2 * (count * t);
    assert count * (20 * hi + 1) == 20 * (hi * count) + count;
    assert count * (20 * lo - 1) == 20 * (lo * count) - count;
    CancelPositive(count, 2 * t, 20 * hi + 1);
    CancelPositive(count, 20 * lo - 1, 2 * t);
  }

  lemma CancelPositive(c: int, x: int, y: int)
    requires c > 0 && c * x <= c * y
    ensures x <= y
  {
    assert c * y - c * x == c * (y - x);
  }
}
