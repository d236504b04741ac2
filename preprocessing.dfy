/**
  The index mapper of preprocessing.py: `prepare_data_for_nn` turns the sparse user and
  book identifiers of the ratings frame into dense indices `0 .. n-1`, numbered in order
  of first appearance, and writes the two encoded columns into the frame in place.
*/
module Preprocessing {
  import opened Wrappers

  /** One row of the ratings frame. The encoded columns are absent (`None`) until
      `PrepareDataForNN` writes them. */
  datatype RatingRow = RatingRow(
    userId: int,
    bookId: int,
    rating: int,
    userEncoded: Option<nat>,
    bookEncoded: Option<nat>)

  predicate Distinct<T(==)>(s: seq<T>)
  {
    forall i, j :: 0 <= i < j < |s| ==> s[i] != s[j]
  }

  /** Position of the first occurrence of `x` in `s`. */
  function FirstIndex<T(==)>(s: seq<T>, x: T): (k: nat)
    requires x in s
    ensures k < |s| && s[k] == x && x !in s[..k]
  {
    if x in s[..|s| - 1] then FirstIndex(s[..|s| - 1], x) else |s| - 1
  }

  /** pandas' `Series.unique()`: the distinct values of `s` in order of first appearance. */
  function Unique(s: seq<int>): (u: seq<int>)
    ensures Distinct(u)
    ensures forall x :: x in u <==> x in s
  {
    if s == [] then []
    else
      var u := Unique(s[..|s| - 1]);
      var last := s[|s| - 1];
      assert forall x :: x in s <==> x in s[..|s| - 1] || x == last;
      if last in u then u else u + [last]
  }

  /** `{x: i for i, x in enumerate(ids)}` over a list without repetitions. */
  function IndexMap(ids: seq<int>): (m: map<int, nat>)
    requires Distinct(ids)
    ensures forall i :: 0 <= i < |ids| ==> ids[i] in m && m[ids[i]] == i
    ensures forall x :: x in m <==> x in ids
  {
    map i | 0 <= i < |ids| :: ids[i] := i
  }

  /** `m` numbers its keys densely: it is injective and its values are exactly `0 .. |m|-1`. */
  ghost predicate IsIndexMap(m: map<int, nat>)
  {
    && (forall x, y :: x in m && y in m && x != y ==> m[x] != m[y])
    && (forall x :: x in m ==> m[x] < |m|)
    && (forall j: nat :: j < |m| ==> j in m.Values)
  }

  function UserColumn(rows: seq<RatingRow>): (c: seq<int>)
    ensures |c| == |rows| && forall i :: 0 <= i < |rows| ==> c[i] == rows[i].userId
  {
    seq(|rows|, i requires 0 <= i < |rows| => rows[i].userId)
  }

  function BookColumn(rows: seq<RatingRow>): (c: seq<int>)
    ensures |c| == |rows| && forall i :: 0 <= i < |rows| ==> c[i] == rows[i].bookId
  {
    seq(|rows|, i requires 0 <= i < |rows| => rows[i].bookId)
  }

  /** A list without repetitions has as many elements as its set of elements. */
  lemma {:induction false} DistinctCardinality(s: seq<int>)
    requires Distinct(s)
    ensures |set x | x in s| == |s|
  {
    if s != [] {
      var p := s[..|s| - 1];
      DistinctCardinality(p);
      assert (set x | x in s) == (set x | x in p) + {s[|s| - 1]};
      assert s[|s| - 1] !in (set x | x in p);
    }
  }

  /** Unique lists the distinct values in order of first appearance. */
  lemma {:induction false} UniqueFollowsFirstAppearance(s: seq<int>)
    ensures forall i, j :: 0 <= i < j < |Unique(s)| ==>
              FirstIndex(s, Unique(s)[i]) < FirstIndex(s, Unique(s)[j])
  {
    if s != [] {
      var p := s[..|s| - 1];
      var last := s[|s| - 1];
      var u, u' := Unique(s), Unique(p);
      UniqueFollowsFirstAppearance(p);
      forall x | x in p ensures FirstIndex(s, x) == FirstIndex(p, x) {
      }
      if last !in u' {
        assert u == u' + [last];
        assert FirstIndex(s, last) == |s| - 1;
        forall i | 0 <= i < |u'| ensures FirstIndex(s, u[i]) < |s| - 1 {
          assert u[i] == u'[i] && u'[i] in p;
        }
      }
    }
  }

  /** The numbering of a list without repetitions is dense: injective, with values
      exactly `0 .. |ids|-1`, one key per element. */
  lemma IndexMapIsDense(ids: seq<int>)
    requires Distinct(ids)
    ensures |IndexMap(ids)| == |ids|
    ensures IsIndexMap(IndexMap(ids))
  {
    var m := IndexMap(ids);
    DistinctCardinality(ids);
    assert m.Keys == set x | x in ids;
    forall x, y | x in m && y in m && x != y ensures m[x] != m[y] {
      assert ids[m[x]] == x && ids[m[y]] == y;
    }
    forall j: nat | j < |m| ensures j in m.Values {
      assert ids[j] in m && m[ids[j]] == j;
    }
  }

  /** There are as many users (books) as distinct identifiers in the column. */
  lemma EncodingCount(s: seq<int>)
    ensures |IndexMap(Unique(s))| == |set x | x in s|
  {
    var u := Unique(s);
    IndexMapIsDense(u);
    DistinctCardinality(u);
    assert (set x | x in u) == (set x | x in s);
  }

  /** One identifier is numbered below another exactly when it first appears earlier. */
  lemma EncodingFollowsFirstAppearance(s: seq<int>, x: int, y: int)
    requires x in s && y in s
    ensures x in IndexMap(Unique(s)) && y in IndexMap(Unique(s))
    ensures IndexMap(Unique(s))[x] < IndexMap(Unique(s))[y] <==> FirstIndex(s, x) < FirstIndex(s, y)
  {
    var u := Unique(s);
    var m := IndexMap(u);
    UniqueFollowsFirstAppearance(s);
    assert u[m[x]] == x && u[m[y]] == y;
  }

  /** Every row's identifiers are keys of the maps built from the columns: the maps are
      total on the frame. */
  lemma MapsCoverRows(rows: seq<RatingRow>)
    ensures forall k :: 0 <= k < |rows| ==>
              rows[k].userId in IndexMap(Unique(UserColumn(rows))) &&
              rows[k].bookId in IndexMap(Unique(BookColumn(rows)))
  {
    var users, books := UserColumn(rows), BookColumn(rows);
    forall k | 0 <= k < |rows|
      ensures rows[k].userId in IndexMap(Unique(users)) && rows[k].bookId in IndexMap(Unique(books))
    {
      assert users[k] in users && books[k] in books;
    }
  }

  /** Row `row` with both encoded columns filled in from the two maps. */
  function Encoded(row: RatingRow, userMap: map<int, nat>, bookMap: map<int, nat>): RatingRow
    requires row.userId in userMap && row.bookId in bookMap
  {
    row.(userEncoded := Some(userMap[row.userId]), bookEncoded := Some(bookMap[row.bookId]))
  }

  /** Lines 18-19 of `prepare_data_for_nn`: `ratings_df["user_encoded"] = ...map(...)` and
      the same for books, written into the caller's frame row by row. */
  method WriteEncodedColumns(ratings: array<RatingRow>, userMap: map<int, nat>, bookMap: map<int, nat>)
    requires forall k :: 0 <= k < ratings.Length ==>
               ratings[k].userId in userMap && ratings[k].bookId in bookMap
    modifies ratings
    ensures forall k :: 0 <= k < ratings.Length ==>
              old(ratings[k]).userId in userMap && old(ratings[k]).bookId in bookMap &&
              ratings[k] == Encoded(old(ratings[k]), userMap, bookMap)
  {
    var i := 0;
    while i < ratings.Length
      invariant 0 <= i <= ratings.Length
      invariant forall k :: 0 <= k < i ==> ratings[k] == Encoded(old(ratings[k]), userMap, bookMap)
      invariant forall k :: i <= k < ratings.Length ==> ratings[k] == old(ratings[k])
    {
      ratings[i] := Encoded(ratings[i], userMap, bookMap);
      i := i + 1;
    }
  }

  /** `prepare_data_for_nn`: builds both maps from the frame's identifier columns, writes
      `user_encoded` and `book_encoded` into every row in place, and returns the counts.
      The row count and every other column stay as they were. */
  method PrepareDataForNN(ratings: array<RatingRow>)
    returns (numUsers: nat, numBooks: nat, userMap: map<int, nat>, bookMap: map<int, nat>)
    modifies ratings
    ensures userMap == IndexMap(Unique(UserColumn(old(ratings[..]))))
    ensures bookMap == IndexMap(Unique(BookColumn(old(ratings[..]))))
    ensures numUsers == |userMap| == |set x | x in UserColumn(old(ratings[..]))|
    ensures numBooks == |bookMap| == |set x | x in BookColumn(old(ratings[..]))|
    ensures forall i :: 0 <= i < ratings.Length ==>
              old(ratings[i]).userId in userMap && old(ratings[i]).bookId in bookMap &&
              ratings[i] == Encoded(old(ratings[i]), userMap, bookMap)
  {
    var rows := ratings[..];
    userMap := IndexMap(Unique(UserColumn(rows)));
    bookMap := IndexMap(Unique(BookColumn(rows)));
    EncodingCount(UserColumn(rows));
    EncodingCount(BookColumn(rows));
    MapsCoverRows(rows);
    numUsers := |userMap|;
    numBooks := |bookMap|;
    WriteEncodedColumns(ratings, userMap, bookMap);
  }
}
