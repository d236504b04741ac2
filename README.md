# Book recommender bookkeeping, verified in Dafny

A Dafny model of the Streamlit book recommender in `book_recommender/src`. It covers the
logic around the two recommendation engines, not the engines themselves:

- **Index mapping** (`preprocessing.py`). `prepare_data_for_nn` numbers the user and book ids
  of the ratings frame densely, in order of first appearance. It writes the encoded columns
  into the frame in place, here an `array` of rows, and returns the maps and the counts.
- **Content engine** (`content_based.py`).
  - `ContentBasedRecommender` is a class. Its constructor builds the `author + " " + description`
    documents and the title index.
  - The TF-IDF cosine scores are inputs, and the two random draws are bounded parameters.
  - What is modelled is what the code does with those numbers:
    - the stable descending ranking;
    - the two slices: book-to-book drops the first ranked entry, free text drops nothing;
    - the min/max calibration into [0.80, 0.99].
- **App decisions** (`app.py`):
  - the retrain-or-reuse decision of `train_nn_model`, written as an imperative method around
    its mutable `should_retrain` flag;
  - the Neural Picks top three and the decoding of their indices;
  - `get_user_favorite_genre`, which returns the most frequent *author*;
  - the `render_book_card` helpers: colour band, genre tags and description cut.

  `strings.dfy` models the Python string operations these helpers use: `strip`, `replace`,
  `split(", ")` and `<=` on strings.
- **Ratings table** (`database.py`). `add_rating` is an imperative upsert on a `RatingsTable`
  class holding the rows and the AUTOINCREMENT counter. It is proved equal to a pure
  specification `Upserted`, about which the upsert properties are proved. Also modelled are
  the `get_user_ratings` and `get_book_average_rating` queries.

`ranking.dfy` holds the stable descending ranking shared by the content engine and the
neural picks. `wrappers.dfy` holds `Option`, `Min` and `Seconds`, which takes the second column of a list of pairs. `neural_network.dfy` holds the epoch loop of `train_model` in `neural_network.py`, which `train_nn_model` calls.

## Model

| member | source | states |
|---|---|---|
| Preprocessing.Unique | book_recommender/src/preprocessing.py:14-15 | `unique()` lists every id of the column exactly once, and nothing else |
| Preprocessing.UniqueFollowsFirstAppearance | book_recommender/src/preprocessing.py:14-15 | the distinct ids are listed in order of their first occurrence in the column |
| Preprocessing.IndexMap | book_recommender/src/preprocessing.py:16-17 | the i-th listed id maps to i; the keys are exactly the listed ids |
| Preprocessing.IndexMapIsDense | book_recommender/src/preprocessing.py:16-17 | the map has one key per id, is injective, and its values are exactly `0 .. n-1`, with no gaps |
| Preprocessing.EncodingCount | book_recommender/src/preprocessing.py:20-21 | `num_users` and `num_books` equal the number of distinct ids in the column |
| Preprocessing.EncodingFollowsFirstAppearance | book_recommender/src/preprocessing.py:14-17 | one id gets a smaller index than another exactly when it first appears earlier |
| Preprocessing.MapsCoverRows | book_recommender/src/preprocessing.py:18-19 | every row's user and book id is a key of its map, so the column mapping never yields a missing value |
| Preprocessing.WriteEncodedColumns | book_recommender/src/preprocessing.py:18-19 | every row gets both encoded columns from the maps; its other fields stay as they were |
| Preprocessing.PrepareDataForNN | book_recommender/src/preprocessing.py:12-22 | returns the first-appearance maps of both columns and counts equal to the numbers of distinct ids; every row is encoded in place and nothing else in it changes |
| Ranking.Rank | book_recommender/src/content_based.py:30-31 | the ranking holds every row index once and in ranked order: higher score first, ties by ascending index |
| Ranking.RankIsStableDescending | book_recommender/src/content_based.py:31 | the sort is a permutation, scores never increase along it, and equal scores keep ascending row order (a stable sort with `reverse=True`) |
| Ranking.TopDominates | book_recommender/src/app.py:1069 | a row outside the first k ranked rows scores no higher than any row inside them |
| ContentBased.ContentBasedRecommender.constructor | book_recommender/src/content_based.py:7-23 | missing authors and descriptions become "", each document is `author + " " + description`, and every title indexes its own row |
| ContentBased.Remap | book_recommender/src/content_based.py:56-61 | the linear remap lands in the target range, keeps the relative position of the score, and sends the endpoints to the endpoints |
| ContentBased.RemapMonotone | book_recommender/src/content_based.py:56-61 | the remap preserves order, weakly and strictly |
| ContentBased.Calibrated | book_recommender/src/content_based.py:46-63 | length kept; scores in [0.80, 0.99]; order preserved; all-equal scores become 0.95; otherwise every score is the linear remap of its position between the minimum and the maximum onto `[0.80 + v, 0.99 - u]`, so the minimum maps to `0.80 + v` and the maximum to `0.99 - u` |
| ContentBased.ProcessScores | book_recommender/src/content_based.py:43-65 | one result per selected row: the row's title with its calibrated score, in selection order |
| ContentBased.ProcessedScoresDescend | book_recommender/src/content_based.py:43-65 | a selection taken from the ranking comes out with every score in [0.80, 0.99] and scores non-increasing along it |
| ContentBased.DropFirstSelection | book_recommender/src/content_based.py:31-32 | `[1 : top_n + 1]` keeps `min(top_n, n-1)` rows, namely ranks 1.., in ranked order |
| ContentBased.ContentBasedRecommender.GetRecommendations | book_recommender/src/content_based.py:25-33 | an unknown title gives []; otherwise `min(top_n, n-1)` results: the k-th is the title at rank k+1 of the query row, and the list is exactly the calibrated scores of that selection. Every score is in [0.80, 0.99] and scores never increase along the list |
| ContentBased.ContentBasedRecommender.RecommendByDescription | book_recommender/src/content_based.py:35-41 | `min(top_n, n)` results: the k-th is the title at rank k, with no exclusion, and the list is exactly the calibrated scores of the first `top_n` ranks. Every score is in [0.80, 0.99] and scores never increase along the list |
| ContentBased.SelectionsAgreeWhenSelfScoresHighest | book_recommender/src/content_based.py:31-32 | when the query row strictly outscores every other row, dropping the first rank is the same as removing the query row |
| ContentBased.AsWrittenAgreesWhenSelfScoresHighest | book_recommender/src/content_based.py:25-33 | in that case the recommendations as written equal the self-excluding ones |
| ContentBased.QueryBookReturnedOnTie | book_recommender/src/content_based.py:31-32 | two books with equal content, query the later one: the result is the query book itself |
| ContentBased.SelfExcludedSelection | book_recommender/src/content_based.py:32 | the corrected selection is the ranking with the query row removed, cut to `min(top_n, n-1)` rows. It is in ranked order, never holds the query row, and every other row it leaves out is ranked behind every row it keeps |
| ContentBased.ContentBasedRecommender.GetRecommendationsExcludingSelf | book_recommender/src/content_based.py:25-33 | corrected version: an unknown title gives []; otherwise `min(top_n, n-1)` results, the k-th being the title of the k-th row of the self-excluded selection, with that selection's calibrated scores. No result carries the query title; scores lie in [0.80, 0.99] and never increase along the list |
| NeuralNetwork.TrainModel | book_recommender/src/neural_network.py:46-56 | with a callback, epoch e reports `(e+1, epochs)`, one report per epoch; without one, nothing |
| App.TrainNNModel | book_recommender/src/app.py:569-617 | reuse happens exactly when: no forced retrain, the checkpoint exists and loads, and there is no metadata file or it records the current count. A forced retrain, a stale or unreadable record, or a load failure leads to retraining. Zero ratings cannot be trained. A retrain records the current count when the write succeeds. The progress bar ends at (5, 5) on every path that returns a model |
| App.Inverse | book_recommender/src/app.py:1070 | the inverted encoder is a true inverse on both sides, keyed by exactly the encoded indices |
| App.TopPicksAreBest | book_recommender/src/app.py:1059-1079 | `min(3, n)` picks of distinct books, each with its own prediction, in non-increasing order, and no book left out is predicted higher than a pick |
| App.NeuralPicks | book_recommender/src/app.py:1058-1099 | a user unknown to the encoder gets the cold-start branch; any other user gets the `min(3, n)` top picks |
| App.UserBooks | book_recommender/src/app.py:702-705 | the (rating, author) pairs that occur are exactly those of the user's ratings matched with catalogue rows of the same book |
| App.UserBooksOfOneRating | book_recommender/src/app.py:702-705 | one rating row joins to its book's catalogue rows when it is the user's, and to nothing otherwise |
| App.UserBooksAppend | book_recommender/src/app.py:702-705 | the join goes rating row by rating row: joining two runs of rows is joining each and concatenating, so repeated pairs are kept and rating order holds |
| App.JoinOneAppend | book_recommender/src/app.py:704 | within one rating, the matching catalogue rows come in catalogue order, each giving one joined row |
| App.NoRatingsNoBooks | book_recommender/src/app.py:702-704 | a user without ratings has no joined books |
| App.HighRated | book_recommender/src/app.py:706 | keeps every joined row rated 4 or more, as often as it occurs, and no other row |
| App.HighRatedAppend | book_recommender/src/app.py:706 | the filter keeps row order: filtering two runs of rows is filtering each and concatenating |
| App.MostFrequent | book_recommender/src/app.py:711 | `mode().iloc[0]`: a value occurring at least as often as any other, the smallest string among equally frequent ones |
| App.ModeIsUnique | book_recommender/src/app.py:711 | that characterisation has exactly one answer |
| App.FavoriteAuthor | book_recommender/src/app.py:701-712 | None exactly when no rating joins a book. Otherwise the mode of the authors of the user's books rated 4 or more, or of all their books when none is. The answer is a highly rated book's author whenever one exists |
| App.RatingColor | book_recommender/src/app.py:639-645 | green exactly from 4.0 up, amber exactly on [3.0, 4.0), red exactly below 3.0 |
| App.ShortDescription | book_recommender/src/app.py:677-680 | descriptions up to 130 characters are kept whole. Longer ones become `strip()` of their first 130 characters plus "...": an infix of those characters with only white space cut at either end, at most 133 characters in all |
| App.GenreTags | book_recommender/src/app.py:655-673 | no tags for missing, empty or "nan" genres. Otherwise exactly the first `min(3, k)` of the k pieces of `split(", ")` on the cleaned string. The tags are separator-free, made of the string's characters minus brackets and quotes, and join back to a prefix of the cleaned string, the whole of it when it had at most three pieces |
| Strings.LeadingSpace | book_recommender/src/app.py:680 | the left end of `strip()`: everything skipped is white space and the character it stops at is not |
| Strings.StripEnd | book_recommender/src/app.py:680 | the right end of `strip()`: everything cut is white space and the character before the cut is not |
| Strings.Strip | book_recommender/src/app.py:680 | the result is an infix of the input, only white space is removed at either end, and it neither starts nor ends with white space |
| Strings.RemoveChar | book_recommender/src/app.py:657-662 | every occurrence of the character is gone and every other character keeps its number of occurrences; a string without it is unchanged |
| Strings.RemoveCharAppend | book_recommender/src/app.py:657-662 | removal works piece by piece, so the kept characters stay in their order |
| Strings.SplitJoinRoundTrip | book_recommender/src/app.py:657-663 | joining the pieces of `split(", ")` with ", " gives the string back |
| Strings.SplitCommaSpace | book_recommender/src/app.py:662 | at least one piece; no piece contains ", "; the first piece is a prefix of the string, and every piece is made of the string's characters |
| Strings.SplitUnique | book_recommender/src/app.py:662 | cutting a string into separator-free pieces that join back to it can be done in one way only, and `split(", ")` is that way |
| Database.FirstMatch | book_recommender/src/database.py:218-221 | the lookup finds nothing exactly when no row has the pair; otherwise the first row, in table order, that has it |
| Database.Upserted | book_recommender/src/database.py:215-233 | a pair without a row gains exactly one row and the counter advances; a pair with a row keeps the row count and the counter; every row except the first match is unchanged |
| Database.RatingsTable.constructor | book_recommender/src/database.py:47-55 | the new table is empty and AUTOINCREMENT starts at 1 |
| Database.RatingsTable.AddRating | book_recommender/src/database.py:215-233 | the select-then-update-by-id-or-insert gives exactly `Upserted`, and ids stay distinct and below the counter |
| Database.UpsertStoresRating | book_recommender/src/database.py:222-231 | afterwards the pair's first row holds the new rating and timestamp |
| Database.UpsertIdempotent | book_recommender/src/database.py:215-233 | rating the same book twice adds no second row: the table ends as after the second call alone |
| Database.UpsertKeepsPairsUnique | book_recommender/src/database.py:218-231 | if each user rated each book in at most one row before, the same holds after |
| Database.UserRatings | book_recommender/src/database.py:243-251 | keys are exactly the books the user rated (empty map for no rows); for a book in several rows, the last row's rating wins |
| Database.UserRatingsListsEveryRating | book_recommender/src/database.py:243-251 | with one row per pair, every rating of the user appears in the map |
| Database.RatingReadBack | book_recommender/src/database.py:243-251 | after `add_rating(u, b, r)` the user's map sends b to r, and every other book keeps its presence and rating |
| Database.RatingsOf | book_recommender/src/database.py:264-270 | the ratings selected are those of the book's rows and every such row gives its rating; one row gives its rating or nothing |
| Database.RatingsOfAppend | book_recommender/src/database.py:264-270 | the selection goes row by row in table order, one rating per row, so repeated ratings all count towards the mean |
| Database.RoundHalfEvenTenths | book_recommender/src/database.py:273 | the result is within half a tenth of total/count, and an exact tie goes to the even tenth |
| Database.BookAverageRating | book_recommender/src/database.py:264-273 | 0.0 for a book without ratings; otherwise a whole number of tenths within 0.05 of the mean rating |
| Database.AverageWithinScale | book_recommender/src/database.py:264-273 | when every rating of the book lies in [lo, hi], so does its rounded average |

## Left out

- TF-IDF fitting and `linear_kernel` (`content_based.py:19-20,29,36-37`). These are sklearn floating-point calls. Their output, the cosine matrix or the query-score row, is a parameter.
- `random.uniform` (`content_based.py:54-55`). The draws are parameters bounded to [0, 0.07] and [0, 0.05].
- Floating point. Scores, the calibration and the mean are exact reals.
- Database.BookAverageRating: rounds the exact mean half to even. Python's `round` acts on the nearest double, so a tie such as 2.45, stored just above itself, may round the other way (2.5).
- Duplicate titles in the content index. The lookup is ill-defined for them, so the constructor requires distinct titles. It also assumes `books_df` has a RangeIndex, so row position equals index label.
- The network in `neural_network.py`: embeddings, optimiser and loss. Only the per-epoch progress reports of `train_model` are modelled. The `total_loss / len(train_loader)` division is never reached on an empty loader, because building the shuffled loader fails first.
- App.TrainNNModel: the file system, `torch.load`/`torch.save` and JSON I/O are boolean and option parameters. The metadata value is an integer or absent, and JSON types other than integers are not modelled. `st.cache_resource` memoisation is not modelled.
- App.TopPicksAreBest: uses the same stable ranking as the content engine. torch `argsort(descending=True)` does not promise stability, so ties among predictions may come out in another order. The model also assumes a one-dimensional prediction vector; with a single book, `squeeze()` gives a scalar, which is not modelled.
- Rendering: `st.*` calls, HTML/CSS, the catalogue lookup of each pick, and the formatting of ratings (`:.1f`) are left out. A missing author (NaN) in the favourite-author query is not modelled either.
- Strings.IsSpace: covers the code points Python's `str.isspace` accepts. There is no Unicode normalisation.
- The sqlite plumbing: connections, schema creation, CSV import, `create_user`, and the foreign keys. SQL `NULL` ratings are not modelled.
- Concurrency: the separate SELECT and UPDATE/INSERT of `add_rating` are modelled as one single-threaded step.
- `load_data`, `data_generator.py` and `download_real_data.py` are database and network I/O or random data generation.

## Findings

| source | as written | input that shows it | evidently intended | confidence | as-written member | corrected member |
|---|---|---|---|---|---|---|
| book_recommender/src/content_based.py:32 | `sim_scores[1 : top_n + 1]` drops the first-ranked entry, assuming it is the query book | two books with identical content (cosine 1.0 with each other); query the later one: the earlier row ranks first on the tie and is dropped, so the query book itself is returned | never recommend the query book itself | not executed | ContentBased.QueryBookReturnedOnTie | ContentBased.ContentBasedRecommender.GetRecommendationsExcludingSelf |
