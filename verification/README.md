# Movie-ratings user similarity, modelled in Dafny

This project models the one computation in the movie-ratings web application:
`User.similarity` in `model.py`. Given two users and their ratings, it does
five things:

1. It collects the movie ids each user rated.
2. It intersects the two id sets.
3. It builds a `movie_id -> score` dictionary per user over the shared movies.
   The user's ratings are walked in list order, so a later rating of the same
   movie overwrites an earlier one.
4. It emits one `(self score, other score)` pair per key of the first
   dictionary.
5. It returns `pearson(pairs)`.

Files and modules:

- `ratings.dfy` (`Ratings`): the `Rating` row, the `User` with their ordered
  rating list, the `ScorePair`, and the set of movie ids in a rating list.
- `scores.dfy` (`Scores`): the per-user score dictionary. `BuildScores` is the
  forward loop that overwrites entries. `LastScore` is the independent
  reference: scan from the end and take the first rating for the movie.
- `pairing.dfy` (`Pairing`): the shared movie set and the pair loop.
  `LookupPairs` models the lookup with Python's KeyError kept as an explicit
  outcome. `ExpectedPairs` is the reference pair list. The lemmas cover pair
  count, pair components, order independence, swapping the users, and
  ignoring unshared ratings.
- `similarity.dfy` (`Similarity`): the method as a whole. The key iteration
  order is a nondeterministic choice. The correlation function is a
  parameter `pearson: seq<ScorePair> -> R` about which nothing is assumed.

The source is Python 2 (`model.py:118` uses the `print` statement), so the
order of dictionary keys is not fixed. Every contract about pairs therefore
says "for some enumeration of the shared movies". Lemmas about the multiset of
pairs hold for every order. All values are immutable, so neither user's
ratings can be changed by the computation.

## Model

| member | source | states |
|---|---|---|
| Ratings.MovieIds | model.py:40-41 | A movie id is in the set exactly when some rating in the list is for that movie. |
| Pairing.SharedMovies | model.py:42 | A movie is shared exactly when both users have at least one rating for it. |
| Scores.LastScore | model.py:43-51 | Reference for the score used per movie. It is absent exactly when the user never rated the movie. Otherwise it is the score at an index that rates the movie with no later rating for it. |
| Scores.BuildScores | model.py:43-51 | The dictionary has exactly the rated movies that are in the kept set. Each movie maps to the score of its last rating in the list, so repeated ratings resolve to the last one. |
| Scores.LastScoreIgnoresOtherMovie | model.py:44-46 | Inserting a rating for a different movie anywhere in the list does not change the score kept for a movie. |
| Scores.LastRatingWins | model.py:82-88 | In a list ordered by rating id, the score kept for a movie comes from its rating with the highest rating id. |
| Pairing.LookupPairs | model.py:53-56 | The pair loop succeeds exactly when every key is also in the second dictionary. A failure names a key missing from it. On success, pair i holds both dictionaries' values for key i. |
| Pairing.LookupNeverMisses | model.py:45-55 | When both dictionaries are built over the shared movies, they have the same keys, the lookup `o_scores[movie_id]` never raises, and the pairs equal the reference pairs. |
| Pairing.PairCount | model.py:42-56 | There are as many pairs as distinct shared movies, whatever duplicate ratings either list holds. |
| Pairing.PairComponents | model.py:54-55 | Each pair belongs to a movie both users rated. Its first component is the first user's last rating of that movie and its second is the second user's last rating of the same movie. |
| Pairing.OrderIrrelevant | model.py:53-56 | Any two iteration orders of the shared movies give the same multiset of pairs. |
| Pairing.SwapUsersSameOrder | model.py:36-56 | Exchanging the users keeps the shared set, and in the same key order every pair has its components swapped. |
| Pairing.SwapUsers | model.py:36-56 | Whatever orders the two calls iterate in, exchanging the users gives the same multiset of pairs with each pair's components swapped. |
| Pairing.UnsharedRatingIgnored | model.py:40-46 | Giving the first user an extra rating for a movie the second user never rated changes neither the shared set nor any pair. |
| Pairing.UnsharedRatingIgnoredOther | model.py:41-51 | Giving the second user an extra rating for a movie the first user never rated changes neither the shared set nor any pair. |
| Similarity.IterationOrder | model.py:54 | Iterating a dictionary's keys visits every key exactly once, in some order. |
| Similarity.SimilarityPairs | model.py:36-56 | The pair list has one entry per shared movie. For some enumeration of the shared movies, it equals the reference pairs. |
| Similarity.Similarity | model.py:32-58 | The result is the correlation function applied to the reference pairs of some enumeration of the shared movies. When no movie is shared, it is the correlation function applied to the empty list. |

## Left out

- `pearson` (imported at `model.py:4` from `correlation.py`): `correlation.py` is not part of this model. It computes in floating point. Here it is an arbitrary function parameter, and no claim is made about its range, symmetry or behaviour with zero variance.
- Empty overlap: the result is not wrapped in an "undefined" outcome when the overlap is empty. The code passes the empty list to `pearson` and returns whatever that gives, and the model follows the code.
- Rating prediction (a similarity-weighted average over neighbours): the code has only empty commented-out stubs (`model.py:61-64`), so there is no behaviour to model.
- The database layer: column and relationship declarations beyond the data shape, `__repr__`, and `connect_to_db` (`model.py:16-30`, `69-118`). The `ratings` backref is modelled as a sequence, and its order by `rating_id` as the predicate `OrderedByRatingId`.
- Nullable `score` (`model.py:85`): scores are modelled as `int` and taken to be present.
- At most one rating per user and movie is not assumed. Nothing in the schema enforces it, and the code handles duplicates (last rating wins), so the model does too.
- Key order: the model does not fix which order Python 2 dictionaries iterate integer keys in. It only says every key is visited exactly once. No order is sorted by movie id.
- `server.py` (web routes, sessions, templates, queries) and `seed.py` (file import): I/O plumbing with no logic of the core.
- `Rating` carries `ratingId` in addition to `movieId` and `score`, so that "last rating wins" can be stated as "highest rating id wins". `user_id` is implied by which user's list holds the rating and is not stored.
