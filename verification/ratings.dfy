/**
 The data shapes the similarity computation reads: a rating row and a user
 with the ordered list of their ratings. Nothing here is ever mutated; the
 computation only reads these values.
 */
module Ratings {

  /** One row of the ratings table. `ratingId` is the auto-incremented
      primary key; `score` is taken to be present (never NULL). */
  datatype Rating = Rating(ratingId: int, movieId: int, score: int)

  /** A user and the `ratings` backref, which lists the user's ratings in
      ascending `ratingId` order. The user id plays no part in similarity. */
  datatype User = User(userId: int, ratings: seq<Rating>)

  /** (score given by the first user, score given by the second user) for
      one movie both rated. */
  type ScorePair = (int, int)

  datatype Option<+T> = None | Some(value: T)

  /** The outcome of a dictionary lookup sequence: the value, or the key
      that was missing (Python's KeyError). */
  datatype Result<+T> = Ok(value: T) | KeyError(key: int)

  /** Some rating in `rs` is for movie `m`. */
  ghost predicate Rated(rs: seq<Rating>, m: int)
  {
    exists i :: 0 <= i < |rs| && rs[i].movieId == m
  }

  /** The set of movie ids appearing in a rating list. */
  function MovieIds(rs: seq<Rating>): (ids: set<int>)
    ensures forall m :: m in ids <==> Rated(rs, m)
  {
    set r | r in rs :: r.movieId
  }

  /** The shape the `order_by=rating_id` backref guarantees: rating ids
      strictly increase along the list (they are primary keys). */
  ghost predicate OrderedByRatingId(rs: seq<Rating>)
  {
    forall i, j :: 0 <= i < j < |rs| ==> rs[i].ratingId < rs[j].ratingId
  }
}
