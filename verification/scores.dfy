/**
 The per-user score dictionary: for every movie in a chosen key set, the
 score the user gave it. Ratings are walked in list order and each one
 overwrites the entry for its movie, so a movie rated several times keeps the
 score of its last rating.
 */
module Scores {
  import opened Ratings

  /** Index `i` holds a rating for `m` and no later rating in `rs` is for `m`. */
  ghost predicate IsLastFor(rs: seq<Rating>, i: int, m: int)
  {
    && 0 <= i < |rs|
    && rs[i].movieId == m
    && forall j :: i < j < |rs| ==> rs[j].movieId != m
  }

  /** Reference reading of "the score this user gave movie m": scan the list
      from its end and take the first rating for `m`. */
  function LastScore(rs: seq<Rating>, m: int): (r: Option<int>)
    ensures r.None? <==> !Rated(rs, m)
    ensures r.Some? ==> exists i :: IsLastFor(rs, i, m) && rs[i].score == r.value
    decreases |rs|
  {
    if |rs| == 0 then None
    else if rs[|rs| - 1].movieId == m then
      assert IsLastFor(rs, |rs| - 1, m);
      Some(rs[|rs| - 1].score)
    else
      var r := LastScore(rs[..|rs| - 1], m);
      assert forall i :: 0 <= i < |rs| - 1 ==> rs[..|rs| - 1][i] == rs[i];
      r
  }

  /** `scores` is a dictionary of the kind the source builds: exactly the
      movies of `rs` that are in `keep`, each with its last score. */
  ghost predicate IsScoreMap(scores: map<int, int>, rs: seq<Rating>, keep: set<int>)
  {
    && scores.Keys == MovieIds(rs) * keep
    && forall m :: m in scores ==> LastScore(rs, m) == Some(scores[m])
  }

  /** Walks `rs` in order and records `score` under `movieId` for every
      rating whose movie is in `keep`, overwriting earlier entries. */
  method BuildScores(rs: seq<Rating>, keep: set<int>) returns (scores: map<int, int>)
    ensures scores.Keys == MovieIds(rs) * keep
    ensures forall m :: m in scores ==> LastScore(rs, m) == Some(scores[m])
  {
    scores := map[];
    var i := 0;
    while i < |rs|
      invariant 0 <= i <= |rs|
      invariant IsScoreMap(scores, rs[..i], keep)
    {
      var rating := rs[i];
      assert rs[..i + 1][..i] == rs[..i];
      assert MovieIds(rs[..i + 1]) == MovieIds(rs[..i]) + {rating.movieId} by {
        assert rs[..i + 1] == rs[..i] + [rating];
      }
      if rating.movieId in keep {
        scores := scores[rating.movieId := rating.score];
      }
      i := i + 1;
    }
    assert rs[..i] == rs;
  }

  /** Inserting a rating for another movie anywhere in the list leaves the
      last score of `m` unchanged. */
  lemma {:induction false} LastScoreIgnoresOtherMovie(rs: seq<Rating>, p: int, r: Rating, m: int)
    requires 0 <= p <= |rs|
    requires r.movieId != m
    ensures LastScore(rs[..p] + [r] + rs[p..], m) == LastScore(rs, m)
    decreases |rs| - p
  {
    var ins := rs[..p] + [r] + rs[p..];
    if p == |rs| {
      assert ins[..|ins| - 1] == rs;
    } else {
      var n := |rs|;
      assert ins[|ins| - 1] == rs[n - 1];
      assert ins[..|ins| - 1] == rs[..n - 1][..p] + [r] + rs[..n - 1][p..];
      if rs[n - 1].movieId != m {
        LastScoreIgnoresOtherMovie(rs[..n - 1], p, r, m);
      }
    }
  }

  /** Because the list is ordered by rating id, the score kept for a movie
      is the score of its rating with the highest rating id. */
  lemma LastRatingWins(rs: seq<Rating>, m: int)
    requires OrderedByRatingId(rs)
    requires Rated(rs, m)
    ensures exists i :: && 0 <= i < |rs| && rs[i].movieId == m
                        && LastScore(rs, m) == Some(rs[i].score)
                        && forall j :: 0 <= j < |rs| && rs[j].movieId == m ==> rs[j].ratingId <= rs[i].ratingId
  {
    var last := LastScore(rs, m);
    assert last.Some?;
    var i :| IsLastFor(rs, i, m) && rs[i].score == last.value;
    forall j | 0 <= j < |rs| && rs[j].movieId == m
      ensures rs[j].ratingId <= rs[i].ratingId
    {
      if j < i {
        assert rs[j].ratingId < rs[i].ratingId;
      }
    }
    assert last == Some(rs[i].score);
  }
}
