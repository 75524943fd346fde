/**
 `User.similarity`: build both users' score dictionaries over the movies they
 share, pair the scores up in the first dictionary's key order, and hand the
 pair list to the correlation function. The correlation function lives in
 another file and works in floating point; it is a parameter here and nothing
 is assumed about it.
 */
module Similarity {
  import opened Ratings
  import opened Scores
  import opened Pairing

  /** A set with no member is the empty set. */
  lemma NoMemberMeansEmpty(s: set<int>)
    ensures (forall x :: x !in s) ==> s == {}
  {
    if forall x :: x !in s {
      assert s == {};
    }
  }

  /** Iterating a dictionary's keys: every key exactly once, in an order the
      language does not fix. Each step picks any key not yet visited. */
  method IterationOrder(keys: set<int>) returns (order: seq<int>)
    ensures IsEnumeration(order, keys)
  {
    order := [];
    var remaining := keys;
    while remaining != {}
      invariant remaining <= keys
      invariant IsEnumeration(order, keys - remaining)
      decreases remaining
    {
      NoMemberMeansEmpty(remaining);
      var k :| k in remaining;
      assert k !in order;
      order := order + [k];
      remaining := remaining - {k};
    }
  }

  /** The pair list handed to the correlation function: one pair per movie
      both users rated, in some iteration order, holding each user's last
      score for that movie. */
  method SimilarityPairs(u: User, o: User) returns (pairs: seq<ScorePair>)
    ensures |pairs| == |SharedMovies(u, o)|
    ensures exists keys :: IsEnumeration(keys, SharedMovies(u, o))
                           && pairs == ExpectedPairs(u, o, keys)
  {
    var both := MovieIds(u.ratings) * MovieIds(o.ratings);
    var uScores := BuildScores(u.ratings, both);
    var oScores := BuildScores(o.ratings, both);
    var keys := IterationOrder(uScores.Keys);
    LookupNeverMisses(u, o, uScores, oScores, keys);
    var looked := LookupPairs(uScores, oScores, keys);
    pairs := looked.value;
    PairCount(u, o, keys);
  }

  /** Pearson correlation applied to exactly the shared-movie pairs. With no
      shared movie the correlation function receives the empty list. */
  method Similarity<R>(u: User, o: User, pearson: seq<ScorePair> -> R) returns (r: R)
    ensures exists keys :: IsEnumeration(keys, SharedMovies(u, o))
                           && r == pearson(ExpectedPairs(u, o, keys))
    ensures SharedMovies(u, o) == {} ==> r == pearson([])
  {
    var pairs := SimilarityPairs(u, o);
    r := pearson(pairs);
  }
}
