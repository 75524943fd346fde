/**
 Pair construction: the movies both users rated, and one
 (first user's score, second user's score) pair per such movie, taken in the
 order the first user's score dictionary yields its keys.
 */
module Pairing {
  import opened Ratings
  import opened Scores

  /** No movie id occurs twice in `keys`. */
  ghost predicate Distinct(keys: seq<int>)
  {
    forall i, j :: 0 <= i < j < |keys| ==> keys[i] != keys[j]
  }

  /** Every entry of `keys` belongs to `s`. */
  ghost predicate AllIn(keys: seq<int>, s: set<int>)
  {
    forall i :: 0 <= i < |keys| ==> keys[i] in s
  }

  /** Membership of every entry distributes over concatenation. */
  lemma AllInAppend(a: seq<int>, b: seq<int>, s: set<int>)
    ensures AllIn(a + b, s) <==> AllIn(a, s) && AllIn(b, s)
  {
    if AllIn(a, s) && AllIn(b, s) {
      forall i | 0 <= i < |a + b| ensures (a + b)[i] in s {
        if i >= |a| { assert (a + b)[i] == b[i - |a|]; }
      }
    }
    if AllIn(a + b, s) {
      forall i | 0 <= i < |a| ensures a[i] in s { assert a[i] == (a + b)[i]; }
      forall i | 0 <= i < |b| ensures b[i] in s { assert b[i] == (a + b)[i + |a|]; }
    }
  }

  /** `keys` lists every element of `s` exactly once: one possible order in
      which a dictionary whose key set is `s` can be iterated. */
  ghost predicate IsEnumeration(keys: seq<int>, s: set<int>)
  {
    && Distinct(keys)
    && AllIn(keys, s)
    && forall k :: k in s ==> k in keys
  }

  /** The movies both users rated (the set intersection). */
  function SharedMovies(u: User, o: User): (both: set<int>)
    ensures forall m :: m in both <==> Rated(u.ratings, m) && Rated(o.ratings, m)
  {
    MovieIds(u.ratings) * MovieIds(o.ratings)
  }

  /** Reference pair list for a given key order: for each movie, the last
      score each user gave it. */
  function ExpectedPairs(u: User, o: User, keys: seq<int>): seq<ScorePair>
    requires AllIn(keys, SharedMovies(u, o))
  {
    seq(|keys|, i requires 0 <= i < |keys| =>
      assert keys[i] in SharedMovies(u, o);
      (LastScore(u.ratings, keys[i]).value, LastScore(o.ratings, keys[i]).value))
  }

  /** The pair loop over the first user's dictionary: each key is looked up
      in both dictionaries. Keys come from `uScores` itself, so that lookup
      cannot miss; a key absent from `oScores` raises a KeyError, reported
      here as the first such key. */
  function LookupPairs(uScores: map<int, int>, oScores: map<int, int>, keys: seq<int>)
    : (r: Result<seq<ScorePair>>)
    requires AllIn(keys, uScores.Keys)
    ensures r.Ok? <==> AllIn(keys, oScores.Keys)
    ensures r.Ok? ==> |r.value| == |keys|
    ensures r.Ok? ==> forall i :: 0 <= i < |keys| ==>
                        keys[i] in oScores && r.value[i] == (uScores[keys[i]], oScores[keys[i]])
    ensures r.KeyError? ==> r.key in keys && r.key !in oScores
  {
    if |keys| == 0 then Ok([])
    else if keys[0] !in oScores then KeyError(keys[0])
    else
      assert keys[0] in uScores;
      assert AllIn(keys[1..], uScores.Keys) by {
        forall i | 0 <= i < |keys[1..]| ensures keys[1..][i] in uScores { assert keys[1..][i] == keys[i + 1]; }
      }
      match LookupPairs(uScores, oScores, keys[1..])
      case Ok(rest) => Ok([(uScores[keys[0]], oScores[keys[0]])] + rest)
      case KeyError(k) => KeyError(k)
  }

  /** When both dictionaries are built over the shared movies, every key of
      the first is a key of the second, so the pair loop never raises and
      yields exactly the reference pairs. */
  lemma LookupNeverMisses(u: User, o: User, uScores: map<int, int>, oScores: map<int, int>, keys: seq<int>)
    requires IsScoreMap(uScores, u.ratings, SharedMovies(u, o))
    requires IsScoreMap(oScores, o.ratings, SharedMovies(u, o))
    requires AllIn(keys, uScores.Keys)
    ensures uScores.Keys == oScores.Keys == SharedMovies(u, o)
    ensures AllIn(keys, SharedMovies(u, o))
    ensures LookupPairs(uScores, oScores, keys) == Ok(ExpectedPairs(u, o, keys))
  {
    var both := SharedMovies(u, o);
    assert uScores.Keys == both by {
      assert uScores.Keys == MovieIds(u.ratings) * both;
    }
    assert oScores.Keys == both by {
      assert oScores.Keys == MovieIds(o.ratings) * both;
    }
    assert AllIn(keys, both);
    assert AllIn(keys, oScores.Keys);
    var r := LookupPairs(uScores, oScores, keys);
    assert r.Ok?;
    var e := ExpectedPairs(u, o, keys);
    assert |r.value| == |e|;
    forall i | 0 <= i < |keys|
      ensures r.value[i] == e[i]
    {
      var k := keys[i];
      assert r.value[i] == (uScores[k], oScores[k]);
      assert e[i] == (LastScore(u.ratings, k).value, LastScore(o.ratings, k).value);
      assert LastScore(u.ratings, k) == Some(uScores[k]);
      assert LastScore(o.ratings, k) == Some(oScores[k]);
    }
    assert r.value == e;
  }

  /** A duplicate-free list has as many elements as its set of elements. */
  lemma {:induction false} DistinctCardinality(keys: seq<int>)
    requires Distinct(keys)
    ensures |set k | k in keys| == |keys|
  {
    if |keys| > 0 {
      var tail := keys[1..];
      assert Distinct(tail) by {
        forall i, j | 0 <= i < j < |tail| ensures tail[i] != tail[j] {
          assert tail[i] == keys[i + 1] && tail[j] == keys[j + 1];
        }
      }
      DistinctCardinality(tail);
      assert (set k | k in keys) == {keys[0]} + (set k | k in tail) by {
        assert keys == [keys[0]] + tail;
      }
      assert keys[0] !in (set k | k in tail) by {
        forall j | 0 <= j < |tail| ensures tail[j] != keys[0] {
          assert tail[j] == keys[j + 1];
        }
      }
    }
  }

  /** One pair per shared movie: the pair count is the number of distinct
      movies both users rated, whatever duplicates the rating lists hold. */
  lemma PairCount(u: User, o: User, keys: seq<int>)
    requires IsEnumeration(keys, SharedMovies(u, o))
    ensures |ExpectedPairs(u, o, keys)| == |SharedMovies(u, o)|
  {
    DistinctCardinality(keys);
    assert (set k | k in keys) == SharedMovies(u, o);
  }

  /** Each pair belongs to one movie both users rated: its first component
      is the first user's last rating of that movie and its second the
      second user's last rating of the same movie. */
  lemma PairComponents(u: User, o: User, keys: seq<int>, i: int)
    requires AllIn(keys, SharedMovies(u, o))
    requires 0 <= i < |keys|
    ensures Rated(u.ratings, keys[i]) && Rated(o.ratings, keys[i])
    ensures exists a :: IsLastFor(u.ratings, a, keys[i])
                        && u.ratings[a].score == ExpectedPairs(u, o, keys)[i].0
    ensures exists b :: IsLastFor(o.ratings, b, keys[i])
                        && o.ratings[b].score == ExpectedPairs(u, o, keys)[i].1
  {
    var k := keys[i];
    assert k in SharedMovies(u, o);
    var lu, lo := LastScore(u.ratings, k), LastScore(o.ratings, k);
    assert lu.Some? && lo.Some?;
    assert ExpectedPairs(u, o, keys)[i] == (lu.value, lo.value);
  }

  /** Each pair with its components exchanged. */
  function Swapped(ps: seq<ScorePair>): (r: seq<ScorePair>)
    ensures |r| == |ps|
    ensures forall i :: 0 <= i < |ps| ==> r[i].0 == ps[i].1 && r[i].1 == ps[i].0
  {
    if |ps| == 0 then [] else [(ps[0].1, ps[0].0)] + Swapped(ps[1..])
  }

  /** Splitting the key order splits the pair list. */
  lemma ExpectedPairsAppend(u: User, o: User, a: seq<int>, b: seq<int>)
    requires AllIn(a, SharedMovies(u, o)) && AllIn(b, SharedMovies(u, o))
    ensures AllIn(a + b, SharedMovies(u, o))
    ensures ExpectedPairs(u, o, a + b) == ExpectedPairs(u, o, a) + ExpectedPairs(u, o, b)
  {
    AllInAppend(a, b, SharedMovies(u, o));
  }

  /** The pair multiset does not depend on the order the keys are visited in. */
  lemma {:induction false} PermutedKeysSamePairs(u: User, o: User, k1: seq<int>, k2: seq<int>)
    requires AllIn(k1, SharedMovies(u, o))
    requires multiset(k1) == multiset(k2)
    ensures AllIn(k2, SharedMovies(u, o))
    ensures multiset(ExpectedPairs(u, o, k1)) == multiset(ExpectedPairs(u, o, k2))
    decreases |k1|
  {
    forall i | 0 <= i < |k2| ensures k2[i] in SharedMovies(u, o) {
      assert k2[i] in multiset(k2);
      assert k2[i] in multiset(k1);
      var j :| 0 <= j < |k1| && k1[j] == k2[i];
    }
    if |k1| == 0 {
      assert |k2| == |multiset(k2)| == 0;
    } else {
      var x := k1[0];
      assert x in multiset(k2);
      var j :| 0 <= j < |k2| && k2[j] == x;
      var rest := k2[..j] + k2[j + 1..];
      assert k1 == [x] + k1[1..];
      assert k2 == k2[..j] + [x] + k2[j + 1..];
      assert multiset(k1) == multiset{x} + multiset(k1[1..]);
      assert multiset(k2) == multiset(k2[..j]) + multiset{x} + multiset(k2[j + 1..]);
      assert multiset(rest) == multiset(k2[..j]) + multiset(k2[j + 1..]);
      forall y ensures multiset(k1[1..])[y] == multiset(rest)[y] {
        assert multiset(k1)[y] == multiset(k2)[y];
      }
      assert multiset(k1[1..]) == multiset(rest);
      var s := SharedMovies(u, o);
      AllInAppend([x], k1[1..], s);
      AllInAppend(k2[..j] + [x], k2[j + 1..], s);
      AllInAppend(k2[..j], [x], s);
      PermutedKeysSamePairs(u, o, k1[1..], rest);
      ExpectedPairsAppend(u, o, [x], k1[1..]);
      ExpectedPairsAppend(u, o, k2[..j], [x]);
      ExpectedPairsAppend(u, o, k2[..j] + [x], k2[j + 1..]);
      ExpectedPairsAppend(u, o, k2[..j], k2[j + 1..]);
    }
  }

  /** In a duplicate-free list every element occurs exactly once. */
  lemma {:induction false} DistinctOccursOnce(keys: seq<int>, x: int)
    requires Distinct(keys)
    ensures multiset(keys)[x] == if x in keys then 1 else 0
  {
    if |keys| > 0 {
      var tail := keys[1..];
      assert keys == [keys[0]] + tail;
      assert Distinct(tail) by {
        forall i, j | 0 <= i < j < |tail| ensures tail[i] != tail[j] {
          assert tail[i] == keys[i + 1] && tail[j] == keys[j + 1];
        }
      }
      DistinctOccursOnce(tail, x);
      if x == keys[0] {
        assert x !in tail by {
          forall j | 0 <= j < |tail| ensures tail[j] != x {
            assert tail[j] == keys[j + 1];
          }
        }
      }
    }
  }

  /** Whatever order the shared movies are visited in, the same multiset of
      pairs is produced. */
  lemma OrderIrrelevant(u: User, o: User, k1: seq<int>, k2: seq<int>)
    requires IsEnumeration(k1, SharedMovies(u, o))
    requires IsEnumeration(k2, SharedMovies(u, o))
    ensures multiset(ExpectedPairs(u, o, k1)) == multiset(ExpectedPairs(u, o, k2))
  {
    forall x ensures multiset(k1)[x] == multiset(k2)[x] {
      DistinctOccursOnce(k1, x);
      DistinctOccursOnce(k2, x);
    }
    assert multiset(k1) == multiset(k2);
    PermutedKeysSamePairs(u, o, k1, k2);
  }

  /** Exchanging the two users keeps the shared movies and, for the same
      key order, exchanges the components of every pair. */
  lemma SwapUsersSameOrder(u: User, o: User, keys: seq<int>)
    requires AllIn(keys, SharedMovies(u, o))
    ensures SharedMovies(o, u) == SharedMovies(u, o)
    ensures AllIn(keys, SharedMovies(o, u))
    ensures ExpectedPairs(o, u, keys) == Swapped(ExpectedPairs(u, o, keys))
  {
  }

  /** Whatever orders the two calls iterate in, exchanging the users gives
      the same multiset of pairs with each pair's components exchanged. */
  lemma SwapUsers(u: User, o: User, k1: seq<int>, k2: seq<int>)
    requires IsEnumeration(k1, SharedMovies(u, o))
    requires IsEnumeration(k2, SharedMovies(o, u))
    ensures multiset(ExpectedPairs(o, u, k2)) == multiset(Swapped(ExpectedPairs(u, o, k1)))
  {
    SwapUsersSameOrder(u, o, k1);
    OrderIrrelevant(o, u, k2, k1);
  }

  /** Giving the first user an extra rating, anywhere in their list, for a
      movie the second user never rated changes neither the shared movies
      nor any pair. */
  lemma UnsharedRatingIgnored(u: User, o: User, p: int, r: Rating, keys: seq<int>)
    requires 0 <= p <= |u.ratings|
    requires !Rated(o.ratings, r.movieId)
    requires AllIn(keys, SharedMovies(u, o))
    ensures SharedMovies(u.(ratings := u.ratings[..p] + [r] + u.ratings[p..]), o) == SharedMovies(u, o)
    ensures ExpectedPairs(u.(ratings := u.ratings[..p] + [r] + u.ratings[p..]), o, keys)
         == ExpectedPairs(u, o, keys)
  {
    var u' := u.(ratings := u.ratings[..p] + [r] + u.ratings[p..]);
    assert u.ratings == u.ratings[..p] + u.ratings[p..];
    forall m ensures m in SharedMovies(u', o) <==> m in SharedMovies(u, o) {
      if m != r.movieId {
        LastScoreIgnoresOtherMovie(u.ratings, p, r, m);
      }
    }
    forall i | 0 <= i < |keys|
      ensures ExpectedPairs(u', o, keys)[i] == ExpectedPairs(u, o, keys)[i]
    {
      assert keys[i] in SharedMovies(u, o);
      LastScoreIgnoresOtherMovie(u.ratings, p, r, keys[i]);
    }
  }

  /** The same for an extra rating given to the second user for a movie the
      first user never rated. */
  lemma UnsharedRatingIgnoredOther(u: User, o: User, p: int, r: Rating, keys: seq<int>)
    requires 0 <= p <= |o.ratings|
    requires !Rated(u.ratings, r.movieId)
    requires AllIn(keys, SharedMovies(u, o))
    ensures SharedMovies(u, o.(ratings := o.ratings[..p] + [r] + o.ratings[p..])) == SharedMovies(u, o)
    ensures ExpectedPairs(u, o.(ratings := o.ratings[..p] + [r] + o.ratings[p..]), keys)
         == ExpectedPairs(u, o, keys)
  {
    var o' := o.(ratings := o.ratings[..p] + [r] + o.ratings[p..]);
    assert o.ratings == o.ratings[..p] + o.ratings[p..];
    forall m ensures m in SharedMovies(u, o') <==> m in SharedMovies(u, o) {
      if m != r.movieId {
        LastScoreIgnoresOtherMovie(o.ratings, p, r, m);
      }
    }
    forall i | 0 <= i < |keys|
      ensures ExpectedPairs(u, o', keys)[i] == ExpectedPairs(u, o, keys)[i]
    {
      assert keys[i] in SharedMovies(u, o);
      LastScoreIgnoresOtherMovie(o.ratings, p, r, keys[i]);
    }
  }
}
