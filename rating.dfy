/** The rating range filter: keep, in order, the problems whose rating is
    defined and lies within inclusive bounds. */
module Rating {
  import opened Codeforces
  import opened Sequences

  /** The predicate the source hands to `filter`. */
  predicate RatedWithin(rmin: int, rmax: int, p: Problem)
  {
    p.rating.Some? && rmin <= p.rating.value <= rmax
  }

  function RatingTest(rmin: int, rmax: int): Problem -> bool
  {
    p => RatedWithin(rmin, rmax, p)
  }

  /** `filter_by_rating`. */
  function FilterByRating(problems: seq<Problem>, rmin: int, rmax: int): (r: seq<Problem>)
    ensures |r| <= |problems|
    ensures forall p :: p in r ==> p in problems && p.rating.Some? && rmin <= p.rating.value <= rmax
  {
    Keep(problems, RatingTest(rmin, rmax))
  }

  /** A problem survives exactly when it is in the input and has a rating
      within the bounds; in particular an unrated problem never does. */
  lemma RatingFilterExactly(problems: seq<Problem>, rmin: int, rmax: int, p: Problem)
    ensures p in FilterByRating(problems, rmin, rmax) <==>
      p in problems && p.rating.Some? && rmin <= p.rating.value <= rmax
    ensures p.rating.None? ==> p !in FilterByRating(problems, rmin, rmax)
  {
    KeepMembers(problems, RatingTest(rmin, rmax), p);
  }

  /** The survivors keep their input order: they sit at increasing input
      positions, which are exactly the positions of rated-within problems. */
  lemma RatingFilterKeepsOrder(problems: seq<Problem>, rmin: int, rmax: int)
    ensures exists idx :: PicksPositions(problems, RatingTest(rmin, rmax), idx, FilterByRating(problems, rmin, rmax))
  {
    KeepPicksPositions(problems, RatingTest(rmin, rmax));
    var idx :| PicksPositions(problems, RatingTest(rmin, rmax), idx, Keep(problems, RatingTest(rmin, rmax)));
    assert PicksPositions(problems, RatingTest(rmin, rmax), idx, FilterByRating(problems, rmin, rmax));
  }

  /** Filtering twice with the same bounds is filtering once. */
  lemma RatingFilterIdempotent(problems: seq<Problem>, rmin: int, rmax: int)
    ensures FilterByRating(FilterByRating(problems, rmin, rmax), rmin, rmax) == FilterByRating(problems, rmin, rmax)
  {
    KeepIdempotent(problems, RatingTest(rmin, rmax));
  }
}
