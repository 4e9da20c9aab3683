/** The denormalised rating of a resource: the count and mean of the ratings of its
    reviews that are not hidden. */
module Ratings {
  import opened Domain

  /** A review counts towards resource rid when it belongs to rid and is not hidden. */
  predicate Visible(r: Review, rid: int) {
    r.resourceId == rid && !r.isHidden
  }

  /** What one review adds to the aggregate of rid. */
  function Contribution(r: Review, rid: int): seq<int> {
    if Visible(r, rid) then [r.rating] else []
  }

  /** The ratings the aggregate query of rid sees, in table order. */
  function VisibleRatings(reviews: seq<Review>, rid: int): (rs: seq<int>)
    ensures |rs| <= |reviews|
  {
    if reviews == [] then []
    else VisibleRatings(reviews[..|reviews| - 1], rid) + Contribution(reviews[|reviews| - 1], rid)
  }

  function Sum(xs: seq<int>): int {
    if xs == [] then 0 else Sum(xs[..|xs| - 1]) + xs[|xs| - 1]
  }

  /** SQL AVG as stored in rating_avg: 0.0 for no ratings. */
  function Mean(xs: seq<int>): (r: real)
    ensures xs == [] ==> r == 0.0
  {
    if xs == [] then 0.0 else Sum(xs) as real / |xs| as real
  }

  /** Over a non-empty list the mean times the count is the sum. */
  lemma MeanTimesCount(xs: seq<int>)
    requires xs != []
    ensures Mean(xs) * (|xs| as real) == Sum(xs) as real
  {
  }

  /** The indices of the reviews that count for rid. */
  function VisibleIndices(reviews: seq<Review>, rid: int): set<int> {
    set k | 0 <= k < |reviews| && Visible(reviews[k], rid)
  }

  /** rating_count is the number of non-hidden reviews of the resource. */
  lemma {:induction false} CountIsVisibleReviews(reviews: seq<Review>, rid: int)
    ensures |VisibleRatings(reviews, rid)| == |VisibleIndices(reviews, rid)|
  {
    if reviews != [] {
      var n := |reviews| - 1;
      var prefix := reviews[..n];
      CountIsVisibleReviews(prefix, rid);
      var before := VisibleIndices(prefix, rid);
      if Visible(reviews[n], rid) {
        assert VisibleIndices(reviews, rid) == before + {n};
        assert n !in before;
      } else {
        assert VisibleIndices(reviews, rid) == before;
      }
    }
  }

  /** Every visible rating comes from a non-hidden review of rid, and every such
      review's rating is among them. */
  lemma {:induction false} VisibleRatingsMembers(reviews: seq<Review>, rid: int)
    ensures forall x :: x in VisibleRatings(reviews, rid) <==>
      exists k :: 0 <= k < |reviews| && Visible(reviews[k], rid) && reviews[k].rating == x
  {
    if reviews != [] {
      var n := |reviews| - 1;
      VisibleRatingsMembers(reviews[..n], rid);
      assert forall k :: 0 <= k < n ==> reviews[..n][k] == reviews[k];
    }
  }

  /** Appending a review extends the ratings of its own resource only. */
  lemma VisibleRatingsAppend(reviews: seq<Review>, r: Review, rid: int)
    ensures VisibleRatings(reviews + [r], rid) == VisibleRatings(reviews, rid) + Contribution(r, rid)
  {
    assert (reviews + [r])[..|reviews|] == reviews;
  }

  /** Two tables whose rows contribute the same to rid give rid the same ratings; so
      editing, hiding or reporting a review of another resource, or reporting any
      review, leaves rid's aggregate as it was. */
  lemma {:induction false} VisibleRatingsAgree(a: seq<Review>, b: seq<Review>, rid: int)
    requires |a| == |b|
    requires forall k :: 0 <= k < |a| ==> Contribution(a[k], rid) == Contribution(b[k], rid)
    ensures VisibleRatings(a, rid) == VisibleRatings(b, rid)
  {
    if a != [] {
      var n := |a| - 1;
      VisibleRatingsAgree(a[..n], b[..n], rid);
    }
  }

  /** A resource no review refers to has no ratings. */
  lemma {:induction false} NoReviewsNoRatings(reviews: seq<Review>, rid: int)
    requires forall k :: 0 <= k < |reviews| ==> reviews[k].resourceId != rid
    ensures VisibleRatings(reviews, rid) == []
  {
    if reviews != [] {
      NoReviewsNoRatings(reviews[..|reviews| - 1], rid);
    }
  }

  predicate AllStars(xs: seq<int>) {
    forall k :: 0 <= k < |xs| ==> 1 <= xs[k] <= 5
  }

  lemma {:induction false} SumBounds(xs: seq<int>)
    requires AllStars(xs)
    ensures |xs| <= Sum(xs) <= 5 * |xs|
  {
    if xs != [] {
      SumBounds(xs[..|xs| - 1]);
    }
  }

  /** The mean of ratings 1..5 lies in [1, 5]. */
  lemma MeanInRange(xs: seq<int>)
    requires AllStars(xs) && xs != []
    ensures 1.0 <= Mean(xs) <= 5.0
  {
    SumBounds(xs);
    QuotientBounds(Sum(xs) as real, |xs| as real);
  }

  lemma QuotientBounds(s: real, n: real)
    requires 0.0 < n && n <= s <= 5.0 * n
    ensures 1.0 <= s / n <= 5.0
  {
    var q := s / n;
    assert q * n == s;
    SignOfFactor(q - 1.0, n);
    SignOfFactor(5.0 - q, n);
  }

  lemma SignOfFactor(x: real, n: real)
    requires 0.0 < n && 0.0 <= x * n
    ensures 0.0 <= x
  {
  }

  /** Every visible rating is 1..5 when every stored rating is. */
  lemma VisibleRatingsAreStars(reviews: seq<Review>, rid: int)
    requires forall k :: 0 <= k < |reviews| ==> 1 <= reviews[k].rating <= 5
    ensures AllStars(VisibleRatings(reviews, rid))
  {
    VisibleRatingsMembers(reviews, rid);
    var xs := VisibleRatings(reviews, rid);
    forall i | 0 <= i < |xs| ensures 1 <= xs[i] <= 5 {
      assert xs[i] in xs;
    }
  }
}
