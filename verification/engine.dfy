/** Store-level rules of the booking engine stated over the tables as values: row
    lookups, who may act on a booking, the auto-complete sweep, the review lookup,
    and the invariant every operation of the store keeps. Row i of every table has
    id i + 1 (autoincrement from 1; the engine never deletes rows). */
module Engine {
  import opened Domain
  import opened Validators
  import opened Conflicts
  import opened Ratings

  /** Model.query.get(id) finds a row. */
  predicate HasRow(count: int, id: int) {
    1 <= id <= count
  }

  /** is_booking_participant: the requester, the creator of the booked resource, or
      any admin; nobody for a booking that does not exist. */
  function IsParticipant(users: seq<User>, resources: seq<Resource>, bookings: seq<Booking>, bookingId: int, userId: int): (r: bool)
    ensures r ==> HasRow(|bookings|, bookingId)
    ensures HasRow(|bookings|, bookingId) && bookings[bookingId - 1].userId == userId ==> r
    ensures (HasRow(|bookings|, bookingId) && HasRow(|resources|, bookings[bookingId - 1].resourceId)
      && resources[bookings[bookingId - 1].resourceId - 1].createdBy == userId) ==> r
    ensures HasRow(|bookings|, bookingId) && HasRow(|users|, userId) && users[userId - 1].role == Admin ==> r
    ensures r && bookings[bookingId - 1].userId != userId && !(HasRow(|users|, userId) && users[userId - 1].role == Admin) ==>
      HasRow(|resources|, bookings[bookingId - 1].resourceId) && resources[bookings[bookingId - 1].resourceId - 1].createdBy == userId
  {
    if !HasRow(|bookings|, bookingId) then false
    else
      var b := bookings[bookingId - 1];
      if b.userId == userId then true
      else if HasRow(|resources|, b.resourceId) && resources[b.resourceId - 1].createdBy == userId then true
      else HasRow(|users|, userId) && users[userId - 1].role == Admin
  }

  /** Who may approve or reject: staff, admins and the resource's creator. */
  predicate MayDecide(approver: User, resource: Resource) {
    approver.role == Staff || approver.role == Admin || resource.createdBy == approver.id
  }

  /** A booking the sweep turns into COMPLETED: APPROVED, of this user (and this
      resource, when one is given), and ended strictly before now. */
  predicate Due(b: Booking, userId: int, resourceId: Option<int>, now: int)
    ensures Due(b, userId, resourceId, now) ==> Active(b.status) && b.end < now
  {
    b.userId == userId && (resourceId.None? || b.resourceId == resourceId.value)
    && b.status == Approved && b.end < now
  }

  /** The table after the auto-complete sweep. */
  function Swept(bookings: seq<Booking>, userId: int, resourceId: Option<int>, now: int): (r: seq<Booking>)
    ensures |r| == |bookings|
  {
    seq(|bookings|, k requires 0 <= k < |bookings| =>
      if Due(bookings[k], userId, resourceId, now) then bookings[k].(status := Completed, updatedAt := now)
      else bookings[k])
  }

  /** A step that only moves bookings between statuses (and stamps updated_at), never
      INTO PENDING/APPROVED. */
  predicate StatusStep(before: seq<Booking>, after: seq<Booking>) {
    |after| == |before|
    && forall k :: 0 <= k < |before| ==>
      after[k] == before[k].(status := after[k].status, updatedAt := after[k].updatedAt)
      && (Active(after[k].status) ==> Active(before[k].status))
  }

  /** The sweep is such a step, touches only due bookings, and leaves none due. */
  lemma SweepIsStatusStep(bookings: seq<Booking>, userId: int, resourceId: Option<int>, now: int)
    ensures StatusStep(bookings, Swept(bookings, userId, resourceId, now))
    ensures forall k :: 0 <= k < |bookings| && Swept(bookings, userId, resourceId, now)[k] != bookings[k] ==>
      Due(bookings[k], userId, resourceId, now) && Swept(bookings, userId, resourceId, now)[k].status == Completed
      && Swept(bookings, userId, resourceId, now)[k].updatedAt == now
    ensures forall k :: 0 <= k < |bookings| ==> !Due(Swept(bookings, userId, resourceId, now)[k], userId, resourceId, now)
  {
  }

  /** Sweeping twice at the same instant changes nothing more. */
  lemma SweepIdempotent(bookings: seq<Booking>, userId: int, resourceId: Option<int>, now: int)
    ensures Swept(Swept(bookings, userId, resourceId, now), userId, resourceId, now) == Swept(bookings, userId, resourceId, now)
  {
  }

  /** The user holds a COMPLETED booking of the resource. */
  predicate HasCompletedBooking(bookings: seq<Booking>, userId: int, resourceId: int) {
    exists k :: 0 <= k < |bookings| && bookings[k].userId == userId
      && bookings[k].resourceId == resourceId && bookings[k].status == Completed
  }

  /** After the sweep of user_has_completed_booking, the answer is yes exactly when the
      user had a COMPLETED booking of the resource, or an APPROVED one that ended
      strictly before now. */
  lemma CompletedAfterSweep(bookings: seq<Booking>, userId: int, resourceId: int, now: int)
    ensures HasCompletedBooking(Swept(bookings, userId, Some(resourceId), now), userId, resourceId) <==>
      exists k :: 0 <= k < |bookings| && bookings[k].userId == userId && bookings[k].resourceId == resourceId
        && (bookings[k].status == Completed || (bookings[k].status == Approved && bookings[k].end < now))
  {
    var swept := Swept(bookings, userId, Some(resourceId), now);
    if HasCompletedBooking(swept, userId, resourceId) {
      var k :| 0 <= k < |swept| && swept[k].userId == userId && swept[k].resourceId == resourceId && swept[k].status == Completed;
      assert bookings[k].userId == userId && bookings[k].resourceId == resourceId;
    }
    if exists k :: 0 <= k < |bookings| && bookings[k].userId == userId && bookings[k].resourceId == resourceId
        && (bookings[k].status == Completed || (bookings[k].status == Approved && bookings[k].end < now)) {
      var k :| 0 <= k < |bookings| && bookings[k].userId == userId && bookings[k].resourceId == resourceId
        && (bookings[k].status == Completed || (bookings[k].status == Approved && bookings[k].end < now));
      assert swept[k].status == Completed;
    }
  }

  /** get_review(resource_id, user_id): the first review of that user for that resource. */
  function FindReview(reviews: seq<Review>, resourceId: int, userId: int): (r: Option<nat>)
    ensures r.Some? ==> r.value < |reviews| && reviews[r.value].resourceId == resourceId && reviews[r.value].userId == userId
    ensures r.None? ==> forall k :: 0 <= k < |reviews| ==> !(reviews[k].resourceId == resourceId && reviews[k].userId == userId)
  {
    if reviews == [] then None
    else if reviews[0].resourceId == resourceId && reviews[0].userId == userId then Some(0)
    else match FindReview(reviews[1..], resourceId, userId)
      case None => None
      case Some(i) => Some(i + 1)
  }

  /** The upsert of create_or_update_review: the user's existing review of the resource
      with rating, comment and created_at overwritten (flags kept), or a new row. */
  function Upsert(reviews: seq<Review>, resourceId: int, userId: int, stars: int, text: string, now: int): (r: (seq<Review>, Review))
    ensures r.1.resourceId == resourceId && r.1.userId == userId
    ensures r.1.rating == stars && r.1.comment == text && r.1.createdAt == now
    ensures |reviews| <= |r.0| <= |reviews| + 1
  {
    match FindReview(reviews, resourceId, userId)
    case Some(k) =>
      var review := reviews[k].(rating := stars, comment := text, createdAt := now);
      assert reviews[k := review][k] == review;
      (reviews[k := review], review)
    case None =>
      var review := Review(|reviews| + 1, resourceId, userId, stars, text, now, false, false);
      (reviews + [review], review)
  }

  /** After the upsert the user has exactly one review of the resource, the written one,
      carrying the new rating, comment and time; no other row changes and at most one
      row is added. */
  lemma UpsertWritesOneRow(reviews: seq<Review>, resourceId: int, userId: int, stars: int, text: string, now: int)
    requires forall k :: 0 <= k < |reviews| ==> reviews[k].id == k + 1
    requires OneReviewPerUser(reviews)
    ensures var (after, review) := Upsert(reviews, resourceId, userId, stars, text, now);
      review.resourceId == resourceId && review.userId == userId
      && review.rating == stars && review.comment == text && review.createdAt == now
      && |reviews| <= |after| <= |reviews| + 1
      && 1 <= review.id <= |after| && after[review.id - 1] == review
      && (forall k :: 0 <= k < |reviews| && k != review.id - 1 ==> after[k] == reviews[k])
      && (forall k :: 0 <= k < |after| && after[k].resourceId == resourceId && after[k].userId == userId ==>
            k == review.id - 1)
  {
    match FindReview(reviews, resourceId, userId) {
      case Some(i) =>
        assert forall k :: 0 <= k < |reviews| && k != i ==> !(reviews[k].resourceId == resourceId && reviews[k].userId == userId);
      case None =>
    }
  }

  // ---------------------------------------------------------------- the invariant

  predicate UsersOk(users: seq<User>) {
    (forall k :: 0 <= k < |users| ==> users[k].id == k + 1)
    && (forall i, j :: 0 <= i < j < |users| ==> users[i].email != users[j].email)
  }

  predicate ResourcesOk(resources: seq<Resource>) {
    forall k :: 0 <= k < |resources| ==> resources[k].id == k + 1
  }

  predicate BookingRowOk(b: Booking, userCount: int, resourceCount: int) {
    HasRow(userCount, b.userId) && HasRow(resourceCount, b.resourceId) && ValidWindow(b.start, b.end)
  }

  predicate BookingsOk(bookings: seq<Booking>, userCount: int, resourceCount: int) {
    IdsAreIndexes(bookings) && NoDoubleBooking(bookings)
    && forall k :: 0 <= k < |bookings| ==> BookingRowOk(bookings[k], userCount, resourceCount)
  }

  predicate ReviewRowOk(r: Review, userCount: int, resourceCount: int) {
    HasRow(userCount, r.userId) && HasRow(resourceCount, r.resourceId) && 1 <= r.rating <= 5
  }

  /** The unique constraint on (resource_id, user_id) of the reviews table. */
  predicate OneReviewPerUser(reviews: seq<Review>) {
    forall i, j :: 0 <= i < j < |reviews| ==>
      !(reviews[i].resourceId == reviews[j].resourceId && reviews[i].userId == reviews[j].userId)
  }

  predicate ReviewsOk(reviews: seq<Review>, userCount: int, resourceCount: int) {
    (forall k :: 0 <= k < |reviews| ==> reviews[k].id == k + 1 && ReviewRowOk(reviews[k], userCount, resourceCount))
    && OneReviewPerUser(reviews)
  }

  predicate MessagesOk(messages: seq<Message>, bookingCount: int) {
    forall k :: 0 <= k < |messages| ==> messages[k].id == k + 1 && HasRow(bookingCount, messages[k].bookingId)
  }

  /** rating_count and rating_avg of resource row k agree with its visible reviews. */
  predicate RatingConsistent(resources: seq<Resource>, reviews: seq<Review>, k: int)
    requires 0 <= k < |resources|
  {
    resources[k].ratingCount == |VisibleRatings(reviews, k + 1)|
    && resources[k].ratingAvg == Mean(VisibleRatings(reviews, k + 1))
  }

  /** Every resource other than `stale` has an up-to-date aggregate (0 names none). */
  predicate RatingsConsistentBut(resources: seq<Resource>, reviews: seq<Review>, stale: int) {
    forall k :: 0 <= k < |resources| && k + 1 != stale ==> RatingConsistent(resources, reviews, k)
  }

  /** Everything but the rating aggregates. */
  predicate Tables(users: seq<User>, resources: seq<Resource>, bookings: seq<Booking>, reviews: seq<Review>, messages: seq<Message>) {
    UsersOk(users) && ResourcesOk(resources) && BookingsOk(bookings, |users|, |resources|)
    && ReviewsOk(reviews, |users|, |resources|) && MessagesOk(messages, |bookings|)
  }

  predicate Invariant(users: seq<User>, resources: seq<Resource>, bookings: seq<Booking>, reviews: seq<Review>, messages: seq<Message>) {
    Tables(users, resources, bookings, reviews, messages) && RatingsConsistentBut(resources, reviews, 0)
  }

  /** What the invariant promises about a stored aggregate: the count of non-hidden
      reviews, and a mean that is 0.0 without reviews and within [1, 5] otherwise. */
  lemma {:induction false} StoredRating(users: seq<User>, resources: seq<Resource>, bookings: seq<Booking>, reviews: seq<Review>, messages: seq<Message>, k: int)
    requires Invariant(users, resources, bookings, reviews, messages)
    requires 0 <= k < |resources|
    ensures resources[k].ratingCount == |VisibleIndices(reviews, k + 1)|
    ensures resources[k].ratingCount == 0 ==> resources[k].ratingAvg == 0.0
    ensures resources[k].ratingCount > 0 ==> 1.0 <= resources[k].ratingAvg <= 5.0
  {
    assert RatingConsistent(resources, reviews, k);
    CountIsVisibleReviews(reviews, k + 1);
    if resources[k].ratingCount > 0 {
      VisibleRatingsAreStars(reviews, k + 1);
      MeanInRange(VisibleRatings(reviews, k + 1));
    }
  }

  // ------------------------------------------------- how each kind of step keeps it

  /** A user with a COMPLETED booking of a resource names an existing user and resource. */
  lemma {:induction false} CompletedBookingRows(users: seq<User>, resources: seq<Resource>, bookings: seq<Booking>, reviews: seq<Review>, messages: seq<Message>, userId: int, resourceId: int)
    requires Tables(users, resources, bookings, reviews, messages)
    requires HasCompletedBooking(bookings, userId, resourceId)
    ensures HasRow(|users|, userId) && HasRow(|resources|, resourceId)
  {
    var k :| 0 <= k < |bookings| && bookings[k].userId == userId && bookings[k].resourceId == resourceId && bookings[k].status == Completed;
    assert BookingRowOk(bookings[k], |users|, |resources|);
  }

  /** A new resource with the next id and an empty aggregate keeps the invariant. */
  lemma {:induction false} AppendResourceKeepsInvariant(users: seq<User>, resources: seq<Resource>, bookings: seq<Booking>, reviews: seq<Review>, messages: seq<Message>, resource: Resource)
    requires Invariant(users, resources, bookings, reviews, messages)
    requires resource.id == |resources| + 1 && resource.ratingAvg == 0.0 && resource.ratingCount == 0
    ensures Invariant(users, resources + [resource], bookings, reviews, messages)
  {
    var after := resources + [resource];
    NoReviewsNoRatings(reviews, |resources| + 1);
    forall k | 0 <= k < |after| ensures RatingConsistent(after, reviews, k) {
      if k < |resources| {
        assert RatingConsistent(resources, reviews, k);
      }
    }
  }

  /** Moving bookings between statuses, never into PENDING/APPROVED, keeps the tables. */
  lemma {:induction false} StatusStepKeepsTables(users: seq<User>, resources: seq<Resource>, bookings: seq<Booking>, after: seq<Booking>, reviews: seq<Review>, messages: seq<Message>)
    requires Tables(users, resources, bookings, reviews, messages)
    requires StatusStep(bookings, after)
    ensures Tables(users, resources, after, reviews, messages)
  {
    assert NoNewActive(bookings, after);
    NoNewActiveKeepsNoDoubleBooking(bookings, after);
    assert forall k :: 0 <= k < |after| ==> after[k].id == bookings[k].id;
  }

  /** Appending a booking with the next id, valid references and window, which
      has_conflict cleared, keeps the tables. */
  lemma {:induction false} InsertBookingKeepsTables(users: seq<User>, resources: seq<Resource>, bookings: seq<Booking>, reviews: seq<Review>, messages: seq<Message>, b: Booking)
    requires Tables(users, resources, bookings, reviews, messages)
    requires b.id == |bookings| + 1 && BookingRowOk(b, |users|, |resources|)
    requires HasConflict(bookings, b.resourceId, b.start, b.end, None, false) == Ok(false)
    ensures Tables(users, resources, bookings + [b], reviews, messages)
  {
    InsertKeepsNoDoubleBooking(bookings, b);
  }

  /** Overwriting a review with one of the same id, resource and user and a valid
      rating keeps the tables. */
  lemma {:induction false} EditReviewKeepsTables(users: seq<User>, resources: seq<Resource>, bookings: seq<Booking>, reviews: seq<Review>, messages: seq<Message>, k: int, review: Review)
    requires Tables(users, resources, bookings, reviews, messages)
    requires 0 <= k < |reviews|
    requires review.id == reviews[k].id && review.resourceId == reviews[k].resourceId && review.userId == reviews[k].userId
    requires 1 <= review.rating <= 5
    ensures Tables(users, resources, bookings, reviews[k := review], messages)
  {
    assert ReviewRowOk(reviews[k], |users|, |resources|);
  }

  /** Adding the first review of a user for a resource, with the next id, keeps the
      tables; in particular the one-review-per-user constraint. */
  lemma {:induction false} AppendReviewKeepsTables(users: seq<User>, resources: seq<Resource>, bookings: seq<Booking>, reviews: seq<Review>, messages: seq<Message>, review: Review)
    requires Tables(users, resources, bookings, reviews, messages)
    requires review.id == |reviews| + 1 && ReviewRowOk(review, |users|, |resources|)
    requires FindReview(reviews, review.resourceId, review.userId).None?
    ensures Tables(users, resources, bookings, reviews + [review], messages)
  {
    var after := reviews + [review];
    forall i, j | 0 <= i < j < |after|
      ensures !(after[i].resourceId == after[j].resourceId && after[i].userId == after[j].userId)
    {
      if j < |reviews| {
        assert after[i] == reviews[i] && after[j] == reviews[j];
      }
    }
  }

  /** Appending a message about an existing booking, numbered next, keeps the invariant. */
  lemma {:induction false} AppendMessageKeepsInvariant(users: seq<User>, resources: seq<Resource>, bookings: seq<Booking>, reviews: seq<Review>, messages: seq<Message>, message: Message)
    requires Invariant(users, resources, bookings, reviews, messages)
    requires message.id == |messages| + 1 && HasRow(|bookings|, message.bookingId)
    ensures Invariant(users, resources, bookings, reviews, messages + [message])
  {
    var after := messages + [message];
    forall k | 0 <= k < |after| ensures after[k].id == k + 1 && HasRow(|bookings|, after[k].bookingId) {
      if k < |messages| {
        assert after[k] == messages[k];
      }
    }
  }

  /** Editing reviews of resource rid only (rating, comment, created_at or is_hidden)
      leaves every other aggregate up to date. */
  lemma EditReviewsOf(resources: seq<Resource>, reviews: seq<Review>, after: seq<Review>, rid: int)
    requires RatingsConsistentBut(resources, reviews, 0)
    requires |after| == |reviews|
    requires forall k :: 0 <= k < |reviews| ==> after[k] == reviews[k] || (after[k].resourceId == rid && reviews[k].resourceId == rid)
    ensures RatingsConsistentBut(resources, after, rid)
  {
    forall k | 0 <= k < |resources| && k + 1 != rid ensures RatingConsistent(resources, after, k) {
      assert RatingConsistent(resources, reviews, k);
      VisibleRatingsAgree(reviews, after, k + 1);
    }
  }

  /** Appending a review of rid leaves every other aggregate up to date. */
  lemma AppendReviewOf(resources: seq<Resource>, reviews: seq<Review>, r: Review)
    requires RatingsConsistentBut(resources, reviews, 0)
    ensures RatingsConsistentBut(resources, reviews + [r], r.resourceId)
  {
    forall k | 0 <= k < |resources| && k + 1 != r.resourceId ensures RatingConsistent(resources, reviews + [r], k) {
      assert RatingConsistent(resources, reviews, k);
      VisibleRatingsAppend(reviews, r, k + 1);
      assert Contribution(r, k + 1) == [];
      assert VisibleRatings(reviews + [r], k + 1) == VisibleRatings(reviews, k + 1);
    }
  }

  /** Changing only is_reported leaves every aggregate up to date. */
  lemma ReportKeepsRatings(resources: seq<Resource>, reviews: seq<Review>, i: int, flag: bool)
    requires RatingsConsistentBut(resources, reviews, 0)
    requires 0 <= i < |reviews|
    ensures RatingsConsistentBut(resources, reviews[i := reviews[i].(isReported := flag)], 0)
  {
    var after := reviews[i := reviews[i].(isReported := flag)];
    forall k | 0 <= k < |resources| ensures RatingConsistent(resources, after, k) {
      assert RatingConsistent(resources, reviews, k);
      VisibleRatingsAgree(reviews, after, k + 1);
    }
  }

  /** Writing the recomputed aggregate of the one stale resource makes them all up to date. */
  lemma RecomputeRestores(resources: seq<Resource>, reviews: seq<Review>, rid: int, now: int)
    requires RatingsConsistentBut(resources, reviews, rid)
    requires HasRow(|resources|, rid)
    ensures var xs := VisibleRatings(reviews, rid);
      RatingsConsistentBut(resources[rid - 1 := resources[rid - 1].(ratingAvg := Mean(xs), ratingCount := |xs|, updatedAt := now)], reviews, 0)
  {
    var xs := VisibleRatings(reviews, rid);
    var after := resources[rid - 1 := resources[rid - 1].(ratingAvg := Mean(xs), ratingCount := |xs|, updatedAt := now)];
    forall k | 0 <= k < |after| ensures RatingConsistent(after, reviews, k) {
      if k + 1 != rid {
        assert RatingConsistent(resources, reviews, k);
        assert after[k] == resources[k];
      }
    }
  }
}
