/** The data-access layer of the booking engine: the tables as sequences held by one
    store object whose methods change them in place. Each method returns Ok with the
    affected row or Err with the first rule broken, in the order the operation checks
    them; a failed call leaves the tables as they were unless said otherwise. */
module BookingStore {
  import opened Domain
  import opened Text
  import opened Validators
  import opened Conflicts
  import opened Ratings
  import opened Engine
  import opened Sanitize

  /** The special characters create_user accepts. */
  const SpecialChars: string := "!@#$%^&*()_+-=[]{}|;:,.<>?"

  predicate HasUpperChar(pw: string) { exists i :: 0 <= i < |pw| && IsUpper(pw[i]) }
  predicate HasLowerChar(pw: string) { exists i :: 0 <= i < |pw| && IsLower(pw[i]) }
  predicate HasDigitChar(pw: string) { exists i :: 0 <= i < |pw| && IsDigit(pw[i]) }
  predicate HasSpecialChar(pw: string) { exists i :: 0 <= i < |pw| && pw[i] in SpecialChars }

  /** The password rules of create_user, checked in this order. */
  function CheckPassword(pw: string): (r: Outcome)
    ensures r == Pass <==> |pw| >= 8 && HasUpperChar(pw) && HasLowerChar(pw) && HasDigitChar(pw) && HasSpecialChar(pw)
    ensures |pw| < 8 ==> r == Fail(PasswordTooShort)
    ensures |pw| >= 8 && !HasUpperChar(pw) ==> r == Fail(PasswordNoUpper)
    ensures |pw| >= 8 && HasUpperChar(pw) && !HasLowerChar(pw) ==> r == Fail(PasswordNoLower)
    ensures |pw| >= 8 && HasUpperChar(pw) && HasLowerChar(pw) && !HasDigitChar(pw) ==> r == Fail(PasswordNoDigit)
    ensures |pw| >= 8 && HasUpperChar(pw) && HasLowerChar(pw) && HasDigitChar(pw) && !HasSpecialChar(pw) ==> r == Fail(PasswordNoSpecial)
  {
    if |pw| < 8 then Fail(PasswordTooShort)
    else if !HasUpperChar(pw) then Fail(PasswordNoUpper)
    else if !HasLowerChar(pw) then Fail(PasswordNoLower)
    else if !HasDigitChar(pw) then Fail(PasswordNoDigit)
    else if !HasSpecialChar(pw) then Fail(PasswordNoSpecial)
    else Pass
  }

  predicate EmailInUse(users: seq<User>, email: string) {
    exists k :: 0 <= k < |users| && users[k].email == email
  }

  /** The status a new booking starts in: APPROVED only for a PUBLISHED resource that
      does not require approval (a DRAFT resource is bookable and starts PENDING). */
  function InitialStatus(resource: Resource): (s: BookingStatus)
    ensures s == Approved <==> resource.status == Published && !resource.requiresApproval
    ensures s != Approved ==> s == Pending
  {
    if resource.status == Published && !resource.requiresApproval then Approved else Pending
  }

  /** The bookings of one user, in table order. */
  function BookingsOf(bookings: seq<Booking>, userId: int): (r: seq<Booking>)
    ensures forall b :: b in r <==> b in bookings && b.userId == userId
  {
    if bookings == [] then []
    else
      var last := |bookings| - 1;
      var rest := BookingsOf(bookings[..last], userId);
      assert forall b :: b in bookings <==> b in bookings[..last] || b == bookings[last];
      if bookings[last].userId == userId then rest + [bookings[last]] else rest
  }

  /** A message body that passes create_message's body checks: present, not blank,
      and non-empty once sanitized (sanitizing already caps the length). */
  predicate SendableBody(body: Option<string>) {
    body.Some? && !AllSpace(body.value) && Sanitized(body) != [] && |Sanitized(body)| <= MaxBodyLength
  }

  /** Messages may be posted on a booking that is neither cancelled nor rejected. */
  predicate BookingOpen(b: Booking) {
    b.status != Cancelled && b.status != Rejected
  }

  class Store {
    var users: seq<User>
    var resources: seq<Resource>
    var bookings: seq<Booking>
    var reviews: seq<Review>
    var messages: seq<Message>

    ghost predicate Valid()
      reads this
    {
      Invariant(users, resources, bookings, reviews, messages)
    }

    constructor()
      ensures Valid()
      ensures users == [] && resources == [] && bookings == [] && reviews == [] && messages == []
    {
      users, resources, bookings, reviews, messages := [], [], [], [], [];
    }

    // ------------------------------------------------------------ users, resources

    /** create_user (the e-mail taken as already normalised, the hash left out). */
    method CreateUser(email: string, password: string, role: UserRole) returns (r: Result<User>)
      requires Valid()
      modifies this
      ensures Valid()
      ensures resources == old(resources) && bookings == old(bookings) && reviews == old(reviews) && messages == old(messages)
      ensures EmailInUse(old(users), email) ==> r == Err(EmailTaken)
      ensures !EmailInUse(old(users), email) && CheckPassword(password).Fail? ==> r == Err(CheckPassword(password).error)
      ensures r.Ok? <==> !EmailInUse(old(users), email) && CheckPassword(password) == Pass
      ensures r.Ok? ==> r.value == User(|old(users)| + 1, email, role) && users == old(users) + [r.value]
      ensures r.Err? ==> users == old(users)
    {
      if EmailInUse(users, email) {
        return Err(EmailTaken);
      }
      var check := CheckPassword(password);
      if check.Fail? {
        return Err(check.error);
      }
      var user := User(|users| + 1, email, role);
      users := users + [user];
      r := Ok(user);
    }

    /** create_resource for a payload whose status is given as the enumeration (None
        for a missing key, which means DRAFT); a missing capacity means 0. */
    method CreateResource(title: string, description: Option<string>, category: Option<string>, location: Option<string>,
                          capacity: Value, status: Option<ResourceStatus>, requiresApproval: bool, createdBy: int, now: int)
      returns (r: Result<Resource>)
      requires Valid()
      modifies this
      ensures Valid()
      ensures users == old(users) && bookings == old(bookings) && reviews == old(reviews) && messages == old(messages)
      ensures var payload := ResourcePayload(Some(title), capacity, if status.Some? then Some(StatusEnum(status.value)) else None, category, location);
        (ValidateResourcePayload(payload).Fail? ==> r == Err(ValidateResourcePayload(payload).error))
        && (ValidateResourcePayload(payload) == Pass && ValidateCapacity(capacity).Fail? ==> r == Err(ValidateCapacity(capacity).error))
        && (r.Ok? <==> ValidateResourcePayload(payload) == Pass && ValidateCapacity(capacity) == Pass)
      ensures r.Ok? ==>
        resources == old(resources) + [r.value]
        && r.value == Resource(|old(resources)| + 1, title, description, category, location,
                               if capacity.Int? then capacity.i else 0,
                               if status.Some? then status.value else Draft,
                               requiresApproval, 0.0, 0, createdBy, now, now)
      ensures r.Err? ==> resources == old(resources)
    {
      var payload := ResourcePayload(Some(title), capacity, if status.Some? then Some(StatusEnum(status.value)) else None, category, location);
      var check := ValidateResourcePayload(payload);
      if check.Fail? {
        return Err(check.error);
      }
      var capacityCheck := ValidateCapacity(capacity);
      if capacityCheck.Fail? {
        return Err(capacityCheck.error);
      }
      var resource := Resource(|resources| + 1, title, description, category, location,
                               if capacity.Int? then capacity.i else 0,
                               if status.Some? then status.value else Draft,
                               requiresApproval, 0.0, 0, createdBy, now, now);
      AppendResourceKeepsInvariant(users, resources, bookings, reviews, messages, resource);
      resources := resources + [resource];
      r := Ok(resource);
    }

    // ------------------------------------------------------------------- bookings

    /** create_booking */
    method CreateBooking(userId: int, resourceId: int, start: int, end: int, now: int) returns (r: Result<Booking>)
      requires Valid()
      modifies this
      ensures Valid()
      ensures users == old(users) && resources == old(resources) && reviews == old(reviews) && messages == old(messages)
      ensures !HasRow(|users|, userId) ==> r == Err(UserNotFound)
      ensures HasRow(|users|, userId) && !HasRow(|resources|, resourceId) ==> r == Err(ResourceNotFound)
      ensures HasRow(|users|, userId) && HasRow(|resources|, resourceId) ==>
        var check := ValidateBookingRequest(resources[resourceId - 1], start, end);
        (check.Fail? ==> r == Err(check.error))
        && (check == Pass && SomeClash(old(bookings), resourceId, start, end, None, false) ==> r == Err(Conflict))
        && (r.Ok? <==> check == Pass && !SomeClash(old(bookings), resourceId, start, end, None, false))
      ensures r.Ok? ==>
        bookings == old(bookings) + [r.value]
        && r.value == Booking(|old(bookings)| + 1, resourceId, userId, start, end, InitialStatus(resources[resourceId - 1]), now, now)
      ensures r.Err? ==> bookings == old(bookings)
    {
      if !HasRow(|users|, userId) {
        return Err(UserNotFound);
      }
      if !HasRow(|resources|, resourceId) {
        return Err(ResourceNotFound);
      }
      var resource := resources[resourceId - 1];
      var check := ValidateBookingRequest(resource, start, end);
      if check.Fail? {
        return Err(check.error);
      }
      var conflict := HasConflict(bookings, resourceId, start, end, None, false);
      if conflict == Ok(true) {
        return Err(Conflict);
      }
      var booking := Booking(|bookings| + 1, resourceId, userId, start, end, InitialStatus(resource), now, now);
      InsertBookingKeepsTables(users, resources, bookings, reviews, messages, booking);
      bookings := bookings + [booking];
      r := Ok(booking);
    }

    /** The auto-complete sweep shared by list_bookings_for_user (no resource) and
        user_has_completed_booking (one resource). */
    method Sweep(userId: int, resourceId: Option<int>, now: int)
      requires Valid()
      modifies this
      ensures Valid()
      ensures bookings == Swept(old(bookings), userId, resourceId, now)
      ensures users == old(users) && resources == old(resources) && reviews == old(reviews) && messages == old(messages)
    {
      var i := 0;
      while i < |bookings|
        invariant 0 <= i <= |bookings| == |old(bookings)|
        invariant forall k :: 0 <= k < i ==> bookings[k] == Swept(old(bookings), userId, resourceId, now)[k]
        invariant forall k :: i <= k < |bookings| ==> bookings[k] == old(bookings)[k]
        invariant users == old(users) && resources == old(resources) && reviews == old(reviews) && messages == old(messages)
      {
        if Due(bookings[i], userId, resourceId, now) {
          bookings := bookings[i := bookings[i].(status := Completed, updatedAt := now)];
        }
        i := i + 1;
      }
      SweepIsStatusStep(old(bookings), userId, resourceId, now);
      StatusStepKeepsTables(users, resources, old(bookings), bookings, reviews, messages);
    }

    /** list_bookings_for_user: sweep the user's overdue APPROVED bookings to COMPLETED,
        then return all of the user's bookings. */
    method ListBookingsForUser(userId: int, now: int) returns (mine: seq<Booking>)
      requires Valid()
      modifies this
      ensures Valid()
      ensures bookings == Swept(old(bookings), userId, None, now)
      ensures forall b :: b in mine <==> b in bookings && b.userId == userId
      ensures users == old(users) && resources == old(resources) && reviews == old(reviews) && messages == old(messages)
    {
      Sweep(userId, None, now);
      mine := BookingsOf(bookings, userId);
    }

    /** user_has_completed_booking: sweep the user's overdue APPROVED bookings of the
        resource, then look for a COMPLETED one. */
    method UserHasCompletedBooking(userId: int, resourceId: int, now: int) returns (r: bool)
      requires Valid()
      modifies this
      ensures Valid()
      ensures bookings == Swept(old(bookings), userId, Some(resourceId), now)
      ensures r == HasCompletedBooking(bookings, userId, resourceId)
      ensures users == old(users) && resources == old(resources) && reviews == old(reviews) && messages == old(messages)
    {
      Sweep(userId, Some(resourceId), now);
      r := HasCompletedBooking(bookings, userId, resourceId);
    }

    /** Sets the status of one booking, stamping updated_at. */
    method SetStatus(i: int, status: BookingStatus, now: int)
      requires Valid()
      requires 0 <= i < |bookings|
      requires Active(status) ==> Active(bookings[i].status)
      modifies this
      ensures Valid()
      ensures bookings == old(bookings)[i := old(bookings)[i].(status := status, updatedAt := now)]
      ensures users == old(users) && resources == old(resources) && reviews == old(reviews) && messages == old(messages)
    {
      var after := bookings[i := bookings[i].(status := status, updatedAt := now)];
      assert StatusStep(bookings, after);
      StatusStepKeepsTables(users, resources, bookings, after, reviews, messages);
      bookings := after;
    }

    /** approve_booking: the status check comes before the authority check; the
        conflict check is repeated with the booking itself excluded. */
    method ApproveBooking(bookingId: int, approverId: int, now: int) returns (r: Result<Booking>)
      requires Valid()
      modifies this
      ensures Valid()
      ensures users == old(users) && resources == old(resources) && reviews == old(reviews) && messages == old(messages)
      ensures !HasRow(|old(bookings)|, bookingId) ==> r == Err(BookingNotFound)
      ensures HasRow(|old(bookings)|, bookingId) ==>
        var b := old(bookings)[bookingId - 1];
        (b.status != Pending ==> r == Err(InvalidTransition(b.status)))
        && (b.status == Pending && !HasRow(|users|, approverId) ==> r == Err(UserNotFound))
        && (b.status == Pending && HasRow(|users|, approverId) && !MayDecide(users[approverId - 1], resources[b.resourceId - 1]) ==> r == Err(Unauthorized))
        && ((b.status == Pending && HasRow(|users|, approverId) && MayDecide(users[approverId - 1], resources[b.resourceId - 1])
             && SomeClash(old(bookings), b.resourceId, b.start, b.end, Some(bookingId), false)) ==> r == Err(Conflict))
        && (r.Ok? <==> b.status == Pending && HasRow(|users|, approverId) && MayDecide(users[approverId - 1], resources[b.resourceId - 1])
                        && !SomeClash(old(bookings), b.resourceId, b.start, b.end, Some(bookingId), false))
        && (r.Ok? ==> r.value == b.(status := Approved, updatedAt := now) && bookings == old(bookings)[bookingId - 1 := r.value])
      ensures r.Err? ==> bookings == old(bookings)
    {
      if !HasRow(|bookings|, bookingId) {
        return Err(BookingNotFound);
      }
      var b := bookings[bookingId - 1];
      if b.status != Pending {
        return Err(InvalidTransition(b.status));
      }
      if !HasRow(|users|, approverId) {
        return Err(UserNotFound);
      }
      assert BookingRowOk(b, |users|, |resources|);
      if !MayDecide(users[approverId - 1], resources[b.resourceId - 1]) {
        return Err(Unauthorized);
      }
      var recheck := HasConflict(bookings, b.resourceId, b.start, b.end, Some(bookingId), false);
      if recheck != Ok(false) {
        r := Err(Conflict);
      } else {
        SetStatus(bookingId - 1, Approved, now);
        r := Ok(bookings[bookingId - 1]);
      }
    }

    /** reject_booking */
    method RejectBooking(bookingId: int, approverId: int, now: int) returns (r: Result<Booking>)
      requires Valid()
      modifies this
      ensures Valid()
      ensures users == old(users) && resources == old(resources) && reviews == old(reviews) && messages == old(messages)
      ensures !HasRow(|old(bookings)|, bookingId) ==> r == Err(BookingNotFound)
      ensures HasRow(|old(bookings)|, bookingId) ==>
        var b := old(bookings)[bookingId - 1];
        (b.status != Pending ==> r == Err(InvalidTransition(b.status)))
        && (b.status == Pending && !HasRow(|users|, approverId) ==> r == Err(UserNotFound))
        && (b.status == Pending && HasRow(|users|, approverId) && !MayDecide(users[approverId - 1], resources[b.resourceId - 1]) ==> r == Err(Unauthorized))
        && (r.Ok? <==> b.status == Pending && HasRow(|users|, approverId) && MayDecide(users[approverId - 1], resources[b.resourceId - 1]))
        && (r.Ok? ==> r.value == b.(status := Rejected, updatedAt := now) && bookings == old(bookings)[bookingId - 1 := r.value])
      ensures r.Err? ==> bookings == old(bookings)
    {
      if !HasRow(|bookings|, bookingId) {
        return Err(BookingNotFound);
      }
      var b := bookings[bookingId - 1];
      if b.status != Pending {
        return Err(InvalidTransition(b.status));
      }
      if !HasRow(|users|, approverId) {
        return Err(UserNotFound);
      }
      assert BookingRowOk(b, |users|, |resources|);
      if !MayDecide(users[approverId - 1], resources[b.resourceId - 1]) {
        return Err(Unauthorized);
      }
      SetStatus(bookingId - 1, Rejected, now);
      r := Ok(bookings[bookingId - 1]);
    }

    /** cancel_booking: the requester may cancel a PENDING or APPROVED booking; staff
        and admins may cancel any booking, whatever its status. */
    method CancelBooking(bookingId: int, userId: int, now: int) returns (r: Result<Booking>)
      requires Valid()
      modifies this
      ensures Valid()
      ensures users == old(users) && resources == old(resources) && reviews == old(reviews) && messages == old(messages)
      ensures !HasRow(|old(bookings)|, bookingId) ==> r == Err(BookingNotFound)
      ensures HasRow(|old(bookings)|, bookingId) ==>
        var b := old(bookings)[bookingId - 1];
        var byOwner := b.userId == userId && Active(b.status);
        var byStaff := HasRow(|users|, userId) && (users[userId - 1].role == Staff || users[userId - 1].role == Admin);
        (r.Ok? <==> byOwner || byStaff)
        && (!byOwner && !HasRow(|users|, userId) ==> r == Err(UserNotFound))
        && (!byOwner && HasRow(|users|, userId) && !byStaff ==> r == Err(Unauthorized))
        && (r.Ok? ==> r.value == b.(status := Cancelled, updatedAt := now) && bookings == old(bookings)[bookingId - 1 := r.value])
      ensures r.Err? ==> bookings == old(bookings)
    {
      if !HasRow(|bookings|, bookingId) {
        return Err(BookingNotFound);
      }
      var b := bookings[bookingId - 1];
      var canCancel := false;
      if b.userId == userId && Active(b.status) {
        canCancel := true;
      } else if !HasRow(|users|, userId) {
        return Err(UserNotFound);
      } else if users[userId - 1].role == Staff || users[userId - 1].role == Admin {
        canCancel := true;
      }
      if !canCancel {
        return Err(Unauthorized);
      }
      SetStatus(bookingId - 1, Cancelled, now);
      r := Ok(bookings[bookingId - 1]);
    }

    /** complete_booking: admin first, then status APPROVED, then now >= end. */
    method CompleteBooking(bookingId: int, adminId: int, now: int) returns (r: Result<Booking>)
      requires Valid()
      modifies this
      ensures Valid()
      ensures users == old(users) && resources == old(resources) && reviews == old(reviews) && messages == old(messages)
      ensures !HasRow(|old(bookings)|, bookingId) ==> r == Err(BookingNotFound)
      ensures HasRow(|old(bookings)|, bookingId) ==>
        var b := old(bookings)[bookingId - 1];
        var isAdmin := HasRow(|users|, adminId) && users[adminId - 1].role == Admin;
        (!HasRow(|users|, adminId) ==> r == Err(UserNotFound))
        && (HasRow(|users|, adminId) && !isAdmin ==> r == Err(Unauthorized))
        && (isAdmin && b.status != Approved ==> r == Err(InvalidTransition(b.status)))
        && (isAdmin && b.status == Approved && now < b.end ==> r == Err(BeforeEndTime))
        && (r.Ok? <==> isAdmin && b.status == Approved && now >= b.end)
        && (r.Ok? ==> r.value == b.(status := Completed, updatedAt := now) && bookings == old(bookings)[bookingId - 1 := r.value])
      ensures r.Err? ==> bookings == old(bookings)
    {
      if !HasRow(|bookings|, bookingId) {
        return Err(BookingNotFound);
      }
      var b := bookings[bookingId - 1];
      if !HasRow(|users|, adminId) {
        return Err(UserNotFound);
      }
      if users[adminId - 1].role != Admin {
        return Err(Unauthorized);
      }
      if b.status != Approved {
        return Err(InvalidTransition(b.status));
      }
      if now < b.end {
        return Err(BeforeEndTime);
      }
      SetStatus(bookingId - 1, Completed, now);
      r := Ok(bookings[bookingId - 1]);
    }

    // -------------------------------------------------------------------- reviews

    /** _recompute_resource_rating: store the count and mean of the resource's
        non-hidden reviews (0.0 and 0 when there are none). Its callers guarantee the
        resource exists and that only its aggregate is stale. */
    method RecomputeResourceRating(resourceId: int, now: int)
      requires Tables(users, resources, bookings, reviews, messages)
      requires RatingsConsistentBut(resources, reviews, resourceId)
      requires HasRow(|resources|, resourceId)
      modifies this
      ensures Valid()
      ensures var visible := VisibleRatings(reviews, resourceId);
        resources == old(resources)[resourceId - 1 := old(resources)[resourceId - 1].(ratingAvg := Mean(visible), ratingCount := |visible|, updatedAt := now)]
      ensures users == old(users) && bookings == old(bookings) && reviews == old(reviews) && messages == old(messages)
    {
      var visible := VisibleRatings(reviews, resourceId);
      var avg, count := 0.0, 0;
      if |visible| > 0 {
        avg, count := Mean(visible), |visible|;
      }
      assert avg == Mean(visible) && count == |visible|;
      RecomputeRestores(resources, reviews, resourceId, now);
      resources := resources[resourceId - 1 := resources[resourceId - 1].(ratingAvg := avg, ratingCount := count, updatedAt := now)];
    }

    /** The upsert of create_or_update_review for an eligible user: overwrite rating,
        comment and created_at of the user's review of the resource, or add a new one,
        then recompute the resource's aggregate. */
    method WriteReview(resourceId: int, userId: int, stars: int, text: string, now: int) returns (review: Review)
      requires Valid()
      requires HasRow(|users|, userId) && HasRow(|resources|, resourceId) && 1 <= stars <= 5
      modifies this
      ensures Valid()
      ensures users == old(users) && bookings == old(bookings) && messages == old(messages)
      ensures (reviews, review) == Upsert(old(reviews), resourceId, userId, stars, text, now)
      ensures var visible := VisibleRatings(reviews, resourceId);
        resources == old(resources)[resourceId - 1 := old(resources)[resourceId - 1].(ratingAvg := Mean(visible), ratingCount := |visible|, updatedAt := now)]
    {
      match FindReview(reviews, resourceId, userId) {
        case Some(k) =>
          review := reviews[k].(rating := stars, comment := text, createdAt := now);
          var after := reviews[k := review];
          EditReviewsOf(resources, reviews, after, resourceId);
          EditReviewKeepsTables(users, resources, bookings, reviews, messages, k, review);
          reviews := after;
        case None =>
          review := Review(|reviews| + 1, resourceId, userId, stars, text, now, false, false);
          AppendReviewOf(resources, reviews, review);
          AppendReviewKeepsTables(users, resources, bookings, reviews, messages, review);
          reviews := reviews + [review];
      }
      RecomputeResourceRating(resourceId, now);
    }

    /** create_or_update_review: validate, require a COMPLETED booking (after the
        sweep, which happens even when the review is then refused), then upsert. */
    method CreateOrUpdateReview(resourceId: int, userId: int, rating: int, comment: Option<string>, now: int) returns (r: Result<Review>)
      requires Valid()
      modifies this
      ensures Valid()
      ensures users == old(users) && messages == old(messages)
      ensures ValidateReviewPayload(rating, comment).Err? ==>
        r == Err(ValidateReviewPayload(rating, comment).error) && bookings == old(bookings)
      ensures ValidateReviewPayload(rating, comment).Ok? ==> bookings == Swept(old(bookings), userId, Some(resourceId), now)
      ensures ValidateReviewPayload(rating, comment).Ok? && !HasCompletedBooking(bookings, userId, resourceId) ==> r == Err(NotEligible)
      ensures r.Ok? <==> ValidateReviewPayload(rating, comment).Ok? && HasCompletedBooking(bookings, userId, resourceId)
      ensures r.Err? ==> reviews == old(reviews) && resources == old(resources)
      ensures r.Ok? ==>
        var payload := ValidateReviewPayload(rating, comment).value;
        (reviews, r.value) == Upsert(old(reviews), resourceId, userId, payload.0, payload.1, now)
      ensures r.Ok? ==>
        HasRow(|old(resources)|, resourceId)
        && var visible := VisibleRatings(reviews, resourceId);
        resources == old(resources)[resourceId - 1 := old(resources)[resourceId - 1].(ratingAvg := Mean(visible), ratingCount := |visible|, updatedAt := now)]
    {
      var payload := ValidateReviewPayload(rating, comment);
      if payload.Err? {
        return Err(payload.error);
      }
      var (stars, text) := payload.value;
      var eligible := UserHasCompletedBooking(userId, resourceId, now);
      if !eligible {
        return Err(NotEligible);
      }
      CompletedBookingRows(users, resources, bookings, reviews, messages, userId, resourceId);
      var review := WriteReview(resourceId, userId, stars, text, now);
      r := Ok(review);
    }

    /** hide_review and unhide_review: an existing review and an ADMIN actor; the
        aggregate of its resource is recomputed. */
    method SetReviewHidden(reviewId: int, adminId: int, hidden: bool, now: int) returns (r: Result<Review>)
      requires Valid()
      modifies this
      ensures Valid()
      ensures users == old(users) && bookings == old(bookings) && messages == old(messages)
      ensures !HasRow(|old(reviews)|, reviewId) ==> r == Err(ReviewNotFound)
      ensures HasRow(|old(reviews)|, reviewId) && !(HasRow(|users|, adminId) && users[adminId - 1].role == Admin) ==> r == Err(Unauthorized)
      ensures r.Ok? <==> HasRow(|old(reviews)|, reviewId) && HasRow(|users|, adminId) && users[adminId - 1].role == Admin
      ensures r.Ok? ==>
        var rid := old(reviews)[reviewId - 1].resourceId;
        var visible := VisibleRatings(reviews, rid);
        r.value == old(reviews)[reviewId - 1].(isHidden := hidden) && reviews == old(reviews)[reviewId - 1 := r.value]
        && HasRow(|resources|, rid)
        && resources == old(resources)[rid - 1 := old(resources)[rid - 1].(ratingAvg := Mean(visible), ratingCount := |visible|, updatedAt := now)]
      ensures r.Err? ==> reviews == old(reviews) && resources == old(resources)
    {
      if !HasRow(|reviews|, reviewId) {
        return Err(ReviewNotFound);
      }
      if !(HasRow(|users|, adminId) && users[adminId - 1].role == Admin) {
        return Err(Unauthorized);
      }
      var review := reviews[reviewId - 1].(isHidden := hidden);
      var rid := review.resourceId;
      assert ReviewRowOk(reviews[reviewId - 1], |users|, |resources|);
      var after := reviews[reviewId - 1 := review];
      EditReviewKeepsTables(users, resources, bookings, reviews, messages, reviewId - 1, review);
      EditReviewsOf(resources, reviews, after, rid);
      reviews := after;
      RecomputeResourceRating(rid, now);
      r := Ok(review);
    }

    /** hide_review */
    method HideReview(reviewId: int, adminId: int, now: int) returns (r: Result<Review>)
      requires Valid()
      modifies this
      ensures Valid()
      ensures r.Ok? <==> HasRow(|old(reviews)|, reviewId) && HasRow(|users|, adminId) && users[adminId - 1].role == Admin
      ensures !HasRow(|old(reviews)|, reviewId) ==> r == Err(ReviewNotFound)
      ensures HasRow(|old(reviews)|, reviewId) && !(HasRow(|users|, adminId) && users[adminId - 1].role == Admin) ==> r == Err(Unauthorized)
      ensures r.Ok? ==> r.value == old(reviews)[reviewId - 1].(isHidden := true) && reviews == old(reviews)[reviewId - 1 := r.value]
      ensures r.Ok? ==>
        var rid := old(reviews)[reviewId - 1].resourceId;
        var visible := VisibleRatings(reviews, rid);
        HasRow(|resources|, rid)
        && resources == old(resources)[rid - 1 := old(resources)[rid - 1].(ratingAvg := Mean(visible), ratingCount := |visible|, updatedAt := now)]
      ensures r.Err? ==> reviews == old(reviews) && resources == old(resources)
      ensures users == old(users) && bookings == old(bookings) && messages == old(messages)
    {
      r := SetReviewHidden(reviewId, adminId, true, now);
    }

    /** unhide_review */
    method UnhideReview(reviewId: int, adminId: int, now: int) returns (r: Result<Review>)
      requires Valid()
      modifies this
      ensures Valid()
      ensures r.Ok? <==> HasRow(|old(reviews)|, reviewId) && HasRow(|users|, adminId) && users[adminId - 1].role == Admin
      ensures !HasRow(|old(reviews)|, reviewId) ==> r == Err(ReviewNotFound)
      ensures HasRow(|old(reviews)|, reviewId) && !(HasRow(|users|, adminId) && users[adminId - 1].role == Admin) ==> r == Err(Unauthorized)
      ensures r.Ok? ==> r.value == old(reviews)[reviewId - 1].(isHidden := false) && reviews == old(reviews)[reviewId - 1 := r.value]
      ensures r.Ok? ==>
        var rid := old(reviews)[reviewId - 1].resourceId;
        var visible := VisibleRatings(reviews, rid);
        HasRow(|resources|, rid)
        && resources == old(resources)[rid - 1 := old(resources)[rid - 1].(ratingAvg := Mean(visible), ratingCount := |visible|, updatedAt := now)]
      ensures r.Err? ==> reviews == old(reviews) && resources == old(resources)
      ensures users == old(users) && bookings == old(bookings) && messages == old(messages)
    {
      r := SetReviewHidden(reviewId, adminId, false, now);
    }

    /** report_review and unreport_review: only is_reported changes; the aggregates
        stay as they are. */
    method SetReviewReported(reviewId: int, reported: bool) returns (r: Result<Review>)
      requires Valid()
      modifies this
      ensures Valid()
      ensures users == old(users) && resources == old(resources) && bookings == old(bookings) && messages == old(messages)
      ensures !HasRow(|old(reviews)|, reviewId) ==> r == Err(ReviewNotFound) && reviews == old(reviews)
      ensures HasRow(|old(reviews)|, reviewId) ==>
        r == Ok(old(reviews)[reviewId - 1].(isReported := reported)) && reviews == old(reviews)[reviewId - 1 := r.value]
    {
      if !HasRow(|reviews|, reviewId) {
        return Err(ReviewNotFound);
      }
      var review := reviews[reviewId - 1].(isReported := reported);
      ReportKeepsRatings(resources, reviews, reviewId - 1, reported);
      reviews := reviews[reviewId - 1 := review];
      r := Ok(review);
    }

    // ------------------------------------------------------------------- messages

    /** create_message */
    method CreateMessage(bookingId: int, senderId: int, body: Option<string>, recipientId: Option<int>, now: int) returns (r: Result<Message>)
      requires Valid()
      modifies this
      ensures Valid()
      ensures users == old(users) && resources == old(resources) && bookings == old(bookings) && reviews == old(reviews)
      ensures body.None? || AllSpace(body.value) ==> r == Err(EmptyBody)
      ensures body.Some? && !AllSpace(body.value) && Sanitized(body) == [] ==> r == Err(EmptyAfterSanitize)
      ensures r != Err(BodyTooLong)
      ensures SendableBody(body) && !HasRow(|bookings|, bookingId) ==> r == Err(BookingNotFound)
      ensures SendableBody(body) && HasRow(|bookings|, bookingId) && !BookingOpen(bookings[bookingId - 1]) ==> r == Err(BookingClosed)
      ensures (SendableBody(body) && HasRow(|bookings|, bookingId) && BookingOpen(bookings[bookingId - 1])
        && !IsParticipant(users, resources, bookings, bookingId, senderId)) ==> r == Err(NotParticipant)
      ensures (SendableBody(body) && HasRow(|bookings|, bookingId) && BookingOpen(bookings[bookingId - 1])
        && IsParticipant(users, resources, bookings, bookingId, senderId)
        && recipientId.Some? && recipientId.value != 0 && !HasRow(|users|, recipientId.value)) ==> r == Err(RecipientNotFound)
      ensures (SendableBody(body) && HasRow(|bookings|, bookingId) && BookingOpen(bookings[bookingId - 1])
        && IsParticipant(users, resources, bookings, bookingId, senderId)
        && recipientId.Some? && recipientId.value != 0 && HasRow(|users|, recipientId.value)
        && !IsParticipant(users, resources, bookings, bookingId, recipientId.value)) ==> r == Err(RecipientNotParticipant)
      ensures r.Ok? <==>
        (body.Some? && !AllSpace(body.value)) && Sanitized(body) != [] && |Sanitized(body)| <= MaxBodyLength
        && HasRow(|bookings|, bookingId) && bookings[bookingId - 1].status != Cancelled && bookings[bookingId - 1].status != Rejected
        && IsParticipant(users, resources, bookings, bookingId, senderId)
        && (recipientId.Some? && recipientId.value != 0 ==>
              HasRow(|users|, recipientId.value) && IsParticipant(users, resources, bookings, bookingId, recipientId.value))
      ensures r.Ok? ==>
        r.value == Message(|old(messages)| + 1, bookingId, senderId, recipientId, Sanitized(body), now, false, false)
        && messages == old(messages) + [r.value]
      ensures r.Err? ==> messages == old(messages)
    {
      if body.None? || AllSpace(body.value) {
        return Err(EmptyBody);
      }
      var clean := SanitizeBody(body);
      if clean == [] {
        r := Err(EmptyAfterSanitize);
      } else if |clean| > MaxBodyLength {
        r := Err(BodyTooLong);
      } else if !HasRow(|bookings|, bookingId) {
        r := Err(BookingNotFound);
      } else if bookings[bookingId - 1].status == Cancelled || bookings[bookingId - 1].status == Rejected {
        r := Err(BookingClosed);
      } else if !IsParticipant(users, resources, bookings, bookingId, senderId) {
        r := Err(NotParticipant);
      } else if recipientId.Some? && recipientId.value != 0 && !HasRow(|users|, recipientId.value) {
        r := Err(RecipientNotFound);
      } else if recipientId.Some? && recipientId.value != 0 && !IsParticipant(users, resources, bookings, bookingId, recipientId.value) {
        r := Err(RecipientNotParticipant);
      } else {
        var message := Message(|messages| + 1, bookingId, senderId, recipientId, clean, now, false, false);
        AppendMessageKeepsInvariant(users, resources, bookings, reviews, messages, message);
        messages := messages + [message];
        r := Ok(message);
      }
    }

    /** report_message: any participant of the message's booking may report it. */
    method ReportMessage(messageId: int, reporterId: int) returns (r: Result<Message>)
      requires Valid()
      modifies this
      ensures Valid()
      ensures users == old(users) && resources == old(resources) && bookings == old(bookings) && reviews == old(reviews)
      ensures !HasRow(|old(messages)|, messageId) ==> r == Err(MessageNotFound)
      ensures r.Ok? <==>
        HasRow(|old(messages)|, messageId)
        && IsParticipant(users, resources, bookings, old(messages)[messageId - 1].bookingId, reporterId)
      ensures HasRow(|old(messages)|, messageId) && r.Err? ==> r == Err(NotParticipant)
      ensures r.Ok? ==> r.value == old(messages)[messageId - 1].(isReported := true) && messages == old(messages)[messageId - 1 := r.value]
      ensures r.Err? ==> messages == old(messages)
    {
      if !HasRow(|messages|, messageId) {
        return Err(MessageNotFound);
      }
      if !IsParticipant(users, resources, bookings, messages[messageId - 1].bookingId, reporterId) {
        return Err(NotParticipant);
      }
      var message := messages[messageId - 1].(isReported := true);
      messages := messages[messageId - 1 := message];
      r := Ok(message);
    }

    /** hide_message: admins only. */
    method HideMessage(messageId: int, adminId: int) returns (r: Result<Message>)
      requires Valid()
      modifies this
      ensures Valid()
      ensures users == old(users) && resources == old(resources) && bookings == old(bookings) && reviews == old(reviews)
      ensures !HasRow(|old(messages)|, messageId) ==> r == Err(MessageNotFound)
      ensures r.Ok? <==> HasRow(|old(messages)|, messageId) && HasRow(|users|, adminId) && users[adminId - 1].role == Admin
      ensures HasRow(|old(messages)|, messageId) && r.Err? ==> r == Err(Unauthorized)
      ensures r.Ok? ==> r.value == old(messages)[messageId - 1].(isHidden := true) && messages == old(messages)[messageId - 1 := r.value]
      ensures r.Err? ==> messages == old(messages)
    {
      if !HasRow(|messages|, messageId) {
        return Err(MessageNotFound);
      }
      if !(HasRow(|users|, adminId) && users[adminId - 1].role == Admin) {
        return Err(Unauthorized);
      }
      var message := messages[messageId - 1].(isHidden := true);
      messages := messages[messageId - 1 := message];
      r := Ok(message);
    }
  }
}
