/** Conflict detection over the bookings table: half-open interval overlap, the
    statuses that count, and the no-double-booking invariant of the engine. */
module Conflicts {
  import opened Domain
  import opened Validators

  /** The instant t lies in the half-open window [s, e). */
  predicate Within(t: int, s: int, e: int) {
    s <= t < e
  }

  /** [s1, e1) and [s2, e2) share time; touching endpoints do not. */
  predicate Overlaps(s1: int, e1: int, s2: int, e2: int) {
    s1 < e2 && e1 > s2
  }

  /** For two non-empty windows the overlap test answers whether some instant lies in
      both. */
  lemma OverlapsIffSharedInstant(s1: int, e1: int, s2: int, e2: int)
    requires s1 < e1 && s2 < e2
    ensures Overlaps(s1, e1, s2, e2) <==> exists t :: Within(t, s1, e1) && Within(t, s2, e2)
  {
    if Overlaps(s1, e1, s2, e2) {
      var t := if s1 < s2 then s2 else s1;
      assert Within(t, s1, e1) && Within(t, s2, e2);
    }
  }

  lemma OverlapSymmetric(s1: int, e1: int, s2: int, e2: int)
    ensures Overlaps(s1, e1, s2, e2) <==> Overlaps(s2, e2, s1, e1)
  {
  }

  /** A window ending exactly where another starts never overlaps it, either way round. */
  lemma AdjacentNeverOverlap(s1: int, m: int, e2: int)
    ensures !Overlaps(s1, m, m, e2) && !Overlaps(m, e2, s1, m)
  {
  }

  /** The statuses that occupy a slot for creation and approval. */
  predicate Active(s: BookingStatus) {
    s == Pending || s == Approved
  }

  /** The statuses has_conflict looks at: PENDING and APPROVED, plus COMPLETED on request. */
  predicate CountsAsConflict(s: BookingStatus, includeCompleted: bool) {
    Active(s) || (includeCompleted && s == Completed)
  }

  /** `if exclude_booking_id:` filters a booking out only for a truthy (non-zero) id. */
  predicate Excluded(b: Booking, exclude: Option<int>) {
    exclude.Some? && exclude.value != 0 && b.id == exclude.value
  }

  /** The row filter of the conflict query. */
  predicate Clashes(b: Booking, resourceId: int, start: int, end: int, exclude: Option<int>, includeCompleted: bool)
    ensures Clashes(b, resourceId, start, end, exclude, includeCompleted) ==>
      b.resourceId == resourceId && Overlaps(b.start, b.end, start, end) && !Excluded(b, exclude)
  {
    b.resourceId == resourceId && CountsAsConflict(b.status, includeCompleted)
    && b.start < end && b.end > start && !Excluded(b, exclude)
  }

  /** Some row of the table passes the conflict filter. */
  predicate SomeClash(bookings: seq<Booking>, resourceId: int, start: int, end: int, exclude: Option<int>, includeCompleted: bool)
    ensures SomeClash(bookings, resourceId, start, end, exclude, includeCompleted) ==>
      exists i :: 0 <= i < |bookings| && bookings[i].resourceId == resourceId && Overlaps(bookings[i].start, bookings[i].end, start, end)
  {
    exists i :: 0 <= i < |bookings| && Clashes(bookings[i], resourceId, start, end, exclude, includeCompleted)
  }

  /** The scan behind `query.first() is not None`. */
  function AnyClash(bookings: seq<Booking>, resourceId: int, start: int, end: int, exclude: Option<int>, includeCompleted: bool): (r: bool)
    ensures r <==> SomeClash(bookings, resourceId, start, end, exclude, includeCompleted)
  {
    if bookings == [] then false
    else
      var last := |bookings| - 1;
      assert forall i :: 0 <= i < last ==> bookings[..last][i] == bookings[i];
      Clashes(bookings[last], resourceId, start, end, exclude, includeCompleted)
      || AnyClash(bookings[..last], resourceId, start, end, exclude, includeCompleted)
  }

  /** has_conflict: an invalid window raises; otherwise true iff some booking of the
      resource, other than the excluded one, in a counted status, overlaps [start, end). */
  function HasConflict(bookings: seq<Booking>, resourceId: int, start: int, end: int, exclude: Option<int>, includeCompleted: bool): (r: Result<bool>)
    ensures !ValidWindow(start, end) ==> r == Err(ValidateTimeWindow(start, end, DefaultMinMinutes).error)
    ensures ValidWindow(start, end) ==>
      r == Ok(SomeClash(bookings, resourceId, start, end, exclude, includeCompleted))
  {
    match ValidateTimeWindow(start, end, DefaultMinMinutes)
    case Fail(e) => Err(e)
    case Pass => Ok(AnyClash(bookings, resourceId, start, end, exclude, includeCompleted))
  }

  /** The rows of the conflict query with COMPLETED always included, in table order. */
  function ClashingRows(bookings: seq<Booking>, resourceId: int, start: int, end: int, exclude: Option<int>): (r: seq<Booking>)
    ensures forall b :: b in r ==> b in bookings && Clashes(b, resourceId, start, end, exclude, true)
    ensures forall i :: 0 <= i < |bookings| && Clashes(bookings[i], resourceId, start, end, exclude, true) ==> bookings[i] in r
  {
    if bookings == [] then []
    else
      var last := |bookings| - 1;
      var rest := ClashingRows(bookings[..last], resourceId, start, end, exclude);
      assert forall i :: 0 <= i < last ==> bookings[..last][i] == bookings[i];
      if Clashes(bookings[last], resourceId, start, end, exclude, true) then rest + [bookings[last]] else rest
  }

  /** find_conflicts: validates the window, then lists every clashing booking, COMPLETED
      ones included. */
  function FindConflicts(bookings: seq<Booking>, resourceId: int, start: int, end: int, exclude: Option<int>): (r: Result<seq<Booking>>)
    ensures !ValidWindow(start, end) ==> r == Err(ValidateTimeWindow(start, end, DefaultMinMinutes).error)
    ensures ValidWindow(start, end) ==> r.Ok?
  {
    match ValidateTimeWindow(start, end, DefaultMinMinutes)
    case Fail(e) => Err(e)
    case Pass => Ok(ClashingRows(bookings, resourceId, start, end, exclude))
  }

  /** find_conflicts returns exactly the bookings has_conflict(..., include_completed=True)
      looks for, so it is non-empty iff that call answers true. */
  lemma FindConflictsMatchesHasConflict(bookings: seq<Booking>, resourceId: int, start: int, end: int, exclude: Option<int>)
    requires ValidWindow(start, end)
    ensures FindConflicts(bookings, resourceId, start, end, exclude).Ok?
    ensures var found := FindConflicts(bookings, resourceId, start, end, exclude).value;
      (forall b :: b in found <==> b in bookings && Clashes(b, resourceId, start, end, exclude, true))
      && (found != [] <==> HasConflict(bookings, resourceId, start, end, exclude, true) == Ok(true))
  {
    var found := ClashingRows(bookings, resourceId, start, end, exclude);
    forall b | b in bookings && Clashes(b, resourceId, start, end, exclude, true) ensures b in found {
      var i :| 0 <= i < |bookings| && bookings[i] == b;
    }
    if found != [] {
      var b := found[0];
      assert b in found;
      var i :| 0 <= i < |bookings| && bookings[i] == b;
      assert Clashes(bookings[i], resourceId, start, end, exclude, true);
    }
  }

  /** has_conflict with include_completed=True answers true whenever the default call does. */
  lemma CompletedOnlyWidens(bookings: seq<Booking>, resourceId: int, start: int, end: int, exclude: Option<int>)
    requires HasConflict(bookings, resourceId, start, end, exclude, false) == Ok(true)
    ensures HasConflict(bookings, resourceId, start, end, exclude, true) == Ok(true)
  {
    var i :| 0 <= i < |bookings| && Clashes(bookings[i], resourceId, start, end, exclude, false);
    assert Clashes(bookings[i], resourceId, start, end, exclude, true);
  }

  /** A booking that ends exactly when the requested window starts, or starts exactly
      when it ends, is never reported as a conflict. */
  lemma AdjacentBookingNeverClashes(b: Booking, resourceId: int, start: int, end: int, exclude: Option<int>, includeCompleted: bool)
    requires b.end == start || b.start == end
    requires b.start < b.end && start < end
    ensures !Clashes(b, resourceId, start, end, exclude, includeCompleted)
  {
  }

  /** Row i of the table has id i + 1 (autoincrement from 1, no deletes). */
  predicate IdsAreIndexes(bookings: seq<Booking>) {
    forall k :: 0 <= k < |bookings| ==> bookings[k].id == k + 1
  }

  /** Two rows of one resource that both occupy their slot. */
  predicate Competing(a: Booking, b: Booking) {
    a.resourceId == b.resourceId && Active(a.status) && Active(b.status)
  }

  /** The engine's invariant: no two PENDING/APPROVED bookings of a resource overlap. */
  predicate NoDoubleBooking(bookings: seq<Booking>) {
    forall i, j :: 0 <= i < |bookings| && 0 <= j < |bookings| && i != j && Competing(bookings[i], bookings[j]) ==>
      !Overlaps(bookings[i].start, bookings[i].end, bookings[j].start, bookings[j].end)
  }

  /** Hence two overlapping bookings of one resource are never both APPROVED. */
  lemma NoDoubleApproval(bookings: seq<Booking>, i: int, j: int)
    requires NoDoubleBooking(bookings)
    requires 0 <= i < |bookings| && 0 <= j < |bookings| && i != j
    requires bookings[i].resourceId == bookings[j].resourceId
    requires Overlaps(bookings[i].start, bookings[i].end, bookings[j].start, bookings[j].end)
    ensures !(bookings[i].status == Approved && bookings[j].status == Approved)
  {
  }

  /** Appending a PENDING or APPROVED booking that has_conflict cleared keeps the invariant. */
  lemma InsertKeepsNoDoubleBooking(bookings: seq<Booking>, b: Booking)
    requires NoDoubleBooking(bookings)
    requires HasConflict(bookings, b.resourceId, b.start, b.end, None, false) == Ok(false)
    ensures NoDoubleBooking(bookings + [b])
  {
    var all := bookings + [b];
    forall i, j | 0 <= i < |all| && 0 <= j < |all| && i != j && Competing(all[i], all[j])
      ensures !Overlaps(all[i].start, all[i].end, all[j].start, all[j].end)
    {
      if i == |bookings| {
        assert !Clashes(all[j], b.resourceId, b.start, b.end, None, false);
      } else if j == |bookings| {
        assert !Clashes(all[i], b.resourceId, b.start, b.end, None, false);
      }
    }
  }

  /** The table after a step that keeps every row's resource and window and never moves
      a row INTO the PENDING/APPROVED set. */
  predicate NoNewActive(before: seq<Booking>, after: seq<Booking>) {
    |after| == |before|
    && forall k :: 0 <= k < |before| ==>
      after[k].resourceId == before[k].resourceId && after[k].start == before[k].start
      && after[k].end == before[k].end && (Active(after[k].status) ==> Active(before[k].status))
  }

  /** Approve (PENDING to APPROVED), reject, cancel, complete and the sweep are all such
      steps, so they keep the invariant. */
  lemma NoNewActiveKeepsNoDoubleBooking(before: seq<Booking>, after: seq<Booking>)
    requires NoDoubleBooking(before)
    requires NoNewActive(before, after)
    ensures NoDoubleBooking(after)
  {
    forall i, j | 0 <= i < |after| && 0 <= j < |after| && i != j && Competing(after[i], after[j])
      ensures !Overlaps(after[i].start, after[i].end, after[j].start, after[j].end)
    {
      assert Competing(before[i], before[j]);
    }
  }

  /** In the sequential store the approval recheck never fires: a PENDING booking with
      a valid window is already free of conflicts with the others. */
  lemma ApprovalRecheckPasses(bookings: seq<Booking>, i: int)
    requires NoDoubleBooking(bookings) && IdsAreIndexes(bookings)
    requires 0 <= i < |bookings| && bookings[i].status == Pending
    requires ValidWindow(bookings[i].start, bookings[i].end)
    ensures HasConflict(bookings, bookings[i].resourceId, bookings[i].start, bookings[i].end, Some(bookings[i].id), false) == Ok(false)
  {
    var b := bookings[i];
    forall j | 0 <= j < |bookings| && j != i && Competing(b, bookings[j])
      ensures !Overlaps(b.start, b.end, bookings[j].start, bookings[j].end)
    {
    }
    assert !SomeClash(bookings, b.resourceId, b.start, b.end, Some(b.id), false);
  }
}
