# Campus resource booking: a Dafny model of the booking engine

This project models the core of a campus booking application. Students, staff and
administrators book shared resources such as rooms, studios and equipment. The model
covers these parts:

- **The booking engine of the data-access layer** (`BookingStore.Store`, with
  `Engine`, `Conflicts` and `Ratings`):
  - half-open conflict detection;
  - the booking status machine (PENDING, APPROVED, REJECTED, CANCELLED, COMPLETED) with
    its role-gated transitions and the conflict recheck at approval;
  - the lazy sweep that turns finished APPROVED bookings into COMPLETED;
  - review upserts with the recomputed `rating_avg` / `rating_count`;
  - status-gated messaging between the participants of a booking.

  The store holds its tables as sequences. The row at index `i` has id `i + 1`. The
  store invariant `Valid()` includes the booking rule the engine exists to keep: no two
  PENDING/APPROVED bookings of one resource overlap. Every state-changing method
  preserves it.
- **The validators** (`Validators`) for time windows, booking requests, capacity,
  resource payloads, review payloads, pagination and upload file names.
- **The resource search** (`Search`). It covers the filter predicates, the exclusion
  of resources booked on a given date, and the `recent`, `most_booked` and `top_rated`
  orderings.
- **The message sanitiser** (`Sanitize`). It strips the body, replaces blocked words
  and truncates to 2000 characters.
- **Image naming** (`Images`). It covers the extension allow-list, the stored and
  thumbnail names, and the relative paths.
- **Client address capture** (`Audit`), from `X-Forwarded-For`.
- **Keyword extraction** (`Keywords`). It covers the empty-input guard, the rule-based
  fallback, and the clean-up of a model reply.
- **Three throttles, each a class over a map updated in place:**
  - the sliding-window rate limiter (`RateLimit.Limiter`);
  - the per-(user, booking) cooldown (`AntiAbuse.Cooldowns`);
  - the concierge's per-(user, endpoint) throttle (`Concierge.Throttle`).

## Modelling conventions

- **Time.** Timestamps are integer seconds since 0001-01-01 00:00. The current time is
  always a parameter `now`.
- **Ratings.** `rating_avg` is an exact `real`.
- **Text.** Text is ASCII. Lowercasing, whitespace and digits follow ASCII rules.
- **Failures.** A raised `ValueError`, or an `(None, error)` pair, becomes an `Err` or
  `Fail` value naming the error.

## Model

| member | source | states |
|---|---|---|
| Validators.ValidateTimeWindow | src/services/validators.py:51-57 | passes iff end > start and the duration is at least the minimum; end <= start gives the ordering error, a shorter window the duration error |
| Validators.MinimumDurationBoundary | src/services/validators.py:55-57 | exactly 15 minutes passes, 15 minutes less one second fails, an empty window fails on ordering |
| Validators.ValidateBookingRequest | src/services/validators.py:80-88 | archived is refused first, then capacity <= 0, then the time window; passes iff all three hold |
| Validators.ValidateCapacity | src/services/validators.py:91-106 | passes iff absent or a non-negative integer; a string or a negative number names its error |
| Validators.ParseSigned | src/services/validators.py:127-134 | succeeds iff the text is digits, or '+' or '-' followed by at least one digit; '-' negates the digits' decimal value, otherwise the value is that decimal value |
| Validators.ParseInt | src/services/validators.py:127-134 | a digit string parses to its decimal value; a parse never succeeds on a blank string |
| Validators.ParseIntOfStripped | src/services/validators.py:130 | surrounding whitespace does not change the parse |
| Validators.ParseIntToString | src/services/validators.py:130 | int(str(n)) == n for every integer n |
| Validators.CapacityProblems | src/services/validators.py:126-134 | at most one capacity problem; negative iff the value (parsed) is below 0, not-integer iff a string that does not parse |
| Validators.PayloadProblems | src/services/validators.py:119-162 | at most five problems collected |
| Validators.PayloadProblemsExact | src/services/validators.py:119-162 | each of the six problems is listed iff its rule fails: blank title, negative or non-integer capacity, unknown status, category or location over 80 characters |
| Validators.ValidateResourcePayload | src/services/validators.py:160-162 | passes iff no problem was collected; otherwise one failure carrying the whole list |
| Validators.ValidateReviewPayload | src/services/validators.py:224-234 | accepts iff rating in 1..5 and the stripped comment is non-empty and at most 1000 characters, returning (rating, stripped comment); the errors in order: InvalidRating, CommentRequired, CommentTooLong |
| Validators.AcceptedCommentShape | src/services/validators.py:228-234 | an accepted comment is non-empty, at most 1000 characters and has no surrounding whitespace |
| Validators.ValidatePagination | src/services/validators.py:250-254 | an unparseable value gives the default unclamped; otherwise the value (or the default for None/empty) clamped into [minv, maxv] |
| Validators.Extension | src/services/validators.py:193-198 | the lowercased text after the last dot holds no dot |
| Validators.ValidateUpload | src/services/validators.py:180-207 | each error under its own guard, in order: NoFile for a missing name, NoExtension without a dot, DoubleExtension for two or more dots, ExtensionNotAllowed, FileTooLarge above the limit, FileEmpty for size 0; passes iff none applies |
| Conflicts.OverlapsIffSharedInstant | src/data_access/dal.py:433-437 | for non-empty windows the overlap test holds iff some instant lies in both |
| Conflicts.Clashes | src/data_access/dal.py:433-441 | a clashing row belongs to the resource, overlaps the window and is not the excluded booking |
| Conflicts.SomeClash | src/data_access/dal.py:433-443 | a clash names a booking of the resource that overlaps the window |
| Conflicts.OverlapSymmetric | src/data_access/dal.py:436-437 | the half-open overlap test is symmetric |
| Conflicts.AdjacentNeverOverlap | src/data_access/dal.py:436-437 | intervals that only touch never overlap |
| Conflicts.AnyClash | src/data_access/dal.py:433-443 | the scan over the bookings answers true iff some booking clashes |
| Conflicts.HasConflict | src/data_access/dal.py:401-443 | an invalid window is an error; otherwise true iff some booking of the resource, not the excluded one, in an active status (plus COMPLETED when asked), overlaps |
| Conflicts.ClashingRows | src/data_access/dal.py:460-474 | holds exactly the bookings that clash with COMPLETED counted |
| Conflicts.FindConflicts | src/data_access/dal.py:446-474 | an invalid window is an error; otherwise the clashing rows |
| Conflicts.FindConflictsMatchesHasConflict | src/data_access/dal.py:446-474 | find_conflicts is non-empty iff has_conflict with completed bookings included is true |
| Conflicts.CompletedOnlyWidens | src/data_access/dal.py:426-428 | counting COMPLETED bookings can only add conflicts |
| Conflicts.AdjacentBookingNeverClashes | src/data_access/dal.py:436-437 | a booking ending where the window starts, or starting where it ends, never clashes |
| Conflicts.NoDoubleApproval | src/data_access/dal.py:509-510 | under the store invariant two overlapping bookings of one resource are never both APPROVED |
| Conflicts.InsertKeepsNoDoubleBooking | src/data_access/dal.py:509-528 | appending a booking that has_conflict clears keeps the invariant |
| Conflicts.NoNewActiveKeepsNoDoubleBooking | src/data_access/dal.py:565-566 | a step that only moves bookings out of PENDING/APPROVED keeps the invariant |
| Conflicts.ApprovalRecheckPasses | src/data_access/dal.py:610-611 | under the invariant the approval recheck of a PENDING booking, excluding itself, finds nothing |
| Engine.IsParticipant | src/data_access/dal.py:801-833 | a user is a participant of a booking iff the booking exists and the user is its requester, the creator of its (existing) resource, or an ADMIN |
| Engine.Swept | src/data_access/dal.py:555-570 | the sweep keeps the table's length |
| Engine.SweepIsStatusStep | src/data_access/dal.py:555-570 | the sweep changes only status and updated_at, only of due bookings (APPROVED, ended strictly before now, of that user and resource), to COMPLETED with updated_at set to now, and leaves none due |
| Engine.SweepIdempotent | src/data_access/dal.py:555-570 | sweeping twice is sweeping once |
| Engine.CompletedAfterSweep | src/data_access/dal.py:1012-1035 | after the sweep the user has a completed booking iff one was COMPLETED or APPROVED and ended before now |
| Engine.Due | src/data_access/dal.py:557-562 | a booking the sweep completes is one that still holds its slot (APPROVED) and has ended before now |
| Engine.FindReview | src/data_access/dal.py:1038-1049 | finds a row of that (resource, user), or none exists |
| Engine.Upsert | src/data_access/dal.py:1120-1143 | the written review carries the resource, user, rating, comment and time given; the table grows by at most one row |
| Engine.UpsertWritesOneRow | src/data_access/dal.py:1120-1143 | the upsert leaves exactly one review of (resource, user), the written one with the new rating, comment and time; other rows are unchanged and at most one row is added |
| Engine.StoredRating | src/data_access/dal.py:1065-1092 | under the invariant a resource's rating_count is its number of visible reviews, rating_avg is 0.0 with none and within 1..5 otherwise |
| Engine.CompletedBookingRows | src/data_access/dal.py:1000-1035 | a completed booking names an existing user and resource |
| Engine.AppendResourceKeepsInvariant | src/data_access/dal.py:108-143 | a new resource with zero ratings keeps the store invariant |
| Engine.StatusStepKeepsTables | src/data_access/dal.py:544-573 | a status-only step keeps the table invariants |
| Engine.InsertBookingKeepsTables | src/data_access/dal.py:477-541 | a conflict-free new booking row keeps the table invariants |
| Engine.EditReviewKeepsTables | src/data_access/dal.py:1122-1127 | editing a review in place keeps the table invariants |
| Engine.AppendReviewKeepsTables | src/data_access/dal.py:1132-1140 | adding the first review of a (resource, user) keeps the table invariants |
| Engine.EditReviewsOf | src/data_access/dal.py:1186-1199 | changing reviews of one resource leaves only that resource's aggregates stale |
| Engine.AppendReviewOf | src/data_access/dal.py:1132-1143 | adding a review leaves only its resource's aggregates stale |
| Engine.ReportKeepsRatings | src/data_access/dal.py:1238-1279 | flipping is_reported leaves every aggregate correct |
| Engine.RecomputeRestores | src/data_access/dal.py:1065-1092 | writing the visible count and mean makes every aggregate correct again |
| Ratings.VisibleRatings | src/data_access/dal.py:1074-1081 | the ratings the aggregate query sees, never more than the reviews |
| Ratings.Mean | src/data_access/dal.py:1084-1089 | no ratings give 0.0 |
| Ratings.MeanTimesCount | src/data_access/dal.py:1076 | over a non-empty list the mean times the count is the sum (SQL AVG) |
| Ratings.CountIsVisibleReviews | src/data_access/dal.py:1074-1084 | the number of visible ratings is the number of non-hidden reviews of the resource |
| Ratings.VisibleRatingsMembers | src/data_access/dal.py:1074-1084 | a visible rating is the rating of a non-hidden review of the resource |
| Ratings.NoReviewsNoRatings | src/data_access/dal.py:1086-1088 | a resource without reviews has no visible ratings |
| Ratings.MeanInRange | src/data_access/dal.py:1084-1085 | the mean of star ratings lies within 1..5 |
| Ratings.SumBounds | src/data_access/dal.py:1084-1085 | n star ratings sum to between n and 5n |
| Ratings.VisibleRatingsAreStars | src/data_access/dal.py:1074-1084 | reviews rated 1..5 give visible ratings in 1..5 |
| BookingStore.CheckPassword | src/data_access/dal.py:41-60 | each rule under its own guard, in order: shorter than 8, no upper-case, no lower-case, no digit, no special character; passes iff all five hold |
| BookingStore.InitialStatus | src/data_access/dal.py:512-518 | APPROVED iff the resource is PUBLISHED and needs no approval, otherwise PENDING |
| BookingStore.Store.constructor | src/data_access/dal.py:18-72 | an empty store satisfies the invariant |
| BookingStore.Store.CreateUser | src/data_access/dal.py:18-72 | a taken e-mail or a password rule fails first; on success exactly one user is appended |
| BookingStore.Store.CreateResource | src/data_access/dal.py:108-143 | payload and capacity validation decide; on success one resource (DRAFT unless a status is given, zero ratings) is appended and nothing else changes |
| BookingStore.Store.CreateBooking | src/data_access/dal.py:477-541 | missing user, missing resource, request validation and conflict fail in that order; on success one booking with the initial status is appended; the invariant holds |
| BookingStore.Store.Sweep | src/data_access/dal.py:555-570 | the bookings become the swept table |
| BookingStore.Store.ListBookingsForUser | src/data_access/dal.py:544-573 | sweeps the user's bookings, then returns exactly the user's bookings |
| BookingStore.Store.UserHasCompletedBooking | src/data_access/dal.py:1000-1035 | sweeps (user, resource), then answers whether a COMPLETED booking exists |
| BookingStore.Store.ApproveBooking | src/data_access/dal.py:576-624 | missing booking, not PENDING, missing approver, no authority (Unauthorized) and a clash with another booking (Conflict) fail in that order; success sets APPROVED and changes only that row |
| BookingStore.Store.RejectBooking | src/data_access/dal.py:627-671 | missing booking, not PENDING, missing approver and no authority (Unauthorized) fail in that order; success sets REJECTED and changes only that row |
| BookingStore.Store.CancelBooking | src/data_access/dal.py:674-719 | succeeds iff the owner cancels a PENDING/APPROVED booking or STAFF/ADMIN cancel any; the result is CANCELLED and only that row changes |
| BookingStore.Store.CompleteBooking | src/data_access/dal.py:722-768 | missing booking, missing actor, not ADMIN, not APPROVED and before end fail in that order; success sets COMPLETED |
| BookingStore.Store.RecomputeResourceRating | src/data_access/dal.py:1065-1092 | writes the count and mean of the visible reviews to that resource only and restores the invariant |
| BookingStore.Store.WriteReview | src/data_access/dal.py:1120-1145 | the reviews become the upsert and the resource's aggregates are recomputed |
| BookingStore.Store.CreateOrUpdateReview | src/data_access/dal.py:1095-1145 | payload errors come first; then the sweep and the completed-booking requirement; success upserts and recomputes; failure leaves reviews and resources alone |
| BookingStore.Store.SetReviewHidden | src/data_access/dal.py:1170-1235 | a missing review or a non-ADMIN actor fails; success sets is_hidden and recomputes that resource |
| BookingStore.Store.HideReview | src/data_access/dal.py:1170-1201 | a missing review fails first, then a non-ADMIN actor; success sets is_hidden on that row only and recomputes the resource's rating from its visible reviews; a failure changes nothing |
| BookingStore.Store.UnhideReview | src/data_access/dal.py:1204-1235 | a missing review fails first, then a non-ADMIN actor; success clears is_hidden on that row only and recomputes the resource's rating from its visible reviews; a failure changes nothing |
| BookingStore.Store.SetReviewReported | src/data_access/dal.py:1238-1279 | a missing review fails; otherwise only is_reported changes |
| BookingStore.Store.CreateMessage | src/data_access/dal.py:849-911 | each error under its own guard, in order: EmptyBody (missing or blank), EmptyAfterSanitize, BookingNotFound, BookingClosed (CANCELLED/REJECTED), NotParticipant (sender), RecipientNotFound, RecipientNotParticipant; BodyTooLong never occurs because sanitising already cuts to 2000 characters; success appends one message with the sanitised body |
| BookingStore.Store.ReportMessage | src/data_access/dal.py:939-963 | a missing message fails; a participant reporter sets is_reported, anyone else gets a permission error |
| BookingStore.Store.HideMessage | src/data_access/dal.py:966-993 | succeeds iff the message exists and the actor is ADMIN; sets is_hidden |
| Sanitize.ReplaceAll | src/services/sanitize.py:27-28 | replacing matches in non-empty text leaves non-empty text |
| Sanitize.Sanitized | src/services/sanitize.py:7-34 | at most 2000 characters; None gives "" |
| Sanitize.ReplaceLeavesNoMatch | src/services/sanitize.py:24-28 | after replacing a blocked word, no case-insensitive occurrence of it remains |
| Sanitize.ReplaceKeepsAbsence | src/services/sanitize.py:24-28 | replacing one blocked word does not create another |
| Sanitize.ReplaceIdentity | src/services/sanitize.py:24-28 | text without the word is unchanged by its replacement |
| Sanitize.Truncate | src/services/sanitize.py:31-32 | a prefix of at most 2000 characters, the whole text when it fits, exactly 2000 otherwise |
| Sanitize.SanitizeBody | src/services/sanitize.py:7-34 | computes the sanitised body: at most 2000 characters with no blocked word left |
| Sanitize.BlankGivesEmpty | src/services/sanitize.py:17-21 | None, empty or whitespace-only input gives "" |
| Sanitize.NonBlankSanitizedNonEmpty | src/services/sanitize.py:17-34 | non-blank input never sanitises to "" |
| Sanitize.CleanBodyKept | src/services/sanitize.py:21-34 | input with no blocked word gives its stripped form, cut to 2000 characters |
| Search.WantedStatus | src/services/search.py:72-76 | PUBLISHED when no status is given, otherwise the given one |
| Search.ParseDate | src/services/search.py:54 | a parsed date is a real calendar date |
| Search.ParseFormatRoundTrip | src/services/search.py:54 | every valid date written YYYY-MM-DD parses back to itself |
| Search.NextDayStartsADayLater | src/services/search.py:55-56 | within a month, the day window of the next day starts where this one ends |
| Search.NextDate | src/services/search.py:56 | the calendar successor: later than the date, and a valid date except after 31 December 9999 |
| Search.NextDateStartsADayLater | src/services/search.py:55-56 | for every valid date, across month and year ends too, the next date is numbered one higher and its window starts where this one ends |
| Search.NewYearStartsADayLater | src/services/search.py:55-56 | 1 January of the next year is numbered one past 31 December |
| Search.LeapDays | src/services/search.py:55-56 | the Gregorian leap-day count grows by one exactly at a leap year |
| Search.DateFilterIsHasConflict | src/services/search.py:58-67 | a resource passes the date filter iff has_conflict over that whole day answers false |
| Search.Selected | src/services/search.py:29-76 | a request without filters selects exactly the PUBLISHED resources |
| Search.FilterResources | src/services/search.py:29-76 | keeps exactly the resources passing every filter, and only removes rows |
| Search.FilterAgrees | src/services/search.py:29-76 | requests selecting the same resources give the same rows |
| Search.OrderOf | src/services/search.py:79-106 | most_booked and top_rated select their orders; anything else means recent |
| Search.BookedCount | src/services/search.py:81-89 | at most the number of bookings; zero exactly when the resource has no APPROVED or COMPLETED booking |
| Search.RankOf | src/services/search.py:91-104 | under most_booked the leading key is non-negative, and 0 exactly for a resource without counted bookings (the NULL placed last) |
| Search.Insert | src/services/search.py:91-106 | inserting into a sorted list keeps it sorted and adds exactly that element |
| Search.SortResources | src/services/search.py:91-106 | a sorted permutation of the rows |
| Search.InsertLast | src/services/search.py:91-106 | an element that every element of a sorted list may precede goes at the end |
| Search.SortKeepsSorted | src/services/search.py:91-106 | sorting a list that is already in order leaves it unchanged, so ties keep their order |
| Search.TiesKeepTableOrder | src/services/search.py:91-106 | a list of two rows with equal sort keys keeps its order |
| Search.Tied | src/services/search.py:91-106 | the rows with a given sort key, in list order: no longer than the list, each with that key |
| Search.TiedAppend | src/services/search.py:91-106 | the tied rows of a concatenation are those of each part in turn |
| Search.InsertTied | src/services/search.py:91-106 | inserting a row into a sorted list places it after every row of its own key already there |
| Search.SortIsStable | src/services/search.py:91-106 | for every list and every key, the rows with that key appear in the sorted result in their input order (stability) |
| Search.ApplyResourceFilters | src/services/search.py:10-108 | exactly the selected resources, a sub-multiset of the input, sorted by the requested order |
| Search.LastDateHasNoSuccessor | src/services/search.py:55-56 | a valid date has no valid next day iff it is 9999-12-31 |
| Search.SearchResources | src/services/search.py:52-69 | fails with DateOutOfRange iff the date filter is 9999-12-31 (the day end overflows and is not caught); otherwise the filtered, sorted rows |
| Search.UnparseableDateIgnored | src/services/search.py:68-69 | an unparseable date gives the same result as no date |
| Search.DefaultStatusIsPublished | src/services/search.py:72-76 | without a status every result is PUBLISHED |
| Search.UnbookedLast | src/services/search.py:91-97 | under most_booked a resource with no approved/completed booking comes after every resource with one |
| Search.TopRatedOrder | src/services/search.py:100-104 | under top_rated a higher average comes first, then a higher count |
| Images.AllowedFile | src/services/image_utils.py:9-29 | no dot or more than one dot is refused; with one dot, allowed iff the lowercased extension is in the set |
| Images.UploadAgreesWithAllowedFile | src/services/image_utils.py:9-29 | validate_upload's name rules agree with allowed_file |
| Images.StoredName | src/services/image_utils.py:104-105 | hex, a dot, the extension |
| Images.ThumbName | src/services/image_utils.py:113 | the thumbnail name keeps the stored name's stem and never equals the stored name |
| Images.SavedPaths | src/services/image_utils.py:103-135 | the image path and the thumbnail path differ |
| Images.DerivedThumb | src/data_access/dal.py:371-379 | a thumbnail exactly when the file name has a dot; it lies in the same directory and differs from the image path |
| Images.RelPath | src/services/image_utils.py:132-133 | "resources/{id}/{name}" |
| Images.ThumbnailRoundTrip | src/data_access/dal.py:372-379 | the thumbnail path derived from a stored image path is the one save_uploaded_image created |
| Audit.FirstEntry | src/services/audit.py:22 | the text up to the first comma: a comma-free prefix followed by a comma or the end |
| Audit.CaptureIp | src/services/audit.py:5-25 | no request gives None; a non-empty header gives its first entry stripped; otherwise remote_addr |
| Audit.HeaderAddressShape | src/services/audit.py:19-22 | a header-derived address has no comma and is a substring of the header |
| Audit.LaterHopsIgnored | src/services/audit.py:19-22 | appending later proxies after a comma does not change the address |
| Keywords.Spaced | src/services/ai_client.py:37 | same length, no ',' or '?' left |
| Keywords.RawKeywords | src/services/ai_client.py:27-50 | every collected keyword is longer than two characters |
| Keywords.TokenKeywords | src/services/ai_client.py:37-38 | keeps exactly the tokens longer than two characters that are not stopwords |
| Keywords.Numbers | src/services/ai_client.py:34 | every number found is a digit run |
| Keywords.RunStartsAt | src/services/ai_client.py:34 | a standalone run that starts inside a maximal digit run is that run |
| Keywords.StandaloneRunsFound | src/services/ai_client.py:34 | every digit run with a non-word character or the edge of the text on each side is found |
| Keywords.FoundAreStandaloneRuns | src/services/ai_client.py:34 | everything found is such a run |
| Keywords.NumbersAreStandaloneRuns | src/services/ai_client.py:34 | the numbers found are exactly the digit runs with a non-word character or the edge of the text on each side |
| Keywords.PersonKeywords | src/services/ai_client.py:41-42 | exactly "{n}person" for the found numbers n <= 20 |
| Keywords.PhraseKeywords | src/services/ai_client.py:45-50 | exactly the fixed expansions the query triggers |
| Keywords.RawKeywordsAreCandidates | src/services/ai_client.py:27-50 | the collected list holds exactly the tokens, person keywords and phrase expansions of the query |
| Keywords.Distinct | src/services/ai_client.py:52 | no duplicates, the same elements |
| Keywords.FallbackKeywords | src/services/ai_client.py:25-52 | at most eight distinct keywords, each allowed by the rules, all of them unless eight were reached |
| Keywords.CleanPieces | src/services/ai_client.py:74 | the non-blank pieces cleaned: non-empty, at most 40 characters, lower case; none iff every piece is blank |
| Keywords.CleanPiecesMembers | src/services/ai_client.py:74 | a keyword is kept iff it is the cleaned form of some non-blank piece |
| Keywords.CleanPiecesAppend | src/services/ai_client.py:74 | cleaning a concatenation cleans each part in turn, so the pieces' order is kept |
| Keywords.ReplyKeywords | src/services/ai_client.py:73-75 | the first min(8, n) of the n cleaned pieces of the stripped reply; none iff every piece is blank |
| Keywords.FirstEight | src/services/ai_client.py:75 | the first eight elements, or all of them when there are at most eight |
| Text.JoinSplitOn | src/services/ai_client.py:74 | joining the pieces of text.split(",") with commas gives back the text |
| Text.SplitOnJoin | src/services/ai_client.py:74 | splitting a comma join of comma-free pieces gives back the pieces |
| Keywords.ExtractKeywords | src/services/ai_client.py:15-78 | blank or None input gives []; no client or a failed call gives the fallback; a reply gives its keywords, or the fallback when none remain |
| Keywords.NoClientUsesRules | src/services/ai_client.py:54-55 | without a client the keywords are distinct and rule-based |
| RateLimit.Evict | src/services/rate_limit.py:25-26 | never grows the bucket; its head is at most window old |
| RateLimit.EvictKeepsWindow | src/services/rate_limit.py:25-26 | on an ascending bucket keeps exactly the entries at most window old |
| RateLimit.EvictIsSuffix | src/services/rate_limit.py:25-26 | eviction removes from the front only |
| RateLimit.AdmitKeepsAscending | src/services/rate_limit.py:25-34 | with non-decreasing time the bucket stays ascending |
| RateLimit.Limiter.Allow | src/services/rate_limit.py:9-34 | allowed iff the evicted bucket is shorter than the limit; appends now only then; no other key changes; keeps every bucket within the limit and ascending |
| RateLimit.Limiter.Reset | src/services/rate_limit.py:37-40 | removes only that key |
| AntiAbuse.Pruned | src/services/antiabuse.py:41-47 | keeps exactly the entries at or after the cutoff, unchanged |
| AntiAbuse.Cooldowns.CheckCooldown | src/services/antiabuse.py:10-47 | fails iff the key was seen less than `seconds` ago, leaving the cache; otherwise records now and prunes everything older than now - 2 seconds |
| AntiAbuse.Cooldowns.PruneBefore | src/services/antiabuse.py:41-47 | the cache afterwards is the old cache with every entry older than the cutoff removed |
| AntiAbuse.Cooldowns.ClearCooldown | src/services/antiabuse.py:50-60 | removes only that (user, booking) key |
| AntiAbuse.CooldownAfterPass | src/services/antiabuse.py:28-37 | after a pass, a second check is refused before `seconds` have elapsed and passes at exactly `seconds` |
| Concierge.Throttle.RateLimit | src/services/ai_concierge.py:25-32 | raises (cache unchanged) iff the pair was called less than `seconds` ago; otherwise records now for that pair only |
| Concierge.FirstCallPasses | src/services/ai_concierge.py:28-32 | the first call of a (user, endpoint) pair passes |
| Concierge.AskSpacedByDefault | src/services/ai_concierge.py:202 | with the default five seconds, a second "ask" is refused iff it comes less than five seconds after the admitted one |
| Concierge.SpacingAfterPass | src/services/ai_concierge.py:202 | after an "ask" call, "ask" is throttled until `seconds` later while "draft" is unaffected |

## Left out

- Storage, HTTP and sessions: SQLAlchemy queries, commits and pagination become
  sequence operations.
- BookingStore.Store.ListBookingsForUser: returns the user's bookings in table order;
  the `start_dt` descending order of the query is not modelled.
- Concurrency: the time-of-check/time-of-use window between `has_conflict` and the
  insert does not exist in the sequential model.
- Notifications and admin logging are fire-and-forget side effects, left out.
- Password hashing (bcrypt) and e-mail normalisation (`normalize_email`) are opaque:
  the e-mail is compared as given and no hash is stored.
- `update_resource`, `archive_resource`, `unarchive_resource` and the image-list JSON
  of a resource are not part of this model. Neither are the categories and locations
  tables, their name-uniqueness checks, or the availability rules.
- `create_resource`: the status arrives already parsed, and a capacity of None is
  stored as 0.
- A user id that names no row gives `UserNotFound`, where Python would fail with an
  attribute error on `None`.
- Floating point: `rating_avg` is an exact real. `total_seconds()` and `time.time()`
  become integer seconds.
- Search: `LIKE` wildcards (`%`, `_`) inside a search term are matched literally. Rows
  whose sort keys tie keep table order (`SortIsStable`), where the database leaves the
  order open. The
  `most_booked` count of a resource without counted bookings, NULL in the database, is
  taken as 0, which still places it last.
- Search.ParseDate: `strptime`'s Unicode digits are not accepted, only ASCII digits.
- Search.ApplyResourceFilters: treats every parsed date alike; the overflow of the day
  after 9999-12-31, which fails the request, is modelled by `SearchResources` around it.
- Text handling is ASCII: `re.IGNORECASE`, `\d`, `\b`, `str.lower`, `str.strip` and
  `str.split` are Unicode-aware in the source.
- Validators.ParseInt: does not accept `int()`'s underscore digit grouping. A capacity
  that is neither text nor an integer (a float or a bool, which `int()` also converts)
  is not modelled.
- Keywords.FallbackKeywords: `list(set(keywords))[:8]` takes eight in an arbitrary
  order. The model takes them in order of first occurrence, so which eight survive a
  longer list is fixed here and unspecified in the source.
- Keywords.ExtractKeywords: the language-model call is a parameter, which is either no
  client, a reply text, or a failure. The prompt and the transport are not modelled.
- The concierge's other helpers are left out: the snippet query, the context files, the
  redaction and the answers themselves.
- AntiAbuse.Cooldowns.CheckCooldown: the source keys the cache by the string
  `"{user_id}:{booking_id}"`. The model uses the pair, which is the same key
  one-to-one.
- Images: PIL content validation and thumbnail generation, `secure_filename`, the
  directory creation and the file writes are left out. The random `uuid4().hex` is a
  parameter.
