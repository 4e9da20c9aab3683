/** Entities, enumerations and the error taxonomy shared by the booking engine.
    Timestamps are integer seconds since 0001-01-01T00:00 (naive UTC, proleptic
    Gregorian calendar, the epoch of Python's date ordinals). */
module Domain {

  datatype Option<+T> = None | Some(value: T)

  datatype UserRole = Student | Staff | Admin

  datatype ResourceStatus = Draft | Published | Archived

  datatype BookingStatus = Pending | Approved | Rejected | Completed | Cancelled

  /** Problems that validate_resource_payload collects before raising once. */
  datatype PayloadProblem =
    | TitleRequired
    | CapacityNegative
    | CapacityNotInteger
    | StatusInvalid
    | CategoryTooLong
    | LocationTooLong

  datatype Error =
    // time window
    | EndNotAfterStart
    | DurationTooShort(minMinutes: int)
    // lookups
    | UserNotFound
    | ResourceNotFound
    | BookingNotFound
    | ReviewNotFound
    | MessageNotFound
    | RecipientNotFound
    // booking rules
    | ResourceArchived
    | NoCapacity
    | Conflict
    | InvalidTransition(from: BookingStatus)
    | Unauthorized
    | BeforeEndTime
    | NotEligible
    // payloads
    | InvalidRating
    | CommentRequired
    | CommentTooLong
    | InvalidPayload(problems: seq<PayloadProblem>)
    | CapacityNotAnInteger
    | CapacityBelowZero
    | EmailTaken
    | PasswordTooShort
    | PasswordNoUpper
    | PasswordNoLower
    | PasswordNoDigit
    | PasswordNoSpecial
    // messages
    | EmptyBody
    | EmptyAfterSanitize
    | BodyTooLong
    | BookingClosed
    | NotParticipant
    | RecipientNotParticipant
    // uploads
    | NoFile
    | NoExtension
    | DoubleExtension
    | ExtensionNotAllowed
    | FileTooLarge
    | FileEmpty
    // search: the day window of the last representable date has no end
    | DateOutOfRange
    // throttles
    | CoolingDown
    | TooSoon

  datatype Result<+T> = Ok(value: T) | Err(error: Error)

  datatype Outcome = Pass | Fail(error: Error)

  /** A loosely typed request value: Python's None, an int or a str. */
  datatype Value = Absent | Int(i: int) | Str(s: string)

  datatype User = User(id: int, email: string, role: UserRole)

  datatype Resource = Resource(
    id: int,
    title: string,
    description: Option<string>,
    category: Option<string>,
    location: Option<string>,
    capacity: int,
    status: ResourceStatus,
    requiresApproval: bool,
    ratingAvg: real,
    ratingCount: int,
    createdBy: int,
    createdAt: int,
    updatedAt: int)

  datatype Booking = Booking(
    id: int,
    resourceId: int,
    userId: int,
    start: int,
    end: int,
    status: BookingStatus,
    createdAt: int,
    updatedAt: int)

  datatype Review = Review(
    id: int,
    resourceId: int,
    userId: int,
    rating: int,
    comment: string,
    createdAt: int,
    isHidden: bool,
    isReported: bool)

  datatype Message = Message(
    id: int,
    bookingId: int,
    senderId: int,
    recipientId: Option<int>,
    body: string,
    createdAt: int,
    isHidden: bool,
    isReported: bool)

  const SecondsPerMinute: int := 60
  const SecondsPerDay: int := 86400
  /** Default minimum booking length of validate_time_window. */
  const DefaultMinMinutes: int := 15
}
