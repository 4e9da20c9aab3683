/** The pure validators of the service layer: each one either passes or names the
    first rule the input breaks, in the order the rules are checked. */
module Validators {
  import opened Domain
  import opened Text

  /** validate_time_window: the end must come after the start and the window must
      last at least minMinutes minutes. */
  function ValidateTimeWindow(start: int, end: int, minMinutes: int): (r: Outcome)
    ensures r == Pass <==> start < end && end - start >= minMinutes * SecondsPerMinute
    ensures end <= start ==> r == Fail(EndNotAfterStart)
    ensures start < end && end - start < minMinutes * SecondsPerMinute ==> r == Fail(DurationTooShort(minMinutes))
  {
    if end <= start then Fail(EndNotAfterStart)
    else if end - start < minMinutes * SecondsPerMinute then Fail(DurationTooShort(minMinutes))
    else Pass
  }

  /** A window the booking engine accepts with the default 15-minute minimum. */
  predicate ValidWindow(start: int, end: int) {
    ValidateTimeWindow(start, end, DefaultMinMinutes) == Pass
  }

  /** With the default minimum, exactly 15 minutes passes and one second less fails;
      in particular an empty or reversed window never passes. */
  lemma MinimumDurationBoundary(start: int)
    ensures ValidateTimeWindow(start, start + 15 * 60, DefaultMinMinutes) == Pass
    ensures ValidateTimeWindow(start, start + 15 * 60 - 1, DefaultMinMinutes) == Fail(DurationTooShort(15))
    ensures ValidateTimeWindow(start, start, DefaultMinMinutes) == Fail(EndNotAfterStart)
  {
  }

  /** validate_booking_request for an existing user: an archived resource is refused
      before a capacity of zero or less, and only then is the window checked. */
  function ValidateBookingRequest(resource: Resource, start: int, end: int): (r: Outcome)
    ensures r == Pass <==>
      resource.status != Archived && resource.capacity > 0 && ValidWindow(start, end)
    ensures resource.status == Archived ==> r == Fail(ResourceArchived)
    ensures resource.status != Archived && resource.capacity <= 0 ==> r == Fail(NoCapacity)
    ensures resource.status != Archived && resource.capacity > 0 ==>
      r == ValidateTimeWindow(start, end, DefaultMinMinutes)
  {
    if resource.status == Archived then Fail(ResourceArchived)
    else if resource.capacity <= 0 then Fail(NoCapacity)
    else ValidateTimeWindow(start, end, DefaultMinMinutes)
  }

  /** validate_capacity: None and every integer at least 0 pass; a non-integer and a
      negative integer fail. */
  function ValidateCapacity(capacity: Value): (r: Outcome)
    ensures r == Pass <==> capacity.Absent? || (capacity.Int? && capacity.i >= 0)
    ensures capacity.Str? ==> r == Fail(CapacityNotAnInteger)
    ensures capacity.Int? && capacity.i < 0 ==> r == Fail(CapacityBelowZero)
  {
    match capacity
    case Absent => Pass
    case Str(_) => Fail(CapacityNotAnInteger)
    case Int(i) => if i < 0 then Fail(CapacityBelowZero) else Pass
  }

  predicate AllDigits(s: string) {
    forall k :: 0 <= k < |s| ==> IsDigit(s[k])
  }

  /** int() of text already stripped: an optional sign and at least one ASCII digit. */
  function ParseSigned(t: string): (r: Option<int>)
    ensures r.Some? <==> (t != [] && AllDigits(t)) || (|t| >= 2 && (t[0] == '+' || t[0] == '-') && AllDigits(t[1..]))
    ensures r.Some? && t[0] == '-' ==> r.value == -(DigitsValue(t[1..]) as int) && r.value <= 0
    ensures r.Some? && t[0] != '-' ==> r.value >= 0 && r.value == DigitsValue(if t[0] == '+' then t[1..] else t)
  {
    if t == [] then None
    else
      var neg := t[0] == '-';
      var body := if t[0] == '-' || t[0] == '+' then t[1..] else t;
      if body == [] || !AllDigits(body) then None
      else if neg then Some(-(DigitsValue(body) as int))
      else Some(DigitsValue(body))
  }

  /** Python's int() of a str: surrounding whitespace, an optional sign and at least
      one ASCII digit. */
  function ParseInt(s: string): (r: Option<int>)
    ensures r.Some? ==> Strip(s) != []
    ensures AllDigits(s) && s != [] ==> r == Some(DigitsValue(s))
  {
    StripDigits(s);
    ParseSigned(Strip(s))
  }

  /** Surrounding whitespace never changes what int() reads. */
  lemma ParseIntOfStripped(s: string)
    ensures ParseInt(Strip(s)) == ParseInt(s)
  {
    StripIdempotent(s);
  }

  /** Digits carry no whitespace, so strip leaves them alone. */
  lemma StripDigits(s: string)
    ensures AllDigits(s) ==> Strip(s) == s
  {
    if AllDigits(s) && s != [] {
      StripUnspaced(s);
    }
  }

  /** str(n) for any integer: a minus sign before the digits of a negative one. */
  function IntToString(n: int): (r: string)
    ensures r != [] && !IsSpace(r[0]) && !IsSpace(r[|r| - 1])
  {
    if n < 0 then "-" + NatToString(-n) else NatToString(n)
  }

  /** int(str(n)) == n */
  lemma ParseIntToString(n: int)
    ensures ParseInt(IntToString(n)) == Some(n)
  {
    var t := IntToString(n);
    StripUnspaced(t);
    if n < 0 {
      var digits := NatToString(-n);
      assert t == "-" + digits && t[0] == '-' && t[1..] == digits;
      DigitsOfNatToString(-n);
      assert ParseSigned(t) == Some(-(DigitsValue(digits) as int));
    } else {
      var digits := NatToString(n);
      assert t == digits && IsDigit(t[0]);
      DigitsOfNatToString(n);
      assert ParseSigned(t) == Some(DigitsValue(digits));
    }
  }

  /** The status value of a resource payload: the enumeration or free text. */
  datatype StatusInput = StatusEnum(status: ResourceStatus) | StatusText(text: string)

  /** The fields of a resource payload that validate_resource_payload reads; None
      stands for a missing key. */
  datatype ResourcePayload = ResourcePayload(
    title: Option<string>,
    capacity: Value,
    status: Option<StatusInput>,
    category: Option<string>,
    location: Option<string>)

  predicate StatusAccepted(s: StatusInput) {
    s.StatusEnum? || LowerStr(s.text) in {"draft", "published", "archived"}
  }

  predicate LongerThan80(field: Option<string>) {
    field.Some? && |field.value| > 80
  }

  function TitleText(p: ResourcePayload): string {
    match p.title
    case None => ""
    case Some(t) => t
  }

  /** [problem] when the rule is broken, [] otherwise. */
  function Flag(broken: bool, problem: PayloadProblem): (r: seq<PayloadProblem>)
    ensures |r| <= 1
    ensures forall x :: x in r <==> broken && x == problem
  {
    if broken then [problem] else []
  }

  function CapacityProblems(capacity: Value): (problems: seq<PayloadProblem>)
    ensures problems == [] || problems == [CapacityNegative] || problems == [CapacityNotInteger]
    ensures problems == [CapacityNegative] <==>
      (capacity.Int? && capacity.i < 0) ||
      (capacity.Str? && ParseInt(capacity.s).Some? && ParseInt(capacity.s).value < 0)
    ensures problems == [CapacityNotInteger] <==> capacity.Str? && ParseInt(capacity.s).None?
  {
    match capacity
    case Absent => []
    case Int(i) => if i < 0 then [CapacityNegative] else []
    case Str(s) =>
      match ParseInt(s)
      case None => [CapacityNotInteger]
      case Some(i) => if i < 0 then [CapacityNegative] else []
  }

  predicate TitleBroken(p: ResourcePayload) { Strip(TitleText(p)) == [] }
  predicate StatusBroken(p: ResourcePayload) { p.status.Some? && !StatusAccepted(p.status.value) }

  /** The list of problems validate_resource_payload collects, in the order it checks. */
  function PayloadProblems(p: ResourcePayload): (problems: seq<PayloadProblem>)
    ensures |problems| <= 5
  {
    Flag(TitleBroken(p), TitleRequired) + CapacityProblems(p.capacity)
      + Flag(StatusBroken(p), StatusInvalid) + Flag(LongerThan80(p.category), CategoryTooLong)
      + Flag(LongerThan80(p.location), LocationTooLong)
  }

  /** Each problem is listed exactly when its rule is broken. */
  lemma PayloadProblemsExact(p: ResourcePayload)
    ensures TitleRequired in PayloadProblems(p) <==> Strip(TitleText(p)) == []
    ensures CapacityNegative in PayloadProblems(p) <==> CapacityProblems(p.capacity) == [CapacityNegative]
    ensures CapacityNotInteger in PayloadProblems(p) <==> CapacityProblems(p.capacity) == [CapacityNotInteger]
    ensures StatusInvalid in PayloadProblems(p) <==> p.status.Some? && !StatusAccepted(p.status.value)
    ensures CategoryTooLong in PayloadProblems(p) <==> LongerThan80(p.category)
    ensures LocationTooLong in PayloadProblems(p) <==> LongerThan80(p.location)
  {
    var a, b, c := Flag(TitleBroken(p), TitleRequired), CapacityProblems(p.capacity), Flag(StatusBroken(p), StatusInvalid);
    var d, e := Flag(LongerThan80(p.category), CategoryTooLong), Flag(LongerThan80(p.location), LocationTooLong);
    assert PayloadProblems(p) == a + b + c + d + e;
    InConcat(TitleRequired, a, b, c, d, e);
    InConcat(CapacityNegative, a, b, c, d, e);
    InConcat(CapacityNotInteger, a, b, c, d, e);
    InConcat(StatusInvalid, a, b, c, d, e);
    InConcat(CategoryTooLong, a, b, c, d, e);
    InConcat(LocationTooLong, a, b, c, d, e);
  }

  lemma InConcat<T>(x: T, a: seq<T>, b: seq<T>, c: seq<T>, d: seq<T>, e: seq<T>)
    ensures x in a + b + c + d + e <==> x in a || x in b || x in c || x in d || x in e
  {
  }

  /** validate_resource_payload: raises once, with every problem, iff some rule failed. */
  function ValidateResourcePayload(p: ResourcePayload): (r: Outcome)
    ensures r == Pass <==> PayloadProblems(p) == []
    ensures r != Pass ==> r == Fail(InvalidPayload(PayloadProblems(p)))
  {
    var problems := PayloadProblems(p);
    if problems == [] then Pass else Fail(InvalidPayload(problems))
  }

  function OrEmpty(s: Option<string>): string {
    match s
    case None => ""
    case Some(t) => t
  }

  /** validate_review_payload: a rating 1..5 and a comment that, stripped, is non-empty
      and at most 1000 characters; returns the rating and the stripped comment. */
  function ValidateReviewPayload(rating: int, comment: Option<string>): (r: Result<(int, string)>)
    ensures r.Ok? <==> 1 <= rating <= 5 && Strip(OrEmpty(comment)) != [] && |Strip(OrEmpty(comment))| <= 1000
    ensures r.Ok? ==> r.value == (rating, Strip(OrEmpty(comment)))
    ensures !(1 <= rating <= 5) ==> r == Err(InvalidRating)
    ensures 1 <= rating <= 5 && Strip(OrEmpty(comment)) == [] ==> r == Err(CommentRequired)
    ensures 1 <= rating <= 5 && |Strip(OrEmpty(comment))| > 1000 ==> r == Err(CommentTooLong)
  {
    if !(1 <= rating <= 5) then Err(InvalidRating)
    else
      var c := Strip(OrEmpty(comment));
      if c == [] then Err(CommentRequired)
      else if |c| > 1000 then Err(CommentTooLong)
      else Ok((rating, c))
  }

  /** A comment accepted by the validator has no surrounding whitespace and
      1..1000 characters. */
  lemma AcceptedCommentShape(rating: int, comment: Option<string>)
    requires ValidateReviewPayload(rating, comment).Ok?
    ensures var c := ValidateReviewPayload(rating, comment).value.1;
      1 <= |c| <= 1000 && !IsSpace(c[0]) && !IsSpace(c[|c| - 1]) && Strip(c) == c
  {
    StripIdempotent(OrEmpty(comment));
  }

  /** min(max(v, lo), hi) */
  function Clamp(v: int, lo: int, hi: int): int {
    var atLeast := if v < lo then lo else v;
    if atLeast > hi then hi else atLeast
  }

  /** Python truthiness of the value: None, "" and 0 are false. */
  predicate Truthy(v: Value) {
    match v
    case Absent => false
    case Int(i) => i != 0
    case Str(s) => s != []
  }

  /** int(param or default), or None where int() raises. */
  function PageValue(param: Value, default: int): Option<int> {
    if !Truthy(param) then Some(default)
    else match param
      case Int(i) => Some(i)
      case Str(s) => ParseInt(s)
      case Absent => Some(default)
  }

  /** validate_pagination: a parsed value is clamped into [minv, maxv] (min(max(v,
      minv), maxv)); None, "" and 0 mean the default, which is clamped too; a value
      int() cannot parse returns the default unclamped. */
  function ValidatePagination(param: Value, default: int, minv: int, maxv: int): (r: int)
    ensures PageValue(param, default).None? ==> r == default
    ensures PageValue(param, default).Some? && minv <= maxv ==> minv <= r <= maxv
    ensures PageValue(param, default).Some? && minv <= PageValue(param, default).value <= maxv ==>
      r == PageValue(param, default).value
    ensures PageValue(param, default).Some? && PageValue(param, default).value < minv <= maxv ==> r == minv
    ensures PageValue(param, default).Some? && PageValue(param, default).value > maxv ==> r == maxv
  {
    match PageValue(param, default)
    case None => default
    case Some(v) => Clamp(v, minv, maxv)
  }

  const DefaultImageExtensions: set<string> := {"jpg", "jpeg", "png", "webp"}
  const DefaultMaxUpload: int := 2 * 1024 * 1024

  /** The extension rsplit('.', 1)[1].lower() of a file name that has a dot. */
  function Extension(filename: string): (ext: string)
    requires '.' in filename
    ensures '.' !in ext
  {
    LowerStr(AfterLast(filename, '.'))
  }

  /** The filename and size rules of validate_upload, the size taken as a number
      (an empty name stands for a missing file). */
  function ValidateUpload(filename: string, size: nat, maxSize: int, allowed: set<string>): (r: Outcome)
    ensures r == Pass <==>
      CountChar(filename, '.') == 1 && Extension(filename) in allowed && 0 < size <= maxSize
    ensures filename == [] ==> r == Fail(NoFile)
    ensures filename != [] && '.' !in filename ==> r == Fail(NoExtension)
    ensures CountChar(filename, '.') > 1 ==> r == Fail(DoubleExtension)
    ensures CountChar(filename, '.') == 1 && Extension(filename) !in allowed ==> r == Fail(ExtensionNotAllowed)
    ensures CountChar(filename, '.') == 1 && Extension(filename) in allowed && size > maxSize ==> r == Fail(FileTooLarge)
    ensures CountChar(filename, '.') == 1 && Extension(filename) in allowed && size <= maxSize && size == 0 ==> r == Fail(FileEmpty)
  {
    if filename == [] then Fail(NoFile)
    else if '.' !in filename then Fail(NoExtension)
    else if CountChar(filename, '.') > 1 then Fail(DoubleExtension)
    else if Extension(filename) !in allowed then Fail(ExtensionNotAllowed)
    else if size > maxSize then Fail(FileTooLarge)
    else if size == 0 then Fail(FileEmpty)
    else Pass
  }
}
