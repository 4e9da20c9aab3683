/** Resource search: the filter predicates, the date-availability exclusion and the
    three orderings, as functions over the resources and bookings tables. */
module Search {
  import opened Domain
  import opened Text
  import opened Validators
  import opened Conflicts

  /** The request's filters; an absent key is None. */
  datatype Filters = Filters(
    query: Option<string>,
    category: Option<string>,
    location: Option<string>,
    capacityMin: Option<int>,
    date: Option<string>,
    status: Option<ResourceStatus>,
    sort: Option<string>)

  /** `if filters.get(k):` for a text value: present and non-empty. */
  predicate Given(v: Option<string>) {
    v.Some? && v.value != []
  }

  /** `column.ilike('%term%')`: the column is not NULL and holds the term, ignoring
      case. */
  predicate ILike(column: Option<string>, term: string) {
    column.Some? && Contains(LowerStr(column.value), LowerStr(term))
  }

  predicate MatchesQuery(r: Resource, f: Filters) {
    Given(f.query) ==> ILike(Some(r.title), f.query.value) || ILike(r.description, f.query.value)
  }

  predicate MatchesCategory(r: Resource, f: Filters) {
    Given(f.category) ==> r.category == f.category
  }

  predicate MatchesLocation(r: Resource, f: Filters) {
    Given(f.location) ==> ILike(r.location, f.location.value)
  }

  predicate MatchesCapacity(r: Resource, f: Filters) {
    f.capacityMin.Some? ==> r.capacity >= f.capacityMin.value
  }

  /** The status the filter asks for: PUBLISHED unless one is given. */
  function WantedStatus(f: Filters): (s: ResourceStatus)
    ensures f.status.None? ==> s == Published
    ensures f.status.Some? ==> s == f.status.value
  {
    if f.status.None? then Published else f.status.value
  }

  predicate MatchesStatus(r: Resource, f: Filters) {
    r.status == WantedStatus(f)
  }

  // ------------------------------------------------------------------- dates

  datatype Date = Date(year: int, month: int, day: int)

  predicate IsLeap(y: int) {
    (y % 4 == 0 && y % 100 != 0) || y % 400 == 0
  }

  function DaysInMonth(y: int, m: int): int {
    if m == 2 then (if IsLeap(y) then 29 else 28)
    else if m == 4 || m == 6 || m == 9 || m == 11 then 30
    else 31
  }

  predicate ValidDate(d: Date) {
    1 <= d.year <= 9999 && 1 <= d.month <= 12 && 1 <= d.day <= DaysInMonth(d.year, d.month)
  }

  /** The %m field: "01".."12" or a single digit "1".."9". */
  function MonthField(t: string): (r: Option<int>)
    ensures r.Some? ==> 1 <= r.value <= 12
  {
    if |t| == 2 && t[0] == '1' && '0' <= t[1] <= '2' then Some(10 + DigitValue(t[1]))
    else if |t| == 2 && t[0] == '0' && '1' <= t[1] <= '9' then Some(DigitValue(t[1]))
    else if |t| == 1 && '1' <= t[0] <= '9' then Some(DigitValue(t[0]))
    else None
  }

  /** The %d field: "01".."31", a single digit "1".."9", or a space and a digit. */
  function DayField(t: string): (r: Option<int>)
    ensures r.Some? ==> 1 <= r.value <= 31
  {
    if |t| == 2 && t[0] == '3' && '0' <= t[1] <= '1' then Some(30 + DigitValue(t[1]))
    else if |t| == 2 && '1' <= t[0] <= '2' && IsDigit(t[1]) then Some(10 * DigitValue(t[0]) + DigitValue(t[1]))
    else if |t| == 2 && (t[0] == '0' || t[0] == ' ') && '1' <= t[1] <= '9' then Some(DigitValue(t[1]))
    else if |t| == 1 && '1' <= t[0] <= '9' then Some(DigitValue(t[0]))
    else None
  }

  /** The %Y field: exactly four digits. */
  function YearField(t: string): (r: Option<int>)
    ensures r.Some? ==> 0 <= r.value <= 9999
  {
    if |t| == 4 && IsDigit(t[0]) && IsDigit(t[1]) && IsDigit(t[2]) && IsDigit(t[3]) then
      Some(1000 * DigitValue(t[0]) + 100 * DigitValue(t[1]) + 10 * DigitValue(t[2]) + DigitValue(t[3]))
    else None
  }

  /** datetime.strptime(s, '%Y-%m-%d').date(): the year field, '-', the month field,
      '-', the day field and nothing more (no field holds a '-', so the first two
      dashes separate them); a year 0 or a day past the month's end is refused as
      well. None stands for the ValueError. */
  function ParseDate(s: string): (r: Option<Date>)
    ensures r.Some? ==> ValidDate(r.value)
  {
    if |s| < 5 || s[4] != '-' then None
    else
      var rest := s[5..];
      var i := FirstIndex(rest, '-');
      if i == |rest| then None
      else
        var year := YearField(s[..4]);
        var month := MonthField(rest[..i]);
        var day := DayField(rest[i + 1..]);
        if year.None? || month.None? || day.None? || year.value < 1
          || day.value > DaysInMonth(year.value, month.value) then None
        else Some(Date(year.value, month.value, day.value))
  }

  function Digit(n: int): (c: char)
    requires 0 <= n <= 9
    ensures IsDigit(c) && DigitValue(c) == n
  {
    ('0' as int + n) as char
  }

  /** Two digits, with a leading zero. */
  function TwoDigits(n: int): (s: string)
    requires 0 <= n <= 99
    ensures |s| == 2 && '-' !in s
  {
    [Digit(n / 10), Digit(n % 10)]
  }

  function FourDigits(n: int): (s: string)
    requires 0 <= n <= 9999
    ensures |s| == 4
  {
    [Digit(n / 1000), Digit(n / 100 % 10), Digit(n / 10 % 10), Digit(n % 10)]
  }

  /** The date written as YYYY-MM-DD. */
  function FormatDate(d: Date): (s: string)
    requires ValidDate(d)
  {
    FourDigits(d.year) + "-" + TwoDigits(d.month) + "-" + TwoDigits(d.day)
  }

  lemma YearFieldOfFour(n: int)
    requires 0 <= n <= 9999
    ensures YearField(FourDigits(n)) == Some(n)
  {
    var a, b, c, d := n / 1000, n / 100 % 10, n / 10 % 10, n % 10;
    assert n / 100 == 10 * a + b;
    assert n / 10 == 10 * (n / 100) + c;
    assert n == 10 * (n / 10) + d;
  }

  lemma MonthFieldOfTwo(n: int)
    requires 1 <= n <= 12
    ensures MonthField(TwoDigits(n)) == Some(n)
  {
  }

  lemma DayFieldOfTwo(n: int)
    requires 1 <= n <= 31
    ensures DayField(TwoDigits(n)) == Some(n)
  {
  }

  /** Every valid date, written as YYYY-MM-DD, parses back to itself. */
  lemma ParseFormatRoundTrip(d: Date)
    requires ValidDate(d)
    ensures ParseDate(FormatDate(d)) == Some(d)
  {
    var y, m, dd := FourDigits(d.year), TwoDigits(d.month), TwoDigits(d.day);
    var s := y + "-" + m + "-" + dd;
    assert s == FormatDate(d);
    assert s[..4] == y && s[4] == '-';
    var rest := s[5..];
    assert rest == m + ['-'] + dd;
    FirstIndexOfJoin(m, '-', dd);
    assert rest[..2] == m && rest[3..] == dd;
    YearFieldOfFour(d.year);
    MonthFieldOfTwo(d.month);
    DayFieldOfTwo(d.day);
  }

  /** Days from 0001-01-01 to the date (Python's toordinal() - 1). */
  function DayNumber(d: Date): int {
    var y := d.year - 1;
    y * 365 + y / 4 - y / 100 + y / 400 + DaysBeforeMonth(d.year, d.month) + d.day - 1
  }

  function DaysBeforeMonth(y: int, m: int): int
    decreases m
  {
    if m <= 1 then 0 else DaysBeforeMonth(y, m - 1) + DaysInMonth(y, m - 1)
  }

  /** Midnight at the start of the date, in the timestamp scale of the engine. */
  function DayStart(d: Date): int {
    DayNumber(d) * SecondsPerDay
  }

  /** The date after d: the next day of the month, else the first of the next
      month, else New Year's Day of the next year. */
  function NextDate(d: Date): (r: Date)
    requires ValidDate(d)
    ensures d.year < 9999 || d.month < 12 || d.day < 31 ==> ValidDate(r)
    ensures r.year > d.year || (r.year == d.year && (r.month > d.month || (r.month == d.month && r.day > d.day)))
  {
    if d.day < DaysInMonth(d.year, d.month) then d.(day := d.day + 1)
    else if d.month < 12 then Date(d.year, d.month + 1, 1)
    else Date(d.year + 1, 1, 1)
  }

  /** Within a month, consecutive dates start one day apart. */
  lemma NextDayStartsADayLater(d: Date)
    requires ValidDate(d) && d.day < DaysInMonth(d.year, d.month)
    ensures DayStart(d.(day := d.day + 1)) == DayStart(d) + SecondsPerDay
  {
  }

  /** The day window of the next date starts where the date's own window ends, across
      the ends of months and years as well (day_start + timedelta(days=1)). */
  lemma NextDateStartsADayLater(d: Date)
    requires ValidDate(d)
    ensures DayNumber(NextDate(d)) == DayNumber(d) + 1
    ensures DayStart(NextDate(d)) == DayStart(d) + SecondsPerDay
  {
    if d.day < DaysInMonth(d.year, d.month) {
      NextDayStartsADayLater(d);
    } else if d.month < 12 {
      assert DaysBeforeMonth(d.year, d.month + 1) == DaysBeforeMonth(d.year, d.month) + DaysInMonth(d.year, d.month);
    } else {
      NewYearStartsADayLater(d.year);
    }
  }

  /** 1 January of year y + 1 is numbered one past 31 December of year y. */
  lemma NewYearStartsADayLater(y: int)
    ensures DayNumber(Date(y + 1, 1, 1)) == DayNumber(Date(y, 12, 31)) + 1
  {
    DaysBeforeDecember(y);
    LeapDays(y);
    assert DayNumber(Date(y + 1, 1, 1)) == y * 365 + y / 4 - y / 100 + y / 400;
  }

  /** The days of January to November. */
  lemma DaysBeforeDecember(y: int)
    ensures DaysBeforeMonth(y, 12) == 334 + (if IsLeap(y) then 1 else 0)
  {
    assert DaysBeforeMonth(y, 1) == 0;
    assert DaysBeforeMonth(y, 2) == 31;
    assert DaysBeforeMonth(y, 3) == 59 + (if IsLeap(y) then 1 else 0);
    assert DaysBeforeMonth(y, 4) == 90 + (if IsLeap(y) then 1 else 0);
    assert DaysBeforeMonth(y, 5) == 120 + (if IsLeap(y) then 1 else 0);
    assert DaysBeforeMonth(y, 6) == 151 + (if IsLeap(y) then 1 else 0);
    assert DaysBeforeMonth(y, 7) == 181 + (if IsLeap(y) then 1 else 0);
    assert DaysBeforeMonth(y, 8) == 212 + (if IsLeap(y) then 1 else 0);
    assert DaysBeforeMonth(y, 9) == 243 + (if IsLeap(y) then 1 else 0);
    assert DaysBeforeMonth(y, 10) == 273 + (if IsLeap(y) then 1 else 0);
    assert DaysBeforeMonth(y, 11) == 304 + (if IsLeap(y) then 1 else 0);
  }

  /** The leap days counted up to year y exceed those up to year y - 1 by one exactly
      when y is a leap year. */
  lemma LeapDays(y: int)
    ensures y / 4 - y / 100 + y / 400 == (y - 1) / 4 - (y - 1) / 100 + (y - 1) / 400 + (if IsLeap(y) then 1 else 0)
  {
    QuarterStep(y);
    CenturyStep(y);
    FourCenturyStep(y);
    Divisors(y);
  }

  // Each multiple-of-m count grows by one exactly at a multiple of m; kept one
  // divisor per lemma so that each sees a single constant.
  lemma QuarterStep(y: int)
    ensures y / 4 - (y - 1) / 4 == (if y % 4 == 0 then 1 else 0)
  {
  }

  lemma CenturyStep(y: int)
    ensures y / 100 - (y - 1) / 100 == (if y % 100 == 0 then 1 else 0)
  {
  }

  lemma FourCenturyStep(y: int)
    ensures y / 400 - (y - 1) / 400 == (if y % 400 == 0 then 1 else 0)
  {
  }

  lemma Divisors(y: int)
    ensures y % 400 == 0 ==> y % 100 == 0
    ensures y % 100 == 0 ==> y % 4 == 0
  {
  }

  /** A PENDING or APPROVED booking of the resource overlapping the day. */
  predicate BlocksDay(b: Booking, r: Resource, dayStart: int) {
    b.resourceId == r.id && Active(b.status) && b.start < dayStart + SecondsPerDay && b.end > dayStart
  }

  predicate FreeOn(r: Resource, bookings: seq<Booking>, dayStart: int) {
    forall i :: 0 <= i < |bookings| ==> !BlocksDay(bookings[i], r, dayStart)
  }

  /** The date filter: applied only to a given date that parses; an unparseable
      date switches it off. */
  predicate MatchesDate(r: Resource, bookings: seq<Booking>, f: Filters) {
    Given(f.date) && ParseDate(f.date.value).Some? ==> FreeOn(r, bookings, DayStart(ParseDate(f.date.value).value))
  }

  /** A resource passes the date filter exactly when has_conflict over that whole day
      answers false for it. */
  lemma DateFilterIsHasConflict(r: Resource, bookings: seq<Booking>, d: Date)
    ensures HasConflict(bookings, r.id, DayStart(d), DayStart(d) + SecondsPerDay, None, false) ==
      Ok(!FreeOn(r, bookings, DayStart(d)))
  {
    var s := DayStart(d);
    assert ValidWindow(s, s + SecondsPerDay);
    if !FreeOn(r, bookings, s) {
      var i :| 0 <= i < |bookings| && BlocksDay(bookings[i], r, s);
      assert Clashes(bookings[i], r.id, s, s + SecondsPerDay, None, false);
    } else {
      forall i | 0 <= i < |bookings| ensures !Clashes(bookings[i], r.id, s, s + SecondsPerDay, None, false) {
        assert !BlocksDay(bookings[i], r, s);
      }
    }
  }

  // ------------------------------------------------------------------- filter

  /** Every filter of the request holds for the resource. */
  predicate Selected(r: Resource, bookings: seq<Booking>, f: Filters)
    ensures (f.query.None? && f.category.None? && f.location.None? && f.capacityMin.None?
             && f.date.None? && f.status.None?) ==> (Selected(r, bookings, f) <==> r.status == Published)
  {
    MatchesQuery(r, f) && MatchesCategory(r, f) && MatchesLocation(r, f) && MatchesCapacity(r, f)
    && MatchesDate(r, bookings, f) && MatchesStatus(r, f)
  }

  /** The filtered query: the selected resources in table order. */
  function FilterResources(resources: seq<Resource>, bookings: seq<Booking>, f: Filters): (r: seq<Resource>)
    ensures |r| <= |resources|
    ensures forall x :: x in r <==> x in resources && Selected(x, bookings, f)
    ensures multiset(r) <= multiset(resources)
  {
    if resources == [] then []
    else
      var last := resources[|resources| - 1];
      var rest := FilterResources(resources[..|resources| - 1], bookings, f);
      assert resources == resources[..|resources| - 1] + [last];
      if Selected(last, bookings, f) then rest + [last] else rest
  }

  /** Two filter requests that select the same resources give the same rows. */
  lemma {:induction false} FilterAgrees(resources: seq<Resource>, bookings: seq<Booking>, f: Filters, g: Filters)
    requires forall x :: x in resources ==> (Selected(x, bookings, f) <==> Selected(x, bookings, g))
    ensures FilterResources(resources, bookings, f) == FilterResources(resources, bookings, g)
  {
    if resources != [] {
      var n := |resources| - 1;
      assert forall x :: x in resources[..n] ==> x in resources;
      FilterAgrees(resources[..n], bookings, f, g);
      assert resources[n] in resources;
    }
  }

  // ------------------------------------------------------------------- order

  datatype Order = Recent | MostBooked | TopRated

  /** filters.get('sort', 'recent'): anything but the two named keys means recent. */
  function OrderOf(f: Filters): (o: Order)
    ensures o == MostBooked <==> f.sort == Some("most_booked")
    ensures o == TopRated <==> f.sort == Some("top_rated")
  {
    if f.sort == Some("most_booked") then MostBooked
    else if f.sort == Some("top_rated") then TopRated
    else Recent
  }

  /** APPROVED and COMPLETED bookings of the resource. */
  predicate Counted(b: Booking, rid: int) {
    b.resourceId == rid && (b.status == Approved || b.status == Completed)
  }

  /** The booking_count of the resource: how many of its bookings are counted; zero
      exactly when none is. */
  function BookedCount(bookings: seq<Booking>, rid: int): (n: nat)
    ensures n <= |bookings|
    ensures n == 0 <==> forall k :: 0 <= k < |bookings| ==> !Counted(bookings[k], rid)
  {
    if bookings == [] then 0
    else
      var b := bookings[|bookings| - 1];
      BookedCount(bookings[..|bookings| - 1], rid) + (if Counted(b, rid) then 1 else 0)
  }

  /** The sort key, compared lexicographically, largest first. A resource without
      counted bookings has a NULL count, placed last; 0 stands for it, below every
      real count. */
  datatype Rank = Rank(first: real, second: int, third: int)

  function RankOf(o: Order, bookings: seq<Booking>, r: Resource): (k: Rank)
    ensures o == MostBooked ==> (k.first == 0.0 <==> forall i :: 0 <= i < |bookings| ==> !Counted(bookings[i], r.id))
    ensures o == MostBooked ==> k.first >= 0.0
  {
    match o
    case Recent => Rank(r.createdAt as real, 0, 0)
    case MostBooked => Rank(BookedCount(bookings, r.id) as real, r.createdAt, 0)
    case TopRated => Rank(r.ratingAvg, r.ratingCount, r.id)
  }

  /** a may be listed before b. */
  predicate AtLeast(a: Rank, b: Rank) {
    a.first > b.first
    || (a.first == b.first && (a.second > b.second || (a.second == b.second && a.third >= b.third)))
  }

  predicate Before(o: Order, bookings: seq<Booking>, x: Resource, y: Resource) {
    AtLeast(RankOf(o, bookings, x), RankOf(o, bookings, y))
  }

  /** x ranks strictly above y: it may precede y and y may not precede it. */
  predicate Higher(o: Order, bookings: seq<Booking>, x: Resource, y: Resource) {
    Before(o, bookings, x, y) && !Before(o, bookings, y, x)
  }

  predicate SortedBy(o: Order, bookings: seq<Booking>, xs: seq<Resource>) {
    forall i, j :: 0 <= i < j < |xs| ==> Before(o, bookings, xs[i], xs[j])
  }

  lemma AtLeastTotal(a: Rank, b: Rank)
    ensures AtLeast(a, b) || AtLeast(b, a)
  {
  }

  lemma AtLeastTransitive(a: Rank, b: Rank, c: Rank)
    requires AtLeast(a, b) && AtLeast(b, c)
    ensures AtLeast(a, c)
  {
  }

  /** Putting x in front of a sorted list whose head it may precede keeps it sorted. */
  lemma InsertFrontSorted(o: Order, bookings: seq<Booking>, x: Resource, xs: seq<Resource>)
    requires SortedBy(o, bookings, xs) && xs != [] && Before(o, bookings, x, xs[0])
    ensures SortedBy(o, bookings, [x] + xs)
  {
    var r := [x] + xs;
    forall i, j | 0 <= i < j < |r| ensures Before(o, bookings, r[i], r[j]) {
      if i == 0 && j > 1 {
        AtLeastTransitive(RankOf(o, bookings, x), RankOf(o, bookings, xs[0]), RankOf(o, bookings, xs[j - 1]));
      }
    }
  }

  /** Putting the old head in front of the insertion into the tail keeps it sorted. */
  lemma InsertLaterSorted(o: Order, bookings: seq<Booking>, x: Resource, xs: seq<Resource>, rest: seq<Resource>)
    requires SortedBy(o, bookings, xs) && xs != [] && !Higher(o, bookings, x, xs[0])
    requires SortedBy(o, bookings, rest) && multiset(rest) == multiset(xs[1..]) + multiset{x}
    ensures SortedBy(o, bookings, [xs[0]] + rest)
  {
    var r := [xs[0]] + rest;
    AtLeastTotal(RankOf(o, bookings, x), RankOf(o, bookings, xs[0]));
    forall i, j | 0 <= i < j < |r| ensures Before(o, bookings, r[i], r[j]) {
      if i == 0 {
        var y := rest[j - 1];
        assert y in multiset(rest);
        if y != x {
          assert y in multiset(xs[1..]);
          var k :| 0 <= k < |xs[1..]| && xs[1..][k] == y;
          assert xs[k + 1] == y;
        }
      }
    }
  }

  /** Insert x in front of the first element it ranks strictly above, so that it
      goes after every element it ties with. */
  function Insert(o: Order, bookings: seq<Booking>, x: Resource, xs: seq<Resource>): (r: seq<Resource>)
    requires SortedBy(o, bookings, xs)
    ensures SortedBy(o, bookings, r)
    ensures multiset(r) == multiset(xs) + multiset{x}
  {
    if xs == [] then [x]
    else if Higher(o, bookings, x, xs[0]) then
      InsertFrontSorted(o, bookings, x, xs);
      [x] + xs
    else
      var rest := Insert(o, bookings, x, xs[1..]);
      assert xs == [xs[0]] + xs[1..];
      InsertLaterSorted(o, bookings, x, xs, rest);
      [xs[0]] + rest
  }

  /** The rows in the requested order (a permutation of them). */
  function SortResources(o: Order, bookings: seq<Booking>, xs: seq<Resource>): (r: seq<Resource>)
    ensures SortedBy(o, bookings, r)
    ensures multiset(r) == multiset(xs)
  {
    if xs == [] then []
    else
      assert xs == xs[..|xs| - 1] + [xs[|xs| - 1]];
      Insert(o, bookings, xs[|xs| - 1], SortResources(o, bookings, xs[..|xs| - 1]))
  }

  /** An element that every element of a sorted list may precede goes at its end. */
  lemma {:induction false} InsertLast(o: Order, bookings: seq<Booking>, x: Resource, xs: seq<Resource>)
    requires SortedBy(o, bookings, xs)
    requires forall y :: y in xs ==> Before(o, bookings, y, x)
    ensures Insert(o, bookings, x, xs) == xs + [x]
  {
    if xs != [] {
      var tail := xs[1..];
      SortedTail(o, bookings, xs);
      forall y | y in tail ensures Before(o, bookings, y, x) {
        var k :| 0 <= k < |tail| && tail[k] == y;
        assert xs[k + 1] == y;
      }
      InsertLast(o, bookings, x, tail);
      InsertAfterHead(o, bookings, x, xs);
      assert xs + [x] == [xs[0]] + (tail + [x]);
    }
  }

  /** The tail of a sorted list is sorted. */
  lemma SortedTail(o: Order, bookings: seq<Booking>, xs: seq<Resource>)
    requires SortedBy(o, bookings, xs) && xs != []
    ensures SortedBy(o, bookings, xs[1..])
  {
    var tail := xs[1..];
    forall i, j | 0 <= i < j < |tail| ensures Before(o, bookings, tail[i], tail[j]) {
      assert tail[i] == xs[i + 1] && tail[j] == xs[j + 1];
    }
  }

  /** x goes after the head when the head ranks at least as high as x. */
  lemma InsertAfterHead(o: Order, bookings: seq<Booking>, x: Resource, xs: seq<Resource>)
    requires SortedBy(o, bookings, xs) && xs != [] && Before(o, bookings, xs[0], x)
    ensures SortedBy(o, bookings, xs[1..])
    ensures Insert(o, bookings, x, xs) == [xs[0]] + Insert(o, bookings, x, xs[1..])
  {
    SortedTail(o, bookings, xs);
  }

  /** Rows already in the requested order are left as they are; in particular rows
      whose sort keys tie keep their table order. */
  lemma {:induction false} SortKeepsSorted(o: Order, bookings: seq<Booking>, xs: seq<Resource>)
    requires SortedBy(o, bookings, xs)
    ensures SortResources(o, bookings, xs) == xs
  {
    if xs != [] {
      var n := |xs| - 1;
      SortedInit(o, bookings, xs);
      SortKeepsSorted(o, bookings, xs[..n]);
      InsertLast(o, bookings, xs[n], xs[..n]);
      SplitLast(xs);
    }
  }

  /** Without its last row a sorted list is still sorted, and every earlier row may
      precede the last one. */
  lemma SortedInit(o: Order, bookings: seq<Booking>, xs: seq<Resource>)
    requires SortedBy(o, bookings, xs) && xs != []
    ensures SortedBy(o, bookings, xs[..|xs| - 1])
    ensures var init := xs[..|xs| - 1]; forall y :: y in init ==> Before(o, bookings, y, xs[|xs| - 1])
  {
    var n := |xs| - 1;
    forall y | y in xs[..n] ensures Before(o, bookings, y, xs[n]) {
      var k :| 0 <= k < n && xs[..n][k] == y;
    }
  }

  /** The rows of xs whose sort key is k, in their order in xs. */
  function Tied(o: Order, bookings: seq<Booking>, xs: seq<Resource>, k: Rank): (r: seq<Resource>)
    ensures |r| <= |xs|
    ensures forall i :: 0 <= i < |r| ==> RankOf(o, bookings, r[i]) == k
  {
    if xs == [] then []
    else
      var rest := Tied(o, bookings, xs[1..], k);
      if RankOf(o, bookings, xs[0]) == k then [xs[0]] + rest else rest
  }

  lemma {:induction false} TiedAppend(o: Order, bookings: seq<Booking>, a: seq<Resource>, b: seq<Resource>, k: Rank)
    ensures Tied(o, bookings, a + b, k) == Tied(o, bookings, a, k) + Tied(o, bookings, b, k)
    decreases |a|
  {
    if a == [] {
      assert a + b == b;
    } else {
      assert (a + b)[0] == a[0] && (a + b)[1..] == a[1..] + b;
      TiedAppend(o, bookings, a[1..], b, k);
    }
  }

  /** A list none of whose rows has key k has no rows tied at k. */
  lemma {:induction false} TiedNone(o: Order, bookings: seq<Booking>, xs: seq<Resource>, k: Rank)
    requires forall i :: 0 <= i < |xs| ==> RankOf(o, bookings, xs[i]) != k
    ensures Tied(o, bookings, xs, k) == []
  {
    if xs != [] {
      TiedNone(o, bookings, xs[1..], k);
    }
  }

  /** No row of a sorted list ties with an element ranked strictly above its head. */
  lemma NoTieBelow(o: Order, bookings: seq<Booking>, x: Resource, ys: seq<Resource>)
    requires SortedBy(o, bookings, ys) && ys != [] && Higher(o, bookings, x, ys[0])
    ensures Tied(o, bookings, ys, RankOf(o, bookings, x)) == []
  {
    var k := RankOf(o, bookings, x);
    forall j | 0 <= j < |ys| ensures RankOf(o, bookings, ys[j]) != k {
      if j > 0 {
        assert Before(o, bookings, ys[0], ys[j]);
      }
    }
    TiedNone(o, bookings, ys, k);
  }

  /** Inserting x in front of a row it ranks strictly above. */
  lemma InsertTiedFront(o: Order, bookings: seq<Booking>, x: Resource, ys: seq<Resource>, k: Rank)
    requires SortedBy(o, bookings, ys) && ys != [] && Higher(o, bookings, x, ys[0])
    ensures Tied(o, bookings, Insert(o, bookings, x, ys), k)
      == Tied(o, bookings, ys, k) + (if RankOf(o, bookings, x) == k then [x] else [])
  {
    assert Insert(o, bookings, x, ys) == [x] + ys;
    assert ([x] + ys)[0] == x && ([x] + ys)[1..] == ys;
    if RankOf(o, bookings, x) == k {
      NoTieBelow(o, bookings, x, ys);
    }
  }

  /** Insertion keeps the rows of each key in order and puts x after its ties. */
  lemma {:induction false} InsertTied(o: Order, bookings: seq<Booking>, x: Resource, ys: seq<Resource>, k: Rank)
    requires SortedBy(o, bookings, ys)
    ensures Tied(o, bookings, Insert(o, bookings, x, ys), k)
      == Tied(o, bookings, ys, k) + (if RankOf(o, bookings, x) == k then [x] else [])
    decreases |ys|
  {
    if ys == [] {
    } else if Higher(o, bookings, x, ys[0]) {
      InsertTiedFront(o, bookings, x, ys, k);
    } else {
      SortedTail(o, bookings, ys);
      InsertTied(o, bookings, x, ys[1..], k);
      InsertTiedStep(o, bookings, x, ys, k);
    }
  }

  /** The step of InsertTied where x goes after the head. */
  lemma InsertTiedStep(o: Order, bookings: seq<Booking>, x: Resource, ys: seq<Resource>, k: Rank)
    requires SortedBy(o, bookings, ys) && ys != [] && !Higher(o, bookings, x, ys[0])
    requires Tied(o, bookings, Insert(o, bookings, x, ys[1..]), k)
      == Tied(o, bookings, ys[1..], k) + (if RankOf(o, bookings, x) == k then [x] else [])
    ensures Tied(o, bookings, Insert(o, bookings, x, ys), k)
      == Tied(o, bookings, ys, k) + (if RankOf(o, bookings, x) == k then [x] else [])
  {
    var tail, ins := ys[1..], Insert(o, bookings, x, ys[1..]);
    var own := if RankOf(o, bookings, x) == k then [x] else [];
    var head := if RankOf(o, bookings, ys[0]) == k then [ys[0]] else [];
    AtLeastTotal(RankOf(o, bookings, x), RankOf(o, bookings, ys[0]));
    InsertAfterHead(o, bookings, x, ys);
    InsertTiedLater(o, bookings, ys[0], ins, tail, k);
    assert ys == [ys[0]] + tail;
    var before, after := Tied(o, bookings, tail, k), Tied(o, bookings, ins, k);
    assert after == before + own;
    assert Tied(o, bookings, Insert(o, bookings, x, ys), k) == head + after;
    assert Tied(o, bookings, ys, k) == head + before;
    Reassociate(head, before, own);
  }

  /** A non-empty list is its front followed by its last row. */
  lemma SplitLast(xs: seq<Resource>)
    requires xs != []
    ensures xs == xs[..|xs| - 1] + [xs[|xs| - 1]]
  {
  }

  /** Concatenation regrouped, kept apart so that the solver sees it alone. */
  lemma Reassociate(a: seq<Resource>, b: seq<Resource>, c: seq<Resource>)
    ensures a + (b + c) == (a + b) + c
  {
  }

  /** The head in front of a list whose tied rows are those of the tail plus some. */
  lemma InsertTiedLater(o: Order, bookings: seq<Booking>, y: Resource, ins: seq<Resource>, tail: seq<Resource>, k: Rank)
    ensures Tied(o, bookings, [y] + ins, k) == (if RankOf(o, bookings, y) == k then [y] else []) + Tied(o, bookings, ins, k)
    ensures Tied(o, bookings, [y] + tail, k) == (if RankOf(o, bookings, y) == k then [y] else []) + Tied(o, bookings, tail, k)
  {
    assert ([y] + ins)[0] == y && ([y] + ins)[1..] == ins;
    assert ([y] + tail)[0] == y && ([y] + tail)[1..] == tail;
  }

  /** The sort is stable: for every sort key, the rows with that key come out in
      the order they had in the input. */
  lemma {:induction false} SortIsStable(o: Order, bookings: seq<Booking>, xs: seq<Resource>, k: Rank)
    ensures Tied(o, bookings, SortResources(o, bookings, xs), k) == Tied(o, bookings, xs, k)
  {
    if xs != [] {
      var init, last := xs[..|xs| - 1], xs[|xs| - 1];
      var sorted := SortResources(o, bookings, init);
      var own := if RankOf(o, bookings, last) == k then [last] else [];
      assert SortResources(o, bookings, xs) == Insert(o, bookings, last, sorted);
      SortIsStable(o, bookings, init, k);
      InsertTied(o, bookings, last, sorted, k);
      assert Tied(o, bookings, SortResources(o, bookings, xs), k) == Tied(o, bookings, init, k) + own;
      SplitLast(xs);
      TiedAppend(o, bookings, init, [last], k);
      InsertTiedLater(o, bookings, last, [], [], k);
      assert [last] + [] == [last];
    }
  }

  /** Two rows with the same sort key come out in table order. */
  lemma TiesKeepTableOrder(o: Order, bookings: seq<Booking>, a: Resource, b: Resource)
    requires RankOf(o, bookings, a) == RankOf(o, bookings, b)
    ensures SortResources(o, bookings, [a, b]) == [a, b]
  {
    AtLeastTotal(RankOf(o, bookings, a), RankOf(o, bookings, b));
    SortKeepsSorted(o, bookings, [a, b]);
  }

  lemma SameElements(a: seq<Resource>, b: seq<Resource>)
    requires multiset(a) == multiset(b)
    ensures forall x :: x in a <==> x in b
  {
    forall x ensures x in a <==> x in b {
      assert x in a <==> x in multiset(a);
      assert x in b <==> x in multiset(b);
    }
  }

  /** apply_resource_filters: the selected resources, in the requested order. */
  function ApplyResourceFilters(resources: seq<Resource>, bookings: seq<Booking>, f: Filters): (r: seq<Resource>)
    ensures forall x :: x in r <==> x in resources && Selected(x, bookings, f)
    ensures multiset(r) == multiset(FilterResources(resources, bookings, f))
    ensures multiset(r) <= multiset(resources)
    ensures SortedBy(OrderOf(f), bookings, r)
  {
    var rows := FilterResources(resources, bookings, f);
    var r := SortResources(OrderOf(f), bookings, rows);
    SameElements(r, rows);
    r
  }

  /** Only the last representable date has no successor: its day window cannot end. */
  lemma {:induction false} LastDateHasNoSuccessor(d: Date)
    requires ValidDate(d)
    ensures !ValidDate(NextDate(d)) <==> d == Date(9999, 12, 31)
  {
    if d == Date(9999, 12, 31) {
      assert NextDate(d).year == 10000;
    }
  }

  /** The search as a request runs it: computing the end of the day after 9999-12-31
      overflows, an error the date filter's ValueError handler does not catch, so the
      whole search fails; every other request gets the filtered, sorted rows. */
  function SearchResources(resources: seq<Resource>, bookings: seq<Booking>, f: Filters): (r: Result<seq<Resource>>)
    ensures r.Err? <==> Given(f.date) && ParseDate(f.date.value) == Some(Date(9999, 12, 31))
    ensures r.Err? ==> r.error == DateOutOfRange
    ensures r.Ok? ==> r.value == ApplyResourceFilters(resources, bookings, f)
  {
    if Given(f.date) && ParseDate(f.date.value).Some? then
      var d := ParseDate(f.date.value).value;
      LastDateHasNoSuccessor(d);
      if !ValidDate(NextDate(d)) then Err(DateOutOfRange) else Ok(ApplyResourceFilters(resources, bookings, f))
    else Ok(ApplyResourceFilters(resources, bookings, f))
  }

  /** An unparseable date filters nothing out: the result is the one without a date. */
  lemma UnparseableDateIgnored(resources: seq<Resource>, bookings: seq<Booking>, f: Filters)
    requires f.date.Some? && ParseDate(f.date.value).None?
    ensures ApplyResourceFilters(resources, bookings, f) == ApplyResourceFilters(resources, bookings, f.(date := None))
  {
    FilterAgrees(resources, bookings, f, f.(date := None));
  }

  /** With no status given, every listed resource is PUBLISHED. */
  lemma DefaultStatusIsPublished(resources: seq<Resource>, bookings: seq<Booking>, f: Filters)
    requires f.status.None?
    ensures forall x :: x in ApplyResourceFilters(resources, bookings, f) ==> x.status == Published
  {
  }

  /** In the most_booked order a resource with no approved or completed booking
      comes after every resource that has one. */
  lemma UnbookedLast(resources: seq<Resource>, bookings: seq<Booking>, f: Filters)
    requires OrderOf(f) == MostBooked
    ensures var r := ApplyResourceFilters(resources, bookings, f);
      forall i, j :: 0 <= i < |r| && 0 <= j < |r| && BookedCount(bookings, r[i].id) == 0 && BookedCount(bookings, r[j].id) > 0 ==> j < i
  {
    var r := ApplyResourceFilters(resources, bookings, f);
    forall i, j | 0 <= i < |r| && 0 <= j < |r| && BookedCount(bookings, r[i].id) == 0 && BookedCount(bookings, r[j].id) > 0
      ensures j < i
    {
      BookedFirst(bookings, r, i, j);
    }
  }

  /** In a list sorted by the most_booked order, a booked row precedes an unbooked one. */
  lemma BookedFirst(bookings: seq<Booking>, xs: seq<Resource>, i: int, j: int)
    requires SortedBy(MostBooked, bookings, xs)
    requires 0 <= i < |xs| && 0 <= j < |xs|
    requires BookedCount(bookings, xs[i].id) == 0 && BookedCount(bookings, xs[j].id) > 0
    ensures j < i
  {
    assert !Before(MostBooked, bookings, xs[i], xs[j]);
  }

  /** In the top_rated order a higher average comes first, and among equal averages a
      higher count. */
  lemma TopRatedOrder(resources: seq<Resource>, bookings: seq<Booking>, f: Filters, i: int, j: int)
    requires OrderOf(f) == TopRated
    requires var r := ApplyResourceFilters(resources, bookings, f); 0 <= i < j < |r|
    ensures var r := ApplyResourceFilters(resources, bookings, f);
      r[i].ratingAvg >= r[j].ratingAvg
      && (r[i].ratingAvg == r[j].ratingAvg ==> r[i].ratingCount >= r[j].ratingCount)
  {
  }
}
