/** UTC civil time to the second, as an artifact name carries it, and the instant it
    denotes. Instants count seconds from 0000-01-01T00:00:00: only differences and
    whole days are ever used, so the choice of origin does not show. */
module Calendar {

  const DAY := 86400

  datatype Stamp = Stamp(year: int, month: int, day: int, hour: int, minute: int, second: int)

  predicate Leap(y: int) {
    y % 4 == 0 && (y % 100 != 0 || y % 400 == 0)
  }

  function DaysIn(y: int, m: int): int {
    if m == 2 then if Leap(y) then 29 else 28
    else if m == 4 || m == 6 || m == 9 || m == 11 then 30
    else 31
  }

  /** What `time.Parse` accepts for the layout 2006-01-02T15-04-05. */
  predicate Valid(s: Stamp) {
    && 0 <= s.year <= 9999
    && 1 <= s.month <= 12
    && 1 <= s.day <= DaysIn(s.year, s.month)
    && 0 <= s.hour < 24
    && 0 <= s.minute < 60
    && 0 <= s.second < 60
  }

  /** Days of year `y` that precede month `m`; a thirteenth month stands for its end. */
  function DaysBeforeMonth(y: int, m: int): int
    decreases m
  {
    if m <= 1 then 0 else DaysBeforeMonth(y, m - 1) + DaysIn(y, m - 1)
  }

  function YearLength(y: int): int {
    if Leap(y) then 366 else 365
  }

  function DaysBeforeYear(y: int): int
    decreases y
  {
    if y <= 0 then 0 else DaysBeforeYear(y - 1) + YearLength(y - 1)
  }

  function DayNumber(s: Stamp): int {
    DaysBeforeYear(s.year) + DaysBeforeMonth(s.year, s.month) + s.day - 1
  }

  function Seconds(s: Stamp): int {
    DayNumber(s) * DAY + s.hour * 3600 + s.minute * 60 + s.second
  }

  /** The calendar order on dates. */
  predicate EarlierDate(a: Stamp, b: Stamp) {
    || a.year < b.year
    || (a.year == b.year && a.month < b.month)
    || (a.year == b.year && a.month == b.month && a.day < b.day)
  }

  predicate SameDate(a: Stamp, b: Stamp) {
    a.year == b.year && a.month == b.month && a.day == b.day
  }

  lemma {:induction false} MonthsAccumulate(y: int, m: int, n: int)
    requires 1 <= m < n
    ensures DaysBeforeMonth(y, m) + DaysIn(y, m) <= DaysBeforeMonth(y, n)
    decreases n
  {
    if m + 1 < n {
      MonthsAccumulate(y, m, n - 1);
    }
  }

  /** The days before each month of a common year. */
  const BEFORE_MONTH := [0, 31, 59, 90, 120, 151, 181, 212, 243, 273, 304, 334, 365]

  lemma {:induction false} MonthTable(y: int, m: int)
    requires 1 <= m <= 13
    ensures DaysBeforeMonth(y, m) == BEFORE_MONTH[m - 1] + if m > 2 && Leap(y) then 1 else 0
    decreases m
  {
    if m > 1 {
      MonthTable(y, m - 1);
    }
  }

  lemma MonthWithinYear(y: int, m: int)
    requires 1 <= m <= 12
    ensures 0 <= DaysBeforeMonth(y, m) && DaysBeforeMonth(y, m) + DaysIn(y, m) <= YearLength(y)
  {
    MonthTable(y, m);
  }

  lemma {:induction false} YearsAccumulate(y: int, z: int)
    requires 0 <= y < z
    ensures DaysBeforeYear(y) + YearLength(y) <= DaysBeforeYear(z)
    decreases z
  {
    if y + 1 < z {
      YearsAccumulate(y, z - 1);
      MonthWithinYear(z - 1, 1);
    }
  }

  /** An earlier date has a smaller day number. */
  lemma EarlierDateSmaller(a: Stamp, b: Stamp)
    requires Valid(a) && Valid(b) && EarlierDate(a, b)
    ensures DayNumber(a) < DayNumber(b)
  {
    if a.year < b.year {
      YearsAccumulate(a.year, b.year);
      MonthWithinYear(a.year, a.month);
      MonthWithinYear(b.year, b.month);
    } else if a.month < b.month {
      MonthsAccumulate(a.year, a.month, b.month);
    }
  }

  /** The day key the planner formats from an instant: two instants share a UTC
      calendar date exactly when their quotients by a day agree. */
  lemma SameDateSameDay(a: Stamp, b: Stamp)
    requires Valid(a) && Valid(b)
    ensures Seconds(a) / DAY == DayNumber(a)
    ensures SameDate(a, b) <==> Seconds(a) / DAY == Seconds(b) / DAY
  {
    if EarlierDate(a, b) {
      EarlierDateSmaller(a, b);
    } else if EarlierDate(b, a) {
      EarlierDateSmaller(b, a);
    }
  }

  /** Distinct stamps are distinct instants. */
  lemma SecondsInjective(a: Stamp, b: Stamp)
    requires Valid(a) && Valid(b) && Seconds(a) == Seconds(b)
    ensures a == b
  {
    SameDateSameDay(a, b);
  }

  // ---- order and distance -------------------------------------------------

  /** The calendar order, field by field. */
  predicate Precedes(a: Stamp, b: Stamp) {
    || a.year < b.year
    || (a.year == b.year && a.month < b.month)
    || (a.year == b.year && a.month == b.month && a.day < b.day)
    || (SameDate(a, b) && a.hour < b.hour)
    || (SameDate(a, b) && a.hour == b.hour && a.minute < b.minute)
    || (SameDate(a, b) && a.hour == b.hour && a.minute == b.minute && a.second < b.second)
  }

  /** Instants are ordered as their stamps are. */
  lemma SecondsInOrder(a: Stamp, b: Stamp)
    requires Valid(a) && Valid(b)
    ensures Seconds(a) < Seconds(b) <==> Precedes(a, b)
  {
    if EarlierDate(a, b) {
      EarlierDateSmaller(a, b);
    } else if EarlierDate(b, a) {
      EarlierDateSmaller(b, a);
    }
  }

  /** The last day of its month. */
  predicate EndsMonth(s: Stamp) {
    if s.month == 2
    then s.day == if (s.year % 4 == 0 && s.year % 100 != 0) || s.year % 400 == 0 then 29 else 28
    else s.day == if s.month in {4, 6, 9, 11} then 30 else 31
  }

  /** The date after this one, at the same time of day. */
  function NextDate(s: Stamp): Stamp {
    if !EndsMonth(s) then s.(day := s.day + 1)
    else if s.month != 12 then s.(month := s.month + 1, day := 1)
    else s.(year := s.year + 1, month := 1, day := 1)
  }

  /** The next date is a valid one, a day later, over month ends, leap days and the turn of
      the year. */
  lemma NextDateIsADayLater(s: Stamp)
    requires Valid(s)
    ensures Valid(NextDate(s)) <==> !(s.year == 9999 && s.month == 12 && s.day == 31)
    ensures Seconds(NextDate(s)) == Seconds(s) + 86400
  {
    NextDayNumber(s);
  }

  lemma NextDayNumber(s: Stamp)
    requires Valid(s)
    ensures DayNumber(NextDate(s)) == DayNumber(s) + 1
  {
    MonthTable(s.year, s.month);
    if s.month < 12 {
      MonthTable(s.year, s.month + 1);
    }
  }

  /** The next second, minute and hour are 1, 60 and 3600 seconds later. */
  lemma NextWithinDay(s: Stamp)
    ensures Seconds(s.(second := s.second + 1)) == Seconds(s) + 1
    ensures Seconds(s.(minute := s.minute + 1)) == Seconds(s) + 60
    ensures Seconds(s.(hour := s.hour + 1)) == Seconds(s) + 3600
  {
  }

  lemma {:induction false} YearsInClosedForm(y: int)
    requires 0 <= y
    ensures DaysBeforeYear(y) == 365 * y + (y + 3) / 4 - (y + 99) / 100 + (y + 399) / 400
    decreases y
  {
    if y > 0 {
      YearsInClosedForm(y - 1);
      LeapYearsStep(y);
    }
  }

  lemma LeapYearsStep(y: int)
    requires 0 < y
    ensures (y + 3) / 4 == (y + 2) / 4 + if (y - 1) % 4 == 0 then 1 else 0
    ensures (y + 99) / 100 == (y + 98) / 100 + if (y - 1) % 100 == 0 then 1 else 0
    ensures (y + 399) / 400 == (y + 398) / 400 + if (y - 1) % 400 == 0 then 1 else 0
    ensures ((y - 1) % 100 == 0 ==> (y - 1) % 4 == 0) && ((y - 1) % 400 == 0 ==> (y - 1) % 100 == 0)
  {
    CeilingStep(y, 4);
    CeilingStep(y, 100);
    CeilingStep(y, 400);
    CenturiesAreMultiples(y - 1);
  }

  lemma CenturiesAreMultiples(y: int)
    ensures (y % 100 == 0 ==> y % 4 == 0) && (y % 400 == 0 ==> y % 100 == 0)
  {
  }

  /** A rounded-up quotient grows by one after each multiple. */
  lemma CeilingStep(y: int, k: int)
    requires 0 < y && 1 < k
    ensures (y + k - 1) / k == (y + k - 2) / k + if (y - 1) % k == 0 then 1 else 0
  {
    var q, r := (y - 1) / k, (y - 1) % k;
    assert y - 1 == q * k + r;
    QuotientIs(y + k - 2, k, if r == 0 then q else q + 1, if r == 0 then k - 1 else r - 1);
    QuotientIs(y + k - 1, k, q + 1, r);
  }

  lemma QuotientIs(x: int, k: int, q: int, r: int)
    requires 0 <= r < k && x == q * k + r
    ensures x / k == q
  {
    var p := x / k;
    assert x == p * k + x % k;
    assert p < q ==> (p + 1) * k <= q * k;
    assert q < p ==> (q + 1) * k <= p * k;
  }

  /** 1970-01-01T00:00:00 is 62167219200 seconds after the origin, as Unix time has it. */
  lemma UnixEpoch(s: Stamp)
    requires s.year == 1970 && s.month == 1 && s.day == 1 && s.hour == s.minute == s.second == 0
    ensures Seconds(s) == 62167219200
  {
    YearsInClosedForm(s.year);
  }

  // ---- every instant of the printable years has its stamp ------------------

  const LAST_DAY := 3652424

  /** Nothing a name can carry lies beyond 9999-12-31. */
  lemma DayInRange(s: Stamp)
    requires Valid(s)
    ensures 0 <= DayNumber(s) <= LAST_DAY
    ensures DayNumber(s) == LAST_DAY <==> s.year == 9999 && s.month == 12 && s.day == 31
  {
    DayWithinYear(s);
    YearInRange(s.year);
  }

  lemma DayWithinYear(s: Stamp)
    requires Valid(s)
    ensures var d := DaysBeforeMonth(s.year, s.month) + s.day - 1;
            0 <= d < YearLength(s.year) && (d == YearLength(s.year) - 1 <==> s.month == 12 && s.day == 31)
  {
    MonthTable(s.year, s.month);
  }

  lemma YearInRange(y: int)
    requires 0 <= y <= 9999
    ensures 0 <= DaysBeforeYear(y)
    ensures if y < 9999 then DaysBeforeYear(y) + 366 < LAST_DAY else DaysBeforeYear(y) + 364 == LAST_DAY
    ensures y == 9999 ==> YearLength(y) == 365
  {
    YearsInClosedForm(y);
  }

  lemma {:induction false} DateOfDay(d: int) returns (s: Stamp)
    requires 0 <= d <= LAST_DAY
    ensures Valid(s) && DayNumber(s) == d && s.hour == s.minute == s.second == 0
    decreases d
  {
    if d == 0 {
      s := Stamp(0, 1, 1, 0, 0, 0);
    } else {
      var before := DateOfDay(d - 1);
      NextDateIsADayLater(before);
      DayInRange(before);
      s := NextDate(before);
    }
  }

  /** An instant an artifact name can carry. */
  ghost predicate Representable(t: int) {
    exists s :: Valid(s) && Seconds(s) == t
  }

  /** The UTC civil time of an instant. */
  ghost function StampAt(t: int): (s: Stamp)
    requires Representable(t)
    ensures Valid(s) && Seconds(s) == t
  {
    var s :| Valid(s) && Seconds(s) == t;
    s
  }

  lemma TimeOfDay(r: int)
    requires 0 <= r < 86400
    ensures var h, m, s := r / 3600, r % 3600 / 60, r % 60;
            0 <= h < 24 && 0 <= m < 60 && 0 <= s < 60 && h * 3600 + m * 60 + s == r
  {
  }

  /** The instants a name can carry are exactly the seconds of the years 0 to 9999. */
  lemma RepresentableIff(t: int)
    ensures Representable(t) <==> 0 <= t < 315569520000
  {
    if Representable(t) {
      var s :| Valid(s) && Seconds(s) == t;
      DayInRange(s);
    }
    if 0 <= t < 315569520000 {
      var d, r := t / DAY, t % DAY;
      var date := DateOfDay(d);
      TimeOfDay(r);
      StampOnDate(date, t, d, r);
    }
  }

  lemma StampOnDate(date: Stamp, t: int, d: int, r: int)
    requires Valid(date) && DayNumber(date) == d && t == d * DAY + r && 0 <= r < 86400
    requires var h, m, s := r / 3600, r % 3600 / 60, r % 60;
             0 <= h < 24 && 0 <= m < 60 && 0 <= s < 60 && h * 3600 + m * 60 + s == r
    ensures Representable(t)
  {
    var s := date.(hour := r / 3600, minute := r % 3600 / 60, second := r % 60);
    assert DayNumber(s) == DayNumber(date);
    assert Valid(s) && Seconds(s) == t;
  }
}
