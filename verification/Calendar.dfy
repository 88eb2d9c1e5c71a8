/**
 Dates: unix_time's day count, day_of_week's congruence, and the calendar both must agree with.
 */
module Calendar {
  import Align

  datatype Date = Date(year: nat, month: nat, day: nat)

  // ---------------------------------------------------------------- the calendar

  /** is_leap_year */
  predicate Leap(year: nat) { (year % 4 == 0 && year % 100 != 0) || year % 400 == 0 }

  /** days_in_month */
  function DaysInMonth(month: nat, year: nat): nat
    requires 1 <= month <= 12
  {
    if month == 2 && Leap(year) then 29
    else [31, 28, 31, 30, 31, 30, 31, 31, 30, 31, 30, 31][month - 1]
  }

  /** A date of the calendar that the clock can show. */
  predicate Valid(d: Date) {
    d.year >= 1970 && 1 <= d.month <= 12 && 1 <= d.day <= DaysInMonth(d.month, d.year)
  }

  const EPOCH := Date(1970, 1, 1)

  /** The next calendar day. */
  function Next(d: Date): Date
    requires Valid(d)
  {
    if d.day < DaysInMonth(d.month, d.year) then d.(day := d.day + 1)
    else if d.month < 12 then Date(d.year, d.month + 1, 1)
    else Date(d.year + 1, 1, 1)
  }

  predicate Before(a: Date, b: Date) {
    a.year < b.year || (a.year == b.year && (a.month < b.month || (a.month == b.month && a.day < b.day)))
  }

  // ---------------------------------------------------------------- the day count

  function YearDays(year: nat): nat { if Leap(year) then 366 else 365 }

  function DaysBeforeYear(year: nat): nat {
    if year <= 1970 then 0 else DaysBeforeYear(year - 1) + YearDays(year - 1)
  }

  function DaysBeforeMonth(month: nat, year: nat): nat
    requires 1 <= month <= 13
  {
    if month == 1 then 0 else DaysBeforeMonth(month - 1, year) + DaysInMonth(month - 1, year)
  }

  function DayCount(d: Date): nat
    requires Valid(d)
  {
    DaysBeforeYear(d.year) + DaysBeforeMonth(d.month, d.year) + d.day - 1
  }

  /** Days before a month of a common year. */
  function Cumulative(month: nat): nat
    requires 1 <= month <= 13
  {
    [0, 31, 59, 90, 120, 151, 181, 212, 243, 273, 304, 334, 365][month - 1]
  }

  lemma {:induction false} MonthsClosed(month: nat, year: nat)
    requires 1 <= month <= 13
    ensures DaysBeforeMonth(month, year) == Cumulative(month) + if month > 2 && Leap(year) then 1 else 0
    decreases month
  {
    hide Leap;
    if month > 1 { MonthsClosed(month - 1, year); }
  }

  lemma WholeYear(year: nat)
    ensures DaysBeforeMonth(13, year) == YearDays(year)
  {
    hide Leap;
    MonthsClosed(13, year);
  }

  /** Each next day of the calendar is one day more, across the ends of months and years. */
  lemma NextCounts(d: Date)
    requires Valid(d)
    ensures Valid(Next(d)) && DayCount(Next(d)) == DayCount(d) + 1 && DayCount(EPOCH) == 0
  {
    WholeYear(d.year);
  }

  lemma {:induction false} MonthGrows(a: nat, b: nat, year: nat)
    requires 1 <= a < b <= 13
    ensures DaysBeforeMonth(a, year) + DaysInMonth(a, year) <= DaysBeforeMonth(b, year)
    decreases b
  {
    if a + 1 < b { MonthGrows(a, b - 1, year); }
  }

  lemma {:induction false} YearGrows(a: nat, b: nat)
    requires 1970 <= a < b
    ensures DaysBeforeYear(a) + YearDays(a) <= DaysBeforeYear(b)
    decreases b
  {
    if a + 1 < b { YearGrows(a, b - 1); }
  }

  lemma WithinYear(d: Date)
    requires Valid(d)
    ensures DaysBeforeYear(d.year) <= DayCount(d) < DaysBeforeYear(d.year) + YearDays(d.year)
  {
    WholeYear(d.year);
    MonthGrows(d.month, 13, d.year);
  }

  lemma BeforeCounts(a: Date, b: Date)
    requires Valid(a) && Valid(b) && Before(a, b)
    ensures DayCount(a) < DayCount(b)
  {
    hide DaysBeforeYear, DaysBeforeMonth, DaysInMonth;
    if a.year < b.year {
      WithinYear(a);
      WithinYear(b);
      YearGrows(a.year, b.year);
    } else if a.month < b.month {
      MonthGrows(a.month, b.month, a.year);
    }
  }

  /** Day counts order dates as the calendar does, and tell different dates apart. */
  lemma CountOrders(a: Date, b: Date)
    requires Valid(a) && Valid(b)
    ensures Before(a, b) <==> DayCount(a) < DayCount(b)
    ensures a == b <==> DayCount(a) == DayCount(b)
  {
    hide DayCount, Valid;
    if Before(a, b) { BeforeCounts(a, b); }
    if Before(b, a) { BeforeCounts(b, a); }
  }

  /** The n-th day after 1970-01-01. */
  function NthDay(n: nat): (d: Date)
    ensures Valid(d)
  {
    if n == 0 then EPOCH else
      var d := NthDay(n - 1);
      NextCounts(d);
      Next(d)
  }

  /** Counting days and stepping through the calendar are inverse. */
  lemma {:induction false} CountIsPosition(n: nat)
    ensures DayCount(NthDay(n)) == n
    decreases n
  {
    hide DayCount, Next;
    if n > 0 {
      CountIsPosition(n - 1);
      NextCounts(NthDay(n - 1));
    } else {
      NextCounts(EPOCH);
    }
  }

  lemma PositionIsCount(d: Date)
    requires Valid(d)
    ensures NthDay(DayCount(d)) == d
  {
    hide DayCount, NthDay, Valid;
    CountIsPosition(DayCount(d));
    CountOrders(NthDay(DayCount(d)), d);
  }

  // ---------------------------------------------------------------- unix_time

  datatype Moment = Moment(date: Date, hour: nat, minute: nat, second: nat)

  predicate ValidMoment(t: Moment) {
    Valid(t.date) && t.hour < 24 && t.minute < 60 && t.second < 60
  }

  function Clock(t: Moment): nat { t.hour * 3600 + t.minute * 60 + t.second }

  function Unix(t: Moment): nat
    requires Valid(t.date)
  {
    DayCount(t.date) * 86400 + Clock(t)
  }

  predicate Earlier(a: Moment, b: Moment) {
    || Before(a.date, b.date)
    || (a.date == b.date &&
        (a.hour < b.hour || (a.hour == b.hour && (a.minute < b.minute || (a.minute == b.minute && a.second < b.second)))))
  }

  lemma ClockInDay(t: Moment)
    requires ValidMoment(t)
    ensures Clock(t) < 86400
  {}

  /** Unix time orders moments as the calendar and the clock do, and tells them apart. */
  lemma UnixOrders(a: Moment, b: Moment)
    requires ValidMoment(a) && ValidMoment(b)
    ensures Earlier(a, b) <==> Unix(a) < Unix(b)
    ensures a == b <==> Unix(a) == Unix(b)
  {
    hide DayCount, Before, Valid;
    CountOrders(a.date, b.date);
    CountOrders(b.date, a.date);
    ClockInDay(a);
    ClockInDay(b);
  }

  /** What the clock shows a second later. */
  function NextSecond(t: Moment): Moment
    requires ValidMoment(t)
  {
    if t.second < 59 then t.(second := t.second + 1)
    else if t.minute < 59 then t.(minute := t.minute + 1, second := 0)
    else if t.hour < 23 then Moment(t.date, t.hour + 1, 0, 0)
    else Moment(Next(t.date), 0, 0, 0)
  }

  /** Unix time counts seconds: each next second of the calendar and the clock adds one. */
  lemma UnixCounts(t: Moment)
    requires ValidMoment(t)
    ensures ValidMoment(NextSecond(t)) && Unix(NextSecond(t)) == Unix(t) + 1
  {
    hide DayCount, Next, Valid;
    NextCounts(t.date);
  }

  /** The same time of the next day is 86400 seconds later, across the ends of months and years. */
  lemma UnixNextDay(t: Moment)
    requires Valid(t.date)
    ensures Valid(Next(t.date)) && Unix(t.(date := Next(t.date))) == Unix(t) + 86400
  {
    hide DayCount, Next, Valid;
    NextCounts(t.date);
  }

  /** The n-th second after midnight of 1970-01-01. */
  function NthSecond(n: nat): (t: Moment)
    ensures ValidMoment(t)
  {
    if n == 0 then Moment(Date(1970, 1, 1), 0, 0, 0) else
      var t := NthSecond(n - 1);
      UnixCounts(t);
      NextSecond(t)
  }

  /** Unix time is the number of seconds that the clock has run through since midnight of 1970-01-01. */
  lemma {:induction false} UnixIsPosition(n: nat)
    ensures Unix(NthSecond(n)) == n
    decreases n
  {
    hide DayCount, NextSecond;
    if n > 0 {
      UnixCounts(NthSecond(n - 1));
      UnixIsPosition(n - 1);
    } else {
      NextCounts(EPOCH);
    }
  }

  lemma PositionIsUnix(t: Moment)
    requires ValidMoment(t)
    ensures NthSecond(Unix(t)) == t
  {
    hide Unix, NthSecond;
    UnixIsPosition(Unix(t));
    UnixOrders(NthSecond(Unix(t)), t);
  }

  /** unix_time, from the fields that the clock was read into. */
  method UnixTime(t: Moment) returns (seconds: nat)
    requires Valid(t.date)
    ensures seconds == Unix(t)
    ensures ValidMoment(t) ==> NthSecond(seconds) == t
  {
    hide DaysInMonth;
    var days := 0;
    for i := 1970 to t.date.year
      invariant days == DaysBeforeYear(i)
    {
      days := days + (if Leap(i) then 366 else 365);
    }
    for i := 1 to t.date.month
      invariant days == DaysBeforeYear(t.date.year) + DaysBeforeMonth(i, t.date.year)
    {
      days := days + DaysInMonth(i, t.date.year);
    }
    days := days + (t.date.day - 1);
    seconds := days * 86400;
    seconds := seconds + t.hour * 3600;
    seconds := seconds + t.minute * 60;
    seconds := seconds + t.second;
    if ValidMoment(t) { PositionIsUnix(t); }
  }

  // ---------------------------------------------------------------- day_of_week

  /** Leap years up to and including a year. */
  function Leaps(year: nat): int { year / 4 - year / 100 + year / 400 }

  /** Zeller's congruence as the code writes it. */
  function ZellerSum(d: Date): int {
    var m := if d.month < 3 then d.month + 12 else d.month;
    var y := if d.month < 3 then d.year - 1 else d.year;
    d.day + 13 * (m + 1) / 5 + y + (if y < 0 then 0 else Leaps(y))
  }

  function Zeller(d: Date): nat { ZellerSum(d) % 7 }

  /** 0 is Sunday; 1970-01-01 was a Thursday. */
  function WeekDay(d: Date): nat
    requires Valid(d)
  {
    (DayCount(d) + 4) % 7
  }

  lemma LeapsStep(year: nat)
    requires year > 0
    ensures Leaps(year) == Leaps(year - 1) + if Leap(year) then 1 else 0
  {
    DivStep(year, 4);
    DivStep(year, 100);
    DivStep(year, 400);
    Divides(year, 25, 4);
    Divides(year, 4, 100);
  }

  lemma Divides(x: nat, k: nat, d: nat)
    requires d > 0 && k > 0
    ensures x % (k * d) == 0 ==> x % d == 0
  {
    if x % (k * d) == 0 {
      var q := x / (k * d);
      assert x == q * (k * d) == (q * k) * d;
      Align.DivModUnique(x, d, q * k, 0);
    }
  }

  lemma DivStep(x: nat, d: nat)
    requires x > 0 && d > 1
    ensures x / d == (x - 1) / d + if x % d == 0 then 1 else 0
  {
    var q, r := x / d, x % d;
    if r == 0 {
      Align.DivModUnique(x - 1, d, q - 1, d - 1);
    } else {
      Align.DivModUnique(x - 1, d, q, r - 1);
    }
  }

  lemma {:induction false} YearsClosed(year: nat)
    requires year >= 1970
    ensures DaysBeforeYear(year) == 365 * (year - 1970) + Leaps(year - 1) - 477
    decreases year
  {
    hide Leaps, Leap;
    if year == 1970 {
      LeapsAt();
    } else {
      YearsClosed(year - 1);
      LeapsStep(year - 1);
    }
  }

  lemma LeapsAt()
    ensures Leaps(1969) == 477
  {}

  /** The month term of the congruence is the days before the month, up to multiples of 7. */
  lemma MonthTerm(m: nat)
    requires 1 <= m <= 12
    ensures m >= 3 ==> 13 * (m + 1) / 5 == Cumulative(m) + 35 - 28 * m
    ensures m < 3 ==> 13 * (m + 12 + 1) / 5 == Cumulative(m) + 64 - 28 * m
  {}

  lemma Congruent(a: int, b: int, k: int)
    requires a - b == 7 * k
    ensures a % 7 == b % 7
  {}

  /** Zeller's congruence and the day count name the same day of the week. */
  lemma ZellerAgrees(d: Date)
    requires Valid(d)
    ensures (Zeller(d) + 6) % 7 == WeekDay(d)
  {
    hide Leap, Leaps, Cumulative, DaysBeforeYear, DaysBeforeMonth, DaysInMonth;
    YearsClosed(d.year);
    MonthsClosed(d.month, d.year);
    MonthTerm(d.month);
    LeapsStep(d.year);
    var y: int, m: int := d.year, d.month;
    var s, count := ZellerSum(d), DayCount(d) + 4;
    if m >= 3 {
      Congruent(s + 6, count, 102795 - 4 * m - 52 * y);
    } else {
      Congruent(s + 6, count, 102799 - 4 * m - 52 * y);
    }
    Congruent(Zeller(d) + 6, s + 6, -(s / 7));
  }

  const WEEKDAYS: seq<string> := ["Sun", "Mon", "Tue", "Wed", "Thu", "Fri", "Sat"]

  /** day_of_week looks up entry h - 1: inside the table exactly when the day is no Saturday, and then right. */
  lemma LookupIff(d: Date)
    requires Valid(d)
    ensures 0 <= Zeller(d) - 1 < |WEEKDAYS| <==> WeekDay(d) != 6
    ensures WeekDay(d) != 6 ==> Zeller(d) - 1 == WeekDay(d)
  {
    hide DayCount, ZellerSum;
    ZellerAgrees(d);
  }

  /** 1970-01-03 was a Saturday. */
  lemma SaturdayFails()
    ensures Valid(Date(1970, 1, 3)) && Zeller(Date(1970, 1, 3)) == 0
  {}
}
