/** Dates and times of day as a count of seconds since 1970, and back. */
module Calendar {

  datatype Date = Date(year: nat, month: nat, day: nat)

  datatype Time = Time(hour: nat, minute: nat, second: nat)

  predicate IsLeap(year: nat) {
    (year % 4 == 0 && year % 100 != 0) || year % 400 == 0
  }

  const DAYS_IN_MONTH: seq<nat> := [31, 28, 31, 30, 31, 30, 31, 31, 30, 31, 30, 31]

  function YearDays(year: nat): (n: nat)
    ensures n == 365 || n == 366
  {
    if IsLeap(year) then 366 else 365
  }

  function MonthDays(year: nat, month: nat): (n: nat)
    requires 1 <= month <= 12
    ensures 28 <= n <= 31
  {
    if month == 2 && IsLeap(year) then 29 else DAYS_IN_MONTH[month - 1]
  }

  predicate ValidDate(d: Date) {
    1970 <= d.year && 1 <= d.month <= 12 && 1 <= d.day <= MonthDays(d.year, d.month)
  }

  predicate ValidTime(t: Time) {
    t.hour < 24 && t.minute < 60 && t.second < 60
  }

  /** Days from 1970 to the start of a year. */
  function DaysBeforeYear(year: nat): nat {
    if year <= 1970 then 0 else DaysBeforeYear(year - 1) + YearDays(year - 1)
  }

  /** Days of a year before a month. */
  function DaysBeforeMonth(year: nat, month: nat): nat
    requires month <= 13
  {
    if month <= 1 then 0 else DaysBeforeMonth(year, month - 1) + MonthDays(year, month - 1)
  }

  function DayNumber(d: Date): nat
    requires 1 <= d.month <= 12 && 1 <= d.day
  {
    DaysBeforeYear(d.year) + DaysBeforeMonth(d.year, d.month) + d.day - 1
  }

  /** The second count of a date and time. */
  function Seconds(d: Date, t: Time): nat
    requires 1 <= d.month <= 12 && 1 <= d.day
  {
    ((DayNumber(d) * 24 + t.hour) * 60 + t.minute) * 60 + t.second
  }

  // ---- order ----

  /** The months of a year add up to its days. */
  lemma MonthsFillYear(year: nat)
    ensures DaysBeforeMonth(year, 13) == YearDays(year)
  {
    assert DaysBeforeMonth(year, 2) == 31;
    assert DaysBeforeMonth(year, 3) == 31 + MonthDays(year, 2);
    assert DaysBeforeMonth(year, 5) == DaysBeforeMonth(year, 3) + 61;
    assert DaysBeforeMonth(year, 7) == DaysBeforeMonth(year, 5) + 61;
    assert DaysBeforeMonth(year, 9) == DaysBeforeMonth(year, 7) + 62;
    assert DaysBeforeMonth(year, 11) == DaysBeforeMonth(year, 9) + 61;
  }

  /** Counting month by month agrees with the closed form for the Gregorian months. */
  lemma {:induction false} MonthsClosedForm(year: nat, month: nat)
    requires 1 <= month <= 13
    ensures DaysBeforeMonth(year, month)
         == (367 * month - 362) / 12 - (if month <= 2 then 0 else if IsLeap(year) then 1 else 2)
  {
    if month > 1 {
      MonthsClosedForm(year, month - 1);
    }
  }

  lemma {:induction false} MonthOrder(year: nat, a: nat, b: nat)
    requires 1 <= a < b <= 13
    ensures DaysBeforeMonth(year, a) + MonthDays(year, a) <= DaysBeforeMonth(year, b)
  {
    if a < b - 1 {
      MonthOrder(year, a, b - 1);
    }
  }

  lemma {:induction false} YearOrder(a: nat, b: nat)
    requires 1970 <= a < b
    ensures DaysBeforeYear(a) + YearDays(a) <= DaysBeforeYear(b)
  {
    if a < b - 1 {
      YearOrder(a, b - 1);
    }
  }

  /** Leap years of the Gregorian calendar up to and including a year. */
  function Leaps(year: nat): int {
    year / 4 - year / 100 + year / 400
  }

  lemma Step4(y: nat)
    ensures (y + 1) / 4 == y / 4 + if (y + 1) % 4 == 0 then 1 else 0
    ensures (y + 400) / 4 == y / 4 + 100
  {
  }

  lemma Step100(y: nat)
    ensures (y + 1) / 100 == y / 100 + if (y + 1) % 100 == 0 then 1 else 0
    ensures (y + 400) / 100 == y / 100 + 4
  {
  }

  lemma Step400(y: nat)
    ensures (y + 1) / 400 == y / 400 + if (y + 1) % 400 == 0 then 1 else 0
    ensures (y + 400) / 400 == y / 400 + 1
  {
  }

  lemma Multiples(y: nat)
    ensures (y % 400 == 0 ==> y % 100 == 0) && (y % 100 == 0 ==> y % 4 == 0)
  {
    assert y % 400 == 0 ==> y == 100 * (4 * (y / 400));
    assert y % 100 == 0 ==> y == 4 * (25 * (y / 100));
  }

  lemma LeapStep(y: nat)
    ensures Leaps(y + 1) == Leaps(y) + if IsLeap(y + 1) then 1 else 0
  {
    Step4(y);
    Step100(y);
    Step400(y);
    Multiples(y + 1);
  }

  /** Counting year by year agrees with the closed form of the Gregorian calendar. */
  lemma {:induction false} YearsClosedForm(year: nat)
    requires year >= 1970
    ensures DaysBeforeYear(year) == 365 * (year - 1970) + Leaps(year - 1) - 477
  {
    if year > 1970 {
      YearsClosedForm(year - 1);
      LeapStep(year - 2);
    }
  }

  /** The day number and the count of seconds of a date and time, with no table and no counting. */
  lemma SecondsClosedForm(d: Date, t: Time)
    requires 1970 <= d.year && 1 <= d.month <= 12 && 1 <= d.day
    ensures var short := if d.month <= 2 then 0 else if IsLeap(d.year) then 1 else 2;
      DayNumber(d) == 365 * (d.year - 1970) + (Leaps(d.year - 1) - 477) + (367 * d.month - 362) / 12 - short + d.day - 1
    ensures Seconds(d, t) == 86400 * DayNumber(d) + 3600 * t.hour + 60 * t.minute + t.second
  {
    YearsClosedForm(d.year);
    MonthsClosedForm(d.year, d.month);
  }

  lemma LeapsRepeat(y: nat)
    ensures Leaps(y + 400) == Leaps(y) + 97
  {
    Step4(y);
    Step100(y);
    Step400(y);
  }

  /** Dates repeat every 400 years, after 146097 days. */
  lemma FourCenturies(year: nat)
    requires year >= 1970
    ensures DaysBeforeYear(year + 400) == DaysBeforeYear(year) + 146097
  {
    YearsClosedForm(year);
    YearsClosedForm(year + 400);
    LeapsRepeat(year - 1);
  }

  predicate Earlier(a: Date, b: Date) {
    a.year < b.year || (a.year == b.year && (a.month < b.month || (a.month == b.month && a.day < b.day)))
  }

  predicate EarlierTime(a: Time, b: Time) {
    a.hour < b.hour || (a.hour == b.hour && (a.minute < b.minute || (a.minute == b.minute && a.second < b.second)))
  }

  /** A day of a year lies within the year. */
  lemma WithinYear(d: Date)
    requires ValidDate(d)
    ensures DayNumber(d) < DaysBeforeYear(d.year) + YearDays(d.year)
  {
    MonthsFillYear(d.year);
    MonthOrder(d.year, d.month, 13);
  }

  lemma DayOrder(a: Date, b: Date)
    requires ValidDate(a) && ValidDate(b) && Earlier(a, b)
    ensures DayNumber(a) < DayNumber(b)
  {
    if a.year < b.year {
      WithinYear(a);
      YearOrder(a.year, b.year);
    } else if a.month < b.month {
      MonthOrder(a.year, a.month, b.month);
    }
  }

  /** Later dates and times, and only those, have larger second counts. */
  lemma SecondsOrder(a: Date, s: Time, b: Date, t: Time)
    requires ValidDate(a) && ValidDate(b) && ValidTime(s) && ValidTime(t)
    ensures Seconds(a, s) < Seconds(b, t) <==> Earlier(a, b) || (a == b && EarlierTime(s, t))
  {
    if Earlier(a, b) {
      DayOrder(a, b);
    } else if a != b {
      DayOrder(b, a);
    }
  }

  /** Different valid dates have different day numbers. */
  lemma DayUnique(a: Date, b: Date)
    requires ValidDate(a) && ValidDate(b) && DayNumber(a) == DayNumber(b)
    ensures a == b
  {
    if Earlier(a, b) {
      DayOrder(a, b);
    } else if Earlier(b, a) {
      DayOrder(b, a);
    }
  }

  lemma SplitSeconds(d: Date, t: Time)
    requires ValidDate(d) && ValidTime(t)
    ensures Seconds(d, t) / 86400 == DayNumber(d) && Seconds(d, t) % 86400 == (t.hour * 60 + t.minute) * 60 + t.second
  {
  }

  // ---- the conversions as they run ----

  /** rtc_to_unix */
  method RtcToUnix(d: Date, t: Time) returns (secs: nat)
    requires ValidDate(d)
    ensures secs == Seconds(d, t)
  {
    var days := 0;
    var y := 1970;
    while y < d.year
      invariant 1970 <= y <= d.year && days == DaysBeforeYear(y)
    {
      days := days + 365 + (if IsLeap(y) then 1 else 0);
      y := y + 1;
    }
    var m := 1;
    while m < d.month
      invariant 1 <= m <= d.month && days == DaysBeforeYear(d.year) + DaysBeforeMonth(d.year, m)
    {
      days := days + DAYS_IN_MONTH[m - 1];
      if m == 2 && IsLeap(d.year) {
        days := days + 1;
      }
      m := m + 1;
    }
    days := days + d.day - 1;
    secs := ((days * 24 + t.hour) * 60 + t.minute) * 60 + t.second;
  }

  /** calendar_get_date of a second count */
  method GetDate(secs: nat) returns (d: Date)
    ensures ValidDate(d) && DayNumber(d) == secs / 86400
  {
    var days: nat := secs / 86400;
    var year := 1970;
    while days >= YearDays(year)
      invariant 1970 <= year && days + DaysBeforeYear(year) == secs / 86400
      decreases days
    {
      days := days - YearDays(year);
      year := year + 1;
    }
    MonthsFillYear(year);
    var month := 1;
    var i := 0;
    while i < 12
      invariant 0 <= i <= 11 && month == i + 1
      invariant days + DaysBeforeYear(year) + DaysBeforeMonth(year, month) == secs / 86400
      invariant days + DaysBeforeMonth(year, month) < YearDays(year)
    {
      var dim := DAYS_IN_MONTH[i];
      if i == 1 && IsLeap(year) {
        dim := 29;
      }
      if days < dim {
        break;
      }
      days := days - dim;
      month := month + 1;
      i := i + 1;
    }
    d := Date(year, month, days + 1);
  }

  /** calendar_get_time of a second count */
  method GetTime(secs: nat) returns (t: Time)
    ensures ValidTime(t) && (t.hour * 60 + t.minute) * 60 + t.second == secs % 86400
  {
    var s := secs % 86400;
    t := Time(s / 3600, s % 3600 / 60, s % 60);
  }

  /** Reading the clock back undoes setting it, for every valid date and time. */
  method Decoded(d: Date, t: Time) returns (d': Date, t': Time)
    requires ValidDate(d) && ValidTime(t)
    ensures d' == d && t' == t
  {
    var secs := RtcToUnix(d, t);
    SplitSeconds(d, t);
    d' := GetDate(secs);
    DayUnique(d, d');
    t' := GetTime(secs);
  }

  /** Setting the clock from what was read gives the same second, for every second. */
  method Encoded(secs: nat) returns (secs': nat)
    ensures secs' == secs
  {
    var d := GetDate(secs);
    var t := GetTime(secs);
    secs' := RtcToUnix(d, t);
  }
}
