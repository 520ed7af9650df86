/**
  The calendar conversion of kernel/src/lib/time_conversion.c, proved against
  the count of seconds since 1970.

  fsm_convertUnix numbers months and days from 0 and fsm_DateConvertToUnix
  expects them from 1; Shifted is the adjustment fsm_timePrintable makes.
 */
module Calendar {
  import opened Bits

  datatype Time = Time(year: nat, month: nat, day: nat, hour: nat, minute: nat, second: nat)

  predicate Leap(y: nat) { y % 4 == 0 && (y % 100 != 0 || y % 400 == 0) }

  function YearLength(y: nat): nat { if Leap(y) then 366 else 365 }

  function MonthLength(y: nat, m: nat): nat
    requires m < 12
  {
    if m == 1 && Leap(y) then 29 else [31, 28, 31, 30, 31, 30, 31, 31, 30, 31, 30, 31][m]
  }

  /** Days from 1 January 1970 to 1 January of year y. */
  function YearStart(y: nat): nat {
    if y <= 1970 then 0 else YearStart(y - 1) + YearLength(y - 1)
  }

  /** Days of year y before month m. */
  function MonthStart(y: nat, m: nat): nat
    requires m <= 12
  {
    if m == 0 then 0 else MonthStart(y, m - 1) + MonthLength(y, m - 1)
  }

  /** A date and time of day from 1970 on, months and days counted from 0. */
  predicate Legal(t: Time) {
    && 1970 <= t.year && t.month < 12 && t.day < MonthLength(t.year, t.month)
    && t.hour < 24 && t.minute < 60 && t.second < 60
  }

  function Days(t: Time): int
    requires t.month <= 12
  {
    YearStart(t.year) + MonthStart(t.year, t.month) + t.day
  }

  function Clock(t: Time): nat { t.hour * 3600 + t.minute * 60 + t.second }

  /** Seconds since 1970. */
  function Seconds(t: Time): int
    requires t.month <= 12
  {
    Days(t) * 86400 + Clock(t)
  }

  function Shifted(t: Time): Time { t.(month := t.month + 1, day := t.day + 1) }

  // ------------------------------------------------------- the calendar

  lemma YearIsItsMonths(y: nat)
    ensures MonthStart(y, 12) == YearLength(y)
  {
    var february := MonthLength(y, 1);
    assert MonthStart(y, 1) == 31;
    assert MonthStart(y, 2) == 31 + february;
    assert MonthStart(y, 3) == 62 + february;
    assert MonthStart(y, 4) == 92 + february;
    assert MonthStart(y, 5) == 123 + february;
    assert MonthStart(y, 6) == 153 + february;
    assert MonthStart(y, 7) == 184 + february;
    assert MonthStart(y, 8) == 215 + february;
    assert MonthStart(y, 9) == 245 + february;
    assert MonthStart(y, 10) == 276 + february;
    assert MonthStart(y, 11) == 306 + february;
    assert MonthStart(y, 12) == 337 + february;
  }

  /** The months by the rule of 153 days to five months from March on, without a table. */
  lemma MonthsByRule(y: nat, m: nat)
    requires 1 <= m <= 12
    ensures MonthStart(y, m) == if m == 1 then 31 else 59 + (if Leap(y) then 1 else 0) + (153 * (m - 2) + 2) / 5
  {
    if m > 1 {
      MonthsByRule(y, m - 1);
    }
  }

  lemma {:induction false} LeapDays(y: nat)
    requires y >= 1970
    ensures YearStart(y) == 365 * (y - 1970) + (y - 1969) / 4 - (y - 1901) / 100 + (y - 1601) / 400
    decreases y
  {
    if y > 1970 {
      LeapDays(y - 1);
      OneMoreIn4(y - 1970);
      OneMoreIn100(y - 1902);
      OneMoreIn400(y - 1602);
      LeapByResidues(y - 1);
    }
  }

  lemma OneMoreIn4(x: nat)
    ensures (x + 1) / 4 == x / 4 + (if (x + 1) % 4 == 0 then 1 else 0)
  {
  }

  lemma OneMoreIn100(x: nat)
    ensures (x + 1) / 100 == x / 100 + (if (x + 1) % 100 == 0 then 1 else 0)
  {
  }

  lemma OneMoreIn400(x: nat)
    ensures (x + 1) / 400 == x / 400 + (if (x + 1) % 400 == 0 then 1 else 0)
  {
  }

  /** Every fourth year but for the centuries not divisible by 400. */
  lemma LeapByResidues(y: nat)
    requires y >= 1970
    ensures YearLength(y) == 365 + (if (y - 1968) % 4 == 0 then 1 else 0)
                             - (if (y - 1900) % 100 == 0 then 1 else 0) + (if (y - 1600) % 400 == 0 then 1 else 0)
  {
    assert (y - 1968) % 4 == y % 4;
    assert (y - 1900) % 100 == y % 100;
    assert (y - 1600) % 400 == y % 400;
    var q := y / 400;
    assert y % 400 == 0 ==> y == 100 * (4 * q) && y == 4 * (100 * q);
    var c := y / 100;
    assert y % 100 == 0 ==> y == 4 * (25 * c);
  }

  lemma {:induction false} YearsGrow(y: nat, z: nat)
    requires 1970 <= y <= z
    ensures YearStart(y) + 365 * (z - y) <= YearStart(z)
    decreases z
  {
    if y < z { YearsGrow(y, z - 1); }
  }

  lemma {:induction false} MonthsGrow(y: nat, m: nat, n: nat)
    requires m <= n <= 12
    ensures MonthStart(y, m) <= MonthStart(y, n)
    decreases n
  {
    if m < n { MonthsGrow(y, m, n - 1); }
  }

  /** The day of the year of a legal date stays within the month and the year. */
  lemma DayInYear(t: Time)
    requires Legal(t)
    ensures MonthStart(t.year, t.month) + t.day < MonthStart(t.year, t.month + 1)
    ensures MonthStart(t.year, t.month) + t.day < YearLength(t.year)
  {
    MonthsGrow(t.year, t.month + 1, 12);
    YearIsItsMonths(t.year);
  }

  /** Earlier by the first field in which they differ, years first and seconds last. */
  predicate Earlier(t: Time, u: Time) {
    if t.year != u.year then t.year < u.year
    else if t.month != u.month then t.month < u.month
    else if t.day != u.day then t.day < u.day
    else if t.hour != u.hour then t.hour < u.hour
    else if t.minute != u.minute then t.minute < u.minute
    else t.second < u.second
  }

  lemma EarlierHasFewer(t: Time, u: Time)
    requires Legal(t) && Legal(u) && Earlier(t, u)
    ensures Seconds(t) < Seconds(u)
  {
    DayInYear(t);
    assert Clock(t) < 86400;
    if t.year < u.year {
      YearsGrow(t.year + 1, u.year);
      assert Days(t) < Days(u);
    } else if t.month < u.month {
      MonthsGrow(t.year, t.month + 1, u.month);
      assert Days(t) < Days(u);
    }
  }

  /** Counting seconds and comparing dates field by field come to the same. */
  lemma SecondsOrder(t: Time, u: Time)
    requires Legal(t) && Legal(u)
    ensures Seconds(t) < Seconds(u) <==> Earlier(t, u)
    ensures Seconds(t) == Seconds(u) <==> t == u
  {
    if Earlier(t, u) {
      EarlierHasFewer(t, u);
    } else if t != u {
      EarlierHasFewer(u, t);
    }
  }

  /** No two legal dates are the same number of seconds after 1970. */
  lemma SecondsInjective(t: Time, u: Time)
    requires Legal(t) && Legal(u) && Seconds(t) == Seconds(u)
    ensures t == u
  {
    SecondsOrder(t, u);
  }

  // ------------------------------------------------------- fsm_convertUnix

  method FindYear(all: nat) returns (year: nat, days: nat)
    ensures 1970 <= year && YearStart(year) + days == all && days < YearLength(year)
  {
    year, days := 1970, all;
    while true
      invariant 1970 <= year && YearStart(year) + days == all
      decreases days
    {
      var daysInYear := YearLength(year);
      if days < daysInYear { break; }
      days := days - daysInYear;
      year := year + 1;
    }
  }

  method FindMonth(year: nat, all: nat) returns (month: nat, days: nat)
    requires all < YearLength(year)
    ensures month < 12 && MonthStart(year, month) + days == all && days < MonthLength(year, month)
  {
    month, days := 0, all;
    while month < 12
      invariant month <= 12 && MonthStart(year, month) + days == all
    {
      if days < MonthLength(year, month) { return; }
      days := days - MonthLength(year, month);
      month := month + 1;
    }
    YearIsItsMonths(year);
  }

  /** Of every 32-bit time, the one legal date that many seconds after 1970; its year fits in 16 bits. */
  method ConvertUnix(unix: nat) returns (t: Time)
    requires unix < 0x1_0000_0000
    ensures Legal(t) && Seconds(t) == unix
    ensures forall u | Legal(u) && Seconds(u) == unix :: u == t
    ensures t.year <= 2106
  {
    var days := unix / 86400;
    var year, month;
    year, days := FindYear(days);
    month, days := FindMonth(year, days);
    var seconds := unix % 86400;
    t := Time(year, month, days, seconds / 3600, seconds % 3600 / 60, seconds % 60);
    ClockOf(seconds);
    YearsGrow(1970, year);
    forall u | Legal(u) && Seconds(u) == unix ensures u == t { SecondsInjective(u, t); }
  }

  lemma ClockOf(s: nat)
    requires s < 86400
    ensures s / 3600 < 24 && s % 3600 / 60 < 60 && s / 3600 * 3600 + s % 3600 / 60 * 60 + s % 60 == s
  {
    var h, r := s / 3600, s % 3600;
    assert s == 3600 * h + r;
    assert s % 60 == r % 60;
  }

  // ------------------------------------------------------- fsm_DateConvertToUnix

  /** The seconds of the year loop, modulo the word size. */
  method SecondsOfYears(until: nat) returns (unix: nat)
    ensures unix == Wrap32(YearStart(until) * 86400)
  {
    unix := 0;
    var year := 1970;
    while year < until
      invariant 1970 <= year && (year <= until || year == 1970)
      invariant unix == Wrap32(YearStart(year) * 86400)
    {
      unix := Wrap32(unix + YearLength(year) * 86400);
      year := year + 1;
    }
  }

  /** The month loop; month 0 is taken like month 1. */
  method SecondsOfMonths(year: nat, month: nat, before: nat) returns (unix: nat)
    requires month <= 13
    ensures unix == Wrap32(before + MonthStart(year, if month == 0 then 0 else month - 1) * 86400)
  {
    unix := Wrap32(before);
    var m := 0;
    ghost var last := if month == 0 then 0 else month - 1;
    while m < month - 1
      invariant 0 <= m <= last
      invariant unix == Wrap32(before + MonthStart(year, m) * 86400)
    {
      Wrap32Add(before + MonthStart(year, m) * 86400, MonthLength(year, m) * 86400);
      unix := Wrap32(unix + MonthLength(year, m) * 86400);
      m := m + 1;
    }
  }

  /** The value for any record whose month does not run off the table, in 32-bit arithmetic. */
  method DateConvertToUnix(t: Time) returns (unix: nat)
    requires t.month <= 13
    ensures var months := MonthStart(t.year, if t.month == 0 then 0 else t.month - 1);
            unix == Wrap32((YearStart(t.year) + months + t.day - 1) * 86400 + Clock(t))
  {
    ghost var years := YearStart(t.year) * 86400;
    ghost var months := MonthStart(t.year, if t.month == 0 then 0 else t.month - 1) * 86400;
    ghost var days := (t.day - 1) * 86400;
    unix := SecondsOfYears(t.year);
    unix := SecondsOfMonths(t.year, t.month, unix);
    Wrap32Add(years, months);
    unix := Wrap32(unix + (t.day - 1) * 86400);
    Wrap32Add(years + months, days);
    unix := Wrap32(unix + (t.hour * 3600 + t.minute * 60 + t.second));
    Wrap32Add(years + months + days, Clock(t));
  }

  // ------------------------------------------------------- there and back

  /** Every 32-bit time comes back. */
  method TimeRoundTrip(unix: nat) returns (back: nat)
    requires unix < 0x1_0000_0000
    ensures back == unix
  {
    var t := ConvertUnix(unix);
    back := DateConvertToUnix(Shifted(t));
  }

  /** A legal date comes back exactly if its seconds fit in 32 bits. */
  method DateRoundTrip(t: Time) returns (back: Time)
    requires Legal(t)
    ensures back == t <==> Seconds(t) < 0x1_0000_0000
  {
    var unix := DateConvertToUnix(Shifted(t));
    back := ConvertUnix(unix);
  }
}
