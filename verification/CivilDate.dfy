/** Civil dates as days and seconds since the beginning of 1970. */
module CivilDate {
  import opened Bytes

  datatype Date = Date(year: int, month: int, day: int)

  predicate Leap(y: int) { y % 4 == 0 && (y % 100 != 0 || y % 400 == 0) }

  /** Days of a month in the Gregorian calendar. */
  function MonthDays(y: int, m: int): (n: int)
    ensures 28 <= n <= 31
  {
    if m == 2 then if Leap(y) then 29 else 28
    else if m == 4 || m == 6 || m == 9 || m == 11 then 30
    else 31
  }

  predicate Valid(d: Date) { 1 <= d.month <= 12 && 1 <= d.day <= MonthDays(d.year, d.month) }

  /** The date that follows. */
  function Next(d: Date): (r: Date)
    requires Valid(d)
    ensures Valid(r)
  {
    if d.day < MonthDays(d.year, d.month) then d.(day := d.day + 1)
    else if d.month < 12 then Date(d.year, d.month + 1, 1)
    else Date(d.year + 1, 1, 1)
  }

  /** Division as C does it, towards zero. */
  function Quotient(a: int, b: int): int
    requires b > 0
  {
    if a >= 0 then a / b else -((-a) / b)
  }

  /** rr_days_from_civil: the month is unsigned, and three less than March's wraps around. */
  function DaysFromCivil(year: int, m: nat, d: nat): int
    requires d >= 1
  {
    var y := if m <= 2 then year - 1 else year;
    var era := Quotient(if y >= 0 then y else y - 399, 400);
    var yoe := y - era * 400;
    var doy := (153 * ((m + (if m > 2 then WORD - 3 else 9)) % WORD) + 2) / 5 + d - 1;
    var doe := yoe * 365 + yoe / 4 - yoe / 100 + doy;
    era * 146097 + doe - 719468
  }

  function Days(d: Date): int
    requires Valid(d)
  {
    DaysFromCivil(d.year, d.month, d.day)
  }

  // ---- it counts days ----

  /** The era is the year divided by 400, rounded down. */
  lemma Era(y: int)
    ensures Quotient(if y >= 0 then y else y - 399, 400) == y / 400
  {}

  /** Days up to the end of February of a year. */
  function ToMarch(y: int): int
  {
    y / 400 * 146097 + (y % 400 * 365 + y % 400 / 4 - y % 400 / 100) - 719468
  }

  /** Days from the first of March to the first of a month. */
  function InYear(m: int): int { (153 * (if m > 2 then m - 3 else m + 9) + 2) / 5 }

  lemma Split(year: int, m: nat, d: nat)
    requires 1 <= m <= 12 && d >= 1
    ensures DaysFromCivil(year, m, d) == ToMarch(if m <= 2 then year - 1 else year) + InYear(m) + d - 1
  {
    var y := if m <= 2 then year - 1 else year;
    Era(y);
    assert y - y / 400 * 400 == y % 400;
    assert (m + (if m > 2 then WORD - 3 else 9)) % WORD == if m > 2 then m - 3 else m + 9;
  }

  /** From one March to the next, leap years and centuries included. */
  lemma YearLength(y: int)
    ensures ToMarch(y) - ToMarch(y - 1) == if Leap(y) then 366 else 365
  {
    EraBefore(y);
    Residues(y);
    var r := y % 400;
    if r > 0 { Steps(r); }
  }

  lemma EraBefore(y: int)
    ensures y % 400 == 0 ==> (y - 1) / 400 == y / 400 - 1 && (y - 1) % 400 == 399
    ensures y % 400 > 0 ==> (y - 1) / 400 == y / 400 && (y - 1) % 400 == y % 400 - 1
  {}

  lemma Residues(y: int)
    ensures y % 400 % 4 == y % 4 && y % 400 % 100 == y % 100
  {
    var e, r := y / 400, y % 400;
    assert y == 4 * (100 * e) + r && y == 100 * (4 * e) + r;
    Multiples(100 * e, 4 * e, r);
  }

  lemma Multiples(j: int, k: int, r: int)
    ensures (4 * j + r) % 4 == r % 4 && (100 * k + r) % 100 == r % 100
  {}

  lemma Steps(r: int)
    requires r > 0
    ensures r / 4 - (r - 1) / 4 == if r % 4 == 0 then 1 else 0
    ensures r / 100 - (r - 1) / 100 == if r % 100 == 0 then 1 else 0
  {}

  /** From the first of a month to the first of the next. */
  lemma MonthLength(y: int, m: nat)
    requires 1 <= m <= 12
    ensures DaysFromCivil(if m == 12 then y + 1 else y, if m == 12 then 1 else m + 1, 1) == DaysFromCivil(y, m, 1) + MonthDays(y, m)
  {
    hide ToMarch;
    hide DaysFromCivil;
    Split(y, m, 1);
    Split(if m == 12 then y + 1 else y, if m == 12 then 1 else m + 1, 1);
    YearLength(y);
  }

  /** Each date is one day after the date before it, over all years. */
  lemma NextDay(d: Date)
    requires Valid(d)
    ensures Days(Next(d)) == Days(d) + 1
  {
    hide ToMarch;
    hide InYear;
    hide DaysFromCivil;
    Split(d.year, d.month, d.day);
    Split(d.year, d.month, 1);
    if d.day < MonthDays(d.year, d.month) {
      Split(d.year, d.month, d.day + 1);
    } else {
      MonthLength(d.year, d.month);
    }
  }

  lemma Epoch()
    ensures Days(Date(1970, 1, 1)) == 0
  {}

  // ---- order ----

  predicate Before(a: Date, b: Date)
  {
    a.year < b.year || (a.year == b.year && (a.month < b.month || (a.month == b.month && a.day < b.day)))
  }

  /** The first of the month that is k months after January of year 0. */
  function MonthStart(k: int): int { DaysFromCivil(k / 12, k % 12 + 1, 1) }

  lemma {:induction false} MonthsGrow(j: int, k: int)
    requires j < k
    ensures MonthStart(j) + MonthDays(j / 12, j % 12 + 1) <= MonthStart(k)
    decreases k - j
  {
    hide DaysFromCivil;
    hide MonthDays;
    MonthLength(j / 12, j % 12 + 1);
    assert (j + 1) / 12 == (if j % 12 == 11 then j / 12 + 1 else j / 12) && (j + 1) % 12 == if j % 12 == 11 then 0 else j % 12 + 1;
    if j + 1 < k { MonthsGrow(j + 1, k); }
  }

  /** An earlier date has fewer days. */
  lemma EarlierFewer(a: Date, b: Date)
    requires Valid(a) && Valid(b) && Before(a, b)
    ensures Days(a) < Days(b)
  {
    hide DaysFromCivil;
    hide ToMarch;
    hide InYear;
    hide MonthDays;
    Split(a.year, a.month, a.day);
    Split(a.year, a.month, 1);
    Split(b.year, b.month, b.day);
    Split(b.year, b.month, 1);
    var j, k := 12 * a.year + a.month - 1, 12 * b.year + b.month - 1;
    assert j / 12 == a.year && j % 12 == a.month - 1 && k / 12 == b.year && k % 12 == b.month - 1;
    if j < k { MonthsGrow(j, k); }
  }

  datatype Time = Time(date: Date, hour: int, minute: int, second: int)

  predicate ValidTime(t: Time)
  {
    Valid(t.date) && 0 <= t.hour < 24 && 0 <= t.minute < 60 && 0 <= t.second < 60
  }

  /** rr_utc_time */
  function UtcTime(t: Time): int
    requires Valid(t.date)
  {
    Days(t.date) * 86400 + t.hour * 3600 + t.minute * 60 + t.second
  }

  /** One second later. */
  function NextSecond(t: Time): (u: Time)
    requires ValidTime(t)
    ensures ValidTime(u)
  {
    if t.second < 59 then t.(second := t.second + 1)
    else if t.minute < 59 then t.(minute := t.minute + 1, second := 0)
    else if t.hour < 23 then t.(hour := t.hour + 1, minute := 0, second := 0)
    else Time(Next(t.date), 0, 0, 0)
  }

  /** Seconds are counted one by one, over midnights too. */
  lemma SecondBySecond(t: Time)
    requires ValidTime(t)
    ensures UtcTime(NextSecond(t)) == UtcTime(t) + 1
  {
    hide Days;
    if t.hour == 23 && t.minute == 59 && t.second == 59 { NextDay(t.date); }
  }

  lemma UtcEpoch()
    ensures UtcTime(Time(Date(1970, 1, 1), 0, 0, 0)) == 0
  {
    Epoch();
  }

  predicate Earlier(a: Time, b: Time)
  {
    || Before(a.date, b.date)
    || (a.date == b.date && (a.hour < b.hour || (a.hour == b.hour && (a.minute < b.minute || (a.minute == b.minute && a.second < b.second)))))
  }

  /** The order of seconds is exactly the order of dates and times. */
  lemma UtcTimeOrder(a: Time, b: Time)
    requires ValidTime(a) && ValidTime(b)
    ensures UtcTime(a) < UtcTime(b) <==> Earlier(a, b)
  {
    hide Days;
    if Before(a.date, b.date) {
      EarlierFewer(a.date, b.date);
    } else if Before(b.date, a.date) {
      EarlierFewer(b.date, a.date);
    } else {
      assert a.date == b.date;
    }
  }
}
