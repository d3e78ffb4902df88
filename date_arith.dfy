// Calendar month arithmetic on timestamps (`add_timestamp_months`): the
// year and month move by whole months, and a day that does not exist in the
// target month is clamped to that month's last day.

module DateArith {
  import opened Datums
  import opened IntArith

  /// A timestamp without time zone in the proleptic Gregorian calendar.
  datatype DateTime = DateTime(year: int, month: int, day: int,
                               hour: int, minute: int, second: int, nano: int)

  predicate IsLeapYear(y: int) {
    y % 4 == 0 && (y % 100 != 0 || y % 400 == 0)
  }

  function DaysInMonth(y: int, m: int): (n: int)
    requires 1 <= m <= 12
    ensures 28 <= n <= 31
  {
    if m == 2 then (if IsLeapYear(y) then 29 else 28)
    else if m == 4 || m == 6 || m == 9 || m == 11 then 30
    else 31
  }

  predicate ValidDate(y: int, m: int, d: int) {
    1 <= m <= 12 && 1 <= d <= DaysInMonth(y, m)
  }

  predicate ValidDateTime(dt: DateTime) {
    ValidDate(dt.year, dt.month, dt.day)
  }

  function MinInt(a: int, b: int): int { if a <= b then a else b }

  /// The months since year 0 of the month holding `dt`.
  function MonthIndex(dt: DateTime): int {
    dt.year * 12 + (dt.month - 1)
  }

  /// The intended result: the month `months` away from `dt`'s month, with
  /// `dt`'s day clamped to that month's length and the time of day kept.
  function AddMonths(dt: DateTime, months: int): (r: DateTime)
    requires ValidDateTime(dt)
    ensures ValidDateTime(r)
    ensures MonthIndex(r) == MonthIndex(dt) + months
    ensures r.day == MinInt(dt.day, DaysInMonth(r.year, r.month))
    ensures (r.hour, r.minute, r.second, r.nano) == (dt.hour, dt.minute, dt.second, dt.nano)
  {
    var total := MonthIndex(dt) + months;
    var y, m := total / 12, total % 12 + 1;
    dt.(year := y, month := m, day := MinInt(dt.day, DaysInMonth(y, m)))
  }

  /// Adding no months is the identity on valid timestamps.
  lemma AddMonthsZero(dt: DateTime)
    requires ValidDateTime(dt)
    ensures AddMonths(dt, 0) == dt
  {
    var r := AddMonths(dt, 0);
    MonthIndexUnique(r, dt);
  }

  lemma MonthIndexUnique(a: DateTime, b: DateTime)
    requires 1 <= a.month <= 12 && 1 <= b.month <= 12
    requires MonthIndex(a) == MonthIndex(b)
    ensures a.year == b.year && a.month == b.month
  {
  }

  /// When no clamping happens (days 1 to 28 exist in every month), month
  /// additions compose.
  lemma AddMonthsCompose(dt: DateTime, a: int, b: int)
    requires ValidDateTime(dt) && dt.day <= 28
    ensures AddMonths(dt, a).day == dt.day
    ensures AddMonths(AddMonths(dt, a), b) == AddMonths(dt, a + b)
  {
    var x := AddMonths(AddMonths(dt, a), b);
    var y := AddMonths(dt, a + b);
    MonthIndexUnique(x, y);
  }

  /// The examples the source's unit test checks.
  lemma AddMonthsExamples()
    ensures AddMonths(DateTime(2000, 1, 1, 9, 9, 9, 0), 30) == DateTime(2002, 7, 1, 9, 9, 9, 0)
    ensures AddMonths(DateTime(2000, 1, 1, 9, 9, 9, 0), -13) == DateTime(1998, 12, 1, 9, 9, 9, 0)
    ensures AddMonths(DateTime(2000, 1, 1, 9, 9, 9, 0), -30) == DateTime(1997, 7, 1, 9, 9, 9, 0)
    ensures AddMonths(DateTime(1999, 12, 1, 9, 9, 9, 0), 1) == DateTime(2000, 1, 1, 9, 9, 9, 0)
    ensures AddMonths(DateTime(1999, 12, 31, 9, 9, 9, 0), 2) == DateTime(2000, 2, 29, 9, 9, 9, 0)
    ensures AddMonths(DateTime(1999, 12, 31, 9, 9, 9, 0), 14) == DateTime(2001, 2, 28, 9, 9, 9, 0)
  {
  }

  /// The years chrono's `NaiveDate` represents: `i32::MIN >> 13` to
  /// `i32::MAX >> 13`.
  const MIN_YEAR: int := -262144
  const MAX_YEAR: int := 262143

  predicate YearInRange(y: int) {
    MIN_YEAR <= y <= MAX_YEAR
  }

  /// A timestamp chrono can represent.
  predicate ChronoDateTime(dt: DateTime) {
    YearInRange(dt.year) && ValidDateTime(dt)
  }

  /// `NaiveDate::from_ymd_opt`: a date exactly when the year is in chrono's
  /// range, the month is 1 to 12 and the day exists in that month.
  function FromYmdOpt(y: int, m: int, d: int): (r: bool)
    ensures r <==> YearInRange(y) && ValidDate(y, m, d)
  {
    MIN_YEAR <= y <= MAX_YEAR && 1 <= m <= 12 && 1 <= d <= DaysInMonth(y, m)
  }

  /// The year the month arithmetic lands in.
  function TargetYear(dt: DateTime, months: int): int {
    (MonthIndex(dt) + months) / 12
  }

  /// `add_timestamp_months`: truncating `/` and `%` split the month count,
  /// a negative remainder borrows a year, and the day is walked down until
  /// the date exists. The walk ends only when the target year is one chrono
  /// represents (see `AddMonthsNoDate`).
  method AddTimestampMonths(dt: DateTime, months: int) returns (r: DateTime)
    requires ChronoDateTime(dt) && InRange(W32, months)
    requires YearInRange(TargetYear(dt, months))
    ensures r == AddMonths(dt, months) && ChronoDateTime(r)
  {
    if months == 0 {
      AddMonthsZero(dt);
      return dt;
    }
    var n := months;
    var year, month, day := dt.year, dt.month - 1, dt.day;
    var years := DivT(n, 12);
    year := year + years;
    DivRemT(n, 12);
    n := RemT(n, 12);
    if n < 0 {
      year := year - 1;
      n := n + 12;
    }
    assert 0 <= n < 12 && year * 12 + n == dt.year * 12 + months;
    year := year + (month + n) / 12;
    month := (month + n) % 12;
    month := month + 1;
    var total := MonthIndex(dt) + months;
    assert year * 12 + (month - 1) == total && 1 <= month <= 12;
    assert year == total / 12 && month == total % 12 + 1;
    var valid := FromYmdOpt(year, month, day);
    while !valid
      invariant 1 <= month <= 12 && 1 <= day <= dt.day && YearInRange(year)
      invariant day == dt.day || day >= DaysInMonth(year, month)
      invariant valid <==> ValidDate(year, month, day)
      decreases day
    {
      day := day - 1;
      valid := FromYmdOpt(year, month, day);
    }
    r := DateTime(year, month, day, dt.hour, dt.minute, dt.second, dt.nano);
  }

  /// As written, a month count whose target year chrono cannot represent
  /// leaves `from_ymd_opt` failing for every `day` of the target month, so
  /// the day-walking loop never finds a date: its `debug_assert!(day > 28)`
  /// fails, and without debug assertions the loop does not end.
  lemma AddMonthsNoDate(dt: DateTime, months: int, day: int)
    requires ChronoDateTime(dt) && !YearInRange(TargetYear(dt, months))
    ensures var total := MonthIndex(dt) + months;
      !FromYmdOpt(total / 12, total % 12 + 1, day)
  {
  }

  /// A reachable instance: a million years (`interval '1000000 years'`)
  /// is 12000000 months, a valid `i32`.
  lemma AddMonthsNoDateExample()
    ensures InRange(W32, 12000000)
    ensures TargetYear(DateTime(2000, 1, 1, 0, 0, 0, 0), 12000000) == 1002000
    ensures forall d :: !FromYmdOpt(1002000, 1, d)
  {
  }

  /// `add_timestamp_months` with the out-of-range case reported as an
  /// error instead of a loop that cannot end.
  method CheckedAddTimestampMonths(dt: DateTime, months: int) returns (r: Result<DateTime>)
    requires ChronoDateTime(dt) && InRange(W32, months)
    ensures r.Err? <==> !YearInRange(TargetYear(dt, months))
    ensures r.Err? ==> r.error == TimestampOutOfRange
    ensures r.Ok? ==> r.value == AddMonths(dt, months) && ChronoDateTime(r.value)
  {
    if !YearInRange(TargetYear(dt, months)) {
      return Err(TimestampOutOfRange);
    }
    var t := AddTimestampMonths(dt, months);
    r := Ok(t);
  }
}
