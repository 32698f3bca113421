/** The part of .NET's System.DateTime that the member search relies on: the
    proleptic Gregorian calendar between the years 1 and 9999, a time of day,
    the total order on instants and AddYears. */
module Calendar {
  import opened Wrappers

  /** 100-nanosecond ticks in one day, the resolution of a DateTime. */
  const TicksPerDay: int := 864_000_000_000

  predicate IsLeapYear(year: int) {
    year % 4 == 0 && (year % 100 != 0 || year % 400 == 0)
  }

  function DaysInMonth(year: int, month: int): (n: int)
    requires 1 <= month <= 12
    ensures 28 <= n <= 31
    ensures month == 2 ==> (n == 29 <==> IsLeapYear(year)) && n <= 29
    ensures month != 2 ==> n >= 30
  {
    if month == 2 then (if IsLeapYear(year) then 29 else 28)
    else if month == 4 || month == 6 || month == 9 || month == 11 then 30
    else 31
  }

  /** A calendar date and a time of day, counted in ticks since midnight. */
  datatype DateTimeParts = DateTimeParts(year: int, month: int, day: int, timeOfDay: int) {
    predicate Valid() {
      && 1 <= year <= 9999
      && 1 <= month <= 12
      && 1 <= day <= DaysInMonth(year, month)
      && 0 <= timeOfDay < TicksPerDay
    }
  }

  /** A DateTime always denotes an existing instant of the calendar. */
  type DateTime = d: DateTimeParts | d.Valid() witness DateTimeParts(1, 1, 1, 0)

  /** The instant's position on the time line. DateTime's comparison operators
      compare these numbers (the library compares its tick count, which lists
      instants in the same order). */
  function Key(d: DateTime): int {
    ((d.year * 12 + (d.month - 1)) * 31 + (d.day - 1)) * 864_000_000_000 + d.timeOfDay
  }

  /** `a <= b` on DateTime. */
  predicate AtMost(a: DateTime, b: DateTime) {
    Key(a) <= Key(b)
  }

  /** Earlier in the calendar: an earlier year, or the same year and an earlier
      month, or the same month and an earlier day, or the same day and an
      earlier time. */
  predicate CalendarBefore(a: DateTime, b: DateTime) {
    || a.year < b.year
    || (a.year == b.year && a.month < b.month)
    || (a.year == b.year && a.month == b.month && a.day < b.day)
    || (a.year == b.year && a.month == b.month && a.day == b.day && a.timeOfDay < b.timeOfDay)
  }

  /** The order on keys is exactly the calendar order, and no two instants
      share a key. */
  lemma KeyOrdersCalendar(a: DateTime, b: DateTime)
    ensures Key(a) < Key(b) <==> CalendarBefore(a, b)
    ensures Key(a) == Key(b) <==> a == b
  {
  }

  /** DateTime.AddYears: the same month, day and time `value` years away; a
      29 February that lands in a common year becomes 28 February; a year
      outside 1..9999 raises ArgumentOutOfRangeException. (The library's other
      guard, |value| > 10000, can only fire when the year is out of range too.) */
  function AddYears(d: DateTime, value: int): (r: Result<DateTime, Exception>)
    ensures r.Success? <==> 1 <= d.year + value <= 9999
    ensures r.Failure? ==> r.error == ArgumentOutOfRange
    ensures r.Success? ==>
      && r.value.year == d.year + value
      && r.value.month == d.month
      && r.value.timeOfDay == d.timeOfDay
      && (r.value.day == d.day
          || (d.month == 2 && d.day == 29 && !IsLeapYear(d.year + value) && r.value.day == 28))
  {
    var year := d.year + value;
    if year < 1 || year > 9999 then
      Failure(ArgumentOutOfRange)
    else
      var day := if d.day > DaysInMonth(year, d.month) then DaysInMonth(year, d.month) else d.day;
      Success(DateTimeParts(year, d.month, day, d.timeOfDay))
  }

  /** Going `value` years away and back is the identity, except for the one
      clamped date. */
  lemma AddYearsRoundTrip(d: DateTime, value: int)
    requires AddYears(d, value).Success?
    requires !(d.month == 2 && d.day == 29)
    ensures AddYears(AddYears(d, value).value, -value) == Success(d)
  {
  }

  /** Moving further into the past gives an earlier instant: `d.AddYears(m)`
      lies before `d.AddYears(n)` exactly when `m < n`. */
  lemma AddYearsStrictlyIncreasing(d: DateTime, m: int, n: int)
    requires AddYears(d, m).Success? && AddYears(d, n).Success?
    ensures Key(AddYears(d, m).value) < Key(AddYears(d, n).value) <==> m < n
    ensures AtMost(AddYears(d, m).value, AddYears(d, n).value) <==> m <= n
  {
  }

  /** Age in completed years on `today` of someone born on `dob`: the
      difference of the years, less one while this year's birthday has not yet
      come. */
  function Age(dob: DateTime, today: DateTime): int {
    var birthdayPassed := dob.month < today.month || (dob.month == today.month && dob.day <= today.day);
    today.year - dob.year - (if birthdayPassed then 0 else 1)
  }

  /** For instants at midnight, being born no later than `today.AddYears(-k)`
      is being at least `k` years old on `today`. This is what turns an age
      bound into a date-of-birth bound. */
  lemma BornByIffAtLeast(dob: DateTime, today: DateTime, k: int)
    requires dob.timeOfDay == 0 && today.timeOfDay == 0
    requires AddYears(today, -k).Success?
    ensures AtMost(dob, AddYears(today, -k).value) <==> Age(dob, today) >= k
  {
  }

  /** For instants at midnight, being born no earlier than `today.AddYears(-k)`
      means being at most `k` years old on `today`. */
  lemma BornSinceAtMost(dob: DateTime, today: DateTime, k: int)
    requires dob.timeOfDay == 0 && today.timeOfDay == 0
    requires AddYears(today, -k).Success?
    requires AtMost(AddYears(today, -k).value, dob)
    ensures Age(dob, today) <= k
  {
  }
}
