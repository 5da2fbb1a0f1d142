/** Calendar dates as .NET's DateOnly and DateTime.Date hold them, with the
    AddYears arithmetic the enrollment validation uses to compute an age. */
module Dates {

  datatype CivilDate = CivilDate(year: int, month: int, day: int)

  /** Gregorian leap years. */
  predicate IsLeapYear(y: int) {
    (y % 4 == 0 && y % 100 != 0) || y % 400 == 0
  }

  function DaysInMonth(y: int, m: int): int
    requires 1 <= m <= 12
  {
    if m == 2 then (if IsLeapYear(y) then 29 else 28)
    else if m == 4 || m == 6 || m == 9 || m == 11 then 30
    else 31
  }

  predicate IsValid(d: CivilDate) {
    1 <= d.year <= 9999 && 1 <= d.month <= 12 && 1 <= d.day <= DaysInMonth(d.year, d.month)
  }

  /** The dates DateOnly can represent: 0001-01-01 to 9999-12-31. */
  type Date = d: CivilDate | IsValid(d) witness CivilDate(1, 1, 1)

  /** a < b in calendar order (the DateOnly and DateTime comparison). */
  predicate Before(a: Date, b: Date) {
    a.year < b.year
    || (a.year == b.year && (a.month < b.month || (a.month == b.month && a.day < b.day)))
  }

  /** (a.month, a.day) comes after (b.month, b.day), years ignored. */
  predicate MonthDayAfter(a: Date, b: Date) {
    a.month > b.month || (a.month == b.month && a.day > b.day)
  }

  /** DateTime.AddYears(n): the same month and day n years on, where
      February 29 becomes February 28 when the target year is not a leap
      year. */
  function AddYears(d: Date, n: int): (r: Date)
    requires 1 <= d.year + n <= 9999
    ensures r.year == d.year + n && r.month == d.month
    ensures r.day == d.day || (d.month == 2 && d.day == 29 && r.day == 28 && !IsLeapYear(r.year))
  {
    var y := d.year + n;
    var day := if d.month == 2 && d.day == 29 && !IsLeapYear(y) then 28 else d.day;
    CivilDate(y, d.month, day)
  }

  /** DateTime.AddMonths(n): the same day n months on, moved back to the last
      day of the target month when that month is shorter. */
  function AddMonths(d: Date, n: int): (r: Date)
    requires 1 <= (d.year * 12 + d.month - 1 + n) / 12 <= 9999
    ensures r.year * 12 + r.month == d.year * 12 + d.month + n
    ensures r.day == if d.day <= DaysInMonth(r.year, r.month) then d.day else DaysInMonth(r.year, r.month)
  {
    var months := d.year * 12 + d.month - 1 + n;
    var y, m := months / 12, months % 12 + 1;
    var last := DaysInMonth(y, m);
    CivilDate(y, m, if d.day <= last then d.day else last)
  }

  /** The age in whole years of someone born on birth, on the day today:
      the difference of the years, less one when today's date, moved back to
      the birth year, is still before the birthday. Dates are not ordered:
      a birth date after today gives a negative age. */
  function AgeOn(birth: Date, today: Date): (age: int)
    ensures age == today.year - birth.year || age == today.year - birth.year - 1
    ensures age == today.year - birth.year - 1 <==> MonthDayAfter(birth, today)
  {
    var age := today.year - birth.year;
    var anniversary := AddYears(today, -age);
    if Before(anniversary, birth) then age - 1 else age
  }

  /** Away from the 29th of February, the age counts the birthdays reached:
      the age-th anniversary has come and the next one has not. A birthday on
      the 29th of February instead comes on the 1st of March in years without
      one, where AddYears would put it on the 28th. */
  lemma AgeCountsAnniversaries(birth: Date, today: Date)
    requires !Before(today, birth)
    requires !(birth.month == 2 && birth.day == 29)
    requires today.year < 9999
    ensures AgeOn(birth, today) >= 0
    ensures !Before(today, AddYears(birth, AgeOn(birth, today)))
    ensures Before(today, AddYears(birth, AgeOn(birth, today) + 1))
  {
  }

  /** Someone born on 2008-02-29 is still 16 on 2025-02-28. */
  lemma LeapDayBirthdayComesInMarch()
    ensures AgeOn(CivilDate(2008, 2, 29), CivilDate(2025, 2, 28)) == 16
    ensures AgeOn(CivilDate(2008, 2, 29), CivilDate(2025, 3, 1)) == 17
  {
  }
}
