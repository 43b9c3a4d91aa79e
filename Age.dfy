/**
 * The age shown on the profile page: whole years between a birth date and
 * today. Dates are explicit (year, month, day) triples; reading the clock and
 * parsing the birth-date string are outside this model, so "today" is a
 * parameter.
 */
module Age {

  /** A calendar date as the three numbers getFullYear, getMonth and getDate give. */
  datatype CalendarDate = CalendarDate(year: int, month: int, day: int)

  /** Chronological order on dates: year first, then month, then day. */
  predicate NotAfter(a: CalendarDate, b: CalendarDate) {
    a.year < b.year
    || (a.year == b.year && a.month < b.month)
    || (a.year == b.year && a.month == b.month && a.day <= b.day)
  }

  /** The k-th anniversary of a birth date: same month and day, k years on. */
  function Anniversary(birth: CalendarDate, k: int): (d: CalendarDate)
    ensures d.month == birth.month && d.day == birth.day
    ensures d.year - birth.year == k
  {
    CalendarDate(birth.year + k, birth.month, birth.day)
  }

  /**
   * `age` is the age on `today` of someone born on `birth`: the age-th
   * birthday has been reached and the next one has not.
   */
  predicate IsAge(birth: CalendarDate, today: CalendarDate, age: int) {
    NotAfter(Anniversary(birth, age), today) && !NotAfter(Anniversary(birth, age + 1), today)
  }

  /** True when this year's birthday is still ahead of `today`. */
  predicate BirthdayStillAhead(birth: CalendarDate, today: CalendarDate) {
    today.month < birth.month || (today.month == birth.month && today.day < birth.day)
  }

  /**
   * The year difference, less one when this year's birthday has not been
   * reached yet.
   */
  method GetAge(birth: CalendarDate, today: CalendarDate) returns (age: int)
    ensures IsAge(birth, today, age)
    ensures age == today.year - birth.year || age == today.year - birth.year - 1
    ensures age == today.year - birth.year - 1 <==> BirthdayStillAhead(birth, today)
  {
    age := today.year - birth.year;
    var m := today.month - birth.month;
    if m < 0 || (m == 0 && today.day < birth.day) {
      age := age - 1;
    }
  }

  /** The age on a given day is determined: no two different ages fit. */
  lemma AgeUnique(birth: CalendarDate, today: CalendarDate, a1: int, a2: int)
    requires IsAge(birth, today, a1) && IsAge(birth, today, a2)
    ensures a1 == a2
  {
  }

  /** Moving "today" forward never makes the age smaller. */
  lemma AgeMonotone(birth: CalendarDate, t1: CalendarDate, t2: CalendarDate, a1: int, a2: int)
    requires NotAfter(t1, t2)
    requires IsAge(birth, t1, a1) && IsAge(birth, t2, a2)
    ensures a1 <= a2
  {
  }

  /** From the birthday itself to the end of that year the age is the plain year difference. */
  lemma OnOrAfterBirthday(birth: CalendarDate, today: CalendarDate, age: int)
    requires IsAge(birth, today, age)
    requires !BirthdayStillAhead(birth, today)
    ensures age == today.year - birth.year
  {
  }

  /** Nobody is of negative age once born, and a newborn is zero. */
  lemma AgeNonNegative(birth: CalendarDate, today: CalendarDate, age: int)
    requires NotAfter(birth, today)
    requires IsAge(birth, today, age)
    ensures age >= 0
    ensures today == birth ==> age == 0
  {
  }
}
