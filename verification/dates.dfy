/** Calendar dates as Python's `datetime.date` treats them (proleptic Gregorian,
    years 1 to 9999), and the birthday countdown of `Record.days_to_birthday`. */
module Dates {
  import opened Base
  import opened PyStr

  datatype Date = Date(year: int, month: int, day: int)

  const MinYear := 1
  const MaxYear := 9999

  predicate IsLeap(y: int) {
    y % 4 == 0 && (y % 100 != 0 || y % 400 == 0)
  }

  function YearLength(y: int): int {
    if IsLeap(y) then 366 else 365
  }

  function DaysInMonth(y: int, m: int): int
    requires 1 <= m <= 12
  {
    if m == 2 then (if IsLeap(y) then 29 else 28)
    else if m == 4 || m == 6 || m == 9 || m == 11 then 30
    else 31
  }

  /** What `date(year, month, day)` accepts. */
  predicate ValidDate(d: Date) {
    MinYear <= d.year <= MaxYear && 1 <= d.month <= 12 && 1 <= d.day <= DaysInMonth(d.year, d.month)
  }

  function DaysBeforeYear(y: int): int
    requires y >= 1
  {
    var p := y - 1;
    p * 365 + p / 4 - p / 100 + p / 400
  }

  function DaysBeforeMonth(y: int, m: int): int
    requires 1 <= m <= 12
  {
    [0, 31, 59, 90, 120, 151, 181, 212, 243, 273, 304, 334][m - 1]
      + (if m > 2 && IsLeap(y) then 1 else 0)
  }

  /** `d.toordinal()`: 1 for 0001-01-01, one more for every following day. */
  function Ordinal(d: Date): int
    requires ValidDate(d)
  {
    DaysBeforeYear(d.year) + DaysBeforeMonth(d.year, d.month) + d.day
  }

  /** `a < b` on dates. */
  predicate Before(a: Date, b: Date) {
    a.year < b.year || (a.year == b.year && (a.month < b.month || (a.month == b.month && a.day < b.day)))
  }

  /** `d.replace(year=year)`: `ValueError` when that day does not exist in `year`. */
  function Replace(d: Date, year: int): (r: Result<Date>)
    ensures r.Ok? <==> ValidDate(Date(year, d.month, d.day))
    ensures r.Ok? ==> r.value == Date(year, d.month, d.day)
    ensures r.Err? ==> r.error == ValueError
    ensures ValidDate(d) ==>
      (r.Err? <==> !(MinYear <= year <= MaxYear) || (d.month == 2 && d.day == 29 && !IsLeap(year)))
  {
    var e := Date(year, d.month, d.day);
    if ValidDate(e) then Ok(e) else Err(ValueError)
  }

  /** `str(d)`: the ISO form `YYYY-MM-DD`. */
  function IsoFormat(d: Date): string {
    ZeroPad(if d.year < 0 then 0 else d.year, 4) + "-" + ZeroPad(if d.month < 0 then 0 else d.month, 2)
      + "-" + ZeroPad(if d.day < 0 then 0 else d.day, 2)
  }

  /** The ISO rendering of a valid date has ten characters and reads back as
      the same year, month and day. */
  lemma IsoFormatFields(d: Date)
    requires ValidDate(d)
    ensures var s := IsoFormat(d);
      && |s| == 10 && s[4] == '-' && s[7] == '-'
      && IsDecimalText(s[..4]) && DecimalValue(s[..4]) == d.year
      && IsDecimalText(s[5..7]) && DecimalValue(s[5..7]) == d.month
      && IsDecimalText(s[8..]) && DecimalValue(s[8..]) == d.day
  {
    assert Pow10(4) == 10000 && Pow10(2) == 100;
    ZeroPadLength(d.year, 4);
    ZeroPadLength(d.month, 2);
    ZeroPadLength(d.day, 2);
    ZeroPadValue(d.year, 4);
    ZeroPadValue(d.month, 2);
    ZeroPadValue(d.day, 2);
    var s := IsoFormat(d);
    assert s[..4] == ZeroPad(d.year, 4);
    assert s[5..7] == ZeroPad(d.month, 2);
    assert s[8..] == ZeroPad(d.day, 2);
  }

  lemma DivSteps(y: int)
    requires y >= 1
    ensures y / 4 - (y - 1) / 4 == if y % 4 == 0 then 1 else 0
    ensures y / 100 - (y - 1) / 100 == if y % 100 == 0 then 1 else 0
    ensures y / 400 - (y - 1) / 400 == if y % 400 == 0 then 1 else 0
  {
  }

  /** A year adds its own length to the count of days before it. */
  lemma YearStep(y: int)
    requires y >= 1
    ensures DaysBeforeYear(y + 1) == DaysBeforeYear(y) + YearLength(y)
  {
    var p := y - 1;
    var a, b, c := y / 4 - p / 4, y / 100 - p / 100, y / 400 - p / 400;
    DivSteps(y);
    assert y * 365 == p * 365 + 365;
    assert DaysBeforeYear(y + 1) == DaysBeforeYear(y) + 365 + a - b + c;
    if y % 400 == 0 {
      var q := y / 400;
      assert y == 100 * (4 * q);
      assert y == 4 * (100 * q);
    } else if y % 100 == 0 {
      var q := y / 100;
      assert y == 4 * (25 * q);
    }
  }

  lemma {:induction false} DaysBeforeYearGrows(a: int, b: int)
    requires 1 <= a <= b
    ensures DaysBeforeYear(a) + 365 * (b - a) <= DaysBeforeYear(b)
    decreases b - a
  {
    if a < b {
      YearStep(a);
      DaysBeforeYearGrows(a + 1, b);
    }
  }

  /** A valid date's ordinal lies inside its own year. */
  lemma OrdinalInYear(d: Date)
    requires ValidDate(d)
    ensures DaysBeforeYear(d.year) < Ordinal(d) <= DaysBeforeYear(d.year) + YearLength(d.year)
  {
  }

  /** Later dates have larger ordinals, so `Before` and `<` on ordinals agree. */
  lemma OrdinalMonotone(a: Date, b: Date)
    requires ValidDate(a) && ValidDate(b) && Before(a, b)
    ensures Ordinal(a) < Ordinal(b)
  {
    OrdinalInYear(a);
    OrdinalInYear(b);
    if a.year < b.year {
      YearStep(a.year);
      DaysBeforeYearGrows(a.year + 1, b.year);
    }
  }

  /** `(birthday.replace(year=today.year) or the year after) - today` in days,
      as `Record.days_to_birthday` computes it. */
  function DaysToBirthday(birthday: Date, today: Date): Result<int>
    requires ValidDate(today)
  {
    match Replace(birthday, today.year)
    case Err(e) => Err(e)
    case Ok(thisYear) =>
      if Before(today, thisYear) then Ok(Ordinal(thisYear) - Ordinal(today))
      else
        match Replace(thisYear, today.year + 1)
        case Err(e) => Err(e)
        case Ok(nextYear) => Ok(Ordinal(nextYear) - Ordinal(today))
  }

  /** The anniversary of `birthday` in year `y`. */
  function Anniversary(birthday: Date, y: int): Date {
    Date(y, birthday.month, birthday.day)
  }

  /** The countdown is always between 1 and 366 days: "today" is never 0. */
  lemma DaysToBirthdayRange(birthday: Date, today: Date)
    requires ValidDate(today)
    ensures var r := DaysToBirthday(birthday, today); r.Ok? ==> 1 <= r.value <= 366
  {
    var r := DaysToBirthday(birthday, today);
    if r.Ok? {
      var a := Anniversary(birthday, today.year);
      if Before(today, a) {
        CountdownThisYear(a, today);
      } else {
        CountdownNextYear(a, today);
      }
    }
  }

  /** An anniversary later in the current year is at most 365 days away. */
  lemma CountdownThisYear(a: Date, today: Date)
    requires ValidDate(a) && ValidDate(today) && a.year == today.year && Before(today, a)
    ensures 1 <= Ordinal(a) - Ordinal(today) <= 365
  {
    OrdinalMonotone(today, a);
    OrdinalInYear(a);
    OrdinalInYear(today);
  }

  /** When this year's anniversary `a` is not after today, next year's is
      between 1 and 366 days away. */
  lemma CountdownNextYear(a: Date, today: Date)
    requires ValidDate(a) && ValidDate(today) && a.year == today.year && !Before(today, a)
    requires ValidDate(Anniversary(a, a.year + 1))
    ensures var n := Anniversary(a, a.year + 1); 1 <= Ordinal(n) - Ordinal(today) <= 366
  {
    var n := Anniversary(a, a.year + 1);
    assert Before(today, n);
    OrdinalMonotone(today, n);
    YearStep(a.year);
    if a != today {
      OrdinalMonotone(a, today);
    }
    assert DaysBeforeMonth(a.year + 1, a.month) <= DaysBeforeMonth(a.year, a.month) + 1;
    assert IsLeap(a.year) && a.month > 2 ==> DaysBeforeMonth(a.year + 1, a.month) < DaysBeforeMonth(a.year, a.month);
  }

  /** The countdown reaches the next anniversary strictly after today: there is
      a year whose anniversary lies after today, it is the earliest such year,
      and the result is the number of days from today to it. */
  lemma DaysToBirthdayIsNextAnniversary(birthday: Date, today: Date)
    requires ValidDate(today)
    ensures var r := DaysToBirthday(birthday, today);
      r.Ok? ==> exists y ::
        && ValidDate(Anniversary(birthday, y)) && Before(today, Anniversary(birthday, y))
        && r.value == Ordinal(Anniversary(birthday, y)) - Ordinal(today)
        && forall y' :: y' < y && ValidDate(Anniversary(birthday, y')) ==> !Before(today, Anniversary(birthday, y'))
  {
    var r := DaysToBirthday(birthday, today);
    if r.Ok? {
      var y := today.year;
      if Before(today, Anniversary(birthday, y)) {
        assert Anniversary(birthday, y) == Replace(birthday, y).value;
      } else {
        assert Anniversary(birthday, y + 1) == Replace(birthday, y + 1).value;
      }
    }
  }

  /** On the birthday itself the countdown is a whole year, 365 or 366 days:
      the length of the year that contains the coming 29 February, if any. */
  lemma DaysToBirthdayOnBirthday(birthday: Date, today: Date)
    requires ValidDate(today) && ValidDate(birthday)
    requires birthday.month == today.month && birthday.day == today.day
    requires !(birthday.month == 2 && birthday.day == 29) && today.year < MaxYear
    ensures DaysToBirthday(birthday, today)
      == Ok(if today.month <= 2 then YearLength(today.year) else YearLength(today.year + 1))
  {
    var y := today.year;
    assert Replace(birthday, y) == Ok(today);
    assert ValidDate(Anniversary(birthday, y + 1));
    YearStep(y);
  }

  /** When the countdown fails, and that it fails with `ValueError`: only a
      29 February birthday whose next anniversary falls in a common year, or an
      anniversary past the last year `date` can represent. */
  lemma DaysToBirthdayError(birthday: Date, today: Date)
    requires ValidDate(today) && ValidDate(birthday)
    ensures var r := DaysToBirthday(birthday, today);
      && (r.Err? <==>
          || (birthday.month == 2 && birthday.day == 29
              && !(IsLeap(today.year) && Before(today, Anniversary(birthday, today.year))))
          || (today.year == MaxYear && !Before(today, Anniversary(birthday, today.year))))
      && (r.Err? ==> r.error == ValueError)
  {
  }
}
