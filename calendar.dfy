/** The calendar arithmetic that the views get from JavaScript's `Date`: local
    calendar dates in the proleptic Gregorian calendar, with months numbered 0..11
    as `Date.getMonth` numbers them, stepping by whole days, the day of the week
    (0 = Sunday, as `Date.getDay`), and the `YYYY-MM-DD` rendering that the
    `en-CA` locale gives (the full-date form of section 5.6 of RFC 3339). */
module Calendar {
  import opened Common

  /** A local calendar date; `month` is 0..11 and `day` is 1-based. */
  datatype Date = Date(year: int, month: int, day: int)

  /** A local date and a time of day in milliseconds since midnight. */
  datatype Instant = Instant(date: Date, millis: int)

  /** The leap-year rule of Appendix C of RFC 3339. */
  predicate IsLeapYear(y: int) {
    y % 4 == 0 && (y % 100 != 0 || y % 400 == 0)
  }

  /** The number of days of month `m` (0 = January) of year `y`. */
  function MonthLength(y: int, m: int): (n: int)
    requires 0 <= m < 12
    ensures 28 <= n <= 31
    ensures n == 31 <==> m in {0, 2, 4, 6, 7, 9, 11}
    ensures n == 30 <==> m in {3, 5, 8, 10}
    ensures m == 1 ==> (n == 29 <==> IsLeapYear(y))
  {
    if m == 1 then (if IsLeapYear(y) then 29 else 28)
    else if m == 3 || m == 5 || m == 8 || m == 10 then 30
    else 31
  }

  function YearLength(y: int): int {
    if IsLeapYear(y) then 366 else 365
  }

  predicate Valid(d: Date) {
    0 <= d.month < 12 && 1 <= d.day <= MonthLength(d.year, d.month)
  }

  /** The date that `setDate(getDate() + 1)` moves to. */
  function NextDay(d: Date): (r: Date)
    requires Valid(d)
    ensures Valid(r)
  {
    if d.day < MonthLength(d.year, d.month) then Date(d.year, d.month, d.day + 1)
    else if d.month < 11 then Date(d.year, d.month + 1, 1)
    else Date(d.year + 1, 0, 1)
  }

  /** The date that `setDate(getDate() - 1)` moves to. */
  function PrevDay(d: Date): (r: Date)
    requires Valid(d)
    ensures Valid(r)
  {
    if d.day > 1 then Date(d.year, d.month, d.day - 1)
    else if d.month > 0 then Date(d.year, d.month - 1, MonthLength(d.year, d.month - 1))
    else Date(d.year - 1, 11, 31)
  }

  lemma NextPrevInverse(d: Date)
    requires Valid(d)
    ensures PrevDay(NextDay(d)) == d && NextDay(PrevDay(d)) == d
  {
  }

  /** `d` moved by `k` whole days (backwards when `k` is negative), as
      `setDate(getDate() + k)` does, crossing month and year ends. */
  function AddDays(d: Date, k: int): (r: Date)
    requires Valid(d)
    ensures Valid(r)
    decreases if k < 0 then -k else k
  {
    if k == 0 then d
    else if k > 0 then AddDays(NextDay(d), k - 1)
    else AddDays(PrevDay(d), k + 1)
  }

  // ---- day numbers ---------------------------------------------------------

  /** Days in the months of year `y` before month `m`. */
  function DaysBeforeMonth(y: int, m: int): int
    requires 0 <= m <= 12
  {
    if m == 0 then 0 else DaysBeforeMonth(y, m - 1) + MonthLength(y, m - 1)
  }

  /** Days from 0001-01-01 to the first day of year `y`: 365 per year plus one per
      leap year of the Appendix C rule (floor division counts them for years
      before 1 as well). */
  function DaysBeforeYear(y: int): int {
    365 * (y - 1) + (y - 1) / 4 - (y - 1) / 100 + (y - 1) / 400
  }

  /** Number of days from 0001-01-01 (day 0) to `d`. */
  function DayNumber(d: Date): int
    requires 0 <= d.month < 12
  {
    DaysBeforeYear(d.year) + DaysBeforeMonth(d.year, d.month) + d.day - 1
  }

  /** The day of the week, 0 = Sunday .. 6 = Saturday (0001-01-01 was a Monday). */
  function Weekday(d: Date): (w: int)
    requires Valid(d)
    ensures 0 <= w < 7
  {
    (DayNumber(d) + 1) % 7
  }

  lemma YearOfMonths(y: int)
    ensures DaysBeforeMonth(y, 12) == YearLength(y)
  {
    assert DaysBeforeMonth(y, 1) == 31;
    assert DaysBeforeMonth(y, 2) == 31 + MonthLength(y, 1);
    assert DaysBeforeMonth(y, 3) == DaysBeforeMonth(y, 2) + 31;
    assert DaysBeforeMonth(y, 4) == DaysBeforeMonth(y, 3) + 30;
    assert DaysBeforeMonth(y, 5) == DaysBeforeMonth(y, 4) + 31;
    assert DaysBeforeMonth(y, 6) == DaysBeforeMonth(y, 5) + 30;
    assert DaysBeforeMonth(y, 7) == DaysBeforeMonth(y, 6) + 31;
    assert DaysBeforeMonth(y, 8) == DaysBeforeMonth(y, 7) + 31;
    assert DaysBeforeMonth(y, 9) == DaysBeforeMonth(y, 8) + 30;
    assert DaysBeforeMonth(y, 10) == DaysBeforeMonth(y, 9) + 31;
    assert DaysBeforeMonth(y, 11) == DaysBeforeMonth(y, 10) + 30;
    assert DaysBeforeMonth(y, 12) == DaysBeforeMonth(y, 11) + 31;
  }

  /** Counting multiples of `k` up to `a + 1` rather than `a` gains one exactly when
      `a + 1` is a multiple. */
  lemma DivStep(a: int, k: int)
    requires k == 4 || k == 100 || k == 400
    ensures (a + 1) / k == a / k + (if (a + 1) % k == 0 then 1 else 0)
  {
    if k == 4 {
      DivStepBy4(a);
    } else if k == 100 {
      DivStepBy100(a);
    } else {
      DivStepBy400(a);
    }
  }

  lemma DivStepBy4(a: int)
    ensures (a + 1) / 4 == a / 4 + (if (a + 1) % 4 == 0 then 1 else 0)
  {
  }

  lemma DivStepBy100(a: int)
    ensures (a + 1) / 100 == a / 100 + (if (a + 1) % 100 == 0 then 1 else 0)
  {
  }

  lemma DivStepBy400(a: int)
    ensures (a + 1) / 400 == a / 400 + (if (a + 1) % 400 == 0 then 1 else 0)
  {
  }

  lemma YearStep(y: int)
    ensures DaysBeforeYear(y + 1) == DaysBeforeYear(y) + YearLength(y)
  {
    var a := y - 1;
    DivStep(a, 4);
    DivStep(a, 100);
    DivStep(a, 400);
    assert DaysBeforeYear(y + 1) - DaysBeforeYear(y) == 365 + (y / 4 - a / 4) - (y / 100 - a / 100) + (y / 400 - a / 400);
    MultipleOf400(y);
    MultipleOf100(y);
  }

  /** Every multiple of 400 is a multiple of 100. */
  lemma MultipleOf400(y: int)
    ensures y % 400 == 0 ==> y % 100 == 0
  {
    if y % 400 == 0 {
      var q := y / 400;
      assert y == 100 * (4 * q) + 0;
    }
  }

  /** Every multiple of 100 is a multiple of 4. */
  lemma MultipleOf100(y: int)
    ensures y % 100 == 0 ==> y % 4 == 0
  {
    if y % 100 == 0 {
      var q := y / 100;
      assert y == 4 * (25 * q) + 0;
    }
  }


  /** Moving one day forward adds one to the day number, across month and year ends. */
  lemma NextDayNumber(d: Date)
    requires Valid(d)
    ensures DayNumber(NextDay(d)) == DayNumber(d) + 1
  {
    if d.day == MonthLength(d.year, d.month) && d.month == 11 {
      YearOfMonths(d.year);
      YearStep(d.year);
    }
  }

  lemma {:induction false} AddDaysNumber(d: Date, k: int)
    requires Valid(d)
    ensures DayNumber(AddDays(d, k)) == DayNumber(d) + k
    decreases if k < 0 then -k else k
  {
    if k > 0 {
      NextDayNumber(d);
      AddDaysNumber(NextDay(d), k - 1);
    } else if k < 0 {
      NextDayNumber(PrevDay(d));
      NextPrevInverse(d);
      AddDaysNumber(PrevDay(d), k + 1);
    }
  }

  /** One more day of offset is one more step forward. */
  lemma {:induction false} AddDaysSucc(d: Date, k: int)
    requires Valid(d)
    ensures AddDays(d, k + 1) == NextDay(AddDays(d, k))
    decreases if k < 0 then -k else k
  {
    if k > 0 {
      AddDaysSucc(NextDay(d), k - 1);
    } else if k == -1 {
      NextPrevInverse(d);
    } else if k < -1 {
      AddDaysSucc(PrevDay(d), k + 1);
    }
  }

  /** Moving by `a` days and then by `b` days is moving by `a + b` days. */
  lemma {:induction false} AddDaysAdd(d: Date, a: int, b: int)
    requires Valid(d)
    ensures AddDays(AddDays(d, a), b) == AddDays(d, a + b)
    decreases if b < 0 then -b else b
  {
    if b > 0 {
      AddDaysSucc(d, a);
      AddDaysAdd(d, a + 1, b - 1);
    } else if b < 0 {
      AddDaysSucc(d, a - 1);
      NextPrevInverse(AddDays(d, a - 1));
      AddDaysAdd(d, a - 1, b + 1);
    }
  }

  /** Moving by `k` days moves the day of the week by `k` (mod 7). */
  lemma WeekdayAddDays(d: Date, k: int)
    requires Valid(d)
    ensures Weekday(AddDays(d, k)) == (Weekday(d) + k) % 7
  {
    AddDaysNumber(d, k);
    ModSeven(DayNumber(d) + 1, k);
  }

  lemma ModSeven(n: int, k: int)
    ensures (n + k) % 7 == (n % 7 + k) % 7
  {
    var q := n / 7;
    assert n + k == 7 * q + (n % 7 + k);
  }

  // ---- YYYY-MM-DD ------------------------------------------------------------

  /** `toLocaleDateString("en-CA")`: the year zero-padded to four digits (a minus
      sign before years below 0), the 1-based month and the day each to two. */
  function IsoDate(d: Date): (s: string)
    requires Valid(d)
    ensures |s| >= 10
  {
    (if d.year < 0 then "-" + Decimal(-d.year, 4) else Decimal(d.year, 4))
    + "-" + Decimal(d.month + 1, 2) + "-" + Decimal(d.day, 2)
  }

  /** The rendering ends in `-MM-DD` and starts with a minus sign exactly for
      years below 0. */
  lemma IsoDateShape(d: Date)
    requires Valid(d)
    ensures var s := IsoDate(d); s[|s| - 6] == '-' && s[|s| - 3] == '-' && (s[0] == '-' <==> d.year < 0)
  {
    DecimalWidth(d.month + 1, 2);
    DecimalWidth(d.day, 2);
    var y := if d.year < 0 then "-" + Decimal(-d.year, 4) else Decimal(d.year, 4);
    assert y[0] == '-' <==> d.year < 0;
    assert IsoDate(d) == y + "-" + Decimal(d.month + 1, 2) + "-" + Decimal(d.day, 2);
  }

  /** The date an RFC 3339 full-date (`date-fullyear "-" date-month "-" date-mday`)
      denotes, or None when the text is not one. */
  function ParseFullDate(s: string): Option<Date> {
    if |s| == 10 && AllDigits(s[0..4]) && s[4] == '-' && AllDigits(s[5..7])
       && s[7] == '-' && AllDigits(s[8..10])
    then
      var d := Date(DigitsValue(s[0..4]), DigitsValue(s[5..7]) - 1, DigitsValue(s[8..10]));
      if Valid(d) then Some(d) else None
    else None
  }

  /** The rendering of a valid date of years 0..9999 is an RFC 3339 full-date that
      reads back as the same date. */
  lemma IsoDateRoundTrip(d: Date)
    requires Valid(d) && 0 <= d.year <= 9999
    ensures ParseFullDate(IsoDate(d)) == Some(d)
  {
    var y, m, dd := Decimal(d.year, 4), Decimal(d.month + 1, 2), Decimal(d.day, 2);
    DecimalWidth(d.year, 4);
    DecimalWidth(d.month + 1, 2);
    DecimalWidth(d.day, 2);
    DecimalValue(d.year, 4);
    DecimalValue(d.month + 1, 2);
    DecimalValue(d.day, 2);
    assert Date(DigitsValue(y), DigitsValue(m) - 1, DigitsValue(dd)) == d;
    ParseOfFields(y, m, dd);
    assert IsoDate(d) == y + "-" + m + "-" + dd;
  }

  /** A full-date made of three digit fields reads as the date those fields
      denote, when that date is valid. */
  lemma ParseOfFields(y: string, m: string, d: string)
    requires |y| == 4 && |m| == 2 && |d| == 2 && AllDigits(y) && AllDigits(m) && AllDigits(d)
    ensures var date := Date(DigitsValue(y), DigitsValue(m) - 1, DigitsValue(d));
      Valid(date) ==> ParseFullDate(y + "-" + m + "-" + d) == Some(date)
  {
    FullDateSlices(y, m, d);
  }

  /** Where the three fields of a full-date sit. */
  lemma FullDateSlices(y: string, m: string, d: string)
    requires |y| == 4 && |m| == 2 && |d| == 2
    ensures var s := y + "-" + m + "-" + d;
      |s| == 10 && s[0..4] == y && s[4] == '-' && s[5..7] == m && s[7] == '-' && s[8..10] == d
  {
  }

  /** Every RFC 3339 full-date is the rendering of the date it denotes. */
  lemma ParseFullDateRoundTrip(s: string)
    requires ParseFullDate(s).Some?
    ensures IsoDate(ParseFullDate(s).value) == s
  {
    DecimalOfDigits(s[0..4]);
    DecimalOfDigits(s[5..7]);
    DecimalOfDigits(s[8..10]);
    assert s == s[0..4] + "-" + s[5..7] + "-" + s[8..10];
  }

  /** Two days of one month render to different strings. */
  lemma IsoDateDistinctDays(y: int, m: int, a: int, b: int)
    requires 0 <= m < 12 && 1 <= a <= MonthLength(y, m) && 1 <= b <= MonthLength(y, m) && a != b
    ensures IsoDate(Date(y, m, a)) != IsoDate(Date(y, m, b))
  {
    DecimalWidth(a, 2);
    DecimalWidth(b, 2);
    DecimalValue(a, 2);
    DecimalValue(b, 2);
    var sa, sb := IsoDate(Date(y, m, a)), IsoDate(Date(y, m, b));
    assert sa[|sa| - 2..] == Decimal(a, 2);
    assert sb[|sb| - 2..] == Decimal(b, 2);
  }
}
