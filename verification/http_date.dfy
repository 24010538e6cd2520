/** The calendar of fuzz/fuzz_targets/date.rs, whose loops step over whole years and
    months, against the closed-form day count (section 5.6.7 of RFC 9110 spells the
    date it renders). */
module HttpDate {
  import opened Numerals
  import opened Options

  /** The first second past the years of four digits. */
  const YEAR_10000: nat := 253_402_300_800

  /** `month` counts from January, 0, and `weekday` from Thursday, 0. */
  datatype Date = Date(weekday: nat, day: nat, month: nat, year: nat, hour: nat, minute: nat, second: nat)

  // --- The closed form --------------------------------------------------

  predicate Leap(year: nat) {
    year % 4 == 0 && (year % 100 != 0 || year % 400 == 0)
  }

  function YearLength(year: nat): nat {
    if Leap(year) then 366 else 365
  }

  function MonthLength(year: nat, month: nat): nat
    requires month < 12
  {
    if month == 1 then if Leap(year) then 29 else 28
    else if month == 3 || month == 5 || month == 8 || month == 10 then 30
    else 31
  }

  /** The leap years before `year`. */
  function LeapsBefore(year: nat): int
    requires year > 0
  {
    (year - 1) / 4 - (year - 1) / 100 + (year - 1) / 400
  }

  /** The days from the epoch to the first of January of `year`. */
  function DaysBeforeYear(year: nat): int
    requires year >= 1970
  {
    365 * (year - 1970) + LeapsBefore(year) - LeapsBefore(1970)
  }

  /** The days of `year` before the first of `month`, in closed form: from March on
      the months run 31, 30, 31, 30, 31 over and over. */
  function DaysBeforeMonth(year: nat, month: nat): nat
    requires month <= 12
  {
    if month == 0 then 0
    else if month == 1 then 31
    else 59 + (if Leap(year) then 1 else 0) + (153 * (month - 2) + 2) / 5
  }

  ghost predicate Valid(date: Date) {
    && date.year >= 1970 && date.month < 12
    && 1 <= date.day <= MonthLength(date.year, date.month)
    && date.hour < 24 && date.minute < 60 && date.second < 60
    && date.weekday == DaysOf(date) % 7
  }

  /** The days from the epoch to `date`. */
  function DaysOf(date: Date): int
    requires date.year >= 1970 && date.month < 12
  {
    DaysBeforeYear(date.year) + DaysBeforeMonth(date.year, date.month) + date.day - 1
  }

  function SecondsOf(date: Date): int
    requires date.year >= 1970 && date.month < 12
  {
    86_400 * DaysOf(date) + 3_600 * date.hour + 60 * date.minute + date.second
  }

  // --- What the loops step by -------------------------------------------

  lemma {:induction false} QuotientSteps(n: nat, by_: nat)
    requires n > 0 && by_ > 0
    ensures n / by_ - (n - 1) / by_ == if n % by_ == 0 then 1 else 0
  {
    var q, r := (n - 1) / by_, (n - 1) % by_;
    assert n - 1 == by_ * q + r;
    if r + 1 == by_ {
      assert n == by_ * (q + 1);
      DividesExactly(n, by_, q + 1, 0);
    } else {
      DividesExactly(n, by_, q, r + 1);
    }
  }

  lemma {:induction false} DividesExactly(n: nat, by_: nat, q: nat, r: nat)
    requires by_ > 0 && n == by_ * q + r && r < by_
    ensures n / by_ == q && n % by_ == r
  {
    var q', r' := n / by_, n % by_;
    assert n == by_ * q' + r';
    if q < q' {
      TimesRises(by_, q + 1, q');
    } else if q > q' {
      TimesRises(by_, q' + 1, q);
    }
  }

  lemma {:induction false} TimesRises(by_: nat, a: nat, b: nat)
    requires a <= b
    ensures by_ * a <= by_ * b
  {
  }

  lemma {:induction false} YearSteps(year: nat)
    requires year >= 1970
    ensures DaysBeforeYear(year + 1) == DaysBeforeYear(year) + YearLength(year)
  {
    QuotientSteps(year, 4);
    QuotientSteps(year, 100);
    QuotientSteps(year, 400);
    assert year % 400 == 0 ==> year % 100 == 0;
    assert year % 100 == 0 ==> year % 4 == 0;
  }

  lemma {:induction false} MonthSteps(year: nat, month: nat)
    requires month < 12
    ensures DaysBeforeMonth(year, month + 1) == DaysBeforeMonth(year, month) + MonthLength(year, month)
  {
  }

  lemma {:induction false} YearHasItsMonths(year: nat)
    ensures DaysBeforeMonth(year, 12) == YearLength(year)
  {
  }

  // --- The calendar -----------------------------------------------------

  /** `calendar`: the date with that second count, never past December, rendered. */
  method Calendar(seconds: nat) returns (text: string, date: Date)
    ensures Valid(date) && SecondsOf(date) == seconds && text == Format(date)
  {
    hide DaysBeforeYear, DaysBeforeMonth, Format;
    var days: nat, rest: nat := seconds / 86_400, seconds % 86_400;
    Starts();
    ghost var total := days;
    var weekday := days % 7;
    var year := 1970;
    while days >= if Leap(year) then 366 else 365
      invariant year >= 1970 && DaysBeforeYear(year) + days == total
    {
      YearSteps(year);
      days := days - if Leap(year) then 366 else 365;
      year := year + 1;
    }
    var february := if Leap(year) then 29 else 28;
    var lengths := [31, february, 31, 30, 31, 30, 31, 31, 30, 31, 30, 31];
    assert forall k :: 0 <= k < 12 ==> lengths[k] == MonthLength(year, k);
    YearHasItsMonths(year);
    StartsMonth(year);
    var month := 0;
    while month < |lengths|
      invariant month <= 12
      invariant DaysBeforeYear(year) + DaysBeforeMonth(year, month) + days == total
      invariant DaysBeforeMonth(year, month) + days < YearLength(year)
    {
      if days < lengths[month] {
        break;
      }
      MonthSteps(year, month);
      days := days - lengths[month];
      month := month + 1;
    }
    date := Date(weekday, days + 1, month, year, rest / 3600, rest % 3600 / 60, rest % 60);
    TimeOfDay(rest);
    text := Format(date);
  }

  lemma {:induction false} Starts()
    ensures DaysBeforeYear(1970) == 0
  {
  }

  lemma {:induction false} StartsMonth(year: nat)
    ensures DaysBeforeMonth(year, 0) == 0
  {
  }

  lemma {:induction false} TimeOfDay(rest: nat)
    requires rest < 86_400
    ensures 3_600 * (rest / 3600) + 60 * (rest % 3600 / 60) + rest % 60 == rest
    ensures rest / 3600 < 24 && rest % 3600 / 60 < 60 && rest % 60 < 60
  {
    var h, r := rest / 3600, rest % 3600;
    assert rest == 3600 * h + r;
    assert r == 60 * (r / 60) + r % 60;
    DividesExactly(rest, 60, 60 * h + r / 60, r % 60);
  }

  // --- What it means ----------------------------------------------------

  /** Later, field by field. */
  predicate Before(a: Date, b: Date) {
    a.year < b.year || (a.year == b.year &&
    (a.month < b.month || (a.month == b.month &&
    (a.day < b.day || (a.day == b.day &&
    (a.hour < b.hour || (a.hour == b.hour &&
    (a.minute < b.minute || (a.minute == b.minute && a.second < b.second)))))))))
  }

  lemma {:induction false} YearsRise(a: nat, b: nat)
    requires 1970 <= a < b
    ensures DaysBeforeYear(a) + YearLength(a) <= DaysBeforeYear(b)
    decreases b - a
  {
    YearSteps(a);
    if a + 1 < b {
      YearsRise(a + 1, b);
    }
  }

  lemma {:induction false} MonthsRise(year: nat, a: nat, b: nat)
    requires a < b <= 12
    ensures DaysBeforeMonth(year, a) + MonthLength(year, a) <= DaysBeforeMonth(year, b)
    decreases b - a
  {
    MonthSteps(year, a);
    if a + 1 < b {
      MonthsRise(year, a + 1, b);
    }
  }

  lemma {:induction false} DayIsInYear(date: Date)
    requires Valid(date)
    ensures DaysBeforeYear(date.year) <= DaysOf(date) < DaysBeforeYear(date.year) + YearLength(date.year)
  {
    YearHasItsMonths(date.year);
    MonthsRise(date.year, date.month, 12);
  }

  lemma {:induction false} DaysAreOrdered(a: Date, b: Date)
    requires Valid(a) && Valid(b)
    ensures
      (a.year < b.year || (a.year == b.year && (a.month < b.month || (a.month == b.month && a.day < b.day))))
      ==> DaysOf(a) < DaysOf(b)
  {
    if a.year < b.year {
      DayIsInYear(a);
      DayIsInYear(b);
      YearsRise(a.year, b.year);
    } else if a.year == b.year && a.month < b.month {
      MonthsRise(a.year, a.month, b.month);
    }
  }

  /** The order of dates is the order of their second counts. */
  lemma {:induction false} OrderIsKept(a: Date, b: Date)
    requires Valid(a) && Valid(b)
    ensures Before(a, b) <==> SecondsOf(a) < SecondsOf(b)
  {
    DaysAreOrdered(a, b);
    DaysAreOrdered(b, a);
  }

  /** No two dates have one second count, so the calendar yields the only date with
      its own. */
  lemma {:induction false} DatesAreUnique(a: Date, b: Date)
    requires Valid(a) && Valid(b)
    ensures SecondsOf(a) == SecondsOf(b) <==> a == b
  {
    OrderIsKept(a, b);
    OrderIsKept(b, a);
  }

  /** The year has four digits exactly before YEAR_10000. */
  lemma {:induction false} FourDigitYears(date: Date)
    requires Valid(date)
    ensures date.year < 10_000 <==> SecondsOf(date) < YEAR_10000
  {
    DayIsInYear(date);
    assert DaysBeforeYear(10_000) == 2_932_897;
    if date.year < 10_000 {
      YearsRise(date.year, 10_000);
    } else if date.year > 10_000 {
      YearsRise(10_000, date.year);
    }
  }

  // --- The rendered date ------------------------------------------------

  function DayName(weekday: nat): string
    requires weekday < 7
  {
    ["Thu", "Fri", "Sat", "Sun", "Mon", "Tue", "Wed"][weekday]
  }

  function MonthName(month: nat): string
    requires month < 12
  {
    ["Jan", "Feb", "Mar", "Apr", "May", "Jun", "Jul", "Aug", "Sep", "Oct", "Nov", "Dec"][month]
  }

  /** `{:0width}`. */
  function Padded(n: nat, width: nat): string {
    if |Written(n)| >= width then Written(n) else seq(width - |Written(n)|, _ => '0') + Written(n)
  }

  function Format(date: Date): string
    requires date.weekday < 7 && date.month < 12
  {
    DayName(date.weekday) + ", " + Padded(date.day, 2) + " " + MonthName(date.month) + " " + Padded(date.year, 4) + " "
    + Padded(date.hour, 2) + ":" + Padded(date.minute, 2) + ":" + Padded(date.second, 2) + " GMT"
  }

  lemma {:induction false} DigitCount(n: nat, width: nat)
    requires width > 0
    ensures |Written(n)| <= width <==> n < Pow10(width)
  {
    if n >= 10 && width > 1 {
      DigitCount(n / 10, width - 1);
    } else if n >= 10 {
      assert Pow10(1) == 10;
      assert |Written(n / 10)| >= 1;
    } else {
      PowIsLarge(width);
    }
  }

  lemma {:induction false} PowIsLarge(width: nat)
    requires width > 0
    ensures Pow10(width) >= 10
  {
    if width > 1 {
      PowIsLarge(width - 1);
    }
  }

  /** It renders in IMF-fixdate's 29 characters exactly within the four-digit
      years. */
  lemma {:induction false} FixdateLength(date: Date)
    requires Valid(date)
    ensures |Format(date)| == 29 <==> SecondsOf(date) < YEAR_10000
  {
    FourDigitYears(date);
    DigitCount(date.year, 4);
    assert Pow10(4) == 10_000 by { assert Pow10(2) == 100; }
    DigitCount(date.day, 2);
    DigitCount(date.hour, 2);
    DigitCount(date.minute, 2);
    DigitCount(date.second, 2);
    assert Pow10(2) == 100;
    FieldsAreThree(date.weekday, date.month);
  }

  lemma {:induction false} FieldsAreThree(weekday: nat, month: nat)
    requires weekday < 7 && month < 12
    ensures |DayName(weekday)| == 3 && |MonthName(month)| == 3
  {
  }

  // --- The rendered date, read back -------------------------------------

  /** Days from a Thursday, by section 5.6.7 of RFC 9110's names. */
  function DayNumber(name: string): Option<nat> {
    if name == "Mon" then Some(4)
    else if name == "Tue" then Some(5)
    else if name == "Wed" then Some(6)
    else if name == "Thu" then Some(0)
    else if name == "Fri" then Some(1)
    else if name == "Sat" then Some(2)
    else if name == "Sun" then Some(3)
    else None
  }

  function MonthNumber(name: string): Option<nat> {
    if name == "Jan" then Some(0)
    else if name == "Feb" then Some(1)
    else if name == "Mar" then Some(2)
    else if name == "Apr" then Some(3)
    else if name == "May" then Some(4)
    else if name == "Jun" then Some(5)
    else if name == "Jul" then Some(6)
    else if name == "Aug" then Some(7)
    else if name == "Sep" then Some(8)
    else if name == "Oct" then Some(9)
    else if name == "Nov" then Some(10)
    else if name == "Dec" then Some(11)
    else None
  }

  function Number(text: string): nat {
    if Numeral(text) then Decimal(text) else 0
  }

  /** `IMF-fixdate`: each field where its 29 characters have it. */
  function ReadFixdate(text: string): Option<Date> {
    if |text| != 29 || DayNumber(text[..3]) == None || MonthNumber(text[8..11]) == None then None
    else if text[3..5] != ", " || text[7] != ' ' || text[11] != ' ' || text[16] != ' ' then None
    else if text[19] != ':' || text[22] != ':' || text[25..] != " GMT" then None
    else
      Some(Date(
        DayNumber(text[..3]).value, Number(text[5..7]), MonthNumber(text[8..11]).value, Number(text[12..16]),
        Number(text[17..19]), Number(text[20..22]), Number(text[23..25])))
  }

  lemma {:induction false} ZerosAreRead(zeros: string, digits: string)
    requires (forall k :: 0 <= k < |zeros| ==> zeros[k] == '0') && Numeral(digits)
    ensures Numeral(zeros + digits) && Decimal(zeros + digits) == Decimal(digits)
    decreases |digits|
  {
    var text, n := zeros + digits, |digits| - 1;
    assert text[..|text| - 1] == zeros + digits[..n] && text[|text| - 1] == digits[n];
    if n > 0 {
      ZerosAreRead(zeros, digits[..n]);
    } else {
      assert digits[..0] == "";
      OnlyZeros(zeros);
      assert zeros + "" == zeros;
    }
  }

  lemma {:induction false} OnlyZeros(zeros: string)
    requires forall k :: 0 <= k < |zeros| ==> zeros[k] == '0'
    ensures AllDigits(zeros) && Decimal(zeros) == 0
  {
    if zeros != "" {
      OnlyZeros(zeros[..|zeros| - 1]);
    }
  }

  lemma {:induction false} PaddedIsRead(n: nat, width: nat)
    requires width > 0 && n < Pow10(width)
    ensures |Padded(n, width)| == width && Number(Padded(n, width)) == n
  {
    WrittenIsRead(n);
    DigitCount(n, width);
    if |Written(n)| < width {
      ZerosAreRead(seq(width - |Written(n)|, _ => '0'), Written(n));
    }
  }

  lemma {:induction false} NamesAreRead(weekday: nat, month: nat)
    requires weekday < 7 && month < 12
    ensures DayNumber(DayName(weekday)) == Some(weekday) && MonthNumber(MonthName(month)) == Some(month)
  {
  }

  /** Where the parts of a date's 29 characters stand. */
  lemma {:induction false} PartsArePlaced(
      day: string, dayOfMonth: string, month: string, year: string, hour: string, minute: string, second: string)
    requires |day| == |month| == 3 && |year| == 4
    requires |dayOfMonth| == |hour| == |minute| == |second| == 2
    ensures var text := day + ", " + dayOfMonth + " " + month + " " + year + " "
        + hour + ":" + minute + ":" + second + " GMT";
      && |text| == 29 && text[..3] == day && text[3..5] == ", " && text[5..7] == dayOfMonth && text[7] == ' '
      && text[8..11] == month && text[11] == ' ' && text[12..16] == year && text[16] == ' '
      && text[17..19] == hour && text[19] == ':' && text[20..22] == minute && text[22] == ':'
      && text[23..25] == second && text[25..] == " GMT"
  {
  }

  /** Below the bound, what is rendered is read back as the date. */
  lemma {:induction false} FixdateIsRead(date: Date)
    requires Valid(date) && SecondsOf(date) < 253_402_300_800
    ensures ReadFixdate(Format(date)) == Some(date)
  {
    FourDigitYears(date);
    assert Pow10(2) == 100 && Pow10(4) == 10_000 by { assert Pow10(1) == 10 && Pow10(3) == 1_000; }
    PaddedIsRead(date.day, 2);
    PaddedIsRead(date.year, 4);
    PaddedIsRead(date.hour, 2);
    PaddedIsRead(date.minute, 2);
    PaddedIsRead(date.second, 2);
    FieldsAreThree(date.weekday, date.month);
    NamesAreRead(date.weekday, date.month);
    hide Padded, DayName, MonthName, DayNumber, MonthNumber, Number, SecondsOf;
    PartsArePlaced(DayName(date.weekday), Padded(date.day, 2), MonthName(date.month), Padded(date.year, 4),
      Padded(date.hour, 2), Padded(date.minute, 2), Padded(date.second, 2));
  }

  /** The date of section 5.6.7 of RFC 9110's own example, Sun, 06 Nov 1994 08:49:37,
      is that of its second count. */
  lemma {:induction false} ExampleIsASunday(date: Date)
    requires Valid(date) && SecondsOf(date) == 784_111_777
    ensures DayName(date.weekday) == "Sun" && MonthName(date.month) == "Nov"
    ensures date.day == 6 && date.year == 1994 && date.hour == 8 && date.minute == 49 && date.second == 37
  {
    ExampleIsValid();
    hide Valid, SecondsOf;
    DatesAreUnique(date, Date(3, 6, 10, 1994, 8, 49, 37));
  }

  lemma {:induction false} ExampleIsValid()
    ensures var date := Date(3, 6, 10, 1994, 8, 49, 37); Valid(date) && SecondsOf(date) == 784_111_777
  {
    assert DaysBeforeYear(1994) == 8766 && DaysBeforeMonth(1994, 10) == 304;
  }
}
