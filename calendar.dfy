/** Calendar arithmetic used by the reminder engine: the dates of Python's `datetime`
    (proleptic Gregorian calendar, whole days), their day numbers (`date.toordinal()`),
    weekdays (`date.weekday()`, Monday = 0), whole-day shifts (`timedelta(days=k)`),
    calendar-month shifts with day clamping (`relativedelta(months=n)`), and the
    Romanian month and weekday names. */
module Calendar {
  import opened Wrappers

  datatype Date = Date(year: int, month: int, day: int)

  predicate IsLeapYear(y: int) {
    y % 4 == 0 && (y % 100 != 0 || y % 400 == 0)
  }

  function YearLength(y: int): int {
    if IsLeapYear(y) then 366 else 365
  }

  function DaysInMonth(y: int, m: int): (n: int)
    requires 1 <= m <= 12
    ensures 28 <= n <= 31
  {
    if m == 2 then (if IsLeapYear(y) then 29 else 28)
    else if m == 4 || m == 6 || m == 9 || m == 11 then 30
    else 31
  }

  /** A date that Python's `datetime` accepts (the year range 1..9999 is not modelled). */
  predicate ValidDate(d: Date) {
    1 <= d.month <= 12 && 1 <= d.day <= DaysInMonth(d.year, d.month)
  }

  /** `datetime(y, m, d)` and `replace(...)`: ValueError (here None) for a day the month lacks. */
  function MakeDate(y: int, m: int, d: int): (r: Option<Date>)
    ensures r.Some? <==> 1 <= m <= 12 && 1 <= d <= DaysInMonth(y, m)
    ensures r.Some? ==> ValidDate(r.value) && r.value == Date(y, m, d)
  {
    if 1 <= m <= 12 && 1 <= d <= DaysInMonth(y, m) then Some(Date(y, m, d)) else None
  }

  /** `d.replace(year=y)`: keeps month and day, fails on 29 February of a common year. */
  function WithYear(d: Date, y: int): (r: Option<Date>)
    requires ValidDate(d)
    ensures r.Some? <==> !(d.month == 2 && d.day == 29 && !IsLeapYear(y))
    ensures r.Some? ==> r.value == Date(y, d.month, d.day)
  {
    MakeDate(y, d.month, d.day)
  }

  // ---------------------------------------------------------------------------
  // Chronological order. Python compares dates chronologically, which for valid
  // dates is the lexicographic order on (year, month, day).

  predicate Before(a: Date, b: Date) {
    a.year < b.year || (a.year == b.year && (a.month < b.month || (a.month == b.month && a.day < b.day)))
  }

  predicate NotAfter(a: Date, b: Date) {
    Before(a, b) || a == b
  }

  // ---------------------------------------------------------------------------
  // Day numbers: date(1, 1, 1).toordinal() == 1.

  function DaysBeforeYear(y: int): int {
    var p := y - 1;
    365 * p + p / 4 - p / 100 + p / 400
  }

  function DaysBeforeMonth(y: int, m: int): int
    requires 1 <= m <= 12
  {
    var table := [0, 31, 59, 90, 120, 151, 181, 212, 243, 273, 304, 334];
    table[m - 1] + (if m > 2 && IsLeapYear(y) then 1 else 0)
  }

  /** `date.toordinal()`: the days of the years before, then the day of the year. */
  function Ordinal(d: Date): (n: int)
    requires ValidDate(d)
    ensures DaysBeforeYear(d.year) < n <= DaysBeforeYear(d.year) + YearLength(d.year)
  {
    DayOfYearBounds(d);
    DaysBeforeYear(d.year) + DaysBeforeMonth(d.year, d.month) + d.day
  }

  /** `(b - a).days` for two midnight datetimes: zero exactly on the same day,
      positive exactly when b is later. */
  function DaysBetween(a: Date, b: Date): (n: int)
    requires ValidDate(a) && ValidDate(b)
    ensures n == 0 <==> a == b
    ensures n > 0 <==> Before(a, b)
  {
    OrdinalOrder(a, b);
    Ordinal(b) - Ordinal(a)
  }

  /** `date.weekday()`: 0 is Monday, 6 is Sunday. */
  function Weekday(d: Date): (w: int)
    requires ValidDate(d)
    ensures 0 <= w < 7
  {
    WeekdayOf(Ordinal(d))
  }

  /** The weekday of a day number. */
  function WeekdayOf(n: int): int {
    (n + 6) % 7
  }

  predicate IsWeekend(d: Date)
    requires ValidDate(d)
  {
    Weekday(d) >= 5
  }

  lemma DaysBeforeMonthStep(y: int, m: int)
    requires 1 <= m < 12
    ensures DaysBeforeMonth(y, m + 1) == DaysBeforeMonth(y, m) + DaysInMonth(y, m)
  {
  }

  lemma DecemberEndsYear(y: int)
    ensures DaysBeforeMonth(y, 12) + DaysInMonth(y, 12) == YearLength(y)
  {
  }

  lemma DivStep4(x: int)
    ensures (x + 1) / 4 - x / 4 == if (x + 1) % 4 == 0 then 1 else 0
  {
  }

  lemma DivStep100(x: int)
    ensures (x + 1) / 100 - x / 100 == if (x + 1) % 100 == 0 then 1 else 0
  {
  }

  lemma DivStep400(x: int)
    ensures (x + 1) / 400 - x / 400 == if (x + 1) % 400 == 0 then 1 else 0
  {
  }

  lemma CenturiesAreMultiplesOfFour(y: int)
    ensures y % 100 == 0 ==> y % 4 == 0
    ensures y % 400 == 0 ==> y % 100 == 0
  {
  }

  lemma DaysBeforeYearStep(y: int)
    ensures DaysBeforeYear(y + 1) == DaysBeforeYear(y) + YearLength(y)
  {
    var p := y - 1;
    DivStep4(p);
    DivStep100(p);
    DivStep400(p);
    CenturiesAreMultiplesOfFour(y);
  }

  /** Python's date.toordinal() of 1 January 2024, a Monday. */
  lemma OrdinalAnchor()
    ensures Ordinal(Date(2024, 1, 1)) == 738886
    ensures Weekday(Date(2024, 1, 1)) == 0
  {
  }

  // ---------------------------------------------------------------------------
  // Day-by-day steps and timedelta(days=k).

  function NextDay(d: Date): (r: Date)
    requires ValidDate(d)
    ensures ValidDate(r) && Ordinal(r) == Ordinal(d) + 1
  {
    if d.day < DaysInMonth(d.year, d.month) then Date(d.year, d.month, d.day + 1)
    else if d.month < 12 then
      DaysBeforeMonthStep(d.year, d.month);
      Date(d.year, d.month + 1, 1)
    else
      DaysBeforeYearStep(d.year);
      DecemberEndsYear(d.year);
      Date(d.year + 1, 1, 1)
  }

  function PrevDay(d: Date): (r: Date)
    requires ValidDate(d)
    ensures ValidDate(r) && Ordinal(r) == Ordinal(d) - 1
  {
    if d.day > 1 then Date(d.year, d.month, d.day - 1)
    else if d.month > 1 then
      DaysBeforeMonthStep(d.year, d.month - 1);
      Date(d.year, d.month - 1, DaysInMonth(d.year, d.month - 1))
    else
      DaysBeforeYearStep(d.year - 1);
      DecemberEndsYear(d.year - 1);
      Date(d.year - 1, 12, 31)
  }

  /** `d + timedelta(days=k)`: the date whose day number is k more than d's. */
  function AddDays(d: Date, k: int): (r: Date)
    requires ValidDate(d)
    ensures ValidDate(r) && Ordinal(r) == Ordinal(d) + k
    decreases if k < 0 then -k else k
  {
    if k == 0 then d
    else if k > 0 then AddDays(NextDay(d), k - 1)
    else AddDays(PrevDay(d), k + 1)
  }

  // ---------------------------------------------------------------------------
  // Day numbers and chronological order agree.

  lemma DayOfYearBounds(d: Date)
    requires ValidDate(d)
    ensures 1 <= DaysBeforeMonth(d.year, d.month) + d.day <= YearLength(d.year)
  {
  }

  lemma {:induction false} DaysBeforeYearGrows(a: int, b: int)
    requires a < b
    ensures DaysBeforeYear(a) + YearLength(a) <= DaysBeforeYear(b)
    decreases b - a
  {
    DaysBeforeYearStep(a);
    if a + 1 < b {
      DaysBeforeYearGrows(a + 1, b);
    }
  }

  lemma {:induction false} DaysBeforeMonthGrows(y: int, a: int, b: int)
    requires 1 <= a < b <= 12
    ensures DaysBeforeMonth(y, a) + DaysInMonth(y, a) <= DaysBeforeMonth(y, b)
    decreases b - a
  {
    DaysBeforeMonthStep(y, a);
    if a + 1 < b {
      DaysBeforeMonthGrows(y, a + 1, b);
    }
  }

  lemma OrdinalIncreases(a: Date, b: Date)
    requires ValidDate(a) && ValidDate(b) && Before(a, b)
    ensures Ordinal(a) < Ordinal(b)
  {
    DayOfYearBounds(a);
    DayOfYearBounds(b);
    if a.year < b.year {
      DaysBeforeYearGrows(a.year, b.year);
    } else if a.month < b.month {
      DaysBeforeMonthGrows(a.year, a.month, b.month);
    }
  }

  /** Comparing dates chronologically is comparing their day numbers, so the
      `(b - a).days` of the source is positive exactly when a is before b. */
  lemma OrdinalOrder(a: Date, b: Date)
    requires ValidDate(a) && ValidDate(b)
    ensures Before(a, b) <==> Ordinal(a) < Ordinal(b)
    ensures a == b <==> Ordinal(a) == Ordinal(b)
  {
    if Before(a, b) {
      OrdinalIncreases(a, b);
    } else if Before(b, a) {
      OrdinalIncreases(b, a);
    }
  }

  // ---------------------------------------------------------------------------
  // relativedelta(months=n) and relativedelta(years=n).

  function Min(a: int, b: int): int {
    if a <= b then a else b
  }

  /** Months counted from January of year 0. */
  function MonthIndex(d: Date): int {
    d.year * 12 + d.month - 1
  }

  /** `d + relativedelta(months=n)`: move n calendar months, then clamp the day of
      month to the length of the month reached. */
  function AddMonths(d: Date, n: int): (r: Date)
    requires ValidDate(d)
    ensures ValidDate(r)
  {
    var i := MonthIndex(d) + n;
    var y := i / 12;
    var m := i % 12 + 1;
    Date(y, m, Min(d.day, DaysInMonth(y, m)))
  }

  /** Shifting by n months moves the month index by exactly n and keeps the day of
      month unless the month reached is too short, in which case it is that month's end. */
  lemma AddMonthsMoves(d: Date, n: int)
    requires ValidDate(d)
    ensures MonthIndex(AddMonths(d, n)) == MonthIndex(d) + n
    ensures var r := AddMonths(d, n);
      r.day <= d.day && (r.day == d.day || r.day == DaysInMonth(r.year, r.month))
  {
  }

  /** `relativedelta(years=n)` is the same shift as 12 * n months: same month, year + n,
      day clamped (29 February becomes 28 February in a common year). */
  lemma AddYearsKeepsMonth(d: Date, n: int)
    requires ValidDate(d)
    ensures AddMonths(d, 12 * n) == Date(d.year + n, d.month, Min(d.day, DaysInMonth(d.year + n, d.month)))
  {
    var i := MonthIndex(d) + 12 * n;
    assert i == (d.year + n) * 12 + (d.month - 1);
    assert i / 12 == d.year + n && i % 12 == d.month - 1;
  }

  lemma MonthIndexOrder(a: Date, b: Date)
    requires ValidDate(a) && ValidDate(b) && MonthIndex(a) < MonthIndex(b)
    ensures Before(a, b)
  {
  }

  lemma NotAfterMonthIndex(a: Date, b: Date)
    requires ValidDate(a) && ValidDate(b) && NotAfter(a, b)
    ensures MonthIndex(a) <= MonthIndex(b)
  {
  }

  /** A shift by at least one month always lands strictly later. */
  lemma AddMonthsIsLater(d: Date, n: int)
    requires ValidDate(d) && n >= 1
    ensures Before(d, AddMonths(d, n))
  {
    AddMonthsMoves(d, n);
    MonthIndexOrder(d, AddMonths(d, n));
  }

  /** Each step is applied to the running date, so a 31st drifts after a short month:
      two one-month steps from 31 January 2023 reach 28 March, one two-month step 31 March. */
  lemma MonthStepsDrift()
    ensures AddMonths(AddMonths(Date(2023, 1, 31), 1), 1) == Date(2023, 3, 28)
    ensures AddMonths(Date(2023, 1, 31), 2) == Date(2023, 3, 31)
  {
  }

  // ---------------------------------------------------------------------------
  // Names.

  const WeekdayNames: seq<string> := ["Luni", "Marți", "Miercuri", "Joi", "Vineri", "Sâmbătă", "Duminică"]

  const RomanianMonths: seq<string> := ["Ianuarie", "Februarie", "Martie", "Aprilie", "Mai", "Iunie",
    "Iulie", "August", "Septembrie", "Octombrie", "Noiembrie", "Decembrie"]

  const EnglishMonths: seq<string> := ["January", "February", "March", "April", "May", "June",
    "July", "August", "September", "October", "November", "December"]

  /** `get_romanian_weekday(date)`. */
  function WeekdayName(d: Date): (s: string)
    requires ValidDate(d)
    ensures s in WeekdayNames
  {
    WeekdayNames[Weekday(d)]
  }

  /** Consecutive dates have consecutive weekdays, Sunday being followed by Monday,
      and a date k weeks later falls on the same weekday, so it has the same name. */
  lemma WeekdayCycles(d: Date, k: int)
    requires ValidDate(d)
    ensures Weekday(NextDay(d)) == (Weekday(d) + 1) % 7
    ensures Weekday(AddDays(d, 7 * k)) == Weekday(d)
    ensures WeekdayName(AddDays(d, 7 * k)) == WeekdayName(d)
  {
    var o := Ordinal(d);
    assert Ordinal(NextDay(d)) == o + 1;
    assert Ordinal(AddDays(d, 7 * k)) == o + 7 * k;
    WeekdayOfShift(o, k);
  }

  lemma WeekdayOfShift(o: int, k: int)
    ensures WeekdayOf(o + 1) == (WeekdayOf(o) + 1) % 7
    ensures WeekdayOf(o + 7 * k) == WeekdayOf(o)
  {
  }

  /** The first position from k on holding x. */
  function IndexFrom(xs: seq<string>, x: string, k: nat): (r: Option<nat>)
    requires k <= |xs|
    ensures r.Some? ==> k <= r.value < |xs| && xs[r.value] == x && forall j :: k <= j < r.value ==> xs[j] != x
    ensures r.None? ==> forall j :: k <= j < |xs| ==> xs[j] != x
    decreases |xs| - k
  {
    if k == |xs| then None
    else if xs[k] == x then Some(k)
    else IndexFrom(xs, x, k + 1)
  }

  /** `xs.index(x)`: the first position holding x; ValueError (None) when x is absent. */
  function IndexOf(xs: seq<string>, x: string): (r: Option<nat>)
    ensures r.Some? ==> r.value < |xs| && xs[r.value] == x && forall j :: 0 <= j < r.value ==> xs[j] != x
    ensures r.None? <==> x !in xs
  {
    IndexFrom(xs, x, 0)
  }

  /** `LUNI_RO.index(luna) + 1`: the number of a Romanian month name. */
  function MonthNumber(name: string): (r: Option<int>)
    ensures r.Some? ==> 1 <= r.value <= 12 && RomanianMonths[r.value - 1] == name
    ensures r.None? <==> name !in RomanianMonths
  {
    match IndexOf(RomanianMonths, name)
    case None => None
    case Some(i) => Some(i + 1)
  }

  /** `convert_luna(luna)`: an English month name becomes its Romanian name, anything
      else is kept as it is. */
  function ConvertMonthName(name: string): (r: string)
    ensures name !in EnglishMonths ==> r == name
    ensures name in EnglishMonths ==> r in RomanianMonths
  {
    match IndexOf(EnglishMonths, name)
    case None => name
    case Some(i) => RomanianMonths[i]
  }

  /** The month names of either list are told apart by their position. */
  lemma MonthNamesDistinct()
    ensures forall i, j :: 0 <= i < j < 12 ==> RomanianMonths[i] != RomanianMonths[j]
    ensures forall i, j :: 0 <= i < j < 12 ==> EnglishMonths[i] != EnglishMonths[j]
  {
  }

  /** Only "August" is spelled the same in both lists. */
  lemma SharedMonthName(i: int, j: int)
    requires 0 <= i < 12 && 0 <= j < 12 && RomanianMonths[i] == EnglishMonths[j]
    ensures i == 7 && j == 7
  {
  }

  lemma IndexOfDistinct(xs: seq<string>, i: int)
    requires 0 <= i < |xs|
    requires forall a, b :: 0 <= a < b < |xs| ==> xs[a] != xs[b]
    ensures IndexOf(xs, xs[i]) == Some(i)
  {
  }

  /** The English name of month i + 1 becomes its Romanian name. */
  lemma EnglishNameConverts(i: int)
    requires 0 <= i < 12
    ensures ConvertMonthName(EnglishMonths[i]) == RomanianMonths[i]
  {
    MonthNamesDistinct();
    IndexOfDistinct(EnglishMonths, i);
  }

  /** A Romanian name is kept as it is. */
  lemma RomanianNameKept(i: int)
    requires 0 <= i < 12
    ensures ConvertMonthName(RomanianMonths[i]) == RomanianMonths[i]
  {
    match IndexOf(EnglishMonths, RomanianMonths[i])
    case None =>
    case Some(j) =>
      SharedMonthName(i, j);
  }

  /** The Romanian name of month i + 1 has number i + 1. */
  lemma RomanianNameNumber(i: int)
    requires 0 <= i < 12
    ensures MonthNumber(RomanianMonths[i]) == Some(i + 1)
  {
    MonthNamesDistinct();
    IndexOfDistinct(RomanianMonths, i);
  }

  /** Converting a month name keeps the month it names: the English and the Romanian
      name of month i + 1 both become the name whose number is i + 1. */
  lemma ConvertMonthNameKeepsMonth(i: int)
    requires 0 <= i < 12
    ensures MonthNumber(ConvertMonthName(EnglishMonths[i])) == Some(i + 1)
    ensures MonthNumber(ConvertMonthName(RomanianMonths[i])) == Some(i + 1)
  {
    EnglishNameConverts(i);
    RomanianNameKept(i);
    RomanianNameNumber(i);
  }

  /** A name outside the English list is kept as it is, and converting twice changes
      nothing more than converting once. */
  lemma ConvertMonthNameIdempotent(name: string)
    ensures name !in EnglishMonths ==> ConvertMonthName(name) == name
    ensures ConvertMonthName(ConvertMonthName(name)) == ConvertMonthName(name)
  {
    match IndexOf(EnglishMonths, name)
    case None =>
    case Some(i) =>
      match IndexOf(EnglishMonths, RomanianMonths[i])
      case None =>
      case Some(j) =>
        SharedMonthName(i, j);
  }
}
