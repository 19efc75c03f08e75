/** Per-record evaluation inside `ReminderApp.checkEvents`: the next occurrence of an
    event, anniversary or holiday, the date its notification starts
    (`calculate_notification_date`), the days remaining, whether it is inside its
    notification window, whether it is red, whether the visibility toggles let it
    through, and whether a done recurring event goes back to "pastreaza". */
module Window {
  import opened Wrappers
  import opened Calendar
  import opened Recurrence
  import opened Countdown

  /** The `stare` values the engine looks at. */
  const Done: string := "indeplinit"
  const Keep: string := "pastreaza"

  /** The three toggles of the settings: `visibility_index == 0` shows done records,
      `service_visibility` shows work events, `show_commemorations` shows holidays. */
  datatype Filters = Filters(showDone: bool, showWork: bool, showHolidays: bool)

  /** A row of informatii.csv as the pass reads it. */
  datatype EventRow = EventRow(
    index: int,                 // the row's pandas index label
    name: string,               // eveniment
    date: Option<Date>,         // data; None for a cell that is not a dd-mm-YYYY date (NaT)
    cycle: Option<string>,      // ciclu; None for an empty cell (NaN)
    state: string,              // stare
    leadDays: int,              // avanszile
    redDays: int,               // rosu
    work: bool,                 // serviciu
    weekend: bool,              // weekend
    notes: string,              // observatii
    notifyFrom: Option<Date>)   // data_notificare, written by the pass

  /** A row of aniversari.csv. */
  datatype AnniversaryRow = AnniversaryRow(
    index: int,
    name: string,               // eveniment
    birth: Option<Date>,        // data; None for an empty cell
    state: string,              // stare
    leadDays: int,              // avanszile
    redDays: int,               // rosu (0 when the column is absent)
    notes: string,              // observatii
    notifyFrom: Option<Date>)   // data_notificare

  /** A row of sarbatori.csv. */
  datatype HolidayRow = HolidayRow(
    index: int,
    name: string,               // eveniment
    day: int,                   // ziua
    month: string,              // luna, a Romanian month name
    kind: string,               // tip
    cross: string,              // sarbatoare_cruce_rosie
    leadDays: int,              // avanszile
    redDays: int,               // rosu
    notes: string,              // observatii
    notifyFrom: Option<Date>)   // data_notificare

  /** The tuples that `checkEvents` collects for display: name, date and days left
      come first in all three, the tag ('event', 'anniversary', 'holiday') says which
      fields follow. */
  datatype Notification = Notification(name: string, date: Date, days: int, red: bool, index: int, notes: string,
                                       kind: NotificationKind)

  datatype NotificationKind =
    | EventKind(workingDays: int, weekendDays: int, considerWeekends: bool, cycle: Option<string>, work: bool)
    | AnniversaryKind(age: int)
    | HolidayKind(holidayType: string, cross: string)

  // ---------------------------------------------------------------------------
  // Shared rules.

  /** `calculate_notification_date(date, avanszile)`: `date - timedelta(days=avanszile)`. */
  function NotificationStart(d: Date, leadDays: int): (r: Date)
    requires ValidDate(d)
    ensures ValidDate(r) && DaysBetween(r, d) == leadDays
  {
    AddDays(d, -leadDays)
  }

  /** The days left of an entry are counted from today to its date. */
  predicate CountsFromToday(x: Notification, today: Date)
    requires ValidDate(today)
  {
    ValidDate(x.date) && x.days == DaysBetween(today, x.date)
  }

  predicate InWindow(days: int, leadDays: int) {
    days <= leadDays
  }

  predicate IsRed(days: int, redDays: int) {
    days <= redDays && redDays > 0
  }

  /** A record is in its window exactly when its notification has started: today is on
      or after the notification start date. */
  lemma InWindowIffStarted(today: Date, d: Date, leadDays: int)
    requires ValidDate(today) && ValidDate(d)
    ensures InWindow(DaysBetween(today, d), leadDays) <==> NotAfter(NotificationStart(d, leadDays), today)
  {
    OrdinalOrder(NotificationStart(d, leadDays), today);
  }

  /** A red threshold of 0 turns red off; otherwise a row turns red on the day exactly
      that many days remain and stays red as the date comes closer. A threshold within
      the window is only ever reached inside it. */
  lemma RedRule(days: int, redDays: int, leadDays: int)
    ensures !IsRed(days, 0)
    ensures IsRed(days, redDays) ==> IsRed(days - 1, redDays)
    ensures redDays > 0 ==> IsRed(redDays, redDays) && !IsRed(redDays + 1, redDays)
    ensures IsRed(days, redDays) && redDays <= leadDays ==> InWindow(days, leadDays)
  {
  }

  // ---------------------------------------------------------------------------
  // Events.

  /** `str(eveniment['ciclu'])`: an empty cell reads as "nan". */
  function CycleText(cell: Option<string>): (r: string)
    ensures CycleTruthy(cell) <==> r != ""
  {
    match cell
    case None => "nan"
    case Some(s) => s
  }

  /** Python truth of the raw `ciclu` cell: NaN is true, the empty text false. */
  predicate CycleTruthy(cell: Option<string>) {
    cell.None? || cell.value != ""
  }

  /** The advance loop of this row comes to rest (always so for a missing date). */
  predicate EventTerminates(e: EventRow, today: Date)
    requires ValidDate(today)
  {
    e.date.Some? && ValidDate(e.date.value) ==> Advance(e.date.value, today, ParseCycle(CycleText(e.cycle))).Landed?
  }

  predicate WellFormedEvent(e: EventRow) {
    e.date.Some? ==> ValidDate(e.date.value)
  }

  /** `adjust_date_custom(eveniment['data'], now, str(eveniment['ciclu']))`; None when
      the date is missing, and then the row is left out of everything below. */
  function NextEventDate(e: EventRow, today: Date): (r: Option<Date>)
    requires ValidDate(today) && WellFormedEvent(e) && EventTerminates(e, today)
    ensures r.Some? <==> e.date.Some?
    ensures r.Some? ==> ValidDate(r.value)
  {
    match e.date
    case None => None
    case Some(d) => Some(Advance(d, today, ParseCycle(CycleText(e.cycle))).date)
  }

  /** The reset test of `checkEvents`: a present date, a truthy cycle cell, state
      "indeplinit", and an advanced date other than the stored one. */
  predicate ShouldReset(e: EventRow, today: Date)
    requires ValidDate(today) && WellFormedEvent(e) && EventTerminates(e, today)
  {
    var next := NextEventDate(e, today);
    next.Some? && CycleTruthy(e.cycle) && e.state == Done && next.value != e.date.value
  }

  predicate EventVisible(e: EventRow, f: Filters) {
    (f.showWork || !e.work) && (f.showDone || e.state != Done)
  }

  /** The tuple the pass appends for an event, if any. The visibility test reads the
      row as it was before a reset in the same pass. */
  function EventEntry(e: EventRow, today: Date, f: Filters): (r: Option<Notification>)
    requires ValidDate(today) && WellFormedEvent(e) && EventTerminates(e, today)
    ensures r.Some? ==> r.value.kind.EventKind? && NextEventDate(e, today) == Some(r.value.date)
    ensures r.Some? ==>
      (InWindow(r.value.days, e.leadDays) && EventVisible(e, f) && r.value.days == DaysBetween(today, r.value.date))
  {
    match NextEventDate(e, today)
    case None => None
    case Some(d) =>
      var days := DaysBetween(today, d);
      if EventVisible(e, f) && InWindow(days, e.leadDays) then
        var weekendDays := if e.weekend then CountWeekendDays(today, d) else 0;
        Some(Notification(e.name, d, days, IsRed(days, e.redDays), e.index, e.notes,
                          EventKind(WorkingDaysFigure(today, d, e.weekend), weekendDays, e.weekend, e.cycle, e.work)))
      else None
  }

  /** The row as the pass leaves it: `stare` reset when the cycle rolled over, and
      `data_notificare` written for every row with a date. The stored date is kept. */
  function EvaluatedEvent(e: EventRow, today: Date): (r: EventRow)
    requires ValidDate(today) && WellFormedEvent(e) && EventTerminates(e, today)
    ensures r.date == e.date && r.cycle == e.cycle && r.leadDays == e.leadDays
  {
    match NextEventDate(e, today)
    case None => e
    case Some(d) =>
      e.(state := if ShouldReset(e, today) then Keep else e.state,
         notifyFrom := Some(NotificationStart(d, e.leadDays)))
  }

  /** The truth test on the cycle cell never decides anything: the date moves only under
      a recurring cycle, whose text is not empty. So the state is reset exactly when the
      row is done and its advanced date differs from the stored one. */
  lemma ResetExactlyWhenRolledOver(e: EventRow, today: Date)
    requires ValidDate(today) && WellFormedEvent(e) && EventTerminates(e, today)
    ensures ShouldReset(e, today) <==>
      e.date.Some? && e.state == Done && NextEventDate(e, today).value != e.date.value
  {
    if e.date.Some? && e.cycle.Some? && e.cycle.value == "" {
      assert ParseCycle(CycleText(e.cycle)) == Once;
    }
  }

  /** The pass never writes the advanced date back, so a done recurring event whose
      stored date is today or earlier is reset on every pass; one whose stored date is
      still ahead keeps its state. */
  lemma ResetWhileStoredDateIsDue(e: EventRow, today: Date, n: int)
    requires ValidDate(today) && WellFormedEvent(e) && e.date.Some?
    requires ParseCycle(CycleText(e.cycle)) == EveryMonths(n) && n >= 1
    requires e.state == Done
    ensures EventTerminates(e, today)
    ensures ShouldReset(e, today) <==> NotAfter(e.date.value, today)
  {
    AdvanceLandsAfterNow(e.date.value, today, n);
  }

  /** A one-off event (no usable cycle) keeps its date, even in the past, and then has
      negative days remaining. */
  lemma OneOffKeepsDate(e: EventRow, today: Date)
    requires ValidDate(today) && WellFormedEvent(e) && e.date.Some?
    requires ParseCycle(CycleText(e.cycle)) == Once
    ensures EventTerminates(e, today)
    ensures NextEventDate(e, today) == e.date
    ensures Before(e.date.value, today) ==> DaysBetween(today, e.date.value) < 0
    ensures !ShouldReset(e, today)
  {
    OrdinalOrder(e.date.value, today);
  }

  /** Evaluating a row that the pass has already written back, on the same day, changes
      nothing more: the pass is idempotent on the table. */
  lemma EvaluatedEventIdempotent(e: EventRow, today: Date)
    requires ValidDate(today) && WellFormedEvent(e) && EventTerminates(e, today)
    ensures WellFormedEvent(EvaluatedEvent(e, today)) && EventTerminates(EvaluatedEvent(e, today), today)
    ensures EvaluatedEvent(EvaluatedEvent(e, today), today) == EvaluatedEvent(e, today)
  {
  }

  /** The visibility test reads the row as it was when the pass began, so a done row
      that is reset is still hidden by "hide done" in that pass and shows on the next
      pass, once its state reads "pastreaza". */
  lemma ResetRowAppearsOnNextPass(e: EventRow, today: Date, f: Filters)
    requires ValidDate(today) && WellFormedEvent(e) && EventTerminates(e, today)
    requires ShouldReset(e, today) && !f.showDone && (f.showWork || !e.work)
    requires InWindow(DaysBetween(today, NextEventDate(e, today).value), e.leadDays)
    ensures EventEntry(e, today, f).None?
    ensures WellFormedEvent(EvaluatedEvent(e, today)) && EventTerminates(EvaluatedEvent(e, today), today)
    ensures EventEntry(EvaluatedEvent(e, today), today, f).Some?
  {
  }

  // ---------------------------------------------------------------------------
  // Anniversaries and holidays: the date moved into this year, or next year when this
  // year's is already past.

  /** `t` is a date of today's year; when it is before today, `t.replace(year=year + 1)`. */
  function ProjectFrom(t: Date, today: Date): (r: Option<Date>)
    requires ValidDate(t) && ValidDate(today) && t.year == today.year
    ensures r.Some? ==> ValidDate(r.value) && r.value.month == t.month && r.value.day == t.day
    ensures r.Some? ==> NotAfter(today, r.value)
    ensures r.Some? ==> r.value.year == (if Before(t, today) then today.year + 1 else today.year)
    ensures r.None? <==> Before(t, today) && t.month == 2 && t.day == 29 && !IsLeapYear(today.year + 1)
  {
    if Before(t, today) then WithYear(t, today.year + 1) else Some(t)
  }

  /** The anniversary of a birth date on or after today (source lines replace the year
      twice); None for a 29 February that the target year lacks. */
  function AnniversaryDate(birth: Date, today: Date): (r: Option<Date>)
    requires ValidDate(birth) && ValidDate(today)
    ensures r.Some? ==> ValidDate(r.value) && r.value.month == birth.month && r.value.day == birth.day
    ensures r.Some? ==> NotAfter(today, r.value) && (r.value.year == today.year || r.value.year == today.year + 1)
    ensures r.Some? && r.value.year == today.year + 1 ==> Before(Date(today.year, birth.month, birth.day), today)
  {
    match WithYear(birth, today.year)
    case None => None
    case Some(t) => ProjectFrom(t, today)
  }

  /** `datetime(now.year, LUNI_RO.index(luna) + 1, ziua)`, moved to next year when past;
      None for an unknown month name or a day the month lacks. */
  function HolidayDate(h: HolidayRow, today: Date): (r: Option<Date>)
    requires ValidDate(today)
    ensures r.Some? ==> ValidDate(r.value) && r.value.day == h.day && MonthNumber(h.month) == Some(r.value.month)
    ensures r.Some? ==> NotAfter(today, r.value) && (r.value.year == today.year || r.value.year == today.year + 1)
    ensures h.month !in RomanianMonths ==> r.None?
  {
    match MonthNumber(h.month)
    case None => None
    case Some(m) =>
      match MakeDate(today.year, m, h.day)
      case None => None
      case Some(t) => ProjectFrom(t, today)
  }

  /** A date later in the same year is at most 365 days away. */
  lemma SameYearDistance(today: Date, r: Date)
    requires ValidDate(today) && ValidDate(r) && r.year == today.year && NotAfter(today, r)
    ensures 0 <= DaysBetween(today, r) <= 365
  {
    OrdinalOrder(today, r);
    DayOfYearBounds(today);
    DayOfYearBounds(r);
  }

  /** A date next year whose month and day are already past this year is at most 366
      days away. */
  lemma NextYearDistance(today: Date, r: Date)
    requires ValidDate(today) && ValidDate(r) && r.year == today.year + 1
    requires Before(Date(today.year, r.month, r.day), today)
    ensures 0 <= DaysBetween(today, r) <= 366
  {
    DaysBeforeYearStep(today.year);
    DayOfYearBounds(today);
    DayOfYearBounds(r);
    if r.month < today.month {
      DaysBeforeMonthGrows(r.year, r.month, today.month);
    }
  }

  /** The projected date is the first date with that month and day that is not before
      today: when it falls next year, this year's date was already past. */
  lemma AnniversaryIsNextOccurrence(birth: Date, today: Date)
    requires ValidDate(birth) && ValidDate(today)
    requires AnniversaryDate(birth, today).Some?
    ensures var r := AnniversaryDate(birth, today).value;
      0 <= DaysBetween(today, r) <= 366
      && forall y :: today.year <= y < r.year ==> Before(Date(y, birth.month, birth.day), today)
  {
    var r := AnniversaryDate(birth, today).value;
    if r.year == today.year {
      SameYearDistance(today, r);
    } else {
      NextYearDistance(today, r);
    }
  }

  /** A 29 February birthday is skipped (ValueError) in a year that has no 29 February. */
  lemma LeapDayBirthdaySkipped(birth: Date, today: Date)
    requires ValidDate(birth) && ValidDate(today)
    requires birth.month == 2 && birth.day == 29 && !IsLeapYear(today.year)
    ensures AnniversaryDate(birth, today).None?
  {
  }

  /** Worked examples: born 15 June 1990, seen on 20 June 2024 the next anniversary is
      15 June 2025, and seen on 10 June 2024 it is 15 June 2024; the holiday of
      1 Ianuarie seen on 1 March 2024 falls on 1 January 2025. */
  lemma ProjectionExamples(h: HolidayRow)
    requires h.day == 1 && h.month == "Ianuarie"
    ensures AnniversaryDate(Date(1990, 6, 15), Date(2024, 6, 20)) == Some(Date(2025, 6, 15))
    ensures AnniversaryDate(Date(1990, 6, 15), Date(2024, 6, 10)) == Some(Date(2024, 6, 15))
    ensures HolidayDate(h, Date(2024, 3, 1)) == Some(Date(2025, 1, 1))
  {
    assert MonthNumber("Ianuarie") == Some(1);
  }

  predicate WellFormedAnniversary(a: AnniversaryRow) {
    a.birth.Some? ==> ValidDate(a.birth.value)
  }

  predicate AnniversaryVisible(a: AnniversaryRow, f: Filters) {
    f.showDone || a.state != Done
  }

  /** The tuple the pass appends for an anniversary, if any. */
  function AnniversaryEntry(a: AnniversaryRow, today: Date, f: Filters): (r: Option<Notification>)
    requires ValidDate(today) && WellFormedAnniversary(a)
    ensures r.Some? ==>
      (r.value.kind.AnniversaryKind? && a.birth.Some? && AnniversaryDate(a.birth.value, today) == Some(r.value.date)
       && r.value.kind.age == r.value.date.year - a.birth.value.year)
    ensures r.Some? ==>
      (InWindow(r.value.days, a.leadDays) && AnniversaryVisible(a, f) && 0 <= r.value.days == DaysBetween(today, r.value.date))
  {
    if a.birth.None? then None
    else match AnniversaryDate(a.birth.value, today)
      case None => None
      case Some(d) =>
        var days := DaysBetween(today, d);
        OrdinalOrder(today, d);
        if AnniversaryVisible(a, f) && InWindow(days, a.leadDays) then
          Some(Notification(a.name, d, days, IsRed(days, a.redDays), a.index, a.notes, AnniversaryKind(d.year - a.birth.value.year)))
        else None
  }

  function EvaluatedAnniversary(a: AnniversaryRow, today: Date): (r: AnniversaryRow)
    requires ValidDate(today) && WellFormedAnniversary(a)
    ensures r.birth == a.birth && r.state == a.state
  {
    if a.birth.None? then a
    else match AnniversaryDate(a.birth.value, today)
      case None => a
      case Some(d) => a.(notifyFrom := Some(NotificationStart(d, a.leadDays)))
  }

  /** The tuple the pass appends for a holiday, if any; holidays have no state filter. */
  function HolidayEntry(h: HolidayRow, today: Date): (r: Option<Notification>)
    requires ValidDate(today)
    ensures r.Some? ==> r.value.kind.HolidayKind? && HolidayDate(h, today) == Some(r.value.date)
    ensures r.Some? ==> InWindow(r.value.days, h.leadDays) && 0 <= r.value.days == DaysBetween(today, r.value.date)
  {
    match HolidayDate(h, today)
    case None => None
    case Some(d) =>
      var days := DaysBetween(today, d);
      OrdinalOrder(today, d);
      if InWindow(days, h.leadDays) then
        Some(Notification(h.name, d, days, IsRed(days, h.redDays), h.index, h.notes, HolidayKind(h.kind, h.cross)))
      else None
  }

  function EvaluatedHoliday(h: HolidayRow, today: Date): (r: HolidayRow)
    requires ValidDate(today)
    ensures r.day == h.day && r.month == h.month
  {
    match HolidayDate(h, today)
    case None => h
    case Some(d) => h.(notifyFrom := Some(NotificationStart(d, h.leadDays)))
  }
}
