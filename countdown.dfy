/** The countdown texts of the reminder: `obtine_mesaj_eveniment` (with and without the
    5-day work week), `get_holiday_time_text`, `count_weekend_days`, and the working-day
    figure `max(0, days + 1 - weekend)` that `checkEvents` stores with each event.
    Messages are modelled by which branch produced them and the numbers they show;
    the Romanian wording is not. */
module Countdown {
  import opened Calendar

  // ---------------------------------------------------------------------------
  // Counting days by weekday.

  predicate IsWorkdayNumber(o: int) {
    WeekdayOf(o) < 5
  }

  /** Weekdays (Monday to Friday) among the day numbers o, o + 1, ..., o + n - 1. */
  function WorkdaysFrom(o: int, n: int): (r: int)
    ensures 0 <= r && (n >= 0 ==> r <= n) && (n <= 0 ==> r == 0)
    decreases if n < 0 then 0 else n
  {
    if n <= 0 then 0 else WorkdaysFrom(o, n - 1) + (if IsWorkdayNumber(o + n - 1) then 1 else 0)
  }

  /** Saturdays and Sundays among the day numbers o, o + 1, ..., o + n - 1. */
  function WeekendDaysFrom(o: int, n: int): (r: int)
    ensures 0 <= r && (n >= 0 ==> r <= n) && (n <= 0 ==> r == 0)
    decreases if n < 0 then 0 else n
  {
    if n <= 0 then 0 else WeekendDaysFrom(o, n - 1) + (if IsWorkdayNumber(o + n - 1) then 0 else 1)
  }

  /** Every day is either a weekday or a weekend day. */
  lemma {:induction false} WorkdaysAndWeekendDays(o: int, n: int)
    requires n >= 0
    ensures WorkdaysFrom(o, n) + WeekendDaysFrom(o, n) == n
  {
    if n > 0 {
      WorkdaysAndWeekendDays(o, n - 1);
    }
  }

  /** `count_weekend_days(start, end)`: weekend dates in `pd.date_range(start, end)`,
      both ends included; none when end is before start. */
  function CountWeekendDays(start: Date, end: Date): (r: int)
    requires ValidDate(start) && ValidDate(end)
    ensures 0 <= r
    ensures DaysBetween(start, end) < 0 ==> r == 0
    ensures DaysBetween(start, end) >= 0 ==> r <= DaysBetween(start, end) + 1
  {
    WeekendDaysFrom(Ordinal(start), DaysBetween(start, end) + 1)
  }

  /** The `zile_lucratoare` figure of `checkEvents`: days from today to the event, both
      included, less the weekend days among them when the event counts weekends. */
  function WorkingDaysFigure(today: Date, event: Date, considerWeekends: bool): (r: int)
    requires ValidDate(today) && ValidDate(event)
    ensures 0 <= r
    ensures DaysBetween(today, event) < 0 ==> r == 0
    ensures DaysBetween(today, event) >= 0 ==> r <= DaysBetween(today, event) + 1
    ensures DaysBetween(today, event) >= 0 && !considerWeekends ==> r == DaysBetween(today, event) + 1
  {
    var days := DaysBetween(today, event);
    var weekend := if considerWeekends then CountWeekendDays(today, event) else 0;
    if days + 1 - weekend < 0 then 0 else days + 1 - weekend
  }

  /** The figure stored by `checkEvents` and the count shown by the countdown message
      agree: for an event today or later, it is the number of weekdays in
      [today, event) plus one when the event itself falls on a weekday; for a past
      event it is 0. Without weekends it is the calendar days, both ends included. */
  lemma WorkingDaysFigureCountsWorkdays(today: Date, event: Date, considerWeekends: bool)
    requires ValidDate(today) && ValidDate(event)
    ensures var days := DaysBetween(today, event);
      WorkingDaysFigure(today, event, considerWeekends) ==
        if days < 0 then 0
        else if !considerWeekends then days + 1
        else WorkdaysFrom(Ordinal(today), days) + (if IsWeekend(event) then 0 else 1)
  {
    var days := DaysBetween(today, event);
    var o := Ordinal(today);
    if days >= 0 && considerWeekends {
      var e := Ordinal(event);
      assert CountWeekendDays(today, event) == WeekendDaysFrom(o, days + 1);
      WorkdaysAndWeekendDays(o, days + 1);
      assert o + days == e;
      assert IsWeekend(event) == !IsWorkdayNumber(e);
      WorkdaysStep(o, days);
      assert WorkingDaysFigure(today, event, true) == WorkdaysFrom(o, days + 1);
    }
  }

  /** Counting one more day adds one exactly when that day is a weekday. */
  lemma WorkdaysStep(o: int, n: nat)
    ensures WorkdaysFrom(o, n + 1) == WorkdaysFrom(o, n) + (if IsWorkdayNumber(o + n) then 1 else 0)
  {
  }

  // ---------------------------------------------------------------------------
  // obtine_mesaj_eveniment.

  datatype Countdown =
    | Today(weekendWarning: bool)          // "evenimentul este astăzi" (with the weekend remark)
    | Tomorrow(weekendWarning: bool)       // "evenimentul este mâine" (with the weekend remark)
    | LastWorkingDay                       // "astăzi e ultima zi utilă, ..."
    | TwoWorkingDays                       // "mai sunt două zile utile, astăzi și mâine, ..."
    | WorkingDaysLeft(count: int, withEventDay: bool)  // "mai sunt N zile lucrătoare[, cu tot cu ziua evenimentului]"
    | Yesterday                            // "evenimentul a fost ieri"
    | TwoDaysAgo                           // "evenimentul a fost acum două zile"
    | DaysAgo(count: int)                  // "evenimentul a fost acum N zile"
    | CalendarDaysLeft(count: int)         // "mai sunt N zile calendaristice"

  /** The countdown without the work week: only the distance in days matters. */
  function CalendarCountdown(days: int): (r: Countdown)
    ensures r.Today? <==> days == 0
    ensures r.Tomorrow? <==> days == 1
    ensures r.DaysAgo? ==> r.count == -days >= 3
    ensures r.CalendarDaysLeft? ==> r.count == days >= 2
  {
    if days == 0 then Today(false)
    else if days == 1 then Tomorrow(false)
    else if days < 0 then
      if days == -1 then Yesterday
      else if days == -2 then TwoDaysAgo
      else DaysAgo(-days)
    else CalendarDaysLeft(days)
  }

  /** The work-week branches of `obtine_mesaj_eveniment` as the source writes them, given
      the distance in days, today's weekday, whether the event is on a weekend, and the
      weekdays in [today, event). The Friday and Thursday branches look only at the
      weekdays of today and of the event, not at how far apart they are. */
  function WorkWeekCountdownAsWritten(days: int, todayWeekday: int, eventOnWeekend: bool, workdays: int): (r: Countdown)
    ensures r.Today? <==> days == 0
    ensures r.Tomorrow? <==> days == 1
    ensures r.LastWorkingDay? ==> todayWeekday == 4 && eventOnWeekend && days != 0 && days != 1
    ensures r.TwoWorkingDays? ==> todayWeekday == 3 && eventOnWeekend && days != 0 && days != 1
  {
    if days == 0 then Today(todayWeekday >= 5)
    else if days == 1 then Tomorrow(todayWeekday == 5)
    else if todayWeekday == 4 && eventOnWeekend then LastWorkingDay
    else if todayWeekday == 3 && eventOnWeekend then TwoWorkingDays
    else WorkingDaysLeft(workdays, !eventOnWeekend)
  }

  /** The same branches with the Friday and Thursday messages given only when the event
      is on the weekend directly after today, which is what their wording says. */
  function WorkWeekCountdown(days: int, todayWeekday: int, eventOnWeekend: bool, workdays: int): (r: Countdown)
    ensures r.Today? <==> days == 0
    ensures r.Tomorrow? <==> days == 1
    ensures r.LastWorkingDay? ==> todayWeekday == 4 && eventOnWeekend && days == 2
    ensures r.TwoWorkingDays? ==> todayWeekday == 3 && eventOnWeekend && 2 <= days <= 3
  {
    var comingWeekend := eventOnWeekend && 0 < days <= 6 - todayWeekday;
    if days == 0 then Today(todayWeekday >= 5)
    else if days == 1 then Tomorrow(todayWeekday == 5)
    else if todayWeekday == 4 && comingWeekend then LastWorkingDay
    else if todayWeekday == 3 && comingWeekend then TwoWorkingDays
    else WorkingDaysLeft(workdays, !eventOnWeekend)
  }

  /** `obtine_mesaj_eveniment(today, event, consider_weekend)` as the source writes it. */
  function EventMessageAsWritten(today: Date, event: Date, considerWeekends: bool): (r: Countdown)
    requires ValidDate(today) && ValidDate(event)
    ensures r.Today? <==> today == event
    ensures r.Tomorrow? <==> DaysBetween(today, event) == 1
    ensures r.LastWorkingDay? ==> considerWeekends && Weekday(today) == 4 && IsWeekend(event)
  {
    var days := DaysBetween(today, event);
    if considerWeekends then
      WorkWeekCountdownAsWritten(days, Weekday(today), IsWeekend(event), WorkdaysFrom(Ordinal(today), days))
    else CalendarCountdown(days)
  }

  /** The event falls on the weekend that directly follows today. */
  predicate OnComingWeekend(today: Date, event: Date)
    requires ValidDate(today) && ValidDate(event)
  {
    IsWeekend(event) && 0 < DaysBetween(today, event) <= 6 - Weekday(today)
  }

  /** `obtine_mesaj_eveniment` with the corrected Friday and Thursday branches. */
  function EventMessage(today: Date, event: Date, considerWeekends: bool): (r: Countdown)
    requires ValidDate(today) && ValidDate(event)
    ensures r.Today? <==> today == event
    ensures r.Tomorrow? <==> DaysBetween(today, event) == 1
    ensures r.LastWorkingDay? ==> considerWeekends && Weekday(today) == 4 && OnComingWeekend(today, event)
    ensures r.TwoWorkingDays? ==> considerWeekends && Weekday(today) == 3 && OnComingWeekend(today, event)
  {
    var days := DaysBetween(today, event);
    if considerWeekends then
      WorkWeekCountdown(days, Weekday(today), IsWeekend(event), WorkdaysFrom(Ordinal(today), days))
    else CalendarCountdown(days)
  }

  /** The number of working days a work-week message announces. */
  function AnnouncedWorkdays(c: Countdown): int {
    match c
    case LastWorkingDay => 1
    case TwoWorkingDays => 2
    case WorkingDaysLeft(n, _) => n
    case _ => -1
  }

  /** From a Thursday or a Friday to the coming weekend, the weekdays left are the
      days up to Saturday. */
  lemma WorkdaysOfShortSpan(o: int, days: int)
    requires WeekdayOf(o) == 3 || WeekdayOf(o) == 4
    requires 2 <= days <= 6 - WeekdayOf(o)
    ensures WorkdaysFrom(o, days) == 5 - WeekdayOf(o)
  {
    var w := WeekdayOf(o);
    assert WorkdaysFrom(o, 1) == 1;
    assert WeekdayOf(o + 1) == w + 1;
    assert WeekdayOf(o + 2) == w + 2;
    assert WorkdaysFrom(o, 2) == (if w == 3 then 2 else 1);
    if days >= 3 {
      assert WorkdaysFrom(o, 3) == WorkdaysFrom(o, 2);
    }
  }

  /** With the work week, every message about an event two or more days ahead announces
      exactly the number of weekdays from today up to the event, the event day not
      included; the general branch adds the event day exactly when it is a weekday. */
  lemma EventMessageCountsWorkdays(today: Date, event: Date)
    requires ValidDate(today) && ValidDate(event)
    requires DaysBetween(today, event) >= 2
    ensures AnnouncedWorkdays(EventMessage(today, event, true)) == WorkdaysFrom(Ordinal(today), DaysBetween(today, event))
    ensures EventMessage(today, event, true).WorkingDaysLeft? ==>
      EventMessage(today, event, true).withEventDay == !IsWeekend(event)
  {
    var days := DaysBetween(today, event);
    var w := Weekday(today);
    if IsWeekend(event) && days <= 6 - w && (w == 4 || w == 3) {
      WorkdaysOfShortSpan(Ordinal(today), days);
    }
  }

  /** As written, a Thursday with an event on a Saturday nine days later gets "two working
      days remain, today and tomorrow" although seven weekdays remain before it. */
  lemma EventMessageAsWrittenMiscounts()
    ensures ValidDate(Date(2024, 1, 4)) && ValidDate(Date(2024, 1, 13))
    ensures Weekday(Date(2024, 1, 4)) == 3 && Weekday(Date(2024, 1, 13)) == 5
    ensures EventMessageAsWritten(Date(2024, 1, 4), Date(2024, 1, 13), true) == TwoWorkingDays
    ensures WorkdaysFrom(Ordinal(Date(2024, 1, 4)), DaysBetween(Date(2024, 1, 4), Date(2024, 1, 13))) == 7
    ensures EventMessage(Date(2024, 1, 4), Date(2024, 1, 13), true) == WorkingDaysLeft(7, false)
  {
    var o := Ordinal(Date(2024, 1, 4));
    assert o == 738889;
    assert WorkdaysFrom(o, 1) == 1;
    assert WorkdaysFrom(o, 2) == 2;
    assert WorkdaysFrom(o, 3) == 2;
    assert WorkdaysFrom(o, 4) == 2;
    assert WorkdaysFrom(o, 5) == 3;
    assert WorkdaysFrom(o, 6) == 4;
    assert WorkdaysFrom(o, 7) == 5;
    assert WorkdaysFrom(o, 8) == 6;
    assert WorkdaysFrom(o, 9) == 7;
  }

  /** The two versions differ only in the Friday and Thursday branches, and only for an
      event on a weekend that is not the coming one. */
  lemma WorkWeekCountdownAgreesNearby(days: int, todayWeekday: int, eventOnWeekend: bool, workdays: int)
    ensures (WorkWeekCountdown(days, todayWeekday, eventOnWeekend, workdays)
             != WorkWeekCountdownAsWritten(days, todayWeekday, eventOnWeekend, workdays))
        <==> (days != 0 && days != 1 && (todayWeekday == 3 || todayWeekday == 4) && eventOnWeekend
              && !(0 < days <= 6 - todayWeekday))
  {
  }

  /** A Thursday followed two days later by a Saturday event: two working days remain. */
  lemma ThursdayBeforeSaturday()
    ensures ValidDate(Date(2024, 6, 20)) && ValidDate(Date(2024, 6, 22))
    ensures Weekday(Date(2024, 6, 20)) == 3
    ensures EventMessage(Date(2024, 6, 20), Date(2024, 6, 22), true) == TwoWorkingDays
  {
    assert Ordinal(Date(2024, 6, 20)) == 739057;
    assert Ordinal(Date(2024, 6, 22)) == 739059;
  }

  /** Without the work week the message names the distance: today, tomorrow, yesterday,
      two days ago, or the number of days ahead or ago. */
  lemma CalendarCountdownNamesDistance(days: int)
    ensures var c := CalendarCountdown(days);
      (c == Today(false) <==> days == 0) && (c == Tomorrow(false) <==> days == 1)
      && (c == Yesterday <==> days == -1) && (c == TwoDaysAgo <==> days == -2)
      && (c.DaysAgo? <==> days <= -3) && (c.DaysAgo? ==> c.count == -days)
      && (c.CalendarDaysLeft? <==> days >= 2) && (c.CalendarDaysLeft? ==> c.count == days)
  {
  }

  // ---------------------------------------------------------------------------
  // get_holiday_time_text.

  datatype HolidayWhen =
    | HolidayToday           // "azi"
    | HolidayTomorrow        // "mâine"
    | HolidayInTwoDays       // "peste două zile"
    | HolidayInDays(days: int)  // "peste N zile"

  function HolidayTimeText(days: int): (r: HolidayWhen)
    ensures HolidayDistance(r) == days
  {
    if days == 0 then HolidayToday
    else if days == 1 then HolidayTomorrow
    else if days == 2 then HolidayInTwoDays
    else HolidayInDays(days)
  }

  function HolidayDistance(h: HolidayWhen): int {
    match h
    case HolidayToday => 0
    case HolidayTomorrow => 1
    case HolidayInTwoDays => 2
    case HolidayInDays(n) => n
  }

  /** The holiday text names the distance in days it was given, and for a holiday today or
      tomorrow it says what the plain event countdown says. */
  lemma HolidayTimeTextNamesDistance(days: int)
    ensures HolidayDistance(HolidayTimeText(days)) == days
    ensures HolidayTimeText(days) == HolidayToday <==> CalendarCountdown(days) == Today(false)
    ensures HolidayTimeText(days) == HolidayTomorrow <==> CalendarCountdown(days) == Tomorrow(false)
    ensures days >= 3 ==> HolidayTimeText(days) == HolidayInDays(days) && CalendarCountdown(days) == CalendarDaysLeft(days)
  {
  }
}
