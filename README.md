# Reminder engine: a verified model

Reminder.py is a desktop reminder application. It keeps three tables: events (`informatii.csv`),
anniversaries (`aniversari.csv`) and holidays (`sarbatori.csv`). Each time it checks, it does five things:

- It pushes every recurring event forward to its next occurrence. The cycle text is `lunar`, `anual` or
  `la N luni|luna|ani|an`.
- It projects birthdays and holidays into this year, or into next year when the date has already passed.
- It computes for every record:
  - the date its notification window opens;
  - the days left;
  - whether it is inside the window;
  - whether it is "red".
- It resets a done recurring event to `pastreaza` when its cycle has rolled over.
- It merges the three lists and sorts them by date for display.

Countdown messages count calendar days or working days to an event. The table editor inserts, removes,
moves, swaps and pastes rows of a table held as a list of lists.

The project models this engine in Dafny and proves its properties. It has seven modules, one per file:

| file | module | what it holds |
|---|---|---|
| `wrappers.dfy` | `Wrappers` | `Option` and `Result`; the regrouping of sequence concatenation the other modules share |
| `calendar.dfy` | `Calendar` | proleptic Gregorian dates (year, month, day) and Python's day number (`toordinal`); `weekday()`; `timedelta` and `relativedelta` steps, with the day clamped to the month's end; the Romanian and English month names (`LUNI_RO`, `LUNI_EN`, `convert_luna`); `get_romanian_weekday` |
| `recurrence.dfy` | `Recurrence` | `str.split()` and Python `int()` as used on the cycle text; the cycle a text denotes; where the advance loop of `adjust_date_custom` comes to rest (`Advance`); the loop itself as a method (`AdjustDate`) |
| `countdown.dfy` | `Countdown` | `obtine_mesaj_eveniment` as a datatype of branch tags with their counts; `count_weekend_days`; the `zile_lucratoare` figure; `get_holiday_time_text` |
| `window.dfy` | `Window` | the per-record rules of `checkEvents`: next occurrence, notification start, window, red, visibility filters and the reset decision, for events, anniversaries and holidays |
| `notifications.dfy` | `Notifications` | the pass of `checkEvents`: class `Reminder` owns the three tables and runs one loop per table, which rewrites rows in place and collects the entries; the merge; the stable sort by date |
| `table_editor.dfy` | `TableEditor` | class `TableModel` (`CustomTableModel`: rows, headers, `insertRow`, `removeRow`, `moveRow`, `setData`); class `EditorDialog` (`moveRowUp`, `moveRowDown`, `pasteSelection`, `isDataModified`); `getSortKeyForDate` |

The model takes the records as typed values:
- In `informatii.csv`, read with `errors='coerce'`, a date cell that failed to parse is `None` (pandas
  `NaT`). In `aniversari.csv`, `None` stands only for an empty cell.
- An empty cycle cell is `None`. The pass hands `str(NaN)`, that is `"nan"`, to `adjust_date_custom`.

Today's date is a parameter. The display tuples are a `Notification` datatype whose fields follow the tuple
the source appends for each kind of record.

## Model

| member | source | states |
|---|---|---|
| Calendar.MakeDate | Reminder.py:1511 | `datetime(y, m, d)` succeeds exactly when month and day name a real calendar day, and then gives that day |
| Calendar.WithYear | Reminder.py:1469-1471 | `date.replace(year=y)` fails exactly for 29 February moved into a non-leap year; otherwise it keeps month and day |
| Calendar.OrdinalAnchor | Reminder.py:19-21 | 1 January 2024 has Python's day number 738886 and is a Monday (weekday 0) |
| Calendar.NextDay | Reminder.py:75-76 | the next calendar date is a valid date one day number later |
| Calendar.PrevDay | Reminder.py:1608 | the previous calendar date is a valid date one day number earlier |
| Calendar.Ordinal | Reminder.py:1433 | `toordinal()` places a date after every day of the years before it and within its own year's length |
| Calendar.DaysBetween | Reminder.py:1433 | `(b - a).days` is 0 exactly when the dates are equal and positive exactly when b is later |
| Calendar.AddDays | Reminder.py:1608 | `date ± timedelta(days=k)` is a valid date exactly k day numbers away |
| Calendar.OrdinalOrder | Reminder.py:1433 | comparing dates agrees with comparing day numbers: earlier iff smaller number, equal iff equal number |
| Calendar.AddMonths | Reminder.py:1582 | `date + relativedelta(months=n)` is always a valid date (the day is clamped); `Calendar.AddMonthsMoves` says which |
| Calendar.AddMonthsMoves | Reminder.py:1582 | `relativedelta(months=n)` moves the month index by exactly n; the day is kept or clamped to the last day of the target month |
| Calendar.AddYearsKeepsMonth | Reminder.py:1585 | `relativedelta(years=n)` keeps the month, moves the year by n and clamps the day to the month's length |
| Calendar.AddMonthsIsLater | Reminder.py:1581-1582 | a step of at least one month lands strictly later |
| Calendar.MonthStepsDrift | Reminder.py:1581-1582 | stepping 31 January one month twice gives 28 March; two months at once give 31 March |
| Calendar.WeekdayName | Reminder.py:19-21 | the weekday name is one of the seven Romanian names |
| Calendar.Weekday | Reminder.py:19-21 | `date.weekday()` lies in 0..6; `Calendar.OrdinalAnchor` and `Calendar.WeekdayCycles` pin down which day is which |
| Calendar.WeekdayCycles | Reminder.py:19-21 | the next day's weekday is one more modulo 7; a whole number of weeks leaves weekday and name unchanged |
| Calendar.IndexOf | Reminder.py:1510 | `list.index` gives the first position holding the value; `None` (ValueError) exactly when the value is absent |
| Calendar.MonthNumber | Reminder.py:1510 | `LUNI_RO.index(name) + 1` is a month 1..12 naming that month; `None` exactly when the name is not a Romanian month |
| Calendar.MonthNamesDistinct | Reminder.py:63-64 | each month-name list has twelve distinct entries |
| Calendar.ConvertMonthName | Reminder.py:66-69 | `convert_luna` returns a name outside `LUNI_EN` unchanged and turns an English name into a name of `LUNI_RO` |
| Calendar.SharedMonthName | Reminder.py:63-64 | the only name in both lists is "August", at the same position |
| Calendar.EnglishNameConverts | Reminder.py:66-69 | an English month name converts to the Romanian name of the same month |
| Calendar.RomanianNameKept | Reminder.py:66-69 | a Romanian month name is returned unchanged |
| Calendar.ConvertMonthNameKeepsMonth | Reminder.py:66-69 | after conversion, both names of a month give that month's number |
| Calendar.ConvertMonthNameIdempotent | Reminder.py:66-69 | a non-English name passes through; converting twice is converting once |
| Recurrence.Words | Reminder.py:1587 | `str.split()` yields non-empty pieces with no whitespace |
| Recurrence.WordsOfJoin | Reminder.py:1587 | splitting words joined by single spaces gives back exactly those words |
| Recurrence.NatText | Reminder.py:1589 | the decimal text of a natural number is a non-empty string of digits |
| Recurrence.NatTextValue | Reminder.py:1589 | that text is a well-formed digit string whose value is the number |
| Recurrence.ParseInt | Reminder.py:1589 | `int()` on an optional sign and ASCII digits; anything else is the caught ValueError (None); its round trips are the three lemmas below |
| Recurrence.ParseIntText | Reminder.py:1589 | `int(str(n)) == n` for every integer, negative ones included |
| Recurrence.ParseNaturalText | Reminder.py:1589 | `int()` reads back the text of a natural number |
| Recurrence.ParseNegativeText | Reminder.py:1589 | `int()` reads back the text of a negative number |
| Recurrence.IntTextIsWord | Reminder.py:1587-1589 | the text of an integer is a single whitespace-free word |
| Recurrence.WordsOfEvery | Reminder.py:1586-1588 | `"la N unit"` splits into exactly the three words "la", N and unit |
| Recurrence.EveryTextHead | Reminder.py:1567-1586 | `"la N unit"` starts with "la " and is neither empty, `lunar` nor `anual` |
| Recurrence.ParseCycle | Reminder.py:1567-1592 | a text moves the date only when it is `lunar`, `anual`, or starts with "la ", has three words and a count `int()` accepts |
| Recurrence.ParseCycleEvery | Reminder.py:1586-1595 | `la N luni`/`la N luna` steps N months, `la N ani`/`la N an` steps 12·N months, any other unit loops without moving |
| Recurrence.FirstAfter | Reminder.py:1581-1582 | repeated month steps from the base end on a valid date strictly after today |
| Recurrence.Advance | Reminder.py:1565-1600 | where the loop comes to rest is a valid date no earlier than the base, and for any recurring cycle strictly after today |
| Recurrence.AdvanceDivergesWhen | Reminder.py:1580-1595 | the loop never ends exactly when the base is not after today and the unit is unknown or the step is below one month |
| Recurrence.AdvanceOnceKeepsDate | Reminder.py:1567-1597 | every text other than `lunar`, `anual` and a well-formed "la N unit" — the empty text, `nan`, an unknown word, a "la …" text not of three words, a count `int()` refuses — returns the base date unchanged, even a past one |
| Recurrence.AdvanceLandsAfterNow | Reminder.py:1580-1595 | with a step of at least one month the loop ends strictly after today, and a base already after today is returned as is |
| Recurrence.FirstAfterIsFirstIterate | Reminder.py:1581-1595 | the result is the running date after k steps, and every running date before step k is on or before today |
| Recurrence.IterateShift | Reminder.py:1582 | one step followed by j steps is j + 1 steps from the base |
| Recurrence.FirstAfterComposes | Reminder.py:1581-1595 | advancing past t1 and then past a later t2 equals advancing past t2 directly |
| Recurrence.AdvanceComposes | Reminder.py:1565-1600 | the same for any cycle whose loop ends: the advance can be restarted from its own result |
| Recurrence.AdjustDate | Reminder.py:1565-1600 | the loop of `adjust_date_custom` returns the date `Advance` specifies |
| Countdown.WorkdaysFrom | Reminder.py:75-76 | the weekday count over the first n days lies between 0 and n |
| Countdown.WeekendDaysFrom | Reminder.py:1611 | the weekend-day count over the first n days lies between 0 and n |
| Countdown.WorkdaysAndWeekendDays | Reminder.py:75-76 | every day is counted once, either as a weekday or as a weekend day |
| Countdown.WorkdaysStep | Reminder.py:75-76 | one more day adds one to the weekday count exactly when that day is a weekday |
| Countdown.CountWeekendDays | Reminder.py:1610-1613 | the weekend days in `date_range(start, end)` are none when end precedes start, else between 0 and the days in [start, end] |
| Countdown.WorkingDaysFigure | Reminder.py:1439-1440 | `max(0, days + 1 - weekend)` is never negative, is 0 for a past event, at most days + 1, and exactly days + 1 when weekends are not counted |
| Countdown.WorkingDaysFigureCountsWorkdays | Reminder.py:1439-1440 | `max(0, days + 1 - weekend)` is 0 for a past event; otherwise the weekdays in [today, event) plus one when the event is a weekday, or all days both ends included without weekends |
| Countdown.WorkdaysOfShortSpan | Reminder.py:75-91 | from a Thursday or Friday up to the coming weekend, the weekday count is 5 minus today's weekday |
| Countdown.WorkWeekCountdownAsWritten | Reminder.py:78-96 | "today" exactly at 0 days and "tomorrow" exactly at 1; "last working day" only on a Friday and "two working days" only on a Thursday, with a weekend event at any distance |
| Countdown.WorkWeekCountdown | Reminder.py:78-96 | the same, with "last working day" only when the event is two days ahead and "two working days" only two or three days ahead |
| Countdown.CalendarCountdown | Reminder.py:97-110 | "today" exactly at 0 days, "tomorrow" exactly at 1; "N days ago" carries N ≥ 3 and "N calendar days" N ≥ 2 |
| Countdown.EventMessageAsWritten | Reminder.py:71-110 | "today" exactly on the event date, "tomorrow" exactly the day before; "last working day" and "two working days" only with the weekend flag on a Friday or Thursday before a weekend event |
| Countdown.EventMessage | Reminder.py:71-110 | the same, with those two messages only for an event on the weekend directly ahead |
| Countdown.EventMessageCountsWorkdays | Reminder.py:71-96 | for an event two or more days away, the working days the corrected message announces are the weekdays in [today, event); "including the event day" appears exactly when the event is a weekday |
| Countdown.EventMessageAsWrittenMiscounts | Reminder.py:88-91 | as written, a Thursday with an event on the Saturday of the following week announces two working days, where seven remain |
| Countdown.WorkWeekCountdownAgreesNearby | Reminder.py:78-96 | the corrected and the as-written message differ exactly on a Thursday or Friday whose weekend event lies beyond the coming weekend |
| Countdown.ThursdayBeforeSaturday | Reminder.py:90-91 | a Thursday with the event two days later, on Saturday, gives the "two working days" message |
| Countdown.CalendarCountdownNamesDistance | Reminder.py:97-110 | without the weekend flag each branch is taken exactly for its day difference (0, 1, -1, -2, ≤ -3, ≥ 2) and carries that count |
| Countdown.HolidayTimeTextNamesDistance | Reminder.py:1615-1623 | the holiday text names the day difference, and agrees with the event message on today, tomorrow and later days |
| Countdown.HolidayTimeText | Reminder.py:1615-1623 | the holiday text names exactly the day difference it was given |
| Window.NotificationStart | Reminder.py:1602-1608 | the notification start is the valid date exactly `avanszile` days before the occurrence |
| Window.InWindow | Reminder.py:1434 | the window test `days <= avanszile`; `Window.InWindowIffStarted` ties it to the notification start |
| Window.IsRed | Reminder.py:1435 | the red test `days <= rosu and rosu > 0`; `Window.RedRule` states how it behaves |
| Window.InWindowIffStarted | Reminder.py:1430-1434 | the record is in its window (days left ≤ `avanszile`) exactly when its notification start is today or earlier |
| Window.RedRule | Reminder.py:1435 | `rosu = 0` is never red; with `rosu > 0` a record turns red exactly when `rosu` days remain and stays red as the date nears; a red record with `rosu ≤ avanszile` is in the window |
| Window.CycleText | Reminder.py:1419-1421 | `str(ciclu)` is non-empty exactly when the raw cell is true to Python (a missing cell reads as `nan`) |
| Window.NextEventDate | Reminder.py:1419-1428 | an event has a next occurrence exactly when its stored date parsed, and it is a valid date |
| Window.ShouldReset | Reminder.py:1421 | the reset test; `Window.ResetExactlyWhenRolledOver` reduces it to a done row whose advanced date moved |
| Window.EventVisible | Reminder.py:1437 | the `serviciu` and `stare` filters on an event row; `Notifications.EventShown` shows it decides the display |
| Window.EventEntry | Reminder.py:1428-1454 | an event tuple exists only for a visible event inside its window; it carries the advanced date and the days from today to it; the converse is `Notifications.EventOnDate` |
| Window.EvaluatedEvent | Reminder.py:1421-1431 | the pass keeps an event's stored date, cycle and lead days |
| Window.ResetExactlyWhenRolledOver | Reminder.py:1421-1424 | an event goes back to `pastreaza` exactly when it has a date, is `indeplinit`, and its advanced date differs from the stored one |
| Window.ResetWhileStoredDateIsDue | Reminder.py:1419-1424 | a done recurring event is reset exactly when its stored date is today or earlier, on every pass, since the stored date is never advanced |
| Window.OneOffKeepsDate | Reminder.py:1567-1568 | a one-off event keeps its date, a past one counts negative days, and it is never reset |
| Window.EvaluatedEventIdempotent | Reminder.py:1421-1431 | evaluating an evaluated event again changes nothing |
| Window.ResetRowAppearsOnNextPass | Reminder.py:1421-1437 | the filter reads the row before the reset: with done records hidden, a reset event is not shown in this pass and is shown in the next |
| Window.ProjectFrom | Reminder.py:1469-1471 | the projection keeps month and day, is today or later, moves to next year exactly when the date has passed, and fails exactly for 29 February into a non-leap year |
| Window.AnniversaryDate | Reminder.py:1468-1471 | the next birthday keeps month and day, is today or later, in this year or the next, and next year only when this year's has passed |
| Window.HolidayDate | Reminder.py:1510-1513 | the next holiday keeps the day and the named month, is today or later, in this year or the next; an unknown month name gives no date |
| Window.AnniversaryIsNextOccurrence | Reminder.py:1468-1471 | the projected birthday is 0..366 days away and no earlier year's birthday is still ahead |
| Window.LeapDayBirthdaySkipped | Reminder.py:1469-1496 | a 29 February birthday raises, and so is skipped, in a year without 29 February |
| Window.ProjectionExamples | Reminder.py:1468-1513 | a past birthday moves to next year, a coming one stays; 1 Ianuarie seen from March is next year's |
| Window.AnniversaryVisible | Reminder.py:1480 | the `stare` filter on an anniversary row; `Notifications.AnniversaryOnDate` shows it decides the tuple |
| Window.AnniversaryEntry | Reminder.py:1474-1493 | an anniversary tuple exists only when the record is visible and in its window; it carries the projected date, days 0.. from today, and the age reached |
| Window.EvaluatedAnniversary | Reminder.py:1474-1475 | the pass keeps the birth date and the state |
| Window.HolidayEntry | Reminder.py:1516-1534 | a holiday tuple carries the projected date and the days from today to it, and exists only inside the window |
| Window.EvaluatedHoliday | Reminder.py:1516-1517 | the pass keeps the holiday's day and month |
| Notifications.SortByDate | Reminder.py:1546 | insertion of each entry after those on or before its date; `Notifications.SortByDateFacts` and `Notifications.StableSortIsSortByDate` state what it gives |
| Notifications.SortByDateFacts | Reminder.py:1546 | the sort gives a list ordered by date that is a permutation of its input and keeps the order of entries on the same date |
| Notifications.StableSortUnique | Reminder.py:1546 | two date-ordered lists with the same entries in the same order on every date are equal |
| Notifications.StableSortIsSortByDate | Reminder.py:1546 | any stable sort by date gives exactly the model's sort: Python's `list.sort(key=date)` is pinned down |
| Notifications.EventOptionsAt | Reminder.py:1417-1454 | row i of the event table yields exactly that row's event tuple or none |
| Notifications.AnniversaryOptionsAt | Reminder.py:1466-1493 | the same for the anniversary table |
| Notifications.HolidayOptionsAt | Reminder.py:1508-1534 | the same for the holiday table |
| Notifications.EventEntriesMembers | Reminder.py:1417-1454 | an entry is in the event list exactly when some event row yields it |
| Notifications.AnniversaryEntriesMembers | Reminder.py:1466-1493 | an entry is in the anniversary list exactly when some anniversary row yields it |
| Notifications.HolidayEntriesMembers | Reminder.py:1508-1534 | an entry is in the holiday list exactly when some holiday row yields it |
| Notifications.Notifications | Reminder.py:1545-1546 | holidays, events and anniversaries concatenated, then sorted by date; `Notifications.NotificationsOrder` and `Notifications.NotificationsMembers` state the result |
| Notifications.NotificationsOrder | Reminder.py:1545-1546 | the displayed list is sorted by date and is a permutation of holidays + events + anniversaries; on one date, holidays come first, then events, then anniversaries, each in table order |
| Notifications.NotificationsMembers | Reminder.py:1503-1545 | an entry is displayed exactly when a row of one of the three tables yields it; holidays only when they are switched on |
| Notifications.NotificationsCountFromToday | Reminder.py:1433-1519 | every displayed entry's days left is the distance from today to its date |
| Notifications.EventScanAsWritten | Reminder.py:1417-1456 | the as-written scan rewrites one row per table row |
| Notifications.CheckEventsAsWritten | Reminder.py:1417-1459 | the pass as written; `Notifications.ResetFailsPassAsWritten` states when it fails and what it shows otherwise |
| Notifications.EventScanAsWrittenFacts | Reminder.py:1421-1426 | as written, the date column is turned into text exactly when some row is reset; with no reset the entries are the model's |
| Notifications.ResetFailsPassAsWritten | Reminder.py:1425-1459 | as written, a pass with any reset ends in the outer exception handler, and any other pass shows the model's list |
| Notifications.ResetFailsPassExample | Reminder.py:1419-1459 | a done `lunar` event dated a month ago makes the as-written pass fail |
| Notifications.EvaluatedEventsAt | Reminder.py:1421-1431 | row i of the rewritten event table is row i evaluated |
| Notifications.EvaluatedAnniversariesAt | Reminder.py:1474-1475 | row i of the rewritten anniversary table is row i evaluated |
| Notifications.EvaluatedHolidaysAt | Reminder.py:1516-1517 | row i of the rewritten holiday table is row i evaluated |
| Notifications.AnniversaryOnDate | Reminder.py:1468-1493 | with a projected birthday, the row gets its notification start and the tuple is exactly name, date, days, red, index, notes and age, when visible and in the window |
| Notifications.HolidaySkipped | Reminder.py:1510-1538 | a holiday whose date raises is left unchanged and yields nothing |
| Notifications.HolidayOnDate | Reminder.py:1510-1534 | with a projected date, the row gets its notification start and the tuple is exactly name, date, days, red, index, notes, type and cross, when in the window |
| Notifications.EventOnDate | Reminder.py:1419-1454 | with an advanced date, the row gets its notification start and its state reset exactly under the reset test, and the tuple is exactly name, date, days, red, index, notes, working-day figure, weekend-day count, weekend flag, cycle and `serviciu`, when visible and in the window |
| Notifications.EventShown | Reminder.py:1428-1546 | a visible event row whose advanced date is inside its window yields a tuple, and that tuple is displayed |
| Notifications.EvaluateEvent | Reminder.py:1418-1456 | the body of the event loop gives the evaluated row and the event tuple |
| Notifications.EvaluateAnniversary | Reminder.py:1467-1496 | the body of the anniversary loop gives the evaluated row and the anniversary tuple |
| Notifications.EvaluateHoliday | Reminder.py:1509-1538 | the body of the holiday loop gives the evaluated row and the holiday tuple |
| Notifications.Reminder.ProcessEvents | Reminder.py:1417-1460 | the loop collects every event row's tuple in table order, rewrites the event table row by row, and leaves the other tables alone |
| Notifications.Reminder.ProcessAnniversaries | Reminder.py:1466-1500 | the same for the anniversary table |
| Notifications.Reminder.ProcessHolidays | Reminder.py:1508-1541 | the same for the holiday table |
| Notifications.Reminder.CheckEvents | Reminder.py:1398-1555 | a pass shows the merged, sorted list and leaves every table evaluated; the holiday table is touched only when holidays are shown |
| TableEditor.InsertionPoint | Reminder.py:219 | `list.insert` puts the item at a position clamped into the list |
| TableEditor.ItemIndex | Reminder.py:225-231 | `del s[p]` and `s.pop(p)` name an item exactly when -len ≤ p < len, counting negative positions from the end |
| TableEditor.InsertAt | Reminder.py:219 | inserting puts the item at its position and shifts the later items by one |
| TableEditor.RemoveAt | Reminder.py:225 | removing drops the item and shifts the later items back by one |
| TableEditor.InsertRemoveRoundTrip | Reminder.py:219-225 | removing what was just inserted gives the list back, and so does putting back what was just removed |
| TableEditor.InsertAtMultiset | Reminder.py:219 | inserting adds exactly that row to the rows |
| TableEditor.RemoveAtMultiset | Reminder.py:225 | removing takes exactly that row away |
| TableEditor.MoveAt | Reminder.py:229-234 | `pop` then `insert` keeps the length and puts the row at the clamped destination |
| TableEditor.MoveAtFacts | Reminder.py:229-234 | moving a row keeps the rows, puts it at the destination, and moving it back restores the table |
| TableEditor.TableModel.constructor | Reminder.py:113-125 | the model holds the rows and headers it is given |
| TableEditor.TableModel.InsertRow | Reminder.py:216-221 | a blank row of the table's width is inserted at the clamped position |
| TableEditor.TableModel.RemoveRow | Reminder.py:223-227 | the row is removed when the position names one; otherwise IndexError and nothing changes |
| TableEditor.TableModel.MoveRow | Reminder.py:229-234 | the row is popped and reinserted at the destination when the source names one; otherwise IndexError and nothing changes |
| TableEditor.TableModel.SetData | Reminder.py:146-151 | exactly one cell changes, to the new value |
| TableEditor.Reverse | Reminder.py:761 | `reverse=True` gives the same items in the opposite order |
| TableEditor.AddRowFacts | Reminder.py:746 | adding a row number to a sorted set keeps it strictly increasing and adds just that number |
| TableEditor.AscendingRowsFacts | Reminder.py:746 | `sorted(set(rows))` is strictly increasing and holds exactly the selected rows |
| TableEditor.AscendingRowsOfIncreasing | Reminder.py:746 | an already increasing selection is its own sorted set |
| TableEditor.DescendingRowsFacts | Reminder.py:761 | `sorted(set(rows), reverse=True)` is strictly decreasing and holds exactly the selected rows |
| TableEditor.Swap | Reminder.py:751 | a tuple swap exchanges two rows and touches no other |
| TableEditor.SwapFacts | Reminder.py:751 | a swap is a permutation and undoes itself |
| TableEditor.SwapUps | Reminder.py:750-751 | the upward swaps keep the number of rows; the lemmas below state where each row lands |
| TableEditor.SwapUpsMultiset | Reminder.py:750-751 | the upward swaps only permute rows |
| TableEditor.SwapUpsLanding | Reminder.py:750-751 | each selected row ends one place higher |
| TableEditor.SwapUpsUntouched | Reminder.py:750-751 | a row neither selected nor directly above a selected row stays put |
| TableEditor.SwapDowns | Reminder.py:765-766 | the downward swaps keep the number of rows; the lemmas below state where each row lands |
| TableEditor.SwapDownsMultiset | Reminder.py:765-766 | the downward swaps only permute rows |
| TableEditor.SwapDownsLanding | Reminder.py:765-766 | each selected row ends one place lower |
| TableEditor.SwapDownsUntouched | Reminder.py:765-766 | a row neither selected nor directly below a selected row stays put |
| TableEditor.SwapDownsUndoSwapUps | Reminder.py:745-766 | moving rows up and then moving their new positions down, in reverse order, restores the table |
| TableEditor.MovedUp | Reminder.py:745-751 | `moveRowUp` keeps the number of rows and changes nothing when no row or the first row is selected |
| TableEditor.MovedDown | Reminder.py:760-766 | `moveRowDown`, with the guard on the highest selected row, keeps the number of rows and changes nothing when no row or the last row is selected |
| TableEditor.MovedDownAsWritten | Reminder.py:760-766 | `moveRowDown` as written; `TableEditor.MoveDownGuardMissesLastRow` exhibits the IndexError |
| TableEditor.MovedUpFacts | Reminder.py:745-751 | `moveRowUp` permutes the rows, lifts each selected row by one and leaves unrelated rows alone |
| TableEditor.MovedDownFacts | Reminder.py:760-766 | `moveRowDown` permutes the rows, lowers each selected row by one and leaves unrelated rows alone |
| TableEditor.MoveUpThenDownRestores | Reminder.py:745-766 | moving a selection up and then down restores the table |
| TableEditor.MovedDownStopsAtLastRow | Reminder.py:762 | the corrected guard leaves the table unchanged when the last row is selected |
| TableEditor.MoveDownGuardMissesLastRow | Reminder.py:760-766 | as written, selecting rows 2 and 4 of five raises IndexError; the corrected guard does nothing |
| TableEditor.EditorDialog.constructor | Reminder.py:428 | the dialog remembers a copy of the rows it opened with |
| TableEditor.EditorDialog.IsDataModified | Reminder.py:718-725 | the data counts as modified exactly when the rows differ from the copy taken at opening |
| TableEditor.EditorDialog.MoveRowsUp | Reminder.py:745-751 | the rows become the model's `moveRowUp` of the sorted selection; headers and width are kept |
| TableEditor.EditorDialog.SwapRowsUp | Reminder.py:750-751 | the swap loop performs exactly the upward swaps of its rows |
| TableEditor.EditorDialog.MoveRowsDown | Reminder.py:760-766 | the rows become the model's `moveRowDown` of the reverse-sorted selection, with the corrected guard |
| TableEditor.EditorDialog.SwapRowsDown | Reminder.py:765-766 | the swap loop performs exactly the downward swaps of its rows |
| TableEditor.SplitOn | Reminder.py:811-812 | `str.split(sep)` gives at least one piece |
| TableEditor.JoinSplit | Reminder.py:811-812 | joining the pieces of a split gives the text back, and no piece holds the separator |
| TableEditor.SplitPiecesFree | Reminder.py:811-812 | no piece of a split holds the separator |
| TableEditor.SplitJoin | Reminder.py:800-812 | splitting separator-free pieces joined by the separator gives the pieces back |
| TableEditor.ClipboardGrid | Reminder.py:810-812 | the clipboard grid has one line per newline-separated piece |
| TableEditor.ClipboardGridOfCopy | Reminder.py:786-812 | cells copied as tab- and newline-separated text paste back as the same grid |
| TableEditor.Pasted | Reminder.py:805-820 | pasting keeps the number of rows and the length of each row |
| TableEditor.PastedCell | Reminder.py:814-820 | the cell after a paste: the clipboard cell that lands on it, else the old text; `TableEditor.PastedClips` states the clipping |
| TableEditor.PastedCellStep | Reminder.py:814-820 | pasting one more clipboard line changes exactly the cells that line lands on |
| TableEditor.PastedClips | Reminder.py:816-820 | a clipboard cell inside the table is written; cells past the last row or column are dropped; no other cell changes |
| TableEditor.EditorDialog.PasteSelection | Reminder.py:805-820 | with a selection, the rows become the paste of the clipboard grid at the first selected cell, clipped to the table; without one nothing changes |
| TableEditor.EditorDialog.PasteLine | Reminder.py:815-820 | one clipboard line overwrites the cells it lands on in its row and no other cell |
| TableEditor.ParseDateText | Reminder.py:206 | `strptime(t, '%d-%m-%Y')` success gives a valid date in years 1..9999 |
| TableEditor.DayField | Reminder.py:206 | `%d` accepts one or two digits (or a space and a digit) naming 1..31 |
| TableEditor.MonthField | Reminder.py:206 | `%m` accepts one or two digits naming 1..12 |
| TableEditor.YearField | Reminder.py:206 | `%Y` accepts four digits, a value in 0..9999 (year 0 is then refused by the date check) |
| TableEditor.DateText | Reminder.py:1425 | `strftime('%d-%m-%Y')` writes ten characters with dashes at positions 2 and 5; `TableEditor.ParseDateTextRoundTrip` reads it back |
| TableEditor.ParseDateTextRoundTrip | Reminder.py:206 | parsing the `dd-mm-YYYY` text of a date gives the date back |
| TableEditor.SortKeyForDate | Reminder.py:204-209 | a parsable date gives (month, day, year) naming a real day; anything else gives (13, 32, 9999) |
| TableEditor.SortKeyOrder | Reminder.py:204-209 | every parsable date sorts before every unparsable text; parsable dates sort by month and day, then by year |
| TableEditor.SortKeyOfDateText | Reminder.py:204-209 | the key of a date's text is (month, day, year) |

## Left out

- File I/O is not modelled: reading and writing the three CSV files with pandas, the column coercion on load,
  and `to_csv` after each loop. The tables are typed values held by `Notifications.Reminder`.
- The clock is not modelled. `datetime.now()` at midnight is the `today` parameter.
- The Qt user interface is not modelled: widgets, dialogs, the selection re-highlighting after a move, the
  notification panel, prints and the error log.
- Message wording is not modelled. Messages are branch tags with their counts, and no string formatting is
  stated.
- Each table's pre-sort before its loop is not modelled: by `data` (Reminder.py:1415, 1464) and by
  `luna`/`ziua` (Reminder.py:1506). The model processes the rows in the order it is given. Passing the
  pre-sorted table gives the source's behaviour, because the final stable sort decides same-date order
  through table order.
- Notifications.Reminder.ProcessEvents: the in-loop rewrite of the whole `data` column and the file after a
  reset (Reminder.py:1425-1426) is not part of the corrected pass. It is modelled only as written, in
  `Notifications.EventScanAsWritten` and `Notifications.CheckEventsAsWritten` (see Findings).
- Recurrence.AdjustDate: requires that the loop comes to rest. With an unknown unit, or N = 0, and a base not
  after today, the source loops forever. `Recurrence.AdvanceDivergesWhen` characterises those inputs.
- Recurrence.AdjustDate: with negative N the source steps backwards until pandas' date range is exceeded, then
  returns the running date from its exception handler. The model treats a step below one month as
  non-advancing and excludes it.
- Calendar.AddMonths: years outside 1..9999 and pandas `Timestamp` bounds are not modelled. Dates are
  unbounded proleptic Gregorian dates.
- Recurrence.ParseInt: only ASCII digits are read. Python's `int()` also accepts other Unicode decimal
  digits.
- Recurrence.ParseInt: surrounding whitespace is not accepted. It cannot occur after `str.split()`.
- Notifications.Reminder.ProcessAnniversaries: an unreadable birth date is not modelled. `aniversari.csv` is
  read without `errors='coerce'` (Reminder.py:1463), so one such cell leaves the whole `data` column as text.
  Every row then raises at `.replace(year=...)`, the `.dt.strftime` at Reminder.py:1499 raises, and the
  whole pass ends in the outer handler with nothing shown. The model skips only rows with an empty cell.
- TableEditor.EditorDialog.IsDataModified: cells are modelled as text. In the source, number cells
  (`avanszile`, `rosu`, `ziua`) stay numbers after the editor's load (Reminder.py:385-394), and edits store
  text (Reminder.py:258-259, 820). So a number cell retyped with the same digits counts as modified in the
  source (`7 != '7'`), and not in the model.
- TableEditor.ParseDateText: only ASCII digits are read. Python's `strptime` (`\d` in its patterns) and
  `int()` also accept other Unicode decimal digits, so such a text parses in the source and not in the model.
- A cycle cell holding a non-string value other than NaN is not modelled separately. The `isinstance` test of
  Reminder.py:1567 sees only `str(...)` of the cell, which is always a string.
- The table view's header sort is not modelled: `CustomTableModel.sort` and `getSortKey`
  (Reminder.py:161-202). It relies on float parsing and mixed-type tuple ordering.
- `sortChronologically` (Reminder.py:727-743) is not modelled, beyond `TableEditor.SortKeyForDate` and its
  ordering lemma.
- `deleteRow` (Reminder.py:619-636) is not modelled. It is outside the table editor's core row operations.
- copySelection (Reminder.py:786-803) is modelled only through the text it produces:
  `TableEditor.ClipboardGridOfCopy` shows that its output pastes back cell for cell. Reading cells through
  `model.data` and `str()` is not modelled.
- TableEditor.EditorDialog.PasteSelection: selected indexes are taken as (row, column) pairs in selection
  order. The model does not check that the first one is the top-left cell, because the source does not check
  it either.
- Calendar.WeekdayName: names are compared as code-point strings. No Unicode normalisation is modelled.

## Findings

| source | as written | input that shows it | evidently intended | confidence | as-written member | corrected member |
|---|---|---|---|---|---|---|
| Reminder.py:88-91 | with the weekend flag, a Friday or Thursday whose event falls on any weekend announces "last working day" or "two working days", however far away the event is | today Thursday 2024-01-04, event Saturday 2024-01-13: "two working days", where seven weekdays remain | those two branches apply only to the weekend directly ahead; other events fall through to the weekday count | not executed | Countdown.EventMessageAsWrittenMiscounts | Countdown.EventMessageCountsWorkdays |
| Reminder.py:761-762 | `moveRowDown` sorts the selection in descending order, then tests `selected_rows[-1]` (the smallest row) against the last row | five rows with rows 2 and 4 selected: the guard passes, and swapping row 4 with row 5 raises IndexError | test the largest selected row (`selected_rows[0]`) and do nothing when it is the last row | not executed | TableEditor.MoveDownGuardMissesLastRow | TableEditor.MovedDownStopsAtLastRow |
| Reminder.py:1425-1459 | after a reset, the loop rewrites the whole `data` column as text; the `.dt.strftime` after the loop then raises, and the pass ends in the outer handler with nothing shown | a done `lunar` event dated 2024-05-20, checked on 2024-06-20 | the reset is written to the row alone, and the pass goes on to show its notifications | not executed | Notifications.ResetFailsPassAsWritten | Notifications.Reminder.CheckEvents |
