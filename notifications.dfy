/** The whole `ReminderApp.checkEvents` pass: each table is evaluated row by row in the
    order the pass iterates it, the notification dates are written back, and the
    collected holidays, events and anniversaries are merged and sorted by date with a
    stable sort. */
module Notifications {
  import opened Wrappers
  import opened Calendar
  import opened Recurrence
  import opened Countdown
  import opened Window

  // ---------------------------------------------------------------------------
  // Sorting by date. Python's `list.sort(key=...)` is stable; `SortByDate` is an
  // insertion sort that keeps equal dates in their original order, and
  // `StableSortUnique` shows that every stable sort by date gives the same list.

  predicate SortedByDate(s: seq<Notification>) {
    forall i, j :: 0 <= i < j < |s| ==> NotAfter(s[i].date, s[j].date)
  }

  /** The entries of `s` that fall on `d`, in their order in `s`. */
  function OnDate(s: seq<Notification>, d: Date): (r: seq<Notification>)
    ensures |r| <= |s|
  {
    if s == [] then [] else (if s[0].date == d then [s[0]] else []) + OnDate(s[1..], d)
  }

  /** Places `x` after every entry whose date is not after its own. */
  function Insert(s: seq<Notification>, x: Notification): seq<Notification> {
    if s == [] then [x]
    else if Before(x.date, s[0].date) then [x] + s
    else [s[0]] + Insert(s[1..], x)
  }

  function SortByDate(s: seq<Notification>): seq<Notification> {
    if s == [] then [] else Insert(SortByDate(s[..|s| - 1]), s[|s| - 1])
  }

  lemma {:induction false} OnDateAppend(a: seq<Notification>, b: seq<Notification>, d: Date)
    ensures OnDate(a + b, d) == OnDate(a, d) + OnDate(b, d)
  {
    if a == [] {
      assert a + b == b;
    } else {
      assert (a + b)[1..] == a[1..] + b;
      OnDateAppend(a[1..], b, d);
    }
  }

  /** A sorted list has nothing on a date earlier than its first entry's. */
  lemma {:induction false} OnDateBeforeFirst(s: seq<Notification>, d: Date)
    requires SortedByDate(s) && s != [] && Before(d, s[0].date)
    ensures OnDate(s, d) == []
  {
    if |s| > 1 {
      assert NotAfter(s[0].date, s[1].date);
      OnDateBeforeFirst(s[1..], d);
    }
  }

  /** In a sorted list, a date that has entries is not before the first entry's. */
  lemma {:induction false} OnDateBound(s: seq<Notification>, d: Date)
    requires SortedByDate(s) && OnDate(s, d) != []
    ensures NotAfter(s[0].date, d)
  {
    if s[0].date != d {
      OnDateBound(s[1..], d);
      assert NotAfter(s[0].date, s[1].date);
    }
  }

  lemma {:induction false} InsertMultiset(s: seq<Notification>, x: Notification)
    ensures multiset(Insert(s, x)) == multiset(s) + multiset{x}
  {
    if s != [] && !Before(x.date, s[0].date) {
      InsertMultiset(s[1..], x);
      assert s == [s[0]] + s[1..];
    }
  }

  lemma NotAfterTransitive(a: Date, b: Date, c: Date)
    requires NotAfter(a, b) && NotAfter(b, c)
    ensures NotAfter(a, c)
  {
  }

  /** The first entry of a non-empty list is among those on its own date. */
  lemma OnDateHead(s: seq<Notification>)
    ensures s != [] ==> OnDate(s, s[0].date) != [] && OnDate(s, s[0].date)[0] == s[0]
  {
  }

  lemma {:induction false} InsertSorted(s: seq<Notification>, x: Notification)
    requires SortedByDate(s)
    ensures SortedByDate(Insert(s, x))
  {
    if s == [] {
    } else if Before(x.date, s[0].date) {
      var r := [x] + s;
      forall i, j | 0 <= i < j < |r| ensures NotAfter(r[i].date, r[j].date) {
        if i == 0 && j > 1 {
          NotAfterTransitive(x.date, s[0].date, s[j - 1].date);
        }
      }
    } else {
      var t := Insert(s[1..], x);
      InsertSorted(s[1..], x);
      assert NotAfter(s[0].date, t[0].date) by {
        if |s| > 1 && !Before(x.date, s[1].date) {
          assert t[0] == s[1];
        }
      }
      var r := [s[0]] + t;
      forall i, j | 0 <= i < j < |r| ensures NotAfter(r[i].date, r[j].date) {
        if i == 0 && j > 1 {
          NotAfterTransitive(s[0].date, t[0].date, t[j - 1].date);
        }
      }
    }
  }

  lemma {:induction false} InsertOnDate(s: seq<Notification>, x: Notification, d: Date)
    requires SortedByDate(s)
    ensures OnDate(Insert(s, x), d) == OnDate(s, d) + (if x.date == d then [x] else [])
  {
    if s == [] {
    } else if Before(x.date, s[0].date) {
      assert ([x] + s)[1..] == s;
      if x.date == d {
        OnDateBeforeFirst(s, d);
      }
    } else {
      SortedTail(s);
      InsertOnDate(s[1..], x, d);
      InsertOnDateAfterHead(s, x, d);
    }
  }

  /** The step of `InsertOnDate` where `x` goes after the first entry. */
  lemma InsertOnDateAfterHead(s: seq<Notification>, x: Notification, d: Date)
    requires s != [] && !Before(x.date, s[0].date)
    requires OnDate(Insert(s[1..], x), d) == OnDate(s[1..], d) + (if x.date == d then [x] else [])
    ensures OnDate(Insert(s, x), d) == OnDate(s, d) + (if x.date == d then [x] else [])
  {
    var t := Insert(s[1..], x);
    var head := if s[0].date == d then [s[0]] else [];
    var last := if x.date == d then [x] else [];
    assert Insert(s, x) == [s[0]] + t;
    OnDateCons(s[0], t, d);
    assert OnDate(s, d) == head + OnDate(s[1..], d);
    ConcatAssoc(head, OnDate(s[1..], d), last);
  }

  lemma OnDateCons(y: Notification, t: seq<Notification>, d: Date)
    ensures OnDate([y] + t, d) == (if y.date == d then [y] else []) + OnDate(t, d)
  {
    assert ([y] + t)[1..] == t;
  }

  lemma SortedTail(s: seq<Notification>)
    requires SortedByDate(s) && s != []
    ensures SortedByDate(s[1..])
  {
    assert forall i, j :: 0 <= i < j < |s| - 1 ==> s[1..][i] == s[i + 1] && s[1..][j] == s[j + 1];
  }

  lemma {:induction false} SortByDateSorted(s: seq<Notification>)
    ensures SortedByDate(SortByDate(s))
  {
    if s != [] {
      SortByDateSorted(s[..|s| - 1]);
      InsertSorted(SortByDate(s[..|s| - 1]), s[|s| - 1]);
    }
  }

  lemma {:induction false} SortByDateMultiset(s: seq<Notification>)
    ensures multiset(SortByDate(s)) == multiset(s)
  {
    if s != [] {
      var p, x := s[..|s| - 1], s[|s| - 1];
      SortByDateMultiset(p);
      InsertMultiset(SortByDate(p), x);
      assert SortByDate(s) == Insert(SortByDate(p), x);
      assert s == p + [x];
      assert multiset(s) == multiset(p) + multiset{x};
    }
  }

  lemma {:induction false} SortByDateOnDate(s: seq<Notification>, d: Date)
    ensures OnDate(SortByDate(s), d) == OnDate(s, d)
  {
    if s != [] {
      var p, x := s[..|s| - 1], s[|s| - 1];
      SortByDateOnDate(p, d);
      SortByDateSorted(p);
      assert SortByDate(s) == Insert(SortByDate(p), x);
      InsertOnDate(SortByDate(p), x, d);
      assert s == p + [x];
      OnDateAppend(p, [x], d);
      OnDateCons(x, [], d);
      assert [x] + [] == [x];
    }
  }

  /** The insertion sort orders by date, keeps every entry, and keeps the order of the
      entries of each date: it is a stable sort. */
  lemma SortByDateFacts(s: seq<Notification>)
    ensures SortedByDate(SortByDate(s))
    ensures multiset(SortByDate(s)) == multiset(s)
    ensures forall d :: OnDate(SortByDate(s), d) == OnDate(s, d)
  {
    SortByDateSorted(s);
    SortByDateMultiset(s);
    forall d ensures OnDate(SortByDate(s), d) == OnDate(s, d) {
      SortByDateOnDate(s, d);
    }
  }

  /** Two lists sorted by date that agree on the order of the entries of every date are
      the same list. */
  lemma {:induction false} StableSortUnique(a: seq<Notification>, b: seq<Notification>)
    requires SortedByDate(a) && SortedByDate(b)
    requires forall d :: OnDate(a, d) == OnDate(b, d)
    ensures a == b
    decreases |a| + |b|
  {
    OnDateHead(a);
    OnDateHead(b);
    if a != [] && b != [] {
      var d0 := a[0].date;
      OnDateBound(b, d0);
      OnDateBound(a, b[0].date);
      assert b[0].date == d0;
      assert a[0] == b[0];
      forall d ensures OnDate(a[1..], d) == OnDate(b[1..], d) {
        if d == d0 {
          assert OnDate(a[1..], d) == OnDate(a, d)[1..];
          assert OnDate(b[1..], d) == OnDate(b, d)[1..];
        } else {
          assert OnDate(a[1..], d) == OnDate(a, d);
          assert OnDate(b[1..], d) == OnDate(b, d);
        }
      }
      StableSortUnique(a[1..], b[1..]);
      assert a == [a[0]] + a[1..];
      assert b == [b[0]] + b[1..];
    }
  }

  /** Whatever stable sort by date produced `r` from `s`, `r` is `SortByDate(s)`. */
  lemma StableSortIsSortByDate(s: seq<Notification>, r: seq<Notification>)
    requires SortedByDate(r)
    requires forall d :: OnDate(r, d) == OnDate(s, d)
    ensures r == SortByDate(s)
  {
    SortByDateFacts(s);
    StableSortUnique(r, SortByDate(s));
  }

  // ---------------------------------------------------------------------------
  // What a pass collects from each table, in table order.

  predicate EventsReady(rows: seq<EventRow>, today: Date)
    requires ValidDate(today)
  {
    forall i :: 0 <= i < |rows| ==> WellFormedEvent(rows[i]) && EventTerminates(rows[i], today)
  }

  predicate AnniversariesReady(rows: seq<AnniversaryRow>) {
    forall i :: 0 <= i < |rows| ==> WellFormedAnniversary(rows[i])
  }

  function Listed<T>(o: Option<T>): seq<T> {
    match o
    case None => []
    case Some(x) => [x]
  }

  /** The values of the present options, in order. */
  function Somes<T>(opts: seq<Option<T>>): (r: seq<T>)
    ensures |r| <= |opts|
  {
    if opts == [] then [] else Somes(opts[..|opts| - 1]) + Listed(opts[|opts| - 1])
  }

  lemma SomesMembers<T>(opts: seq<Option<T>>, x: T)
    ensures x in Somes(opts) <==> exists i :: 0 <= i < |opts| && opts[i] == Some(x)
  {
    if x in Somes(opts) {
      var i := SomesIndex(opts, x);
    }
    if exists i :: 0 <= i < |opts| && opts[i] == Some(x) {
      var i :| 0 <= i < |opts| && opts[i] == Some(x);
      SomesHas(opts, i);
    }
  }

  /** The value of a present option is listed. */
  lemma {:induction false} SomesHas<T>(opts: seq<Option<T>>, i: int)
    requires 0 <= i < |opts| && opts[i].Some?
    ensures opts[i].value in Somes(opts)
  {
    var p := opts[..|opts| - 1];
    if i < |p| {
      SomesHas(p, i);
      assert p[i] == opts[i];
    }
  }

  /** A listed value comes from a present option. */
  lemma {:induction false} SomesIndex<T>(opts: seq<Option<T>>, x: T) returns (i: int)
    requires x in Somes(opts)
    ensures 0 <= i < |opts| && opts[i] == Some(x)
  {
    var p := opts[..|opts| - 1];
    if x in Somes(p) {
      i := SomesIndex(p, x);
      assert p[i] == opts[i];
    } else {
      i := |opts| - 1;
    }
  }

  lemma SomesSnoc<T>(opts: seq<Option<T>>, o: Option<T>)
    ensures Somes(opts + [o]) == Somes(opts) + Listed(o)
  {
    assert (opts + [o])[..|opts|] == opts;
  }

  /** What each row becomes, row by row. */
  function RowsMap<A, B>(rows: seq<A>, entry: A --> B): (r: seq<B>)
    requires forall k :: 0 <= k < |rows| ==> entry.requires(rows[k])
    ensures |r| == |rows|
  {
    if rows == [] then [] else RowsMap(rows[..|rows| - 1], entry) + [entry(rows[|rows| - 1])]
  }

  /** Element i is what row i becomes. */
  lemma {:induction false} RowsMapAt<A, B>(rows: seq<A>, entry: A --> B, i: int)
    requires forall k :: 0 <= k < |rows| ==> entry.requires(rows[k])
    requires 0 <= i < |rows|
    ensures RowsMap(rows, entry)[i] == entry(rows[i])
  {
    var p := rows[..|rows| - 1];
    if i < |p| {
      RowsMapAt(p, entry, i);
      SnocAt(RowsMap(p, entry), entry(rows[|rows| - 1]), i);
      assert p[i] == rows[i];
    }
  }

  /** The pass's treatment of one event row. */
  function EventEntryOf(today: Date, f: Filters): EventRow --> Option<Notification> {
    e requires ValidDate(today) && WellFormedEvent(e) && EventTerminates(e, today) => EventEntry(e, today, f)
  }

  /** The pass's treatment of one anniversary row. */
  function AnniversaryEntryOf(today: Date, f: Filters): AnniversaryRow --> Option<Notification> {
    a requires ValidDate(today) && WellFormedAnniversary(a) => AnniversaryEntry(a, today, f)
  }

  /** The pass's treatment of one holiday row. */
  function HolidayEntryOf(today: Date): HolidayRow --> Option<Notification> {
    h requires ValidDate(today) => HolidayEntry(h, today)
  }

  function EventOptions(rows: seq<EventRow>, today: Date, f: Filters): (r: seq<Option<Notification>>)
    requires ValidDate(today) && EventsReady(rows, today)
    ensures |r| == |rows|
  {
    RowsMap(rows, EventEntryOf(today, f))
  }

  lemma EventOptionsAt(rows: seq<EventRow>, today: Date, f: Filters, i: int)
    requires ValidDate(today) && EventsReady(rows, today) && 0 <= i < |rows|
    ensures EventOptions(rows, today, f)[i] == EventEntry(rows[i], today, f)
  {
    RowsMapAt(rows, EventEntryOf(today, f), i);
  }

  function AnniversaryOptions(rows: seq<AnniversaryRow>, today: Date, f: Filters): (r: seq<Option<Notification>>)
    requires ValidDate(today) && AnniversariesReady(rows)
    ensures |r| == |rows|
  {
    RowsMap(rows, AnniversaryEntryOf(today, f))
  }

  lemma AnniversaryOptionsAt(rows: seq<AnniversaryRow>, today: Date, f: Filters, i: int)
    requires ValidDate(today) && AnniversariesReady(rows) && 0 <= i < |rows|
    ensures AnniversaryOptions(rows, today, f)[i] == AnniversaryEntry(rows[i], today, f)
  {
    RowsMapAt(rows, AnniversaryEntryOf(today, f), i);
  }

  function HolidayOptions(rows: seq<HolidayRow>, today: Date): (r: seq<Option<Notification>>)
    requires ValidDate(today)
    ensures |r| == |rows|
  {
    RowsMap(rows, HolidayEntryOf(today))
  }

  lemma HolidayOptionsAt(rows: seq<HolidayRow>, today: Date, i: int)
    requires ValidDate(today) && 0 <= i < |rows|
    ensures HolidayOptions(rows, today)[i] == HolidayEntry(rows[i], today)
  {
    RowsMapAt(rows, HolidayEntryOf(today), i);
  }

  function EventEntries(rows: seq<EventRow>, today: Date, f: Filters): seq<Notification>
    requires ValidDate(today) && EventsReady(rows, today)
  {
    Somes(EventOptions(rows, today, f))
  }

  function AnniversaryEntries(rows: seq<AnniversaryRow>, today: Date, f: Filters): seq<Notification>
    requires ValidDate(today) && AnniversariesReady(rows)
  {
    Somes(AnniversaryOptions(rows, today, f))
  }

  function HolidayEntries(rows: seq<HolidayRow>, today: Date): seq<Notification>
    requires ValidDate(today)
  {
    Somes(HolidayOptions(rows, today))
  }

  lemma EventEntriesSnoc(rows: seq<EventRow>, today: Date, f: Filters)
    requires ValidDate(today) && EventsReady(rows, today) && rows != []
    ensures EventEntries(rows, today, f)
      == EventEntries(rows[..|rows| - 1], today, f) + Listed(EventEntry(rows[|rows| - 1], today, f))
  {
    SomesSnoc(EventOptions(rows[..|rows| - 1], today, f), EventEntry(rows[|rows| - 1], today, f));
  }

  lemma AnniversaryEntriesSnoc(rows: seq<AnniversaryRow>, today: Date, f: Filters)
    requires ValidDate(today) && AnniversariesReady(rows) && rows != []
    ensures AnniversaryEntries(rows, today, f)
      == AnniversaryEntries(rows[..|rows| - 1], today, f) + Listed(AnniversaryEntry(rows[|rows| - 1], today, f))
  {
    SomesSnoc(AnniversaryOptions(rows[..|rows| - 1], today, f), AnniversaryEntry(rows[|rows| - 1], today, f));
  }

  lemma HolidayEntriesSnoc(rows: seq<HolidayRow>, today: Date)
    requires ValidDate(today) && rows != []
    ensures HolidayEntries(rows, today) == HolidayEntries(rows[..|rows| - 1], today) + Listed(HolidayEntry(rows[|rows| - 1], today))
  {
    SomesSnoc(HolidayOptions(rows[..|rows| - 1], today), HolidayEntry(rows[|rows| - 1], today));
  }

  /** The entries of the first i + 1 rows, from those of the first i. */
  lemma EventEntriesStep(rows: seq<EventRow>, i: int, today: Date, f: Filters)
    requires ValidDate(today) && EventsReady(rows, today) && 0 <= i < |rows|
    ensures EventsReady(rows[..i], today) && EventsReady(rows[..i + 1], today)
    ensures EventEntries(rows[..i + 1], today, f) == EventEntries(rows[..i], today, f) + Listed(EventEntry(rows[i], today, f))
  {
    assert rows[..i + 1][..i] == rows[..i];
    EventEntriesSnoc(rows[..i + 1], today, f);
  }

  lemma AnniversaryEntriesStep(rows: seq<AnniversaryRow>, i: int, today: Date, f: Filters)
    requires ValidDate(today) && AnniversariesReady(rows) && 0 <= i < |rows|
    ensures AnniversariesReady(rows[..i]) && AnniversariesReady(rows[..i + 1])
    ensures AnniversaryEntries(rows[..i + 1], today, f)
      == AnniversaryEntries(rows[..i], today, f) + Listed(AnniversaryEntry(rows[i], today, f))
  {
    assert rows[..i + 1][..i] == rows[..i];
    AnniversaryEntriesSnoc(rows[..i + 1], today, f);
  }

  lemma HolidayEntriesStep(rows: seq<HolidayRow>, i: int, today: Date)
    requires ValidDate(today) && 0 <= i < |rows|
    ensures HolidayEntries(rows[..i + 1], today) == HolidayEntries(rows[..i], today) + Listed(HolidayEntry(rows[i], today))
  {
    assert rows[..i + 1][..i] == rows[..i];
    HolidayEntriesSnoc(rows[..i + 1], today);
  }

  lemma EventEntriesMembers(rows: seq<EventRow>, today: Date, f: Filters, x: Notification)
    requires ValidDate(today) && EventsReady(rows, today)
    ensures x in EventEntries(rows, today, f) <==> exists i :: 0 <= i < |rows| && EventEntry(rows[i], today, f) == Some(x)
  {
    var o := EventOptions(rows, today, f);
    SomesMembers(o, x);
    if exists i :: 0 <= i < |rows| && EventEntry(rows[i], today, f) == Some(x) {
      var i :| 0 <= i < |rows| && EventEntry(rows[i], today, f) == Some(x);
      EventOptionsAt(rows, today, f, i);
    }
    if x in Somes(o) {
      var i :| 0 <= i < |o| && o[i] == Some(x);
      EventOptionsAt(rows, today, f, i);
    }
  }

  lemma AnniversaryEntriesMembers(rows: seq<AnniversaryRow>, today: Date, f: Filters, x: Notification)
    requires ValidDate(today) && AnniversariesReady(rows)
    ensures x in AnniversaryEntries(rows, today, f) <==> exists i :: 0 <= i < |rows| && AnniversaryEntry(rows[i], today, f) == Some(x)
  {
    var o := AnniversaryOptions(rows, today, f);
    SomesMembers(o, x);
    if exists i :: 0 <= i < |rows| && AnniversaryEntry(rows[i], today, f) == Some(x) {
      var i :| 0 <= i < |rows| && AnniversaryEntry(rows[i], today, f) == Some(x);
      AnniversaryOptionsAt(rows, today, f, i);
    }
    if x in Somes(o) {
      var i :| 0 <= i < |o| && o[i] == Some(x);
      AnniversaryOptionsAt(rows, today, f, i);
    }
  }

  lemma HolidayEntriesMembers(rows: seq<HolidayRow>, today: Date, x: Notification)
    requires ValidDate(today)
    ensures x in HolidayEntries(rows, today) <==> exists i :: 0 <= i < |rows| && HolidayEntry(rows[i], today) == Some(x)
  {
    var o := HolidayOptions(rows, today);
    SomesMembers(o, x);
    if exists i :: 0 <= i < |rows| && HolidayEntry(rows[i], today) == Some(x) {
      var i :| 0 <= i < |rows| && HolidayEntry(rows[i], today) == Some(x);
      HolidayOptionsAt(rows, today, i);
    }
    if x in Somes(o) {
      var i :| 0 <= i < |o| && o[i] == Some(x);
      HolidayOptionsAt(rows, today, i);
    }
  }

  /** The merged list before sorting: holidays (when shown), then events, then
      anniversaries. */
  function Collected(events: seq<EventRow>, anniversaries: seq<AnniversaryRow>, holidays: seq<HolidayRow>,
                     today: Date, f: Filters): seq<Notification>
    requires ValidDate(today) && EventsReady(events, today) && AnniversariesReady(anniversaries)
  {
    (if f.showHolidays then HolidayEntries(holidays, today) else [])
      + EventEntries(events, today, f) + AnniversaryEntries(anniversaries, today, f)
  }

  /** The list a pass hands to the display. */
  function Notifications(events: seq<EventRow>, anniversaries: seq<AnniversaryRow>, holidays: seq<HolidayRow>,
                         today: Date, f: Filters): seq<Notification>
    requires ValidDate(today) && EventsReady(events, today) && AnniversariesReady(anniversaries)
  {
    SortByDate(Collected(events, anniversaries, holidays, today, f))
  }

  /** The displayed list is sorted by date, holds exactly the collected entries, and on
      a shared date lists holidays, then events, then anniversaries, each in table
      order. */
  lemma NotificationsOrder(events: seq<EventRow>, anniversaries: seq<AnniversaryRow>, holidays: seq<HolidayRow>,
                           today: Date, f: Filters, d: Date)
    requires ValidDate(today) && EventsReady(events, today) && AnniversariesReady(anniversaries)
    ensures var r := Notifications(events, anniversaries, holidays, today, f);
      SortedByDate(r)
      && multiset(r) == multiset(Collected(events, anniversaries, holidays, today, f))
      && OnDate(r, d) == (if f.showHolidays then OnDate(HolidayEntries(holidays, today), d) else [])
                         + OnDate(EventEntries(events, today, f), d)
                         + OnDate(AnniversaryEntries(anniversaries, today, f), d)
  {
    var h := if f.showHolidays then HolidayEntries(holidays, today) else [];
    var e := EventEntries(events, today, f);
    var a := AnniversaryEntries(anniversaries, today, f);
    SortByDateFacts(h + e + a);
    OnDateAppend(h + e, a, d);
    OnDateAppend(h, e, d);
  }

  /** An entry is displayed exactly when some row of its table produces it; holidays
      only when they are shown at all. */
  lemma NotificationsMembers(events: seq<EventRow>, anniversaries: seq<AnniversaryRow>, holidays: seq<HolidayRow>,
                             today: Date, f: Filters, x: Notification)
    requires ValidDate(today) && EventsReady(events, today) && AnniversariesReady(anniversaries)
    ensures x in Notifications(events, anniversaries, holidays, today, f) <==>
      (f.showHolidays && exists i :: 0 <= i < |holidays| && HolidayEntry(holidays[i], today) == Some(x))
      || (exists i :: 0 <= i < |events| && EventEntry(events[i], today, f) == Some(x))
      || (exists i :: 0 <= i < |anniversaries| && AnniversaryEntry(anniversaries[i], today, f) == Some(x))
  {
    var c := Collected(events, anniversaries, holidays, today, f);
    SortByDateMultiset(c);
    assert x in Notifications(events, anniversaries, holidays, today, f) <==> x in multiset(c);
    HolidayEntriesMembers(holidays, today, x);
    EventEntriesMembers(events, today, f, x);
    AnniversaryEntriesMembers(anniversaries, today, f, x);
  }

  /** Every displayed entry counts its days from today to its own date. */
  lemma NotificationsCountFromToday(events: seq<EventRow>, anniversaries: seq<AnniversaryRow>, holidays: seq<HolidayRow>,
                                    today: Date, f: Filters, x: Notification)
    requires ValidDate(today) && EventsReady(events, today) && AnniversariesReady(anniversaries)
    ensures x in Notifications(events, anniversaries, holidays, today, f) ==> CountsFromToday(x, today)
  {
    NotificationsMembers(events, anniversaries, holidays, today, f, x);
  }

  // ---------------------------------------------------------------------------
  // The pass as written: a reset turns the whole `data` column into text, so a
  // second reset in the same pass fails inside that row, and the save after the loop
  // fails for the whole pass.

  datatype EventScan = EventScan(table: seq<EventRow>, entries: seq<Notification>, dateColumnIsText: bool)

  datatype PassOutcome = Shown(notes: seq<Notification>) | Failed

  /** Some row of the table resets its state in this pass. */
  predicate AnyReset(rows: seq<EventRow>, today: Date)
    requires ValidDate(today) && EventsReady(rows, today)
  {
    rows != [] && (AnyReset(rows[..|rows| - 1], today) || ShouldReset(rows[|rows| - 1], today))
  }

  /** The events loop as written. A row that resets after the date column has already
      become text keeps its new state but loses its notification date and its entry. */
  function EventScanAsWritten(rows: seq<EventRow>, today: Date, f: Filters): (s: EventScan)
    requires ValidDate(today) && EventsReady(rows, today)
    ensures |s.table| == |rows|
  {
    if rows == [] then EventScan([], [], false)
    else
      var p := EventScanAsWritten(rows[..|rows| - 1], today, f);
      var e := rows[|rows| - 1];
      if ShouldReset(e, today) && p.dateColumnIsText then
        EventScan(p.table + [e.(state := Keep)], p.entries, true)
      else
        EventScan(p.table + [EvaluatedEvent(e, today)], p.entries + Listed(EventEntry(e, today, f)),
                  p.dateColumnIsText || ShouldReset(e, today))
  }

  function CheckEventsAsWritten(events: seq<EventRow>, anniversaries: seq<AnniversaryRow>, holidays: seq<HolidayRow>,
                                today: Date, f: Filters): PassOutcome
    requires ValidDate(today) && EventsReady(events, today) && AnniversariesReady(anniversaries)
  {
    var scan := EventScanAsWritten(events, today, f);
    if scan.dateColumnIsText then Failed
    else Shown(SortByDate((if f.showHolidays then HolidayEntries(holidays, today) else [])
                          + scan.entries + AnniversaryEntries(anniversaries, today, f)))
  }

  lemma {:induction false} EventScanAsWrittenFacts(rows: seq<EventRow>, today: Date, f: Filters)
    requires ValidDate(today) && EventsReady(rows, today)
    ensures EventScanAsWritten(rows, today, f).dateColumnIsText <==> AnyReset(rows, today)
    ensures !AnyReset(rows, today) ==> EventScanAsWritten(rows, today, f).entries == EventEntries(rows, today, f)
  {
    if rows != [] {
      EventScanAsWrittenFacts(rows[..|rows| - 1], today, f);
      EventEntriesSnoc(rows, today, f);
    }
  }

  /** As written, a pass in which any done recurring event rolls over ends in an error:
      nothing is displayed, and the anniversaries and holidays are not evaluated. A pass
      without such a row shows what the corrected pass shows. */
  lemma ResetFailsPassAsWritten(events: seq<EventRow>, anniversaries: seq<AnniversaryRow>, holidays: seq<HolidayRow>,
                                today: Date, f: Filters)
    requires ValidDate(today) && EventsReady(events, today) && AnniversariesReady(anniversaries)
    ensures CheckEventsAsWritten(events, anniversaries, holidays, today, f) ==
      if AnyReset(events, today) then Failed
      else Shown(Notifications(events, anniversaries, holidays, today, f))
  {
    EventScanAsWrittenFacts(events, today, f);
  }

  /** One done monthly event whose stored date has passed is enough. */
  lemma ResetFailsPassExample(e: EventRow)
    requires e.date == Some(Date(2024, 5, 20)) && e.cycle == Some("lunar") && e.state == Done
    ensures EventsReady([e], Date(2024, 6, 20))
    ensures CheckEventsAsWritten([e], [], [], Date(2024, 6, 20), Filters(true, true, true)) == Failed
  {
    assert ParseCycle("lunar") == EveryMonths(1);
    ResetWhileStoredDateIsDue(e, Date(2024, 6, 20), 1);
    EventScanAsWrittenFacts([e], Date(2024, 6, 20), Filters(true, true, true));
    assert ShouldReset([e][0], Date(2024, 6, 20));
  }

  // ---------------------------------------------------------------------------
  // The tables as a pass writes them back.

  /** The write-back of one event row. */
  function EvaluatedEventOf(today: Date): EventRow --> EventRow {
    e requires ValidDate(today) && WellFormedEvent(e) && EventTerminates(e, today) => EvaluatedEvent(e, today)
  }

  /** The write-back of one anniversary row. */
  function EvaluatedAnniversaryOf(today: Date): AnniversaryRow --> AnniversaryRow {
    a requires ValidDate(today) && WellFormedAnniversary(a) => EvaluatedAnniversary(a, today)
  }

  /** The write-back of one holiday row. */
  function EvaluatedHolidayOf(today: Date): HolidayRow --> HolidayRow {
    h requires ValidDate(today) => EvaluatedHoliday(h, today)
  }

  function EvaluatedEvents(rows: seq<EventRow>, today: Date): (r: seq<EventRow>)
    requires ValidDate(today) && EventsReady(rows, today)
    ensures |r| == |rows|
  {
    RowsMap(rows, EvaluatedEventOf(today))
  }

  /** Row i of the written-back table is row i evaluated. */
  lemma EvaluatedEventsAt(rows: seq<EventRow>, today: Date, i: int)
    requires ValidDate(today) && EventsReady(rows, today) && 0 <= i < |rows|
    ensures EvaluatedEvents(rows, today)[i] == EvaluatedEvent(rows[i], today)
  {
    RowsMapAt(rows, EvaluatedEventOf(today), i);
  }

  function EvaluatedAnniversaries(rows: seq<AnniversaryRow>, today: Date): (r: seq<AnniversaryRow>)
    requires ValidDate(today) && AnniversariesReady(rows)
    ensures |r| == |rows|
  {
    RowsMap(rows, EvaluatedAnniversaryOf(today))
  }

  /** Row i of the written-back table is row i evaluated. */
  lemma EvaluatedAnniversariesAt(rows: seq<AnniversaryRow>, today: Date, i: int)
    requires ValidDate(today) && AnniversariesReady(rows) && 0 <= i < |rows|
    ensures EvaluatedAnniversaries(rows, today)[i] == EvaluatedAnniversary(rows[i], today)
  {
    RowsMapAt(rows, EvaluatedAnniversaryOf(today), i);
  }

  function EvaluatedHolidays(rows: seq<HolidayRow>, today: Date): (r: seq<HolidayRow>)
    requires ValidDate(today)
    ensures |r| == |rows|
  {
    RowsMap(rows, EvaluatedHolidayOf(today))
  }

  /** Row i of the written-back table is row i evaluated. */
  lemma EvaluatedHolidaysAt(rows: seq<HolidayRow>, today: Date, i: int)
    requires ValidDate(today) && 0 <= i < |rows|
    ensures EvaluatedHolidays(rows, today)[i] == EvaluatedHoliday(rows[i], today)
  {
    RowsMapAt(rows, EvaluatedHolidayOf(today), i);
  }

  lemma SnocAt<T>(a: seq<T>, x: T, i: int)
    requires 0 <= i < |a|
    ensures (a + [x])[i] == a[i]
  {
  }

  lemma PrefixAt<T>(done: seq<T>, rows: seq<T>, i: int)
    requires |done| == i < |rows|
    ensures (done + rows[i..])[i] == rows[i]
  {
  }

  lemma PrefixUpdate<T>(done: seq<T>, rows: seq<T>, i: int, x: T)
    requires |done| == i < |rows|
    ensures (done + rows[i..])[i := x] == (done + [x]) + rows[i + 1..]
  {
  }

  /** Writing row i back extends the evaluated prefix by one row. */
  lemma EvaluatedEventsStep(rows: seq<EventRow>, i: int, today: Date)
    requires ValidDate(today) && EventsReady(rows, today) && 0 <= i < |rows|
    ensures EventsReady(rows[..i], today) && EventsReady(rows[..i + 1], today)
    ensures (EvaluatedEvents(rows[..i], today) + rows[i..])[i := EvaluatedEvent(rows[i], today)]
      == EvaluatedEvents(rows[..i + 1], today) + rows[i + 1..]
  {
    assert rows[..i + 1][..i] == rows[..i];
    PrefixUpdate(EvaluatedEvents(rows[..i], today), rows, i, EvaluatedEvent(rows[i], today));
  }

  lemma EvaluatedAnniversariesStep(rows: seq<AnniversaryRow>, i: int, today: Date)
    requires ValidDate(today) && AnniversariesReady(rows) && 0 <= i < |rows|
    ensures AnniversariesReady(rows[..i]) && AnniversariesReady(rows[..i + 1])
    ensures (EvaluatedAnniversaries(rows[..i], today) + rows[i..])[i := EvaluatedAnniversary(rows[i], today)]
      == EvaluatedAnniversaries(rows[..i + 1], today) + rows[i + 1..]
  {
    assert rows[..i + 1][..i] == rows[..i];
    PrefixUpdate(EvaluatedAnniversaries(rows[..i], today), rows, i, EvaluatedAnniversary(rows[i], today));
  }

  lemma EvaluatedHolidaysStep(rows: seq<HolidayRow>, i: int, today: Date)
    requires ValidDate(today) && 0 <= i < |rows|
    ensures (EvaluatedHolidays(rows[..i], today) + rows[i..])[i := EvaluatedHoliday(rows[i], today)]
      == EvaluatedHolidays(rows[..i + 1], today) + rows[i + 1..]
  {
    assert rows[..i + 1][..i] == rows[..i];
    PrefixUpdate(EvaluatedHolidays(rows[..i], today), rows, i, EvaluatedHoliday(rows[i], today));
  }

  // ---------------------------------------------------------------------------
  // The body of each loop of the pass, for one row.

  /** This year's date of the holiday is where its projection starts. */
  lemma HolidayDateFrom(h: HolidayRow, today: Date, m: int, t: Date)
    requires ValidDate(today) && MonthNumber(h.month) == Some(m) && MakeDate(today.year, m, h.day) == Some(t)
    ensures ValidDate(t) && t.year == today.year
    ensures HolidayDate(h, today) == ProjectFrom(t, today)
  {
  }

  /** This year's anniversary is where its projection starts. */
  lemma AnniversaryDateFrom(birth: Date, today: Date, t: Date)
    requires ValidDate(birth) && ValidDate(today) && WithYear(birth, today.year) == Some(t)
    ensures ValidDate(t) && t.year == today.year
    ensures AnniversaryDate(birth, today) == ProjectFrom(t, today)
  {
  }

  lemma ProjectFromIs(t: Date, today: Date)
    requires ValidDate(t) && ValidDate(today) && t.year == today.year
    ensures ProjectFrom(t, today) == if Before(t, today) then WithYear(t, today.year + 1) else Some(t)
  {
  }

  /** Once the anniversary's date is known, the row and the entry follow from it. */
  lemma AnniversaryOnDate(a: AnniversaryRow, today: Date, f: Filters, next: Date)
    requires ValidDate(today) && WellFormedAnniversary(a) && a.birth.Some?
    requires AnniversaryDate(a.birth.value, today) == Some(next)
    ensures EvaluatedAnniversary(a, today) == a.(notifyFrom := Some(NotificationStart(next, a.leadDays)))
    ensures var days := DaysBetween(today, next);
      AnniversaryEntry(a, today, f)
      == if AnniversaryVisible(a, f) && InWindow(days, a.leadDays)
         then Some(Notification(a.name, next, days, IsRed(days, a.redDays), a.index, a.notes, AnniversaryKind(next.year - a.birth.value.year)))
         else None
  {
    var days := DaysBetween(today, next);
    if AnniversaryVisible(a, f) && InWindow(days, a.leadDays) {
      assert AnniversaryEntry(a, today, f).Some?;
    } else {
      assert AnniversaryEntry(a, today, f).None?;
    }
  }

  /** Once the event's advanced date is known, the row and the entry follow from it:
      the state is reset exactly under `ShouldReset`, and a visible row inside its window
      gets the tuple with its days left, its red flag, its working-day figure and its
      weekend-day count. */
  lemma EventOnDate(e: EventRow, today: Date, f: Filters, next: Date)
    requires ValidDate(today) && WellFormedEvent(e) && EventTerminates(e, today)
    requires NextEventDate(e, today) == Some(next)
    ensures EvaluatedEvent(e, today)
      == e.(state := if ShouldReset(e, today) then Keep else e.state,
            notifyFrom := Some(NotificationStart(next, e.leadDays)))
    ensures var days := DaysBetween(today, next);
      EventEntry(e, today, f)
      == if EventVisible(e, f) && InWindow(days, e.leadDays)
         then Some(Notification(e.name, next, days, IsRed(days, e.redDays), e.index, e.notes,
                                EventKind(WorkingDaysFigure(today, next, e.weekend),
                                          if e.weekend then CountWeekendDays(today, next) else 0,
                                          e.weekend, e.cycle, e.work)))
         else None
  {
    var days := DaysBetween(today, next);
    if EventVisible(e, f) && InWindow(days, e.leadDays) {
      assert EventEntry(e, today, f).Some?;
    } else {
      assert EventEntry(e, today, f).None?;
    }
  }

  /** A visible event row whose advanced date is inside its window is displayed. */
  lemma EventShown(events: seq<EventRow>, anniversaries: seq<AnniversaryRow>, holidays: seq<HolidayRow>,
                   today: Date, f: Filters, i: int, next: Date)
    requires ValidDate(today) && EventsReady(events, today) && AnniversariesReady(anniversaries)
    requires 0 <= i < |events| && NextEventDate(events[i], today) == Some(next)
    requires EventVisible(events[i], f) && InWindow(DaysBetween(today, next), events[i].leadDays)
    ensures EventEntry(events[i], today, f).Some?
    ensures EventEntry(events[i], today, f).value in Notifications(events, anniversaries, holidays, today, f)
  {
    EventOnDate(events[i], today, f, next);
    NotificationsMembers(events, anniversaries, holidays, today, f, EventEntry(events[i], today, f).value);
  }

  /** A holiday without a date this year or next is left as it is. */
  lemma HolidaySkipped(h: HolidayRow, today: Date)
    requires ValidDate(today) && HolidayDate(h, today).None?
    ensures EvaluatedHoliday(h, today) == h && HolidayEntry(h, today).None?
  {
  }

  /** Once the holiday's date is known, the row and the entry follow from it. */
  lemma HolidayOnDate(h: HolidayRow, today: Date, next: Date)
    requires ValidDate(today) && HolidayDate(h, today) == Some(next)
    ensures EvaluatedHoliday(h, today) == h.(notifyFrom := Some(NotificationStart(next, h.leadDays)))
    ensures var days := DaysBetween(today, next);
      HolidayEntry(h, today)
      == if InWindow(days, h.leadDays) then Some(Notification(h.name, next, days, IsRed(days, h.redDays), h.index, h.notes, HolidayKind(h.kind, h.cross)))
         else None
  {
  }

  /** Advance the date, reset a done row that rolled over, write the notification
      date, and build the entry when the row is visible and inside its window. */
  method EvaluateEvent(e: EventRow, today: Date, f: Filters) returns (row: EventRow, entry: Option<Notification>)
    requires ValidDate(today) && WellFormedEvent(e) && EventTerminates(e, today)
    ensures row == EvaluatedEvent(e, today) && entry == EventEntry(e, today, f)
  {
    row, entry := e, None;
    if e.date.Some? {
      var next := AdjustDate(e.date.value, today, CycleText(e.cycle));
      EventOnDate(e, today, f, next);
      if CycleTruthy(e.cycle) && e.state == Done && next != e.date.value {
        row := row.(state := Keep);
      }
      row := row.(notifyFrom := Some(NotificationStart(next, e.leadDays)));
      var days := DaysBetween(today, next);
      if EventVisible(e, f) && InWindow(days, e.leadDays) {
        var weekendDays := if e.weekend then CountWeekendDays(today, next) else 0;
        entry := Some(Notification(e.name, next, days, IsRed(days, e.redDays), e.index, e.notes,
                                   EventKind(WorkingDaysFigure(today, next, e.weekend), weekendDays, e.weekend, e.cycle, e.work)));
      }
    }
  }

  /** Move the birth date to the next anniversary; a missing date or a 29 February the
      year lacks ends the row here. */
  method EvaluateAnniversary(a: AnniversaryRow, today: Date, f: Filters) returns (row: AnniversaryRow, entry: Option<Notification>)
    requires ValidDate(today) && WellFormedAnniversary(a)
    ensures row == EvaluatedAnniversary(a, today) && entry == AnniversaryEntry(a, today, f)
  {
    row, entry := a, None;
    if a.birth.None? {
      return;
    }
    var thisYear := WithYear(a.birth.value, today.year);
    if thisYear.None? {
      return;
    }
    var next := thisYear.value;
    AnniversaryDateFrom(a.birth.value, today, next);
    ProjectFromIs(next, today);
    if Before(next, today) {
      var nextYear := WithYear(next, today.year + 1);
      if nextYear.None? {
        return;
      }
      next := nextYear.value;
    }
    AnniversaryOnDate(a, today, f, next);
    row := a.(notifyFrom := Some(NotificationStart(next, a.leadDays)));
    var days := DaysBetween(today, next);
    if AnniversaryVisible(a, f) && InWindow(days, a.leadDays) {
      entry := Some(Notification(a.name, next, days, IsRed(days, a.redDays), a.index, a.notes, AnniversaryKind(next.year - a.birth.value.year)));
    }
  }

  /** Build this year's date from the month name and day, move it to next year when
      past; an unknown month or a day the month lacks ends the row here. */
  method EvaluateHoliday(h: HolidayRow, today: Date) returns (row: HolidayRow, entry: Option<Notification>)
    requires ValidDate(today)
    ensures row == EvaluatedHoliday(h, today) && entry == HolidayEntry(h, today)
  {
    row, entry := h, None;
    var month := MonthNumber(h.month);
    if month.None? {
      HolidaySkipped(h, today);
      return;
    }
    var thisYear := MakeDate(today.year, month.value, h.day);
    if thisYear.None? {
      HolidaySkipped(h, today);
      return;
    }
    var next := thisYear.value;
    HolidayDateFrom(h, today, month.value, next);
    ProjectFromIs(next, today);
    if Before(next, today) {
      var nextYear := WithYear(next, today.year + 1);
      if nextYear.None? {
        HolidaySkipped(h, today);
        return;
      }
      next := nextYear.value;
    }
    HolidayOnDate(h, today, next);
    row := h.(notifyFrom := Some(NotificationStart(next, h.leadDays)));
    var days := DaysBetween(today, next);
    if InWindow(days, h.leadDays) {
      entry := Some(Notification(h.name, next, days, IsRed(days, h.redDays), h.index, h.notes, HolidayKind(h.kind, h.cross)));
    }
  }

  // ---------------------------------------------------------------------------
  // The pass, corrected: the three tables are fields that the pass updates in place.

  class Reminder {
    var events: seq<EventRow>
    var anniversaries: seq<AnniversaryRow>
    var holidays: seq<HolidayRow>

    constructor (events: seq<EventRow>, anniversaries: seq<AnniversaryRow>, holidays: seq<HolidayRow>)
      ensures this.events == events && this.anniversaries == anniversaries && this.holidays == holidays
    {
      this.events := events;
      this.anniversaries := anniversaries;
      this.holidays := holidays;
    }

    /** The rows a pass on `today` can evaluate: dates that exist, and cycles whose
        advance loop comes to rest. */
    predicate Ready(today: Date)
      requires ValidDate(today)
      reads this
    {
      EventsReady(events, today) && AnniversariesReady(anniversaries)
    }

    /** The events loop: each row in turn is evaluated and written back. */
    method ProcessEvents(today: Date, f: Filters) returns (entries: seq<Notification>)
      requires ValidDate(today) && EventsReady(events, today)
      modifies this
      ensures entries == EventEntries(old(events), today, f)
      ensures events == EvaluatedEvents(old(events), today)
      ensures anniversaries == old(anniversaries) && holidays == old(holidays)
    {
      ghost var rows := events;
      entries := [];
      var i := 0;
      while i < |events|
        invariant 0 <= i <= |rows| && EventsReady(rows, today) && EventsReady(rows[..i], today)
        invariant events == EvaluatedEvents(rows[..i], today) + rows[i..]
        invariant entries == EventEntries(rows[..i], today, f)
        invariant anniversaries == old(anniversaries) && holidays == old(holidays)
      {
        PrefixAt(EvaluatedEvents(rows[..i], today), rows, i);
        var row, entry := EvaluateEvent(events[i], today, f);
        EventEntriesStep(rows, i, today, f);
        EvaluatedEventsStep(rows, i, today);
        events := events[i := row];
        entries := entries + Listed(entry);
        i := i + 1;
      }
      assert rows[..i] == rows && rows[i..] == [];
    }

    /** The anniversaries loop. */
    method ProcessAnniversaries(today: Date, f: Filters) returns (entries: seq<Notification>)
      requires ValidDate(today) && AnniversariesReady(anniversaries)
      modifies this
      ensures entries == AnniversaryEntries(old(anniversaries), today, f)
      ensures anniversaries == EvaluatedAnniversaries(old(anniversaries), today)
      ensures events == old(events) && holidays == old(holidays)
    {
      ghost var rows := anniversaries;
      entries := [];
      var i := 0;
      while i < |anniversaries|
        invariant 0 <= i <= |rows| && AnniversariesReady(rows) && AnniversariesReady(rows[..i])
        invariant anniversaries == EvaluatedAnniversaries(rows[..i], today) + rows[i..]
        invariant entries == AnniversaryEntries(rows[..i], today, f)
        invariant events == old(events) && holidays == old(holidays)
      {
        PrefixAt(EvaluatedAnniversaries(rows[..i], today), rows, i);
        var row, entry := EvaluateAnniversary(anniversaries[i], today, f);
        AnniversaryEntriesStep(rows, i, today, f);
        EvaluatedAnniversariesStep(rows, i, today);
        anniversaries := anniversaries[i := row];
        entries := entries + Listed(entry);
        i := i + 1;
      }
      assert rows[..i] == rows && rows[i..] == [];
    }

    /** The holidays loop. */
    method ProcessHolidays(today: Date) returns (entries: seq<Notification>)
      requires ValidDate(today)
      modifies this
      ensures entries == HolidayEntries(old(holidays), today)
      ensures holidays == EvaluatedHolidays(old(holidays), today)
      ensures events == old(events) && anniversaries == old(anniversaries)
    {
      ghost var rows := holidays;
      entries := [];
      var i, n := 0, |holidays|;
      while i < n
        invariant 0 <= i <= n == |rows|
        invariant holidays == EvaluatedHolidays(rows[..i], today) + rows[i..]
        invariant entries == HolidayEntries(rows[..i], today)
        invariant events == old(events) && anniversaries == old(anniversaries)
      {
        PrefixAt(EvaluatedHolidays(rows[..i], today), rows, i);
        var row, entry := EvaluateHoliday(holidays[i], today);
        HolidayEntriesStep(rows, i, today);
        EvaluatedHolidaysStep(rows, i, today);
        holidays := holidays[i := row];
        entries := entries + Listed(entry);
        i := i + 1;
      }
      assert rows[..i] == rows && rows[i..] == [];
    }

    /** One pass: events, anniversaries, then holidays when they are shown; the result
        is what the display receives (empty means "nothing to notify"). */
    method CheckEvents(today: Date, f: Filters) returns (shown: seq<Notification>)
      requires ValidDate(today) && Ready(today)
      modifies this
      ensures shown == Notifications(old(events), old(anniversaries), old(holidays), today, f)
      ensures events == EvaluatedEvents(old(events), today)
      ensures anniversaries == EvaluatedAnniversaries(old(anniversaries), today)
      ensures holidays == if f.showHolidays then EvaluatedHolidays(old(holidays), today) else old(holidays)
    {
      var eventEntries := ProcessEvents(today, f);
      var anniversaryEntries := ProcessAnniversaries(today, f);
      var holidayEntries := [];
      if f.showHolidays {
        holidayEntries := ProcessHolidays(today);
      }
      shown := SortByDate(holidayEntries + eventEntries + anniversaryEntries);
    }
  }
}
