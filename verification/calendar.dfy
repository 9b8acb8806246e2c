/** The calendar side of `CP_Event_Calendar_Enhancements`: the month grid, the date
    range each view queries, the map shortcode's address, the location meta box save,
    and the two ways a calendar is requested (the shortcode and the AJAX call). */
module Calendar {
  import opened Wrappers
  import opened Php
  import opened Civil
  import opened Posts
  import Host

  /** One row of the period query: the post, its `_cp_event_date` and its venue. */
  datatype CalendarEvent = CalendarEvent(id: nat, title: string, eventDate: string, location: string)

  /** A grid cell: a blank before the first of the month, or a day with the first three
      of its events and the number behind "+ N more" (0 when there is no such line). */
  datatype Cell = Blank | Day(day: nat, today: bool, shown: seq<CalendarEvent>, more: nat)

  /** At most this many event links are drawn in one day cell. */
  const MaxShown: nat := 3

  // ------------------------------------------------------------- month grid

  /** `date('Y-m-d', strtotime($event->event_date))`. */
  function EventDay(h: Host.Host, e: CalendarEvent): string {
    FormatDate(Host.DateOrEpoch(h, e.eventDate))
  }

  /** `array_filter($events, …)`: the events whose day renders as `key`, in query order. */
  function OnDay(h: Host.Host, events: seq<CalendarEvent>, key: string): (r: seq<CalendarEvent>)
    ensures |r| <= |events|
    ensures forall e :: e in r <==> e in events && EventDay(h, e) == key
  {
    if events == [] then []
    else (if EventDay(h, events[0]) == key then [events[0]] else []) + OnDay(h, events[1..], key)
  }

  /** The cell of day `day`, whose events are those rendering as `key`. */
  function DayCell(h: Host.Host, events: seq<CalendarEvent>, key: string, today: string, day: nat): (c: Cell)
    ensures c.Day? && c.day == day && (c.today <==> key == today)
  {
    var all := OnDay(h, events, key);
    Day(day, key == today, if |all| <= MaxShown then all else all[..MaxShown],
        if |all| > MaxShown then |all| - MaxShown else 0)
  }

  /** `blanks` empty cells, then one cell per key, the i-th key belonging to day i + 1. */
  function Cells(h: Host.Host, events: seq<CalendarEvent>, today: string, blanks: nat, keys: seq<string>): (g: seq<Cell>)
    ensures |g| == blanks + |keys|
  {
    seq(blanks, _ => Blank) + seq(|keys|, i requires 0 <= i < |keys| => DayCell(h, events, keys[i], today, i + 1))
  }

  /** The cell after the blanks and `i` day cells belongs to the key `keys[i]`. */
  lemma CellAt(h: Host.Host, events: seq<CalendarEvent>, today: string, blanks: nat, keys: seq<string>, i: nat)
    requires i < |keys|
    ensures Cells(h, events, today, blanks, keys)[blanks + i] == DayCell(h, events, keys[i], today, i + 1)
  {
  }

  /** `date('Y-m-01', strtotime($year_month . '-01'))`. */
  function MonthStart(h: Host.Host, yearMonth: string): (first: Date)
    ensures Valid(first) && first.day == 1
  {
    FirstOfMonth(Host.DateOrEpoch(h, yearMonth + "-01"))
  }

  /** The days of the month of `first`, as `date('t')` counts them. */
  function MonthLength(first: Date): (n: nat)
    requires Valid(first)
    ensures 28 <= n <= 31
  {
    DaysInMonth(first.year, first.month)
  }

  /** The cell keys as written: `sprintf('%s-%02d', $year_month, $day)` on the raw request value. */
  function AsWrittenKeys(yearMonth: string, n: nat): (keys: seq<string>)
    requires n <= 31
    ensures |keys| == n
  {
    seq(n, i requires 0 <= i < n => yearMonth + "-" + Fixed2(i + 1))
  }

  /** The cell keys as intended: the `Y-m-d` rendering of each day of the month shown. */
  function MonthKeys(first: Date): (keys: seq<string>)
    requires Valid(first)
    ensures |keys| == MonthLength(first)
  {
    var n := MonthLength(first);
    seq(n, i requires 0 <= i < n => FormatDate(Date(first.year, first.month, i + 1)))
  }

  /** `render_month_view($year_month, $events)` as written; `today` is `date('Y-m-d')`. */
  function MonthGridAsWritten(h: Host.Host, yearMonth: string, events: seq<CalendarEvent>, today: string): seq<Cell> {
    var first := MonthStart(h, yearMonth);
    Cells(h, events, today, Weekday(first), AsWrittenKeys(yearMonth, MonthLength(first)))
  }

  /** `render_month_view` with each cell keyed by the date it shows. */
  function MonthGrid(h: Host.Host, yearMonth: string, events: seq<CalendarEvent>, today: string): seq<Cell> {
    var first := MonthStart(h, yearMonth);
    Cells(h, events, today, Weekday(first), MonthKeys(first))
  }

  /** `w` blanks, then one day cell for each day 1 to `n`, in order. */
  predicate GridLayout(g: seq<Cell>, w: nat, n: nat) {
    && |g| == w + n
    && (forall i :: 0 <= i < w ==> g[i] == Blank)
    && (forall i :: w <= i < w + n ==> g[i].Day? && g[i].day == i - w + 1)
  }

  /** Both grids open with one blank per weekday before the first of the month, then one
      cell for each day 1 to `date('t')`, in order. */
  lemma MonthGridLayout(h: Host.Host, yearMonth: string, events: seq<CalendarEvent>, today: string)
    ensures var first := MonthStart(h, yearMonth);
      GridLayout(MonthGrid(h, yearMonth, events, today), Weekday(first), MonthLength(first))
    ensures var first := MonthStart(h, yearMonth);
      GridLayout(MonthGridAsWritten(h, yearMonth, events, today), Weekday(first), MonthLength(first))
  {
  }

  /** A day cell draws the first three of its events and counts the rest in "+ N more":
      none is lost and none is drawn twice. */
  lemma DayCellAccounts(h: Host.Host, events: seq<CalendarEvent>, key: string, today: string, day: nat)
    ensures var c := DayCell(h, events, key, today, day);
      var all := OnDay(h, events, key);
      && |c.shown| <= MaxShown
      && c.shown == all[..|c.shown|]
      && |c.shown| + c.more == |all|
      && (c.more > 0 <==> |all| > MaxShown)
  {
  }

  /** With a four-digit year, the key of day d matches an event exactly when the event
      falls on that day. */
  lemma MonthKeyMatches(first: Date, d: nat, e: Date)
    requires FourDigitYear(first) && FourDigitYear(e) && 1 <= d <= MonthLength(first)
    ensures MonthKeys(first)[d - 1] == FormatDate(e) <==> e == Date(first.year, first.month, d)
  {
    var day := Date(first.year, first.month, d);
    assert MonthKeys(first)[d - 1] == FormatDate(day);
    FormatDateInjective(day, e);
  }

  /** The grid puts each event in the cell of its own day: an event is among the events
      of day d's cell exactly when its date is day d of the month shown. */
  lemma MonthGridPlacesEvents(h: Host.Host, yearMonth: string, events: seq<CalendarEvent>, today: string,
                              e: CalendarEvent, d: nat)
    requires FourDigitYear(MonthStart(h, yearMonth)) && FourDigitYear(Host.DateOrEpoch(h, e.eventDate))
    requires e in events && 1 <= d <= MonthLength(MonthStart(h, yearMonth))
    ensures var first := MonthStart(h, yearMonth);
      e in OnDay(h, events, MonthKeys(first)[d - 1]) <==> Host.DateOrEpoch(h, e.eventDate) == Date(first.year, first.month, d)
  {
    MonthKeyMatches(MonthStart(h, yearMonth), d, Host.DateOrEpoch(h, e.eventDate));
  }

  /** The cell of day d is marked as today exactly when today is day d of the month shown. */
  lemma MonthGridMarksToday(h: Host.Host, yearMonth: string, events: seq<CalendarEvent>, now: Date, d: nat)
    requires FourDigitYear(MonthStart(h, yearMonth)) && FourDigitYear(now)
    requires 1 <= d <= MonthLength(MonthStart(h, yearMonth))
    ensures var first := MonthStart(h, yearMonth);
      var g := MonthGrid(h, yearMonth, events, FormatDate(now));
      Weekday(first) + d - 1 < |g| && (g[Weekday(first) + d - 1].today <==> now == Date(first.year, first.month, d))
  {
    MonthKeyMatches(MonthStart(h, yearMonth), d, now);
  }

  lemma NoMatchNoEvents(h: Host.Host, events: seq<CalendarEvent>, key: string)
    requires forall e :: e in events ==> EventDay(h, e) != key
    ensures OnDay(h, events, key) == []
  {
  }

  /** As written, a ten-character `Y-m-d` request value (what the calendar script sends
      when it navigates) makes every key thirteen characters long, so no event with a
      four-digit year lands in any cell and no cell is marked as today. */
  lemma AsWrittenGridEmpty(h: Host.Host, yearMonth: string, events: seq<CalendarEvent>, now: Date)
    requires |yearMonth| == 10 && FourDigitYear(now)
    requires forall e :: e in events ==> FourDigitYear(Host.DateOrEpoch(h, e.eventDate))
    ensures var g := MonthGridAsWritten(h, yearMonth, events, FormatDate(now));
      forall i :: 0 <= i < |g| && g[i].Day? ==> g[i].shown == [] && g[i].more == 0 && !g[i].today
  {
    var g := MonthGridAsWritten(h, yearMonth, events, FormatDate(now));
    forall i | 0 <= i < |g| && g[i].Day?
      ensures g[i].shown == [] && g[i].more == 0 && !g[i].today
    {
      AsWrittenCellEmpty(h, yearMonth, events, now, i);
    }
  }

  lemma AsWrittenCellEmpty(h: Host.Host, yearMonth: string, events: seq<CalendarEvent>, now: Date, i: nat)
    requires |yearMonth| == 10 && FourDigitYear(now)
    requires forall e :: e in events ==> FourDigitYear(Host.DateOrEpoch(h, e.eventDate))
    requires i < |MonthGridAsWritten(h, yearMonth, events, FormatDate(now))|
    ensures var c := MonthGridAsWritten(h, yearMonth, events, FormatDate(now))[i];
      c.Day? ==> c.shown == [] && c.more == 0 && !c.today
  {
    var first := MonthStart(h, yearMonth);
    var w := Weekday(first);
    if i >= w {
      var key := AsWrittenKeys(yearMonth, MonthLength(first))[i - w];
      assert |key| == 13;
      FormatDateLength(now);
      KeyOfOtherLengthMisses(h, events, key);
      assert MonthGridAsWritten(h, yearMonth, events, FormatDate(now))[i] == DayCell(h, events, key, FormatDate(now), i - w + 1);
    }
  }

  /** A key that is not ten characters long matches no event with a four-digit year. */
  lemma KeyOfOtherLengthMisses(h: Host.Host, events: seq<CalendarEvent>, key: string)
    requires |key| != 10
    requires forall e :: e in events ==> FourDigitYear(Host.DateOrEpoch(h, e.eventDate))
    ensures OnDay(h, events, key) == []
  {
    forall e | e in events
      ensures EventDay(h, e) != key
    {
      FormatDateLength(Host.DateOrEpoch(h, e.eventDate));
    }
    NoMatchNoEvents(h, events, key);
  }

  /** A `Y-m` request value naming the month it parses to (what the shortcode passes)
      gives the same grid as written as with the intended keys. */
  lemma AsWrittenAgreesOnYearMonth(h: Host.Host, yearMonth: string, events: seq<CalendarEvent>, today: string)
    requires yearMonth == FormatYearMonth(MonthStart(h, yearMonth))
    ensures MonthGridAsWritten(h, yearMonth, events, today) == MonthGrid(h, yearMonth, events, today)
  {
    var first := MonthStart(h, yearMonth);
    var a, b := AsWrittenKeys(yearMonth, MonthLength(first)), MonthKeys(first);
    forall i | 0 <= i < |b|
      ensures a[i] == b[i]
    {
      var y, m, d := FormatYear(first.year), Fixed2(first.month), Fixed2(i + 1);
      assert b[i] == FormatDate(Date(first.year, first.month, i + 1)) == y + "-" + m + "-" + d;
      assert a[i] == yearMonth + "-" + d;
      assert yearMonth == y + "-" + m;
    }
    assert a == b;
  }

  // ------------------------------------------------------------- period query

  /** The bounds `get_events_for_period` binds into its query. */
  datatype Period = Period(start: string, end: string)

  /** The time appended to the end bound, so that the whole last day is included. */
  const EndOfDay: string := " 23:59:59"

  /** `get_events_for_period($date, $view)`'s bounds: the month containing `$date-01`,
      or `$date` itself to thirty days after it. */
  function PeriodFor(h: Host.Host, date: string, view: string): Period {
    if view == "month" then
      var first := MonthStart(h, date);
      Period(FormatDate(first), FormatDate(LastOfMonth(first)))
    else
      Period(date, FormatDate(match h.parseDate(date)
                              case Some(d) => AddDays(d, 30)
                              case None => Date(1970, 1, 1)))
  }

  /** `meta_value >= start AND meta_value <= end . ' 23:59:59'`, compared as strings. */
  predicate InPeriod(p: Period, v: string) {
    LexLeq(p.start, v) && LexLeq(v, p.end + EndOfDay)
  }

  lemma AppendSplit(a1: string, a2: string, b1: string, b2: string)
    requires |a1| == |b1|
    ensures a1 + a2 == b1 + b2 <==> a1 == b1 && a2 == b2
  {
    if a1 + a2 == b1 + b2 {
      assert a1 == (a1 + a2)[..|a1|] && b1 == (b1 + b2)[..|b1|];
      assert a2 == (a1 + a2)[|a1|..] && b2 == (b1 + b2)[|b1|..];
    }
  }

  /** The lower bound: a stored value starting with day d's date is at or after day a's
      date exactly when d is not before a. */
  lemma LowerBoundSelects(a: Date, d: Date, t: string)
    requires FourDigitYear(a) && FourDigitYear(d)
    ensures LexLeq(FormatDate(a), FormatDate(d) + t) <==> !Before(d, a)
  {
    var A, D := FormatDate(a), FormatDate(d);
    FormatDateLength(a);
    FormatDateLength(d);
    FormatDateOrder(a, d);
    DayNumberOrder(a, d);
    assert A + "" == A;
    LexLessAppend(A, "", D, t);
    AppendSplit(A, "", D, t);
    if t != [] {
      assert LexLess("", t);
    }
  }

  /** The upper bound: a stored value of day d's date and a time up to 23:59:59 is at or
      before the end of day b exactly when d is not after b. */
  lemma UpperBoundSelects(b: Date, d: Date, t: string)
    requires FourDigitYear(b) && FourDigitYear(d) && LexLeq(t, EndOfDay)
    ensures LexLeq(FormatDate(d) + t, FormatDate(b) + EndOfDay) <==> !Before(b, d)
  {
    var B, D := FormatDate(b), FormatDate(d);
    FormatDateLength(b);
    FormatDateLength(d);
    FormatDateOrder(d, b);
    DayNumberOrder(d, b);
    LexLessAppend(D, t, B, EndOfDay);
    AppendSplit(D, t, B, EndOfDay);
  }

  /** A stored date (with any time of day up to 23:59:59 after it) lies between two
      dates' bounds exactly when its day lies between them, both ends included. */
  lemma RangeSelects(a: Date, b: Date, d: Date, t: string)
    requires FourDigitYear(a) && FourDigitYear(b) && FourDigitYear(d) && LexLeq(t, EndOfDay)
    ensures InPeriod(Period(FormatDate(a), FormatDate(b)), FormatDate(d) + t) <==> !Before(d, a) && !Before(b, d)
  {
    LowerBoundSelects(a, d, t);
    UpperBoundSelects(b, d, t);
  }

  /** The month view queries exactly the events dated in the month it draws. */
  lemma MonthPeriodSelects(h: Host.Host, date: string, d: Date, t: string)
    requires FourDigitYear(MonthStart(h, date)) && FourDigitYear(d) && LexLeq(t, EndOfDay)
    ensures var first := MonthStart(h, date);
      InPeriod(PeriodFor(h, date, "month"), FormatDate(d) + t) <==> d.year == first.year && d.month == first.month
  {
    var first := MonthStart(h, date);
    var last := LastOfMonth(first);
    RangeSelects(first, last, d, t);
    DayNumberOrder(d, first);
    DayNumberOrder(last, d);
  }

  /** The other views query the thirty-one days from the requested date on, when that
      date is already in `Y-m-d` form. */
  lemma RollingPeriodSelects(h: Host.Host, view: string, s: Date, d: Date, t: string)
    requires view != "month" && FourDigitYear(s) && h.parseDate(FormatDate(s)) == Some(s)
    requires FourDigitYear(AddDays(s, 30)) && FourDigitYear(d) && LexLeq(t, EndOfDay)
    ensures InPeriod(PeriodFor(h, FormatDate(s), view), FormatDate(d) + t) <==>
      DayNumber(s) <= DayNumber(d) <= DayNumber(s) + 30
  {
    RangeSelects(s, AddDays(s, 30), d, t);
  }

  /** The query's rows: published events with a date row inside the period. */
  predicate Listed(s: Site, p: Period, id: nat)
    requires id in s.posts
  {
    var q := s.posts[id];
    q.postType == "cp_event" && q.status == "publish"
      && "_cp_event_date" in q.meta && |q.meta["_cp_event_date"]| > 0
      && InPeriod(p, GetMeta(q.meta, "_cp_event_date"))
  }

  function RowOf(s: Site, id: nat): CalendarEvent
    requires id in s.posts
  {
    var q := s.posts[id];
    CalendarEvent(id, q.title, GetMeta(q.meta, "_cp_event_date"), GetMeta(q.meta, "_cp_event_venue"))
  }

  /** The rows for ids `from` up to the next AUTO_INCREMENT id, in id order. */
  function RowsFrom(s: Site, p: Period, from: nat): (r: seq<CalendarEvent>)
    ensures forall e :: e in r ==> from <= e.id < s.nextId && e.id in s.posts && Listed(s, p, e.id) && e == RowOf(s, e.id)
    ensures forall id :: from <= id < s.nextId && id in s.posts && Listed(s, p, id) ==> RowOf(s, id) in r
    decreases s.nextId - from
  {
    if from >= s.nextId then []
    else (if from in s.posts && Listed(s, p, from) then [RowOf(s, from)] else []) + RowsFrom(s, p, from + 1)
  }

  /** The period query's result. */
  function CalendarRows(s: Site, p: Period): seq<CalendarEvent> {
    RowsFrom(s, p, 0)
  }

  // ------------------------------------------------------------- views

  /** What `render_calendar_view` draws; a list with no events is the "No events found" notice. */
  datatype View = MonthView(cells: seq<Cell>) | WeekView(events: seq<CalendarEvent>) | ListView(events: seq<CalendarEvent>)

  /** `render_calendar_view($view, $date)` with `today` for `date('Y-m-d')`. */
  function RenderCalendarView(h: Host.Host, s: Site, view: string, date: string, today: string): (v: View)
    ensures v.MonthView? <==> view == "month"
    ensures v.WeekView? <==> view == "week"
    ensures v.MonthView? ==> v.cells == MonthGridAsWritten(h, date, CalendarRows(s, PeriodFor(h, date, view)), today)
    ensures !v.MonthView? ==> v.events == CalendarRows(s, PeriodFor(h, date, view))
  {
    var rows := CalendarRows(s, PeriodFor(h, date, view));
    if view == "month" then MonthView(MonthGridAsWritten(h, date, rows, today))
    else if view == "week" then WeekView(rows)
    else ListView(rows)
  }

  /** Every event the month query lists is in the corrected grid's cell of its own day. */
  lemma MonthViewShowsQueriedEvents(h: Host.Host, s: Site, date: string, today: string, id: nat)
    requires id in s.posts && Listed(s, PeriodFor(h, date, "month"), id) && id < s.nextId
    requires FourDigitYear(MonthStart(h, date)) && FourDigitYear(Host.DateOrEpoch(h, RowOf(s, id).eventDate))
    ensures var first := MonthStart(h, date);
      var day := Host.DateOrEpoch(h, RowOf(s, id).eventDate).day;
      var rows := CalendarRows(s, PeriodFor(h, date, "month"));
      Host.DateOrEpoch(h, RowOf(s, id).eventDate) == Date(first.year, first.month, day) ==>
        1 <= day <= MonthLength(first) && RowOf(s, id) in OnDay(h, rows, MonthKeys(first)[day - 1])
  {
    var first := MonthStart(h, date);
    var rows := CalendarRows(s, PeriodFor(h, date, "month"));
    var e := RowOf(s, id);
    var dd := Host.DateOrEpoch(h, e.eventDate);
    if dd == Date(first.year, first.month, dd.day) {
      assert e in rows;
      MonthKeyMatches(first, dd.day, dd);
    }
  }

  /** `render_calendar_shortcode`: `view` defaults to "month", the date is `current_time('Y-m')`. */
  function CalendarShortcode(h: Host.Host, s: Site, atts: map<string, string>, currentYearMonth: string, today: string): (v: View)
    ensures v.MonthView? <==> Coalesce(atts, "view", "month") == "month"
    ensures v.WeekView? <==> Coalesce(atts, "view", "month") == "week"
    ensures "view" !in atts ==> v.MonthView?
  {
    RenderCalendarView(h, s, Coalesce(atts, "view", "month"), currentYearMonth, today)
  }

  datatype CalendarError = SecurityFailed

  /** `ajax_get_calendar_events()`: a failed nonce check ends the request with an error;
      otherwise `view` and `date` default to "month" and `current_time('Y-m')` and are sanitized. */
  function AjaxCalendar(h: Host.Host, s: Site, post: map<string, string>, nonceOk: bool,
                        currentYearMonth: string, today: string): (r: Result<View, CalendarError>)
    ensures r.Failure? <==> !nonceOk
    ensures r.Success? ==> (r.value.MonthView? <==> h.sanitizeText(Coalesce(post, "view", "month")) == "month")
  {
    if !nonceOk then Failure(SecurityFailed)
    else
      Success(RenderCalendarView(h, s, h.sanitizeText(Coalesce(post, "view", "month")),
                                 h.sanitizeText(Coalesce(post, "date", currentYearMonth)), today))
  }

  /** The shortcode passes `current_time('Y-m')`, so its month view is the corrected grid. */
  lemma ShortcodeDrawsCorrectGrid(h: Host.Host, s: Site, atts: map<string, string>, yearMonth: string, today: string)
    requires Coalesce(atts, "view", "month") == "month"
    requires yearMonth == FormatYearMonth(MonthStart(h, yearMonth))
    ensures CalendarShortcode(h, s, atts, yearMonth, today) ==
      MonthView(MonthGrid(h, yearMonth, CalendarRows(s, PeriodFor(h, yearMonth, "month")), today))
  {
    AsWrittenAgreesOnYearMonth(h, yearMonth, CalendarRows(s, PeriodFor(h, yearMonth, "month")), today);
  }

  /** The shortcode's month view draws each event of the month in the cell of its day. */
  lemma ShortcodeShowsQueriedEvents(h: Host.Host, s: Site, atts: map<string, string>, yearMonth: string,
                                    today: string, id: nat)
    requires Coalesce(atts, "view", "month") == "month"
    requires yearMonth == FormatYearMonth(MonthStart(h, yearMonth))
    requires id in s.posts && Listed(s, PeriodFor(h, yearMonth, "month"), id) && id < s.nextId
    requires FourDigitYear(MonthStart(h, yearMonth)) && FourDigitYear(Host.DateOrEpoch(h, RowOf(s, id).eventDate))
    requires var first := MonthStart(h, yearMonth);
      var d := Host.DateOrEpoch(h, RowOf(s, id).eventDate);
      d.year == first.year && d.month == first.month
    ensures var v := CalendarShortcode(h, s, atts, yearMonth, today);
      var first := MonthStart(h, yearMonth);
      var day := Host.DateOrEpoch(h, RowOf(s, id).eventDate).day;
      var rows := CalendarRows(s, PeriodFor(h, yearMonth, "month"));
      && v.MonthView? && 1 <= day <= MonthLength(first) && Weekday(first) + day - 1 < |v.cells|
      && v.cells[Weekday(first) + day - 1] == DayCell(h, rows, MonthKeys(first)[day - 1], today, day)
      && RowOf(s, id) in OnDay(h, rows, MonthKeys(first)[day - 1])
  {
    var first := MonthStart(h, yearMonth);
    var dd := Host.DateOrEpoch(h, RowOf(s, id).eventDate);
    var rows := CalendarRows(s, PeriodFor(h, yearMonth, "month"));
    ShortcodeDrawsCorrectGrid(h, s, atts, yearMonth, today);
    assert dd == Date(first.year, first.month, dd.day);
    MonthViewShowsQueriedEvents(h, s, yearMonth, today, id);
    CellAt(h, rows, today, Weekday(first), MonthKeys(first), dd.day - 1);
  }

  /** As written, an AJAX month request with a `Y-m-d` date, what the calendar script
      posts, draws no event in any cell and marks no cell as today. */
  lemma AjaxDayDateDrawsNothing(h: Host.Host, s: Site, post: map<string, string>, currentYearMonth: string, now: Date)
    requires h.sanitizeText(Coalesce(post, "view", "month")) == "month"
    requires |h.sanitizeText(Coalesce(post, "date", currentYearMonth))| == 10 && FourDigitYear(now)
    requires var date := h.sanitizeText(Coalesce(post, "date", currentYearMonth));
      forall e :: e in CalendarRows(s, PeriodFor(h, date, "month")) ==> FourDigitYear(Host.DateOrEpoch(h, e.eventDate))
    ensures var r := AjaxCalendar(h, s, post, true, currentYearMonth, FormatDate(now));
      && r.Success? && r.value.MonthView?
      && forall i :: 0 <= i < |r.value.cells| && r.value.cells[i].Day? ==>
           r.value.cells[i].shown == [] && r.value.cells[i].more == 0 && !r.value.cells[i].today
  {
    var date := h.sanitizeText(Coalesce(post, "date", currentYearMonth));
    AsWrittenGridEmpty(h, date, CalendarRows(s, PeriodFor(h, date, "month")), now);
  }

  // ------------------------------------------------------------- location

  /** The location meta box's fields, in the order `save_location_meta` saves them. */
  const LocationFields: seq<string> := ["venue", "address", "city", "state", "zip", "latitude", "longitude"]

  /** `'cp_event_' . $field`: the form field name. */
  function FieldName(field: string): string {
    "cp_event_" + field
  }

  /** `'_' . $key`: the meta key the field is stored under. */
  function LocationKey(field: string): string {
    "_" + FieldName(field)
  }

  lemma LocationKeyInjective(f: string, g: string)
    ensures LocationKey(f) == LocationKey(g) <==> f == g
  {
    if LocationKey(f) == LocationKey(g) {
      assert f == LocationKey(f)[10..] && g == LocationKey(g)[10..];
    }
  }

  /** The `foreach` over `fields`: each posted field overwrites its meta key with the
      sanitized value, and nothing else changes. */
  function SaveFields(h: Host.Host, meta: Meta, post: map<string, string>, fields: seq<string>): (r: Meta)
    ensures forall k :: (forall i :: 0 <= i < |fields| ==> k != LocationKey(fields[i])) ==> Agree(r, meta, k)
    decreases |fields|
  {
    if fields == [] then meta
    else
      var m := if FieldName(fields[0]) in post
        then UpdatePostMeta(meta, LocationKey(fields[0]), h.sanitizeText(post[FieldName(fields[0])]))
        else meta;
      SaveFields(h, m, post, fields[1..])
  }

  /** A field that is posted is readable back as its sanitized value; one that is not
      keeps its rows. */
  lemma {:induction false} SaveFieldsWrites(h: Host.Host, meta: Meta, post: map<string, string>, fields: seq<string>, f: string)
    requires f in fields
    ensures var r := SaveFields(h, meta, post, fields);
      && (FieldName(f) in post ==> GetMeta(r, LocationKey(f)) == h.sanitizeText(post[FieldName(f)]))
      && (FieldName(f) !in post ==> Agree(r, meta, LocationKey(f)))
    decreases |fields|
  {
    var m := if FieldName(fields[0]) in post
      then UpdatePostMeta(meta, LocationKey(fields[0]), h.sanitizeText(post[FieldName(fields[0])]))
      else meta;
    LocationKeyInjective(f, fields[0]);
    if f in fields[1..] {
      SaveFieldsWrites(h, m, post, fields[1..], f);
    } else {
      assert f == fields[0];
      forall i | 0 <= i < |fields[1..]|
        ensures LocationKey(f) != LocationKey(fields[1..][i])
      {
        LocationKeyInjective(f, fields[1..][i]);
      }
      var r := SaveFields(h, m, post, fields[1..]);
      assert Agree(r, m, LocationKey(f));
    }
  }

  /** `save_location_meta($post_id)`: nothing is saved without the nonce field and a valid
      nonce, during an autosave, or without the `edit_post` capability. */
  function SaveLocationMeta(h: Host.Host, meta: Meta, post: map<string, string>,
                            nonceOk: bool, autosave: bool, canEdit: bool): (r: Meta)
    ensures "cp_event_location_nonce" !in post || !nonceOk || autosave || !canEdit ==> r == meta
    ensures forall k :: (forall i :: 0 <= i < |LocationFields| ==> k != LocationKey(LocationFields[i])) ==> Agree(r, meta, k)
  {
    if "cp_event_location_nonce" !in post || !nonceOk || autosave || !canEdit then meta
    else SaveFields(h, meta, post, LocationFields)
  }

  /** What `render_event_map` shows: the notice, or the map with its address line. */
  datatype EventMap = CoordinatesMissing | Map(latitude: string, longitude: string, address: string)

  /** `array_filter($parts)`: the parts PHP finds truthy, in order. */
  function Truthy(parts: seq<string>): (r: seq<string>)
    ensures |r| <= |parts|
    ensures forall x :: x in r <==> x in parts && !Empty(x)
  {
    if parts == [] then []
    else (if Empty(parts[0]) then [] else [parts[0]]) + Truthy(parts[1..])
  }

  /** `implode($sep, $parts)`. */
  function Join(parts: seq<string>, sep: string): string {
    if parts == [] then "" else if |parts| == 1 then parts[0] else parts[0] + sep + Join(parts[1..], sep)
  }

  /** Joining one more part adds the separator and that part at the end. */
  lemma {:induction false} JoinAppend(parts: seq<string>, p: string, sep: string)
    requires parts != []
    ensures Join(parts + [p], sep) == Join(parts, sep) + sep + p
    decreases |parts|
  {
    if |parts| == 1 {
      assert parts + [p] == [parts[0], p];
    } else {
      assert (parts + [p])[1..] == parts[1..] + [p];
      JoinAppend(parts[1..], p, sep);
    }
  }

  /** `render_event_map` for an event with meta `meta`. */
  function MapAddress(meta: Meta): (m: EventMap)
    ensures m.CoordinatesMissing? <==>
      Empty(GetMeta(meta, LocationKey("latitude"))) || Empty(GetMeta(meta, LocationKey("longitude")))
    ensures m.Map? ==> m.latitude == GetMeta(meta, LocationKey("latitude")) && m.longitude == GetMeta(meta, LocationKey("longitude"))
  {
    var lat, lng := GetMeta(meta, LocationKey("latitude")), GetMeta(meta, LocationKey("longitude"));
    if Empty(lat) || Empty(lng) then CoordinatesMissing
    else
      Map(lat, lng, Join(Truthy([GetMeta(meta, LocationKey("venue")), GetMeta(meta, LocationKey("address")),
                                  GetMeta(meta, LocationKey("city")), GetMeta(meta, LocationKey("state"))]), ", "))
  }

  lemma {:induction false} TruthyAllSet(parts: seq<string>)
    requires forall i :: 0 <= i < |parts| ==> !Empty(parts[i])
    ensures Truthy(parts) == parts
  {
    if parts != [] {
      TruthyAllSet(parts[1..]);
      assert parts == [parts[0]] + parts[1..];
    }
  }

  lemma JoinFour(a: string, b: string, c: string, d: string, sep: string)
    ensures Join([a, b, c, d], sep) == a + sep + b + sep + c + sep + d
  {
    assert Join([a, b], sep) == a + sep + b by {
      assert [a, b][1..] == [b];
    }
    JoinAppend([a, b], c, sep);
    assert [a, b] + [c] == [a, b, c];
    JoinAppend([a, b, c], d, sep);
    assert [a, b, c] + [d] == [a, b, c, d];
  }

  /** With every part set, the address line is venue, address, city and state joined by ", ". */
  lemma MapAddressAllParts(venue: string, address: string, city: string, state: string)
    requires !Empty(venue) && !Empty(address) && !Empty(city) && !Empty(state)
    ensures Join(Truthy([venue, address, city, state]), ", ") == venue + ", " + address + ", " + city + ", " + state
  {
    TruthyAllSet([venue, address, city, state]);
    JoinFour(venue, address, city, state, ", ");
  }

  /** An unset part leaves no empty slot: a venue and a city alone read "venue, city". */
  lemma MapAddressSkipsUnset(venue: string, city: string)
    requires !Empty(venue) && !Empty(city)
    ensures Join(Truthy([venue, "", city, ""]), ", ") == venue + ", " + city
  {
    assert [""][1..] == [];
    assert Truthy([""]) == [];
    assert [city, ""][1..] == [""];
    assert Truthy([city, ""]) == [city];
    assert ["", city, ""][1..] == [city, ""];
    assert Truthy(["", city, ""]) == [city];
    assert [venue, "", city, ""][1..] == ["", city, ""];
    assert Truthy([venue, "", city, ""]) == [venue, city];
    assert Join([venue, city], ", ") == venue + ", " + city by {
      assert [venue, city][1..] == [city];
    }
  }

  /** The value `save_location_meta` stores for a posted field. */
  function Saved(h: Host.Host, post: map<string, string>, f: string): string
    requires FieldName(f) in post
  {
    h.sanitizeText(post[FieldName(f)])
  }

  /** A field posted with a full location form reads back as its sanitized value. */
  lemma SavedReadsBack(h: Host.Host, meta: Meta, post: map<string, string>, f: string)
    requires "cp_event_location_nonce" in post && f in LocationFields && FieldName(f) in post
    ensures GetMeta(SaveLocationMeta(h, meta, post, true, false, true), LocationKey(f)) == Saved(h, post, f)
  {
    SaveFieldsWrites(h, meta, post, LocationFields, f);
  }

  /** Saving a full location form and drawing its map: the map shows exactly the saved
      coordinates and the saved address parts that are set. */
  lemma SavedLocationMaps(h: Host.Host, meta: Meta, post: map<string, string>)
    requires "cp_event_location_nonce" in post
    requires forall i :: 0 <= i < |LocationFields| ==> FieldName(LocationFields[i]) in post
    ensures FieldName("venue") in post && FieldName("address") in post && FieldName("city") in post
    ensures FieldName("state") in post && FieldName("latitude") in post && FieldName("longitude") in post
    ensures var m := MapAddress(SaveLocationMeta(h, meta, post, true, false, true));
      && (m.CoordinatesMissing? <==> Empty(Saved(h, post, "latitude")) || Empty(Saved(h, post, "longitude")))
      && (m.Map? ==> m == Map(Saved(h, post, "latitude"), Saved(h, post, "longitude"),
                              Join(Truthy([Saved(h, post, "venue"), Saved(h, post, "address"),
                                           Saved(h, post, "city"), Saved(h, post, "state")]), ", ")))
  {
    assert LocationFields[0] == "venue" && LocationFields[1] == "address" && LocationFields[2] == "city";
    assert LocationFields[3] == "state" && LocationFields[5] == "latitude" && LocationFields[6] == "longitude";
    SavedReadsBack(h, meta, post, "venue");
    SavedReadsBack(h, meta, post, "address");
    SavedReadsBack(h, meta, post, "city");
    SavedReadsBack(h, meta, post, "state");
    SavedReadsBack(h, meta, post, "latitude");
    SavedReadsBack(h, meta, post, "longitude");
  }
}
