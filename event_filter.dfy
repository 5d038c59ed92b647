/** The filter of the events page (filterEvents and handleNoResults in
    js/eventi.js). Each event element is kept visible only if it passes the
    category test, the date-window test and the case-insensitive search;
    the visible ones are counted and a single "no results" message is
    present exactly when none is visible. Dates are whole day numbers at
    local midnight; today, its day of the week and the last day of the
    current month are inputs. */
module EventFilter {
  import opened Wrappers

  /** The data-date attribute of an element: absent or empty, text that
      `new Date` cannot parse (an Invalid Date, whose time is NaN), or a
      day. */
  datatype EventDate = NoDate | Unparsable | OnDay(day: int)

  /** One `.event-card` or `.event-row` element: its data-category, its
      data-date, and the text of its title and description elements (None:
      no such element). */
  datatype Event = Event(
    category: Option<string>,
    date: EventDate,
    title: Option<string>,
    description: Option<string>)

  /** The filter controls: the data-value of the active category and date
      items (None: no active item or no attribute) and the search box's
      text (None: no search box on the page). */
  datatype Controls = Controls(
    activeCategory: Option<string>,
    activeDate: Option<string>,
    searchBox: Option<string>)

  /** The three values the filter compares against. */
  datatype Query = Query(category: string, date: string, term: string)

  /** `today` at midnight as a day number, today.getDay() (0 is Sunday) and
      the day number of the last day of the current month. */
  datatype Calendar = Calendar(today: int, weekday: int, monthEnd: int)

  /** Where the "no results" element is: nowhere, in the grid or in the
      list. */
  datatype Message = NoMessage | InGrid | InList

  /** Whether the grid container exists and is the active view, and whether
      the list container exists. */
  datatype Layout = Layout(gridActive: bool, hasList: bool)

  predicate IsUpper(c: char) { 'A' <= c <= 'Z' }

  /** toLowerCase on one character, for ASCII letters. */
  function LowerChar(c: char): (l: char)
    ensures !IsUpper(l)
    ensures IsUpper(c) ==> 'a' <= l <= 'z' && l as int - 'a' as int == c as int - 'A' as int
    ensures !IsUpper(c) ==> l == c
  {
    if IsUpper(c) then (c as int + 32) as char else c
  }

  /** toLowerCase on a string: same length, no upper-case letter left,
      every other character kept. */
  function Lower(s: string): (r: string)
    ensures |r| == |s|
    ensures forall i :: 0 <= i < |r| ==> !IsUpper(r[i])
    ensures forall i :: 0 <= i < |s| ==> r[i] == LowerChar(s[i])
  {
    seq(|s|, i requires 0 <= i < |s| => LowerChar(s[i]))
  }

  /** Lower-casing twice is lower-casing once. */
  lemma LowerIdempotent(s: string)
    ensures Lower(Lower(s)) == Lower(s)
  {
    assert forall i :: 0 <= i < |s| ==> Lower(Lower(s))[i] == Lower(s)[i];
  }

  /** t occurs in s at position i. */
  ghost predicate OccursAt(t: string, s: string, i: int) {
    0 <= i <= |s| - |t| && s[i..i + |t|] == t
  }

  /** t occurs in s at some position. */
  ghost predicate Occurs(t: string, s: string) {
    exists i :: OccursAt(t, s, i)
  }

  /** String.prototype.includes: s contains t. */
  function Contains(s: string, t: string): (b: bool)
    ensures b <==> Occurs(t, s)
    decreases |s|
  {
    if |t| > |s| then false
    else if s[..|t|] == t then
      assert OccursAt(t, s, 0);
      true
    else
      OccursAfterFirst(t, s);
      Contains(s[1..], t)
  }

  /** When t does not start s, it occurs in s iff it occurs in s[1..]. */
  lemma OccursAfterFirst(t: string, s: string)
    requires |t| <= |s| && s[..|t|] != t
    ensures Occurs(t, s) <==> Occurs(t, s[1..])
  {
    if Occurs(t, s) {
      var i :| OccursAt(t, s, i);
      assert i != 0;
      assert s[1..][i - 1..i - 1 + |t|] == s[i..i + |t|];
      assert OccursAt(t, s[1..], i - 1);
    }
    if Occurs(t, s[1..]) {
      var i :| OccursAt(t, s[1..], i);
      assert s[i + 1..i + 1 + |t|] == s[1..][i..i + |t|];
      assert OccursAt(t, s, i + 1);
    }
  }

  /** `item?.getAttribute('data-value') || 'all'`: no item, no attribute and
      the empty string all mean "all". */
  function Choice(value: Option<string>): (sel: string)
    ensures sel != ""
    ensures (value.None? || value.value == "") ==> sel == "all"
    ensures value.Some? && value.value != "" ==> sel == value.value
  {
    if value.None? || value.value == "" then "all" else value.value
  }

  /** The query filterEvents reads from the controls; the search term is
      lower-cased, and empty when there is no search box. */
  function ReadControls(c: Controls): (q: Query)
    ensures q.category != "" && q.date != ""
    ensures (c.activeCategory.None? || c.activeCategory.value == "") ==> q.category == "all"
    ensures (c.activeDate.None? || c.activeDate.value == "") ==> q.date == "all"
    ensures c.activeCategory.Some? && c.activeCategory.value != "" ==> q.category == c.activeCategory.value
    ensures c.activeDate.Some? && c.activeDate.value != "" ==> q.date == c.activeDate.value
    ensures c.searchBox.None? ==> q.term == ""
    ensures c.searchBox.Some? ==>
      && |q.term| == |c.searchBox.value|
      && forall i :: 0 <= i < |q.term| ==> q.term[i] == LowerChar(c.searchBox.value[i])
    ensures Lower(q.term) == q.term
  {
    var term := if c.searchBox.Some? then Lower(c.searchBox.value) else "";
    LowerIdempotent(if c.searchBox.Some? then c.searchBox.value else "");
    Query(Choice(c.activeCategory), Choice(c.activeDate), term)
  }

  /** The day of the week j days after a day of the week w (0 is Sunday). */
  function WeekdayAfter(w: int, j: int): int {
    (w + j) % 7
  }

  /** The last day of the current week, today + (7 - (getDay() || 7)): for
      a day of the week from getDay() it is the first Sunday on or after
      today, so a Sunday window holds today alone and a Monday window seven
      days. */
  function EndOfWeek(cal: Calendar): (d: int)
    ensures 0 <= cal.weekday < 7 ==>
      && 0 <= d - cal.today <= 6
      && WeekdayAfter(cal.weekday, d - cal.today) == 0
      && (forall j :: 0 <= j < d - cal.today ==> WeekdayAfter(cal.weekday, j) != 0)
    ensures cal.weekday == 0 ==> d == cal.today
    ensures cal.weekday == 1 ==> d == cal.today + 6
  {
    cal.today + (7 - (if cal.weekday == 0 then 7 else cal.weekday))
  }

  /** The category test: "all" keeps every event; any other selection keeps
      exactly the events whose data-category equals it. */
  function PassesCategory(sel: string, e: Event): (b: bool)
    ensures sel == "all" ==> b
    ensures sel != "all" ==> (b <==> e.category.Some? && e.category.value == sel)
  {
    sel == "all" || e.category == Some(sel)
  }

  /** The date test. A day compares by value; an Invalid Date is never equal
      to today or tomorrow, and every `<`/`>` with it is false, so it stays
      inside the week and month windows. Any other selection than the five
      known ones only hides undated events. */
  function PassesDate(sel: string, d: EventDate, cal: Calendar): (b: bool)
    ensures sel == "all" ==> b
    ensures d.NoDate? ==> (b <==> sel == "all")
    ensures b && d.OnDay? && sel in {"today", "tomorrow", "week", "month"} ==> cal.today <= d.day
  {
    sel == "all" ||
    match d
    case NoDate => false
    case Unparsable => sel != "today" && sel != "tomorrow"
    case OnDay(n) =>
      && (sel == "today" ==> n == cal.today)
      && (sel == "tomorrow" ==> n == cal.today + 1)
      && (sel == "week" ==> cal.today <= n <= EndOfWeek(cal))
      && (sel == "month" ==> cal.today <= n <= cal.monthEnd)
  }

  /** The search test on the lower-cased title and description; a missing
      element reads as the empty string. */
  function PassesSearch(term: string, e: Event): (b: bool)
    ensures term == "" ==> b
    ensures b ==> |term| <= |e.title.GetOr("")| || |term| <= |e.description.GetOr("")|
  {
    term == "" ||
    Contains(Lower(e.title.GetOr("")), term) ||
    Contains(Lower(e.description.GetOr("")), term)
  }

  /** An event stays visible iff it passes all three tests: the neutral
      query shows every event, and a shown event has the selected category
      and, unless the date selection is "all", a data-date. */
  function Shown(q: Query, cal: Calendar, e: Event): (b: bool)
    ensures q == Query("all", "all", "") ==> b
    ensures b && q.category != "all" ==> e.category == Some(q.category)
    ensures b && q.date != "all" ==> !e.date.NoDate?
  {
    PassesCategory(q.category, e) && PassesDate(q.date, e.date, cal) && PassesSearch(q.term, e)
  }

  /** The date rules one by one. */
  lemma DateRules(sel: string, n: int, cal: Calendar)
    ensures sel != "all" ==> !PassesDate(sel, NoDate, cal)
    ensures PassesDate("today", OnDay(n), cal) <==> n == cal.today
    ensures PassesDate("tomorrow", OnDay(n), cal) <==> n == cal.today + 1
    ensures PassesDate("week", OnDay(n), cal) <==> cal.today <= n <= EndOfWeek(cal)
    ensures PassesDate("month", OnDay(n), cal) <==> cal.today <= n <= cal.monthEnd
    ensures sel !in {"all", "today", "tomorrow", "week", "month"} ==>
      PassesDate(sel, OnDay(n), cal) && PassesDate(sel, Unparsable, cal) && !PassesDate(sel, NoDate, cal)
    ensures PassesDate("week", Unparsable, cal) && PassesDate("month", Unparsable, cal)
    ensures !PassesDate("today", Unparsable, cal) && !PassesDate("tomorrow", Unparsable, cal)
  {
  }

  /** The search rule: an empty term keeps everything; otherwise the term
      must occur in the lower-cased title or description, so the match
      ignores the case of the event text. */
  lemma SearchRule(term: string, e: Event)
    ensures term == "" ==> PassesSearch(term, e)
    ensures term != "" ==>
      (PassesSearch(term, e) <==>
        Occurs(term, Lower(e.title.GetOr(""))) || Occurs(term, Lower(e.description.GetOr(""))))
  {
  }

  /** The number of events that stay visible. */
  function CountShown(q: Query, cal: Calendar, events: seq<Event>): (n: nat)
    ensures n <= |events|
    ensures (forall i :: 0 <= i < |events| ==> Shown(q, cal, events[i])) ==> n == |events|
    decreases |events|
  {
    if events == [] then 0
    else CountShown(q, cal, events[..|events| - 1]) + (if Shown(q, cal, events[|events| - 1]) then 1 else 0)
  }

  /** The count is at most the number of events, and it is zero iff no
      event passes. */
  lemma {:induction false} CountShownZero(q: Query, cal: Calendar, events: seq<Event>)
    ensures CountShown(q, cal, events) <= |events|
    ensures CountShown(q, cal, events) == 0 <==> forall i :: 0 <= i < |events| ==> !Shown(q, cal, events[i])
    decreases |events|
  {
    if events != [] {
      var init := events[..|events| - 1];
      CountShownZero(q, cal, init);
      assert forall i :: 0 <= i < |init| ==> init[i] == events[i];
    }
  }

  /** handleNoResults: with nothing visible an existing message stays where
      it is, and a missing one is appended to the grid when that is the
      active view, else to the list; with something visible the message is
      removed. */
  function HandleNoResults(visibleCount: nat, current: Message, layout: Layout): (r: Message)
    ensures r != NoMessage <==> visibleCount == 0 && (current != NoMessage || layout.gridActive || layout.hasList)
    ensures visibleCount == 0 && current != NoMessage ==> r == current
    ensures visibleCount == 0 && current == NoMessage && layout.gridActive ==> r == InGrid
    ensures visibleCount == 0 && current == NoMessage && !layout.gridActive && layout.hasList ==> r == InList
  {
    if visibleCount == 0 then
      if current != NoMessage then current
      else if layout.gridActive then InGrid
      else if layout.hasList then InList
      else NoMessage
    else NoMessage
  }

  /** The body of filterEvents' forEach for one element: a flag that starts
      true and is cleared by the category, date and search tests in turn. */
  method DecideEvent(q: Query, cal: Calendar, e: Event) returns (showEvent: bool)
    ensures showEvent == Shown(q, cal, e)
  {
    showEvent := true;
    if q.category != "all" && e.category != Some(q.category) {
      showEvent := false;
    }
    if q.date != "all" && showEvent {
      match e.date
      case NoDate =>
        showEvent := false;
      case Unparsable =>
        if q.date == "today" || q.date == "tomorrow" {
          showEvent := false;
        }
      case OnDay(d) =>
        if q.date == "today" && d != cal.today {
          showEvent := false;
        } else if q.date == "tomorrow" && d != cal.today + 1 {
          showEvent := false;
        } else if q.date == "week" && (d < cal.today || d > EndOfWeek(cal)) {
          showEvent := false;
        } else if q.date == "month" && (d < cal.today || d > cal.monthEnd) {
          showEvent := false;
        }
    }
    if q.term != "" && showEvent {
      var title := Lower(e.title.GetOr(""));
      var description := Lower(e.description.GetOr(""));
      if !Contains(title, q.term) && !Contains(description, q.term) {
        showEvent := false;
      }
    }
  }

  /** filterEvents: decide each element's display with a running flag, as
      the page does, count the visible ones and update the message. */
  method FilterEvents(events: seq<Event>, controls: Controls, cal: Calendar, layout: Layout, current: Message)
    returns (display: seq<bool>, visibleCount: nat, message: Message)
    ensures |display| == |events|
    ensures forall i :: 0 <= i < |events| ==> display[i] == Shown(ReadControls(controls), cal, events[i])
    ensures visibleCount == CountShown(ReadControls(controls), cal, events)
    ensures message == HandleNoResults(visibleCount, current, layout)
  {
    var q := ReadControls(controls);
    display := [];
    visibleCount := 0;
    var i := 0;
    while i < |events|
      invariant 0 <= i <= |events|
      invariant |display| == i
      invariant forall k :: 0 <= k < i ==> display[k] == Shown(q, cal, events[k])
      invariant visibleCount == CountShown(q, cal, events[..i])
    {
      var showEvent := DecideEvent(q, cal, events[i]);
      assert events[..i + 1][..i] == events[..i];
      display := display + [showEvent];
      if showEvent {
        visibleCount := visibleCount + 1;
      }
      i := i + 1;
    }
    assert events[..|events|] == events;
    message := HandleNoResults(visibleCount, current, layout);
  }

  /** With a container to put it in, the message is present exactly when no
      event is visible. */
  lemma MessageIffNothingShown(events: seq<Event>, q: Query, cal: Calendar, layout: Layout, current: Message)
    requires layout.gridActive || layout.hasList
    ensures HandleNoResults(CountShown(q, cal, events), current, layout) != NoMessage
      <==> forall i :: 0 <= i < |events| ==> !Shown(q, cal, events[i])
  {
    CountShownZero(q, cal, events);
  }
}
