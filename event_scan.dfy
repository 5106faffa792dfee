/** The rest of `LogsCog._get_events_in_range` (cogs/logs_cog.py): resolve the
    date text, read the reports of the messages posted strictly inside that
    window, keep one user's events if asked, give each event the first
    category (in index order) that lists its name, keep one category if
    asked, and sort by timestamp. */
module EventScan {
  import opened Wrappers
  import opened Text
  import opened Sorting
  import opened DateRange
  import opened Reports
  import opened Categories

  const Other: string := "Other"

  // ----- categories ------------------------------------------------------

  /** The event list names the event, ignoring case. */
  predicate Listed(name: string, events: seq<string>) {
    exists k :: 0 <= k < |events| && Lower(events[k]) == Lower(name)
  }

  /** The position of the first category whose list names the event. */
  function FirstMatch(name: string, index: seq<Category>): (r: Option<nat>)
    ensures r.Some? ==> r.value < |index| && Listed(name, index[r.value].events)
    ensures r.Some? ==> forall j :: 0 <= j < r.value ==> !Listed(name, index[j].events)
    ensures r.None? ==> forall j :: 0 <= j < |index| ==> !Listed(name, index[j].events)
  {
    if index == [] then None
    else if Listed(name, index[0].events) then Some(0)
    else
      match FirstMatch(name, index[1..])
      case None =>
        assert forall j :: 1 <= j < |index| ==> index[j] == index[1..][j - 1];
        None
      case Some(i) =>
        assert forall j :: 1 <= j <= i ==> index[j] == index[1..][j - 1];
        Some(i + 1)
  }

  /** The category an event name falls in: the first that lists it, or
      "Other". */
  function CategoryOf(name: string, index: seq<Category>): string {
    match FirstMatch(name, index)
    case None => Other
    case Some(i) => index[i].name
  }

  /** A category that lists the event wins when no earlier one does. */
  lemma FirstListingWins(name: string, index: seq<Category>, i: nat)
    requires i < |index| && Listed(name, index[i].events)
    requires forall j :: 0 <= j < i ==> !Listed(name, index[j].events)
    ensures CategoryOf(name, index) == index[i].name
  {
    var r := FirstMatch(name, index);
    assert r.Some? && r.value == i;
  }

  /** An event that no category lists is "Other". */
  lemma UnlistedIsOther(name: string, index: seq<Category>)
    requires forall j :: 0 <= j < |index| ==> !Listed(name, index[j].events)
    ensures CategoryOf(name, index) == Other
  {
    var r := FirstMatch(name, index);
    assert r.None?;
  }

  /** Case does not matter: names that lower-case alike fall in the same
      category. */
  lemma CategoryIgnoresCase(a: string, b: string, index: seq<Category>)
    requires Lower(a) == Lower(b)
    ensures CategoryOf(a, index) == CategoryOf(b, index)
  {
    assert forall j :: 0 <= j < |index| ==> (Listed(a, index[j].events) <==> Listed(b, index[j].events));
    match FirstMatch(a, index)
    case None => UnlistedIsOther(b, index);
    case Some(i) => FirstListingWins(b, index, i);
  }

  /** The inner loop: scan the categories in order and stop at the first
      that lists the event. */
  method AssignCategory(name: string, index: seq<Category>) returns (category: string)
    ensures category == CategoryOf(name, index)
  {
    category := Other;
    var i := 0;
    while i < |index|
      invariant 0 <= i <= |index|
      invariant forall j :: 0 <= j < i ==> !Listed(name, index[j].events)
    {
      if Listed(name, index[i].events) {
        FirstListingWins(name, index, i);
        category := index[i].name;
        return;
      }
      i := i + 1;
    }
    UnlistedIsOther(name, index);
  }

  function WithCategory(e: Event, index: seq<Category>): Event {
    e.(category := Some(CategoryOf(e.eventName, index)))
  }

  /** Gives every event its category; nothing else about the events
      changes. */
  method Categorize(events: seq<Event>, index: seq<Category>) returns (out: seq<Event>)
    ensures |out| == |events|
    ensures forall k :: 0 <= k < |events| ==> out[k] == WithCategory(events[k], index)
  {
    out := [];
    for k := 0 to |events|
      invariant |out| == k
      invariant forall j :: 0 <= j < k ==> out[j] == WithCategory(events[j], index)
    {
      var category := AssignCategory(events[k].eventName, index);
      out := out + [events[k].(category := Some(category))];
    }
  }

  /** What `Categorize` computes. */
  function Categorized(events: seq<Event>, index: seq<Category>): (out: seq<Event>)
    ensures |out| == |events|
    ensures forall k :: 0 <= k < |events| ==> out[k] == WithCategory(events[k], index)
  {
    if events == [] then [] else [WithCategory(events[0], index)] + Categorized(events[1..], index)
  }

  // ----- filters ---------------------------------------------------------

  /** The events of one user, in order. */
  function OfUser(events: seq<Event>, userId: int): (r: seq<Event>)
    ensures |r| <= |events|
    ensures forall e :: e in r <==> e in events && e.userId == Some(userId)
  {
    if events == [] then []
    else
      assert forall e :: e in events <==> e == events[0] || e in events[1..];
      (if events[0].userId == Some(userId) then [events[0]] else []) + OfUser(events[1..], userId)
  }

  /** The events of one category, in order. */
  function InCategory(events: seq<Event>, name: string): (r: seq<Event>)
    ensures |r| <= |events|
    ensures forall e :: e in r <==> e in events && e.category == Some(name)
  {
    if events == [] then []
    else
      assert forall e :: e in events <==> e == events[0] || e in events[1..];
      (if events[0].category == Some(name) then [events[0]] else []) + InCategory(events[1..], name)
  }

  /** `if user_id:` — no user and user 0 both leave the events as they are. */
  predicate UserFilterOn(userId: Option<int>) {
    userId.Some? && userId.value != 0
  }

  /** `if category_name:` — no name and the empty name both leave the events
      as they are. */
  predicate CategoryFilterOn(categoryName: Option<string>) {
    categoryName.Some? && categoryName.value != []
  }

  function ByUser(events: seq<Event>, userId: Option<int>): seq<Event> {
    if UserFilterOn(userId) then OfUser(events, userId.value) else events
  }

  function ByCategory(events: seq<Event>, categoryName: Option<string>): seq<Event> {
    if CategoryFilterOn(categoryName) then InCategory(events, categoryName.value) else events
  }

  // ----- order -----------------------------------------------------------

  /** The sort key: the message timestamp. */
  function Earlier(): (le: (Event, Event) -> bool)
    ensures TotalPreorder(le)
  {
    (a: Event, b: Event) => a.timestamp <= b.timestamp
  }

  // ----- the whole scan --------------------------------------------------

  /** The channel history between the two instants, both excluded. */
  function Window(history: seq<Message>, start: int, end: int): (r: seq<Message>)
    ensures forall m :: m in r <==> m in history && start < m.createdAt < end
  {
    if history == [] then []
    else
      assert forall m :: m in history <==> m == history[0] || m in history[1..];
      (if start < history[0].createdAt < end then [history[0]] else []) + Window(history[1..], start, end)
  }

  /** The events of the history in a resolved window, before sorting. */
  function Selected(history: seq<Message>, start: int, end: int, userId: Option<int>,
                    categoryName: Option<string>, index: seq<Category>): seq<Event>
  {
    ByCategory(Categorized(ByUser(ReportsOf(Window(history, start, end)), userId), index), categoryName)
  }

  /** What `_get_events_in_range` returns, or the date error it raises. */
  function EventsInRange(history: seq<Message>, dateText: string, year: int, userId: Option<int>,
                         categoryName: Option<string>, index: seq<Category>): Result<seq<Event>, DateError>
    requires 1000 <= year <= 9999
  {
    match ParseDateRange(dateText, year)
    case Err(e) => Err(e)
    case Ok((start, end)) => Ok(SortBy(Selected(history, start, end, userId, categoryName, index), Earlier()))
  }

  method GetEventsInRange(history: seq<Message>, dateText: string, year: int, userId: Option<int>,
                          categoryName: Option<string>, index: seq<Category>)
    returns (r: Result<seq<Event>, DateError>)
    requires 1000 <= year <= 9999
    ensures r == EventsInRange(history, dateText, year, userId, categoryName, index)
  {
    var range := ParseDateRange(dateText, year);
    if range.Err? {
      return Err(range.error);
    }
    var (start, end) := range.value;
    var events := CollectReports(Window(history, start, end));
    if UserFilterOn(userId) {
      events := OfUser(events, userId.value);
    }
    events := Categorize(events, index);
    assert events == Categorized(ByUser(ReportsOf(Window(history, start, end)), userId), index);
    if CategoryFilterOn(categoryName) {
      events := InCategory(events, categoryName.value);
    }
    r := Ok(SortBy(events, Earlier()));
  }

  // ----- what the scan promises ------------------------------------------

  /** Every event returned comes from a report posted inside the window,
      carries points, has its category, and passes both filters. */
  lemma SelectedEvents(history: seq<Message>, start: int, end: int, userId: Option<int>,
                       categoryName: Option<string>, index: seq<Category>, e: Event)
    requires e in Selected(history, start, end, userId, categoryName, index)
    ensures e.points != 0 && start < e.timestamp < end
    ensures e.category == Some(CategoryOf(e.eventName, index))
    ensures UserFilterOn(userId) ==> e.userId == userId
    ensures CategoryFilterOn(categoryName) ==> e.category == categoryName
  {
    var window := Window(history, start, end);
    var byUser := ByUser(ReportsOf(window), userId);
    var categorized := Categorized(byUser, index);
    assert e in categorized;
    var k :| 0 <= k < |categorized| && categorized[k] == e;
    var original := byUser[k];
    assert e == WithCategory(original, index);
    assert original in ReportsOf(window);
    var m :| m in window && m.createdAt == original.timestamp;
  }

  /** And every report inside the window that passes the filters is
      returned. */
  lemma SelectedComplete(history: seq<Message>, start: int, end: int, userId: Option<int>,
                         categoryName: Option<string>, index: seq<Category>, e: Event)
    requires e in ReportsOf(Window(history, start, end))
    requires UserFilterOn(userId) ==> e.userId == userId
    requires CategoryFilterOn(categoryName) ==> Some(CategoryOf(e.eventName, index)) == categoryName
    ensures WithCategory(e, index) in Selected(history, start, end, userId, categoryName, index)
  {
    var byUser := ByUser(ReportsOf(Window(history, start, end)), userId);
    assert e in byUser;
    var k :| 0 <= k < |byUser| && byUser[k] == e;
    assert Categorized(byUser, index)[k] == WithCategory(e, index);
  }

  /** The result is in timestamp order and holds the selected events, each
      as often as it was selected; equal timestamps keep the order in which
      the reports were read. */
  lemma ScanOrdered(history: seq<Message>, dateText: string, year: int, userId: Option<int>,
                    categoryName: Option<string>, index: seq<Category>)
    requires 1000 <= year <= 9999
    requires ParseDateRange(dateText, year).Ok?
    ensures var (start, end) := ParseDateRange(dateText, year).value;
      var selected := Selected(history, start, end, userId, categoryName, index);
      var r := EventsInRange(history, dateText, year, userId, categoryName, index).value;
      && SortedBy(r, Earlier())
      && multiset(r) == multiset(selected)
      && forall y :: TiedWith(r, y, Earlier()) == TiedWith(selected, y, Earlier())
  {
    var (start, end) := ParseDateRange(dateText, year).value;
    var selected := Selected(history, start, end, userId, categoryName, index);
    SortByIsSorted(selected, Earlier());
    forall y ensures TiedWith(SortBy(selected, Earlier()), y, Earlier()) == TiedWith(selected, y, Earlier()) {
      SortByIsStable(selected, y, Earlier());
    }
  }
}
