/** `PointCog` (cogs/point_cog.py): the ledger of manually granted points,
    kept in manual_points.json. The modal validates a submission into an
    entry and appends it; `/point remove` offers the 25 newest entries and
    drops the one picked; `/point list` groups the entries by user. */
module PointLedger {
  import opened Wrappers
  import opened Text
  import opened Calendar
  import opened Sorting
  import opened DateRange

  /** One ledger entry. `entryId` is the `uuid4` string the modal draws. */
  datatype Entry = Entry(entryId: string, userId: int, points: int, eventName: string, endTimeIso: string)

  /** A wall-clock reading as `strptime` reads it from the modal. */
  datatype Stamp = Stamp(year: int, month: int, day: int, hour: int, minute: int)

  predicate ValidStamp(st: Stamp) {
    ValidDate(st.year, st.month, st.day) && 0 <= st.hour < 24 && 0 <= st.minute < 60
  }

  // ----- the modal's end time: '%H:%M %d.%m.%Y' --------------------------

  /** What `%H` matches: one digit, or 00 to 23 on two. */
  predicate HourToken(t: string) {
    || (|t| == 1 && IsDigit(t[0]))
    || (|t| == 2 && (((t[0] == '0' || t[0] == '1') && IsDigit(t[1])) || (t[0] == '2' && '0' <= t[1] <= '3')))
  }

  /** What `%M` matches: one digit, or 00 to 59 on two. */
  predicate MinuteToken(t: string) {
    || (|t| == 1 && IsDigit(t[0]))
    || (|t| == 2 && '0' <= t[0] <= '5' && IsDigit(t[1]))
  }

  lemma TokenValue(t: string)
    requires HourToken(t) || MinuteToken(t)
    ensures HourToken(t) ==> DigitsValue(t) < 24
    ensures MinuteToken(t) ==> DigitsValue(t) < 60
  {
    var a := t[..|t| - 1];
    assert a[..|a|] == a;
    if |t| == 2 {
      assert a == [t[0]] && a[..0] == [];
      assert DigitsValue(a) == DigitValue(t[0]);
    } else {
      assert a == [];
    }
  }

  /** The `%H:%M` part: an hour and a minute separated by one colon. */
  function ParseClock(clock: string): (r: Option<(int, int)>)
    ensures r.Some? ==> 0 <= r.value.0 < 24 && 0 <= r.value.1 < 60
  {
    var parts := SplitOn(clock, ':');
    if |parts| == 2 && HourToken(parts[0]) && MinuteToken(parts[1]) then
      TokenValue(parts[0]);
      TokenValue(parts[1]);
      Some((DigitsValue(parts[0]), DigitsValue(parts[1])))
    else None
  }

  /** `datetime.strptime(text, '%H:%M %d.%m.%Y')`: the clock, a run of
      whitespace (the format's space), then the date, and nothing more.
      `None` stands for the `ValueError`. */
  function ParseEndTime(text: string): (r: Option<Stamp>)
    ensures r.Some? ==> ValidStamp(r.value)
  {
    var n := WordLength(text);
    var rest := text[n..];
    var gap := LeadingSpaces(rest);
    if gap == 0 then None
    else
      match (ParseClock(text[..n]), ParseDayMonthYear(rest[gap..]))
      case (Some((hour, minute)), Some(d)) => Some(Stamp(d.year, d.month, d.day, hour, minute))
      case _ => None
  }

  /** `moscow_tz.localize(dt).isoformat()` at the fixed offset +03:00. */
  function Iso(st: Stamp): string
    requires ValidStamp(st)
  {
    Pad4(st.year) + "-" + Pad2(st.month) + "-" + Pad2(st.day)
      + "T" + Pad2(st.hour) + ":" + Pad2(st.minute) + ":00+03:00"
  }

  /** Clock readings in calendar order: year, then month, day, hour and
      minute. */
  predicate StampLe(a: Stamp, b: Stamp) {
    a.year < b.year || (a.year == b.year &&
    (a.month < b.month || (a.month == b.month &&
    (a.day < b.day || (a.day == b.day &&
    (a.hour < b.hour || (a.hour == b.hour && a.minute <= b.minute)))))))
  }

  lemma Pad2Order(a: nat, b: nat)
    requires a < 100 && b < 100
    ensures Pad2(a) == Pad2(b) <==> a == b
    ensures LexLe(Pad2(a), Pad2(b)) <==> a <= b
  {
    Pad2Value(a);
    Pad2Value(b);
    var p, q := Pad2(a), Pad2(b);
    assert p[1..] == [p[1]] && q[1..] == [q[1]];
    assert LexLe([p[1]], [q[1]]) <==> p[1] <= q[1] by {
      assert [p[1]][1..] == [] && [q[1]][1..] == [];
    }
  }

  lemma Pad4Order(a: nat, b: nat)
    requires a < 10000 && b < 10000
    ensures Pad4(a) == Pad4(b) <==> a == b
    ensures LexLe(Pad4(a), Pad4(b)) <==> a <= b
  {
    Pad2Order(a / 100, b / 100);
    Pad2Order(a % 100, b % 100);
    LexAppend(Pad2(a / 100), Pad2(b / 100), Pad2(a % 100), Pad2(b % 100));
    if Pad4(a) == Pad4(b) {
      assert Pad4(a)[..2] == Pad2(a / 100) && Pad4(b)[..2] == Pad2(b / 100);
      assert Pad4(a)[2..] == Pad2(a % 100) && Pad4(b)[2..] == Pad2(b % 100);
    }
  }

  /** The ISO text in blocks: each field, then what follows it. */
  lemma IsoBlocks(st: Stamp)
    requires ValidStamp(st)
    ensures Iso(st) == Pad4(st.year) + ("-" + (Pad2(st.month) + ("-" + (Pad2(st.day)
      + ("T" + (Pad2(st.hour) + (":" + (Pad2(st.minute) + ":00+03:00"))))))))
  {
  }

  /** Comparing the ISO texts as strings, as the sort does, compares the
      clock readings they record. */
  lemma IsoOrder(a: Stamp, b: Stamp)
    requires ValidStamp(a) && ValidStamp(b)
    ensures LexLe(Iso(a), Iso(b)) <==> StampLe(a, b)
  {
    IsoBlocks(a);
    IsoBlocks(b);
    Pad4Order(a.year, b.year);
    Pad2Order(a.month, b.month);
    Pad2Order(a.day, b.day);
    Pad2Order(a.hour, b.hour);
    Pad2Order(a.minute, b.minute);
    var tail := ":00+03:00";
    var mi1, mi2 := Pad2(a.minute) + tail, Pad2(b.minute) + tail;
    LexAppend(Pad2(a.minute), Pad2(b.minute), tail, tail);
    LexAppend(":", ":", mi1, mi2);
    var h1, h2 := Pad2(a.hour) + (":" + mi1), Pad2(b.hour) + (":" + mi2);
    LexAppend(Pad2(a.hour), Pad2(b.hour), ":" + mi1, ":" + mi2);
    LexAppend("T", "T", h1, h2);
    var d1, d2 := Pad2(a.day) + ("T" + h1), Pad2(b.day) + ("T" + h2);
    LexAppend(Pad2(a.day), Pad2(b.day), "T" + h1, "T" + h2);
    LexAppend("-", "-", d1, d2);
    var m1, m2 := Pad2(a.month) + ("-" + d1), Pad2(b.month) + ("-" + d2);
    LexAppend(Pad2(a.month), Pad2(b.month), "-" + d1, "-" + d2);
    LexAppend("-", "-", m1, m2);
    LexAppend(Pad4(a.year), Pad4(b.year), "-" + m1, "-" + m2);
    LexTotal(tail, tail);
  }

  /** The four text inputs of `PointAddModal`. */
  datatype Submission = Submission(endTime: string, userId: string, points: string, eventName: string)

  /** `on_submit`: the id and the points must be integers and the end time a
      reading of the format; `None` is the "must be numbers" reply. The new
      entry gets `freshId`. */
  function Validate(sub: Submission, freshId: string): (r: Option<Entry>)
    ensures r.Some? <==> ParseInt(sub.userId).Some? && ParseInt(sub.points).Some? && ParseEndTime(sub.endTime).Some?
    ensures r.Some? ==> r.value.entryId == freshId && r.value.eventName == sub.eventName
    ensures r.Some? ==> Some(r.value.userId) == ParseInt(sub.userId) && Some(r.value.points) == ParseInt(sub.points)
    ensures r.Some? ==> r.value.endTimeIso == Iso(ParseEndTime(sub.endTime).value)
  {
    match (ParseInt(sub.userId), ParseInt(sub.points), ParseEndTime(sub.endTime))
    case (Some(uid), Some(pts), Some(st)) => Some(Entry(freshId, uid, pts, sub.eventName, Iso(st)))
    case _ => None
  }

  /** The end time as the modal's placeholder writes it, "23:59 28.09.2025". */
  function ShowEndTime(st: Stamp): string
    requires ValidStamp(st) && 1000 <= st.year
  {
    Pad2(st.hour) + ":" + Pad2(st.minute) + " " + DayMonthText(st.month, st.day) + "." + ShowInt(st.year)
  }

  lemma ClockParses(st: Stamp)
    requires ValidStamp(st)
    ensures ParseClock(Pad2(st.hour) + ":" + Pad2(st.minute)) == Some((st.hour, st.minute))
    ensures NoSpace(Pad2(st.hour) + ":" + Pad2(st.minute))
  {
    var h, m := Pad2(st.hour), Pad2(st.minute);
    Pad2Value(st.hour);
    Pad2Value(st.minute);
    Pad2Clock(st.hour, st.minute);
    assert ':' !in h && ':' !in m by {
      assert h == [h[0], h[1]] && m == [m[0], m[1]];
    }
    SplitOnAround(h, ':', m);
    DigitsNoSpace(h + ":" + m);
  }

  lemma Pad2Clock(hour: int, minute: int)
    requires 0 <= hour < 24 && 0 <= minute < 60
    ensures HourToken(Pad2(hour)) && MinuteToken(Pad2(minute))
  {
  }

  lemma DateParses(st: Stamp)
    requires ValidStamp(st) && 1000 <= st.year
    ensures var date := DayMonthText(st.month, st.day) + "." + ShowInt(st.year);
      ParseDayMonthYear(date) == Some(Date(st.year, st.month, st.day)) && !IsSpace(date[0])
  {
    DayMonthTextShape(st.month, st.day);
    DayMonthYearPieces(st.month, st.day, st.year);
    ShowYear(st.year);
    Pad2Value(st.day);
    Pad2Value(st.month);
    Pad2Tokens(st.month, st.day);
  }

  /** An end time written in the placeholder's shape reads back as itself. */
  lemma ParseShownEndTime(st: Stamp)
    requires ValidStamp(st) && 1000 <= st.year
    ensures ParseEndTime(ShowEndTime(st)) == Some(st)
  {
    var clock := Pad2(st.hour) + ":" + Pad2(st.minute);
    var date := DayMonthText(st.month, st.day) + "." + ShowInt(st.year);
    var text := ShowEndTime(st);
    assert text == clock + (" " + date);
    ClockParses(st);
    DateParses(st);
    WordLengthOfWord(clock, " " + date);
    assert text[..|clock|] == clock && text[|clock|..] == " " + date;
    assert (" " + date)[1..] == date;
    assert LeadingSpaces(" " + date) == 1;
  }

  /** A submission of an integer id, integer points and an end time in the
      placeholder's shape is accepted as exactly that entry. */
  lemma ValidSubmission(uid: int, pts: int, st: Stamp, name: string, freshId: string)
    requires ValidStamp(st) && 1000 <= st.year
    ensures Validate(Submission(ShowEndTime(st), ShowInt(uid), ShowInt(pts), name), freshId)
      == Some(Entry(freshId, uid, pts, name, Iso(st)))
  {
    ParseShowInt(uid);
    ParseShowInt(pts);
    ParseShownEndTime(st);
  }

  /** Text that opens with whitespace, or has no whitespace at all, is
      refused. */
  lemma EndTimeNeedsClockAndGap(text: string)
    requires (text != [] && IsSpace(text[0])) || NoSpace(text)
    ensures ParseEndTime(text) == None
  {
    if text != [] && IsSpace(text[0]) {
      assert text[..0] == [];
      assert ParseClock([]) == None;
    } else {
      WordLengthOfWord(text, []);
      assert text + [] == text;
    }
  }

  /** `%H` stops at 23. */
  lemma NoHour24()
    ensures ParseClock("24:00") == None
  {
    var h, m := "24", "00";
    assert ':' !in h && ':' !in m && !HourToken(h);
    SplitOnAround(h, ':', m);
    assert h + [':'] + m == "24:00";
  }

  // ----- the ledger -------------------------------------------------------

  /** `[e for e in data if e.get('entry_id') != entry_id]`. */
  function WithoutId(entries: seq<Entry>, id: string): (r: seq<Entry>)
    ensures |r| <= |entries|
    ensures forall e :: e in r <==> e in entries && e.entryId != id
  {
    if entries == [] then []
    else
      assert forall e :: e in entries <==> e == entries[0] || e in entries[1..];
      (if entries[0].entryId != id then [entries[0]] else []) + WithoutId(entries[1..], id)
  }

  /** Filtering splits over concatenation, so the entries kept stay in their
      order. */
  lemma {:induction false} WithoutIdAppend(a: seq<Entry>, b: seq<Entry>, id: string)
    ensures WithoutId(a + b, id) == WithoutId(a, id) + WithoutId(b, id)
  {
    if a != [] {
      assert (a + b)[1..] == a[1..] + b;
      WithoutIdAppend(a[1..], b, id);
    } else {
      assert a + b == b;
    }
  }

  /** An id no entry carries leaves the ledger as it is. */
  lemma {:induction false} WithoutUnknownId(entries: seq<Entry>, id: string)
    requires forall e :: e in entries ==> e.entryId != id
    ensures WithoutId(entries, id) == entries
  {
    if entries != [] {
      WithoutUnknownId(entries[1..], id);
    }
  }

  /** Removing twice removes nothing more. */
  lemma WithoutIdIdempotent(entries: seq<Entry>, id: string)
    ensures WithoutId(WithoutId(entries, id), id) == WithoutId(entries, id)
  {
    WithoutUnknownId(WithoutId(entries, id), id);
  }

  /** An entry added under a fresh id is what removing that id takes away. */
  lemma AddThenRemove(entries: seq<Entry>, entry: Entry)
    requires forall e :: e in entries ==> e.entryId != entry.entryId
    ensures WithoutId(entries + [entry], entry.entryId) == entries
  {
    WithoutIdAppend(entries, [entry], entry.entryId);
    WithoutUnknownId(entries, entry.entryId);
    assert WithoutId([entry], entry.entryId) == [];
  }

  // ----- the removal menu ------------------------------------------------

  /** `sort(key=end_time_iso, reverse=True)`: newest first. */
  function Newest(): (le: (Entry, Entry) -> bool)
    ensures TotalPreorder(le)
  {
    var le := (a: Entry, b: Entry) => LexLe(b.endTimeIso, a.endTimeIso);
    assert forall a, b :: le(a, b) || le(b, a) by {
      forall a: Entry, b: Entry ensures le(a, b) || le(b, a) { LexTotal(a.endTimeIso, b.endTimeIso); }
    }
    assert forall a, b, c :: le(a, b) && le(b, c) ==> le(a, c) by {
      forall a: Entry, b: Entry, c: Entry | le(a, b) && le(b, c) ensures le(a, c) {
        LexTransitive(c.endTimeIso, b.endTimeIso, a.endTimeIso);
      }
    }
    le
  }

  /** The most options a select menu holds. */
  const MaxOptions: nat := 25

  /** A menu option: the "no entries" placeholder, or an entry whose id is the
      option's value. */
  datatype MenuOption = Placeholder | Pick(entry: Entry)

  datatype Menu = Menu(options: seq<MenuOption>, disabled: bool)

  function Picks(entries: seq<Entry>): (options: seq<MenuOption>)
    ensures |options| == |entries|
    ensures forall k :: 0 <= k < |entries| ==> options[k] == Pick(entries[k])
  {
    if entries == [] then [] else [Pick(entries[0])] + Picks(entries[1..])
  }

  /** The entries a list of options offers. */
  function Offered(options: seq<MenuOption>): seq<Entry> {
    if options == [] then []
    else (if options[0].Pick? then [options[0].entry] else []) + Offered(options[1..])
  }

  /** `PointRemoveSelect` over the entries as stored. */
  function MenuOf(entries: seq<Entry>): Menu {
    var sorted := SortBy(entries, Newest());
    if sorted == [] then Menu([Placeholder], true)
    else Menu(Picks(sorted[..if |sorted| < MaxOptions then |sorted| else MaxOptions]), false)
  }

  lemma {:induction false} OfferedPicks(entries: seq<Entry>)
    ensures Offered(Picks(entries)) == entries
  {
    if entries != [] {
      assert Picks(entries)[1..] == Picks(entries[1..]);
      OfferedPicks(entries[1..]);
    }
  }

  /** The menu is disabled with one placeholder exactly when the ledger is
      empty, and otherwise holds min(25, entries) options. */
  lemma MenuShape(entries: seq<Entry>)
    ensures var menu := MenuOf(entries);
      && (menu.disabled <==> entries == [])
      && (entries == [] ==> menu.options == [Placeholder])
      && (entries != [] ==> |menu.options| == (if |entries| < MaxOptions then |entries| else MaxOptions))
  {
  }

  /** The menu offers some of the entries, newest first, and an entry it
      leaves out is no newer than any it offers. */
  lemma MenuNewest(entries: seq<Entry>)
    ensures var offered := Offered(MenuOf(entries).options);
      && multiset(offered) <= multiset(entries)
      && SortedBy(offered, Newest())
      && forall a, b :: a in offered && b in entries && b !in offered ==> LexLe(b.endTimeIso, a.endTimeIso)
  {
    var sorted := SortBy(entries, Newest());
    SortByIsSorted(entries, Newest());
    if sorted != [] {
      var n := if |sorted| < MaxOptions then |sorted| else MaxOptions;
      OfferedPicks(sorted[..n]);
      assert Offered(MenuOf(entries).options) == sorted[..n];
      SortedPrefix(sorted, n, Newest());
      assert forall b :: b in entries ==> b in sorted by {
        forall b | b in entries ensures b in sorted {
          assert b in multiset(entries);
        }
      }
    } else {
      assert Offered([Placeholder]) == [];
    }
  }

  // ----- the listing -----------------------------------------------------

  /** `sort(key=(user_id, end_time_iso))`. */
  function ByUserThenTime(): (le: (Entry, Entry) -> bool)
    ensures TotalPreorder(le)
  {
    var le := (a: Entry, b: Entry) => a.userId < b.userId || (a.userId == b.userId && LexLe(a.endTimeIso, b.endTimeIso));
    assert forall a, b :: le(a, b) || le(b, a) by {
      forall a: Entry, b: Entry ensures le(a, b) || le(b, a) { LexTotal(a.endTimeIso, b.endTimeIso); }
    }
    assert forall a, b, c :: le(a, b) && le(b, c) ==> le(a, c) by {
      forall a: Entry, b: Entry, c: Entry | le(a, b) && le(b, c) ensures le(a, c) {
        if a.userId == b.userId == c.userId {
          LexTransitive(a.endTimeIso, b.endTimeIso, c.endTimeIso);
        }
      }
    }
    le
  }

  /** One embed field of the listing: a user and their entries. */
  datatype Group = Group(userId: int, entries: seq<Entry>)

  function Flatten(groups: seq<Group>): seq<Entry> {
    if groups == [] then [] else Flatten(groups[..|groups| - 1]) + groups[|groups| - 1].entries
  }

  /** One step of the listing loop: an entry joins the open field when it
      belongs to the same user, and opens a new one otherwise. */
  function Extend(groups: seq<Group>, e: Entry): (r: seq<Group>)
    ensures r != [] && r[|r| - 1].userId == e.userId
  {
    if groups != [] && groups[|groups| - 1].userId == e.userId then
      groups[..|groups| - 1] + [Group(e.userId, groups[|groups| - 1].entries + [e])]
    else groups + [Group(e.userId, [e])]
  }

  /** The fields the listing loop emits over entries in the order given. */
  function GroupsOf(entries: seq<Entry>): (groups: seq<Group>)
    ensures entries == [] <==> groups == []
    ensures entries != [] ==> groups[|groups| - 1].userId == entries[|entries| - 1].userId
  {
    if entries == [] then [] else Extend(GroupsOf(entries[..|entries| - 1]), entries[|entries| - 1])
  }

  predicate WellGrouped(groups: seq<Group>) {
    && (forall i :: 0 <= i < |groups| ==> groups[i].entries != [])
    && (forall i, e :: 0 <= i < |groups| && e in groups[i].entries ==> e.userId == groups[i].userId)
    && (forall i :: 0 <= i < |groups| - 1 ==> groups[i].userId != groups[i + 1].userId)
  }

  lemma ExtendSpec(groups: seq<Group>, e: Entry)
    requires WellGrouped(groups)
    ensures WellGrouped(Extend(groups, e))
    ensures Flatten(Extend(groups, e)) == Flatten(groups) + [e]
  {
    var r := Extend(groups, e);
    assert r[..|r| - 1] == if groups != [] && groups[|groups| - 1].userId == e.userId then groups[..|groups| - 1] else groups;
    if groups != [] && groups[|groups| - 1].userId == e.userId {
      assert Flatten(groups) == Flatten(groups[..|groups| - 1]) + groups[|groups| - 1].entries;
    }
  }

  /** Every entry lands in exactly one field, in order; no field is empty,
      each holds one user's entries, and neighbouring fields belong to
      different users. */
  lemma {:induction false} GroupsOfSpec(entries: seq<Entry>)
    ensures Flatten(GroupsOf(entries)) == entries
    ensures WellGrouped(GroupsOf(entries))
  {
    if entries != [] {
      var init := entries[..|entries| - 1];
      var e := entries[|entries| - 1];
      GroupsOfSpec(init);
      ExtendSpec(GroupsOf(init), e);
      assert GroupsOf(entries) == Extend(GroupsOf(init), e);
      assert entries == init + [e];
    }
  }

  predicate Ascending(groups: seq<Group>) {
    forall i, j :: 0 <= i < j < |groups| ==> groups[i].userId < groups[j].userId
  }

  /** Over entries sorted by user, every user gets exactly one field, in
      increasing order of id. */
  lemma {:induction false} GroupsAscending(entries: seq<Entry>)
    requires forall i, j :: 0 <= i < j < |entries| ==> entries[i].userId <= entries[j].userId
    ensures Ascending(GroupsOf(entries))
  {
    if entries != [] {
      var init := entries[..|entries| - 1];
      var e := entries[|entries| - 1];
      assert forall i, j :: 0 <= i < j < |init| ==> init[i].userId <= init[j].userId by {
        forall i, j | 0 <= i < j < |init| ensures init[i].userId <= init[j].userId {
          assert init[i] == entries[i] && init[j] == entries[j];
        }
      }
      GroupsAscending(init);
      var earlier := GroupsOf(init);
      if earlier != [] {
        assert earlier[|earlier| - 1].userId == init[|init| - 1].userId <= e.userId;
      }
      ExtendAscending(earlier, e);
      assert GroupsOf(entries) == Extend(earlier, e);
    }
  }

  /** An entry of a user no smaller than the open field's keeps the fields
      ascending. */
  lemma ExtendAscending(groups: seq<Group>, e: Entry)
    requires Ascending(groups)
    requires groups != [] ==> groups[|groups| - 1].userId <= e.userId
    ensures Ascending(Extend(groups, e))
  {
    var r := Extend(groups, e);
    if groups != [] && groups[|groups| - 1].userId == e.userId {
      assert forall i :: 0 <= i < |r| ==> r[i].userId == groups[i].userId;
    } else {
      assert forall i :: 0 <= i < |groups| ==> r[i] == groups[i];
    }
  }

  /** The fields of the listing loop so far: the closed ones, and the open
      one when there is a current user. */
  function Open(groups: seq<Group>, current: Option<int>, mine: seq<Entry>): seq<Group> {
    if current.Some? then groups + [Group(current.value, mine)] else groups
  }

  lemma GroupsOfStep(entries: seq<Entry>, k: int)
    requires 0 <= k < |entries|
    ensures GroupsOf(entries[..k + 1]) == Extend(GroupsOf(entries[..k]), entries[k])
  {
    assert entries[..k + 1][..k] == entries[..k];
  }

  /** An entry of another user closes the open field and opens its own. */
  lemma NewGroupStep(groups: seq<Group>, current: Option<int>, mine: seq<Entry>, e: Entry)
    requires current != Some(e.userId)
    requires current.None? ==> groups == []
    ensures Extend(Open(groups, current, mine), e) == Open(Open(groups, current, mine), Some(e.userId), [e])
  {
  }

  /** An entry of the current user joins the open field. */
  lemma SameGroupStep(groups: seq<Group>, user: int, mine: seq<Entry>, e: Entry)
    requires e.userId == user
    ensures Extend(Open(groups, Some(user), mine), e) == Open(groups, Some(user), mine + [e])
  {
    var before := Open(groups, Some(user), mine);
    assert before[..|before| - 1] == groups;
  }

  /** `/point list` over the ledger as stored: `None` for the "empty" reply,
      otherwise the fields of the sorted entries. */
  function ListingOf(entries: seq<Entry>): Option<seq<Group>> {
    if entries == [] then None else Some(GroupsOf(SortBy(entries, ByUserThenTime())))
  }

  /** The listing shows every entry exactly once, one field per user in
      increasing order of id, each user's entries in the order of their end
      times. */
  lemma ListingSpec(entries: seq<Entry>)
    requires entries != []
    ensures var groups := ListingOf(entries).value;
      && multiset(Flatten(groups)) == multiset(entries)
      && Ascending(groups)
      && forall i :: 0 <= i < |groups| ==> SortedBy(groups[i].entries, ByUserThenTime())
  {
    var sorted := SortBy(entries, ByUserThenTime());
    SortByIsSorted(entries, ByUserThenTime());
    GroupsOfSpec(sorted);
    GroupsAscending(sorted);
    var groups := GroupsOf(sorted);
    forall i | 0 <= i < |groups| ensures SortedBy(groups[i].entries, ByUserThenTime()) {
      FlattenSorted(groups, i, ByUserThenTime());
    }
  }

  /** A group's entries are a stretch of the flattened sequence, so they keep
      its order. */
  lemma {:induction false} FlattenSorted(groups: seq<Group>, i: int, le: (Entry, Entry) -> bool)
    requires 0 <= i < |groups| && SortedBy(Flatten(groups), le)
    ensures SortedBy(groups[i].entries, le)
  {
    var init := groups[..|groups| - 1];
    var tail := groups[|groups| - 1].entries;
    var flat := Flatten(groups);
    assert flat == Flatten(init) + tail;
    assert SortedBy(Flatten(init), le) by {
      forall p, q | 0 <= p < q < |Flatten(init)| ensures le(Flatten(init)[p], Flatten(init)[q]) {
        assert flat[p] == Flatten(init)[p] && flat[q] == Flatten(init)[q];
      }
    }
    if i < |groups| - 1 {
      assert groups[i] == init[i];
      FlattenSorted(init, i, le);
    } else {
      forall p, q | 0 <= p < q < |tail| ensures le(tail[p], tail[q]) {
        var o := |Flatten(init)|;
        assert flat[o + p] == tail[p] && flat[o + q] == tail[q];
      }
    }
  }

  // ----- the cog ---------------------------------------------------------

  class PointCog {
    /** The contents of manual_points.json; `None` when the file is missing
        or is not valid JSON. */
    var saved: Option<seq<Entry>>

    constructor (file: Option<seq<Entry>>)
      ensures saved == file
    {
      saved := file;
    }

    /** `_load_points()`: a missing file or one that is not
        valid JSON is an empty ledger. */
    function Load(): (r: seq<Entry>)
      reads this
      ensures saved.None? ==> r == []
    {
      if saved.Some? then saved.value else []
    }

    /** `add_point_entry`: reload, append, save. */
    method AddPointEntry(entry: Entry)
      modifies this
      ensures saved == Some(old(Load()) + [entry])
    {
      var data := Load();
      data := data + [entry];
      saved := Some(data);
    }

    /** `remove_point_entry`: reload, drop every entry with the id, save. */
    method RemovePointEntry(id: string)
      modifies this
      ensures saved == Some(WithoutId(old(Load()), id))
    {
      var data := Load();
      var kept: seq<Entry> := [];
      for k := 0 to |data|
        invariant kept == WithoutId(data[..k], id)
      {
        WithoutIdAppend(data[..k], [data[k]], id);
        assert data[..k + 1] == data[..k] + [data[k]];
        if data[k].entryId != id {
          kept := kept + [data[k]];
        }
      }
      assert data[..|data|] == data;
      saved := Some(kept);
    }

    /** `on_submit`: a valid submission is appended under `freshId`; an
        invalid one leaves the ledger alone. */
    method Submit(sub: Submission, freshId: string) returns (accepted: bool)
      modifies this
      ensures accepted <==> Validate(sub, freshId).Some?
      ensures accepted ==> saved == Some(old(Load()) + [Validate(sub, freshId).value])
      ensures !accepted ==> saved == old(saved)
    {
      var uid := ParseInt(sub.userId);
      var pts := ParseInt(sub.points);
      if uid.None? || pts.None? {
        return false;
      }
      var st := ParseEndTime(sub.endTime);
      if st.None? {
        return false;
      }
      AddPointEntry(Entry(freshId, uid.value, pts.value, sub.eventName, Iso(st.value)));
      accepted := true;
    }

    /** `remove_points`: the menu over the stored entries, newest first. */
    method RemoveMenu() returns (menu: Menu)
      ensures menu == MenuOf(Load())
    {
      var entries := SortBy(Load(), Newest());
      if entries == [] {
        return Menu([Placeholder], true);
      }
      var n := if |entries| < MaxOptions then |entries| else MaxOptions;
      var options: seq<MenuOption> := [];
      for k := 0 to n
        invariant options == Picks(entries[..k])
      {
        assert Picks(entries[..k + 1]) == Picks(entries[..k]) + [Pick(entries[k])];
        options := options + [Pick(entries[k])];
      }
      menu := Menu(options, false);
    }

    /** `list_points`: one field per run of entries with the same user id. */
    method ListPoints() returns (fields: Option<seq<Group>>)
      ensures fields == ListingOf(Load())
    {
      var entries := Load();
      if entries == [] {
        return None;
      }
      entries := SortBy(entries, ByUserThenTime());
      var groups: seq<Group> := [];
      var current: Option<int> := None;
      var mine: seq<Entry> := [];
      for k := 0 to |entries|
        invariant current.None? <==> k == 0
        invariant current.None? ==> groups == []
        invariant Open(groups, current, mine) == GroupsOf(entries[..k])
      {
        var e := entries[k];
        GroupsOfStep(entries, k);
        if current != Some(e.userId) {
          NewGroupStep(groups, current, mine, e);
          if current.Some? {
            groups := groups + [Group(current.value, mine)];
          }
          current := Some(e.userId);
          mine := [e];
        } else {
          SameGroupStep(groups, e.userId, mine, e);
          mine := mine + [e];
        }
      }
      assert entries[..|entries|] == entries;
      fields := Some(groups + [Group(current.value, mine)]);
    }
  }
}
