/** `LogsCog.generate_log_file` (cogs/logs_cog.py): the log of a list of
    events. For log type "makser" it is a summary: the points of each user
    added up, users ranked by their total, highest first. For every other
    type it is one line per event, and for "night_log" the lines also carry
    the night bonus, which the total includes. The file is named
    "log_<type>_<date text>.txt". The lines are kept as structured values;
    their text (time formatting, Russian wording) is not modelled. */
module LogReport {
  import opened Wrappers
  import opened Sorting
  import opened Reports
  import opened EventScan
  import opened NightBonus
  import opened Calendar
  import opened Lists
  import opened Blum

  const Makser: string := "makser"
  const NightLog: string := "night_log"

  /** The multiplier shown on a line: 2.0 when `boosted`, else 1.5. */
  datatype NightExtra = NightExtra(boosted: bool, points: int)

  datatype LogLine =
    /** "Summary for category … over …" at the top of a makser log. */
    | Heading(categoryName: Option<string>, dateRange: string)
    /** "rank. user - points" */
    | RankLine(rank: nat, userId: Option<int>, points: int)
    /** "start | end | <@user> | nick | points | [bonus |] event | category" */
    | EventLine(start: int, end: int, userId: Option<int>, nick: string, points: int,
                extra: Option<NightExtra>, eventName: string, category: string)

  datatype LogFile = LogFile(filename: string, lines: seq<LogLine>, total: int)

  function FileName(logType: string, dateRange: string): string {
    "log_" + logType + "_" + dateRange + ".txt"
  }

  function SumPoints(events: seq<Event>): int {
    if events == [] then 0 else SumPoints(events[..|events| - 1]) + events[|events| - 1].points
  }

  // ----- the makser summary ----------------------------------------------

  type Totals = seq<(Option<int>, int)>

  function UsersOf(totals: Totals): seq<Option<int>> {
    if totals == [] then [] else [totals[0].0] + UsersOf(totals[1..])
  }

  /** `user_points[user] = user_points.get(user, 0) + points`: a known user's
      total grows in place, a new user goes at the end. */
  function AddPoints(totals: Totals, user: Option<int>, points: int): (r: Totals)
    ensures |r| == |totals| + (if user in UsersOf(totals) then 0 else 1)
  {
    if totals == [] then [(user, points)]
    else if totals[0].0 == user then [(user, totals[0].1 + points)] + totals[1..]
    else [totals[0]] + AddPoints(totals[1..], user, points)
  }

  /** `user_points` after the events are read in order. */
  function UserTotals(events: seq<Event>): Totals {
    if events == [] then []
    else
      var e := events[|events| - 1];
      AddPoints(UserTotals(events[..|events| - 1]), e.userId, e.points)
  }

  function SumTotals(totals: Totals): int {
    if totals == [] then 0 else totals[0].1 + SumTotals(totals[1..])
  }

  /** The total a user has in the summary, 0 for one not in it. */
  function TotalOf(totals: Totals, user: Option<int>): int {
    if totals == [] then 0
    else if totals[0].0 == user then totals[0].1
    else TotalOf(totals[1..], user)
  }

  /** The points of one user's events. */
  function PointsOf(events: seq<Event>, user: Option<int>): int {
    if events == [] then 0
    else
      var e := events[|events| - 1];
      PointsOf(events[..|events| - 1], user) + if e.userId == user then e.points else 0
  }

  lemma {:induction false} AddPointsSpec(totals: Totals, user: Option<int>, points: int)
    ensures SumTotals(AddPoints(totals, user, points)) == SumTotals(totals) + points
    ensures forall u ::
      TotalOf(AddPoints(totals, user, points), u) == TotalOf(totals, u) + (if u == user then points else 0)
    ensures forall u :: u in UsersOf(AddPoints(totals, user, points)) <==> u in UsersOf(totals) || u == user
    ensures Distinct(UsersOf(totals)) ==> Distinct(UsersOf(AddPoints(totals, user, points)))
  {
    if totals != [] && totals[0].0 != user {
      AddPointsSpec(totals[1..], user, points);
      var r := AddPoints(totals, user, points);
      assert r[1..] == AddPoints(totals[1..], user, points);
      assert UsersOf(r) == [totals[0].0] + UsersOf(r[1..]);
      if Distinct(UsersOf(totals)) {
        DistinctTail(UsersOf(totals));
        assert UsersOf(totals) == [totals[0].0] + UsersOf(totals[1..]);
      }
    } else if totals != [] {
      var r := AddPoints(totals, user, points);
      assert r[1..] == totals[1..];
      assert UsersOf(r) == [user] + UsersOf(totals[1..]);
      assert UsersOf(totals) == [user] + UsersOf(totals[1..]);
    }
  }

  /** The summary holds each user once, exactly the users of the events,
      with the sum of that user's points; the totals add up to the sum of
      all points. */
  lemma {:induction false} UserTotalsSpec(events: seq<Event>)
    ensures Distinct(UsersOf(UserTotals(events)))
    ensures forall u :: u in UsersOf(UserTotals(events)) <==> exists e :: e in events && e.userId == u
    ensures forall u :: TotalOf(UserTotals(events), u) == PointsOf(events, u)
    ensures SumTotals(UserTotals(events)) == SumPoints(events)
  {
    if events != [] {
      var init := events[..|events| - 1];
      var e := events[|events| - 1];
      UserTotalsSpec(init);
      AddPointsSpec(UserTotals(init), e.userId, e.points);
      assert forall x :: x in events <==> x in init || x == e by {
        assert events == init + [e];
      }
    }
  }

  /** Ranking order: higher totals first; Python's sort keeps users with
      equal totals in the order they first appeared. */
  function HigherTotal(): (le: ((Option<int>, int), (Option<int>, int)) -> bool)
    ensures TotalPreorder(le)
  {
    (a: (Option<int>, int), b: (Option<int>, int)) => a.1 >= b.1
  }

  /** `enumerate(ranked, 1)`. */
  function RankLines(ranked: Totals, first: nat): (lines: seq<LogLine>)
    ensures |lines| == |ranked|
    ensures forall k :: 0 <= k < |ranked| ==> lines[k] == RankLine(first + k, ranked[k].0, ranked[k].1)
  {
    if ranked == [] then [] else [RankLine(first, ranked[0].0, ranked[0].1)] + RankLines(ranked[1..], first + 1)
  }

  /** The summary's users, highest total first. */
  function Ranking(events: seq<Event>): Totals {
    SortBy(UserTotals(events), HigherTotal())
  }

  function MakserLog(events: seq<Event>, dateRange: string, categoryName: Option<string>): LogFile {
    LogFile(FileName(Makser, dateRange), [Heading(categoryName, dateRange)] + RankLines(Ranking(events), 1), SumPoints(events))
  }

  /** The ranking lists every user of the events and no one else, in order
      of falling total, each with the sum of their points. */
  lemma RankingSpec(events: seq<Event>)
    ensures forall i, j :: 0 <= i < j < |Ranking(events)| ==> Ranking(events)[i].1 >= Ranking(events)[j].1
    ensures forall k :: 0 <= k < |Ranking(events)| ==> Ranking(events)[k].1 == PointsOf(events, Ranking(events)[k].0)
    ensures forall u :: u in UsersOf(Ranking(events)) <==> exists e :: e in events && e.userId == u
    ensures multiset(Ranking(events)) == multiset(UserTotals(events))
  {
    var totals := UserTotals(events);
    var ranked := Ranking(events);
    UserTotalsSpec(events);
    SortByIsSorted(totals, HigherTotal());
    forall k | 0 <= k < |ranked| ensures ranked[k].1 == PointsOf(events, ranked[k].0) {
      assert ranked[k] in multiset(totals);
      TotalOfMember(totals, ranked[k]);
    }
    forall u ensures u in UsersOf(ranked) <==> u in UsersOf(totals) {
      UsersOfMembers(totals, u);
      UsersOfMembers(ranked, u);
      if u in UsersOf(totals) {
        var p :| p in totals && p.0 == u;
        assert p in multiset(ranked);
      }
      if u in UsersOf(ranked) {
        var p :| p in ranked && p.0 == u;
        assert p in multiset(totals);
      }
    }
  }

  lemma {:induction false} UsersOfMembers(totals: Totals, u: Option<int>)
    ensures u in UsersOf(totals) <==> exists p :: p in totals && p.0 == u
  {
    if totals != [] {
      UsersOfMembers(totals[1..], u);
      assert forall p :: p in totals <==> p == totals[0] || p in totals[1..];
    }
  }

  lemma {:induction false} TotalOfMember(totals: Totals, p: (Option<int>, int))
    requires Distinct(UsersOf(totals)) && p in totals
    ensures TotalOf(totals, p.0) == p.1
  {
    if totals[0] != p {
      DistinctTail(UsersOf(totals));
      assert UsersOf(totals) == [totals[0].0] + UsersOf(totals[1..]);
      assert p in totals[1..];
      UsersOfMembers(totals[1..], p.0);
      TotalOfMember(totals[1..], p);
    }
  }

  // ----- the line-per-event logs -----------------------------------------

  /** The night bonus an event earns in a log of this type: only in a night
      log, and only for a positive number of night minutes. */
  function ExtraOf(e: Event, logType: string, blum: seq<Option<int>>): Option<NightExtra> {
    if logType != NightLog then None
    else
      var minutes := NightMinutes(e.timestamp, e.points);
      if minutes <= 0 then None
      else
        var boosted := e.userId in blum;
        Some(NightExtra(boosted, Bonus(minutes, boosted)))
  }

  function LineOf(e: Event, logType: string, blum: seq<Option<int>>): LogLine {
    EventLine(e.timestamp - e.points * MsPerMinute, e.timestamp, e.userId, e.nick, e.points,
              ExtraOf(e, logType, blum), e.eventName, e.category.GetOr(Other))
  }

  function ExtraPoints(x: Option<NightExtra>): int {
    if x.Some? then x.value.points else 0
  }

  function SumExtras(events: seq<Event>, logType: string, blum: seq<Option<int>>): int {
    if events == [] then 0
    else SumExtras(events[..|events| - 1], logType, blum) + ExtraPoints(ExtraOf(events[|events| - 1], logType, blum))
  }

  /** The bonus of one event: nothing outside night logs; in a night log,
      the night minutes themselves for a blum user and about half of them
      for anyone else. */
  lemma ExtraSpec(e: Event, logType: string, blum: seq<Option<int>>)
    ensures logType != NightLog ==> ExtraOf(e, logType, blum).None?
    ensures ExtraOf(e, logType, blum).Some? ==>
      var x := ExtraOf(e, logType, blum).value;
      var minutes := NightMinutes(e.timestamp, e.points);
      && minutes > 0
      && (x.boosted <==> e.userId in blum)
      && (x.boosted ==> x.points == minutes)
      && (!x.boosted ==> 0 <= x.points <= minutes && -1 <= 2 * x.points - minutes <= 1)
  {
    BonusBounds(NightMinutes(e.timestamp, e.points));
  }

  /** Outside night logs the total is just the sum of the points. */
  lemma {:induction false} NoExtrasOutsideNight(events: seq<Event>, logType: string, blum: seq<Option<int>>)
    requires logType != NightLog
    ensures SumExtras(events, logType, blum) == 0
  {
    if events != [] {
      NoExtrasOutsideNight(events[..|events| - 1], logType, blum);
    }
  }

  /** A blum user never loses by the list: every bonus sum with the list is
      at least the one without it. */
  lemma {:induction false} BlumNeverLowers(events: seq<Event>, logType: string, blum: seq<Option<int>>)
    ensures SumExtras(events, logType, []) <= SumExtras(events, logType, blum)
  {
    if events != [] {
      BlumNeverLowers(events[..|events| - 1], logType, blum);
      var e := events[|events| - 1];
      BonusBounds(NightMinutes(e.timestamp, e.points));
    }
  }

  function EventLog(events: seq<Event>, dateRange: string, logType: string, blum: seq<Option<int>>): LogFile {
    LogFile(FileName(logType, dateRange),
            seq(|events|, k requires 0 <= k < |events| => LineOf(events[k], logType, blum)),
            SumPoints(events) + SumExtras(events, logType, blum))
  }

  // ----- the whole file --------------------------------------------------

  /** Whether the log evaluates `user_id in blum_list` at all: only a night
      log does, and only for an event with night minutes. */
  predicate ReadsBlum(events: seq<Event>, logType: string) {
    logType == NightLog && exists k :: 0 <= k < |events| && NightMinutes(events[k].timestamp, events[k].points) > 0
  }

  /** A log that never tests the list is the same whatever the list holds. */
  lemma {:induction false} BlumUnread(events: seq<Event>, dateRange: string, logType: string,
                                      categoryName: Option<string>, blum: seq<Option<int>>)
    requires !ReadsBlum(events, logType)
    ensures GeneratedLog(events, dateRange, logType, categoryName, blum)
         == GeneratedLog(events, dateRange, logType, categoryName, [])
  {
    if logType != Makser {
      SameExtras(events, logType, blum);
      var a := GeneratedLog(events, dateRange, logType, categoryName, blum);
      var b := GeneratedLog(events, dateRange, logType, categoryName, []);
      assert a.lines == b.lines by {
        forall k | 0 <= k < |events| ensures a.lines[k] == b.lines[k] {
          assert NightMinutes(events[k].timestamp, events[k].points) <= 0 || logType != NightLog;
        }
      }
    }
  }

  lemma {:induction false} SameExtras(events: seq<Event>, logType: string, blum: seq<Option<int>>)
    requires !ReadsBlum(events, logType)
    ensures SumExtras(events, logType, blum) == SumExtras(events, logType, [])
  {
    if events != [] {
      var init := events[..|events| - 1];
      assert !ReadsBlum(init, logType) by {
        assert forall k :: 0 <= k < |init| ==> init[k] == events[k];
      }
      SameExtras(init, logType, blum);
      assert NightMinutes(events[|events| - 1].timestamp, events[|events| - 1].points) <= 0 || logType != NightLog;
    }
  }

  /** The log as `LogsCog` makes it from the blum file it loaded: when the
      file is not a list or a dictionary, the first event that earns night
      minutes raises `TypeError`, and a log that earns none is made as
      usual. */
  function LogOfFile(events: seq<Event>, dateRange: string, logType: string,
                     categoryName: Option<string>, file: Option<Json>): (r: Result<LogFile, Failure>)
    ensures r.Err? <==> LogsView(file).Err? && ReadsBlum(events, logType)
    ensures r.Ok? ==> forall view :: LogsView(file) == Ok(view) ==>
      r.value == GeneratedLog(events, dateRange, logType, categoryName, view)
    ensures r.Ok? && LogsView(file).Err? ==> r.value == GeneratedLog(events, dateRange, logType, categoryName, [])
  {
    match LogsView(file)
    case Ok(view) => Ok(GeneratedLog(events, dateRange, logType, categoryName, view))
    case Err(e) =>
      if ReadsBlum(events, logType) then Err(e)
      else Ok(GeneratedLog(events, dateRange, logType, categoryName, []))
  }

  function GeneratedLog(events: seq<Event>, dateRange: string, logType: string,
                        categoryName: Option<string>, blum: seq<Option<int>>): LogFile
  {
    if logType == Makser then MakserLog(events, dateRange, categoryName)
    else EventLog(events, dateRange, logType, blum)
  }

  /** The summary branch: the running total and the running per-user
      totals, then one line per ranked user. */
  method WriteSummary(events: seq<Event>, dateRange: string, categoryName: Option<string>)
    returns (lines: seq<LogLine>, total: int)
    ensures LogFile(FileName(Makser, dateRange), lines, total) == MakserLog(events, dateRange, categoryName)
  {
    lines := [Heading(categoryName, dateRange)];
    total := 0;
    var userPoints: Totals := [];
    for k := 0 to |events|
      invariant total == SumPoints(events[..k])
      invariant userPoints == UserTotals(events[..k])
    {
      assert events[..k + 1][..k] == events[..k];
      total := total + events[k].points;
      userPoints := AddPoints(userPoints, events[k].userId, events[k].points);
    }
    assert events[..|events|] == events;
    var ranked := SortBy(userPoints, HigherTotal());
    for k := 0 to |ranked|
      invariant |lines| == k + 1
      invariant lines[0] == Heading(categoryName, dateRange)
      invariant forall j :: 0 <= j < k ==> lines[j + 1] == RankLine(j + 1, ranked[j].0, ranked[j].1)
    {
      lines := lines + [RankLine(k + 1, ranked[k].0, ranked[k].1)];
    }
    assert lines[1..] == RankLines(ranked, 1);
    assert lines == [Heading(categoryName, dateRange)] + lines[1..];
  }

  /** The other branch: one line per event, the bonus added in a night
      log. */
  method WriteEventLines(events: seq<Event>, logType: string, blum: seq<Option<int>>)
    returns (lines: seq<LogLine>, total: int)
    ensures |lines| == |events|
    ensures forall k :: 0 <= k < |events| ==> lines[k] == LineOf(events[k], logType, blum)
    ensures total == SumPoints(events) + SumExtras(events, logType, blum)
  {
    lines, total := [], 0;
    for k := 0 to |events|
      invariant |lines| == k
      invariant forall j :: 0 <= j < k ==> lines[j] == LineOf(events[j], logType, blum)
      invariant total == SumPoints(events[..k]) + SumExtras(events[..k], logType, blum)
    {
      SumsStep(events, k, logType, blum);
      var line, bonus := WriteEventLine(events[k], logType, blum);
      lines := lines + [line];
      total := total + bonus + events[k].points;
    }
    assert events[..|events|] == events;
  }

  /** The body of the event loop: one line, and the bonus it adds to the
      total. */
  method WriteEventLine(e: Event, logType: string, blum: seq<Option<int>>) returns (line: LogLine, bonus: int)
    ensures line == LineOf(e, logType, blum)
    ensures bonus == ExtraPoints(ExtraOf(e, logType, blum))
  {
    var end := e.timestamp;
    var start := end - e.points * MsPerMinute;
    var extra: Option<NightExtra> := None;
    bonus := 0;
    if logType == NightLog {
      var minutes := NightMinutes(end, e.points);
      if minutes > 0 {
        var boosted := e.userId in blum;
        bonus := Bonus(minutes, boosted);
        extra := Some(NightExtra(boosted, bonus));
      }
    }
    line := EventLine(start, end, e.userId, e.nick, e.points, extra, e.eventName, e.category.GetOr(Other));
  }

  /** Both running sums grow by one event at a time. */
  lemma SumsStep(events: seq<Event>, k: int, logType: string, blum: seq<Option<int>>)
    requires 0 <= k < |events|
    ensures SumPoints(events[..k + 1]) == SumPoints(events[..k]) + events[k].points
    ensures SumExtras(events[..k + 1], logType, blum)
      == SumExtras(events[..k], logType, blum) + ExtraPoints(ExtraOf(events[k], logType, blum))
  {
    assert events[..k + 1][..k] == events[..k];
  }

  method GenerateLogFile(events: seq<Event>, dateRange: string, logType: string,
                         categoryName: Option<string>, blum: seq<Option<int>>)
    returns (log: LogFile)
    ensures log == GeneratedLog(events, dateRange, logType, categoryName, blum)
  {
    var lines, total;
    if logType == Makser {
      lines, total := WriteSummary(events, dateRange, categoryName);
    } else {
      lines, total := WriteEventLines(events, logType, blum);
    }
    log := LogFile(FileName(logType, dateRange), lines, total);
  }

  /** Every event is listed, whether or not it earns a bonus, and the file
      is always named after the log type and the date text. */
  lemma EveryEventListed(events: seq<Event>, dateRange: string, logType: string,
                         categoryName: Option<string>, blum: seq<Option<int>>)
    requires logType != Makser
    ensures var log := GeneratedLog(events, dateRange, logType, categoryName, blum);
      && |log.lines| == |events|
      && (forall k :: 0 <= k < |events| ==>
            log.lines[k].EventLine? && log.lines[k].points == events[k].points && log.lines[k].end == events[k].timestamp)
      && log.filename == "log_" + logType + "_" + dateRange + ".txt"
  {
  }
}
