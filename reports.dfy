/** The report reader of `LogsCog._get_events_in_range` (cogs/logs_cog.py):
    every embed titled "Отчет о проведенном ивенте" in the scanned messages
    becomes one event record (the `data` dictionary), read from the embed's
    description and fields; records worth no points are dropped. */
module Reports {
  import opened Wrappers
  import opened Text

  datatype Field = Field(name: string, value: string)

  datatype Embed = Embed(title: Option<string>, description: Option<string>, fields: seq<Field>)

  /** A channel message: the instant it was created and its embeds. */
  datatype Message = Message(createdAt: int, embeds: seq<Embed>)

  /** One event record. `category` is absent until categories are assigned,
      as the dictionary has no 'category' key before that. */
  datatype Event = Event(
    userId: Option<int>,
    nick: string,
    points: int,
    eventName: string,
    timestamp: int,
    category: Option<string>)

  const ReportTitle: string := "Отчет о проведенном ивенте"
  const Unnamed: string := "Без названия"
  const NoNick: string := "N/A"

  // ----- the description: "<@id> nickname" --------------------------------

  /** The first description word with every "<@" and then every ">" deleted. */
  function MentionText(word: string): string {
    RemoveAll(RemoveAll(word, "<@"), ">")
  }

  /** The eventer's id and nickname. When the description is absent or blank,
      or its first word is not a mention of a number, the id stays `None` and
      the nickname "N/A"; otherwise the nickname is the remaining words joined
      by single spaces, without backticks and stripped, or "N/A" if that
      leaves nothing. */
  function ParseDescription(description: Option<string>): (r: (Option<int>, string))
    ensures r.0.None? ==> r.1 == NoNick
    ensures r.1 != [] && '`' !in r.1
  {
    if description.None? then (None, NoNick)
    else
      var words := Split(description.value);
      if words == [] then (None, NoNick)
      else
        match ParseInt(MentionText(words[0]))
        case None => (None, NoNick)
        case Some(id) =>
          var nick := Strip(RemoveAll(Join(" ", words[1..]), "`"));
          (Some(id), if nick == [] then NoNick else nick)
  }

  function Mention(id: int): string {
    "<@" + ShowInt(id) + ">"
  }

  lemma MentionIsWord(id: int)
    ensures IsWord(Mention(id))
  {
    var digits := ShowInt(id);
    ShowIntChars(id);
    var mention := Mention(id);
    forall k | 0 <= k < |mention| ensures !IsSpace(mention[k]) {
      if 2 <= k < |mention| - 1 { assert mention[k] == digits[k - 2]; }
    }
  }

  lemma MentionTextOfMention(id: int)
    ensures MentionText(Mention(id)) == ShowInt(id)
  {
    var digits := ShowInt(id);
    ShowIntChars(id);
    var mention := Mention(id);
    assert '<' !in digits + ">";
    assert StartsWith(mention, "<@") && mention[2..] == digits + ">";
    RemoveAllKeepsPrefix(digits + ">", [], "<@");
    assert digits + ">" + [] == digits + ">";
    assert RemoveAll(mention, "<@") == digits + ">";
    assert '>' !in digits;
    RemoveAllKeepsPrefix(digits, ">", ">");
    assert RemoveAll(">", ">") == [];
  }

  /** A description that mentions user `id` followed by nickname words gives
      back that id and the words joined by single spaces, or "N/A" when no
      word follows. */
  lemma MentionDescription(id: int, ws: seq<string>)
    requires forall i :: 0 <= i < |ws| ==> IsWord(ws[i]) && '`' !in ws[i]
    ensures ParseDescription(Some(Mention(id) + " " + Join(" ", ws)))
         == (Some(id), if ws == [] then NoNick else Join(" ", ws))
  {
    MentionIsWord(id);
    SplitWordThenWords(Mention(id), ws);
    MentionTextOfMention(id);
    ParseShowInt(id);
    var words := [Mention(id)] + ws;
    assert words[1..] == ws;
    NickOfWords(ws);
  }

  /** The nickname made of words without backticks is the words joined by
      single spaces. */
  lemma NickOfWords(ws: seq<string>)
    requires forall i :: 0 <= i < |ws| ==> IsWord(ws[i]) && '`' !in ws[i]
    ensures Strip(RemoveAll(Join(" ", ws), "`")) == Join(" ", ws)
  {
    var nick := Join(" ", ws);
    JoinWordsAvoid(ws, '`');
    RemoveAllKeepsPrefix(nick, [], "`");
    assert nick + [] == nick;
    if ws != [] {
      StripJoinWords(ws);
    }
  }

  // ----- the fields ------------------------------------------------------

  /** A field whose lower-cased name contains "получено". */
  predicate IsPointsField(f: Field) {
    Contains(Lower(f.name), "получено")
  }

  /** A field whose lower-cased name contains "ивент"; it names the event only
      when it is not a points field. */
  predicate IsEventField(f: Field) {
    Contains(Lower(f.name), "ивент")
  }

  /** `int(value.split()[0])`; `None` for the IndexError of a blank value and
      the ValueError of a word that is not a number, both of which the code
      catches. */
  function FieldPoints(f: Field): Option<int> {
    var words := Split(f.value);
    if words == [] then None else ParseInt(words[0])
  }

  /** The field value without backticks, stripped. */
  function FieldEventName(f: Field): string {
    Strip(RemoveAll(f.value, "`"))
  }

  predicate SetsPoints(f: Field) {
    IsPointsField(f) && FieldPoints(f).Some?
  }

  predicate SetsEventName(f: Field) {
    !IsPointsField(f) && IsEventField(f)
  }

  /** The points after the fields are read in order. */
  function Points(fields: seq<Field>): int {
    if fields == [] then 0
    else
      var f := fields[|fields| - 1];
      if SetsPoints(f) then FieldPoints(f).value else Points(fields[..|fields| - 1])
  }

  /** The event name after the fields are read in order. */
  function EventName(fields: seq<Field>): string {
    if fields == [] then Unnamed
    else
      var f := fields[|fields| - 1];
      if SetsEventName(f) then FieldEventName(f) else EventName(fields[..|fields| - 1])
  }

  /** The last field that sets the points decides them: a later points field
      overwrites an earlier one, and one whose value does not parse changes
      nothing. */
  lemma {:induction false} PointsFromLastField(fields: seq<Field>, j: int)
    requires 0 <= j < |fields| && SetsPoints(fields[j])
    requires forall k :: j < k < |fields| ==> !SetsPoints(fields[k])
    ensures Points(fields) == FieldPoints(fields[j]).value
  {
    if j < |fields| - 1 {
      var init := fields[..|fields| - 1];
      assert forall k :: j < k < |init| ==> init[k] == fields[k];
      PointsFromLastField(init, j);
    }
  }

  /** Without a field that sets them, the points stay 0. */
  lemma {:induction false} PointsDefault(fields: seq<Field>)
    requires forall k :: 0 <= k < |fields| ==> !SetsPoints(fields[k])
    ensures Points(fields) == 0
  {
    if fields != [] {
      var init := fields[..|fields| - 1];
      assert forall k :: 0 <= k < |init| ==> init[k] == fields[k];
      PointsDefault(init);
    }
  }

  /** The last field that names the event decides the name. */
  lemma {:induction false} EventNameFromLastField(fields: seq<Field>, j: int)
    requires 0 <= j < |fields| && SetsEventName(fields[j])
    requires forall k :: j < k < |fields| ==> !SetsEventName(fields[k])
    ensures EventName(fields) == FieldEventName(fields[j])
  {
    if j < |fields| - 1 {
      var init := fields[..|fields| - 1];
      assert forall k :: j < k < |init| ==> init[k] == fields[k];
      EventNameFromLastField(init, j);
    }
  }

  /** Without a field that names the event, it is "Без названия". */
  lemma {:induction false} EventNameDefault(fields: seq<Field>)
    requires forall k :: 0 <= k < |fields| ==> !SetsEventName(fields[k])
    ensures EventName(fields) == Unnamed
  {
    if fields != [] {
      var init := fields[..|fields| - 1];
      assert forall k :: 0 <= k < |init| ==> init[k] == fields[k];
      EventNameDefault(init);
    }
  }

  /** A points value written as a number and then whitespace (or nothing)
      reads back as that number. */
  lemma PointsValueReads(name: string, p: int, rest: string)
    requires rest == [] || IsSpace(rest[0])
    ensures FieldPoints(Field(name, ShowInt(p) + rest)) == Some(p)
  {
    ShowIntChars(p);
    SplitAfterWord(ShowInt(p), rest);
    ParseShowInt(p);
  }

  // ----- one embed -------------------------------------------------------

  /** The event an embed reports: none unless the title is exactly the
      report title, and none when the points come out as 0. */
  function ReportOf(embed: Embed, createdAt: int): (r: Option<Event>)
    ensures r.Some? ==> embed.title == Some(ReportTitle)
    ensures r.Some? ==> r.value.points != 0 && r.value.timestamp == createdAt && r.value.category.None?
  {
    if embed.title != Some(ReportTitle) then None
    else
      var (userId, nick) := ParseDescription(embed.description);
      var points := Points(embed.fields);
      if points == 0 then None
      else Some(Event(userId, nick, points, EventName(embed.fields), createdAt, None))
  }

  /** Reads the fields one after the other into the points and the event
      name, starting from 0 and "Без названия". */
  method ReadFields(fields: seq<Field>) returns (points: int, eventName: string)
    ensures points == Points(fields) && eventName == EventName(fields)
  {
    points, eventName := 0, Unnamed;
    var i := 0;
    while i < |fields|
      invariant 0 <= i <= |fields|
      invariant points == Points(fields[..i])
      invariant eventName == EventName(fields[..i])
    {
      var f := fields[i];
      assert fields[..i + 1][..i] == fields[..i];
      if IsPointsField(f) {
        var words := Split(f.value);
        if words != [] {
          var p := ParseInt(words[0]);
          if p.Some? {
            points := p.value;
          }
        }
      } else if IsEventField(f) {
        eventName := Strip(RemoveAll(f.value, "`"));
      }
      i := i + 1;
    }
    assert fields[..i] == fields;
  }

  /** Builds the record of one embed: the description, then the fields. */
  method ReadReport(embed: Embed, createdAt: int) returns (r: Option<Event>)
    ensures r == ReportOf(embed, createdAt)
  {
    if embed.title != Some(ReportTitle) {
      return None;
    }
    var (userId, nick) := ParseDescription(embed.description);
    var points, eventName := ReadFields(embed.fields);
    if points == 0 {
      return None;
    }
    r := Some(Event(userId, nick, points, eventName, createdAt, None));
  }

  // ----- the scan over messages ------------------------------------------

  /** The events of a message's embeds, in embed order. */
  function EmbedReports(embeds: seq<Embed>, createdAt: int): (events: seq<Event>)
    ensures |events| <= |embeds|
    ensures forall e :: e in events ==> e.points != 0 && e.timestamp == createdAt && e.category.None?
  {
    if embeds == [] then []
    else
      var earlier := EmbedReports(embeds[..|embeds| - 1], createdAt);
      match ReportOf(embeds[|embeds| - 1], createdAt)
      case None => earlier
      case Some(e) => earlier + [e]
  }

  /** Number of embeds carrying the report title. */
  function Titled(embeds: seq<Embed>): nat {
    if embeds == [] then 0
    else Titled(embeds[..|embeds| - 1]) + if embeds[|embeds| - 1].title == Some(ReportTitle) then 1 else 0
  }

  /** Each embed with the report title gives at most one event, and the
      others give none. */
  lemma {:induction false} AtMostOnePerReport(embeds: seq<Embed>, createdAt: int)
    ensures |EmbedReports(embeds, createdAt)| <= Titled(embeds)
  {
    if embeds != [] {
      AtMostOnePerReport(embeds[..|embeds| - 1], createdAt);
    }
  }

  /** The events of all messages, in message order. */
  function ReportsOf(messages: seq<Message>): (events: seq<Event>)
    ensures forall e :: e in events ==> e.points != 0 && e.category.None?
    ensures forall e :: e in events ==> exists m :: m in messages && m.createdAt == e.timestamp
  {
    if messages == [] then []
    else
      var m := messages[|messages| - 1];
      var earlier := ReportsOf(messages[..|messages| - 1]);
      assert forall e :: e in earlier ==> exists m' :: m' in messages && m'.createdAt == e.timestamp by {
        forall e | e in earlier
          ensures exists m' :: m' in messages && m'.createdAt == e.timestamp
        {
          var m' :| m' in messages[..|messages| - 1] && m'.createdAt == e.timestamp;
          assert m' in messages;
        }
      }
      earlier + EmbedReports(m.embeds, m.createdAt)
  }

  /** The scan: each message in turn, each of its embeds in turn. */
  method CollectReports(messages: seq<Message>) returns (events: seq<Event>)
    ensures events == ReportsOf(messages)
  {
    events := [];
    var i := 0;
    while i < |messages|
      invariant 0 <= i <= |messages|
      invariant events == ReportsOf(messages[..i])
    {
      var m := messages[i];
      assert messages[..i + 1][..i] == messages[..i];
      var j := 0;
      var mine: seq<Event> := [];
      while j < |m.embeds|
        invariant 0 <= j <= |m.embeds|
        invariant mine == EmbedReports(m.embeds[..j], m.createdAt)
      {
        assert m.embeds[..j + 1][..j] == m.embeds[..j];
        var r := ReadReport(m.embeds[j], m.createdAt);
        if r.Some? {
          mine := mine + [r.value];
        }
        j := j + 1;
      }
      assert m.embeds[..j] == m.embeds;
      events := events + mine;
      i := i + 1;
    }
    assert messages[..i] == messages;
  }
}
