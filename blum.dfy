/** `BlumCog` (cogs/blum_cog.py): the list of user ids whose night bonus
    uses multiplier 2.0, kept in blum_list.json. Every command but `clear`
    first reloads the list from the file, converting each stored element
    with `int`. */
module Blum {
  import opened Wrappers
  import opened Text
  import opened Lists

  /** A JSON document as `json.load` returns it (floats are not part of this
      model). */
  datatype Json =
    | JNull
    | JBool(b: bool)
    | JNum(n: int)
    | JStr(s: string)
    | JArray(items: seq<Json>)
    | JObject(members: seq<(string, Json)>)

  /** The two exceptions the conversion can raise. */
  datatype Failure = ValueError | TypeError

  /** `int(v)`: numbers as they are, booleans as 0 and 1, strings parsed;
      `int(None)`, `int([...])` and `int({...})` raise `TypeError`. */
  function IntOf(v: Json): Result<int, Failure> {
    match v
    case JNum(n) => Ok(n)
    case JBool(b) => Ok(if b then 1 else 0)
    case JStr(s) => (match ParseInt(s) case Some(n) => Ok(n) case None => Err(ValueError))
    case _ => Err(TypeError)
  }

  /** What `for user_id in document` visits: a list's items, an object's
      keys, a string's characters; other values are not iterable. */
  function Iterated(doc: Json): Result<seq<Json>, Failure> {
    match doc
    case JArray(items) => Ok(items)
    case JObject(members) => Ok(seq(|members|, k requires 0 <= k < |members| => JStr(members[k].0)))
    case JStr(s) => Ok(seq(|s|, k requires 0 <= k < |s| => JStr([s[k]])))
    case _ => Err(TypeError)
  }

  /** The list comprehension: each element converted in turn; the first
      element that fails decides the exception. */
  function IntsOf(items: seq<Json>): (r: Result<seq<int>, Failure>)
    ensures r.Ok? ==> |r.value| == |items| && forall k :: 0 <= k < |items| ==> IntOf(items[k]) == Ok(r.value[k])
    ensures r.Err? ==> exists k :: 0 <= k < |items| && IntOf(items[k]) == Err(r.error)
                                   && forall j :: 0 <= j < k ==> IntOf(items[j]).Ok?
  {
    if items == [] then Ok([])
    else
      match IntOf(items[0])
      case Err(e) => Err(e)
      case Ok(n) =>
        match IntsOf(items[1..])
        case Err(e) =>
          var k :| 0 <= k < |items[1..]| && IntOf(items[1..][k]) == Err(e)
                   && forall j :: 0 <= j < k ==> IntOf(items[1..][j]).Ok?;
          assert forall j :: 1 <= j < k + 1 ==> items[j] == items[1..][j - 1];
          Err(e)
        case Ok(rest) => Ok([n] + rest)
  }

  /** `_load_json()`: the ids stored in the file; a missing file, a file
      that is not valid JSON, or a `TypeError` gives the empty list. `None` is the
      `ValueError` of an element that is not a number, which is not caught:
      the command stops there. */
  function LoadIds(file: Option<Json>): (r: Option<seq<int>>)
    ensures file.None? ==> r == Some([])
  {
    if file.None? then Some([])
    else
      match Iterated(file.value)
      case Err(_) => Some([])
      case Ok(items) =>
        match IntsOf(items)
        case Ok(ids) => Some(ids)
        case Err(TypeError) => Some([])
        case Err(ValueError) => None
  }

  /** `json.dump(self.blum_list)`. */
  function Saved(ids: seq<int>): (doc: Json)
    ensures doc.JArray? && |doc.items| == |ids|
  {
    JArray(seq(|ids|, k requires 0 <= k < |ids| => JNum(ids[k])))
  }

  lemma {:induction false} IntsOfSaved(ids: seq<int>)
    ensures IntsOf(Saved(ids).items) == Ok(ids)
  {
    if ids != [] {
      IntsOfSaved(ids[1..]);
      assert Saved(ids).items[1..] == Saved(ids[1..]).items;
      assert ids == [ids[0]] + ids[1..];
    }
  }

  /** What is saved loads back unchanged. */
  lemma LoadSaved(ids: seq<int>)
    ensures LoadIds(Some(Saved(ids))) == Some(ids)
  {
    IntsOfSaved(ids);
  }

  /** A word that is not a number stops the load with `ValueError`. */
  lemma WordRaises(n: int)
    ensures LoadIds(Some(JArray([JStr("abc"), JNum(n)]))) == None
  {
    assert Strip("abc") == "abc";
    assert !IsDigitGroups("abc");
  }

  /** A `TypeError` that comes first empties the list instead. */
  lemma NullFirstEmpties()
    ensures LoadIds(Some(JArray([JNull, JStr("abc")]))) == Some([])
  {
  }

  /** A document that is not iterable loads as empty. */
  lemma NumberDocumentEmpties(n: int)
    ensures LoadIds(Some(JNum(n))) == Some([])
  {
  }

  /** Python's `v == u` between a JSON value and an id or `None`: a number
      equal to the id, a boolean equal to 0 or 1, or `null` for `None`.
      Strings, lists and dictionaries equal neither. */
  predicate PyEquals(v: Json, u: Option<int>) {
    match v
    case JNum(n) => u == Some(n)
    case JBool(b) => u == Some(if b then 1 else 0)
    case JNull => u.None?
    case _ => false
  }

  /** The elements of a list that `user_id in blum_list` can match, as ids
      or `None`. */
  function Matched(items: seq<Json>): (r: seq<Option<int>>)
    ensures forall u :: u in r <==> exists k :: 0 <= k < |items| && PyEquals(items[k], u)
  {
    if items == [] then []
    else
      var rest := Matched(items[1..]);
      assert forall k :: 1 <= k < |items| ==> items[k] == items[1..][k - 1];
      (match items[0]
       case JNum(n) => [Some(n)]
       case JBool(b) => [Some(if b then 1 else 0)]
       case JNull => [None]
       case _ => []) + rest
  }

  /** What `user_id in blum_list` tests against in `LogsCog`, which loads
      the file once and does not convert it: a missing file is the default
      `[]`; a list matches through its elements; a dictionary through its
      keys, which are strings and match nothing. For `null`, a boolean, a
      number or a string the test raises `TypeError`. */
  function LogsView(file: Option<Json>): Result<seq<Option<int>>, Failure> {
    if file.None? then Ok([])
    else
      match file.value
      case JArray(items) => Ok(Matched(items))
      case JObject(_) => Ok([])
      case _ => Err(TypeError)
  }

  /** The ids of a list as `user_id` values. */
  function Listed(ids: seq<int>): (r: seq<Option<int>>)
    ensures |r| == |ids| && forall k :: 0 <= k < |ids| ==> r[k] == Some(ids[k])
  {
    seq(|ids|, k requires 0 <= k < |ids| => Some(ids[k]))
  }

  /** A file the blum commands saved is read by the logs as the same ids. */
  lemma {:induction false} LogsSeeSaved(ids: seq<int>)
    ensures LogsView(Some(Saved(ids))) == Ok(Listed(ids))
  {
    if ids != [] {
      LogsSeeSaved(ids[1..]);
      assert Saved(ids).items[1..] == Saved(ids[1..]).items;
      assert Listed(ids) == [Some(ids[0])] + Listed(ids[1..]);
    }
  }

  /** A `null` in the list matches an event whose eventer has no id. */
  lemma NullMatchesNoId(items: seq<Json>)
    requires JNull in items
    ensures LogsView(Some(JArray(items))).Ok? && None in LogsView(Some(JArray(items))).value
  {
    var k :| 0 <= k < |items| && items[k] == JNull;
    assert PyEquals(items[k], None);
  }

  // ----- the commands on the loaded list ---------------------------------

  datatype Reply = Added | AlreadyListed | Removed | NotListed

  /** `add`: an id is appended unless it is already there. */
  function AddTo(ids: seq<int>, id: int): (seq<int>, Reply) {
    if id in ids then (ids, AlreadyListed) else (ids + [id], Added)
  }

  /** `remove`: the first occurrence of a listed id goes. */
  function RemoveFrom(ids: seq<int>, id: int): (seq<int>, Reply) {
    if id !in ids then (ids, NotListed) else (RemoveFirst(ids, id), Removed)
  }

  /** After `add` the id is listed, once if the list had no repeats, and no
      other id comes or goes. */
  lemma AddSpec(ids: seq<int>, id: int)
    ensures var (after, reply) := AddTo(ids, id);
      && (reply == AlreadyListed <==> id in ids)
      && (reply == AlreadyListed ==> after == ids)
      && (reply == Added ==> after == ids + [id])
      && id in after
      && (forall x :: x != id ==> (x in after <==> x in ids))
      && (Distinct(ids) ==> Distinct(after))
  {
    if id !in ids && Distinct(ids) {
      AppendNewKeepsDistinct(ids, id);
    }
  }

  /** `remove` drops the first occurrence of a listed id and keeps every
      other element where it was, repeats included. */
  lemma RemoveKeepsOrder(ids: seq<int>, id: int)
    ensures var (after, reply) := RemoveFrom(ids, id);
      reply == Removed ==>
        exists i :: 0 <= i < |ids| && ids[i] == id && id !in ids[..i] && after == ids[..i] + ids[i + 1..]
  {
    if id in ids {
      RemoveFirstSplits(ids, id);
    }
  }

  /** After `remove` from a list without repeats the id is gone, the others
      stay in their order, and there are still no repeats. */
  lemma RemoveSpec(ids: seq<int>, id: int)
    requires Distinct(ids)
    ensures var (after, reply) := RemoveFrom(ids, id);
      && (reply == NotListed <==> id !in ids)
      && (reply == NotListed ==> after == ids)
      && id !in after
      && (forall x :: x != id ==> (x in after <==> x in ids))
      && Distinct(after)
      && multiset(after) == multiset(ids) - multiset{id}
      && (reply == Removed ==> exists i :: 0 <= i < |ids| && ids[i] == id && after == ids[..i] + ids[i + 1..])
  {
    if id in ids {
      RemoveFirstOfDistinct(ids, id);
      RemoveKeepsOrder(ids, id);
    }
  }

  /** Removing an id just added restores the list. */
  lemma AddThenRemove(ids: seq<int>, id: int)
    requires id !in ids
    ensures RemoveFrom(AddTo(ids, id).0, id) == (ids, Removed)
  {
    RemoveFirstOfAppended(ids, id);
  }

  /** One line of `list`: "- <@id>". */
  function Line(id: int): string {
    "- <@" + ShowInt(id) + ">"
  }

  function Lines(ids: seq<int>): (lines: seq<string>)
    ensures |lines| == |ids|
    ensures forall k :: 0 <= k < |ids| ==> lines[k] == Line(ids[k])
  {
    if ids == [] then [] else [Line(ids[0])] + Lines(ids[1..])
  }

  /** The embed description: the lines joined by newlines. */
  function Description(ids: seq<int>): string {
    Join("\n", Lines(ids))
  }

  /** The description holds one line per id, in stored order. */
  lemma DescriptionLines(ids: seq<int>)
    requires ids != []
    ensures SplitOn(Description(ids), '\n') == Lines(ids)
  {
    var lines := Lines(ids);
    forall i | 0 <= i < |lines| ensures '\n' !in lines[i] {
      ShowIntChars(ids[i]);
      var digits := ShowInt(ids[i]);
      assert lines[i] == "- <@" + digits + ">";
      forall k | 0 <= k < |lines[i]| ensures lines[i][k] != '\n' {
        if 4 <= k < |lines[i]| - 1 {
          assert lines[i][k] == digits[k - 4];
        }
      }
    }
    assert "\n" == ['\n'];
    SplitOnJoin(lines, '\n');
  }

  datatype ListReply = EmptyList | Listing(description: string)

  // ----- the cog ---------------------------------------------------------

  class BlumCog {
    /** `self.blum_list`. */
    var ids: seq<int>
    /** The contents of blum_list.json; `None` when the file is missing or
        is not valid JSON. */
    var saved: Option<Json>

    /** The cog loads the list when it is created; a file whose load raises
        leaves no cog. */
    constructor (file: Option<Json>)
      requires LoadIds(file).Some?
      ensures saved == file && ids == LoadIds(file).value
    {
      saved := file;
      ids := LoadIds(file).value;
    }

    /** `add`. `None` when the reload raised, and then nothing changes. */
    method Add(id: int) returns (reply: Option<Reply>)
      modifies this
      ensures LoadIds(old(saved)).None? ==> reply.None? && ids == old(ids) && saved == old(saved)
      ensures LoadIds(old(saved)).Some? ==> reply.Some? && (ids, reply.value) == AddTo(LoadIds(old(saved)).value, id)
      ensures reply == Some(Added) ==> saved == Some(Saved(ids))
      ensures reply != Some(Added) ==> saved == old(saved)
    {
      var loaded := LoadIds(saved);
      if loaded.None? {
        return None;
      }
      ids := loaded.value;
      if id in ids {
        reply := Some(AlreadyListed);
      } else {
        ids := ids + [id];
        saved := Some(Saved(ids));
        reply := Some(Added);
      }
    }

    /** `remove`. `None` when the reload raised, and then nothing changes. */
    method Remove(id: int) returns (reply: Option<Reply>)
      modifies this
      ensures LoadIds(old(saved)).None? ==> reply.None? && ids == old(ids) && saved == old(saved)
      ensures LoadIds(old(saved)).Some? ==> reply.Some? && (ids, reply.value) == RemoveFrom(LoadIds(old(saved)).value, id)
      ensures reply == Some(Removed) ==> saved == Some(Saved(ids))
      ensures reply != Some(Removed) ==> saved == old(saved)
    {
      var loaded := LoadIds(saved);
      if loaded.None? {
        return None;
      }
      ids := loaded.value;
      if id !in ids {
        reply := Some(NotListed);
      } else {
        ids := RemoveFirst(ids, id);
        saved := Some(Saved(ids));
        reply := Some(Removed);
      }
    }

    /** `clear`: no reload; the list is emptied and saved. */
    method Clear()
      modifies this
      ensures ids == [] && saved == Some(Saved([]))
    {
      ids := [];
      saved := Some(Saved(ids));
    }

    /** `list`: the "empty" message, or one line per id. `None` when the
        reload raised. */
    method List() returns (reply: Option<ListReply>)
      modifies this
      ensures saved == old(saved)
      ensures LoadIds(saved).None? ==> reply.None? && ids == old(ids)
      ensures LoadIds(saved).Some? ==> ids == LoadIds(saved).value && reply.Some?
      ensures reply == Some(EmptyList) <==> LoadIds(saved) == Some([])
      ensures reply.Some? && reply.value.Listing? ==> reply.value.description == Description(ids)
    {
      var loaded := LoadIds(saved);
      if loaded.None? {
        return None;
      }
      ids := loaded.value;
      if ids == [] {
        return Some(EmptyList);
      }
      reply := Some(Listing(Description(ids)));
    }
  }
}
