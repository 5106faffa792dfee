/** The category index of `CategoryCog` (cogs/category_cog.py): an ordered
    map from category name to the list of event names it holds, kept in
    categories.json. Every command first reloads the map from the file (a
    missing file or one that is not valid JSON gives the empty map), then checks and changes
    it and writes it back. */
module Categories {
  import opened Wrappers
  import opened Text
  import opened Lists

  /** One entry of the map: a name and its event list, in insertion order. */
  datatype Category = Category(name: string, events: seq<string>)

  /** What a command answers; the wording of the replies is not modelled. */
  datatype Reply = Done | Exists | MissingCategory | DuplicateEvent | MissingEvent

  /** A map has each key once. */
  predicate DistinctNames(index: seq<Category>) {
    forall i, j :: 0 <= i < j < |index| ==> index[i].name != index[j].name
  }

  predicate HasCategory(index: seq<Category>, name: string) {
    exists i :: 0 <= i < |index| && index[i].name == name
  }

  /** The position of a key. */
  function Find(index: seq<Category>, name: string): (r: Option<nat>)
    ensures r.Some? ==> r.value < |index| && index[r.value].name == name
    ensures r.Some? ==> forall j :: 0 <= j < r.value ==> index[j].name != name
    ensures r.None? <==> !HasCategory(index, name)
  {
    if index == [] then None
    else if index[0].name == name then Some(0)
    else
      match Find(index[1..], name)
      case None =>
        assert forall i :: 1 <= i < |index| ==> index[i] == index[1..][i - 1];
        None
      case Some(i) => Some(i + 1)
  }

  /** `create`: a new key with an empty list, at the end. */
  function CreateIn(index: seq<Category>, name: string): (seq<Category>, Reply) {
    if HasCategory(index, name) then (index, Exists)
    else (index + [Category(name, [])], Done)
  }

  /** `delete`: the key and its list go; the others keep their order. */
  function DeleteIn(index: seq<Category>, name: string): (seq<Category>, Reply) {
    match Find(index, name)
    case None => (index, MissingCategory)
    case Some(i) => (index[..i] + index[i + 1..], Done)
  }

  /** `add`: the event is appended to that category's list unless the list
      already holds it exactly. */
  function AddIn(index: seq<Category>, name: string, event: string): (seq<Category>, Reply) {
    match Find(index, name)
    case None => (index, MissingCategory)
    case Some(i) =>
      if event in index[i].events then (index, DuplicateEvent)
      else (index[i := Category(name, index[i].events + [event])], Done)
  }

  /** `remove`: one occurrence of the event leaves that category's list. */
  function RemoveIn(index: seq<Category>, name: string, event: string): (seq<Category>, Reply) {
    match Find(index, name)
    case None => (index, MissingCategory)
    case Some(i) =>
      if event !in index[i].events then (index, MissingEvent)
      else (index[i := Category(name, RemoveFirst(index[i].events, event))], Done)
  }

  // ----- what the commands keep and change -------------------------------

  /** Creating succeeds exactly for a new name, adds that key with no events
      at the end, and keeps the map a map. */
  lemma CreateSpec(index: seq<Category>, name: string)
    requires DistinctNames(index)
    ensures CreateIn(index, name).1 == Done <==> !HasCategory(index, name)
    ensures CreateIn(index, name).1 == Done ==>
      CreateIn(index, name).0[..|index|] == index && CreateIn(index, name).0[|index|] == Category(name, [])
    ensures CreateIn(index, name).1 != Done ==> CreateIn(index, name).0 == index
    ensures DistinctNames(CreateIn(index, name).0)
  {
    var r := CreateIn(index, name).0;
    if !HasCategory(index, name) {
      assert r[..|index|] == index;
      forall i, j | 0 <= i < j < |r| ensures r[i].name != r[j].name {
        if j == |index| {
          assert r[i] == index[i];
        } else {
          assert r[i] == index[i] && r[j] == index[j];
        }
      }
    }
  }

  /** Deleting succeeds exactly for a present name; afterwards that name is
      gone and every other category is still there, in the same order. */
  lemma DeleteSpec(index: seq<Category>, name: string)
    requires DistinctNames(index)
    ensures DeleteIn(index, name).1 == Done <==> HasCategory(index, name)
    ensures !HasCategory(DeleteIn(index, name).0, name)
    ensures DistinctNames(DeleteIn(index, name).0)
    ensures forall c :: c in index && c.name != name ==> c in DeleteIn(index, name).0
    ensures forall c :: c in DeleteIn(index, name).0 ==> c in index
  {
    match Find(index, name)
    case None =>
    case Some(i) => DeleteAt(index, i);
  }

  /** Dropping position `i` of a map drops exactly its key. */
  lemma DeleteAt(index: seq<Category>, i: nat)
    requires DistinctNames(index) && i < |index|
    ensures var r := index[..i] + index[i + 1..];
      && !HasCategory(r, index[i].name)
      && DistinctNames(r)
      && (forall c :: c in index && c.name != index[i].name ==> c in r)
      && (forall c :: c in r ==> c in index)
  {
    var r := index[..i] + index[i + 1..];
    assert forall k :: 0 <= k < |r| ==> r[k] == if k < i then index[k] else index[k + 1];
    forall c | c in index && c.name != index[i].name ensures c in r {
      var k :| 0 <= k < |index| && index[k] == c;
      if k < i { assert r[k] == c; } else { assert k > i && r[k - 1] == c; }
    }
  }

  /** Adding succeeds exactly when the category exists and does not hold the
      event yet; then only that category changes, by the event at the end of
      its list. A list with no repeated event keeps none. */
  lemma AddSpec(index: seq<Category>, name: string, event: string)
    requires DistinctNames(index)
    ensures AddIn(index, name, event).1 == Done <==>
      exists i :: 0 <= i < |index| && index[i].name == name && event !in index[i].events
    ensures |AddIn(index, name, event).0| == |index|
    ensures forall k :: 0 <= k < |index| && index[k].name != name ==> AddIn(index, name, event).0[k] == index[k]
    ensures forall k :: 0 <= k < |index| && index[k].name == name ==>
      AddIn(index, name, event).0[k].name == name &&
      AddIn(index, name, event).0[k].events == index[k].events + (if event in index[k].events then [] else [event])
    ensures forall k :: 0 <= k < |index| && Distinct(index[k].events) ==> Distinct(AddIn(index, name, event).0[k].events)
    ensures DistinctNames(AddIn(index, name, event).0)
  {
    match Find(index, name)
    case None =>
    case Some(i) =>
      assert forall k :: 0 <= k < |index| && index[k].name == name ==> k == i;
      if event !in index[i].events && Distinct(index[i].events) {
        AppendNewKeepsDistinct(index[i].events, event);
      }
  }

  /** Removing succeeds exactly when the category exists and holds the event;
      then only that category changes: its first occurrence of the event goes
      and the other events keep their order. */
  lemma RemoveSpec(index: seq<Category>, name: string, event: string)
    requires DistinctNames(index)
    ensures RemoveIn(index, name, event).1 == Done <==>
      exists i :: 0 <= i < |index| && index[i].name == name && event in index[i].events
    ensures |RemoveIn(index, name, event).0| == |index|
    ensures forall k :: 0 <= k < |index| && index[k].name != name ==> RemoveIn(index, name, event).0[k] == index[k]
    ensures forall k :: 0 <= k < |index| && index[k].name == name ==>
      RemoveIn(index, name, event).0[k].name == name &&
      multiset(RemoveIn(index, name, event).0[k].events) == multiset(index[k].events) - multiset{event}
    ensures forall k :: 0 <= k < |index| && index[k].name == name && event in index[k].events ==>
      exists j :: 0 <= j < |index[k].events| && index[k].events[j] == event && event !in index[k].events[..j] &&
        RemoveIn(index, name, event).0[k].events == index[k].events[..j] + index[k].events[j + 1..]
    ensures DistinctNames(RemoveIn(index, name, event).0)
  {
    match Find(index, name)
    case None =>
    case Some(i) =>
      assert forall k :: 0 <= k < |index| && index[k].name == name ==> k == i;
      if event !in index[i].events {
        assert multiset(index[i].events)[event] == 0;
      } else {
        RemoveFirstSplits(index[i].events, event);
      }
  }

  /** Add then remove of a new event gives the map back. */
  lemma AddThenRemove(index: seq<Category>, name: string, event: string)
    requires DistinctNames(index)
    requires AddIn(index, name, event).1 == Done
    ensures RemoveIn(AddIn(index, name, event).0, name, event) == (index, Done)
  {
    var i := Find(index, name).value;
    var added := AddIn(index, name, event).0;
    AddSpec(index, name, event);
    assert Find(added, name) == Some(i) by {
      assert forall j :: 0 <= j < i ==> added[j] == index[j];
    }
    RemoveFirstOfAppended(index[i].events, event);
    assert added[i := Category(name, index[i].events)] == index;
  }

  // ----- the listing -----------------------------------------------------

  const Empty: string := "Пусто"

  /** One embed field per category: the name behind a folder sign, and the
      events as "- event" lines, or "Пусто" for an empty list. */
  function Bullets(events: seq<string>): (lines: seq<string>)
    ensures |lines| == |events|
    ensures forall k :: 0 <= k < |events| ==> lines[k] == "- " + events[k]
  {
    if events == [] then [] else ["- " + events[0]] + Bullets(events[1..])
  }

  function RenderCategory(c: Category): (string, string) {
    ("\U{1F4C1} " + c.name, if c.events == [] then Empty else Join("\n", Bullets(c.events)))
  }

  /** A field reads "Пусто" exactly when its category holds no event. */
  lemma EmptyRendering(c: Category)
    ensures RenderCategory(c).1 == Empty <==> c.events == []
  {
    if c.events != [] {
      var lines := Bullets(c.events);
      JoinStartsWithFirst("\n", lines);
      assert RenderCategory(c).1[..2] == "- ";
      assert RenderCategory(c).1[0] == '-' != Empty[0];
    }
  }

  lemma {:induction false} JoinStartsWithFirst(sep: string, parts: seq<string>)
    requires parts != []
    ensures |parts[0]| <= |Join(sep, parts)| && Join(sep, parts)[..|parts[0]|] == parts[0]
  {
    if |parts| > 1 {
      assert Join(sep, parts) == parts[0] + (sep + Join(sep, parts[1..]));
    }
  }

  // ----- the cog ---------------------------------------------------------

  class CategoryCog {
    /** `self.categories`. */
    var index: seq<Category>
    /** The contents of categories.json; `None` when the file is missing or
        is not valid JSON. */
    var saved: Option<seq<Category>>

    ghost predicate Valid()
      reads this
    {
      DistinctNames(index) && (saved.Some? ==> DistinctNames(saved.value))
    }

    /** `_load_json()`. */
    function Load(): (r: seq<Category>)
      reads this
      ensures Valid() ==> DistinctNames(r)
    {
      if saved.Some? then saved.value else []
    }

    constructor (file: Option<seq<Category>>)
      requires file.Some? ==> DistinctNames(file.value)
      ensures Valid() && saved == file && index == Load()
    {
      saved := file;
      index := if file.Some? then file.value else [];
    }

    method Create(name: string) returns (reply: Reply)
      requires Valid()
      modifies this
      ensures Valid()
      ensures (index, reply) == CreateIn(old(Load()), name)
      ensures saved == if reply == Done then Some(index) else old(saved)
    {
      index := Load();
      if HasCategory(index, name) {
        reply := Exists;
      } else {
        CreateSpec(index, name);
        index := index + [Category(name, [])];
        saved := Some(index);
        reply := Done;
      }
    }

    method Delete(name: string) returns (reply: Reply)
      requires Valid()
      modifies this
      ensures Valid()
      ensures (index, reply) == DeleteIn(old(Load()), name)
      ensures saved == if reply == Done then Some(index) else old(saved)
    {
      var loaded := Load();
      var i := Find(loaded, name);
      if i.None? {
        index := loaded;
        reply := MissingCategory;
      } else {
        DeleteSpec(loaded, name);
        index := loaded[..i.value] + loaded[i.value + 1..];
        saved := Some(index);
        reply := Done;
      }
    }

    method Add(name: string, event: string) returns (reply: Reply)
      requires Valid()
      modifies this
      ensures Valid()
      ensures (index, reply) == AddIn(old(Load()), name, event)
      ensures saved == if reply == Done then Some(index) else old(saved)
    {
      index := Load();
      AddSpec(index, name, event);
      var i := Find(index, name);
      if i.None? {
        return MissingCategory;
      }
      if event in index[i.value].events {
        reply := DuplicateEvent;
      } else {
        index := index[i.value := Category(name, index[i.value].events + [event])];
        saved := Some(index);
        reply := Done;
      }
    }

    method Remove(name: string, event: string) returns (reply: Reply)
      requires Valid()
      modifies this
      ensures Valid()
      ensures (index, reply) == RemoveIn(old(Load()), name, event)
      ensures saved == if reply == Done then Some(index) else old(saved)
    {
      index := Load();
      RemoveSpec(index, name, event);
      var i := Find(index, name);
      if i.None? {
        return MissingCategory;
      }
      if event !in index[i.value].events {
        reply := MissingEvent;
      } else {
        index := index[i.value := Category(name, RemoveFirst(index[i.value].events, event))];
        saved := Some(index);
        reply := Done;
      }
    }

    /** `list`: `None` for the "no categories" message, otherwise one field
        per category in stored order. */
    method List() returns (fields: Option<seq<(string, string)>>)
      requires Valid()
      modifies this
      ensures Valid() && index == old(Load()) && saved == old(saved)
      ensures fields.None? <==> index == []
      ensures fields.Some? ==> |fields.value| == |index|
      ensures fields.Some? ==> forall k :: 0 <= k < |index| ==> fields.value[k] == RenderCategory(index[k])
    {
      index := Load();
      if index == [] {
        return None;
      }
      var out: seq<(string, string)> := [];
      for k := 0 to |index|
        invariant |out| == k
        invariant forall j :: 0 <= j < k ==> out[j] == RenderCategory(index[j])
      {
        out := out + [RenderCategory(index[k])];
      }
      fields := Some(out);
    }
  }
}
