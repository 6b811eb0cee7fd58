/** A run of the page: the catalogue state threaded through a sequence of
    user events, each handled by the matching list update. The state is
    written to storage after every change; since that write copies the
    whole list, the stored copy equals the state whenever the write
    succeeds, and it is not modelled separately. A write that throws (the
    storage quota exceeded) is not modelled. */
module Session {
  import opened Wrappers
  import opened Records
  import opened Catalogue
  import Views

  datatype Event =
    | AddEvent(image: ImageChoice, form: AddForm, id: string, createdAt: string)
    | DeleteEvent(target: string, confirmed: bool)
    | EditEvent(item: Item, answers: EditAnswers)
    | ImportEvent(parsed: Parsed)

  /** The catalogue after one event. */
  function Apply(items: seq<Item>, e: Event): (r: seq<Item>)
    ensures e.AddEvent? && e.image.Loaded? ==> |r| == |items| + 1
    ensures e.AddEvent? && !e.image.Loaded? ==> r == items
    ensures e.DeleteEvent? ==> |r| <= |items|
    ensures e.EditEvent? ==> |r| == |items|
    ensures e.ImportEvent? && !e.parsed.ParsedArray? ==> r == items
  {
    match e
    case AddEvent(image, form, id, createdAt) => Add(items, image, form, id, createdAt).items
    case DeleteEvent(target, confirmed) => Delete(items, target, confirmed)
    case EditEvent(item, answers) => Edit(items, item, answers)
    case ImportEvent(parsed) => Import(items, parsed).items
  }

  function Run(items: seq<Item>, events: seq<Event>): seq<Item>
    decreases |events|
  {
    if events == [] then items else Run(Apply(items, events[0]), events[1..])
  }

  /** The conditions under which ids stay distinct: every added record gets
      an id not yet in the catalogue, and every imported array has distinct
      ids (the import itself does not check). */
  predicate FreshIds(items: seq<Item>, events: seq<Event>)
    decreases |events|
  {
    || events == []
    || (&& (events[0].AddEvent? ==> !HasId(items, events[0].id))
        && (events[0].ImportEvent? && events[0].parsed.ParsedArray? ==> UniqueIds(events[0].parsed.elements))
        && FreshIds(Apply(items, events[0]), events[1..]))
  }

  lemma ApplyKeepsUniqueIds(items: seq<Item>, e: Event)
    requires UniqueIds(items)
    requires e.AddEvent? ==> !HasId(items, e.id)
    requires e.ImportEvent? && e.parsed.ParsedArray? ==> UniqueIds(e.parsed.elements)
    ensures UniqueIds(Apply(items, e))
  {
    match e
    case AddEvent(image, form, id, createdAt) => AddKeepsUniqueIds(items, image, form, id, createdAt);
    case DeleteEvent(target, confirmed) => DeleteKeepsUniqueIds(items, target, confirmed);
    case EditEvent(item, answers) => EditKeepsUniqueIds(items, item, answers);
    case ImportEvent(parsed) =>
  }

  /** Ids stay pairwise distinct over any run whose added ids are fresh. */
  lemma {:induction false} RunKeepsUniqueIds(items: seq<Item>, events: seq<Event>)
    requires UniqueIds(items) && FreshIds(items, events)
    ensures UniqueIds(Run(items, events))
    decreases |events|
  {
    if events != [] {
      ApplyKeepsUniqueIds(items, events[0]);
      RunKeepsUniqueIds(Apply(items, events[0]), events[1..]);
    }
  }

  lemma ApplyKeepsWellFormed(items: seq<Item>, e: Event)
    requires AllWellFormed(items) && !e.ImportEvent?
    ensures AllWellFormed(Apply(items, e))
  {
    match e
    case AddEvent(image, form, id, createdAt) => AddKeepsWellFormed(items, image, form, id, createdAt);
    case DeleteEvent(target, confirmed) => DeleteKeepsWellFormed(items, target, confirmed);
    case EditEvent(item, answers) => EditKeepsWellFormed(items, item, answers);
  }

  /** Runs without imports keep every record well formed. */
  lemma {:induction false} RunKeepsWellFormed(items: seq<Item>, events: seq<Event>)
    requires AllWellFormed(items)
    requires forall k :: 0 <= k < |events| ==> !events[k].ImportEvent?
    ensures AllWellFormed(Run(items, events))
    decreases |events|
  {
    if events != [] {
      ApplyKeepsWellFormed(items, events[0]);
      RunKeepsWellFormed(Apply(items, events[0]), events[1..]);
    }
  }

  /** Normalising the typed text "tacos, beef" gives the two tags in the
      order typed. */
  lemma TacosTags()
    ensures NormalizeTags("tacos, beef") == ["tacos", "beef"]
  {
    var tags: seq<string> := ["tacos", "beef"];
    assert IsTag(tags[0]) && IsTag(tags[1]);
    assert Text.Join(tags, ", ") == "tacos, beef";
    NormalizeJoinRoundTrip(tags);
  }

  /** The tag dropdown for a single record tagged "tacos", "beef" lists
      them sorted. */
  lemma TacosDropdown(items: seq<Item>)
    requires |items| == 1 && items[0].tags == ["tacos", "beef"]
    ensures Views.AllTags(items) == ["beef", "tacos"]
  {
    var sorted: seq<string> := ["beef", "tacos"];
    assert Text.Less(sorted[0], sorted[1]);
    forall t
      ensures Views.TagOccurs(items, t) <==> t in sorted
    {
      if t in sorted {
        assert t in items[0].tags;
      }
    }
    Views.AscendingListingUnique(Views.AllTags(items), sorted);
  }

  /** An end-to-end run: adding "Tacos El Gallo" tagged "tacos, beef"
      to an empty catalogue stores the tags in typed order, the tag
      dropdown lists them sorted, and confirming the delete empties the
      catalogue again. */
  lemma TacosScenario(form: AddForm, dataUrl: string, id: string, createdAt: string)
    requires form == AddForm("Tacos El Gallo", "", "", "", "", "tacos, beef")
    ensures |Add([], Loaded(dataUrl), form, id, createdAt).items| == 1
    ensures Add([], Loaded(dataUrl), form, id, createdAt).items[0].tags == ["tacos", "beef"]
    ensures Views.AllTags(Add([], Loaded(dataUrl), form, id, createdAt).items) == ["beef", "tacos"]
    ensures Delete(Add([], Loaded(dataUrl), form, id, createdAt).items, id, true) == []
  {
    var items := Add([], Loaded(dataUrl), form, id, createdAt).items;
    TacosTags();
    TacosDropdown(items);
    assert items[0].id == id;
  }
}
