/** The list updates of the `Home` page: Add (`handleAdd`), Delete
    (`handleDelete`), Edit (`startEdit`) and the JSON import decision. The
    catalogue is a sequence of records, newest first. Browser I/O enters as
    parameters: the chosen image, the fresh id and timestamp, the confirm
    and prompt answers, and the already-parsed import payload. */
module Catalogue {
  import opened Wrappers
  import opened Text
  import opened Records
  import Seqs

  /** The notices the page shows with `alert`. */
  datatype Notice = ChooseImage | InvalidJsonFormat | JsonParseFailed

  function Message(n: Notice): string {
    match n
    case ChooseImage => "Please choose an image."
    case InvalidJsonFormat => "Invalid JSON format"
    case JsonParseFailed => "Failed to parse JSON"
  }

  /** The catalogue after handling one event, and the notice shown, if any. */
  datatype Step = Step(items: seq<Item>, notice: Option<Notice>)

  /** The image input at submit time: nothing chosen, a file the reader
      fails on, or the data URL the reader produced. */
  datatype ImageChoice = NoImage | Unreadable | Loaded(dataUrl: string)

  /** The raw text of the add form's fields. */
  datatype AddForm = AddForm(
    businessName: string,
    contactName: string,
    contactInfo: string,
    pictureTitle: string,
    pictureDescription: string,
    tags: string)

  /** The record `handleAdd` builds; `id` and `createdAt` stand for
      `crypto.randomUUID()` and `new Date().toISOString()`. */
  function NewItem(form: AddForm, dataUrl: string, id: string, createdAt: string): (r: Item)
    ensures WellFormed(r)
    ensures r.id == id && r.imageDataUrl == dataUrl && r.createdAt == createdAt
    ensures r.businessName == Trim(form.businessName)
    ensures r.contactName == Trim(form.contactName)
    ensures r.contactInfo == Trim(form.contactInfo)
    ensures r.pictureTitle == Trim(form.pictureTitle)
    ensures r.pictureDescription == Trim(form.pictureDescription)
    ensures r.tags == NormalizeTags(form.tags)
  {
    Item(id, dataUrl,
         Trim(form.businessName), Trim(form.contactName), Trim(form.contactInfo),
         Trim(form.pictureTitle), Trim(form.pictureDescription),
         NormalizeTags(form.tags), createdAt)
  }

  /** `handleAdd`: without an image the catalogue is untouched (with a
      notice when nothing was chosen, silently when reading fails);
      otherwise the new record is prepended and the rest is kept as is. */
  function Add(items: seq<Item>, image: ImageChoice, form: AddForm, id: string, createdAt: string): (r: Step)
    ensures image.NoImage? ==> r == Step(items, Some(ChooseImage))
    ensures image.Unreadable? ==> r == Step(items, None)
    ensures image.Loaded? ==> r.notice == None && |r.items| == |items| + 1 && r.items[1..] == items
    ensures image.Loaded? ==> r.items[0] == NewItem(form, image.dataUrl, id, createdAt)
  {
    match image
    case NoImage => Step(items, Some(ChooseImage))
    case Unreadable => Step(items, None)
    case Loaded(dataUrl) => Step([NewItem(form, dataUrl, id, createdAt)] + items, None)
  }

  lemma AddKeepsUniqueIds(items: seq<Item>, image: ImageChoice, form: AddForm, id: string, createdAt: string)
    requires UniqueIds(items) && !HasId(items, id)
    ensures UniqueIds(Add(items, image, form, id, createdAt).items)
  {
    var r := Add(items, image, form, id, createdAt).items;
    if image.Loaded? {
      forall i, j | 0 <= i < j < |r|
        ensures r[i].id != r[j].id
      {
        assert r[j] == items[j - 1];
        if i == 0 {
          assert r[0].id == id;
          assert items[j - 1].id != id;
        } else {
          assert r[i] == items[i - 1];
        }
      }
    }
  }

  /** Every record in the catalogue is well formed. */
  predicate AllWellFormed(items: seq<Item>) {
    forall k :: 0 <= k < |items| ==> WellFormed(items[k])
  }

  lemma AddKeepsWellFormed(items: seq<Item>, image: ImageChoice, form: AddForm, id: string, createdAt: string)
    requires AllWellFormed(items)
    ensures AllWellFormed(Add(items, image, form, id, createdAt).items)
  {
    var r := Add(items, image, form, id, createdAt).items;
    if image.Loaded? {
      forall k | 0 < k < |r|
        ensures WellFormed(r[k])
      {
        assert r[k] == items[k - 1];
      }
    }
  }

  /** `handleDelete`: once confirmed, every record carrying `id` is
      removed and the others keep their relative order; an absent id, or a
      declined confirmation, leaves the catalogue unchanged. */
  function Delete(items: seq<Item>, id: string, confirmed: bool): (r: seq<Item>)
    ensures !confirmed ==> r == items
    ensures Seqs.IsSubsequence(r, items) && |r| <= |items|
    ensures confirmed ==> forall x :: x in r <==> x in items && x.id != id
    ensures confirmed ==> forall x :: multiset(r)[x] == if x.id == id then 0 else multiset(items)[x]
    ensures !HasId(items, id) ==> r == items
  {
    if !confirmed then
      assert Seqs.IsSubsequence(items, items) by { Seqs.SubsequenceReflexive(items); }
      items
    else Seqs.Filter(items, (x: Item) => x.id != id)
  }

  lemma DeleteKeepsUniqueIds(items: seq<Item>, id: string, confirmed: bool)
    requires UniqueIds(items)
    ensures UniqueIds(Delete(items, id, confirmed))
    ensures !HasId(Delete(items, id, confirmed), id) || !confirmed
  {
    SubsequenceKeepsUniqueIds(Delete(items, id, confirmed), items);
  }

  lemma DeleteKeepsWellFormed(items: seq<Item>, id: string, confirmed: bool)
    requires AllWellFormed(items)
    ensures AllWellFormed(Delete(items, id, confirmed))
  {
    var r := Delete(items, id, confirmed);
    forall k | 0 <= k < |r|
      ensures WellFormed(r[k])
    {
      Seqs.SubsequenceMembers(r, items);
      assert r[k] in items;
    }
  }

  /** The answers to the six edit prompts; None is a cancelled prompt. */
  datatype EditAnswers = EditAnswers(
    businessName: Option<string>,
    contactName: Option<string>,
    contactInfo: Option<string>,
    pictureTitle: Option<string>,
    pictureDescription: Option<string>,
    tags: Option<string>)

  const AllCancelled := EditAnswers(None, None, None, None, None, None)

  /** The `merged` record of `startEdit`: the original spread first, then
      the five text fields and the tags re-derived from the answers, each
      cancelled answer falling back to the current value (for the tags, the
      text `tags.join(', ')` the prompt was pre-filled with). */
  function Merge(item: Item, answers: EditAnswers): (r: Item)
    ensures r.id == item.id && r.imageDataUrl == item.imageDataUrl && r.createdAt == item.createdAt
    ensures WellFormed(r)
    ensures r.businessName == Trim(answers.businessName.GetOr(item.businessName))
    ensures r.contactName == Trim(answers.contactName.GetOr(item.contactName))
    ensures r.contactInfo == Trim(answers.contactInfo.GetOr(item.contactInfo))
    ensures r.pictureTitle == Trim(answers.pictureTitle.GetOr(item.pictureTitle))
    ensures r.pictureDescription == Trim(answers.pictureDescription.GetOr(item.pictureDescription))
    ensures r.tags == NormalizeTags(answers.tags.GetOr(Join(item.tags, ", ")))
  {
    item.(
      businessName := Trim(answers.businessName.GetOr(item.businessName)),
      contactName := Trim(answers.contactName.GetOr(item.contactName)),
      contactInfo := Trim(answers.contactInfo.GetOr(item.contactInfo)),
      pictureTitle := Trim(answers.pictureTitle.GetOr(item.pictureTitle)),
      pictureDescription := Trim(answers.pictureDescription.GetOr(item.pictureDescription)),
      tags := NormalizeTags(answers.tags.GetOr(Join(item.tags, ", "))))
  }

  /** Cancelling every prompt on a well-formed record gives it back. */
  lemma CancelledMergeIsIdentity(item: Item)
    requires WellFormed(item)
    ensures Merge(item, AllCancelled) == item
  {
    NormalizeJoinRoundTrip(item.tags);
  }

  /** `startEdit`: every record whose id is the edited record's id becomes
      the merged record; all others, the length and the order are kept. */
  function Edit(items: seq<Item>, item: Item, answers: EditAnswers): (r: seq<Item>)
    ensures |r| == |items|
    ensures forall k :: 0 <= k < |items| ==> r[k].id == items[k].id
    ensures forall k :: 0 <= k < |items| && items[k].id != item.id ==> r[k] == items[k]
    ensures forall k :: 0 <= k < |items| && items[k].id == item.id ==> r[k] == Merge(item, answers)
  {
    var merged := Merge(item, answers);
    seq(|items|, k requires 0 <= k < |items| => if items[k].id == item.id then merged else items[k])
  }

  /** Editing a record whose id is no longer in the catalogue changes
      nothing. */
  lemma EditAbsentIdIsIdentity(items: seq<Item>, item: Item, answers: EditAnswers)
    requires !HasId(items, item.id)
    ensures Edit(items, item, answers) == items
  {
    var r := Edit(items, item, answers);
    assert forall k :: 0 <= k < |items| ==> r[k] == items[k];
  }

  lemma EditKeepsUniqueIds(items: seq<Item>, item: Item, answers: EditAnswers)
    requires UniqueIds(items)
    ensures UniqueIds(Edit(items, item, answers))
  {
  }

  lemma EditKeepsWellFormed(items: seq<Item>, item: Item, answers: EditAnswers)
    requires AllWellFormed(items)
    ensures AllWellFormed(Edit(items, item, answers))
  {
  }

  /** Editing a well-formed record and cancelling every prompt leaves the
      whole catalogue unchanged, provided every record carrying its id is
      that record (as when ids are distinct and the record is in the
      catalogue). Other records need not be well formed. */
  lemma CancelledEditIsIdentity(items: seq<Item>, item: Item)
    requires WellFormed(item)
    requires forall k :: 0 <= k < |items| && items[k].id == item.id ==> items[k] == item
    ensures Edit(items, item, AllCancelled) == items
  {
    CancelledMergeIsIdentity(item);
    EditByOwnMerge(items, item, AllCancelled);
  }

  lemma EditByOwnMerge(items: seq<Item>, item: Item, answers: EditAnswers)
    requires Merge(item, answers) == item
    requires forall k :: 0 <= k < |items| && items[k].id == item.id ==> items[k] == item
    ensures Edit(items, item, answers) == items
  {
    var r := Edit(items, item, answers);
    assert forall k :: 0 <= k < |items| ==> r[k] == items[k];
  }

  /** The case of a catalogue with distinct ids whose records are all well
      formed: editing any of its records and cancelling every prompt changes
      nothing. */
  lemma CancelledEditInCatalogue(items: seq<Item>, item: Item)
    requires UniqueIds(items) && AllWellFormed(items) && item in items
    ensures Edit(items, item, AllCancelled) == items
  {
    var j :| 0 <= j < |items| && items[j] == item;
    assert WellFormed(items[j]);
    forall k | 0 <= k < |items| && items[k].id == item.id
      ensures items[k] == item
    {
      assert k == j;
    }
    CancelledEditIsIdentity(items, item);
  }

  /** The result of `JSON.parse` on the imported file's text. */
  datatype Parsed = ParsedArray(elements: seq<Item>) | ParsedOther | ParseFailure

  /** The import reader's `onload`: an array replaces the catalogue
      wholesale; anything else leaves it untouched and raises a notice. */
  function Import(items: seq<Item>, parsed: Parsed): (r: Step)
    ensures r.notice.None? <==> parsed.ParsedArray?
    ensures parsed.ParsedArray? ==> r.items == parsed.elements
    ensures !parsed.ParsedArray? ==> r.items == items
    ensures parsed.ParsedOther? ==> r.notice == Some(InvalidJsonFormat)
    ensures parsed.ParseFailure? ==> r.notice == Some(JsonParseFailed)
  {
    match parsed
    case ParsedArray(elements) => Step(elements, None)
    case ParsedOther => Step(items, Some(InvalidJsonFormat))
    case ParseFailure => Step(items, Some(JsonParseFailed))
  }

  /** The import takes the array as it is: nothing checks that its ids are
      distinct. */
  lemma ImportAcceptsDuplicateIds(items: seq<Item>, x: Item)
    ensures !UniqueIds(Import(items, ParsedArray([x, x])).items)
  {
    var r := Import(items, ParsedArray([x, x])).items;
    assert r[0].id == r[1].id;
  }
}
