# Market uploader catalogue — a Dafny model

The market uploader is a single-page tool for cataloguing photographed items.
Each record holds an inline image, five free-text fields (business name,
contact name, contact info, picture title, description), a list of tags and a
creation time. The catalogue logic of `pages/pages/index.js` (the `Home`
component and the module-level `csvEscape` helper) is a pure transformation
of one ordered list of records, newest first. Around it sit storage,
file-reading and download effects, which are not pure and are left out. This
project models the catalogue logic:

- **Add** (`handleAdd`): trims the five text fields and splits the tag text on
  commas, trimming each tag and dropping empty ones. It prepends the new
  record. Without an image the list is left as it is.
- **Delete** (`handleDelete`): after confirmation, removes every record with
  the given id.
- **Edit** (`startEdit`): one prompt per field, each pre-filled with the
  current value. A cancelled prompt keeps the old value. The answers are
  merged over the record, and every record with its id is replaced.
- **Import**: a parsed JSON value that is an array replaces the list. Any
  other value, or a parse failure, leaves the list alone and shows a notice.
- **Derived views**: the search/tag filter (`filtered`) and the sorted
  distinct tag list (`allTags`).
- **CSV export** (`csvEscape`, `exportCSV`): quoting as in rules 6 and 7 of
  section 2 of RFC 4180, with lines separated by a bare line feed.

Modules:

| module | file | contents |
|---|---|---|
| `Wrappers` | wrappers.dfy | `Option`: prompt answers and notices |
| `Text` | text.dfy | `trim`, `split`, `join`, ASCII `toLowerCase`, `includes`, the default sort order |
| `Seqs` | seqs.dfy | subsequences and `filter` |
| `Records` | records.dfy | the `Item` record, tag normalisation, the well-formedness and unique-id invariants |
| `Catalogue` | catalogue.dfy | Add, Delete, Edit, Import |
| `Views` | views.dfy | the filter and the tag list |
| `Csv` | csv.dfy | escaping, the export, and a reader for the exported dialect |
| `Session` | session.dfy | event runs and an end-to-end run |

Browser effects are passed in as inputs:

- the image input is `NoImage`, `Unreadable` or `Loaded(dataUrl)`;
- `crypto.randomUUID()` and `new Date().toISOString()` are the `id` and
  `createdAt` parameters;
- `confirm` is a boolean;
- each `prompt` is an `Option<string>`, where `None` means cancelled;
- `JSON.parse` of an imported file is a `Parsed` value: `ParsedArray`,
  `ParsedOther` or `ParseFailure`;
- `alert` is a `Notice`, and `Catalogue.Message` holds the exact texts.

The `Csv` module also has a small reader for the dialect the export writes. It
is not part of the page. It exists so that the export has a partner: reading
the exported text back gives the header and each record's eight columns.

Where the code does less than one might expect of a catalogue, the model
follows the code:

- Editing a record whose id is no longer in the list is a silent no-op, not an
  error.
- Import checks only that the parsed value is an array. It neither validates
  the elements nor checks that their ids are distinct
  (`Catalogue.ImportAcceptsDuplicateIds`). So distinct ids are kept only by
  runs whose imports already have them (`Session.FreshIds`).
- The tag filter compares against the literal `"all"`. A record tagged `all`
  can therefore not be selected by tag alone: picking `all` shows every
  record.
- `csvEscape` quotes a field that contains a line feed, but not one that
  contains only a carriage return.

## Model

| member | source | states |
|---|---|---|
| Csv.Escape | pages/pages/index.js:14-18 | A field without a quote, comma or line feed is written unchanged; any other field comes out wrapped in a pair of quotes |
| Csv.DoubleQuotes | pages/pages/index.js:16 | Doubling quotes leaves a quote-free string unchanged and adds no comma or line feed |
| Csv.DoubleQuotesAppend | pages/pages/index.js:16 | The global replace of `"` by `""` works character by character, so it distributes over concatenation |
| Csv.EscapeRoundTrip | pages/pages/index.js:14-18 | Reading an escaped field back (removing the outer quotes and halving doubled quotes) gives the original value, and reading stops exactly where the escaped text ends |
| Csv.EscapeExample | pages/pages/index.js:14-18 | `He said "hi", then left` is written as `"He said ""hi"", then left"` |
| Csv.ExportCsv | pages/pages/index.js:115-139 | The export starts with the header line `id,createdAt,...,tags`, and it is exactly that line when the catalogue is empty |
| Csv.ExportRoundTrip | pages/pages/index.js:115-139 | Reading the export back gives one record per catalogue entry plus the header. The header is the 8 fixed column names. Each entry's record is its id, createdAt, five text fields and tags joined with "; ", in catalogue order |
| Text.Trim | pages/pages/index.js:68-72 | The result has no whitespace at either end, is a slice of the input with only whitespace outside it, and leaves an already-trimmed string unchanged |
| Text.Split | pages/pages/index.js:73 | Splitting on a character gives at least one piece, no piece contains the separator, and joining the pieces with it gives the input back |
| Text.JoinEnds | pages/pages/index.js:134-139 | A `join` (of the header names, of a row's fields, of the lines, and at line 91 of the tags pre-filled in the edit prompt) starts with the first part and ends with the last |
| Text.JoinAppend | pages/pages/index.js:134-139 | Joining one more part appends the separator and that part, so a `join` lists the parts in order with one separator between each two; `Text.SplitJoin` is its inverse |
| Text.SplitJoin | pages/pages/index.js:73 | Split inverts join for pieces that do not contain the separator |
| Records.NormalizeTags | pages/pages/index.js:73 | The tags are exactly the non-blank comma-separated pieces, trimmed, in the order typed and each as often as typed: the result is a subsequence of the trimmed pieces and a string is in it iff it is a non-blank trimmed piece. Every tag is non-empty, trimmed and comma-free. Text without commas gives its trimmed self as the one tag, or no tag if it is blank |
| Records.NormalizeJoinRoundTrip | pages/pages/index.js:91-99 | Normalising the `tags.join(', ')` text that the tag prompt is pre-filled with gives back tags that were already normalised |
| Catalogue.NewItem | pages/pages/index.js:65-75 | The new record carries the given id, image and timestamp, the five trimmed fields and the normalised tags, and is well formed |
| Catalogue.Add | pages/pages/index.js:58-78 | With no image chosen, the list is unchanged and "Please choose an image." is shown. With an unreadable image, the list is unchanged. Otherwise the new record is prepended: the length grows by one and the old records follow it, untouched and in order |
| Catalogue.AddKeepsUniqueIds | pages/pages/index.js:66-76 | Adding a record whose id is fresh keeps ids pairwise distinct |
| Catalogue.AddKeepsWellFormed | pages/pages/index.js:65-76 | Adding keeps every record trimmed with normalised tags |
| Catalogue.Delete | pages/pages/index.js:80-83 | A declined confirmation changes nothing. Otherwise the result is a subsequence of the list (order kept). It contains exactly the records whose id differs from the target, each as often as before. An absent id leaves the list unchanged |
| Catalogue.DeleteKeepsUniqueIds | pages/pages/index.js:82 | Deleting keeps ids pairwise distinct |
| Catalogue.DeleteKeepsWellFormed | pages/pages/index.js:82 | Deleting keeps every record well formed |
| Catalogue.Merge | pages/pages/index.js:86-100 | The merged record keeps id, image and createdAt from the original. Each text field is the trimmed answer, or the trimmed old value if that prompt was cancelled. Tags are renormalised from the answer, or from `tags.join(', ')` if cancelled. The result is well formed |
| Catalogue.CancelledMergeIsIdentity | pages/pages/index.js:86-100 | Cancelling every prompt on a well-formed record gives back the record unchanged |
| Catalogue.Edit | pages/pages/index.js:101 | Length and order are kept. Every position keeps its id. Records with another id are unchanged, and those with the edited id become the merged record |
| Catalogue.EditAbsentIdIsIdentity | pages/pages/index.js:101 | Editing a record whose id is no longer in the catalogue changes nothing |
| Catalogue.EditKeepsUniqueIds | pages/pages/index.js:101 | Editing keeps ids pairwise distinct |
| Catalogue.EditKeepsWellFormed | pages/pages/index.js:92-101 | Editing keeps every record well formed |
| Catalogue.CancelledEditIsIdentity | pages/pages/index.js:85-102 | Editing a well-formed record and cancelling every prompt leaves the whole catalogue unchanged whenever every record with that id is that record; the other records may be malformed (as after an import) |
| Catalogue.CancelledEditInCatalogue | pages/pages/index.js:85-102 | In particular, in a catalogue of well-formed records with distinct ids, editing any of its records and cancelling every prompt changes nothing |
| Catalogue.Import | pages/pages/index.js:192-199 | A notice is shown iff the parsed value is not an array. An array replaces the catalogue wholesale. Otherwise the catalogue is unchanged, with "Invalid JSON format" for a non-array value and "Failed to parse JSON" for a parse failure |
| Catalogue.ImportAcceptsDuplicateIds | pages/pages/index.js:195 | An imported array whose records share an id is taken as is, so distinct ids are not guaranteed after an import |
| Views.Filtered | pages/pages/index.js:149-162 | The output is a subsequence of the records. A record is in it iff it passes the text test and the tag test, and as often as it occurs in the catalogue. An empty query with "all" shows the whole catalogue |
| Views.VisibleIff | pages/pages/index.js:150-160 | A record passes iff two things hold. First, the query is empty or its lower-cased form occurs as a contiguous piece of one of the five lower-cased text fields. Second, the tag filter is "all" or one of the record's tags |
| Text.IncludesIff | pages/pages/index.js:154-158 | `includes` holds iff the query occurs at some position of the string |
| Text.ToLower | pages/pages/index.js:150-158 | Lower-casing keeps the length and maps every ASCII capital to its small letter, leaving other characters alone |
| Views.InsertSorted | pages/pages/index.js:165-167 | Adding a tag to a strictly ascending list keeps it strictly ascending, and the members become the old ones plus the tag |
| Views.CollectTags | pages/pages/index.js:165-166 | Collecting the tags of all records gives a strictly ascending list whose members are exactly the tags that occur in some record |
| Views.AllTags | pages/pages/index.js:164-168 | The tag list is strictly ascending and has no duplicates. A string is in it iff some record has it as a tag |
| Views.AscendingListingUnique | pages/pages/index.js:167 | Two strictly ascending lists with the same members are equal, so the tag list is the sorted set whatever order the tags were met in |
| Text.LessTotal | pages/pages/index.js:167 | The default sort order relates any two distinct strings |
| Text.LessTransitive | pages/pages/index.js:167 | The default sort order is transitive |
| Text.LessIrreflexive | pages/pages/index.js:167 | No string sorts before itself |
| Seqs.Filter | pages/pages/index.js:151 | `filter` keeps, in order, exactly the elements satisfying the predicate, each as often as before, and returns the input when all satisfy it |
| Records.SubsequenceKeepsUniqueIds | pages/pages/index.js:82 | Removing records never creates an id clash |
| Session.RunKeepsUniqueIds | pages/pages/index.js:58-102 | Over any run of adds, deletes, edits and imports, ids stay pairwise distinct if each added id is fresh and each imported array has distinct ids |
| Session.RunKeepsWellFormed | pages/pages/index.js:58-102 | Over any run without imports, every record stays trimmed with normalised tags |
| Session.TacosScenario | pages/pages/index.js:58-83 | Add "Tacos El Gallo" with tags "tacos, beef" to an empty catalogue. There is then one record, its tags are ["tacos", "beef"], and the tag list is ["beef", "tacos"]. A confirmed delete of its id empties the catalogue |

## Left out

- `readFileAsDataURL` and `FileReader` (asynchronous browser I/O): the image is
  an input that is either missing, unreadable or a data URL string. A failed
  read of an imported file never reaches the `onload` handler, so the
  catalogue is unchanged; it is not a separate input.
- The `localStorage` load and save effects: an external storage API. Every
  change writes the whole list, so when the write succeeds the stored copy
  equals the state. The load's parse of the stored text is not modelled, and
  neither is its missing array check.
- A throwing `setItem` is not modelled. The save effect at
  `pages/pages/index.js:42-44` has no try/catch. Once the list outgrows the
  storage quota (inline image data URLs get there after a few photos), the
  write throws `QuotaExceededError`. Storage then keeps the previous list, so
  the latest change is lost on reload.
- `JSON.stringify`, `JSON.parse` and `exportJSON`: the library is not
  modelled. The import takes the parsed value as input. Its array elements are
  typed as records, whereas the page would accept any JSON values there.
- `crypto.randomUUID()` and `new Date().toISOString()`: these are
  nondeterministic, so they are parameters. Freshness of the id is a
  precondition of the unique-id lemmas.
- The `prompt`, `confirm` and `alert` dialogs, the Blob/anchor download and the
  download file names: UI side effects. Prompt answers are `Option<string>`
  and confirmation is a boolean.
- `resetForm`, the form state hooks, the JSX rendering and the stylesheet
  `pages/pages/styles/globals.cs`: presentation only, with no logic.
- Text.ToLower: lower-cases ASCII letters only, not the full Unicode mapping
  of `toLowerCase`. The search is therefore case-insensitive only for ASCII.
- Text.Less: compares characters as Unicode scalar values. JavaScript's
  default sort compares UTF-16 code units, and the two orders differ only for
  characters outside the Basic Multilingual Plane.
- Text.Trim: works on Unicode scalar values. The whitespace set is the
  ECMAScript WhiteSpace and LineTerminator characters, written out.
