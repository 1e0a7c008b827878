# coose-quick-note: the NoteManager note list

This project models the state logic of `NoteManager` in `script.js`. The class keeps
one field, `notes`, an ordered list of records `{id, content, timestamp, order}`, and
copies the whole list into the browser's `localStorage` under the key `cooseNotes`
after every change. Its transitions are:

- add (`addNote`): refuses text that is blank once trimmed. Otherwise it appends a note whose `order` is the old length of the list. That ranks it last whenever the ranks are 0..n-1; after a reorder has left a gap, it can tie with an earlier note or sort before it.
- delete (`deleteNote`): runs only when the user confirms. It filters out the id, then `updateOrder` sets every `order` to its index.
- edit (`saveEdit`): refuses blank text. Otherwise it overwrites the content of the first note with the id.
- reorder (`updateNotesOrder`): rebuilds the list from the ids in page order after a drop.
- load and save (`loadNotes`, `saveNotes`): read and write the whole list.
- view (`renderNotes`): shows a copy of the list sorted by `order`.

Layout:

- `text.dfy`, module `Text`: JavaScript's `trim` and its whitespace set.
- `notes.dfy`, module `Notes`: the `Note` record, one function per transition, and the lemmas about them.
  The functions cover the new list after add, delete, edit and reorder, the `find` lookup and the `filter`.
- `view.dfy`, module `View`: the sort behind the rendered order.
- `manager.dfy`, module `Manager`: the `LocalStorage` and `NoteManager` classes.
  Each method changes `notes` the way the source does: add pushes one note, `updateOrder` assigns one note per loop step, and edit replaces one entry. Delete and reorder build a new list and assign it to `notes`, as script.js:51 and script.js:208 do. Each transition is proved against the matching `Notes` function; `SaveNotes` is proved against `Load` and `LoadAfterSave`, and `RenderedNotes` against `View.SortByOrder`.
  The module also has a two-session walkthrough.

The invariant of `NoteManager` is `Valid()`: loading from the store gives exactly the
list in memory. It holds when the manager is constructed, because the constructor sets
`notes` to what loads from the store. Every operation the page calls (add, delete, edit and reorder) keeps it,
because each of them ends its change with a save. `UpdateOrder` alone does not save; it is only called inside delete, before the save.

The other invariants are properties of the list, not assumptions:

- ranks are dense, so `order == index`;
- ids are unique;
- every content is trimmed and non-empty.

The function for each operation, with its lemmas in `notes.dfy`, says when it keeps each of these: `Appended` for add; `Deleted` and `DeletedSpec` for delete; `EditedKeepsInvariants` for edit; `ReorderedKeepsUniqueIds`, `ReorderedKeepsTidyContents` and `ReorderedPermutation` for reorder. Storage may hold any list,
so the model does not assume them.

Some behaviour of the code that a user might not expect, which the model keeps as written:

- `updateNotesOrder` does not check that the ids are a permutation of the current ids. A stale id listed before an id that is found leaves a gap in `order`; a stale id listed after every found id leaves none. Unlisted notes are dropped.
- `saveEdit` does not refresh the timestamp.
- There is no operation that clears all notes.
- A corrupt stored value is not recovered from: `JSON.parse` throws on it.

## Model

| member | source | states |
|---|---|---|
| `Text.TrimStart` | script.js:28 | the result is a suffix of the input, everything dropped is whitespace, and it does not start with whitespace |
| `Text.TrimEnd` | script.js:28 | the result is a prefix of the input, everything dropped is whitespace, and it does not end with whitespace |
| `Text.Trim` | script.js:28 | `trim` leaves the part of the input between a blank prefix and a blank suffix; it is empty exactly when every character is whitespace, and otherwise starts and ends with non-whitespace |
| `Text.TrimIdempotent` | script.js:80 | trimming already-trimmed text changes nothing |
| `Text.TidyIffOwnTrim` | script.js:80 | a text is its own trim and non-empty exactly when it has no whitespace at either end |
| `Notes.IndexOfId` | script.js:87 | `find` by id: no result exactly when no note has the id; otherwise the index of the first note with it |
| `Notes.Without` | script.js:51 | `filter`: no note with the id is left, every other note is kept, and a list without the id comes back unchanged |
| `Notes.Reranked` | script.js:97-101 | `updateOrder` makes `order == index` for every note and keeps each note's id, content and timestamp; a list already ranked 0..n-1 is unchanged |
| `Notes.Appended` | script.js:35-42 | a successful add keeps the earlier notes and appends one note with the given id, content and timestamp, whose `order` is the old length; it keeps dense ranks, unique ids when the new id is fresh, and tidy contents when the new content is tidy |
| `Notes.Deleted` | script.js:49-56 | after a confirmed delete the ranks are 0..n-1 and no note has the id |
| `Notes.Edited` | script.js:87-88 | an edit changes only the content of the first note with the id; its id, order and timestamp and every other note stay |
| `Notes.EditedKeepsInvariants` | script.js:87-88 | an edit keeps dense ranks and unique ids, and keeps contents tidy when the new text is tidy |
| `Notes.Reordered` | script.js:195-208 | the rebuilt list has at most one note per listed id |
| `Notes.WithoutAppend` | script.js:51 | filtering distributes over concatenation, so the kept notes keep their relative order |
| `Notes.WithoutKeepsUniqueIds` | script.js:51 | filtering out an id keeps ids unique |
| `Notes.WithoutKeepsTidyContents` | script.js:51 | filtering out an id keeps every content tidy |
| `Notes.DeletedSpec` | script.js:49-56 | a confirmed delete removes every note with the id; every other note survives with its index as `order`; ranks are 0..n-1; unique ids and tidy contents are kept |
| `Notes.DeleteAbsent` | script.js:51-52 | deleting an absent id only re-ranks, and a densely ranked list comes back unchanged |
| `Notes.DeleteIdempotent` | script.js:49-53 | deleting the same id twice gives the same list as deleting it once |
| `Notes.ReorderedEntries` | script.js:199-208 | every rebuilt note is the note found for the id at its page position, stamped with that position; positions increase strictly; so unlisted notes are dropped |
| `Notes.ReorderedAllFound` | script.js:199-205 | when every listed id is found, the rebuilt list has one entry per id: the found note with `order` equal to its index |
| `Notes.ReorderedKeepsFound` | script.js:199-205 | every listed id that is found puts its note, stamped with the id's page position, into the rebuilt list, whatever the other ids are |
| `Notes.ReorderedKeepsUniqueIds` | script.js:199-208 | distinct page ids give a rebuilt list with unique ids |
| `Notes.ReorderedKeepsTidyContents` | script.js:199-208 | reordering only restamps `order`, so tidy contents stay tidy |
| `Notes.ReorderedStaleIdBreaksDensity` | script.js:199-205 | an id that is not found, listed before one that is found, uses up its page position, so the ranks are no longer 0..n-1 |
| `Notes.ReorderedDropsUnlisted` | script.js:199-208 | a note whose id is not listed on the page is not in the rebuilt list |
| `Notes.ReorderedListedFound` | script.js:199-205 | given a permutation of the current ids, entry `k` of the rebuilt list is the note with `ids[k]`, ranked `k` |
| `Notes.IdSetSize` | script.js:195-208 | counting helper of `PermutationHasUniqueIds`: the notes carry at most as many ids as there are notes, and strictly fewer when two notes share an id |
| `Notes.PermutationHasUniqueIds` | script.js:195-208 | when the page ids are distinct, as many as the notes, and exactly the notes' ids, the notes' ids are unique |
| `Notes.PermutedNotesKept` | script.js:199-208 | given a permutation of the current ids, every note reappears, ranked by the page position of its id |
| `Notes.ReorderedPermutation` | script.js:195-208 | given a permutation of the current ids, the rebuilt list holds the same notes, in exactly the listed order, with `order == index` and unique ids |
| `View.InsertAddsOne` | script.js:120 | inserting adds exactly the one note |
| `View.InsertMembers` | script.js:120 | the insertion holds only the new note and the notes it was given |
| `View.InsertSorted` | script.js:120 | inserting into a list sorted by `order` keeps it sorted |
| `View.SortByOrder` | script.js:120 | the rendered list is sorted by `order` ascending and is a permutation of the notes |
| `View.SortByOrderOfSorted` | script.js:120 | a list already sorted by `order` is rendered as it stands |
| `View.DenseViewIsList` | script.js:120 | with ranks 0..n-1 the page shows the notes in list order |
| `Manager.Load` | script.js:103-106 | with nothing stored, loading yields no notes |
| `Manager.LoadAfterSave` | script.js:103-110 | what is saved under the key loads back unchanged |
| `Manager.NoteManager.constructor` | script.js:3-4 | the manager starts with the stored list, and the stored copy equals it |
| `Manager.NoteManager.SaveNotes` | script.js:108-110 | saving writes the whole list under `cooseNotes` only; afterwards the stored copy equals the list |
| `Manager.NoteManager.AddNote` | script.js:26-47 | blank text is refused with notes and storage unchanged; otherwise exactly one note with the trimmed text and `order` equal to the old length is appended, and the list is saved |
| `Manager.NoteManager.UpdateOrder` | script.js:97-101 | the loop leaves every note ranked by its index and nothing else changed |
| `Manager.NoteManager.DeleteNote` | script.js:49-56 | an unconfirmed delete changes nothing; a confirmed one filters out the id, re-ranks and saves |
| `Manager.NoteManager.SaveEdit` | script.js:77-91 | blank text is refused with nothing changed; otherwise only the content of the note with the id changes, and the list is saved |
| `Manager.NoteManager.UpdateNotesOrder` | script.js:195-211 | the loop rebuilds the list from the ids in page order, skipping ids not found and dropping unlisted notes, then saves it |
| `Manager.NoteManager.RenderedNotes` | script.js:120 | the view is sorted by `order` and is a permutation of the notes; with ranks 0..n-1 it is the list itself |
| `Manager.SessionInputs` | script.js:28 | "Buy milk" and "Call Sam" trim to themselves |
| `Manager.ThreeSpacesBlank` | script.js:80-82 | three spaces are blank text, so an edit to them is refused |
| `Manager.SessionLists` | script.js:195-208 | reordering [A, B] by ids [2, 1] gives [B, A] ranked 0, 1; deleting B then gives [A] ranked 0 |
| `Manager.TypeTwoNotes` | script.js:26-47 | on an empty store, adding "Buy milk" and then "Call Sam" gives exactly those two notes, ranked 0 and 1, and saves them |
| `Manager.FirstSession` | script.js:77-85 | after those two notes, an edit to blank text is refused and the list stays the same two notes |
| `Manager.Sessions` | script.js:3-4 | after a reorder by ids [2, 1] and a confirmed delete of id 2, the first manager is left with `[Note(1, "Buy milk", "t1", 0)]`; a new manager on the same store loads that list and shows it as it stands |

## Left out

- Rendering, templating and HTML escaping are not modelled. This covers `renderNotes` apart from its sort, `escapeHtml`, `editNote` and `cancelEdit`: they build the page and depend on the browser DOM.
- Event wiring is not modelled: `init`, `attachEventListeners`, `attachDragListeners` and the `DOMContentLoaded` handler are UI plumbing.
- `getDragAfterElement` is not modelled. It places the dragged element with floating-point geometry, which is visual feedback only; the resulting page order reaches the model as the `ids` argument of `UpdateNotesOrder`.
- The `alert` dialogs are not modelled; a refused add or edit is a `false` result. The `confirm` dialog is the `confirmed` argument of `DeleteNote`.
- `Date.now()` and `toLocaleString()` are arguments supplied by the caller, because they read the clock. `AddNote` does not require a fresh id, since the source does not check one; `Appended` says ids stay unique when the id is fresh.
- `JSON.stringify`, `JSON.parse` and the string values of `localStorage` are not modelled. The store holds decoded note lists, and encoding is taken to round-trip. A malformed stored value, for which `JSON.parse` throws, is outside the model.
- Ids and orders are JavaScript numbers; the model uses unbounded integers. `Date.now()` values are exact integers in a double, so nothing is lost. The `parseInt` of the id read back from the page is the identity on them.
- UpdateNotesOrder: requires the listed ids to be distinct. When the page lists an id twice, the source pushes one shared note object twice, and that object keeps the later position. Later in-place updates then change both entries. Values in the model cannot share, so that case is excluded. The page lists each rendered note once, so its ids are distinct whenever the notes' ids are.
- SaveEdit: requires the id to be present when the text is not blank. The source does not check the result of `find`, so an absent id would throw a TypeError at script.js:88; the model does not represent that crash.
- SaveNotes: a failed write is not modelled. `localStorage.setItem` (script.js:109) throws when the storage quota is full, and the source has already changed `this.notes` by then (script.js:42, :51-52, :88, :208), so memory and store would disagree and the page would not be re-rendered. The model's save always succeeds, and `Valid()` holds after `AddNote`, `DeleteNote`, `SaveEdit` and `UpdateNotesOrder` only on that assumption.
- SortByOrder: does not state stability: the relative order of notes with equal `order` is not stated, though the insertion sort keeps it as JavaScript's sort does.
- RenderedNotes: returns `SortByOrder` of the notes, so its contract likewise leaves the relative order of notes with equal `order` unstated. Such ties do occur: after a reorder with a stale id, an added note can tie with an earlier one.
