# Notes page: note store and selection, in Dafny

This project models the state behind a browser notepad page (`index.js`).
The page keeps an ordered list of notes, newest first. It also keeps a set of
ids ticked for bulk delete, the id of the note open in the editor, and a copy
of the list that it writes to local storage after every change. The model is
one class, `Store.NoteStore`, with those four fields and one method per
handler:

- start-up, which seeds the protected welcome note;
- save, which creates a note or updates one in place;
- delete from the editor, and delete by swipe;
- select-all and un-select-all, ticking one note, and bulk delete;
- opening a note in the editor.

The searches and filters the handlers use are functions in `Notes`, and
`Collections.Filter` models `Array.prototype.filter`. The two string helpers
of the editor are functions in `Text`: the line-number gutter and the
character count on each card.

The rule that runs through the handlers is that protected notes are never
removed and never selected. The class states it as `Valid()`:

- ids are distinct;
- only the welcome note is protected, and view-only equals protected;
- the welcome note is present;
- no protected note is selected.

Every handler keeps `Valid()`. Save needs one extra fact for this: when it
creates a note, the timestamp it is given must not already be an id.

The browser's inputs are parameters:

- the `confirm` answer is a `bool`;
- `Date.now()` is `now: int`;
- the formatted date is `date: string`;
- the editor's fields are a `Form`;
- a card's `data-id` attribute is `datasetId: string`;
- the first-run flag read from storage is `firstLoad`.

Ids are a tagged datatype, `Str(name)` or `Stamp(ms)`. The swipe handler
reads the id back from the card as a string and compares it strictly, so a
note with a numeric id is never found or removed by a swipe. The model gets
this from the tag (`SwipeDelete` states it).

The "currently open" id is an `Option`. The model branches on its
JavaScript truthiness (`Notes.IsOpen`): null, the empty string and 0 are
falsy.

In these places the model follows the code, where a reader might expect
otherwise:

- Updating an id that is not in the list does not fail. It changes nothing and
  still writes storage.
- Select-all adds the unprotected ids to the existing selection. It does not
  replace the selection.
- Deleting from the editor leaves the deleted id in the selection.
- The select-all indicator compares sizes, not sets.
  `Notes.StaleSelectionChecksSelectAll` and `Scenarios.StaleSelection` show
  it reading "all selected" while a selectable note is unticked.
- Opening a view-only note through `editNote` still sets the open id.
- Neither close nor save clears the open id.

`Scenarios` holds three sessions that use only the store's contracts, as a user would drive the page:

- a first run on empty storage;
- creating a note and then retitling it;
- the stale selection above.

## Model

| member | source | states |
|---|---|---|
| `Store.NoteStore.Start` | index.js:28-76 | If no note has the welcome id, the list becomes the welcome note followed by the loaded notes in order. Otherwise the list is the loaded one. Storage is rewritten exactly on a first run or when the note was added. The welcome id is always present afterwards. Loaded notes with distinct ids and derived flags give `Valid()`. |
| `Store.NoteStore.OpenForCreate` | index.js:79-82 | The add button clears the open id and changes nothing else. |
| `Store.NoteStore.Save` | index.js:117-156 | An all-blank trimmed title or an empty content changes nothing, neither the list nor storage. With no truthy open id, the new note is put in front. Its id is `Stamp(now)`, its title is trimmed, it is neither protected nor view-only, and the old list follows unchanged. With a truthy open id, the first note carrying that id is replaced and the length is kept. Its flags are both true exactly for the welcome id. If no note carries the id, the list is unchanged. Storage then equals the list. Selection and open id are unchanged. `Valid()` is kept, given a fresh `now` when creating. |
| `Store.NoteStore.DeleteCurrent` | index.js:160-175 | The delete is refused exactly when the note found for the open id is protected. It is carried out exactly when it is not refused, the open id is truthy and the user confirms. It then removes every note with that id and writes storage; otherwise the list and storage stay. The selection and the open id are untouched, so a stale id may remain. With distinct ids no protected note is lost. `Valid()` is kept. |
| `Store.NoteStore.SwipeDelete` | index.js:354-370 | An empty `data-id` does nothing. The swipe is refused exactly when the note found for `Str(datasetId)` is protected. Otherwise it deletes on confirmation. Notes with numeric ids always survive. With distinct ids protected notes survive. `Valid()` is kept. |
| `Store.NoteStore.DeleteNoteById` | index.js:372-379 | On confirmation, the list becomes the notes whose id differs from `Str(datasetId)` and storage is written. Otherwise nothing changes. |
| `Store.NoteStore.RemoveAll` | index.js:169-170 | The list becomes the notes whose id differs from the given one and storage is rewritten to it. The selection and open id stay. If the note found for the id is not protected, `Valid()` is kept and, with distinct ids, every protected note survives. The swipe path does the same (index.js:374-375). |
| `Store.Composed` | index.js:126-143 | The record Save builds carries the welcome id exactly when the open id is the welcome id, and it is then, and only then, protected. View-only equals protected. Its id is the open id when that is truthy, and otherwise `Stamp(now)`. Its title is the trimmed title, empty exactly when the typed title is all white space. Content and date are those given. |
| `Store.NoteStore.ToggleSelection` | index.js:320-334 | Toggling a note found to be protected leaves the selection as it was. Otherwise ticking adds the id and unticking removes it. Nothing else changes. `Valid()` is kept, so no protected id is ever selected. |
| `Store.NoteStore.SelectAll` | index.js:177-189 | Ticking adds exactly the ids of the unprotected notes to the existing selection. The loop invariant is the part added so far. Unticking empties the selection. `Valid()` is kept. |
| `Store.NoteStore.DeleteSelected` | index.js:191-199 | It acts exactly when the selection is non-empty and the user confirms. The list then becomes the notes that are unselected or protected, in their old order, storage is written and the selection is emptied. Otherwise nothing changes. Every protected note survives in every case. `Valid()` is kept. |
| `Store.NoteStore.EditNote` | index.js:296-303 | The open id becomes the note's id, even for a view-only note. The result says whether the note is shown read-only. The list, selection and storage are unchanged. |
| `Store.NoteStore.ClickNote` | index.js:272-280 | A click shows a view-only note read-only and leaves the open id alone. Any other note is opened with `EditNote`. |
| `Notes.HasId` | index.js:35 | The `some` test on the id: false for an empty list, and true whenever some note carries the id. Its body is the existence test that `FindIndex` and `Find` are stated against: `FindIndex` is -1 exactly when it is false. `Start` uses the same test (index.js:37). |
| `Notes.FindIndex` | index.js:146 | The result is the first position holding the id, or -1 exactly when no note has it. |
| `Notes.Find` | index.js:162 | It returns a note exactly when some note has the id. That note is in the list, carries the id, and no earlier note carries it: it is the first match. |
| `Notes.IsProtectedId` | index.js:162-163 | The guard holds exactly when the first note carrying the id is protected, so it implies that the id occurs. The toggle and swipe guards (index.js:322-323, 362-363) are the same test. |
| `Notes.Truthy` | index.js:130 | An id is truthy exactly when it is neither the empty string nor the number 0. |
| `Notes.IsOpen` | index.js:145 | The open id is truthy exactly when it is present and is neither the empty string nor 0. |
| `Notes.FindUnique` | index.js:322 | With distinct ids, the note found for an id is the one note carrying it. |
| `Collections.Filter` | index.js:193 | Every element of the result is an accepted element of the input, and every accepted element of the input is in the result. The result is a subsequence of the input, so order is kept, and it is no longer than the input. |
| `Collections.FilterMultiplicity` | index.js:193 | An accepted element occurs in the result exactly as often as in the input; a rejected one does not occur. With the subsequence clause of `Filter` this fixes the result. |
| `Notes.Without` | index.js:169 | The single-delete filter keeps exactly the notes whose id differs, in order. No note with the id is left. The swipe path uses the same filter (index.js:374). |
| `Notes.Unselected` | index.js:193 | The bulk-delete filter keeps only notes that are unselected or protected, in order. It keeps every protected note and every unselected note. |
| `Notes.WithoutKeepsProtected` | index.js:162-169 | With distinct ids, if the note found for the id is not protected, the delete filter keeps every protected note. |
| `Notes.DuplicateIdLosesProtected` | index.js:162-169 | Without distinct ids this fails. The guard looks only at the first note with the id, and the filter then removes a protected note that shares it. |
| `Notes.WithoutRemovesOne` | index.js:169 | With distinct ids, deleting an id that occurs removes exactly one note. |
| `Notes.FilterKeepsUniqueIds` | index.js:374 | Filtering keeps ids distinct. |
| `Notes.PrependKeepsWellFormed` | index.js:149 | Putting a note with a fresh id and derived flags in front keeps the list invariant. |
| `Notes.ReplaceKeepsWellFormed` | index.js:147 | Replacing a note by one with the same id and re-derived flags keeps the list invariant. |
| `Notes.UnselectedKeepsWellFormed` | index.js:192-195 | Bulk delete keeps the list invariant, the welcome note included. |
| `Notes.IdsCardinality` | index.js:340 | Over distinct ids, the id set is as large as the list. This is what makes the indicator's size test meaningful. |
| `Notes.Selectable` | index.js:340 | The notes the indicator counts: exactly the unprotected notes, in their order. |
| `Notes.SelectableIds` | index.js:180-184 | The ids select-all adds: the id of every unprotected note is in it, and every id in it is an id of the list. `SelectableIdsAreIds` shows it is the id set of `Selectable`. |
| `Notes.SelectableIdsSnoc` | index.js:181-183 | One step of the `forEach`: appending a note adds its id to the set exactly when the note is unprotected. |
| `Notes.SelectAllExcludesProtected` | index.js:180-184 | With distinct ids, adding the selectable ids to a selection that holds no protected id still holds none. |
| `Notes.SelectableIdsAreIds` | index.js:340 | The ids of the selectable notes are exactly the ids select-all adds. |
| `Notes.SelectAllChecked` | index.js:340-341 | The indicator is off for an empty list. When it is on, the selection is non-empty and some unprotected note exists. |
| `Notes.SelectAllCheckedMeaning` | index.js:340-341 | This assumes distinct ids and a selection made only of selectable ids. Then the indicator is on exactly when every selectable id is selected and there is at least one. |
| `Notes.WelcomeNoteWellFormed` | index.js:38-70 | The seeded note has the welcome id and is protected and view-only. On its own it is a well-formed list. |
| `Notes.StaleSelectionChecksSelectAll` | index.js:341 | A concrete list and selection where the indicator's size test is on although a selectable note is not selected. |
| `Notes.DeleteSelectedShown` | index.js:337 | The delete-selected button is shown exactly when the selection is non-empty. |
| `Text.Trim` | index.js:118 | The result is the slice of the input between its leading and trailing JavaScript white space. It is empty exactly when the input is all white space, and otherwise starts and ends with a non-space. |
| `Text.Split` | index.js:242 | Splitting on newlines gives one more line than there are newlines, and no line holds a newline. |
| `Text.Join` | index.js:243 | The joined text starts with the first part and, when there are more parts, a newline follows it. `JoinSplit` and `SplitJoin` show it is the inverse of `Split`. |
| `Text.JoinSplit` | index.js:242 | Joining the split lines with newlines gives the text back. |
| `Text.SplitJoin` | index.js:243 | Lines that hold no newline, joined and split again, come back unchanged. |
| `Text.Decimal` | index.js:243 | A number is rendered as a non-empty string of decimal digits with no leading zero. |
| `Text.Labels` | index.js:243 | The `map` to line numbers: n labels, entry k being the decimal of k + 1. |
| `Text.DecimalRoundTrip` | index.js:243 | Reading the rendered digits back gives the number. |
| `Text.LineNumbers` | index.js:241-243 | Splitting the gutter text on newlines gives exactly the labels 1 to newlines + 1 of the text, one per line. |
| `Text.LineNumbersLines` | index.js:241-244 | The gutter has exactly newlines + 1 lines, and line k reads the decimal of k + 1. |
| `Text.StripTags` | index.js:253 | Removing every `<…>` match keeps only characters of the input, is no longer than the input, and leaves no `<` followed later by `>`. |
| `Text.StripTagsNoTag` | index.js:253 | Text without a tag is left unchanged by the removal. |
| `Text.StripTagsTag` | index.js:253 | For text a, then '<', then t, then '>', then b, where a holds no '<' and t no '>', the removal keeps a, drops the tag, and continues on b. By `FirstTag` any text with a tag splits this way, so with `StripTagsNoTag` this fixes the result. |
| `Text.FirstTag` | index.js:253 | Text that holds a '<' with a '>' somewhere after it splits at its first '<' and the first '>' after that, in the form `StripTagsTag` takes. |
| `Text.CharCount` | index.js:253 | The count is at most the length of the content, and equals it when the content has no tag. |
| `Text.CharCountTag` | index.js:253 | A tag adds nothing to the count: it is the length of the text before the tag plus the count of the rest. |
| `Text.StripTagsIdempotent` | index.js:253 | Removing tags twice is the same as removing them once. |

## Left out

- Rendering: `renderNotes`, the card HTML, the modals and their show/hide calls are presentation. So are the editor's delete-button visibility (index.js:226, 317) and the field resets in `openModal`. The editor's values reach the model only as the `Form` that Save receives.
- `document.execCommand` (bold, italic, underline) and the font, size and paper `change` handlers are browser editing calls.
- Local storage and JSON are abstracted as the `stored` field, which is assigned the list after each write. The JSON round trip is not modelled. Neither is a storage failure, nor the write of the first-run flag (index.js:75). The flag is only an input to `Start`.
- Loaded ids are assumed to be a string or an integer. JSON could hold other values there.
- `Date.now()` and `toLocaleDateString` are the parameters `now` and `date`.
- `alert`, `confirm` and `navigator.vibrate` are user interaction. `confirm` is a `bool` parameter.
- The touch coordinates and the 100-pixel swipe threshold (index.js:349-358) are screen positions from events. The model starts once a swipe has been recognised.
- `innerText` and `innerHTML` extraction from the editor is DOM. `Text.LineNumbers` starts from the text. Writing `selectAll.checked = false` (index.js:331) is a DOM write that the next render replaces with `Notes.SelectAllChecked`.
- The welcome note's HTML body is a short constant, `Notes.WelcomeContent`, and its markup is not reproduced. Its title, date, font, size, style and both flags are as in the source.
- Text.CharCount: counts Unicode scalar values, while JavaScript's `length` counts UTF-16 code units. The two differ for characters outside the Basic Multilingual Plane.
- Text.Trim: works on Unicode scalar values, not UTF-16 code units. Its white-space set is JavaScript's full WhiteSpace and LineTerminator list.
