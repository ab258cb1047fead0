# To-do list state machine

A Dafny model of the task-list logic of a single-page to-do list. The page
keeps a module-level array of `{id, text, completed}` records. Four user
gestures change that array:

- **add** trims the input field and prepends a new, uncompleted record;
- **toggle** flips the completion flag of the first record with the id;
- **delete** keeps every record whose id differs;
- **edit** prompts for new text. A cancel does nothing. A blank reply asks
  whether to delete the record. Any other reply replaces the text with its
  trimmed value.

On start-up the page may replace the list with what the storage slot holds.
Every render shows a counter ("1 task" / "N tasks") and shows an empty-state
element only when the list is empty.

Modules:

- `Wrappers` (wrappers.dfy): the `Option` type.
- `Text` (text.dfy): `Trim`, JavaScript's `String.prototype.trim`. It strips
  ECMAScript WhiteSpace and LineTerminator characters. It is proved to be
  determined by its contract (`TrimUnique`).
- `Counter` (counter.dfy): the counter label and the empty-state flag.
- `Tasks` (tasks.dfy): the `Task` record. Each gesture is a pure transition
  on `seq<Task>` (`Added`, `Toggled`, `Deleted`, `Edited`, `Loaded`). This
  module also holds the `findIndex` search loop (`FindIndex`) and the lemmas
  stating what each transition promises. A run of gestures (`Run`) keeps ids
  distinct whenever each add's id is fresh, and keeps every text non-empty
  and trimmed (`RunKeepsTexts`). Loading is outside both invariants: the
  code does not check what the storage slot held.
- `TodoApp` (todo.dfy): class `TodoList`. Its `tasks: seq<Task>` field
  stands for the module-level array. Each handler updates that field in
  place, and its `ensures` equates the new list with the matching `Tasks`
  transition of the old list.

Inputs the browser supplies become parameters:

- the new id (`freshId`), which the page builds from the clock and a random
  number;
- the prompt's reply (`Option<string>`, `None` for cancel);
- the confirm dialog's answer (`bool`);
- the storage slot's raw value (`Option<string>`, `None` when the key is
  unset);
- the outcome of parsing that value (`Parsed`).

Two consequences of following the code exactly:

- Delete, and edit-to-blank-then-confirm, remove **every** record carrying
  the id, because the code uses `filter`. With distinct ids that is exactly
  one record (`DeleteRemovesOne`).
- Nothing checks that a generated id is new, so ids are not guaranteed
  distinct. Distinctness is proved only under a "fresh id" precondition
  (`AddKeepsDistinct`, `RunKeepsDistinct`).

## Model

| member | source | states |
|---|---|---|
| `Text.TrimStart` | app.js:38 | the result is a suffix of the input; everything dropped is whitespace; the result does not start with whitespace |
| `Text.TrimEnd` | app.js:38 | the result is a prefix of the input; everything dropped is whitespace; the result does not end with whitespace |
| `Text.Trim` | app.js:38 | the result neither starts nor ends with whitespace and sits inside the input between whitespace-only padding |
| `Text.TrimUnique` | app.js:38 | any trimmed string padded with whitespace on both sides trims back to itself, so `Trim` is determined by its contract |
| `Text.TrimIdempotent` | app.js:38 | trimming twice is the same as trimming once |
| `Text.TrimEmptyIffAllSpace` | app.js:102 | the trimmed text is empty exactly when the input is whitespace only |
| `Counter.DecimalString` | app.js:44 | the length renders as a non-empty string of decimal digits with no leading zero |
| `Counter.DecimalUnique` | app.js:44 | every canonical digit string is the rendering of the number it denotes, so the rendering is the canonical decimal one |
| `Counter.DecimalRoundTrip` | app.js:44 | reading the rendered digits back gives the count |
| `Counter.CounterLabel` | app.js:44 | the label is "1 task" exactly when the count is 1, and "<count in decimal> tasks" for every other count |
| `Counter.CounterLabelInjective` | app.js:44 | two counts with the same label are equal |
| `Counter.Summarize` | app.js:44-50 | the empty-state element is shown exactly when the count is 0; the counter text is the count's label ("1 task" exactly when the count is 1) |
| `Tasks.IsBlank` | app.js:102 | no contract of its own; `BlankIffAllSpace` states that it holds exactly for whitespace-only input |
| `Tasks.BlankIffAllSpace` | app.js:102 | the add path's blank test (empty, or empty once trimmed) holds exactly for whitespace-only input |
| `Tasks.CreateTask` | app.js:35-41 | the record has the supplied id and is not completed; its text is the trimmed input, empty exactly when the input is whitespace only |
| `Tasks.FirstIndex` | app.js:112 | -1 exactly when no record has the id; otherwise a position holding the id with no earlier record holding it |
| `Tasks.FindIndex` | app.js:112 | the search loop returns the first position whose record has the id, or -1 |
| `Tasks.Added` | app.js:101-104 | no contract of its own; stated by `AddBlankIsNoOp`, `AddPrepends`, `AddStoresTrimmedText`, `AddTrimmedText` |
| `Tasks.AddBlankIsNoOp` | app.js:101-102 | adding leaves the list unchanged if and only if the input is whitespace only |
| `Tasks.AddPrepends` | app.js:103-104 | non-blank input gives one more record; the head has the supplied id, the trimmed non-empty text and `completed = false`; the old list follows in order |
| `Tasks.AddStoresTrimmedText` | app.js:35-41 | input made of a trimmed non-empty text between whitespace-only padding (as in "  Buy milk  ") adds exactly that text ("Buy milk") as a new uncompleted head |
| `Tasks.AddTrimmedText` | app.js:103-104 | an already trimmed non-empty input is prepended unchanged as a new uncompleted record |
| `Tasks.Toggled` | app.js:111-114 | no contract of its own; stated by `ToggleFrame` and `ToggleTwice` |
| `Tasks.ToggleFrame` | app.js:111-114 | length, ids and texts are unchanged; only the first record with the id changes its flag; an absent id leaves the list unchanged |
| `Tasks.FirstIndexFollowsIds` | app.js:112 | lists with the same ids in the same places have the same first match |
| `Tasks.ToggleTwice` | app.js:111-114 | toggling the same id twice restores the original list |
| `Tasks.Deleted` | app.js:119-120 | the result is no longer than the list and has no record with the id; an absent id leaves the list unchanged |
| `Tasks.DeleteIsFilter` | app.js:120 | the result is a subsequence of the list, in the original order; it holds each record with another id as many times as the list did and none with the id |
| `Tasks.DeletedMembers` | app.js:120 | a record remains after delete exactly when it was in the list with a different id |
| `Tasks.DeletedAppend` | app.js:120 | deleting from a concatenation deletes from each part |
| `Tasks.DeleteSingleMatch` | app.js:120 | when only position i holds the id, delete removes exactly position i |
| `Tasks.DeleteRemovesOne` | app.js:119-120 | with distinct ids, deleting a present id removes exactly that record and nothing else |
| `Tasks.Edited` | app.js:125-135 | no contract of its own; stated by `EditNoChange`, `EditBlankConfirmedDeletes`, `EditRenames` |
| `Tasks.EditNoChange` | app.js:126-133 | absent id, cancelled prompt, or blank reply with deletion declined: the list is unchanged |
| `Tasks.EditBlankConfirmedDeletes` | app.js:131-133 | a blank reply with deletion confirmed gives the same list as delete |
| `Tasks.EditRenames` | app.js:126-135 | a non-blank reply changes only the first matching record's text, to the trimmed non-empty reply; its id and flag, the length, and every other record stay the same |
| `Tasks.Loaded` | app.js:18-21 | no contract of its own; stated by `LoadReplacesOnlyWithArray` |
| `Tasks.LoadReplacesOnlyWithArray` | app.js:18-21 | the list changes only to the parsed array, and only when the slot held a non-empty value; then it becomes that array |
| `Tasks.AddKeepsDistinct` | app.js:103-104 | adding with an id not already present keeps ids distinct |
| `Tasks.ToggleKeepsDistinct` | app.js:111-114 | toggling keeps ids distinct |
| `Tasks.DeleteKeepsDistinct` | app.js:119-120 | deleting keeps ids distinct |
| `Tasks.EditKeepsDistinct` | app.js:125-138 | editing keeps ids distinct |
| `Tasks.RunKeepsDistinct` | app.js:99-138 | any sequence of add/toggle/delete/edit whose adds use fresh ids keeps ids distinct |
| `Tasks.AddKeepsTexts` | app.js:101-104 | if every text is non-empty and trimmed, it stays so after an add |
| `Tasks.ToggleKeepsTexts` | app.js:111-114 | toggling keeps every text non-empty and trimmed |
| `Tasks.DeleteKeepsTexts` | app.js:119-120 | deleting keeps every text non-empty and trimmed |
| `Tasks.EditKeepsTexts` | app.js:125-135 | editing keeps every text non-empty and trimmed: a rename stores the trimmed non-blank reply |
| `Tasks.RunKeepsTexts` | app.js:99-138 | any sequence of add/toggle/delete/edit keeps every text non-empty and trimmed |
| `Tasks.Apply` | app.js:99-138 | no contract of its own; one gesture dispatched to its transition, used by `Run` |
| `Tasks.Run` | app.js:99-138 | no contract of its own; gestures handled one at a time, each to completion; stated by `RunKeepsDistinct` and `RunKeepsTexts` |
| `TodoApp.TodoList.constructor` | app.js:14 | the list starts empty |
| `TodoApp.TodoList.LoadTasksFromStorage` | app.js:16-25 | the new list is `Loaded` of the old list, the raw slot value and the parse outcome |
| `TodoApp.TodoList.AddTaskFromInput` | app.js:99-109 | the new list is `Added` of the old one; whitespace-only input changes nothing; otherwise one record is prepended in front of the unchanged old list |
| `TodoApp.TodoList.ToggleComplete` | app.js:111-117 | the new list is `Toggled` of the old one; same length; unchanged for an absent id |
| `TodoApp.TodoList.DeleteTask` | app.js:119-123 | the new list is `Deleted` of the old one; no record with the id remains; unchanged for an absent id |
| `TodoApp.TodoList.EditTask` | app.js:125-138 | the new list is `Edited` of the old one, given the prompt reply and the confirm answer; it never grows |
| `TodoApp.TodoList.RenderedSummary` | app.js:43-50 | the empty state is shown exactly for an empty list; the counter text is the label of the list's length ("1 task" exactly for one task) |
| `TodoApp.EndToEnd` | app.js:99-123 | start empty, add A, add B (distinct ids, trimmed non-empty texts), toggle A, delete B: after the adds the list is B then A, both uncompleted; at the end exactly A remains, completed |

## Left out

- Building the list rows, the DOM lookups, `init` and the `DOMContentLoaded` wiring (app.js:5-10, 52-96, 140-152). These are view plumbing. The summary above the rows is modelled; the rows are not.
- `saveTasksToStorage` and `JSON.stringify` (app.js:27-33). A save never changes the in-memory list, and a failed save is only logged. Serialization is a browser facility, so the serialize/deserialize round trip is not modelled.
- `JSON.parse` and `localStorage.getItem` (app.js:18-20) become the abstract `Parsed` and `Option<string>` inputs. The model assumes a parsed array holds well-formed records; the code does not check this. A throwing `getItem` has the same effect as an absent key: the list is kept.
- Id generation (`Date.now`, `Math.random`, app.js:37) is the `freshId` parameter. The `"t_"` format of ids is not modelled.
- `prompt` and `confirm` (app.js:129, 132) are the `reply` and `confirmDelete` parameters.
- `preventDefault`, clearing and focusing the input field, the calls to `renderTasks` and `saveTasksToStorage` after each change, and `console.error` are side effects that do not change the list.
- JavaScript strings are UTF-16 code units; here a string is a sequence of Unicode scalar values. Every character `trim` strips is in the Basic Multilingual Plane, so this does not change which characters are stripped.
