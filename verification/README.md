# Kanban task board: board model, snapshot codec and persistence

This project models the logic inside `script.js` of a browser kanban board. The
board has three fixed columns: Not started, In progress and Completed. Each
column is an ordered list of task titles. The board is persisted under the
storage key `tasks` as a list of `{taskTitle, status}` records.

The model takes the DOM out of the event handlers and keeps what they compute:

- **Board** (`board.dfy`). The columns as three `seq<string>`. It holds the
  column operations the handlers perform: append at the tail, remove one task,
  rename one task, and take a task out and append it to a column's tail.
  Task identity is position. Titles are opaque strings.
- **Text** (`text.dfy`). ECMAScript's `String.prototype.trim`, used by the add
  dialog to reject blank titles. It strips the WhiteSpace and LineTerminator
  characters.
- **Snapshot** (`snapshot.dfy`). The codec. `Serialise` flattens the columns in
  column order and tags each record with its column's status string.
  `Deserialise` sends each record to the tail of the column its status names.
  It drops records whose status names no column. A missing key reads as the
  empty board. `Collect` is the loop-based serialisation the page performs.
- **Page** (`page.dfy`). The page state has three parts: the board, the
  module-level `savedTasks` shadow list, and the storage cell. It also models
  start-up and the add, delete, edit-commit and drop handlers exactly as
  written. This includes the drop guard that compares a section with a list
  element.
- **EditSession** (`edit.dfy`). The in-place edit as a state machine over typed
  text, Enter keyup and blur events, with the `keyPressed` one-shot flag.
- **Corrected** (`corrected.dfy`). The two defects listed under Findings. Each
  one has an as-written counterexample and a corrected handler. A lemma proves
  the corrected page keeps storage faithful on every event sequence.

Three facts about the code shape the model:

- `JSON.parse` throws on malformed stored data (script.js:210); only a missing
  key reads as the empty board.
- The add handler writes the `savedTasks` list plus the new record, not a fresh
  serialisation of the board (script.js:198-203). Delete, edit and drop write a
  fresh serialisation (script.js:237-283).
- A drop always appends the task at the tail of the target's list
  (script.js:327); there is no reordering by pointer position.

## Model

| member | source | states |
|---|---|---|
| Board.ParseStatus | script.js:224-230 | a stored status string names a column exactly when it is that column's label ("Not started", "In progress", "Completed"); any other string names none |
| Board.Append | script.js:41-43 | a new task lands at the tail of the chosen column; other columns are untouched; the count grows by one and the title multiset gains the title |
| Board.Remove | script.js:122-125 | removing one task leaves its column without exactly that element, the rest in order; other columns untouched; the multiset loses exactly that title |
| Board.Retitle | script.js:148-153 | an edit changes the title at one position only, keeping column lengths and every other task |
| Board.MoveToTail | script.js:326-327 | moving a task keeps the title multiset and count; it leaves its column and ends at the tail of the target, which for a same-column move means behind every other task of that column; the third column is unchanged |
| Text.TrimStart | script.js:84 | drops exactly the leading whitespace: the result is a suffix, what was dropped is all whitespace, and the result does not start with whitespace |
| Text.TrimEnd | script.js:84 | drops exactly the trailing whitespace: the result is a prefix, what was dropped is all whitespace, and the result does not end with whitespace |
| Text.Trim | script.js:104 | the trimmed title is empty exactly when every character of the input is whitespace, and a non-empty result neither starts nor ends with whitespace |
| Snapshot.Serialise | script.js:249-279 | the stored list has one record per task on the board |
| Snapshot.SerialiseAt | script.js:249-279 | each position of the stored list holds the task of the matching column at the matching offset, tagged with that column's status |
| Snapshot.SerialiseOrder | script.js:249-279 | the stored list holds every Not started record, then every In progress record, then every Completed record, each column in display order and each record tagged with its column's status |
| Snapshot.CollectColumn | script.js:250-256 | walking one list's tasks one by one yields exactly that column's tagged records |
| Snapshot.Collect | script.js:237-283 | the three per-list walks, concatenated, yield the board's serialisation |
| Snapshot.Route | script.js:221-231 | a read-back record extends exactly the column whose label its status equals, at the tail, and no other |
| Snapshot.PlaceColumns | script.js:221-231 | placing records in order extends each column by exactly the titles of the records tagged with its status, in record order |
| Snapshot.DeserialiseColumns | script.js:221-231 | each read-back column equals the filter of the records by its status, preserving relative order; unrecognised records land in no column |
| Snapshot.Restore | script.js:210-214 | an absent key reads back as the empty board; a present list reads back column by column as the records carrying each status |
| Snapshot.SerialiseFilter | script.js:221-279 | the titles of the stored records carrying a column's status are exactly that column, in order |
| Snapshot.RoundTrip | script.js:209-283 | reading back what was written reproduces every column and its order |
| Snapshot.UnrecognisedIgnored | script.js:224-230 | a record whose status names no column changes nothing when read back |
| Snapshot.DeserialiseSnoc | script.js:221-231 | appending a record tagged with a column to a stored list appends its title to that column of the read-back board |
| Page.SaveTasks | script.js:185-204 | with a non-empty input, one record tagged with the active section's status is pushed onto the shadow list and the whole shadow list is written; an empty input changes nothing; the board is untouched |
| Page.Start | script.js:335-338 | start-up reads the board from the stored list (empty when absent), sets the shadow list to that list, makes Not started active, and runs the add persistence step once with the dialog's input |
| Page.StartInSync | script.js:209-214 | with an empty dialog input, start-up leaves storage untouched and both the shadow list and storage read back as the board |
| Page.OpenDialog | script.js:59-69 | clicking a column's add button makes that column active and changes nothing else |
| Page.Submit | script.js:80-117 | a title that trims to nothing changes nothing; otherwise the untrimmed title goes to the active column's tail, the others are untouched, and storage becomes the old shadow list plus one record tagged with the active column's status |
| Page.Persist | script.js:237-283 | the stored cell receives the serialisation of the given board, which becomes the board on screen; the shadow list and the active section are not touched |
| Page.WrittenFaithful | script.js:209-283 | a stored cell holding the board's serialisation reads back as that board |
| Page.PersistFaithful | script.js:237-283 | after a fresh serialisation the stored cell reads back as the board |
| Page.ListClick | script.js:120-129 | a click on a delete icon removes exactly that task, the rest keeping their order; any click in a list, even one not on the icon, writes the board's serialisation; the shadow list is untouched |
| Page.DropAllowed | script.js:326 | the guard compares the target section with the task's parent list node, so it passes whenever a section is under the drop point, including the task's own section |
| Page.Drop | script.js:319-333 | a pointer drop onto a section removes the task and appends it to the target's tail, keeping the title multiset and count, leaving the third column alone and writing the board's serialisation; no section means no change |
| Page.EditTitle | script.js:148-156 | an edit commit accepts any string, the empty one included, changes only that task's title, and writes the board's serialisation |
| Page.SerialiseAppendLast | script.js:249-279 | appending to a column with no non-empty column after it appends one record to the serialisation |
| Page.SerialiseAppendNotLast | script.js:249-279 | appending to a column with a non-empty later column leaves a later column's record at the end of the serialisation |
| Page.AddStoresSerialisationIff | script.js:185-204 | after an add, storage equals the board's serialisation if and only if the shadow list equalled it beforehand and the active column has no non-empty column after it |
| Page.AppendCancel | script.js:41-43 | appending the same title to the same column of two boards gives equal boards only if the boards were equal |
| Page.AddFaithfulIff | script.js:185-204 | after an accepted add, storage reads back as the board if and only if the shadow list read back as the board before the add |
| Page.AddKeepsInSync | script.js:198-203 | if the shadow list and storage both read back as the board before an add, they still do after it |
| Page.Step | script.js:185-204 | only the add handler changes the shadow list; every click in a list, edit commit, and drop onto a section writes the board's serialisation (a drop onto no section writes nothing); only an add can make storage stop reading back as the board |
| Page.StepKeepsInSync | script.js:185-283 | from a page whose shadow list is current, every event leaves storage reading back as the board, and opening the dialog or adding keeps the shadow list current |
| Page.AddsOnlyStayInSync | script.js:185-232 | any sequence of dialog openings and adds from an in-sync page stays in sync |
| Page.AddToInProgress | script.js:80-96 | from x, y not started and nothing else, adding a title to In progress gives the board x, y / title / empty |
| Page.MoveFirstToCompleted | script.js:326-327 | moving the first of x, y from Not started to Completed leaves y behind and puts x at Completed's tail |
| Page.DropFirstOntoCompleted | script.js:319-330 | dropping x of x, y onto Completed leaves y in Not started and puts x in Completed |
| Page.AddThenDropExample | script.js:319-330 | from x, y not started, adding a title to In progress then dropping x on Completed stores y (Not started), the title (In progress), x (Completed), in that order |
| Page.SerialiseOneEach | script.js:275-279 | a board with one task per column serialises to three records in column order |
| EditSession.Open | script.js:136-146 | an edit session starts with an input holding the task's current title, focused, with the flag clear and nothing committed |
| EditSession.Commit | script.js:148-156 | a commit on a live input writes its value to the task and detaches it; on a detached input it changes no title; either way the board is re-serialised |
| EditSession.Step | script.js:158-177 | an event keeps the session's task and the length of its column |
| EditSession.Run | script.js:158-177 | any event sequence keeps the session's task |
| EditSession.CommitKeepsInvariant | script.js:148-156 | a commit from a live input, taken while its blur can no longer commit, writes its value once and records one commit |
| EditSession.EnterKeepsInvariant | script.js:160-165 | Enter keyup preserves the session invariant |
| EditSession.BlurKeepsInvariant | script.js:167-177 | blur preserves the session invariant: it commits only a live input whose flag is clear, and otherwise only clears the flag |
| EditSession.StepKeepsInvariant | script.js:158-177 | one event preserves the invariant: a live input has committed nothing, and a detached input has committed once, with its blur disarmed by the flag when it is still focused |
| EditSession.RunKeepsInvariant | script.js:158-177 | any event sequence preserves that invariant |
| EditSession.AtMostOneCommit | script.js:148-177 | whatever events arrive, a session commits at most once and serialises at most once; with no commit the page is unchanged, with one the task holds the committed value |
| EditSession.EnterThenBlur | script.js:160-177 | typing v, Enter, typing again, then blur commits exactly once, with v |
| EditSession.EnterThenAnything | script.js:160-165 | after an Enter commit, later typing and the blur change nothing and commit nothing |
| EditSession.DetachedIsInert | script.js:167-174 | a detached input whose blur is disarmed ignores every further event |
| EditSession.BlurAlone | script.js:167-177 | a blur without Enter commits exactly once, with the input's current value |
| Corrected.DeleteThenAddRestoresDeleted | script.js:185-204 | as written, from an in-sync page, a delete followed by an add leaves storage reading back as the pre-delete board plus the new task: one more task than the page shows |
| Corrected.LoadedOne | script.js:209-231 | a stored list of one Not started record loads with the shadow list and storage both reading back as the board |
| Corrected.DeleteThenAddExample | script.js:120-129 | as written, with task x loaded, deleting it and adding t shows only t but stores x then t |
| Corrected.MoveFirstBehind | script.js:326-327 | moving the first of x, y to the tail of its own column gives y, x |
| Corrected.SameSectionDropExample | script.js:326-327 | as written, dropping x of x, y onto its own section reorders the column to y, x |
| Corrected.SubmitFixed | script.js:80-96 | corrected add: the same board change as the original, and storage and the shadow list both become the board's serialisation |
| Corrected.DropFixed | script.js:319-333 | corrected drop: a drop onto no section or onto the task's own section changes nothing; otherwise the task moves to the other column's tail and the board is serialised |
| Corrected.StepFixed | script.js:80-387 | with the corrections, every event keeps storage reading back as the board |
| Corrected.RunFixedFaithful | script.js:80-387 | with the corrections, storage reads back as the board after any event sequence |
| Corrected.StartFaithful | script.js:335-338 | start-up with an empty dialog input yields a page whose storage reads back as its board |

## Left out

- HTML construction (script.js:21-38). Titles are interpolated into markup and read back as text. The model treats titles as opaque strings, so a title containing markup would not round-trip in the real page.
- Modal show/hide, the 50 ms focus timer and clearing the input field (script.js:45-77, 94-95). These are presentation only.
- Drag visuals: the `dragging`/`drag-over` classes, `console.log`, and touch positioning through `style.left`/`top` (script.js:291-318, 359-370, 383-385). The dragged task and the section under the release point are inputs to `Page.Drop`.
- Page.Drop: models the pointer `drop` handler only. The touch path (script.js:346-387) never moves a task as written. `touchstart` marks only an `li` (script.js:347), and touch events go to the element the touch started on. So the `touchend` bubbles from that `li` through its task list, whose listener clears the `dragging` mark (script.js:353-355), before the section's listener looks for a marked task (script.js:374). Even with a marked task, `closest(".section")` from the `li` is the task's own section. A touch release therefore changes neither the board nor storage, and is not an event of the model.
- JSON text and the storage API. The storage cell holds the record list itself, and JSON encoding is assumed exact. Malformed JSON makes `JSON.parse` throw an uncaught exception, which is not modelled. Write failures are not modelled either.
- EditSession.Open: the edit input is filled from the title element's `innerText` (script.js:139), which is the rendered text. Under ordinary CSS whitespace handling it drops leading and trailing whitespace and collapses runs of spaces. The model fills the input with the stored title. Titles with such whitespace can exist, since the add handler stores the untrimmed input (script.js:89). For such a title, opening an edit and blurring without typing rewrites the title in the page but leaves it unchanged in the model. The stylesheet is not part of this model.
- EditSession.Step: browser focus rules are abstracted. Typing and Enter reach only a live, focused input, and a blur reaches only a focused one. Whether removing a focused input fires a blur is left open. The trace may include that blur or omit it.
- A task whose title is being edited reads as an empty title to any serialisation that runs while the input is open. That happens, for example, when the click on the input bubbles to the list's listener. The model's board always holds the title.
- Page.Start: the first `.task-list` in the page is taken to be the Not started list. The HTML is not part of this model.

## Findings

| source | as written | input that shows it | evidently intended | confidence | as-written member | corrected member |
|---|---|---|---|---|---|---|
| script.js:185-204 | the add handler writes the `savedTasks` shadow list plus the new record; only start-up and adds update that list, so it goes stale after any delete, edit or drop | stored list `[A (Not started)]`; delete A; add B: the page shows `[B]` but storage reads back `[A, B]`, so A comes back on reload | an add persists the current board, as the other handlers do | high; not executed | Corrected.DeleteThenAddRestoresDeleted | Corrected.SubmitFixed |
| script.js:326 | the guard compares the target `.section` with the task's `parentNode`, which is the `.task-list` element, so it never rejects | Not started `[A, B]`; drop A onto the Not started section: the column becomes `[B, A]` | a drop onto the task's own section does nothing | medium; not executed | Corrected.SameSectionDropExample | Corrected.DropFixed |
