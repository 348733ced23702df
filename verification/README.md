# ToDo list: the task bookkeeping of `main.py`

The application keeps its tasks in two places:

- the `tasks` table of the SQLite file `todo.db`, with columns `id INTEGER PRIMARY KEY AUTOINCREMENT`, `description TEXT NOT NULL` and `completed INTEGER NOT NULL DEFAULT 0`;
- the in-memory `tasks` list of `main()`, which holds one entry per Checkbutton on screen.

Four operations keep the two in step:

- `load_tasks` rebuilds the list from the table in id order.
- `add_task` strips the typed text, ignores blank input, and inserts a row under the next AUTOINCREMENT id. It then appends a checkbox at grid row `len(tasks)`.
- A checkbox click sets the box's BooleanVar. Its trace callback `on_toggle` then runs `update_completed`, which writes 1 or 0 into that row.
- `delete_selected` walks the list from back to front. It deletes the row of every checked entry and pops the entry. It then puts the survivors back on the grid at rows 0, 1, 2, ...

The model has four modules:

- `Text` (`text.dfy`): Python's `str.strip()` over the characters `str.isspace()` accepts.
- `Store` (`store.dfy`): the table as a map from id to `Row`. It also defines the `ORDER BY id` scan, the `UPDATE ... SET completed` statement, and the largest rowid (2^63 - 1) that AUTOINCREMENT can issue.
- `Tasks` (`tasks.dfy`): the list entry `Task(id, text, checked, row)`.
  - `text` is the Checkbutton's text, `checked` is its BooleanVar and `row` is its grid row.
  - The sync invariant `Mirrors(tasks, table)` says the list holds exactly one entry per row, in ascending id order. Each entry agrees with its row, and each sits at the grid row equal to its index.
  - The module also defines how each operation transforms the list, with the lemmas about those transformations.
- `App` (`app.dfy`): the class `TaskList`. Its fields are the table, the AUTOINCREMENT counter, the ghost set of ids stored at start-up or issued since, and the list. Its methods `Load`, `Add`, `Toggle` and `DeleteChecked` update these fields in place.
  - Every method keeps `Valid()`. That predicate is the sync invariant plus what AUTOINCREMENT guarantees: every stored id is positive and in the issued set, and no issued id is larger than the counter.
  - Each method's postcondition states the new list and table in terms of the old ones.
  - The module also holds short sessions: blank input, two adds, a check and a delete.

## Model

| member | source | states |
|---|---|---|
| Text.IsSpace | main.py:114 | the characters `strip()` with no argument removes: exactly Python's `str.isspace()` set (its lemmas: Strip, StripInfix, StripUnique) |
| Text.StripPlain | main.py:114 | `"task2"` strips to itself |
| Text.Strip | main.py:114-116 | the stripped text is empty exactly when every character of the input is whitespace, which is when `add_task` returns without doing anything |
| Text.StripInfix | main.py:114 | the stripped text is a contiguous part of the input, with only whitespace before and after it, and it neither starts nor ends with whitespace |
| Text.StripUnique | main.py:114 | any part of the input with whitespace-only margins and non-whitespace ends is the stripped text, so the characterisation above determines `strip()` |
| Text.StripIdempotent | main.py:114 | stripping already-stripped text changes nothing |
| Text.StripBlank | main.py:114-116 | a tab-space-newline input strips to the empty string, so it is ignored |
| Text.StripPadded | main.py:114 | `"  buy milk  "` strips to `"buy milk"`: outer spaces go, inner ones stay |
| Store.CompletedValue | main.py:77 | the stored flag is 1 for a checked box and 0 otherwise, and it is non-zero exactly when the box is checked |
| Store.OrderedIds | main.py:88-90 | the cursor of `SELECT id, description, completed FROM tasks ORDER BY id`, as ids; it yields at most one id per value in the range, and OrderedIdsSorted and OrderedIdsInTable state its order and contents |
| Store.OrderedIdsSorted | main.py:88-90 | the ordered scan yields every id of the table in the range once and nothing else, in strictly ascending order |
| Store.OrderedIdsInTable | main.py:88-93 | every id the scan yields has a row, so reading its description and flag is defined |
| Store.SetCompleted | main.py:69-78 | the UPDATE keeps the same set of ids; only the named row's flag changes, to 1 or 0 as the box; its description and every other row are unchanged; an id with no row changes nothing |
| Store.SetCompletedIdempotent | main.py:74-78 | writing the same flag to the same row twice is the same as writing it once |
| Tasks.Mirrors | main.py:61 | the sync invariant between list and table: one entry per row, ids ascending, each entry's text and checkbox agreeing with its row, grid rows 0..k-1; kept by every operation (LoadedMirrors, AppendKeepsMirror, ToggleKeepsMirror, DeleteKeepsMirror) and determining the list (MirrorsUnique) |
| Tasks.Ids | main.py:60-61 | the ids of the list entries, one per entry, in list order |
| Tasks.Loaded | main.py:93-108 | the entry built for the i-th cursor row: that row's id, a checkbox showing its description, checked exactly when `completed` is non-zero, at grid row i |
| Tasks.MirrorsUnique | main.py:81-108 | two lists that mirror the same table are equal: the table alone determines the list load_tasks builds |
| Tasks.CursorCoversTable | main.py:88-93 | with all ids between 1 and the counter, the scan of that range yields exactly the table's ids, in ascending order |
| Tasks.LoadedMirrors | main.py:93-108 | the list whose i-th entry is the i-th row of the ordered cursor (its id, description and flag, at grid row i) mirrors the table |
| Tasks.AppendKeepsMirror | main.py:119-138 | inserting a row under an id larger than every existing one, and appending an unchecked entry with that id and text at grid row len(tasks), keeps the list and table in step |
| Tasks.SetFlag | main.py:102-103 | the BooleanVar write of a click: same length, and each entry is unchanged except that the entries with that id get the new checked value |
| Tasks.ToggleKeepsMirror | main.py:102-106 | setting one box and writing its flag through keeps the list and table in step |
| Tasks.ToggleIdempotent | main.py:132-135 | setting a box to the same value twice, and writing that value through twice, is the same as once, in the list and in the table |
| Tasks.Unchecked | main.py:152-163 | what the pop loop leaves: no longer than the list; UncheckedMembers, UncheckedAppend, UncheckedOrigin and UncheckedAscending state its contents and order |
| Tasks.UncheckedMembers | main.py:152-163 | an entry survives the delete exactly when it was in the list and unchecked |
| Tasks.UncheckedOrigin | main.py:152-163 | the i-th survivor is the original entry at some index at or after i |
| Tasks.UncheckedAppend | main.py:152-163 | the delete is a stable filter: the survivors of a list cut in two are the survivors of the front followed by those of the back, so survivors keep their relative order |
| Tasks.UncheckedAscending | main.py:152-163 | if the ids of the list ascend, so do the ids of the survivors |
| Tasks.UncheckedFrom | main.py:152-163 | the survivors from index i on are the entry at i, unless it is checked, followed by the survivors after it |
| Tasks.DeleteExample | main.py:143-163 | with entries A, B, C, D where B and D are checked, A and C survive, in that order |
| Tasks.PopStep | main.py:151-163 | invariant of the reverse walk: entries before index j are untouched and the survivors of the rest follow them; popping entry j-1 when it is checked, or keeping it, restores this for j-1 |
| Tasks.CheckedFromStep | main.py:152-157 | a checked entry with a given id exists at or after index i exactly when the entry at i is one, or one exists after i |
| Tasks.Deleted | main.py:156-157 | the table after the DELETEs: a row stays exactly when it was there and no checked entry has its id, and the rows that stay are unchanged (established by PopChecked, used by DeleteKeepsMirror) |
| Tasks.Regrid | main.py:166-167 | the `enumerate` re-grid: same entries with the same ids, texts and checkboxes, now at grid rows 0..k-1 |
| Tasks.SurvivorsKeepRows | main.py:152-157 | after the DELETEs, every survivor still has its row and agrees with it, because ids are unique |
| Tasks.SurvivorsAreRows | main.py:152-157 | after the DELETEs, the remaining rows are exactly those of the survivors |
| Tasks.DeleteKeepsMirror | main.py:143-167 | deleting the rows of the checked entries, dropping those entries, and re-gridding the survivors at rows 0..k-1 keeps the list and table in step |
| App.TaskList.Valid | main.py:27-31 | the invariant every method keeps: the AUTOINCREMENT facts (ids positive, issued, at most the counter) and Mirrors between list and table |
| App.TaskList.constructor | main.py:81-110 | start-up: the stored table and counter are kept and load_tasks runs, so the list mirrors the table |
| App.TaskList.Load | main.py:81-108 | after clearing the list and appending one entry per row of the ordered cursor, the list mirrors the table; the table is untouched |
| App.TaskList.Add | main.py:113-141 | blank input, or a counter already at the largest rowid, changes nothing and yields no id. Otherwise: the new id is the counter plus one, larger than every id issued before and never reused; the table gains exactly that row, holding the stripped text and flag 0; the list gains exactly one entry at its end, with the new id and the stripped text, unchecked, at grid row len(tasks); and the sync invariant still holds |
| App.TaskList.Toggle | main.py:69-78 | only the entry with the id has its box set and only its row's flag is rewritten, to 1 or 0; nothing else in the list or table changes, and the sync invariant still holds |
| App.TaskList.DeleteChecked | main.py:143-167 | the new list is the unchecked entries in their original order, at grid rows 0..k-1; the table loses exactly the rows of the checked entries, the others unchanged; the sync invariant still holds |
| App.PopChecked | main.py:151-163 | the reverse walk leaves exactly the unchecked entries, in order, and deletes exactly the rows of the checked ones |
| App.RegridRows | main.py:165-167 | the second loop puts survivor i at grid row i and changes nothing else about it |
| App.Reload | main.py:81-85 | running load_tasks again on a consistent state gives back the same list |
| App.FirstTwo | main.py:113-138 | on a new todo.db, blank input adds nothing; then "  buy milk  " and "task2" become entries 1 and 2 at rows 0 and 1, unchecked, with the stripped text |
| App.AddTwo | main.py:113-138 | two adds on an empty list give ids 1 and 2 at rows 0 and 1 |
| App.CheckFirstAndDelete | main.py:143-167 | checking task 1 of the two and deleting leaves task 2, unchecked, at row 0; its row is unchanged and is the only one left |
| App.DeleteFirst | main.py:143-167 | with the first of two tasks checked, the delete leaves the second one at row 0, and only its row in the table |

## Left out

- The Tk window is not part of this model, except for the three facts the bookkeeping depends on: each entry's text, its checked state and its grid row. The left-out parts are:
  - the frames, buttons and layout;
  - creating and destroying Checkbutton widgets;
  - the `StringVar` of the entry box. The typed text is the `input` parameter of `Add`, and clearing the box (main.py:141) is not modelled.
- The path of `todo.db`, opening and closing the connection, and `CREATE TABLE IF NOT EXISTS` (main.py:12-35) are not modelled. The constructor takes the table and the AUTOINCREMENT counter as parameters (see the constructor's line below for the restriction on them).
- SQLite transactions: each `with conn:` statement is one atomic update of the table map.
- SQLite failures: the only one modelled is the INSERT failing once the counter has reached the largest rowid. Disk full, a locked file and I/O errors are not modelled, and neither is the traceback Tk prints for an exception raised in a callback.
- App.TaskList.Add: on exhaustion, the rolled-back INSERT raises an exception in the source. The model returns `None` with nothing changed.
- Store.OrderedIds: the `ORDER BY id` cursor is a scan of the id range 1..counter, not the SQL engine's index walk. The order and contents it yields are what the model proves.
- App.TaskList.Toggle: the BooleanVar write and the `on_toggle` trace are modelled together as one step. The source writes through on every trace, even when the value does not change, and SetCompletedIdempotent shows that this has no further effect.
- App.TaskList.DeleteChecked: the reverse walk runs on local copies of the list and table, and the fields are assigned once at the end. In the source, every `DELETE` commits on its own. Because no failure is modelled, no intermediate state is observable, and the end state is the same.
- App.TaskList.DeleteChecked: returns nothing, because `delete_selected` returns nothing. A count of deleted tasks is not part of the source. It equals the old length minus the new length.
- Text.IsSpace: Python strings can hold lone surrogates, but Dafny characters cannot. The whitespace set is exactly Python's `str.isspace()`.
- The `issued` field is ghost. It holds the ids stored at start-up plus every id handed out since, deleted ones included. Ids issued and deleted before start-up are not in it. They are still never reissued, because every earlier id is at most the counter and each new id exceeds it.
- App.TaskList.constructor: requires every stored id to lie between 1 and the AUTOINCREMENT counter, and Load scans only that range. Every todo.db this program writes meets this. A file with rows inserted under explicit ids of 0 or below, or with an edited `sqlite_sequence`, does not, and for such a file `SELECT ... ORDER BY id` would still return rows the model does not load.
