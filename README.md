# Todo app: the task store and the menu shell, modelled in Dafny

The program is a terminal to-do list. It keeps its tasks in one SQLite table,
`tasks (id INTEGER PRIMARY KEY, name TEXT NOT NULL, status INTEGER NOT NULL DEFAULT 0)`,
in the file `data/tasks.db`. A menu loop lets the user add a task, view the list, remove a task or
mark one complete. The model has two parts:

- **The store** (`db.dfy`, module `Store`; `src/db.rs`). The table is a sequence of rows
  `Row(id, name, status)`. Each SQL statement is a pure function on that sequence:
  `Inserted`, `Deleted`, `Completed`, `TasksOf` and `CreateIfNotExists`. The class `DbFile` is the
  database file, with a `table` field. The class `Database` is the connection. Its methods
  `New`, `AddTask`, `GetTasks`, `RemoveTask` and `MarkComplete` update the file's table in place.
  `GetTasks` builds the listing in a loop, as `get_tasks` does.
- **The shell** (`src/main.rs`). It has two modules.
  - `Shell` (`shell.dfy`) holds the pure rules: `str::trim` (as `trim_matches` with `char::is_whitespace`), the name check, the
    strikethrough label, the list selection rule and the main-menu dispatch.
  - `App` (`app.dfy`) holds the step-by-step flow: `add_tasks`, `display_tasks`,
    `remove_tasks`/`mark_complete`, `display_tasks_and_select` and `main`'s loop.

  Terminal input becomes parameters. Each turn of the loop receives an `Input`: the menu selection,
  the typed line, the list selection, and whether the store's read and write statements fail in
  that turn. `MenuTurn` and `Run` specify one turn and a whole scripted session. The methods
  `MenuIteration` and `RunMenu` are proved against them.

`task.dfy` holds `Task` and `Task::new`, which both halves use. `results.dfy` holds `Option` and
`Result`.

Modelling choices:
- Rows come back in insertion order. A `SELECT` without `ORDER BY` does not promise this, so it is
  an explicit assumption of the model.
- The `id` column is kept. It identifies a row across statements, which is how "no statement
  reopens a complete task or renames one" (`Retains`) is stated. A new row's id is one more than the
  largest id in the table, and 1 in an empty table. This is SQLite's rowid rule for a table without
  AUTOINCREMENT. An id can therefore be reused after the row holding the largest id is deleted. For
  that reason `Retains` is stated per statement and per menu turn, not across a whole session.
- In a few places the program's behaviour is easy to misread; the model follows the code:
  - `remove_task` and `mark_complete` act on *every* row with the name, not only the first one.
  - An empty task name makes `add_tasks` return `InvalidInput`. `main` passes that error on with
    `?` (src/main.rs:49), so the program ends. The loop does not resume: `main` returns the error
    and the process exits. `BlankNameEndsSession` states this for a blank name typed at any turn.
  - The menu selection indexes are 0–4, labelled "1." to "5.".

## Model

| member | source | states |
|---|---|---|
| `Tasks.NewTask` | src/main.rs:21-23 | a new task has the given name and starts open (status false) |
| `Store.MaxId` | src/db.rs:14 | the largest key of a non-empty table: bounds every id and is one of them |
| `Store.NextId` | src/db.rs:25-27 | the rowid of an inserted row exceeds every existing id; 1 in an empty table |
| `Store.Inserted` | src/db.rs:25-27 | INSERT appends one row, last, with the task's name and status, under a key above every existing key; the rows before it are untouched |
| `Store.Deleted` | src/db.rs:51-54 | after DELETE no row has the name (exact equality, so all duplicates go); every surviving row was in the table |
| `Store.Marked` | src/db.rs:58 | one row under the UPDATE keeps its id and name; its status becomes old status or (name matches) |
| `Store.Completed` | src/db.rs:57-60 | after UPDATE, same row count, same ids and names in the same order; status becomes old status or (name matches) |
| `Store.TasksOf` | src/db.rs:33-48 | the SELECT yields one task per row, with that row's name and status, same length and order |
| `Store.CreateIfNotExists` | src/db.rs:12-19 | after the schema statement the table exists; an existing table is kept as it is, a missing one is created empty |
| `Store.SchemaIdempotent` | src/db.rs:12-19 | CREATE TABLE IF NOT EXISTS leaves an existing table untouched, creates an empty one otherwise, and is idempotent |
| `Store.InsertedAppends` | src/db.rs:24-30 | an insert adds exactly one row, last, carrying the task's name and status under a fresh key; existing rows unchanged; reopens nothing |
| `Store.DeletedMultiplicity` | src/db.rs:51-54 | a row survives a delete as many times as it occurred, unless it has the deleted name, in which case zero times |
| `Store.DeletedAbsent` | src/db.rs:51-54 | deleting a name no row has leaves the table exactly as it was |
| `Store.DeletedIdempotent` | src/db.rs:51-54 | deleting a name twice equals deleting it once |
| `Store.DeletedKeepsKeys` | src/db.rs:51-54 | a delete keeps ids unique and renames or reopens no surviving row |
| `Store.CompletedProperties` | src/db.rs:57-60 | after a mark every row with the name is complete, every other row is identical, and an absent name is a no-op |
| `Store.CompletedIdempotent` | src/db.rs:57-60 | marking a name twice equals marking it once |
| `Store.CompletedKeepsKeys` | src/db.rs:57-60 | a mark keeps ids unique and never turns a complete row open or renames it |
| `Store.ListingAfterStatements` | src/db.rs:24-60 | after an insert the listing is the old listing with the task appended; after a delete no listed task has the name; after a mark every listed task with the name is complete |
| `Store.Walkthrough` | src/db.rs:24-60 | fresh store, add "Buy milk" and "Write report", mark "Buy milk", remove "Write report": the listings after each step |
| `Store.DbFile.constructor` | src/db.rs:10 | a file that does not exist yet has no table |
| `Store.Database.Connect` | src/db.rs:20 | the connection `Database { conn }` refers to the given file |
| `Store.Database.New` | src/db.rs:9-21 | on success the table exists and a table already in the file keeps its rows; on failure `StorageUnavailable` and the file untouched |
| `Store.Database.AddTask` | src/db.rs:24-30 | on success the table is the old table with the inserted row; on failure `StorageWriteError` and nothing changes |
| `Store.Database.GetTasks` | src/db.rs:33-48 | the loop yields exactly `TasksOf` the table: one task per row with that row's name and status, same length and order; a failure is `StorageReadError` |
| `Store.Database.RemoveTask` | src/db.rs:51-54 | on success the table is `Deleted(old, name)` (`Ok` even when nothing matched); on failure unchanged |
| `Store.Database.MarkComplete` | src/db.rs:57-60 | on success the table is `Completed(old, name)` (`Ok` even when nothing matched); on failure unchanged |
| `Shell.IsWhitespace` | src/main.rs:68 | `char::is_whitespace`, written as its ranges, holds of exactly the 25 White_Space code points listed one by one in `WhiteSpace` |
| `Shell.TrimStartIndex` | src/main.rs:68 | the cut point of the leading run: every char before it matches, and the char at it (if any) does not |
| `Shell.TrimEndIndex` | src/main.rs:68 | the cut point of the trailing run, not below the start: every char from it on matches, and the char before it (if above the start) does not |
| `Shell.TrimMatches` | src/main.rs:68 | the result is the slice between the leading and the trailing matching runs, and everything cut matches; it is empty iff every char matches; otherwise its first and last chars do not match |
| `Shell.Trim` | src/main.rs:68 | `str::trim` is `trim_matches` with `char::is_whitespace`; the trimmed line is no longer than the line and trimming it again changes nothing |
| `Shell.TrimIdempotent` | src/main.rs:68 | trimming a trimmed string changes nothing |
| `Shell.TaskFromLine` | src/main.rs:68-76 | `InvalidInput` iff the line is all whitespace; otherwise an open task named by the trimmed, non-empty line |
| `Shell.Strike` | src/main.rs:219-222 | a name of k chars renders to 2k chars: position 2j holds char j of the name, position 2j+1 holds U+0336 |
| `Shell.UnstrikeStrike` | src/main.rs:219-222 | dropping the overlays from a struck name gives the name back, so the rendering loses nothing |
| `Shell.Label` | src/main.rs:109-117 | an open task's label is its name verbatim; a complete task's label is its struck name, twice as long |
| `Shell.Labels` | src/main.rs:216-227 | one label per task, same length and order: the name of each open task, the struck name of each complete one |
| `Shell.LabelShowsName` | src/main.rs:109-117 | an open task is labelled by its name verbatim; a complete one by its struck name, twice as long, from which the name is recoverable |
| `Shell.ViewLines` | src/main.rs:92-118 | the view writes the three heading lines, then "No tasks!" for an empty list, then each task's label in order |
| `Shell.SelectionOf` | src/main.rs:244-255 | `Some(0)` is "Continue"; `Some(i)` with 1 ≤ i ≤ n targets task i-1's name; `None` or i > n is out of range |
| `Shell.Dispatch` | src/main.rs:48-58 | only `Some(4)` exits; `None` and indexes past the five items are invalid choices |
| `Shell.DispatchFollowsMenu` | src/main.rs:38-52 | each index 0–4 runs the menu item listed at that index |
| `App.Applied` | src/main.rs:158-162 | the table after the `action_fn` closure runs, the remove closure here or the mark closure at src/main.rs:182-186: a remove may shrink the table, a mark keeps every row |
| `App.AppliedClearsName` | src/main.rs:158-162 | after either closure no open task with the name is left: a remove drops every such row and a mark completes it; a name no row carries changes nothing |
| `App.ActTurn` | src/main.rs:145-191 | a remove or mark turn returns to the menu or fails with `Other`; the table never grows, changes only when the selection names a task (see `Shell.SelectionOf`, src/main.rs:244-255), and a failing turn leaves it as it was |
| `App.MenuTurn` | src/main.rs:48-58 | a turn leaves the loop through "5. Exit" exactly when the selection is `Some(4)`; a turn that fails or exits leaves the table as it was |
| `App.Run` | src/main.rs:32-59 | a session takes at most one turn per input; one still looping has used every input; one that stopped took at least a turn |
| `App.ExitOnlyOnFive` | src/main.rs:53-56 | a turn exits iff the menu selection is `Some(4)`, and exiting leaves the table unchanged |
| `App.InvalidChoiceLoops` | src/main.rs:57 | a cancelled menu or an index past 4 writes "Invalid choice!", changes nothing and loops |
| `App.AddTurnStoresTrimmedName` | src/main.rs:64-86 | a blank name fails with `InvalidInput` and no store call; otherwise the listing gains exactly one open task named by the trimmed line, last |
| `App.ListTurn` | src/main.rs:244-255 | in the remove/mark list "Continue" and out-of-range indexes leave the table unchanged; index i in 1..=n applies the action to the name of row i-1 |
| `App.TurnKeepsKeys` | src/main.rs:48-58 | no menu turn breaks the primary key, renames a stored row, or sets a complete row back to open |
| `App.RunKeepsKeys` | src/main.rs:32-59 | ids stay unique through a whole session |
| `App.RunExitsAtFirstFive` | src/main.rs:32-59 | a session that exits does so at its last turn, which is the first turn whose selection was `Some(4)` |
| `App.BlankNameEndsSession` | src/main.rs:49-73 | a blank name typed at "Add a task" in turn k, after k turns that kept looping, ends the whole session at turn k+1 with `InvalidInput`; the table and output are those the first k turns left |
| `App.AddTasks` | src/main.rs:64-86 | blank trimmed line: `InvalidInput`, table unchanged; otherwise inserts `Task(trimmed line, false)`; a store failure becomes `Other` |
| `App.DisplayTasks` | src/main.rs:89-142 | writes `ViewLines` of the current listing without changing the table; a read failure becomes `Other` after the heading |
| `App.DisplayedCollections` | src/main.rs:216-227 | one label per task, same length and order; entry i is the struck name iff task i is complete, else the name |
| `App.DisplayTasksAndSelect` | src/main.rs:208-256 | labels as above; `Some(0)` does nothing and returns `Ok`; 1 ≤ i ≤ n runs the action once on task i-1's name; otherwise prints "Index out of range." and returns `Ok` |
| `App.ActOnSelection` | src/main.rs:145-191 | remove and mark re-list the tasks and then act as `ActTurn` says; a failed listing is `Other`, table unchanged |
| `App.MenuIteration` | src/main.rs:48-58 | one turn of the loop does what `MenuTurn` specifies to the table, outcome and output |
| `App.RunMenu` | src/main.rs:32-59 | the loop runs turns until one exits or fails, ending where `Run` says |
| `App.Launch` | src/main.rs:25-61 | if the store cannot be opened nothing runs and the file is unchanged; otherwise the session runs from the opened table as `Run` says |
| `App.FirstLaunch` | src/main.rs:25-61 | on a first run the file does not exist yet: if it cannot be opened nothing runs and no table exists; otherwise the session is `Run` from an empty table |

## Left out

- Terminal I/O: `Term`, `clear_last_lines`, `welcome_message`, `Style`, and dialoguer's `Select`
  widget. The typed line and the selections are parameters. A failure of the terminal itself
  (read or write errors) is not modelled. Only the lines the logic chooses are recorded in
  `printed`: the view lines, "Invalid choice!" and "Index out of range.".
- The rusqlite layer: the SQL text, `prepare`/`query_map`, and the integer↔bool column conversion.
  Only each statement's effect on the rows is modelled.
- Storage failures are one boolean per statement, with no causes. A `get_tasks` failure fails the
  whole call; a partial listing is never produced.
- SQLite's behaviour when the largest rowid is 2^63-1 (it then picks an unused random id) is not
  modelled. Ids are unbounded integers.
- Row order: the model fixes insertion order (see above).
- Errors are not kept apart at the shell boundary. Every store error becomes `Other`, and `main`'s
  boxed error is represented only by the `Failed`/`Unavailable` outcome.
- The `loop { ...; break; }` wrappers of `display_tasks`, `remove_tasks` and `mark_complete` run
  exactly once and are modelled as straight-line code. The "Continue" selection of `display_tasks`
  is ignored, as both of its arms break.
- The unused `_action_message` parameter of `display_tasks_and_select` is not modelled.
- Unicode: strings are sequences of scalar values. Whitespace is the Unicode White_Space set.
  Terminal display width is not modelled.
- `main`'s loop does not end by itself. A session is modelled over a finite script of inputs, and
  `Looping` means the script ran out while the program was still waiting for input.
