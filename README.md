# Task ledger of the OTOS Telegram bot, in Dafny

This project models the bot's database layer (`db.py`). The layer has two SQLite
tables:

- `users`: an AUTOINCREMENT `id`, a UNIQUE `telegram_id`, `full_name`, a
  `score` that defaults to 0, and a `join_date`.
- `tasks`: an AUTOINCREMENT `id`, an owner `user_id`, `title`, `category`,
  `priority`, `created_at`, `is_done` (default 0) and `done_date`.

The layer has six operations:

- look a user up by Telegram identity;
- register a user;
- add a task for a registered user;
- list a user's tasks, either all of them or only the pending ones;
- delete a task by id;
- mark a task done. This is refused while the task is younger than
  30 minutes. When it is accepted, the task's priority is added to the owner's
  score.

Files:

- `schema.dfy` (module `Schema`): the table rows (`User`, `Task`), the row that
  the listing returns (`TaskRow`), the completion report (`DoneOutcome`: `NotFound`,
  `TooSoon(minutesLeft)` or `Done(points)`) and the 30-minute constant.
- `tables.dfy` (module `Tables`): what each SQL statement does to a table, as a
  function on sequences of rows. For example, `WithoutTask` is the DELETE,
  `WithDone` and `Credited` are the two UPDATEs, and `Listing` is the SELECT of
  the listing. The module also holds the store invariant `Consistent` and the
  lemmas about these functions.
- `store.dfy` (module `Store`): class `TaskStore`. It holds both tables and the
  two AUTOINCREMENT counters, with one method for each database operation. Each
  mutating method changes the tables in place, keeps `Valid()`, and states the
  new tables in terms of the `Tables` functions. The two reading methods
  (`GetUserByTelegramId`, `GetUserTasks`) state what they return.
  `GetUserTasks` lists only pending tasks by default, as `get_user_tasks` does.
- `scenarios.dfy` (module `Scenarios`): whole sessions on a fresh store that
  follow from the method contracts alone. They cover the 30-minute gate, double
  crediting, and deletion that costs no points.

Modelling choices:

- A table is the sequence of its rows in rowid order. A key is never reused,
  because AUTOINCREMENT draws from a counter that a delete does not lower.
- The clock is an integer number of seconds passed in as `now`. It is used for
  `join_date`, `created_at` and `done_date` (SQLite's `CURRENT_TIMESTAMP`) and
  for the "now" of the 30-minute check.
- `add_user` returns nothing on success. With a duplicate `telegram_id` its
  INSERT violates the UNIQUE constraint, and `sqlite3.IntegrityError` is raised
  to its caller before the commit (db.py:76-82). `AddUser` returns
  `ok == false` in place of that exception and leaves the tables and the
  counter unchanged.
- The listing returns rows in table order. The SQL has no `ORDER BY`, so the
  source promises no order; the model picks table order.
- The wait that is reported is `(1800 - elapsed) div 60`. It is never negative.
  It is at most 30 when `elapsed >= 0`, and it reaches 30 only when no time at
  all has passed. It is at most 29 once at least one second has passed.

Gaps in the source that the model keeps as they are:

- `mark_task_done` does not look at `is_done`, so completing a task again
  credits its priority again (`Scenarios.ReplaySession`).
- `delete_task` takes no owner and changes no score.
- `mark_task_done` takes only the task id and no owner (db.py:165), so any
  caller can complete any user's task and credit its owner. `MarkTaskDone`
  takes only `taskId` as well.
- `add_task` stores any 64-bit integer priority, including priorities outside
  1 to 3.

## Model

| member | source | states |
|---|---|---|
| `Tables.UserWithTelegram` | db.py:61-69 | the result, if any, is a user row with that Telegram identity; it is None exactly when no row has that identity |
| `Tables.UserWithTelegramUnique` | db.py:19 | under the UNIQUE constraint, the lookup by Telegram identity returns the one user that has it |
| `Tables.TaskWithId` | db.py:169-173 | the result, if any, is a task row with that id; it is None exactly when no task has that id |
| `Tables.TaskWithIdUnique` | db.py:38 | task ids are keys: the lookup by id returns the one task with that id |
| `Tables.Listing` | db.py:125-144 | a listing never holds more rows than the tasks table |
| `Tables.ListingMembers` | db.py:125-151 | a row is listed exactly when it is the (id, title, category, priority) of a task of that user that is not done, or of any task of that user when all are asked for |
| `Tables.ListingAppend` | db.py:100-106 | inserting a task extends each listing by that task's row exactly when the listing selects it; earlier rows are kept; `AddTask` uses it to state that the new row ends the owner's listings |
| `Tables.ListingAscending` | db.py:144-151 | listed rows have strictly ascending ids, so no task appears twice |
| `Tables.UserTasks` | db.py:113-153 | get_user_tasks as a function: an unknown identity gives no rows, and every row is that of a selected task owned by the user with that identity (ListingMembers gives the converse) |
| `Tables.ListingOwned` | db.py:125-151 | every listed row is the row of a task that is owned by the user and, for the pending listing, not done |
| `Tables.WithoutTask` | db.py:160 | after the DELETE the table holds exactly the old rows whose id differs from the deleted one |
| `Tables.WithoutAbsentTask` | db.py:156-162 | deleting an id that no task has leaves the table unchanged |
| `Tables.WithoutTaskAscending` | db.py:156-162 | deleting keeps the remaining rows in ascending key order |
| `Tables.WithoutTaskLength` | db.py:156-162 | deleting removes exactly one row when the id is present, and none otherwise |
| `Tables.WithDone` | db.py:191-198 | the done UPDATE keeps the table's length; each row with the id is marked done at `now` with its other columns kept, and every other row is unchanged (lookups and listings afterwards: WithDoneLookup, WithDonePending, WithDoneFullListing) |
| `Tables.WithDoneLookup` | db.py:191-198 | after the UPDATE, the task with the id is found done at `now` with its owner, priority and creation time unchanged, and every other id finds the row it found before |
| `Tables.WithDonePending` | db.py:191-198 | after completion, the owner's pending listing holds exactly the rows it held before except the completed task's |
| `Tables.WithDoneFullListing` | db.py:135-142 | completion does not change the full listing, which does not show `is_done` |
| `Tables.Credited` | db.py:200 | the score UPDATE keeps every row's id, Telegram identity, name and join date, and adds the points to the score exactly of the rows with the id (totals and lookups: CreditedTotal, CreditedUsers) |
| `Tables.CreditedTotal` | db.py:200 | the score UPDATE changes the sum of all scores by exactly the points when the user exists, and by nothing otherwise |
| `Tables.CreditedLookup` | db.py:200 | after the score UPDATE, a lookup by Telegram identity finds the same row, with the points added exactly when it is the credited user |
| `Tables.CreditedUsers` | db.py:200 | under the UNIQUE constraint, after the score UPDATE each user is found by Telegram identity, with the points added exactly when it is the credited user and unchanged otherwise |
| `Tables.CreditedKeys` | db.py:200 | the score UPDATE keeps user ids ascending and Telegram identities unique, and keeps the same set of user ids |
| `Tables.WithDoneKeys` | db.py:191-198 | the done UPDATE keeps task ids ascending; every row afterwards either is unchanged or is now done, and keeps its id and owner |
| `Tables.MinutesLeft` | db.py:182-184 | the report is the whole number of minutes left of the 30-minute wait, rounded down; it is never negative, at most 30 when the elapsed time is not negative, and at most 29 once a second has passed |
| `Tables.ConsistentAfterAddUser` | db.py:72-85 | inserting a user with a fresh Telegram identity and the next key keeps the store invariant, including at most one user per identity |
| `Tables.ConsistentAfterAddTask` | db.py:88-110 | inserting a pending task with the next key for an existing owner keeps the store invariant |
| `Tables.ConsistentAfterDelete` | db.py:156-162 | deleting any id keeps the store invariant |
| `Tables.ConsistentAfterDone` | db.py:191-200 | the two completion UPDATEs keep the store invariant |
| `Store.TaskStore.constructor` | db.py:56-58 | a fresh database has empty tables, its counters start at 1, and the invariant holds |
| `Store.TaskStore.GetUserByTelegramId` | db.py:61-69 | it returns the user row with that Telegram identity, which is the only such row, or None exactly when no user has that identity |
| `Store.TaskStore.AddUser` | db.py:72-85 | with a fresh identity, exactly one user is appended, with the next key, score 0 and join date now; with a duplicate identity, the insert is refused and nothing changes |
| `Store.TaskStore.AddTask` | db.py:88-110 | an unknown owner returns false and leaves the tasks table unchanged; a known owner returns true and appends exactly one pending task, with the owner's internal id, the given fields, created now, and a key above every existing key; after a successful insert the new task's row ends both of the owner's listings (`UserTasks`, by ListingAppend) |
| `Store.TaskStore.GetUserTasks` | db.py:113-153 | it returns exactly the rows of that user's pending tasks, or of all that user's tasks, with ascending ids; an unknown identity gives the empty list, and no other user's task is returned |
| `Store.TaskStore.DeleteTask` | db.py:156-162 | it removes exactly the rows with that id, and does nothing when the id is absent; users are untouched |
| `Store.TaskStore.MarkTaskDone` | db.py:165-204 | the source's success flag (`Succeeded`) holds exactly when the task exists and is at least 30 minutes old; an absent id gives NotFound and changes nothing; a task younger than 30 minutes gives TooSoon with the minutes left and changes nothing; otherwise the task is marked done now, exactly its priority is added to its owner's score, and Done reports that priority |
| `Scenarios.RegisteredWithTask` | db.py:72-110 | a fresh store after one registration, a refused duplicate registration and one added task holds exactly one user with score 0 and one pending task with key 1 |
| `Scenarios.CompletionSession` | db.py:165-204 | a session where a duplicate registration is refused, a task is refused at 10 minutes with 20 minutes left and accepted at 31 minutes, after which the score is 1, the pending list is empty and the full list still shows the task |
| `Scenarios.ReplaySession` | db.py:191-200 | completing the same task twice is accepted twice and credits its priority twice |
| `Scenarios.DeleteSession` | db.py:156-162 | deleting a task costs no points, a repeat delete is harmless, and the next task gets a fresh key |

## Left out

- Connection handling, cursors, commit/close and the table DDL (db.py:7-58) are storage I/O. The tables are modelled as sequences; `init_db` on a new database is the constructor.
- Timestamps are text in SQLite, and `mark_task_done` parses them with `strptime`. The model uses integer seconds on one clock. It does not model the difference between SQLite's UTC `CURRENT_TIMESTAMP` and the local time of `datetime.now()`, or the sub-second part of `datetime.now()`.
- The result messages of `mark_task_done` are replaced by the typed `DoneOutcome`. The bool that the source returns is `Schema.Succeeded(outcome)`, and `MarkTaskDone` states when it holds.
- The `is_expired` column is never read or written by these operations.
- `Store.TaskStore.AddTask`, `Store.TaskStore.AddUser`, `Tables.Credited`, `Store.TaskStore.MarkTaskDone`: SQLite's INTEGER is signed 64-bit, while the model's integers are unbounded. A priority or Telegram identity outside -2^63 to 2^63-1 makes the INSERT (db.py:76-82, db.py:100-106) raise `OverflowError`, so no row is added, whereas the model appends it. A score that `score + ?` (db.py:200) pushes past that range is stored by SQLite as a REAL, whereas `Credited` keeps the exact integer sum.
- `add_task` converts the priority with `int(priority)`, which fails on text that is not a number. The model takes the priority as an integer already.
- A NULL `telegram_id` is not modelled: Telegram always supplies an integer identity.
- Foreign keys: SQLite does not enforce `FOREIGN KEY (user_id)` by default. The model instead proves that every task's owner exists, because users are never deleted.
- utils.py (keyboard builders and interface texts) and bot.py (the aiogram dispatcher and command handlers) are user interface and transport. They are not part of this model.
