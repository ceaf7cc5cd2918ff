# Task tracker: the JSON task handlers as a verified model

The repository is a small Flask application that keeps tasks in one SQLite table `tasks`
(`id`, `title`, `description`, `due_date`, `status`, `created_at`, `updated_at`). It serves them
through five JSON handlers: `list_tasks`, `get_task`, `create_task`, `update_task` and
`delete_task`. This project models those handlers against an abstract in-memory table and proves
what they promise.

- `text.dfy`, module `Text`: Python's `str.strip()` with no argument, the way CPython implements
  it. A left scan skips whitespace (`SpanStart`), a right scan does the same from the end
  (`SpanEnd`), and the result is what lies between. `IsSpace` is Python's `str.isspace()` on one
  character.
- `tasks.dfy`, module `Tasks`: the row (`Task`), the request body (`Body`, a map from field name
  to `Value`), and the checks each handler runs before it touches the table. `CheckCreate` covers
  app.py:57-64. `FilterUpdates` and `CheckUpdate` cover app.py:86-91. `Apply` is the `UPDATE ... SET`
  merge of app.py:93-103. `Columns` gives a row's assignable columns by name, so the merge can be
  stated as a map override.
- `table.dfy`, module `Table`: the class `TaskTable` and the handlers as its methods.
  - The class holds `rows: map<nat, Task>` and the AUTOINCREMENT counter `nextId`. A ghost set,
    `issued`, records every id ever assigned.
  - `Valid()` carries the schema's guarantees. Each row is stored under its own id. Ids are
    positive. Every id ever assigned is below `nextId`, so ids are never reused.
  - `Create`, `Update` and `Delete` have `modifies this`. Their postconditions give the whole new
    state in terms of the old one.
  - `Get` and `List` only read.
  - The client methods (`CreateThenGet`, `DeleteThenGetThenDelete`, `UpdateMissing`, `Walk...`)
    prove from those contracts alone how several calls combine.

Handler results are the datatype `Response`:

| constructor | meaning | HTTP status in the source |
|---|---|---|
| `Ok` | a task | 200 |
| `Created` | a new task | 201 |
| `Validation(msg)` | a validation error | 400 |
| `NotFound` | no such task | 404 |
| `Deleted` | deletion confirmed | 200 |
| `StorageError(msg)` | a fault reported by the store | 500 |

`dict_from_row` turns a row into a dictionary of its columns. Here it is the identity: the
handlers return the stored `Task` value itself.

Timestamps are an input. `now: Timestamp` stands for the value `CURRENT_TIMESTAMP` gives at the
moment of the statement.

Body field values are `Null` or `Str(s)`. Python truthiness follows from that: `null` and `""`
are falsy. So `data.get("status") or "pending"` defaults a missing, null or empty status.

Four consequences of the code's order and checks that the model states as they are:

- `update_task` validates the body (app.py:86-91) before it looks the id up (app.py:98-101).
  So an invalid or empty-after-filter body for a missing id gives a validation error, not not
  found. `Update` and `UpdateMissing` state that order.
- Only `create_task` strips and checks the title (app.py:57-59). `update_task` writes any string
  title as given, the empty string and whitespace-only strings included.
  `BlankTitleCreateVersusUpdate` shows the two handlers disagreeing on the same title.
- `updated_at` is set to `CURRENT_TIMESTAMP` (app.py:93), which has one-second resolution, so
  two updates within the same second leave the same `updated_at` and it need not increase. The
  model promises only that `updated_at` becomes the clock value at the update.
- In an update body, `{"title": null}` passes validation. The UPDATE statement then hits the
  `NOT NULL` constraint (db_init.py:8). The handler reports a 500 with the store's message, and
  nothing is committed. `Update` models this as `StorageError(NotNullTitle)` with the table
  unchanged. The existence check comes first, so for a missing id the result is `NotFound`.

## Model

| member | source | states |
|---|---|---|
| `Text.IsSpace` | app.py:57 | the characters `strip()` removes: Python's `str.isspace()` set, which includes the six ASCII whitespace characters and goes no higher than U+3000; U+180E, U+200B and U+FEFF are not in it |
| `Text.SpanStart` | app.py:57 | the left scan of `strip()`: every character before it is whitespace, and the one at it is not (or it is the end) |
| `Text.SpanEnd` | app.py:57 | the right scan of `strip()`: every character from it on is whitespace, and the one just before it is not (or it is 0) |
| `Text.SpanStartUnique` | app.py:57 | the left scan is the only position with those two properties |
| `Text.SpanEndUnique` | app.py:57 | the right scan is the only position with those two properties |
| `Text.Strip` | app.py:57 | `strip()` gives the empty string exactly when the input is all whitespace; otherwise the result neither starts nor ends with whitespace |
| `Text.StripSlice` | app.py:57 | the stripped title is a contiguous run of the input with only whitespace on either side |
| `Text.StripCharacterization` | app.py:57 | for blank + core + blank, where the core has no whitespace at its ends, `strip()` returns the core; `strip()` is determined by its contract |
| `Text.StripIdempotent` | app.py:57 | stripping a stripped title changes nothing |
| `Tasks.StatusName` | db_init.py:11 | the text stored for a status is one of "pending", "in_progress", "done", and different statuses get different texts |
| `Tasks.ParseStatus` | app.py:63 | a value passes the status membership test exactly when it is one of "pending", "in_progress", "done", and it names the status returned |
| `Tasks.ParseStatusName` | db_init.py:11 | every status the CHECK constraint admits passes the membership test and parses back to itself |
| `Tasks.Lookup` | app.py:57-62 | `data.get(key)`: the field's value when the body has the key, `null` when it does not |
| `Tasks.Truthy` | app.py:57-62 | Python truthiness of a body value: true exactly for a non-empty string |
| `Tasks.TitleText` | app.py:57 | `data.get("title") or ""`: the title when it is truthy, the empty string otherwise |
| `Tasks.StatusOrDefault` | app.py:62 | `data.get("status") or "pending"`: always truthy; the status when it is truthy, "pending" otherwise |
| `Tasks.CheckCreate` | app.py:57-64 | a blank or missing title gives "title is required"; then a truthy status outside the three gives "invalid status"; otherwise it passes with the stripped (non-empty) title, the given description and due date, and the given status or pending when the status is absent or falsy |
| `Tasks.FilterUpdates` | app.py:86-87 | keeps exactly the body fields in {title, description, due_date, status}, with their values |
| `Tasks.FilterIgnoresOthers` | app.py:86-87 | adding any field outside the allowed four does not change the update set |
| `Tasks.CheckUpdate` | app.py:86-91 | "invalid status" exactly when a status is present and not one of the three (null and "" included); "no valid fields" exactly when no allowed field is supplied; otherwise it passes the filtered, non-empty update set |
| `Tasks.Columns` | app.py:93-103 | a row's assignable columns by name: exactly the four allowed fields, holding its title, description, due date and status; a row's own columns are an update set the store accepts |
| `Tasks.Assignable` | db_init.py:8-11 | an update set the store accepts, one that names only allowed columns with a string title and a valid status, has a string value in every column but `description` and `due_date` |
| `Tasks.AssignablePasses` | app.py:86-91 | a non-empty update set the store accepts passes `update_task`'s checks unchanged |
| `Tasks.Apply` | app.py:93-103 | after the update the row's columns are its old columns overridden by the update set; `id` and `created_at` are kept; `updated_at` is the clock value |
| `Tasks.ColumnsDetermineTask` | db_init.py:6-14 | a row is determined by its id, its two timestamps and its assignable columns |
| `Tasks.ApplyIdempotent` | app.py:93-103 | repeating the same update at the same time gives the same row |
| `Tasks.ApplyStatusOnly` | app.py:93-103 | a status-only update changes the status and `updated_at` and nothing else |
| `Tasks.EmptyStatusCreateVersusUpdate` | app.py:62-89 | a null or "" status defaults to pending on create but is rejected as "invalid status" on update |
| `Tasks.BlankTitleCreateVersusUpdate` | app.py:57-91 | a whitespace-only title is refused by create but passes update's checks unchanged |
| `Table.DescendingIdsDistinct` | app.py:29-31 | a list in strictly descending id order holds each id once |
| `Table.TaskTable.constructor` | db_init.py:5-14 | a freshly initialised table is empty, and its first id will be 1 |
| `Table.TaskTable.Get` | app.py:38-48 | returns the row stored under the id, or not found when there is none; changes nothing |
| `Table.TaskTable.List` | app.py:24-33 | returns every row of the table exactly once, as stored, in strictly descending id order; changes nothing |
| `Table.TaskTable.Create` | app.py:53-77 | on a validation error returns it and leaves the table and the counter unchanged; otherwise adds exactly one row under an id above every id ever assigned, holding the validated fields with both timestamps now, leaves every other row unchanged, and returns the row as stored |
| `Table.TaskTable.Insert` | app.py:66-73 | the INSERT with AUTOINCREMENT: the new row goes under the next id, which was never assigned before; the counter goes up by one; the other rows stay |
| `Table.TaskTable.Update` | app.py:82-108 | validation first (errors leave the table unchanged); then not found for a missing id (unchanged); then a null title is a store fault (unchanged); otherwise exactly that row becomes the merged row, the others stay, and the merged row is returned |
| `Table.TaskTable.Delete` | app.py:113-125 | not found and no change for a missing id; otherwise removes exactly that row and confirms |
| `Table.CreateThenGet` | app.py:66-77 | a successful create followed by a get of the new id returns an equal task, under an id never assigned before |
| `Table.DeleteThenGetThenDelete` | app.py:113-125 | after a delete, both a get and a second delete of that id give not found |
| `Table.UpdateMissing` | app.py:85-101 | an update of a missing id never changes the table; it gives not found exactly when the body passes validation and a validation error otherwise |
| `Table.PaddedTitleBody` | app.py:57-62 | `{"title": pad + t + pad}`, with blank padding and a stripped non-empty `t`, passes create's checks with title `t` and status pending |

## Left out

- Flask routing, `request.get_json(force=True)`, JSON serialisation and the mapping to HTTP
  status codes. These are framework plumbing. The `Response` datatype stands for the answers.
- The `except Exception` paths that answer 500 (app.py:34-36, 49-51, 78-80, 109-111, 126-128),
  apart from the null title in an update, which is modelled as `StorageError`. The others come
  from SQLite errors, from bodies that are not JSON objects, from the JSON values left out below,
  and from ids too large to bind (next line).
- Table.TaskTable.Get, Table.TaskTable.Update, Table.TaskTable.Delete: do not model ids at or
  above 2^63. The route's `<int:task_id>` accepts any non-negative integer, but sqlite3 cannot bind
  one that large. The `SELECT` at app.py:43, 98 and 118 then raises, and the source answers 500
  (for an update, only after the body has passed validation). The model's `id: nat` is unbounded,
  so these methods answer `NotFound` for such an id.
- JSON values other than `null` and strings (numbers, booleans, lists, objects). The body fields
  are modelled as `Null` or `Str`. What the source does with them:
  - Title on create: a falsy value (`0`, `0.0`, `false`, `[]`, `{}`) becomes `""` through
    `or ""`, so the answer is 400 "title is required" (app.py:57-59). A truthy one has no
    `.strip()`, which raises, so the answer is 500.
  - Status on create (checked only after the title passes): a falsy value becomes "pending"
    through `or "pending"` and the task is created (app.py:62). A truthy one is not among the
    three names, so the answer is 400 "invalid status" (app.py:63-64).
  - Status on update: no such value is among the three names, falsy ones included, so the answer
    is 400 "invalid status" (app.py:88-89).
  - Other fields (`description`, `due_date`, and the title on update): integers within the
    signed 64-bit range, other finite floats and booleans are bound and stored as text in the TEXT
    columns. `NaN`, which the JSON parser accepts, is bound as a float that SQLite stores as NULL.
    So `{"description": NaN}` stores a null description. As an update's `title`, `NaN` breaks
    the NOT NULL constraint (db_init.py:8), and the answer is 500 (app.py:109-111). Three kinds of
    value cannot be bound at all: lists, objects, and integers outside the signed 64-bit range
    (below -2^63 or at 2^63 and above). The bind fails and nothing is stored. Binding happens only
    at the store statement. On create that is the INSERT (app.py:68-71), after the title and status
    checks pass, so the answer is 500. On update it is the UPDATE (app.py:103), after the existence
    check (app.py:98-101). So the answer is 500 for an existing id and 404 not found for a missing
    one.
  - Strings holding a lone surrogate (JSON `"\ud800"`): such a string cannot be encoded for
    binding, so it raises at the store statement with the same 500/404 split as above. Dafny's
    `char` holds only Unicode scalar values, so `Str` cannot express this input.
- Text.IsSpace: its contract names only part of the set: the ASCII whitespace it must include, its upper bound, and three characters it must exclude. The whole set, 29 characters, is its definition, and the `strip()` lemmas are stated over that definition.
- SQLite itself: connections, cursors, commit and close, and the SQL text built at app.py:93.
  These are replaced by assignments to the abstract table. Each handler is atomic in the model.
  Concurrent requests and the store's locking are not modelled.
- The behaviour of the clock: the time is a parameter, and nothing is assumed about successive
  readings.
- The AUTOINCREMENT ceiling: SQLite stops issuing ids after 2^63-1, but `nextId` is unbounded.
- The `status` CHECK constraint at the store (db_init.py:11). `Status` has only the three values,
  and both handlers validate before they write, so that check can never fail.
- The HTML views `index`, `add_form` and `edit_form` (app.py:130-150), which only render templates.
  The lookup in `edit_form` is the same as `get_task`.
- `health` (app.py:152-154), which returns a constant.
- `init_db` (db_init.py:17-23) executing its script. Its schema is carried over into `Task`,
  `Status` and `TaskTable.Valid()`.
- Logging, the `TODO_DB` setting (app.py:9) and the start-up block (app.py:156-160).
