# ToDoListApp backend in Dafny

A model of the backend of a single-user task tracker. It has two parts.

- The task store of `backend/database.py`. It is one table of tasks, each with an
  integer id, a title, a priority (default 1) and a completion flag (default false).
  Its operations are `add_task`, `get_all_tasks`, `mark_task_complete` and
  `delete_task`. Here it is the class `Database.TaskStore`. Its field `rows` holds
  the table in rowid order.
- The view helpers of `backend/utils.py`: `filter_tasks`, `sort_tasks` and
  `format_tasks`. Here they are pure functions in module `Utils`.

Files:

- `tasks.dfy`: module `Tasks`. The `Task` record, `Option` (Python's `None` or a
  value) and the column default of `priority`.
- `database.dfy`: module `Database`. The id source, the row lookup, the
  specification functions of the table updates with their lemmas, and the
  `TaskStore` class.
- `text.dfy`: module `TaskText`. Python's `str()` of an int and of a bool, which
  build the formatted lines, and `int()` of a decimal numeral and `str.split()`,
  which read them back (frontend/gui.py:97).
- `utils.dfy`: module `Utils`. Filter, stable sort and format, with their properties.
- `scenario.dfy`: module `Scenario`. The fixture and checks of `tests/test_backend.py`,
  replayed against the contracts.

How the table is modelled:

- Ids come from SQLite's rule for an `INTEGER PRIMARY KEY` column without
  AUTOINCREMENT. A new row gets the largest id in the table plus one, or 1 when
  the table is empty (`Database.NextId`).
- Ids are not reserved. Once the row with the largest id is deleted, the next
  row added receives that id again (`Scenario.ReuseScenario`).
- New rows are appended. So the table invariant `Valid()` holds: ids are positive
  and strictly increase along `rows`. This is also the order a table scan returns.
- The lookup `.filter(Task.id == id).first()` is the function `Database.Find`.

Sorting is specified by a reference stable insertion sort (`Utils.SortTasks`).
Three lemmas pin it down:

- its output is ordered by the key (`SortTasksSorted`);
- it is stable (`SortTasksStable`);
- every ordered, stable arrangement of the input equals it
  (`SortTasksIsTheStableSort`).

Python's `sorted` is stable, including with `reverse=True`. So `sorted` returns
exactly what `SortTasks` returns.

What the code does and does not do:

- `backend/database.py` has no clear-all operation. The tests empty the table
  themselves with `db.query(Task).delete()` (tests/test_backend.py:25).
- `add_task` accepts any title, the empty one included, and so does `AddTask`.
  Only the window refuses an empty title (frontend/gui.py:62-70).
- `get_all_tasks` runs `query(Task).all()` with no ORDER BY (backend/database.py:47).
  The model returns the rows in rowid order, which is also id order.

## Model

| member | source | states |
|---|---|---|
| Database.MaxId | backend/database.py:17 | the result is at least every id in the table, and is 0 or one of those ids |
| Database.NextId | backend/database.py:37-40 | the id given to a new row is at least 1 and differs from every id in the table |
| Database.Find | backend/database.py:54 | finds nothing exactly when no row has the id; otherwise gives the first row with that id |
| Database.WithoutId | backend/database.py:62-65 | the table after `db.delete(task)`; what it holds is stated by `WithoutIdMembers`, `WithoutAbsentId`, `WithoutIdAt` and `WithoutIdKeepsIds` |
| Database.WithoutIdMembers | backend/database.py:65 | a task is kept iff it was in the table and its id differs from the deleted one |
| Database.MarkedComplete | backend/database.py:54-56 | the table after `task.completed = True` on the row with the id; what it holds is stated by the `MarkedComplete*` lemmas |
| Database.MarkedCompleteRows | backend/database.py:54-56 | marking keeps the length, sets `completed` on the rows with the id and keeps their id, title and priority; every other row is unchanged |
| Database.MarkedCompleteAbsent | backend/database.py:54-58 | marking an id no row has leaves the table unchanged |
| Database.MarkedCompleteIdempotent | backend/database.py:51-58 | marking twice gives the same table as marking once |
| Database.MarkedCompleteKeepsIds | backend/database.py:56 | marking preserves the table invariant (positive, ascending ids) |
| Database.WithoutAbsentId | backend/database.py:63 | deleting an id no row has leaves the table unchanged |
| Database.AscendingAround | backend/database.py:17 | in the table invariant, no row before or after row k carries row k's id (the primary key is unique) |
| Database.WithoutOnly | backend/database.py:63-65 | deleting an id carried by one row only removes that row and keeps the rows around it in order |
| Database.WithoutIdAt | backend/database.py:63-65 | with unique ids, deleting the id of row k removes row k and no other row |
| Database.WithoutPresentIdLength | backend/database.py:62-68 | deleting a present id shortens the table by exactly one row |
| Database.WithoutIdKeepsIds | backend/database.py:65 | deletion preserves the table invariant |
| Database.TaskStore.constructor | backend/database.py:23 | a fresh table is empty and satisfies the invariant |
| Database.TaskStore.AddTask | backend/database.py:34-42 | returns the new row with the next id (not in use before), the given title and priority (1 by default) and `completed` false; the table is the old one with that row appended |
| Database.TaskStore.GetAllTasks | backend/database.py:44-49 | returns exactly the stored rows and changes nothing; their ids are pairwise distinct |
| Database.TaskStore.MarkTaskComplete | backend/database.py:51-58 | the new table is the old one with the row of that id marked complete; for an unknown id it is unchanged |
| Database.TaskStore.DeleteTask | backend/database.py:60-70 | answers whether the id was present; the new table is the old one without that row, one row shorter if present and unchanged if absent |
| TaskText.IsSpace | frontend/gui.py:97 | the characters `str.split()` splits on: exactly the 29 code points Python's `str.isspace` accepts |
| TaskText.IntToDecimal | backend/utils.py:23 | `str()` of an int: a non-empty text of digits and '-' (`IntRoundTrip` reads it back) |
| TaskText.BoolText | backend/utils.py:23 | `str()` of a bool: its last four characters are "True" exactly when the flag holds |
| TaskText.ParseInt | frontend/gui.py:97 | `int()`: an accepted text is non-empty and all digits after an optional leading '-'; any other text is the ValueError (`None`) |
| TaskText.Words | frontend/gui.py:97 | `str.split()`: every word is non-empty (`WordThenSpace` and `TwoWords` fix the words of a line) |
| TaskText.IntRoundTrip | backend/utils.py:23 | parsing the rendered decimal text of an integer gives that integer back |
| TaskText.DecimalRoundTrip | backend/utils.py:23 | the digits of a natural number read back to that number |
| TaskText.ColonSuffixNotInt | frontend/gui.py:97 | a text ending in ':' is not an integer numeral |
| TaskText.WordThenSpace | backend/utils.py:23 | splitting a word followed by whitespace yields that word first, then the words of the rest |
| TaskText.TwoWords | backend/utils.py:23 | splitting two words, each followed by a space, yields those two words first |
| TaskText.NumeralColonNoSpace | backend/utils.py:23 | the id text followed by ':' holds no whitespace, so it is a single word |
| TaskText.SecondWord | frontend/gui.py:97 | `split()[1]` of two space-terminated words followed by anything is the second of them |
| Utils.Matches | backend/utils.py:9-10 | the lambda of `filter_tasks`: `status is None or task.completed == status`, and the same for priority; `FilterTasks` states its membership in these terms |
| Utils.FilterTasks | backend/utils.py:3-10 | a task is in the result iff it is in the input and matches both optional criteria; the result is no longer than the input |
| Utils.FilterIsSubsequence | backend/utils.py:8-10 | the result is a subsequence of the input (relative order preserved) |
| Utils.FilterMultiplicity | backend/utils.py:8-10 | each matching task occurs in the result as often as in the input; a non-matching task never occurs |
| Utils.FilterAllMatching | backend/utils.py:8-10 | a sequence of matching tasks is returned unchanged |
| Utils.FilterNoCriteria | backend/utils.py:8-10 | with status and priority both None the input is returned unchanged |
| Utils.FilterIdempotent | backend/utils.py:8-10 | filtering the result again with the same criteria changes nothing |
| Utils.LexLe | backend/utils.py:17 | Python's str `<=`: lexicographic by code point, a proper prefix first |
| Utils.LexLeReflexive | backend/utils.py:17 | title order: every string is `<=` itself |
| Utils.LexLeTotal | backend/utils.py:17 | title order: any two strings are comparable |
| Utils.LexLeAntisymmetric | backend/utils.py:17 | title order: two strings each `<=` the other are equal |
| Utils.LexLeTransitive | backend/utils.py:17 | title order is transitive |
| Utils.KeyLe | backend/utils.py:17 | `getattr(x, key) <= getattr(y, key)`: integer order on priority, `LexLe` on title |
| Utils.SameKey | backend/utils.py:17 | `getattr(x, key) == getattr(y, key)`: equal priorities, or equal titles |
| Utils.InOrderBothWays | backend/utils.py:17 | two tasks are in order both ways iff their sort keys are equal |
| Utils.KeyClassMembers | backend/utils.py:17 | the tasks sharing a given task's key are tasks of the sequence, and have that key |
| Utils.Insert | backend/utils.py:17 | inserting adds exactly one occurrence of the task and keeps the rest (multiset) |
| Utils.SortTasks | backend/utils.py:12-17 | the result is a permutation of the input: same length, same multiset |
| Utils.InsertSorted | backend/utils.py:17 | inserting into an ordered sequence keeps it ordered |
| Utils.SortTasksSorted | backend/utils.py:17 | the result is non-decreasing in the key, or non-increasing when reverse is set |
| Utils.InsertKeyClass | backend/utils.py:17 | an inserted task goes ahead of the tasks sharing its key |
| Utils.SortTasksStable | backend/utils.py:17 | for every key value, the tasks with that key appear in the result in their input order, in both directions |
| Utils.SortedByKeyClassesUnique | backend/utils.py:17 | two ordered sequences with the same key classes are equal |
| Utils.SortTasksIsTheStableSort | backend/utils.py:17 | any ordered and stable arrangement of the input equals the result |
| Utils.FormatTask | backend/utils.py:23 | the f-string: a line starts with "Task " and ends with `str()` of the completion flag |
| Utils.FormatTasks | backend/utils.py:19-23 | exactly one line per task |
| Utils.LineShape | backend/utils.py:23 | a line is "Task", a space, the id followed by ':', a space, then title, priority and flag |
| Utils.FormatTaskIdWord | backend/utils.py:23 | the second whitespace-separated word of a line is the decimal id immediately followed by ':', and is not an integer numeral |
| Utils.LineId | frontend/gui.py:97 | the id read back from a line: `int()` of its second word with the trailing ':' dropped, `None` when that fails |
| Utils.LineCompleted | backend/utils.py:23 | the reader for the flag the line ends with (`{task.completed}`): whether the line ends in "True" |
| Utils.FormatTaskIdRoundTrip | backend/utils.py:23 | the id can be read back from a line by dropping the ':' of its second word |
| Utils.FormatTaskCompletedRoundTrip | backend/utils.py:23 | a line ends in "True" iff the task is completed |
| Utils.FormatTasksReadBack | backend/utils.py:23 | line i is the line of task i, and task i's id and completion flag read back from it |
| Scenario.MarkedTaskFiltersAsCompleted | backend/database.py:54-56 | after marking, the marked row passes `status=True` and no row with that id passes `status=False` |
| Scenario.SetUp | tests/test_backend.py:19-34 | three tasks added to an empty table get ids 1, 2, 3, the given fields and `completed` false |
| Scenario.SortScenario | tests/test_backend.py:36-54 | after setUp, `get_all_tasks` returns three tasks, and the first task sorted by priority with reverse set is "Optimize code" |
| Scenario.SortThreeDescending | tests/test_backend.py:48-54 | tasks of priorities 2, 1, 3 sorted by priority with reverse set come out as the third, first, second: the highest priority first |
| Scenario.MarkAndFilterScenario | tests/test_backend.py:41-62 | after marking task 1, that task ("Write tests") is completed, `status=True` keeps exactly it, and `status=False` keeps the two open tasks |
| Scenario.DeleteScenario | backend/database.py:60-70 | deleting an id answers true, deleting it again answers false, and the next task added gets id 4 |
| Scenario.ReuseScenario | backend/database.py:17 | after adding two tasks and deleting the second, the next task added gets id 2 again |
| Scenario.FilterFirstCompleted | tests/test_backend.py:56-62 | when only the first of three tasks is completed, `status=True` keeps just that task and `status=False` the other two in order |

## Left out

- SQLAlchemy and SQLite plumbing is not modelled: the engine, `scoped_session`, `get_db`, commits, refreshes, `check_same_thread` (backend/database.py:1-11, 26-32). The table is an in-memory sequence, and the store starts empty rather than from an existing `tasks.db` file.
- Database.NextId: ids are unbounded integers. SQLite's fallback once the largest rowid reaches 2^63-1 (a random unused rowid) is not modelled.
- Integer priorities and ids are unbounded. SQLite's 64-bit `INTEGER` range is not modelled.
- Arguments of other Python types are outside the model's types: a `None` title (an IntegrityError from the NOT NULL column), a non-int priority (SQLite keeps text it cannot convert, and sorting by priority then compares str with int) or a non-int id (it matches no row, or one through SQLite's type affinity).
- Utils.SortTasks: the key is `Priority` or `Title`. `getattr` with any other attribute name (backend/utils.py:17) is not modelled.
- Utils.SortTasks: Python's Timsort algorithm is not modelled. Its result is fixed by stability, and `SortTasksIsTheStableSort` shows that this result is `SortTasks`.
- TaskText.ParseInt accepts only an optional '-' followed by digits. Python's `int()` also accepts surrounding whitespace, a '+' sign, underscores between digits and non-ASCII decimal digits (such as Arabic-Indic '٥'). Those forms never arise from `str()` of an int.
- frontend/gui.py is not part of this model: widgets, signals and message boxes. Its one piece of logic, at frontend/gui.py:97, calls `int()` on the second word of a formatted line. By `FormatTaskIdWord` that word is the id followed by ':', so the call fails.
- backend/test_db.py is not part of this model. It is a print-driven smoke script.
- tests/test_backend.py:60 calls `filter_tasks(tasks, completed=True)`. The parameter is named `status` (backend/utils.py:3). The model follows the function as written, and `MarkAndFilterScenario` uses `status`.
- Clear-all, JSON import/export and un-completing a task do not exist in the backend code, so they are not modelled.
