# todo-cli: a verified model of the task core

This project models the logic layer of `todo-cli`, a personal task tracker
that ranks tasks by the Eisenhower method (importance × urgency). It covers
two source files:

- `src/todo_cli/core.py` (module `Core`, file `core.dfy`): the `Task` record
  with its `Importance` and `Urgency` enumerations, `quadrant`,
  `sorted_tasks`, `next_id`, `add_task` and `mark_done`. Task lists are
  Dafny sequences. Because they are values, no operation can change its
  argument. `mark_done` builds its result in a loop with a `found` flag. It
  is therefore the method `MarkDone`, proved against the specification
  function `MarkDoneResult`. The `KeyError` it raises is the error value
  `NoTaskWithId`.
- `src/todo_cli/storage.py` (module `Storage`, file `storage.dfy`):
  `task_to_json`, `task_from_json` and the pure parts of `load_tasks` and
  `save_tasks`. The model works on parsed JSON values (RFC 8259), not on
  JSON text. A database file is `Option<Json>`: `None` when the file does
  not exist. Exceptions are `Err(LoadError)` values. `NotAList`,
  `IdValueError` and `InvalidLabel` stand for `ValueError`;
  `NotSubscriptable` and `IdTypeError` for `TypeError`; `MissingKey` for
  `KeyError`.

Three helper files support them. `results.dfy` (module `Results`) holds
`Option` and `Result`. `builtins.dfy` (module `Builtins`) holds the Python
built-ins the core depends on: `str.lower` (ASCII letters only), the `<`
order on `str`, `str(int)` and `int(str)` in base 10. `sorting.dfy` (module
`Sorting`) holds Python's `sorted` with a key, for any comparison that is a
total preorder.

`sorted_tasks` calls Python's `sorted`, a stable sort. The model computes
it by a stable insertion sort (`Sorting.Sort`), comparing tasks by their key
tuples (`Core.Ranks`). `Sorting.SortUnique` and `Core.SortedTasksUnique`
prove that only one arrangement of the input is both sorted by the key and
stable. So the
model's result is the one any stable sort, Timsort included, returns.

`task_from_json` applies Python's coercions, and the model writes them out
explicitly:

- `int(...)` for the id (`PyInt`): JSON integers as they are, booleans as
  0 or 1, strings parsed in base 10. `null`, lists and objects are a
  `TypeError`.
- `str(...)` for the title and the labels (`PyStr`).
- `bool(...)` for `done` (`Truthy`).

Only the exact strings `"low"` and `"high"` are accepted as labels, and a
missing `done` member means `false`.

Three behaviours of the code are easy to miss, and the model keeps them:

- Loading does not reject an id or a title of another JSON type. `int()`
  and `str()` coerce it, so an id of `"7"` or `true` loads, and so does a
  title that is a number, a boolean, `null`, a list or an object.
- `mark_done` marks every task with the id, not only the first one.
  `MarkedDone` does the same.
- No code requires a title to be non-empty, and the model does not either.

## Model

| member | source | states |
|---|---|---|
| `Core.LabelsRoundTrip` | src/todo_cli/core.py:8-15 | Lookup by value (`Importance(s)`, `Urgency(s)`) accepts exactly `"low"` and `"high"`, case-sensitively. It inverts the label of every member, and the label of the member found is `s`. |
| `Core.ImportanceOf` | src/todo_cli/core.py:8-10 | `Importance(s)` finds a member exactly for `"low"` and `"high"`, and the member found has `s` as its value. |
| `Core.UrgencyOf` | src/todo_cli/core.py:13-15 | `Urgency(s)` finds a member exactly for `"low"` and `"high"`, and the member found has `s` as its value. |
| `Core.Quadrant` | src/todo_cli/core.py:27-37 | The quadrant is between 1 and 4. It equals 1 + 2·[importance is LOW] + [urgency is LOW]: HIGH/HIGH is 1, HIGH/LOW 2, LOW/HIGH 3, LOW/LOW 4. |
| `Core.QuadrantClassifies` | src/todo_cli/core.py:27-37 | Two tasks have the same quadrant if and only if they have the same importance and the same urgency. |
| `Core.KeyLeqTotalOrder` | src/todo_cli/core.py:42 | Comparing the key tuples (done, quadrant, lower-cased title) is a total order: total, antisymmetric and transitive. |
| `Core.RanksTotalPreorder` | src/todo_cli/core.py:42 | Comparing tasks by their key tuples is total and transitive, which is what `sorted` needs of a key. |
| `Core.PeersAreWithKey` | src/todo_cli/core.py:42 | Two tasks compare as equal under the key if and only if their keys are equal, so a peer group is the list of tasks with one key. |
| `Core.SortedTasks` | src/todo_cli/core.py:40-42 | The result is a permutation of the input (same multiset, same length), and it is non-decreasing in the key (done, quadrant, lower-cased title). |
| `Core.SortedTasksStable` | src/todo_cli/core.py:42 | The sort is stable: for the key of any task, the tasks with that key appear in the result in their input order. |
| `Core.SortedTasksOrder` | src/todo_cli/core.py:41-42 | Of any two positions in the result, an open task never follows a done one. With equal done flags the quadrant does not decrease, and with equal quadrants the lower-cased titles are in ascending order. |
| `Core.SortedTasksExample` | tests/test_core.py:13-21 | Tasks zzz (done), b, a and x (low/low, the others high/high) sort to a, b, x, zzz. |
| `Core.SortedTasksUnique` | src/todo_cli/core.py:42 | An arrangement that is sorted by the key and keeps each key's tasks in input order equals `SortedTasks(ts)`. So the model agrees with any stable sort. |
| `Sorting.Insert` | src/todo_cli/core.py:42 | Insertion adds exactly the one element: the length grows by one and the multiset gains the element. |
| `Sorting.InsertSorted` | src/todo_cli/core.py:42 | Inserting into a sorted list gives a sorted list. |
| `Sorting.InsertStable` | src/todo_cli/core.py:42 | Inserting puts the element in front of its peers, and every peer group keeps its order. |
| `Sorting.Sort` | src/todo_cli/core.py:42 | `sorted` returns a permutation of its input (same multiset, same length) that is non-decreasing under the comparison. |
| `Sorting.SortStable` | src/todo_cli/core.py:42 | `sorted` is stable: every peer group appears in the result in its input order. |
| `Sorting.SortedPeersEqual` | src/todo_cli/core.py:42 | Two sorted lists with the same peer groups, each in the same order, are equal. |
| `Sorting.SortUnique` | src/todo_cli/core.py:42 | A sorted list whose peer groups are those of the input, in input order, is the result of `sorted`. |
| `Core.MaxId` | src/todo_cli/core.py:47 | For a non-empty list, the result is at least every id and is one of the ids. |
| `Core.NextId` | src/todo_cli/core.py:45-47 | The result is larger than every id in the list. It is 1 for an empty list, and otherwise exactly one more than some id, so it is the maximum plus 1. |
| `Core.AddTask` | src/todo_cli/core.py:50-58 | The result has one more task. Its first part is the input unchanged. The new last task has the given title, importance and urgency, is not done, and has an id larger than every existing id. |
| `Core.AddTaskKeepsIdsUnique` | src/todo_cli/core.py:47-58 | If the ids of the list are pairwise distinct, they stay distinct after an add. |
| `Core.AddTaskAdvancesNextId` | src/todo_cli/core.py:45-58 | The new task's id is `NextId` of the old list, and the next id after the add is one larger, so ids are never reused. |
| `Core.AddTwiceFromEmpty` | tests/test_core.py:24-28 | Two adds to an empty list give the ids 1 and 2, in that order. |
| `Core.MarkedDone` | src/todo_cli/core.py:69-74 | Same length. Every task with the id becomes that task with `done` set, and every other task is unchanged, each at its position. |
| `Core.MarkDoneResult` | src/todo_cli/core.py:61-79 | Specification of `mark_done`. It has no contract of its own; `MarkDoneFailsIffAbsent`, `MarkDonePreserves` and `MarkDoneIdempotent` state what it returns. |
| `Core.MarkDone` | src/todo_cli/core.py:61-79 | The loop with its `found` flag returns `MarkDoneResult`: the not-found error when no task has the id, and otherwise `MarkedDone` of the list. |
| `Core.MarkDoneFailsIffAbsent` | src/todo_cli/core.py:76-77 | The not-found error (`KeyError`) for the id is raised if and only if no task in the list has that id. |
| `Core.MarkDonePreserves` | src/todo_cli/core.py:66-79 | On success, length, ids, titles, importance and urgency are kept at every position. `done` becomes old `done` or (id matches), so no task goes from done to open, and tasks with another id are unchanged. |
| `Core.MarkDoneIdempotent` | src/todo_cli/core.py:66-79 | Marking the same id again on the result succeeds and returns the same list. |
| `Core.MarkDoneKeepsIdsUnique` | src/todo_cli/core.py:69-74 | Marking done keeps pairwise-distinct ids distinct. |
| `Core.MarkDoneByIdNotByRank` | tests/test_core.py:31-39 | In [1 low/low, 2 high/high], marking id 1 marks position 0 and leaves id 2 open, whatever the ranking would be. |
| `Storage.TaskToJson` | src/todo_cli/storage.py:15-22 | The object has exactly the members id, title, importance, urgency and done. The enumerations appear as their labels `"low"`/`"high"`, and done as a JSON boolean. |
| `Storage.PyInt` | src/todo_cli/storage.py:27 | `int()` accepts exactly integers, booleans and strings that parse as base-10 integers. A rejected string is the `ValueError` carrying that string; `null`, a list or an object is the `TypeError`. It reads back the decimal form of every integer. |
| `Storage.PyStr` | src/todo_cli/storage.py:28-30 | `str()` keeps a string as it is. When lists and objects print with Python's repr (first character `[` or `{`), only the JSON strings `"low"` and `"high"` have the string form `"low"` or `"high"`. |
| `Storage.Truthy` | src/todo_cli/storage.py:31 | `bool()` is false exactly for `None`, `False`, `0`, `""`, `[]` and `{}`. |
| `Storage.TaskFromJson` | src/todo_cli/storage.py:25-32 | Model of `task_from_json`, fields read in the order id, title, importance, urgency, done. It has no contract of its own; `TaskFromJsonAccepts`, `TaskFromJsonLabelsAreStrings`, `TaskRoundTrip` and the failure lemmas below state what it returns. |
| `Storage.TaskRoundTrip` | src/todo_cli/storage.py:15-32 | `task_from_json(task_to_json(t))` is `t`, for every task. |
| `Storage.TaskFromJsonAccepts` | src/todo_cli/storage.py:25-32 | An entry decodes if and only if it is an object with id, title, importance and urgency, `int()` accepts the id, and the string forms of importance and urgency are exactly `"low"` or `"high"`. The task then carries these values, and `done` is the truthiness of the `done` member, or false when it is absent. |
| `Storage.TaskFromJsonLabelsAreStrings` | src/todo_cli/storage.py:29-30 | When lists and objects print with Python's repr, an entry decodes if and only if it is an object with the four required members, `int()` accepts the id, and importance and urgency are each the JSON string `"low"` or `"high"`. |
| `Storage.ListImportanceFails` | src/todo_cli/storage.py:29 | An importance given as the list `[]` is the label `ValueError`, naming the list's repr. |
| `Storage.MissingDoneMeansOpen` | src/todo_cli/storage.py:31 | A decoded entry without a `done` member is an open task. |
| `Storage.MissingIdOrTitleFails` | src/todo_cli/storage.py:27-28 | A missing `id` is `KeyError('id')`. With a valid id, a missing `title` is `KeyError('title')`. |
| `Storage.UnknownImportanceFails` | src/todo_cli/storage.py:29 | Any importance string other than `"low"` or `"high"` (for example `"HIGH"` or `"superhigh"`) is a `ValueError` naming that label. |
| `Storage.SuperhighFails` | tests/test_storage.py:24-35 | The entry with importance `"superhigh"` fails with the label error. |
| `Storage.DecodeAll` | src/todo_cli/storage.py:41 | The list comprehension succeeds if and only if every entry decodes. It then returns the decoded tasks one for one, in order. Otherwise it fails with the error of the first entry that does not decode. |
| `Storage.LoadTasks` | src/todo_cli/storage.py:35-41 | Model of `load_tasks` on a parsed file. It has no contract of its own; `LoadMissingFile`, `LoadRejectsNonList`, `LoadListFailsOnBadEntry` and `LoadAfterSave` state what it returns. |
| `Storage.SaveTasks` | src/todo_cli/storage.py:45 | The payload is a JSON list with one encoded object per task, in the order of the tasks. |
| `Storage.LoadAfterSave` | src/todo_cli/storage.py:35-46 | Loading the payload that `save_tasks` writes returns the original list, element by element and in order. |
| `Storage.LoadMissingFile` | src/todo_cli/storage.py:36-37 | An absent file loads as the empty list, not as an error. |
| `Storage.LoadRejectsNonList` | src/todo_cli/storage.py:39-40 | A document whose top level is not a list fails with the not-a-list `ValueError`. |
| `Storage.LoadListFailsOnBadEntry` | src/todo_cli/storage.py:41 | If some entry fails and every earlier entry decodes, loading fails with that entry's error. |
| `Builtins.Lower` | src/todo_cli/core.py:42 | Lower-casing keeps the length and lower-cases each character on its own (ASCII letters only). |
| `Builtins.StrLessTrichotomy` | src/todo_cli/core.py:42 | Python's string order is total and asymmetric: two strings are equal or ordered one way, never both ways. |
| `Builtins.StrLessTransitive` | src/todo_cli/core.py:42 | Python's string order is transitive. |
| `Builtins.ParseInt` | src/todo_cli/storage.py:27 | Model of `int(str)` in base 10: surrounding white space stripped, one optional sign, then digits with single underscores allowed between digits. It has no contract of its own; `ParseIntDecimal` states what it reads back. |
| `Builtins.ParseIntDecimal` | src/todo_cli/storage.py:27 | The model of `int(str)` reads back the decimal form of every integer. |

## Left out

- `src/todo_cli/cli.py` is not part of this model. It is argument parsing, printing and exit codes around the core, including the `not t.done` filter for listing.
- File I/O is not modelled: `path.exists()`, `read_text`, `write_text` and `default_db_path`. A file is `Option<Json>`, and saving is the JSON value `SaveTasks` returns.
- JSON text is not modelled: `json.loads`, and `json.dumps` with its indentation, `ensure_ascii=False` and trailing newline. The model works on parsed values.
- JSON numbers with a fraction or exponent (Python floats) are not in the `Json` datatype, so `int()` truncating a float is not modelled.
- JSON objects are maps, as `json.loads` leaves them (with a repeated member name, the last value wins). Member order is therefore not kept.
- `Storage.PyStr`: Python's `str()` of a list or an object is its `repr`, which depends on member order and on quoting rules. The model takes it as the parameter `containerRepr`. The properties that depend on it (`TaskFromJsonLabelsAreStrings`, `ListImportanceFails` and the second clause of `PyStr`) assume only `ReprLike`: a list's repr starts with `[` and an object's with `{`. `TaskFromJsonAccepts` holds for any `containerRepr`, so it speaks of the string form of a label rather than of its JSON type, and the title of a list or object entry is left as that parameter's value.
- `Builtins.Lower`: only ASCII letters are lower-cased. Python's `str.lower` applies full Unicode case mapping.
- `Builtins.ParseInt`: only ASCII digits and the six ASCII white-space characters are recognised. Python's `int()` also accepts other Unicode decimal digits and white space.
- `Builtins.ParseInt`: there is no limit on the number of digits. Since Python 3.11 (and in some earlier security releases), `int()` of a string with more than 4300 digits raises `ValueError` by default; the limit is set by `PYTHONINTMAXSTRDIGITS` or `sys.set_int_max_str_digits`. An id given as such a string loads in the model.
- Timsort: the model computes the result by insertion sort, not by Timsort. `Core.SortedTasksUnique` shows that the two give the same list.
- Unique ids: pairwise-distinct ids are an invariant that `add_task` and `mark_done` preserve. `load_tasks` does not check it, and neither does the model.
