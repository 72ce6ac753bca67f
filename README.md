# ToDo List Application: a Dafny model of its task store

`todo1.py` is a small Tkinter application. It keeps a list of tasks, each with a
Goal, a Duration label, an Entry Time, a Deadline and a Status. It shows the tasks
in a table sorted by deadline and mirrors the list to `todo_list.csv`. Four buttons
change the list:

- Add Task appends a task. Its deadline is now plus the days of the duration label.
- Delete Task removes a task.
- Update Status toggles a task between "Incomplete" and "Complete".
- Update Duration gives a task a new label and a deadline counted from now.

After each change the application refreshes the table and then saves the file.

This project models that logic without the widgets:

- `records.dfy`, module `Records`: the task record and its timestamp fields.
  A field holds a datetime (`Stamp`, microseconds) while the program runs, and text
  (`Text`) once it has been read back from the file.
  Also `Option`, `Result` and the two exceptions the code can raise, `KeyError` and
  `TypeError`.
- `deadlines.dfy`, module `Deadlines`: the duration table (30, 90, 180, 365 and
  1825 days) and the deadline arithmetic.
- `ordering.dfy`, module `Ordering`:
  - the sort key `get_sort_value`;
  - Python's ordering of datetimes and of strings;
  - `sorted()` as a stable insertion sort of store positions;
  - the proof that this is the one stable sort of the keys, that it is a
    permutation of the store, and that a mix of datetime and text keys raises
    `TypeError`;
  - the map from a table row back to the store position it shows.
- `store.dfy`, module `Store`: the record-level effect of each button.
- `persistence.dfy`, module `Persistence`: the CSV file as a value. A save
  rewrites the whole file; a load reads every cell back as text.
- `todo_app.dfy`, module `TodoApp`: class `ToDoList`, holding the list (`tasks`),
  the table rows (`view`) and the file (`disk`). It has one method per handler of
  the source. Its invariant `Valid()` says that the table is either empty or exactly
  the sorted projection of the list.

Things the source does that the model captures:

- Buttons address the store by table position. Delete Task, Update Status and
  Update Duration take the selected row's position in the sorted table
  (`tree.index`) and use it as an index into the unsorted list. Section "Findings"
  shows that this hits the wrong record. `DeleteShownTask` is the corrected
  deletion.
- Each handler refreshes the table before it saves. `update_treeview` clears the
  table before it sorts. So when the sort raises `TypeError`, the table is left
  empty and the save is skipped. `Committed` states both outcomes.
- Entry Time and Deadline are datetimes in memory but text after a reload.
  `str()` of a datetime normally carries microseconds, which the
  `"%Y-%m-%d %H:%M:%S"` reader rejects. In that case a reloaded store cannot be
  sorted once a new task with a datetime deadline is added
  (`ReloadThenAddRaises`).

Where the code and a reader's natural expectation part, the model follows the code:

- A selected row is never checked against the store, so there is no "not found"
  outcome.
- The status is free text. Only "Incomplete" toggles to "Complete"; any other
  text becomes "Incomplete".
- Update Duration counts the new deadline from the moment of the update, not from
  the task's Entry Time (`RetimeAnchoredOnlyAtEntry`).
- The text entered for a duration is not validated beyond the dictionary lookup,
  which raises `KeyError`.

Two things outside the program are parameters of the model:

- `parse`, for `datetime.strptime(_, "%Y-%m-%d %H:%M:%S")`, giving `None` where it
  raises `ValueError`.
- `format`, for the text the CSV writer stores for a datetime.

`datetime.now()` is a parameter `now` of each operation that reads the clock.

## Model

| member | source | states |
|---|---|---|
| Deadlines.DurationDays | todo1.py:93 | a label has a day count exactly when it is one of the five table labels, and every count lies between 30 and 1825 days |
| Deadlines.LabelOfDays | todo1.py:93 | reading the table backwards yields only table labels |
| Deadlines.ComputeDeadline | todo1.py:93-95 | the lookup raises KeyError with the label exactly when the label is not in the table; otherwise the deadline lies 30 to 1825 whole days after the anchor |
| Deadlines.DaysDetermineLabel | todo1.py:93 | the table is one-to-one: a day count names exactly one label |
| Deadlines.DeadlineSpanDeterminesLabel | todo1.py:93-95 | the distance between a computed deadline and its anchor gives back the label it was computed from |
| Deadlines.DeadlinesFollowTableOrder | todo1.py:39 | a label later in the menu gives a strictly later deadline from the same anchor |
| Ordering.LexLeIsPythonOrder | todo1.py:163 | the string order used on text keys is Python's `<=` on `str`: `a` is a prefix of `b`, or `a` has the smaller code point at the first position where they differ |
| Ordering.LexLeReflexive | todo1.py:163 | string comparison, as `sorted` uses it on text keys, is reflexive |
| Ordering.LexLeTotal | todo1.py:163 | any two strings are comparable |
| Ordering.LexLeAntisymmetric | todo1.py:163 | strings that compare both ways are equal |
| Ordering.LexLeTransitive | todo1.py:163 | string comparison is transitive |
| Ordering.KeyLe | todo1.py:163 | a datetime key and a text key are never ordered (Python raises TypeError when comparing them); datetimes compare chronologically and strings as Python strings |
| Ordering.KeyLeReflexive | todo1.py:163 | every sort key is comparable with itself |
| Ordering.KeyLeTotal | todo1.py:163 | two keys of the same kind (both datetimes or both text) are comparable |
| Ordering.KeyLeAntisymmetric | todo1.py:163 | keys that compare both ways are equal |
| Ordering.KeyLeTransitive | todo1.py:163 | key comparison is transitive |
| Ordering.GetSortValue | todo1.py:174-181 | a datetime is its own key; text that parses becomes that datetime; text that does not parse stays the same text |
| Ordering.SortValueIdempotent | todo1.py:174-181 | taking the key of a key changes nothing |
| Ordering.Keys | todo1.py:163 | the key of each record, in store order |
| Ordering.Uniform | todo1.py:163 | holds exactly when every two keys are of the same kind, so that `sorted` can compare any pair of them |
| Ordering.BeforeAsymmetric | todo1.py:163 | no two positions each precede the other in the stable order |
| Ordering.BeforeTransitive | todo1.py:163 | the stable order is transitive |
| Ordering.BeforeTotal | todo1.py:163 | when all keys are of one kind, of two distinct positions one precedes the other |
| Ordering.InsertMultiset | todo1.py:163 | inserting a position into an order adds exactly that position |
| Ordering.InsertSorted | todo1.py:163 | inserting a new position into a sorted order keeps it sorted |
| Ordering.SortOrder | todo1.py:163 | the display order of the first n records has n positions, all valid |
| Ordering.SortOrderPermutes | todo1.py:163 | the display order lists every one of the first n positions exactly once |
| Ordering.SortOrderOmits | todo1.py:163 | the order of the first n records does not contain position n |
| Ordering.SortOrderSorted | todo1.py:163 | the display order is sorted by key, with ties in store order |
| Ordering.PickAt | todo1.py:163 | row p of a projection is the record at the p-th position of the order |
| Ordering.PickInsert | todo1.py:163 | projecting an order with one inserted position adds exactly that record |
| Ordering.PickSortOrder | todo1.py:163 | the projected table holds the same records as the store, as a multiset |
| Ordering.SortedSameHead | todo1.py:163 | two sorted orders of the same positions start with the same position |
| Ordering.SortedUnique | todo1.py:163 | two sorted orders of the same positions are equal |
| Ordering.SortedIsStablySorted | todo1.py:163 | a sorted permutation is a stable sort: non-decreasing keys, ties in store order |
| Ordering.StablySortedIsSorted | todo1.py:163 | a stable sort is sorted in the stable order |
| Ordering.SortOrderIsTheStableSort | todo1.py:163 | with keys of one kind, the display order is a stable sort, and every stable sort of the keys equals it |
| Ordering.Display | todo1.py:163 | a successful projection has as many rows as the store has records |
| Ordering.DisplayIsStableSort | todo1.py:163 | the projection raises TypeError exactly when datetime and text keys are mixed; otherwise it is a stable sort of the store, a permutation of its records, with non-decreasing deadlines |
| Ordering.MixedKeysRaise | todo1.py:163 | one record with a datetime key and one with a text key make the projection raise TypeError |
| Ordering.ShownIndex | todo1.py:113 | the store position whose record a table row shows |
| Store.NewTask | todo1.py:92-98 | an unknown label raises KeyError; otherwise the record has the inputs, Entry Time now, and the deadline of the label from now |
| Store.ToggleStatus | todo1.py:127-128 | the new status is "Complete" exactly when the old one was "Incomplete", and is always one of the two |
| Store.ToggleTwice | todo1.py:127-128 | toggling twice restores the status exactly when it was one of the two labels |
| Store.Retime | todo1.py:144-149 | an unknown label raises KeyError; otherwise Goal, Entry Time and Status are kept, the label is replaced, and the new deadline lies the label's span after now |
| Store.RetimeIgnoresOldRecord | todo1.py:146-149 | the new deadline does not depend on the old record |
| Store.RetimeAnchoredOnlyAtEntry | todo1.py:146-149 | after an update the deadline is Entry Time plus the label only when the update happens at the entry instant |
| Store.RemoveAt | todo1.py:114 | `del` at a position keeps the records before it, shifts the ones after it, and removes exactly that record |
| Persistence.Cell | todo1.py:189 | the writer stores a text field as it is and a datetime as its `str()` text |
| Persistence.RowOf | todo1.py:187-189 | the row written for a record holds its Goal, Duration and Status unchanged and its two timestamps as cells |
| Persistence.TaskOf | todo1.py:79-80 | the reader returns every field as text, and writing that record out again gives the same row whatever the datetime format |
| Persistence.Save | todo1.py:183-189 | one row per record, in store order, each holding that record's five fields |
| Persistence.Load | todo1.py:78-80 | one record per row, in file order, every field read as text |
| Persistence.SaveThenLoad | todo1.py:78-80 | reloading a save gives the same records in the same order, with the timestamps turned into the text they were saved as |
| Persistence.LoadThenSave | todo1.py:183-189 | saving a store that was just loaded rewrites the same rows |
| Persistence.ReloadKeepsDisplayOrder | todo1.py:163 | when each datetime deadline of the store parses back from its saved text (as one without a sub-second part does), a reloaded store has the same keys and the same table as the one saved |
| Persistence.ReloadThenAddRaises | todo1.py:95-102 | when any saved deadline of the file does not parse back, adding a task to the reloaded store makes the table raise TypeError |
| TodoApp.ToDoList.constructor | todo1.py:7-21 | start-up loads the file (or creates it with only a header and keeps the list empty) and then shows the sorted table, or an empty table when the sort raises |
| TodoApp.ToDoList.LoadFromCsv | todo1.py:74-85 | a missing file is created holding only the header and the list is kept; a present file replaces the list with its rows |
| TodoApp.ToDoList.SaveToCsv | todo1.py:183-189 | the file becomes the header plus every record of the list |
| TodoApp.ToDoList.UpdateTreeview | todo1.py:157-163 | the table is the sorted projection, or empty with TypeError raised when keys are mixed; the list is not reordered |
| TodoApp.ToDoList.Commit | todo1.py:101-105 | refresh then save: on success the table is the projection and the file the list; on TypeError the table is empty and the file is left as it was |
| TodoApp.ToDoList.AddTask | todo1.py:87-105 | an unknown label raises KeyError and changes nothing; otherwise the new record is appended and the refresh and save follow |
| TodoApp.ToDoList.DeleteTask | todo1.py:107-118 | with no selection nothing happens; otherwise the record at the row's position in the store is removed, the sort cannot raise, and the file is rewritten |
| TodoApp.ToDoList.DeleteShownTask | todo1.py:107-118 | deletes the record the selected row shows: the removed record equals the row |
| TodoApp.ToDoList.UpdateStatus | todo1.py:120-135 | with no selection nothing happens; otherwise only the status of the record at the row's position is toggled, the sort cannot raise, and the file is rewritten |
| TodoApp.ToDoList.UpdateDuration | todo1.py:137-155 | with no selection nothing happens; an unknown label raises KeyError and changes nothing; otherwise only the record at the row's position is re-timed from now, then refresh and save |
| TodoApp.RemovalKeepsKeysUniform | todo1.py:114-115 | a store whose keys are of one kind keeps that after a deletion, so the refresh after Delete Task does not raise |
| TodoApp.PositionalDeleteRemovesOtherTask | todo1.py:113-114 | a store holding a 3-month task before a 1-month task shows the 1-month task in row 0, yet deleting position 0 removes the 3-month task |

## Left out

- The widgets are not modelled: building the window, the entry fields, menus and
  buttons, row colours and tags, and `tree.update()` (todo1.py:23-72, 165-172).
  The table is modelled as the sequence of records it shows.
- The Duration heading's sort command calls `self.sort_column`, which the class does
  not define; clicking that heading raises `AttributeError`. This is not part of
  this model.
- Reading the entry widgets: the goal, label and status a handler reads are
  parameters of the methods.
- Multi-row selections are not modelled. A selection is `None` or a single row.
- CSV quoting, escaping and encoding are not modelled. The file is a header plus
  rows of five text cells. Files whose header differs from the one the program
  writes are not modelled.
- `datetime.strptime` and `str(datetime)` are the parameters `parse` and
  `format`. Their text formats and the calendar are not modelled.
- `datetime.now()` is the parameter `now`.
- Datetimes are unbounded integers of microseconds. The `OverflowError` that
  `datetime` raises beyond year 9999 is not modelled.
- The `print(self.tasks)` debug output and the `__main__` block are not modelled.
- TodoApp.ToDoList.constructor: when the first sort raises `TypeError`, the
  source's constructor fails. The model instead ends with an empty table.
- An exception raised by a handler is an `Outcome` value. Tkinter's reporting of
  it is not modelled.

## Findings

| source | as written | input that shows it | evidently intended | confidence | as-written member | corrected member |
|---|---|---|---|---|---|---|
| todo1.py:113-114 | `tree.index(selected_item)` is the row's position in the sorted table, and it is used to index `self.tasks`, which is in insertion order | add "3 months" at t=0, then "1 month" a moment later; the table shows the 1-month task in row 0; selecting it and pressing Delete Task removes the 3-month task (Update Status and Update Duration hit the same wrong record) | act on the record the selected row shows | not executed | TodoApp.PositionalDeleteRemovesOtherTask | TodoApp.ToDoList.DeleteShownTask |
