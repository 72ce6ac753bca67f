/** The task-list application without its widgets: the in-memory list, the rows the
    table shows, and the CSV file, with the operations the buttons run. Every mutation
    changes the list, refreshes the table (which sorts), and only then saves; when the
    sort raises, the save does not happen. */
module TodoApp {
  import opened Records
  import opened Deadlines
  import opened Ordering
  import opened Store
  import opened Persistence

  /** How a button handler ends: it ran to the end, it found no selected row and did
      nothing, or it raised. */
  datatype Outcome = Done | NoSelection | Raised(error: Error)

  class ToDoList {
    /** The records, in insertion order. */
    var tasks: seq<Task>
    /** The rows of the task table, top to bottom, as the last refresh left them. */
    var view: seq<Task>
    /** The CSV file. */
    var disk: FileState
    /** Reading text in the format "%Y-%m-%d %H:%M:%S"; None where the reader raises
        ValueError. */
    const parse: string -> Option<int>
    /** The text the CSV writer stores for a datetime. */
    const format: int -> string

    /** The table shows nothing (the last sort raised after the table was cleared) or
        exactly the sorted projection of the current list. */
    predicate Valid()
      reads this
    {
      view == [] || Display(tasks, parse) == Ok(view)
    }

    /** The state after a refresh followed by a save: on success the table shows the
        projection and the file holds every record; when the sort raises, the table is
        empty and the file is as it was before the operation. */
    predicate Committed(outcome: Outcome, before: FileState)
      reads this
    {
      match Display(tasks, parse)
      case Ok(shown) => outcome == Done && view == shown && disk == Present(Save(tasks, format))
      case Err(e) => outcome == Raised(e) && view == [] && disk == before
    }

    /** Start-up: an empty list, a load, and a refresh. */
    constructor (file: FileState, parse: string -> Option<int>, format: int -> string)
      ensures this.parse == parse && this.format == format
      ensures file.Absent? ==> tasks == [] && disk == Present([])
      ensures file.Present? ==> tasks == Load(file.rows) && disk == file
      ensures Valid()
      ensures Display(tasks, parse).Ok? ==> view == Display(tasks, parse).value
      ensures Display(tasks, parse).Err? ==> view == []
    {
      this.parse := parse;
      this.format := format;
      tasks := [];
      view := [];
      disk := file;
      new;
      LoadFromCsv();
      var _ := UpdateTreeview();
    }

    /** Read the file into the list; a missing file is created holding only the header,
        and the list is left as it was. */
    method LoadFromCsv()
      modifies this`tasks, this`disk
      ensures old(disk).Absent? ==> tasks == old(tasks) && disk == Present([])
      ensures old(disk).Present? ==> tasks == Load(old(disk).rows) && disk == old(disk)
    {
      match disk
      case Absent =>
        disk := Present([]);
      case Present(rows) =>
        tasks := Load(rows);
    }

    /** Overwrite the file with the header and every record, in store order. */
    method SaveToCsv()
      modifies this`disk
      ensures disk == Present(Save(tasks, format))
    {
      disk := Present(Save(tasks, format));
    }

    /** Clear the table, sort a copy of the list, and show it; the list itself is not
        reordered. */
    method UpdateTreeview() returns (outcome: Outcome)
      modifies this`view
      ensures Valid()
      ensures Display(tasks, parse).Ok? ==> outcome == Done && view == Display(tasks, parse).value
      ensures Display(tasks, parse).Err? ==> outcome == Raised(TypeError) && view == []
    {
      view := [];
      var sorted := Display(tasks, parse);
      DisplayIsStableSort(tasks, parse);
      match sorted
      case Err(e) =>
        outcome := Raised(e);
      case Ok(shown) =>
        view := shown;
        outcome := Done;
    }

    /** Refresh, then save if the refresh did not raise. */
    method Commit() returns (outcome: Outcome)
      modifies this`view, this`disk
      ensures Valid()
      ensures Committed(outcome, old(disk))
    {
      outcome := UpdateTreeview();
      if outcome == Done {
        SaveToCsv();
      }
    }

    /** Add Task: append one record timed at `now`. */
    method AddTask(goal: string, duration: string, status: string, now: int) returns (outcome: Outcome)
      requires Valid()
      modifies this`tasks, this`view, this`disk
      ensures Valid()
      ensures duration !in Labels ==> outcome == Raised(KeyError(duration)) && unchanged(this)
      ensures duration in Labels ==>
        && tasks == old(tasks) + [NewTask(goal, duration, status, now).value]
        && Committed(outcome, old(disk))
    {
      var created := NewTask(goal, duration, status, now);
      if created.Err? {
        return Raised(created.error);
      }
      tasks := tasks + [created.value];
      outcome := Commit();
    }

    /** Delete Task: remove the record at the selected row's position, taking that
        position as an index into the list in insertion order. */
    method DeleteTask(selection: Option<nat>) returns (outcome: Outcome)
      requires Valid()
      requires selection.Some? ==> selection.value < |view|
      modifies this`tasks, this`view, this`disk
      ensures Valid()
      ensures selection.None? ==> outcome == NoSelection && unchanged(this)
      ensures selection.Some? ==>
        && selection.value < |old(tasks)|
        && tasks == RemoveAt(old(tasks), selection.value)
        && outcome == Done
        && Committed(outcome, old(disk))
    {
      if selection.None? {
        return NoSelection;
      }
      var index := selection.value;
      DisplayIsStableSort(tasks, parse);
      RemovalKeepsKeysUniform(tasks, parse, index);
      tasks := RemoveAt(tasks, index);
      outcome := Commit();
    }

    /** Delete Task with the row mapped back to the record it shows. */
    method DeleteShownTask(selection: Option<nat>) returns (outcome: Outcome)
      requires Valid()
      requires selection.Some? ==> selection.value < |view|
      modifies this`tasks, this`view, this`disk
      ensures Valid()
      ensures selection.None? ==> outcome == NoSelection && unchanged(this)
      ensures selection.Some? ==>
        && Display(old(tasks), parse).Ok? && selection.value < |old(tasks)|
        && var j := ShownIndex(old(tasks), parse, selection.value);
        && old(tasks)[j] == old(view)[selection.value]
        && tasks == RemoveAt(old(tasks), j)
        && outcome == Done
        && Committed(outcome, old(disk))
    {
      if selection.None? {
        return NoSelection;
      }
      DisplayIsStableSort(tasks, parse);
      var index := ShownIndex(tasks, parse, selection.value);
      RemovalKeepsKeysUniform(tasks, parse, index);
      tasks := RemoveAt(tasks, index);
      outcome := Commit();
    }

    /** Update Status: toggle the status of the record at the selected row's position. */
    method UpdateStatus(selection: Option<nat>) returns (outcome: Outcome)
      requires Valid()
      requires selection.Some? ==> selection.value < |view|
      modifies this`tasks, this`view, this`disk
      ensures Valid()
      ensures selection.None? ==> outcome == NoSelection && unchanged(this)
      ensures selection.Some? ==>
        && selection.value < |old(tasks)|
        && var i := selection.value;
        && tasks == old(tasks)[i := old(tasks)[i].(status := ToggleStatus(old(tasks)[i].status))]
        && outcome == Done
        && Committed(outcome, old(disk))
    {
      if selection.None? {
        return NoSelection;
      }
      var index := selection.value;
      DisplayIsStableSort(tasks, parse);
      var record := tasks[index];
      var before := tasks;
      tasks := tasks[index := record.(status := ToggleStatus(record.status))];
      assert Keys(tasks, parse) == Keys(before, parse);
      outcome := Commit();
    }

    /** Update Duration: give the record at the selected row's position the chosen
        label and a deadline counted from `now`. */
    method UpdateDuration(selection: Option<nat>, duration: string, now: int) returns (outcome: Outcome)
      requires Valid()
      requires selection.Some? ==> selection.value < |view|
      modifies this`tasks, this`view, this`disk
      ensures Valid()
      ensures selection.None? ==> outcome == NoSelection && unchanged(this)
      ensures selection.Some? && duration !in Labels ==>
        outcome == Raised(KeyError(duration)) && unchanged(this)
      ensures selection.Some? && duration in Labels ==>
        && selection.value < |old(tasks)|
        && var i := selection.value;
        && tasks == old(tasks)[i := Retime(old(tasks)[i], duration, now).value]
        && Committed(outcome, old(disk))
    {
      if selection.None? {
        return NoSelection;
      }
      var index := selection.value;
      DisplayIsStableSort(tasks, parse);
      var retimed := Retime(tasks[index], duration, now);
      if retimed.Err? {
        return Raised(retimed.error);
      }
      tasks := tasks[index := retimed.value];
      outcome := Commit();
    }
  }

  /** Removing a record leaves the remaining sort keys all of one kind. */
  lemma RemovalKeepsKeysUniform(tasks: seq<Task>, parse: string -> Option<int>, i: nat)
    requires i < |tasks| && Uniform(Keys(tasks, parse))
    ensures Uniform(Keys(RemoveAt(tasks, i), parse))
  {
    var keys, rest := Keys(tasks, parse), Keys(RemoveAt(tasks, i), parse);
    assert forall j :: 0 <= j < |rest| ==> rest[j] == keys[if j < i then j else j + 1];
  }

  /** Positional addressing as written: with the store holding a three-month task
      before a one-month task entered a moment later, the table shows the one-month
      task in row 0, yet deleting row 0 removes the three-month task. */
  lemma PositionalDeleteRemovesOtherTask(parse: string -> Option<int>)
    ensures
      var first := Task("Write report", "3 months", Stamp(0), Stamp(90 * MicrosPerDay), Incomplete);
      var second := Task("Learn X", "1 month", Stamp(1), Stamp(1 + 30 * MicrosPerDay), Incomplete);
      && Display([first, second], parse) == Ok([second, first])
      && RemoveAt([first, second], 0) == [second]
      && ShownIndex([first, second], parse, 0) == 1
  {
    var first := Task("Write report", "3 months", Stamp(0), Stamp(90 * MicrosPerDay), Incomplete);
    var second := Task("Learn X", "1 month", Stamp(1), Stamp(1 + 30 * MicrosPerDay), Incomplete);
    var tasks := [first, second];
    var keys := Keys(tasks, parse);
    assert keys == [Stamp(90 * MicrosPerDay), Stamp(1 + 30 * MicrosPerDay)];
    assert Uniform(keys);
    assert SortOrder(keys, 1) == [0];
    assert Before(keys, 1, 0);
    assert SortOrder(keys, 2) == [1, 0];
    assert [1, 0][1..] == [0];
    assert Pick(tasks, [1, 0]) == [second, first];
  }
}
