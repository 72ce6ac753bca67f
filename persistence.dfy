/** todo_list.csv as a value: absent, or present with the fixed header and one row of
    five text cells per record. Saving rewrites it whole; loading reads every cell back
    as text. */
module Persistence {
  import opened Records
  import opened Ordering

  /** One line of the file after the header; the fields are the columns Goal, Duration,
      Entry Time, Deadlines, Status, in that order. */
  datatype Row = Row(goal: string, duration: string, entryTime: string, deadline: string, status: string)

  /** The file: missing, or holding the header line followed by `rows`. */
  datatype FileState = Absent | Present(rows: seq<Row>)

  /** The text the CSV writer stores for a timestamp field: `format` (the str() of a
      datetime) for a timestamp, the text itself for text read from the file. */
  function Cell(v: Value, format: int -> string): (c: string)
    ensures v.Text? ==> c == v.text
    ensures v.Stamp? ==> c == format(v.micros)
  {
    match v
    case Stamp(t) => format(t)
    case Text(s) => s
  }

  /** The row the CSV writer writes for a record: the three text fields as they are,
      the two timestamp fields as their cells. */
  function RowOf(t: Task, format: int -> string): (r: Row)
    ensures r.goal == t.goal && r.duration == t.duration && r.status == t.status
    ensures r.entryTime == Cell(t.entryTime, format) && r.deadline == Cell(t.deadline, format)
  {
    Row(t.goal, t.duration, Cell(t.entryTime, format), Cell(t.deadline, format), t.status)
  }

  /** A row as the CSV reader returns it: every field is text, and writing it out
      again gives the same row whatever the datetime format. */
  function TaskOf(r: Row): (t: Task)
    ensures t.entryTime.Text? && t.deadline.Text?
    ensures forall format :: RowOf(t, format) == r
  {
    Task(r.goal, r.duration, Text(r.entryTime), Text(r.deadline), r.status)
  }

  /** The rows a save writes: one per record, in store order. */
  function Save(tasks: seq<Task>, format: int -> string): (rows: seq<Row>)
    ensures |rows| == |tasks|
    ensures forall i :: 0 <= i < |tasks| ==> rows[i] == RowOf(tasks[i], format)
  {
    seq(|tasks|, i requires 0 <= i < |tasks| => RowOf(tasks[i], format))
  }

  /** The records a load builds: one per row, in file order. */
  function Load(rows: seq<Row>): (tasks: seq<Task>)
    ensures |tasks| == |rows|
    ensures forall i :: 0 <= i < |rows| ==> tasks[i] == TaskOf(rows[i])
  {
    seq(|rows|, i requires 0 <= i < |rows| => TaskOf(rows[i]))
  }

  /** Reading back a saved store gives the same number of records in the same order with
      the same Goal, Duration and Status; the two timestamp fields come back as the
      text they were saved as. */
  lemma SaveThenLoad(tasks: seq<Task>, format: int -> string)
    ensures |Load(Save(tasks, format))| == |tasks|
    ensures forall i :: 0 <= i < |tasks| ==>
      var t, u := tasks[i], Load(Save(tasks, format))[i];
      && u.goal == t.goal && u.duration == t.duration && u.status == t.status
      && u.entryTime == Text(Cell(t.entryTime, format))
      && u.deadline == Text(Cell(t.deadline, format))
  {
  }

  /** Saving a store that was just loaded writes the file back unchanged. */
  lemma LoadThenSave(rows: seq<Row>, format: int -> string)
    ensures Save(Load(rows), format) == rows
  {
  }

  /** If every datetime deadline of the store parses back from the text it is saved as
      (as one with no sub-second part does), a reloaded store has the same sort keys as
      the saved one, so it is displayed in the same order. */
  lemma ReloadKeepsDisplayOrder(tasks: seq<Task>, parse: string -> Option<int>, format: int -> string)
    requires forall i :: 0 <= i < |tasks| && tasks[i].deadline.Stamp? ==>
      parse(format(tasks[i].deadline.micros)) == Some(tasks[i].deadline.micros)
    ensures Keys(Load(Save(tasks, format)), parse) == Keys(tasks, parse)
    ensures Display(Load(Save(tasks, format)), parse).Ok? == Display(tasks, parse).Ok?
    ensures Display(tasks, parse).Ok? ==>
      Display(Load(Save(tasks, format)), parse).value == Load(Save(Display(tasks, parse).value, format))
  {
    var reloaded := Load(Save(tasks, format));
    var keys := Keys(tasks, parse);
    forall i | 0 <= i < |tasks|
      ensures Keys(reloaded, parse)[i] == keys[i]
    {
      assert reloaded[i].deadline == Text(Cell(tasks[i].deadline, format));
    }
    assert Keys(reloaded, parse) == keys;
    if Display(tasks, parse).Ok? {
      var order := SortOrder(keys, |keys|);
      var shown := Display(tasks, parse).value;
      assert shown == Pick(tasks, order);
      assert Display(reloaded, parse).value == Pick(reloaded, order);
      forall p | 0 <= p < |shown|
        ensures Pick(reloaded, order)[p] == Load(Save(shown, format))[p]
      {
        PickAt(tasks, order, p);
        PickAt(reloaded, order, p);
      }
    }
  }

  /** If some saved deadline does not parse back (str() of a datetime carries
      microseconds, which the "%Y-%m-%d %H:%M:%S" reader rejects), a store loaded from
      that file cannot be displayed once a record with a datetime deadline is added. */
  lemma ReloadThenAddRaises(rows: seq<Row>, parse: string -> Option<int>, t: Task, j: nat)
    requires j < |rows| && parse(rows[j].deadline).None?
    requires t.deadline.Stamp?
    ensures Display(Load(rows) + [t], parse) == Err(TypeError)
  {
    var tasks := Load(rows) + [t];
    assert tasks[j].deadline == Text(rows[j].deadline);
    assert tasks[|rows|] == t;
    MixedKeysRaise(tasks, parse, |rows|, j);
  }
}
