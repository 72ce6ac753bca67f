/** The record-level operations behind the four buttons: the record a new task gets,
    the status toggle, re-timing a record with a new duration, and deletion by position. */
module Store {
  import opened Records
  import opened Deadlines

  const Incomplete: string := "Incomplete"
  const Complete: string := "Complete"

  /** A record whose Deadlines is its Entry Time plus the days of its Duration, both
      held as timestamps: what every record created in this run starts as. */
  predicate Anchored(t: Task) {
    && t.entryTime.Stamp?
    && t.deadline.Stamp?
    && ComputeDeadline(t.duration, t.entryTime.micros) == Ok(t.deadline.micros)
  }

  /** The record the Add Task button appends, or the KeyError an unknown duration raises
      before anything is appended. */
  function NewTask(goal: string, duration: string, status: string, now: int): (r: Result<Task>)
    ensures r.Err? <==> duration !in Labels
    ensures r.Err? ==> r.error == KeyError(duration)
    ensures r.Ok? ==> r.value.goal == goal && r.value.duration == duration && r.value.status == status
    ensures r.Ok? ==> r.value.entryTime == Stamp(now) && Anchored(r.value)
  {
    match ComputeDeadline(duration, now)
    case Err(e) => Err(e)
    case Ok(deadline) => Ok(Task(goal, duration, Stamp(now), Stamp(deadline), status))
  }

  /** The new status Update Status writes: "Complete" for "Incomplete", and
      "Incomplete" for anything else. */
  function ToggleStatus(status: string): (r: string)
    ensures r == Complete <==> status == Incomplete
    ensures r == Incomplete || r == Complete
  {
    if status == Incomplete then Complete else Incomplete
  }

  /** Toggling twice gives the status back exactly when it was one of the two labels;
      any other text becomes "Complete". */
  lemma ToggleTwice(status: string)
    ensures ToggleStatus(ToggleStatus(status)) == status <==> status == Incomplete || status == Complete
    ensures status != Incomplete ==> ToggleStatus(ToggleStatus(status)) == Complete
  {
  }

  /** The record after Update Duration: the new label, and a deadline counted from `now`
      rather than from the entry time; or the KeyError an unknown label raises. */
  function Retime(t: Task, duration: string, now: int): (r: Result<Task>)
    ensures r.Err? <==> duration !in Labels
    ensures r.Err? ==> r.error == KeyError(duration)
    ensures r.Ok? ==> && r.value.goal == t.goal && r.value.entryTime == t.entryTime
                      && r.value.status == t.status && r.value.duration == duration
    ensures r.Ok? ==> r.value.deadline.Stamp? && LabelOfSpan(r.value.deadline.micros - now) == Some(duration)
  {
    match ComputeDeadline(duration, now)
    case Err(e) => Err(e)
    case Ok(deadline) =>
      DeadlineSpanDeterminesLabel(duration, now);
      Ok(t.(duration := duration, deadline := Stamp(deadline)))
  }

  /** The new deadline depends only on the label and `now`, not on the old record. */
  lemma RetimeIgnoresOldRecord(t: Task, u: Task, duration: string, now: int)
    requires duration in Labels
    ensures Retime(t, duration, now).value.deadline == Retime(u, duration, now).value.deadline
  {
  }

  /** A re-timed record keeps its deadline tied to its entry time only if it is re-timed
      at the instant it was entered. */
  lemma RetimeAnchoredOnlyAtEntry(t: Task, duration: string, now: int)
    requires duration in Labels && t.entryTime.Stamp?
    ensures Anchored(Retime(t, duration, now).value) <==> t.entryTime.micros == now
  {
  }

  /** The list after `del tasks[i]`. */
  function RemoveAt(tasks: seq<Task>, i: nat): (r: seq<Task>)
    requires i < |tasks|
    ensures |r| == |tasks| - 1
    ensures forall j :: 0 <= j < i ==> r[j] == tasks[j]
    ensures forall j :: i <= j < |r| ==> r[j] == tasks[j + 1]
    ensures multiset(r) + multiset{tasks[i]} == multiset(tasks)
  {
    assert tasks == tasks[..i] + [tasks[i]] + tasks[i + 1..];
    tasks[..i] + tasks[i + 1..]
  }
}
