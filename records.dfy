/** The two kinds of record the tracker keeps: colour-coded lists and tasks. */
module Records {
  import opened Wrappers

  /** Identifiers drawn from a fresh counter (the model of genId). */
  type Id = nat

  /** A colour as the palette writes it, e.g. "#ff4d6d". */
  type Colour = string

  /** A list: created by the user or by the lazy default rule, never changed afterwards. */
  datatype TaskList = TaskList(id: Id, name: string, color: Colour)

  /** A task. `due` is the text the date-time input produced; `dueAt` is what
      `new Date(due)` makes of it, `None` for an invalid date. */
  datatype Task = Task(
    id: Id,
    name: string,
    due: string,
    dueAt: Option<int>,
    reminder: string,
    listId: Id,
    createdAt: int,
    completed: bool)

  /** An incomplete task whose due time has come. An invalid date compared
      with the current time is false, so such a task is never due. */
  predicate IsDue(t: Task, now: int)
    ensures t.dueAt.None? ==> !IsDue(t, now)
    ensures t.completed ==> !IsDue(t, now)
    ensures t.dueAt.Some? && !t.completed && t.dueAt.value <= now ==> IsDue(t, now)
    ensures t.dueAt.Some? && t.dueAt.value > now ==> !IsDue(t, now)
  {
    !t.completed && t.dueAt.Some? && t.dueAt.value <= now
  }

  /** The ids of a sequence of lists. */
  function ListIds(ls: seq<TaskList>): (ids: set<Id>)
  {
    set i | 0 <= i < |ls| :: ls[i].id
  }

  /** The ids of a sequence of tasks. */
  function TaskIds(ts: seq<Task>): (ids: set<Id>)
  {
    set i | 0 <= i < |ts| :: ts[i].id
  }

  /** Flipping task `i` changes only that task's completion flag. */
  function Toggled(ts: seq<Task>, i: nat): (r: seq<Task>)
    requires i < |ts|
    ensures |r| == |ts|
    ensures r[i].completed != ts[i].completed
    ensures r[i].(completed := ts[i].completed) == ts[i]
    ensures forall j :: 0 <= j < |ts| && j != i ==> r[j] == ts[j]
  {
    ts[i := ts[i].(completed := !ts[i].completed)]
  }

  /** Toggling twice restores the store. */
  lemma ToggleTwice(ts: seq<Task>, i: nat)
    requires i < |ts|
    ensures Toggled(Toggled(ts, i), i) == ts
  {
  }
}
