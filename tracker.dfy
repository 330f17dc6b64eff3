/** The tracker's state and the handlers that change it: the list registry,
    the task store, the alert-dedup set and the alert screen. */
module Tracker {
  import opened Wrappers
  import opened Records
  import Text
  import Palette
  import Monitor

  /** Why a save handler turned a form away (it tells the user in a pop-up). */
  datatype Rejection =
    | MissingTaskNameOrDue     // the task form lacked a name or a due time
    | MissingListNameOrColour  // the list form lacked a name or a selected colour

  /** The tracker's invariant: ids are fresh and distinct, list names are
      non-empty, list colours are distinct palette colours, every task names
      an existing list and carries its non-empty name and due text, creation
      times increase in store order, and only stored tasks have been alerted. */
  ghost predicate Consistent(lists: seq<TaskList>, tasks: seq<Task>, alerted: set<Id>, nextId: nat, nextStamp: nat)
  {
    && (forall i :: 0 <= i < |lists| ==> lists[i].id < nextId && lists[i].name != [])
    && (forall i, j :: 0 <= i < j < |lists| ==> lists[i].id != lists[j].id)
    && Palette.DistinctPaletteColours(lists)
    && (forall i :: 0 <= i < |tasks| ==> TaskFits(tasks[i], lists, nextId, nextStamp))
    && (forall i, j :: 0 <= i < j < |tasks| ==>
          tasks[i].id != tasks[j].id && tasks[i].createdAt < tasks[j].createdAt)
    && alerted <= TaskIds(tasks)
  }

  ghost predicate TaskFits(t: Task, lists: seq<TaskList>, nextId: nat, nextStamp: nat)
  {
    && t.id < nextId
    && t.createdAt < nextStamp
    && t.listId in ListIds(lists)
    && t.name != []
    && t.due != []
  }

  /** Appending a task with the next id and creation time keeps the invariant. */
  lemma AppendTaskConsistent(lists: seq<TaskList>, tasks: seq<Task>, alerted: set<Id>,
                             nextId: nat, nextStamp: nat, t: Task)
    requires Consistent(lists, tasks, alerted, nextId, nextStamp)
    requires t.id == nextId && t.createdAt == nextStamp
    requires t.listId in ListIds(lists) && t.name != [] && t.due != []
    ensures Consistent(lists, tasks + [t], alerted, nextId + 1, nextStamp + 1)
  {
    var ts := tasks + [t];
    TaskIdsGrow(tasks, t);
    forall i | 0 <= i < |ts| ensures TaskFits(ts[i], lists, nextId + 1, nextStamp + 1) {
      if i < |tasks| { assert ts[i] == tasks[i]; }
    }
  }

  /** Appending a list with the next id, a non-empty name and a colour the
      picker offers keeps the invariant. */
  lemma AppendListConsistent(lists: seq<TaskList>, tasks: seq<Task>, alerted: set<Id>,
                             nextId: nat, nextStamp: nat, l: TaskList)
    requires Consistent(lists, tasks, alerted, nextId, nextStamp)
    requires l.id == nextId && l.name != [] && l.color in Palette.AvailableColours(lists)
    ensures Consistent(lists + [l], tasks, alerted, nextId + 1, nextStamp)
  {
    var ls := lists + [l];
    Palette.AddAvailableKeepsDistinct(lists, l);
    ListIdsGrow(lists, l);
    forall i | 0 <= i < |tasks| ensures TaskFits(tasks[i], ls, nextId + 1, nextStamp) {
      assert TaskFits(tasks[i], lists, nextId, nextStamp);
    }
    forall i | 0 <= i < |ls| ensures ls[i].id < nextId + 1 && ls[i].name != [] {
      if i < |lists| { assert ls[i] == lists[i]; }
    }
  }

  /** With no list there can be no task, so the lazy default list alone
      satisfies the invariant. */
  lemma DefaultListConsistent(tasks: seq<Task>, alerted: set<Id>, nextId: nat, nextStamp: nat)
    requires Consistent([], tasks, alerted, nextId, nextStamp)
    ensures Consistent([TaskList(nextId, "Default", Palette.Colours[0])], tasks, alerted, nextId + 1, nextStamp)
  {
    assert ListIds([]) == {};
  }

  /** Flipping one task's completion keeps the invariant. */
  lemma ToggleConsistent(lists: seq<TaskList>, tasks: seq<Task>, alerted: set<Id>,
                         nextId: nat, nextStamp: nat, i: nat)
    requires Consistent(lists, tasks, alerted, nextId, nextStamp)
    requires i < |tasks|
    ensures Consistent(lists, Toggled(tasks, i), alerted, nextId, nextStamp)
  {
    var ts := Toggled(tasks, i);
    forall x | x in TaskIds(tasks) ensures x in TaskIds(ts) {
      var k :| 0 <= k < |tasks| && tasks[k].id == x;
      assert ts[k].id == x;
    }
    forall k | 0 <= k < |ts| ensures TaskFits(ts[k], lists, nextId, nextStamp) {
      assert TaskFits(tasks[k], lists, nextId, nextStamp);
    }
  }

  class TaskTracker {
    var lists: seq<TaskList>
    var tasks: seq<Task>
    /** alertedTaskIds: tasks that have already produced an alert this session. */
    var alerted: set<Id>
    /** Whether the alert screen is shown. */
    var alertVisible: bool
    /** The next identifier genId would hand out. */
    var nextId: nat
    /** The next creation time: a clock reading later than every earlier one. */
    var nextStamp: nat

    ghost predicate Valid()
      reads this
    {
      Consistent(lists, tasks, alerted, nextId, nextStamp)
    }

    /** Start-up: empty state, then the lazy default list is created. */
    constructor ()
      ensures Valid()
      ensures lists == [TaskList(0, "Default", Palette.Colours[0])]
      ensures tasks == [] && alerted == {} && !alertVisible
    {
      lists, tasks, alerted, alertVisible := [], [], {}, false;
      nextId, nextStamp := 0, 0;
      new;
      EnsureDefaultList();
    }

    /** Creates the "Default" list in the first palette colour when there is
        no list; otherwise does nothing, so a second call never adds another. */
    method EnsureDefaultList()
      requires Valid()
      modifies this
      ensures Valid()
      ensures lists != []
      ensures old(lists) == [] ==>
        lists == [TaskList(old(nextId), "Default", Palette.Colours[0])] && nextId == old(nextId) + 1
      ensures old(lists) != [] ==> lists == old(lists) && nextId == old(nextId)
      ensures tasks == old(tasks) && alerted == old(alerted) && alertVisible == old(alertVisible)
      ensures nextStamp == old(nextStamp)
    {
      if |lists| == 0 {
        DefaultListConsistent(tasks, alerted, nextId, nextStamp);
        lists := lists + [TaskList(nextId, "Default", Palette.Colours[0])];
        nextId := nextId + 1;
      }
    }

    /** The save-list handler. `selected` is the swatch the picker has
        selected, if any; the picker only lets an unused colour be selected. */
    method CreateList(nameInput: string, selected: Option<Colour>) returns (r: Result<TaskList, Rejection>)
      requires Valid()
      requires selected.Some? ==> selected.value in Palette.AvailableColours(lists)
      modifies this
      ensures Valid()
      ensures r.Failure? <==> Text.Trim(nameInput) == [] || selected.None?
      ensures r.Failure? ==> r.error == MissingListNameOrColour && lists == old(lists) && nextId == old(nextId)
      ensures r.Success? ==>
        && r.value == TaskList(old(nextId), Text.Trim(nameInput), selected.value)
        && lists == old(lists) + [r.value]
        && nextId == old(nextId) + 1
      ensures tasks == old(tasks) && alerted == old(alerted) && alertVisible == old(alertVisible)
      ensures nextStamp == old(nextStamp)
    {
      var name := Text.Trim(nameInput);
      if name == [] || selected.None? {
        return Failure(MissingListNameOrColour);
      }
      var l := TaskList(nextId, name, selected.value);
      AppendListConsistent(lists, tasks, alerted, nextId, nextStamp, l);
      lists := lists + [l];
      nextId := nextId + 1;
      r := Success(l);
    }

    /** The save-task handler. `dueAt` is what the host's date parser makes
        of `due`; `selected` is the list select box's value (None when empty);
        `now` is the clock reading of the poll the handler runs last. */
    method SaveTask(nameInput: string, due: string, dueAt: Option<int>, reminder: string,
                    selected: Option<Id>, now: int) returns (r: Result<Task, Rejection>)
      requires Valid()
      requires lists != []
      requires selected.Some? ==> selected.value in ListIds(lists)
      modifies this
      ensures Valid()
      ensures r.Failure? <==> Text.Trim(nameInput) == [] || due == []
      ensures r.Failure? ==>
        && r.error == MissingTaskNameOrDue
        && tasks == old(tasks) && alerted == old(alerted) && alertVisible == old(alertVisible)
        && nextId == old(nextId) && nextStamp == old(nextStamp)
      ensures r.Success? ==>
        && r.value == Task(old(nextId), Text.Trim(nameInput), due, dueAt, reminder,
                           if selected.Some? then selected.value else old(lists)[0].id,
                           old(nextStamp), false)
        && tasks == old(tasks) + [r.value]
        && nextId == old(nextId) + 1 && nextStamp == old(nextStamp) + 1
        && PolledFrom(old(alerted), now)
      ensures lists == old(lists)
    {
      var name := Text.Trim(nameInput);
      if name == [] || due == [] {
        return Failure(MissingTaskNameOrDue);
      }
      var listId := if selected.Some? then selected.value else lists[0].id;
      var t := Task(nextId, name, due, dueAt, reminder, listId, nextStamp, false);
      AppendTask(t, now);
      r := Success(t);
    }

    /** Stores a new task at the end of the store, then runs the poll the
        save handler ends with. */
    method AppendTask(t: Task, now: int)
      requires Valid()
      requires t.id == nextId && t.createdAt == nextStamp
      requires t.listId in ListIds(lists) && t.name != [] && t.due != []
      modifies this
      ensures Valid()
      ensures tasks == old(tasks) + [t]
      ensures nextId == old(nextId) + 1 && nextStamp == old(nextStamp) + 1
      ensures PolledFrom(old(alerted), now)
      ensures lists == old(lists)
    {
      AppendTaskConsistent(lists, tasks, alerted, nextId, nextStamp, t);
      tasks, nextId, nextStamp := tasks + [t], nextId + 1, nextStamp + 1;
      var _ := Poll(now);
    }

    /** The state a poll at `now` leaves behind when it started from the dedup
        set `before`: the alert shows exactly when a task was picked, and the
        picked task's id, and nothing else, joins the set. */
    ghost predicate PolledFrom(before: set<Id>, now: int)
      reads this
    {
      var p := Monitor.Pick(tasks, before, now);
      && alertVisible == p.Some?
      && alerted == (if p.Some? then before + {p.value.id} else before)
    }

    /** A click on a task card flips that task's completion. The poll the
        click schedules runs later, as a separate call to Poll. */
    method Toggle(i: nat)
      requires Valid()
      requires i < |tasks|
      modifies this
      ensures Valid()
      ensures tasks == Toggled(old(tasks), i)
      ensures lists == old(lists) && alerted == old(alerted) && alertVisible == old(alertVisible)
      ensures nextId == old(nextId) && nextStamp == old(nextStamp)
    {
      ToggleConsistent(lists, tasks, alerted, nextId, nextStamp, i);
      tasks := tasks[i := tasks[i].(completed := !tasks[i].completed)];
    }

    /** checkDueTasks: shows the first incomplete, due, not yet alerted task
        in store order and records its id; otherwise hides the alert. */
    method Poll(now: int) returns (shown: Option<Task>)
      requires Valid()
      modifies this
      ensures Valid()
      ensures shown == Monitor.Pick(tasks, old(alerted), now)
      ensures PolledFrom(old(alerted), now)
      ensures old(alerted) <= alerted
      ensures lists == old(lists) && tasks == old(tasks)
      ensures nextId == old(nextId) && nextStamp == old(nextStamp)
    {
      var dueTasks := Monitor.DueTasks(tasks, now);
      assert Monitor.Pick(tasks, alerted, now) == Monitor.FindUnalerted(dueTasks, alerted);
      if |dueTasks| == 0 {
        alertVisible := false;
        return None;
      }
      shown := Monitor.FindUnalerted(dueTasks, alerted);
      if shown.None? {
        alertVisible := false;
        return;
      }
      PickedIsStored(tasks, alerted, now);
      alertVisible := true;
      alerted := alerted + {shown.value.id};
    }

    /** The alert's Done button: hides the alert and nothing else. */
    method Acknowledge()
      requires Valid()
      modifies this
      ensures Valid()
      ensures !alertVisible
      ensures lists == old(lists) && tasks == old(tasks) && alerted == old(alerted)
      ensures nextId == old(nextId) && nextStamp == old(nextStamp)
    {
      alertVisible := false;
    }
  }

  /** The picked task is one of the stored tasks, so its id is a task id. */
  lemma PickedIsStored(ts: seq<Task>, alerted: set<Id>, now: int)
    requires Monitor.Pick(ts, alerted, now).Some?
    ensures Monitor.Pick(ts, alerted, now).value.id in TaskIds(ts)
  {
    Monitor.PickIsFirstAlertable(ts, alerted, now);
    var i :| 0 <= i < |ts| && ts[i] == Monitor.Pick(ts, alerted, now).value;
  }

  lemma ListIdsGrow(ls: seq<TaskList>, l: TaskList)
    ensures ListIds(ls + [l]) == ListIds(ls) + {l.id}
  {
    var ls' := ls + [l];
    assert ls'[|ls|] == l;
    forall x | x in ListIds(ls) ensures x in ListIds(ls') {
      var k :| 0 <= k < |ls| && ls[k].id == x;
      assert ls'[k] == ls[k];
    }
  }

  lemma TaskIdsGrow(ts: seq<Task>, t: Task)
    ensures TaskIds(ts + [t]) == TaskIds(ts) + {t.id}
  {
    var ts' := ts + [t];
    assert ts'[|ts|] == t;
    forall x | x in TaskIds(ts) ensures x in TaskIds(ts') {
      var k :| 0 <= k < |ts| && ts[k].id == x;
      assert ts'[k] == ts[k];
    }
  }
}
