/** Per-list completion percentage, as shown on the progress rings. */
module Progress {
  import opened Records

  /** The tasks that belong to list `listId`, in store order. */
  function TasksOf(ts: seq<Task>, listId: Id): (r: seq<Task>)
    ensures |r| <= |ts|
    ensures forall i :: 0 <= i < |r| ==> r[i].listId == listId
    ensures forall t :: t in r <==> t in ts && t.listId == listId
  {
    if ts == [] then []
    else (if ts[0].listId == listId then [ts[0]] else []) + TasksOf(ts[1..], listId)
  }

  /** How many of `ts` are completed. */
  function DoneCount(ts: seq<Task>): (n: nat)
    ensures n <= |ts|
    ensures n == 0 <==> forall i :: 0 <= i < |ts| ==> !ts[i].completed
    ensures n == |ts| <==> forall i :: 0 <= i < |ts| ==> ts[i].completed
  {
    if ts == [] then 0 else (if ts[0].completed then 1 else 0) + DoneCount(ts[1..])
  }

  /** Math.round(x) for x = 100 * done / total >= 0, rounding halves up,
      computed without floating point. */
  function RoundPercent(done: nat, total: nat): (pct: nat)
    requires 0 < total && done <= total
    ensures pct <= 100
    ensures 2 * total * pct <= 200 * done + total < 2 * total * (pct + 1)
    ensures done == 0 ==> pct == 0
    ensures done == total ==> pct == 100
  {
    RoundingBounds(done, total);
    (200 * done + total) / (2 * total)
  }

  lemma RoundingBounds(done: nat, total: nat)
    requires 0 < total && done <= total
    ensures var q := (200 * done + total) / (2 * total);
      && 0 <= q <= 100
      && 2 * total * q <= 200 * done + total < 2 * total * (q + 1)
      && (done == 0 ==> q == 0)
      && (done == total ==> q == 100)
  {
    var n, m := 200 * done + total, 2 * total;
    DivBounds(n, m);
    var q := n / m;
    assert n < m * 101;
    MulCancel(m, q, 101);
    if done == 0 {
      assert m * q < m * 1;
      MulCancel(m, q, 1);
    }
    if done == total {
      assert m * 99 < m * (q + 1);
      MulCancel(m, 99, q + 1);
    }
  }

  lemma DivBounds(n: nat, m: nat)
    requires m > 0
    ensures m * (n / m) <= n < m * (n / m + 1)
  {
  }

  lemma MulCancel(a: int, x: int, y: int)
    requires a > 0 && a * x < a * y
    ensures x < y
  {
  }

  /** The percentage of a list's tasks that are completed; 0 for a list without tasks. */
  function Percent(ts: seq<Task>, listId: Id): (pct: nat)
    ensures pct <= 100
    ensures DoneCount(TasksOf(ts, listId)) == 0 ==> pct == 0
    ensures 0 < |TasksOf(ts, listId)| == DoneCount(TasksOf(ts, listId)) ==> pct == 100
    ensures var n, d := |TasksOf(ts, listId)|, DoneCount(TasksOf(ts, listId));
      n > 0 ==> 2 * n * pct <= 200 * d + n < 2 * n * (pct + 1)
  {
    var listTasks := TasksOf(ts, listId);
    var n, done := |listTasks|, DoneCount(listTasks);
    if n > 0 then
      var p := RoundPercent(done, n);
      assert 2 * n * p <= 200 * done + n < 2 * n * (p + 1);
      p
    else 0
  }

  /** More completed tasks in a list of the same size never lower its percentage. */
  lemma RoundPercentMonotonic(d1: nat, d2: nat, total: nat)
    requires 0 < total && d1 <= d2 <= total
    ensures RoundPercent(d1, total) <= RoundPercent(d2, total)
  {
    var p1, p2 := RoundPercent(d1, total), RoundPercent(d2, total);
    assert 2 * total * p1 < 2 * total * (p2 + 1);
    MulCancel(2 * total, p1, p2 + 1);
  }

  /** Toggling a task leaves every list's task count alone, moves its own
      list's done count by one in the direction of the flip, and leaves the
      other lists' done counts alone. */
  lemma {:induction false} ToggleCounts(ts: seq<Task>, i: nat, listId: Id)
    requires i < |ts|
    ensures |TasksOf(Toggled(ts, i), listId)| == |TasksOf(ts, listId)|
    ensures DoneCount(TasksOf(Toggled(ts, i), listId)) ==
      if ts[i].listId != listId then DoneCount(TasksOf(ts, listId))
      else if ts[i].completed then DoneCount(TasksOf(ts, listId)) - 1
      else DoneCount(TasksOf(ts, listId)) + 1
  {
    var r := Toggled(ts, i);
    if i == 0 {
      assert r[1..] == ts[1..];
      CountsOfCons(ts, listId);
      CountsOfCons(r, listId);
    } else {
      ToggleCounts(ts[1..], i - 1, listId);
      assert r[1..] == Toggled(ts[1..], i - 1);
      CountsOfCons(ts, listId);
      CountsOfCons(r, listId);
    }
  }

  lemma CountsOfCons(ts: seq<Task>, listId: Id)
    requires ts != []
    ensures |TasksOf(ts, listId)| == (if ts[0].listId == listId then 1 else 0) + |TasksOf(ts[1..], listId)|
    ensures DoneCount(TasksOf(ts, listId)) ==
      (if ts[0].listId == listId && ts[0].completed then 1 else 0) + DoneCount(TasksOf(ts[1..], listId))
  {
    var t := if ts[0].listId == listId then [ts[0]] else [];
    DoneCountAppend(t, TasksOf(ts[1..], listId));
  }

  lemma {:induction false} DoneCountAppend(a: seq<Task>, b: seq<Task>)
    ensures DoneCount(a + b) == DoneCount(a) + DoneCount(b)
  {
    if a != [] {
      DoneCountAppend(a[1..], b);
      assert (a + b)[0] == a[0];
      assert (a + b)[1..] == a[1..] + b;
    } else {
      assert a + b == b;
    }
  }

  /** Completing a task never lowers any list's percentage, and leaves the
      percentage of every other list unchanged. */
  lemma CompletingRaisesPercent(ts: seq<Task>, i: nat, listId: Id)
    requires i < |ts| && !ts[i].completed
    ensures Percent(ts, listId) <= Percent(Toggled(ts, i), listId)
    ensures ts[i].listId != listId ==> Percent(Toggled(ts, i), listId) == Percent(ts, listId)
  {
    ToggleCounts(ts, i, listId);
    var total := |TasksOf(ts, listId)|;
    if total > 0 {
      RoundPercentMonotonic(DoneCount(TasksOf(ts, listId)), DoneCount(TasksOf(Toggled(ts, i), listId)), total);
    }
  }
}
