/** The due-date monitor's decision: which task, if any, a poll brings up. */
module Monitor {
  import opened Wrappers
  import opened Records

  /** The incomplete tasks due at or before `now`, in store order. */
  function DueTasks(ts: seq<Task>, now: int): (r: seq<Task>)
    ensures forall i :: 0 <= i < |r| ==> IsDue(r[i], now)
    ensures forall t :: t in r <==> t in ts && IsDue(t, now)
  {
    if ts == [] then []
    else (if IsDue(ts[0], now) then [ts[0]] else []) + DueTasks(ts[1..], now)
  }

  /** The first of `ds` whose id is not in the dedup set, if any. */
  function FindUnalerted(ds: seq<Task>, alerted: set<Id>): (r: Option<Task>)
    ensures r.None? <==> forall i :: 0 <= i < |ds| ==> ds[i].id in alerted
    ensures r.Some? ==> r.value in ds && r.value.id !in alerted
  {
    if ds == [] then None
    else if ds[0].id !in alerted then Some(ds[0])
    else FindUnalerted(ds[1..], alerted)
  }

  /** The task a poll at time `now` brings up, or None when it hides the alert. */
  function Pick(ts: seq<Task>, alerted: set<Id>, now: int): (r: Option<Task>)
    ensures r.Some? ==> r.value in ts && Alertable(r.value, alerted, now)
  {
    FindUnalerted(DueTasks(ts, now), alerted)
  }

  /** A task the monitor may still alert: incomplete, due, never alerted. */
  predicate Alertable(t: Task, alerted: set<Id>, now: int)
  {
    IsDue(t, now) && t.id !in alerted
  }

  /** The poll brings up the first alertable task in store (creation) order,
      whatever the due times of later tasks, and nothing when none is alertable. */
  lemma {:induction false} PickIsFirstAlertable(ts: seq<Task>, alerted: set<Id>, now: int)
    ensures Pick(ts, alerted, now).None? <==> forall i :: 0 <= i < |ts| ==> !Alertable(ts[i], alerted, now)
    ensures Pick(ts, alerted, now).Some? ==>
      exists i :: 0 <= i < |ts| && ts[i] == Pick(ts, alerted, now).value && Alertable(ts[i], alerted, now)
        && forall j :: 0 <= j < i ==> !Alertable(ts[j], alerted, now)
  {
    if ts != [] {
      PickIsFirstAlertable(ts[1..], alerted, now);
      var r := Pick(ts, alerted, now);
      PickStep(ts, alerted, now);
      if !Alertable(ts[0], alerted, now) {
        if r.Some? {
          var i :| 0 <= i < |ts[1..]| && ts[1..][i] == r.value && Alertable(ts[1..][i], alerted, now)
            && forall j :: 0 <= j < i ==> !Alertable(ts[1..][j], alerted, now);
          assert ts[i + 1] == r.value;
          forall j | 0 <= j < i + 1 ensures !Alertable(ts[j], alerted, now) {
            if j > 0 { assert ts[j] == ts[1..][j - 1]; }
          }
        } else {
          forall i | 0 <= i < |ts| ensures !Alertable(ts[i], alerted, now) {
            if i > 0 { assert ts[i] == ts[1..][i - 1]; }
          }
        }
      }
    }
  }

  /** One step of the search: the head is picked when alertable, otherwise
      the search goes on in the rest of the store. */
  lemma PickStep(ts: seq<Task>, alerted: set<Id>, now: int)
    requires ts != []
    ensures Pick(ts, alerted, now) ==
      if Alertable(ts[0], alerted, now) then Some(ts[0]) else Pick(ts[1..], alerted, now)
  {
    var d := DueTasks(ts[1..], now);
    if IsDue(ts[0], now) {
      assert DueTasks(ts, now) == [ts[0]] + d;
      assert ([ts[0]] + d)[1..] == d;
    } else {
      assert DueTasks(ts, now) == d;
    }
  }

  /** A task whose id is in the dedup set is never brought up again, at any time. */
  lemma NeverRealerted(ts: seq<Task>, alerted: set<Id>, now: int, t: Task)
    requires t.id in alerted
    ensures Pick(ts, alerted, now) != Some(t)
  {
    PickIsFirstAlertable(ts, alerted, now);
  }

  /** When no incomplete task is due the alert is hidden, whatever the dedup set holds. */
  lemma {:induction false} NothingDueNothingPicked(ts: seq<Task>, alerted: set<Id>, now: int)
    requires forall i :: 0 <= i < |ts| ==> !IsDue(ts[i], now)
    ensures DueTasks(ts, now) == []
    ensures Pick(ts, alerted, now) == None
  {
    if ts != [] {
      NothingDueNothingPicked(ts[1..], alerted, now);
    }
  }
}
