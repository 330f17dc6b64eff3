/** The order in which tasks are shown: incomplete tasks first, then completed
    ones, each group sorted by due time with creation time breaking ties. */
module Ordering {
  import opened Records

  /** The display comparator: negative when `a` goes first. Two valid,
      different due times decide by due time. Otherwise the creation times
      decide: a difference involving an invalid date is NaN, and a zero
      difference is 0, and both are falsy, so the comparison falls through. */
  function Compare(a: Task, b: Task): (r: int)
    ensures a.dueAt.Some? && b.dueAt.Some? && a.dueAt != b.dueAt ==>
      r != 0 && (r < 0 <==> a.dueAt.value < b.dueAt.value)
    ensures !(a.dueAt.Some? && b.dueAt.Some? && a.dueAt != b.dueAt) ==>
      (r < 0 <==> a.createdAt < b.createdAt) && (r == 0 <==> a.createdAt == b.createdAt)
  {
    if a.dueAt.Some? && b.dueAt.Some? && a.dueAt.value - b.dueAt.value != 0
    then a.dueAt.value - b.dueAt.value
    else a.createdAt - b.createdAt
  }

  /** The intended order when both dates are valid: by due time, then by creation time. */
  predicate KeyLe(a: Task, b: Task)
    requires a.dueAt.Some? && b.dueAt.Some?
  {
    a.dueAt.value < b.dueAt.value || (a.dueAt.value == b.dueAt.value && a.createdAt <= b.createdAt)
  }

  /** On valid dates the comparator agrees with KeyLe. */
  lemma CompareMeansKeyLe(a: Task, b: Task)
    requires a.dueAt.Some? && b.dueAt.Some?
    ensures Compare(a, b) <= 0 <==> KeyLe(a, b)
    ensures Compare(a, b) > 0 <==> KeyLe(b, a) && !KeyLe(a, b)
  {
  }

  ghost predicate AllDuesParse(ts: seq<Task>)
  {
    forall i :: 0 <= i < |ts| ==> ts[i].dueAt.Some?
  }

  ghost predicate SortedByKey(ts: seq<Task>)
    requires AllDuesParse(ts)
  {
    forall i, j :: 0 <= i < j < |ts| ==> KeyLe(ts[i], ts[j])
  }

  /** The tasks whose completion flag is `done`, in store order. */
  function WithStatus(ts: seq<Task>, done: bool): (r: seq<Task>)
    ensures forall i :: 0 <= i < |r| ==> r[i].completed == done
    ensures forall t :: t in r <==> t in ts && t.completed == done
  {
    if ts == [] then []
    else (if ts[0].completed == done then [ts[0]] else []) + WithStatus(ts[1..], done)
  }

  /** Places `x` before the first element it does not compare greater than,
      so that among equal elements the earlier input stays first. */
  function Insert(x: Task, s: seq<Task>): (r: seq<Task>)
    ensures multiset(r) == multiset(s) + multiset{x}
  {
    if s == [] then [x]
    else if Compare(x, s[0]) <= 0 then [x] + s
    else
      assert s == [s[0]] + s[1..];
      [s[0]] + Insert(x, s[1..])
  }

  /** A stable sort by Compare (the engine's array sort is stable); the
      result is a rearrangement of the input. */
  function Sort(s: seq<Task>): (r: seq<Task>)
    ensures multiset(r) == multiset(s)
    ensures |r| == |s|
  {
    if s == [] then []
    else
      assert s == [s[0]] + s[1..];
      var r := Insert(s[0], Sort(s[1..]));
      assert |multiset(r)| == |multiset(s)|;
      r
  }

  /** The displayed order: the sorted incomplete tasks followed by the sorted
      completed ones. It is a permutation of the store. */
  function Ordered(ts: seq<Task>): (r: seq<Task>)
    ensures multiset(r) == multiset(ts)
    ensures |r| == |ts|
  {
    WithStatusSplits(ts);
    var r := Sort(WithStatus(ts, false)) + Sort(WithStatus(ts, true));
    assert |multiset(r)| == |multiset(ts)|;
    r
  }

  // ---------- Permutation ----------

  lemma {:induction false} WithStatusSplits(ts: seq<Task>)
    ensures multiset(WithStatus(ts, false)) + multiset(WithStatus(ts, true)) == multiset(ts)
  {
    if ts != [] {
      WithStatusSplits(ts[1..]);
      assert ts == [ts[0]] + ts[1..];
    }
  }

  // ---------- Partition ----------

  lemma {:induction false} SortKeepsStatus(s: seq<Task>, done: bool)
    requires forall i :: 0 <= i < |s| ==> s[i].completed == done
    ensures forall i :: 0 <= i < |Sort(s)| ==> Sort(s)[i].completed == done
  {
    forall i | 0 <= i < |Sort(s)| ensures Sort(s)[i].completed == done {
      assert Sort(s)[i] in multiset(Sort(s));
      assert Sort(s)[i] in multiset(s);
    }
  }

  /** The number of incomplete tasks. */
  function Split(ts: seq<Task>): (k: nat)
  {
    |WithStatus(ts, false)|
  }

  /** The first `Split(ts)` displayed tasks are exactly the incomplete ones;
      every incomplete task comes before every completed one. */
  lemma IncompleteBeforeCompleted(ts: seq<Task>)
    ensures Split(ts) <= |Ordered(ts)|
    ensures forall i :: 0 <= i < |Ordered(ts)| ==> (Ordered(ts)[i].completed <==> i >= Split(ts))
    ensures forall i, j :: 0 <= i < j < |Ordered(ts)| && Ordered(ts)[i].completed ==> Ordered(ts)[j].completed
  {
    var a, b := WithStatus(ts, false), WithStatus(ts, true);
    SortKeepsStatus(a, false);
    SortKeepsStatus(b, true);
  }

  // ---------- Sortedness, when every date is valid ----------

  lemma {:induction false} InsertSorted(x: Task, s: seq<Task>)
    requires x.dueAt.Some? && AllDuesParse(s) && SortedByKey(s)
    ensures AllDuesParse(Insert(x, s)) && SortedByKey(Insert(x, s))
  {
    var r := Insert(x, s);
    forall i | 0 <= i < |r| ensures r[i].dueAt.Some? {
      assert r[i] in multiset(r);
    }
    if s != [] {
      if Compare(x, s[0]) <= 0 {
        CompareMeansKeyLe(x, s[0]);
      } else {
        CompareMeansKeyLe(x, s[0]);
        var t := Insert(x, s[1..]);
        InsertSorted(x, s[1..]);
        forall j | 0 <= j < |t| ensures KeyLe(s[0], t[j]) {
          assert t[j] in multiset(t);
          if t[j] != x {
            assert t[j] in multiset(s[1..]);
            var k :| 0 <= k < |s[1..]| && s[1..][k] == t[j];
            assert s[k + 1] == t[j];
          }
        }
      }
    }
  }

  lemma {:induction false} SortSorted(s: seq<Task>)
    requires AllDuesParse(s)
    ensures AllDuesParse(Sort(s)) && SortedByKey(Sort(s))
  {
    if s != [] {
      SortSorted(s[1..]);
      InsertSorted(s[0], Sort(s[1..]));
    }
  }

  lemma {:induction false} WithStatusParses(ts: seq<Task>, done: bool)
    requires AllDuesParse(ts)
    ensures AllDuesParse(WithStatus(ts, done))
  {
    if ts != [] {
      WithStatusParses(ts[1..], done);
    }
  }

  /** With every date valid, each group is in ascending due order, equal due
      times in ascending creation order. */
  lemma GroupsSortedByDue(ts: seq<Task>)
    requires AllDuesParse(ts)
    ensures AllDuesParse(Ordered(ts))
    ensures forall i, j :: 0 <= i < j < |Ordered(ts)| && Ordered(ts)[i].completed == Ordered(ts)[j].completed
              ==> KeyLe(Ordered(ts)[i], Ordered(ts)[j])
  {
    var a, b := WithStatus(ts, false), WithStatus(ts, true);
    WithStatusParses(ts, false);
    WithStatusParses(ts, true);
    SortSorted(a);
    SortSorted(b);
    IncompleteBeforeCompleted(ts);
    var o := Ordered(ts);
    var k := |Sort(a)|;
    assert k == Split(ts);
    forall i, j | 0 <= i < j < |o| && o[i].completed == o[j].completed
      ensures KeyLe(o[i], o[j])
    {
      if j < k {
        assert o[i] == Sort(a)[i] && o[j] == Sort(a)[j];
      } else {
        assert i >= k;
        assert o[i] == Sort(b)[i - k] && o[j] == Sort(b)[j - k];
      }
    }
  }
}
