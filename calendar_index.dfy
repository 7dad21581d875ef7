/**
  The calendar index `tasksByDate`: a map from calendar day to the bucket of
  tasks shown on that day, each tagged with its position in the task list.

  `TasksByDate` is the reduce over the task list, `AddTaskOccurrences` its
  per-task body with the day-by-day expansion loop. Both are specified by
  `Bucket`, the list of task references the key's bucket must hold.
*/
module CalendarIndex {
  import opened CivilDates
  import opened Recurrence

  /** A task together with its original list position (`{ ...task, index: i }`). */
  datatype TaskRef = TaskRef(task: Task, index: nat)

  type Index = map<CivilDate, seq<TaskRef>>

  predicate AllValid(tasks: seq<Task>) {
    forall i :: 0 <= i < |tasks| ==> ValidTask(tasks[i])
  }

  /** The bucket of a day as the view reads it: `tasksByDate[key] || []`. */
  function Lookup(index: Index, d: CivilDate): seq<TaskRef> {
    if d in index then index[d] else []
  }

  /** What the bucket of day `d` must hold: the tasks occurring on `d`, in list order. */
  function Bucket(tasks: seq<Task>, d: CivilDate): seq<TaskRef>
    requires AllValid(tasks)
  {
    if tasks == [] then []
    else
      var n := |tasks| - 1;
      Bucket(tasks[..n], d) + (if OccursOn(tasks[n], d) then [TaskRef(tasks[n], n)] else [])
  }

  /** Buckets are created only when something is pushed into them. */
  ghost predicate NoEmptyBuckets(index: Index) {
    forall d :: d in index ==> index[d] != []
  }

  /** `index` is the calendar index of `tasks`. */
  ghost predicate IsIndexOf(index: Index, tasks: seq<Task>)
    requires AllValid(tasks)
  {
    NoEmptyBuckets(index) && forall d :: Lookup(index, d) == Bucket(tasks, d)
  }

  /** Append `r` to the bucket of `key`, creating the bucket if needed. */
  function Push(index: Index, key: CivilDate, r: TaskRef): (result: Index)
    ensures key in result && result[key] != []
    ensures Lookup(result, key) == Lookup(index, key) + [r]
    ensures forall d :: d != key ==> Lookup(result, d) == Lookup(index, d)
    ensures result.Keys == index.Keys + {key}
  {
    index[key := Lookup(index, key) + [r]]
  }

  /**
    The loop invariant of the expansion: `result` is `acc` with `entry` pushed
    onto the bucket of every day of `t` whose day number is below `n`.
  */
  ghost predicate PushedBefore(acc: Index, result: Index, t: Task, entry: TaskRef, n: int)
    requires ValidTask(t)
  {
    forall d :: Lookup(result, d) == Lookup(acc, d) + (if OccursOn(t, d) && DayNumber(d) < n then [entry] else [])
  }

  /** One day of the expansion loop moves the invariant from `current` to the next day. */
  lemma PushedStep(acc: Index, result: Index, t: Task, entry: TaskRef, current: CivilDate)
    requires ValidTask(t) && IsRanged(t) && Valid(current)
    requires DayNumber(t.start) <= DayNumber(current) <= DayNumber(t.endDate.value)
    requires PushedBefore(acc, result, t, entry, DayNumber(current))
    ensures PushedBefore(acc, if ShouldAdd(t, current) then Push(result, current, entry) else result,
                         t, entry, DayNumber(current) + 1)
  {
    LeIffDayNumber(current, t.endDate.value);
    LeIffDayNumber(t.start, current);
    forall d
      ensures Lookup(if ShouldAdd(t, current) then Push(result, current, entry) else result, d)
        == Lookup(acc, d) + (if OccursOn(t, d) && DayNumber(d) < DayNumber(current) + 1 then [entry] else [])
    {
      if d != current && OccursOn(t, d) && DayNumber(d) == DayNumber(current) {
        DayNumberInjective(d, current);
      }
    }
  }

  /** Before the first day of the range, nothing has been pushed. */
  lemma PushedNone(acc: Index, t: Task, entry: TaskRef)
    requires ValidTask(t) && IsRanged(t)
    ensures PushedBefore(acc, acc, t, entry, DayNumber(t.start))
  {
    forall d | OccursOn(t, d)
      ensures DayNumber(t.start) <= DayNumber(d)
    {
      RangedWithinBounds(t, d);
    }
  }

  /** Past the last day of the range, every occurrence has been pushed. */
  lemma PushedAll(acc: Index, result: Index, t: Task, entry: TaskRef, n: int)
    requires ValidTask(t) && IsRanged(t) && DayNumber(t.endDate.value) < n
    requires PushedBefore(acc, result, t, entry, n)
    ensures forall d :: Lookup(result, d) == Lookup(acc, d) + (if OccursOn(t, d) then [entry] else [])
  {
    forall d | OccursOn(t, d)
      ensures DayNumber(d) < n
    {
      RangedWithinBounds(t, d);
    }
  }

  /**
    The reduce body for task `t` at position `i`: adds `TaskRef(t, i)` to the
    bucket of every day on which `t` occurs, and changes nothing else.
  */
  method AddTaskOccurrences(acc: Index, t: Task, i: nat) returns (result: Index)
    requires ValidTask(t) && NoEmptyBuckets(acc)
    ensures NoEmptyBuckets(result)
    ensures forall d ::
              Lookup(result, d) == Lookup(acc, d) + (if OccursOn(t, d) then [TaskRef(t, i)] else [])
  {
    var entry := TaskRef(t, i);
    result := acc;
    if t.frequency == Once {
      result := Push(result, t.start, entry);
      return;
    }
    if t.endDate.None? {
      result := Push(result, t.start, entry);
      return;
    }
    var endDate := t.endDate.value;
    var current := t.start;
    PushedNone(acc, t, entry);
    while Le(current, endDate)
      invariant Valid(current) && DayNumber(t.start) <= DayNumber(current)
      invariant NoEmptyBuckets(result)
      invariant PushedBefore(acc, result, t, entry, DayNumber(current))
      decreases DayNumber(endDate) - DayNumber(current)
    {
      LeIffDayNumber(current, endDate);
      PushedStep(acc, result, t, entry, current);
      if ShouldAdd(t, current) {
        result := Push(result, current, entry);
      }
      NextDayNumber(current);
      current := NextDay(current);
    }
    LeIffDayNumber(current, endDate);
    PushedAll(acc, result, t, entry, DayNumber(current));
  }

  /** `tasksByDate`: the calendar index of the whole task list, rebuilt from scratch. */
  method TasksByDate(tasks: seq<Task>) returns (index: Index)
    requires AllValid(tasks)
    ensures IsIndexOf(index, tasks)
  {
    index := map[];
    for i := 0 to |tasks|
      invariant IsIndexOf(index, tasks[..i])
    {
      assert tasks[..i + 1][..i] == tasks[..i];
      index := AddTaskOccurrences(index, tasks[i], i);
    }
    assert tasks[..|tasks|] == tasks;
  }

  // ---------------------------------------------------------------------
  // Properties of the index
  // ---------------------------------------------------------------------

  /**
    A bucket holds exactly the references `TaskRef(tasks[k], k)` of the tasks
    occurring on its day: every entry carries its task's own list position.
  */
  lemma {:induction false} BucketMembership(tasks: seq<Task>, d: CivilDate, r: TaskRef)
    requires AllValid(tasks)
    ensures r in Bucket(tasks, d) <==>
      r.index < |tasks| && r.task == tasks[r.index] && OccursOn(tasks[r.index], d)
  {
    if tasks != [] {
      var n := |tasks| - 1;
      BucketMembership(tasks[..n], d, r);
      if r.index < n {
        assert tasks[..n][r.index] == tasks[r.index];
      }
    }
  }

  /** Within a bucket, positions strictly increase: list order, and each task at most once. */
  lemma {:induction false} BucketAscending(tasks: seq<Task>, d: CivilDate)
    requires AllValid(tasks)
    ensures forall j, k :: 0 <= j < k < |Bucket(tasks, d)| ==>
      Bucket(tasks, d)[j].index < Bucket(tasks, d)[k].index
  {
    if tasks != [] {
      var n := |tasks| - 1;
      var prefix := Bucket(tasks[..n], d);
      BucketAscending(tasks[..n], d);
      forall j | 0 <= j < |prefix|
        ensures prefix[j].index < n
      {
        BucketMembership(tasks[..n], d, prefix[j]);
      }
    }
  }

  /** The view's link between index and rule: task `i` is in the bucket of `d` iff it occurs on `d`. */
  lemma IndexedIffOccurs(index: Index, tasks: seq<Task>, i: nat, d: CivilDate)
    requires AllValid(tasks) && IsIndexOf(index, tasks) && i < |tasks|
    ensures (d in index && TaskRef(tasks[i], i) in index[d]) <==> OccursOn(tasks[i], d)
  {
    BucketMembership(tasks, d, TaskRef(tasks[i], i));
    assert Lookup(index, d) == Bucket(tasks, d);
  }

  /** Every entry of the index points back at the task at its position, which occurs on that day. */
  lemma IndexEntriesSound(index: Index, tasks: seq<Task>, d: CivilDate, r: TaskRef)
    requires AllValid(tasks) && IsIndexOf(index, tasks)
    requires d in index && r in index[d]
    ensures r.index < |tasks| && r.task == tasks[r.index] && OccursOn(r.task, d)
  {
    BucketMembership(tasks, d, r);
    assert Lookup(index, d) == Bucket(tasks, d);
  }

  /** A one-off task, or a recurring one with no end date, lands in exactly one bucket: its start's. */
  lemma SingleBucket(index: Index, tasks: seq<Task>, i: nat)
    requires AllValid(tasks) && IsIndexOf(index, tasks) && i < |tasks|
    requires tasks[i].frequency == Once || tasks[i].endDate.None?
    ensures forall d :: (d in index && TaskRef(tasks[i], i) in index[d]) <==> d == tasks[i].start
  {
    forall d
      ensures (d in index && TaskRef(tasks[i], i) in index[d]) <==> d == tasks[i].start
    {
      IndexedIffOccurs(index, tasks, i, d);
    }
  }

  /**
    The index is determined by the task list: two indexes of the same list are
    equal bucket for bucket, so rebuilding on an unchanged list changes nothing.
  */
  lemma IndexDeterministic(a: Index, b: Index, tasks: seq<Task>)
    requires AllValid(tasks) && IsIndexOf(a, tasks) && IsIndexOf(b, tasks)
    ensures a == b
  {
    forall d | d in a
      ensures d in b && a[d] == b[d]
    {
      assert Lookup(a, d) == Bucket(tasks, d) == Lookup(b, d);
    }
    forall d | d in b
      ensures d in a
    {
      assert Lookup(a, d) == Bucket(tasks, d) == Lookup(b, d);
    }
  }

  /** Adding a task at the end of the list (`addTask`) appends it to the buckets of its days only. */
  lemma BucketAppend(tasks: seq<Task>, t: Task, d: CivilDate)
    requires AllValid(tasks) && ValidTask(t)
    ensures AllValid(tasks + [t])
    ensures Bucket(tasks + [t], d) ==
      Bucket(tasks, d) + (if OccursOn(t, d) then [TaskRef(t, |tasks|)] else [])
  {
    assert (tasks + [t])[..|tasks|] == tasks;
  }
}
