/**
  Editing the task list: `addTask` and `removeTask`, and how the calendar
  index rebuilt after each edit relates to the one before it.
*/
module TaskList {
  import opened Wrappers
  import opened CivilDates
  import opened Recurrence
  import opened CalendarIndex
  import opened Text

  /**
    `addTask`: a blank text or a missing date adds nothing; otherwise the task
    is appended with its text trimmed, and with its end date kept only when
    the frequency is not `Once`.
  */
  function AddTask(tasks: seq<Task>, input: string, taskDate: Option<CivilDate>,
                   frequency: Frequency, taskEndDate: Option<CivilDate>): (r: seq<Task>)
    ensures AllWhitespace(input) || taskDate.None? ==> r == tasks
    ensures !AllWhitespace(input) && taskDate.Some? ==>
      |r| == |tasks| + 1 && r[..|tasks|] == tasks
      && r[|tasks|].text == Trim(input) && r[|tasks|].text != [] && r[|tasks|].text == Trim(r[|tasks|].text)
      && r[|tasks|].start == taskDate.value && r[|tasks|].frequency == frequency
      && r[|tasks|].endDate == (if frequency == Once then None else taskEndDate)
  {
    TrimEmptyIffBlank(input);
    if Trim(input) == [] || taskDate.None? then tasks
    else
      var text := Trim(input);
      TrimIdempotent(input);
      tasks + [Task(text, taskDate.value, frequency, if frequency != Once then taskEndDate else None)]
  }

  /** `removeTask`: `tasks.filter((_, i) => i !== index)`. */
  function RemoveTask(tasks: seq<Task>, index: int): (r: seq<Task>)
    ensures 0 <= index < |tasks| ==> r == tasks[..index] + tasks[index + 1..]
    ensures !(0 <= index < |tasks|) ==> r == tasks
  {
    if tasks == [] then []
    else (if index == 0 then [] else [tasks[0]]) + RemoveTask(tasks[1..], index - 1)
  }

  /**
    A bucket after removing task `k`: references to `k` are dropped and the
    positions of later tasks move down by one.
  */
  function Reindexed(refs: seq<TaskRef>, k: nat): seq<TaskRef> {
    if refs == [] then []
    else
      var r := refs[0];
      (if r.index == k then [] else [TaskRef(r.task, if r.index > k then r.index - 1 else r.index)])
      + Reindexed(refs[1..], k)
  }

  lemma {:induction false} ReindexedConcat(a: seq<TaskRef>, b: seq<TaskRef>, k: nat)
    ensures Reindexed(a + b, k) == Reindexed(a, k) + Reindexed(b, k)
  {
    if a == [] {
      assert a + b == b;
    } else {
      assert (a + b)[0] == a[0];
      assert (a + b)[1..] == a[1..] + b;
      ReindexedConcat(a[1..], b, k);
    }
  }

  lemma {:induction false} ReindexedBelow(refs: seq<TaskRef>, k: nat)
    requires forall j :: 0 <= j < |refs| ==> refs[j].index < k
    ensures Reindexed(refs, k) == refs
  {
    if refs != [] {
      ReindexedBelow(refs[1..], k);
    }
  }

  /** `removed` is `tasks` without the task at position `k`. */
  predicate IsWithout(tasks: seq<Task>, removed: seq<Task>, k: nat) {
    |removed| + 1 == |tasks| && k < |tasks|
    && forall i {:trigger removed[i]} :: 0 <= i < |removed| ==> removed[i] == if i < k then tasks[i] else tasks[i + 1]
  }

  lemma RemoveTaskIsWithout(tasks: seq<Task>, k: nat)
    requires k < |tasks|
    ensures IsWithout(tasks, RemoveTask(tasks, k), k)
  {
  }

  /** The bucket of the last task, at position `n`, is dropped when `n == k` and moves down one when `k < n`. */
  lemma ReindexedLast(t: Task, n: nat, k: nat, d: CivilDate)
    requires ValidTask(t)
    ensures Reindexed(if OccursOn(t, d) then [TaskRef(t, n)] else [], k) ==
      if n == k || !OccursOn(t, d) then []
      else [TaskRef(t, if n > k then n - 1 else n)]
  {
    if OccursOn(t, d) {
      assert [TaskRef(t, n)][1..] == [];
    }
  }

  /**
    Removing task `k` from the list drops it from every bucket and moves the
    later tasks' positions down by one.
  */
  lemma {:induction false} BucketsWithout(tasks: seq<Task>, removed: seq<Task>, k: nat, d: CivilDate)
    requires AllValid(tasks) && IsWithout(tasks, removed, k)
    ensures AllValid(removed)
    ensures Bucket(removed, d) == Reindexed(Bucket(tasks, d), k)
  {
    var n := |tasks| - 1;
    var prefix := tasks[..n];
    assert AllValid(removed) by {
      forall i | 0 <= i < |removed|
        ensures ValidTask(removed[i])
      {
        assert removed[i] == if i < k then tasks[i] else tasks[i + 1];
      }
    }
    var last := if OccursOn(tasks[n], d) then [TaskRef(tasks[n], n)] else [];
    assert Bucket(tasks, d) == Bucket(prefix, d) + last;
    ReindexedConcat(Bucket(prefix, d), last, k);
    ReindexedLast(tasks[n], n, k, d);
    if k == n {
      assert removed == prefix;
      forall j | 0 <= j < |Bucket(prefix, d)|
        ensures Bucket(prefix, d)[j].index < k
      {
        BucketMembership(prefix, d, Bucket(prefix, d)[j]);
      }
      ReindexedBelow(Bucket(prefix, d), k);
    } else {
      var shorter := removed[..n - 1];
      assert IsWithout(prefix, shorter, k);
      BucketsWithout(prefix, shorter, k, d);
      assert removed[n - 1] == tasks[n];
      assert Bucket(removed, d) == Bucket(shorter, d)
        + (if OccursOn(tasks[n], d) then [TaskRef(tasks[n], n - 1)] else []);
    }
  }

  /**
    After `removeTask(k)` the rebuilt index holds, in every bucket, the old
    bucket without task `k` and with the later tasks' positions shifted down:
    the positions shown in the view keep pointing at the same tasks.
  */
  lemma RemoveTaskBuckets(tasks: seq<Task>, k: nat, d: CivilDate)
    requires AllValid(tasks) && k < |tasks|
    ensures AllValid(RemoveTask(tasks, k))
    ensures Bucket(RemoveTask(tasks, k), d) == Reindexed(Bucket(tasks, d), k)
  {
    RemoveTaskIsWithout(tasks, k);
    BucketsWithout(tasks, RemoveTask(tasks, k), k, d);
  }

  /** The same, stated on two calendar indexes built before and after the removal. */
  lemma RemoveTaskIndex(before: Index, after: Index, tasks: seq<Task>, k: nat)
    requires AllValid(tasks) && k < |tasks|
    requires IsIndexOf(before, tasks)
    requires AllValid(RemoveTask(tasks, k)) && IsIndexOf(after, RemoveTask(tasks, k))
    ensures forall d :: Lookup(after, d) == Reindexed(Lookup(before, d), k)
  {
    forall d
      ensures Lookup(after, d) == Reindexed(Lookup(before, d), k)
    {
      RemoveTaskBuckets(tasks, k, d);
    }
  }

  /** Adding a task leaves every existing bucket as it was, extended by the new task where it occurs. */
  lemma AddTaskIndex(before: Index, after: Index, tasks: seq<Task>, input: string,
                     taskDate: Option<CivilDate>, frequency: Frequency, taskEndDate: Option<CivilDate>)
    requires AllValid(tasks) && IsIndexOf(before, tasks)
    requires taskDate.Some? ==> Valid(taskDate.value)
    requires taskEndDate.Some? ==> Valid(taskEndDate.value)
    requires AllValid(AddTask(tasks, input, taskDate, frequency, taskEndDate))
    requires IsIndexOf(after, AddTask(tasks, input, taskDate, frequency, taskEndDate))
    ensures forall d :: Lookup(before, d) <= Lookup(after, d)
    ensures forall d :: |Lookup(after, d)| <= |Lookup(before, d)| + 1
  {
    var added := AddTask(tasks, input, taskDate, frequency, taskEndDate);
    forall d
      ensures Lookup(before, d) <= Lookup(after, d) && |Lookup(after, d)| <= |Lookup(before, d)| + 1
    {
      if added != tasks {
        BucketAppend(tasks, added[|tasks|], d);
        assert added == tasks + [added[|tasks|]];
      }
    }
  }
}
