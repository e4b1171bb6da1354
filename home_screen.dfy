/** What the home screen derives from the day's task list before drawing it: the completed and
    incomplete lists, the two counts, the total remaining duration behind the free-time card,
    the list in the chosen sort order, and the two decisions taken when nothing is left to do. */
module HomeScreen {
  import opened Collections
  import opened Tasks

  /** What tapping the free-time card does. */
  datatype FreeTimeTap = ShowSnackbar(message: string) | OpenFreeTimeInfo

  /** What the lower part of the screen shows. */
  datatype TaskArea = EmptyTaskView | TaskList(sortedTasks: seq<Task>)

  /** Everything the screen derives from one snapshot of the task list. */
  datatype HomeScreenState = HomeScreenState(
    completedTasks: seq<Task>,
    inCompletedTasks: seq<Task>,
    totalTaskTime: int,
    totalTasks: nat,
    totalCompletedTasks: nat,
    freeTimeTap: FreeTimeTap,
    taskArea: TaskArea)

  const NoTasksMessage: string := "Add Tasks to Analyze"

  /** Splits the list as the screen does: two fresh lists, each filled by one `filterTo` pass. */
  method Partition(tasks: seq<Task>) returns (completed: seq<Task>, inCompleted: seq<Task>)
    ensures completed == Filter(tasks, IsDone)
    ensures inCompleted == Filter(tasks, IsPending)
    ensures multiset(completed) + multiset(inCompleted) == multiset(tasks)
  {
    completed := [];
    inCompleted := [];
    completed := FilterTo(tasks, completed, IsDone);
    inCompleted := FilterTo(tasks, inCompleted, IsPending);
    FilterSplit(tasks, IsDone, IsPending);
  }

  /** `sortedWith(compareBy { key })` on the incomplete list, with the key the preference picks. */
  function SortedTasks(inCompleted: seq<Task>, sortBy: SortTask): (r: seq<Task>)
    ensures multiset(r) == multiset(inCompleted)
    ensures |r| == |inCompleted|
    ensures forall i :: 0 <= i < |r| - 1 ==> SortKey(sortBy, r[i]) <= SortKey(sortBy, r[i + 1])
  {
    var r := StableSort(inCompleted, KeyOf(sortBy));
    assert SortedBy(r, KeyOf(sortBy));
    r
  }

  /** The free-time card's click handler: a snackbar when nothing is left to do, the free-time
      screen otherwise. */
  function OnFreeTimeTap(inCompleted: seq<Task>): (r: FreeTimeTap)
    ensures r.ShowSnackbar? <==> |inCompleted| == 0
    ensures r.ShowSnackbar? ==> r.message == NoTasksMessage
  {
    if |inCompleted| == 0 then ShowSnackbar(NoTasksMessage) else OpenFreeTimeInfo
  }

  /** The lower part of the screen: the empty view when nothing is left to do, otherwise the
      incomplete tasks in the chosen order. */
  function TaskAreaFor(inCompleted: seq<Task>, sortBy: SortTask): (r: TaskArea)
    ensures r.EmptyTaskView? <==> |inCompleted| == 0
    ensures r.TaskList? ==> |r.sortedTasks| > 0 && multiset(r.sortedTasks) == multiset(inCompleted)
  {
    if |inCompleted| == 0 then EmptyTaskView else TaskList(SortedTasks(inCompleted, sortBy))
  }

  /** One pass of the screen over a snapshot of `tasks`. `duration` stands for
      `Task.getDuration(checkPastTask = true)`, whose rule is not part of this model. */
  method Build(tasks: seq<Task>, sortBy: SortTask, duration: Task -> int) returns (state: HomeScreenState)
    ensures state.completedTasks == Filter(tasks, IsDone)
    ensures state.inCompletedTasks == Filter(tasks, IsPending)
    ensures state.totalTaskTime == SumOf(state.inCompletedTasks, duration)
    ensures state.totalTasks == |tasks| && state.totalCompletedTasks == |state.completedTasks|
    ensures state.totalCompletedTasks <= state.totalTasks
    ensures state.freeTimeTap == OnFreeTimeTap(state.inCompletedTasks)
    ensures state.taskArea == TaskAreaFor(state.inCompletedTasks, sortBy)
  {
    var completed, inCompleted := Partition(tasks);
    var totalTaskTime := SumOf(inCompleted, duration);
    state := HomeScreenState(completed, inCompleted, totalTaskTime, |tasks|, |completed|,
                             OnFreeTimeTap(inCompleted), TaskAreaFor(inCompleted, sortBy));
  }

  // ---------------------------------------------------------------------------------------
  // The partition

  /** The completed list holds every completed task of the input, as many times as the input
      does, and nothing else; the incomplete list likewise for the tasks not completed. */
  lemma PartitionExact(tasks: seq<Task>, t: Task)
    ensures multiset(Filter(tasks, IsDone))[t] == if t.isCompleted then multiset(tasks)[t] else 0
    ensures multiset(Filter(tasks, IsPending))[t] == if t.isCompleted then 0 else multiset(tasks)[t]
  {
    FilterCount(tasks, IsDone, t);
    FilterCount(tasks, IsPending, t);
  }

  /** Nothing is in both lists, nothing is lost, so the completed count never exceeds the total. */
  lemma PartitionConserves(tasks: seq<Task>)
    ensures forall i, j :: 0 <= i < |Filter(tasks, IsDone)| && 0 <= j < |Filter(tasks, IsPending)|
              ==> Filter(tasks, IsDone)[i] != Filter(tasks, IsPending)[j]
    ensures |Filter(tasks, IsDone)| + |Filter(tasks, IsPending)| == |tasks|
    ensures |Filter(tasks, IsDone)| <= |tasks|
  {
    FilterSplit(tasks, IsDone, IsPending);
    FilterMembers(tasks, IsDone);
    FilterMembers(tasks, IsPending);
  }

  /** Each list keeps the input order: splitting the input anywhere splits each list at the
      same place. */
  lemma PartitionKeepsOrder(front: seq<Task>, back: seq<Task>)
    ensures Filter(front + back, IsDone) == Filter(front, IsDone) + Filter(back, IsDone)
    ensures Filter(front + back, IsPending) == Filter(front, IsPending) + Filter(back, IsPending)
  {
    FilterConcat(front, back, IsDone);
    FilterConcat(front, back, IsPending);
  }

  // ---------------------------------------------------------------------------------------
  // The free-time total

  /** Adding a task anywhere in the list raises the total by its duration when it is not
      completed and leaves it unchanged when it is; removing one does the reverse. */
  lemma FreeTimeOfInsertedTask(before: seq<Task>, after: seq<Task>, t: Task, duration: Task -> int)
    ensures SumOf(Filter(before + [t] + after, IsPending), duration)
         == SumOf(Filter(before + after, IsPending), duration) + (if t.isCompleted then 0 else duration(t))
  {
    var fb, ft, fa := Filter(before, IsPending), Filter([t], IsPending), Filter(after, IsPending);
    assert Filter(before + [t] + after, IsPending) == fb + ft + fa by {
      FilterConcat(before + [t], after, IsPending);
      FilterConcat(before, [t], IsPending);
    }
    assert Filter(before + after, IsPending) == fb + fa by {
      FilterConcat(before, after, IsPending);
    }
    assert SumOf(ft, duration) == if t.isCompleted then 0 else duration(t) by {
      FilterOne(t, IsPending);
    }
    SumOfConcat(fb + ft, fa, duration);
    SumOfConcat(fb, ft, duration);
    SumOfConcat(fb, fa, duration);
  }

  /** With non-negative durations, adding a task never lowers the total. */
  lemma FreeTimeMonotone(before: seq<Task>, after: seq<Task>, t: Task, duration: Task -> int)
    requires duration(t) >= 0
    ensures SumOf(Filter(before + [t] + after, IsPending), duration)
         >= SumOf(Filter(before + after, IsPending), duration)
  {
    FreeTimeOfInsertedTask(before, after, t, duration);
  }

  /** With non-negative durations the total is never negative. */
  lemma FreeTimeNonNegative(tasks: seq<Task>, duration: Task -> int)
    requires forall t :: duration(t) >= 0
    ensures SumOf(Filter(tasks, IsPending), duration) >= 0
  {
    SumOfNonNegative(Filter(tasks, IsPending), duration);
  }

  /** The total depends only on which tasks there are, not on their order, and sorting the
      incomplete list for display leaves it unchanged. */
  lemma FreeTimeIgnoresOrder(tasks: seq<Task>, reordered: seq<Task>, sortBy: SortTask, duration: Task -> int)
    requires multiset(reordered) == multiset(tasks)
    ensures SumOf(Filter(reordered, IsPending), duration) == SumOf(Filter(tasks, IsPending), duration)
    ensures SumOf(SortedTasks(Filter(tasks, IsPending), sortBy), duration) == SumOf(Filter(tasks, IsPending), duration)
  {
    forall t ensures multiset(Filter(reordered, IsPending))[t] == multiset(Filter(tasks, IsPending))[t] {
      FilterCount(reordered, IsPending, t);
      FilterCount(tasks, IsPending, t);
    }
    assert multiset(Filter(reordered, IsPending)) == multiset(Filter(tasks, IsPending));
    SumOfPermutation(Filter(reordered, IsPending), Filter(tasks, IsPending), duration);
    SumOfPermutation(SortedTasks(Filter(tasks, IsPending), sortBy), Filter(tasks, IsPending), duration);
  }

  // ---------------------------------------------------------------------------------------
  // The sort

  /** Stability: the tasks sharing a key appear in the sorted list in their incomplete-list order. */
  lemma SortedTasksStable(inCompleted: seq<Task>, sortBy: SortTask, k: int)
    ensures Filter(SortedTasks(inCompleted, sortBy), HasKey(KeyOf(sortBy), k))
         == Filter(inCompleted, HasKey(KeyOf(sortBy), k))
  {
    StableSortIsStable(inCompleted, KeyOf(sortBy), k);
  }

  /** Sorted by key and stable pins the order down: it is the only such ordering. */
  lemma SortedTasksUnique(inCompleted: seq<Task>, sortBy: SortTask, r: seq<Task>)
    requires forall i :: 0 <= i < |r| - 1 ==> SortKey(sortBy, r[i]) <= SortKey(sortBy, r[i + 1])
    requires forall k :: Filter(r, HasKey(KeyOf(sortBy), k)) == Filter(inCompleted, HasKey(KeyOf(sortBy), k))
    ensures r == SortedTasks(inCompleted, sortBy)
  {
    AdjacentSorted(r, sortBy);
    StableSortUnique(inCompleted, r, KeyOf(sortBy));
  }

  /** Keys that never drop between neighbours never drop at all. */
  lemma AdjacentSorted(r: seq<Task>, sortBy: SortTask)
    requires forall i :: 0 <= i < |r| - 1 ==> SortKey(sortBy, r[i]) <= SortKey(sortBy, r[i + 1])
    ensures SortedBy(r, KeyOf(sortBy))
  {
    forall i, j | 0 <= i < j < |r| ensures SortKey(sortBy, r[i]) <= SortKey(sortBy, r[j]) {
      var m := i;
      while m < j
        invariant i <= m <= j
        invariant SortKey(sortBy, r[i]) <= SortKey(sortBy, r[m])
      {
        m := m + 1;
      }
    }
  }

  /** In a descending order the list runs from the largest ascending key to the smallest. */
  lemma DescendingNonIncreasing(inCompleted: seq<Task>, sortBy: SortTask)
    requires IsDescending(sortBy)
    ensures var r := SortedTasks(inCompleted, sortBy);
      forall i :: 0 <= i < |r| - 1 ==> SortKey(Opposite(sortBy), r[i]) >= SortKey(Opposite(sortBy), r[i + 1])
  {
    var r := SortedTasks(inCompleted, sortBy);
    forall i | 0 <= i < |r| - 1 ensures SortKey(Opposite(sortBy), r[i]) >= SortKey(Opposite(sortBy), r[i + 1]) {
      OppositeNegatesKey(sortBy, r[i]);
      OppositeNegatesKey(sortBy, r[i + 1]);
    }
  }

  /** The opposite order shows the exact reverse list precisely when every group of incomplete
      tasks sharing a key reads the same backwards. */
  lemma OppositeReversesExactly(inCompleted: seq<Task>, sortBy: SortTask)
    ensures SortedTasks(inCompleted, Opposite(sortBy)) == Reverse(SortedTasks(inCompleted, sortBy))
        <==> KeyClassesSymmetric(inCompleted, KeyOf(sortBy))
  {
    NegatedKeyReversesExactly(inCompleted, KeyOf(sortBy), KeyOf(Opposite(sortBy)));
  }

  /** When no two incomplete tasks share the key, the opposite order is the exact reverse. */
  lemma OppositeReversesWithoutTies(inCompleted: seq<Task>, sortBy: SortTask)
    requires forall k :: |Filter(inCompleted, HasKey(KeyOf(sortBy), k))| <= 1
    ensures SortedTasks(inCompleted, Opposite(sortBy)) == Reverse(SortedTasks(inCompleted, sortBy))
  {
    NegatedKeyReverses(inCompleted, KeyOf(sortBy), KeyOf(Opposite(sortBy)));
  }

  /** Two different incomplete tasks that are the only ones sharing a key keep their relative
      order in both directions, so the opposite order is then not the reverse. */
  lemma OppositeNotReversedOnTiedPair(inCompleted: seq<Task>, sortBy: SortTask, k: int)
    requires |Filter(inCompleted, HasKey(KeyOf(sortBy), k))| == 2
    requires Filter(inCompleted, HasKey(KeyOf(sortBy), k))[0] != Filter(inCompleted, HasKey(KeyOf(sortBy), k))[1]
    ensures SortedTasks(inCompleted, Opposite(sortBy)) != Reverse(SortedTasks(inCompleted, sortBy))
  {
    TiedPairAsymmetric(inCompleted, KeyOf(sortBy), k);
    OppositeReversesExactly(inCompleted, sortBy);
  }

  // ---------------------------------------------------------------------------------------
  // Nothing left to do

  /** The free-time card shows the snackbar, and never opens the free-time screen, exactly when
      every task is completed (or there are none), which is also when the completed count
      equals the total. */
  lemma FreeTimeTapWhenAllDone(tasks: seq<Task>)
    ensures OnFreeTimeTap(Filter(tasks, IsPending)) == ShowSnackbar(NoTasksMessage)
        <==> forall i :: 0 <= i < |tasks| ==> tasks[i].isCompleted
    ensures OnFreeTimeTap(Filter(tasks, IsPending)) == OpenFreeTimeInfo
        <==> exists i :: 0 <= i < |tasks| && !tasks[i].isCompleted
    ensures OnFreeTimeTap(Filter(tasks, IsPending)) == ShowSnackbar(NoTasksMessage)
        <==> |Filter(tasks, IsDone)| == |tasks|
  {
    FilterSplit(tasks, IsDone, IsPending);
    FilterMembers(tasks, IsPending);
    if |Filter(tasks, IsPending)| > 0 {
      assert Filter(tasks, IsPending)[0] in tasks;
    }
  }

  /** The empty view replaces the list exactly when every task is completed; otherwise the list
      shown is the non-empty sorted incomplete list. */
  lemma TaskAreaWhenAllDone(tasks: seq<Task>, sortBy: SortTask)
    ensures TaskAreaFor(Filter(tasks, IsPending), sortBy) == EmptyTaskView
        <==> forall i :: 0 <= i < |tasks| ==> tasks[i].isCompleted
    ensures TaskAreaFor(Filter(tasks, IsPending), sortBy).TaskList? ==>
        var shown := TaskAreaFor(Filter(tasks, IsPending), sortBy).sortedTasks;
        |shown| > 0 && multiset(shown) == multiset(Filter(tasks, IsPending))
  {
    FilterMembers(tasks, IsPending);
    if |Filter(tasks, IsPending)| > 0 {
      assert Filter(tasks, IsPending)[0] in tasks;
    }
  }
}
