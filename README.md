# Snaptick home screen: task summary and ordering

Snaptick is a personal task manager for Android. Its home screen (`HomeScreen.kt`) gets the
day's tasks and the user's sort preference. Before it lays anything out, it does four things:

- It splits the tasks into a completed list and an incomplete list. Each list starts empty and
  is filled by one `filterTo` pass, so each keeps the input order.
- It counts the completed tasks and all tasks for the "completed" card.
- It sums the per-task duration over the incomplete tasks. That total drives the free-time card.
- It sorts the incomplete list with Kotlin's stable `sortedWith(compareBy { key })`. The key is
  `id`, `priority` or the start time's second of the day, negated for the three descending
  orders.

When no incomplete task is left, two things change. Tapping the free-time card shows the
snackbar "Add Tasks to Analyze" instead of opening the free-time screen. The task list is
replaced by the empty view.

The project has three modules:

- `Collections` (`collections.dfy`) models the three Kotlin collection operations involved, over
  sequences. `Filter` and the method `FilterTo` model `filter`/`filterTo`. `SumOf` models
  `sumOf`. `StableSort` models `sortedWith(compareBy(key))` as a stable insertion sort.
- `Tasks` (`tasks.dfy`) holds the task entity, the six `SortTask` orders and the sort key of each.
- `HomeScreen` (`home_screen.dfy`) holds the screen's derivation. The method `Partition` makes
  the two `filterTo` passes. The method `Build` performs one pass of the screen over a snapshot
  of the tasks. The remaining members are lemmas about the results.

The partition is imperative in the source: it appends to two mutable lists. So `FilterTo` is a
method with a loop, proved against `Filter`. The sum and the sort are pure expressions in the
source, so they are functions with lemmas.

Stability is stated per key class. For every key value `k`, the tasks with key `k` appear in
the sorted list in the same order as in the incomplete list. This form also holds when tasks
are duplicated. `StableSortUnique` shows that "sorted by the key" plus "stable" determines the
result completely. So the insertion sort here returns the same list as the merge sort that
Kotlin's library actually runs.

`Task.getDuration(checkPastTask = true)` is not part of this model. Its rule is not visible, so
it enters as a parameter `duration: Task -> int` that the lemmas quantify over; no rule is
invented for it. `LocalTime.toSecondOfDay()` is represented by the second of the day itself,
an integer in `0..86399`.

Three points about the code shape the model:

- The partition is not side-effect free: `filterTo` appends into two fresh `mutableListOf`
  lists. The model gives `FilterTo` a loop that appends one matching element at a time, but
  to a sequence value it returns, not to a shared mutable list.
- The total behind the free-time card is a total *task* duration (`totalTaskTime`). It is
  handed to `getFreeTime`, which turns it into the card's text; `getFreeTime` is not part of
  this model.
- The sort mode is an enum, and the `when` has one arm for each of its six values, so no
  other mode can reach the sort. The model's datatype has the same six values.

## Model

| member | source | states |
|---|---|---|
| Collections.Filter | app/src/main/java/com/vishal2376/snaptick/presentation/home_screen/HomeScreen.kt:100-101 | the defining function of the `filter` predicate passes; it never grows the input, and `FilterMembers`, `FilterConcat`, `FilterCount` and `FilterSplit` state what it keeps |
| Collections.FilterTo | app/src/main/java/com/vishal2376/snaptick/presentation/home_screen/HomeScreen.kt:100-101 | appending pass by pass, the destination ends as its old contents followed by exactly the matching elements of the source, in source order |
| Collections.FilterMembers | app/src/main/java/com/vishal2376/snaptick/presentation/home_screen/HomeScreen.kt:100-101 | a filtered list holds only input elements that satisfy the predicate, and every such input element |
| Collections.FilterConcat | app/src/main/java/com/vishal2376/snaptick/presentation/home_screen/HomeScreen.kt:100-101 | filtering a concatenation is the concatenation of the filtered parts, so the filter keeps input order |
| Collections.FilterCount | app/src/main/java/com/vishal2376/snaptick/presentation/home_screen/HomeScreen.kt:100-101 | each element occurs in the filtered list exactly as often as in the input if it satisfies the predicate, and never otherwise |
| Collections.FilterSplit | app/src/main/java/com/vishal2376/snaptick/presentation/home_screen/HomeScreen.kt:100-101 | filters by a predicate and by its complement together hold every input element exactly once, and their lengths add up to the input length |
| HomeScreen.Partition | app/src/main/java/com/vishal2376/snaptick/presentation/home_screen/HomeScreen.kt:97-101 | two `filterTo` passes into fresh lists give the completed tasks and the incomplete tasks in input order, and together they are the input as a multiset |
| HomeScreen.PartitionExact | app/src/main/java/com/vishal2376/snaptick/presentation/home_screen/HomeScreen.kt:97-101 | the completed list holds each completed task as often as the input does and nothing else; the incomplete list likewise for tasks not completed |
| HomeScreen.PartitionConserves | app/src/main/java/com/vishal2376/snaptick/presentation/home_screen/HomeScreen.kt:100-112 | no task is in both lists, the two sizes add up to the number of tasks, and the completed count never exceeds the total count |
| HomeScreen.PartitionKeepsOrder | app/src/main/java/com/vishal2376/snaptick/presentation/home_screen/HomeScreen.kt:97-101 | splitting the task list anywhere splits both derived lists at the same place, so input order is kept |
| Collections.SumOf | app/src/main/java/com/vishal2376/snaptick/presentation/home_screen/HomeScreen.kt:104 | the defining function of `sumOf`; `SumOfConcat`, `SumOfPermutation` and `SumOfNonNegative` state its properties |
| Collections.SumOfNonNegative | app/src/main/java/com/vishal2376/snaptick/presentation/home_screen/HomeScreen.kt:104 | a sum of non-negative terms is non-negative |
| Collections.SumOfConcat | app/src/main/java/com/vishal2376/snaptick/presentation/home_screen/HomeScreen.kt:104 | the sum over a concatenation is the sum of the two sums |
| Collections.SumOfPermutation | app/src/main/java/com/vishal2376/snaptick/presentation/home_screen/HomeScreen.kt:104 | the sum does not depend on the order of the elements |
| HomeScreen.FreeTimeOfInsertedTask | app/src/main/java/com/vishal2376/snaptick/presentation/home_screen/HomeScreen.kt:104 | inserting a task anywhere raises the total task time by its duration if it is incomplete and leaves the total unchanged if it is completed (read backwards, the same for removing one) |
| HomeScreen.FreeTimeMonotone | app/src/main/java/com/vishal2376/snaptick/presentation/home_screen/HomeScreen.kt:104 | with a non-negative duration, adding a task never lowers the total task time |
| HomeScreen.FreeTimeNonNegative | app/src/main/java/com/vishal2376/snaptick/presentation/home_screen/HomeScreen.kt:104 | with non-negative durations the total task time is never negative |
| HomeScreen.FreeTimeIgnoresOrder | app/src/main/java/com/vishal2376/snaptick/presentation/home_screen/HomeScreen.kt:104 | reordering the tasks leaves the total task time unchanged, and so does summing over the sorted list instead of the incomplete list |
| Collections.Insert | app/src/main/java/com/vishal2376/snaptick/presentation/home_screen/HomeScreen.kt:296 | one insertion step adds exactly the new element (multiset) and one to the length |
| Collections.InsertSorted | app/src/main/java/com/vishal2376/snaptick/presentation/home_screen/HomeScreen.kt:296 | inserting into a list sorted by the key keeps it sorted |
| Collections.StableSort | app/src/main/java/com/vishal2376/snaptick/presentation/home_screen/HomeScreen.kt:296 | the sorted list is a permutation of the input (same multiset, same length) with keys non-decreasing |
| Collections.StableSortIsStable | app/src/main/java/com/vishal2376/snaptick/presentation/home_screen/HomeScreen.kt:296 | for every key value, the elements with that key appear in the output in their input order |
| Collections.StableSortUnique | app/src/main/java/com/vishal2376/snaptick/presentation/home_screen/HomeScreen.kt:296 | any list that is sorted by the key and keeps each key class in input order equals the stable sort's result |
| Collections.NegatedKeyReversesExactly | app/src/main/java/com/vishal2376/snaptick/presentation/home_screen/HomeScreen.kt:298-320 | sorting by the negated key gives exactly the reverse of sorting by the key if and only if every key class reads the same backwards |
| Collections.NegatedKeyReverses | app/src/main/java/com/vishal2376/snaptick/presentation/home_screen/HomeScreen.kt:298-320 | when no two elements share a key, sorting by the negated key gives exactly the reverse of sorting by the key |
| Tasks.SortKey | app/src/main/java/com/vishal2376/snaptick/presentation/home_screen/HomeScreen.kt:297-321 | the key of each of the six `when` arms is the order's field (id, priority or second of day) for an ascending order and its negation for a descending one; a start-time key lies strictly between -86400 and 86400 |
| Tasks.Opposite | app/src/main/java/com/vishal2376/snaptick/presentation/home_screen/HomeScreen.kt:297-321 | each sort order is paired with a different order in the other direction that compares the same field with the negated key |
| Tasks.OppositeNegatesKey | app/src/main/java/com/vishal2376/snaptick/presentation/home_screen/HomeScreen.kt:298-320 | each descending key is exactly the negation of its ascending key (id, priority, second of day), and the pairing is an involution |
| HomeScreen.SortedTasks | app/src/main/java/com/vishal2376/snaptick/presentation/home_screen/HomeScreen.kt:295-323 | the displayed list is a permutation of the incomplete list, with the chosen key non-decreasing from each task to the next |
| HomeScreen.SortedTasksStable | app/src/main/java/com/vishal2376/snaptick/presentation/home_screen/HomeScreen.kt:295-323 | incomplete tasks with equal keys keep their incomplete-list order in the displayed list, in every one of the six orders |
| HomeScreen.SortedTasksUnique | app/src/main/java/com/vishal2376/snaptick/presentation/home_screen/HomeScreen.kt:295-323 | a list that is sorted by the chosen key (neighbour to neighbour) and stable is the displayed list |
| HomeScreen.AdjacentSorted | app/src/main/java/com/vishal2376/snaptick/presentation/home_screen/HomeScreen.kt:295-323 | a key order that holds between neighbours holds between any two positions |
| HomeScreen.DescendingNonIncreasing | app/src/main/java/com/vishal2376/snaptick/presentation/home_screen/HomeScreen.kt:302-320 | in a descending order the displayed list runs from the largest id, priority or start time to the smallest |
| HomeScreen.OppositeReversesWithoutTies | app/src/main/java/com/vishal2376/snaptick/presentation/home_screen/HomeScreen.kt:298-320 | without tied keys, the opposite order shows the exact reverse list |
| HomeScreen.OppositeReversesExactly | app/src/main/java/com/vishal2376/snaptick/presentation/home_screen/HomeScreen.kt:298-320 | the opposite order shows the exact reverse list if and only if every group of incomplete tasks sharing a key reads the same backwards (no ties, or ties such as the same task twice around another) |
| HomeScreen.OppositeNotReversedOnTiedPair | app/src/main/java/com/vishal2376/snaptick/presentation/home_screen/HomeScreen.kt:298-320 | when exactly two different incomplete tasks share a key, both orders keep them in input order, so the opposite order is not the reverse |

| HomeScreen.OnFreeTimeTap | app/src/main/java/com/vishal2376/snaptick/presentation/home_screen/HomeScreen.kt:253-260 | the click shows the snackbar, with the message "Add Tasks to Analyze", exactly when the incomplete list is empty; `FreeTimeTapWhenAllDone` relates this to the task list |
| HomeScreen.FreeTimeTapWhenAllDone | app/src/main/java/com/vishal2376/snaptick/presentation/home_screen/HomeScreen.kt:253-260 | tapping the free-time card shows the snackbar exactly when every task is completed (or there is none), which is when the completed count equals the total; it opens the free-time screen exactly when some task is incomplete |
| HomeScreen.TaskAreaWhenAllDone | app/src/main/java/com/vishal2376/snaptick/presentation/home_screen/HomeScreen.kt:265-296 | the empty view is shown exactly when every task is completed; otherwise the list shown is non-empty and a permutation of the incomplete tasks |
| HomeScreen.TaskAreaFor | app/src/main/java/com/vishal2376/snaptick/presentation/home_screen/HomeScreen.kt:265-296 | the empty view is shown exactly when the incomplete list is empty; otherwise the list shown is non-empty and a permutation of the incomplete list; `TaskAreaWhenAllDone` relates this to the task list |
| HomeScreen.Build | app/src/main/java/com/vishal2376/snaptick/presentation/home_screen/HomeScreen.kt:97-323 | one pass yields the two lists, the total task time over the incomplete tasks, both counts (completed at most total), the free-time tap decision and the empty view or the sorted list |

## Left out

- Compose layout, theming, the top bar, the drawer and its coroutine toggling, and the sort dialog: these are presentation and have no decision logic of their own.
- The slide-in animation (`Animatable`, `tween`, the 600-pixel offsets): float animation state driven by coroutines.
- Both `LaunchedEffect` blocks: the one at lines 107-109 copies the total into the shared application state, which is an external write.
- `remember(inCompletedTasks, appState.sortBy)` at line 295 caches the sorted list between recompositions. A cache does not change the value, so the model recomputes it.
- `Task.getDuration`: its past-task rule is not visible, so it is a parameter of the model. `getFreeTime` and its text formatting are not part of this model either.
- The swipe, edit, complete and pomodoro callbacks (lines 341-357): they only forward an event to external handlers.
- The fields of `Task` that the screen does not read here, such as title and end time.
- Collections.FilterTo: it returns the extended list as a new sequence instead of appending into the caller's `MutableList`; since both lists are fresh locals, no aliasing is lost.
- Collections.SumOf: the total is an unbounded integer. Kotlin's `sumOf` over `Int` wraps around on overflow, and the model does not capture that; `FreeTimeMonotone` and `FreeTimeNonNegative` rely on the absence of wrap-around.
- SortKey: uses unbounded integers. Kotlin's 32-bit `-id` and `-priority` wrap around for `Int.MIN_VALUE`, and the model does not capture that.
- Collections.StableSort: an insertion sort stands in for the library's merge sort. `StableSortUnique` shows that the two give the same list; running time is not modelled.
- Idempotence and determinism need no lemma: every member of the model is a function of its inputs.
