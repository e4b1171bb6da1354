/** The task entity as the home screen reads it, and the six sort orders the user can pick. */
module Tasks {

  /** A time of day as `LocalTime.toSecondOfDay()` reports it: seconds since midnight. */
  type SecondOfDay = s: int | 0 <= s < 86400

  /** The fields of a task that the home screen looks at. `priority` is an integer rank. */
  datatype Task = Task(id: int, startTime: SecondOfDay, priority: int, isCompleted: bool)

  predicate IsDone(t: Task) { t.isCompleted }

  predicate IsPending(t: Task) { !t.isCompleted }

  /** The sort preference held in the application state. */
  datatype SortTask =
    | ByCreateTimeAscending
    | ByCreateTimeDescending
    | ByPriorityAscending
    | ByPriorityDescending
    | ByStartTimeAscending
    | ByStartTimeDescending

  predicate IsDescending(sortBy: SortTask)
  {
    sortBy.ByCreateTimeDescending? || sortBy.ByPriorityDescending? || sortBy.ByStartTimeDescending?
  }

  /** The task field an order compares, whatever its direction: the id (creation order), the
      priority, or the start time's second of the day. */
  function Field(sortBy: SortTask, t: Task): int
  {
    match sortBy
    case ByCreateTimeAscending | ByCreateTimeDescending => t.id
    case ByPriorityAscending | ByPriorityDescending => t.priority
    case ByStartTimeAscending | ByStartTimeDescending => t.startTime
  }

  /** The integer the list is ordered by, one arm per sort order. It is the order's field for
      the ascending orders and its negation for the descending ones; a start-time key stays
      within a day either way. */
  function SortKey(sortBy: SortTask, t: Task): (r: int)
    ensures r == if IsDescending(sortBy) then -Field(sortBy, t) else Field(sortBy, t)
    ensures sortBy.ByStartTimeAscending? || sortBy.ByStartTimeDescending? ==> -86400 < r < 86400
  {
    match sortBy
    case ByCreateTimeAscending => t.id
    case ByCreateTimeDescending => -t.id
    case ByPriorityAscending => t.priority
    case ByPriorityDescending => -t.priority
    case ByStartTimeAscending => t.startTime as int
    case ByStartTimeDescending => -(t.startTime as int)
  }

  /** The key selector handed to `compareBy`. */
  function KeyOf(sortBy: SortTask): (key: Task -> int)
  {
    t => SortKey(sortBy, t)
  }

  /** The same criterion in the other direction: the same field, the negated key. */
  function Opposite(sortBy: SortTask): (r: SortTask)
    ensures IsDescending(r) != IsDescending(sortBy)
    ensures r != sortBy
    ensures forall t :: Field(r, t) == Field(sortBy, t) && SortKey(r, t) == -SortKey(sortBy, t)
  {
    match sortBy
    case ByCreateTimeAscending => ByCreateTimeDescending
    case ByCreateTimeDescending => ByCreateTimeAscending
    case ByPriorityAscending => ByPriorityDescending
    case ByPriorityDescending => ByPriorityAscending
    case ByStartTimeAscending => ByStartTimeDescending
    case ByStartTimeDescending => ByStartTimeAscending
  }

  /** Each descending key is exactly the negation of the matching ascending key. */
  lemma OppositeNegatesKey(sortBy: SortTask, t: Task)
    ensures SortKey(Opposite(sortBy), t) == -SortKey(sortBy, t)
    ensures Opposite(Opposite(sortBy)) == sortBy
  {
  }
}
