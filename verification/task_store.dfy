/**
 The task store: schedules, the tasks that belong to them, and the ordered
 task list each schedule exposes through its `tasks` relation. The store is a
 plain value; the controller operations are pure transitions over it.
 */
module TaskStore {

  type ServerId = nat
  type ScheduleId = nat
  type TaskId = nat

  /** One row of the tasks table. */
  datatype Task = Task(
    scheduleId: ScheduleId,
    sequenceId: nat,
    action: string,
    payload: string,
    timeOffset: int)

  /**
   The persisted state.
   - `schedules` maps each schedule to the server that owns it;
   - `tasks` maps each task id to its row;
   - `lists` gives each schedule's `tasks` relation in the order it is
     returned (a schedule without an entry has no tasks);
   - `nextId` is the next id the table's auto-increment will hand out.
   */
  datatype State = State(
    schedules: map<ScheduleId, ServerId>,
    tasks: map<TaskId, Task>,
    lists: map<ScheduleId, seq<TaskId>>,
    nextId: TaskId)

  /** The store with no schedules and no tasks. */
  const Empty: State := State(map[], map[], map[], 0)

  /** The ordered task list of schedule `s`. */
  function TasksOf(st: State, s: ScheduleId): seq<TaskId>
  {
    if s in st.lists then st.lists[s] else []
  }

  /** Every listed task exists and belongs to the schedule that lists it. */
  predicate Listed(st: State)
  {
    forall s, k :: s in st.lists && 0 <= k < |st.lists[s]| ==>
      st.lists[s][k] in st.tasks && st.tasks[st.lists[s][k]].scheduleId == s
  }

  /** The structural facts the controller relies on when it reads the store. */
  predicate WellFormed(st: State)
  {
    && Listed(st)
    && (forall t :: t in st.tasks ==> t < st.nextId)
  }

  /** Along `ids`, the stored tasks have strictly increasing sequence ids. */
  predicate Ascending(tasks: map<TaskId, Task>, ids: seq<TaskId>)
  {
    forall i, j :: 0 <= i < j < |ids| && ids[i] in tasks && ids[j] in tasks ==>
      tasks[ids[i]].sequenceId < tasks[ids[j]].sequenceId
  }

  /**
   The sequencing invariant: the store is well formed, every task appears in
   its own schedule's list, every list is sorted ascending by sequence id, and
   sequence ids are positive.
   */
  predicate Valid(st: State)
  {
    && WellFormed(st)
    && (forall t :: t in st.tasks ==> t in TasksOf(st, st.tasks[t].scheduleId))
    && (forall s :: s in st.lists ==> Ascending(st.tasks, st.lists[s]))
    && (forall t :: t in st.tasks ==> st.tasks[t].sequenceId >= 1)
  }

  /** `s` exists and is owned by `server`. */
  predicate ScheduleOfServer(st: State, server: ServerId, s: ScheduleId)
  {
    s in st.schedules && st.schedules[s] == server
  }

  /** `t` exists and belongs to schedule `s`. */
  predicate TaskOfSchedule(st: State, s: ScheduleId, t: TaskId)
  {
    t in st.tasks && st.tasks[t].scheduleId == s
  }

  /** The sequence id of the last task in `s`'s list, or 0 when it is empty. */
  function LastSequence(st: State, s: ScheduleId): (n: nat)
    requires Listed(st)
    ensures TasksOf(st, s) == [] ==> n == 0
    ensures TasksOf(st, s) != [] ==> n == st.tasks[TasksOf(st, s)[|TasksOf(st, s)| - 1]].sequenceId
  {
    var ids := TasksOf(st, s);
    if |ids| == 0 then 0 else st.tasks[ids[|ids| - 1]].sequenceId
  }

  /** `ids` with every occurrence of `x` removed, the rest kept in order. */
  function Without(ids: seq<TaskId>, x: TaskId): (r: seq<TaskId>)
    ensures forall y :: y in r <==> y in ids && y != x
    ensures x !in ids ==> r == ids
    ensures |r| <= |ids|
  {
    if |ids| == 0 then []
    else if ids[0] == x then Without(ids[1..], x)
    else [ids[0]] + Without(ids[1..], x)
  }

  /**
   The largest sequence id among the listed tasks, or 0 for an empty list.
   Applied to a schedule's list, it is the schedule's largest sequence id.
   */
  function MaxSequence(tasks: map<TaskId, Task>, ids: seq<TaskId>): (m: nat)
    requires forall k :: 0 <= k < |ids| ==> ids[k] in tasks
    ensures forall k :: 0 <= k < |ids| ==> tasks[ids[k]].sequenceId <= m
    ensures |ids| == 0 ==> m == 0
    ensures |ids| > 0 ==> exists k :: 0 <= k < |ids| && tasks[ids[k]].sequenceId == m
  {
    if |ids| == 0 then 0
    else
      var rest := MaxSequence(tasks, ids[1..]);
      var head := tasks[ids[0]].sequenceId;
      if head >= rest then head else rest
  }
}
