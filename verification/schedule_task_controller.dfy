/**
 The three actions of the client API's schedule-task controller, as pure
 transitions over the task store. A failure carries no new state: the store
 the caller holds is left as it was.
 */
module ScheduleTaskController {
  import opened Wrappers
  import opened TaskStore

  /** Errors the controller raises: the not-found and permission-denied responses. */
  datatype Error = NotFound | Forbidden

  /** The validated request body: `action`, an optional `payload`, `time_offset`. */
  datatype TaskInput = TaskInput(action: string, payload: Option<string>, timeOffset: int)

  /** What the caller receives: the task that was written, or an empty no-content reply. */
  datatype Response = Item(id: TaskId, task: Task) | NoContent

  /** The store after the action together with the response. */
  datatype Transition = Transition(state: State, response: Response)

  /** A missing or null payload is stored as the empty string. */
  function StoredPayload(input: TaskInput): (p: string)
    ensures input.payload.None? ==> p == ""
    ensures input.payload.Some? ==> p == input.payload.value
  {
    input.payload.GetOr("")
  }

  /**
   Creates a task at the end of `schedule`'s chain. Fails with NotFound when
   the schedule is not owned by `server`; otherwise the new task gets the
   next auto-increment id and sequence id "last task's sequence id + 1", or 1
   when the schedule has no task.
   */
  function Store(st: State, server: ServerId, schedule: ScheduleId, input: TaskInput): (r: Result<Transition, Error>)
    requires WellFormed(st)
    ensures r.Failure? <==> !ScheduleOfServer(st, server, schedule)
    ensures r.Failure? ==> r.error == NotFound
    ensures r.Success? ==> r.value.response.Item?
    ensures r.Success? ==>
      var Transition(st', resp) := r.value;
      && resp.id !in st.tasks
      && resp.task.scheduleId == schedule
      && (TasksOf(st, schedule) == [] ==> resp.task.sequenceId == 1)
      && (TasksOf(st, schedule) != [] ==>
            resp.task.sequenceId == st.tasks[TasksOf(st, schedule)[|TasksOf(st, schedule)| - 1]].sequenceId + 1)
      && resp.task.action == input.action
      && resp.task.payload == StoredPayload(input)
      && resp.task.timeOffset == input.timeOffset
    ensures r.Success? ==>
      var Transition(st', resp) := r.value;
      && st'.schedules == st.schedules
      && st'.tasks.Keys == st.tasks.Keys + {resp.id}
      && st'.tasks[resp.id] == resp.task
      && (forall t :: t in st.tasks ==> st'.tasks[t] == st.tasks[t])
      && TasksOf(st', schedule) == TasksOf(st, schedule) + [resp.id]
      && (forall s :: s != schedule ==> TasksOf(st', s) == TasksOf(st, s))
      && WellFormed(st')
  {
    if !ScheduleOfServer(st, server, schedule) then Failure(NotFound)
    else
      var id := st.nextId;
      var task := Task(schedule, LastSequence(st, schedule) + 1, input.action, StoredPayload(input), input.timeOffset);
      var st' := st.(
        tasks := st.tasks[id := task],
        lists := st.lists[schedule := TasksOf(st, schedule) + [id]],
        nextId := id + 1);
      Success(Transition(st', Item(id, task)))
  }

  /**
   Overwrites the action, payload and time offset of `taskId`. Fails with
   NotFound unless the task belongs to `schedule` and the schedule to
   `server`; nothing else in the store changes.
   */
  function Update(st: State, server: ServerId, schedule: ScheduleId, taskId: TaskId, input: TaskInput): (r: Result<Transition, Error>)
    ensures r.Failure? <==> !TaskOfSchedule(st, schedule, taskId) || !ScheduleOfServer(st, server, schedule)
    ensures r.Failure? ==> r.error == NotFound
    ensures r.Success? ==>
      var Transition(st', resp) := r.value;
      && taskId in st.tasks && taskId in st'.tasks
      && resp == Item(taskId, st'.tasks[taskId])
      && resp.task.scheduleId == st.tasks[taskId].scheduleId
      && resp.task.sequenceId == st.tasks[taskId].sequenceId
      && resp.task.action == input.action
      && resp.task.payload == StoredPayload(input)
      && resp.task.timeOffset == input.timeOffset
    ensures r.Success? ==>
      var st' := r.value.state;
      && st'.tasks.Keys == st.tasks.Keys
      && (forall t :: t in st.tasks && t != taskId ==> st'.tasks[t] == st.tasks[t])
      && st'.schedules == st.schedules
      && st'.lists == st.lists
      && st'.nextId == st.nextId
  {
    if schedule !in st.schedules || taskId !in st.tasks then Failure(NotFound)
    else if schedule != st.tasks[taskId].scheduleId || server != st.schedules[schedule] then Failure(NotFound)
    else
      var task := st.tasks[taskId].(action := input.action, payload := StoredPayload(input), timeOffset := input.timeOffset);
      Success(Transition(st.(tasks := st.tasks[taskId := task]), Item(taskId, task)))
  }

  /**
   Deletes `taskId`. The hierarchy is checked first (NotFound), then the
   caller's schedule-update permission (Forbidden); on success exactly that
   task leaves the store and the reply has no content.
   */
  function Delete(st: State, server: ServerId, schedule: ScheduleId, taskId: TaskId, canUpdateSchedule: bool): (r: Result<Transition, Error>)
    ensures !TaskOfSchedule(st, schedule, taskId) || !ScheduleOfServer(st, server, schedule) ==> r == Failure(NotFound)
    ensures TaskOfSchedule(st, schedule, taskId) && ScheduleOfServer(st, server, schedule) && !canUpdateSchedule ==>
      r == Failure(Forbidden)
    ensures r.Success? <==>
      TaskOfSchedule(st, schedule, taskId) && ScheduleOfServer(st, server, schedule) && canUpdateSchedule
    ensures r.Success? ==>
      var Transition(st', resp) := r.value;
      && resp == NoContent
      && st'.tasks.Keys == st.tasks.Keys - {taskId}
      && (forall t :: t in st'.tasks ==> st'.tasks[t] == st.tasks[t])
      && TasksOf(st', schedule) == Without(TasksOf(st, schedule), taskId)
      && (forall s :: s != schedule ==> TasksOf(st', s) == TasksOf(st, s))
      && st'.schedules == st.schedules
      && st'.nextId == st.nextId
  {
    if schedule !in st.schedules || taskId !in st.tasks then Failure(NotFound)
    else if st.tasks[taskId].scheduleId != schedule || st.schedules[schedule] != server then Failure(NotFound)
    else if !canUpdateSchedule then Failure(Forbidden)
    else
      var st' := st.(
        tasks := st.tasks - {taskId},
        lists := st.lists[schedule := Without(TasksOf(st, schedule), taskId)]);
      Success(Transition(st', NoContent))
  }
}
