/**
 Properties of the controller transitions: the sequencing invariant is kept by
 every action, "last + 1" is "maximum + 1" under that invariant, a store is
 undone by deleting what it created, and a run of creates allocates strictly
 increasing sequence ids per schedule.
 */
module Sequencing {
  import opened Wrappers
  import opened TaskStore
  import opened ScheduleTaskController

  /** The empty store satisfies the sequencing invariant. */
  lemma EmptyValid()
    ensures Valid(Empty)
  {
  }

  /** The tail of a sorted list is sorted, and its head is below every stored member of the tail. */
  lemma AscendingSplit(tasks: map<TaskId, Task>, ids: seq<TaskId>)
    requires Ascending(tasks, ids)
    requires |ids| > 0 && ids[0] in tasks
    ensures Ascending(tasks, ids[1..])
    ensures forall y :: y in ids[1..] && y in tasks ==> tasks[ids[0]].sequenceId < tasks[y].sequenceId
  {
  }

  /** A head below every stored member of a sorted list extends it to a sorted list. */
  lemma AscendingCons(tasks: map<TaskId, Task>, a: TaskId, rest: seq<TaskId>)
    requires Ascending(tasks, rest)
    requires a in tasks
    requires forall y :: y in rest && y in tasks ==> tasks[a].sequenceId < tasks[y].sequenceId
    ensures Ascending(tasks, [a] + rest)
  {
  }

  /** Removing an id from a sorted list leaves it sorted. */
  lemma {:induction false} WithoutAscending(tasks: map<TaskId, Task>, ids: seq<TaskId>, x: TaskId)
    requires Ascending(tasks, ids)
    requires forall k :: 0 <= k < |ids| ==> ids[k] in tasks
    ensures Ascending(tasks, Without(ids, x))
  {
    if |ids| > 0 {
      var rest := ids[1..];
      AscendingSplit(tasks, ids);
      WithoutAscending(tasks, rest, x);
      if ids[0] != x {
        AscendingCons(tasks, ids[0], Without(rest, x));
      }
    }
  }

  /** Sortedness only depends on the rows of the listed tasks, so dropping rows keeps it. */
  lemma AscendingSubmap(tasks: map<TaskId, Task>, tasks': map<TaskId, Task>, ids: seq<TaskId>)
    requires forall t :: t in tasks' ==> t in tasks && tasks'[t] == tasks[t]
    requires Ascending(tasks, ids)
    ensures Ascending(tasks', ids)
  {
  }

  /** An id that occurs once, at index `i`, is removed by cutting index `i` out. */
  lemma {:induction false} WithoutSingle(ids: seq<TaskId>, i: nat)
    requires i < |ids|
    requires ids[i] !in ids[..i] && ids[i] !in ids[i + 1..]
    ensures Without(ids, ids[i]) == ids[..i] + ids[i + 1..]
  {
    var x := ids[i];
    if i == 0 {
      assert Without(ids, x) == Without(ids[1..], x);
    } else {
      var rest := ids[1..];
      assert rest[i - 1] == x;
      assert rest[..i - 1] == ids[1..i];
      assert rest[i..] == ids[i + 1..];
      assert x !in rest[..i - 1];
      WithoutSingle(rest, i - 1);
      assert ids[0] != x by { assert ids[0] in ids[..i]; }
      assert ids[..i] == [ids[0]] + rest[..i - 1];
    }
  }

  /** Under the sequencing invariant no two tasks of one schedule share a sequence id. */
  lemma ValidUniqueSequence(st: State, a: TaskId, b: TaskId)
    requires Valid(st)
    requires a in st.tasks && b in st.tasks && a != b
    requires st.tasks[a].scheduleId == st.tasks[b].scheduleId
    ensures st.tasks[a].sequenceId != st.tasks[b].sequenceId
  {
  }

  /** In a sorted list the last element carries the largest sequence id. */
  lemma LastIsMax(st: State, s: ScheduleId)
    requires Valid(st)
    ensures LastSequence(st, s) == MaxSequence(st.tasks, TasksOf(st, s))
  {
  }

  /**
   Under the sequencing invariant the id a store allocates is the maximum
   existing sequence id of the schedule plus one, and exceeds the sequence id
   of every task already in that schedule.
   */
  lemma StoreAllocatesAboveAll(st: State, server: ServerId, schedule: ScheduleId, input: TaskInput)
    requires Valid(st)
    requires Store(st, server, schedule, input).Success?
    ensures var task := Store(st, server, schedule, input).value.response.task;
      && task.sequenceId == MaxSequence(st.tasks, TasksOf(st, schedule)) + 1
      && forall t :: t in st.tasks && st.tasks[t].scheduleId == schedule ==> st.tasks[t].sequenceId < task.sequenceId
  {
  }

  /** Store keeps the sequencing invariant. */
  lemma StorePreservesValid(st: State, server: ServerId, schedule: ScheduleId, input: TaskInput)
    requires Valid(st)
    requires Store(st, server, schedule, input).Success?
    ensures Valid(Store(st, server, schedule, input).value.state)
  {
    var Transition(st', resp) := Store(st, server, schedule, input).value;
    var id, task := resp.id, resp.task;
    StoreAllocatesAboveAll(st, server, schedule, input);
    forall s | s in st'.lists
      ensures Ascending(st'.tasks, st'.lists[s])
    {
      assert st'.lists[s] == TasksOf(st', s);
      if s == schedule {
        var ids := TasksOf(st, schedule);
        var ids' := ids + [id];
        forall i, j | 0 <= i < j < |ids'| && ids'[i] in st'.tasks && ids'[j] in st'.tasks
          ensures st'.tasks[ids'[i]].sequenceId < st'.tasks[ids'[j]].sequenceId
        {
          assert ids'[i] == ids[i] && ids[i] in st.tasks;
          if j < |ids| {
            assert ids'[j] == ids[j];
            assert Ascending(st.tasks, st.lists[s]);
          }
        }
      } else {
        assert TasksOf(st', s) == TasksOf(st, s);
      }
    }
    forall t | t in st'.tasks
      ensures t in TasksOf(st', st'.tasks[t].scheduleId)
    {
      if t != id {
        assert t in TasksOf(st, st.tasks[t].scheduleId);
      } else {
        assert TasksOf(st', schedule)[|TasksOf(st, schedule)|] == id;
      }
    }
  }

  /** Update keeps the sequencing invariant. */
  lemma UpdatePreservesValid(st: State, server: ServerId, schedule: ScheduleId, taskId: TaskId, input: TaskInput)
    requires Valid(st)
    requires Update(st, server, schedule, taskId, input).Success?
    ensures Valid(Update(st, server, schedule, taskId, input).value.state)
  {
    var st' := Update(st, server, schedule, taskId, input).value.state;
    assert forall t :: t in st.tasks ==>
      st'.tasks[t].sequenceId == st.tasks[t].sequenceId && st'.tasks[t].scheduleId == st.tasks[t].scheduleId;
    forall s | s in st'.lists
      ensures Ascending(st'.tasks, st'.lists[s])
    {
      assert Ascending(st.tasks, st.lists[s]);
    }
    forall t | t in st'.tasks
      ensures t in TasksOf(st', st'.tasks[t].scheduleId)
    {
      assert t in TasksOf(st, st.tasks[t].scheduleId);
    }
  }

  /** Delete keeps the sequencing invariant. */
  lemma DeletePreservesValid(st: State, server: ServerId, schedule: ScheduleId, taskId: TaskId, canUpdateSchedule: bool)
    requires Valid(st)
    requires Delete(st, server, schedule, taskId, canUpdateSchedule).Success?
    ensures Valid(Delete(st, server, schedule, taskId, canUpdateSchedule).value.state)
  {
    var st' := Delete(st, server, schedule, taskId, canUpdateSchedule).value.state;
    forall s, k | s in st'.lists && 0 <= k < |st'.lists[s]|
      ensures st'.lists[s][k] in st'.tasks && st'.tasks[st'.lists[s][k]].scheduleId == s
    {
      assert st'.lists[s] == TasksOf(st', s);
      var y := st'.lists[s][k];
      assert y in TasksOf(st, s) && y != taskId by {
        if s == schedule {
          assert y in Without(TasksOf(st, schedule), taskId);
        } else {
          assert y in TasksOf(st, s);
          var k' :| 0 <= k' < |st.lists[s]| && st.lists[s][k'] == y;
          assert st.tasks[y].scheduleId == s;
        }
      }
      var k' :| 0 <= k' < |st.lists[s]| && st.lists[s][k'] == y;
    }
    forall s | s in st'.lists
      ensures Ascending(st'.tasks, st'.lists[s])
    {
      assert st'.lists[s] == TasksOf(st', s);
      var ids := TasksOf(st, s);
      assert Ascending(st.tasks, ids);
      if s == schedule {
        WithoutAscending(st.tasks, ids, taskId);
        AscendingSubmap(st.tasks, st'.tasks, Without(ids, taskId));
      } else {
        AscendingSubmap(st.tasks, st'.tasks, ids);
      }
    }
    forall t | t in st'.tasks
      ensures t in TasksOf(st', st'.tasks[t].scheduleId)
    {
      var s := st.tasks[t].scheduleId;
      assert t in TasksOf(st, s);
      if s == schedule {
        assert t in Without(TasksOf(st, schedule), taskId);
      }
    }
  }

  /**
   On a valid store a successful delete removes exactly one entry from the
   schedule's list, the addressed task's, and keeps the rest in order.
   */
  lemma DeleteRemovesOneEntry(st: State, server: ServerId, schedule: ScheduleId, taskId: TaskId, canUpdateSchedule: bool)
    requires Valid(st)
    requires Delete(st, server, schedule, taskId, canUpdateSchedule).Success?
    ensures var ids := TasksOf(st, schedule);
      exists i :: 0 <= i < |ids| && ids[i] == taskId &&
        Delete(st, server, schedule, taskId, canUpdateSchedule).value.state.lists[schedule] == ids[..i] + ids[i + 1..]
  {
    var st' := Delete(st, server, schedule, taskId, canUpdateSchedule).value.state;
    var ids := TasksOf(st, schedule);
    assert taskId in ids;
    var i :| 0 <= i < |ids| && ids[i] == taskId;
    assert Ascending(st.tasks, ids) by {
      if schedule in st.lists { assert ids == st.lists[schedule]; }
    }
    assert forall j :: 0 <= j < |ids| && j != i ==> ids[j] != ids[i] by {
      forall j | 0 <= j < |ids| && j != i
        ensures ids[j] != ids[i]
      {
        assert ids[j] in st.tasks && ids[i] in st.tasks;
      }
    }
    assert ids[i] !in ids[..i];
    assert ids[i] !in ids[i + 1..];
    WithoutSingle(ids, i);
    assert st'.lists[schedule] == TasksOf(st', schedule);
  }

  /**
   Deleting the task a store just created gives back the original tasks,
   schedules and task lists; only the auto-increment counter has moved on.
   */
  lemma StoreThenDeleteRestores(st: State, server: ServerId, schedule: ScheduleId, input: TaskInput)
    requires WellFormed(st)
    requires Store(st, server, schedule, input).Success?
    ensures var tr := Store(st, server, schedule, input).value;
      var d := Delete(tr.state, server, schedule, tr.response.id, true);
      && d.Success?
      && d.value.state.tasks == st.tasks
      && d.value.state.schedules == st.schedules
      && forall s :: TasksOf(d.value.state, s) == TasksOf(st, s)
  {
    var tr := Store(st, server, schedule, input).value;
    var id := tr.response.id;
    var ids := TasksOf(st, schedule);
    assert TasksOf(tr.state, schedule) == ids + [id];
    assert id !in ids by {
      assert forall k :: 0 <= k < |ids| ==> ids[k] in st.tasks;
    }
    WithoutSingle(ids + [id], |ids|);
    assert (ids + [id])[..|ids|] == ids;
    assert Without(ids + [id], id) == ids;
    var st'' := Delete(tr.state, server, schedule, id, true).value.state;
    assert st''.tasks == st.tasks by {
      assert st''.tasks.Keys == st.tasks.Keys;
    }
    forall s
      ensures TasksOf(st'', s) == TasksOf(st, s)
    {
      if s != schedule {
        assert TasksOf(tr.state, s) == TasksOf(st, s);
      }
    }
  }

  /**
   Sequence ids can be handed out again: after a store and the deletion of
   the task it created, the next store on that schedule receives the same
   sequence id as the deleted task.
   */
  lemma StoreDeleteStoreReuses(st: State, server: ServerId, schedule: ScheduleId, first: TaskInput, second: TaskInput)
    requires Valid(st)
    requires Store(st, server, schedule, first).Success?
    ensures var tr := Store(st, server, schedule, first).value;
      var d := Delete(tr.state, server, schedule, tr.response.id, true);
      && d.Success?
      && WellFormed(d.value.state)
      && Store(d.value.state, server, schedule, second).Success?
      && Store(d.value.state, server, schedule, second).value.response.task.sequenceId == tr.response.task.sequenceId
  {
    var tr := Store(st, server, schedule, first).value;
    StorePreservesValid(st, server, schedule, first);
    StoreThenDeleteRestores(st, server, schedule, first);
    DeletePreservesValid(tr.state, server, schedule, tr.response.id, true);
    var d := Delete(tr.state, server, schedule, tr.response.id, true).value.state;
    assert TasksOf(d, schedule) == TasksOf(st, schedule);
  }

  /** Applying the same update twice leaves the store as applying it once. */
  lemma UpdateIdempotent(st: State, server: ServerId, schedule: ScheduleId, taskId: TaskId, input: TaskInput)
    requires Update(st, server, schedule, taskId, input).Success?
    ensures var once := Update(st, server, schedule, taskId, input).value;
      Update(once.state, server, schedule, taskId, input) == Success(once)
  {
    var once := Update(st, server, schedule, taskId, input).value;
    var task := once.state.tasks[taskId];
    assert once.state.tasks[taskId := task] == once.state.tasks;
  }

  /** One create request: the addressed server and schedule and the request body. */
  datatype Create = Create(server: ServerId, schedule: ScheduleId, input: TaskInput)

  /** A sequence id handed out to a task of `schedule`. */
  datatype Allocation = Allocation(schedule: ScheduleId, sequenceId: nat)

  /**
   Runs `cs` one after another from `st`, skipping the creates that fail, and
   returns the final store with the sequence ids handed out, in order.
   */
  function StoreAll(st: State, cs: seq<Create>): (r: (State, seq<Allocation>))
    requires Valid(st)
    ensures Valid(r.0)
    ensures |r.1| <= |cs|
    decreases |cs|
  {
    if |cs| == 0 then (st, [])
    else
      var c := cs[0];
      match Store(st, c.server, c.schedule, c.input)
      case Failure(_) => StoreAll(st, cs[1..])
      case Success(tr) =>
        StorePreservesValid(st, c.server, c.schedule, c.input);
        var rest := StoreAll(tr.state, cs[1..]);
        (rest.0, [Allocation(c.schedule, tr.response.task.sequenceId)] + rest.1)
  }

  /** Allocations for the same schedule come out in strictly increasing order. */
  predicate IncreasingPerSchedule(allocs: seq<Allocation>)
  {
    forall i, j :: 0 <= i < j < |allocs| && allocs[i].schedule == allocs[j].schedule ==>
      allocs[i].sequenceId < allocs[j].sequenceId
  }

  /** Every allocation exceeds the sequence id of each task its schedule already had. */
  predicate AboveExisting(tasks: map<TaskId, Task>, allocs: seq<Allocation>)
  {
    forall i, t :: 0 <= i < |allocs| && t in tasks && tasks[t].scheduleId == allocs[i].schedule ==>
      tasks[t].sequenceId < allocs[i].sequenceId
  }

  /**
   A new allocation placed before a run of later ones keeps both properties,
   provided the task it created is stored and nothing older was changed.
   */
  lemma PrependAllocation(tasks: map<TaskId, Task>, tasks': map<TaskId, Task>, head: Allocation, rest: seq<Allocation>, id: TaskId)
    requires IncreasingPerSchedule(rest) && AboveExisting(tasks', rest)
    requires id in tasks' && tasks'[id].scheduleId == head.schedule && tasks'[id].sequenceId == head.sequenceId
    requires forall t :: t in tasks ==> t in tasks' && tasks'[t] == tasks[t]
    requires forall t :: t in tasks && tasks[t].scheduleId == head.schedule ==> tasks[t].sequenceId < head.sequenceId
    ensures IncreasingPerSchedule([head] + rest)
    ensures AboveExisting(tasks, [head] + rest)
  {
  }

  /**
   Sequential creates on one schedule receive strictly increasing sequence
   ids, whatever creates on other schedules are interleaved with them, and
   each exceeds every sequence id the schedule held beforehand.
   */
  lemma {:induction false} StoreAllIncreasing(st: State, cs: seq<Create>)
    requires Valid(st)
    ensures IncreasingPerSchedule(StoreAll(st, cs).1)
    ensures AboveExisting(st.tasks, StoreAll(st, cs).1)
    decreases |cs|
  {
    if |cs| > 0 {
      var c := cs[0];
      var created := Store(st, c.server, c.schedule, c.input);
      if created.Failure? {
        assert StoreAll(st, cs) == StoreAll(st, cs[1..]);
        StoreAllIncreasing(st, cs[1..]);
      } else {
        var tr := created.value;
        StorePreservesValid(st, c.server, c.schedule, c.input);
        StoreAllocatesAboveAll(st, c.server, c.schedule, c.input);
        StoreAllIncreasing(tr.state, cs[1..]);
        var head := Allocation(c.schedule, tr.response.task.sequenceId);
        var rest := StoreAll(tr.state, cs[1..]).1;
        assert StoreAll(st, cs).1 == [head] + rest;
        PrependAllocation(st.tasks, tr.state.tasks, head, rest, tr.response.id);
      }
    }
  }
}
