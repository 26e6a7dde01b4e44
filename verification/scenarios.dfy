/**
 A worked scenario: schedule 1, owned by server 7, holding tasks 10 and 11
 with sequence ids 1 and 2.
 */
module Scenarios {
  import opened Wrappers
  import opened TaskStore
  import opened ScheduleTaskController

  const Sample: State := State(
    map[1 := 7],
    map[10 := Task(1, 1, "command", "say hi", 0), 11 := Task(1, 2, "power", "restart", 60)],
    map[1 := [10, 11]],
    12)

  /** The sample store satisfies the sequencing invariant. */
  lemma SampleValid()
    ensures Valid(Sample)
  {
  }

  /**
   Creating a task through server 7 gives it sequence id 3; deleting task 10
   without the schedule-update permission is Forbidden; deleting task 11
   through server 9, which does not own the schedule, is NotFound even with
   the permission, and so is updating it through server 9.
   */
  lemma SampleRequests()
    ensures var r := Store(Sample, 7, 1, TaskInput("command", None, 30));
      && r.Success?
      && r.value.response == Item(12, Task(1, 3, "command", "", 30))
    ensures Delete(Sample, 7, 1, 10, false) == Failure(Forbidden)
    ensures Delete(Sample, 9, 1, 11, true) == Failure(NotFound)
    ensures Update(Sample, 9, 1, 11, TaskInput("power", None, 5)) == Failure(NotFound)
  {
  }

  /**
   In the sample (sequence ids 1 and 2), deleting task 11 and creating a new
   task hands out sequence id 2 again.
   */
  lemma SampleReuse()
    ensures var d := Delete(Sample, 7, 1, 11, true);
      && d.Success?
      && WellFormed(d.value.state)
      && Store(d.value.state, 7, 1, TaskInput("command", None, 0)).Success?
      && Store(d.value.state, 7, 1, TaskInput("command", None, 0)).value.response.task.sequenceId == 2
  {
  }

  /** Schedule 1 of server 7 holding sequence ids 1 and 3, the gap left by a deleted task 2. */
  const Gapped: State := State(
    map[1 := 7],
    map[10 := Task(1, 1, "command", "say hi", 0), 12 := Task(1, 3, "power", "restart", 60)],
    map[1 := [10, 12]],
    13)

  /** The gapped store satisfies the sequencing invariant. */
  lemma GappedValid()
    ensures Valid(Gapped)
  {
    assert TasksOf(Gapped, 1) == [10, 12];
  }

  /**
   Deleting the task with sequence id 3 and creating a new one gives the new
   task sequence id 2: the id handed out is the new last one's plus one, not
   the deleted task's.
   */
  lemma GappedReuse()
    ensures var d := Delete(Gapped, 7, 1, 12, true);
      && d.Success?
      && WellFormed(d.value.state)
      && Store(d.value.state, 7, 1, TaskInput("command", None, 0)).Success?
      && Store(d.value.state, 7, 1, TaskInput("command", None, 0)).value.response.task.sequenceId == 2
  {
    assert TasksOf(Gapped, 1) == [10, 12];
    assert Without([10, 12], 12) == [10] by {
      assert Without([12], 12) == Without([], 12);
    }
    var d := Delete(Gapped, 7, 1, 12, true);
    assert TasksOf(d.value.state, 1) == [10];
  }
}
