# Schedule tasks: sequencing and hierarchy checks

This project models the client API's schedule-task controller of the panel
(`ScheduleTaskController`). The controller creates, updates and deletes the
tasks of a server's schedule. Each task carries a `sequence_id` that fixes
its place in the schedule's chain. Update and delete first check both links:
the task belongs to the addressed schedule, and the schedule belongs to the
addressed server. Create checks only the schedule-to-server link.

The model is functional. The task store is an immutable value (`TaskStore.State`):
- a map from each schedule to the server that owns it;
- a map from each task id to its row `{schedule_id, sequence_id, action, payload, time_offset}`;
- for each schedule, the ordered list its `tasks` relation returns;
- the table's next auto-increment id.

The three actions are pure functions returning
`Result<Transition, Error>`, with `Error` either `NotFound` or `Forbidden`.
A failure carries no new store, so a failed action leaves the store as it was.

Files:
- `wrappers.dfy`: `Option` and `Result`.
- `task_store.dfy`: the store, its well-formedness conditions and the sequencing invariant `Valid`. Sorting each schedule's list by sequence id is part of `Valid`.
- `schedule_task_controller.dfy`: `Store`, `Update` and `Delete`.
- `sequencing.dfy`: the lemmas relating the actions to each other and to the invariant.
- `scenarios.dfy`: a concrete schedule run through all three actions.

The code takes the sequence id of the **last** task of the relation, not the
maximum. The controller does not show in which order the relation returns
tasks. The model keeps each schedule's list in a given order; a new task is
placed at the end of its schedule's list (see "## Left out"). The model never
assumes a list is sorted. Sortedness by sequence id is the invariant `Valid`,
and all three actions are proved to preserve it. Only under `Valid` does
"last + 1" equal "maximum + 1" and exceed every existing sequence id.

The code gives a new task the schedule's largest sequence id plus one only
while the relation lists the tasks in sequence-id order (`Valid`,
`Sequencing.StoreAllocatesAboveAll`). While that holds, no two tasks of a
schedule share a sequence id (`Sequencing.ValidUniqueSequence`). The code
does not stop a deleted task's sequence id, or a lower one, from being handed
out again:
- The next sequence id is the last listed task's id plus one. After a delete, the next create gets the new last task's id plus one. So an id can come back, and not only the deleted one: in a sorted schedule holding sequence ids 1 and 3, deleting 3 and then creating gives 2 (`Scenarios.GappedReuse`).
- In the narrow case of a create followed by deleting the task it made, the next create gets the deleted task's sequence id again (`Sequencing.StoreDeleteStoreReuses`, `Scenarios.SampleReuse`).

`time_offset` is stored as the request supplies it, so it is an unconstrained
integer here, not a non-negative one.

## Model

| member | source | states |
|---|---|---|
| ScheduleTaskController.StoredPayload | app/Http/Controllers/Api/Client/Servers/ScheduleTaskController.php:61 | a missing or null payload is stored as the empty string; a present payload is stored as given |
| ScheduleTaskController.Store | app/Http/Controllers/Api/Client/Servers/ScheduleTaskController.php:48-63 | fails with NotFound exactly when the schedule is not owned by the server. On success (reading the last listed task's sequence id through `TaskStore.LastSequence`, which stands for `$schedule->tasks->last()` and `?? 0`) the new task has a fresh id and belongs to the addressed schedule. Its sequence id is the last listed task's plus one, or 1 for an empty schedule. It stores the request's action, payload (null as "") and time offset. The task is appended to that schedule's list. No other task, list or schedule changes |
| ScheduleTaskController.Update | app/Http/Controllers/Api/Client/Servers/ScheduleTaskController.php:82-92 | fails with NotFound exactly when the task is not in the schedule or the schedule is not the server's, even if the task exists elsewhere. On success only the task's action, payload (null as "") and time offset change. Its sequence id and schedule id, all other tasks, the lists and the schedules are untouched. The response is the task as stored afterwards |
| ScheduleTaskController.Delete | app/Http/Controllers/Api/Client/Servers/ScheduleTaskController.php:108-120 | a hierarchy mismatch gives NotFound whatever the permission flag. A valid hierarchy without the schedule-update permission gives Forbidden. Success happens exactly when both hold. On success only the addressed task leaves the store and its schedule's list. Every other task keeps its row, including its sequence id, so nothing is renumbered. The reply is NoContent |
| Sequencing.LastIsMax | app/Http/Controllers/Api/Client/Servers/ScheduleTaskController.php:54 | under the sorted-list invariant, the last listed task's sequence id is the schedule's maximum sequence id |
| Sequencing.StoreAllocatesAboveAll | app/Http/Controllers/Api/Client/Servers/ScheduleTaskController.php:54-59 | under the invariant, the sequence id a store allocates is the schedule's maximum plus one. It is strictly greater than that of every task already in the schedule |
| Sequencing.ValidUniqueSequence | app/Http/Controllers/Api/Client/Servers/ScheduleTaskController.php:54-59 | under the invariant that the allocation keeps, two distinct tasks of the same schedule never share a sequence id |
| Sequencing.StorePreservesValid | app/Http/Controllers/Api/Client/Servers/ScheduleTaskController.php:54-63 | a successful store keeps the invariant: lists sorted by sequence id, every task listed under its own schedule, positive sequence ids |
| Sequencing.UpdatePreservesValid | app/Http/Controllers/Api/Client/Servers/ScheduleTaskController.php:88-92 | a successful update keeps the invariant |
| Sequencing.DeletePreservesValid | app/Http/Controllers/Api/Client/Servers/ScheduleTaskController.php:118 | a successful delete keeps the invariant, because removing an entry from a sorted list leaves it sorted |
| Sequencing.DeleteRemovesOneEntry | app/Http/Controllers/Api/Client/Servers/ScheduleTaskController.php:118 | on a valid store a successful delete removes exactly one list entry, the addressed task's, and keeps the others in order |
| Sequencing.StoreThenDeleteRestores | app/Http/Controllers/Api/Client/Servers/ScheduleTaskController.php:57-63 | deleting the task a store just created restores the original tasks, schedules and lists; only the auto-increment counter has moved |
| Sequencing.StoreDeleteStoreReuses | app/Http/Controllers/Api/Client/Servers/ScheduleTaskController.php:54-59 | after a store and the deletion of the task it created, the next store on that schedule receives the same sequence id again |
| Sequencing.UpdateIdempotent | app/Http/Controllers/Api/Client/Servers/ScheduleTaskController.php:88-92 | repeating an update with the same input changes nothing further and returns the same task |
| Sequencing.StoreAll | app/Http/Controllers/Api/Client/Servers/ScheduleTaskController.php:48-63 | running a series of creates one after another from a valid store ends in a valid store |
| Sequencing.StoreAllIncreasing | app/Http/Controllers/Api/Client/Servers/ScheduleTaskController.php:54-59 | in a series of creates, those on one schedule get strictly increasing sequence ids, whatever creates on other schedules come between them. Each id exceeds every sequence id the schedule held before the series |
| Scenarios.SampleRequests | app/Http/Controllers/Api/Client/Servers/ScheduleTaskController.php:48-120 | on a schedule of server 7 holding sequence ids 1 and 2: a create gets sequence id 3 and payload "". A delete without permission is Forbidden. A delete or update addressed through server 9 is NotFound |
| Scenarios.GappedReuse | app/Http/Controllers/Api/Client/Servers/ScheduleTaskController.php:54-59 | on a schedule holding sequence ids 1 and 3 (valid by `Scenarios.GappedValid`), deleting the task with sequence id 3 and creating a new task gives sequence id 2, the remaining last task's plus one |
| Scenarios.SampleReuse | app/Http/Controllers/Api/Client/Servers/ScheduleTaskController.php:54-59 | on the same schedule, deleting the task with sequence id 2 and creating a new task gives the new task sequence id 2 again |

## Left out

- Serialising a task through the task transformer, and building the JSON or no-content HTTP response. A success returns the task row (`Item`) or `NoContent`.
- Validation of the request body and the data-validation exception path. The validation rules are not part of this model. `action` is an arbitrary string and `time_offset` an arbitrary integer.
- The permission lookup `can(schedule.update, server)`. It is an opaque boolean input to `Delete`.
- Route-model binding. The server, schedule and task arrive as resolved ids. A schedule or task id absent from the store is reported as NotFound, which stands for the framework's 404. The server is only an id and is not looked up.
- Repository internals and the store-side defaults that `refresh()` would read back. The repository is the map in `State`, and new ids come from its auto-increment counter.
- Concurrency. Two creates racing on the same schedule can read the same last task, because the code takes no lock. The model is sequential, and `StoreAllIncreasing` covers only creates applied one after another.
- PHP's strict comparison `!==` between ids. It is modelled as inequality of natural numbers, so a difference in type between equal ids is not modelled.
- ScheduleTaskController.Store: assumes a new task comes last in its schedule's `tasks` relation, that is, the relation is ordered by insertion (id) or by sequence id. The controller does not show the order. Keeping `Valid`, and so `StorePreservesValid`, `StoreAllocatesAboveAll` in chained use and `StoreAllIncreasing`, depends on this assumption.
- ScheduleTaskController.Store: ids and sequence ids are unbounded naturals. PHP integers are 64-bit and become floats past `PHP_INT_MAX`, and the database columns have a fixed width, so a create at the column maximum fails in the real system. The model does not represent that failure.
