# Delayed-task engine: a Dafny model

This project models the in-memory core of a small C scheduler for delayed
callbacks. A caller registers a callback with an argument and a delay in
milliseconds. Later it polls, and once the delay has passed it gets the task
back to invoke. The core has three parts that share state:

- **The id allocator** (`handle_id.dfy`). It is a fixed array of slots, each
  holding an id, a free flag and a link. The free slots form a LIFO singly
  linked list, which is built lazily on the first call. `get_id` pops the head
  of the list and `free_id` pushes onto it. Links are slot indices, `None`
  plays NULL, and a flag records whether the list has been built.
- **The ordered task store** (`task_state.dfy`, `sort_tasks.dfy`). It is the
  task array and its live-prefix counter. The intended order is descending by
  delay, so the least delay sits at index `count - 1`. The order is restored
  by a prefix sort, specified by its postcondition: the prefix is a
  permutation of its old contents, it is non-increasing, and the suffix is
  untouched.
- **The three operations**:
  - register (`register_task.dfy`);
  - reschedule (`change_task_delay.dfy`);
  - poll-due (`get_callback.dfy`).

  `scenarios.dfy` holds properties of call sequences.

Each operation is a pure function from the old state to a new state and a
result. Every error path of the program is a `Failure` value carrying the
program's error code. The clock is an input of type `Option<Timespec>`, where
`None` stands for a failed `timespec_get`. The callback is an opaque handle.
The capacity (`MAX_TASK_QUANTITY`, 50 in the shipped build and 3 in the test
harness) is the length of the arrays. It can be any value from 1 to 65535.

The engine invariant is `TaskState.Consistent`, stated for a state together
with its free list. It states that:
- the live tasks hold distinct ids, and each of those ids is marked allocated;
- the free list is acyclic, and covers exactly the free slots;
- the free list has exactly as many entries as there are unused array slots.

Register, reschedule and poll all preserve it.

Sortedness of the live prefix is **not** an invariant of the program, although
`get_callback` expects the array to be sorted descending by delay (the note
in its header comment, `task/get_callback.c:26-27`) and relies on it by
looking only at the last live task. The re-sort after register
(`task/model/handle_register_task.c:145-148`) and after reschedule
(`task/handle_change_task_delay.c:118-124, 139-146`) is conditional, and the
model proves both sides of that:
- `RegisterSortsWhenTriggered`, `RegisterKeepsOrder`,
  `ChangeSortsWhenTriggered` and `ChangeKeepsOrder` give the cases in which
  order is kept;
- `SmallDelayLeavesArrayUnsorted` and `LoweredDelayLeavesArrayUnsorted` give
  the cases in which it is lost.

The other quirks are also kept as the code has them:
- register returns the slot index rather than the allocated id
  (`task/model/handle_register_task.c:133-134`);
- reschedule refuses any id that is not below the task count, even one held
  by a live task (`task/handle_change_task_delay.c:88-92`);
- the elapsed time is reduced modulo 2^16 (`task/get_callback.c:130-131`).

`Scenarios.ConcreteRun` exhibits the first two on one run. The order of the
checks is also the code's:
- register checks capacity before it reads the clock
  (`task/model/handle_register_task.c:76-99`);
- nothing after a successful `get_id` can fail, so no failure path leaves an
  id allocated (`task/model/handle_register_task.c:114-137`);
- poll examines only the tail task (`task/get_callback.c:103`).

## Model

| member | source | states |
|---|---|---|
| HandleId.InitIdStorage | task/utilities/handle_id.c:53-80 | The list is built only on the first call; a built allocator is returned unchanged. After building, slot i holds id i and is free, links to i+1, the last slot links to nothing, and the head is slot 0. |
| HandleId.InitIdStorageLoop | task/utilities/handle_id.c:53-80 | The loop over all but the last slot, followed by the separate write of the last slot, yields exactly the built allocator. |
| HandleId.GetId | task/utilities/handle_id.c:136-153 | With an empty list: NO_FREE_ID and nothing changes. Otherwise it returns the head slot's id, marks that slot allocated, moves the head to its link, and leaves every other slot unchanged. |
| HandleId.FreeId | task/utilities/handle_id.c:208-238 | An id not below the capacity gives UNKNOWN_ID and nothing changes. Freeing a free slot succeeds and changes nothing. Freeing an allocated slot makes it the head, linked to the old head, and leaves all other slots unchanged. |
| HandleId.InitBuildsFullFreeList | task/utilities/handle_id.c:53-80 | The freshly built list is 0, 1, …, n-1: it is acyclic and covers every slot. |
| HandleId.GetIdPops | task/utilities/handle_id.c:141-152 | Relative to the free list l: empty l gives NO_FREE_ID; otherwise the result is l[0] and the remaining list is l[1..], with ids still equal to slot indices. |
| HandleId.PopKeepsFreeList | task/utilities/handle_id.c:147-149 | Unlinking the head of a well-formed list leaves a well-formed list of the remaining slots. |
| HandleId.FreeIdPushes | task/utilities/handle_id.c:223-232 | Freeing always succeeds for an in-range id. A free id leaves the allocator as it was. An allocated id yields the list [id] + l. |
| HandleId.InitEstablishesAllocInv | task/utilities/handle_id.c:53-80 | Any reachable allocator, once built, satisfies the list invariant. |
| HandleId.GetIdPreservesValid | task/utilities/handle_id.c:136-153 | get_id keeps the invariant, and the id it hands out was free before the call and is allocated after it, so it never hands out an allocated id. |
| HandleId.FreeIdPreservesValid | task/utilities/handle_id.c:208-238 | free_id keeps the invariant, and the freed in-range id is marked free afterwards. |
| HandleId.FreeThenGetReusesId | task/tests/handle_id.test.c:81-112 | LIFO: after freeing an allocated id, the next get_id returns that id and restores the previous head and free flags. |
| HandleId.DoubleFreeIsIdempotent | task/utilities/handle_id.c:223-227 | Freeing the same id twice has the same effect as freeing it once. |
| HandleId.GetIdOnPopped | task/utilities/handle_id.c:136-153 | On a fresh allocator from which k ids have been taken, get_id returns k, or NO_FREE_ID once all n have been taken. |
| HandleId.GetIdTimesFromPopped | task/tests/handle_id.test.c:22-79 | m further calls after k return k, k+1, …, k+m-1 in order. |
| HandleId.FreshAllocatorHandsOutInOrder | task/tests/handle_id.test.c:22-79 | On a fresh allocator the first n calls return 0, 1, …, n-1, and call n+1 returns NO_FREE_ID. |
| TaskSort.CompareByDelay | task/sort_tasks_descending_by_delay_func.c:22-33 | The comparator is positive exactly when a's delay is smaller, zero exactly on equal delays, and negative exactly when a's delay is larger, so larger delays come first. |
| TaskSort.InsertByDelay | task/sort_tasks_descending_by_delay_func.c:106 | Inserting into a sorted sequence keeps it sorted and adds exactly the one task. This is part of the stand-in for qsort. |
| TaskSort.SortByDelay | task/sort_tasks_descending_by_delay_func.c:106 | The result is a permutation of the input in non-increasing delay order. It stands in for qsort. |
| TaskSort.SortTasksDescendingByDelay | task/sort_tasks_descending_by_delay_func.c:99-107 | After clamping the count k to the array size: the first k elements are a permutation of their old contents in non-increasing delay order, and the elements from k on are untouched. |
| TaskSort.OversizedCountIsClamped | task/sort_tasks_descending_by_delay_func.c:102-104 | A count above the array size sorts exactly the whole array. |
| TaskSort.DocumentedExample | task/sort_tasks_descending_by_delay_func.c:54-96 | Any result meeting the sort's postcondition turns delays 400, 960, 1400 with ids 0, 2, 1 into 1400, 960, 400 with ids 1, 2, 0. |
| TaskState.FreshIsConsistent | task/global_variables.c:8-17 | The zeroed globals at program start (no tasks, list not yet built) satisfy the engine invariant, with the free list 0, 1, …, n-1. |
| RegisterTask.HandleRegisterTask | task/model/handle_register_task.c:73-151 | Full array: ARRAY_OF_TASKS_FULL and no change. Clock failure: TIMESPEC_GET_ERROR and no change. GET_ID_ERROR exactly when get_id fails. Success exactly when all three checks pass; then it returns the old count (the slot index, not the id), the count grows by one, the allocator is get_id's result, and the array is the appended one, prefix-sorted when the re-sort test holds. |
| RegisterTask.Append | task/model/handle_register_task.c:129-148 | Storing the new task at the old count and incrementing it: the count grows by one, the allocator given is installed, and the array is either the old one with the slot written or, when the re-sort test holds, a prefix sort of it over the new count. |
| RegisterTask.RegisterAddsTask | task/model/handle_register_task.c:102-137 | On success the live tasks are the old ones plus exactly one new record. It carries the given callback, argument and delay, the sampled time, and the id get_id returned. |
| RegisterTask.RegisterFailureAllocatesNothing | task/model/handle_register_task.c:76-124 | A failed registration leaves the array, the count and the allocator's slots and head as they were. |
| RegisterTask.WillResortIsSortAfterRegister | task/model/handle_register_task.c:145-146 | The re-sort test read on the state before the append (at least one live task, delay above the threshold and above the last live task's) holds exactly when the code's test on the appended array and incremented count holds. |
| RegisterTask.RegisterSortsWhenTriggered | task/model/handle_register_task.c:145-148 | When the new count exceeds one, the delay exceeds the sort threshold and it exceeds its predecessor's, the re-sort runs and the whole live prefix ends sorted. |
| RegisterTask.RegisterKeepsOrder | task/model/handle_register_task.c:139-148 | A sorted live prefix extended by a delay no larger than its predecessor's stays sorted, because only the appended slot changes. |
| RegisterTask.RegisterPreservesConsistency | task/model/handle_register_task.c:76-137 | The engine invariant is kept. On success the id taken is the head of the free list and the list loses exactly that entry; on failure the list is unchanged. GET_ID_ERROR cannot occur. Below capacity with a working clock the call succeeds and returns the old count. |
| ChangeTaskDelay.ScanFrom | task/handle_change_task_delay.c:107-151 | A found slot is live and holds the id. Not finding it means no slot scanned from either end holds the id. |
| ChangeTaskDelay.BidirectionalFindIsSearch | task/handle_change_task_delay.c:107-151 | The two-ended scan finds a slot exactly when the front-to-back search does. When live ids are distinct, it finds the same slot. |
| ChangeTaskDelay.FindTaskIndex | task/handle_change_task_delay.c:107-151 | The loop returns what the two-ended scan specifies. |
| ChangeTaskDelay.HandleChangeTaskDelay | task/handle_change_task_delay.c:74-157 | No tasks: ARRAY_OF_TASKS_EMPTY. An id not below the count: TASK_ID_IS_NOT_DETERMINED, whatever the clock. Clock failure: TIMESPEC_GET_ERROR. Every failure leaves the state unchanged. Success exactly when a live task holds the id; then that slot gets the new delay and time, and the array is prefix-sorted only if the slot is not first and now outranks its predecessor. The count and allocator never change. |
| ChangeTaskDelay.ChangeReschedulesTask | task/handle_change_task_delay.c:106-134 | On success the live tasks are the old ones with exactly one task holding the id replaced by the same task with the new delay and the sampled time. |
| ChangeTaskDelay.ChangeSortsWhenTriggered | task/handle_change_task_delay.c:114-146 | A delay raised above the predecessor's, at a slot other than the first, triggers the sort and leaves the live prefix sorted. |
| ChangeTaskDelay.ChangeLoweredNeverResorts | task/handle_change_task_delay.c:114-146 | On a sorted live prefix, a delay that is not raised never triggers the re-sort: the array is the old one with just the found slot rescheduled. |
| ChangeTaskDelay.ChangeKeepsOrder | task/handle_change_task_delay.c:114-146 | On a sorted live prefix, a new delay that fits between its neighbours' keeps the prefix sorted. |
| ChangeTaskDelay.ChangePreservesConsistency | task/handle_change_task_delay.c:74-157 | Rescheduling keeps the engine invariant with the same free list. |
| GetCallback.TruncDiv | task/get_callback.c:121-128 | Division truncates toward zero, with the remainder bounded by the divisor and carrying the dividend's sign. |
| GetCallback.ElapsedMs | task/get_callback.c:119-131 | The elapsed value is congruent modulo 2^16 to the difference of the millisecond stamps, and equals it when that difference fits in 16 bits. |
| GetCallback.HandleGetCallback | task/get_callback.c:84-166 | No tasks: ARRAY_OF_TASKS_EMPTY. Clock failure: TIMESPEC_GET_ERROR. PENDING exactly when the tail's elapsed time does not exceed its delay, with no change. FREE_ID_ERROR exactly when the tail's id is out of range, with the tasks kept. On success it returns the pre-call tail, zeroes its slot, decrements the count, keeps all other slots, and frees the tail's id. |
| GetCallback.Drop | task/get_callback.c:160-163 | Removing the tail: the count drops by one, the live prefix loses exactly its last task, that slot becomes the zero task, and the slots beyond are untouched. |
| GetCallback.PollTakesLeastDelay | task/get_callback.c:99-103 | On a sorted live prefix the task handed out has the least delay of all live tasks, and what remains stays sorted. |
| GetCallback.PollPreservesConsistency | task/get_callback.c:143-165 | Polling keeps the engine invariant and never yields FREE_ID_ERROR. After a successful poll the free list is the handed-out task's id followed by the old list, so that id is free and at its head; otherwise the list is unchanged. |
| Scenarios.RegisterAllFillsSlots | task/model/handle_register_task.c:76-137 | While there is room, consecutive registrations succeed and return the counter values c, c+1, …. They keep the invariant and consume the free list from its head, one entry per registration. |
| Scenarios.CapacityLaw | task/tests/main.tests.c:28-53 | From program start with capacity n, n registrations return 0, …, n-1 and the next reports ARRAY_OF_TASKS_FULL. |
| Scenarios.PollThenRegisterReusesId | task/utilities/handle_id.c:230-232 | After a successful poll, the next registration succeeds and its new task carries the id of the task just handed out. |
| Scenarios.RegisterTakesHead | task/model/handle_register_task.c:102-137 | On a consistent state whose free list starts with x, a registration with a working clock succeeds, returns the count, and adds exactly one task, which carries id x. |
| Scenarios.SmallDelayLeavesArrayUnsorted | task/model/handle_register_task.c:145-148 | A delay at or below the threshold that exceeds its predecessor's is appended without a re-sort, leaving the live prefix unsorted. |
| Scenarios.LoweredDelayLeavesArrayUnsorted | task/handle_change_task_delay.c:115-124 | Lowering a delay below its successor's on a sorted prefix leaves the prefix unsorted. |
| Scenarios.ConcreteRun | task/handle_change_task_delay.c:88-92 | On a run with capacity 2, a live task with id 1 cannot be rescheduled once the count is 1, and a registration stores id 0 while returning 1. |

## Left out

- Controllers, argument plumbing and event dispatch (`task/controllers/*.c`, `task/arguments.c`, `task/model/handle_events_tasks.c`) only forward to the handlers modelled here.
- The legacy `register_task.c` and its `int` comparator in `qsort_compare_func.c` reinterpret `Task` memory as `int`. That cannot be stated over typed records, and the variant is superseded by `handle_register_task`.
- Remove-by-id (`handle_remove_task`): its body is not part of this model.
- `qsort` itself: a stable insertion sort stands in for it. Every operation relies only on the prefix-sort postcondition, which any correct `qsort` meets, not on the insertion sort's particular order among equal delays.
- The clock, `sleep`, and the `round()`/double conversion are not modelled. The double conversion is the identity on the integer values involved; precision loss for stamps beyond 2^53 ms is not modelled.
- `time_t` overflow of `tv_sec * 1000` is not modelled (integers are unbounded). Timestamps are `(sec, nsec)` pairs of unbounded integers.
- Invoking the callback, the `printf` of `show_task_info.c`, and the test harnesses are not modelled. The harnesses only serve as evidence for expected outcomes.
- `prepared_tasks_count` is never used by the program, so it is not modelled.
