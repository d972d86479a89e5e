/**
 `handle_register_task`: checks capacity, samples the clock, takes an id,
 appends the task at the end of the live prefix, and re-sorts only when the
 appended delay is large and out of order with its predecessor.
 */
module RegisterTask {
  import opened Config
  import opened HandleId
  import opened TaskSort
  import opened TaskState

  /** `REGISTER_TASK_ARRAY_OF_TASKS_FULL`, `..._TIMESPEC_GET_ERROR`, `..._GET_ID_ERROR`. */
  datatype RegisterTaskError = ArrayOfTasksFull | TimespecGetError | GetIdError {
    function Code(): nat {
      match this
      case ArrayOfTasksFull => 1
      case TimespecGetError => 2
      case GetIdError => 3
    }
  }

  /** The new globals and `PROMISE_TASK_ID`; on success it carries `TASK_ID`. */
  datatype RegisterOutcome = RegisterOutcome(state: State, result: Result<u16, RegisterTaskError>)

  /**
   The re-sort test, read after the append on the incremented counter: at
   least two tasks, a delay above the threshold, and the appended task's
   delay above its predecessor's.
   */
  predicate SortAfterRegister(tasks: seq<Task>, count: nat, delay: u16)
    requires count <= |tasks|
  {
    count > 1 && delay > MinDelayForSort && tasks[count - 1].delay > tasks[count - 2].delay
  }

  function HandleRegisterTask(st: State, funcToCall: Callback, arg: u16, delay: u16, now: Option<Timespec>): (r: RegisterOutcome)
    requires WellFormedState(st)
    ensures WellFormedState(r.state) && |r.state.tasksArray| == |st.tasksArray|
    ensures st.taskCount >= |st.tasksArray| ==> r == RegisterOutcome(st, Failure(ArrayOfTasksFull))
    ensures st.taskCount < |st.tasksArray| && now.None? ==> r == RegisterOutcome(st, Failure(TimespecGetError))
    ensures r.result == Failure(GetIdError) <==>
              st.taskCount < |st.tasksArray| && now.Some? && GetId(st.idStorage).result.Failure?
    ensures r.result == Failure(GetIdError) ==>
              r.state == st.(idStorage := InitIdStorage(st.idStorage))
    ensures r.result.Success? <==>
              st.taskCount < |st.tasksArray| && now.Some? && GetId(st.idStorage).result.Success?
    ensures r.result.Success? ==>
              var c := st.taskCount;
              var g := GetId(st.idStorage);
              var appended := st.tasksArray[c := Task(funcToCall, arg, delay, g.result.value, now.value)];
              && r.result.value == c
              && r.state.taskCount == c + 1
              && r.state.idStorage == g.alloc
              && (SortAfterRegister(appended, c + 1, delay) ==> IsPrefixSort(appended, r.state.tasksArray, c + 1))
              && (!SortAfterRegister(appended, c + 1, delay) ==> r.state.tasksArray == appended)
  {
    if st.taskCount >= |st.tasksArray| then
      RegisterOutcome(st, Failure(ArrayOfTasksFull))
    else if now.None? then
      RegisterOutcome(st, Failure(TimespecGetError))
    else
      var g := GetId(st.idStorage);
      match g.result
      case Failure(_) => RegisterOutcome(st.(idStorage := g.alloc), Failure(GetIdError))
      case Success(id) =>
        RegisterOutcome(Append(st, Task(funcToCall, arg, delay, id, now.value), g.alloc), Success(st.taskCount))
  }

  /** The success path after `get_id`: write the task at the end of the live prefix, count it, re-sort if the test holds. */
  function Append(st: State, t: Task, alloc: Allocator): (r: State)
    requires WellFormedState(st) && st.taskCount < |st.tasksArray|
    requires HandleId.WellFormed(alloc) && |alloc.slots| == |st.tasksArray|
    ensures WellFormedState(r) && |r.tasksArray| == |st.tasksArray|
    ensures r.taskCount == st.taskCount + 1 && r.idStorage == alloc
    ensures var appended := st.tasksArray[st.taskCount := t];
            && (SortAfterRegister(appended, st.taskCount + 1, t.delay) ==> IsPrefixSort(appended, r.tasksArray, st.taskCount + 1))
            && (!SortAfterRegister(appended, st.taskCount + 1, t.delay) ==> r.tasksArray == appended)
  {
    var appended := st.tasksArray[st.taskCount := t];
    var count := st.taskCount + 1;
    var tasks :=
      if SortAfterRegister(appended, count, t.delay)
      then SortTasksDescendingByDelay(appended, |appended|, count)
      else appended;
    State(tasks, count, alloc)
  }

  /**
   On success the live tasks are the old ones plus the new record, which
   carries the caller's callback, argument and delay, the sampled time and
   the id `get_id` handed out.
   */
  lemma RegisterAddsTask(st: State, funcToCall: Callback, arg: u16, delay: u16, now: Option<Timespec>)
    requires WellFormedState(st)
    requires HandleRegisterTask(st, funcToCall, arg, delay, now).result.Success?
    ensures var r := HandleRegisterTask(st, funcToCall, arg, delay, now).state;
            var id := GetId(st.idStorage).result.value;
            multiset(LiveTasks(r)) == multiset(LiveTasks(st)) + multiset{Task(funcToCall, arg, delay, id, now.value)}
  {
    var g := GetId(st.idStorage);
    AppendAddsTask(st, Task(funcToCall, arg, delay, g.result.value, now.value), g.alloc);
  }

  lemma AppendAddsTask(st: State, t: Task, alloc: Allocator)
    requires WellFormedState(st) && st.taskCount < |st.tasksArray|
    requires HandleId.WellFormed(alloc) && |alloc.slots| == |st.tasksArray|
    ensures multiset(LiveTasks(Append(st, t, alloc))) == multiset(LiveTasks(st)) + multiset{t}
  {
    var c := st.taskCount;
    var r := Append(st, t, alloc);
    var appended := st.tasksArray[c := t];
    assert appended[..c + 1] == LiveTasks(st) + [t];
    assert LiveTasks(r) == r.tasksArray[..c + 1];
  }

  /**
   No failure leaves an id taken: every failed call leaves the store as it
   was and the allocator's free slots and head as they were.
   */
  lemma RegisterFailureAllocatesNothing(st: State, funcToCall: Callback, arg: u16, delay: u16, now: Option<Timespec>)
    requires WellFormedState(st)
    requires HandleRegisterTask(st, funcToCall, arg, delay, now).result.Failure?
    ensures var r := HandleRegisterTask(st, funcToCall, arg, delay, now).state;
            && r.tasksArray == st.tasksArray && r.taskCount == st.taskCount
            && InitIdStorage(r.idStorage) == InitIdStorage(st.idStorage)
  {
  }

  /** The re-sort test read on the state before the call: it is `SortAfterRegister` on the appended array. */
  predicate WillResort(st: State, delay: u16)
    requires st.taskCount < |st.tasksArray|
  {
    st.taskCount > 0 && delay > MinDelayForSort && delay > st.tasksArray[st.taskCount - 1].delay
  }

  /** `WillResort` on the state before the append is the code's test on the array after it. */
  lemma WillResortIsSortAfterRegister(st: State, t: Task)
    requires st.taskCount < |st.tasksArray|
    ensures WillResort(st, t.delay) <==> SortAfterRegister(st.tasksArray[st.taskCount := t], st.taskCount + 1, t.delay)
  {
    var c := st.taskCount;
    if c > 0 {
      assert st.tasksArray[c := t][c - 1] == st.tasksArray[c - 1];
    }
  }

  /** When the re-sort runs, the whole live prefix ends sorted. */
  lemma RegisterSortsWhenTriggered(st: State, funcToCall: Callback, arg: u16, delay: u16, now: Option<Timespec>)
    requires WellFormedState(st)
    requires HandleRegisterTask(st, funcToCall, arg, delay, now).result.Success?
    requires WillResort(st, delay)
    ensures SortedByDelay(LiveTasks(HandleRegisterTask(st, funcToCall, arg, delay, now).state))
  {
    var g := GetId(st.idStorage);
    AppendSortsWhenTriggered(st, Task(funcToCall, arg, delay, g.result.value, now.value), g.alloc);
  }

  lemma AppendSortsWhenTriggered(st: State, t: Task, alloc: Allocator)
    requires WellFormedState(st) && st.taskCount < |st.tasksArray|
    requires HandleId.WellFormed(alloc) && |alloc.slots| == |st.tasksArray|
    requires WillResort(st, t.delay)
    ensures SortedByDelay(LiveTasks(Append(st, t, alloc)))
  {
    WillResortIsSortAfterRegister(st, t);
  }

  /**
   Without the re-sort only the appended slot changes, so a sorted prefix
   extended by a delay no larger than its predecessor's stays sorted.
   */
  lemma RegisterKeepsOrder(st: State, funcToCall: Callback, arg: u16, delay: u16, now: Option<Timespec>)
    requires WellFormedState(st)
    requires HandleRegisterTask(st, funcToCall, arg, delay, now).result.Success?
    requires SortedByDelay(LiveTasks(st))
    requires st.taskCount == 0 || delay <= st.tasksArray[st.taskCount - 1].delay
    ensures SortedByDelay(LiveTasks(HandleRegisterTask(st, funcToCall, arg, delay, now).state))
  {
    var g := GetId(st.idStorage);
    AppendKeepsOrder(st, Task(funcToCall, arg, delay, g.result.value, now.value), g.alloc);
  }

  lemma AppendKeepsOrder(st: State, t: Task, alloc: Allocator)
    requires WellFormedState(st) && st.taskCount < |st.tasksArray|
    requires HandleId.WellFormed(alloc) && |alloc.slots| == |st.tasksArray|
    requires SortedByDelay(LiveTasks(st))
    requires st.taskCount == 0 || t.delay <= st.tasksArray[st.taskCount - 1].delay
    ensures SortedByDelay(LiveTasks(Append(st, t, alloc)))
  {
    var c := st.taskCount;
    var appended := st.tasksArray[c := t];
    if c > 0 {
      assert appended[c - 1] == st.tasksArray[c - 1];
    }
    assert !SortAfterRegister(appended, c + 1, t.delay);
    assert appended[..c + 1] == LiveTasks(st) + [t];
    SnocSorted(LiveTasks(st), t);
  }

  /**
   Registering keeps store and allocator consistent. The id taken is the head
   of the free list, which loses exactly that entry; a failed registration
   leaves the free list as it was. Below capacity with a working clock the
   call cannot fail: a free id always exists.
   */
  lemma RegisterPreservesConsistency(st: State, free: seq<nat>, funcToCall: Callback, arg: u16, delay: u16, now: Option<Timespec>)
    requires Consistent(st, free)
    ensures var out := HandleRegisterTask(st, funcToCall, arg, delay, now);
            Consistent(out.state, if out.result.Success? then free[1..] else free)
    ensures HandleRegisterTask(st, funcToCall, arg, delay, now).result != Failure(GetIdError)
    ensures HandleRegisterTask(st, funcToCall, arg, delay, now).result.Success? ==>
              GetId(st.idStorage).result == Success(free[0])
    ensures st.taskCount < |st.tasksArray| && now.Some? ==>
              HandleRegisterTask(st, funcToCall, arg, delay, now).result == Success(st.taskCount)
  {
    if st.taskCount < |st.tasksArray| && now.Some? {
      GetIdPops(st.idStorage, free);
      var g := GetId(st.idStorage);
      AppendKeepsConsistent(st, free, Task(funcToCall, arg, delay, free[0], now.value), g.alloc);
    }
  }

  /** Appending a task that holds the free list's head, with the head unlinked, keeps the state consistent. */
  lemma AppendKeepsConsistent(st: State, free: seq<nat>, t: Task, alloc: Allocator)
    requires Consistent(st, free) && st.taskCount < |st.tasksArray|
    requires HandleId.WellFormed(alloc) && |alloc.slots| == |st.tasksArray| && alloc.initialised
    requires t.id == free[0] && !alloc.slots[t.id].isFree
    requires forall i :: 0 <= i < |alloc.slots| && i != t.id ==> alloc.slots[i] == InitIdStorage(st.idStorage).slots[i]
    requires IdsMatchIndex(alloc) && IsFreeList(alloc, free[1..])
    ensures Consistent(Append(st, t, alloc), free[1..])
  {
    var a := InitIdStorage(st.idStorage);
    var r := Append(st, t, alloc);
    assert a.slots[t.id].isFree;
    AppendKeepsCoupling(LiveTasks(st), t, a, alloc);
    AppendAddsTask(st, t, alloc);
    assert multiset(LiveTasks(r)) == multiset(LiveTasks(st) + [t]);
    PermutationKeepsDistinctIds(LiveTasks(st) + [t], LiveTasks(r));
    PermutationKeepsAllocatedIds(LiveTasks(st) + [t], LiveTasks(r), alloc);
    ConsistentFromParts(r, free[1..]);
  }
}
