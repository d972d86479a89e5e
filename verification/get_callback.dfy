/**
 `get_callback`: looks only at the last live task (the one with the least
 delay when the array is sorted), and hands it out once more milliseconds
 than its delay have passed since it was created, freeing its id and
 clearing its slot.
 */
module GetCallback {
  import opened Config
  import opened HandleId
  import opened TaskSort
  import opened TaskState

  /** `GET_CALLBACK_ARRAY_OF_TASKS_EMPTY`, `..._TIMESPEC_GET_ERROR`, `..._PENDING`, `..._FREE_ID_ERROR`. */
  datatype GetCallbackError = ArrayOfTasksEmpty | TimespecGetError | Pending | FreeIdError {
    function Code(): nat {
      match this
      case ArrayOfTasksEmpty => 1
      case TimespecGetError => 2
      case Pending => 3
      case FreeIdError => 4
    }
  }

  /** The new globals and `PROMISE_TASK`; on success it carries the due task. */
  datatype PollOutcome = PollOutcome(state: State, result: Result<Task, GetCallbackError>)

  /** C's integer division, which truncates toward zero (Dafny's `/` is Euclidean). */
  function TruncDiv(a: int, b: int): (r: int)
    requires b > 0
    ensures 0 <= a ==> 0 <= r && 0 <= a - r * b < b
    ensures a < 0 ==> r <= 0 && -b < a - r * b <= 0
  {
    if a >= 0 then
      EuclideanDivision(a, b);
      a / b
    else
      EuclideanDivision(-a, b);
      NegatedProduct((-a) / b, b);
      -((-a) / b)
  }

  lemma EuclideanDivision(n: nat, b: int)
    requires b > 0
    ensures 0 <= n / b && 0 <= n - (n / b) * b < b
  {
    assert n == (n / b) * b + n % b;
  }

  lemma NegatedProduct(q: int, b: int)
    ensures (-q) * b == -(q * b)
  {
  }

  /** A timestamp in whole milliseconds: the nanoseconds are truncated to milliseconds first. */
  function ToMs(t: Timespec): int {
    t.sec * RatioSecMs + TruncDiv(t.nsec, RatioNanosecMsec)
  }

  /**
   The elapsed time as `get_callback` stores it: the difference of the two
   millisecond stamps converted to `unsigned short`, that is reduced modulo
   2^16.
   */
  function ElapsedMs(now: Timespec, created: Timespec): (r: u16)
    ensures (ToMs(now) - ToMs(created) - r) % U16Modulus == 0
    ensures 0 <= ToMs(now) - ToMs(created) < U16Modulus ==> r == ToMs(now) - ToMs(created)
  {
    (ToMs(now) - ToMs(created)) % U16Modulus
  }

  /** The task `get_callback` examines: the last of the live prefix. */
  function Tail(st: State): Task
    requires 0 < st.taskCount <= |st.tasksArray|
  {
    st.tasksArray[st.taskCount - 1]
  }

  /** The due test: strictly more milliseconds have passed than the delay. */
  predicate IsDue(t: Task, now: Timespec) {
    ElapsedMs(now, t.createdTimespec) > t.delay
  }

  function HandleGetCallback(st: State, now: Option<Timespec>): (r: PollOutcome)
    requires WellFormedState(st)
    ensures WellFormedState(r.state) && |r.state.tasksArray| == |st.tasksArray|
    ensures st.taskCount == 0 ==> r == PollOutcome(st, Failure(ArrayOfTasksEmpty))
    ensures st.taskCount > 0 && now.None? ==> r == PollOutcome(st, Failure(TimespecGetError))
    ensures r.result == Failure(Pending) <==> st.taskCount > 0 && now.Some? && !IsDue(Tail(st), now.value)
    ensures r.result == Failure(Pending) ==> r.state == st
    ensures r.result == Failure(FreeIdError) <==>
              st.taskCount > 0 && now.Some? && IsDue(Tail(st), now.value) && Tail(st).id >= |st.tasksArray|
    ensures r.result == Failure(FreeIdError) ==> r.state == st.(idStorage := InitIdStorage(st.idStorage))
    ensures r.result.Success? <==>
              st.taskCount > 0 && now.Some? && IsDue(Tail(st), now.value) && Tail(st).id < |st.tasksArray|
    ensures r.result.Success? ==>
              && r.result.value == Tail(st)
              && r.state.taskCount == st.taskCount - 1
              && LiveTasks(r.state) == LiveTasks(st)[..st.taskCount - 1]
              && r.state.tasksArray[st.taskCount - 1] == ZeroTask
              && r.state.tasksArray[st.taskCount..] == st.tasksArray[st.taskCount..]
              && r.state.idStorage == FreeId(st.idStorage, Tail(st).id).alloc
  {
    var count := st.taskCount;
    if count == 0 then
      PollOutcome(st, Failure(ArrayOfTasksEmpty))
    else
      var last := st.tasksArray[count - 1];
      if now.None? then
        PollOutcome(st, Failure(TimespecGetError))
      else if ElapsedMs(now.value, last.createdTimespec) <= last.delay then
        PollOutcome(st, Failure(Pending))
      else
        var f := FreeId(st.idStorage, last.id);
        match f.result
        case Failure(_) => PollOutcome(st.(idStorage := f.alloc), Failure(FreeIdError))
        case Success(_) => PollOutcome(Drop(st, f.alloc), Success(last))
  }

  /** The store after a successful poll: the tail slot zeroed, the count one lower, `alloc` installed. */
  function Drop(st: State, alloc: Allocator): (r: State)
    requires WellFormedState(st) && st.taskCount > 0
    requires HandleId.WellFormed(alloc) && |alloc.slots| == |st.tasksArray|
    ensures WellFormedState(r) && |r.tasksArray| == |st.tasksArray|
    ensures r.taskCount == st.taskCount - 1 && r.idStorage == alloc
    ensures LiveTasks(r) == LiveTasks(st)[..st.taskCount - 1]
    ensures r.tasksArray[st.taskCount - 1] == ZeroTask
    ensures r.tasksArray[st.taskCount..] == st.tasksArray[st.taskCount..]
  {
    var count := st.taskCount;
    var tasks := st.tasksArray[count - 1 := ZeroTask];
    assert tasks[..count - 1] == st.tasksArray[..count - 1];
    State(tasks, count - 1, alloc)
  }

  /**
   On a sorted array the task handed out has the least delay of all live
   tasks; the array's order is the only reason `get_callback` may look at
   the last one alone.
   */
  lemma PollTakesLeastDelay(st: State, now: Option<Timespec>)
    requires WellFormedState(st) && SortedByDelay(LiveTasks(st))
    requires HandleGetCallback(st, now).result.Success?
    ensures forall t :: t in LiveTasks(st) ==> HandleGetCallback(st, now).result.value.delay <= t.delay
    ensures SortedByDelay(LiveTasks(HandleGetCallback(st, now).state))
  {
    var live := LiveTasks(st);
    forall t | t in live ensures Tail(st).delay <= t.delay {
      var k :| 0 <= k < |live| && live[k] == t;
      assert live[|live| - 1] == Tail(st);
    }
    var rest := LiveTasks(HandleGetCallback(st, now).state);
    forall i, j | 0 <= i < j < |rest| ensures rest[i].delay >= rest[j].delay {
      assert rest[i] == live[i] && rest[j] == live[j];
    }
  }

  /**
   Polling keeps store and allocator consistent and never meets `free_id`'s
   error. A successful poll pushes the due task's id onto the free list, so
   it is the next id `get_id` hands out; otherwise the free list is as it was.
   */
  lemma PollPreservesConsistency(st: State, free: seq<nat>, now: Option<Timespec>)
    requires Consistent(st, free)
    ensures var out := HandleGetCallback(st, now);
            Consistent(out.state, if out.result.Success? then [Tail(st).id] + free else free)
    ensures HandleGetCallback(st, now).result != Failure(FreeIdError)
  {
    var out := HandleGetCallback(st, now);
    var live := LiveTasks(st);
    if st.taskCount > 0 {
      assert live[st.taskCount - 1] == Tail(st);
      assert Tail(st) in live;
    }
    if out.result.Success? {
      PollSuccessIsConsistent(st, free, now);
    }
  }

  lemma PollSuccessIsConsistent(st: State, free: seq<nat>, now: Option<Timespec>)
    requires Consistent(st, free) && HandleGetCallback(st, now).result.Success?
    ensures Consistent(HandleGetCallback(st, now).state, [Tail(st).id] + free)
  {
    var t := Tail(st);
    assert LiveTasks(st)[st.taskCount - 1] == t;
    FreeIdPushes(st.idStorage, free, t.id);
    DropKeepsConsistent(st, FreeId(st.idStorage, t.id).alloc, free);
  }

  /** Dropping the tail and pushing its id onto the free list keeps the state consistent. */
  lemma DropKeepsConsistent(st: State, alloc: Allocator, free: seq<nat>)
    requires WellFormedState(st) && st.taskCount > 0
    requires DistinctIds(LiveTasks(st)) && HoldsAllocatedIds(LiveTasks(st), InitIdStorage(st.idStorage))
    requires HandleId.WellFormed(alloc) && |alloc.slots| == |st.tasksArray| && alloc.initialised
    requires st.taskCount + |free| == |st.tasksArray|
    requires forall i :: 0 <= i < |alloc.slots| && i != Tail(st).id ==> alloc.slots[i] == InitIdStorage(st.idStorage).slots[i]
    requires IdsMatchIndex(alloc) && IsFreeList(alloc, [Tail(st).id] + free)
    ensures Consistent(Drop(st, alloc), [Tail(st).id] + free)
  {
    var live := LiveTasks(st);
    assert live[|live| - 1] == Tail(st);
    DropLastKeepsCoupling(live, InitIdStorage(st.idStorage), alloc);
    ConsistentFromParts(Drop(st, alloc), [Tail(st).id] + free);
  }
}
