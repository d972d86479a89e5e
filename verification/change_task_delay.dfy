/**
 `handle_change_task_delay`: finds a live task by id with a scan that looks
 at both ends of the live prefix at once, gives it the new delay and a fresh
 creation time, and re-sorts only when the changed task now outranks its
 predecessor.
 */
module ChangeTaskDelay {
  import opened Config
  import opened HandleId
  import opened TaskSort
  import opened TaskState

  /** `CHANGE_TASK_DELAY_ARRAY_OF_TASKS_EMPTY`, `..._TASK_ID_IS_NOT_DETERMINED`, `..._TIMESPEC_GET_ERROR`. */
  datatype ChangeTaskDelayError = ArrayOfTasksEmpty | TaskIdIsNotDetermined | TimespecGetError {
    function Code(): nat {
      match this
      case ArrayOfTasksEmpty => 1
      case TaskIdIsNotDetermined => 2
      case TimespecGetError => 3
    }
  }

  /** The new globals and `PROMISE_CHANGE_TASK_DELAY`. */
  datatype ChangeOutcome = ChangeOutcome(state: State, result: Result<(), ChangeTaskDelayError>)

  /**
   The loop from step `i` on: step `j` looks at slot `j` first and then at
   slot `count - 1 - j`, and the first slot holding `id` wins.
   */
  function ScanFrom(tasks: seq<Task>, count: nat, id: u16, i: nat): (r: Option<nat>)
    requires count <= |tasks| && i <= count
    ensures r.Some? ==> r.value < count && tasks[r.value].id == id
    ensures r.None? ==> forall j :: i <= j < count ==> tasks[j].id != id
    ensures r.None? ==> forall j :: 0 <= j < count - i ==> tasks[j].id != id
    decreases count - i
  {
    if i == count then None
    else if tasks[i].id == id then Some(i)
    else if tasks[count - 1 - i].id == id then Some(count - 1 - i)
    else ScanFrom(tasks, count, id, i + 1)
  }

  /** The whole scan, from step 0. */
  function BidirectionalFind(tasks: seq<Task>, count: nat, id: u16): Option<nat>
    requires count <= |tasks|
  {
    ScanFrom(tasks, count, id, 0)
  }

  /** The reference search: the first live slot, from the front, that holds `id`. */
  function IndexOfId(s: seq<Task>, id: u16): (r: Option<nat>)
    ensures r.Some? ==> r.value < |s| && s[r.value].id == id && forall k :: 0 <= k < r.value ==> s[k].id != id
    ensures r.None? ==> forall k :: 0 <= k < |s| ==> s[k].id != id
  {
    if |s| == 0 then None
    else if s[0].id == id then Some(0)
    else
      var r := IndexOfId(s[1..], id);
      if r.None? then None else Some(r.value + 1)
  }

  /**
   The two-ended scan finds a task exactly when one holds the id, and when
   ids are distinct it finds the same slot as the front-to-back search.
   */
  lemma BidirectionalFindIsSearch(tasks: seq<Task>, count: nat, id: u16)
    requires count <= |tasks|
    ensures BidirectionalFind(tasks, count, id).Some? <==> IndexOfId(tasks[..count], id).Some?
    ensures DistinctIds(tasks[..count]) ==> BidirectionalFind(tasks, count, id) == IndexOfId(tasks[..count], id)
  {
    var live := tasks[..count];
    var f := BidirectionalFind(tasks, count, id);
    var g := IndexOfId(live, id);
    if f.Some? {
      assert live[f.value].id == id;
    }
    if DistinctIds(live) && f.Some? {
      assert live[f.value] == tasks[f.value];
    }
  }

  /** The loop of `handle_change_task_delay` that locates the task. */
  method FindTaskIndex(tasks: seq<Task>, count: nat, id: u16) returns (found: Option<nat>)
    requires count <= |tasks|
    ensures found == BidirectionalFind(tasks, count, id)
  {
    var i := 0;
    while i < count
      invariant 0 <= i <= count
      invariant ScanFrom(tasks, count, id, i) == BidirectionalFind(tasks, count, id)
    {
      if tasks[i].id == id {
        return Some(i);
      }
      if tasks[count - 1 - i].id == id {
        return Some(count - 1 - i);
      }
      i := i + 1;
    }
    return None;
  }

  /** The re-sort test after the update: the changed slot is not the first and now outranks its predecessor. */
  predicate SortAfterChange(tasks: seq<Task>, count: nat, idx: nat)
    requires idx < count <= |tasks|
  {
    count > 1 && idx > 0 && tasks[idx].delay > tasks[idx - 1].delay
  }

  /** The task with its delay replaced and its creation time reset. */
  function Rescheduled(t: Task, newDelay: u16, now: Timespec): Task {
    t.(delay := newDelay, createdTimespec := now)
  }

  function HandleChangeTaskDelay(st: State, id: u16, newDelay: u16, now: Option<Timespec>): (r: ChangeOutcome)
    requires WellFormedState(st)
    ensures WellFormedState(r.state)
    ensures r.state.taskCount == st.taskCount && r.state.idStorage == st.idStorage
    ensures |r.state.tasksArray| == |st.tasksArray|
    ensures st.taskCount == 0 ==> r == ChangeOutcome(st, Failure(ArrayOfTasksEmpty))
    ensures st.taskCount > 0 && id >= st.taskCount ==> r == ChangeOutcome(st, Failure(TaskIdIsNotDetermined))
    ensures 0 < st.taskCount && id < st.taskCount && now.None? ==> r == ChangeOutcome(st, Failure(TimespecGetError))
    ensures 0 < st.taskCount && id < st.taskCount && now.Some? &&
            (forall j :: 0 <= j < st.taskCount ==> st.tasksArray[j].id != id) ==>
              r == ChangeOutcome(st, Failure(TaskIdIsNotDetermined))
    ensures r.result.Failure? ==> r.state == st
    ensures r.result.Success? <==>
              id < st.taskCount && now.Some? && exists j :: 0 <= j < st.taskCount && st.tasksArray[j].id == id
    ensures r.result.Success? ==>
              var idx := BidirectionalFind(st.tasksArray, st.taskCount, id).value;
              var u := st.tasksArray[idx := Rescheduled(st.tasksArray[idx], newDelay, now.value)];
              && idx < st.taskCount && st.tasksArray[idx].id == id
              && (SortAfterChange(u, st.taskCount, idx) ==> IsPrefixSort(u, r.state.tasksArray, st.taskCount))
              && (!SortAfterChange(u, st.taskCount, idx) ==> r.state.tasksArray == u)
  {
    var count := st.taskCount;
    if count == 0 then
      ChangeOutcome(st, Failure(ArrayOfTasksEmpty))
    else if id >= count then
      ChangeOutcome(st, Failure(TaskIdIsNotDetermined))
    else if now.None? then
      ChangeOutcome(st, Failure(TimespecGetError))
    else
      match BidirectionalFind(st.tasksArray, count, id)
      case None =>
        ChangeOutcome(st, Failure(TaskIdIsNotDetermined))
      case Some(idx) =>
        var u := st.tasksArray[idx := Rescheduled(st.tasksArray[idx], newDelay, now.value)];
        var tasks :=
          if SortAfterChange(u, count, idx)
          then SortTasksDescendingByDelay(u, |u|, count)
          else u;
        ChangeOutcome(st.(tasksArray := tasks), Success(()))
  }

  /**
   On success the live tasks are the old ones with exactly the task holding
   `id` rescheduled: same callback, argument and id, the new delay, the
   sampled time.
   */
  lemma ChangeReschedulesTask(st: State, id: u16, newDelay: u16, now: Option<Timespec>)
    requires WellFormedState(st)
    ensures var out := HandleChangeTaskDelay(st, id, newDelay, now);
            out.result.Success? ==>
              exists j :: 0 <= j < st.taskCount && st.tasksArray[j].id == id &&
                multiset(LiveTasks(out.state)) ==
                  multiset(LiveTasks(st)) - multiset{st.tasksArray[j]} + multiset{Rescheduled(st.tasksArray[j], newDelay, now.value)}
  {
    if HandleChangeTaskDelay(st, id, newDelay, now).result.Success? {
      var c := st.taskCount;
      var idx := BidirectionalFind(st.tasksArray, c, id).value;
      var t := Rescheduled(st.tasksArray[idx], newDelay, now.value);
      var u := st.tasksArray[idx := t];
      assert u[..c] == LiveTasks(st)[idx := t];
      assert LiveTasks(st)[idx] == st.tasksArray[idx];
    }
  }

  /** A delay raised above its predecessor's triggers the sort, which leaves the live prefix sorted. */
  lemma ChangeSortsWhenTriggered(st: State, id: u16, newDelay: u16, now: Option<Timespec>)
    requires WellFormedState(st)
    requires HandleChangeTaskDelay(st, id, newDelay, now).result.Success?
    requires var idx := BidirectionalFind(st.tasksArray, st.taskCount, id).value;
             idx > 0 && newDelay > st.tasksArray[idx - 1].delay
    ensures SortedByDelay(LiveTasks(HandleChangeTaskDelay(st, id, newDelay, now).state))
  {
    var idx := BidirectionalFind(st.tasksArray, st.taskCount, id).value;
    var u := st.tasksArray[idx := Rescheduled(st.tasksArray[idx], newDelay, now.value)];
    assert u[idx - 1] == st.tasksArray[idx - 1];
    assert SortAfterChange(u, st.taskCount, idx);
  }

  /** On a sorted prefix a delay that is not raised never triggers the sort: only that slot changes. */
  lemma ChangeLoweredNeverResorts(st: State, id: u16, newDelay: u16, now: Option<Timespec>)
    requires WellFormedState(st) && SortedByDelay(LiveTasks(st))
    requires HandleChangeTaskDelay(st, id, newDelay, now).result.Success?
    requires newDelay <= st.tasksArray[BidirectionalFind(st.tasksArray, st.taskCount, id).value].delay
    ensures var idx := BidirectionalFind(st.tasksArray, st.taskCount, id).value;
            HandleChangeTaskDelay(st, id, newDelay, now).state.tasksArray ==
              st.tasksArray[idx := Rescheduled(st.tasksArray[idx], newDelay, now.value)]
  {
    var idx := BidirectionalFind(st.tasksArray, st.taskCount, id).value;
    var u := st.tasksArray[idx := Rescheduled(st.tasksArray[idx], newDelay, now.value)];
    var live := LiveTasks(st);
    if idx > 0 {
      assert u[idx - 1] == st.tasksArray[idx - 1];
      assert live[idx - 1].delay >= live[idx].delay;
    }
    assert !SortAfterChange(u, st.taskCount, idx);
  }

  /** A new delay that fits between its neighbours keeps a sorted live prefix sorted. */
  lemma ChangeKeepsOrder(st: State, id: u16, newDelay: u16, now: Option<Timespec>)
    requires WellFormedState(st) && SortedByDelay(LiveTasks(st))
    requires HandleChangeTaskDelay(st, id, newDelay, now).result.Success?
    requires var idx := BidirectionalFind(st.tasksArray, st.taskCount, id).value;
             && (idx == 0 || newDelay <= st.tasksArray[idx - 1].delay)
             && (idx + 1 == st.taskCount || newDelay >= st.tasksArray[idx + 1].delay)
    ensures SortedByDelay(LiveTasks(HandleChangeTaskDelay(st, id, newDelay, now).state))
  {
    var c := st.taskCount;
    var idx := BidirectionalFind(st.tasksArray, c, id).value;
    var t := Rescheduled(st.tasksArray[idx], newDelay, now.value);
    var u := st.tasksArray[idx := t];
    if idx > 0 {
      assert u[idx - 1] == st.tasksArray[idx - 1];
    }
    assert !SortAfterChange(u, c, idx);
    assert u[..c] == LiveTasks(st)[idx := t];
    ReplaceKeepsSorted(LiveTasks(st), idx, t);
  }

  /** Replacing one element by a delay that fits between its neighbours keeps a sorted sequence sorted. */
  lemma ReplaceKeepsSorted(s: seq<Task>, i: nat, t: Task)
    requires SortedByDelay(s) && i < |s|
    requires i == 0 || t.delay <= s[i - 1].delay
    requires i + 1 == |s| || t.delay >= s[i + 1].delay
    ensures SortedByDelay(s[i := t])
  {
    var r := s[i := t];
    forall j, k | 0 <= j < k < |r| ensures r[j].delay >= r[k].delay {
      if j == i {
        assert s[i + 1].delay >= s[k].delay;
      } else if k == i {
        assert s[j].delay >= s[i - 1].delay;
      } else {
        assert s[j].delay >= s[k].delay;
      }
    }
  }

  /** Rescheduling touches neither the counter nor the allocator, so it keeps the state consistent. */
  lemma ChangePreservesConsistency(st: State, free: seq<nat>, id: u16, newDelay: u16, now: Option<Timespec>)
    requires Consistent(st, free)
    ensures Consistent(HandleChangeTaskDelay(st, id, newDelay, now).state, free)
  {
    var out := HandleChangeTaskDelay(st, id, newDelay, now);
    if out.result.Success? {
      var c := st.taskCount;
      var a := InitIdStorage(st.idStorage);
      var idx := BidirectionalFind(st.tasksArray, c, id).value;
      var u := st.tasksArray[idx := Rescheduled(st.tasksArray[idx], newDelay, now.value)];
      SameIdsKeepCoupling(LiveTasks(st), u[..c], a);
      if SortAfterChange(u, c, idx) {
        PermutationKeepsDistinctIds(u[..c], LiveTasks(out.state));
        PermutationKeepsAllocatedIds(u[..c], LiveTasks(out.state), a);
      }
      assert IsFreeList(InitIdStorage(out.state.idStorage), free);
    }
  }
}
