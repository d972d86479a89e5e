/**
 Properties of whole call sequences: the capacity law, id reuse across a
 poll and a register, and the places where the program's behaviour differs
 from what its documentation suggests (the value register returns, the
 range check in reschedule, and the array left out of order).
 */
module Scenarios {
  import opened Config
  import opened HandleId
  import opened TaskSort
  import opened TaskState
  import opened RegisterTask
  import opened ChangeTaskDelay
  import opened GetCallback

  /** The arguments of one `handle_register_task` call. */
  datatype Request = Request(callback: Callback, arg: u16, delay: u16)

  /** Registers `reqs` in order with a working clock, collecting the results. */
  function RegisterAll(st: State, reqs: seq<Request>, now: Timespec): (r: (State, seq<Result<u16, RegisterTaskError>>))
    requires WellFormedState(st)
    ensures WellFormedState(r.0) && |r.0.tasksArray| == |st.tasksArray| && |r.1| == |reqs|
    decreases |reqs|
  {
    if |reqs| == 0 then (st, [])
    else
      var o := HandleRegisterTask(st, reqs[0].callback, reqs[0].arg, reqs[0].delay, Some(now));
      var rest := RegisterAll(o.state, reqs[1..], now);
      (rest.0, [o.result] + rest.1)
  }

  /** While there is room, every registration succeeds and returns the counter before it. */
  lemma {:induction false} RegisterAllFillsSlots(st: State, free: seq<nat>, reqs: seq<Request>, now: Timespec)
    requires Consistent(st, free) && st.taskCount + |reqs| <= |st.tasksArray|
    ensures Consistent(RegisterAll(st, reqs, now).0, free[|reqs|..])
    ensures RegisterAll(st, reqs, now).0.taskCount == st.taskCount + |reqs|
    ensures RegisterAll(st, reqs, now).1 == Counting(st.taskCount, |reqs|)
    decreases |reqs|
  {
    if |reqs| > 0 {
      var q := reqs[0];
      var o := HandleRegisterTask(st, q.callback, q.arg, q.delay, Some(now));
      RegisterPreservesConsistency(st, free, q.callback, q.arg, q.delay, Some(now));
      assert o.result == Success(st.taskCount) && o.state.taskCount == st.taskCount + 1;
      RegisterAllFillsSlots(o.state, free[1..], reqs[1..], now);
      assert free[1..][|reqs| - 1..] == free[|reqs|..];
      var tail := RegisterAll(o.state, reqs[1..], now);
      assert RegisterAll(st, reqs, now) == (tail.0, [o.result] + tail.1);
      CountingCons(st.taskCount, |reqs| - 1);
    } else {
      assert Counting(st.taskCount, 0) == [];
      assert free[0..] == free;
    }
  }

  /** The results `Success(c)`, `Success(c + 1)`, …, `m` of them. */
  function Counting(c: nat, m: nat): seq<Result<u16, RegisterTaskError>>
    requires c + m <= U16Modulus
  {
    seq(m, i requires 0 <= i < m => Success(c + i))
  }

  lemma CountingCons(c: nat, m: nat)
    requires c + m < U16Modulus
    ensures [Success(c)] + Counting(c + 1, m) == Counting(c, m + 1)
  {
  }

  /**
   The capacity law: from program start with capacity `n`, `n`
   registrations return 0, 1, …, n-1 and the next one reports a full array.
   */
  lemma CapacityLaw(n: nat, reqs: seq<Request>, extra: Request, now: Timespec)
    requires 1 <= n < U16Modulus && |reqs| == n
    ensures WellFormedState(Fresh(n))
    ensures RegisterAll(Fresh(n), reqs, now).1 == Counting(0, n)
    ensures HandleRegisterTask(RegisterAll(Fresh(n), reqs, now).0, extra.callback, extra.arg, extra.delay, Some(now)).result
            == Failure(ArrayOfTasksFull)
  {
    FreshIsConsistent(n);
    RegisterAllFillsSlots(Fresh(n), seq(n, i => i), reqs, now);
  }

  /**
   The id a poll frees is the one the next registration takes: the new
   live task carries the id of the task just handed out.
   */
  lemma PollThenRegisterReusesId(st: State, free: seq<nat>, now: Option<Timespec>, q: Request, later: Timespec)
    requires Consistent(st, free)
    requires HandleGetCallback(st, now).result.Success?
    ensures var p := HandleGetCallback(st, now).state;
            var r := HandleRegisterTask(p, q.callback, q.arg, q.delay, Some(later));
            && r.result == Success(st.taskCount - 1)
            && GetId(p.idStorage).result == Success(Tail(st).id)
            && multiset(LiveTasks(r.state)) ==
                 multiset(LiveTasks(p)) + multiset{Task(q.callback, q.arg, q.delay, Tail(st).id, later)}
  {
    var p := HandleGetCallback(st, now).state;
    PollPreservesConsistency(st, free, now);
    RegisterTakesHead(p, Tail(st).id, free, q, later);
  }

  /** On a state whose free list starts with `x`, a registration with a working clock takes `x`. */
  lemma RegisterTakesHead(p: State, x: nat, free: seq<nat>, q: Request, later: Timespec)
    requires Consistent(p, [x] + free)
    ensures var r := HandleRegisterTask(p, q.callback, q.arg, q.delay, Some(later));
            && r.result == Success(p.taskCount)
            && GetId(p.idStorage).result == Success(x)
            && multiset(LiveTasks(r.state)) ==
                 multiset(LiveTasks(p)) + multiset{Task(q.callback, q.arg, q.delay, x, later)}
  {
    RegisterPreservesConsistency(p, [x] + free, q.callback, q.arg, q.delay, Some(later));
    RegisterAddsTask(p, q.callback, q.arg, q.delay, Some(later));
  }

  /**
   A registration with a delay at or below the sort threshold that exceeds
   its predecessor's is appended out of order: the live prefix is no longer
   sorted, so a later poll does not examine the least delay.
   */
  lemma SmallDelayLeavesArrayUnsorted(st: State, funcToCall: Callback, arg: u16, delay: u16, now: Option<Timespec>)
    requires WellFormedState(st)
    requires HandleRegisterTask(st, funcToCall, arg, delay, now).result.Success?
    requires st.taskCount > 0 && delay <= MinDelayForSort && delay > st.tasksArray[st.taskCount - 1].delay
    ensures !SortedByDelay(LiveTasks(HandleRegisterTask(st, funcToCall, arg, delay, now).state))
  {
    var r := HandleRegisterTask(st, funcToCall, arg, delay, now).state;
    var c := st.taskCount;
    var t := Task(funcToCall, arg, delay, GetId(st.idStorage).result.value, now.value);
    var appended := st.tasksArray[c := t];
    assert appended[c - 1] == st.tasksArray[c - 1];
    assert LiveTasks(r)[c - 1] == st.tasksArray[c - 1] && LiveTasks(r)[c] == t;
  }

  /**
   Lowering a delay below its successor's never re-sorts, so it leaves the
   live prefix out of order.
   */
  lemma LoweredDelayLeavesArrayUnsorted(st: State, id: u16, newDelay: u16, now: Option<Timespec>)
    requires WellFormedState(st) && SortedByDelay(LiveTasks(st))
    requires HandleChangeTaskDelay(st, id, newDelay, now).result.Success?
    requires var idx := BidirectionalFind(st.tasksArray, st.taskCount, id).value;
             idx + 1 < st.taskCount && newDelay < st.tasksArray[idx + 1].delay
    ensures !SortedByDelay(LiveTasks(HandleChangeTaskDelay(st, id, newDelay, now).state))
  {
    var idx := BidirectionalFind(st.tasksArray, st.taskCount, id).value;
    var live := LiveTasks(st);
    assert live[idx].delay >= live[idx + 1].delay;
    ChangeLoweredNeverResorts(st, id, newDelay, now);
    var r := HandleChangeTaskDelay(st, id, newDelay, now).state;
    assert LiveTasks(r)[idx].delay == newDelay && LiveTasks(r)[idx + 1] == st.tasksArray[idx + 1];
  }

  /** Two clock readings one second apart. */
  const T0: Timespec := Timespec(0, 0)
  const T1: Timespec := Timespec(1, 0)

  /** The allocator after ids 0 and 1 were taken and id 0 given back. */
  const AfterFree: Allocator := Allocator([Slot(0, true, None), Slot(1, false, None)], Some(0), true)

  lemma RunRegisterFirst(cb: Callback)
    ensures WellFormedState(Fresh(2))
    ensures HandleRegisterTask(Fresh(2), cb, 0, 100, Some(T0)) ==
            RegisterOutcome(State([Task(cb, 0, 100, 0, T0), ZeroTask], 1, Popped(2, 1)), Success(0))
  {
    FreshIsConsistent(2);
    assert InitIdStorage(Unused(2)) == Popped(2, 0);
    GetIdOnPopped(2, 0);
    assert Fresh(2).tasksArray[0 := Task(cb, 0, 100, 0, T0)] == [Task(cb, 0, 100, 0, T0), ZeroTask];
  }

  lemma RunRegisterSecond(cb: Callback)
    ensures WellFormedState(State([Task(cb, 0, 100, 0, T0), ZeroTask], 1, Popped(2, 1)))
    ensures HandleRegisterTask(State([Task(cb, 0, 100, 0, T0), ZeroTask], 1, Popped(2, 1)), cb, 0, 200, Some(T0)) ==
            RegisterOutcome(State([Task(cb, 0, 200, 1, T0), Task(cb, 0, 100, 0, T0)], 2, Popped(2, 2)), Success(1))
  {
    GetIdOnPopped(2, 1);
    SecondAppendSorts(cb);
  }

  /** Appending the 200 ms task behind the 100 ms one triggers the re-sort, which swaps them. */
  lemma SecondAppendSorts(cb: Callback)
    ensures WellFormedState(State([Task(cb, 0, 100, 0, T0), ZeroTask], 1, Popped(2, 1)))
    ensures Append(State([Task(cb, 0, 100, 0, T0), ZeroTask], 1, Popped(2, 1)), Task(cb, 0, 200, 1, T0), Popped(2, 2)) ==
            State([Task(cb, 0, 200, 1, T0), Task(cb, 0, 100, 0, T0)], 2, Popped(2, 2))
  {
    var a := Task(cb, 0, 100, 0, T0);
    var b := Task(cb, 0, 200, 1, T0);
    var st := State([a, ZeroTask], 1, Popped(2, 1));
    var r := Append(st, b, Popped(2, 2));
    assert st.tasksArray[1 := b] == [a, b];
    assert SortAfterRegister([a, b], 2, 200);
    TwoDistinctDelaysSort(a, b, r.tasksArray);
  }

  lemma RunPoll(cb: Callback)
    ensures WellFormedState(State([Task(cb, 0, 200, 1, T0), Task(cb, 0, 100, 0, T0)], 2, Popped(2, 2)))
    ensures HandleGetCallback(State([Task(cb, 0, 200, 1, T0), Task(cb, 0, 100, 0, T0)], 2, Popped(2, 2)), Some(T1)) ==
            PollOutcome(State([Task(cb, 0, 200, 1, T0), ZeroTask], 1, AfterFree), Success(Task(cb, 0, 100, 0, T0)))
  {
    GetIdOnPopped(2, 2);
    assert ElapsedMs(T1, T0) == 1000;
    var f := FreeId(Popped(2, 2), 0).alloc;
    assert f.slots == AfterFree.slots;
  }

  lemma RunRegisterThird(cb: Callback)
    ensures WellFormedState(State([Task(cb, 0, 200, 1, T0), ZeroTask], 1, AfterFree))
    ensures HandleRegisterTask(State([Task(cb, 0, 200, 1, T0), ZeroTask], 1, AfterFree), cb, 0, 10, Some(T1)).result == Success(1)
    ensures LiveTasks(HandleRegisterTask(State([Task(cb, 0, 200, 1, T0), ZeroTask], 1, AfterFree), cb, 0, 10, Some(T1)).state)
            == [Task(cb, 0, 200, 1, T0), Task(cb, 0, 10, 0, T1)]
  {
    var st := State([Task(cb, 0, 200, 1, T0), ZeroTask], 1, AfterFree);
    assert GetId(AfterFree).result == Success(0);
    assert !SortAfterRegister(st.tasksArray[1 := Task(cb, 0, 10, 0, T1)], 2, 10);
  }

  /**
   A concrete run with capacity 2. Tasks with delays 100 and 200 get ids 0
   and 1 and are re-sorted to put 200 first; one second later the poll hands
   out the 100 ms task and frees id 0. The remaining live task holds id 1,
   yet rescheduling id 1 is refused because 1 is not below the task count;
   and the next registration takes id 0 while returning 1, the slot it was
   written to.
   */
  lemma ConcreteRun(cb: Callback)
    ensures WellFormedState(Fresh(2))
    ensures var r1 := HandleRegisterTask(Fresh(2), cb, 0, 100, Some(T0));
            var r2 := HandleRegisterTask(r1.state, cb, 0, 200, Some(T0));
            var p := HandleGetCallback(r2.state, Some(T1));
            var c := HandleChangeTaskDelay(p.state, 1, 300, Some(T1));
            var r3 := HandleRegisterTask(p.state, cb, 0, 10, Some(T1));
            && r1.result == Success(0)
            && r2.result == Success(1)
            && p.result == Success(Task(cb, 0, 100, 0, T0))
            && LiveTasks(p.state) == [Task(cb, 0, 200, 1, T0)]
            && c.result == Failure(TaskIdIsNotDetermined)
            && r3.result == Success(1)
            && LiveTasks(r3.state)[1].id == 0
  {
    RunRegisterFirst(cb);
    RunRegisterSecond(cb);
    RunPoll(cb);
    RunRegisterThird(cb);
    RunChangeRefused(cb);
  }

  /** After the poll one task is live, so rescheduling id 1 is refused although task 1 is that task. */
  lemma RunChangeRefused(cb: Callback)
    ensures WellFormedState(State([Task(cb, 0, 200, 1, T0), ZeroTask], 1, AfterFree))
    ensures LiveTasks(State([Task(cb, 0, 200, 1, T0), ZeroTask], 1, AfterFree)) == [Task(cb, 0, 200, 1, T0)]
    ensures HandleChangeTaskDelay(State([Task(cb, 0, 200, 1, T0), ZeroTask], 1, AfterFree), 1, 300, Some(T1)).result
            == Failure(TaskIdIsNotDetermined)
  {
    assert [Task(cb, 0, 200, 1, T0), ZeroTask][..1] == [Task(cb, 0, 200, 1, T0)];
  }

  /** Sorting two tasks whose delays differ puts the larger first, whatever sort is used. */
  lemma TwoDistinctDelaysSort(a: Task, b: Task, after: seq<Task>)
    requires a.delay < b.delay
    requires IsPrefixSort([a, b], after, 2)
    ensures after == [b, a]
  {
    assert [a, b][..2] == [a, b] && after[..2] == after;
    assert multiset(after) == multiset{a, b};
    assert after[0] in multiset(after) && after[1] in multiset(after);
    assert a in multiset(after) && b in multiset(after);
  }
}
