/**
 The shared state of the engine: the task array with its live-prefix
 counter, and the id allocator. `Consistent` ties them together: the live
 tasks hold distinct ids, each id marked allocated, and the allocator's free
 list has exactly as many entries as the array has unused slots.
 */
module TaskState {
  import opened Config
  import opened HandleId

  /** `tasks_array`, `task_count` and the allocator's private storage. */
  datatype State = State(tasksArray: seq<Task>, taskCount: nat, idStorage: Allocator)

  /**
   Both arrays have the same fixed length (`MAX_TASK_QUANTITY`, here a
   parameter), the counter stays within it and fits its 16-bit type.
   */
  predicate WellFormedState(st: State) {
    && 1 <= |st.tasksArray| < U16Modulus
    && st.taskCount <= |st.tasksArray|
    && |st.idStorage.slots| == |st.tasksArray|
    && HandleId.WellFormed(st.idStorage)
  }

  /** The live prefix: the only slots that hold registered tasks. */
  function LiveTasks(st: State): seq<Task>
    requires st.taskCount <= |st.tasksArray|
  {
    st.tasksArray[..st.taskCount]
  }

  /** No two tasks of `s` share an id. */
  predicate DistinctIds(s: seq<Task>) {
    forall j, k :: 0 <= j < k < |s| ==> s[j].id != s[k].id
  }

  /** Every task of `s` holds an id that `a` has marked allocated. */
  predicate HoldsAllocatedIds(s: seq<Task>, a: Allocator) {
    forall t :: t in s ==> t.id < |a.slots| && !a.slots[t.id].isFree
  }

  /**
   The coupling of store and allocator, with `free` the allocator's free
   list. It is read on the allocator as it is once built, which covers the
   untouched state before the first call too.
   */
  predicate Consistent(st: State, free: seq<nat>) {
    && WellFormedState(st)
    && var a := InitIdStorage(st.idStorage);
       && IdsMatchIndex(a)
       && IsFreeList(a, free)
       && st.taskCount + |free| == |st.tasksArray|
       && DistinctIds(LiveTasks(st))
       && HoldsAllocatedIds(LiveTasks(st), a)
  }

  /** The zero-initialised globals at program start, for capacity `n`. */
  function Fresh(n: nat): State
    requires 1 <= n < U16Modulus
  {
    State(seq(n, _ => ZeroTask), 0, Unused(n))
  }

  lemma FreshIsConsistent(n: nat)
    requires 1 <= n < U16Modulus
    ensures WellFormedState(Fresh(n))
    ensures Consistent(Fresh(n), seq(n, i => i))
  {
    InitBuildsFullFreeList(Unused(n));
  }

  /** `Consistent` from its parts, for a state whose allocator is already built. */
  lemma ConsistentFromParts(st: State, l: seq<nat>)
    requires WellFormedState(st) && st.idStorage.initialised
    requires IdsMatchIndex(st.idStorage) && IsFreeList(st.idStorage, l)
    requires st.taskCount + |l| == |st.tasksArray|
    requires DistinctIds(LiveTasks(st)) && HoldsAllocatedIds(LiveTasks(st), st.idStorage)
    ensures Consistent(st, l)
  {
  }

  /** Reordering tasks keeps their ids distinct. */
  lemma {:induction false} PermutationKeepsDistinctIds(s: seq<Task>, t: seq<Task>)
    requires multiset(s) == multiset(t)
    requires DistinctIds(s)
    ensures DistinctIds(t)
    decreases |t|
  {
    if |t| > 0 {
      var x := t[0];
      var rest := t[1..];
      assert t == [x] + rest;
      assert x in multiset(t);
      var i :| 0 <= i < |s| && s[i] == x;
      var s' := RemoveAt(s, i);
      assert multiset(rest) == multiset(s');
      PermutationKeepsDistinctIds(s', rest);
      forall y | y in rest ensures y.id != x.id {
        assert y in multiset(s');
      }
      ConsDistinct(x, rest);
    }
  }

  /** A task whose id no task of a distinct sequence holds can go in front of it. */
  lemma ConsDistinct(x: Task, rest: seq<Task>)
    requires DistinctIds(rest)
    requires forall y :: y in rest ==> y.id != x.id
    ensures DistinctIds([x] + rest)
  {
    var t := [x] + rest;
    forall j, k | 0 <= j < k < |t| ensures t[j].id != t[k].id {
      assert t[k] == rest[k - 1];
      if j > 0 {
        assert t[j] == rest[j - 1];
      } else {
        assert rest[k - 1] in rest;
      }
    }
  }

  /** `s` without its `i`-th task: still distinct, and no other task shares that task's id. */
  function RemoveAt(s: seq<Task>, i: nat): (r: seq<Task>)
    requires i < |s| && DistinctIds(s)
    ensures multiset(r) == multiset(s) - multiset{s[i]}
    ensures DistinctIds(r)
    ensures forall x :: x in r ==> x.id != s[i].id
  {
    RemoveAtMultiset(s, i);
    RemoveAtDistinct(s, i);
    RemoveAtOthers(s, i);
    s[..i] + s[i + 1..]
  }

  lemma RemoveAtMultiset(s: seq<Task>, i: nat)
    requires i < |s|
    ensures multiset(s[..i] + s[i + 1..]) == multiset(s) - multiset{s[i]}
  {
    assert s == s[..i] + [s[i]] + s[i + 1..];
  }

  lemma RemoveAtDistinct(s: seq<Task>, i: nat)
    requires i < |s| && DistinctIds(s)
    ensures DistinctIds(s[..i] + s[i + 1..])
  {
    var r := s[..i] + s[i + 1..];
    forall j, k | 0 <= j < k < |r| ensures r[j].id != r[k].id {
      var j' := if j < i then j else j + 1;
      var k' := if k < i then k else k + 1;
      assert r[j] == s[j'] && r[k] == s[k'];
    }
  }

  lemma RemoveAtOthers(s: seq<Task>, i: nat)
    requires i < |s| && DistinctIds(s)
    ensures forall x :: x in s[..i] + s[i + 1..] ==> x.id != s[i].id
  {
    var r := s[..i] + s[i + 1..];
    forall x | x in r ensures x.id != s[i].id {
      var m :| 0 <= m < |r| && r[m] == x;
      if m < i {
        assert r[m] == s[m];
      } else {
        assert r[m] == s[m + 1];
      }
    }
  }

  /**
   Appending a task whose id was free to a coupled prefix, after the
   allocator marked that id (and nothing else) allocated, keeps it coupled.
   */
  lemma AppendKeepsCoupling(live: seq<Task>, t: Task, a: Allocator, b: Allocator)
    requires DistinctIds(live) && HoldsAllocatedIds(live, a)
    requires t.id < |a.slots| == |b.slots| && a.slots[t.id].isFree && !b.slots[t.id].isFree
    requires forall i :: 0 <= i < |a.slots| && i != t.id ==> b.slots[i] == a.slots[i]
    ensures DistinctIds(live + [t]) && HoldsAllocatedIds(live + [t], b)
  {
    var s := live + [t];
    forall j, k | 0 <= j < k < |s| ensures s[j].id != s[k].id {
      assert s[j] == live[j];
      if k < |live| {
        assert s[k] == live[k];
      } else {
        assert live[j] in live;
      }
    }
    forall x | x in s ensures x.id < |b.slots| && !b.slots[x.id].isFree {
      if x != t {
        assert x in live;
      }
    }
  }

  /**
   Dropping the last task of a coupled sequence, after the allocator changed
   at most that task's slot, keeps the rest coupled.
   */
  lemma DropLastKeepsCoupling(live: seq<Task>, a: Allocator, b: Allocator)
    requires |live| > 0 && DistinctIds(live) && HoldsAllocatedIds(live, a)
    requires |a.slots| == |b.slots|
    requires forall i :: 0 <= i < |a.slots| && i != live[|live| - 1].id ==> b.slots[i] == a.slots[i]
    ensures DistinctIds(live[..|live| - 1]) && HoldsAllocatedIds(live[..|live| - 1], b)
  {
    var rest := live[..|live| - 1];
    forall x | x in rest ensures x.id < |b.slots| && !b.slots[x.id].isFree {
      var k :| 0 <= k < |rest| && rest[k] == x;
      assert live[k] == x;
      assert x in live;
    }
    forall j, k | 0 <= j < k < |rest| ensures rest[j].id != rest[k].id {
      assert rest[j] == live[j] && rest[k] == live[k];
    }
  }

  /** Changing fields other than the id, slot by slot, keeps the coupling. */
  lemma SameIdsKeepCoupling(s: seq<Task>, t: seq<Task>, a: Allocator)
    requires |s| == |t| && forall k :: 0 <= k < |s| ==> s[k].id == t[k].id
    requires DistinctIds(s) && HoldsAllocatedIds(s, a)
    ensures DistinctIds(t) && HoldsAllocatedIds(t, a)
  {
    forall x | x in t ensures x.id < |a.slots| && !a.slots[x.id].isFree {
      var k :| 0 <= k < |t| && t[k] == x;
      assert s[k] in s;
    }
  }

  /** Reordering tasks keeps each of them holding an allocated id. */
  lemma PermutationKeepsAllocatedIds(s: seq<Task>, t: seq<Task>, a: Allocator)
    requires multiset(s) == multiset(t)
    requires HoldsAllocatedIds(s, a)
    ensures HoldsAllocatedIds(t, a)
  {
    forall x | x in t ensures x.id < |a.slots| && !a.slots[x.id].isFree {
      assert x in multiset(t);
    }
  }
}
