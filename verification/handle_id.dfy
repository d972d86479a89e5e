/**
 The id allocator: a fixed array of slots threaded into a singly linked LIFO
 free list. Links are array indices (`None` plays the part of NULL), the head
 index plays the part of `ptr_free_elem`, and `initialised` is the negation of
 `is_first_call`. Both operations build the list lazily on first use.
 */
module HandleId {
  import opened Config

  /** One node of the array-based list. */
  datatype Slot = Slot(id: u16, isFree: bool, next: Option<nat>)

  /** The module's private state. */
  datatype Allocator = Allocator(slots: seq<Slot>, head: Option<nat>, initialised: bool)

  /** `HANDLE_ID_NO_FREE_ID` and `HANDLE_ID_UNKNOWN_ID`; success is code 0. */
  datatype HandleIdError = NoFreeId | UnknownId {
    function Code(): nat {
      match this
      case NoFreeId => 1
      case UnknownId => 2
    }
  }

  datatype GetIdOutcome = GetIdOutcome(alloc: Allocator, result: Result<u16, HandleIdError>)

  datatype FreeIdOutcome = FreeIdOutcome(alloc: Allocator, result: Result<(), HandleIdError>)

  predicate InRange(p: Option<nat>, n: nat) {
    p.None? || p.value < n
  }

  /**
   The representation is a pointer structure into the array: once built,
   the head and every link point at a slot or at nothing. Ids fit the 16-bit
   counter type.
   */
  predicate WellFormed(a: Allocator) {
    && 1 <= |a.slots| <= U16Modulus
    && (a.initialised ==>
          && InRange(a.head, |a.slots|)
          && forall i :: 0 <= i < |a.slots| ==> InRange(a.slots[i].next, |a.slots|))
  }

  /** The zeroed static storage before the first call. */
  function Unused(n: nat): Allocator {
    Allocator(seq(n, _ => Slot(0, false, None)), None, false)
  }

  function FreshSlots(n: nat): seq<Slot>
    requires n <= U16Modulus
  {
    seq(n, i requires 0 <= i < n => Slot(i, true, if i + 1 < n then Some(i + 1) else None))
  }

  /** `init_id_storage_array`: builds the list on the first call only. */
  function InitIdStorage(a: Allocator): (r: Allocator)
    requires WellFormed(a)
    ensures WellFormed(r) && r.initialised && |r.slots| == |a.slots|
    ensures a.initialised ==> r == a
    ensures !a.initialised ==>
              && r.head == Some(0)
              && (forall i :: 0 <= i < |r.slots| ==> r.slots[i].id == i && r.slots[i].isFree)
              && (forall i :: 0 <= i < |r.slots| - 1 ==> r.slots[i].next == Some(i + 1))
              && r.slots[|r.slots| - 1].next == None
  {
    if a.initialised then a else Allocator(FreshSlots(|a.slots|), Some(0), true)
  }

  /** The initialisation as the program writes it: a loop over all but the last slot, then the last. */
  method InitIdStorageLoop(a: Allocator) returns (r: Allocator)
    requires WellFormed(a)
    ensures r == InitIdStorage(a)
  {
    if a.initialised {
      return a;
    }
    var n := |a.slots|;
    var slots := a.slots;
    for i := 0 to n - 1
      invariant |slots| == n
      invariant forall k :: 0 <= k < i ==> slots[k] == FreshSlots(n)[k]
    {
      slots := slots[i := Slot(i, true, Some(i + 1))];
    }
    slots := slots[n - 1 := Slot(n - 1, true, None)];
    assert slots == FreshSlots(n);
    r := Allocator(slots, Some(0), true);
  }

  /** Slot `h` marked allocated and the head moved to its link, as `get_id` does. */
  function Unlinked(b: Allocator, h: nat): Allocator
    requires h < |b.slots|
  {
    Allocator(b.slots[h := b.slots[h].(isFree := false)], b.slots[h].next, b.initialised)
  }

  /** `get_id`: pops the head of the free list. */
  function GetId(a: Allocator): (r: GetIdOutcome)
    requires WellFormed(a)
    ensures WellFormed(r.alloc) && r.alloc.initialised && |r.alloc.slots| == |a.slots|
    ensures var b := InitIdStorage(a);
            b.head.None? ==> r == GetIdOutcome(b, Failure(NoFreeId))
    ensures var b := InitIdStorage(a);
            b.head.Some? ==>
              var h := b.head.value;
              && r.result == Success(b.slots[h].id)
              && r.alloc.head == b.slots[h].next
              && !r.alloc.slots[h].isFree
              && r.alloc.slots[h].id == b.slots[h].id
              && r.alloc.slots[h].next == b.slots[h].next
              && forall i :: 0 <= i < |a.slots| && i != h ==> r.alloc.slots[i] == b.slots[i]
  {
    var b := InitIdStorage(a);
    match b.head
    case None => GetIdOutcome(b, Failure(NoFreeId))
    case Some(h) =>
      GetIdOutcome(Unlinked(b, h), Success(b.slots[h].id))
  }

  /** Slot `id` made free and put in front of the list, as `free_id` does. */
  function Pushed(b: Allocator, id: nat): Allocator
    requires id < |b.slots|
  {
    Allocator(b.slots[id := b.slots[id].(isFree := true, next := b.head)], Some(id), b.initialised)
  }

  /** `free_id`: pushes an allocated slot back onto the head; a free slot is left alone. */
  function FreeId(a: Allocator, id: u16): (r: FreeIdOutcome)
    requires WellFormed(a)
    ensures WellFormed(r.alloc) && r.alloc.initialised && |r.alloc.slots| == |a.slots|
    ensures var b := InitIdStorage(a);
            id >= |a.slots| ==> r == FreeIdOutcome(b, Failure(UnknownId))
    ensures var b := InitIdStorage(a);
            id < |a.slots| && b.slots[id].isFree ==> r == FreeIdOutcome(b, Success(()))
    ensures var b := InitIdStorage(a);
            id < |a.slots| && !b.slots[id].isFree ==>
              && r.result == Success(())
              && r.alloc.head == Some(id)
              && r.alloc.slots[id] == b.slots[id].(isFree := true, next := b.head)
              && forall i :: 0 <= i < |a.slots| && i != id ==> r.alloc.slots[i] == b.slots[i]
  {
    var b := InitIdStorage(a);
    if id >= |b.slots| then
      FreeIdOutcome(b, Failure(UnknownId))
    else if b.slots[id].isFree then
      FreeIdOutcome(b, Success(()))
    else
      FreeIdOutcome(Pushed(b, id), Success(()))
  }

  // ---------------------------------------------------------------------------
  // The free-list invariant

  /**
   `l` is the free list of `a`, read from the head: its slots are distinct
   and in range, the head and the links follow `l` and end in nothing (so the
   list is acyclic), and a slot is marked free exactly when it is on `l`.
   */
  predicate IsFreeList(a: Allocator, l: seq<nat>) {
    && (forall k :: 0 <= k < |l| ==> l[k] < |a.slots|)
    && (forall j, k :: 0 <= j < k < |l| ==> l[j] != l[k])
    && a.head == (if |l| == 0 then None else Some(l[0]))
    && (forall k :: 0 <= k < |l| ==> a.slots[l[k]].next == Successor(l, k))
    && (forall i :: 0 <= i < |a.slots| ==> (a.slots[i].isFree <==> i in l))
  }

  /** The link the `k`-th node of list `l` must hold. */
  function Successor(l: seq<nat>, k: nat): Option<nat> {
    if k + 1 < |l| then Some(l[k + 1]) else None
  }

  predicate IdsMatchIndex(a: Allocator) {
    forall i :: 0 <= i < |a.slots| ==> a.slots[i].id == i
  }

  ghost predicate AllocInv(a: Allocator) {
    a.initialised && IdsMatchIndex(a) && exists l :: IsFreeList(a, l)
  }

  /** Every state the allocator can reach. */
  ghost predicate Valid(a: Allocator) {
    WellFormed(a) && (a.initialised ==> AllocInv(a))
  }

  lemma InitBuildsFullFreeList(a: Allocator)
    requires WellFormed(a) && !a.initialised
    ensures IdsMatchIndex(InitIdStorage(a))
    ensures IsFreeList(InitIdStorage(a), seq(|a.slots|, i => i))
  {
    var b := InitIdStorage(a);
    var l := seq(|a.slots|, i => i);
    forall i | 0 <= i < |b.slots|
      ensures b.slots[i].isFree <==> i in l
    {
      assert l[i] == i;
    }
    forall k | 0 <= k < |l|
      ensures l[k] < |b.slots| && b.slots[l[k]].next == Successor(l, k)
    {
      assert l[k] == k;
      if k + 1 < |l| {
        assert l[k + 1] == k + 1;
      }
    }
    forall j, k | 0 <= j < k < |l|
      ensures l[j] != l[k]
    {
      assert l[j] == j && l[k] == k;
    }
  }

  /** A successful pop hands out the first id of the list and leaves the rest as the new list. */
  lemma GetIdPops(a: Allocator, l: seq<nat>)
    requires WellFormed(a)
    requires IdsMatchIndex(InitIdStorage(a)) && IsFreeList(InitIdStorage(a), l)
    ensures IdsMatchIndex(GetId(a).alloc)
    ensures |l| == 0 ==> GetId(a).result == Failure(NoFreeId)
    ensures |l| > 0 ==> GetId(a).result == Success(l[0]) && IsFreeList(GetId(a).alloc, l[1..])
  {
    if |l| > 0 {
      PopKeepsFreeList(InitIdStorage(a), l);
    }
  }

  lemma PopKeepsFreeList(b: Allocator, l: seq<nat>)
    requires IsFreeList(b, l) && |l| > 0
    ensures IsFreeList(Unlinked(b, l[0]), l[1..])
  {
    PopLinks(b, l);
    PopFlags(b, l);
  }

  lemma PopFlags(b: Allocator, l: seq<nat>)
    requires |l| > 0 && l[0] < |b.slots|
    requires forall j, k :: 0 <= j < k < |l| ==> l[j] != l[k]
    requires forall i :: 0 <= i < |b.slots| ==> (b.slots[i].isFree <==> i in l)
    ensures forall i :: 0 <= i < |b.slots| ==> (Unlinked(b, l[0]).slots[i].isFree <==> i in l[1..])
  {
    var h := l[0];
    var t := l[1..];
    assert l == [h] + t;
    assert h !in t by {
      forall k | 0 <= k < |t| ensures t[k] != h { assert t[k] == l[k + 1]; }
    }
  }

  lemma PopLinks(b: Allocator, l: seq<nat>)
    requires |l| > 0 && l[0] < |b.slots|
    requires forall j, k :: 0 <= j < k < |l| ==> l[j] != l[k]
    requires forall k :: 0 <= k < |l| ==> l[k] < |b.slots| && b.slots[l[k]].next == Successor(l, k)
    ensures forall k :: 0 <= k < |l| - 1 ==> Unlinked(b, l[0]).slots[l[1..][k]].next == Successor(l[1..], k)
  {
    var t := l[1..];
    var r := Unlinked(b, l[0]);
    forall k | 0 <= k < |t|
      ensures r.slots[t[k]].next == Successor(t, k)
    {
      assert t[k] == l[k + 1] && l[k + 1] != l[0];
      assert r.slots[t[k]] == b.slots[l[k + 1]];
      assert b.slots[l[k + 1]].next == Successor(l, k + 1);
    }
  }

  /** Freeing an allocated slot puts it in front of the list; freeing a free one changes nothing. */
  lemma FreeIdPushes(a: Allocator, l: seq<nat>, id: u16)
    requires WellFormed(a) && id < |a.slots|
    requires IdsMatchIndex(InitIdStorage(a)) && IsFreeList(InitIdStorage(a), l)
    ensures IdsMatchIndex(FreeId(a, id).alloc)
    ensures FreeId(a, id).result == Success(())
    ensures id in l ==> FreeId(a, id).alloc == InitIdStorage(a)
    ensures id !in l ==> IsFreeList(FreeId(a, id).alloc, [id] + l)
  {
    if id !in l {
      PushKeepsFreeList(InitIdStorage(a), l, id);
    }
  }

  lemma PushKeepsFreeList(b: Allocator, l: seq<nat>, id: nat)
    requires IsFreeList(b, l) && id < |b.slots| && id !in l
    ensures IsFreeList(Pushed(b, id), [id] + l)
  {
    PushLinks(b, l, id);
    PushDistinct(l, id);
    PushFlags(b, l, id);
  }

  lemma PushLinks(b: Allocator, l: seq<nat>, id: nat)
    requires id < |b.slots| && id !in l
    requires b.head == (if |l| == 0 then None else Some(l[0]))
    requires forall k :: 0 <= k < |l| ==> l[k] < |b.slots| && b.slots[l[k]].next == Successor(l, k)
    ensures forall k :: 0 <= k < |l| + 1 ==> Pushed(b, id).slots[([id] + l)[k]].next == Successor([id] + l, k)
  {
    var r := Pushed(b, id);
    var l' := [id] + l;
    forall k | 0 <= k < |l'|
      ensures r.slots[l'[k]].next == Successor(l', k)
    {
      if k > 0 {
        var m := l[k - 1];
        assert l'[k] == m && m != id;
        assert r.slots[m] == b.slots[m];
        assert b.slots[m].next == Successor(l, k - 1);
        if k + 1 < |l'| { assert l'[k + 1] == l[k]; }
      } else if 1 < |l'| {
        assert l'[1] == l[0];
      }
    }
  }

  lemma PushDistinct(l: seq<nat>, id: nat)
    requires id !in l && forall j, k :: 0 <= j < k < |l| ==> l[j] != l[k]
    ensures forall j, k :: 0 <= j < k < |l| + 1 ==> ([id] + l)[j] != ([id] + l)[k]
  {
    var l' := [id] + l;
    forall j, k | 0 <= j < k < |l'| ensures l'[j] != l'[k] {
      assert l'[k] == l[k - 1];
      if j > 0 { assert l'[j] == l[j - 1]; }
    }
  }

  lemma PushFlags(b: Allocator, l: seq<nat>, id: nat)
    requires IsFreeList(b, l) && id < |b.slots| && id !in l
    ensures forall i :: 0 <= i < |b.slots| ==> (Pushed(b, id).slots[i].isFree <==> i in [id] + l)
  {
  }

  lemma InitEstablishesAllocInv(a: Allocator)
    requires Valid(a)
    ensures AllocInv(InitIdStorage(a))
  {
    if !a.initialised {
      InitBuildsFullFreeList(a);
    }
  }

  /**
   `get_id` keeps the invariant, and never hands out an id that is currently
   allocated: the id it returns was free and is allocated afterwards.
   */
  lemma GetIdPreservesValid(a: Allocator)
    requires Valid(a)
    ensures Valid(GetId(a).alloc)
    ensures GetId(a).result.Success? ==>
              var id := GetId(a).result.value;
              && id < |a.slots|
              && InitIdStorage(a).slots[id].isFree
              && !GetId(a).alloc.slots[id].isFree
  {
    InitEstablishesAllocInv(a);
    var l :| IsFreeList(InitIdStorage(a), l);
    GetIdPops(a, l);
  }

  lemma FreeIdPreservesValid(a: Allocator, id: u16)
    requires Valid(a)
    ensures Valid(FreeId(a, id).alloc)
    ensures id < |a.slots| ==> FreeId(a, id).alloc.slots[id].isFree
  {
    InitEstablishesAllocInv(a);
    var l :| IsFreeList(InitIdStorage(a), l);
    if id < |a.slots| {
      FreeIdPushes(a, l, id);
    }
  }

  /** LIFO reuse: the id freed last is the id handed out next, and the list is back as it was. */
  lemma FreeThenGetReusesId(a: Allocator, id: u16)
    requires Valid(a) && id < |a.slots|
    requires !InitIdStorage(a).slots[id].isFree
    ensures var f := FreeId(a, id).alloc;
            && GetId(f).result == Success(id)
            && GetId(f).alloc.head == InitIdStorage(a).head
            && forall i :: 0 <= i < |a.slots| ==>
                 GetId(f).alloc.slots[i].isFree == InitIdStorage(a).slots[i].isFree
  {
    InitEstablishesAllocInv(a);
  }

  /** Freeing twice is the same as freeing once. */
  lemma DoubleFreeIsIdempotent(a: Allocator, id: u16)
    requires WellFormed(a)
    ensures FreeId(FreeId(a, id).alloc, id) == FreeId(a, id)
  {
  }

  // ---------------------------------------------------------------------------
  // Hand-out order on a fresh allocator

  /** `k` consecutive calls of `get_id`, with their results in call order. */
  function GetIdTimes(a: Allocator, k: nat): (r: (Allocator, seq<Result<u16, HandleIdError>>))
    requires WellFormed(a)
    ensures WellFormed(r.0) && |r.0.slots| == |a.slots| && |r.1| == k
    decreases k
  {
    if k == 0 then (a, [])
    else
      var g := GetId(a);
      var rest := GetIdTimes(g.alloc, k - 1);
      (rest.0, [g.result] + rest.1)
  }

  /** The allocator after `k` calls of `get_id` on a fresh one. */
  function Popped(n: nat, k: nat): Allocator
    requires n <= U16Modulus && k <= n
  {
    Allocator(
      seq(n, i requires 0 <= i < n => Slot(i, i >= k, if i + 1 < n then Some(i + 1) else None)),
      if k < n then Some(k) else None,
      true)
  }

  lemma GetIdOnPopped(n: nat, k: nat)
    requires 1 <= n <= U16Modulus && k <= n
    ensures WellFormed(Popped(n, k))
    ensures k < n ==> GetId(Popped(n, k)) == GetIdOutcome(Popped(n, k + 1), Success(k))
    ensures k == n ==> GetId(Popped(n, k)) == GetIdOutcome(Popped(n, k), Failure(NoFreeId))
  {
    if k < n {
      var g := GetId(Popped(n, k));
      assert g.alloc.slots == Popped(n, k + 1).slots;
    }
  }

  lemma {:induction false} GetIdTimesFromPopped(n: nat, k: nat, m: nat)
    requires 1 <= n <= U16Modulus && k + m <= n
    ensures WellFormed(Popped(n, k))
    ensures GetIdTimes(Popped(n, k), m) == (Popped(n, k + m), Successions(k, m))
    decreases m
  {
    GetIdOnPopped(n, k);
    if m > 0 {
      GetIdTimesFromPopped(n, k + 1, m - 1);
      var rest := GetIdTimes(Popped(n, k + 1), m - 1);
      assert GetIdTimes(Popped(n, k), m) == (rest.0, [Success(k)] + rest.1);
      SuccessionsCons(k, m - 1);
    } else {
      assert Successions(k, 0) == [];
    }
  }

  /** The results `Success(k)`, …, `Success(k + m - 1)`. */
  function Successions(k: nat, m: nat): seq<Result<u16, HandleIdError>>
    requires k + m <= U16Modulus
  {
    seq(m, i requires 0 <= i < m => Success(k + i))
  }

  lemma SuccessionsCons(k: nat, m: nat)
    requires k + m < U16Modulus
    ensures [Success(k)] + Successions(k + 1, m) == Successions(k, m + 1)
  {
  }

  /** On a fresh allocator the first `n` calls return 0, 1, …, n-1 and the next one finds no free id. */
  lemma FreshAllocatorHandsOutInOrder(a: Allocator)
    requires WellFormed(a) && !a.initialised
    ensures var n := |a.slots|;
            GetIdTimes(a, n + 1).1 == Successions(0, n) + [Failure(NoFreeId)]
  {
    var n := |a.slots|;
    assert InitIdStorage(a) == Popped(n, 0);
    GetIdOnPopped(n, 0);
    assert GetId(a) == GetId(Popped(n, 0));
    assert GetIdTimes(a, n + 1).1 == GetIdTimes(Popped(n, 0), n + 1).1;
    GetIdTimesFromPopped(n, 0, n);
    GetIdOnPopped(n, n);
    GetIdTimesSplit(Popped(n, 0), n);
  }

  lemma {:induction false} GetIdTimesSplit(a: Allocator, k: nat)
    requires WellFormed(a)
    ensures GetIdTimes(a, k + 1).1 == GetIdTimes(a, k).1 + [GetId(GetIdTimes(a, k).0).result]
    ensures GetIdTimes(a, k + 1).0 == GetId(GetIdTimes(a, k).0).alloc
    decreases k
  {
    if k > 0 {
      GetIdTimesSplit(GetId(a).alloc, k - 1);
    }
  }
}
