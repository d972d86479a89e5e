/**
 Ordering of the task array: the comparator handed to `qsort` and the
 prefix sort built on it. The C library's `qsort` is not part of this model;
 `SortByDelay` (an insertion sort) stands in for it, and every client of the
 sort relies only on `IsPrefixSort`, the postcondition any correct `qsort`
 call meets.
 */
module TaskSort {
  import opened Config

  /** `qsort_compare_func`: `b.delay - a.delay`, so larger delays sort first. */
  function CompareByDelay(a: Task, b: Task): (r: int)
    ensures r > 0 <==> a.delay < b.delay
    ensures r == 0 <==> a.delay == b.delay
    ensures r < 0 <==> a.delay > b.delay
  {
    b.delay - a.delay
  }

  /** Non-increasing by delay: the smallest delay sits last. */
  predicate SortedByDelay(s: seq<Task>) {
    forall i, j :: 0 <= i < j < |s| ==> s[i].delay >= s[j].delay
  }

  /**
   What a sort of the first `k` elements guarantees: the same length, the
   first `k` a permutation of their old contents in non-increasing delay
   order, the rest untouched.
   */
  predicate IsPrefixSort(before: seq<Task>, after: seq<Task>, k: nat) {
    && k <= |before| == |after|
    && multiset(after[..k]) == multiset(before[..k])
    && SortedByDelay(after[..k])
    && after[k..] == before[k..]
  }

  /** Places `t` before the first element the comparator does not put ahead of it. */
  function InsertByDelay(t: Task, s: seq<Task>): (r: seq<Task>)
    ensures |r| == |s| + 1
    ensures multiset(r) == multiset(s) + multiset{t}
    ensures SortedByDelay(s) ==> SortedByDelay(r)
  {
    if |s| == 0 then [t]
    else if CompareByDelay(t, s[0]) <= 0 then [t] + s
    else
      var rest := InsertByDelay(t, s[1..]);
      assert s == [s[0]] + s[1..];
      PrependKeepsSorted(s, t, rest);
      [s[0]] + rest
  }

  /** The head of a sorted `s` may go in front of `t` inserted into the rest of `s`. */
  lemma PrependKeepsSorted(s: seq<Task>, t: Task, rest: seq<Task>)
    requires |s| > 0 && s[0].delay > t.delay
    requires multiset(rest) == multiset(s[1..]) + multiset{t}
    ensures SortedByDelay(s) && SortedByDelay(rest) ==> SortedByDelay([s[0]] + rest)
  {
    if SortedByDelay(s) && SortedByDelay(rest) {
      forall x | x in rest ensures s[0].delay >= x.delay {
        assert x in multiset(rest);
        if x != t {
          var j :| 0 <= j < |s[1..]| && s[1..][j] == x;
          assert s[j + 1] == x;
        }
      }
      ConsSorted(s[0], rest);
    }
  }

  lemma ConsSorted(x: Task, s: seq<Task>)
    requires SortedByDelay(s)
    requires forall y :: y in s ==> x.delay >= y.delay
    ensures SortedByDelay([x] + s)
  {
    var r := [x] + s;
    forall i, j | 0 <= i < j < |r| ensures r[i].delay >= r[j].delay {
      assert r[j] == s[j - 1];
      if i > 0 {
        assert r[i] == s[i - 1];
      } else {
        assert s[j - 1] in s;
      }
    }
  }

  /** Appending a delay no larger than the last one keeps a sorted sequence sorted. */
  lemma SnocSorted(s: seq<Task>, t: Task)
    requires SortedByDelay(s)
    requires |s| == 0 || t.delay <= s[|s| - 1].delay
    ensures SortedByDelay(s + [t])
  {
    var r := s + [t];
    forall i, j | 0 <= i < j < |r| ensures r[i].delay >= r[j].delay {
      if j == |s| {
        assert r[i] == s[i];
        if i < |s| - 1 {
          assert s[i].delay >= s[|s| - 1].delay;
        }
      } else {
        assert r[i] == s[i] && r[j] == s[j];
      }
    }
  }

  function SortByDelay(s: seq<Task>): (r: seq<Task>)
    ensures |r| == |s|
    ensures multiset(r) == multiset(s)
    ensures SortedByDelay(r)
  {
    if |s| == 0 then []
    else
      assert s == [s[0]] + s[1..];
      InsertByDelay(s[0], SortByDelay(s[1..]))
  }

  /**
   `sort_tasks_descending_by_delay`: clamps the requested count to the array
   size, then sorts that many leading elements.
   */
  function SortTasksDescendingByDelay(arr: seq<Task>, arrSize: nat, elemsQuantityToSort: u16): (r: seq<Task>)
    requires arrSize <= |arr|
    ensures var k := if elemsQuantityToSort > arrSize then arrSize else elemsQuantityToSort;
            IsPrefixSort(arr, r, k)
  {
    var k := if elemsQuantityToSort > arrSize then arrSize else elemsQuantityToSort;
    var sorted := SortByDelay(arr[..k]);
    assert (sorted + arr[k..])[..k] == sorted;
    sorted + arr[k..]
  }

  /**
   The worked example in the sort's documentation: delays 400, 960, 1400
   with ids 0, 2, 1 come out as 1400, 960, 400 with ids 1, 2, 0. Because the
   delays are distinct, any result that meets the postcondition is this one.
   */
  lemma DocumentedExample(ts: Timespec, cb: Callback, after: seq<Task>)
    requires IsPrefixSort([Task(cb, 400, 400, 0, ts), Task(cb, 960, 960, 2, ts), Task(cb, 1400, 1400, 1, ts)], after, 3)
    ensures after == [Task(cb, 1400, 1400, 1, ts), Task(cb, 960, 960, 2, ts), Task(cb, 400, 400, 0, ts)]
  {
    var a := Task(cb, 400, 400, 0, ts);
    var b := Task(cb, 960, 960, 2, ts);
    var c := Task(cb, 1400, 1400, 1, ts);
    assert [a, b, c][..3] == [a, b, c];
    assert after[..3] == after;
    ThreeDistinctDelaysSort(a, b, c, after);
  }

  /** Three tasks with distinct delays have exactly one non-increasing arrangement. */
  lemma ThreeDistinctDelaysSort(a: Task, b: Task, c: Task, after: seq<Task>)
    requires a.delay < b.delay < c.delay
    requires multiset(after) == multiset{a, b, c} && SortedByDelay(after)
    ensures after == [c, b, a]
  {
    assert |after| == 3 by { assert |multiset(after)| == |after|; }
    forall i | 0 <= i < 3 ensures after[i] == a || after[i] == b || after[i] == c {
      assert after[i] in multiset(after);
    }
    assert c in multiset(after) && a in multiset(after);
    var k :| 0 <= k < 3 && after[k] == c;
    var m :| 0 <= m < 3 && after[m] == a;
    assert after[0].delay >= after[k].delay && after[m].delay >= after[2].delay;
    assert after[0] == c && after[2] == a;
    assert multiset(after) == multiset{after[0], after[1], after[2]} by {
      assert after == [after[0], after[1], after[2]];
    }
    assert after[1] == b;
  }

  /** A requested count beyond the array size sorts exactly the whole array. */
  lemma OversizedCountIsClamped(arr: seq<Task>, k: u16)
    requires k > |arr|
    ensures SortedByDelay(SortTasksDescendingByDelay(arr, |arr|, k))
    ensures multiset(SortTasksDescendingByDelay(arr, |arr|, k)) == multiset(arr)
  {
    var r := SortTasksDescendingByDelay(arr, |arr|, k);
    assert r[..|arr|] == r && arr[..|arr|] == arr;
  }
}
