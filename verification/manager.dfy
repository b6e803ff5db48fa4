/** The stride-scheduling ready pool (`TaskManager` in os/src/task/manager.rs).

    A task is an immutable record identified by `id`; the pool is the
    sequence of ready tasks in insertion order. The source keeps shared
    handles and mutates the chosen task in place; here `Fetch` returns the
    advanced copy of the chosen task together with the remaining pool.
 */
module TaskManager {
  import opened KernelTypes

  /** The scheduler's view of a task control block. */
  datatype Task = Task(id: nat, stride: Usize, pass: Usize)

  /** The ready pool, in the order tasks were added. */
  type Pool = seq<Task>

  /** Outcome of one `fetch`: the task handed to the run loop, if any, and
      the ready pool as it stands afterwards. */
  datatype FetchResult = FetchResult(task: Option<Task>, pool: Pool)

  // ---------------------------------------------------------------------
  // Specification of the selection rule
  // ---------------------------------------------------------------------

  /** Index `i` holds the task the scan picks: its stride is below the
      `usize::MAX` sentinel, strictly below every earlier stride (the first
      occurrence wins ties) and no greater than every later stride. */
  ghost predicate IsFirstMin(p: Pool, i: int)
  {
    && 0 <= i < |p|
    && p[i].stride < USIZE_MAX
    && (forall j :: 0 <= j < i ==> p[i].stride < p[j].stride)
    && (forall j :: i < j < |p| ==> p[i].stride <= p[j].stride)
  }

  /** Every task sits at the sentinel stride, so the strict `<` against
      `usize::MAX` never fires (vacuously true of the empty pool). */
  ghost predicate AllSaturated(p: Pool)
  {
    forall j :: 0 <= j < |p| ==> p[j].stride == USIZE_MAX
  }

  /** `y` is `t` after one `stride += pass`: same id, same pass. */
  ghost predicate AdvancedFrom(y: Task, t: Task)
  {
    y.id == t.id && y.pass == t.pass && y.stride == t.stride + t.pass
  }

  /** The ids of a pool, in pool order. */
  function Ids(p: Pool): seq<nat>
  {
    seq(|p|, j requires 0 <= j < |p| => p[j].id)
  }

  lemma IdsAppend(a: Pool, b: Pool)
    ensures Ids(a + b) == Ids(a) + Ids(b)
  {
  }

  // ---------------------------------------------------------------------
  // Operations
  // ---------------------------------------------------------------------

  /** `TaskManager::new`: an empty ready pool. */
  function New(): (p: Pool)
    ensures |p| == 0
    ensures forall t :: t !in p
  {
    []
  }

  /** `TaskManager::add`: push at the back, with no duplicate check. */
  function Add(p: Pool, t: Task): (q: Pool)
    ensures |q| == |p| + 1
    ensures q[..|p|] == p
    ensures q[|p|] == t
    ensures multiset(q) == multiset(p) + multiset{t}
  {
    assert (p + [t])[..|p|] == p;
    p + [t]
  }

  /** `Vec::remove(index)`: drop one element, shifting the later ones down. */
  function RemoveAt(p: Pool, i: nat): (q: Pool)
    requires i < |p|
    ensures |q| == |p| - 1
    ensures forall j :: 0 <= j < i ==> q[j] == p[j]
    ensures forall j :: i <= j < |q| ==> q[j] == p[j + 1]
    ensures multiset(q) + multiset{p[i]} == multiset(p)
    ensures forall t :: t in q ==> t in p
  {
    assert p == p[..i] + [p[i]] + p[i + 1..];
    p[..i] + p[i + 1..]
  }

  /** Removing index `i` takes exactly one copy of `p[i].id` out of the
      multiset of ids. */
  lemma RemoveAtIds(p: Pool, i: nat)
    requires i < |p|
    ensures multiset(Ids(RemoveAt(p, i))) + multiset{p[i].id} == multiset(Ids(p))
  {
    var ids := Ids(p);
    var front, back := ids[..i], ids[i + 1..];
    assert Ids(RemoveAt(p, i)) == front + back;
    assert ids == front + [p[i].id] + back;
    assert multiset(ids) == multiset(front) + multiset{p[i].id} + multiset(back);
  }

  /** The linear scan of `fetch`, as a fold over prefixes: the index the
      loop has recorded after visiting `p` in order. `min_stride` starts at
      `usize::MAX` and is replaced only on a strict `<`. */
  function Select(p: Pool): (r: Option<nat>)
    ensures r.None? <==> AllSaturated(p)
    ensures r.Some? ==> IsFirstMin(p, r.value)
    decreases |p|
  {
    if |p| == 0 then None
    else
      var front := p[..|p| - 1];
      var prev := Select(front);
      var minStride := if prev.Some? then p[prev.value].stride else USIZE_MAX;
      assert forall j :: 0 <= j < |front| ==> front[j] == p[j];
      if p[|p| - 1].stride < minStride then Some(|p| - 1) else prev
  }

  /** At most one index satisfies the selection rule, so the rule fixes the
      scan's answer. */
  lemma FirstMinUnique(p: Pool, i: int, k: int)
    requires IsFirstMin(p, i) && IsFirstMin(p, k)
    ensures i == k
  {
  }

  /** The chosen task's stride is a global minimum of the pool. */
  lemma FirstMinIsMin(p: Pool, i: int)
    requires IsFirstMin(p, i)
    ensures forall t :: t in p ==> p[i].stride <= t.stride
  {
  }

  /** `stride += pass` is unchecked in the source; the model demands that
      the task the scan picks does not overflow `usize`. `CanAdvanceIff`
      restates this through the selection rule alone. */
  ghost predicate CanAdvance(p: Pool)
  {
    match Select(p)
    case None => true
    case Some(i) => p[i].stride + p[i].pass <= USIZE_MAX
  }

  /** The overflow precondition of `fetch`, read without the scan: every
      index the selection rule admits can take one more pass. */
  lemma CanAdvanceIff(p: Pool)
    ensures CanAdvance(p) <==>
              forall i :: IsFirstMin(p, i) ==> p[i].stride + p[i].pass <= USIZE_MAX
  {
    match Select(p)
    case None =>
    case Some(k) =>
      forall i | IsFirstMin(p, i)
        ensures i == k
      {
        FirstMinUnique(p, i, k);
      }
  }

  /** A successful `fetch` on `p` that chose index `i`: `x` is the advanced
      task and `rest` is `p` with exactly that entry removed. */
  ghost predicate FetchedAt(p: Pool, i: int, x: Task, rest: Pool)
  {
    IsFirstMin(p, i) && AdvancedFrom(x, p[i]) && rest == RemoveAt(p, i)
  }

  /** `TaskManager::fetch`: remove the task with the smallest stride (first
      one on a tie, never one at `usize::MAX`), advance its stride by its
      pass and return it; otherwise return nothing and leave the pool. */
  function Fetch(p: Pool): (r: FetchResult)
    requires CanAdvance(p)
    ensures r.task.None? <==> AllSaturated(p)
    ensures |p| == 0 ==> r.task.None?
    ensures r.task.None? ==> r.pool == p
    ensures r.task.Some? ==> exists i :: FetchedAt(p, i, r.task.value, r.pool)
    ensures r.task.Some? ==> |r.pool| == |p| - 1
    ensures r.task.Some? ==> forall t :: t in r.pool ==> t in p
    ensures r.task.Some? ==>
              multiset(Ids(r.pool)) + multiset{r.task.value.id} == multiset(Ids(p))
  {
    match Select(p)
    case None => FetchResult(None, p)
    case Some(i) =>
      var rest := RemoveAt(p, i);
      var chosen := p[i].(stride := p[i].stride + p[i].pass);
      assert FetchedAt(p, i, chosen, rest);
      RemoveAtIds(p, i);
      FetchResult(Some(chosen), rest)
  }

  /** The loop of `fetch` as written: `min_stride` starts at the sentinel
      and both trackers move only on a strict `<`. */
  method ScanMin(p: Pool) returns (minIndex: Option<nat>)
    ensures minIndex.None? <==> AllSaturated(p)
    ensures minIndex.Some? ==> IsFirstMin(p, minIndex.value)
    ensures minIndex == Select(p)
  {
    var minStride: Usize := USIZE_MAX;
    minIndex := None;
    var k := 0;
    while k < |p|
      invariant 0 <= k <= |p|
      invariant minIndex == Select(p[..k])
      invariant minIndex.None? ==> minStride == USIZE_MAX
      invariant minIndex.Some? ==> minIndex.value < k && minStride == p[minIndex.value].stride
    {
      assert p[..k + 1][..k] == p[..k];
      if p[k].stride < minStride {
        minStride := p[k].stride;
        minIndex := Some(k);
      }
      k := k + 1;
    }
    assert p[..k] == p;
  }

  /** After `add`, the scan picks the new last task exactly when its stride
      is below the sentinel and strictly below every earlier stride: a tie
      with an earlier task goes to the earlier one. */
  lemma AddedTaskChosenIff(p: Pool, t: Task)
    ensures Select(Add(p, t)) == Some(|p|) <==>
              t.stride < USIZE_MAX && forall j :: 0 <= j < |p| ==> t.stride < p[j].stride
  {
  }

  // ---------------------------------------------------------------------
  // Draining the pool
  // ---------------------------------------------------------------------

  /** Every task is below the sentinel and can take one more pass without
      overflowing. */
  ghost predicate Schedulable(p: Pool)
  {
    forall t :: t in p ==> t.stride < USIZE_MAX && t.stride + t.pass <= USIZE_MAX
  }

  lemma SchedulableCanAdvance(p: Pool)
    requires Schedulable(p)
    ensures CanAdvance(p)
    ensures |p| > 0 ==> !AllSaturated(p)
  {
    if |p| > 0 {
      assert p[0] in p;
    }
    match Select(p)
    case None =>
    case Some(i) => assert p[i] in p;
  }

  /** The stride a handed-out task had while it waited in the pool. */
  function StrideBefore(t: Task): int
  {
    t.stride - t.pass
  }

  /** Tasks appear in non-decreasing order of their waiting stride. */
  ghost predicate InStrideOrder(d: seq<Task>)
  {
    forall a, b :: 0 <= a < b < |d| ==> StrideBefore(d[a]) <= StrideBefore(d[b])
  }

  /** No id occurs twice in the pool. The source pools shared handles, so a
      repeated id would be one task whose stride every `fetch` of it
      advances in place; with distinct ids the value records agree. */
  ghost predicate DistinctIds(p: Pool)
  {
    forall a, b :: 0 <= a < b < |p| ==> p[a].id != p[b].id
  }

  /** What holds part-way through draining `p`: `out` has been handed out,
      `rest` is still waiting, every id is in exactly one of them, each
      handed-out task is a pooled task advanced by one pass, and the
      hand-out order is sorted and below every stride still waiting. */
  ghost predicate Drained(p: Pool, out: seq<Task>, rest: Pool)
  {
    && Schedulable(rest)
    && |out| + |rest| == |p|
    && multiset(Ids(out)) + multiset(Ids(rest)) == multiset(Ids(p))
    && (forall t :: t in rest ==> t in p)
    && (forall y :: y in out ==> exists t :: t in p && AdvancedFrom(y, t))
    && InStrideOrder(out)
    && (forall y, t :: y in out && t in rest ==> StrideBefore(y) <= t.stride)
  }

  /** Calls `fetch` until it returns nothing, with no `add` in between. On
      a pool of distinct tasks it hands out every task exactly once, each
      advanced by one pass, in order of the stride it had in the pool, and
      stops only once the pool is empty. */
  method DrainPool(p: Pool) returns (out: seq<Task>, rest: Pool)
    requires Schedulable(p)
    requires DistinctIds(p)
    ensures |out| == |p|
    ensures multiset(Ids(out)) == multiset(Ids(p))
    ensures forall y :: y in out ==> exists t :: t in p && AdvancedFrom(y, t)
    ensures InStrideOrder(out)
    ensures rest == []
  {
    rest := p;
    out := [];
    SchedulableCanAdvance(rest);
    var r := Fetch(rest);
    while r.task.Some?
      invariant Drained(p, out, rest)
      invariant CanAdvance(rest) && r == Fetch(rest)
      decreases |rest|
    {
      var x := r.task.value;
      ghost var i :| FetchedAt(rest, i, x, r.pool);
      DrainStep(p, out, rest, i, x, r.pool);
      out := out + [x];
      rest := r.pool;
      SchedulableCanAdvance(rest);
      r := Fetch(rest);
    }
    SchedulableCanAdvance(rest);
  }

  /** One turn of `DrainPool`: handing out the task `fetch` chose keeps
      `Drained`. */
  lemma DrainStep(p: Pool, out: seq<Task>, pool: Pool, i: int, x: Task, rest: Pool)
    requires Drained(p, out, pool)
    requires FetchedAt(pool, i, x, rest)
    ensures Drained(p, out + [x], rest)
  {
    FirstMinIsMin(pool, i);
    assert pool[i] in pool;
    RemoveAtIds(pool, i);
    IdsAppend(out, [x]);
    assert Ids([x]) == [x.id];
    var d := out + [x];
    forall a, b | 0 <= a < b < |d|
      ensures StrideBefore(d[a]) <= StrideBefore(d[b])
    {
      if b == |out| {
        assert d[a] in out;
      } else {
        assert d[a] == out[a] && d[b] == out[b];
      }
    }
    forall y | y in d
      ensures exists t :: t in p && AdvancedFrom(y, t)
    {
      if y == x {
        assert pool[i] in p;
      }
    }
  }

  /** `fetch` on a freshly created pool returns nothing and leaves the pool
      empty. */
  lemma FetchNewIsEmpty()
    ensures CanAdvance(New())
    ensures Fetch(New()) == FetchResult(None, New())
  {
  }
}
