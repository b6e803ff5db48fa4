# Stride scheduler and process syscalls of a teaching kernel, in Dafny

This project models two sequential pieces of an rCore-style RISC-V teaching
kernel and proves properties of the model.

1. **The stride-scheduling ready pool** (`TaskManager`). The pool is a
   sequence of tasks in the order they were added. `add` pushes a task at the
   back. `fetch` scans the pool for the task with the strictly smallest
   `stride`. The scan starts from a `usize::MAX` sentinel and uses a strict
   `<`, so the first task wins a tie and a task whose stride is `usize::MAX`
   is never picked. `fetch` then removes that task, adds its `pass` to its
   `stride` and returns it.
2. **Syscall result construction** (`sys_yield`, `sys_get_time`,
   `sys_task_info`). These are the return codes and the records the
   syscalls write back: `TimeVal{sec, usec}` and
   `TaskInfo{status, syscall_times, time}`.

Files:

- `types.dfy` (module `KernelTypes`): the 64-bit `usize` and `u32` widths as
  subset types, and `Option`.
- `manager.dfy` (module `TaskManager`): tasks as immutable records
  `Task(id, stride, pass)` and the pool as `seq<Task>`. It holds `New`,
  `Add` and `Fetch`. The scan of `fetch` appears twice. `Select` is a fold
  over prefixes. `ScanMin` is the loop as written, with `min_stride` and
  `min_task_index`. `DrainPool` calls `fetch` repeatedly, with no `add` in
  between, until it returns nothing.
- `process.dfy` (module `Process`): `SysYield`, `SysGetTime` and
  `SysTaskInfo` as pure functions. Timer readings and the current task's
  counters are passed in as parameters. The output pointer of
  `sys_task_info` is an `Option` of the record it points at, with `None`
  for null.

The selection rule is stated independently of the scan by the predicate
`IsFirstMin(p, i)`. Index `i` holds a stride below `usize::MAX`, strictly
below every earlier stride and no greater than any later stride.
`AllSaturated(p)` says every stride equals `usize::MAX`.

Behaviours of the code that the model keeps exactly:

- `fetch` also returns `None` from a non-empty pool whose strides are all
  `usize::MAX`, and it then removes nothing
  (os/src/task/manager.rs:28,33,39-47). `Fetch` returns nothing exactly when
  `AllSaturated` holds.
- `fetch` and `add` check neither `pass > 0` nor that a task is pooled only
  once (os/src/task/manager.rs:23-48). The model allows `pass == 0`. A
  repeated handle is modelled only as far as `TaskManager.Fetch` under
  "## Left out" says.
- `sys_task_info` rejects only a null output pointer
  (os/src/syscall/process.rs:62,69-71). `sys_get_time` writes through its
  pointer without any check (os/src/syscall/process.rs:46-51).

## Model

| member | source | states |
|---|---|---|
| TaskManager.New | os/src/task/manager.rs:17-21 | a new manager's ready pool is empty and contains no task |
| TaskManager.Add | os/src/task/manager.rs:23-25 | the task lands at the back, the earlier entries keep their order, and the pool gains one more copy of it even if it was already there (no duplicate check) |
| TaskManager.RemoveAt | os/src/task/manager.rs:40 | `Vec::remove`: one element fewer, entries before `i` unchanged, entries after `i` shifted down by one, and the multiset of tasks loses exactly `p[i]` |
| TaskManager.RemoveAtIds | os/src/task/manager.rs:40 | removing index `i` takes exactly one copy of that task's id out of the pool's multiset of ids |
| TaskManager.Select | os/src/task/manager.rs:28-37 | the scan finds nothing exactly when every stride is `usize::MAX` (so always on an empty pool); otherwise it finds the first index with the minimum stride, and that stride is below `usize::MAX` |
| TaskManager.ScanMin | os/src/task/manager.rs:28-37 | the loop as written, with the sentinel start and strict `<` updates, ends on the first minimal index below the sentinel, or on `None` exactly when all strides are `usize::MAX`; it agrees with `Select` |
| TaskManager.FirstMinUnique | os/src/task/manager.rs:31-37 | at most one index satisfies the selection rule, so the chosen task is a deterministic function of the pool |
| TaskManager.FirstMinIsMin | os/src/task/manager.rs:31-37 | the chosen task's stride is no greater than the stride of any task in the pool |
| TaskManager.AddedTaskChosenIff | os/src/task/manager.rs:23-37 | after `add`, the new last task is chosen if and only if its stride is below `usize::MAX` and strictly below every earlier stride; an earlier task wins a tie |
| TaskManager.Fetch | os/src/task/manager.rs:27-48 | returns nothing exactly when all strides are `usize::MAX`, always when the pool is empty, and then leaves the pool unchanged; otherwise it returns the first minimal task with `stride` advanced by `pass` and the same `id` and `pass`; the new pool is the old one with exactly that index removed; the chosen id plus the remaining ids make up the original ids |
| TaskManager.CanAdvanceIff | os/src/task/manager.rs:31-42 | the overflow precondition of `fetch` holds exactly when every index the selection rule admits has `stride + pass` within `usize` |
| TaskManager.FetchNewIsEmpty | os/src/task/manager.rs:17-47 | `fetch` on a new manager returns nothing and leaves the pool empty |
| TaskManager.SchedulableCanAdvance | os/src/task/manager.rs:33-42 | if every task is below `usize::MAX` and can take one more pass, then `fetch` meets its overflow precondition and does not return nothing from a non-empty pool |
| TaskManager.DrainPool | os/src/task/manager.rs:27-48 | calling `fetch` with no `add` in between, from a pool of distinct tasks whose strides are below `usize::MAX` and can take one more pass, hands out one task per pool entry before it returns nothing; every pooled id comes out exactly as often as it was pooled; each task handed out is a pooled task advanced by one pass; tasks come out in non-decreasing order of the stride they had in the pool; the pool is empty at the end |
| TaskManager.DrainStep | os/src/task/manager.rs:31-44 | one successful `fetch` keeps the drain invariant: ids are conserved between handed-out and waiting tasks, and the chosen task's waiting stride is no smaller than any earlier one and no larger than any still waiting |
| Process.SysYield | os/src/syscall/process.rs:36-40 | `sys_yield` returns 0 |
| Process.SysGetTime | os/src/syscall/process.rs:43-53 | returns 0 and writes a `TimeVal` with `usec < 1_000_000` and `sec * 1_000_000 + usec == us`, so the conversion loses nothing |
| Process.TimeValRoundTrip | os/src/syscall/process.rs:47-50 | the conversion inverts `sec * 1_000_000 + usec`: every `TimeVal` with `usec` below one second is reproduced from the microseconds it denotes |
| Process.SysTaskInfo | os/src/syscall/process.rs:56-76 | a null pointer gives −1 and nothing written; a valid one gives 0 and a record with status `Running`, the counters as read, and `time` with `start_time + time == cur_time`; only the non-null path needs `start_time <= cur_time` |
| Process.TaskInfoDeterminedByInputs | os/src/syscall/process.rs:62-68 | the record written depends only on the current time, the counters and the start time, not on what the output location held before |

## Left out

- The `lazy_static` global `TASK_MANAGER`, the `UPSafeCell` exclusive-access cell, and the `add_task`/`fetch_task` wrappers (os/src/task/manager.rs:51-67). They are single-core mutual-exclusion plumbing, so the pool is passed explicitly instead.
- `Arc` shared ownership and in-place mutation of the task control block. A task is a value record identified by `id`, and `Fetch` returns the advanced copy.
- TaskManager.Fetch: requires that the chosen task's `stride + pass` fits in a 64-bit `usize`. The source's `stride += pass` is unchecked (os/src/task/manager.rs:42), so overflow is not modelled.
- TaskManager.Fetch: a task pooled twice is two value records in the model. In the source both entries are one shared task control block, so `stride += pass` (os/src/task/manager.rs:41-42) also advances the copy still waiting; the model leaves that copy at its old stride. The model is exact when no task is pooled twice.
- TaskManager.DrainPool: requires that the pool's ids are distinct. With a repeated handle the source hands the shared task out at strides advanced by several passes and in a different order, which the drain contract does not describe.
- Process.SysTaskInfo: requires `start_time <= cur_time` on the non-null path. The source's `cur_time - start_time` is an unchecked `usize` subtraction (os/src/syscall/process.rs:63).
- `sys_exit` and the context switch inside `sys_yield` (`exit_current_and_run_next`, `suspend_current_and_run_next`). These are control transfers to the run loop, so only the return code of `sys_yield` is modelled.
- The timer sources `get_time_us` and `get_time_ms`, and the task accessors `get_task_info_count` and `get_task_info_time`. Their results are parameters.
- The raw-pointer writes. `sys_get_time` writes through its pointer unconditionally, so it takes no pointer and returns the record written. A null pointer there is undefined behaviour in the source and has no counterpart in the model. The ignored `_tz` argument is not modelled.
- `TaskStatus` and `MAX_SYSCALL_NUM` are defined in the task and config modules, which are not part of this model. `TaskStatus` is given the states Ready, Running and Exited, and only `Running` is ever written. `syscall_times` is a sequence of `u32` copied as read, and its fixed length `MAX_SYSCALL_NUM` is not modelled.
- `trace!` logging.
- Long-run fairness between tasks that are re-added after each `fetch`. The code makes no statement about it, so only single-step `fetch` contracts and the drain properties are proved.
