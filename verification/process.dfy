/** Result construction of the process-management syscalls
    (os/src/syscall/process.rs).

    Only the values a syscall computes and writes back are modelled. The
    timer readings and the current task's counters are parameters, and a
    raw output pointer is an `Option` of the record it points at, with
    `None` standing for null. Each syscall returns its `isize` result code
    together with the contents of the output location afterwards.
 */
module Process {
  import opened KernelTypes

  /** Microseconds per second, the divisor `sys_get_time` uses. */
  const MICROS_PER_SEC: nat := 1_000_000

  /** `TimeVal`: a time split into whole seconds and leftover microseconds. */
  datatype TimeVal = TimeVal(sec: Usize, usec: Usize)

  /** Lifecycle state of a task, as reported by `sys_task_info`. */
  datatype TaskStatus = Ready | Running | Exited

  /** `TaskInfo`: status, per-syscall invocation counts, elapsed time. */
  datatype TaskInfo = TaskInfo(status: TaskStatus, syscallTimes: seq<U32>, time: Usize)

  /** A syscall's return code and what the output location holds after it. */
  datatype SyscallOut<T> = SyscallOut(ret: int, written: T)

  /** The number of microseconds a `TimeVal` stands for. */
  function Micros(tv: TimeVal): nat
  {
    tv.sec * MICROS_PER_SEC + tv.usec
  }

  /** `sys_yield`: the task switch itself happens elsewhere; once control
      comes back the call reports success. */
  function SysYield(): (ret: int)
    ensures ret == 0
  {
    0
  }

  /** `sys_get_time` for a timer reading of `us` microseconds: the written
      `TimeVal` is the normalised form of `us` and the call succeeds. */
  function SysGetTime(us: Usize): (r: SyscallOut<TimeVal>)
    ensures r.ret == 0
    ensures r.written.usec < MICROS_PER_SEC
    ensures Micros(r.written) == us
  {
    SyscallOut(0, TimeVal(us / MICROS_PER_SEC, us % MICROS_PER_SEC))
  }

  /** The conversion is the inverse of `Micros` on normalised values: a
      `TimeVal` whose `usec` is below one second comes back unchanged from
      the microsecond count it denotes. */
  lemma TimeValRoundTrip(tv: TimeVal)
    requires tv.usec < MICROS_PER_SEC
    requires Micros(tv) <= USIZE_MAX
    ensures SysGetTime(Micros(tv)).written == tv
  {
  }

  /** `sys_task_info`. `ti` is the output location (`None` for null),
      `curTime` the current time in milliseconds, `syscallCounts` the current
      task's per-syscall counters and `startTime` its first-dispatch time.
      The elapsed time is an unchecked `usize` subtraction, so a non-null
      call needs `startTime <= curTime`; a null pointer is rejected before
      the subtraction. */
  function SysTaskInfo(ti: Option<TaskInfo>, curTime: Usize, syscallCounts: seq<U32>, startTime: Usize)
    : (r: SyscallOut<Option<TaskInfo>>)
    requires ti.Some? ==> startTime <= curTime
    ensures r.ret == -1 <==> ti.None?
    ensures r.ret == 0 <==> ti.Some?
    ensures ti.None? ==> r.written == None
    ensures ti.Some? ==> r.written.Some?
    ensures ti.Some? ==> r.written.value.status == Running
    ensures ti.Some? ==> r.written.value.syscallTimes == syscallCounts
    ensures ti.Some? ==> startTime + r.written.value.time == curTime
  {
    match ti
    case None => SyscallOut(-1, None)
    case Some(_) =>
      SyscallOut(0, Some(TaskInfo(Running, syscallCounts, curTime - startTime)))
  }

  /** The record written does not depend on what the output location held
      before: the three readings alone determine it. */
  lemma TaskInfoDeterminedByInputs(a: TaskInfo, b: TaskInfo, curTime: Usize, syscallCounts: seq<U32>, startTime: Usize)
    requires startTime <= curTime
    ensures SysTaskInfo(Some(a), curTime, syscallCounts, startTime)
         == SysTaskInfo(Some(b), curTime, syscallCounts, startTime)
  {
  }
}
