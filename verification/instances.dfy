/**
 The instance expander: every task becomes the synthetic negative instance
 followed by its activations up to the makespan, each with a LET window.
 */
module Instances {
  import opened Arith
  import opened SystemModel
  import opened Horizon

  /**
   One activation of a task. `Sentinel` is the instance numbered -1, placed one
   big-M before time zero; it carries no period window.
   */
  datatype Instance =
    | Sentinel(letStartTime: int, letEndTime: int, executionTime: int)
    | Activation(
        index: nat,
        periodStartTime: int,
        periodEndTime: int,
        letStartTime: int,
        letEndTime: int,
        executionTime: int)
  {
    /** The `instance` number: -1 for the sentinel. */
    function Number(): int {
      if Sentinel? then -1 else index
    }
  }

  /** A task-instances entry: the task's name, its initial offset and its instances. */
  datatype TaskInstances = TaskInstances(name: string, initialOffset: int, value: seq<Instance>)

  function CreateNegativeInstance(task: Task, N: int): (inst: Instance)
    ensures inst.Sentinel? && inst.Number() == -1
    ensures inst.letStartTime == -N && inst.executionTime == task.wcet
    ensures inst.letEndTime - inst.letStartTime == task.duration
    ensures task.duration < N ==> inst.letEndTime < 0
  {
    Sentinel(-N, -N + task.duration, task.wcet)
  }

  function CreateTaskInstance(task: Task, index: nat): (inst: Instance)
    ensures inst.Activation? && inst.Number() == index
    ensures inst.executionTime == task.wcet
    ensures inst.periodStartTime == index * task.period + task.initialOffset
    ensures inst.letStartTime == inst.periodStartTime + task.activationOffset
    ensures inst.periodEndTime - inst.periodStartTime == task.period
    ensures inst.letEndTime - inst.letStartTime == task.duration
    ensures task.activationOffset >= 0 && task.duration >= 0 ==>
      inst.periodStartTime <= inst.letStartTime <= inst.letEndTime
    ensures task.activationOffset + task.duration <= task.period ==>
      inst.letEndTime <= inst.periodEndTime
  {
    var periodStartTime := index * task.period + task.initialOffset;
    var periodEndTime := periodStartTime + task.period;
    var letStartTime := periodStartTime + task.activationOffset;
    var letEndTime := letStartTime + task.duration;
    Activation(index, periodStartTime, periodEndTime, letStartTime, letEndTime, task.wcet)
  }

  /** Activations tile time: each period window starts where the previous one ends. */
  lemma ActivationsAbut(task: Task, k: nat)
    ensures CreateTaskInstance(task, 0).periodStartTime == task.initialOffset
    ensures CreateTaskInstance(task, k + 1).periodStartTime == CreateTaskInstance(task, k).periodEndTime
  {
  }

  /** `math.ceil((makespan - initialOffset) / period)`; `range` of a non-positive count is empty. */
  function InstanceCount(makespan: int, task: Task): (n: nat)
    requires task.period != 0
    ensures task.period > 0 ==> (n == 0 <==> makespan <= task.initialOffset)
    ensures task.period < 0 ==> (n == 0 <==> makespan >= task.initialOffset)
    ensures task.period > 0 && n > 0 ==>
      (n - 1) * task.period < makespan - task.initialOffset <= n * task.period
    ensures task.period < 0 && n > 0 ==>
      n * task.period <= makespan - task.initialOffset < (n - 1) * task.period
  {
    var r := CeilDiv(makespan - task.initialOffset, task.period);
    if r < 0 then
      (if task.period > 0 then MulLe(r, 0, task.period); 0 else MulLe(r, 0, -task.period); 0)
    else r
  }

  /** The instance list of one task: the sentinel, then activations `0 .. count - 1`. */
  function CreateInstances(makespan: int, task: Task, N: int): (value: seq<Instance>)
    requires task.period != 0
    ensures |value| == 1 + InstanceCount(makespan, task)
    ensures value[0] == CreateNegativeInstance(task, N)
    ensures forall k :: 1 <= k < |value| ==> value[k] == CreateTaskInstance(task, k - 1)
  {
    [CreateNegativeInstance(task, N)]
      + seq(InstanceCount(makespan, task), k requires 0 <= k => CreateTaskInstance(task, k))
  }

  function CreateTaskInstances(makespan: int, tasks: seq<Task>, N: int): (r: seq<TaskInstances>)
    requires PeriodsNonZero(tasks)
    ensures |r| == |tasks|
    ensures forall i :: 0 <= i < |tasks| ==>
      && r[i].name == tasks[i].name
      && r[i].initialOffset == tasks[i].initialOffset
      && r[i].value == CreateInstances(makespan, tasks[i], N)
  {
    seq(|tasks|, i requires 0 <= i < |tasks| =>
      TaskInstances(tasks[i].name, tasks[i].initialOffset, CreateInstances(makespan, tasks[i], N)))
  }

  /**
   The instance count is exact: activation `k` is generated if and only if its
   period window starts before the makespan.
   */
  lemma {:induction false} ActivationsCoverHorizon(makespan: int, task: Task, k: nat)
    requires task.period > 0
    ensures k < InstanceCount(makespan, task) <==> CreateTaskInstance(task, k).periodStartTime < makespan
  {
    var p := task.period;
    var n := CeilDiv(makespan - task.initialOffset, p);
    assert (n - 1) * p < makespan - task.initialOffset <= n * p;
    if k < n {
      MulLe(k, n - 1, p);
    } else {
      MulLe(n, k, p);
    }
  }

  /**
   On a real task set every window of every activation lies in `[0, largeN]`, the
   sentinel's window ends before zero, and every task gets at least three activations.
   */
  lemma {:induction false} ExpansionWithinBigM(tasks: seq<Task>, i: nat, k: nat)
    requires WellFormedTasks(tasks)
    requires i < |tasks|
    requires k < InstanceCount(Makespan(tasks), tasks[i])
    ensures InstanceCount(Makespan(tasks), tasks[i]) >= 3
    ensures CreateNegativeInstance(tasks[i], LargeN(tasks)).letEndTime < 0
    ensures var inst := CreateTaskInstance(tasks[i], k);
      0 <= inst.periodStartTime <= inst.letStartTime <= inst.letEndTime <= inst.periodEndTime <= LargeN(tasks)
  {
    var t := tasks[i];
    var m, h, o := Makespan(tasks), Hyperperiod(tasks), Hyperoffset(tasks);
    PeriodAtMostHyperperiod(tasks, i);
    assert t.initialOffset <= o;
    assert 0 <= o;
    ActivationsCoverHorizon(m, t, k);
    var n := CeilDiv(m - t.initialOffset, t.period);
    assert n * t.period >= m - t.initialOffset > 2 * t.period;
    if n < 3 {
      MulLe(n, 2, t.period);
    }
    MulLe(0, k, t.period);
  }
}
