/**
 Writing a solver solution back into the task instances (`update_schedule`):
 the sentinel is dropped, and every remaining instance of a task that the
 solution assigns to a core gets that core, its solved start and end times, and
 the task's wcet as its execution time.
 */
module Schedule {
  import opened Wrappers
  import opened Arith
  import opened SystemModel
  import opened Instances
  import opened Lookups
  import opened Encoding

  /**
   Solved values of the `assigned` variables, keyed by task name and core name.
   `None` is a variable the solver left without a value (`varValue is None`).
   */
  type Assignment = map<(string, string), Option<int>>

  /** Solved values of the execution start or end variables, keyed by task name and instance number. */
  type Times = map<(string, int), Option<int>>

  predicate AssignedTo(assignment: Assignment, task: string, core: Core) {
    (task, core.name) in assignment && assignment[(task, core.name)] == Some(1)
  }

  /** Position `k` holds the last core, in core-store order, whose variable is 1. */
  predicate IsLastAssigned(task: string, cores: seq<Core>, assignment: Assignment, k: int) {
    && 0 <= k < |cores|
    && AssignedTo(assignment, task, cores[k])
    && forall j :: k < j < |cores| ==> !AssignedTo(assignment, task, cores[j])
  }

  /**
   The core a task ends up on: the inner loop over the cores overwrites the
   placement for every core whose variable is 1, so the last one wins.
   */
  function AssignedCore(task: string, cores: seq<Core>, assignment: Assignment): (r: Option<Core>)
    ensures r.Some? ==> exists k :: IsLastAssigned(task, cores, assignment, k) && r.value == cores[k]
    ensures r.None? <==> forall k :: 0 <= k < |cores| ==> !AssignedTo(assignment, task, cores[k])
  {
    if |cores| == 0 then None
    else
      var last := |cores| - 1;
      if AssignedTo(assignment, task, cores[last]) then
        assert IsLastAssigned(task, cores, assignment, last);
        Some(cores[last])
      else
        var front := cores[..last];
        assert forall k :: 0 <= k < last ==> front[k] == cores[k];
        var r := AssignedCore(task, front, assignment);
        if r.Some? then
          var k :| IsLastAssigned(task, front, assignment, k) && r.value == front[k];
          assert IsLastAssigned(task, cores, assignment, k);
          r
        else
          r
  }

  /** The instances kept by the filter `instance != -1`, in order. */
  function RealInstances(value: seq<Instance>): (kept: seq<Instance>)
    ensures |kept| <= |value|
    ensures forall x :: x in kept <==> x in value && x.Number() != -1
    ensures forall j :: 0 <= j < |kept| ==> kept[j].Activation?
  {
    if |value| == 0 then []
    else
      var rest := RealInstances(value[1..]);
      assert forall x :: x in value <==> x == value[0] || x in value[1..];
      if value[0].Number() != -1 then [value[0]] + rest else rest
  }

  /** The filter keeps order and multiplicity: filtering two lists in sequence filters each in turn. */
  lemma {:induction false} RealInstancesAppend(a: seq<Instance>, b: seq<Instance>)
    ensures RealInstances(a + b) == RealInstances(a) + RealInstances(b)
  {
    if |a| > 0 {
      assert (a + b)[1..] == a[1..] + b;
      RealInstancesAppend(a[1..], b);
    } else {
      assert a + b == b;
    }
  }

  /** A one-element list passes the filter exactly when it is not the sentinel. */
  lemma RealInstancesSingle(x: Instance)
    ensures RealInstances([x]) == if x.Number() != -1 then [x] else []
  {
    assert [x][1..] == [];
  }

  /** A list of activations passes the filter unchanged. */
  lemma {:induction false} RealInstancesOfActivations(value: seq<Instance>)
    requires forall j :: 0 <= j < |value| ==> value[j].Activation?
    ensures RealInstances(value) == value
  {
    if |value| > 0 {
      RealInstancesOfActivations(value[1..]);
    }
  }

  /** Where and when an instance runs. */
  datatype Placement = Placement(core: Core, startTime: Option<int>, endTime: Option<int>)

  /** An instance after the update; `placement` is `None` when no core was assigned. */
  datatype ScheduledInstance = ScheduledInstance(instance: Instance, executionTime: int, placement: Option<Placement>)
  {
    function CoreOf(): Option<Core> {
      if placement.Some? then Some(placement.value.core) else None
    }
  }

  datatype ScheduledTask = ScheduledTask(name: string, initialOffset: int, value: seq<ScheduledInstance>)

  /**
   What `update_schedule` reads without raising: a solved `assigned` variable for
   every core, and once the task is placed, its data entry and the start and end
   variables of each of its kept instances.
   */
  predicate Readable(
    data: seq<TaskData>, ti: TaskInstances, cores: seq<Core>,
    assignment: Assignment, start: Times, end: Times)
  {
    && (forall k :: 0 <= k < |cores| ==> (ti.name, cores[k].name) in assignment)
    && (AssignedCore(ti.name, cores, assignment).Some? ==>
      && HasTaskData(data, ti.name)
      && forall x :: x in RealInstances(ti.value) ==> (ti.name, x.Number()) in start && (ti.name, x.Number()) in end)
  }

  function ScheduleTask(
    data: seq<TaskData>, ti: TaskInstances, cores: seq<Core>,
    assignment: Assignment, start: Times, end: Times): (r: ScheduledTask)
    requires Readable(data, ti, cores, assignment, start, end)
    ensures r.name == ti.name && r.initialOffset == ti.initialOffset
    ensures |r.value| == |RealInstances(ti.value)|
    ensures forall j :: 0 <= j < |r.value| ==>
      && r.value[j].instance == RealInstances(ti.value)[j]
      && r.value[j].instance.Activation?
      && r.value[j].CoreOf() == AssignedCore(ti.name, cores, assignment)
    ensures forall j :: 0 <= j < |r.value| && r.value[j].placement.None? ==>
      r.value[j].executionTime == r.value[j].instance.executionTime
    ensures forall j :: 0 <= j < |r.value| && r.value[j].placement.Some? ==>
      var key := (ti.name, r.value[j].instance.Number());
      && HasTaskData(data, ti.name)
      && r.value[j].executionTime == GetTaskData(data, ti.name).wcet
      && key in start && key in end
      && r.value[j].placement.value.startTime == start[key]
      && r.value[j].placement.value.endTime == end[key]
  {
    var kept := RealInstances(ti.value);
    var value := seq(|kept|, j requires 0 <= j < |kept| =>
      match AssignedCore(ti.name, cores, assignment)
      case None => ScheduledInstance(kept[j], kept[j].executionTime, None)
      case Some(c) =>
        assert kept[j] in kept;
        var key := (ti.name, kept[j].Number());
        ScheduledInstance(kept[j], GetTaskData(data, ti.name).wcet, Some(Placement(c, start[key], end[key]))));
    ScheduledTask(ti.name, ti.initialOffset, value)
  }

  /** `update_schedule` over every task of the expansion. */
  function UpdateSchedule(
    data: seq<TaskData>, expanded: seq<TaskInstances>, cores: seq<Core>,
    assignment: Assignment, start: Times, end: Times): (r: seq<ScheduledTask>)
    requires forall i :: 0 <= i < |expanded| ==> Readable(data, expanded[i], cores, assignment, start, end)
    ensures |r| == |expanded|
    ensures forall i :: 0 <= i < |r| ==>
      && r[i].name == expanded[i].name
      && r[i].initialOffset == expanded[i].initialOffset
      && |r[i].value| == |RealInstances(expanded[i].value)|
    ensures forall i, j :: 0 <= i < |r| && 0 <= j < |r[i].value| ==>
      && r[i].value[j].instance == RealInstances(expanded[i].value)[j]
      && r[i].value[j].instance.Activation?
      && r[i].value[j].CoreOf() == AssignedCore(expanded[i].name, cores, assignment)
    ensures forall i, j :: 0 <= i < |r| && 0 <= j < |r[i].value| && r[i].value[j].placement.None? ==>
      r[i].value[j].executionTime == r[i].value[j].instance.executionTime
    ensures forall i, j :: 0 <= i < |r| && 0 <= j < |r[i].value| && r[i].value[j].placement.Some? ==>
      var key := (expanded[i].name, r[i].value[j].instance.Number());
      && HasTaskData(data, expanded[i].name)
      && r[i].value[j].executionTime == GetTaskData(data, expanded[i].name).wcet
      && key in start && key in end
      && r[i].value[j].placement.value.startTime == start[key]
      && r[i].value[j].placement.value.endTime == end[key]
  {
    seq(|expanded|, i requires 0 <= i < |expanded| =>
      ScheduleTask(data, expanded[i], cores, assignment, start, end))
  }

  /** Every instance of a task ends up on the same core, or none of them is placed. */
  lemma InstancesShareCore(
    data: seq<TaskData>, expanded: seq<TaskInstances>, cores: seq<Core>,
    assignment: Assignment, start: Times, end: Times, i: nat, j: nat, j': nat)
    requires forall i :: 0 <= i < |expanded| ==> Readable(data, expanded[i], cores, assignment, start, end)
    requires i < |expanded|
    requires var r := UpdateSchedule(data, expanded, cores, assignment, start, end);
      j < |r[i].value| && j' < |r[i].value|
    ensures var r := UpdateSchedule(data, expanded, cores, assignment, start, end);
      r[i].value[j].CoreOf() == r[i].value[j'].CoreOf()
  {
  }

  /**
   On the output of the expander the update keeps exactly the activations
   `0 .. count - 1` of each task, in order: only the sentinel is dropped.
   */
  lemma ScheduleOfExpansion(
    makespan: int, tasks: seq<Task>, N: int, data: seq<TaskData>, cores: seq<Core>,
    assignment: Assignment, start: Times, end: Times, i: nat)
    requires PeriodsNonZero(tasks)
    requires var expanded := CreateTaskInstances(makespan, tasks, N);
      forall i :: 0 <= i < |expanded| ==> Readable(data, expanded[i], cores, assignment, start, end)
    requires i < |tasks|
    ensures var r := UpdateSchedule(data, CreateTaskInstances(makespan, tasks, N), cores, assignment, start, end);
      && |r[i].value| == InstanceCount(makespan, tasks[i])
      && forall k :: 0 <= k < |r[i].value| ==> r[i].value[k].instance == CreateTaskInstance(tasks[i], k)
  {
    var value := CreateInstances(makespan, tasks[i], N);
    var acts := value[1..];
    assert forall k :: 0 <= k < |acts| ==> acts[k] == CreateTaskInstance(tasks[i], k);
    RealInstancesOfActivations(acts);
    assert value == [value[0]] + acts;
    assert RealInstances(value) == acts;
  }

  /** Every `assigned` variable of `task` has a solved value. */
  predicate SolvedRow(task: string, cores: seq<Core>, assignment: Assignment) {
    forall k :: 0 <= k < |cores| ==> (task, cores[k].name) in assignment && assignment[(task, cores[k].name)].Some?
  }

  /** The solved `assigned` values of one task, by core position. */
  function AssignmentRow(task: string, cores: seq<Core>, assignment: Assignment): (row: seq<int>)
    requires SolvedRow(task, cores, assignment)
    ensures |row| == |cores|
    ensures forall k :: 0 <= k < |cores| ==> (row[k] == 1 <==> AssignedTo(assignment, task, cores[k]))
  {
    seq(|cores|, k requires 0 <= k < |cores| => assignment[(task, cores[k].name)].value)
  }

  /**
   When the solution meets "exactly one core" for a task (binary variables summing
   to one), the task is placed on the one core whose variable is 1; in
   particular a `requiredCore` pinned to 1 is where the task goes.
   */
  lemma OneHotPlacement(task: string, cores: seq<Core>, assignment: Assignment)
    requires SolvedRow(task, cores, assignment)
    requires BinaryRow(AssignmentRow(task, cores, assignment))
    requires Sum(AssignmentRow(task, cores, assignment)) == 1
    ensures exists k :: OneHot(AssignmentRow(task, cores, assignment), k)
    ensures forall k :: 0 <= k < |cores| && AssignedTo(assignment, task, cores[k]) ==>
      AssignedCore(task, cores, assignment) == Some(cores[k])
  {
    var row := AssignmentRow(task, cores, assignment);
    ExactlyOneCore(row);
    var k :| OneHot(row, k);
    var r := AssignedCore(task, cores, assignment);
    assert r.Some?;
    var m :| IsLastAssigned(task, cores, assignment, m) && r.value == cores[m];
    assert m == k;
  }

  /**
   If the solution meets the timing constraints of an instance (its end minus
   its start is the wcet and both lie inside the LET window), the placed instance
   runs for its execution time entirely within its LET window.
   */
  lemma ScheduledWithinLet(
    data: seq<TaskData>, expanded: seq<TaskInstances>, cores: seq<Core>,
    assignment: Assignment, start: Times, end: Times, i: nat, j: nat)
    requires forall i :: 0 <= i < |expanded| ==> Readable(data, expanded[i], cores, assignment, start, end)
    requires i < |expanded|
    requires var r := UpdateSchedule(data, expanded, cores, assignment, start, end);
      j < |r[i].value| && r[i].value[j].placement.Some?
    requires var x := RealInstances(expanded[i].value)[j];
      var key := (expanded[i].name, x.Number());
      && start[key].Some? && end[key].Some?
      && end[key].value - start[key].value == GetTaskData(data, expanded[i].name).wcet
      && x.letStartTime <= start[key].value
      && end[key].value <= x.letEndTime
    requires GetTaskData(data, expanded[i].name).wcet >= 0
    ensures var s := UpdateSchedule(data, expanded, cores, assignment, start, end)[i].value[j];
      var p := s.placement.value;
      && p.startTime.Some? && p.endTime.Some?
      && p.endTime.value - p.startTime.value == s.executionTime
      && s.instance.letStartTime <= p.startTime.value <= p.endTime.value <= s.instance.letEndTime
  {
  }
}
