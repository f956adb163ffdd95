/**
 The imperative variant of first fit in the stand-alone heuristics script: a
 `while` loop over the tasks whose index advances only when the inner scan over
 the cores places the task. It is proved to compute the same packing as the
 `for`-loop version, which `Heuristics.Pack` models. Also `count_used_cores`.
 */
module HeuristicsLoop {
  import opened Wrappers
  import opened SystemModel
  import opened Utilities
  import opened Heuristics

  /** The inner scan stops at the first core the task fits on, which is the first-fit choice. */
  lemma {:induction false} ScanFinds(loads: seq<real>, u: real, maxU: real, c: nat)
    requires c < |loads| && Fits(loads, c, u, maxU)
    requires forall j :: 0 <= j < c ==> !Fits(loads, j, u, maxU)
    ensures FirstFit(loads, u, maxU) == Some(c)
  {
  }

  /** Placing task `i` on the core the scan found extends the run over the first `i` tasks by one step. */
  lemma {:induction false} PlaceNext(
    cores: seq<real>, tasks: seq<Task>, maxU: real, i: nat, loads: seq<real>, chosen: seq<nat>, c: nat)
    requires PeriodsNonZero(tasks) && i < |tasks|
    requires Assign(LowestCoreIndex, cores, Shares(tasks)[..i], maxU) == Some(Allocation(loads, chosen))
    requires FirstFit(loads, Utilisation(tasks[i]), maxU) == Some(c)
    ensures Assign(LowestCoreIndex, cores, Shares(tasks)[..i + 1], maxU)
      == Some(Allocation(loads[c := loads[c] + Utilisation(tasks[i])], chosen + [c]))
  {
    AssignStep(LowestCoreIndex, cores, Shares(tasks), maxU, i);
  }

  /** A scan that finds no core makes the whole run fail. */
  lemma {:induction false} ScanFails(
    cores: seq<real>, tasks: seq<Task>, maxU: real, i: nat, loads: seq<real>, chosen: seq<nat>)
    requires PeriodsNonZero(tasks) && i < |tasks|
    requires Assign(LowestCoreIndex, cores, Shares(tasks)[..i], maxU) == Some(Allocation(loads, chosen))
    requires forall j :: 0 <= j < |loads| ==> !Fits(loads, j, Utilisation(tasks[i]), maxU)
    ensures StuckAt(LowestCoreIndex, cores, Shares(tasks), maxU, i)
    ensures Pack(LowestCoreIndex, cores, tasks, maxU) == None
  {
    assert StuckAt(LowestCoreIndex, cores, Shares(tasks), maxU, i);
    PackFailsIffStuck(LowestCoreIndex, cores, tasks, maxU);
  }

  /** A run over every task is the packing. */
  lemma {:induction false} RunComplete(cores: seq<real>, tasks: seq<Task>, maxU: real, loads: seq<real>, chosen: seq<nat>)
    requires PeriodsNonZero(tasks)
    requires Assign(LowestCoreIndex, cores, Shares(tasks)[..|tasks|], maxU) == Some(Allocation(loads, chosen))
    ensures |chosen| == |tasks|
    ensures Pack(LowestCoreIndex, cores, tasks, maxU) == Some(Packing(loads, Label(tasks, chosen)))
  {
    assert Shares(tasks)[..|tasks|] == Shares(tasks);
  }

  /**
   The inner `for` loop over the cores: it stops at the first core on which the
   task fits; `None` stands for the loop running out with `flag` still false.
   */
  method ScanCores(loads: seq<real>, utilisation: real, maxU: real) returns (found: Option<nat>)
    ensures found == FirstFit(loads, utilisation, maxU)
  {
    var coreIndex := 0;
    while coreIndex < |loads|
      invariant 0 <= coreIndex <= |loads|
      invariant forall j :: 0 <= j < coreIndex ==> !Fits(loads, j, utilisation, maxU)
      decreases |loads| - coreIndex
    {
      var sumUtilisation := utilisation + loads[coreIndex];
      if sumUtilisation <= maxU {
        ScanFinds(loads, utilisation, maxU, coreIndex);
        return Some(coreIndex);
      }
      coreIndex := coreIndex + 1;
    }
    return None;
  }

  /**
   One pass of the outer loop for task `taskIndex`: scan the cores, and on a fit
   add the utilisation to that core and write its label into the task.
   */
  method PlaceTask(
    cores: seq<real>, tasks: seq<Task>, maxU: real, taskIndex: nat,
    loads: seq<real>, labelled: seq<Task>, ghost chosen: seq<nat>)
    returns (placed: bool, coreIndex: nat, loads': seq<real>, labelled': seq<Task>)
    requires PeriodsNonZero(tasks) && taskIndex < |tasks| == |labelled|
    requires Assign(LowestCoreIndex, cores, Shares(tasks)[..taskIndex], maxU) == Some(Allocation(loads, chosen))
    ensures !placed ==> StuckAt(LowestCoreIndex, cores, Shares(tasks), maxU, taskIndex)
    ensures !placed ==> Pack(LowestCoreIndex, cores, tasks, maxU) == None && loads' == loads
    ensures placed ==>
      Assign(LowestCoreIndex, cores, Shares(tasks)[..taskIndex + 1], maxU) == Some(Allocation(loads', chosen + [coreIndex]))
    ensures placed ==> labelled' == labelled[taskIndex := labelled[taskIndex].(core := Some(CoreLabel(coreIndex)))]
  {
    var utilisation := Utilisation(tasks[taskIndex]);
    var found := ScanCores(loads, utilisation, maxU);
    if found.None? {
      ScanFails(cores, tasks, maxU, taskIndex, loads, chosen);
      return false, 0, loads, labelled;
    }
    coreIndex := found.value;
    PlaceNext(cores, tasks, maxU, taskIndex, loads, chosen, coreIndex);
    loads' := loads[coreIndex := utilisation + loads[coreIndex]];
    labelled' := labelled[taskIndex := labelled[taskIndex].(core := Some(CoreLabel(coreIndex)))];
    placed := true;
  }

  /**
   `lowest_core_index` of the stand-alone script. `r` is the returned task list
   with the loads it leaves, or `None`; `after` is the `cores` list as the caller
   sees it afterwards, including placements made before a failing task.
   */
  method LowestCoreIndexWhile(cores: seq<real>, tasks: seq<Task>, maxU: real) returns (r: Option<Packing>, after: seq<real>)
    requires PeriodsNonZero(tasks)
    ensures r == Pack(LowestCoreIndex, cores, tasks, maxU)
    ensures r.Some? ==> after == r.value.loads
    ensures r.None? ==> exists k :: (0 <= k < |tasks| && StuckAt(LowestCoreIndex, cores, Shares(tasks), maxU, k)
      && after == Assign(LowestCoreIndex, cores, Shares(tasks)[..k], maxU).value.loads)
  {
    var loads := cores;
    var labelled := tasks;
    ghost var chosen: seq<nat> := [];
    var taskIndex := 0;
    assert Shares(tasks)[..0] == [];
    while taskIndex < |tasks|
      invariant 0 <= taskIndex <= |tasks|
      invariant |labelled| == |tasks| && |chosen| == taskIndex
      invariant Assign(LowestCoreIndex, cores, Shares(tasks)[..taskIndex], maxU) == Some(Allocation(loads, chosen))
      invariant forall i :: 0 <= i < taskIndex ==> labelled[i] == tasks[i].(core := Some(CoreLabel(chosen[i])))
      invariant forall i :: taskIndex <= i < |tasks| ==> labelled[i] == tasks[i]
      decreases |tasks| - taskIndex
    {
      var placed, coreIndex, loads', labelled' := PlaceTask(cores, tasks, maxU, taskIndex, loads, labelled, chosen);
      if !placed {
        return None, loads;
      }
      loads, labelled, chosen := loads', labelled', chosen + [coreIndex];
      taskIndex := taskIndex + 1;
    }
    RunComplete(cores, tasks, maxU, loads, chosen);
    assert labelled == Label(tasks, chosen);
    return Some(Packing(loads, labelled)), loads;
  }

  /**
   With `min_value = min(cores)` and `min_index = cores.index(min_value)`, a task
   that fits there extends the worst-fit run over the first `i` tasks by one step.
   */
  lemma {:induction false} PlaceLeast(
    cores: seq<real>, tasks: seq<Task>, maxU: real, i: nat, loads: seq<real>, chosen: seq<nat>, c: nat)
    requires Applicable(LowestUtilisation, cores, tasks) && i < |tasks|
    requires Assign(LowestUtilisation, cores, Shares(tasks)[..i], maxU) == Some(Allocation(loads, chosen))
    requires |loads| > 0 && c == MinIndex(loads) && loads[c] + Utilisation(tasks[i]) <= maxU
    ensures Assign(LowestUtilisation, cores, Shares(tasks)[..i + 1], maxU)
      == Some(Allocation(loads[c := loads[c] + Utilisation(tasks[i])], chosen + [c]))
  {
    assert WorstFit(loads, Utilisation(tasks[i]), maxU) == Some(c);
    AssignStep(LowestUtilisation, cores, Shares(tasks), maxU, i);
  }

  /** A task that does not fit on the least-loaded core makes the whole worst-fit run fail. */
  lemma {:induction false} LeastFails(
    cores: seq<real>, tasks: seq<Task>, maxU: real, i: nat, loads: seq<real>, chosen: seq<nat>)
    requires Applicable(LowestUtilisation, cores, tasks) && i < |tasks|
    requires Assign(LowestUtilisation, cores, Shares(tasks)[..i], maxU) == Some(Allocation(loads, chosen))
    requires |loads| > 0 && loads[MinIndex(loads)] + Utilisation(tasks[i]) > maxU
    ensures StuckAt(LowestUtilisation, cores, Shares(tasks), maxU, i)
    ensures Pack(LowestUtilisation, cores, tasks, maxU) == None
  {
    assert WorstFit(loads, Utilisation(tasks[i]), maxU).None?;
    assert StuckAt(LowestUtilisation, cores, Shares(tasks), maxU, i);
    PackFailsIffStuck(LowestUtilisation, cores, tasks, maxU);
  }

  /** `min_value = min(cores)` and `min_index = cores.index(min_value)`. */
  method LeastLoaded(loads: seq<real>) returns (minValue: real, minIndex: nat)
    requires |loads| > 0
    ensures minIndex == MinIndex(loads) && minValue == loads[minIndex]
  {
    minValue := MinValue(loads);
    minIndex := IndexOf(loads, minValue);
    MinIndexIsIndexOfMin(loads);
  }

  /** One iteration of `lowest_utilisation` for task `taskIndex`. */
  method PlaceOnLeast(
    cores: seq<real>, tasks: seq<Task>, maxU: real, taskIndex: nat,
    loads: seq<real>, labelled: seq<Task>, ghost chosen: seq<nat>)
    returns (placed: bool, minIndex: nat, loads': seq<real>, labelled': seq<Task>)
    requires Applicable(LowestUtilisation, cores, tasks) && taskIndex < |tasks| == |labelled|
    requires Assign(LowestUtilisation, cores, Shares(tasks)[..taskIndex], maxU) == Some(Allocation(loads, chosen))
    ensures !placed ==> StuckAt(LowestUtilisation, cores, Shares(tasks), maxU, taskIndex)
    ensures !placed ==> Pack(LowestUtilisation, cores, tasks, maxU) == None
    ensures placed ==>
      Assign(LowestUtilisation, cores, Shares(tasks)[..taskIndex + 1], maxU) == Some(Allocation(loads', chosen + [minIndex]))
    ensures placed ==> labelled' == labelled[taskIndex := labelled[taskIndex].(core := Some(CoreLabel(minIndex)))]
  {
    var utilisation := Utilisation(tasks[taskIndex]);
    var minValue;
    minValue, minIndex := LeastLoaded(loads);
    var sumUtilisation := minValue + utilisation;
    if sumUtilisation <= maxU {
      PlaceLeast(cores, tasks, maxU, taskIndex, loads, chosen, minIndex);
      loads' := loads[minIndex := sumUtilisation];
      labelled' := labelled[taskIndex := labelled[taskIndex].(core := Some(CoreLabel(minIndex)))];
      placed := true;
    } else {
      LeastFails(cores, tasks, maxU, taskIndex, loads, chosen);
      placed, loads', labelled' := false, loads, labelled;
    }
  }

  /**
   `lowest_utilisation`: the `for` loop over the tasks, proved to compute the
   worst-fit packing. `after` is the `cores` list as the caller sees it afterwards.
   */
  method LowestUtilisationFor(cores: seq<real>, tasks: seq<Task>, maxU: real) returns (r: Option<Packing>, after: seq<real>)
    requires Applicable(LowestUtilisation, cores, tasks)
    ensures r == Pack(LowestUtilisation, cores, tasks, maxU)
    ensures r.Some? ==> after == r.value.loads
    ensures r.None? ==> exists k :: (0 <= k < |tasks| && StuckAt(LowestUtilisation, cores, Shares(tasks), maxU, k)
      && after == Assign(LowestUtilisation, cores, Shares(tasks)[..k], maxU).value.loads)
  {
    var loads := cores;
    var labelled := tasks;
    ghost var chosen: seq<nat> := [];
    assert Shares(tasks)[..0] == [];
    for taskIndex := 0 to |tasks|
      invariant |labelled| == |tasks| && |chosen| == taskIndex
      invariant Assign(LowestUtilisation, cores, Shares(tasks)[..taskIndex], maxU) == Some(Allocation(loads, chosen))
      invariant forall i :: 0 <= i < taskIndex ==> labelled[i] == tasks[i].(core := Some(CoreLabel(chosen[i])))
      invariant forall i :: taskIndex <= i < |tasks| ==> labelled[i] == tasks[i]
    {
      var placed, minIndex, loads', labelled' := PlaceOnLeast(cores, tasks, maxU, taskIndex, loads, labelled, chosen);
      if !placed {
        return None, loads;
      }
      loads, labelled, chosen := loads', labelled', chosen + [minIndex];
    }
    LeastRunComplete(cores, tasks, maxU, loads, chosen);
    assert labelled == Label(tasks, chosen);
    return Some(Packing(loads, labelled)), loads;
  }

  /** A worst-fit run over every task is the packing. */
  lemma {:induction false} LeastRunComplete(cores: seq<real>, tasks: seq<Task>, maxU: real, loads: seq<real>, chosen: seq<nat>)
    requires Applicable(LowestUtilisation, cores, tasks)
    requires Assign(LowestUtilisation, cores, Shares(tasks)[..|tasks|], maxU) == Some(Allocation(loads, chosen))
    ensures |chosen| == |tasks|
    ensures Pack(LowestUtilisation, cores, tasks, maxU) == Some(Packing(loads, Label(tasks, chosen)))
  {
    assert Shares(tasks)[..|tasks|] == Shares(tasks);
  }

  // Counting used cores

  /** Every task carries a core label: `task["core"]` is read for each task. */
  predicate AllLabelled(tasks: seq<Task>) {
    forall i :: 0 <= i < |tasks| ==> tasks[i].core.Some?
  }

  /** The set of core labels the tasks carry. */
  function UsedCores(tasks: seq<Task>): (used: set<string>)
    requires AllLabelled(tasks)
    ensures forall s :: s in used <==> exists i :: 0 <= i < |tasks| && tasks[i].core == Some(s)
    ensures |used| <= |tasks|
    ensures |tasks| > 0 ==> |used| > 0
  {
    if |tasks| == 0 then {}
    else
      var n := |tasks| - 1;
      var rest := UsedCores(tasks[..n]);
      assert forall i :: 0 <= i < n ==> tasks[..n][i] == tasks[i];
      assert tasks[n].core.value in rest + {tasks[n].core.value};
      rest + {tasks[n].core.value}
  }

  /** `count_used_cores`: the set of labels is filled task by task and its size returned. */
  method CountUsedCores(tasks: seq<Task>) returns (count: nat)
    requires AllLabelled(tasks)
    ensures count == |UsedCores(tasks)|
    ensures count <= |tasks|
    ensures |tasks| > 0 ==> count >= 1
  {
    var used: set<string> := {};
    for i := 0 to |tasks|
      invariant used == UsedCores(tasks[..i])
    {
      assert tasks[..i + 1][..i] == tasks[..i];
      used := used + {tasks[i].core.value};
    }
    assert tasks[..|tasks|] == tasks;
    count := |used|;
  }

  /** The labels `c1 .. cn` of the first `n` cores. */
  function LabelsBelow(n: nat): (labels: set<string>)
    ensures forall c :: 0 <= c < n ==> CoreLabel(c) in labels
    ensures forall s :: s in labels ==> exists c :: 0 <= c < n && s == CoreLabel(c)
    ensures |labels| <= n
  {
    if n == 0 then {} else LabelsBelow(n - 1) + {CoreLabel(n - 1)}
  }

  lemma {:induction false} SubsetCard(a: set<string>, b: set<string>)
    requires a <= b
    ensures |a| <= |b|
  {
    assert b == a + (b - a);
  }

  /** A heuristic's output uses at most as many cores as there are. */
  lemma {:induction false} PackUsesAtMostCores(policy: Policy, loads: seq<real>, tasks: seq<Task>, maxU: real)
    requires Applicable(policy, loads, tasks)
    requires Pack(policy, loads, tasks, maxU).Some?
    ensures AllLabelled(Pack(policy, loads, tasks, maxU).value.tasks)
    ensures |UsedCores(Pack(policy, loads, tasks, maxU).value.tasks)| <= |loads|
    ensures |UsedCores(Pack(policy, loads, tasks, maxU).value.tasks)| <= |tasks|
  {
    var p := Pack(policy, loads, tasks, maxU).value;
    PackLabels(policy, loads, tasks, maxU);
    assert AllLabelled(p.tasks);
    var used := UsedCores(p.tasks);
    forall s | s in used
      ensures s in LabelsBelow(|loads|)
    {
      var i :| 0 <= i < |p.tasks| && p.tasks[i].core == Some(s);
      var c :| 0 <= c < |loads| && p.tasks[i].core == Some(CoreLabel(c));
    }
    SubsetCard(used, LabelsBelow(|loads|));
  }
}
