# LetSynchronise benchmark: scheduler arithmetic and partitioning heuristics in Dafny

This project models the deterministic core of the LetSynchronise benchmark.
The benchmark schedules periodic tasks with Logical Execution Time (LET)
windows on multi-core, multi-device systems. It has two halves:

- **`MultiCoreScheduler` (`ilp/multicore.py`).** It builds a mixed-integer
  linear program (MILP) and reads a solution back. The model covers:
  - the horizon: hyperperiod, hyperoffset, makespan and the big-M constant `largeN`;
  - the expansion of every task into a sentinel instance and its activations;
  - the lookups: task data, dependency sources, device and network delays;
  - the write-back of a solution into the schedule (`update_schedule`);
  - the integer facts that make the linear constraints mean what they are meant to mean.
- **The greedy heuristics (`heuristics.py`, `heuristics/heuristics.py`, `utilities.py`).**
  Tasks are sorted by utilisation (`wcet / period`), descending. Each task then
  goes either on the least-loaded core (`lowest_utilisation`, worst fit) or on
  the first core where it fits (`lowest_core_index`, first fit). A core's load
  may not exceed `max_utilisation`. The model also covers counting the cores in
  use and summing utilisations.

Modules, one per file:

| module | file | what it holds |
|---|---|---|
| `Wrappers` | wrappers.dfy | `Option` |
| `Arith` | arith.dfy | ceiling division with Python semantics, lcm by search, `Max`, integer and real sums |
| `SystemModel` | system.dfy | task, dependency, core, device and link records |
| `Horizon` | horizon.dfy | hyperperiod, hyperoffset, makespan, `largeN` |
| `Instances` | instances.dfy | sentinel and activation instances, `create_task_instances` |
| `Lookups` | lookups.dfy | `format_tasks`, `get_source_tasks`, `get_task_data`, `get_device_delay`, `get_delay` |
| `Encoding` | encoding.dfy | exactly one core, AND linearisation, core-mismatch indicator, big-M pair, core-used indicator |
| `Schedule` | schedule.dfy | `update_schedule`, taking the solver's values as maps |
| `Utilities` | utilities.dfy | `MsToNs`, `calculate_utilisation` |
| `Heuristics` | heuristics.dfy | `sort_tasks`, and both heuristics as one run (`Pack`) over a choice policy |
| `HeuristicsLoop` | heuristics_loop.dfy | the loops as the scripts write them, proved equal to `Pack`; `count_used_cores` |

Both heuristics share one placement loop. `Assign` folds a `Choose` step over
the task utilisations. `Choose` is `WorstFit` (`cores.index(min(cores))`) or
`FirstFit` (the first core the task fits on). `Pack` then writes the label
`c{index + 1}` into each task. Both scripts define `sort_tasks` and
`lowest_utilisation` with identical bodies, so one model serves both.

The two `lowest_core_index` variants are modelled separately:
- the `for`-loop version in `heuristics.py` is `Pack(LowestCoreIndex, …)`;
- the `while`-loop version in `heuristics/heuristics.py` is the method
  `HeuristicsLoop.LowestCoreIndexWhile`, proved to return the same result.

## Model

| member | source | states |
|---|---|---|
| Utilities.MsToNs | utilities.py:10-11 | the nanosecond value divided by 1000000 gives back the milliseconds |
| Utilities.Utilisation | utilities.py:16-17 | one task's utilisation times its period gives back its wcet |
| Utilities.CalculateUtilisation | utilities.py:13-19 | the empty task set has utilisation 0; the sum is non-negative when every period is positive and every wcet non-negative |
| Utilities.UtilisationNonNegative | utilities.py:16-17 | one task's `wcet / period` is non-negative for a positive period and non-negative wcet |
| Utilities.UtilisationAppend | utilities.py:13-19 | the utilisation of `a + b` is the utilisation of `a` plus that of `b` |
| Utilities.UtilisationRemove | utilities.py:13-19 | removing the task at position `i` takes away exactly that task's utilisation |
| Utilities.UtilisationHead | utilities.py:13-19 | the first task's utilisation plus that of the rest is the whole |
| Utilities.UtilisationPermutation | utilities.py:13-19 | two task lists with the same multiset have the same utilisation |
| Utilities.PeriodsNonZeroPermutation | utilities.py:16-17 | a permutation of tasks with non-zero periods has non-zero periods |
| Arith.CeilDiv | ilp/multicore.py:464-466 | `math.ceil(a / b)` is the integer `r` with `(r - 1) * b < a <= r * b` for `b > 0`, mirrored for `b < 0` |
| Arith.Lcm | ilp/multicore.py:563-565 | `math.lcm` of two numbers is 0 when either is 0, otherwise the least positive common multiple |
| Arith.LcmDividesCommonMultiple | ilp/multicore.py:563-565 | every positive common multiple is a multiple of the lcm |
| Horizon.Hyperperiod | ilp/multicore.py:563-565 | 0 if some period is 0; otherwise a positive multiple of every period that divides every other positive common multiple |
| Horizon.LcmStep | ilp/multicore.py:563-565 | folding the lcm over one more period keeps it the least common multiple of all periods |
| Horizon.PeriodAtMostHyperperiod | ilp/multicore.py:563-565 | every period's magnitude is at most the hyperperiod |
| Horizon.Hyperoffset | ilp/multicore.py:568-570 | the largest initial offset: an upper bound attained by some task |
| Horizon.Makespan | ilp/multicore.py:573-576 | makespan minus hyperoffset is a whole number of hyperperiods, at least `2 * hyperperiod + 2000000` and less than one hyperperiod more |
| Horizon.LargeN | ilp/multicore.py:579-581 | `largeN` is twice the makespan, and exceeds it, which is positive, when no initial offset is negative |
| Horizon.RoundUpToHyperperiods | ilp/multicore.py:576 | rounding `2h + 2000000` up to a multiple of `h` stays below `3h + 2000000` |
| Instances.CreateNegativeInstance | ilp/multicore.py:484-490 | the sentinel is numbered -1, starts at `-N`, executes for the wcet, its window lasts the duration, and it ends before 0 when the duration is below `N` |
| Instances.CreateTaskInstance | ilp/multicore.py:492-505 | activation `k` carries wcet as execution time, a period-long window starting at `k * period + initialOffset`, and a duration-long LET window starting `activationOffset` later, inside the period window when the offsets allow |
| Instances.ActivationsAbut | ilp/multicore.py:492-496 | activation 0 starts at the initial offset, and each period window starts where the previous one ends |
| Instances.CreateInstances | ilp/multicore.py:462-471 | the sentinel first, then activations `0 .. n - 1` with `n = ceil((makespan - initialOffset) / period)` |
| Instances.InstanceCount | ilp/multicore.py:464-466 | for a positive period, the number of activations is 0 exactly when the makespan is at most the initial offset, and otherwise the least `n` whose `n` periods reach from the initial offset to the makespan; mirrored for a negative period, where the count is 0 exactly when the makespan is at least the initial offset |
| Instances.CreateTaskInstances | ilp/multicore.py:459-482 | one entry per task, in input order, with the task's name, initial offset and instance list |
| Instances.ActivationsCoverHorizon | ilp/multicore.py:464-470 | activation `k` exists if and only if its period window starts before the makespan |
| Instances.ExpansionWithinBigM | ilp/multicore.py:459-505 | for well-formed tasks every activation window lies in `[0, largeN]`, the sentinel ends before 0, and each task has at least three activations |
| Lookups.SourcesOf | ilp/multicore.py:551-557 | a name is a source exactly when some dependency not touching `__system` feeds the task from it |
| Lookups.SourcesOfAppend | ilp/multicore.py:551-557 | the sources of two stores in sequence are the sources of each, in dependency order |
| Lookups.GetSourceTasks | ilp/multicore.py:547-559 | no store means no sources; `__system` is never a source |
| Lookups.FormatTask | ilp/multicore.py:410-431 | a task's entry copies its name, activation offset, duration, period, wcet, core and device, and lists exactly the tasks that feed it |
| Lookups.FormatTasks | ilp/multicore.py:410-431 | one data entry per task, in order |
| Lookups.TaskDataIndex | ilp/multicore.py:507-510 | `next` over the data finds the first entry with the name |
| Lookups.GetTaskData | ilp/multicore.py:507-510 | the entry returned has the name and is the first entry with it |
| Lookups.FormattedLookup | ilp/multicore.py:410-431 | with distinct names, looking up a task's name gives that task's own formatted data |
| Lookups.FindProtocol | ilp/multicore.py:518-520 | the first delay entry for the protocol, or none if there is no such entry |
| Lookups.GetDeviceDelay | ilp/multicore.py:515-522 | the result is an entry for the protocol of a device with that name; `None` exactly when no such device offers the protocol |
| Lookups.GetDeviceDelayFirst | ilp/multicore.py:515-522 | the result is the first protocol entry of the first device with that name offering the protocol |
| Lookups.FindLink | ilp/multicore.py:528-529 | the first link from the source device to the destination device, or none if there is no such link |
| Lookups.GetDelay | ilp/multicore.py:524-538 | 0 on one device; the first matching link's delay plus both devices' tcp delay; `N` when no link matches |
| Lookups.DelayNonNegative | ilp/multicore.py:524-538 | with non-negative registered delays and `N`, the charged delay is non-negative |
| Encoding.AndLinearisation | ilp/multicore.py:245-258 | on binaries the three inequalities hold exactly when `psi == a * b` |
| Encoding.ExactlyOneCore | ilp/multicore.py:183-191 | a binary row sums to 1 if and only if it selects exactly one core, and that core is unique |
| Encoding.IndicatorsAreProducts | ilp/multicore.py:237-258 | under one-hot assignments the core-pair indicator is 1 exactly at the two assigned cores |
| Encoding.PsiTasksIsCoreMismatch | ilp/multicore.py:260-273 | `psi_tasks`, summed over distinct cores, is 1 when the tasks are on different cores and 0 when they share one |
| Encoding.LambdaIsAssignedDelay | ilp/multicore.py:314-326 | `lambda` equals the delay between the two cores the tasks are on |
| Encoding.BigMOrders | ilp/multicore.py:290-302 | with `psi_tasks == 0`, `b` decides which instance ends before the other starts |
| Encoding.BigMRelaxed | ilp/multicore.py:290-302 | with `psi_tasks == 1` and times in `[0, N]`, the pair holds whatever `b` is |
| Encoding.BigMComplete | ilp/multicore.py:290-302 | two disjoint intervals with times in `[0, N]` satisfy the pair with `psi_tasks == 0` for a suitable `b` |
| Encoding.SameCoreNoOverlap | ilp/multicore.py:260-302 | instances of tasks on the same core never overlap in a solution; on different cores the pair does not constrain them |
| Encoding.CoreUsedIndicator | ilp/multicore.py:306-310 | a binary core-used variable meeting both bounds is 1 exactly when some task is assigned to the core |
| Schedule.AssignedCore | ilp/multicore.py:441-442 | the last core, in store order, whose variable is 1; none exactly when no variable is 1 |
| Schedule.RealInstances | ilp/multicore.py:435-437 | the filter keeps exactly the instances numbered other than -1, all of them activations |
| Schedule.RealInstancesAppend | ilp/multicore.py:435-437 | the filter keeps order and multiplicity: filtering `a + b` is filtering `a` then `b` |
| Schedule.RealInstancesSingle | ilp/multicore.py:435-437 | a single instance passes exactly when it is not numbered -1 |
| Schedule.RealInstancesOfActivations | ilp/multicore.py:435-437 | a list of activations passes the filter unchanged |
| Schedule.ScheduleTask | ilp/multicore.py:434-457 | one task's kept instances, in order, each on the task's assigned core with the wcet and its own solved start and end, or untouched when unassigned |
| Schedule.UpdateSchedule | ilp/multicore.py:433-457 | the same for every task, keeping names, offsets and order |
| Schedule.InstancesShareCore | ilp/multicore.py:38-48 | since assignment is keyed by task name, all instances of a task share one core |
| Schedule.ScheduleOfExpansion | ilp/multicore.py:435-437 | on the expander's output, exactly the sentinel is dropped and activations `0 .. n - 1` remain |
| Schedule.AssignmentRow | ilp/multicore.py:184-191 | position `k` of the row is 1 exactly when the task is assigned to core `k` |
| Schedule.OneHotPlacement | ilp/multicore.py:183-199 | a solution meeting "exactly one core" places the task on the one core whose variable is 1 |
| Schedule.ScheduledWithinLet | ilp/multicore.py:210-222 | a solution meeting the timing constraints runs each placed instance for its wcet inside its LET window |
| Heuristics.Decimal | heuristics.py:87 | the decimal digits of a number: one digit exactly below 10, and no leading zero except for 0 itself |
| Heuristics.DecimalRoundTrip | heuristics.py:87 | reading the decimal digits back gives the number |
| Heuristics.DecimalInjective | heuristics.py:87 | different numbers have different decimal notations |
| Heuristics.CoreLabelInjective | heuristics.py:87 | labels `c{i + 1}` and `c{j + 1}` are equal exactly when `i == j` |
| Heuristics.InsertPermutes | heuristics.py:67-69 | inserting adds the task and nothing else |
| Heuristics.InsertOrdered | heuristics.py:67-69 | inserting into a non-increasing list keeps it non-increasing |
| Heuristics.SortTasks | heuristics.py:67-69 | `sort_tasks` returns a permutation of its input with non-increasing utilisation |
| Heuristics.InsertStable | heuristics.py:67-69 | inserting a task keeps the order of tasks with equal utilisation, with the inserted one first |
| Heuristics.SortTasksStable | heuristics.py:67-69 | tasks of equal utilisation keep their input order |
| Heuristics.SortKeepsUtilisation | heuristics.py:67-69 | sorting leaves the total utilisation unchanged |
| Heuristics.MinFrom | heuristics.py:79-80 | the first position from `i` on holding the least load |
| Heuristics.MinIndex | heuristics.py:79-80 | the least load's first position: no later core is lighter, no earlier core is as light |
| Heuristics.MinValue | heuristics.py:79 | `min(cores)` is an element no greater than any other |
| Heuristics.IndexOf | heuristics.py:80 | `list.index` finds the first position holding the value |
| Heuristics.MinIndexIsIndexOfMin | heuristics.py:79-80 | `cores.index(min(cores))` is the least-load first position |
| Heuristics.WorstFit | heuristics.py:79-89 | the lowest-index least-loaded core if the task fits there; `None` exactly when the task fits on no core |
| Heuristics.FirstFitFrom | heuristics.py:102-110 | the first core from `i` on that fits; `None` exactly when none from `i` on fits |
| Heuristics.FirstFit | heuristics.py:102-110 | the smallest index whose load plus the utilisation is within the bound; `None` exactly when none is |
| Heuristics.Choose | heuristics.py:72-115 | either policy picks a core that fits, and gives up exactly when no core fits |
| Heuristics.AssignLast | heuristics.py:74-89 | a run over `n + 1` shares is one more iteration after the run over `n` |
| Heuristics.Extend | heuristics.py:82-89 | an iteration keeps the number of cores and records one more core; it fails once an earlier iteration failed (its effect is stated by `Heuristics.ExtendEffect`) |
| Heuristics.Assign | heuristics.py:74-89 | a successful run keeps the number of cores and records one core per share (its effect is stated by the `Assign…` lemmas below) |
| Heuristics.ExtendEffect | heuristics.py:82-89 | an iteration succeeds exactly when some core fits; the chosen core alone gains the share and is recorded last |
| Heuristics.AssignStep | heuristics.py:74-89 | placing share `k` acts on the loads the first `k` placements left |
| Heuristics.AssignPrefix | heuristics.py:74-89 | a successful run placed every prefix of the tasks on the same cores |
| Heuristics.AssignTrace | heuristics.py:74-89 | on success, share `i` went to the core the policy picks for the loads after the first `i` placements |
| Heuristics.ExtendStuck | heuristics.py:112-113 | an iteration whose task fits on no core fails |
| Heuristics.StuckFails | heuristics.py:88-89 | once some task fits on no core, the run returns `None` |
| Heuristics.FailsStuck | heuristics.py:88-89 | a failing run got stuck at one of its own tasks |
| Heuristics.AssignFailsIffStuck | heuristics.py:112-113 | a run returns `None` exactly when some task, given the loads at that point, fits on no core |
| Heuristics.AssignWithinBound | heuristics.py:82-85 | every final load is its initial value or within the bound |
| Heuristics.AssignCoresInRange | heuristics.py:79-80 | every recorded core is one of the cores |
| Heuristics.ApplyLast | heuristics.py:85 | adding the last share touches only its recorded core |
| Heuristics.ExtendLoads | heuristics.py:85 | one iteration adds the share to the chosen core only |
| Heuristics.AssignLoads | heuristics.py:85 | the final loads are the initial loads plus each task's share on its recorded core, and nothing else |
| Heuristics.ApplyConserves | heuristics.py:85 | adding shares to cores in range raises the total load by the sum of the shares |
| Heuristics.AssignConservesLoad | heuristics.py:85 | the cores together gain exactly the sum of the shares |
| Heuristics.AssignNeverUnloads | heuristics.py:85 | with non-negative shares no load decreases |
| Heuristics.FirstFitStep | heuristics.py:102-110 | one first-fit placement keeps loads non-negative and gap-free, and moves past a core only if it is loaded |
| Heuristics.FirstFitKeepsBusyPrefix | heuristics/heuristics.py:79-88 | first fit from non-negative gap-free loads keeps them non-negative and gap-free |
| Heuristics.FirstFitExtendNoGaps | heuristics/heuristics.py:79-88 | one first-fit iteration keeps every placement on a core whose predecessor is loaded |
| Heuristics.FirstFitFillsPrefix | heuristics/heuristics.py:79-88 | under first fit, a task on core `c > 0` finds core `c - 1` loaded at the end |
| Heuristics.SharesPrefix | heuristics.py:74-77 | the utilisations of a prefix of the tasks are a prefix of the utilisations |
| Heuristics.SharesTotal | utilities.py:13-19 | the tasks' utilisations add up to `calculate_utilisation` |
| Heuristics.Pack | heuristics.py:72-91 | on success the cores and tasks keep their number and every final load is its initial value or within `max_utilisation`; within it from zero loads when `max_utilisation >= 0` (labels are stated by `Heuristics.PackTrace` and `Heuristics.PackLabels`) |
| Heuristics.PackTrace | heuristics.py:72-91 | on success task `i` carries the label of the core the policy picks for the loads the first `i` tasks left, and is otherwise unchanged |
| Heuristics.PackLabels | heuristics.py:87 | on success, every returned task is its input task with a label `c{k}`, `1 <= k <= len(cores)` |
| Heuristics.PackFailsIffStuck | heuristics.py:101-113 | a heuristic returns `None` exactly when some task, given the loads at that point, fits on no core |
| Heuristics.PackConservesLoad | heuristics.py:85 | the final loads add up to the initial loads plus the task set's utilisation |
| Heuristics.SharesNonNegative | utilities.py:16-17 | tasks with positive periods and non-negative wcets have non-negative utilisations |
| Heuristics.FirstFitLoadedBefore | heuristics/heuristics.py:79-88 | under first fit, when task `i` lands on core `c > 0`, core `c - 1` already carries load from the first `i` tasks |
| Heuristics.PackFirstFitNoGaps | heuristics/heuristics.py:79-88 | from zero loads, first fit fills a prefix of the cores: a task lands on core `c > 0` only if core `c - 1` is loaded at the moment it is placed, and so also at the end |
| HeuristicsLoop.ScanFinds | heuristics/heuristics.py:79-88 | a scan that stops at core `c` has found the first-fit core |
| HeuristicsLoop.PlaceNext | heuristics/heuristics.py:79-86 | a found core extends the run over the first `i` tasks by one placement |
| HeuristicsLoop.ScanFails | heuristics/heuristics.py:90-91 | a scan that finds no core means the run is stuck and the result is `None` |
| HeuristicsLoop.RunComplete | heuristics/heuristics.py:93 | a run over every task is the packing |
| HeuristicsLoop.ScanCores | heuristics/heuristics.py:79-88 | the inner `for` loop finds exactly the first-fit core |
| HeuristicsLoop.PlaceTask | heuristics/heuristics.py:73-91 | one outer iteration: stuck and `None`, or one placement recorded and the task labelled |
| HeuristicsLoop.LowestCoreIndexWhile | heuristics/heuristics.py:68-93 | the `while` loop returns what the `for`-loop first fit returns; on failure the caller's cores hold the loads of the tasks placed before the stuck one |
| HeuristicsLoop.PlaceLeast | heuristics.py:79-87 | placing a task on `cores.index(min(cores))` is a worst-fit step |
| HeuristicsLoop.LeastFails | heuristics.py:82-89 | a task that does not fit on the least-loaded core makes the run return `None` |
| HeuristicsLoop.LeastLoaded | heuristics.py:79-80 | `min` then `index` gives the least-load first position and its load |
| HeuristicsLoop.PlaceOnLeast | heuristics.py:74-89 | one loop iteration: stuck and `None`, or one worst-fit placement recorded and the task labelled |
| HeuristicsLoop.LowestUtilisationFor | heuristics.py:72-91 | the `for` loop returns the worst-fit packing; on failure the caller's cores hold the loads before the stuck task |
| HeuristicsLoop.LeastRunComplete | heuristics.py:91 | a worst-fit run over every task is the packing |
| HeuristicsLoop.UsedCores | heuristics/heuristics.py:120-126 | exactly the labels the tasks carry: at most one per task, at least one when there are tasks |
| HeuristicsLoop.CountUsedCores | heuristics/heuristics.py:120-126 | the number of distinct labels, at most the number of tasks, at least 1 for a non-empty list |
| HeuristicsLoop.LabelsBelow | heuristics.py:87 | the labels of the first `n` cores: all of them and nothing else, at most `n` |
| HeuristicsLoop.PackUsesAtMostCores | heuristics/heuristics.py:120-126 | a heuristic's output uses at most as many cores as there are, and no more than there are tasks |

## Left out

- The MILP itself is not modelled: building the problem with pulp, the variable dictionaries and the call to the Gurobi solver (`ilp/multicore.py:20-404`). The solver's values enter `Schedule.UpdateSchedule` as maps. The constraints are modelled only through the integer lemmas of `Encoding`, each stated for one task, one pair or one core.
- Floating point is not modelled. Utilisations and loads are exact reals, and `math.ceil` of a float quotient is exact integer ceiling division. Rounding at the `<= max_utilisation` boundary and on very large makespans is therefore not captured. Ties in the sort compare exact quotients, where Python compares floats.
- `varValue` is read as an exact integer. A solver value such as 0.9999999 that is not exactly 1 would count as "not assigned" in the source, and that is not represented.
- File, CSV and JSON input and output are left out: `main`, `save_system`, `save_results`, `save_to_file`, `save_system_to_json`, `save_result`, `prepare_system`. So are the command line in `main.py` and the random generators. None has a deterministic contract.
- `heuristics/heuristics.py:32-35` passes the same `cores` list to both heuristics, so `lowest_core_index` starts from the loads the worst-fit run left. `main` is not modelled, and each heuristic is modelled from the loads it is given. `heuristics.py:35-36` copies the list first.
- `ilp/multicore.py:204` uses an undefined name `cores`, and `main.py:120` unpacks three values from a two-value return. Both are in code that is not modelled.
- `get_device_delay` returning `None` makes `get_delay` crash at `ilp/multicore.py:533-534`. `Lookups.GetDelay` requires a tcp entry for both devices whenever a link between them exists (`DelayDefined`).
- `get_device_for_core` and `get_instances` are unused by the modelled operations and are not modelled.
- The source puts "core-mismatch" where a reading of the formulation would expect "same core": `psi_tasks` sums over `core1 != core2`. The model follows the code, so `Encoding.PsiTasksIsCoreMismatch` states the sum is 1 when the two tasks are on different cores.
- `Schedule.UpdateSchedule` records the solved start and end as they are. The `currentCore` field is folded into the placement's core.
- A heuristic that fails part-way has already changed `cores` in place, and has already written `task["core"]` into the dicts of the tasks placed before the stuck one. `Heuristics.Pack` returns only `None` then. The partial loads are stated by the `after` result of `HeuristicsLoop.LowestCoreIndexWhile` and `HeuristicsLoop.LowestUtilisationFor`. The partial labels are not: the model's tasks are values, so a failed run leaves the caller's tasks as they were.
- Heuristics.Pack: the worst-fit policy needs a core whenever there is a task (`MinDefined`), because `min([])` raises.
- Utilities.CalculateUtilisation, Utilities.Utilisation, Heuristics.SortTasks, Heuristics.Shares, Heuristics.Pack, Instances.CreateTaskInstances, Instances.InstanceCount, Horizon.Makespan and Horizon.LargeN require a non-zero period for every task (`PeriodsNonZero`). With a zero period the source divides by zero and raises `ZeroDivisionError`, and that error path is not modelled.
- Heuristics.Extend, Heuristics.Assign: their own contracts state only the sizes of the result; what an iteration and a run do is stated by separate lemmas (`ExtendEffect`, `AssignTrace`, `AssignLoads` and the others), because those facts in the functions' contracts make every proof that mentions them too costly for the verifier.
- Horizon.Hyperoffset: requires a non-empty task set, because `max([])` raises. `Makespan` and `LargeN` inherit this, and a non-zero period for every task.
