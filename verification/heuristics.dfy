/**
 The greedy partitioning heuristics: tasks sorted by utilisation, then placed
 one by one on a core whose load stays within the bound, either the least-loaded
 core (worst fit, `lowest_utilisation`) or the first core that fits (first fit,
 `lowest_core_index`). Loads and utilisations are exact reals.
 */
module Heuristics {
  import opened Wrappers
  import opened Arith
  import opened SystemModel
  import opened Utilities

  // Core labels

  function Digit(d: nat): (c: char)
    requires d < 10
    ensures '0' <= c <= '9'
  {
    ('0' as int + d) as char
  }

  /** Decimal notation of `n`, as an f-string writes it: no leading zero except for 0 itself. */
  function Decimal(n: nat): (s: string)
    ensures 1 <= |s|
    ensures n < 10 <==> |s| == 1
    ensures forall i :: 0 <= i < |s| ==> '0' <= s[i] <= '9'
    ensures s[0] == '0' ==> n == 0
    decreases n
  {
    if n < 10 then [Digit(n)] else Decimal(n / 10) + [Digit(n % 10)]
  }

  /** The number a string of decimal digits denotes, most significant digit first. */
  function DigitsValue(s: string): nat
    requires forall i :: 0 <= i < |s| ==> '0' <= s[i] <= '9'
  {
    if |s| == 0 then 0
    else DigitsValue(s[..|s| - 1]) * 10 + (s[|s| - 1] as int - '0' as int)
  }

  /** Reading the notation back gives the number. */
  lemma {:induction false} DecimalRoundTrip(n: nat)
    ensures DigitsValue(Decimal(n)) == n
    decreases n
  {
    var s := Decimal(n);
    if n >= 10 {
      assert s[..|s| - 1] == Decimal(n / 10);
      DecimalRoundTrip(n / 10);
    } else {
      assert s[..0] == [];
    }
  }

  /** Different numbers are written differently. */
  lemma {:induction false} DecimalInjective(n: nat, m: nat)
    ensures Decimal(n) == Decimal(m) ==> n == m
  {
    DecimalRoundTrip(n);
    DecimalRoundTrip(m);
  }

  /** The label `c{index + 1}` a heuristic writes into a task's `core` field. */
  function CoreLabel(index: nat): string {
    "c" + Decimal(index + 1)
  }

  /** A label names exactly one core position. */
  lemma {:induction false} CoreLabelInjective(i: nat, j: nat)
    ensures CoreLabel(i) == CoreLabel(j) <==> i == j
  {
    if CoreLabel(i) == CoreLabel(j) {
      assert CoreLabel(i)[1..] == Decimal(i + 1);
      assert CoreLabel(j)[1..] == Decimal(j + 1);
      DecimalInjective(i + 1, j + 1);
    }
  }

  // Sorting

  predicate NonIncreasing(tasks: seq<Task>)
    requires PeriodsNonZero(tasks)
  {
    forall i, j :: 0 <= i < j < |tasks| ==> Utilisation(tasks[i]) >= Utilisation(tasks[j])
  }

  /** Places `t` in front of the first task whose utilisation does not exceed its own. */
  function Insert(t: Task, s: seq<Task>): (r: seq<Task>)
    requires t.period != 0 && PeriodsNonZero(s)
    ensures |r| == |s| + 1
    ensures PeriodsNonZero(r)
  {
    if |s| == 0 then [t]
    else if Utilisation(s[0]) <= Utilisation(t) then [t] + s
    else
      assert PeriodsNonZero(s[1..]);
      [s[0]] + Insert(t, s[1..])
  }

  /** Insertion adds `t` and nothing else. */
  lemma {:induction false} InsertPermutes(t: Task, s: seq<Task>)
    requires t.period != 0 && PeriodsNonZero(s)
    ensures multiset(Insert(t, s)) == multiset(s) + multiset{t}
  {
    if |s| > 0 && Utilisation(s[0]) > Utilisation(t) {
      assert PeriodsNonZero(s[1..]);
      InsertPermutes(t, s[1..]);
      assert s == [s[0]] + s[1..];
    }
  }

  /** The head after insertion is `t` or the old head. */
  lemma {:induction false} InsertHead(t: Task, s: seq<Task>)
    requires t.period != 0 && PeriodsNonZero(s)
    ensures Insert(t, s)[0] == t || (|s| > 0 && Insert(t, s)[0] == s[0])
  {
  }

  /** Insertion into a non-increasing list keeps it non-increasing. */
  lemma {:induction false} InsertOrdered(t: Task, s: seq<Task>)
    requires t.period != 0 && PeriodsNonZero(s)
    requires NonIncreasing(s)
    ensures NonIncreasing(Insert(t, s))
  {
    if |s| > 0 && Utilisation(s[0]) > Utilisation(t) {
      var rest := s[1..];
      assert PeriodsNonZero(rest) && NonIncreasing(rest);
      InsertOrdered(t, rest);
      InsertHead(t, rest);
      var tail := Insert(t, rest);
      var r := Insert(t, s);
      assert r == [s[0]] + tail;
      assert Utilisation(s[0]) >= Utilisation(tail[0]);
      forall i, j | 0 <= i < j < |r|
        ensures Utilisation(r[i]) >= Utilisation(r[j])
      {
        if i == 0 {
          assert Utilisation(tail[0]) >= Utilisation(tail[j - 1]) || j == 1;
        } else {
          assert r[i] == tail[i - 1] && r[j] == tail[j - 1];
        }
      }
    }
  }

  /**
   `sort_tasks`: `list.sort` on `wcet / period` with `reverse=True`, a stable sort
   into non-increasing utilisation.
   */
  function SortTasks(tasks: seq<Task>): (sorted: seq<Task>)
    requires PeriodsNonZero(tasks)
    ensures |sorted| == |tasks|
    ensures multiset(sorted) == multiset(tasks)
    ensures PeriodsNonZero(sorted)
    ensures NonIncreasing(sorted)
  {
    if |tasks| == 0 then []
    else
      assert tasks == [tasks[0]] + tasks[1..];
      assert PeriodsNonZero(tasks[1..]);
      var rest := SortTasks(tasks[1..]);
      InsertPermutes(tasks[0], rest);
      InsertOrdered(tasks[0], rest);
      Insert(tasks[0], rest)
  }

  /** The tasks of `s` whose utilisation is `v`, in order. */
  function WithUtilisation(s: seq<Task>, v: real): seq<Task>
    requires PeriodsNonZero(s)
  {
    if |s| == 0 then []
    else
      assert PeriodsNonZero(s[1..]);
      (if Utilisation(s[0]) == v then [s[0]] else []) + WithUtilisation(s[1..], v)
  }

  lemma {:induction false} InsertStable(t: Task, s: seq<Task>, v: real)
    requires t.period != 0 && PeriodsNonZero(s)
    ensures WithUtilisation(Insert(t, s), v) == (if Utilisation(t) == v then [t] else []) + WithUtilisation(s, v)
  {
    if |s| > 0 && Utilisation(s[0]) > Utilisation(t) {
      assert PeriodsNonZero(s[1..]);
      InsertStable(t, s[1..], v);
      var r := Insert(t, s);
      assert r[1..] == Insert(t, s[1..]);
    } else if |s| > 0 {
      assert ([t] + s)[1..] == s;
    }
  }

  /** The sort is stable: tasks of equal utilisation keep their input order. */
  lemma {:induction false} SortTasksStable(tasks: seq<Task>, v: real)
    requires PeriodsNonZero(tasks)
    ensures WithUtilisation(SortTasks(tasks), v) == WithUtilisation(tasks, v)
  {
    if |tasks| > 0 {
      assert PeriodsNonZero(tasks[1..]);
      SortTasksStable(tasks[1..], v);
      InsertStable(tasks[0], SortTasks(tasks[1..]), v);
    }
  }

  /** Sorting does not change the total utilisation of the task set. */
  lemma {:induction false} SortKeepsUtilisation(tasks: seq<Task>)
    requires PeriodsNonZero(tasks)
    ensures CalculateUtilisation(SortTasks(tasks)) == CalculateUtilisation(tasks)
  {
    UtilisationPermutation(tasks, SortTasks(tasks));
  }

  // Choosing a core

  /** A task of utilisation `u` fits on core `j` without exceeding the bound. */
  predicate Fits(loads: seq<real>, j: int, u: real, maxU: real)
    requires 0 <= j < |loads|
  {
    loads[j] + u <= maxU
  }

  /** Core `i` carries no more load than core `j`. */
  predicate AtMost(loads: seq<real>, i: int, j: int)
    requires 0 <= i < |loads| && 0 <= j < |loads|
  {
    loads[i] <= loads[j]
  }

  /** The first position holding the least load among positions `i` onwards. */
  function MinFrom(loads: seq<real>, i: nat): (m: nat)
    requires i < |loads|
    ensures i <= m < |loads|
    ensures forall j :: i <= j < |loads| ==> AtMost(loads, m, j)
    ensures forall j :: i <= j < m ==> !AtMost(loads, j, m)
    decreases |loads| - i
  {
    if i == |loads| - 1 then i
    else
      var k := MinFrom(loads, i + 1);
      if loads[i] <= loads[k] then
        assert forall j :: i < j < |loads| ==> AtMost(loads, i, j) by {
          forall j | i < j < |loads|
            ensures AtMost(loads, i, j)
          {
            assert AtMost(loads, k, j);
          }
        }
        i
      else
        assert !AtMost(loads, i, k);
        k
  }

  /** `cores.index(min(cores))`: the first position holding the least load. */
  function MinIndex(loads: seq<real>): (i: nat)
    requires |loads| > 0
    ensures i < |loads|
    ensures forall j :: 0 <= j < |loads| ==> AtMost(loads, i, j)
    ensures forall j :: 0 <= j < i ==> !AtMost(loads, j, i)
  {
    MinFrom(loads, 0)
  }

  /** `min(cores)`: the least load. */
  function MinValue(loads: seq<real>): (m: real)
    requires |loads| > 0
    ensures m in loads
    ensures forall j :: 0 <= j < |loads| ==> m <= loads[j]
  {
    if |loads| == 1 then loads[0]
    else
      var rest := MinValue(loads[1..]);
      if loads[0] <= rest then loads[0] else rest
  }

  /** `list.index(v)`: the first position holding `v`. */
  function IndexOf(loads: seq<real>, v: real): (i: nat)
    requires v in loads
    ensures i < |loads| && loads[i] == v
    ensures forall j :: 0 <= j < i ==> loads[j] != v
  {
    if loads[0] == v then 0 else 1 + IndexOf(loads[1..], v)
  }

  /** The one-pass search finds what `cores.index(min(cores))` finds. */
  lemma {:induction false} MinIndexIsIndexOfMin(loads: seq<real>)
    requires |loads| > 0
    ensures MinIndex(loads) == IndexOf(loads, MinValue(loads))
  {
    var m, v := MinIndex(loads), MinValue(loads);
    assert AtMost(loads, m, IndexOf(loads, v));
    assert loads[m] == v;
    assert AtMost(loads, IndexOf(loads, v), m);
  }

  /** The least-loaded core if the task fits there (`lowest_utilisation`, one step). */
  function WorstFit(loads: seq<real>, u: real, maxU: real): (r: Option<nat>)
    requires |loads| > 0
    ensures r.Some? ==> r.value < |loads| && Fits(loads, r.value, u, maxU)
    ensures r.Some? ==> forall j :: 0 <= j < |loads| ==> AtMost(loads, r.value, j)
    ensures r.Some? ==> forall j :: 0 <= j < r.value ==> !AtMost(loads, j, r.value)
    ensures r.None? <==> forall j :: 0 <= j < |loads| ==> !Fits(loads, j, u, maxU)
  {
    var i := MinIndex(loads);
    if loads[i] + u <= maxU then assert Fits(loads, i, u, maxU); Some(i)
    else
      assert forall j :: 0 <= j < |loads| ==> AtMost(loads, i, j) && !Fits(loads, j, u, maxU);
      None
  }

  /** The first core from position `i` on that the task fits on. */
  function FirstFitFrom(loads: seq<real>, u: real, maxU: real, i: nat): (r: Option<nat>)
    requires i <= |loads|
    ensures r.Some? ==> i <= r.value < |loads| && Fits(loads, r.value, u, maxU)
    ensures r.Some? ==> forall j :: i <= j < r.value ==> !Fits(loads, j, u, maxU)
    ensures r.None? <==> forall j :: i <= j < |loads| ==> !Fits(loads, j, u, maxU)
    decreases |loads| - i
  {
    if i == |loads| then None
    else if loads[i] + u <= maxU then assert Fits(loads, i, u, maxU); Some(i)
    else FirstFitFrom(loads, u, maxU, i + 1)
  }

  /** The first core the task fits on (`lowest_core_index`, one step). */
  function FirstFit(loads: seq<real>, u: real, maxU: real): (r: Option<nat>)
    ensures r.Some? ==> r.value < |loads| && Fits(loads, r.value, u, maxU)
    ensures r.Some? ==> forall j :: 0 <= j < r.value ==> !Fits(loads, j, u, maxU)
    ensures r.None? <==> forall j :: 0 <= j < |loads| ==> !Fits(loads, j, u, maxU)
  {
    FirstFitFrom(loads, u, maxU, 0)
  }

  datatype Policy = LowestUtilisation | LowestCoreIndex

  /** `min` of an empty list raises: worst fit needs a core as soon as there is something to place. */
  predicate MinDefined(policy: Policy, loads: seq<real>, count: nat) {
    policy.LowestUtilisation? && count > 0 ==> |loads| > 0
  }

  /** The core a policy picks; either policy gives up exactly when the task fits on no core. */
  function Choose(policy: Policy, loads: seq<real>, u: real, maxU: real): (r: Option<nat>)
    requires MinDefined(policy, loads, 1)
    ensures r.Some? ==> r.value < |loads| && Fits(loads, r.value, u, maxU)
    ensures r.None? <==> forall j :: 0 <= j < |loads| ==> !Fits(loads, j, u, maxU)
  {
    match policy
    case LowestUtilisation => WorstFit(loads, u, maxU)
    case LowestCoreIndex => FirstFit(loads, u, maxU)
  }

  // Placing utilisations

  /** What the placement loop leaves: the core loads and the core chosen for each share, in order. */
  datatype Allocation = Allocation(loads: seq<real>, cores: seq<nat>)

  /** One iteration: the share goes on the core the policy picks and that core's load grows by it. */
  function Extend(policy: Policy, prev: Option<Allocation>, share: real, maxU: real): (r: Option<Allocation>)
    requires prev.Some? ==> MinDefined(policy, prev.value.loads, 1)
    ensures r.Some? ==> prev.Some? && |r.value.loads| == |prev.value.loads| && |r.value.cores| == |prev.value.cores| + 1
  {
    match prev
    case None => None
    case Some(a) =>
      match Choose(policy, a.loads, share, maxU)
      case None => None
      case Some(c) => Some(Allocation(a.loads[c := a.loads[c] + share], a.cores + [c]))
  }

  /**
   The placement loop of both heuristics over the tasks' utilisations, written as
   what it holds after its last iteration. A share that fits nowhere ends the run with `None`.
   */
  function Assign(policy: Policy, loads: seq<real>, shares: seq<real>, maxU: real): (r: Option<Allocation>)
    requires MinDefined(policy, loads, |shares|)
    ensures r.Some? ==> |r.value.loads| == |loads| && |r.value.cores| == |shares|
    decreases |shares|
  {
    if |shares| == 0 then Some(Allocation(loads, []))
    else Extend(policy, Assign(policy, loads, shares[..|shares| - 1], maxU), shares[|shares| - 1], maxU)
  }

  lemma {:induction false} TakeTake<T>(s: seq<T>, n: nat, k: nat)
    requires k <= n <= |s|
    ensures s[..n][..k] == s[..k]
  {
  }

  lemma {:induction false} TakeAppend<T>(s: seq<T>, x: T, k: nat)
    requires k <= |s|
    ensures (s + [x])[..k] == s[..k]
  {
  }

  lemma {:induction false} AssignLast(policy: Policy, loads: seq<real>, shares: seq<real>, maxU: real)
    requires MinDefined(policy, loads, |shares|) && |shares| > 0
    ensures Assign(policy, loads, shares, maxU) ==
      Extend(policy, Assign(policy, loads, shares[..|shares| - 1], maxU), shares[|shares| - 1], maxU)
  {
  }

  /**
   One iteration succeeds exactly when the previous ones did and some core fits
   the share; the chosen core is one that fits, it alone gains the share, and it
   is recorded last.
   */
  lemma {:induction false} ExtendEffect(policy: Policy, prev: Option<Allocation>, share: real, maxU: real)
    requires prev.Some? ==> MinDefined(policy, prev.value.loads, 1)
    ensures Extend(policy, prev, share, maxU).Some? <==>
      prev.Some? && exists j :: 0 <= j < |prev.value.loads| && Fits(prev.value.loads, j, share, maxU)
    ensures Extend(policy, prev, share, maxU).Some? ==>
      var a, b := prev.value, Extend(policy, prev, share, maxU).value;
      var c := b.cores[|b.cores| - 1];
      && c < |a.loads| && Fits(a.loads, c, share, maxU)
      && b.cores == a.cores + [c]
      && b.loads == a.loads[c := a.loads[c] + share]
  {
  }

  /** Placing share `k` acts on what the first `k` placements left. */
  lemma {:induction false} AssignStep(policy: Policy, loads: seq<real>, shares: seq<real>, maxU: real, k: nat)
    requires MinDefined(policy, loads, |shares|) && k < |shares|
    ensures Assign(policy, loads, shares[..k + 1], maxU) ==
      Extend(policy, Assign(policy, loads, shares[..k], maxU), shares[k], maxU)
  {
    TakeTake(shares, k + 1, k);
  }

  /** A successful run has placed every prefix of the shares, on the same cores. */
  lemma {:induction false} AssignPrefix(policy: Policy, loads: seq<real>, shares: seq<real>, maxU: real, k: nat)
    requires MinDefined(policy, loads, |shares|) && k <= |shares|
    requires Assign(policy, loads, shares, maxU).Some?
    ensures Assign(policy, loads, shares[..k], maxU).Some?
    ensures Assign(policy, loads, shares[..k], maxU).value.cores == Assign(policy, loads, shares, maxU).value.cores[..k]
    decreases |shares|
  {
    if k == |shares| {
      assert shares[..k] == shares;
    } else {
      var n := |shares| - 1;
      var prev := Assign(policy, loads, shares[..n], maxU);
      ExtendEffect(policy, prev, shares[n], maxU);
      AssignPrefix(policy, loads, shares[..n], maxU, k);
      TakeTake(shares, n, k);
      var a, b := prev.value, Assign(policy, loads, shares, maxU).value;
      TakeAppend(a.cores, b.cores[n], k);
    }
  }

  /** On success, share `i` went to the core the policy picks for the loads left by the first `i` placements. */
  lemma {:induction false} AssignTrace(policy: Policy, loads: seq<real>, shares: seq<real>, maxU: real, i: nat)
    requires MinDefined(policy, loads, |shares|) && i < |shares|
    requires Assign(policy, loads, shares, maxU).Some?
    ensures Assign(policy, loads, shares[..i], maxU).Some?
    ensures Choose(policy, Assign(policy, loads, shares[..i], maxU).value.loads, shares[i], maxU)
      == Some(Assign(policy, loads, shares, maxU).value.cores[i])
  {
    AssignPrefix(policy, loads, shares, maxU, i + 1);
    AssignStep(policy, loads, shares, maxU, i);
    var b := Assign(policy, loads, shares[..i + 1], maxU).value;
    assert b.cores[i] == Assign(policy, loads, shares, maxU).value.cores[i];
  }

  /** The run is stuck at share `k`: the first `k` shares were placed and share `k` fits on no core. */
  predicate StuckAt(policy: Policy, loads: seq<real>, shares: seq<real>, maxU: real, k: nat)
    requires MinDefined(policy, loads, |shares|) && k < |shares|
  {
    && Assign(policy, loads, shares[..k], maxU).Some?
    && var before := Assign(policy, loads, shares[..k], maxU).value.loads;
      forall j :: 0 <= j < |before| ==> !Fits(before, j, shares[k], maxU)
  }

  /** An iteration whose share fits on no core fails. */
  lemma {:induction false} ExtendStuck(policy: Policy, prev: Option<Allocation>, share: real, maxU: real)
    requires prev.Some? && MinDefined(policy, prev.value.loads, 1)
    requires forall j :: 0 <= j < |prev.value.loads| ==> !Fits(prev.value.loads, j, share, maxU)
    ensures Extend(policy, prev, share, maxU).None?
  {
    ExtendEffect(policy, prev, share, maxU);
  }

  /** Once the run is stuck at share `k`, it fails. */
  lemma {:induction false} StuckFails(policy: Policy, loads: seq<real>, shares: seq<real>, maxU: real, k: nat)
    requires MinDefined(policy, loads, |shares|) && k < |shares|
    requires StuckAt(policy, loads, shares, maxU, k)
    ensures Assign(policy, loads, shares, maxU).None?
    decreases |shares|
  {
    var n := |shares| - 1;
    if k < n {
      TakeTake(shares, n, k);
      StuckFails(policy, loads, shares[..n], maxU, k);
    } else {
      ExtendStuck(policy, Assign(policy, loads, shares[..k], maxU), shares[k], maxU);
    }
  }

  /** A failing prefix of the shares got stuck at one of its own shares. */
  lemma {:induction false} FailsStuck(policy: Policy, loads: seq<real>, shares: seq<real>, maxU: real, m: nat)
    requires MinDefined(policy, loads, |shares|) && 0 < m <= |shares|
    requires Assign(policy, loads, shares[..m], maxU).None?
    ensures exists k :: 0 <= k < m && StuckAt(policy, loads, shares, maxU, k)
  {
    AssignStep(policy, loads, shares, maxU, m - 1);
    var prev := Assign(policy, loads, shares[..m - 1], maxU);
    ExtendEffect(policy, prev, shares[m - 1], maxU);
    if prev.Some? {
      assert StuckAt(policy, loads, shares, maxU, m - 1);
    } else {
      FailsStuck(policy, loads, shares, maxU, m - 1);
      var k :| 0 <= k < m - 1 && StuckAt(policy, loads, shares, maxU, k);
      assert 0 <= k < m && StuckAt(policy, loads, shares, maxU, k);
    }
  }

  /** A run returns `None` exactly when some share, given the loads at that point, fits on no core. */
  lemma {:induction false} AssignFailsIffStuck(policy: Policy, loads: seq<real>, shares: seq<real>, maxU: real)
    requires MinDefined(policy, loads, |shares|)
    ensures Assign(policy, loads, shares, maxU).None? <==>
      exists k :: 0 <= k < |shares| && StuckAt(policy, loads, shares, maxU, k)
  {
    assert shares[..|shares|] == shares;
    if Assign(policy, loads, shares, maxU).None? {
      FailsStuck(policy, loads, shares, maxU, |shares|);
    }
    if exists k :: 0 <= k < |shares| && StuckAt(policy, loads, shares, maxU, k) {
      var k :| 0 <= k < |shares| && StuckAt(policy, loads, shares, maxU, k);
      StuckFails(policy, loads, shares, maxU, k);
    }
  }

  /** Every final load is its initial value or within the bound. */
  lemma {:induction false} AssignWithinBound(policy: Policy, loads: seq<real>, shares: seq<real>, maxU: real)
    requires MinDefined(policy, loads, |shares|)
    requires Assign(policy, loads, shares, maxU).Some?
    ensures var a := Assign(policy, loads, shares, maxU).value;
      forall k :: 0 <= k < |loads| ==> a.loads[k] == loads[k] || a.loads[k] <= maxU
    decreases |shares|
  {
    if |shares| > 0 {
      var n := |shares| - 1;
      ExtendEffect(policy, Assign(policy, loads, shares[..n], maxU), shares[n], maxU);
      AssignWithinBound(policy, loads, shares[..n], maxU);
    }
  }

  /** The loads after adding each share to the core recorded for it; a share recorded off the end is dropped. */
  function Apply(loads: seq<real>, shares: seq<real>, cores: seq<nat>): (r: seq<real>)
    requires |cores| == |shares|
    ensures |r| == |loads|
    decreases |shares|
  {
    if |shares| == 0 then loads
    else
      var n := |shares| - 1;
      var before := Apply(loads, shares[..n], cores[..n]);
      if cores[n] < |before| then before[cores[n] := before[cores[n]] + shares[n]] else before
  }

  /** Every recorded core is one of the cores. */
  lemma {:induction false} AssignCoresInRange(policy: Policy, loads: seq<real>, shares: seq<real>, maxU: real)
    requires MinDefined(policy, loads, |shares|)
    requires Assign(policy, loads, shares, maxU).Some?
    ensures forall i :: 0 <= i < |shares| ==> Assign(policy, loads, shares, maxU).value.cores[i] < |loads|
    decreases |shares|
  {
    if |shares| > 0 {
      var n := |shares| - 1;
      var prev := Assign(policy, loads, shares[..n], maxU);
      ExtendEffect(policy, prev, shares[n], maxU);
      AssignCoresInRange(policy, loads, shares[..n], maxU);
    }
  }

  /** The last recorded core takes the last share. */
  lemma {:induction false} ApplyLast(loads: seq<real>, shares: seq<real>, cores: seq<nat>)
    requires |cores| == |shares| > 0
    requires cores[|shares| - 1] < |loads|
    ensures var n := |shares| - 1; var before := Apply(loads, shares[..n], cores[..n]);
      Apply(loads, shares, cores) == before[cores[n] := before[cores[n]] + shares[n]]
  {
  }

  /** One iteration on loads that `Apply` accounts for leaves loads it accounts for. */
  lemma {:induction false} ExtendLoads(policy: Policy, prev: Option<Allocation>, maxU: real, loads: seq<real>, shares: seq<real>)
    requires |shares| > 0
    requires prev.Some? && MinDefined(policy, prev.value.loads, 1)
    requires |prev.value.cores| == |shares| - 1
    requires prev.value.loads == Apply(loads, shares[..|shares| - 1], prev.value.cores)
    requires Extend(policy, prev, shares[|shares| - 1], maxU).Some?
    ensures var b := Extend(policy, prev, shares[|shares| - 1], maxU).value;
      b.loads == Apply(loads, shares, b.cores)
  {
    var n := |shares| - 1;
    ExtendEffect(policy, prev, shares[n], maxU);
    var b := Extend(policy, prev, shares[n], maxU).value;
    assert b.cores[..n] == prev.value.cores;
    ApplyLast(loads, shares, b.cores);
  }

  /** A successful run leaves exactly the loads its recorded cores account for. */
  lemma {:induction false} AssignLoads(policy: Policy, loads: seq<real>, shares: seq<real>, maxU: real)
    requires MinDefined(policy, loads, |shares|)
    requires Assign(policy, loads, shares, maxU).Some?
    ensures Assign(policy, loads, shares, maxU).value.loads == Apply(loads, shares, Assign(policy, loads, shares, maxU).value.cores)
    decreases |shares|
  {
    if |shares| > 0 {
      var n := |shares| - 1;
      AssignLoads(policy, loads, shares[..n], maxU);
      ExtendLoads(policy, Assign(policy, loads, shares[..n], maxU), maxU, loads, shares);
    }
  }

  lemma {:induction false} ApplyConserves(loads: seq<real>, shares: seq<real>, cores: seq<nat>)
    requires |cores| == |shares|
    requires forall i :: 0 <= i < |cores| ==> cores[i] < |loads|
    ensures SumReal(Apply(loads, shares, cores)) == SumReal(loads) + SumReal(shares)
    decreases |shares|
  {
    if |shares| > 0 {
      var n := |shares| - 1;
      ApplyConserves(loads, shares[..n], cores[..n]);
      SumRealLast(shares);
      var before := Apply(loads, shares[..n], cores[..n]);
      SumRealUpdate(before, cores[n], before[cores[n]] + shares[n]);
    }
  }

  /** Load is conserved: the cores together gain exactly the sum of the shares. */
  lemma {:induction false} AssignConservesLoad(policy: Policy, loads: seq<real>, shares: seq<real>, maxU: real)
    requires MinDefined(policy, loads, |shares|)
    requires Assign(policy, loads, shares, maxU).Some?
    ensures SumReal(Assign(policy, loads, shares, maxU).value.loads) == SumReal(loads) + SumReal(shares)
  {
    AssignLoads(policy, loads, shares, maxU);
    AssignCoresInRange(policy, loads, shares, maxU);
    ApplyConserves(loads, shares, Assign(policy, loads, shares, maxU).value.cores);
  }

  predicate NonNegative(xs: seq<real>) {
    forall k :: 0 <= k < |xs| ==> xs[k] >= 0.0
  }

  /** Cores are filled from the front: a loaded core never follows an empty one. */
  predicate BusyPrefix(loads: seq<real>) {
    forall k :: 0 < k < |loads| && loads[k] > 0.0 ==> loads[k - 1] > 0.0
  }

  /** With non-negative shares no load ever decreases. */
  lemma {:induction false} AssignNeverUnloads(policy: Policy, loads: seq<real>, shares: seq<real>, maxU: real)
    requires MinDefined(policy, loads, |shares|) && NonNegative(shares)
    requires Assign(policy, loads, shares, maxU).Some?
    ensures forall k :: 0 <= k < |loads| ==> Assign(policy, loads, shares, maxU).value.loads[k] >= loads[k]
    decreases |shares|
  {
    if |shares| > 0 {
      var n := |shares| - 1;
      ExtendEffect(policy, Assign(policy, loads, shares[..n], maxU), shares[n], maxU);
      assert NonNegative(shares[..n]);
      AssignNeverUnloads(policy, loads, shares[..n], maxU);
    }
  }

  /** One first-fit placement keeps the loads non-negative and gap-free, and moves past a core only if it is loaded. */
  lemma {:induction false} FirstFitStep(loads: seq<real>, u: real, maxU: real)
    requires NonNegative(loads) && BusyPrefix(loads) && u >= 0.0
    requires FirstFit(loads, u, maxU).Some?
    ensures var c := FirstFit(loads, u, maxU).value;
      && NonNegative(loads[c := loads[c] + u])
      && BusyPrefix(loads[c := loads[c] + u])
      && (c > 0 ==> loads[c - 1] > 0.0)
  {
    var c := FirstFit(loads, u, maxU).value;
    if c > 0 {
      assert !Fits(loads, c - 1, u, maxU);
    }
  }

  /** First fit from non-negative loads with no gaps keeps the loads non-negative and gap-free. */
  lemma {:induction false} FirstFitKeepsBusyPrefix(loads: seq<real>, shares: seq<real>, maxU: real)
    requires NonNegative(shares) && NonNegative(loads) && BusyPrefix(loads)
    requires Assign(LowestCoreIndex, loads, shares, maxU).Some?
    ensures NonNegative(Assign(LowestCoreIndex, loads, shares, maxU).value.loads)
    ensures BusyPrefix(Assign(LowestCoreIndex, loads, shares, maxU).value.loads)
    decreases |shares|
  {
    if |shares| > 0 {
      var n := |shares| - 1;
      AssignLast(LowestCoreIndex, loads, shares, maxU);
      assert NonNegative(shares[..n]);
      FirstFitKeepsBusyPrefix(loads, shares[..n], maxU);
      FirstFitStep(Assign(LowestCoreIndex, loads, shares[..n], maxU).value.loads, shares[n], maxU);
    }
  }

  /** Every recorded core exists, and a core other than the first was only used once its predecessor carried load. */
  predicate NoGaps(a: Allocation) {
    forall i :: 0 <= i < |a.cores| ==> a.cores[i] < |a.loads| && (a.cores[i] > 0 ==> a.loads[a.cores[i] - 1] > 0.0)
  }

  /** One first-fit iteration from gap-free non-negative loads keeps the allocation free of gaps. */
  lemma {:induction false} FirstFitExtendNoGaps(prev: Option<Allocation>, share: real, maxU: real)
    requires prev.Some? && NoGaps(prev.value)
    requires NonNegative(prev.value.loads) && BusyPrefix(prev.value.loads) && share >= 0.0
    requires Extend(LowestCoreIndex, prev, share, maxU).Some?
    ensures NoGaps(Extend(LowestCoreIndex, prev, share, maxU).value)
  {
    var a, b := prev.value, Extend(LowestCoreIndex, prev, share, maxU).value;
    ExtendEffect(LowestCoreIndex, prev, share, maxU);
    FirstFitStep(a.loads, share, maxU);
    forall i | 0 <= i < |b.cores|
      ensures b.cores[i] < |b.loads| && (b.cores[i] > 0 ==> b.loads[b.cores[i] - 1] > 0.0)
    {
      if i < |a.cores| {
        assert b.cores[i] == a.cores[i];
      }
    }
  }

  /**
   Under first fit, a share placed on core `c > 0` finds core `c - 1` loaded at
   the end: a task only moves on to a core when the previous one is already in use.
   */
  lemma {:induction false} FirstFitFillsPrefix(loads: seq<real>, shares: seq<real>, maxU: real)
    requires NonNegative(shares) && NonNegative(loads) && BusyPrefix(loads)
    requires Assign(LowestCoreIndex, loads, shares, maxU).Some?
    ensures NoGaps(Assign(LowestCoreIndex, loads, shares, maxU).value)
    decreases |shares|
  {
    if |shares| > 0 {
      var n := |shares| - 1;
      assert NonNegative(shares[..n]);
      FirstFitFillsPrefix(loads, shares[..n], maxU);
      FirstFitKeepsBusyPrefix(loads, shares[..n], maxU);
      FirstFitExtendNoGaps(Assign(LowestCoreIndex, loads, shares[..n], maxU), shares[n], maxU);
    }
  }

  // Labelling tasks

  /** A task's utilisation, one per task, in order. */
  function Shares(tasks: seq<Task>): (s: seq<real>)
    requires PeriodsNonZero(tasks)
    ensures |s| == |tasks|
  {
    seq(|tasks|, i requires 0 <= i < |tasks| => Utilisation(tasks[i]))
  }

  lemma {:induction false} SharesPrefix(tasks: seq<Task>, k: nat)
    requires PeriodsNonZero(tasks) && k <= |tasks|
    ensures PeriodsNonZero(tasks[..k])
    ensures Shares(tasks)[..k] == Shares(tasks[..k])
  {
    assert PeriodsNonZero(tasks[..k]);
  }

  /** The shares add up to the utilisation of the task set. */
  lemma {:induction false} SharesTotal(tasks: seq<Task>)
    requires PeriodsNonZero(tasks)
    ensures SumReal(Shares(tasks)) == CalculateUtilisation(tasks)
    decreases |tasks|
  {
    if |tasks| > 0 {
      var n := |tasks| - 1;
      SharesPrefix(tasks, n);
      SharesTotal(tasks[..n]);
      SumRealLast(Shares(tasks));
    }
  }

  /** Each task gets the label of its core, and nothing else of it changes. */
  function Label(tasks: seq<Task>, cores: seq<nat>): (labelled: seq<Task>)
    requires |cores| == |tasks|
    ensures |labelled| == |tasks|
  {
    seq(|tasks|, i requires 0 <= i < |tasks| => tasks[i].(core := Some(CoreLabel(cores[i]))))
  }

  predicate Applicable(policy: Policy, loads: seq<real>, tasks: seq<Task>) {
    PeriodsNonZero(tasks) && MinDefined(policy, loads, |tasks|)
  }

  /** What a successful run leaves: the core loads and the labelled tasks. */
  datatype Packing = Packing(loads: seq<real>, tasks: seq<Task>)

  /**
   `lowest_utilisation` and `lowest_core_index`: every task in turn goes on the
   core the policy picks, labelled `c{index + 1}`; `None` once a task fits nowhere.
   */
  function Pack(policy: Policy, loads: seq<real>, tasks: seq<Task>, maxU: real): (r: Option<Packing>)
    requires Applicable(policy, loads, tasks)
    ensures r.Some? ==> |r.value.loads| == |loads| && |r.value.tasks| == |tasks|
    ensures r.Some? ==> forall k :: 0 <= k < |loads| ==> r.value.loads[k] == loads[k] || r.value.loads[k] <= maxU
  {
    match Assign(policy, loads, Shares(tasks), maxU)
    case None => None
    case Some(a) =>
      AssignWithinBound(policy, loads, Shares(tasks), maxU);
      Some(Packing(a.loads, Label(tasks, a.cores)))
  }

  /**
   On success, task `i` is labelled with the core the policy picks for its
   utilisation and the loads left by the first `i` tasks, and is otherwise unchanged.
   */
  lemma {:induction false} PackTrace(policy: Policy, loads: seq<real>, tasks: seq<Task>, maxU: real, i: nat)
    requires Applicable(policy, loads, tasks) && i < |tasks|
    requires Pack(policy, loads, tasks, maxU).Some?
    ensures Applicable(policy, loads, tasks[..i])
    ensures Pack(policy, loads, tasks[..i], maxU).Some?
    ensures Choose(policy, Pack(policy, loads, tasks[..i], maxU).value.loads, Utilisation(tasks[i]), maxU).Some?
    ensures Pack(policy, loads, tasks, maxU).value.tasks[i] == tasks[i].(core := Some(CoreLabel(
      Choose(policy, Pack(policy, loads, tasks[..i], maxU).value.loads, Utilisation(tasks[i]), maxU).value)))
  {
    SharesPrefix(tasks, i);
    AssignTrace(policy, loads, Shares(tasks), maxU, i);
  }

  /**
   A successful run returns the same tasks in the same order, each changed only
   in its `core` field, which names one of the cores.
   */
  lemma {:induction false} PackLabels(policy: Policy, loads: seq<real>, tasks: seq<Task>, maxU: real)
    requires Applicable(policy, loads, tasks)
    requires Pack(policy, loads, tasks, maxU).Some?
    ensures var p := Pack(policy, loads, tasks, maxU).value;
      forall i :: 0 <= i < |tasks| ==> p.tasks[i] == tasks[i].(core := p.tasks[i].core)
    ensures var p := Pack(policy, loads, tasks, maxU).value;
      forall i :: 0 <= i < |tasks| ==> exists c :: 0 <= c < |loads| && p.tasks[i].core == Some(CoreLabel(c))
  {
    var p := Pack(policy, loads, tasks, maxU).value;
    forall i | 0 <= i < |tasks|
      ensures exists c :: 0 <= c < |loads| && p.tasks[i].core == Some(CoreLabel(c))
    {
      AssignTrace(policy, loads, Shares(tasks), maxU, i);
      var c := Assign(policy, loads, Shares(tasks), maxU).value.cores[i];
      assert p.tasks[i].core == Some(CoreLabel(c));
    }
  }

  /** A run returns `None` exactly when some task, given the loads at that point, fits on no core. */
  lemma {:induction false} PackFailsIffStuck(policy: Policy, loads: seq<real>, tasks: seq<Task>, maxU: real)
    requires Applicable(policy, loads, tasks)
    ensures Pack(policy, loads, tasks, maxU).None? <==>
      exists k :: 0 <= k < |tasks| && StuckAt(policy, loads, Shares(tasks), maxU, k)
  {
    AssignFailsIffStuck(policy, loads, Shares(tasks), maxU);
  }

  /** Load is conserved: the cores together gain exactly the utilisation of the task set. */
  lemma {:induction false} PackConservesLoad(policy: Policy, loads: seq<real>, tasks: seq<Task>, maxU: real)
    requires Applicable(policy, loads, tasks)
    requires Pack(policy, loads, tasks, maxU).Some?
    ensures SumReal(Pack(policy, loads, tasks, maxU).value.loads) == SumReal(loads) + CalculateUtilisation(tasks)
  {
    AssignConservesLoad(policy, loads, Shares(tasks), maxU);
    SharesTotal(tasks);
  }

  /** Every task takes a non-negative share of a core. */
  predicate NonNegativeShares(tasks: seq<Task>) {
    forall i :: 0 <= i < |tasks| ==> tasks[i].period > 0 && tasks[i].wcet >= 0
  }

  /** Shares of tasks with positive periods and non-negative wcets are non-negative. */
  lemma {:induction false} SharesNonNegative(tasks: seq<Task>)
    requires PeriodsNonZero(tasks) && NonNegativeShares(tasks)
    ensures NonNegative(Shares(tasks))
  {
    var shares := Shares(tasks);
    forall i | 0 <= i < |shares|
      ensures shares[i] >= 0.0
    {
      UtilisationNonNegative(tasks[i]);
    }
  }

  /**
   When `lowest_core_index` puts task `i` on core `c > 0`, core `c - 1` already
   carries load at that moment: the loads left by the first `i` tasks have it positive.
   */
  lemma {:induction false} FirstFitLoadedBefore(loads: seq<real>, tasks: seq<Task>, maxU: real, i: nat)
    requires PeriodsNonZero(tasks) && NonNegativeShares(tasks) && i < |tasks|
    requires NonNegative(loads) && BusyPrefix(loads)
    requires Pack(LowestCoreIndex, loads, tasks, maxU).Some?
    ensures PeriodsNonZero(tasks[..i]) && Pack(LowestCoreIndex, loads, tasks[..i], maxU).Some?
    ensures forall c :: 0 < c < |loads| && Pack(LowestCoreIndex, loads, tasks, maxU).value.tasks[i].core == Some(CoreLabel(c)) ==>
      Pack(LowestCoreIndex, loads, tasks[..i], maxU).value.loads[c - 1] > 0.0
  {
    PackTrace(LowestCoreIndex, loads, tasks, maxU, i);
    var prefix := tasks[..i];
    assert NonNegativeShares(prefix);
    SharesNonNegative(prefix);
    FirstFitKeepsBusyPrefix(loads, Shares(prefix), maxU);
    var before := Pack(LowestCoreIndex, loads, prefix, maxU).value.loads;
    var u := Utilisation(tasks[i]);
    FirstFitStep(before, u, maxU);
    var chosen := FirstFit(before, u, maxU).value;
    forall c | 0 < c < |loads| && Pack(LowestCoreIndex, loads, tasks, maxU).value.tasks[i].core == Some(CoreLabel(c))
      ensures before[c - 1] > 0.0
    {
      CoreLabelInjective(chosen, c);
    }
  }

  /**
   `lowest_core_index` from empty cores uses a gap-free prefix of them: a task
   labelled with core `c > 0` finds core `c - 1` in use, both when it is placed
   and at the end.
   */
  lemma {:induction false} PackFirstFitNoGaps(loads: seq<real>, tasks: seq<Task>, maxU: real)
    requires PeriodsNonZero(tasks) && NonNegativeShares(tasks)
    requires NonNegative(loads) && BusyPrefix(loads)
    requires Pack(LowestCoreIndex, loads, tasks, maxU).Some?
    ensures BusyPrefix(Pack(LowestCoreIndex, loads, tasks, maxU).value.loads)
    ensures var p := Pack(LowestCoreIndex, loads, tasks, maxU).value;
      forall i, c :: 0 <= i < |tasks| && 0 < c < |loads| && p.tasks[i].core == Some(CoreLabel(c)) ==> p.loads[c - 1] > 0.0
    ensures forall i :: 0 <= i < |tasks| ==> PeriodsNonZero(tasks[..i]) && Pack(LowestCoreIndex, loads, tasks[..i], maxU).Some?
    ensures forall i, c ::
      (0 <= i < |tasks| && 0 < c < |loads| && Pack(LowestCoreIndex, loads, tasks, maxU).value.tasks[i].core == Some(CoreLabel(c))) ==>
      Pack(LowestCoreIndex, loads, tasks[..i], maxU).value.loads[c - 1] > 0.0
  {
    var shares := Shares(tasks);
    SharesNonNegative(tasks);
    forall i | 0 <= i < |tasks|
      ensures PeriodsNonZero(tasks[..i]) && Pack(LowestCoreIndex, loads, tasks[..i], maxU).Some?
      ensures forall c :: 0 < c < |loads| && Pack(LowestCoreIndex, loads, tasks, maxU).value.tasks[i].core == Some(CoreLabel(c)) ==>
        Pack(LowestCoreIndex, loads, tasks[..i], maxU).value.loads[c - 1] > 0.0
    {
      FirstFitLoadedBefore(loads, tasks, maxU, i);
    }
    FirstFitKeepsBusyPrefix(loads, shares, maxU);
    FirstFitFillsPrefix(loads, shares, maxU);
    var a := Assign(LowestCoreIndex, loads, shares, maxU).value;
    var p := Pack(LowestCoreIndex, loads, tasks, maxU).value;
    forall i, c | 0 <= i < |tasks| && 0 < c < |loads| && p.tasks[i].core == Some(CoreLabel(c))
      ensures p.loads[c - 1] > 0.0
    {
      CoreLabelInjective(a.cores[i], c);
    }
  }
}
