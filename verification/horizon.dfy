/**
 The horizon calculator of `MultiCoreScheduler`: hyperperiod, hyperoffset,
 makespan and the big-M constant `largeN`.
 */
module Horizon {
  import opened Arith
  import opened SystemModel

  /** Slack added to twice the hyperperiod before rounding up to whole hyperperiods. */
  const StartupMargin: int := 2000000

  /** `m` is a positive multiple of every task period. */
  ghost predicate MultipleOfAllPeriods(m: int, tasks: seq<Task>)
    requires PeriodsNonZero(tasks)
  {
    m > 0 && forall i :: 0 <= i < |tasks| ==> m % Abs(tasks[i].period) == 0
  }

  /**
   `math.lcm` over all periods. `math.lcm` works on absolute values, is 1 for no
   arguments and 0 as soon as one argument is 0.
   */
  function Hyperperiod(tasks: seq<Task>): (h: nat)
    ensures (exists i :: 0 <= i < |tasks| && tasks[i].period == 0) ==> h == 0
    ensures PeriodsNonZero(tasks) ==> MultipleOfAllPeriods(h, tasks)
    ensures PeriodsNonZero(tasks) ==> forall m :: MultipleOfAllPeriods(m, tasks) ==> m % h == 0
  {
    if |tasks| == 0 then 1
    else
      var p := Abs(tasks[0].period);
      var rest := Hyperperiod(tasks[1..]);
      assert forall i :: 1 <= i < |tasks| ==> tasks[i] == tasks[1..][i - 1];
      var h := Lcm(p, rest);
      if PeriodsNonZero(tasks) then
        assert PeriodsNonZero(tasks[1..]);
        LcmStep(tasks, rest);
        h
      else
        h
  }

  /** One fold step: the lcm of the first period and the rest's lcm is the lcm of all. */
  lemma LcmStep(tasks: seq<Task>, rest: nat)
    requires |tasks| > 0 && PeriodsNonZero(tasks)
    requires MultipleOfAllPeriods(rest, tasks[1..])
    requires forall m :: MultipleOfAllPeriods(m, tasks[1..]) ==> m % rest == 0
    ensures MultipleOfAllPeriods(Lcm(Abs(tasks[0].period), rest), tasks)
    ensures forall m :: MultipleOfAllPeriods(m, tasks) ==> m % Lcm(Abs(tasks[0].period), rest) == 0
  {
    var p := Abs(tasks[0].period);
    var h := Lcm(p, rest);
    assert forall i :: 1 <= i < |tasks| ==> tasks[i] == tasks[1..][i - 1];
    forall i | 0 <= i < |tasks|
      ensures h % Abs(tasks[i].period) == 0
    {
      if i > 0 {
        assert rest % Abs(tasks[1..][i - 1].period) == 0;
        ModZeroTransitive(Abs(tasks[i].period), rest, h);
      }
    }
    forall m | MultipleOfAllPeriods(m, tasks)
      ensures m % h == 0
    {
      assert MultipleOfAllPeriods(m, tasks[1..]);
      LcmDividesCommonMultiple(p, rest, m);
    }
  }

  /** Every period is at most the hyperperiod. */
  lemma PeriodAtMostHyperperiod(tasks: seq<Task>, i: nat)
    requires PeriodsNonZero(tasks) && i < |tasks|
    ensures Abs(tasks[i].period) <= Hyperperiod(tasks)
  {
    MultipleAtLeast(Abs(tasks[i].period), Hyperperiod(tasks));
  }

  function InitialOffsets(tasks: seq<Task>): (offsets: seq<int>)
    ensures |offsets| == |tasks|
    ensures forall i :: 0 <= i < |tasks| ==> offsets[i] == tasks[i].initialOffset
  {
    seq(|tasks|, i requires 0 <= i < |tasks| => tasks[i].initialOffset)
  }

  /** The latest initial offset; `max` of an empty list raises, hence the precondition. */
  function Hyperoffset(tasks: seq<Task>): (o: int)
    requires |tasks| > 0
    ensures forall i :: 0 <= i < |tasks| ==> tasks[i].initialOffset <= o
    ensures exists i :: 0 <= i < |tasks| && tasks[i].initialOffset == o
  {
    var offsets := InitialOffsets(tasks);
    var o := Max(offsets);
    assert forall i :: 0 <= i < |tasks| ==> tasks[i].initialOffset == offsets[i];
    o
  }

  /**
   `hyperperiod * ceil((2 * hyperperiod + 2000000) / hyperperiod) + hyperoffset`:
   past the hyperoffset, the least whole number of hyperperiods that reaches
   twice the hyperperiod plus the startup margin.
   */
  function Makespan(tasks: seq<Task>): (m: int)
    requires |tasks| > 0 && PeriodsNonZero(tasks)
    ensures (m - Hyperoffset(tasks)) % Hyperperiod(tasks) == 0
    ensures 2 * Hyperperiod(tasks) + StartupMargin <= m - Hyperoffset(tasks)
    ensures m - Hyperoffset(tasks) < 3 * Hyperperiod(tasks) + StartupMargin
  {
    var h := Hyperperiod(tasks);
    RoundUpToHyperperiods(h);
    h * CeilDiv(2 * h + StartupMargin, h) + Hyperoffset(tasks)
  }

  lemma RoundUpToHyperperiods(h: int)
    requires h > 0
    ensures var span := h * CeilDiv(2 * h + StartupMargin, h);
      span % h == 0 && 2 * h + StartupMargin <= span < 3 * h + StartupMargin
  {
    var c := CeilDiv(2 * h + StartupMargin, h);
    MulModZero(h, c);
    assert (c - 1) * h == h * c - h;
  }

  /** The big-M constant: twice the makespan, so above the makespan once offsets are not negative. */
  function LargeN(tasks: seq<Task>): (N: int)
    requires |tasks| > 0 && PeriodsNonZero(tasks)
    ensures N % 2 == 0 && N / 2 == Makespan(tasks)
    ensures Hyperoffset(tasks) >= 0 ==> N > Makespan(tasks) > 0
  {
    2 * Makespan(tasks)
  }
}
