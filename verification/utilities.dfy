/**
 The helpers of `Utilities`: unit conversion and the utilisation of a task set.
 Python's float division is modelled with exact reals.
 */
module Utilities {
  import opened SystemModel

  const NsPerMs: real := 1000000.0

  /** Milliseconds to nanoseconds. */
  function MsToNs(ms: real): (ns: real)
    ensures ns / NsPerMs == ms
  {
    ms * NsPerMs
  }

  /** `wcet / period` of one task. */
  function Utilisation(t: Task): (u: real)
    requires t.period != 0
    ensures u * t.period as real == t.wcet as real
  {
    t.wcet as real / t.period as real
  }

  lemma {:induction false} UtilisationNonNegative(t: Task)
    requires t.period != 0
    ensures t.period > 0 && t.wcet >= 0 ==> Utilisation(t) >= 0.0
  {
  }

  /** The accumulation of `calculate_utilisation`, left to right. */
  function CalculateUtilisation(tasks: seq<Task>): (u: real)
    requires PeriodsNonZero(tasks)
    ensures |tasks| == 0 ==> u == 0.0
    ensures (forall i :: 0 <= i < |tasks| ==> tasks[i].period > 0 && tasks[i].wcet >= 0) ==> u >= 0.0
  {
    if |tasks| == 0 then 0.0
    else
      var last := tasks[|tasks| - 1];
      UtilisationNonNegative(last);
      CalculateUtilisation(tasks[..|tasks| - 1]) + Utilisation(last)
  }

  /** Utilisation adds up over concatenation. */
  lemma {:induction false} UtilisationAppend(a: seq<Task>, b: seq<Task>)
    requires PeriodsNonZero(a) && PeriodsNonZero(b)
    ensures PeriodsNonZero(a + b)
    ensures CalculateUtilisation(a + b) == CalculateUtilisation(a) + CalculateUtilisation(b)
    decreases |b|
  {
    if |b| > 0 {
      var b' := b[..|b| - 1];
      assert (a + b)[..|a + b| - 1] == a + b';
      UtilisationAppend(a, b');
    } else {
      assert a + b == a;
    }
  }

  /** Taking one task out of a set lowers its utilisation by that task's share. */
  lemma {:induction false} UtilisationRemove(b: seq<Task>, i: nat)
    requires PeriodsNonZero(b) && i < |b|
    ensures PeriodsNonZero(b[..i] + b[i + 1..])
    ensures CalculateUtilisation(b) == Utilisation(b[i]) + CalculateUtilisation(b[..i] + b[i + 1..])
  {
    assert b == (b[..i] + [b[i]]) + b[i + 1..];
    UtilisationAppend(b[..i] + [b[i]], b[i + 1..]);
    UtilisationAppend(b[..i], [b[i]]);
    UtilisationAppend(b[..i], b[i + 1..]);
    assert [b[i]][..0] == [];
  }

  /** Utilisation of a task set does not depend on the order of its tasks. */
  lemma {:induction false} UtilisationPermutation(a: seq<Task>, b: seq<Task>)
    requires PeriodsNonZero(a)
    requires multiset(a) == multiset(b)
    ensures PeriodsNonZero(b)
    ensures CalculateUtilisation(a) == CalculateUtilisation(b)
    decreases |a|
  {
    PeriodsNonZeroPermutation(a, b);
    if |a| > 0 {
      assert a[0] in multiset(b);
      var i :| 0 <= i < |b| && b[i] == a[0];
      var rest := b[..i] + b[i + 1..];
      MultisetRemoveMatching(a, b, i);
      UtilisationHead(a);
      UtilisationRemove(b, i);
      assert PeriodsNonZero(a[1..]);
      UtilisationPermutation(a[1..], rest);
    }
  }

  /** The first task's share splits off the front. */
  lemma {:induction false} UtilisationHead(a: seq<Task>)
    requires PeriodsNonZero(a) && |a| > 0
    ensures PeriodsNonZero(a[1..])
    ensures CalculateUtilisation(a) == Utilisation(a[0]) + CalculateUtilisation(a[1..])
  {
    assert a == [a[0]] + a[1..];
    assert PeriodsNonZero(a[1..]);
    UtilisationAppend([a[0]], a[1..]);
    assert [a[0]][..0] == [];
  }

  /** Dropping the same element from two permutations of each other leaves permutations. */
  lemma {:induction false} MultisetRemoveMatching<T>(a: seq<T>, b: seq<T>, i: nat)
    requires multiset(a) == multiset(b)
    requires |a| > 0 && i < |b| && b[i] == a[0]
    ensures multiset(a[1..]) == multiset(b[..i] + b[i + 1..])
  {
    var x := a[0];
    assert b == b[..i] + [x] + b[i + 1..];
    assert multiset(b) == multiset(b[..i]) + multiset{x} + multiset(b[i + 1..]);
    assert a == [x] + a[1..];
    assert multiset(a) == multiset{x} + multiset(a[1..]);
    assert multiset(b[..i] + b[i + 1..]) == multiset(b[..i]) + multiset(b[i + 1..]);
    assert multiset(a[1..]) == multiset(a) - multiset{x};
    assert multiset(b[..i] + b[i + 1..]) == multiset(b) - multiset{x};
  }

  lemma {:induction false} PeriodsNonZeroPermutation(a: seq<Task>, b: seq<Task>)
    requires PeriodsNonZero(a)
    requires multiset(a) == multiset(b)
    ensures PeriodsNonZero(b)
  {
    forall i | 0 <= i < |b|
      ensures b[i].period != 0
    {
      assert b[i] in multiset(a);
      var j :| 0 <= j < |a| && a[j] == b[i];
    }
  }
}
