/**
 The integer facts behind the linear constraints of the MILP formulation. The
 solver is not modelled; these lemmas say what any assignment satisfying the
 constraints must look like, and that the intended assignments satisfy them.

 Vectors are indexed by core position: `row[k]` is the solved value of
 `assigned[(task, core_k)]` for one task; `P[k][l]` is the solved value of
 `psi_task_core[(task_x, core_k, task_y, core_l)]` for one ordered pair of tasks.
 */
module Encoding {
  import opened Arith

  predicate Binary(v: int) {
    v == 0 || v == 1
  }

  predicate BinaryRow(row: seq<int>) {
    forall k :: 0 <= k < |row| ==> Binary(row[k])
  }

  /** `row` selects exactly the core at position `i`. */
  predicate OneHot(row: seq<int>, i: int) {
    && 0 <= i < |row|
    && row[i] == 1
    && forall k :: 0 <= k < |row| && k != i ==> row[k] == 0
  }

  /** The three inequalities that linearise `psi == a AND b`. */
  predicate AndLinearised(psi: int, a: int, b: int) {
    psi <= a && psi <= b && psi >= a + b - 1
  }

  /** On binaries the linearisation is exact: it admits the product and nothing else. */
  lemma AndLinearisation(psi: int, a: int, b: int)
    requires Binary(psi) && Binary(a) && Binary(b)
    ensures AndLinearised(psi, a, b) <==> psi == a * b
  {
  }

  /**
   "Exactly one core": a binary row sums to one if and only if it is one-hot,
   and then the selected position is unique.
   */
  lemma {:induction false} ExactlyOneCore(row: seq<int>)
    requires BinaryRow(row)
    ensures Sum(row) == 1 <==> exists i :: OneHot(row, i)
    ensures forall i, j :: OneHot(row, i) && OneHot(row, j) ==> i == j
  {
    if |row| > 0 {
      var tail := row[1..];
      ExactlyOneCore(tail);
      SumNonNegative(tail);
      if Sum(row) == 1 {
        if row[0] == 1 {
          assert Sum(tail) == 0;
          SumZeroBinary(tail);
          assert OneHot(row, 0);
        } else {
          var j :| OneHot(tail, j);
          assert OneHot(row, j + 1);
        }
      }
      if exists i :: OneHot(row, i) {
        var i :| OneHot(row, i);
        SumSingleNonzero(row, i);
      }
    }
  }

  lemma {:induction false} SumNonNegative(row: seq<int>)
    requires BinaryRow(row)
    ensures Sum(row) >= 0
  {
    if |row| > 0 {
      SumNonNegative(row[1..]);
    }
  }

  lemma {:induction false} SumZeroBinary(row: seq<int>)
    requires BinaryRow(row)
    requires Sum(row) == 0
    ensures forall k :: 0 <= k < |row| ==> row[k] == 0
  {
    if |row| > 0 {
      SumNonNegative(row[1..]);
      SumZeroBinary(row[1..]);
      assert forall k :: 1 <= k < |row| ==> row[k] == row[1..][k - 1];
    }
  }

  /** A square matrix over `n` cores. */
  predicate Square(P: seq<seq<int>>, n: nat) {
    |P| == n && forall k :: 0 <= k < n ==> |P[k]| == n
  }

  /**
   Constraints at 245-258 for one ordered pair of tasks: every core-pair indicator
   is binary and linearises the AND of the two assignments.
   */
  predicate CorePairIndicators(P: seq<seq<int>>, ax: seq<int>, ay: seq<int>) {
    && |ax| == |ay|
    && Square(P, |ax|)
    && forall k, l :: 0 <= k < |ax| && 0 <= l < |ax| ==>
      Binary(P[k][l]) && AndLinearised(P[k][l], ax[k], ay[l])
  }

  /** Row `k` of the sum at 266-273: the indicators of core `k` against every other core. */
  function MismatchRow(P: seq<seq<int>>, n: nat, k: nat): seq<int>
    requires Square(P, n) && k < n
  {
    seq(n, l requires 0 <= l < n => if k != l then P[k][l] else 0)
  }

  /** `psi_tasks`: the sum of the core-pair indicators over pairs of distinct cores. */
  function PsiTasks(P: seq<seq<int>>, n: nat): int
    requires Square(P, n)
  {
    Sum(seq(n, k requires 0 <= k < n => Sum(MismatchRow(P, n, k))))
  }

  /** Under the linearisation, each indicator is the product of the two one-hot entries. */
  lemma IndicatorsAreProducts(P: seq<seq<int>>, ax: seq<int>, ay: seq<int>, i: nat, j: nat)
    requires CorePairIndicators(P, ax, ay)
    requires OneHot(ax, i) && OneHot(ay, j)
    ensures forall k, l :: 0 <= k < |ax| && 0 <= l < |ax| ==> (P[k][l] == 1 <==> k == i && l == j)
    ensures forall k, l :: 0 <= k < |ax| && 0 <= l < |ax| ==> (P[k][l] == 0 <==> !(k == i && l == j))
  {
    forall k, l | 0 <= k < |ax| && 0 <= l < |ax|
      ensures P[k][l] == (if k == i && l == j then 1 else 0)
    {
      assert AndLinearised(P[k][l], ax[k], ay[l]);
    }
  }

  /**
   With one-hot assignments, `psi_tasks` is 1 exactly when the two tasks sit on
   different cores and 0 when they share one.
   */
  lemma PsiTasksIsCoreMismatch(P: seq<seq<int>>, ax: seq<int>, ay: seq<int>, i: nat, j: nat)
    requires CorePairIndicators(P, ax, ay)
    requires OneHot(ax, i) && OneHot(ay, j)
    ensures PsiTasks(P, |ax|) == if i == j then 0 else 1
  {
    var n := |ax|;
    IndicatorsAreProducts(P, ax, ay, i, j);
    var rows := seq(n, k requires 0 <= k < n => Sum(MismatchRow(P, n, k)));
    forall k | 0 <= k < n && k != i
      ensures rows[k] == 0
    {
      SumZero(MismatchRow(P, n, k));
    }
    SumSingleNonzero(MismatchRow(P, n, i), j);
    SumSingleNonzero(rows, i);
  }

  /** `lambda` at 319-326: the indicators weighted by the core-pair delays `D`. */
  function WeightedRow(P: seq<seq<int>>, D: seq<seq<int>>, n: nat, k: nat): seq<int>
    requires Square(P, n) && Square(D, n) && k < n
  {
    seq(n, l requires 0 <= l < n => P[k][l] * D[k][l])
  }

  function Lambda(P: seq<seq<int>>, D: seq<seq<int>>, n: nat): int
    requires Square(P, n) && Square(D, n)
  {
    Sum(seq(n, k requires 0 <= k < n => Sum(WeightedRow(P, D, n, k))))
  }

  /**
   `lambda` equals the delay between the two cores the tasks are actually on.
   `D[k][l]` stands for `get_delay(cores[k], cores[l], N)`, the constant the
   formulation multiplies each core-pair indicator by (`Lookups.GetDelay`).
   */
  lemma LambdaIsAssignedDelay(P: seq<seq<int>>, D: seq<seq<int>>, ax: seq<int>, ay: seq<int>, i: nat, j: nat)
    requires CorePairIndicators(P, ax, ay) && Square(D, |ax|)
    requires OneHot(ax, i) && OneHot(ay, j)
    ensures Lambda(P, D, |ax|) == D[i][j]
  {
    var n := |ax|;
    IndicatorsAreProducts(P, ax, ay, i, j);
    var rows := seq(n, k requires 0 <= k < n => Sum(WeightedRow(P, D, n, k)));
    forall k | 0 <= k < n && k != i
      ensures rows[k] == 0
    {
      SumZero(WeightedRow(P, D, n, k));
    }
    SumSingleNonzero(WeightedRow(P, D, n, i), j);
    SumSingleNonzero(rows, i);
  }

  /**
   The big-M pair at 290-302 for instance x of one task and instance y of another,
   with ordering indicator `b` and task-conflict indicator `psi`.
   */
  predicate BigMPair(endX: int, startX: int, endY: int, startY: int, b: int, psi: int, N: int) {
    && endX - startY <= N * b + N * psi
    && endY - startX <= N - N * b + N * psi
  }

  /** With `psi == 0` the pair forces one instance to finish before the other starts; `b` says which. */
  lemma BigMOrders(endX: int, startX: int, endY: int, startY: int, b: int, N: int)
    requires Binary(b)
    requires BigMPair(endX, startX, endY, startY, b, 0, N)
    ensures b == 0 ==> endX <= startY
    ensures b == 1 ==> endY <= startX
  {
  }

  /** With `psi == 1` and every time in `[0, N]`, the pair holds whatever `b` is. */
  lemma BigMRelaxed(endX: int, startX: int, endY: int, startY: int, b: int, N: int)
    requires Binary(b)
    requires 0 <= startX <= endX <= N && 0 <= startY <= endY <= N
    ensures BigMPair(endX, startX, endY, startY, b, 1, N)
  {
    if b == 0 {
      assert N * b == 0;
    } else {
      assert N * b == N;
    }
  }

  /** With `psi == 0` and times in `[0, N]`, two disjoint intervals satisfy the pair for a suitable `b`. */
  lemma BigMComplete(endX: int, startX: int, endY: int, startY: int, N: int)
    requires 0 <= startX <= endX <= N && 0 <= startY <= endY <= N
    requires endX <= startY || endY <= startX
    ensures BigMPair(endX, startX, endY, startY, if endX <= startY then 0 else 1, 0, N)
  {
  }

  /**
   Instances of two tasks placed on the same core never overlap in any solution
   of the constraints; on different cores the big-M pair does not constrain them.
   */
  lemma SameCoreNoOverlap(
    P: seq<seq<int>>, ax: seq<int>, ay: seq<int>, i: nat, j: nat,
    endX: int, startX: int, endY: int, startY: int, b: int, N: int)
    requires CorePairIndicators(P, ax, ay)
    requires OneHot(ax, i) && OneHot(ay, j)
    requires Binary(b)
    requires 0 <= startX <= endX <= N && 0 <= startY <= endY <= N
    ensures i == j && BigMPair(endX, startX, endY, startY, b, PsiTasks(P, |ax|), N) ==>
      endX <= startY || endY <= startX
    ensures i != j ==> BigMPair(endX, startX, endY, startY, b, PsiTasks(P, |ax|), N)
  {
    PsiTasksIsCoreMismatch(P, ax, ay, i, j);
    if i != j {
      BigMRelaxed(endX, startX, endY, startY, b, N);
    }
  }

  /**
   Constraints at 306-310 for one core: a binary `used` bounded above by the
   column sum and below by every entry of the column.
   */
  predicate CoreUsedBounds(used: int, column: seq<int>) {
    && used <= Sum(column)
    && forall t :: 0 <= t < |column| ==> used >= column[t]
  }

  /** The core-used indicator is 1 exactly when some task is assigned to the core. */
  lemma CoreUsedIndicator(used: int, column: seq<int>)
    requires Binary(used) && BinaryRow(column)
    requires CoreUsedBounds(used, column)
    ensures used == 1 <==> exists t :: 0 <= t < |column| && column[t] == 1
  {
    if forall t :: 0 <= t < |column| ==> column[t] != 1 {
      SumZero(column);
    }
  }
}
