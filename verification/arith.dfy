/**
 Integer and real arithmetic the scheduler relies on: Python's `math.ceil(a / b)`
 on exact integers, `math.lcm`, `max`, and sums over sequences.
 */
module Arith {

  function Abs(x: int): nat {
    if x < 0 then -x else x
  }

  /** `math.ceil(a / b)`: the least integer not below the exact quotient. */
  function CeilDiv(a: int, b: int): (r: int)
    requires b != 0
    ensures b > 0 ==> (r - 1) * b < a <= r * b
    ensures b < 0 ==> r * b <= a < (r - 1) * b
  {
    if b > 0 then
      var q := (-a) / b;
      assert -a == q * b + (-a) % b;
      -q
    else
      var q := a / (-b);
      assert a == q * (-b) + a % (-b);
      -q
  }

  lemma MulLe(x: int, y: int, c: int)
    requires x <= y && c >= 0
    ensures x * c <= y * c
  {
  }

  /** Euclidean division is unique: a quotient and a remainder in range are `/` and `%`. */
  lemma DivModUnique(x: int, d: int, q: int, r: int)
    requires d > 0 && 0 <= r < d
    requires x == q * d + r
    ensures x / d == q && x % d == r
  {
    var q', r' := x / d, x % d;
    assert x == q' * d + r';
    assert (q - q') * d == r' - r;
    if q > q' {
      MulLe(1, q - q', d);
    } else if q < q' {
      MulLe(1, q' - q, d);
    }
  }

  lemma MulModZero(d: int, k: int)
    requires d > 0
    ensures (d * k) % d == 0 && (d * k) / d == k
  {
    DivModUnique(d * k, d, k, 0);
  }

  lemma ModZeroIsMultiple(d: int, n: int)
    requires d > 0
    requires n % d == 0
    ensures n == d * (n / d)
  {
  }

  /** Multiples of `d` are closed under `x - q * y`. */
  lemma ModZeroCombination(d: int, x: int, y: int, q: int)
    requires d > 0
    requires x % d == 0 && y % d == 0
    ensures (x - q * y) % d == 0
  {
    ModZeroIsMultiple(d, x);
    ModZeroIsMultiple(d, y);
    var i, j := x / d, y / d;
    assert x - q * y == d * (i - q * j);
    MulModZero(d, i - q * j);
  }

  lemma ModZeroTransitive(a: int, b: int, n: int)
    requires a > 0 && b > 0
    requires b % a == 0 && n % b == 0
    ensures n % a == 0
  {
    ModZeroIsMultiple(b, n);
    ModZeroIsMultiple(a, b);
    var i, j := n / b, b / a;
    assert n == a * (j * i);
    MulModZero(a, j * i);
  }

  /** A positive multiple of `d` is at least `d`. */
  lemma MultipleAtLeast(d: int, n: int)
    requires d > 0 && n > 0
    requires n % d == 0
    ensures d <= n
  {
    ModZeroIsMultiple(d, n);
  }

  /** A positive multiple of both `a` and `b`. */
  ghost predicate CommonMultiple(m: int, a: int, b: int)
    requires a > 0 && b > 0
  {
    m > 0 && m % a == 0 && m % b == 0
  }

  /** Smallest `a * j` with `j >= k` that `b` divides. */
  function LcmSearch(a: int, b: int, k: int): (r: int)
    requires a > 0 && b > 0 && 1 <= k <= b
    ensures r > 0 && r % a == 0 && r % b == 0
    ensures forall j :: k <= j && (a * j) % b == 0 ==> r <= a * j
    decreases b - k
  {
    MulModZero(a, k);
    if (a * k) % b == 0 then
      assert forall j :: k <= j ==> a * k <= a * j;
      a * k
    else
      assert k != b by {
        if k == b {
          assert a * k == b * a;
          MulModZero(b, a);
        }
      }
      var r := LcmSearch(a, b, k + 1);
      assert forall j :: k <= j && (a * j) % b == 0 ==> k + 1 <= j;
      r
  }

  /**
   `math.lcm` of two non-negative integers: zero when either is zero, otherwise
   the least positive common multiple.
   */
  function Lcm(a: nat, b: nat): (r: nat)
    ensures a == 0 || b == 0 ==> r == 0
    ensures a > 0 && b > 0 ==> CommonMultiple(r, a, b)
    ensures a > 0 && b > 0 ==> forall m :: CommonMultiple(m, a, b) ==> r <= m
  {
    if a == 0 || b == 0 then 0
    else
      var r := LcmSearch(a, b, 1);
      assert forall m :: CommonMultiple(m, a, b) ==> r <= m by {
        forall m | CommonMultiple(m, a, b)
          ensures r <= m
        {
          ModZeroIsMultiple(a, m);
          var j := m / a;
          assert m == a * j;
          assert j >= 1;
        }
      }
      r
  }

  /** Every common multiple of `a` and `b` is a multiple of their lcm. */
  lemma LcmDividesCommonMultiple(a: nat, b: nat, m: int)
    requires a > 0 && b > 0
    requires CommonMultiple(m, a, b)
    ensures m % Lcm(a, b) == 0
  {
    var l := Lcm(a, b);
    var q, rem := m / l, m % l;
    assert rem == m - q * l;
    ModZeroCombination(a, m, l, q);
    ModZeroCombination(b, m, l, q);
    assert !CommonMultiple(rem, a, b);
  }

  /** Largest element of a non-empty sequence, Python's `max`. */
  function Max(s: seq<int>): (r: int)
    requires |s| > 0
    ensures forall i :: 0 <= i < |s| ==> s[i] <= r
    ensures exists i :: 0 <= i < |s| && s[i] == r
  {
    if |s| == 1 then s[0]
    else
      var m := Max(s[1..]);
      assert forall i :: 1 <= i < |s| ==> s[i] == s[1..][i - 1];
      if s[0] >= m then s[0] else m
  }

  function Sum(s: seq<int>): int {
    if |s| == 0 then 0 else s[0] + Sum(s[1..])
  }

  /** A sum whose terms are all zero except possibly the `i`-th equals that term. */
  lemma {:induction false} SumSingleNonzero(s: seq<int>, i: nat)
    requires i < |s|
    requires forall k :: 0 <= k < |s| && k != i ==> s[k] == 0
    ensures Sum(s) == s[i]
  {
    if i == 0 {
      SumZero(s[1..]);
    } else {
      SumSingleNonzero(s[1..], i - 1);
    }
  }

  lemma {:induction false} SumZero(s: seq<int>)
    requires forall k :: 0 <= k < |s| ==> s[k] == 0
    ensures Sum(s) == 0
  {
    if |s| > 0 {
      SumZero(s[1..]);
    }
  }

  function SumReal(s: seq<real>): real {
    if |s| == 0 then 0.0 else s[0] + SumReal(s[1..])
  }

  /** Replacing one term changes a sum by exactly the difference. */
  lemma {:induction false} SumRealUpdate(s: seq<real>, i: nat, v: real)
    requires i < |s|
    ensures SumReal(s[i := v]) == SumReal(s) - s[i] + v
  {
    if i == 0 {
      assert s[i := v][1..] == s[1..];
    } else {
      assert s[i := v][1..] == s[1..][i - 1 := v];
      SumRealUpdate(s[1..], i - 1, v);
    }
  }

  /** The last term splits off the end. */
  lemma {:induction false} SumRealLast(s: seq<real>)
    requires |s| > 0
    ensures SumReal(s) == SumReal(s[..|s| - 1]) + s[|s| - 1]
  {
    if |s| > 1 {
      SumRealLast(s[1..]);
      assert s[1..][..|s| - 2] == s[..|s| - 1][1..];
    }
  }
}
