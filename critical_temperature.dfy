/**
 * `minMeasurement(k, n)`: a dynamic-programming table `dp[i][j]` over
 * samples i and temperature levels j, filled by two base-case loops and a
 * triple loop; the answer is `dp[k][n]`.
 */
module CriticalTemperature {

  const IntMax: int := 0x7fff_ffff

  function Max(a: int, b: int): int { if a < b then b else a }
  function Min(a: int, b: int): int { if a < b then a else b }

  /**
   * The value the code leaves in `dp[i][j]` of a table built for `n` levels.
   * Row 1 holds `j` only for `j < n` (the base loop stops before `n`).
   */
  function Table(i: nat, j: nat, n: nat): int
    decreases i, j, 1, 0
  {
    if i == 0 then 0
    else if i == 1 then (if j < n then j else 0)
    else if j == 0 then 0
    else BestDrop(i, j, n, j)
  }

  /** The measurements needed, worst case, when the first one is at level x. */
  function Worst(i: nat, j: nat, n: nat, x: nat): int
    requires i >= 2 && 1 <= x <= j
    decreases i, j, 0, 0
  {
    1 + Max(Table(i - 1, x - 1, n), Table(i, j - x, n))
  }

  /** min(Integer.MAX_VALUE, min over 1 <= x <= upTo of 1 + max(dp[i-1][x-1], dp[i][j-x])). */
  function BestDrop(i: nat, j: nat, n: nat, upTo: nat): int
    requires i >= 2 && upTo <= j
    decreases i, j, 0, upTo + 1
  {
    if upTo == 0 then IntMax
    else Min(BestDrop(i, j, n, upTo - 1), Worst(i, j, n, upTo))
  }

  method MinMeasurement(k: nat, n: nat) returns (result: int)
    requires k >= 1 || n == 0   // dp[1] must exist when the base loop runs
    ensures result == Table(k, n, n)
    ensures k == 1 ==> result == 0
    ensures n == 0 ==> result == 0
    ensures k >= 2 && n >= 1 ==> 1 <= result <= n
  {
    var dp := new int[k + 1, n + 1]((_, _) => 0);
    var i := 0;
    while i < k
      invariant 0 <= i <= k
      invariant forall a, b :: 0 <= a <= k && 0 <= b <= n ==> dp[a, b] == 0
    {
      dp[i, 0] := 0;
      i := i + 1;
    }
    var j := 0;
    while j < n
      invariant 0 <= j <= n
      invariant forall a, b :: 0 <= a <= k && 0 <= b <= n ==>
        dp[a, b] == if a == 1 && b < j then b else 0
    {
      dp[1, j] := j;
      j := j + 1;
    }
    i := 2;
    while i <= k
      invariant 2 <= i <= k + 1 || (i == 2 && k < 2)
      invariant forall a, b :: 0 <= a < i && a <= k && 0 <= b <= n ==> dp[a, b] == Table(a, b, n)
      invariant forall a, b :: i <= a <= k && 0 <= b <= n ==> dp[a, b] == 0
    {
      FillRow(dp, i, n);
      i := i + 1;
    }
    result := dp[k, n];
    if k >= 2 && n >= 1 {
      TableBounds(k, n, n);
    }
  }

  /** The `j` loop for sample count `i`: fills `dp[i][1..n]` from the rows below and the cells to the left. */
  method FillRow(dp: array2<int>, i: nat, n: nat)
    requires 2 <= i < dp.Length0 && dp.Length1 == n + 1
    requires forall a, b :: 0 <= a < i && 0 <= b <= n ==> dp[a, b] == Table(a, b, n)
    requires dp[i, 0] == 0
    modifies dp
    ensures forall a, b :: 0 <= a < dp.Length0 && 0 <= b < dp.Length1 ==>
      dp[a, b] == if a == i then Table(i, b, n) else old(dp[a, b])
  {
    var j := 1;
    while j <= n
      invariant 1 <= j <= n + 1
      invariant forall a, b :: 0 <= a < dp.Length0 && 0 <= b < dp.Length1 && a != i ==> dp[a, b] == old(dp[a, b])
      invariant forall b :: 0 <= b < j ==> dp[i, b] == Table(i, b, n)
    {
      FillCell(dp, i, j, n);
      j := j + 1;
    }
  }

  /** The `x` loop for one cell: `dp[i][j]` becomes the best first level to try. */
  method FillCell(dp: array2<int>, i: nat, j: nat, n: nat)
    requires 2 <= i < dp.Length0 && 1 <= j <= n && dp.Length1 == n + 1
    requires forall a, b :: 0 <= a < i && 0 <= b <= n ==> dp[a, b] == Table(a, b, n)
    requires forall b :: 0 <= b < j ==> dp[i, b] == Table(i, b, n)
    modifies dp
    ensures forall a, b :: 0 <= a < dp.Length0 && 0 <= b < dp.Length1 ==>
      dp[a, b] == if a == i && b == j then Table(i, j, n) else old(dp[a, b])
  {
    dp[i, j] := IntMax;
    var x := 1;
    while x <= j
      invariant 1 <= x <= j + 1
      invariant forall a, b :: 0 <= a < dp.Length0 && 0 <= b < dp.Length1 && (a != i || b != j) ==> dp[a, b] == old(dp[a, b])
      invariant dp[i, j] == BestDrop(i, j, n, x - 1)
    {
      var worstCase := Max(dp[i - 1, x - 1], dp[i, j - x]);
      dp[i, j] := Min(dp[i, j], 1 + worstCase);
      x := x + 1;
    }
  }

  lemma {:induction false} TableNonNegative(i: nat, j: nat, n: nat)
    ensures Table(i, j, n) >= 0
    decreases i, j, 1, 0
  {
    if i >= 2 && j >= 1 {
      BestDropNonNegative(i, j, n, j);
    }
  }

  lemma {:induction false} BestDropNonNegative(i: nat, j: nat, n: nat, upTo: nat)
    requires i >= 2 && upTo <= j
    ensures BestDrop(i, j, n, upTo) >= 1
    decreases i, j, 0, upTo
  {
    if upTo > 0 {
      BestDropNonNegative(i, j, n, upTo - 1);
      TableNonNegative(i - 1, upTo - 1, n);
      TableNonNegative(i, j - upTo, n);
    }
  }

  /** With two or more samples, 1 <= dp[i][j] <= j: trying level 1 first costs at most j. */
  lemma {:induction false} TableBounds(i: nat, j: nat, n: nat)
    requires i >= 2 && j >= 1
    ensures 1 <= Table(i, j, n) <= j
  {
    BestDropNonNegative(i, j, n, j);
    BestDropAtMostFirst(i, j, n, j);
    if j >= 2 {
      TableBounds(i, j - 1, n);
    }
    assert Table(i - 1, 0, n) == 0;
  }

  lemma {:induction false} BestDropAtMostFirst(i: nat, j: nat, n: nat, upTo: nat)
    requires i >= 2 && 1 <= upTo <= j
    ensures BestDrop(i, j, n, upTo) <= Worst(i, j, n, 1)
  {
    if upTo > 1 {
      BestDropAtMostFirst(i, j, n, upTo - 1);
    }
  }

  /** The recurrence the triple loop implements, for i >= 2 and j >= 1. */
  lemma {:induction false} TableRecurrence(i: nat, j: nat, n: nat, x: nat)
    requires i >= 2 && 1 <= x <= j
    ensures Table(i, j, n) <= Worst(i, j, n, x)
  {
    BestDropAtMost(i, j, n, j, x);
  }

  lemma {:induction false} BestDropAtMost(i: nat, j: nat, n: nat, upTo: nat, x: nat)
    requires i >= 2 && 1 <= x <= upTo <= j
    ensures BestDrop(i, j, n, upTo) <= Worst(i, j, n, x)
    decreases upTo
  {
    if x < upTo {
      BestDropAtMost(i, j, n, upTo - 1, x);
    }
  }

  /** Some drop level attains the minimum. */
  lemma {:induction false} BestDropAttained(i: nat, j: nat, n: nat, upTo: nat)
    requires i >= 2 && 1 <= upTo <= j < IntMax
    ensures exists x :: 1 <= x <= upTo && BestDrop(i, j, n, upTo) == Worst(i, j, n, x)
  {
    if upTo > 1 {
      BestDropAttained(i, j, n, upTo - 1);
      if Worst(i, j, n, upTo) < BestDrop(i, j, n, upTo - 1) {
        assert BestDrop(i, j, n, upTo) == Worst(i, j, n, upTo);
      }
    } else {
      TableNonNegative(i, j - 1, n);
      if j >= 2 {
        TableBounds(i, j - 1, n);
      }
      assert Table(i - 1, 0, n) == 0;
      assert BestDrop(i, j, n, 0) == IntMax;
      assert BestDrop(i, j, n, 1) == Worst(i, j, n, 1);
    }
  }

  /**
   * `minMeasurement(2, 6)` prints 3. The level count is a parameter fixed
   * by the precondition, so the rows of the table are unfolded one at a time.
   */
  lemma ExampleTwoSix(n: nat)
    requires n == 6
    ensures Table(2, n, n) == 3
  {
    assert Table(2, 1, n) == 1;
    assert Table(2, 2, n) == 2;
    assert Table(2, 3, n) == 2;
    assert Table(2, 4, n) == 3;
    assert Table(2, 5, n) == 3;
    assert Table(2, 6, n) == 3;
  }

  /**
   * Only row 1, column n depends on where the base loop stops: every other
   * entry the table reads lies strictly left of column n in row 1.
   */
  lemma {:induction false} TableLevels(i: nat, j: nat, n: nat, m: nat)
    requires j <= n <= m && (i != 1 || j < n)
    ensures Table(i, j, n) == Table(i, j, m)
    decreases i, j, 1, 0
  {
    if i >= 2 && j >= 1 {
      BestDropLevels(i, j, n, m, j);
    }
  }

  lemma {:induction false} BestDropLevels(i: nat, j: nat, n: nat, m: nat, upTo: nat)
    requires i >= 2 && upTo <= j <= n <= m
    ensures BestDrop(i, j, n, upTo) == BestDrop(i, j, m, upTo)
    decreases i, j, 0, upTo
  {
    if upTo > 0 {
      BestDropLevels(i, j, n, m, upTo - 1);
      TableLevels(i - 1, upTo - 1, n, m);
      TableLevels(i, j - upTo, n, m);
    }
  }

  /**
   * The table with the base loop running through level n, as the linear
   * search for one sample intends: one sample needs n measurements, and
   * with two or more samples the answer is the one the code returns.
   */
  function Measurements(k: nat, n: nat): (r: int)
    ensures k == 1 ==> r == n
    ensures k != 1 ==> r == Table(k, n, n)
    ensures k >= 2 && n >= 1 ==> 1 <= r <= n
  {
    if k != 1 then
      TableLevels(k, n, n, n + 1);
      if k >= 2 && n >= 1 then TableBounds(k, n, n); Table(k, n, n + 1)
      else Table(k, n, n + 1)
    else Table(k, n, n + 1)
  }

  /** `minMeasurement(1, n)` returns 0 for every n, although one sample needs n measurements. */
  lemma AsWrittenOneSample(n: nat)
    ensures Table(1, n, n) == 0 && Measurements(1, n) == n
  {
  }
}
