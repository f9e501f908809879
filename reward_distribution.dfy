/**
 * Minimum rewards distribution: every employee gets at least one reward and
 * an employee rated higher than a direct neighbour gets more rewards than
 * that neighbour. `minRewards` fills an array with ones, makes a
 * left-to-right pass, a right-to-left pass, then sums the array.
 */
module RewardDistribution {

  /** Length of the strictly increasing run of ratings that ends at `i`. */
  function LeftRun(ratings: seq<int>, i: nat): (run: nat)
    requires i < |ratings|
    ensures run >= 1
  {
    if i == 0 || ratings[i] <= ratings[i - 1] then 1 else LeftRun(ratings, i - 1) + 1
  }

  /** Length of the strictly decreasing run of ratings that starts at `i`. */
  function RightRun(ratings: seq<int>, i: nat): (run: nat)
    requires i < |ratings|
    ensures run >= 1
    decreases |ratings| - i
  {
    if i == |ratings| - 1 || ratings[i] <= ratings[i + 1] then 1 else RightRun(ratings, i + 1) + 1
  }

  function Max(a: int, b: int): int { if a < b then b else a }

  /** The rewards array the two passes leave behind. */
  function Allocation(ratings: seq<int>): (rewards: seq<int>)
    ensures |rewards| == |ratings|
  {
    seq(|ratings|, i requires 0 <= i < |ratings| => Max(LeftRun(ratings, i), RightRun(ratings, i)))
  }

  /** The rules an assignment of rewards has to obey. */
  ghost predicate Fair(ratings: seq<int>, rewards: seq<int>) {
    && |rewards| == |ratings|
    && (forall i :: 0 <= i < |rewards| ==> rewards[i] >= 1)
    && (forall i :: 0 < i < |ratings| && ratings[i] > ratings[i - 1] ==> rewards[i] > rewards[i - 1])
    && (forall i :: 0 <= i < |ratings| - 1 && ratings[i] > ratings[i + 1] ==> rewards[i] > rewards[i + 1])
  }

  function Sum(s: seq<int>): int {
    if s == [] then 0 else Sum(s[..|s| - 1]) + s[|s| - 1]
  }

  lemma {:induction false} SumMonotone(a: seq<int>, b: seq<int>)
    requires |a| == |b|
    requires forall i :: 0 <= i < |a| ==> a[i] <= b[i]
    ensures Sum(a) <= Sum(b)
  {
    if a != [] {
      SumMonotone(a[..|a| - 1], b[..|b| - 1]);
    }
  }

  /** The allocation obeys the rules. */
  lemma AllocationIsFair(ratings: seq<int>)
    ensures Fair(ratings, Allocation(ratings))
  {
    var a := Allocation(ratings);
    forall i | 0 < i < |ratings| && ratings[i] > ratings[i - 1]
      ensures a[i] > a[i - 1]
    {
      assert LeftRun(ratings, i) == LeftRun(ratings, i - 1) + 1;
      assert RightRun(ratings, i - 1) == 1;
    }
    forall i | 0 <= i < |ratings| - 1 && ratings[i] > ratings[i + 1]
      ensures a[i] > a[i + 1]
    {
      assert RightRun(ratings, i) == RightRun(ratings, i + 1) + 1;
      assert LeftRun(ratings, i + 1) == 1;
    }
  }

  lemma {:induction false} FairAboveLeftRun(ratings: seq<int>, rewards: seq<int>, i: nat)
    requires Fair(ratings, rewards) && i < |ratings|
    ensures rewards[i] >= LeftRun(ratings, i)
  {
    if i > 0 && ratings[i] > ratings[i - 1] {
      FairAboveLeftRun(ratings, rewards, i - 1);
    }
  }

  lemma {:induction false} FairAboveRightRun(ratings: seq<int>, rewards: seq<int>, i: nat)
    requires Fair(ratings, rewards) && i < |ratings|
    ensures rewards[i] >= RightRun(ratings, i)
    decreases |ratings| - i
  {
    if i < |ratings| - 1 && ratings[i] > ratings[i + 1] {
      FairAboveRightRun(ratings, rewards, i + 1);
    }
  }

  /** Every assignment that obeys the rules gives each employee at least the allocation. */
  lemma AllocationIsLeast(ratings: seq<int>, rewards: seq<int>)
    requires Fair(ratings, rewards)
    ensures forall i :: 0 <= i < |ratings| ==> Allocation(ratings)[i] <= rewards[i]
  {
    forall i | 0 <= i < |ratings| ensures Allocation(ratings)[i] <= rewards[i] {
      FairAboveLeftRun(ratings, rewards, i);
      FairAboveRightRun(ratings, rewards, i);
    }
  }

  /** The documented claim: the total is the least total of any fair assignment. */
  lemma AllocationIsMinimal(ratings: seq<int>, rewards: seq<int>)
    requires Fair(ratings, rewards)
    ensures Sum(Allocation(ratings)) <= Sum(rewards)
  {
    AllocationIsLeast(ratings, rewards);
    SumMonotone(Allocation(ratings), rewards);
  }

  /** What one step of the right-to-left pass does to the allocation. */
  lemma SecondPassStep(r: seq<int>, i: nat)
    requires i + 1 < |r|
    ensures r[i] > r[i + 1] ==>
      Max(LeftRun(r, i), Max(LeftRun(r, i + 1), RightRun(r, i + 1)) + 1) == Max(LeftRun(r, i), RightRun(r, i))
    ensures r[i] <= r[i + 1] ==> LeftRun(r, i) == Max(LeftRun(r, i), RightRun(r, i))
  {
  }

  /** `minRewards`: the two passes and the final sum. */
  method MinRewards(ratings: array<int>) returns (total: int)
    ensures total == Sum(Allocation(ratings[..]))
    ensures ratings.Length == 0 ==> total == 0
    ensures ratings.Length == 1 ==> total == 1
  {
    var n := ratings.Length;
    if n == 1 {
      return 1;
    }
    var rewards := new int[n](_ => 1);
    LeftPass(ratings, rewards);
    RightPass(ratings, rewards);
    total := SumOf(rewards);
  }

  /** The left-to-right pass: each reward becomes the length of the increasing run ending there. */
  method LeftPass(ratings: array<int>, rewards: array<int>)
    requires rewards != ratings && rewards.Length == ratings.Length
    requires forall k :: 0 <= k < rewards.Length ==> rewards[k] == 1
    modifies rewards
    ensures forall k :: 0 <= k < rewards.Length ==> rewards[k] == LeftRun(ratings[..], k)
  {
    var n := ratings.Length;
    var i := 1;
    while i < n
      invariant 1 <= i <= n || n == 0
      invariant forall k :: 0 <= k < i && k < n ==> rewards[k] == LeftRun(ratings[..], k)
      invariant forall k :: i <= k < n ==> rewards[k] == 1
    {
      if ratings[i] > ratings[i - 1] {
        rewards[i] := rewards[i - 1] + 1;
      }
      i := i + 1;
    }
  }

  /** The right-to-left pass: each reward is raised to one more than its right neighbour's where the rating is higher. */
  method RightPass(ratings: array<int>, rewards: array<int>)
    requires rewards != ratings && rewards.Length == ratings.Length
    requires forall k :: 0 <= k < rewards.Length ==> rewards[k] == LeftRun(ratings[..], k)
    modifies rewards
    ensures rewards[..] == Allocation(ratings[..])
  {
    var n := ratings.Length;
    ghost var r := ratings[..];
    assert n > 0 ==> RightRun(r, n - 1) == 1;
    var i := n - 2;
    while i >= 0
      invariant -2 <= i <= n - 2
      invariant forall k :: 0 <= k < n && i < k ==> rewards[k] == Max(LeftRun(r, k), RightRun(r, k))
      invariant forall k :: 0 <= k <= i ==> rewards[k] == LeftRun(r, k)
    {
      SecondPassStep(r, i);
      if ratings[i] > ratings[i + 1] {
        rewards[i] := Max(rewards[i], rewards[i + 1] + 1);
      }
      i := i - 1;
    }
    assert i < 0;
  }

  /** The closing loop of `minRewards`: the rewards added up one by one. */
  method SumOf(rewards: array<int>) returns (total: int)
    ensures total == Sum(rewards[..])
  {
    total := 0;
    var j := 0;
    while j < rewards.Length
      invariant 0 <= j <= rewards.Length
      invariant total == Sum(rewards[..j])
    {
      assert rewards[..j + 1][..j] == rewards[..j];
      total := total + rewards[j];
      j := j + 1;
    }
    assert rewards[..rewards.Length] == rewards[..];
  }

  lemma ExampleOne()
    ensures Sum(Allocation([1, 0, 2])) == 5
  {
    var r := [1, 0, 2];
    assert Allocation(r) == [2, 1, 2] by {
      assert LeftRun(r, 0) == 1 && RightRun(r, 0) == 2;
      assert LeftRun(r, 1) == 1 && RightRun(r, 1) == 1;
      assert LeftRun(r, 2) == 2 && RightRun(r, 2) == 1;
    }
    assert [2, 1, 2][..2] == [2, 1] && [2, 1][..1] == [2] && [2][..0] == [];
  }

  lemma ExampleTwo()
    ensures Sum(Allocation([1, 2, 2])) == 4
  {
    var r := [1, 2, 2];
    assert Allocation(r) == [1, 2, 1] by {
      assert LeftRun(r, 0) == 1 && RightRun(r, 0) == 1;
      assert LeftRun(r, 1) == 2 && RightRun(r, 1) == 1;
      assert LeftRun(r, 2) == 1 && RightRun(r, 2) == 1;
    }
    assert [1, 2, 1][..2] == [1, 2] && [1, 2][..1] == [1] && [1][..0] == [];
  }

  lemma {:induction false} SumOfOnes(s: seq<int>)
    requires forall i :: 0 <= i < |s| ==> s[i] == 1
    ensures Sum(s) == |s|
  {
    if s != [] {
      SumOfOnes(s[..|s| - 1]);
    }
  }

  /** Equal ratings everywhere: one reward each. */
  lemma AllEqualRatings(ratings: seq<int>)
    requires forall i, j :: 0 <= i < |ratings| && 0 <= j < |ratings| ==> ratings[i] == ratings[j]
    ensures Sum(Allocation(ratings)) == |ratings|
  {
    var a := Allocation(ratings);
    forall i | 0 <= i < |ratings| ensures a[i] == 1 {
      assert LeftRun(ratings, i) == 1;
      assert RightRun(ratings, i) == 1;
    }
    SumOfOnes(a);
  }
}
