/**
 * `findClosestPair`: the lexicographically smallest pair of indices i < j
 * whose points are closest in Manhattan distance, found by a nested-loop
 * scan of all pairs.
 */
module ClosestPair {

  const IntMax: int := 0x7fff_ffff

  function Abs(v: int): nat { if v < 0 then -v else v }

  function Distance(xs: seq<int>, ys: seq<int>, i: nat, j: nat): nat
    requires i < |xs| <= |ys| && j < |xs|
  {
    Abs(xs[i] - xs[j]) + Abs(ys[i] - ys[j])
  }

  /** Lexicographic order on index pairs. */
  predicate PairBefore(i1: int, j1: int, i2: int, j2: int) {
    i1 < i2 || (i1 == i2 && j1 < j2)
  }

  method FindClosestPair(xs: array<int>, ys: array<int>) returns (first: int, second: int)
    requires xs.Length <= ys.Length
    // Java `int` arithmetic: no distance reaches Integer.MAX_VALUE
    requires forall i, j :: 0 <= i < j < xs.Length ==> Distance(xs[..], ys[..], i, j) < IntMax
    ensures xs.Length < 2 ==> first == 0 && second == 0
    ensures xs.Length >= 2 ==> 0 <= first < second < xs.Length
    ensures xs.Length >= 2 ==>
      forall i, j :: 0 <= i < j < xs.Length ==>
        Distance(xs[..], ys[..], first, second) <= Distance(xs[..], ys[..], i, j)
    ensures xs.Length >= 2 ==>
      forall i, j ::
        (0 <= i < j < xs.Length && (i, j) != (first, second) &&
         Distance(xs[..], ys[..], i, j) == Distance(xs[..], ys[..], first, second)) ==>
        PairBefore(first, second, i, j)
  {
    ghost var px, py := xs[..], ys[..];
    var n := xs.Length;
    var minDistance := IntMax;
    first, second := 0, 0;
    var i := 0;
    while i < n
      invariant 0 <= i <= n
      invariant i == 0 ==> minDistance == IntMax && first == 0 && second == 0
      invariant i > 0 && n >= 2 ==> 0 <= first < second < n && minDistance == Distance(px, py, first, second)
      invariant i > 0 && n < 2 ==> minDistance == IntMax && first == 0 && second == 0
      invariant forall a, b :: 0 <= a < b < n && a < i ==>
        minDistance <= Distance(px, py, a, b)
      invariant forall a, b ::
        (0 <= a < b < n && a < i && (a, b) != (first, second) && Distance(px, py, a, b) == minDistance) ==>
        PairBefore(first, second, a, b)
    {
      var j := i + 1;
      while j < n
        invariant i + 1 <= j <= n || (i + 1 == j && n <= i + 1)
        invariant (i == 0 && j == 1) ==> minDistance == IntMax && first == 0 && second == 0
        invariant (i > 0 || j > 1) && n >= 2 ==>
          0 <= first < second < n && minDistance == Distance(px, py, first, second)
        invariant (i > 0 || j > 1) && n < 2 ==> minDistance == IntMax && first == 0 && second == 0
        invariant forall a, b :: 0 <= a < b < n && PairBefore(a, b, i, j) ==>
          minDistance <= Distance(px, py, a, b)
        invariant forall a, b ::
          (0 <= a < b < n && PairBefore(a, b, i, j) && (a, b) != (first, second) && Distance(px, py, a, b) == minDistance) ==>
          PairBefore(first, second, a, b)
      {
        var distance := Abs(xs[i] - xs[j]) + Abs(ys[i] - ys[j]);
        assert distance == Distance(px, py, i, j);
        if distance < minDistance || (distance == minDistance && (i < first || (i == first && j < second))) {
          minDistance := distance;
          first := i;
          second := j;
        }
        j := j + 1;
      }
      i := i + 1;
    }
  }

  /** The example from the source's header comment. */
  method Example() {
    var xs := new int[] [1, 2, 3, 2, 4];
    var ys := new int[] [2, 3, 1, 2, 3];
    assert Distance(xs[..], ys[..], 0, 3) == 1;
    var first, second := FindClosestPair(xs, ys);
    assert xs[..] == [1, 2, 3, 2, 4] && ys[..] == [2, 3, 1, 2, 3];
    assert Distance(xs[..], ys[..], first, second) == 1;
    assert Distance(xs[..], ys[..], 0, 1) == 2 && Distance(xs[..], ys[..], 0, 2) == 3;
    assert first == 0 && second == 3;
  }
}
