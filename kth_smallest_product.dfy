/**
 * `findKthSmallestProduct`: the k-th smallest of the products
 * returns1[i] * returns2[j], found by a min-heap walk that starts every row i
 * at column 0 and, after popping (i, j), pushes (i, j + 1).
 *
 * The heap is a multiset of entries with extract-min; the walk is also
 * described abstractly by a "front": front[i] is the number of cells row i
 * has popped, and the heap holds exactly the next cell of every row that is
 * not exhausted. A row visits its cells in walk order t = 0, 1, ...; the
 * `AsWritten` walk visits column t, the `SignAware` walk visits the columns
 * of a negative row right to left.
 */
module KthSmallestProduct {

  datatype Walk = AsWritten | SignAware

  /** `new int[]{product, i, j}`. */
  datatype Entry = Entry(prod: int, i: int, j: int)

  /** The column that a row with first factor `a` visits at step t. */
  function Col(w: Walk, a: int, t: int, n: int): int {
    if w == SignAware && a < 0 then n - 1 - t else t
  }

  /** The heap entry of row i at walk step t. */
  function Cell(w: Walk, r1: seq<int>, r2: seq<int>, i: int, t: int): (e: Entry)
    requires 0 <= i < |r1| && 0 <= t < |r2|
    ensures 0 <= e.j < |r2| && e.i == i
  {
    var j := Col(w, r1[i], t, |r2|);
    Entry(r1[i] * r2[j], i, j)
  }

  ghost predicate ValidFront(r1: seq<int>, r2: seq<int>, f: seq<int>) {
    |f| == |r1| && forall i :: 0 <= i < |f| ==> 0 <= f[i] <= |r2|
  }

  function Start(r1: seq<int>): seq<int> {
    seq(|r1|, _ => 0)
  }

  /** What row i's push adds to the heap once it has popped t cells. */
  ghost function Next(w: Walk, r1: seq<int>, r2: seq<int>, i: int, t: int): multiset<Entry>
    requires 0 <= i < |r1| && 0 <= t
  {
    if t < |r2| then multiset{Cell(w, r1, r2, i, t)} else multiset{}
  }

  /** Entry e is the next cell of one of the first `rows` rows at front f. */
  ghost predicate InHeap(w: Walk, r1: seq<int>, r2: seq<int>, f: seq<int>, rows: int, e: Entry)
    requires ValidFront(r1, r2, f) && rows <= |r1|
  {
    0 <= e.i < rows && f[e.i] < |r2| && e == Cell(w, r1, r2, e.i, f[e.i])
  }

  /** The heap holds, once each, exactly the next cells of the first `rows` rows. */
  ghost predicate HeapMatches(w: Walk, r1: seq<int>, r2: seq<int>, f: seq<int>, rows: int, heap: multiset<Entry>)
    requires ValidFront(r1, r2, f) && rows <= |r1|
  {
    forall e :: heap[e] == if InHeap(w, r1, r2, f, rows, e) then 1 else 0
  }

  /** The number of rows among the first `rows` that are not exhausted. */
  ghost function Live(r1: seq<int>, r2: seq<int>, f: seq<int>, rows: int): nat
    requires ValidFront(r1, r2, f) && 0 <= rows <= |r1|
  {
    if rows == 0 then 0 else Live(r1, r2, f, rows - 1) + (if f[rows - 1] < |r2| then 1 else 0)
  }

  /** The heap never holds more entries than there are rows. */
  lemma {:induction false} LiveBound(r1: seq<int>, r2: seq<int>, f: seq<int>, rows: int)
    requires ValidFront(r1, r2, f) && 0 <= rows <= |r1|
    ensures Live(r1, r2, f, rows) <= rows
  {
    if rows > 0 {
      LiveBound(r1, r2, f, rows - 1);
    }
  }

  lemma {:induction false} LiveStep(r1: seq<int>, r2: seq<int>, f: seq<int>, i: int, rows: int)
    requires ValidFront(r1, r2, f) && 0 <= rows <= |r1| && 0 <= i < |r1| && f[i] < |r2|
    ensures ValidFront(r1, r2, f[i := f[i] + 1])
    ensures Live(r1, r2, f[i := f[i] + 1], rows) ==
      if i < rows then Live(r1, r2, f, rows) - 1 + (if f[i] + 1 < |r2| then 1 else 0) else Live(r1, r2, f, rows)
  {
    assert ValidFront(r1, r2, f[i := f[i] + 1]);
    if rows > 0 {
      LiveStep(r1, r2, f, i, rows - 1);
      if i == rows - 1 {
        LiveAtLeast(r1, r2, f, i, rows);
      }
    }
  }

  lemma {:induction false} LiveAtLeast(r1: seq<int>, r2: seq<int>, f: seq<int>, i: int, rows: int)
    requires ValidFront(r1, r2, f) && 0 <= i < rows <= |r1| && f[i] < |r2|
    ensures Live(r1, r2, f, rows) >= 1
  {
    if i < rows - 1 {
      LiveAtLeast(r1, r2, f, i, rows - 1);
    }
  }

  /** The number of cells popped so far. */
  function Total(f: seq<int>): int {
    if f == [] then 0 else Total(f[..|f| - 1]) + f[|f| - 1]
  }

  lemma {:induction false} TotalBump(f: seq<int>, i: int)
    requires 0 <= i < |f|
    ensures Total(f[i := f[i] + 1]) == Total(f) + 1
  {
    var g := f[i := f[i] + 1];
    if i < |f| - 1 {
      assert g[..|g| - 1] == f[..|f| - 1][i := f[i] + 1];
      TotalBump(f[..|f| - 1], i);
    } else {
      assert g[..|g| - 1] == f[..|f| - 1];
    }
  }

  lemma {:induction false} TotalStart(r1: seq<int>)
    ensures Total(Start(r1)) == 0
    decreases |r1|
  {
    if r1 != [] {
      assert Start(r1)[..|r1| - 1] == Start(r1[..|r1| - 1]);
      TotalStart(r1[..|r1| - 1]);
    }
  }

  lemma {:induction false} TotalFull(r1: seq<int>, r2: seq<int>, f: seq<int>)
    requires ValidFront(r1, r2, f) && forall i :: 0 <= i < |r1| ==> f[i] >= |r2|
    ensures Total(f) == |r1| * |r2|
    decreases |r1|
  {
    if r1 != [] {
      var pr := r1[..|r1| - 1];
      var pf := f[..|f| - 1];
      TotalFull(pr, r2, pf);
      assert |r1| * |r2| == |pr| * |r2| + |r2|;
    }
  }

  /** A front with fewer than |r1| * |r2| pops has a row that is not exhausted. */
  lemma LiveRow(r1: seq<int>, r2: seq<int>, f: seq<int>)
    requires ValidFront(r1, r2, f) && Total(f) < |r1| * |r2|
    ensures exists i :: 0 <= i < |r1| && f[i] < |r2|
  {
    if forall i :: 0 <= i < |r1| ==> f[i] >= |r2| {
      TotalFull(r1, r2, f);
    }
  }

  ghost predicate IsMin(e: Entry, h: multiset<Entry>) {
    e in h && forall x :: x in h ==> e.prod <= x.prod
  }

  lemma {:induction false} MinExists(h: multiset<Entry>)
    requires |h| > 0
    ensures exists e :: IsMin(e, h)
    decreases |h|
  {
    var x :| x in h;
    var rest := h - multiset{x};
    if |rest| == 0 {
      assert h == multiset{x};
      assert IsMin(x, h);
    } else {
      MinExists(rest);
      var e :| IsMin(e, rest);
      if x.prod < e.prod {
        assert IsMin(x, h);
      } else {
        assert h == rest + multiset{x};
        assert IsMin(e, h);
      }
    }
  }

  /** e is the next cell of some row, and no row's next cell is smaller. */
  ghost predicate IsMinCell(w: Walk, r1: seq<int>, r2: seq<int>, f: seq<int>, e: Entry)
    requires ValidFront(r1, r2, f)
  {
    && InHeap(w, r1, r2, f, |r1|, e)
    && forall i :: 0 <= i < |r1| && f[i] < |r2| ==> e.prod <= Cell(w, r1, r2, i, f[i]).prod
  }

  /** Popping e, a minimum next cell at front f, leads to front g. */
  ghost predicate PopOk(w: Walk, r1: seq<int>, r2: seq<int>, f: seq<int>, e: Entry, g: seq<int>) {
    ValidFront(r1, r2, f) && IsMinCell(w, r1, r2, f, e) && g == f[e.i := f[e.i] + 1]
  }

  /**
   * `pops` is a legal sequence of `poll` results from the initial heap, and
   * fronts[t] is the front before pop t.
   */
  ghost predicate IsRun(w: Walk, r1: seq<int>, r2: seq<int>, pops: seq<Entry>, fronts: seq<seq<int>>) {
    && |fronts| == |pops| + 1
    && fronts[0] == Start(r1)
    && forall t :: 0 <= t < |pops| ==> PopOk(w, r1, r2, fronts[t], pops[t], fronts[t + 1])
  }

  lemma RunExtend(w: Walk, r1: seq<int>, r2: seq<int>, pops: seq<Entry>, fronts: seq<seq<int>>, e: Entry, g: seq<int>)
    requires IsRun(w, r1, r2, pops, fronts) && PopOk(w, r1, r2, fronts[|pops|], e, g)
    ensures IsRun(w, r1, r2, pops + [e], fronts + [g])
  {
    var ps := pops + [e];
    var fs := fronts + [g];
    forall t | 0 <= t < |ps| ensures PopOk(w, r1, r2, fs[t], ps[t], fs[t + 1]) {
      if t < |pops| {
        assert fs[t] == fronts[t] && fs[t + 1] == fronts[t + 1] && ps[t] == pops[t];
      }
    }
  }

  /** Every front of a run is valid and counts the pops before it. */
  lemma {:induction false} FrontShape(w: Walk, r1: seq<int>, r2: seq<int>, pops: seq<Entry>, fronts: seq<seq<int>>, t: int)
    requires IsRun(w, r1, r2, pops, fronts) && 0 <= t <= |pops|
    ensures ValidFront(r1, r2, fronts[t]) && Total(fronts[t]) == t
  {
    if t == 0 {
      TotalStart(r1);
    } else {
      FrontShape(w, r1, r2, pops, fronts, t - 1);
      assert PopOk(w, r1, r2, fronts[t - 1], pops[t - 1], fronts[t]);
      TotalBump(fronts[t - 1], pops[t - 1].i);
    }
  }

  /** Every row lists its products in nondecreasing walk order. */
  ghost predicate RowSorted(w: Walk, r1: seq<int>, r2: seq<int>) {
    forall i, t1, t2 :: 0 <= i < |r1| && 0 <= t1 <= t2 < |r2| ==>
      Cell(w, r1, r2, i, t1).prod <= Cell(w, r1, r2, i, t2).prod
  }

  predicate Ascending(s: seq<int>) {
    forall a, b :: 0 <= a <= b < |s| ==> s[a] <= s[b]
  }

  lemma MulMonotone(a: int, x: int, y: int)
    requires x <= y
    ensures a >= 0 ==> a * x <= a * y
    ensures a < 0 ==> a * y <= a * x
  {
    if a >= 0 {
      assert a * y - a * x == a * (y - x);
    } else {
      assert a * x - a * y == (-a) * (y - x);
    }
  }

  /** With `returns2` sorted and `returns1` non-negative, the code's rows are sorted. */
  lemma AsWrittenRowsSorted(r1: seq<int>, r2: seq<int>)
    requires Ascending(r2) && forall i :: 0 <= i < |r1| ==> r1[i] >= 0
    ensures RowSorted(AsWritten, r1, r2)
  {
    forall i, t1, t2 | 0 <= i < |r1| && 0 <= t1 <= t2 < |r2|
      ensures Cell(AsWritten, r1, r2, i, t1).prod <= Cell(AsWritten, r1, r2, i, t2).prod
    {
      MulMonotone(r1[i], r2[t1], r2[t2]);
    }
  }

  /** With `returns2` sorted, the sign-aware rows are sorted whatever the signs in `returns1`. */
  lemma SignAwareRowsSorted(r1: seq<int>, r2: seq<int>)
    requires Ascending(r2)
    ensures RowSorted(SignAware, r1, r2)
  {
    forall i, t1, t2 | 0 <= i < |r1| && 0 <= t1 <= t2 < |r2|
      ensures Cell(SignAware, r1, r2, i, t1).prod <= Cell(SignAware, r1, r2, i, t2).prod
    {
      var n := |r2|;
      if r1[i] >= 0 {
        MulMonotone(r1[i], r2[t1], r2[t2]);
      } else {
        MulMonotone(r1[i], r2[n - 1 - t2], r2[n - 1 - t1]);
      }
    }
  }

  ghost predicate PoppedAtMost(w: Walk, r1: seq<int>, r2: seq<int>, f: seq<int>, v: int)
    requires ValidFront(r1, r2, f)
  {
    forall i, t :: 0 <= i < |r1| && 0 <= t < f[i] ==> Cell(w, r1, r2, i, t).prod <= v
  }

  ghost predicate RemainingAtLeast(w: Walk, r1: seq<int>, r2: seq<int>, f: seq<int>, v: int)
    requires ValidFront(r1, r2, f)
  {
    forall i, t :: 0 <= i < |r1| && f[i] <= t < |r2| ==> v <= Cell(w, r1, r2, i, t).prod
  }

  /**
   * On sorted rows pop t - 1 separates the cells at front t: everything popped
   * is at most its value and everything still to come is at least its value.
   */
  lemma {:induction false} RunOrdered(w: Walk, r1: seq<int>, r2: seq<int>, pops: seq<Entry>, fronts: seq<seq<int>>, t: int)
    requires RowSorted(w, r1, r2) && IsRun(w, r1, r2, pops, fronts) && 1 <= t <= |pops|
    ensures ValidFront(r1, r2, fronts[t])
    ensures PoppedAtMost(w, r1, r2, fronts[t], pops[t - 1].prod)
    ensures RemainingAtLeast(w, r1, r2, fronts[t], pops[t - 1].prod)
    ensures forall a :: 0 <= a < t ==> pops[a].prod <= pops[t - 1].prod
  {
    var f0 := fronts[t - 1];
    var f := fronts[t];
    var e := pops[t - 1];
    var v := e.prod;
    assert PopOk(w, r1, r2, f0, e, f);
    FrontShape(w, r1, r2, pops, fronts, t);
    if t >= 2 {
      RunOrdered(w, r1, r2, pops, fronts, t - 1);
      assert pops[t - 2].prod <= v;
    }
    forall i, s | 0 <= i < |r1| && f[i] <= s < |r2|
      ensures v <= Cell(w, r1, r2, i, s).prod
    {
      assert v <= Cell(w, r1, r2, i, f0[i]).prod;
    }
    forall i, s | 0 <= i < |r1| && 0 <= s < f[i]
      ensures Cell(w, r1, r2, i, s).prod <= v
    {
      if s < f0[i] {
        assert t >= 2;
      }
    }
  }

  /** Popped values come out in nondecreasing order on sorted rows. */
  lemma PopsNondecreasing(w: Walk, r1: seq<int>, r2: seq<int>, pops: seq<Entry>, fronts: seq<seq<int>>, a: int, b: int)
    requires RowSorted(w, r1, r2) && IsRun(w, r1, r2, pops, fronts)
    requires 0 <= a <= b < |pops|
    ensures pops[a].prod <= pops[b].prod
  {
    RunOrdered(w, r1, r2, pops, fronts, b + 1);
  }

  /** No cell is popped twice: the pops of a run are pairwise distinct. */
  lemma PopsDistinct(w: Walk, r1: seq<int>, r2: seq<int>, pops: seq<Entry>, fronts: seq<seq<int>>, a: int, b: int)
    requires IsRun(w, r1, r2, pops, fronts)
    requires 0 <= a < b < |pops|
    ensures pops[a] != pops[b]
  {
    if pops[a] == pops[b] {
      var i := pops[a].i;
      assert PopOk(w, r1, r2, fronts[a], pops[a], fronts[a + 1]);
      assert PopOk(w, r1, r2, fronts[b], pops[b], fronts[b + 1]);
      FrontsGrow(w, r1, r2, pops, fronts, i, a + 1, b);
    }
  }

  /** A row's front never moves back. */
  lemma {:induction false} FrontsGrow(w: Walk, r1: seq<int>, r2: seq<int>, pops: seq<Entry>, fronts: seq<seq<int>>, i: int, a: int, b: int)
    requires IsRun(w, r1, r2, pops, fronts) && 0 <= i < |r1| && 0 <= a <= b <= |pops|
    ensures ValidFront(r1, r2, fronts[a]) && ValidFront(r1, r2, fronts[b])
    ensures fronts[a][i] <= fronts[b][i]
    decreases b - a
  {
    FrontShape(w, r1, r2, pops, fronts, a);
    FrontShape(w, r1, r2, pops, fronts, b);
    if a < b {
      FrontsGrow(w, r1, r2, pops, fronts, i, a, b - 1);
      assert PopOk(w, r1, r2, fronts[b - 1], pops[b - 1], fronts[b]);
    }
  }

  /** The cell (i, t) is below v (strict) or at most v. */
  predicate Hit(w: Walk, r1: seq<int>, r2: seq<int>, i: int, t: int, v: int, strict: bool)
    requires 0 <= i < |r1| && 0 <= t < |r2|
  {
    if strict then Cell(w, r1, r2, i, t).prod < v else Cell(w, r1, r2, i, t).prod <= v
  }

  /** The number of hits of row i at walk steps lo..hi-1. */
  function CountRange(w: Walk, r1: seq<int>, r2: seq<int>, i: int, v: int, strict: bool, lo: int, hi: int): nat
    requires 0 <= i < |r1| && 0 <= lo <= hi <= |r2|
    decreases hi - lo
  {
    if lo == hi then 0
    else CountRange(w, r1, r2, i, v, strict, lo, hi - 1) + (if Hit(w, r1, r2, i, hi - 1, v, strict) then 1 else 0)
  }

  /** The number of hits over the first `rows` rows. */
  function CountRows(w: Walk, r1: seq<int>, r2: seq<int>, v: int, strict: bool, rows: int): nat
    requires 0 <= rows <= |r1|
  {
    if rows == 0 then 0
    else CountRows(w, r1, r2, v, strict, rows - 1) + CountRange(w, r1, r2, rows - 1, v, strict, 0, |r2|)
  }

  /** The number of products returns1[i] * returns2[j] below v. */
  function Below(r1: seq<int>, r2: seq<int>, v: int): nat {
    CountRows(AsWritten, r1, r2, v, true, |r1|)
  }

  /** The number of products returns1[i] * returns2[j] at most v. */
  function AtMost(r1: seq<int>, r2: seq<int>, v: int): nat {
    CountRows(AsWritten, r1, r2, v, false, |r1|)
  }

  /** v is the k-th smallest (counting from 1) of the |r1| * |r2| products, with repeats. */
  predicate IsKthSmallest(r1: seq<int>, r2: seq<int>, v: int, k: int) {
    Below(r1, r2, v) < k <= AtMost(r1, r2, v)
  }

  /** The k-th smallest value is unique. */
  lemma KthUnique(r1: seq<int>, r2: seq<int>, v: int, u: int, k: int)
    requires IsKthSmallest(r1, r2, v, k) && IsKthSmallest(r1, r2, u, k)
    ensures v == u
  {
    if v < u {
      CountRowsMonotone(r1, r2, v, u, |r1|);
    } else if u < v {
      CountRowsMonotone(r1, r2, u, v, |r1|);
    }
  }

  lemma {:induction false} CountRowsMonotone(r1: seq<int>, r2: seq<int>, v: int, u: int, rows: int)
    requires v < u && 0 <= rows <= |r1|
    ensures CountRows(AsWritten, r1, r2, v, false, rows) <= CountRows(AsWritten, r1, r2, u, true, rows)
  {
    if rows > 0 {
      CountRowsMonotone(r1, r2, v, u, rows - 1);
      CountRangeMonotone(r1, r2, rows - 1, v, u, |r2|);
    }
  }

  lemma {:induction false} CountRangeMonotone(r1: seq<int>, r2: seq<int>, i: int, v: int, u: int, hi: int)
    requires v < u && 0 <= i < |r1| && 0 <= hi <= |r2|
    ensures CountRange(AsWritten, r1, r2, i, v, false, 0, hi) <= CountRange(AsWritten, r1, r2, i, u, true, 0, hi)
  {
    if hi > 0 {
      CountRangeMonotone(r1, r2, i, v, u, hi - 1);
    }
  }

  lemma {:induction false} CountRangeAtMost(w: Walk, r1: seq<int>, r2: seq<int>, i: int, v: int, strict: bool, lo: int, hi: int)
    requires 0 <= i < |r1| && 0 <= lo <= hi <= |r2|
    ensures CountRange(w, r1, r2, i, v, strict, lo, hi) <= hi - lo
    decreases hi - lo
  {
    if lo < hi {
      CountRangeAtMost(w, r1, r2, i, v, strict, lo, hi - 1);
    }
  }

  /** Steps from `mid` on that all miss add nothing. */
  lemma {:induction false} CountRangeMisses(w: Walk, r1: seq<int>, r2: seq<int>, i: int, v: int, strict: bool, mid: int, hi: int)
    requires 0 <= i < |r1| && 0 <= mid <= hi <= |r2|
    requires forall t :: mid <= t < hi ==> !Hit(w, r1, r2, i, t, v, strict)
    ensures CountRange(w, r1, r2, i, v, strict, 0, hi) == CountRange(w, r1, r2, i, v, strict, 0, mid)
    decreases hi - mid
  {
    if mid < hi {
      CountRangeMisses(w, r1, r2, i, v, strict, mid, hi - 1);
    }
  }

  /** Steps before `mid` that all hit count in full. */
  lemma {:induction false} CountRangeHits(w: Walk, r1: seq<int>, r2: seq<int>, i: int, v: int, strict: bool, mid: int, hi: int)
    requires 0 <= i < |r1| && 0 <= mid <= hi <= |r2|
    requires forall t :: 0 <= t < mid ==> Hit(w, r1, r2, i, t, v, strict)
    ensures CountRange(w, r1, r2, i, v, strict, 0, hi) >= mid
    decreases hi
  {
    if mid < hi {
      CountRangeHits(w, r1, r2, i, v, strict, mid, hi - 1);
    } else if mid > 0 {
      CountRangeHits(w, r1, r2, i, v, strict, mid - 1, hi - 1);
    }
  }

  /** The first step of a non-empty range can be peeled off. */
  lemma {:induction false} CountRangeFront(w: Walk, r1: seq<int>, r2: seq<int>, i: int, v: int, strict: bool, lo: int, hi: int)
    requires 0 <= i < |r1| && 0 <= lo < hi <= |r2|
    ensures CountRange(w, r1, r2, i, v, strict, lo, hi) ==
      (if Hit(w, r1, r2, i, lo, v, strict) then 1 else 0) + CountRange(w, r1, r2, i, v, strict, lo + 1, hi)
    decreases hi - lo
  {
    if lo + 1 < hi {
      CountRangeFront(w, r1, r2, i, v, strict, lo, hi - 1);
    }
  }

  /** A negative row walked right to left hits as often as walked left to right. */
  lemma {:induction false} CountRangeReversed(r1: seq<int>, r2: seq<int>, i: int, v: int, strict: bool, hi: int)
    requires 0 <= i < |r1| && r1[i] < 0 && 0 <= hi <= |r2|
    ensures CountRange(SignAware, r1, r2, i, v, strict, 0, hi) == CountRange(AsWritten, r1, r2, i, v, strict, |r2| - hi, |r2|)
  {
    if hi > 0 {
      var n := |r2|;
      CountRangeReversed(r1, r2, i, v, strict, hi - 1);
      CountRangeFront(AsWritten, r1, r2, i, v, strict, n - hi, n);
      assert Cell(SignAware, r1, r2, i, hi - 1) == Cell(AsWritten, r1, r2, i, n - hi);
    }
  }

  lemma {:induction false} CountRangeSame(r1: seq<int>, r2: seq<int>, i: int, v: int, strict: bool, hi: int)
    requires 0 <= i < |r1| && r1[i] >= 0 && 0 <= hi <= |r2|
    ensures CountRange(SignAware, r1, r2, i, v, strict, 0, hi) == CountRange(AsWritten, r1, r2, i, v, strict, 0, hi)
  {
    if hi > 0 {
      CountRangeSame(r1, r2, i, v, strict, hi - 1);
    }
  }

  /** Counting products does not depend on the order a walk visits them in. */
  lemma {:induction false} CountRowsWalkFree(w: Walk, r1: seq<int>, r2: seq<int>, v: int, strict: bool, rows: int)
    requires 0 <= rows <= |r1|
    ensures CountRows(w, r1, r2, v, strict, rows) == CountRows(AsWritten, r1, r2, v, strict, rows)
  {
    if rows > 0 && w == SignAware {
      CountRowsWalkFree(w, r1, r2, v, strict, rows - 1);
      if r1[rows - 1] < 0 {
        CountRangeReversed(r1, r2, rows - 1, v, strict, |r2|);
      } else {
        CountRangeSame(r1, r2, rows - 1, v, strict, |r2|);
      }
    }
  }

  /** Summing the per-row bounds of a separated front. */
  lemma {:induction false} CountRowsBounds(w: Walk, r1: seq<int>, r2: seq<int>, f: seq<int>, v: int, last: int, rows: int)
    requires ValidFront(r1, r2, f) && 0 <= rows <= |r1| && 0 <= last < |r1|
    requires PoppedAtMost(w, r1, r2, f, v) && RemainingAtLeast(w, r1, r2, f, v)
    requires 1 <= f[last] && Cell(w, r1, r2, last, f[last] - 1).prod == v
    ensures CountRows(w, r1, r2, v, true, rows) + (if last < rows then 1 else 0) <= Total(f[..rows])
    ensures CountRows(w, r1, r2, v, false, rows) >= Total(f[..rows])
  {
    if rows > 0 {
      var i := rows - 1;
      CountRowsBounds(w, r1, r2, f, v, last, i);
      assert f[..rows][..i] == f[..i];
      RowBounds(w, r1, r2, f, v, last, i);
    }
  }

  /** Row i of a separated front: below v only among its popped cells (not counting the last pop), up to v at all of them. */
  lemma RowBounds(w: Walk, r1: seq<int>, r2: seq<int>, f: seq<int>, v: int, last: int, i: int)
    requires ValidFront(r1, r2, f) && 0 <= i < |r1| && 0 <= last < |r1|
    requires PoppedAtMost(w, r1, r2, f, v) && RemainingAtLeast(w, r1, r2, f, v)
    requires 1 <= f[last] && Cell(w, r1, r2, last, f[last] - 1).prod == v
    ensures CountRange(w, r1, r2, i, v, true, 0, |r2|) + (if i == last then 1 else 0) <= f[i]
    ensures CountRange(w, r1, r2, i, v, false, 0, |r2|) >= f[i]
  {
    var n := |r2|;
    CountRangeMisses(w, r1, r2, i, v, true, f[i], n);
    if i == last {
      CountRangeMisses(w, r1, r2, i, v, true, f[i] - 1, f[i]);
      CountRangeAtMost(w, r1, r2, i, v, true, 0, f[i] - 1);
    } else {
      CountRangeAtMost(w, r1, r2, i, v, true, 0, f[i]);
    }
    CountRangeHits(w, r1, r2, i, v, false, f[i], n);
  }

  /** On sorted rows, the value of the k-th pop is the k-th smallest product. */
  lemma RunFindsKth(w: Walk, r1: seq<int>, r2: seq<int>, pops: seq<Entry>, fronts: seq<seq<int>>)
    requires RowSorted(w, r1, r2) && IsRun(w, r1, r2, pops, fronts) && |pops| >= 1
    ensures IsKthSmallest(r1, r2, pops[|pops| - 1].prod, |pops|)
  {
    var k := |pops|;
    var f := fronts[k];
    var e := pops[k - 1];
    RunOrdered(w, r1, r2, pops, fronts, k);
    FrontShape(w, r1, r2, pops, fronts, k);
    assert PopOk(w, r1, r2, fronts[k - 1], e, f);
    CountRowsBounds(w, r1, r2, f, e.prod, e.i, |r1|);
    assert f[..|r1|] == f;
    CountRowsWalkFree(w, r1, r2, e.prod, true, |r1|);
    CountRowsWalkFree(w, r1, r2, e.prod, false, |r1|);
  }

  /** Offering column 0 of the next row (`returns2[0]` in the code). */
  lemma StartStep(w: Walk, r1: seq<int>, r2: seq<int>, rows: int, heap: multiset<Entry>)
    requires |r2| > 0 && 0 <= rows < |r1|
    requires ValidFront(r1, r2, Start(r1)) && HeapMatches(w, r1, r2, Start(r1), rows, heap)
    ensures HeapMatches(w, r1, r2, Start(r1), rows + 1, heap + multiset{Cell(w, r1, r2, rows, 0)})
    ensures Live(r1, r2, Start(r1), rows + 1) == Live(r1, r2, Start(r1), rows) + 1
  {
  }

  /** The heap after popping row i's cell and offering its successor. */
  lemma HeapMatchesStep(w: Walk, r1: seq<int>, r2: seq<int>, f: seq<int>, heap: multiset<Entry>, top: Entry)
    requires ValidFront(r1, r2, f) && HeapMatches(w, r1, r2, f, |r1|, heap)
    requires InHeap(w, r1, r2, f, |r1|, top)
    ensures ValidFront(r1, r2, f[top.i := f[top.i] + 1])
    ensures HeapMatches(w, r1, r2, f[top.i := f[top.i] + 1], |r1|, heap - multiset{top} + Next(w, r1, r2, top.i, f[top.i] + 1))
  {
    var i := top.i;
    var g := f[i := f[i] + 1];
    var h := heap - multiset{top} + Next(w, r1, r2, i, f[i] + 1);
    assert ValidFront(r1, r2, g);
    assert HeapMatches(w, r1, r2, g, |r1|, h) by {
      forall e ensures h[e] == if InHeap(w, r1, r2, g, |r1|, e) then 1 else 0 {
        HeapCountStep(w, r1, r2, f, heap, top, e);
      }
    }
  }

  /** How often one entry is in the heap after popping row i's cell and offering its successor. */
  lemma HeapCountStep(w: Walk, r1: seq<int>, r2: seq<int>, f: seq<int>, heap: multiset<Entry>, top: Entry, e: Entry)
    requires ValidFront(r1, r2, f) && HeapMatches(w, r1, r2, f, |r1|, heap)
    requires InHeap(w, r1, r2, f, |r1|, top)
    ensures ValidFront(r1, r2, f[top.i := f[top.i] + 1])
    ensures (heap - multiset{top} + Next(w, r1, r2, top.i, f[top.i] + 1))[e] ==
      if InHeap(w, r1, r2, f[top.i := f[top.i] + 1], |r1|, e) then 1 else 0
  {
    var i := top.i;
    var nx := Next(w, r1, r2, i, f[i] + 1);
    assert heap[e] == if InHeap(w, r1, r2, f, |r1|, e) then 1 else 0;
    if e.i == i {
      if e == top {
        assert nx[e] == 0;
      } else {
        assert heap[e] == 0;
      }
    } else {
      assert nx[e] == 0;
    }
  }

  /**
   * The heap loop's state after `pops`: a legal run whose last front is f,
   * `heap` holding exactly the rows' next cells, at most one entry per row.
   */
  ghost predicate Walking(w: Walk, r1: seq<int>, r2: seq<int>, pops: seq<Entry>, fronts: seq<seq<int>>, f: seq<int>, heap: multiset<Entry>) {
    && IsRun(w, r1, r2, pops, fronts)
    && fronts[|pops|] == f
    && ValidFront(r1, r2, f)
    && Total(f) == |pops|
    && HeapMatches(w, r1, r2, f, |r1|, heap)
    && |heap| == Live(r1, r2, f, |r1|) <= |r1|
  }

  lemma StartWalk(w: Walk, r1: seq<int>, r2: seq<int>, heap: multiset<Entry>)
    requires ValidFront(r1, r2, Start(r1))
    requires HeapMatches(w, r1, r2, Start(r1), |r1|, heap) && |heap| == Live(r1, r2, Start(r1), |r1|)
    ensures Walking(w, r1, r2, [], [Start(r1)], Start(r1), heap)
  {
    TotalStart(r1);
    LiveBound(r1, r2, Start(r1), |r1|);
  }

  /** A `poll` that returns a minimum of the heap pops a minimum next cell. */
  lemma PollIsMin(w: Walk, r1: seq<int>, r2: seq<int>, f: seq<int>, heap: multiset<Entry>, top: Entry)
    requires ValidFront(r1, r2, f) && HeapMatches(w, r1, r2, f, |r1|, heap)
    requires top in heap && forall x :: x in heap ==> top.prod <= x.prod
    ensures PopOk(w, r1, r2, f, top, f[top.i := f[top.i] + 1])
  {
    assert heap[top] == 1;
    forall i | 0 <= i < |r1| && f[i] < |r2| ensures top.prod <= Cell(w, r1, r2, i, f[i]).prod {
      assert heap[Cell(w, r1, r2, i, f[i])] == 1;
    }
  }

  /**
   * The entry offered after polling `top`: the next column of its row, if
   * there is one (j + 1 as written; j - 1 for a negative row when sign-aware).
   */
  function Successor(w: Walk, r1: seq<int>, r2: seq<int>, top: Entry): multiset<Entry>
    requires 0 <= top.i < |r1| && 0 <= top.j < |r2|
  {
    var i, j := top.i, top.j;
    if w == SignAware && r1[i] < 0 then
      if j - 1 >= 0 then multiset{Entry(r1[i] * r2[j - 1], i, j - 1)} else multiset{}
    else
      if j + 1 < |r2| then multiset{Entry(r1[i] * r2[j + 1], i, j + 1)} else multiset{}
  }

  /** The entry offered is the row's next cell in walk order. */
  lemma SuccessorIsNext(w: Walk, r1: seq<int>, r2: seq<int>, f: seq<int>, top: Entry)
    requires ValidFront(r1, r2, f) && InHeap(w, r1, r2, f, |r1|, top)
    ensures Successor(w, r1, r2, top) == Next(w, r1, r2, top.i, f[top.i] + 1)
  {
    var i := top.i;
    var t := f[i];
    if t + 1 < |r2| {
      assert Col(w, r1[i], t + 1, |r2|) == if w == SignAware && r1[i] < 0 then top.j - 1 else top.j + 1;
    }
  }

  /** A polled entry is a cell of the heap's rows. */
  lemma PollInRange(w: Walk, r1: seq<int>, r2: seq<int>, pops: seq<Entry>, fronts: seq<seq<int>>, f: seq<int>, heap: multiset<Entry>, top: Entry)
    requires Walking(w, r1, r2, pops, fronts, f, heap) && top in heap
    ensures 0 <= top.i < |r1| && 0 <= top.j < |r2| && f[top.i] < |r2|
    ensures top == Cell(w, r1, r2, top.i, f[top.i])
  {
    assert heap[top] == 1;
  }

  /** One `poll` and the `offer` that follows it keep the loop's state. */
  lemma PollStep(w: Walk, r1: seq<int>, r2: seq<int>, pops: seq<Entry>, fronts: seq<seq<int>>, f: seq<int>, heap: multiset<Entry>,
                 top: Entry, pops': seq<Entry>, fronts': seq<seq<int>>, f': seq<int>, heap': multiset<Entry>)
    requires Walking(w, r1, r2, pops, fronts, f, heap)
    requires top in heap && forall x :: x in heap ==> top.prod <= x.prod
    requires 0 <= top.i < |r1| && 0 <= top.j < |r2|
    requires heap' == heap - multiset{top} + Successor(w, r1, r2, top)
    requires f' == f[top.i := f[top.i] + 1] && pops' == pops + [top] && fronts' == fronts + [f']
    ensures Walking(w, r1, r2, pops', fronts', f', heap')
  {
    assert IsRun(w, r1, r2, pops', fronts') by {
      PollIsMin(w, r1, r2, f, heap, top);
      RunExtend(w, r1, r2, pops, fronts, top, f');
    }
    assert Total(f') == |pops'| by {
      TotalBump(f, top.i);
    }
    assert ValidFront(r1, r2, f') && HeapMatches(w, r1, r2, f', |r1|, heap') by {
      assert heap[top] == 1;
      SuccessorIsNext(w, r1, r2, f, top);
      HeapMatchesStep(w, r1, r2, f, heap, top);
    }
    assert |heap'| == Live(r1, r2, f', |r1|) <= |r1| by {
      assert heap[top] == 1;
      LiveStep(r1, r2, f, top.i, |r1|);
      LiveBound(r1, r2, f', |r1|);
    }
  }

  /** Before |r1| * |r2| pops the heap is not empty, so `poll` finds a minimum. */
  lemma HeapNotEmpty(w: Walk, r1: seq<int>, r2: seq<int>, pops: seq<Entry>, fronts: seq<seq<int>>, f: seq<int>, heap: multiset<Entry>)
    requires Walking(w, r1, r2, pops, fronts, f, heap) && |pops| < |r1| * |r2|
    ensures exists e :: IsMin(e, heap)
  {
    LiveRow(r1, r2, f);
    var i :| 0 <= i < |r1| && f[i] < |r2|;
    assert heap[Cell(w, r1, r2, i, f[i])] == 1;
    MinExists(heap);
  }

  /**
   * The heap walk of `findKthSmallestProduct`, for either walk order. The
   * ghost `pops` records the entries `poll` returned (any minimum may come
   * out among equal products) and `fronts` the fronts before each pop.
   */
  method HeapWalk(w: Walk, returns1: seq<int>, returns2: seq<int>, k: int)
    returns (result: int, ghost pops: seq<Entry>, ghost fronts: seq<seq<int>>)
    requires |returns1| == 0 || |returns2| > 0
    requires k <= |returns1| * |returns2|
    ensures IsRun(w, returns1, returns2, pops, fronts)
    ensures k <= 0 ==> result == 0 && pops == []
    ensures k > 0 ==> |pops| == k && result == pops[k - 1].prod
    ensures k > 0 && RowSorted(w, returns1, returns2) ==> IsKthSmallest(returns1, returns2, result, k)
  {
    var heap := StartHeap(w, returns1, returns2);
    result := 0;
    pops := [];
    fronts := [Start(returns1)];
    StartWalk(w, returns1, returns2, heap);
    if k > 0 {
      result, pops, fronts := PollTimes(w, returns1, returns2, k, heap);
      if RowSorted(w, returns1, returns2) {
        RunFindsKth(w, returns1, returns2, pops, fronts);
      }
    }
  }

  /** The second loop of `findKthSmallestProduct`: k polls, the last of which gives the answer. */
  method PollTimes(w: Walk, returns1: seq<int>, returns2: seq<int>, k: int, heap0: multiset<Entry>)
    returns (result: int, ghost pops: seq<Entry>, ghost fronts: seq<seq<int>>)
    requires 0 < k <= |returns1| * |returns2|
    requires Walking(w, returns1, returns2, [], [Start(returns1)], Start(returns1), heap0)
    ensures IsRun(w, returns1, returns2, pops, fronts) && |pops| == k && result == pops[k - 1].prod
  {
    var heap := heap0;
    result := 0;
    pops := [];
    fronts := [Start(returns1)];
    ghost var front := Start(returns1);
    var remaining := k;
    while remaining > 0
      invariant 0 <= remaining <= k && |pops| == k - remaining
      invariant Walking(w, returns1, returns2, pops, fronts, front, heap)
      invariant |pops| > 0 ==> result == pops[|pops| - 1].prod
    {
      var top;
      top, heap, pops, fronts, front := PollOnce(w, returns1, returns2, heap, pops, fronts, front);
      result := top.prod;
      remaining := remaining - 1;
    }
  }

  /** One round of the polling loop: the least entry leaves the heap and its row offers its next entry. */
  method PollOnce(w: Walk, returns1: seq<int>, returns2: seq<int>, heap0: multiset<Entry>,
                  ghost pops0: seq<Entry>, ghost fronts0: seq<seq<int>>, ghost front0: seq<int>)
    returns (top: Entry, heap: multiset<Entry>, ghost pops: seq<Entry>, ghost fronts: seq<seq<int>>, ghost front: seq<int>)
    requires Walking(w, returns1, returns2, pops0, fronts0, front0, heap0) && |pops0| < |returns1| * |returns2|
    ensures Walking(w, returns1, returns2, pops, fronts, front, heap) && pops == pops0 + [top]
  {
    HeapNotEmpty(w, returns1, returns2, pops0, fronts0, front0, heap0);
    top :| top in heap0 && forall x :: x in heap0 ==> top.prod <= x.prod;
    PollInRange(w, returns1, returns2, pops0, fronts0, front0, heap0, top);
    heap := heap0 - multiset{top} + Successor(w, returns1, returns2, top);
    pops := pops0 + [top];
    front := front0[top.i := front0[top.i] + 1];
    fronts := fronts0 + [front];
    PollStep(w, returns1, returns2, pops0, fronts0, front0, heap0, top, pops, fronts, front, heap);
  }

  /** The first loop of `findKthSmallestProduct`: each row offers its first entry. */
  method StartHeap(w: Walk, returns1: seq<int>, returns2: seq<int>) returns (heap: multiset<Entry>)
    requires |returns1| == 0 || |returns2| > 0
    ensures ValidFront(returns1, returns2, Start(returns1))
    ensures HeapMatches(w, returns1, returns2, Start(returns1), |returns1|, heap)
    ensures |heap| == Live(returns1, returns2, Start(returns1), |returns1|)
  {
    heap := multiset{};
    var i := 0;
    while i < |returns1|
      invariant 0 <= i <= |returns1|
      invariant ValidFront(returns1, returns2, Start(returns1))
      invariant HeapMatches(w, returns1, returns2, Start(returns1), i, heap)
      invariant |heap| == Live(returns1, returns2, Start(returns1), i)
    {
      StartStep(w, returns1, returns2, i, heap);
      var j := Col(w, returns1[i], 0, |returns2|);
      heap := heap + multiset{Entry(returns1[i] * returns2[j], i, j)};
      i := i + 1;
    }
  }

  /** `findKthSmallestProduct` as written: every row starts at column 0 and moves right. */
  method FindKthSmallestProduct(returns1: seq<int>, returns2: seq<int>, k: int)
    returns (result: int, ghost pops: seq<Entry>, ghost fronts: seq<seq<int>>)
    requires |returns1| == 0 || |returns2| > 0
    requires k <= |returns1| * |returns2|
    ensures IsRun(AsWritten, returns1, returns2, pops, fronts)
    ensures k <= 0 ==> result == 0
    ensures k > 0 ==> |pops| == k && result == pops[k - 1].prod
    ensures k > 0 ==> exists i, j :: 0 <= i < |returns1| && 0 <= j < |returns2| && result == returns1[i] * returns2[j]
    ensures k > 0 && Ascending(returns2) && (forall i :: 0 <= i < |returns1| ==> returns1[i] >= 0) ==>
      IsKthSmallest(returns1, returns2, result, k)
  {
    result, pops, fronts := HeapWalk(AsWritten, returns1, returns2, k);
    if k > 0 {
      var e := pops[k - 1];
      assert PopOk(AsWritten, returns1, returns2, fronts[k - 1], e, fronts[k]);
      assert result == returns1[e.i] * returns2[e.j];
      if Ascending(returns2) && forall i :: 0 <= i < |returns1| ==> returns1[i] >= 0 {
        AsWrittenRowsSorted(returns1, returns2);
      }
    }
  }

  /**
   * The sign-aware walk: a row whose `returns1` factor is negative starts at
   * the last column and moves left, so every row's products ascend and the
   * result is the k-th smallest product whenever `returns2` is sorted.
   */
  method FindKthSmallestProductSignAware(returns1: seq<int>, returns2: seq<int>, k: int)
    returns (result: int, ghost pops: seq<Entry>, ghost fronts: seq<seq<int>>)
    requires |returns1| == 0 || |returns2| > 0
    requires k <= |returns1| * |returns2|
    ensures IsRun(SignAware, returns1, returns2, pops, fronts)
    ensures k <= 0 ==> result == 0
    ensures k > 0 ==> |pops| == k && result == pops[k - 1].prod
    ensures k > 0 && Ascending(returns2) ==> IsKthSmallest(returns1, returns2, result, k)
  {
    result, pops, fronts := HeapWalk(SignAware, returns1, returns2, k);
    if k > 0 && Ascending(returns2) {
      SignAwareRowsSorted(returns1, returns2);
    }
  }

  /** Example 1: the 2nd smallest product of [2, 5] and [3, 4] is 8. */
  method ExampleOne() returns (result: int)
    ensures result == 8
  {
    ghost var pops, fronts;
    result, pops, fronts := FindKthSmallestProduct([2, 5], [3, 4], 2);
    assert Ascending([3, 4]);
    assert forall i :: 0 <= i < |[2, 5]| ==> [2, 5][i] >= 0;
    assert IsKthSmallest([2, 5], [3, 4], 8, 2);
    KthUnique([2, 5], [3, 4], result, 8, 2);
  }

  /** The products of the second example, sorted: -16, -8, -8, -4, 0, 0, 6, 12. */
  lemma SecondExampleRanks()
    ensures IsKthSmallest([-4, -2, 0, 3], [2, 4], -16, 1)
    ensures IsKthSmallest([-4, -2, 0, 3], [2, 4], 0, 6)
    ensures !IsKthSmallest([-4, -2, 0, 3], [2, 4], -8, 1)
  {
  }

  /**
   * As written, the first `poll` on the second example's arrays returns
   * -4 * 2 = -8: row 0 starts at column 0, and -4 * 4 = -16 is not yet in
   * the heap. So for k = 1 the result is not the smallest product.
   */
  lemma AsWrittenFirstPoll(pops: seq<Entry>, fronts: seq<seq<int>>)
    requires IsRun(AsWritten, [-4, -2, 0, 3], [2, 4], pops, fronts) && |pops| >= 1
    ensures pops[0].prod == -8
    ensures !IsKthSmallest([-4, -2, 0, 3], [2, 4], pops[0].prod, 1)
  {
    var r1, r2 := [-4, -2, 0, 3], [2, 4];
    assert PopOk(AsWritten, r1, r2, fronts[0], pops[0], fronts[1]);
    var f := Start(r1);
    assert f[0] == 0 && f[1] == 0 && f[2] == 0 && f[3] == 0;
    assert Cell(AsWritten, r1, r2, 0, 0).prod == -8;
    SecondExampleRanks();
  }

  /** k = 1 on the second example: the as-written walk answers -8. */
  method AsWrittenMissesMinimum() returns (result: int)
    ensures result == -8
    ensures !IsKthSmallest([-4, -2, 0, 3], [2, 4], result, 1)
  {
    ghost var pops, fronts;
    result, pops, fronts := FindKthSmallestProduct([-4, -2, 0, 3], [2, 4], 1);
    AsWrittenFirstPoll(pops, fronts);
  }

  /** k = 1 on the second example: the sign-aware walk answers -16. */
  method SignAwareFindsMinimum() returns (result: int)
    ensures result == -16
  {
    ghost var pops, fronts;
    result, pops, fronts := FindKthSmallestProductSignAware([-4, -2, 0, 3], [2, 4], 1);
    assert Ascending([2, 4]);
    SecondExampleRanks();
    KthUnique([-4, -2, 0, 3], [2, 4], result, -16, 1);
  }

  /** Example 2: the 6th smallest product of [-4, -2, 0, 3] and [2, 4] is 0. */
  method ExampleTwo() returns (result: int)
    ensures result == 0
  {
    ghost var pops, fronts;
    result, pops, fronts := FindKthSmallestProductSignAware([-4, -2, 0, 3], [2, 4], 6);
    assert Ascending([2, 4]);
    SecondExampleRanks();
    KthUnique([-4, -2, 0, 3], [2, 4], result, 0, 6);
  }
}
