/**
 * Package collection: locations joined by undirected roads, some holding a
 * package. `PackageCollection` tries every location as a start and walks
 * simple paths from it depth-first; on each location it collects the
 * packages at most two roads away, and once everything is collected it
 * records the roads walked plus the roads back to the start. Distances are
 * measured by breadth-first search.
 */
module PackageCollection {

  import NC = NetworkConnection

  const IntMin: int := -0x8000_0000
  const IntMax: int := 0x7fff_ffff

  function Min(a: int, b: int): int { if a <= b then a else b }

  /** Java's `int` addition: the sum wraps around modulo 2^32. */
  function Add32(a: int, b: int): (r: int)
    ensures IntMin <= r <= IntMax
    ensures IntMin <= a + b <= IntMax ==> r == a + b
    ensures (a + b - r) % 0x1_0000_0000 == 0
  {
    (a + b - IntMin) % 0x1_0000_0000 + IntMin
  }

  // ------------------------------------------------------------ roads

  /** Every adjacency entry names a location. */
  ghost predicate Edges(g: seq<seq<int>>) {
    forall a, i :: 0 <= a < |g| && 0 <= i < |g[a]| ==> 0 <= g[a][i] < |g|
  }

  /** b is listed for a as often as a is listed for b. */
  ghost predicate Symmetric(g: seq<seq<int>>) {
    forall a, b :: 0 <= a < |g| && 0 <= b < |g| ==> multiset(g[a])[b] == multiset(g[b])[a]
  }

  /** How often b should be listed for a: once per road a-b and once per road b-a. */
  function RoadCount(roads: seq<seq<int>>, a: int, b: int): nat
    requires forall r :: r in roads ==> |r| >= 2
  {
    if roads == [] then 0
    else
      var r := roads[|roads| - 1];
      RoadCount(roads[..|roads| - 1], a, b) + (if r[0] == a && r[1] == b then 1 else 0) + (if r[1] == a && r[0] == b then 1 else 0)
  }

  lemma {:induction false} RoadCountSymmetric(roads: seq<seq<int>>, a: int, b: int)
    requires forall r :: r in roads ==> |r| >= 2
    ensures RoadCount(roads, a, b) == RoadCount(roads, b, a)
  {
    if roads != [] {
      RoadCountSymmetric(roads[..|roads| - 1], a, b);
    }
  }

  // ------------------------------------------------------------ distances

  /** The locations reachable from s over at most k roads. */
  ghost function Within(g: seq<seq<int>>, s: int, k: nat): set<int>
    decreases k
  {
    if k == 0 then {s} else Within(g, s, k - 1) + Step(g, Within(g, s, k - 1))
  }

  /** The locations one road away from some location of S. */
  ghost function Step(g: seq<seq<int>>, S: set<int>): set<int> {
    set u, v | u in S && 0 <= u < |g| && v in g[u] :: v
  }

  /** d is the first layer containing t: t is d roads away from s and not fewer. */
  ghost predicate Exact(g: seq<seq<int>>, s: int, t: int, d: int) {
    d >= 0 && t in Within(g, s, d) && (d > 0 ==> t !in Within(g, s, d - 1))
  }

  /** What `shortestPath` returns: the fewest roads from s to t, `Integer.MAX_VALUE` when t is unreachable. */
  ghost predicate Layer(g: seq<seq<int>>, s: int, t: int, r: int) {
    && (r != IntMax ==> 0 <= r && t in Within(g, s, r) && forall j: nat :: j < r ==> t !in Within(g, s, j))
    && (r == IntMax ==> forall k: nat :: t !in Within(g, s, k))
  }

  /** The first layer at or below k that contains t. */
  ghost function Least(g: seq<seq<int>>, s: int, t: int, k: nat): (d: nat)
    requires t in Within(g, s, k)
    ensures Exact(g, s, t, d) && d <= k
  {
    if k == 0 || t !in Within(g, s, k - 1) then k else Least(g, s, t, k - 1)
  }

  /**
   * The distance from s to t in roads, `Integer.MAX_VALUE` when there is no
   * way: the first of the layers 0 .. |g| - 1 that holds t.
   */
  ghost function Dist(g: seq<seq<int>>, s: int, t: int): int {
    DistFrom(g, s, t, 0)
  }

  /** The first of the layers k .. |g| - 1 that holds t. */
  ghost function DistFrom(g: seq<seq<int>>, s: int, t: int, k: nat): int
    decreases |g| - k
  {
    if |g| <= k then IntMax
    else if t in Within(g, s, k) then k
    else DistFrom(g, s, t, k + 1)
  }

  lemma StepMono(g: seq<seq<int>>, a: set<int>, b: set<int>)
    requires a <= b
    ensures Step(g, a) <= Step(g, b)
  {
  }

  lemma {:induction false} WithinMono(g: seq<seq<int>>, s: int, j: nat, k: nat)
    requires j <= k
    ensures Within(g, s, j) <= Within(g, s, k)
    decreases k
  {
    if j < k {
      WithinMono(g, s, j, k - 1);
    }
  }

  /** Once a layer adds nothing, no later layer does. */
  lemma {:induction false} Stable(g: seq<seq<int>>, s: int, j: nat, m: nat)
    requires Within(g, s, j + 1) <= Within(g, s, j) && j <= m
    ensures Within(g, s, m) <= Within(g, s, j)
    decreases m
  {
    if m > j {
      Stable(g, s, j, m - 1);
      StepMono(g, Within(g, s, m - 1), Within(g, s, j));
    }
  }

  lemma {:induction false} WithinRange(g: seq<seq<int>>, s: int, k: nat)
    requires Edges(g) && 0 <= s < |g|
    ensures forall v :: v in Within(g, s, k) ==> 0 <= v < |g|
    decreases k
  {
    if k > 0 {
      WithinRange(g, s, k - 1);
    }
  }

  /** A set of locations has at most as many members as there are locations. */
  lemma {:induction false} BoundedSize(S: set<int>, n: nat)
    requires forall v :: v in S ==> 0 <= v < n
    ensures |S| <= n
  {
    if n > 0 {
      var rest := S - {n - 1};
      BoundedSize(rest, n - 1);
      assert S <= rest + {n - 1};
      NC.SubsetCard(S, rest + {n - 1});
    } else {
      assert forall v :: v !in S;
      assert S == {};
    }
  }

  lemma ProperlySmaller(a: set<int>, b: set<int>)
    requires a < b
    ensures |a| < |b|
  {
    assert b == a + (b - a);
    assert b - a != {};
  }

  /** In a chain of sets each strictly larger than the one before, the j-th has at least j more members than the first. */
  lemma {:induction false} ChainGrows(layers: seq<set<int>>, j: nat)
    requires j < |layers|
    requires forall i :: 0 < i < |layers| ==> layers[i - 1] < layers[i]
    ensures |layers[j]| >= |layers[0]| + j
  {
    if j > 0 {
      ChainGrows(layers, j - 1);
      ProperlySmaller(layers[j - 1], layers[j]);
    }
  }

  /** Below the layer of t no layer equals the one before it. */
  lemma NoStall(g: seq<seq<int>>, s: int, t: int, d: nat, j: nat)
    requires Exact(g, s, t, d) && 0 < j <= d
    ensures !(Within(g, s, j) <= Within(g, s, j - 1))
  {
    StallSpreads(g, s, j, d);
  }

  /** A layer that adds nothing makes the layers up to d add nothing either. */
  lemma StallSpreads(g: seq<seq<int>>, s: int, j: nat, d: nat)
    requires 0 < j <= d
    ensures Within(g, s, j) <= Within(g, s, j - 1) ==> Within(g, s, d) <= Within(g, s, d - 1)
  {
    if Within(g, s, j) <= Within(g, s, j - 1) {
      Stable(g, s, j - 1, d);
      WithinMono(g, s, j - 1, d - 1);
      Transitive(Within(g, s, d), Within(g, s, j - 1), Within(g, s, d - 1));
    }
  }

  lemma Transitive(a: set<int>, b: set<int>, c: set<int>)
    requires a <= b && b <= c
    ensures a <= c
  {
  }

  /** Below the layer of t each layer is a proper superset of the one before it. */
  lemma LayerAdds(g: seq<seq<int>>, s: int, t: int, d: nat, j: nat)
    requires Exact(g, s, t, d) && 0 < j <= d
    ensures Within(g, s, j - 1) < Within(g, s, j)
  {
    WithinMono(g, s, j - 1, j);
    NoStall(g, s, t, d, j);
    Proper(Within(g, s, j - 1), Within(g, s, j));
  }

  lemma Proper(a: set<int>, b: set<int>)
    requires a <= b && !(b <= a)
    ensures a < b
  {
  }

  /** A distance is less than the number of locations. */
  lemma ExactBound(g: seq<seq<int>>, s: int, t: int, d: nat)
    requires Edges(g) && 0 <= s < |g| && Exact(g, s, t, d)
    ensures d < |g|
  {
    var layers := seq(d + 1, i requires 0 <= i => Within(g, s, i));
    forall i | 0 < i < |layers| ensures layers[i - 1] < layers[i] {
      LayerAdds(g, s, t, d, i);
    }
    WithinRange(g, s, d);
    ChainBound(layers, Within(g, s, d), |g|);
  }

  /**
   * A chain of sets of locations below n, starting from one location and
   * each strictly larger than the one before, is shorter than n + 1.
   */
  lemma ChainBound(layers: seq<set<int>>, top: set<int>, n: nat)
    requires |layers| > 0 && |layers[0]| == 1 && layers[|layers| - 1] == top
    requires forall i :: 0 < i < |layers| ==> layers[i - 1] < layers[i]
    requires forall v :: v in top ==> 0 <= v < n
    ensures |layers| <= n
  {
    ChainGrows(layers, |layers| - 1);
    BoundedSize(top, n);
  }

  lemma ExactLayer(g: seq<seq<int>>, s: int, t: int, d: nat)
    requires Edges(g) && 0 <= s < |g| && |g| <= IntMax && Exact(g, s, t, d)
    ensures Layer(g, s, t, d)
  {
    ExactBound(g, s, t, d);
    forall j: nat | j < d ensures t !in Within(g, s, j) {
      WithinMono(g, s, j, d - 1);
    }
  }

  /** `Dist` is the fewest roads, or `Integer.MAX_VALUE` for an unreachable t. */
  lemma DistLayer(g: seq<seq<int>>, s: int, t: int)
    requires Edges(g) && 0 <= s < |g| && |g| <= IntMax
    ensures Layer(g, s, t, Dist(g, s, t))
  {
    DistFromLayer(g, s, t, 0);
  }

  lemma {:induction false} DistFromLayer(g: seq<seq<int>>, s: int, t: int, k: nat)
    requires Edges(g) && 0 <= s < |g| && |g| <= IntMax
    requires forall j: nat :: j < k ==> t !in Within(g, s, j)
    ensures Layer(g, s, t, DistFrom(g, s, t, k))
    decreases |g| - k
  {
    if |g| <= k {
      forall m: nat ensures t !in Within(g, s, m) {
        if t in Within(g, s, m) {
          var d := Least(g, s, t, m);
          ExactBound(g, s, t, d);
          assert false;
        }
      }
    } else if t !in Within(g, s, k) {
      DistFromLayer(g, s, t, k + 1);
    }
  }

  /** Two answers meeting `Layer` are the same number. */
  lemma LayerUnique(g: seq<seq<int>>, s: int, t: int, r1: int, r2: int)
    requires Layer(g, s, t, r1) && Layer(g, s, t, r2)
    ensures r1 == r2
  {
  }

  /** A location is zero roads from itself. */
  lemma DistSelf(g: seq<seq<int>>, s: int)
    requires 0 <= s < |g|
    ensures Dist(g, s, s) == 0
  {
    assert s in Within(g, s, 0);
  }

  /** Stepping first to a neighbour u of t loses one road. */
  lemma {:induction false} FirstStep(g: seq<seq<int>>, t: int, u: int, k: nat)
    requires 0 <= t < |g| && u in g[t]
    ensures Within(g, u, k) <= Within(g, t, k + 1)
    decreases k
  {
    if k == 0 {
      assert u in Step(g, Within(g, t, 0));
    } else {
      FirstStep(g, t, u, k - 1);
      StepMono(g, Within(g, u, k - 1), Within(g, t, k));
    }
  }

  /** On symmetric roads reachability in k roads goes both ways. */
  lemma {:induction false} WithinSymmetric(g: seq<seq<int>>, s: int, t: int, k: nat)
    requires Undirected(g) && 0 <= s < |g| && t in Within(g, s, k)
    ensures s in Within(g, t, k)
    decreases k
  {
    if k > 0 {
      if t in Within(g, s, k - 1) {
        WithinSymmetric(g, s, t, k - 1);
        WithinMono(g, t, k - 1, k);
        Member(s, Within(g, t, k - 1), Within(g, t, k));
      } else {
        var u := StepFrom(g, Within(g, s, k - 1), t);
        WithinSymmetric(g, s, u, k - 1);
        FirstStep(g, t, u, k - 1);
        Member(s, Within(g, u, k - 1), Within(g, t, k));
      }
    }
  }

  lemma Member(x: int, a: set<int>, b: set<int>)
    requires x in a && a <= b
    ensures x in b
  {
  }

  /** A location one road away from S is reached from some location of S. */
  lemma StepFrom(g: seq<seq<int>>, S: set<int>, t: int) returns (u: int)
    requires t in Step(g, S)
    ensures u in S && 0 <= u < |g| && t in g[u]
  {
    u :| u in S && 0 <= u < |g| && t in g[u];
  }

  /** Every road listed from u to t is also listed from t to u. */
  ghost predicate Undirected(g: seq<seq<int>>) {
    forall u, t {:trigger t in g[u]} :: 0 <= u < |g| && t in g[u] ==> 0 <= t < |g| && u in g[t]
  }

  /** Symmetric road lists are undirected. */
  lemma SymmetricUndirected(g: seq<seq<int>>)
    requires Symmetric(g) && Edges(g)
    ensures Undirected(g)
  {
    forall u, t | 0 <= u < |g| && t in g[u] ensures 0 <= t < |g| && u in g[t] {
      var i :| 0 <= i < |g[u]| && g[u][i] == t;
      assert multiset(g[u])[t] > 0;
    }
  }

  /** `shortestPath(a, b) == shortestPath(b, a)` on roads built by `buildGraph`. */
  lemma DistSymmetric(g: seq<seq<int>>, a: int, b: int)
    requires Symmetric(g) && Edges(g) && 0 <= a < |g| && 0 <= b < |g| && |g| <= IntMax
    ensures Dist(g, a, b) == Dist(g, b, a)
  {
    DistLayer(g, a, b);
    DistLayer(g, b, a);
    SymmetricUndirected(g);
    var r := Dist(g, a, b);
    forall k: nat ensures b in Within(g, a, k) <==> a in Within(g, b, k) {
      if b in Within(g, a, k) {
        WithinSymmetric(g, a, b, k);
      }
      if a in Within(g, b, k) {
        WithinSymmetric(g, b, a, k);
      }
    }
    assert Layer(g, b, a, r);
    LayerUnique(g, b, a, r, Dist(g, b, a));
  }

  /** A route over the roads: consecutive locations are neighbours. */
  ghost predicate Walk(g: seq<seq<int>>, p: seq<int>, s: int, t: int) {
    && |p| >= 1 && p[0] == s && p[|p| - 1] == t
    && forall i :: 0 <= i < |p| - 1 ==> 0 <= p[i] < |g| && p[i + 1] in g[p[i]]
  }

  lemma {:induction false} WalkWithin(g: seq<seq<int>>, p: seq<int>, s: int, t: int)
    requires Walk(g, p, s, t)
    ensures t in Within(g, s, |p| - 1)
    decreases |p|
  {
    if |p| > 1 {
      var n := |p| - 1;
      WalkWithin(g, p[..n], s, p[n - 1]);
      assert t in Step(g, Within(g, s, n - 1));
    }
  }

  lemma {:induction false} WithinWalk(g: seq<seq<int>>, s: int, t: int, k: nat) returns (p: seq<int>)
    requires t in Within(g, s, k)
    ensures Walk(g, p, s, t) && |p| - 1 <= k
    decreases k
  {
    if k == 0 {
      p := [s];
    } else if t in Within(g, s, k - 1) {
      p := WithinWalk(g, s, t, k - 1);
    } else {
      var u :| u in Within(g, s, k - 1) && 0 <= u < |g| && t in g[u];
      var q := WithinWalk(g, s, u, k - 1);
      p := q + [t];
    }
  }

  /**
   * `Dist` is the length of a shortest route: some route has exactly that
   * many roads, none has fewer, and it is `Integer.MAX_VALUE` exactly when
   * there is no route.
   */
  lemma DistIsShortest(g: seq<seq<int>>, s: int, t: int) returns (w: seq<int>)
    requires Edges(g) && 0 <= s < |g| && |g| <= IntMax
    ensures forall p :: Walk(g, p, s, t) ==> |p| - 1 >= Dist(g, s, t) && Dist(g, s, t) != IntMax
    ensures Dist(g, s, t) != IntMax ==> Walk(g, w, s, t) && |w| - 1 == Dist(g, s, t)
  {
    DistLayer(g, s, t);
    var d := Dist(g, s, t);
    forall p | Walk(g, p, s, t) ensures |p| - 1 >= d && d != IntMax {
      WalkWithin(g, p, s, t);
    }
    if d != IntMax {
      w := WithinWalk(g, s, t, d);
      if |w| - 1 < d {
        WalkWithin(g, w, s, t);
      }
    } else {
      w := [];
    }
  }

  // ------------------------------------------------------------ breadth-first search state

  /** Sizes, the queue's locations seen, and every seen location at its exact distance. */
  ghost predicate BfsBase(g: seq<seq<int>>, s: int, seen: seq<bool>, dist: seq<int>, queue: seq<int>) {
    && Edges(g) && |g| <= IntMax && |seen| == |g| && |dist| == |g| && 0 <= s < |g| && seen[s]
    && (forall i :: 0 <= i < |queue| ==> 0 <= queue[i] < |g| && seen[queue[i]])
    && (forall v {:trigger Exact(g, s, v, dist[v])} :: 0 <= v < |g| && seen[v] ==> Exact(g, s, v, dist[v]))
  }

  /** Queued distances are d or d + 1, in order. */
  ghost predicate Layered(dist: seq<int>, queue: seq<int>, d: int) {
    && (forall i :: 0 <= i < |queue| ==> 0 <= queue[i] < |dist| && d <= dist[queue[i]] <= d + 1)
    && (forall i, j :: 0 <= i < j < |queue| && queue[j] < |dist| ==> queue[i] < |dist| && dist[queue[i]] <= dist[queue[j]])
  }

  /** Every location at most d roads away was seen. */
  ghost predicate Covered(g: seq<seq<int>>, s: int, seen: seq<bool>, d: nat) {
    forall v {:trigger v in Within(g, s, d)} :: v in Within(g, s, d) ==> 0 <= v < |seen| && seen[v]
  }

  /** Every seen location off the queue, other than `except`, is not `to` and has its neighbours seen. */
  ghost predicate Closed(g: seq<seq<int>>, seen: seq<bool>, queue: seq<int>, except: int, to: int) {
    forall v {:trigger seen[v]} :: 0 <= v < |g| && v < |seen| && seen[v] && v !in queue && v != except ==>
      v != to && forall w {:trigger w in g[v]} :: w in g[v] ==> 0 <= w < |seen| && seen[w]
  }

  ghost predicate BfsOuter(g: seq<seq<int>>, s: int, to: int, seen: seq<bool>, dist: seq<int>, queue: seq<int>) {
    && BfsBase(g, s, seen, dist, queue) && Closed(g, seen, queue, -1, to)
    && (queue != [] ==> dist[queue[0]] >= 0 && Layered(dist, queue, dist[queue[0]]) && Covered(g, s, seen, dist[queue[0]]))
  }

  /** c was polled: a seen location other than `to`, with a distance. */
  ghost predicate Polled(g: seq<seq<int>>, seen: seq<bool>, dist: seq<int>, c: int, to: int) {
    0 <= c < |g| && c < |seen| && c < |dist| && seen[c] && c != to && dist[c] >= 0
  }

  /** The first k neighbours of c are seen. */
  ghost predicate SeenUpTo(g: seq<seq<int>>, seen: seq<bool>, c: int, k: int) {
    0 <= c < |g| && 0 <= k <= |g[c]| && forall j :: 0 <= j < k ==> 0 <= g[c][j] < |seen| && seen[g[c][j]]
  }

  /** Polled c and seen its first k neighbours. */
  ghost predicate BfsInner(g: seq<seq<int>>, s: int, to: int, seen: seq<bool>, dist: seq<int>, queue: seq<int>, c: int, k: int) {
    && BfsBase(g, s, seen, dist, queue) && Polled(g, seen, dist, c, to)
    && Layered(dist, queue, dist[c]) && Covered(g, s, seen, dist[c]) && Closed(g, seen, queue, c, to)
    && SeenUpTo(g, seen, c, k)
  }

  lemma BfsStart(g: seq<seq<int>>, s: int, to: int, seen: seq<bool>, dist: seq<int>)
    requires Edges(g) && |g| <= IntMax && 0 <= s < |g| && |seen| == |g| && |dist| == |g|
    requires seen[s] && dist[s] == 0 && forall v :: 0 <= v < |g| && v != s ==> !seen[v]
    ensures BfsOuter(g, s, to, seen, dist, [s])
  {
    assert Exact(g, s, s, 0);
  }

  lemma BfsFound(g: seq<seq<int>>, s: int, to: int, seen: seq<bool>, dist: seq<int>, queue: seq<int>)
    requires BfsOuter(g, s, to, seen, dist, queue) && queue != [] && queue[0] == to
    ensures Layer(g, s, to, dist[to])
  {
    assert Exact(g, s, to, dist[to]);
    ExactLayer(g, s, to, dist[to]);
  }

  /** Polling the head c of the queue. */
  lemma BfsPoll(g: seq<seq<int>>, s: int, to: int, seen: seq<bool>, dist: seq<int>, queue: seq<int>)
    requires BfsOuter(g, s, to, seen, dist, queue) && queue != [] && queue[0] != to
    ensures BfsInner(g, s, to, seen, dist, queue[1..], queue[0], 0)
  {
    PollBase(g, s, seen, dist, queue);
    PollLayered(dist, queue);
    PollClosed(g, seen, queue, to);
  }

  lemma PollBase(g: seq<seq<int>>, s: int, seen: seq<bool>, dist: seq<int>, queue: seq<int>)
    requires BfsBase(g, s, seen, dist, queue) && queue != []
    ensures BfsBase(g, s, seen, dist, queue[1..]) && 0 <= queue[0] < |g| && seen[queue[0]]
  {
    assert forall i :: 0 <= i < |queue| - 1 ==> queue[1..][i] == queue[i + 1];
  }

  lemma PollLayered(dist: seq<int>, queue: seq<int>)
    requires queue != [] && 0 <= queue[0] < |dist| && Layered(dist, queue, dist[queue[0]])
    ensures Layered(dist, queue[1..], dist[queue[0]])
  {
    assert forall i :: 0 <= i < |queue| - 1 ==> queue[1..][i] == queue[i + 1];
  }

  lemma PollClosed(g: seq<seq<int>>, seen: seq<bool>, queue: seq<int>, to: int)
    requires Closed(g, seen, queue, -1, to) && queue != []
    ensures Closed(g, seen, queue[1..], queue[0], to)
  {
    assert queue == [queue[0]] + queue[1..];
  }

  /**
   * Seeing a new neighbour w of c at one more road keeps the state; the new
   * state is passed as seen', dist', queue'.
   */
  lemma BfsPush(g: seq<seq<int>>, s: int, to: int, seen: seq<bool>, dist: seq<int>, queue: seq<int>, c: int, k: int,
                seen': seq<bool>, dist': seq<int>, queue': seq<int>)
    requires BfsInner(g, s, to, seen, dist, queue, c, k) && k < |g[c]| && !seen[g[c][k]]
    requires seen' == seen[g[c][k] := true] && dist' == dist[g[c][k] := dist[c] + 1] && queue' == queue + [g[c][k]]
    ensures BfsInner(g, s, to, seen', dist', queue', c, k + 1)
  {
    var w := g[c][k];
    var d := dist[c];
    PushExact(g, s, seen, c, w, d);
    PushBase(g, s, seen, dist, queue, w, d, seen', dist', queue');
    PushLayered(dist, queue, w, d, dist', queue');
    PushClosed(g, seen, queue, c, to, w, seen', queue');
    PushCovered(g, s, seen, d, w, seen');
    PushPrefix(g, seen, c, k, seen');
    PushCurrent(g, seen, dist, c, to, w, seen', dist');
  }

  /** A neighbour w of c, unseen while every location within d roads is seen, is first reached at d + 1. */
  lemma PushExact(g: seq<seq<int>>, s: int, seen: seq<bool>, c: int, w: int, d: int)
    requires 0 <= c < |g| && w in g[c] && d >= 0 && Exact(g, s, c, d)
    requires Covered(g, s, seen, d) && 0 <= w < |seen| && !seen[w]
    ensures Exact(g, s, w, d + 1)
  {
    assert w in Step(g, Within(g, s, d));
  }

  lemma PushBase(g: seq<seq<int>>, s: int, seen: seq<bool>, dist: seq<int>, queue: seq<int>, w: int, d: int,
                 seen': seq<bool>, dist': seq<int>, queue': seq<int>)
    requires BfsBase(g, s, seen, dist, queue) && 0 <= w < |g| && !seen[w] && Exact(g, s, w, d + 1)
    requires seen' == seen[w := true] && dist' == dist[w := d + 1] && queue' == queue + [w]
    ensures BfsBase(g, s, seen', dist', queue')
  {
    forall v | 0 <= v < |g| && seen'[v] ensures Exact(g, s, v, dist'[v]) {
      if v != w {
        assert seen[v] && Exact(g, s, v, dist[v]);
      }
    }
    forall i | 0 <= i < |queue'| ensures 0 <= queue'[i] < |g| && seen'[queue'[i]] {
      if i < |queue| {
        assert queue'[i] == queue[i];
      }
    }
  }

  lemma PushLayered(dist: seq<int>, queue: seq<int>, w: int, d: int, dist': seq<int>, queue': seq<int>)
    requires Layered(dist, queue, d) && 0 <= w < |dist| && forall i :: 0 <= i < |queue| ==> queue[i] != w
    requires dist' == dist[w := d + 1] && queue' == queue + [w]
    ensures Layered(dist', queue', d)
  {
    forall i | 0 <= i < |queue'| ensures 0 <= queue'[i] < |dist'| && d <= dist'[queue'[i]] <= d + 1 {
      if i < |queue| {
        assert queue'[i] == queue[i];
      }
    }
    forall i, j | 0 <= i < j < |queue'| && queue'[j] < |dist'| ensures queue'[i] < |dist'| && dist'[queue'[i]] <= dist'[queue'[j]] {
      assert queue'[i] == queue[i];
      if j < |queue| {
        assert queue'[j] == queue[j];
      }
    }
  }

  lemma PushClosed(g: seq<seq<int>>, seen: seq<bool>, queue: seq<int>, c: int, to: int, w: int, seen': seq<bool>, queue': seq<int>)
    requires Closed(g, seen, queue, c, to) && 0 <= w < |seen|
    requires seen' == seen[w := true] && queue' == queue + [w]
    ensures Closed(g, seen', queue', c, to)
  {
    forall v | 0 <= v < |g| && v < |seen'| && seen'[v] && v !in queue' && v != c
      ensures v != to && forall x :: x in g[v] ==> 0 <= x < |seen'| && seen'[x]
    {
      assert v != w && seen[v] && v !in queue;
    }
  }

  lemma PushCovered(g: seq<seq<int>>, s: int, seen: seq<bool>, d: nat, w: int, seen': seq<bool>)
    requires Covered(g, s, seen, d) && 0 <= w < |seen| && seen' == seen[w := true]
    ensures Covered(g, s, seen', d)
  {
  }

  lemma PushPrefix(g: seq<seq<int>>, seen: seq<bool>, c: int, k: int, seen': seq<bool>)
    requires SeenUpTo(g, seen, c, k) && k < |g[c]| && 0 <= g[c][k] < |seen| && seen' == seen[g[c][k] := true]
    ensures SeenUpTo(g, seen', c, k + 1)
  {
  }

  lemma PushCurrent(g: seq<seq<int>>, seen: seq<bool>, dist: seq<int>, c: int, to: int, w: int, seen': seq<bool>, dist': seq<int>)
    requires Polled(g, seen, dist, c, to) && 0 <= w < |seen| == |dist| && !seen[w]
    requires seen' == seen[w := true] && dist' == dist[w := dist[c] + 1]
    ensures Polled(g, seen', dist', c, to) && dist'[c] == dist[c]
  {
  }

  /** All neighbours of c seen: continue with the next queued location. */
  lemma BfsNext(g: seq<seq<int>>, s: int, to: int, seen: seq<bool>, dist: seq<int>, queue: seq<int>, c: int)
    requires 0 <= c < |g| && BfsInner(g, s, to, seen, dist, queue, c, |g[c]|)
    ensures BfsOuter(g, s, to, seen, dist, queue)
  {
    NextClosed(g, seen, queue, c, to);
    if queue != [] && dist[queue[0]] != dist[c] {
      NextLayered(dist, queue, dist[c]);
      NextCovered(g, s, to, seen, dist, queue, dist[c]);
    }
  }

  lemma NextClosed(g: seq<seq<int>>, seen: seq<bool>, queue: seq<int>, c: int, to: int)
    requires Closed(g, seen, queue, c, to) && 0 <= c < |g| && c != to && SeenUpTo(g, seen, c, |g[c]|)
    ensures Closed(g, seen, queue, -1, to)
  {
    forall w | w in g[c] ensures 0 <= w < |seen| && seen[w] {
      var j :| 0 <= j < |g[c]| && g[c][j] == w;
    }
  }

  /** The head moved on to distance d + 1: the whole queue is at d + 1. */
  lemma NextLayered(dist: seq<int>, queue: seq<int>, d: int)
    requires Layered(dist, queue, d) && queue != [] && dist[queue[0]] != d
    ensures dist[queue[0]] == d + 1 && Layered(dist, queue, d + 1)
  {
    forall i | 0 < i < |queue| ensures dist[queue[i]] == d + 1 {
      assert dist[queue[0]] <= dist[queue[i]];
    }
  }

  /** Every location within d + 1 roads is seen once every location up to d is closed. */
  lemma NextCovered(g: seq<seq<int>>, s: int, to: int, seen: seq<bool>, dist: seq<int>, queue: seq<int>, d: nat)
    requires BfsBase(g, s, seen, dist, queue) && Closed(g, seen, queue, -1, to) && Covered(g, s, seen, d)
    requires forall i :: 0 <= i < |queue| ==> 0 <= queue[i] < |dist| && dist[queue[i]] == d + 1
    ensures Covered(g, s, seen, d + 1)
  {
    var e := d + 1;
    forall v | v in Within(g, s, e) ensures 0 <= v < |seen| && seen[v] {
      NextSeen(g, s, to, seen, dist, queue, d, v);
    }
    assert Covered(g, s, seen, e);
  }

  /** A location d + 1 roads away is a neighbour of a closed location d roads away. */
  lemma NextSeen(g: seq<seq<int>>, s: int, to: int, seen: seq<bool>, dist: seq<int>, queue: seq<int>, d: nat, v: int)
    requires BfsBase(g, s, seen, dist, queue) && Closed(g, seen, queue, -1, to) && Covered(g, s, seen, d)
    requires forall i :: 0 <= i < |queue| ==> 0 <= queue[i] < |dist| && dist[queue[i]] == d + 1
    requires v in Within(g, s, d + 1)
    ensures 0 <= v < |seen| && seen[v]
  {
    if v !in Within(g, s, d) {
      var x := StepFrom(g, Within(g, s, d), v);
      NotQueued(g, s, seen, dist, queue, d, x);
    }
  }

  /** The queue holds only locations d + 1 roads away, so none that is d roads away. */
  lemma NotQueued(g: seq<seq<int>>, s: int, seen: seq<bool>, dist: seq<int>, queue: seq<int>, d: nat, x: int)
    requires BfsBase(g, s, seen, dist, queue) && x in Within(g, s, d)
    requires forall i :: 0 <= i < |queue| ==> 0 <= queue[i] < |dist| && dist[queue[i]] == d + 1
    ensures x !in queue
  {
    forall i | 0 <= i < |queue| ensures queue[i] != x {
      assert Exact(g, s, queue[i], dist[queue[i]]);
    }
  }

  /** Every location reachable from s is seen once nothing is left to poll. */
  lemma {:induction false} ClosedWithin(g: seq<seq<int>>, s: int, to: int, seen: seq<bool>, dist: seq<int>, k: nat)
    requires BfsOuter(g, s, to, seen, dist, [])
    ensures forall v :: v in Within(g, s, k) ==> 0 <= v < |seen| && seen[v]
    decreases k
  {
    if k > 0 {
      ClosedWithin(g, s, to, seen, dist, k - 1);
    }
  }

  lemma BfsEnd(g: seq<seq<int>>, s: int, to: int, seen: seq<bool>, dist: seq<int>)
    requires BfsOuter(g, s, to, seen, dist, [])
    ensures Layer(g, s, to, IntMax)
  {
    forall k: nat ensures to !in Within(g, s, k) {
      ClosedWithin(g, s, to, seen, dist, k);
    }
  }

  /** The unseen locations: what the search loop shrinks. */
  ghost function Unseen(seen: seq<bool>): set<int> {
    set v | 0 <= v < |seen| && !seen[v]
  }

  // ------------------------------------------------------------ depth-first search

  /** The locations holding a package. */
  ghost function PackageSet(packages: seq<int>): set<int> {
    set i | 0 <= i < |packages| && packages[i] == 1
  }

  /** `countPackages`: the entries equal to 1. */
  function Count(packages: seq<int>): nat {
    if packages == [] then 0
    else Count(packages[..|packages| - 1]) + (if packages[|packages| - 1] == 1 then 1 else 0)
  }

  lemma {:induction false} CountIsSize(packages: seq<int>)
    ensures Count(packages) == |PackageSet(packages)|
  {
    if packages != [] {
      var n := |packages| - 1;
      CountIsSize(packages[..n]);
      var before := PackageSet(packages[..n]);
      if packages[n] == 1 {
        assert PackageSet(packages) == before + {n};
      } else {
        assert PackageSet(packages) == before;
      }
    }
  }

  /** The packages at most two roads from c. */
  ghost function Near(g: seq<seq<int>>, packages: seq<int>, c: int): set<int> {
    set i | 0 <= i < |packages| && Dist(g, c, i) <= 2 && packages[i] == 1
  }

  /** The packages at most two roads from c among the locations below i. */
  ghost function NearUpTo(g: seq<seq<int>>, packages: seq<int>, c: int, i: nat): set<int>
    requires i <= |packages|
  {
    if i == 0 then {}
    else NearUpTo(g, packages, c, i - 1) + (if Dist(g, c, i - 1) <= 2 && packages[i - 1] == 1 then {i - 1} else {})
  }

  lemma {:induction false} NearUpToMembers(g: seq<seq<int>>, packages: seq<int>, c: int, i: nat)
    requires i <= |packages|
    ensures forall x :: x in NearUpTo(g, packages, c, i) <==> 0 <= x < i && Dist(g, c, x) <= 2 && packages[x] == 1
  {
    if i > 0 {
      NearUpToMembers(g, packages, c, i - 1);
    }
  }

  /**
   * When a call compares what it has collected with all packages: on entry,
   * as written, or after adding the packages near the current location.
   */
  datatype Check = OnEntry | AfterCollecting

  ghost function Unvisited(g: seq<seq<int>>, visited: set<int>): set<int> {
    set v | 0 <= v < |g| && v !in visited
  }

  ghost predicate Inputs(g: seq<seq<int>>, packages: seq<int>) {
    Edges(g) && |packages| == |g|
  }

  /**
   * What `dfs(start, current, roads, collected)` leaves in `minRoads`,
   * starting from `best`, with `visited` the locations on the current path.
   */
  ghost function Visit(g: seq<seq<int>>, packages: seq<int>, start: int, current: int, roads: int,
                       collected: set<int>, visited: set<int>, best: int, check: Check): (r: int)
    requires Inputs(g, packages) && 0 <= current < |g| && current !in visited
    ensures r <= best
    decreases Unvisited(g, visited), 1
  {
    if check == OnEntry && |collected| == Count(packages) then
      Min(best, Add32(roads, Dist(g, current, start)))
    else
      Explore(g, packages, start, current, roads, collected, visited, best, check)
  }

  /** The rest of `dfs` past the entry check: collect the packages near current, then go on to its neighbours. */
  ghost function Explore(g: seq<seq<int>>, packages: seq<int>, start: int, current: int, roads: int,
                         collected: set<int>, visited: set<int>, best: int, check: Check): (r: int)
    requires Inputs(g, packages) && 0 <= current < |g| && current !in visited
    ensures r <= best
    decreases Unvisited(g, visited), 0
  {
    var got := collected + Near(g, packages, current);
    if check == AfterCollecting && |got| == Count(packages) then
      Min(best, Add32(roads, Dist(g, current, start)))
    else
      assert Unvisited(g, visited + {current}) < Unvisited(g, visited) by {
        assert current in Unvisited(g, visited);
      }
      Neighbors(g, packages, start, current, roads, got, visited + {current}, best, 0, check)
  }

  /** The loop over the neighbours of current from index k on. */
  ghost function Neighbors(g: seq<seq<int>>, packages: seq<int>, start: int, current: int, roads: int,
                           collected: set<int>, visited: set<int>, best: int, k: nat, check: Check): (r: int)
    requires Inputs(g, packages) && 0 <= current < |g| && current in visited && k <= |g[current]|
    ensures r <= best
    decreases Unvisited(g, visited), 2, |g[current]| - k
  {
    if k == |g[current]| then best
    else
      var neighbor := g[current][k];
      var best' := if neighbor !in visited then Visit(g, packages, start, neighbor, roads + 1, collected, visited, best, check) else best;
      Neighbors(g, packages, start, current, roads, collected, visited, best', k + 1, check)
  }

  /** What `PackageCollection` returns: every start from i on tried in turn. */
  ghost function Starts(g: seq<seq<int>>, packages: seq<int>, i: nat, best: int, check: Check): (r: int)
    requires Inputs(g, packages) && i <= |g|
    ensures r <= best
    decreases |g| - i
  {
    if i == |g| then best
    else Starts(g, packages, i + 1, Visit(g, packages, i, i, 0, {}, {}, best, check), check)
  }

  /** With no package to collect, each start records 0 roads at once. */
  lemma {:induction false} StartsNoPackages(g: seq<seq<int>>, packages: seq<int>, i: nat, best: int, check: Check)
    requires Inputs(g, packages) && i < |g| && Count(packages) == 0 && best >= 0
    ensures Starts(g, packages, i, best, check) == 0
    decreases |g| - i
  {
    DistSelf(g, i);
    CountIsSize(packages);
    assert Near(g, packages, i) <= PackageSet(packages);
    assert Visit(g, packages, i, i, 0, {}, {}, best, check) == 0;
    if i + 1 < |g| {
      StartsNoPackages(g, packages, i + 1, 0, check);
    }
  }

  /** With no packages and at least one location the answer is 0. */
  lemma NoPackages(g: seq<seq<int>>, packages: seq<int>, check: Check)
    requires Inputs(g, packages) && |g| >= 1 && Count(packages) == 0
    ensures Starts(g, packages, 0, IntMax, check) == 0
  {
    StartsNoPackages(g, packages, 0, IntMax, check);
  }

  /**
   * As written: one location holding the only package. Its package is
   * collected only after the entry test, and there is no neighbour whose
   * call could test again, so nothing is ever recorded.
   */
  lemma AsWrittenSingleLocation()
    ensures Starts([[]], [1], 0, IntMax, OnEntry) == IntMax
  {
    var g, packages := [[]], [1];
    DistSelf(g, 0);
    assert Near(g, packages, 0) == {0};
    assert Visit(g, packages, 0, 0, 0, {}, {}, IntMax, OnEntry) == IntMax;
  }

  /** Corrected: testing after collecting, the single location needs no roads. */
  lemma CorrectedSingleLocation()
    ensures Starts([[]], [1], 0, IntMax, AfterCollecting) == 0
  {
    var g, packages := [[]], [1];
    DistSelf(g, 0);
    assert Near(g, packages, 0) == {0};
    assert Visit(g, packages, 0, 0, 0, {}, {}, IntMax, AfterCollecting) == 0;
  }

  /** Corrected: a location with every package at most two roads away gives at most 0 roads. */
  lemma CorrectedNearAll(g: seq<seq<int>>, packages: seq<int>, s: nat)
    requires Inputs(g, packages) && s < |g| && PackageSet(packages) <= Near(g, packages, s)
    ensures Starts(g, packages, 0, IntMax, AfterCollecting) <= 0
  {
    CountIsSize(packages);
    DistSelf(g, s);
    assert Near(g, packages, s) <= PackageSet(packages);
    assert Near(g, packages, s) == PackageSet(packages);
    StartsUpTo(g, packages, 0, s, IntMax, AfterCollecting);
  }

  /** Trying start s records `Visit` from s, and later starts only lower the result. */
  lemma {:induction false} StartsUpTo(g: seq<seq<int>>, packages: seq<int>, i: nat, s: nat, best: int, check: Check)
    requires Inputs(g, packages) && i <= s < |g|
    requires check == AfterCollecting && |Near(g, packages, s)| == Count(packages) && Dist(g, s, s) == 0
    ensures Starts(g, packages, i, best, check) <= 0
    decreases s - i
  {
    if i < s {
      StartsUpTo(g, packages, i + 1, s, Visit(g, packages, i, i, 0, {}, {}, best, check), check);
    } else {
      StartHere(g, packages, s, best, check);
    }
  }

  /** From a location that sees every package within two roads, `dfs` records 0 roads at once. */
  lemma StartHere(g: seq<seq<int>>, packages: seq<int>, s: nat, best: int, check: Check)
    requires Inputs(g, packages) && s < |g|
    requires check == AfterCollecting && |Near(g, packages, s)| == Count(packages) && Dist(g, s, s) == 0
    ensures Visit(g, packages, s, s, 0, {}, {}, best, check) == Min(best, 0)
  {
    assert {} + Near(g, packages, s) == Near(g, packages, s);
  }

  // ------------------------------------------------------------ the solution object

  ghost function Marked(visited: seq<bool>): set<int> {
    set v | 0 <= v < |visited| && visited[v]
  }

  /** Marking an unmarked location adds it to the marked set and takes it from the unseen set. */
  lemma MarkOne(visited: seq<bool>, c: int)
    requires 0 <= c < |visited| && !visited[c]
    ensures c !in Marked(visited) && Marked(visited[c := true]) == Marked(visited) + {c}
    ensures c in Unseen(visited) && Unseen(visited[c := true]) == Unseen(visited) - {c}
  {
  }

  lemma MarkedNone(visited: seq<bool>)
    requires forall v :: 0 <= v < |visited| ==> !visited[v]
    ensures Marked(visited) == {}
  {
  }

  class Solution {
    var graph: seq<seq<int>>
    var packages: array<int>
    var visited: array<bool>
    var minRoads: int

    constructor ()
      ensures graph == [] && packages.Length == 0 && visited.Length == 0 && minRoads == 0
    {
      graph := [];
      packages := new int[0];
      visited := new bool[0];
      minRoads := 0;
    }

    ghost predicate Valid()
      reads this, packages
    {
      Inputs(graph, packages[..]) && visited.Length == |graph| && |graph| <= IntMax
    }

    /**
     * `buildGraph(n, roads)`: n empty lists, then for every road a-b, b
     * appended to a's list and a to b's. b appears in a's list once per
     * road joining them in either direction, so the lists are symmetric.
     */
    method BuildGraph(n: nat, roads: seq<seq<int>>) returns (graph: seq<seq<int>>)
      requires forall r :: r in roads ==> |r| >= 2 && 0 <= r[0] < n && 0 <= r[1] < n
      ensures |graph| == n && Edges(graph)
      ensures forall a, b :: 0 <= a < n && 0 <= b < n ==> multiset(graph[a])[b] == RoadCount(roads, a, b)
      ensures Symmetric(graph)
      ensures roads == [] ==> forall a :: 0 <= a < n ==> graph[a] == []
    {
      graph := [];
      for i := 0 to n
        invariant |graph| == i && forall a :: 0 <= a < i ==> graph[a] == []
      {
        graph := graph + [[]];
      }
      for j := 0 to |roads|
        invariant |graph| == n && Edges(graph)
        invariant forall a, b :: 0 <= a < n && 0 <= b < n ==> multiset(graph[a])[b] == RoadCount(roads[..j], a, b)
        invariant roads == [] ==> forall a :: 0 <= a < n ==> graph[a] == []
      {
        assert roads[..j + 1][..j] == roads[..j];
        var road := roads[j];
        assert road in roads;
        graph := AddRoad(graph, roads[..j], road);
      }
      assert roads[..|roads|] == roads;
      forall a, b | 0 <= a < n && 0 <= b < n ensures multiset(graph[a])[b] == multiset(graph[b])[a] {
        RoadCountSymmetric(roads, a, b);
      }
    }

    /** The two appends for one road. */
    method AddRoad(graph0: seq<seq<int>>, done: seq<seq<int>>, road: seq<int>) returns (graph: seq<seq<int>>)
      requires Edges(graph0) && |road| >= 2 && 0 <= road[0] < |graph0| && 0 <= road[1] < |graph0|
      requires forall r :: r in done ==> |r| >= 2
      requires forall a, b :: 0 <= a < |graph0| && 0 <= b < |graph0| ==> multiset(graph0[a])[b] == RoadCount(done, a, b)
      ensures |graph| == |graph0| && Edges(graph)
      ensures forall a, b :: 0 <= a < |graph| && 0 <= b < |graph| ==> multiset(graph[a])[b] == RoadCount(done + [road], a, b)
    {
      var x, y := road[0], road[1];
      assert (done + [road])[..|done|] == done;
      graph := graph0[x := graph0[x] + [y]];
      graph := graph[y := graph[y] + [x]];
      forall a, i | 0 <= a < |graph| && 0 <= i < |graph[a]| ensures 0 <= graph[a][i] < |graph| {
        if a == y && i == |graph[a]| - 1 {
        } else if a == y {
          var before := graph0[x := graph0[x] + [y]];
          assert graph[a][i] == before[a][i];
          if a == x && i == |before[a]| - 1 {
          } else if a == x {
            assert before[a][i] == graph0[a][i];
          }
        } else if a == x && i == |graph[a]| - 1 {
        } else if a == x {
          assert graph[a][i] == graph0[a][i];
        }
      }
    }

    /** `countPackages`: the number of entries equal to 1. */
    method CountPackages() returns (count: int)
      ensures count == Count(packages[..])
    {
      count := 0;
      for i := 0 to packages.Length
        invariant count == Count(packages[..i])
      {
        assert packages[..i + 1][..i] == packages[..i];
        if packages[i] == 1 {
          count := count + 1;
        }
      }
      assert packages[..packages.Length] == packages[..];
    }

    /**
     * `shortestPath(from, to)`: breadth-first search from `from`, returning
     * the distance of `to` when it is polled and `Integer.MAX_VALUE` when
     * the queue runs out: the fewest roads from `from` to `to`.
     */
    method ShortestPath(from: int, to: int) returns (d: int)
      requires Edges(graph) && |graph| == packages.Length && |graph| <= IntMax && 0 <= from < packages.Length
      ensures d == Dist(graph, from, to)
    {
      var n := packages.Length;
      var queue: seq<int> := [];
      var visited := new bool[n](_ => false);
      var distance := new int[n](_ => IntMax);
      queue := queue + [from];
      visited[from] := true;
      distance[from] := 0;
      BfsStart(graph, from, to, visited[..], distance[..]);
      DistLayer(graph, from, to);

      while |queue| > 0
        invariant visited.Length == n && distance.Length == n
        invariant BfsOuter(graph, from, to, visited[..], distance[..], queue)
        decreases Unseen(visited[..]), |queue|
      {
        var current := queue[0];
        if current == to {
          BfsFound(graph, from, to, visited[..], distance[..], queue);
          LayerUnique(graph, from, to, distance[current], Dist(graph, from, to));
          return distance[current];
        }
        BfsPoll(graph, from, to, visited[..], distance[..], queue);
        queue := queue[1..];
        queue := PushNeighbors(from, to, visited, distance, queue, current);
        BfsNext(graph, from, to, visited[..], distance[..], queue, current);
      }
      BfsEnd(graph, from, to, visited[..], distance[..]);
      LayerUnique(graph, from, to, IntMax, Dist(graph, from, to));
      return IntMax;
    }

    /**
     * The loop of `shortestPath` over the roads of the polled location:
     * every unvisited neighbour is marked, given the next distance and
     * appended to the queue.
     */
    method PushNeighbors(from: int, to: int, visited: array<bool>, distance: array<int>, queue: seq<int>, current: int)
      returns (queue': seq<int>)
      requires visited.Length == |graph| && distance.Length == |graph|
      requires BfsInner(graph, from, to, visited[..], distance[..], queue, current, 0)
      modifies visited, distance
      ensures BfsInner(graph, from, to, visited[..], distance[..], queue', current, |graph[current]|)
      ensures Unseen(visited[..]) <= old(Unseen(visited[..]))
      ensures Unseen(visited[..]) == old(Unseen(visited[..])) ==> queue' == queue
    {
      queue' := queue;
      for k := 0 to |graph[current]|
        invariant BfsInner(graph, from, to, visited[..], distance[..], queue', current, k)
        invariant Unseen(visited[..]) <= old(Unseen(visited[..]))
        invariant Unseen(visited[..]) == old(Unseen(visited[..])) ==> queue' == queue
      {
        var neighbor := graph[current][k];
        if !visited[neighbor] {
          ghost var seen0, dist0, queue1 := visited[..], distance[..], queue';
          MarkOne(seen0, neighbor);
          visited[neighbor] := true;
          assert visited[..] == seen0[neighbor := true];
          distance[neighbor] := distance[current] + 1;
          assert distance[..] == dist0[neighbor := dist0[current] + 1];
          queue' := queue' + [neighbor];
          BfsPush(graph, from, to, seen0, dist0, queue1, current, k, visited[..], distance[..], queue');
        }
      }
    }

    /**
     * `dfs(start, current, roads, collected)`: if everything is collected,
     * record `roads` plus the roads back to start; otherwise mark current,
     * collect the packages at most two roads away, recurse into every
     * unvisited neighbour with a copy of the collection, and unmark current.
     * `visited` is as before the call, `minRoads` is what `Visit` says and
     * never grows.
     */
    method Dfs(start: int, current: int, roads: int, collected: set<int>)
      requires Valid() && 0 <= start < |graph| && 0 <= current < |graph| && !visited[current]
      requires roads == |Marked(visited[..])|
      modifies this`minRoads, visited
      ensures visited[..] == old(visited[..])
      ensures minRoads == Visit(graph, packages[..], start, current, roads, collected, Marked(old(visited[..])), old(minRoads), OnEntry)
      ensures minRoads <= old(minRoads)
      decreases Unseen(visited[..])
    {
      ghost var pk, marked, best := packages[..], Marked(visited[..]), minRoads;
      var count := CountPackages();
      if |collected| == count {
        var back := ShortestPath(current, start);
        minRoads := Min(minRoads, Add32(roads, back));
        return;
      }

      MarkOne(visited[..], current);
      visited[current] := true;
      var got := CollectNear(current, collected);
      ghost var target := Neighbors(graph, pk, start, current, roads, got, marked + {current}, best, 0, OnEntry);
      assert target == Visit(graph, pk, start, current, roads, collected, marked, best, OnEntry);

      for k := 0 to |graph[current]|
        invariant visited[..] == old(visited[..])[current := true] && packages[..] == pk
        invariant Neighbors(graph, pk, start, current, roads, got, marked + {current}, minRoads, k, OnEntry) == target
      {
        var neighbor := graph[current][k];
        if !visited[neighbor] {
          assert neighbor !in marked + {current};
          Dfs(start, neighbor, roads + 1, got);
        } else {
          assert neighbor in marked + {current};
        }
      }
      visited[current] := false;
    }

    /** The loop of `dfs` that collects the packages at most two roads from current. */
    method CollectNear(current: int, collected: set<int>) returns (got: set<int>)
      requires Valid() && 0 <= current < |graph|
      ensures got == collected + Near(graph, packages[..], current)
    {
      got := collected;
      for i := 0 to packages.Length
        invariant got == collected + NearUpTo(graph, packages[..], current, i)
      {
        var d := ShortestPath(current, i);
        if d <= 2 && packages[i] == 1 {
          got := got + {i};
        }
      }
      NearUpToMembers(graph, packages[..], current, packages.Length);
      assert NearUpTo(graph, packages[..], current, packages.Length) == Near(graph, packages[..], current);
    }

    /**
     * `PackageCollection(packages, roads)`: builds the roads, then tries a
     * depth-first walk from every location. The result is what `Starts`
     * says: `Integer.MAX_VALUE` when nothing was recorded, never more, and
     * 0 when there is no package and at least one location.
     */
    method PackageCollection(packages: array<int>, roads: seq<seq<int>>) returns (result: int)
      requires forall r :: r in roads ==> |r| >= 2 && 0 <= r[0] < packages.Length && 0 <= r[1] < packages.Length
      requires packages.Length <= IntMax
      modifies this
      ensures this.packages == packages && |graph| == packages.Length && Edges(graph) && Symmetric(graph)
      ensures forall a, b :: 0 <= a < |graph| && 0 <= b < |graph| ==> multiset(graph[a])[b] == RoadCount(roads, a, b)
      ensures result == Starts(graph, packages[..], 0, IntMax, OnEntry)
      ensures result <= IntMax
      ensures packages.Length >= 1 && Count(packages[..]) == 0 ==> result == 0
    {
      var g := BuildGraph(packages.Length, roads);
      this.packages := packages;
      this.graph := g;
      this.visited := new bool[packages.Length](_ => false);
      this.minRoads := IntMax;
      SearchFromEach();
      result := minRoads;
      assert graph == g && packages[..] == old(packages[..]);
      if packages.Length >= 1 && Count(packages[..]) == 0 {
        NoPackages(g, packages[..], OnEntry);
      }
    }

    /** The loop of `PackageCollection` that starts a walk at every location in turn. */
    method SearchFromEach()
      requires Valid() && minRoads == IntMax && forall v :: 0 <= v < visited.Length ==> !visited[v]
      modifies this`minRoads, visited
      ensures minRoads == Starts(graph, packages[..], 0, IntMax, OnEntry)
    {
      for i := 0 to packages.Length
        invariant forall v :: 0 <= v < visited.Length ==> !visited[v]
        invariant Starts(graph, packages[..], i, minRoads, OnEntry) == Starts(graph, packages[..], 0, IntMax, OnEntry)
      {
        MarkedNone(visited[..]);
        Dfs(i, i, 0, {});
      }
    }
  }
}
