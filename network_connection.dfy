/**
 * `NetworkConnection3a`: the minimum cost to connect n devices, each of
 * which either installs a module (a "virtual" edge to the super node 0) or
 * is joined to another device by a direct connection. Kruskal's algorithm
 * over a union-find with path compression and union by rank.
 *
 * The union-find carries a ghost labelling `root`: root[x] is the
 * representative of x's set. Path compression never changes it; `Union`
 * merges two classes of it.
 */
module NetworkConnection {

  import StableSort

  /** `new int[]{device1, device2, cost}`. */
  datatype Edge = Edge(u: int, v: int, cost: int)

  /** A labelling whose every label is in range and labels itself. */
  ghost predicate Labelling(root: seq<int>) {
    forall x :: 0 <= x < |root| ==> 0 <= root[x] < |root| && root[root[x]] == root[x]
  }

  /** The representatives of a labelling: one per set. */
  ghost function Labels(root: seq<int>): set<int> {
    set z | 0 <= z < |root| && root[z] == z
  }

  /**
   * q is p with the classes of x and y merged (under a label of one of the
   * two), every other class unchanged.
   */
  ghost predicate Merged(p: seq<int>, q: seq<int>, x: int, y: int)
    requires 0 <= x < |p| && 0 <= y < |p|
  {
    && |q| == |p|
    && (q[x] == p[x] || q[x] == p[y])
    && forall z :: 0 <= z < |p| ==> q[z] == if p[z] == p[x] || p[z] == p[y] then q[x] else p[z]
  }

  /** Every node labelled a now carries label b. */
  ghost function Relabel(p: seq<int>, a: int, b: int): (q: seq<int>)
    ensures |q| == |p|
  {
    seq(|p|, z => if 0 <= z < |p| && p[z] == a then b else if 0 <= z < |p| then p[z] else z)
  }

  /**
   * The union-find state as values: parent links stay in range, follow the
   * labelling, a node is its own parent exactly when it is a representative,
   * and ranks increase strictly along parent links and up to the
   * representative (the ghost `bound` caps all ranks, so `find` terminates).
   */
  ghost predicate Forest(parent: seq<int>, rank: seq<int>, root: seq<int>, bound: int) {
    && |parent| == |root| && |rank| == |root|
    && Labelling(root)
    && (forall x {:trigger parent[x]} :: 0 <= x < |root| ==> 0 <= parent[x] < |root| && 0 <= rank[x] <= bound)
    && (forall x {:trigger parent[x]} :: 0 <= x < |root| ==> root[parent[x]] == root[x])
    && (forall x {:trigger parent[x]} :: 0 <= x < |root| ==> (parent[x] == x <==> root[x] == x))
    && (forall x {:trigger parent[x]} :: 0 <= x < |root| && parent[x] != x ==>
          rank[x] < rank[parent[x]] && rank[x] < rank[root[x]])
  }

  /** Pointing x straight at its representative keeps the forest. */
  lemma Compress(parent: seq<int>, rank: seq<int>, root: seq<int>, bound: int, x: int)
    requires Forest(parent, rank, root, bound) && 0 <= x < |root| && parent[x] != x
    ensures Forest(parent[x := root[x]], rank, root, bound)
  {
    var p := parent[x := root[x]];
    forall z | 0 <= z < |root|
      ensures 0 <= p[z] < |root| && 0 <= rank[z] <= bound
      ensures root[p[z]] == root[z] && (p[z] == z <==> root[z] == z)
      ensures p[z] != z ==> rank[z] < rank[p[z]] && rank[z] < rank[root[z]]
    {
      assert 0 <= parent[z] < |root|;
      if z == x {
        assert p[z] == root[x] && root[x] != x;
      } else {
        assert p[z] == parent[z];
      }
    }
  }

  /**
   * Linking representative a under representative b (with rank[a] below b's
   * rank once it is raised to `rb`) keeps the forest.
   */
  lemma Link(parent: seq<int>, rank: seq<int>, root: seq<int>, bound: int, a: int, b: int, rb: int)
    requires Forest(parent, rank, root, bound) && 0 <= a < |root| && 0 <= b < |root|
    requires root[a] == a && root[b] == b && a != b && rank[a] < rb && rank[b] <= rb
    ensures Forest(parent[a := b], rank[b := rb], Relabel(root, a, b), if rb > bound then rb else bound)
  {
    var q := Relabel(root, a, b);
    var p := parent[a := b];
    var rk := rank[b := rb];
    var bd := if rb > bound then rb else bound;
    assert Labelling(q) by {
      forall z | 0 <= z < |root| ensures 0 <= q[z] < |root| && q[q[z]] == q[z] {
        assert 0 <= root[z] < |root|;
      }
    }
    forall z | 0 <= z < |root|
      ensures 0 <= p[z] < |root| && 0 <= rk[z] <= bd
      ensures q[p[z]] == q[z] && (p[z] == z <==> q[z] == z)
      ensures p[z] != z ==> rk[z] < rk[p[z]] && rk[z] < rk[q[z]]
    {
      if z == a {
        assert p[z] == b && q[z] == b;
        assert parent[a] == a;
      } else {
        assert p[z] == parent[z];
        assert root[parent[z]] == root[z] && (parent[z] == z <==> root[z] == z);
        if parent[z] != z {
          assert rank[z] < rank[parent[z]] && rank[z] < rank[root[z]];
        }
      }
    }
  }

  /** Relabelling representative a as representative b removes a from the representatives. */
  lemma RelabelLabels(root: seq<int>, a: int, b: int)
    requires Labelling(root) && 0 <= a < |root| && 0 <= b < |root| && root[a] == a && root[b] == b && a != b
    ensures Labels(Relabel(root, a, b)) == Labels(root) - {a}
    ensures |Labels(Relabel(root, a, b))| == |Labels(root)| - 1
  {
    var q := Relabel(root, a, b);
    forall z | 0 <= z < |root| ensures (q[z] == z) == (root[z] == z && z != a) {
    }
  }

  lemma RelabelMerged(root: seq<int>, x: int, y: int, a: int, b: int)
    requires Labelling(root) && 0 <= x < |root| && 0 <= y < |root|
    requires (a == root[x] && b == root[y]) || (a == root[y] && b == root[x])
    ensures Merged(root, Relabel(root, a, b), x, y)
  {
  }

  class UnionFind {
    var parent: array<int>
    var rank: array<int>
    ghost var root: seq<int>
    ghost var bound: int

    ghost predicate Valid()
      reads this, parent, rank
    {
      parent != rank && Forest(parent[..], rank[..], root, bound)
    }

    /** `UnionFind(size)`: every node is its own set, of rank 0. */
    constructor (size: int)
      requires size >= 0
      ensures Valid() && fresh(parent) && fresh(rank)
      ensures |root| == size && parent.Length == size
      ensures forall i :: 0 <= i < size ==> parent[i] == i && rank[i] == 0 && root[i] == i
    {
      var p := new int[size];
      var r := new int[size];
      var i := 0;
      while i < size
        invariant 0 <= i <= size
        invariant forall j :: 0 <= j < i ==> p[j] == j && r[j] == 0
      {
        p[i] := i;
        r[i] := 0;
        i := i + 1;
      }
      parent := p;
      rank := r;
      root := seq(size, i => i);
      bound := 0;
    }

    /**
     * `find(x)` with path compression: returns x's representative; links only
     * ever move to point at their node's representative.
     */
    method Find(x: int) returns (r: int)
      requires Valid() && 0 <= x < |root|
      modifies parent
      ensures Valid()
      ensures r == root[x] && parent[r] == r && rank[..] == old(rank[..])
      ensures forall y :: 0 <= y < |root| ==> parent[y] == old(parent[y]) || parent[y] == root[y]
      decreases bound - rank[x]
    {
      if parent[x] != x {
        var p := Find(parent[x]);
        Compress(parent[..], rank[..], root, bound, x);
        parent[x] := p;
      }
      r := parent[x];
    }

    /**
     * `union(x, y)`: afterwards x and y share a representative. Distinct sets
     * are merged and no other set changes; the survivor is the
     * representative of higher rank, whose rank grows by one only when the
     * two ranks were equal. Joined nodes change nothing but links.
     */
    method Union(x: int, y: int)
      requires Valid() && 0 <= x < |root| && 0 <= y < |root|
      modifies this, parent, rank
      ensures Valid() && parent == old(parent) && rank == old(rank)
      ensures root[x] == root[y]
      ensures old(root[x]) == old(root[y]) ==> root == old(root) && rank[..] == old(rank[..])
      ensures old(root[x]) != old(root[y]) ==> Merged(old(root), root, x, y)
      ensures old(root[x]) != old(root[y]) ==> Labels(root) < old(Labels(root)) && |Labels(root)| == |old(Labels(root))| - 1
    {
      var rootX := Find(x);
      var rootY := Find(y);
      if rootX != rootY {
        ghost var root0 := root;
        ghost var a, b := LinkRoots(rootX, rootY);
        UnionStep(root0, x, y, a, b);
      }
    }

    /**
     * The linking part of `union` on two distinct representatives: the one
     * of lower rank goes below the other; on equal ranks rootY goes below
     * rootX and rootX's rank grows by one. Returns the one linked below (a)
     * and the survivor (b).
     */
    method LinkRoots(rootX: int, rootY: int) returns (ghost a: int, ghost b: int)
      requires Valid() && 0 <= rootX < |root| && 0 <= rootY < |root|
      requires root[rootX] == rootX && root[rootY] == rootY && rootX != rootY
      modifies this, parent, rank
      ensures Valid() && parent == old(parent) && rank == old(rank)
      ensures a == (if old(rank[rootX]) < old(rank[rootY]) then rootX else rootY) && b == (if a == rootX then rootY else rootX)
      ensures root == Relabel(old(root), a, b)
      ensures rank[..] == old(rank[..])[b := old(rank[..])[b] + Bump(old(root), old(rank[..]), rootX, rootY)]
    {
      ghost var P, R := parent[..], rank[..];
      ghost var rb;
      if rank[rootX] > rank[rootY] {
        parent[rootY] := rootX;
        a, b, rb := rootY, rootX, rank[rootX];
      } else if rank[rootX] < rank[rootY] {
        parent[rootX] := rootY;
        a, b, rb := rootX, rootY, rank[rootY];
      } else {
        parent[rootY] := rootX;
        rank[rootX] := rank[rootX] + 1;
        a, b, rb := rootY, rootX, rank[rootX];
      }
      assert parent[..] == P[a := b] && rank[..] == R[b := rb];
      assert rb == R[b] + Bump(root, R, rootX, rootY);
      Link(P, R, root, bound, a, b, rb);
      root := Relabel(root, a, b);
      bound := if rb > bound then rb else bound;
    }
  }

  /** 1 when `union(x, y)` raises the survivor's rank, else 0. */
  ghost function Bump(root: seq<int>, rank: seq<int>, x: int, y: int): int
    requires 0 <= x < |root| && 0 <= y < |root| && |rank| == |root| && Labelling(root)
  {
    if root[x] != root[y] && rank[root[x]] == rank[root[y]] then 1 else 0
  }

  /** The effect of `LinkRoots` on the labelling, seen from x and y. */
  lemma UnionStep(root: seq<int>, x: int, y: int, a: int, b: int)
    requires Labelling(root) && 0 <= x < |root| && 0 <= y < |root|
    requires (a == root[x] && b == root[y]) || (a == root[y] && b == root[x])
    requires a != b
    ensures Merged(root, Relabel(root, a, b), x, y) && Relabel(root, a, b)[x] == b
    ensures Labels(Relabel(root, a, b)) < Labels(root) && |Labels(Relabel(root, a, b))| == |Labels(root)| - 1
  {
    RelabelFacts(root, a, b);
    RelabelLabels(root, a, b);
    RelabelMerged(root, x, y, a, b);
  }

  /** Facts about a relabelling of two distinct representatives. */
  lemma RelabelFacts(root: seq<int>, a: int, b: int)
    requires Labelling(root) && 0 <= a < |root| && 0 <= b < |root| && root[a] == a && root[b] == b && a != b
    ensures Relabel(root, a, b)[b] == b && Relabel(root, b, a)[a] == a
    ensures a in Labels(root) && b in Labels(root)
  {
  }

  /** The identity labelling: every node alone. */
  function Singletons(size: int): (p: seq<int>)
    requires size >= 0
    ensures |p| == size && forall i :: 0 <= i < size ==> p[i] == i
  {
    seq(size, i => i)
  }

  lemma {:induction false} SingletonLabels(size: int)
    requires size >= 0
    ensures Labelling(Singletons(size)) && |Labels(Singletons(size))| == size
  {
    if size > 0 {
      SingletonLabels(size - 1);
      assert Labels(Singletons(size)) == Labels(Singletons(size - 1)) + {size - 1};
    }
  }

  /** Every label of a labelling is a representative. */
  lemma LabelIsRepresentative(root: seq<int>, x: int)
    requires Labelling(root) && 0 <= x < |root|
    ensures root[x] in Labels(root)
  {
  }

  /** With a single representative, there is a single set. */
  lemma OneLabel(root: seq<int>, x: int)
    requires Labelling(root) && 0 <= x < |root| && |Labels(root)| == 1
    ensures root[x] == root[0]
  {
    LabelIsRepresentative(root, x);
    LabelIsRepresentative(root, 0);
    if root[x] != root[0] {
      assert {root[x], root[0]} <= Labels(root);
      assert |{root[x], root[0]}| == 2;
      SubsetCard({root[x], root[0]}, Labels(root));
    }
  }

  lemma SubsetCard(a: set<int>, b: set<int>)
    requires a <= b
    ensures |a| <= |b|
  {
    assert b == a + (b - a);
  }

  /** Merging keeps joined nodes joined. */
  lemma MergedKeepsJoined(p: seq<int>, q: seq<int>, x: int, y: int, a: int, b: int)
    requires 0 <= x < |p| && 0 <= y < |p| && 0 <= a < |p| && 0 <= b < |p|
    requires Merged(p, q, x, y) && p[a] == p[b]
    ensures q[a] == q[b]
  {
  }

  // ---------------------------------------------------------------- minCost

  /** The virtual edges (0, i + 1, modules[i]) of the first i devices. */
  function ModuleEdges(modules: seq<int>, i: int): (es: seq<Edge>)
    requires 0 <= i <= |modules|
    ensures |es| == i && forall j :: 0 <= j < i ==> es[j] == Edge(0, j + 1, modules[j])
  {
    seq(i, j requires 0 <= j < i => Edge(0, j + 1, modules[j]))
  }

  /** All candidate edges in the order `minCost` adds them. */
  function Candidates(n: int, modules: seq<int>, connections: seq<Edge>): seq<Edge>
    requires 0 <= n <= |modules|
  {
    ModuleEdges(modules, n) + connections
  }

  function Cost(e: Edge): int { e.cost }

  /** `edges.sort(Comparator.comparingInt(a -> a[2]))`: a stable sort by cost. */
  function SortByCost(es: seq<Edge>): seq<Edge> {
    StableSort.SortBy(es, Cost)
  }

  /** One pass of the loop: the edge is accepted exactly when its ends are in different sets, and then they merge. */
  ghost predicate Step(p: seq<int>, e: Edge, took: bool, q: seq<int>) {
    && 0 <= e.u < |p| && 0 <= e.v < |p|
    && if p[e.u] == p[e.v] then !took && q == p else took && Merged(p, q, e.u, e.v)
  }

  /** The number of accepted edges. */
  function Used(taken: seq<bool>): nat {
    if |taken| == 0 then 0 else Used(taken[..|taken| - 1]) + if taken[|taken| - 1] then 1 else 0
  }

  /** The total cost of the accepted edges. */
  function TakenCost(edges: seq<Edge>, taken: seq<bool>): int
    requires |taken| <= |edges|
  {
    if |taken| == 0 then 0
    else TakenCost(edges, taken[..|taken| - 1]) + if taken[|taken| - 1] then edges[|taken| - 1].cost else 0
  }

  /**
   * The loop went through the edges in order, from all singletons; taken[k]
   * says whether edge k was accepted and parts[k] is the partition before it.
   */
  ghost predicate IsKruskalRun(edges: seq<Edge>, size: int, taken: seq<bool>, parts: seq<seq<int>>) {
    && size >= 0 && |parts| == |taken| + 1 && |taken| <= |edges|
    && parts[0] == Singletons(size)
    && forall k :: 0 <= k < |taken| ==> Step(parts[k], edges[k], taken[k], parts[k + 1])
  }

  /** It stopped right after the n-th accepted edge, or when the edges ran out. */
  ghost predicate Stopped(edges: seq<Edge>, n: int, taken: seq<bool>) {
    && (forall k :: 0 <= k && k + 1 < |taken| ==> !(taken[k] && Used(taken[..k + 1]) == n))
    && (|taken| == |edges| || (|taken| > 0 && taken[|taken| - 1] && Used(taken) == n))
  }

  lemma KruskalExtend(edges: seq<Edge>, size: int, taken: seq<bool>, parts: seq<seq<int>>, took: bool, q: seq<int>)
    requires IsKruskalRun(edges, size, taken, parts) && |taken| < |edges|
    requires Step(parts[|taken|], edges[|taken|], took, q)
    ensures IsKruskalRun(edges, size, taken + [took], parts + [q])
  {
    var ts, ps := taken + [took], parts + [q];
    forall k | 0 <= k < |ts| ensures Step(ps[k], edges[k], ts[k], ps[k + 1]) {
      if k < |taken| {
        assert ps[k] == parts[k] && ps[k + 1] == parts[k + 1] && ts[k] == taken[k];
      }
    }
  }

  lemma UsedExtend(edges: seq<Edge>, taken: seq<bool>, took: bool)
    requires |taken| < |edges|
    ensures Used(taken + [took]) == Used(taken) + if took then 1 else 0
    ensures TakenCost(edges, taken + [took]) == TakenCost(edges, taken) + if took then edges[|taken|].cost else 0
    ensures forall k :: 0 <= k <= |taken| ==> (taken + [took])[..k] == taken[..k]
  {
    assert (taken + [took])[..|taken|] == taken;
  }

  /**
   * `minCost`: offers every device a virtual edge to the super node 0, adds
   * the connections, sorts by cost and runs Kruskal's loop over a union-find
   * of n + 1 nodes, stopping after n accepted edges. Every accepted edge
   * joins two different sets, the result is the sum of the accepted edges'
   * costs, at most n are accepted, and all of 0..n end in one set.
   */
  method MinCost(n: int, modules: seq<int>, connections: seq<Edge>)
    returns (totalCost: int, ghost taken: seq<bool>, ghost parts: seq<seq<int>>)
    requires 0 <= n <= |modules|
    requires forall c :: c in connections ==> 0 <= c.u <= n && 0 <= c.v <= n
    ensures IsKruskalRun(SortByCost(Candidates(n, modules, connections)), n + 1, taken, parts)
    ensures Stopped(SortByCost(Candidates(n, modules, connections)), n, taken)
    ensures totalCost == TakenCost(SortByCost(Candidates(n, modules, connections)), taken)
    ensures Used(taken) <= n && |parts[|taken|]| == n + 1
    ensures forall x :: 0 <= x <= n ==> parts[|taken|][x] == parts[|taken|][0]
  {
    var edges := AddEdges(n, modules, connections);
    edges := SortByCost(edges);
    EdgesInRange(n, modules, connections, edges);
    totalCost, taken, parts := Kruskal(n, edges);
    ghost var last := parts[|taken|];
    if Used(taken) != n {
      ModuleEdgesSorted(n, modules, connections, edges, last);
    }
  }

  /** The two loops of `minCost` that fill `edges`. */
  method AddEdges(n: int, modules: seq<int>, connections: seq<Edge>) returns (edges: seq<Edge>)
    requires 0 <= n <= |modules|
    ensures edges == Candidates(n, modules, connections)
  {
    edges := [];
    var i := 0;
    while i < n
      invariant 0 <= i <= n && edges == ModuleEdges(modules, i)
    {
      edges := edges + [Edge(0, i + 1, modules[i])];
      i := i + 1;
    }
    var c := 0;
    while c < |connections|
      invariant 0 <= c <= |connections| && edges == ModuleEdges(modules, n) + connections[..c]
    {
      assert connections[..c + 1] == connections[..c] + [connections[c]];
      edges := edges + [connections[c]];
      c := c + 1;
    }
    assert connections[..c] == connections;
  }

  /** The first m edges have both ends in one set of `root`. */
  ghost predicate Joined(edges: seq<Edge>, m: int, root: seq<int>)
    requires 0 <= m <= |edges|
  {
    forall k :: 0 <= k < m ==> 0 <= edges[k].u < |root| && 0 <= edges[k].v < |root| && root[edges[k].u] == root[edges[k].v]
  }

  /** No accepted edge so far was the n-th. */
  ghost predicate NotStopped(taken: seq<bool>, n: int) {
    forall k :: 0 <= k < |taken| ==> !(taken[k] && Used(taken[..k + 1]) == n)
  }

  /** What the Kruskal loop keeps, on values: `root` is the union-find's labelling. */
  ghost predicate Scanned(edges: seq<Edge>, n: int, taken: seq<bool>, parts: seq<seq<int>>, root: seq<int>, totalCost: int) {
    && IsKruskalRun(edges, n + 1, taken, parts) && parts[|taken|] == root && |root| == n + 1
    && totalCost == TakenCost(edges, taken)
    && |Labels(root)| == n + 1 - Used(taken)
    && Joined(edges, |taken|, root)
  }

  /** One pass of the Kruskal loop keeps `Scanned`. */
  lemma ScanStep(edges: seq<Edge>, n: int, taken: seq<bool>, parts: seq<seq<int>>, p: seq<int>, totalCost: int, took: bool, q: seq<int>)
    requires Scanned(edges, n, taken, parts, p, totalCost) && NotStopped(taken, n) && |taken| < |edges|
    requires 0 <= edges[|taken|].u < |p| && 0 <= edges[|taken|].v < |p|
    requires took == (p[edges[|taken|].u] != p[edges[|taken|].v])
    requires took ==> Merged(p, q, edges[|taken|].u, edges[|taken|].v) && |Labels(q)| == |Labels(p)| - 1
    requires !took ==> q == p
    ensures Scanned(edges, n, taken + [took], parts + [q], q, totalCost + if took then edges[|taken|].cost else 0)
    ensures Used(taken + [took]) == Used(taken) + if took then 1 else 0
    ensures forall k :: 0 <= k && k + 1 < |taken + [took]| ==> !((taken + [took])[k] && Used((taken + [took])[..k + 1]) == n)
    ensures !(took && Used(taken + [took]) == n) ==> NotStopped(taken + [took], n)
  {
    var e := edges[|taken|];
    var ts := taken + [took];
    UsedExtend(edges, taken, took);
    KruskalExtend(edges, n + 1, taken, parts, took, q);
    assert Joined(edges, |ts|, q) by {
      forall k | 0 <= k < |ts| ensures 0 <= edges[k].u < |q| && 0 <= edges[k].v < |q| && q[edges[k].u] == q[edges[k].v] {
        if k < |taken| && took {
          MergedKeepsJoined(p, q, e.u, e.v, edges[k].u, edges[k].v);
        }
      }
    }
    forall k | 0 <= k && k + 1 < |ts| ensures !(ts[k] && Used(ts[..k + 1]) == n) {
      assert ts[k] == taken[k] && ts[..k + 1] == taken[..k + 1];
    }
    if !(took && Used(ts) == n) {
      assert ts[..|ts|] == ts;
    }
  }

  /**
   * The Kruskal loop of `minCost` over already sorted edges. It ends with
   * all nodes in one set when it stopped after n accepted edges, and
   * otherwise with every edge's ends joined.
   */
  method Kruskal(n: int, edges: seq<Edge>) returns (totalCost: int, ghost taken: seq<bool>, ghost parts: seq<seq<int>>)
    requires n >= 0
    requires forall k :: 0 <= k < |edges| ==> 0 <= edges[k].u <= n && 0 <= edges[k].v <= n
    ensures IsKruskalRun(edges, n + 1, taken, parts) && Stopped(edges, n, taken)
    ensures totalCost == TakenCost(edges, taken)
    ensures Used(taken) <= n && |parts[|taken|]| == n + 1
    ensures Used(taken) == n ==> forall x :: 0 <= x <= n ==> parts[|taken|][x] == parts[|taken|][0]
    ensures Used(taken) != n ==> |taken| == |edges| && Joined(edges, |edges|, parts[|taken|])
  {
    var uf := new UnionFind(n + 1);
    totalCost := 0;
    var edgesUsed := 0;
    taken := [];
    parts := [uf.root];
    assert uf.root == Singletons(n + 1);
    SingletonLabels(n + 1);
    var idx := 0;
    while idx < |edges|
      invariant 0 <= idx <= |edges| && |taken| == idx && edgesUsed == Used(taken)
      invariant uf.Valid() && |uf.root| == n + 1 && fresh(uf.parent) && fresh(uf.rank)
      invariant Scanned(edges, n, taken, parts, uf.root, totalCost) && NotStopped(taken, n)
    {
      var e := edges[idx];
      ghost var p := uf.root;
      var joined := Connect(uf, e.u, e.v);
      ScanStep(edges, n, taken, parts, p, totalCost, joined, uf.root);
      taken := taken + [joined];
      parts := parts + [uf.root];
      idx := idx + 1;
      if joined {
        totalCost := totalCost + e.cost;
        edgesUsed := edgesUsed + 1;
        if edgesUsed == n {
          break;
        }
      }
    }
    KruskalEnd(edges, n, taken, parts, uf.root, totalCost);
  }

  /**
   * `if (uf.find(device1) != uf.find(device2)) uf.union(device1, device2)`:
   * joins the two sets when they differ, and says whether it did.
   */
  method Connect(uf: UnionFind, x: int, y: int) returns (joined: bool)
    requires uf.Valid() && 0 <= x < |uf.root| && 0 <= y < |uf.root|
    modifies uf, uf.parent, uf.rank
    ensures uf.Valid() && uf.parent == old(uf.parent) && uf.rank == old(uf.rank) && |uf.root| == old(|uf.root|)
    ensures joined == (old(uf.root[x]) != old(uf.root[y]))
    ensures joined ==> Merged(old(uf.root), uf.root, x, y) && |Labels(uf.root)| == |Labels(old(uf.root))| - 1
    ensures !joined ==> uf.root == old(uf.root)
  {
    var rx := uf.Find(x);
    var ry := uf.Find(y);
    joined := rx != ry;
    if joined {
      uf.Union(x, y);
    }
  }

  /** What the loop's exit gives. */
  lemma KruskalEnd(edges: seq<Edge>, n: int, taken: seq<bool>, parts: seq<seq<int>>, root: seq<int>, totalCost: int)
    requires n >= 0 && Scanned(edges, n, taken, parts, root, totalCost) && Labelling(root)
    ensures Used(taken) <= n
    ensures Used(taken) == n ==> forall x :: 0 <= x <= n ==> root[x] == root[0]
  {
    LabelIsRepresentative(root, 0);
    if Used(taken) == n {
      forall x | 0 <= x <= n ensures root[x] == root[0] {
        OneLabel(root, x);
      }
    }
  }

  /** Every endpoint of a sorted candidate edge is a node 0..n. */
  lemma EdgesInRange(n: int, modules: seq<int>, connections: seq<Edge>, edges: seq<Edge>)
    requires 0 <= n <= |modules|
    requires forall c :: c in connections ==> 0 <= c.u <= n && 0 <= c.v <= n
    requires edges == SortByCost(Candidates(n, modules, connections))
    ensures forall k :: 0 <= k < |edges| ==> 0 <= edges[k].u <= n && 0 <= edges[k].v <= n
  {
    var all := Candidates(n, modules, connections);
    forall k | 0 <= k < |edges| ensures 0 <= edges[k].u <= n && 0 <= edges[k].v <= n {
      assert edges[k] in multiset(edges);
      assert edges[k] in all;
    }
  }

  /** Processed edges stay joined when an accepted edge merges two sets. */
  lemma JoinedStep(p: seq<int>, q: seq<int>, edges: seq<Edge>, idx: int, x: int, y: int)
    requires 0 <= x < |p| && 0 <= y < |p| && 0 <= idx < |edges| && Merged(p, q, x, y)
    requires forall k :: 0 <= k < idx ==> 0 <= edges[k].u < |p| && 0 <= edges[k].v < |p| && p[edges[k].u] == p[edges[k].v]
    ensures forall k :: 0 <= k < idx ==> q[edges[k].u] == q[edges[k].v]
  {
    forall k | 0 <= k < idx ensures q[edges[k].u] == q[edges[k].v] {
      MergedKeepsJoined(p, q, x, y, edges[k].u, edges[k].v);
    }
  }

  /** When every sorted edge is joined, so is every device with the super node. */
  lemma ModuleEdgesSorted(n: int, modules: seq<int>, connections: seq<Edge>, edges: seq<Edge>, root: seq<int>)
    requires 0 <= n <= |modules| && edges == SortByCost(Candidates(n, modules, connections)) && |root| == n + 1
    requires Joined(edges, |edges|, root)
    ensures forall x :: 0 <= x <= n ==> root[x] == root[0]
  {
    forall x | 1 <= x <= n ensures root[x] == root[0] {
      var e := Edge(0, x, modules[x - 1]);
      assert Candidates(n, modules, connections)[x - 1] == e;
      assert e in multiset(edges);
      var k :| 0 <= k < |edges| && edges[k] == e;
    }
  }

  // ---------------------------------------------------------------- example

  /** The example's candidate edges, in the order they are added. */
  lemma ExampleCandidates()
    ensures Candidates(3, [1, 2, 2], [Edge(1, 2, 1), Edge(2, 3, 1)]) ==
      [Edge(0, 1, 1), Edge(0, 2, 2), Edge(0, 3, 2), Edge(1, 2, 1), Edge(2, 3, 1)]
  {
    assert ModuleEdges([1, 2, 2], 3) == [Edge(0, 1, 1), Edge(0, 2, 2), Edge(0, 3, 2)];
  }

  /** The example's candidate edges after the stable sort. */
  lemma ExampleSorted()
    ensures SortByCost([Edge(0, 1, 1), Edge(0, 2, 2), Edge(0, 3, 2), Edge(1, 2, 1), Edge(2, 3, 1)]) ==
      [Edge(0, 1, 1), Edge(1, 2, 1), Edge(2, 3, 1), Edge(0, 2, 2), Edge(0, 3, 2)]
  {
    var c := [Edge(0, 1, 1), Edge(0, 2, 2), Edge(0, 3, 2), Edge(1, 2, 1), Edge(2, 3, 1)];
    assert c[1..] == [Edge(0, 2, 2), Edge(0, 3, 2), Edge(1, 2, 1), Edge(2, 3, 1)];
    SortTail();
    InsertFirst();
  }

  lemma SortTail()
    ensures SortByCost([Edge(0, 2, 2), Edge(0, 3, 2), Edge(1, 2, 1), Edge(2, 3, 1)]) ==
      [Edge(1, 2, 1), Edge(2, 3, 1), Edge(0, 2, 2), Edge(0, 3, 2)]
  {
    var c := [Edge(0, 2, 2), Edge(0, 3, 2), Edge(1, 2, 1), Edge(2, 3, 1)];
    assert c[1..] == [Edge(0, 3, 2), Edge(1, 2, 1), Edge(2, 3, 1)];
    SortLastThree();
    InsertTwo();
  }

  lemma SortLastThree()
    ensures SortByCost([Edge(0, 3, 2), Edge(1, 2, 1), Edge(2, 3, 1)]) == [Edge(1, 2, 1), Edge(2, 3, 1), Edge(0, 3, 2)]
  {
    var c := [Edge(0, 3, 2), Edge(1, 2, 1), Edge(2, 3, 1)];
    var t := [Edge(1, 2, 1), Edge(2, 3, 1)];
    assert c[1..] == t;
    assert SortByCost(c) == StableSort.InsertBy(c[0], SortByCost(t), Cost);
    SortLastTwo();
    InsertOne(c[0], t);
  }

  lemma SortLastTwo()
    ensures SortByCost([Edge(1, 2, 1), Edge(2, 3, 1)]) == [Edge(1, 2, 1), Edge(2, 3, 1)]
  {
    var c := [Edge(1, 2, 1), Edge(2, 3, 1)];
    assert c[1..] == [Edge(2, 3, 1)] && c[1..][1..] == [];
  }

  lemma InsertOne(e: Edge, s: seq<Edge>)
    requires |s| == 2 && s[0].cost < e.cost && s[1].cost < e.cost
    ensures StableSort.InsertBy(e, s, Cost) == s + [e]
  {
    assert s[1..][1..] == [];
  }

  lemma InsertTwo()
    ensures StableSort.InsertBy(Edge(0, 2, 2), [Edge(1, 2, 1), Edge(2, 3, 1), Edge(0, 3, 2)], Cost) ==
      [Edge(1, 2, 1), Edge(2, 3, 1), Edge(0, 2, 2), Edge(0, 3, 2)]
  {
    var s := [Edge(1, 2, 1), Edge(2, 3, 1), Edge(0, 3, 2)];
    assert s[1..] == [Edge(2, 3, 1), Edge(0, 3, 2)] && s[1..][1..] == [Edge(0, 3, 2)];
  }

  lemma InsertFirst()
    ensures StableSort.InsertBy(Edge(0, 1, 1), [Edge(1, 2, 1), Edge(2, 3, 1), Edge(0, 2, 2), Edge(0, 3, 2)], Cost) ==
      [Edge(0, 1, 1), Edge(1, 2, 1), Edge(2, 3, 1), Edge(0, 2, 2), Edge(0, 3, 2)]
  {
  }

  /**
   * Every run of the loop on the example accepts exactly the three edges of
   * cost 1 and stops: the total is 3.
   */
  lemma ExampleRun(taken: seq<bool>, parts: seq<seq<int>>)
    requires IsKruskalRun([Edge(0, 1, 1), Edge(1, 2, 1), Edge(2, 3, 1), Edge(0, 2, 2), Edge(0, 3, 2)], 4, taken, parts)
    requires Stopped([Edge(0, 1, 1), Edge(1, 2, 1), Edge(2, 3, 1), Edge(0, 2, 2), Edge(0, 3, 2)], 3, taken)
    ensures taken == [true, true, true]
    ensures TakenCost([Edge(0, 1, 1), Edge(1, 2, 1), Edge(2, 3, 1), Edge(0, 2, 2), Edge(0, 3, 2)], taken) == 3
  {
    var es := [Edge(0, 1, 1), Edge(1, 2, 1), Edge(2, 3, 1), Edge(0, 2, 2), Edge(0, 3, 2)];
    UsedOnes();
    var p0 := parts[0];
    assert p0[0] == 0 && p0[1] == 1 && p0[2] == 2 && p0[3] == 3;
    assert |taken| >= 1;
    assert Step(p0, es[0], taken[0], parts[1]);
    var p1 := parts[1];
    assert taken[0] && p1[0] == p1[1] && p1[1] <= 1 && p1[2] == 2 && p1[3] == 3;
    assert taken[..1] == [true];
    assert |taken| >= 2;
    assert Step(p1, es[1], taken[1], parts[2]);
    var p2 := parts[2];
    assert taken[1] && p2[1] == p2[2] && p2[2] <= 2 && p2[3] == 3;
    assert taken[..2] == [true, true];
    assert |taken| >= 3;
    assert Step(p2, es[2], taken[2], parts[3]);
    assert taken[2];
    assert taken[..3] == [true, true, true];
    assert |taken| == 3;
    assert taken == taken[..3];
  }

  lemma UsedOnes()
    ensures Used([true]) == 1 && Used([true, true]) == 2 && Used([true, true, true]) == 3
  {
    assert [true, true][..1] == [true] && [true, true, true][..2] == [true, true];
    assert [true][..0] == [];
  }

  /** The example in the source: the minimum cost to connect all devices is 3. */
  method Example() returns (result: int)
    ensures result == 3
  {
    ghost var taken, parts;
    result, taken, parts := MinCost(3, [1, 2, 2], [Edge(1, 2, 1), Edge(2, 3, 1)]);
    ExampleCandidates();
    ExampleSorted();
    ExampleRun(taken, parts);
  }
}
