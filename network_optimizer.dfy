/**
 * `NetworkOptimizerGUI5`: an undirected graph of servers and clients kept
 * as adjacency lists, Kruskal's algorithm over it (a union-find of
 * `Subset` records) and Dijkstra's algorithm over the bandwidths, without
 * the text the window prints.
 *
 * The `Subset[]` records of `KruskalMST` are the `parent`/`rank` arrays of
 * `NetworkConnection.UnionFind`: `find` is the same code in both sources and
 * is that class's `Find`; `union` here has no guard for equal roots and is
 * modelled below.
 */
module NetworkOptimizer {

  import NC = NetworkConnection
  import StableSort

  const IntMax: int := 0x7fff_ffff

  datatype Edge = Edge(src: int, dest: int, cost: int, bandwidth: int)

  /** The edge lies in the list of node i: both ends are nodes and i is one of them. */
  predicate EdgeAt(e: Edge, i: int, v: int) {
    0 <= e.src < v && 0 <= e.dest < v && (e.src == i || e.dest == i)
  }

  /** The adjacency lists of a graph with `v` nodes hold only edges at their node. */
  predicate Lists(adj: seq<seq<Edge>>, v: int) {
    |adj| == v && forall i, k :: 0 <= i < v && 0 <= k < |adj[i]| ==> EdgeAt(adj[i][k], i, v)
  }

  class Graph {
    const V: int
    var adjList: array<seq<Edge>>

    ghost predicate Valid()
      reads this, adjList
    {
      adjList.Length == V && Lists(adjList[..], V)
    }

    /** `Graph(V)`: V nodes, every list empty. */
    constructor (V: int)
      requires V >= 0
      ensures Valid() && fresh(adjList) && this.V == V
      ensures forall i :: 0 <= i < V ==> adjList[i] == []
    {
      this.V := V;
      var lists := new seq<Edge>[V];
      for i := 0 to V
        invariant forall j :: 0 <= j < i ==> lists[j] == []
      {
        lists[i] := [];
      }
      adjList := lists;
    }

    /** The same edge goes at the end of the lists of both its ends (twice into one list for a loop). */
    method AddEdge(src: int, dest: int, cost: int, bandwidth: int)
      requires Valid() && 0 <= src < V && 0 <= dest < V
      modifies adjList
      ensures Valid()
      ensures src != dest ==>
        adjList[src] == old(adjList[src]) + [Edge(src, dest, cost, bandwidth)] &&
        adjList[dest] == old(adjList[dest]) + [Edge(src, dest, cost, bandwidth)]
      ensures src == dest ==>
        adjList[src] == old(adjList[src]) + [Edge(src, dest, cost, bandwidth), Edge(src, dest, cost, bandwidth)]
      ensures forall i :: 0 <= i < V && i != src && i != dest ==> adjList[i] == old(adjList[i])
    {
      var edge := Edge(src, dest, cost, bandwidth);
      adjList[src] := adjList[src] + [edge];
      adjList[dest] := adjList[dest] + [edge];
    }
  }

  // ------------------------------------------------------------ Kruskal

  /** The lists one after the other: the candidates `kruskalMST` collects. */
  function Flatten(adj: seq<seq<Edge>>): seq<Edge> {
    if adj == [] then [] else Flatten(adj[..|adj| - 1]) + adj[|adj| - 1]
  }

  /** Every edge of every list is a candidate, and every candidate comes from a list. */
  lemma {:induction false} FlattenMembers(adj: seq<seq<Edge>>)
    ensures forall i, k :: 0 <= i < |adj| && 0 <= k < |adj[i]| ==> adj[i][k] in Flatten(adj)
    ensures forall e :: e in Flatten(adj) ==> exists i, k :: 0 <= i < |adj| && 0 <= k < |adj[i]| && adj[i][k] == e
  {
    if adj != [] {
      var init := adj[..|adj| - 1];
      FlattenMembers(init);
      forall i, k | 0 <= i < |adj| && 0 <= k < |adj[i]|
        ensures adj[i][k] in Flatten(adj)
      {
        if i < |adj| - 1 {
          assert init[i][k] in Flatten(init);
        } else {
          assert Flatten(adj)[|Flatten(init)| + k] == adj[i][k];
        }
      }
      forall e | e in Flatten(adj)
        ensures exists i, k :: 0 <= i < |adj| && 0 <= k < |adj[i]| && adj[i][k] == e
      {
        if e in Flatten(init) {
          var i, k :| 0 <= i < |init| && 0 <= k < |init[i]| && init[i][k] == e;
          assert adj[i][k] == e;
        } else {
          assert e in adj[|adj| - 1];
        }
      }
    }
  }

  function Cost(e: Edge): int { e.cost }

  /** Both ends of the edge are in the same set of the labelling. */
  ghost predicate Joins(root: seq<int>, e: Edge) {
    0 <= e.src < |root| && 0 <= e.dest < |root| && root[e.src] == root[e.dest]
  }

  /** Raising the rank of a representative keeps the forest (the equal-roots case of `union`). */
  lemma RaiseRoot(parent: seq<int>, rank: seq<int>, root: seq<int>, bound: int, r: int)
    requires NC.Forest(parent, rank, root, bound) && 0 <= r < |root| && root[r] == r
    ensures NC.Forest(parent, rank[r := rank[r] + 1], root, if rank[r] + 1 > bound then rank[r] + 1 else bound)
  {
    var rk := rank[r := rank[r] + 1];
    var b := if rank[r] + 1 > bound then rank[r] + 1 else bound;
    forall z | 0 <= z < |root|
      ensures 0 <= parent[z] < |root| && 0 <= rk[z] <= b
      ensures parent[z] != z ==> rk[z] < rk[parent[z]] && rk[z] < rk[root[z]]
    {
      if parent[z] != z {
        assert z != r;
      }
    }
  }

  /**
   * `union(subsets, x, y)`: the two representatives of lower and higher
   * rank are linked as in `NetworkConnection`; when x and y already share
   * a representative, the third branch still runs and only raises its rank.
   */
  method Union(subsets: NC.UnionFind, x: int, y: int)
    requires subsets.Valid() && 0 <= x < |subsets.root| && 0 <= y < |subsets.root|
    modifies subsets, subsets.parent, subsets.rank
    ensures subsets.Valid() && subsets.parent == old(subsets.parent) && subsets.rank == old(subsets.rank)
    ensures subsets.root[x] == subsets.root[y]
    ensures old(subsets.root[x]) == old(subsets.root[y]) ==>
      subsets.root == old(subsets.root) &&
      subsets.rank[..] == old(subsets.rank[..])[old(subsets.root[x]) := old(subsets.rank[subsets.root[x]]) + 1]
    ensures old(subsets.root[x]) != old(subsets.root[y]) ==>
      NC.Merged(old(subsets.root), subsets.root, x, y) &&
      |NC.Labels(subsets.root)| == |NC.Labels(old(subsets.root))| - 1
  {
    ghost var root0 := subsets.root;
    var rootX, rootY := FindBoth(subsets, x, y);
    if rootX != rootY {
      ghost var a, b := subsets.LinkRoots(rootX, rootY);
      NC.UnionStep(root0, x, y, a, b);
    } else {
      RaiseRank(subsets, rootX);
    }
  }

  /** The two `find` calls that open `union`: they change links only, never a representative or a rank. */
  method FindBoth(subsets: NC.UnionFind, x: int, y: int) returns (rootX: int, rootY: int)
    requires subsets.Valid() && 0 <= x < |subsets.root| && 0 <= y < |subsets.root|
    modifies subsets.parent
    ensures subsets.Valid() && subsets.root == old(subsets.root) && subsets.rank[..] == old(subsets.rank[..])
    ensures rootX == subsets.root[x] && rootY == subsets.root[y]
  {
    rootX := subsets.Find(x);
    rootY := subsets.Find(y);
  }

  /** The third branch of `union` when `rootY == rootX`: the self-link is rewritten and the rank grows. */
  method RaiseRank(subsets: NC.UnionFind, r: int)
    requires subsets.Valid() && 0 <= r < |subsets.root| && subsets.root[r] == r
    modifies subsets, subsets.parent, subsets.rank
    ensures subsets.Valid() && subsets.parent == old(subsets.parent) && subsets.rank == old(subsets.rank)
    ensures subsets.root == old(subsets.root) && subsets.parent[..] == old(subsets.parent[..])
    ensures subsets.rank[..] == old(subsets.rank[..])[r := old(subsets.rank[r]) + 1]
  {
    ghost var P, R := subsets.parent[..], subsets.rank[..];
    RaiseRoot(P, R, subsets.root, subsets.bound, r);
    subsets.parent[r] := r;
    subsets.rank[r] := subsets.rank[r] + 1;
    assert subsets.parent[..] == P && subsets.rank[..] == R[r := R[r] + 1];
    subsets.bound := if subsets.rank[r] > subsets.bound then subsets.rank[r] else subsets.bound;
  }

  /** `result` takes the edges of `edges` at the strictly increasing positions `picks`. */
  ghost predicate Picked(edges: seq<Edge>, result: seq<Edge>, picks: seq<int>) {
    && |picks| == |result|
    && (forall k :: 0 <= k < |picks| ==> 0 <= picks[k] < |edges| && result[k] == edges[picks[k]])
    && (forall k, l :: 0 <= k < l < |picks| ==> picks[k] < picks[l])
  }

  /** No edge is taken twice. */
  ghost predicate Distinct(result: seq<Edge>) {
    forall k, l :: 0 <= k < l < |result| ==> result[k] != result[l]
  }

  /** Edges taken at increasing positions of a sorted list are sorted. */
  lemma PickedSorted(edges: seq<Edge>, result: seq<Edge>, picks: seq<int>)
    requires Picked(edges, result, picks) && StableSort.SortedBy(edges, Cost)
    ensures StableSort.SortedBy(result, Cost)
  {
    forall k, l | 0 <= k <= l < |result|
      ensures Cost(result[k]) <= Cost(result[l])
    {
      assert picks[k] <= picks[l];
    }
  }

  /** A labelling of a non-empty set of nodes has a representative. */
  lemma SomeLabel(root: seq<int>)
    requires NC.Labelling(root) && |root| > 0
    ensures |NC.Labels(root)| >= 1
  {
    NC.LabelIsRepresentative(root, 0);
  }

  /** Both ends of every edge are nodes. */
  predicate EndsIn(edges: seq<Edge>, v: int) {
    forall k :: 0 <= k < |edges| ==> 0 <= edges[k].src < v && 0 <= edges[k].dest < v
  }

  /**
   * One pass of the scan: the edge is taken exactly when its ends are in
   * different sets of p, and then q is p with those two sets merged;
   * otherwise nothing changes.
   */
  ghost predicate Step(p: seq<int>, e: Edge, took: bool, q: seq<int>) {
    && 0 <= e.src < |p| && 0 <= e.dest < |p|
    && if p[e.src] == p[e.dest] then !took && q == p else took && NC.Merged(p, q, e.src, e.dest)
  }

  /**
   * The scan went through the first |taken| edges in order, starting from
   * one set per node: taken[k] says whether edge k was added to the result
   * and parts[k] is the partition before it.
   */
  ghost predicate IsScanRun(edges: seq<Edge>, v: int, taken: seq<bool>, parts: seq<seq<int>>) {
    && v >= 0 && |parts| == |taken| + 1 && |taken| <= |edges|
    && parts[0] == NC.Singletons(v)
    && forall k :: 0 <= k < |taken| ==> Step(parts[k], edges[k], taken[k], parts[k + 1])
  }

  lemma RunExtend(edges: seq<Edge>, v: int, taken: seq<bool>, parts: seq<seq<int>>, took: bool, q: seq<int>)
    requires IsScanRun(edges, v, taken, parts) && |taken| < |edges|
    requires Step(parts[|taken|], edges[|taken|], took, q)
    ensures IsScanRun(edges, v, taken + [took], parts + [q])
  {
    var ts, ps := taken + [took], parts + [q];
    forall k | 0 <= k < |ts| ensures Step(ps[k], edges[k], ts[k], ps[k + 1]) {
      if k < |taken| {
        assert ps[k] == parts[k] && ps[k + 1] == parts[k + 1] && ts[k] == taken[k];
      }
    }
  }

  /**
   * `nodes` is a path over edges taken before position k: its i-th step
   * goes along edge `via[i]`, an earlier taken edge, in either direction.
   */
  ghost predicate EarlierPath(edges: seq<Edge>, taken: seq<bool>, k: int, nodes: seq<int>, via: seq<int>) {
    && |nodes| == |via| + 1 && k <= |taken| <= |edges|
    && forall i :: 0 <= i < |via| ==>
         0 <= via[i] < k && taken[via[i]] &&
         ((edges[via[i]].src == nodes[i] && edges[via[i]].dest == nodes[i + 1]) ||
          (edges[via[i]].dest == nodes[i] && edges[via[i]].src == nodes[i + 1]))
  }

  /** An edge taken at position j stays inside one set of every later partition. */
  lemma {:induction false} TakenStaysJoined(edges: seq<Edge>, v: int, taken: seq<bool>, parts: seq<seq<int>>, j: int, k: int)
    requires IsScanRun(edges, v, taken, parts) && 0 <= j < k <= |taken| && taken[j]
    ensures Joins(parts[k], edges[j]) && |parts[k]| == |parts[j]|
  {
    if k == j + 1 {
      assert Step(parts[j], edges[j], taken[j], parts[j + 1]);
    } else {
      TakenStaysJoined(edges, v, taken, parts, j, k - 1);
      var e := edges[k - 1];
      assert Step(parts[k - 1], e, taken[k - 1], parts[k]);
      if taken[k - 1] {
        NC.MergedKeepsJoined(parts[k - 1], parts[k], e.src, e.dest, edges[j].src, edges[j].dest);
      }
    }
  }

  /** Along a path of edges that each lie inside one set, the whole path lies in one set. */
  lemma {:induction false} PathInOneSet(edges: seq<Edge>, taken: seq<bool>, k: int, nodes: seq<int>, via: seq<int>, root: seq<int>)
    requires EarlierPath(edges, taken, k, nodes, via)
    requires forall i :: 0 <= i < |via| ==> Joins(root, edges[via[i]])
    requires 0 <= nodes[0] < |root|
    ensures 0 <= nodes[|via|] < |root| && root[nodes[0]] == root[nodes[|via|]]
  {
    if |via| > 0 {
      var n := |via| - 1;
      PathInOneSet(edges, taken, k, nodes[..n + 1], via[..n], root);
      assert Joins(root, edges[via[n]]);
    }
  }

  /**
   * The scan never closes a cycle: the two ends of an edge it takes are not
   * joined by any path of edges it took earlier.
   */
  lemma NoCycle(edges: seq<Edge>, v: int, taken: seq<bool>, parts: seq<seq<int>>, k: int, nodes: seq<int>, via: seq<int>)
    requires IsScanRun(edges, v, taken, parts) && 0 <= k < |taken| && taken[k]
    requires EarlierPath(edges, taken, k, nodes, via)
    ensures !(nodes[0] == edges[k].src && nodes[|via|] == edges[k].dest)
  {
    assert Step(parts[k], edges[k], taken[k], parts[k + 1]);
    if nodes[0] == edges[k].src && nodes[|via|] == edges[k].dest {
      forall i | 0 <= i < |via| ensures Joins(parts[k], edges[via[i]]) {
        TakenStaysJoined(edges, v, taken, parts, via[i], k);
      }
      PathInOneSet(edges, taken, k, nodes, via, parts[k]);
    }
  }

  /**
   * What the scan of `kruskalMST` keeps after `idx` sorted edges: the run
   * so far is a Kruskal trace ending at `root`; `result` picks exactly the
   * edges the trace took, no edge twice; every edge seen so far, and every
   * pick, has its ends in one set.
   */
  ghost predicate Scanned(edges: seq<Edge>, v: int, idx: int, root: seq<int>, result: seq<Edge>, picks: seq<int>,
                          taken: seq<bool>, parts: seq<seq<int>>) {
    && 0 <= idx <= |edges| && EndsIn(edges, v)
    && IsScanRun(edges, v, taken, parts) && |taken| == idx && parts[idx] == root
    && (forall k :: 0 <= k < idx ==> (taken[k] <==> k in picks))
    && NC.Labelling(root) && |root| == v
    && Picked(edges, result, picks) && (forall k :: 0 <= k < |picks| ==> picks[k] < idx)
    && Distinct(result)
    && |result| + |NC.Labels(root)| == v
    && (forall k :: 0 <= k < |result| ==> Joins(root, result[k]))
    && (forall k :: 0 <= k < idx ==> Joins(root, edges[k]))
  }

  lemma ScanStart(edges: seq<Edge>, v: int)
    requires EndsIn(edges, v) && v >= 0
    ensures Scanned(edges, v, 0, NC.Singletons(v), [], [], [], [NC.Singletons(v)])
  {
    NC.SingletonLabels(v);
  }

  /** An edge whose ends are already in one set is passed over. */
  lemma ScanSkip(edges: seq<Edge>, v: int, idx: int, root: seq<int>, result: seq<Edge>, picks: seq<int>,
                 taken: seq<bool>, parts: seq<seq<int>>)
    requires Scanned(edges, v, idx, root, result, picks, taken, parts) && idx < |edges|
    requires root[edges[idx].src] == root[edges[idx].dest]
    ensures Scanned(edges, v, idx + 1, root, result, picks, taken + [false], parts + [root])
  {
    RunExtend(edges, v, taken, parts, false, root);
    forall k | 0 <= k < |picks| ensures picks[k] != idx { }
  }

  /** An edge between two sets is taken and the two sets merged. */
  lemma ScanTake(edges: seq<Edge>, v: int, idx: int, p: seq<int>, q: seq<int>, result: seq<Edge>, picks: seq<int>,
                 taken: seq<bool>, parts: seq<seq<int>>)
    requires Scanned(edges, v, idx, p, result, picks, taken, parts) && idx < |edges|
    requires p[edges[idx].src] != p[edges[idx].dest]
    requires NC.Labelling(q) && NC.Merged(p, q, p[edges[idx].src], p[edges[idx].dest])
    requires |NC.Labels(q)| == |NC.Labels(p)| - 1
    ensures Scanned(edges, v, idx + 1, q, result + [edges[idx]], picks + [idx], taken + [true], parts + [q])
  {
    var e := edges[idx];
    var r1, r2 := p[e.src], p[e.dest];
    var res := result + [e];
    assert p[e.src] == p[r1] && p[e.dest] == p[r2];
    assert NC.Merged(p, q, e.src, e.dest);
    RunExtend(edges, v, taken, parts, true, q);
    forall k | 0 <= k < |result| ensures result[k] != e {
      assert Joins(p, result[k]);
    }
    forall k | 0 <= k < idx ensures Joins(q, edges[k]) {
      assert Joins(p, edges[k]);
      NC.MergedKeepsJoined(p, q, r1, r2, edges[k].src, edges[k].dest);
    }
    forall k | 0 <= k < |res| ensures Joins(q, res[k]) {
      if k < |result| {
        assert Joins(p, result[k]);
        NC.MergedKeepsJoined(p, q, r1, r2, result[k].src, result[k].dest);
      }
    }
    forall k | 0 <= k < idx + 1 ensures (taken + [true])[k] <==> k in picks + [idx] {
      if k < idx {
        assert k in picks + [idx] <==> k in picks;
      }
    }
  }

  /** The end of the scan: the picks are sorted and, with V >= 1, number at most V - 1. */
  lemma ScanEnd(edges: seq<Edge>, v: int, root: seq<int>, result: seq<Edge>, picks: seq<int>,
                taken: seq<bool>, parts: seq<seq<int>>)
    requires Scanned(edges, v, |edges|, root, result, picks, taken, parts) && StableSort.SortedBy(edges, Cost)
    ensures StableSort.SortedBy(result, Cost)
    ensures forall e :: e in multiset(edges) ==> Joins(root, e)
    ensures v >= 1 ==> |result| <= v - 1
  {
    PickedSorted(edges, result, picks);
    if v >= 1 {
      SomeLabel(root);
    }
    forall e | e in multiset(edges) ensures Joins(root, e) {
      assert e in edges;
      var k :| 0 <= k < |edges| && edges[k] == e;
    }
  }

  /** Every edge of every list is in the multiset of the candidates. */
  lemma ListsJoined(adj: seq<seq<Edge>>, edges: seq<Edge>, root: seq<int>)
    requires multiset(edges) == multiset(Flatten(adj))
    requires forall e :: e in multiset(edges) ==> Joins(root, e)
    ensures forall i, k :: 0 <= i < |adj| && 0 <= k < |adj[i]| ==> Joins(root, adj[i][k])
  {
    FlattenMembers(adj);
    forall i, k | 0 <= i < |adj| && 0 <= k < |adj[i]| ensures Joins(root, adj[i][k]) {
      assert adj[i][k] in Flatten(adj);
      assert adj[i][k] in multiset(Flatten(adj));
    }
  }

  /**
   * The edges of all lists sorted by cost, scanned once: an edge is added
   * to `result` exactly when its ends have different representatives, and
   * then their sets are united. The ghost `taken`/`parts` are that trace:
   * the partitions start as singletons and each taken edge merges the two
   * different sets of its ends, so no result edge closes a cycle of
   * earlier result edges. `root` is the final partition. The result is a
   * subsequence of the sorted edges, so sorted by cost; no edge is taken
   * twice; at the end every edge of the graph joins nodes of one set, and
   * since `|result|` plus the number of sets is V, with V >= 1 at most
   * V - 1 edges are taken.
   */
  method KruskalMST(graph: Graph)
    returns (result: seq<Edge>, ghost root: seq<int>, ghost picks: seq<int>, ghost taken: seq<bool>, ghost parts: seq<seq<int>>)
    requires graph.Valid()
    ensures IsScanRun(StableSort.SortBy(Flatten(graph.adjList[..]), Cost), graph.V, taken, parts)
    ensures |taken| == |Flatten(graph.adjList[..])| && root == parts[|taken|]
    ensures forall k :: 0 <= k < |taken| ==> (taken[k] <==> k in picks)
    ensures Picked(StableSort.SortBy(Flatten(graph.adjList[..]), Cost), result, picks)
    ensures StableSort.SortedBy(result, Cost) && Distinct(result)
    ensures NC.Labelling(root) && |root| == graph.V
    ensures |result| + |NC.Labels(root)| == graph.V
    ensures forall k :: 0 <= k < |result| ==> Joins(root, result[k])
    ensures forall i, k :: 0 <= i < graph.V && 0 <= k < |graph.adjList[i]| ==> Joins(root, graph.adjList[i][k])
    ensures graph.V >= 1 ==> |result| <= graph.V - 1
  {
    var candidates := [];
    for i := 0 to graph.V
      invariant candidates == Flatten(graph.adjList[..i])
    {
      assert graph.adjList[..i + 1][..i] == graph.adjList[..i];
      candidates := candidates + graph.adjList[i];
    }
    assert graph.adjList[..graph.V] == graph.adjList[..];
    var edges := StableSort.SortBy(candidates, Cost);
    CandidatesInRange(graph.adjList[..], graph.V, edges);
    result, root, picks, taken, parts := ScanEdges(edges, graph.V);
    ScanEnd(edges, graph.V, root, result, picks, taken, parts);
    ListsJoined(graph.adjList[..], edges, root);
  }

  /**
   * The subsets and the scan of `kruskalMST`: one singleton set per node,
   * then each sorted edge in turn, taken and its ends' sets united when
   * `find` gives its ends different representatives.
   */
  method ScanEdges(edges: seq<Edge>, v: int)
    returns (result: seq<Edge>, ghost root: seq<int>, ghost picks: seq<int>, ghost taken: seq<bool>, ghost parts: seq<seq<int>>)
    requires EndsIn(edges, v) && v >= 0
    ensures Scanned(edges, v, |edges|, root, result, picks, taken, parts)
  {
    var subsets := new NC.UnionFind(v);
    assert subsets.root == NC.Singletons(v);
    ScanStart(edges, v);
    result, picks, taken, parts := [], [], [], [NC.Singletons(v)];
    for idx := 0 to |edges|
      invariant subsets.Valid() && fresh(subsets) && fresh(subsets.parent) && fresh(subsets.rank)
      invariant Scanned(edges, v, idx, subsets.root, result, picks, taken, parts)
    {
      var edge := edges[idx];
      var root1 := subsets.Find(edge.src);
      var root2 := subsets.Find(edge.dest);
      if root1 != root2 {
        ghost var before := subsets.root;
        Union(subsets, root1, root2);
        ScanTake(edges, v, idx, before, subsets.root, result, picks, taken, parts);
        result := result + [edge];
        picks := picks + [idx];
        taken, parts := taken + [true], parts + [subsets.root];
      } else {
        ScanSkip(edges, v, idx, subsets.root, result, picks, taken, parts);
        taken, parts := taken + [false], parts + [subsets.root];
      }
    }
    root := subsets.root;
  }

  /** The sorted candidates are edges of the lists, so their ends are nodes. */
  lemma CandidatesInRange(adj: seq<seq<Edge>>, v: int, edges: seq<Edge>)
    requires Lists(adj, v) && multiset(edges) == multiset(Flatten(adj))
    ensures EndsIn(edges, v)
  {
    FlattenMembers(adj);
    forall k | 0 <= k < |edges|
      ensures 0 <= edges[k].src < v && 0 <= edges[k].dest < v
    {
      assert edges[k] in multiset(Flatten(adj));
      assert edges[k] in Flatten(adj);
      var i, j :| 0 <= i < |adj| && 0 <= j < |adj[i]| && adj[i][j] == edges[k];
      assert EdgeAt(adj[i][j], i, v);
    }
  }

  // ------------------------------------------------------------ Dijkstra

  /** The far end of an edge at u: `edge.src == u ? edge.dest : edge.src`. */
  function Other(e: Edge, u: int): int {
    if e.src == u then e.dest else e.src
  }

  predicate NonNegative(adj: seq<seq<Edge>>) {
    forall i, k :: 0 <= i < |adj| && 0 <= k < |adj[i]| ==> adj[i][k].bandwidth >= 0
  }

  /** The total bandwidth of a list of edges: the length of a walk over them. */
  function Weight(es: seq<Edge>): int {
    if es == [] then 0 else Weight(es[..|es| - 1]) + es[|es| - 1].bandwidth
  }

  /** The nodes p and the edges es form a walk from s to t: edge k leaves p[k] for p[k + 1]. */
  ghost predicate Walk(adj: seq<seq<Edge>>, p: seq<int>, es: seq<Edge>, s: int, t: int) {
    && |p| == |es| + 1 && p[0] == s && p[|es|] == t
    && (forall k :: 0 <= k < |p| ==> 0 <= p[k] < |adj|)
    && (forall k :: 0 <= k < |es| ==> es[k] in adj[p[k]] && Other(es[k], p[k]) == p[k + 1])
  }

  /** No edge at u offers its far end a shorter distance through u. */
  ghost predicate Relaxed(adj: seq<seq<Edge>>, dist: seq<int>, u: int)
    requires Lists(adj, |dist|) && 0 <= u < |dist|
  {
    forall k :: 0 <= k < |adj[u]| ==> dist[Other(adj[u][k], u)] <= dist[u] + adj[u][k].bandwidth
  }

  /** dist[src] is 0 and every distance lies between 0 and `Integer.MAX_VALUE` (unreached). */
  ghost predicate Bounds(dist: seq<int>, src: int) {
    0 <= src < |dist| && dist[src] == 0 && forall v :: 0 <= v < |dist| ==> 0 <= dist[v] <= IntMax
  }

  /** Every reached node has a walk from src whose weight is its distance. */
  ghost predicate Reach(adj: seq<seq<Edge>>, src: int, dist: seq<int>, via: seq<seq<int>>, hops: seq<seq<Edge>>) {
    && |via| == |dist| && |hops| == |dist|
    && forall v :: 0 <= v < |dist| && dist[v] < IntMax ==> Walk(adj, via[v], hops[v], src, v) && Weight(hops[v]) == dist[v]
  }

  /** The queue holds only reached nodes. */
  ghost predicate Entries(pq: multiset<(int, int)>, dist: seq<int>) {
    forall e :: e in pq ==> 0 <= e.0 < |dist| && dist[e.0] < IntMax
  }

  ghost predicate Queued(pq: multiset<(int, int)>, w: int) {
    exists e :: e in pq && e.0 == w
  }

  /** Every reached node other than u is still queued or has all its edges relaxed. */
  ghost predicate Waiting(adj: seq<seq<Edge>>, dist: seq<int>, pq: multiset<(int, int)>, u: int)
    requires Lists(adj, |dist|)
  {
    forall w :: 0 <= w < |dist| && dist[w] < IntMax && w != u ==> Queued(pq, w) || Relaxed(adj, dist, w)
  }

  /** The k first edges of u offer no shorter distance. */
  ghost predicate Prefix(adj: seq<seq<Edge>>, dist: seq<int>, u: int, k: int)
    requires Lists(adj, |dist|) && 0 <= u < |dist| && 0 <= k <= |adj[u]|
  {
    forall j :: 0 <= j < k ==> dist[Other(adj[u][j], u)] <= dist[u] + adj[u][j].bandwidth
  }

  /** Between polls: every reached node is still queued or has all its edges relaxed. */
  ghost predicate Frontier(adj: seq<seq<Edge>>, src: int, dist: seq<int>, pq: multiset<(int, int)>, via: seq<seq<int>>, hops: seq<seq<Edge>>) {
    && Lists(adj, |dist|) && NonNegative(adj) && Bounds(dist, src) && Reach(adj, src, dist, via, hops) && Entries(pq, dist)
    && Waiting(adj, dist, pq, -1)
  }

  /** While the k first edges of the polled node u are relaxed. */
  ghost predicate Relaxing(adj: seq<seq<Edge>>, src: int, dist: seq<int>, pq: multiset<(int, int)>, via: seq<seq<int>>, hops: seq<seq<Edge>>, u: int, k: int) {
    && Lists(adj, |dist|) && NonNegative(adj) && Bounds(dist, src) && Reach(adj, src, dist, via, hops) && Entries(pq, dist)
    && 0 <= u < |dist| && dist[u] < IntMax && 0 <= k <= |adj[u]|
    && Waiting(adj, dist, pq, u) && Prefix(adj, dist, u, k)
  }

  /** A non-empty queue has an entry of least distance: `poll` returns one such. */
  lemma MinEntry(pq: multiset<(int, int)>) returns (m: (int, int))
    requires |pq| > 0
    ensures m in pq && forall e :: e in pq ==> m.1 <= e.1
    decreases |pq|
  {
    var x :| x in pq;
    var rest := pq - multiset{x};
    assert |rest| == |pq| - 1;
    m := x;
    if |rest| > 0 {
      var r := MinEntry(rest);
      if r.1 < x.1 {
        m := r;
      }
    }
    forall e | e in pq ensures m.1 <= e.1 {
      if e != x {
        assert e in rest;
      }
    }
  }

  lemma DijkstraStart(adj: seq<seq<Edge>>, src: int, v: int)
    requires Lists(adj, v) && NonNegative(adj) && 0 <= src < v
    ensures Frontier(adj, src, seq(v, i => if i == src then 0 else IntMax), multiset{(src, 0)},
                     seq(v, i => [src]), seq(v, i => []))
  {
    var dist := seq(v, i => if i == src then 0 else IntMax);
    assert Walk(adj, [src], [], src, src);
    assert Queued(multiset{(src, 0)}, src);
  }

  /** Polling u: every other reached node keeps its state; u's edges are next. */
  lemma PollStep(adj: seq<seq<Edge>>, src: int, dist: seq<int>, pq: multiset<(int, int)>, via: seq<seq<int>>, hops: seq<seq<Edge>>, curr: (int, int))
    requires Frontier(adj, src, dist, pq, via, hops) && curr in pq
    ensures Relaxing(adj, src, dist, pq - multiset{curr}, via, hops, curr.0, 0)
  {
    var rest := pq - multiset{curr};
    forall w | 0 <= w < |dist| && dist[w] < IntMax && w != curr.0 && Queued(pq, w)
      ensures Queued(rest, w)
    {
      var e :| e in pq && e.0 == w;
      assert e in rest;
    }
  }

  /** An edge that offers no shorter distance changes nothing. */
  lemma RelaxSkip(adj: seq<seq<Edge>>, src: int, dist: seq<int>, pq: multiset<(int, int)>, via: seq<seq<int>>, hops: seq<seq<Edge>>, u: int, k: int)
    requires Relaxing(adj, src, dist, pq, via, hops, u, k) && k < |adj[u]|
    requires dist[Other(adj[u][k], u)] <= dist[u] + adj[u][k].bandwidth
    ensures Relaxing(adj, src, dist, pq, via, hops, u, k + 1)
  {
  }

  /** Lowering dist[v] to x: walks of the other nodes stay, and v's is u's walk extended by e. */
  lemma ReachLower(adj: seq<seq<Edge>>, src: int, dist: seq<int>, via: seq<seq<int>>, hops: seq<seq<Edge>>, u: int, e: Edge,
                   dist': seq<int>, via': seq<seq<int>>, hops': seq<seq<Edge>>)
    requires Reach(adj, src, dist, via, hops) && |adj| == |dist| && 0 <= u < |dist| && dist[u] < IntMax
    requires e in adj[u] && 0 <= Other(e, u) < |dist| && dist[u] + e.bandwidth < IntMax
    requires var v := Other(e, u);
      dist' == dist[v := dist[u] + e.bandwidth] && via' == via[v := via[u] + [v]] && hops' == hops[v := hops[u] + [e]]
    ensures Reach(adj, src, dist', via', hops')
  {
    var v := Other(e, u);
    var ps, es := via[u] + [v], hops[u] + [e];
    assert Walk(adj, via[u], hops[u], src, u);
    assert Walk(adj, ps, es, src, v) by {
      forall k | 0 <= k < |es| ensures es[k] in adj[ps[k]] && Other(es[k], ps[k]) == ps[k + 1] {
        if k < |hops[u]| {
          assert es[k] == hops[u][k] && ps[k] == via[u][k] && ps[k + 1] == via[u][k + 1];
        }
      }
    }
    assert es[..|hops[u]|] == hops[u];
  }

  /** Lowering dist[v] to x and queueing (v, x) keeps the other reached nodes queued or relaxed. */
  lemma WaitingLower(adj: seq<seq<Edge>>, dist: seq<int>, pq: multiset<(int, int)>, u: int, v: int, x: int,
                     d: seq<int>, q: multiset<(int, int)>)
    requires Lists(adj, |dist|) && Waiting(adj, dist, pq, u) && 0 <= v < |dist| && x < dist[v]
    requires d == dist[v := x] && q == pq + multiset{(v, x)}
    ensures Waiting(adj, d, q, u)
  {
    forall w | 0 <= w < |d| && d[w] < IntMax && w != u
      ensures Queued(q, w) || Relaxed(adj, d, w)
    {
      if w == v {
        assert (v, x) in q;
      } else if Queued(pq, w) {
        var f :| f in pq && f.0 == w;
        assert f in q;
      } else {
        assert Relaxed(adj, dist, w);
        forall j | 0 <= j < |adj[w]| ensures d[Other(adj[w][j], w)] <= d[w] + adj[w][j].bandwidth {
          assert dist[Other(adj[w][j], w)] <= dist[w] + adj[w][j].bandwidth;
        }
      }
    }
  }

  /** Lowering the far end of edge k to going through u extends the relaxed prefix of u's edges. */
  lemma PrefixLower(adj: seq<seq<Edge>>, dist: seq<int>, u: int, k: int, d: seq<int>)
    requires Lists(adj, |dist|) && 0 <= u < |dist| && 0 <= k < |adj[u]| && Prefix(adj, dist, u, k)
    requires Other(adj[u][k], u) != u && dist[u] + adj[u][k].bandwidth < dist[Other(adj[u][k], u)]
    requires d == dist[Other(adj[u][k], u) := dist[u] + adj[u][k].bandwidth]
    ensures |d| == |dist| && Prefix(adj, d, u, k + 1)
  {
    forall j | 0 <= j < k + 1 ensures d[Other(adj[u][j], u)] <= d[u] + adj[u][j].bandwidth {
      if j < k {
        assert dist[Other(adj[u][j], u)] <= dist[u] + adj[u][j].bandwidth;
      }
    }
  }

  /** Lowering an unreached or reached node's distance to x >= 0 keeps the bounds. */
  lemma BoundsLower(dist: seq<int>, src: int, v: int, x: int, d: seq<int>)
    requires Bounds(dist, src) && 0 <= v < |dist| && 0 <= x < dist[v] && d == dist[v := x]
    ensures Bounds(d, src)
  {
  }

  /** Queueing (v, x) with x below `Integer.MAX_VALUE` keeps the queue to reached nodes. */
  lemma EntriesLower(pq: multiset<(int, int)>, dist: seq<int>, v: int, x: int, q: multiset<(int, int)>, d: seq<int>)
    requires Entries(pq, dist) && 0 <= v < |dist| && x < dist[v] && dist[v] <= IntMax
    requires q == pq + multiset{(v, x)} && d == dist[v := x]
    ensures Entries(q, d)
  {
    forall e | e in q ensures 0 <= e.0 < |d| && d[e.0] < IntMax {
      if e != (v, x) {
        assert e in pq;
      }
    }
  }

  /** An edge that offers a shorter distance lowers it, queues the far end and extends u's walk to it. */
  lemma RelaxUpdate(adj: seq<seq<Edge>>, src: int, dist: seq<int>, pq: multiset<(int, int)>, via: seq<seq<int>>, hops: seq<seq<Edge>>, u: int, k: int,
                    dist': seq<int>, pq': multiset<(int, int)>, via': seq<seq<int>>, hops': seq<seq<Edge>>)
    requires Relaxing(adj, src, dist, pq, via, hops, u, k) && k < |adj[u]|
    requires dist[u] + adj[u][k].bandwidth < dist[Other(adj[u][k], u)]
    requires var v, x := Other(adj[u][k], u), dist[u] + adj[u][k].bandwidth;
      dist' == dist[v := x] && pq' == pq + multiset{(v, x)} && via' == via[v := via[u] + [v]] && hops' == hops[v := hops[u] + [adj[u][k]]]
    ensures Relaxing(adj, src, dist', pq', via', hops', u, k + 1)
  {
    var e := adj[u][k];
    var v := Other(e, u);
    var x := dist[u] + e.bandwidth;
    assert EdgeAt(e, u, |dist|) && e.bandwidth >= 0 && e in adj[u];
    BoundsLower(dist, src, v, x, dist');
    EntriesLower(pq, dist, v, x, pq', dist');
    ReachLower(adj, src, dist, via, hops, u, e, dist', via', hops');
    WaitingLower(adj, dist, pq, u, v, x, dist', pq');
    PrefixLower(adj, dist, u, k, dist');
    assert dist'[u] == dist[u];
  }

  /** All edges of u relaxed: back between polls. */
  lemma RelaxEnd(adj: seq<seq<Edge>>, src: int, dist: seq<int>, pq: multiset<(int, int)>, via: seq<seq<int>>, hops: seq<seq<Edge>>, u: int)
    requires 0 <= u < |adj| && Relaxing(adj, src, dist, pq, via, hops, u, |adj[u]|)
    ensures Frontier(adj, src, dist, pq, via, hops)
  {
    assert Relaxed(adj, dist, u);
  }

  /**
   * With every reached node relaxed, no walk from src to t is lighter than
   * dist[t] (an unreached t, at `Integer.MAX_VALUE`, has only walks at
   * least that heavy).
   */
  lemma {:induction false} WalkBound(adj: seq<seq<Edge>>, src: int, dist: seq<int>, p: seq<int>, es: seq<Edge>, t: int)
    requires Lists(adj, |dist|) && NonNegative(adj) && Bounds(dist, src)
    requires forall w :: 0 <= w < |dist| && dist[w] < IntMax ==> Relaxed(adj, dist, w)
    requires Walk(adj, p, es, src, t)
    ensures dist[t] <= Weight(es)
    decreases |es|
  {
    if es != [] {
      var n := |es| - 1;
      var u := p[n];
      assert Walk(adj, p[..n + 1], es[..n], src, u);
      WalkBound(adj, src, dist, p[..n + 1], es[..n], u);
      assert es[n] in adj[u];
      var j :| 0 <= j < |adj[u]| && adj[u][j] == es[n];
      if dist[u] < IntMax {
        assert Relaxed(adj, dist, u);
      }
    }
  }

  /** Total of the distances: it falls whenever a distance is lowered. */
  function Total(s: seq<int>): int {
    if s == [] then 0 else Total(s[..|s| - 1]) + s[|s| - 1]
  }

  /** b lowers some distances of a and raises none. */
  ghost predicate Below(a: seq<int>, b: seq<int>) {
    |b| == |a| && (forall i :: 0 <= i < |a| ==> b[i] <= a[i]) && b != a
  }

  lemma BelowLower(a: seq<int>, v: int, x: int)
    requires 0 <= v < |a| && x < a[v]
    ensures Below(a, a[v := x])
  {
    assert a[v := x][v] != a[v];
  }

  lemma BelowTrans(a: seq<int>, b: seq<int>, c: seq<int>)
    requires Below(a, b) && Below(b, c)
    ensures Below(a, c)
  {
  }

  lemma {:induction false} TotalAtMost(a: seq<int>, b: seq<int>)
    requires |b| == |a| && forall i :: 0 <= i < |a| ==> b[i] <= a[i]
    ensures Total(b) <= Total(a)
    decreases |a|
  {
    if a != [] {
      TotalAtMost(a[..|a| - 1], b[..|b| - 1]);
    }
  }

  /** Lowering some distances lowers their total: the measure the polling loop decreases. */
  lemma {:induction false} TotalBelow(a: seq<int>, b: seq<int>)
    requires Below(a, b)
    ensures Total(b) < Total(a)
    decreases |a|
  {
    var n := |a| - 1;
    if b[n] == a[n] {
      TotalBelow(a[..n], b[..n]);
    } else {
      TotalAtMost(a[..n], b[..n]);
    }
  }

  lemma {:induction false} TotalNonNegative(s: seq<int>)
    requires forall v :: 0 <= v < |s| ==> s[v] >= 0
    ensures Total(s) >= 0
    decreases |s|
  {
    if s != [] {
      TotalNonNegative(s[..|s| - 1]);
    }
  }

  /**
   * The inner loop of `shortestPath`: each edge of the polled node u in
   * turn lowers its far end's distance when going through u is shorter,
   * and then queues the far end with its new distance. Either nothing
   * changes or the total of the distances falls.
   */
  method RelaxEdges(graph: Graph, d: array<int>, ghost src: int, u: int, pq0: multiset<(int, int)>,
                    ghost via0: seq<seq<int>>, ghost hops0: seq<seq<Edge>>)
    returns (pq: multiset<(int, int)>, ghost via: seq<seq<int>>, ghost hops: seq<seq<Edge>>)
    requires graph.Valid() && d.Length == graph.V && 0 <= u < graph.V
    requires Relaxing(graph.adjList[..], src, d[..], pq0, via0, hops0, u, 0)
    modifies d
    ensures Relaxing(graph.adjList[..], src, d[..], pq, via, hops, u, |graph.adjList[u]|)
    ensures (d[..] == old(d[..]) && pq == pq0) || Below(old(d[..]), d[..])
  {
    ghost var adj := graph.adjList[..];
    ghost var start := d[..];
    pq, via, hops := pq0, via0, hops0;
    for k := 0 to |graph.adjList[u]|
      invariant Relaxing(adj, src, d[..], pq, via, hops, u, k)
      invariant (d[..] == start && pq == pq0) || Below(start, d[..])
    {
      ghost var before := d[..];
      pq, via, hops := Relax(graph, adj, d, src, u, k, pq, via, hops);
      if before != start && d[..] != before {
        BelowTrans(start, before, d[..]);
      }
    }
  }

  /**
   * One edge of the polled node u: `dist[u] + weight < dist[v]` lowers
   * dist[v] to `dist[u] + weight` and queues v with it; otherwise nothing
   * changes.
   */
  method Relax(graph: Graph, ghost adj: seq<seq<Edge>>, d: array<int>, ghost src: int, u: int, k: int,
               pq0: multiset<(int, int)>, ghost via0: seq<seq<int>>, ghost hops0: seq<seq<Edge>>)
    returns (pq: multiset<(int, int)>, ghost via: seq<seq<int>>, ghost hops: seq<seq<Edge>>)
    requires graph.adjList.Length == |adj| && adj == graph.adjList[..] && d.Length == |adj|
    requires Relaxing(adj, src, d[..], pq0, via0, hops0, u, k) && k < |adj[u]|
    modifies d
    ensures Relaxing(adj, src, d[..], pq, via, hops, u, k + 1)
    ensures (d[..] == old(d[..]) && pq == pq0) || Below(old(d[..]), d[..])
  {
    var edge := graph.adjList[u][k];
    var v := if edge.src == u then edge.dest else edge.src;
    var weight := edge.bandwidth;
    assert edge == adj[u][k] && v == Other(adj[u][k], u);
    pq, via, hops := pq0, via0, hops0;
    if d[u] + weight < d[v] {
      ghost var before, pq1, via1, hops1 := d[..], pq, via, hops;
      ghost var x := d[u] + weight;
      BelowLower(before, v, x);
      d[v] := d[u] + weight;
      assert d[..] == before[v := x];
      pq := pq + multiset{(v, d[v])};
      via, hops := via[v := via[u] + [v]], hops[v := hops[u] + [edge]];
      RelaxUpdate(adj, src, before, pq1, via1, hops1, u, k, d[..], pq, via, hops);
    } else {
      RelaxSkip(adj, src, d[..], pq, via, hops, u, k);
    }
  }

  /**
   * `shortestPath(graph, src)`: Dijkstra's algorithm with the bandwidth of
   * an edge as its length. Distances start at `Integer.MAX_VALUE`, src at
   * 0; the queue is polled by least queued distance, and each edge of the
   * polled node lowers the far end's distance when going through the
   * polled node is shorter, queueing it again. At the end dist[src] is 0,
   * every reached node's distance is the weight of a walk from src to it,
   * and no walk from src is lighter than its end's distance: dist holds
   * the shortest distances, and `Integer.MAX_VALUE` exactly where no walk
   * is that light.
   */
  method ShortestPath(graph: Graph, src: int) returns (dist: seq<int>, ghost via: seq<seq<int>>, ghost hops: seq<seq<Edge>>)
    requires graph.Valid() && 0 <= src < graph.V && NonNegative(graph.adjList[..])
    ensures |dist| == graph.V && |via| == graph.V && |hops| == graph.V && dist[src] == 0
    ensures forall v :: 0 <= v < |dist| ==> 0 <= dist[v] <= IntMax
    ensures forall v :: 0 <= v < |dist| && dist[v] < IntMax ==>
      Walk(graph.adjList[..], via[v], hops[v], src, v) && Weight(hops[v]) == dist[v]
    ensures forall t, p, es :: Walk(graph.adjList[..], p, es, src, t) ==> dist[t] <= Weight(es)
  {
    ghost var adj := graph.adjList[..];
    var d := new int[graph.V](i => IntMax);
    d[src] := 0;
    var pq := multiset{(src, 0)};
    via, hops := seq(graph.V, i => [src]), seq(graph.V, i => []);
    assert d[..] == seq(graph.V, i => if i == src then 0 else IntMax);
    DijkstraStart(adj, src, graph.V);
    TotalNonNegative(d[..]);
    while |pq| > 0
      invariant d.Length == graph.V && Frontier(adj, src, d[..], pq, via, hops) && Total(d[..]) >= 0
      decreases Total(d[..]), |pq|
    {
      ghost var least := MinEntry(pq);
      var curr :| curr in pq && forall e :: e in pq ==> curr.1 <= e.1;
      PollStep(adj, src, d[..], pq, via, hops, curr);
      pq := pq - multiset{curr};
      var u := curr.0;
      ghost var start := d[..];
      pq, via, hops := RelaxEdges(graph, d, src, u, pq, via, hops);
      if d[..] != start {
        TotalBelow(start, d[..]);
      }
      RelaxEnd(adj, src, d[..], pq, via, hops, u);
      TotalNonNegative(d[..]);
    }
    dist := d[..];
    forall t, p, es | Walk(adj, p, es, src, t) ensures dist[t] <= Weight(es) {
      WalkBound(adj, src, dist, p, es, t);
    }
  }
}
