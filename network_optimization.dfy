/**
 * `NetworkGraph` of `NetworkOptimizationGUI`: nodes and directed edges kept
 * in two lists, a search for the path of largest bottleneck bandwidth, and
 * the cost and latency totals over all edges.
 *
 * Nodes are objects compared by identity, as `HashMap` and `==` compare
 * them in the source; edges are never changed after construction and are
 * values here. The priority queue of the search orders nodes by a key that
 * changes while they sit in it, so a poll is modelled as taking any queued
 * node.
 */
module NetworkOptimization {

  import NC = NetworkConnection

  const IntMin: int := -0x8000_0000
  const IntMax: int := 0x7fff_ffff

  /** `Node(id, x, y)`: a server or client and where it is drawn. */
  class Node {
    const id: string
    const x: int
    const y: int

    constructor (id: string, x: int, y: int)
      ensures this.id == id && this.x == x && this.y == y
    {
      this.id := id;
      this.x := x;
      this.y := y;
    }
  }

  /** A connection from `source` to `destination`. */
  datatype Edge = Edge(source: Node, destination: Node, cost: int, bandwidth: int)

  function Min(a: int, b: int): int { if a <= b then a else b }

  // ------------------------------------------------------------ totals

  /** The sum of the costs of the edges. */
  function Cost(edges: seq<Edge>): int {
    if edges == [] then 0 else Cost(edges[..|edges| - 1]) + edges[|edges| - 1].cost
  }

  /**
   * `1000 / bandwidth` with Java's division, which rounds toward zero; the
   * dividend is positive, so it agrees with Dafny's division. For a
   * positive bandwidth it is the largest l with `l * bandwidth <= 1000`.
   */
  function Latency(bandwidth: int): (l: int)
    requires bandwidth != 0
    ensures bandwidth > 0 ==> 0 <= l <= 1000 && l * bandwidth <= 1000 < (l + 1) * bandwidth
    ensures bandwidth < 0 ==> l == -(1000 / -bandwidth)
  {
    1000 / bandwidth
  }

  /** The sum of the latencies of the edges. */
  function TotalLatency(edges: seq<Edge>): int
    requires forall e :: e in edges ==> e.bandwidth != 0
  {
    if edges == [] then 0 else TotalLatency(edges[..|edges| - 1]) + Latency(edges[|edges| - 1].bandwidth)
  }

  /** Adding edges adds their cost: the total over a concatenation. */
  lemma {:induction false} CostAppend(a: seq<Edge>, b: seq<Edge>)
    ensures Cost(a + b) == Cost(a) + Cost(b)
    decreases |b|
  {
    if b == [] {
      assert a + b == a;
    } else {
      var n := |b| - 1;
      assert (a + b)[..|a + b| - 1] == a + b[..n];
      assert (a + b)[|a + b| - 1] == b[n];
      CostAppend(a, b[..n]);
    }
  }

  lemma {:induction false} LatencyAppend(a: seq<Edge>, b: seq<Edge>)
    requires forall e :: e in a + b ==> e.bandwidth != 0
    ensures TotalLatency(a + b) == TotalLatency(a) + TotalLatency(b)
    decreases |b|
  {
    if b == [] {
      assert a + b == a;
    } else {
      var n := |b| - 1;
      assert (a + b)[..|a + b| - 1] == a + b[..n];
      assert (a + b)[|a + b| - 1] == b[n];
      LatencyAppend(a, b[..n]);
    }
  }

  /** With every bandwidth positive, the total latency is between 0 and 1000 per edge. */
  lemma {:induction false} LatencyBounds(edges: seq<Edge>)
    requires forall e :: e in edges ==> e.bandwidth > 0
    ensures 0 <= TotalLatency(edges) <= 1000 * |edges|
  {
    if edges != [] {
      LatencyBounds(edges[..|edges| - 1]);
    }
  }

  // ------------------------------------------------------------ walks

  /** Edges p, followed in their direction, lead from s to t. */
  ghost predicate Walk(edges: seq<Edge>, p: seq<Edge>, s: Node, t: Node) {
    && (forall k :: 0 <= k < |p| ==> p[k] in edges)
    && (p == [] ==> s == t)
    && (p != [] ==> p[0].source == s && p[|p| - 1].destination == t)
    && (forall k :: 0 <= k < |p| - 1 ==> p[k].destination == p[k + 1].source)
  }

  /** The least bandwidth along the edges; `Integer.MAX_VALUE` for none. */
  function Bottleneck(p: seq<Edge>): int {
    if p == [] then IntMax else Min(Bottleneck(p[..|p| - 1]), p[|p| - 1].bandwidth)
  }

  // ------------------------------------------------------------ search state

  /**
   * What the search works over: the edges, the start node, the nodes with
   * a bandwidth entry (the graph's nodes and start) and the values a
   * bandwidth can take (the two extremes and the edges' bandwidths).
   */
  datatype Ctx = Ctx(edges: seq<Edge>, start: Node, keys: set<Node>, values: set<int>)

  ghost predicate CtxOk(c: Ctx, ks: seq<Node>) {
    && c.keys == (set n | n in ks) && c.start in c.keys
    && (forall e :: e in c.edges ==> e.destination in c.keys)
    && IntMin in c.values && IntMax in c.values
    && (forall e :: e in c.edges ==> e.bandwidth in c.values)
    && (forall v :: v in c.values ==> IntMin <= v <= IntMax)
  }

  /** previous[v] was set from an edge into v, with the order that keeps the links acyclic. */
  ghost predicate Link(c: Ctx, bw: map<Node, int>, prev: map<Node, Node>, through: map<Node, Edge>, stamp: map<Node, nat>, v: Node)
    requires v in prev
  {
    var u := prev[v];
    && v in bw && u in bw && v in stamp && u in stamp && u in c.keys && v in through
    && through[v] in c.edges && through[v].source == u && through[v].destination == v
    && through[v].bandwidth >= bw[v] && bw[u] >= bw[v] && bw[v] > IntMin
    && (bw[v] < bw[u] || stamp[u] < stamp[v])
  }

  /**
   * The maps of the search: every node of the graph and start has a
   * bandwidth among the possible values; start keeps the largest and no
   * predecessor; a node without predecessor other than start is still at
   * the smallest; every predecessor link is a `Link`.
   */
  ghost predicate Tracked(c: Ctx, bw: map<Node, int>, prev: map<Node, Node>, through: map<Node, Edge>, stamp: map<Node, nat>, clock: nat) {
    && bw.Keys == c.keys && stamp.Keys == c.keys && c.start in c.keys
    && (forall k :: k in bw ==> bw[k] in c.values)
    && bw[c.start] == IntMax && c.start !in prev
    && (forall k :: k in stamp ==> stamp[k] <= clock)
    && (forall k :: k in bw && k !in prev && k != c.start ==> bw[k] == IntMin)
    && (forall v :: v in prev ==> Link(c, bw, prev, through, stamp, v))
  }

  /** Every edge out of k offers its far end no larger bandwidth than it has. */
  ghost predicate Relaxed(edges: seq<Edge>, bw: map<Node, int>, k: Node)
    requires k in bw
  {
    forall e :: e in edges && e.source == k && e.destination in bw ==> bw[e.destination] >= Min(bw[k], e.bandwidth)
  }

  /** Every node other than `except` is queued or relaxed. */
  ghost predicate Waiting(c: Ctx, bw: map<Node, int>, queue: multiset<Node>, except: Node?) {
    && (forall q :: q in queue ==> q in c.keys)
    && forall k :: k in bw && k != except ==> k in queue || Relaxed(c.edges, bw, k)
  }

  /** The edges before index i that leave u offer their far ends nothing larger. */
  ghost predicate Prefix(c: Ctx, bw: map<Node, int>, u: Node, i: int)
    requires u in bw
  {
    forall j :: 0 <= j < i && j < |c.edges| && c.edges[j].source == u && c.edges[j].destination in bw ==>
      bw[c.edges[j].destination] >= Min(bw[u], c.edges[j].bandwidth)
  }

  /** bw2 raises some bandwidths of bw and lowers none. */
  ghost predicate Raised(bw: map<Node, int>, bw2: map<Node, int>) {
    && bw2.Keys == bw.Keys
    && (forall k :: k in bw ==> bw2[k] >= bw[k])
    && exists k :: k in bw && bw2[k] > bw[k]
  }

  // ------------------------------------------------------------ termination measure

  /** How many possible values lie above v. */
  ghost function Height(values: set<int>, v: int): nat {
    |set s | s in values && s > v|
  }

  lemma HeightAtMost(values: set<int>, v: int, w: int)
    requires v <= w
    ensures Height(values, w) <= Height(values, v)
  {
    var a, b := set s | s in values && s > w, set s | s in values && s > v;
    assert a <= b;
    NC.SubsetCard(a, b);
  }

  lemma HeightFalls(values: set<int>, v: int, w: int)
    requires v < w && w in values
    ensures Height(values, w) < Height(values, v)
  {
    var a, b := set s | s in values && s > w, set s | s in values && s > v;
    assert a <= b && w in b - a;
    NC.SubsetCard(a, b - {w});
    assert |b - {w}| == |b| - 1;
  }

  /** The heights of the nodes of ks added up: every raise lowers it. */
  ghost function Potential(values: set<int>, ks: seq<Node>, bw: map<Node, int>): nat {
    if ks == [] then 0
    else Potential(values, ks[..|ks| - 1], bw) + (if ks[|ks| - 1] in bw then Height(values, bw[ks[|ks| - 1]]) else 0)
  }

  lemma {:induction false} PotentialAtMost(values: set<int>, ks: seq<Node>, bw: map<Node, int>, bw2: map<Node, int>)
    requires bw2.Keys == bw.Keys && forall k :: k in bw ==> bw2[k] >= bw[k]
    ensures Potential(values, ks, bw2) <= Potential(values, ks, bw)
    decreases |ks|
  {
    if ks != [] {
      var n := |ks| - 1;
      PotentialAtMost(values, ks[..n], bw, bw2);
      if ks[n] in bw {
        HeightAtMost(values, bw[ks[n]], bw2[ks[n]]);
      }
    }
  }

  lemma {:induction false} PotentialFalls(values: set<int>, ks: seq<Node>, bw: map<Node, int>, bw2: map<Node, int>, k: Node)
    requires bw2.Keys == bw.Keys && forall x :: x in bw ==> bw2[x] >= bw[x]
    requires k in ks && k in bw && bw2[k] > bw[k] && bw2[k] in values
    ensures Potential(values, ks, bw2) < Potential(values, ks, bw)
    decreases |ks|
  {
    var n := |ks| - 1;
    if ks[n] == k {
      PotentialAtMost(values, ks[..n], bw, bw2);
      HeightFalls(values, bw[k], bw2[k]);
    } else {
      assert k in ks[..n];
      PotentialFalls(values, ks[..n], bw, bw2, k);
      if ks[n] in bw {
        HeightAtMost(values, bw[ks[n]], bw2[ks[n]]);
      }
    }
  }

  // ------------------------------------------------------------ search steps

  lemma SearchStart(c: Ctx, ks: seq<Node>, bw: map<Node, int>, stamp: map<Node, nat>)
    requires CtxOk(c, ks) && bw.Keys == c.keys && stamp.Keys == c.keys
    requires bw[c.start] == IntMax && forall k :: k in bw && k != c.start ==> bw[k] == IntMin
    requires forall k :: k in stamp ==> stamp[k] == 0
    ensures Tracked(c, bw, map[], map[], stamp, 0) && Waiting(c, bw, multiset{c.start}, null)
  {
    forall k | k in bw && k != c.start ensures Relaxed(c.edges, bw, k) {
      assert bw[k] == IntMin;
    }
  }

  /** Polling a queued node: every other node keeps being queued or relaxed. */
  lemma Poll(c: Ctx, bw: map<Node, int>, queue: multiset<Node>, u: Node)
    requires Waiting(c, bw, queue, null) && u in queue
    ensures Waiting(c, bw, queue - multiset{u}, u)
  {
    forall k | k in bw && k != u && k in queue ensures k in queue - multiset{u} {
    }
  }

  /** An edge that does not leave u, or offers nothing larger, changes nothing. */
  lemma Skip(c: Ctx, bw: map<Node, int>, u: Node, i: int)
    requires u in bw && 0 <= i < |c.edges| && Prefix(c, bw, u, i)
    requires c.edges[i].source == u && c.edges[i].destination in bw ==>
      Min(bw[u], c.edges[i].bandwidth) <= bw[c.edges[i].destination]
    ensures Prefix(c, bw, u, i + 1)
  {
  }

  /** Raising v from u keeps the maps tracked: v's new link is u, with a fresh stamp. */
  lemma TrackRaise(c: Ctx, ks: seq<Node>, bw: map<Node, int>, prev: map<Node, Node>, through: map<Node, Edge>, stamp: map<Node, nat>, clock: nat, u: Node, e: Edge,
                    bw': map<Node, int>, prev': map<Node, Node>, through': map<Node, Edge>, stamp': map<Node, nat>)
    requires CtxOk(c, ks) && Tracked(c, bw, prev, through, stamp, clock)
    requires u in bw && e in c.edges && e.source == u && Min(bw[u], e.bandwidth) > bw[e.destination]
    requires var v, nb := e.destination, Min(bw[u], e.bandwidth);
      bw' == bw[v := nb] && prev' == prev[v := u] && through' == through[v := e] && stamp' == stamp[v := clock + 1]
    ensures Tracked(c, bw', prev', through', stamp', clock + 1)
  {
    var v, nb := e.destination, Min(bw[u], e.bandwidth);
    assert v != c.start && v != u;
    assert nb in c.values;
    forall w | w in prev' ensures Link(c, bw', prev', through', stamp', w) {
      if w != v {
        assert Link(c, bw, prev, through, stamp, w);
      }
    }
  }

  /** Raising v from u: v is queued, every other node stays queued or relaxed. */
  lemma WaitRaise(c: Ctx, bw: map<Node, int>, queue: multiset<Node>, u: Node, v: Node, nb: int, bw': map<Node, int>, q': multiset<Node>)
    requires Waiting(c, bw, queue, u) && v in c.keys && v in bw && nb > bw[v]
    requires bw' == bw[v := nb] && q' == queue + multiset{v}
    ensures Waiting(c, bw', q', u)
  {
    forall k | k in bw' && k != u ensures k in q' || Relaxed(c.edges, bw', k) {
      if k != v && k !in queue {
        assert Relaxed(c.edges, bw, k);
      }
    }
  }

  /** Raising the far end of edge i to what u offers it extends the relaxed prefix. */
  lemma PrefixRaise(c: Ctx, bw: map<Node, int>, u: Node, i: int, bw': map<Node, int>)
    requires u in bw && 0 <= i < |c.edges| && Prefix(c, bw, u, i)
    requires c.edges[i].source == u && c.edges[i].destination in bw
    requires Min(bw[u], c.edges[i].bandwidth) > bw[c.edges[i].destination]
    requires bw' == bw[c.edges[i].destination := Min(bw[u], c.edges[i].bandwidth)]
    ensures Prefix(c, bw', u, i + 1)
  {
    var v := c.edges[i].destination;
    assert v != u;
  }

  /** The state of the loop over the edges out of u after i of them. */
  ghost predicate Scanning(c: Ctx, u: Node, bw0: map<Node, int>, q0: multiset<Node>, bw: map<Node, int>, prev: map<Node, Node>,
                           through: map<Node, Edge>, stamp: map<Node, nat>, clock: nat, queue: multiset<Node>, i: int)
  {
    && u in bw && Tracked(c, bw, prev, through, stamp, clock) && Waiting(c, bw, queue, u) && Prefix(c, bw, u, i)
    && ((bw == bw0 && queue == q0) || Raised(bw0, bw))
  }

  /** Edge i leaves u and offers its far end more: raising it keeps the loop's state. */
  lemma ScanRaise(c: Ctx, ks: seq<Node>, u: Node, bw0: map<Node, int>, q0: multiset<Node>, bw: map<Node, int>, prev: map<Node, Node>,
                  through: map<Node, Edge>, stamp: map<Node, nat>, clock: nat, queue: multiset<Node>, i: int,
                  bw': map<Node, int>, prev': map<Node, Node>, through': map<Node, Edge>, stamp': map<Node, nat>, queue': multiset<Node>)
    requires CtxOk(c, ks) && Scanning(c, u, bw0, q0, bw, prev, through, stamp, clock, queue, i) && 0 <= i < |c.edges|
    requires c.edges[i].source == u && Min(bw[u], c.edges[i].bandwidth) > bw[c.edges[i].destination]
    requires var e := c.edges[i];
      var v := e.destination;
      && bw' == bw[v := Min(bw[u], e.bandwidth)] && prev' == prev[v := u] && through' == through[v := e]
      && stamp' == stamp[v := clock + 1] && queue' == queue + multiset{v}
    ensures Scanning(c, u, bw0, q0, bw', prev', through', stamp', clock + 1, queue', i + 1)
  {
    var e := c.edges[i];
    var v, nb := e.destination, Min(bw[u], e.bandwidth);
    TrackRaise(c, ks, bw, prev, through, stamp, clock, u, e, bw', prev', through', stamp');
    WaitRaise(c, bw, queue, u, v, nb, bw', queue');
    PrefixRaise(c, bw, u, i, bw');
    RaiseAgain(bw0, q0, bw, queue, v, nb, bw');
    assert bw'[u] == bw[u];
  }

  /** Raising one more bandwidth leaves the bandwidths raised above where the scan began. */
  lemma RaiseAgain(bw0: map<Node, int>, q0: multiset<Node>, bw: map<Node, int>, queue: multiset<Node>, v: Node, nb: int, bw': map<Node, int>)
    requires (bw == bw0 && queue == q0) || Raised(bw0, bw)
    requires v in bw && nb > bw[v] && bw' == bw[v := nb]
    ensures Raised(bw0, bw')
  {
    assert bw'[v] > bw0[v];
  }

  /** All edges read: u is relaxed, so every node is queued or relaxed. */
  lemma Polled(c: Ctx, bw: map<Node, int>, queue: multiset<Node>, u: Node)
    requires u in bw && Waiting(c, bw, queue, u) && Prefix(c, bw, u, |c.edges|)
    ensures Waiting(c, bw, queue, null)
  {
    forall e | e in c.edges && e.source == u && e.destination in bw ensures bw[e.destination] >= Min(bw[u], e.bandwidth) {
      var j :| 0 <= j < |c.edges| && c.edges[j] == e;
    }
  }

  /** A raise that is not undone lowers the measure. */
  lemma RaisedFalls(c: Ctx, ks: seq<Node>, bw: map<Node, int>, bw2: map<Node, int>)
    requires CtxOk(c, ks) && bw.Keys == c.keys && Raised(bw, bw2) && forall k :: k in bw2 ==> bw2[k] in c.values
    ensures Potential(c.values, ks, bw2) < Potential(c.values, ks, bw)
  {
    var k :| k in bw && bw2[k] > bw[k];
    assert k in ks;
    PotentialFalls(c.values, ks, bw, bw2, k);
  }

  /**
   * At the end of the search no walk from start has a larger bottleneck
   * than the bandwidth its last node got.
   */
  lemma {:induction false} WalkBound(c: Ctx, ks: seq<Node>, bw: map<Node, int>, p: seq<Edge>, t: Node)
    requires CtxOk(c, ks) && bw.Keys == c.keys && bw[c.start] == IntMax
    requires forall k :: k in bw ==> Relaxed(c.edges, bw, k)
    requires Walk(c.edges, p, c.start, t)
    ensures t in bw && Bottleneck(p) <= bw[t]
    decreases |p|
  {
    if p != [] {
      var n := |p| - 1;
      var u := p[n].source;
      assert Walk(c.edges, p[..n], c.start, u) by {
        if n > 0 {
          assert p[n - 1].destination == u;
        }
      }
      WalkBound(c, ks, bw, p[..n], u);
      assert Relaxed(c.edges, bw, u) && p[n] in c.edges;
    }
  }

  // ------------------------------------------------------------ the graph

  function Reverse(s: seq<Node>): (r: seq<Node>)
    ensures |r| == |s| && forall i :: 0 <= i < |s| ==> r[i] == s[|s| - 1 - i]
  {
    if s == [] then [] else Reverse(s[1..]) + [s[0]]
  }

  class NetworkGraph {
    var nodes: seq<Node>
    var edges: seq<Edge>

    /** Both lists start empty. */
    constructor ()
      ensures nodes == [] && edges == []
    {
      nodes := [];
      edges := [];
    }

    /** `addNode`: one more node at the end; the edges are unchanged. */
    method AddNode(node: Node)
      modifies this
      ensures nodes == old(nodes) + [node] && edges == old(edges)
    {
      nodes := nodes + [node];
    }

    /** `addEdge`: one more edge at the end; the nodes are unchanged. */
    method AddEdge(edge: Edge)
      modifies this
      ensures edges == old(edges) + [edge] && nodes == old(nodes)
      ensures Cost(edges) == old(Cost(edges)) + edge.cost
    {
      CostAppend(edges, [edge]);
      edges := edges + [edge];
    }

    /** `calculateTotalCost`: the costs of all edges added up. */
    method CalculateTotalCost() returns (totalCost: int)
      ensures totalCost == Cost(edges)
    {
      totalCost := 0;
      for i := 0 to |edges|
        invariant totalCost == Cost(edges[..i])
      {
        assert edges[..i + 1][..i] == edges[..i];
        totalCost := totalCost + edges[i].cost;
      }
      assert edges[..|edges|] == edges;
    }

    /** `calculateTotalLatency`: `1000 / bandwidth` of every edge added up. */
    method CalculateTotalLatency() returns (totalLatency: int)
      requires forall e :: e in edges ==> e.bandwidth != 0
      ensures totalLatency == TotalLatency(edges)
    {
      totalLatency := 0;
      for i := 0 to |edges|
        invariant totalLatency == TotalLatency(edges[..i])
      {
        assert edges[..i + 1][..i] == edges[..i];
        assert edges[i] in edges;
        totalLatency := totalLatency + 1000 / edges[i].bandwidth;
      }
      assert edges[..|edges|] == edges;
    }

    /**
     * The edges out of the polled node u, in list order: an edge to v with
     * `min(bandwidths[u], edge.bandwidth)` above v's bandwidth raises it,
     * makes u v's predecessor and queues v.
     */
    method RelaxFrom(ghost c: Ctx, ghost ks: seq<Node>, u: Node, bandwidths0: map<Node, int>, previous0: map<Node, Node>,
                     queue0: multiset<Node>, ghost through0: map<Node, Edge>, ghost stamp0: map<Node, nat>, ghost clock0: nat)
      returns (bandwidths: map<Node, int>, previous: map<Node, Node>, queue: multiset<Node>,
               ghost through: map<Node, Edge>, ghost stamp: map<Node, nat>, ghost clock: nat)
      requires c.edges == edges && CtxOk(c, ks) && u in c.keys
      requires Tracked(c, bandwidths0, previous0, through0, stamp0, clock0) && Waiting(c, bandwidths0, queue0, u)
      ensures Tracked(c, bandwidths, previous, through, stamp, clock) && Waiting(c, bandwidths, queue, null)
      ensures (bandwidths == bandwidths0 && queue == queue0) || Raised(bandwidths0, bandwidths)
    {
      bandwidths, previous, queue := bandwidths0, previous0, queue0;
      through, stamp, clock := through0, stamp0, clock0;
      for i := 0 to |edges|
        invariant Scanning(c, u, bandwidths0, queue0, bandwidths, previous, through, stamp, clock, queue, i)
      {
        var edge := edges[i];
        assert edge in c.edges;
        if edge.source == u {
          var neighbor := edge.destination;
          var newBandwidth := Min(bandwidths[u], edge.bandwidth);
          if newBandwidth > bandwidths[neighbor] {
            ghost var bw1, prev1, through1, stamp1, clock1, queue1 := bandwidths, previous, through, stamp, clock, queue;
            bandwidths := bandwidths[neighbor := newBandwidth];
            previous := previous[neighbor := u];
            queue := queue + multiset{neighbor};
            through, stamp, clock := through[neighbor := edge], stamp[neighbor := clock + 1], clock + 1;
            ScanRaise(c, ks, u, bandwidths0, queue0, bw1, prev1, through1, stamp1, clock1, queue1, i,
                      bandwidths, previous, through, stamp, queue);
          } else {
            Skip(c, bandwidths, u, i);
          }
        } else {
          Skip(c, bandwidths, u, i);
        }
      }
      Polled(c, bandwidths, queue, u);
    }

    /**
     * `findShortestPath(start, end)`: every node starts at
     * `Integer.MIN_VALUE`, start at `Integer.MAX_VALUE`; queued nodes are
     * polled in any order and the edges out of each are relaxed. At the end
     * every edge u -> v has `bandwidths[v] >= min(bandwidths[u], bandwidth)`,
     * so no walk from start has a bottleneck above its end's bandwidth;
     * start has the largest bandwidth and no predecessor. The path follows
     * predecessors back from end and is reversed: it ends with end, is just
     * [end] when end was not reached, and otherwise starts with start and
     * follows edges whose bandwidths are all at least end's, so its
     * bottleneck is the largest possible.
     */
    method FindShortestPath(start: Node, end: Node)
      returns (path: seq<Node>, ghost bandwidths: map<Node, int>, ghost previous: map<Node, Node>, ghost hops: seq<Edge>)
      requires forall e :: e in edges ==> e.destination in nodes || e.destination == start
      requires forall e :: e in edges ==> IntMin <= e.bandwidth <= IntMax
      ensures bandwidths.Keys == (set n | n in nodes) + {start}
      ensures bandwidths[start] == IntMax && start !in previous
      ensures forall e :: e in edges && e.source in bandwidths ==>
        bandwidths[e.destination] >= Min(bandwidths[e.source], e.bandwidth)
      ensures forall p, t :: Walk(edges, p, start, t) ==> t in bandwidths && Bottleneck(p) <= bandwidths[t]
      ensures |path| >= 1 && path[|path| - 1] == end
      ensures (end == start || (end in bandwidths && bandwidths[end] > IntMin)) ==> path[0] == start
      ensures !(end == start || (end in bandwidths && bandwidths[end] > IntMin)) ==> path == [end]
      ensures end == start ==> path == [start]
      ensures |hops| == |path| - 1
      ensures forall i :: 0 <= i < |hops| ==>
        hops[i] in edges && hops[i].source == path[i] && hops[i].destination == path[i + 1]
      ensures end in bandwidths ==> forall i :: 0 <= i < |hops| ==> hops[i].bandwidth >= bandwidths[end]
    {
      ghost var ks := nodes + [start];
      ghost var c := Ctx(edges, start, set n | n in ks, {IntMin, IntMax} + (set e | e in edges :: e.bandwidth));
      assert c.keys == (set n | n in nodes) + {start} by {
        assert forall n :: n in ks ==> n == start || n in nodes;
      }
      var bw, prev;
      ghost var through, stamp, clock;
      bw, prev, through, stamp, clock := Search(c, ks, start);
      bandwidths, previous := bw, prev;
      forall p, t | Walk(edges, p, start, t) ensures t in bandwidths && Bottleneck(p) <= bandwidths[t] {
        WalkBound(c, ks, bw, p, t);
      }
      path := Reconstruct(c, ks, end, bw, prev, through, stamp, clock);
      hops := PathHops(c, bw, prev, through, stamp, clock, end, path);
    }

    /**
     * The search loop of `findShortestPath`: bandwidths filled in, start
     * queued, then queued nodes polled in any order until none is left.
     * It stops because every push raises a bandwidth to one of finitely
     * many values.
     */
    method Search(ghost c: Ctx, ghost ks: seq<Node>, start: Node)
      returns (bw: map<Node, int>, prev: map<Node, Node>, ghost through: map<Node, Edge>, ghost stamp: map<Node, nat>, ghost clock: nat)
      requires ks == nodes + [start] && c.edges == edges && c.start == start
      requires c.keys == (set n | n in ks) && c.values == {IntMin, IntMax} + (set e | e in edges :: e.bandwidth)
      requires forall e :: e in edges ==> e.destination in nodes || e.destination == start
      requires forall e :: e in edges ==> IntMin <= e.bandwidth <= IntMax
      ensures CtxOk(c, ks) && Tracked(c, bw, prev, through, stamp, clock)
      ensures forall k :: k in bw ==> Relaxed(c.edges, bw, k)
    {
      bw := map[];
      prev := map[];
      for i := 0 to |nodes|
        invariant bw.Keys == set j | 0 <= j < i :: nodes[j]
        invariant forall k :: k in bw ==> bw[k] == IntMin
      {
        bw := bw[nodes[i] := IntMin];
      }
      bw := bw[start := IntMax];
      var queue := multiset{start};
      assert bw.Keys == c.keys by {
        assert forall n :: n in ks ==> n == start || n in nodes;
      }
      assert CtxOk(c, ks);
      through := map[];
      stamp := map k | k in c.keys :: 0;
      clock := 0;
      SearchStart(c, ks, bw, stamp);

      while |queue| > 0
        invariant Tracked(c, bw, prev, through, stamp, clock) && Waiting(c, bw, queue, null)
        decreases Potential(c.values, ks, bw), |queue|
      {
        var current :| current in queue;
        Poll(c, bw, queue, current);
        queue := queue - multiset{current};
        ghost var before := bw;
        bw, prev, queue, through, stamp, clock := RelaxFrom(c, ks, current, bw, prev, queue, through, stamp, clock);
        if bw != before {
          RaisedFalls(c, ks, before, bw);
        }
      }
      Finish(c, ks, bw);
    }

    /**
     * The loop after the search: end, then predecessors while there is
     * one, collected and reversed. It stops because predecessor links
     * never go back to a lower bandwidth, nor to a later stamp at equal
     * bandwidth.
     */
    method Reconstruct(ghost c: Ctx, ghost ks: seq<Node>, end: Node, bw: map<Node, int>, prev: map<Node, Node>,
                       ghost through: map<Node, Edge>, ghost stamp: map<Node, nat>, ghost clock: nat)
      returns (path: seq<Node>)
      requires CtxOk(c, ks) && Tracked(c, bw, prev, through, stamp, clock)
      ensures |path| >= 1 && path[|path| - 1] == end
      ensures (end == c.start || (end in bw && bw[end] > IntMin)) ==> path[0] == c.start
      ensures !(end == c.start || (end in bw && bw[end] > IntMin)) ==> path == [end]
      ensures end == c.start ==> path == [c.start]
      ensures forall i :: 0 < i < |path| ==> path[i] in prev && prev[path[i]] == path[i - 1]
      ensures end in bw ==> forall i :: 0 <= i < |path| ==> path[i] in bw && bw[path[i]] >= bw[end]
    {
      var collected := CollectBack(c, ks, end, bw, prev, through, stamp, clock);
      path := Reverse(collected);
      ChainResult(c, ks, bw, prev, through, stamp, clock, end, collected, path);
    }

    /** The loop of `findShortestPath` that follows the predecessors back from end until one has none. */
    method CollectBack(ghost c: Ctx, ghost ks: seq<Node>, end: Node, bw: map<Node, int>, prev: map<Node, Node>,
                       ghost through: map<Node, Edge>, ghost stamp: map<Node, nat>, ghost clock: nat)
      returns (collected: seq<Node>)
      requires CtxOk(c, ks) && Tracked(c, bw, prev, through, stamp, clock)
      ensures Chain(c, bw, prev, end, collected, null)
    {
      collected := [];
      var at: Node? := end;
      while at != null
        invariant Chain(c, bw, prev, end, collected, at)
        decreases Order(c, bw, prev, at), StampOf(stamp, prev, at)
      {
        ChainStep(c, ks, bw, prev, through, stamp, clock, end, collected, at);
        collected := collected + [at];
        at := Get(prev, at);
      }
    }
  }

  /** `HashMap.get`: the entry for k, or null when there is none. */
  function Get(m: map<Node, Node>, k: Node): (r: Node?)
    ensures r != null <==> k in m
    ensures k in m ==> r == m[k]
  {
    if k in m then m[k] else null
  }

  /**
   * The nodes visited so far going back from end: each is followed by its
   * predecessor, all but the first were reached, none has less bandwidth
   * than end, and `at` is the next one (null once a node without
   * predecessor was visited).
   */
  ghost predicate Chain(c: Ctx, bw: map<Node, int>, prev: map<Node, Node>, end: Node, collected: seq<Node>, at: Node?) {
    && (at != null ==>
         (collected == [] && at == end) ||
         (collected != [] && collected[|collected| - 1] in prev && at == prev[collected[|collected| - 1]]))
    && (at == null ==> collected != [] && collected[|collected| - 1] !in prev)
    && (collected != [] ==> collected[0] == end)
    && (forall i :: 0 <= i < |collected| - 1 ==> collected[i] in prev && prev[collected[i]] == collected[i + 1])
    && (forall i :: 1 <= i < |collected| ==> collected[i] in bw && bw[collected[i]] > IntMin)
    && (at != null && collected != [] ==> at in bw && bw[at] > IntMin)
    && (end in bw ==> forall i :: 0 <= i < |collected| ==> collected[i] in bw && bw[collected[i]] >= bw[end])
    && (end in bw && at != null ==> at in bw && bw[at] >= bw[end])
  }

  /** The measure `Reconstruct` decreases, first part: how low in bandwidth a node with a predecessor is. */
  ghost function Order(c: Ctx, bw: map<Node, int>, prev: map<Node, Node>, at: Node?): nat {
    if at == null then 0 else if at in prev && at in bw then Height(c.values, bw[at]) + 2 else 1
  }

  /** Second part: the stamp of a node with a predecessor. */
  ghost function StampOf(stamp: map<Node, nat>, prev: map<Node, Node>, at: Node?): nat {
    if at != null && at in prev && at in stamp then stamp[at] else 0
  }

  lemma ChainStep(c: Ctx, ks: seq<Node>, bw: map<Node, int>, prev: map<Node, Node>, through: map<Node, Edge>,
                  stamp: map<Node, nat>, clock: nat, end: Node, collected: seq<Node>, at: Node)
    requires CtxOk(c, ks) && Tracked(c, bw, prev, through, stamp, clock) && Chain(c, bw, prev, end, collected, at)
    ensures Chain(c, bw, prev, end, collected + [at], Get(prev, at))
    ensures var next := Get(prev, at);
      || Order(c, bw, prev, next) < Order(c, bw, prev, at)
      || (Order(c, bw, prev, next) == Order(c, bw, prev, at) && StampOf(stamp, prev, next) < StampOf(stamp, prev, at))
  {
    if at in prev {
      assert Link(c, bw, prev, through, stamp, at);
    }
    ChainGrow(c, bw, prev, end, collected, at, collected + [at], Get(prev, at));
    ChainFalls(c, ks, bw, prev, through, stamp, clock, at);
  }

  /** Appending at and moving to its predecessor keeps the chain. */
  lemma ChainGrow(c: Ctx, bw: map<Node, int>, prev: map<Node, Node>, end: Node, collected: seq<Node>, at: Node,
                  collected': seq<Node>, next: Node?)
    requires Chain(c, bw, prev, end, collected, at) && collected' == collected + [at] && next == Get(prev, at)
    requires at in prev ==> at in bw && prev[at] in bw && bw[prev[at]] >= bw[at] && bw[at] > IntMin
    ensures Chain(c, bw, prev, end, collected', next)
  {
    forall i | 0 <= i < |collected'| - 1 ensures collected'[i] in prev && prev[collected'[i]] == collected'[i + 1] {
      if i < |collected| - 1 {
        assert collected'[i] == collected[i] && collected'[i + 1] == collected[i + 1];
      }
    }
  }

  /** Moving to the predecessor lowers the measure of the walk back. */
  lemma ChainFalls(c: Ctx, ks: seq<Node>, bw: map<Node, int>, prev: map<Node, Node>, through: map<Node, Edge>,
                   stamp: map<Node, nat>, clock: nat, at: Node)
    requires CtxOk(c, ks) && Tracked(c, bw, prev, through, stamp, clock)
    ensures var next := Get(prev, at);
      || Order(c, bw, prev, next) < Order(c, bw, prev, at)
      || (Order(c, bw, prev, next) == Order(c, bw, prev, at) && StampOf(stamp, prev, next) < StampOf(stamp, prev, at))
  {
    var next := Get(prev, at);
    if at in prev {
      assert Link(c, bw, prev, through, stamp, at);
      if next in prev {
        HeightAtMost(c.values, bw[at], bw[next]);
        if bw[at] < bw[next] {
          HeightFalls(c.values, bw[at], bw[next]);
        }
      }
    }
  }

  /** The reversed chain, at its two ends: the path `findShortestPath` returns. */
  lemma ChainEnd(c: Ctx, ks: seq<Node>, bw: map<Node, int>, prev: map<Node, Node>, through: map<Node, Edge>,
                 stamp: map<Node, nat>, clock: nat, end: Node, collected: seq<Node>, path: seq<Node>)
    requires CtxOk(c, ks) && Tracked(c, bw, prev, through, stamp, clock) && Chain(c, bw, prev, end, collected, null)
    requires path == Reverse(collected)
    ensures |path| >= 1 && path[|path| - 1] == end
    ensures (end == c.start || (end in bw && bw[end] > IntMin)) ==> path[0] == c.start
    ensures !(end == c.start || (end in bw && bw[end] > IntMin)) ==> path == [end]
    ensures end == c.start ==> path == [c.start]
  {
    var n := |collected|;
    if n > 1 {
      assert Link(c, bw, prev, through, stamp, end);
      assert collected[n - 1] in bw && collected[n - 1] !in prev;
    } else {
      assert path == [end];
    }
  }

  /** What `findShortestPath` returns once the chain is reversed. */
  lemma ChainResult(c: Ctx, ks: seq<Node>, bw: map<Node, int>, prev: map<Node, Node>, through: map<Node, Edge>,
                    stamp: map<Node, nat>, clock: nat, end: Node, collected: seq<Node>, path: seq<Node>)
    requires CtxOk(c, ks) && Tracked(c, bw, prev, through, stamp, clock) && Chain(c, bw, prev, end, collected, null)
    requires path == Reverse(collected)
    ensures |path| >= 1 && path[|path| - 1] == end
    ensures (end == c.start || (end in bw && bw[end] > IntMin)) ==> path[0] == c.start
    ensures !(end == c.start || (end in bw && bw[end] > IntMin)) ==> path == [end]
    ensures end == c.start ==> path == [c.start]
    ensures forall i :: 0 < i < |path| ==> path[i] in prev && prev[path[i]] == path[i - 1]
    ensures end in bw ==> forall i :: 0 <= i < |path| ==> path[i] in bw && bw[path[i]] >= bw[end]
  {
    ChainEnd(c, ks, bw, prev, through, stamp, clock, end, collected, path);
    ChainLinks(c, bw, prev, end, collected, path);
  }

  /** The reversed chain, in between: each node is the predecessor of the next, none below end. */
  lemma ChainLinks(c: Ctx, bw: map<Node, int>, prev: map<Node, Node>, end: Node, collected: seq<Node>, path: seq<Node>)
    requires Chain(c, bw, prev, end, collected, null) && path == Reverse(collected)
    ensures && (forall i :: 0 < i < |path| ==> path[i] in prev && prev[path[i]] == path[i - 1])
      && (end in bw ==> forall i :: 0 <= i < |path| ==> path[i] in bw && bw[path[i]] >= bw[end])
  {
    var n := |collected|;
    forall i | 0 < i < n ensures path[i] in prev && prev[path[i]] == path[i - 1] {
      var j := n - 1 - i;
      assert path[i] == collected[j] && path[i - 1] == collected[j + 1];
    }
  }

  /** The edges that set the predecessors along the path, each at least as wide as end's bandwidth. */
  lemma PathHops(c: Ctx, bw: map<Node, int>, prev: map<Node, Node>, through: map<Node, Edge>,
                 stamp: map<Node, nat>, clock: nat, end: Node, path: seq<Node>)
    returns (hops: seq<Edge>)
    requires Tracked(c, bw, prev, through, stamp, clock) && |path| >= 1
    requires forall i :: 0 < i < |path| ==> path[i] in prev && prev[path[i]] == path[i - 1]
    requires end in bw ==> forall i :: 0 <= i < |path| ==> path[i] in bw && bw[path[i]] >= bw[end]
    ensures |hops| == |path| - 1
    ensures forall i :: 0 <= i < |hops| ==>
      hops[i] in c.edges && hops[i].source == path[i] && hops[i].destination == path[i + 1]
    ensures end in bw ==> forall i :: 0 <= i < |hops| ==> hops[i].bandwidth >= bw[end]
  {
    hops := seq(|path| - 1, i requires 0 <= i < |path| - 1 => through[path[i + 1]]);
    forall i | 0 <= i < |hops|
      ensures hops[i] in c.edges && hops[i].source == path[i] && hops[i].destination == path[i + 1]
      ensures end in bw ==> hops[i].bandwidth >= bw[end]
    {
      assert path[i + 1] in prev && prev[path[i + 1]] == path[i];
      assert Link(c, bw, prev, through, stamp, path[i + 1]);
    }
  }

  /** The loop has stopped: every node is relaxed. */
  lemma Finish(c: Ctx, ks: seq<Node>, bw: map<Node, int>)
    requires Waiting(c, bw, multiset{}, null)
    ensures forall k :: k in bw ==> Relaxed(c.edges, bw, k)
  {
  }
}
