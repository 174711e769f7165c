/** The shortest-route finder of Main.java:102-131: Dijkstra's search from the start
    building over the registry's adjacency, then a walk back along the recorded
    predecessors. The queue is modelled as a multiset from which any element may be
    taken next, so every order the priority queue could produce is covered. The
    search state is stated over any key type; the registry uses its string keys. */
module Router {
  import opened Names
  import opened Graphs
  import opened Campus

  /** The three outcomes of findShortestRoute: the display names along a route, the
      single-line answer "No path found." (Main.java:128), or the
      IllegalArgumentException for a name that is not registered (Main.java:109). */
  datatype Route = Path(names: seq<string>) | NoPathFound | UnknownBuilding

  // ----- termination measure of the search -----

  /** Some enumeration of a finite set of keys. */
  ghost function Enumerate<K>(s: set<K>): (r: seq<K>)
    ensures forall k :: k in s ==> k in r
    decreases |s|
  {
    if s == {} then []
    else
      var k :| k in s;
      [k] + Enumerate(s - {k})
  }

  /** The sum of the tentative distances of the listed keys (absent keys count 0). */
  function Sum<K>(nodes: seq<K>, dist: map<K, int>): int {
    if nodes == [] then 0
    else (if nodes[0] in dist then dist[nodes[0]] else 0) + Sum(nodes[1..], dist)
  }

  lemma {:induction false} SumNonNegative<K>(nodes: seq<K>, dist: map<K, int>)
    requires forall v :: v in dist ==> dist[v] >= 0
    ensures Sum(nodes, dist) >= 0
  {
    if nodes != [] {
      SumNonNegative(nodes[1..], dist);
    }
  }

  /** Lowering one tentative distance never raises the sum, and lowers it when the
      key is listed. */
  lemma {:induction false} SumDecreases<K>(nodes: seq<K>, dist: map<K, int>, v: K, x: int)
    requires v in dist && x < dist[v]
    ensures Sum(nodes, dist[v := x]) <= Sum(nodes, dist)
    ensures v in nodes ==> Sum(nodes, dist[v := x]) < Sum(nodes, dist)
  {
    if nodes != [] {
      SumDecreases(nodes[1..], dist, v, x);
    }
  }

  /** The search went forward from (dist0, frontier0): no key lost its distance, and
      either nothing changed, a key got its first distance, or the sum of the
      distances went down. */
  ghost predicate Progress<K>(nodes: seq<K>, dist0: map<K, int>, frontier0: multiset<K>,
                                    dist: map<K, int>, frontier: multiset<K>) {
    && dist0.Keys <= dist.Keys
    && (|| (dist == dist0 && frontier == frontier0)
        || dist0.Keys < dist.Keys
        || (dist.Keys == dist0.Keys && Sum(nodes, dist) < Sum(nodes, dist0)))
  }

  lemma LowerMakesProgress<K>(nodes: seq<K>, dist0: map<K, int>, frontier0: multiset<K>,
                                    dist: map<K, int>, frontier: multiset<K>, v: K, x: int)
    requires Progress(nodes, dist0, frontier0, dist, frontier)
    requires v in nodes && (v in dist ==> x < dist[v])
    ensures Progress(nodes, dist0, frontier0, dist[v := x], frontier + multiset{v})
  {
    if v in dist {
      SumDecreases(nodes, dist, v, x);
    }
  }

  /** Progress after taking u off the queue lowers the search's termination measure. */
  lemma ProgressDecreases<K>(keys: set<K>, nodes: seq<K>, dist0: map<K, int>, queued: multiset<K>, u: K,
                             dist: map<K, int>, frontier: multiset<K>)
    requires u in queued && dist.Keys <= keys
    requires Progress(nodes, dist0, queued - multiset{u}, dist, frontier)
    ensures || keys - dist.Keys < keys - dist0.Keys
            || (keys - dist.Keys == keys - dist0.Keys && Sum(nodes, dist) < Sum(nodes, dist0))
            || (keys - dist.Keys == keys - dist0.Keys && Sum(nodes, dist) == Sum(nodes, dist0) &&
                |frontier| < |queued|)
  {
    if dist0.Keys < dist.Keys {
      var k :| k in dist.Keys && k !in dist0.Keys;
      assert k in keys - dist0.Keys && k !in keys - dist.Keys;
    }
  }

  // ----- the search state -----

  /** The distance and predecessor records (Main.java:104-105): the start has distance 0
      and no predecessor; every other key with a distance has a predecessor it was
      reached from over an edge no longer than the gap between their distances; and
      stepping back either lowers the distance or reaches a key whose distance was set
      earlier (the stamps order the updates), so walking back cannot cycle. */
  ghost predicate Tree<K>(g: Graph<K>, s: K, dist: map<K, int>, prev: map<K, K>, stamp: map<K, nat>) {
    && s in dist && dist[s] == 0 && s !in prev
    && dist.Keys <= g.Keys
    && (forall v :: v in dist ==> dist[v] >= 0)
    && (forall v :: v in dist && v != s ==> v in prev)
    && prev.Keys <= dist.Keys
    && stamp.Keys == dist.Keys
    && (forall v :: v in prev ==>
          && prev[v] in dist && prev[v] in g && v in g[prev[v]]
          && dist[prev[v]] + g[prev[v]][v] <= dist[v]
          && (dist[prev[v]] < dist[v] || (dist[prev[v]] == dist[v] && stamp[prev[v]] < stamp[v])))
  }

  /** Tree, and every stamp is older than the clock. */
  ghost predicate Tracked<K>(g: Graph<K>, s: K, dist: map<K, int>, prev: map<K, K>,
                             stamp: map<K, nat>, clock: nat) {
    Tree(g, s, dist, prev, stamp) && forall v :: v in stamp ==> stamp[v] < clock
  }

  /** Every queued key has a distance. */
  ghost predicate Queued<K>(dist: map<K, int>, frontier: multiset<K>) {
    forall v :: v in frontier ==> v in dist
  }

  lemma QueuedDrop<K>(dist: map<K, int>, frontier: multiset<K>, u: K)
    requires Queued(dist, frontier + multiset{u})
    ensures Queued(dist, frontier)
  {
  }

  /** Every key that has a distance and is not waiting in the queue has relaxed each of
      its edges against the current distances. */
  ghost predicate Settled<K>(g: Graph<K>, dist: map<K, int>, frontier: multiset<K>) {
    forall u, v :: u in dist && u !in frontier && u in g && v in g[u] ==>
      v in dist && dist[v] <= dist[u] + g[u][v]
  }

  /** Lowering v's distance to the length of the route through u, with u as its new
      predecessor and a fresh stamp, keeps the records consistent. */
  lemma LowerKeepsTree<K>(g: Graph<K>, s: K, u: K, v: K, x: int,
                                dist: map<K, int>, prev: map<K, K>, stamp: map<K, nat>, clock: nat)
    requires Closed(g) && NonNegative(g) && u in g && v in g[u]
    requires Tree(g, s, dist, prev, stamp) && (forall w :: w in stamp ==> stamp[w] < clock)
    requires u in dist && x == dist[u] + g[u][v] && (v !in dist || x < dist[v])
    ensures Tree(g, s, dist[v := x], prev[v := u], stamp[v := clock])
  {
    var dist', prev', stamp' := dist[v := x], prev[v := u], stamp[v := clock];
    assert g[u][v] >= 0 && x >= 0;
    assert v != s && u != v;
    assert stamp'.Keys == dist'.Keys;
    assert dist'.Keys <= g.Keys;
    assert forall w :: w in dist' && w != s ==> w in prev';
    forall w | w in prev'
      ensures && prev'[w] in dist' && prev'[w] in g && w in g[prev'[w]]
              && dist'[prev'[w]] + g[prev'[w]][w] <= dist'[w]
              && (dist'[prev'[w]] < dist'[w] || (dist'[prev'[w]] == dist'[w] && stamp'[prev'[w]] < stamp'[w]))
    {
      if w != v && prev[w] == v {
        assert dist[v] + g[v][w] <= dist[w];
      }
    }
  }

  /** Lowering a distance keeps every settled key settled once the lowered key is queued. */
  lemma LowerKeepsSettled<K>(g: Graph<K>, u: K, v: K, x: int, dist: map<K, int>, frontier: multiset<K>)
    requires Settled(g, dist, frontier + multiset{u})
    requires v in dist ==> x < dist[v]
    ensures Settled(g, dist[v := x], frontier + multiset{v} + multiset{u})
  {
  }

  /** Every edge out of u handled so far leaves its neighbour no farther than the route
      through u. */
  ghost predicate Relaxed<K>(u: K, neighbors: map<K, int>, todo: set<K>, dist: map<K, int>)
    requires u in dist
  {
    forall v :: v in neighbors && v !in todo ==> v in dist && dist[v] <= dist[u] + neighbors[v]
  }

  /** Handling the edge u -> v, whether or not it lowers v's distance. */
  lemma RelaxedStep<K>(u: K, neighbors: map<K, int>, todo: set<K>, dist: map<K, int>, v: K, x: int)
    requires u in dist && v in neighbors && neighbors[v] >= 0 && x == dist[u] + neighbors[v]
    requires Relaxed(u, neighbors, todo + {v}, dist)
    ensures v !in dist || x < dist[v] ==> u != v && Relaxed(u, neighbors, todo, dist[v := x])
    ensures v in dist && x >= dist[v] ==> Relaxed(u, neighbors, todo, dist)
  {
  }

  /** Once every edge out of u has been relaxed, u counts as settled. */
  lemma SettleLast<K>(g: Graph<K>, u: K, dist: map<K, int>, frontier: multiset<K>)
    requires u in dist
    requires Settled(g, dist, frontier + multiset{u})
    requires u in g ==> forall v :: v in g[u] ==> v in dist && dist[v] <= dist[u] + g[u][v]
    ensures Settled(g, dist, frontier)
  {
    forall w, v | w in dist && w !in frontier && w in g && v in g[w]
      ensures v in dist && dist[v] <= dist[w] + g[w][v]
    {
      if w != u {
        assert w !in frontier + multiset{u};
      }
    }
  }

  /** One pass of the inner loop of Main.java:117-121: the route to v through u
      replaces v's distance when it is shorter, u becomes v's predecessor and v is
      queued again. */
  method RelaxEdge<K>(g: Graph<K>, ghost s: K, u: K, v: K, weight: int, ghost todo: set<K>,
                      dist0: map<K, int>, prev0: map<K, K>, frontier0: multiset<K>,
                      ghost stamp0: map<K, nat>, ghost clock0: nat,
                      ghost nodes: seq<K>, ghost distIn: map<K, int>, ghost frontierIn: multiset<K>)
    returns (dist: map<K, int>, prev: map<K, K>, frontier: multiset<K>,
             ghost stamp: map<K, nat>, ghost clock: nat)
    requires Closed(g) && NonNegative(g) && u in g && v in g[u] && weight == g[u][v] && v in nodes
    requires Tracked(g, s, dist0, prev0, stamp0, clock0) && Queued(dist0, frontier0 + multiset{u}) && u in dist0
    requires Settled(g, dist0, frontier0 + multiset{u})
    requires Relaxed(u, g[u], todo + {v}, dist0)
    requires Progress(nodes, distIn, frontierIn, dist0, frontier0)
    ensures Tracked(g, s, dist, prev, stamp, clock) && Queued(dist, frontier + multiset{u})
    ensures u in dist && dist[u] == dist0[u]
    ensures Settled(g, dist, frontier + multiset{u})
    ensures Relaxed(u, g[u], todo, dist)
    ensures Progress(nodes, distIn, frontierIn, dist, frontier)
  {
    dist, prev, frontier, stamp, clock := dist0, prev0, frontier0, stamp0, clock0;
    var newDist := dist[u] + weight;
    RelaxedStep(u, g[u], todo, dist, v, newDist);
    if v !in dist || newDist < dist[v] {
      LowerMakesProgress(nodes, distIn, frontierIn, dist, frontier, v, newDist);
      LowerKeepsTree(g, s, u, v, newDist, dist, prev, stamp, clock);
      LowerKeepsSettled(g, u, v, newDist, dist, frontier);
      dist := dist[v := newDist];
      prev := prev[v := u];
      frontier := frontier + multiset{v};
      stamp := stamp[v := clock];
      clock := clock + 1;
    }
  }

  /** The inner loop of Main.java:116-123 over the edges out of u. Afterwards u counts
      as settled and the search has made progress. */
  method Relax<K>(g: Graph<K>, ghost s: K, u: K,
                  dist0: map<K, int>, prev0: map<K, K>, frontier0: multiset<K>,
                  ghost stamp0: map<K, nat>, ghost clock0: nat, ghost nodes: seq<K>)
    returns (dist: map<K, int>, prev: map<K, K>, frontier: multiset<K>,
             ghost stamp: map<K, nat>, ghost clock: nat)
    requires Closed(g) && NonNegative(g) && u in g
    requires forall k :: k in g ==> k in nodes
    requires Tracked(g, s, dist0, prev0, stamp0, clock0) && Queued(dist0, frontier0 + multiset{u})
    requires Settled(g, dist0, frontier0 + multiset{u})
    ensures Tracked(g, s, dist, prev, stamp, clock) && Queued(dist, frontier)
    ensures Settled(g, dist, frontier)
    ensures Progress(nodes, dist0, frontier0, dist, frontier)
  {
    dist, prev, frontier, stamp, clock := dist0, prev0, frontier0, stamp0, clock0;
    var neighbors := g[u];
    var todo := neighbors.Keys;
    while todo != {}
      invariant todo <= neighbors.Keys
      invariant Tracked(g, s, dist, prev, stamp, clock) && Queued(dist, frontier + multiset{u})
      invariant u in dist && dist[u] == dist0[u]
      invariant Settled(g, dist, frontier + multiset{u})
      invariant Relaxed(u, neighbors, todo, dist)
      invariant Progress(nodes, dist0, frontier0, dist, frontier)
      decreases todo
    {
      var v :| v in todo;
      todo := todo - {v};
      dist, prev, frontier, stamp, clock :=
        RelaxEdge(g, s, u, v, neighbors[v], todo, dist, prev, frontier, stamp, clock, nodes, dist0, frontier0);
    }
    SettleLast(g, u, dist, frontier);
    QueuedDrop(dist, frontier, u);
  }

  /** Taking u off the queue and putting it back describes the same queue. */
  lemma Dequeue<K>(g: Graph<K>, dist: map<K, int>, queued: multiset<K>, u: K)
    requires u in queued && Queued(dist, queued) && Settled(g, dist, queued)
    ensures u in dist
    ensures Queued(dist, queued - multiset{u} + multiset{u}) && Settled(g, dist, queued - multiset{u} + multiset{u})
  {
    assert queued - multiset{u} + multiset{u} == queued;
  }

  /** An empty queue leaves every key settled: the distances are a fixpoint. */
  lemma SettledIsFixpoint<K>(g: Graph<K>, dist: map<K, int>)
    requires Settled(g, dist, multiset{})
    ensures IsFixpoint(g, dist)
  {
  }

  /** The outer loop of Main.java:111-124, started from key s. When the queue runs
      dry no edge can improve any distance. */
  method Search<K>(g: Graph<K>, s: K) returns (dist: map<K, int>, prev: map<K, K>, ghost stamp: map<K, nat>)
    requires Closed(g) && NonNegative(g) && s in g
    ensures Tree(g, s, dist, prev, stamp)
    ensures IsFixpoint(g, dist)
  {
    ghost var nodes := Enumerate(g.Keys);
    ghost var clock: nat := 1;
    dist, prev, stamp := map[s := 0], map[], map[s := 0];
    var frontier := multiset{s};
    while frontier != multiset{}
      invariant Tracked(g, s, dist, prev, stamp, clock) && Queued(dist, frontier)
      invariant Settled(g, dist, frontier)
      decreases g.Keys - dist.Keys, Sum(nodes, dist), |frontier|
    {
      var u :| u in frontier;
      ghost var queued := frontier;
      frontier := frontier - multiset{u};
      Dequeue(g, dist, queued, u);
      SumNonNegative(nodes, dist);
      ghost var dist0 := dist;
      dist, prev, frontier, stamp, clock := Relax(g, s, u, dist, prev, frontier, stamp, clock, nodes);
      ProgressDecreases(g.Keys, nodes, dist0, queued, u, dist, frontier);
      SumNonNegative(nodes, dist);
    }
    SettledIsFixpoint(g, dist);
  }

  /** One step back along the predecessors extends the route from the front, and
      lowers the distance or reaches an older stamp. */
  lemma StepBack<K>(g: Graph<K>, s: K, dist: map<K, int>, prev: map<K, K>, stamp: map<K, nat>,
                    route: seq<K>, cur: K, t: K)
    requires Tree(g, s, dist, prev, stamp) && cur in prev && t in dist
    requires IsPath(g, route, cur, t) && Weight(g, route) + dist[cur] <= dist[t]
    ensures var p := prev[cur];
      && p in dist && cur in stamp && p in stamp
      && IsPath(g, [p] + route, p, t) && Weight(g, [p] + route) + dist[p] <= dist[t]
      && (dist[p] < dist[cur] || (dist[p] == dist[cur] && stamp[p] < stamp[cur]))
  {
    var p := prev[cur];
    WeightPrepend(g, p, route);
    WalkPrepend(g, p, route, t);
  }

  /** Stepping back along the predecessors goes to a key that is strictly earlier: a
      smaller distance, or the same distance with an older stamp. */
  ghost predicate Earlier<K>(dist: map<K, int>, stamp: map<K, nat>, u: K, v: K)
    requires u in dist && v in dist && stamp.Keys == dist.Keys
  {
    dist[u] < dist[v] || (dist[u] == dist[v] && stamp[u] < stamp[v])
  }

  /** Every key of the route has a distance, and each is earlier than all keys after it. */
  ghost predicate Ascending<K>(dist: map<K, int>, stamp: map<K, nat>, route: seq<K>)
    requires stamp.Keys == dist.Keys
  {
    && (forall i :: 0 <= i < |route| ==> route[i] in dist)
    && (forall i, j :: 0 <= i < j < |route| ==> Earlier(dist, stamp, route[i], route[j]))
  }

  lemma AscendingPrepend<K>(dist: map<K, int>, stamp: map<K, nat>, p: K, route: seq<K>)
    requires stamp.Keys == dist.Keys && Ascending(dist, stamp, route) && route != []
    requires p in dist && Earlier(dist, stamp, p, route[0])
    ensures Ascending(dist, stamp, [p] + route)
  {
    var r := [p] + route;
    forall i, j | 0 <= i < j < |r| ensures Earlier(dist, stamp, r[i], r[j]) {
      if i == 0 && j > 1 {
        assert Earlier(dist, stamp, route[0], route[j - 1]);
      }
    }
  }

  /** An ascending route never visits a key twice. */
  lemma AscendingDistinct<K>(dist: map<K, int>, stamp: map<K, nat>, route: seq<K>)
    requires stamp.Keys == dist.Keys && Ascending(dist, stamp, route)
    ensures forall i, j :: 0 <= i < j < |route| ==> route[i] != route[j]
  {
    forall i, j | 0 <= i < j < |route| ensures route[i] != route[j] {
      assert Earlier(dist, stamp, route[i], route[j]);
    }
  }

  /** Main.java:126-130: the walk back from t along the predecessors, collecting the
      display names; the route it spells is a shortest one. */
  method Rebuild<K>(g: Graph<K>, s: K, t: K, dist: map<K, int>, prev: map<K, K>, ghost stamp: map<K, nat>,
                    nameOf: map<K, string>)
    returns (names: seq<string>, route: seq<K>)
    requires Tree(g, s, dist, prev, stamp) && IsFixpoint(g, dist) && t in dist && g.Keys <= nameOf.Keys
    ensures IsPath(g, route, s, t) && Weight(g, route) <= dist[t]
    ensures |names| == |route| && forall i :: 0 <= i < |route| ==> names[i] == nameOf[route[i]]
    ensures t == s ==> route == [s]
    ensures forall i, j :: 0 <= i < j < |route| ==> route[i] != route[j]
  {
    var cur := t;
    names, route := [nameOf[t]], [t];
    while cur in prev
      invariant cur in dist
      invariant IsPath(g, route, cur, t)
      invariant Weight(g, route) + dist[cur] <= dist[t]
      invariant |names| == |route| && forall i :: 0 <= i < |route| ==> names[i] == nameOf[route[i]]
      invariant stamp.Keys == dist.Keys && route[0] == cur && Ascending(dist, stamp, route)
      decreases dist[cur], stamp[cur]
    {
      var p := prev[cur];
      StepBack(g, s, dist, prev, stamp, route, cur, t);
      AscendingPrepend(dist, stamp, p, route);
      route := [p] + route;
      names := [nameOf[p]] + names;
      cur := p;
    }
    AscendingDistinct(dist, stamp, route);
  }

  /** Main.java:111-130 once both names are known: the search from s, then either the
      answer "No path found." or the names along a shortest route to t. */
  method RouteBetween<K(!new)>(g: Graph<K>, nameOf: map<K, string>, s: K, t: K) returns (r: Route, ghost route: seq<K>)
    requires Closed(g) && NonNegative(g) && s in g && t in g && g.Keys <= nameOf.Keys
    ensures r != UnknownBuilding
    ensures r == NoPathFound <==> !Reachable(g, s, t)
    ensures r.Path? ==>
              && IsShortestPath(g, route, s, t)
              && |r.names| == |route|
              && forall i :: 0 <= i < |route| ==> r.names[i] == nameOf[route[i]]
    ensures r.Path? ==> forall i, j :: 0 <= i < j < |route| ==> route[i] != route[j]
    ensures s == t ==> r == Path([nameOf[s]]) && route == [s]
  {
    route := [];
    var dist, prev, stamp := Search(g, s);
    if t !in prev && t != s {
      ReachableHasDistance(g, dist, s, t);
      return NoPathFound, [];
    }
    var names;
    names, route := Rebuild(g, s, t, dist, prev, stamp, nameOf);
    BoundedRouteIsShortest(g, dist, s, route, t);
    r := Path(names);
  }

  /** Main.java:103-131. Unknown names are reported; otherwise the answer is a
      shortest route exactly when the end can be reached from the start. */
  method FindShortestRoute(m: CampusMap, start: string, end: string) returns (r: Route, ghost route: seq<Key>)
    requires m.Valid() && NonNegative(m.Adjacency())
    ensures r == UnknownBuilding <==> Normalize(start) !in m.buildings || Normalize(end) !in m.buildings
    ensures r == NoPathFound <==>
              && Normalize(start) in m.buildings && Normalize(end) in m.buildings
              && !Reachable(m.Adjacency(), Normalize(start), Normalize(end))
    ensures r.Path? ==>
              && IsShortestPath(m.Adjacency(), route, Normalize(start), Normalize(end))
              && |r.names| == |route|
              && forall i :: 0 <= i < |route| ==> r.names[i] == m.buildings[route[i]].name
    ensures r.Path? ==> forall i, j :: 0 <= i < j < |route| ==> route[i] != route[j]
    ensures Normalize(start) == Normalize(end) && Normalize(start) in m.buildings ==>
              r == Path([m.buildings[Normalize(start)].name]) && route == [Normalize(start)]
  {
    var startBuilding, endBuilding := m.GetBuilding(start), m.GetBuilding(end);
    if startBuilding.None? || endBuilding.None? {
      return UnknownBuilding, [];
    }
    var g := m.Adjacency();
    assert Closed(g);
    r, route := RouteBetween(g, LabelsOf(m.buildings), startBuilding.value.key, endBuilding.value.key);
  }
}
