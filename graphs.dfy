/** The campus as a value: every registered key with its neighbour map
    (Main.java:7, 94), the four edits the registry makes to it, and the
    theory of routes over it that the shortest-route finder relies on. */
module Graphs {

  /** Registered key -> (neighbour key -> distance). The theory is generic in the key
      type; the registry instantiates it with its string keys. */
  type Graph<K> = map<K, map<K, int>>

  predicate Edge<K>(g: Graph<K>, u: K, v: K) {
    u in g && v in g[u]
  }

  /** The registry invariant: an edge is listed by both of its ends with the same
      distance, and every neighbour is a registered building. */
  ghost predicate Consistent<K>(g: Graph<K>) {
    forall u, v :: u in g && v in g[u] ==> v in g && u in g[v] && g[v][u] == g[u][v]
  }

  /** Every neighbour is a registered building. */
  ghost predicate Closed<K>(g: Graph<K>) {
    forall u, v :: u in g && v in g[u] ==> v in g
  }

  ghost predicate NonNegative<K>(g: Graph<K>) {
    forall u, v :: u in g && v in g[u] ==> g[u][v] >= 0
  }

  // ----- the registry's edits -----

  /** A new building starts with no neighbours (Main.java:14, 94). */
  function AddNode<K>(g: Graph<K>, k: K): (r: Graph<K>)
    requires k !in g
    ensures r.Keys == g.Keys + {k}
    ensures r[k] == map[]
    ensures forall u :: u in g ==> r[u] == g[u]
  {
    g[k := map[]]
  }

  /** The removed key disappears and every other neighbour map forgets it (Main.java:22-23). */
  function RemoveNode<K>(g: Graph<K>, k: K): (r: Graph<K>)
    ensures r.Keys == g.Keys - {k}
    ensures forall u :: u in r ==> k !in r[u]
    ensures forall u, v :: u in r && v in g[u] && v != k ==> v in r[u] && r[u][v] == g[u][v]
    ensures forall u, v :: u in r && v in r[u] ==> v in g[u]
  {
    map u | u in g && u != k :: g[u] - {k}
  }

  /** from->to and then to->from get the distance, replacing earlier weights (Main.java:30-31, 96). */
  function Connect<K>(g: Graph<K>, a: K, b: K, w: int): (r: Graph<K>)
    requires a in g && b in g
    ensures r.Keys == g.Keys
    ensures b in r[a] && r[a][b] == w && a in r[b] && r[b][a] == w
    ensures forall u, v :: u in g && v in g[u] && (u, v) != (a, b) && (u, v) != (b, a) ==>
              v in r[u] && r[u][v] == g[u][v]
    ensures forall u, v :: u in r && v in r[u] && (u, v) != (a, b) && (u, v) != (b, a) ==> v in g[u]
  {
    var g1 := g[a := g[a][b := w]];
    g1[b := g1[b][a := w]]
  }

  /** Both directed entries go, whether or not they were there (Main.java:40-41). */
  function Disconnect<K>(g: Graph<K>, a: K, b: K): (r: Graph<K>)
    requires a in g && b in g
    ensures r.Keys == g.Keys
    ensures b !in r[a] && a !in r[b]
    ensures forall u, v :: u in g && v in g[u] && (u, v) != (a, b) && (u, v) != (b, a) ==>
              v in r[u] && r[u][v] == g[u][v]
    ensures forall u, v :: u in r && v in r[u] && (u, v) != (a, b) && (u, v) != (b, a) ==> v in g[u]
  {
    var g1 := g[a := g[a] - {b}];
    g1[b := g1[b] - {a}]
  }

  lemma AddNodeKeepsConsistent<K>(g: Graph<K>, k: K)
    requires Consistent(g) && k !in g
    ensures Consistent(AddNode(g, k))
  {
  }

  lemma RemoveNodeKeepsConsistent<K>(g: Graph<K>, k: K)
    requires Consistent(g)
    ensures Consistent(RemoveNode(g, k))
  {
  }

  lemma ConnectKeepsConsistent<K>(g: Graph<K>, a: K, b: K, w: int)
    requires Consistent(g) && a in g && b in g
    ensures Consistent(Connect(g, a, b, w))
  {
  }

  lemma DisconnectKeepsConsistent<K>(g: Graph<K>, a: K, b: K)
    requires Consistent(g) && a in g && b in g
    ensures Consistent(Disconnect(g, a, b))
  {
  }

  /** Removing a building just added restores the campus before it was added. */
  lemma RemoveNodeUndoesAddNode<K>(g: Graph<K>, k: K)
    requires Closed(g) && k !in g
    ensures RemoveNode(AddNode(g, k), k) == g
  {
    var back := RemoveNode(AddNode(g, k), k);
    forall u | u in g ensures back[u] == g[u] {
      assert k !in g[u];
    }
  }

  /** Connecting a pair again replaces its weight: one entry per direction, never two. */
  lemma ReconnectOverwrites<K>(g: Graph<K>, a: K, b: K, w1: int, w2: int)
    requires a in g && b in g
    ensures Connect(Connect(g, a, b, w1), a, b, w2) == Connect(g, a, b, w2)
  {
    var twice, once := Connect(Connect(g, a, b, w1), a, b, w2), Connect(g, a, b, w2);
    forall u | u in once ensures twice[u] == once[u] {
      assert twice[u].Keys == once[u].Keys;
    }
  }

  /** Disconnecting twice leaves the state of disconnecting once. */
  lemma DisconnectIdempotent<K>(g: Graph<K>, a: K, b: K)
    requires a in g && b in g
    ensures Disconnect(Disconnect(g, a, b), a, b) == Disconnect(g, a, b)
  {
    var twice, once := Disconnect(Disconnect(g, a, b), a, b), Disconnect(g, a, b);
    forall u | u in once ensures twice[u] == once[u] {
      assert twice[u].Keys == once[u].Keys;
    }
  }

  /** Disconnecting restores the state before a connect of a pair that had no edge. */
  lemma DisconnectUndoesConnect<K>(g: Graph<K>, a: K, b: K, w: int)
    requires a in g && b in g && b !in g[a] && a !in g[b]
    ensures Disconnect(Connect(g, a, b, w), a, b) == g
  {
    var back := Disconnect(Connect(g, a, b, w), a, b);
    forall u | u in g ensures back[u] == g[u] {
      assert back[u].Keys == g[u].Keys;
    }
  }

  // ----- routes -----

  function EdgeWeight<K>(g: Graph<K>, u: K, v: K): int {
    if Edge(g, u, v) then g[u][v] else 0
  }

  /** p names registered buildings and each consecutive pair is connected. */
  ghost predicate IsWalk<K>(g: Graph<K>, p: seq<K>) {
    && (forall i :: 0 <= i < |p| ==> p[i] in g)
    && (forall i :: 0 <= i < |p| - 1 ==> p[i + 1] in g[p[i]])
  }

  ghost predicate IsPath<K>(g: Graph<K>, p: seq<K>, s: K, t: K) {
    |p| > 0 && p[0] == s && p[|p| - 1] == t && IsWalk(g, p)
  }

  /** Sum of the distances along p. */
  function Weight<K>(g: Graph<K>, p: seq<K>): int
    decreases |p|
  {
    if |p| < 2 then 0 else Weight(g, p[..|p| - 1]) + EdgeWeight(g, p[|p| - 2], p[|p| - 1])
  }

  ghost predicate Reachable<K(!new)>(g: Graph<K>, s: K, t: K) {
    exists p :: IsPath(g, p, s, t)
  }

  /** p is a route from s to t no heavier than any other route from s to t. */
  ghost predicate IsShortestPath<K(!new)>(g: Graph<K>, p: seq<K>, s: K, t: K) {
    IsPath(g, p, s, t) && forall q :: IsPath(g, q, s, t) ==> Weight(g, p) <= Weight(g, q)
  }

  /** No edge out of a key with a distance can improve its neighbour's distance. */
  ghost predicate IsFixpoint<K>(g: Graph<K>, dist: map<K, int>) {
    forall u, v :: u in dist && u in g && v in g[u] ==> v in dist && dist[v] <= dist[u] + g[u][v]
  }

  lemma {:induction false} WeightPrepend<K>(g: Graph<K>, u: K, p: seq<K>)
    requires |p| > 0
    ensures Weight(g, [u] + p) == EdgeWeight(g, u, p[0]) + Weight(g, p)
    decreases |p|
  {
    if |p| > 1 {
      var n := |p| - 1;
      assert ([u] + p)[..|p|] == [u] + p[..n];
      WeightPrepend(g, u, p[..n]);
    } else {
      assert [u] + p == [u, p[0]];
      assert ([u] + p)[..1] == [u];
    }
  }

  lemma WalkPrepend<K>(g: Graph<K>, u: K, p: seq<K>, t: K)
    requires |p| > 0 && IsPath(g, p, p[0], t) && u in g && p[0] in g[u]
    ensures IsPath(g, [u] + p, u, t)
  {
    var q := [u] + p;
    forall i | 0 <= i < |q| - 1 ensures q[i + 1] in g[q[i]] {
      if i > 0 { assert q[i] == p[i - 1] && q[i + 1] == p[i]; }
    }
  }

  /** Along any route from s, a fixpoint's distance to the end is at most the
      start's distance plus the route's weight, and the end has a distance. */
  lemma {:induction false} FixpointBoundsPaths<K>(g: Graph<K>, dist: map<K, int>, s: K, p: seq<K>, t: K)
    requires IsFixpoint(g, dist) && s in dist
    requires IsPath(g, p, s, t)
    ensures t in dist && dist[t] <= dist[s] + Weight(g, p)
    decreases |p|
  {
    if |p| > 1 {
      var n := |p| - 1;
      var u := p[n - 1];
      assert IsPath(g, p[..n], s, u);
      FixpointBoundsPaths(g, dist, s, p[..n], u);
      assert t in g[u];
    }
  }

  /** A fixpoint that gives the start a distance gives one to everything reachable from it. */
  lemma ReachableHasDistance<K(!new)>(g: Graph<K>, dist: map<K, int>, s: K, t: K)
    requires IsFixpoint(g, dist) && s in dist
    ensures Reachable(g, s, t) ==> t in dist
  {
    if Reachable(g, s, t) {
      var p :| IsPath(g, p, s, t);
      FixpointBoundsPaths(g, dist, s, p, t);
    }
  }

  /** A route whose weight is within the fixpoint bound is a shortest route. */
  lemma BoundedRouteIsShortest<K(!new)>(g: Graph<K>, dist: map<K, int>, s: K, p: seq<K>, t: K)
    requires IsFixpoint(g, dist) && s in dist && t in dist
    requires IsPath(g, p, s, t) && dist[s] + Weight(g, p) <= dist[t]
    ensures IsShortestPath(g, p, s, t)
  {
    forall q | IsPath(g, q, s, t) ensures Weight(g, p) <= Weight(g, q) {
      FixpointBoundsPaths(g, dist, s, q, t);
    }
  }

  /** A route whose weight meets the fixpoint bound uses only tight edges. */
  lemma {:induction false} OptimalPathIsTight<K>(g: Graph<K>, dist: map<K, int>, s: K, p: seq<K>, t: K)
    requires IsFixpoint(g, dist) && s in dist
    requires IsPath(g, p, s, t) && t in dist && Weight(g, p) == dist[t] - dist[s]
    ensures forall i :: 0 <= i < |p| ==> p[i] in dist
    ensures forall i :: 0 <= i < |p| - 1 ==> dist[p[i + 1]] == dist[p[i]] + g[p[i]][p[i + 1]]
    decreases |p|
  {
    if |p| > 1 {
      var n := |p| - 1;
      var u := p[n - 1];
      assert IsPath(g, p[..n], s, u);
      FixpointBoundsPaths(g, dist, s, p[..n], u);
      assert t in g[u];
      OptimalPathIsTight(g, dist, s, p[..n], u);
      forall i | 0 <= i < |p| - 1
        ensures dist[p[i + 1]] == dist[p[i]] + g[p[i]][p[i + 1]]
      {
        if i < n - 1 { assert p[i] == p[..n][i] && p[i + 1] == p[..n][i + 1]; }
      }
    }
  }
}
