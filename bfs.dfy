/**
 * The graph and the breadth-first search of ch6_graphs/01_BFS_search
 * (Graph.py and main.py). Vertices are objects compared by identity, as
 * Python compares them when they are dict keys.
 */
module Bfs {
  import opened Wrappers

  /** A vertex's distance from the search start: infinity until the search reaches it. */
  datatype Distance = Infinity | Edges(n: nat)

  /** The weight an edge gets when none is given. */
  const DefaultWeight: real := 1.0

  class Vertex {
    const name: string  // `label`
    var distance: Distance
    /** `next` is set to None and never written. */
    const next: Option<Vertex>

    /** A new vertex: infinitely far away, and no `next`. */
    constructor (name: string)
      ensures this.name == name && distance == Infinity && next == None
    {
      this.name := name;
      distance := Infinity;
      next := None;
    }
  }

  /** The adjacency lists of a graph: the vertices each vertex has an edge to, in the order they were added. */
  type Adjacency = map<Vertex, seq<Vertex>>

  class Graph {
    var adjacency: Adjacency
    var weights: map<(Vertex, Vertex), real>
    /** The labels of every edge added, for plotting. */
    var edges: seq<(string, string)>

    /** An empty graph. */
    constructor ()
      ensures adjacency == map[] && weights == map[] && edges == []
    {
      adjacency := map[];
      weights := map[];
      edges := [];
    }

    /** `add_vertex`: the vertex's adjacency list becomes empty, even when it had neighbours. */
    method AddVertex(v: Vertex)
      modifies this
      ensures adjacency == old(adjacency)[v := []]
      ensures weights == old(weights) && edges == old(edges)
    {
      adjacency := adjacency[v := []];
    }

    /**
     * `add_directed_edge`: the weight of (from, to) is written (the last
     * write wins), `to` is appended to the adjacency list of `from` and the
     * label pair is recorded. A `from` that is not a vertex raises
     * `KeyError` (`ok` is false) after the weight was written.
     */
    method AddDirectedEdge(from: Vertex, to: Vertex, weight: real) returns (ok: bool)
      modifies this
      ensures weights == old(weights)[(from, to) := weight]
      ensures ok <==> from in old(adjacency)
      ensures ok ==> adjacency == old(adjacency)[from := old(adjacency)[from] + [to]]
      ensures ok ==> edges == old(edges) + [(from.name, to.name)]
      ensures !ok ==> adjacency == old(adjacency) && edges == old(edges)
    {
      weights := weights[(from, to) := weight];
      if from !in adjacency {
        return false;
      }
      adjacency := adjacency[from := adjacency[from] + [to]];
      edges := edges + [(from.name, to.name)];
      ok := true;
    }

    /**
     * `add_undirected_edge`: an edge each way with the same weight, so each
     * vertex lists the other; it stops at the first `KeyError`.
     */
    method AddUndirectedEdge(a: Vertex, b: Vertex, weight: real) returns (ok: bool)
      modifies this
      ensures ok <==> a in old(adjacency) && b in old(adjacency)
      ensures a in old(adjacency) ==> weights == old(weights)[(a, b) := weight][(b, a) := weight]
      ensures ok ==> weights[(a, b)] == weights[(b, a)] == weight
      ensures ok ==> adjacency.Keys == old(adjacency).Keys && b in adjacency[a] && a in adjacency[b]
      ensures ok ==> forall v :: v in adjacency && v != a && v != b ==> adjacency[v] == old(adjacency)[v]
      ensures ok ==> edges == old(edges) + [(a.name, b.name), (b.name, a.name)]
    {
      ok := AddDirectedEdge(a, b, weight);
      if ok {
        ok := AddDirectedEdge(b, a, weight);
      }
    }
  }

  /** The vertices one edge away from a vertex of `S`. */
  ghost function Next(G: Adjacency, S: set<Vertex>): set<Vertex> {
    set u, v | u in S && u in G && v in G[u] :: v
  }

  /** The vertices at most `n` edges away from `s`. */
  ghost function Within(G: Adjacency, s: Vertex, n: nat): set<Vertex> {
    if n == 0 then {s} else Within(G, s, n - 1) + Next(G, Within(G, s, n - 1))
  }

  /** `v` can be reached from `s` along edges. */
  ghost predicate Reachable(G: Adjacency, s: Vertex, v: Vertex) {
    exists n: nat {:trigger Within(G, s, n)} :: v in Within(G, s, n)
  }

  /** Every vertex some adjacency list names. */
  ghost function Listed(G: Adjacency): set<Vertex> {
    set u, v | u in G && v in G[u] :: v
  }

  /** A vertex listed after `u` is listed. */
  lemma ListedNeighbour(G: Adjacency, u: Vertex, v: Vertex)
    requires u in G && v in G[u]
    ensures v in Listed(G)
  {
  }

  /** Distances the search has given, by vertex: what the `distance` fields of discovered vertices hold. */
  type Distances = map<Vertex, nat>

  /** The `distance` field of every vertex in `dist` holds its distance there. */
  ghost predicate Mirror(dist: Distances)
    reads dist.Keys
  {
    forall v :: v in dist ==> v.distance == Edges(dist[v])
  }

  /** The distances of some vertices, as a search found them. */
  type Snapshot = map<Vertex, Distance>

  /** The vertices of `before` without a distance in `dist` still have the distance they had in `before`. */
  ghost predicate Untouched(before: Snapshot, dist: Distances)
    reads set v | v in before && v !in dist
  {
    forall v :: v in before && v !in dist ==> v.distance == before[v]
  }

  /**
   * The discovered list: the start first at distance 0, no vertex twice,
   * exactly the vertices with a distance, and each reachable in as many
   * edges as its distance says.
   */
  ghost predicate Sound(G: Adjacency, s: Vertex, D: seq<Vertex>, dist: Distances) {
    |D| > 0 && D[0] == s && s in dist && dist[s] == 0 &&
    (forall i, j :: 0 <= i < j < |D| ==> D[i] != D[j]) &&
    (forall i :: 0 <= i < |D| ==> D[i] in dist) && (forall v :: v in dist ==> v in D) &&
    forall v :: v in dist ==> v in Within(G, s, dist[v])
  }

  /** Distances never fall along the discovered list. */
  ghost predicate Ordered(D: seq<Vertex>, dist: Distances) {
    (forall i :: 0 <= i < |D| ==> D[i] in dist) &&
    forall i, j :: 0 <= i <= j < |D| ==> dist[D[i]] <= dist[D[j]]
  }

  /** `u` has all its neighbours discovered, none more than one edge further than `u`. */
  ghost predicate Settled(G: Adjacency, dist: Distances, u: Vertex) {
    u in G && u in dist && forall v :: v in G[u] ==> v in dist && dist[v] <= dist[u] + 1
  }

  /** The first `k` discovered vertices are settled. */
  ghost predicate Explored(G: Adjacency, D: seq<Vertex>, dist: Distances, k: nat) {
    k <= |D| && forall i :: 0 <= i < k ==> Settled(G, dist, D[i])
  }

  /** Where the search is: between two pops, or scanning the neighbours of the popped vertex `u`, the first `j` of them seen. */
  datatype Phase = Between | Scanning(u: Vertex, j: nat)

  /**
   * The invariant of the search, with the popped vertices the first `head`
   * discovered ones. The list is sound and ordered, and the popped
   * vertices are settled. Between two pops, the queue spans at most one
   * distance. While the popped `u` is scanned, nothing past one edge
   * further than `u` is discovered, and so are its first `j` neighbours.
   */
  ghost predicate Underway(G: Adjacency, s: Vertex, D: seq<Vertex>, dist: Distances, head: nat, phase: Phase) {
    match phase
    case Between =>
      Common(G, s, D, dist, head) && (head < |D| ==> dist[D[|D| - 1]] <= dist[D[head]] + 1)
    case Scanning(u, j) =>
      Common(G, s, D, dist, head) && head < |D| && D[head] == u && u in G &&
      dist[D[|D| - 1]] <= dist[u] + 1 && Seen(G, dist, u, j)
  }

  /** In both phases: the list is sound and ordered, and the first `head` vertices are settled. */
  ghost predicate Common(G: Adjacency, s: Vertex, D: seq<Vertex>, dist: Distances, head: nat) {
    Sound(G, s, D, dist) && Ordered(D, dist) && Explored(G, D, dist, head)
  }

  /** The first `j` neighbours of `u` are discovered, none more than one edge further than `u`. */
  ghost predicate Seen(G: Adjacency, dist: Distances, u: Vertex, j: nat) {
    u in G && u in dist && j <= |G[u]| &&
    forall k :: 0 <= k < j ==> G[u][k] in dist && dist[G[u][k]] <= dist[u] + 1
  }

  /**
   * What a finished search promises about the discovered list `D`: start
   * first, each vertex once, each with its fewest-edge count from `s` as
   * distance.
   */
  ghost predicate Found(G: Adjacency, s: Vertex, D: seq<Vertex>)
    reads set v | v in D
  {
    |D| > 0 && D[0] == s &&
    (forall i, j :: 0 <= i < j < |D| ==> D[i] != D[j]) &&
    forall v :: v in D ==>
      v.distance.Edges? && v in Within(G, s, v.distance.n) &&
      forall n: nat :: v in Within(G, s, n) ==> v.distance.n <= n
  }

  /**
   * `breadth_first_search(graph, start)`: vertices are discovered in
   * order of distance from the start. It returns the discovered vertices,
   * start first, each once: exactly the vertices reachable from the start.
   * Each has as distance its fewest-edge count from the start, and the
   * others keep their distance. Popping a vertex with no adjacency list
   * raises `KeyError` (`None`), which happens exactly when some reachable
   * vertex has none.
   */
  method BreadthFirstSearch(graph: Graph, start: Vertex) returns (r: Option<seq<Vertex>>)
    modifies {start} + Listed(graph.adjacency)
    ensures r.Some? <==> forall v :: Reachable(old(graph.adjacency), start, v) ==> v in old(graph.adjacency)
    ensures r.Some? ==> Found(old(graph.adjacency), start, r.value)
    ensures r.Some? ==> Nearer(r.value)
    ensures r.Some? ==> forall v :: v in r.value <==> Reachable(old(graph.adjacency), start, v)
    ensures r.Some? ==> forall v :: v in Listed(old(graph.adjacency)) && v !in r.value ==> v.distance == old(v.distance)
  {
    var adjacency := graph.adjacency;
    ghost var U := {start} + Listed(adjacency);
    ghost var before := map v | v in U :: v.distance;
    assert forall v :: v in before ==> before[v] == old(v.distance);
    start.distance := Edges(0);
    var discovered := [start];
    var frontier := [start];
    ghost var dist: Distances := map[start := 0];
    ghost var head := 0;
    Initial(adjacency, start);
    while frontier != []
      invariant head <= |discovered| && frontier == discovered[head..]
      invariant Underway(adjacency, start, discovered, dist, head, Between)
      invariant dist.Keys <= U && Mirror(dist) && Untouched(before, dist)
      decreases U - dist.Keys, |frontier|
    {
      var current := frontier[0];
      frontier := frontier[1..];
      DropFirst(discovered, head);
      if current !in adjacency {
        assert Reachable(adjacency, start, current) by {
          assert current == discovered[head];
          Unexplored(adjacency, start, discovered, dist, head);
        }
        return None;
      }
      ghost var (discovered0, dist0) := (discovered, dist);
      discovered, frontier, dist := Explore(adjacency, start, current, discovered, frontier, dist, head, before);
      Shrinks(adjacency, U, discovered0, dist0, discovered, dist);
      head := head + 1;
    }
    assert head == |discovered|;
    Completeness(adjacency, start, discovered, dist);
    OrderedFields(discovered, dist);
    UntouchedRest(discovered, dist, before);
    r := Some(discovered);
  }

  /** Every vertex of `D` has a distance, and distances never fall along `D`. */
  ghost predicate Nearer(D: seq<Vertex>)
    reads set v | v in D
  {
    forall i, j :: 0 <= i <= j < |D| ==> D[i].distance.Edges? && D[j].distance.Edges? && D[i].distance.n <= D[j].distance.n
  }

  /** Distances that never fall along the list, mirrored in the fields, never fall in the fields either. */
  lemma OrderedFields(D: seq<Vertex>, dist: Distances)
    requires Ordered(D, dist) && Mirror(dist)
    ensures Nearer(D)
  {
    forall i, j | 0 <= i <= j < |D|
      ensures D[i].distance.Edges? && D[j].distance.Edges? && D[i].distance.n <= D[j].distance.n
    {
      assert D[i] in dist && D[j] in dist;
    }
  }

  /** The search starts from the start alone, at distance 0, with nothing popped. */
  lemma Initial(G: Adjacency, s: Vertex)
    ensures Underway(G, s, [s], map[s := 0], 0, Between)
  {
    assert s in Within(G, s, 0);
  }

  /** A scan leaves fewer vertices of `U` undiscovered, or as many and the same list. */
  lemma Shrinks(G: Adjacency, U: set<Vertex>, D0: seq<Vertex>, dist0: Distances, D: seq<Vertex>, dist: Distances)
    requires Listed(G) <= U && dist0.Keys <= U && Grown(G, D0, dist0, D, dist)
    ensures dist.Keys <= U
    ensures U - dist.Keys < U - dist0.Keys || (U - dist.Keys == U - dist0.Keys && |D| == |D0|)
  {
    if |D| != |D0| {
      var v :| v in dist.Keys && v !in dist0.Keys;
      assert v in U - dist0.Keys && v !in U - dist.Keys;
    }
  }

  /** The vertex at the head of the queue is reachable, so one without an adjacency list is a reachable vertex without one. */
  lemma Unexplored(G: Adjacency, s: Vertex, D: seq<Vertex>, dist: Distances, head: nat)
    requires Underway(G, s, D, dist, head, Between) && head < |D|
    ensures Reachable(G, s, D[head])
  {
    DiscoveredReachable(G, s, D, dist, D[head]);
  }

  /** What a scan adds: more vertices with a distance, all of them listed, and at least one more whenever the list grew. */
  ghost predicate Grown(G: Adjacency, D0: seq<Vertex>, dist0: Distances, D: seq<Vertex>, dist: Distances) {
    dist0.Keys <= dist.Keys <= dist0.Keys + Listed(G) && (|D| == |D0| || dist0.Keys < dist.Keys)
  }

  /**
   * The inner loop of `breadth_first_search` for a popped vertex `u`: every
   * neighbour not yet discovered (`discovered.count(v) == 0`) is pushed,
   * appended and given distance one more than `u`, after which `u` is
   * settled.
   */
  method Explore(G: Adjacency, ghost start: Vertex, u: Vertex, discovered: seq<Vertex>,
                 frontier: seq<Vertex>, ghost dist: Distances, ghost head: nat, ghost before: Snapshot)
      returns (discovered': seq<Vertex>, frontier': seq<Vertex>, ghost dist': Distances)
    requires Untouched(before, dist)
    requires Underway(G, start, discovered, dist, head, Between) && Mirror(dist)
    requires head < |discovered| && u == discovered[head] && u in G
    requires frontier == discovered[head + 1..]
    modifies Listed(G)
    ensures head + 1 <= |discovered'| && frontier' == discovered'[head + 1..]
    ensures Underway(G, start, discovered', dist', head + 1, Between) && Mirror(dist')
    ensures Grown(G, discovered, dist, discovered', dist') && Untouched(before, dist')
    ensures Reached(G, u, dist, dist', dist[u] + 1)
  {
    discovered', frontier', dist' := Scan(G, start, u, discovered, frontier, dist, head, before);
    SettledNow(G, start, discovered', dist', head, u);
  }

  /** The scan of the neighbours of the popped vertex `u`, one `Visit` each. */
  method Scan(G: Adjacency, ghost start: Vertex, u: Vertex, discovered: seq<Vertex>,
              frontier: seq<Vertex>, ghost dist: Distances, ghost head: nat, ghost before: Snapshot)
      returns (discovered': seq<Vertex>, frontier': seq<Vertex>, ghost dist': Distances)
    requires Untouched(before, dist)
    requires Underway(G, start, discovered, dist, head, Between) && Mirror(dist)
    requires head < |discovered| && u == discovered[head] && u in G
    requires frontier == discovered[head + 1..]
    modifies Listed(G)
    ensures Underway(G, start, discovered', dist', head, Scanning(u, |G[u]|)) && Mirror(dist')
    ensures frontier' == discovered'[head + 1..]
    ensures Grown(G, discovered, dist, discovered', dist') && Untouched(before, dist')
    ensures Reached(G, u, dist, dist', dist[u] + 1)
  {
    var neighbours := G[u];
    discovered', frontier', dist' := discovered, frontier, dist;
    for j := 0 to |neighbours|
      invariant Underway(G, start, discovered', dist', head, Scanning(u, j)) && Mirror(dist')
      invariant frontier' == discovered'[head + 1..]
      invariant Grown(G, discovered, dist, discovered', dist') && Untouched(before, dist')
      invariant u in dist' && dist'[u] == dist[u] && Reached(G, u, dist, dist', dist[u] + 1)
    {
      ListedNeighbour(G, u, neighbours[j]);
      ghost var D, M := discovered', dist';
      discovered', frontier', dist' := Visit(u, neighbours[j], discovered', frontier', dist', head, before);
      Scanned(G, start, D, M, head, u, j, discovered', dist');
      Widened(G, u, j, discovered, dist, D, M, discovered', dist');
    }
  }

  /** Every vertex `dist` has beyond `dist0` is a neighbour of `u` at distance `n`. */
  ghost predicate Reached(G: Adjacency, u: Vertex, dist0: Distances, dist: Distances, n: nat) {
    u in G && forall v :: v in dist && v !in dist0 ==> v in G[u] && dist[v] == n
  }

  /**
   * One step of the neighbour scan: the `j`-th neighbour `v` of `u`, when
   * not yet discovered, is pushed, appended and given distance one more
   * than `u`.
   */
  method Visit(u: Vertex, v: Vertex, discovered: seq<Vertex>, frontier: seq<Vertex>,
               ghost dist: Distances, ghost head: nat, ghost before: Snapshot)
      returns (discovered': seq<Vertex>, frontier': seq<Vertex>, ghost dist': Distances)
    requires head < |discovered| && discovered[head] == u && u in dist
    requires (forall w :: w in dist ==> w in discovered) && Mirror(dist) && Untouched(before, dist)
    requires frontier == discovered[head + 1..]
    modifies v
    ensures head < |discovered'| && frontier' == discovered'[head + 1..]
    ensures Mirror(dist') && Untouched(before, dist')
    ensures discovered' == if v in discovered then discovered else discovered + [v]
    ensures dist' == if v in discovered then dist else dist[v := dist[u] + 1]
    ensures v !in discovered ==> v.distance == Edges(dist[u] + 1) && u.distance == Edges(dist[u])
  {
    if v !in discovered {
      AppendTail(discovered, v, head + 1);
      UntouchedGrow(before, dist, v, dist[u] + 1);
      var d := u.distance.n;
      assert d == dist[u];
      v.distance := Edges(d + 1);
      MirrorExtend(dist, v, dist[u] + 1);
      discovered', frontier', dist' := discovered + [v], frontier + [v], dist[v := dist[u] + 1];
    } else {
      discovered', frontier', dist' := discovered, frontier, dist;
    }
  }

  /**
   * One step of the scan seen from its start: visiting the `j`-th neighbour
   * `v` of `u` keeps the list growing, and whatever it adds is a neighbour of
   * `u` one edge further than `u`.
   */
  lemma Widened(G: Adjacency, u: Vertex, j: nat, D0: seq<Vertex>, dist0: Distances,
                D: seq<Vertex>, dist: Distances, D': seq<Vertex>, dist': Distances)
    requires u in G && j < |G[u]| && u in dist && u in dist0 && dist[u] == dist0[u]
    requires Grown(G, D0, dist0, D, dist) && Reached(G, u, dist0, dist, dist0[u] + 1)
    requires (forall w :: w in dist ==> w in D) && forall i :: 0 <= i < |D| ==> D[i] in dist
    requires D' == if G[u][j] in D then D else D + [G[u][j]]
    requires dist' == if G[u][j] in D then dist else dist[G[u][j] := dist[u] + 1]
    ensures Grown(G, D0, dist0, D', dist') && Reached(G, u, dist0, dist', dist0[u] + 1)
    ensures u in dist' && dist'[u] == dist0[u]
  {
    ListedNeighbour(G, u, G[u][j]);
  }

  /** A vertex whose field holds `n` may be added to a mirrored map at `n`. */
  lemma MirrorExtend(dist: Distances, v: Vertex, n: nat)
    requires Mirror(dist) && v.distance == Edges(n)
    ensures Mirror(dist[v := n])
  {
  }

  /** A vertex given a distance drops out of what is left untouched. */
  lemma UntouchedGrow(before: Snapshot, dist: Distances, v: Vertex, n: nat)
    requires Untouched(before, dist)
    ensures Untouched(before, dist[v := n])
  {
  }

  /** Appending to a list appends to each of its tails. */
  lemma AppendTail<T>(D: seq<T>, v: T, h: nat)
    requires h <= |D|
    ensures (D + [v])[h..] == D[h..] + [v]
  {
  }

  /** Dropping the first element of a tail leaves the next tail. */
  lemma DropFirst<T>(D: seq<T>, h: nat)
    requires h < |D|
    ensures D[h..][1..] == D[h + 1..]
  {
  }

  /** Seeing the `j`-th neighbour of `u`, and discovering it if it is new, extends the scan. */
  lemma Scanned(G: Adjacency, s: Vertex, D: seq<Vertex>, dist: Distances, head: nat, u: Vertex, j: nat,
                D': seq<Vertex>, dist': Distances)
    requires Underway(G, s, D, dist, head, Scanning(u, j)) && j < |G[u]|
    requires D' == if G[u][j] in D then D else D + [G[u][j]]
    requires dist' == if G[u][j] in D then dist else dist[G[u][j] := dist[u] + 1]
    ensures Underway(G, s, D', dist', head, Scanning(u, j + 1))
  {
    if G[u][j] in D {
      SeenBefore(G, s, D, dist, head, u, j);
    } else {
      Discovered(G, s, D, dist, head, u, j, G[u][j]);
    }
  }

  /** A neighbour already discovered is at most one edge further than `u`. */
  lemma SeenBefore(G: Adjacency, s: Vertex, D: seq<Vertex>, dist: Distances, head: nat, u: Vertex, j: nat)
    requires Underway(G, s, D, dist, head, Scanning(u, j)) && j < |G[u]| && G[u][j] in D
    ensures Underway(G, s, D, dist, head, Scanning(u, j + 1))
  {
    var v := G[u][j];
    assert dist[v] <= dist[u] + 1 by {
      var i :| 0 <= i < |D| && D[i] == v;
      assert Ordered(D, dist);
      assert dist[D[i]] <= dist[D[|D| - 1]];
    }
    SeenOneMore(G, dist, u, j);
  }

  /** Seeing the next neighbour, discovered and at most one edge further, extends the scan. */
  lemma SeenOneMore(G: Adjacency, dist: Distances, u: Vertex, j: nat)
    requires Seen(G, dist, u, j) && j < |G[u]| && G[u][j] in dist && dist[G[u][j]] <= dist[u] + 1
    ensures Seen(G, dist, u, j + 1)
  {
  }

  /** Appending a neighbour `v` of `u` not yet discovered, at one edge more than `u`, keeps the list partial. */
  lemma Discovered(G: Adjacency, s: Vertex, D: seq<Vertex>, dist: Distances, head: nat, u: Vertex, j: nat, v: Vertex)
    requires Underway(G, s, D, dist, head, Scanning(u, j)) && j < |G[u]| && v == G[u][j] && v !in D
    ensures Underway(G, s, D + [v], dist[v := dist[u] + 1], head, Scanning(u, j + 1))
    ensures Grown(G, D, dist, D + [v], dist[v := dist[u] + 1]) && v !in dist
  {
    var D', dist' := D + [v], dist[v := dist[u] + 1];
    assert u in dist && v !in dist;
    ListedNeighbour(G, u, v);
    SoundAppend(G, s, D, dist, u, v);
    OrderedAppend(D, dist, u, v);
    ExploredAppend(G, D, dist, head, v, dist[u] + 1);
    SeenNew(G, dist, u, j);
  }

  /** Giving the next neighbour, not yet discovered, one edge more than `u` extends the scan. */
  lemma SeenNew(G: Adjacency, dist: Distances, u: Vertex, j: nat)
    requires Seen(G, dist, u, j) && j < |G[u]| && G[u][j] !in dist
    ensures Seen(G, dist[G[u][j] := dist[u] + 1], u, j + 1)
  {
    var dist' := dist[G[u][j] := dist[u] + 1];
    assert forall k :: 0 <= k < j ==> G[u][k] in dist && dist'[G[u][k]] == dist[G[u][k]];
  }

  /** Appending a neighbour `v` of a discovered `u`, at one edge more than `u`, keeps the list sound. */
  lemma SoundAppend(G: Adjacency, s: Vertex, D: seq<Vertex>, dist: Distances, u: Vertex, v: Vertex)
    requires Sound(G, s, D, dist) && u in dist && u in G && v in G[u] && v !in D
    ensures Sound(G, s, D + [v], dist[v := dist[u] + 1])
  {
    var D', dist' := D + [v], dist[v := dist[u] + 1];
    assert v !in dist;
    assert v in Within(G, s, dist'[v]) by {
      assert u in Within(G, s, dist[u]);
      assert v in Next(G, Within(G, s, dist[u]));
    }
    assert forall i :: 0 <= i < |D| ==> D'[i] == D[i];
  }

  /** Appending `v` at one more than `u`, which is no less than the last distance minus one, keeps the list ordered. */
  lemma OrderedAppend(D: seq<Vertex>, dist: Distances, u: Vertex, v: Vertex)
    requires Ordered(D, dist) && |D| > 0 && u in dist && v !in dist && dist[D[|D| - 1]] <= dist[u] + 1
    ensures Ordered(D + [v], dist[v := dist[u] + 1])
  {
    assert forall i :: 0 <= i < |D| ==> D[i] != v;
    assert forall i :: 0 <= i < |D| ==> (D + [v])[i] == D[i];
  }

  /** Giving a distance to a vertex without one leaves settled vertices settled. */
  lemma ExploredAppend(G: Adjacency, D: seq<Vertex>, dist: Distances, head: nat, v: Vertex, d: nat)
    requires Explored(G, D, dist, head) && v !in dist
    ensures Explored(G, D + [v], dist[v := d], head)
  {
    forall i | 0 <= i < head ensures Settled(G, dist[v := d], (D + [v])[i]) {
      assert (D + [v])[i] == D[i] && Settled(G, dist, D[i]);
    }
  }

  /** Once every neighbour of `u` was seen, `u` is settled and the queue after it spans at most one distance. */
  lemma SettledNow(G: Adjacency, s: Vertex, D: seq<Vertex>, dist: Distances, head: nat, u: Vertex)
    requires u in G && Underway(G, s, D, dist, head, Scanning(u, |G[u]|))
    ensures Underway(G, s, D, dist, head + 1, Between)
  {
    assert Settled(G, dist, u);
  }

  /** Every discovered vertex is reachable from the start. */
  lemma DiscoveredReachable(G: Adjacency, s: Vertex, D: seq<Vertex>, dist: Distances, v: Vertex)
    requires Sound(G, s, D, dist) && v in dist
    ensures Reachable(G, s, v)
  {
    assert v in Within(G, s, dist[v]);
  }

  /**
   * Once every discovered vertex is settled, every vertex `n` edges from
   * the start is discovered with distance at most `n`; so the discovered
   * vertices are exactly the reachable ones, each at its fewest-edge
   * count.
   */
  lemma Completeness(G: Adjacency, s: Vertex, D: seq<Vertex>, dist: Distances)
    requires Underway(G, s, D, dist, |D|, Between)
    requires Mirror(dist)
    ensures Found(G, s, D)
    ensures forall v :: v in D <==> Reachable(G, s, v)
    ensures forall v :: Reachable(G, s, v) ==> v in G
  {
    forall n: nat, v | v in Within(G, s, n) ensures v in dist && dist[v] <= n {
      WithinDiscovered(G, s, D, dist, n, v);
    }
    forall v | v in D ensures Reachable(G, s, v) {
      DiscoveredReachable(G, s, D, dist, v);
    }
    forall v | Reachable(G, s, v) ensures v in D {
      var n: nat :| v in Within(G, s, n);
      WithinDiscovered(G, s, D, dist, n, v);
    }
    forall v | v in D ensures v.distance.Edges? && v in Within(G, s, v.distance.n) {
      assert v in dist;
    }
    forall v | Reachable(G, s, v) ensures v in G {
      var n: nat :| v in Within(G, s, n);
      WithinDiscovered(G, s, D, dist, n, v);
      var i :| 0 <= i < |D| && D[i] == v;
      assert Settled(G, dist, D[i]);
    }
  }

  /** A vertex the search did not discover still has the distance it had before the search. */
  lemma UntouchedRest(D: seq<Vertex>, dist: Distances, before: Snapshot)
    requires Untouched(before, dist) && forall v :: v in dist ==> v in D
    ensures forall v :: v in before && v !in D ==> v.distance == before[v]
  {
  }

  /** By induction on `n`: a vertex `n` edges away is discovered, at distance at most `n`. */
  lemma {:induction false} WithinDiscovered(G: Adjacency, s: Vertex, D: seq<Vertex>, dist: Distances, n: nat, v: Vertex)
    requires Underway(G, s, D, dist, |D|, Between) && v in Within(G, s, n)
    ensures v in dist && dist[v] <= n
  {
    if n > 0 && v !in Within(G, s, n - 1) {
      var u :| u in Within(G, s, n - 1) && u in G && v in G[u];
      WithinDiscovered(G, s, D, dist, n - 1, u);
      var i :| 0 <= i < |D| && D[i] == u;
      assert Settled(G, dist, D[i]);
    } else if n > 0 {
      WithinDiscovered(G, s, D, dist, n - 1, v);
    }
  }
}
