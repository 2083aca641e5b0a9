/**
 * The hub graph of Project/src/graph_impl.py: adjacency lists and a distance
 * table, both kept in the chaining map of hash_map.py, and Dijkstra's
 * shortest-path routine with a linear-scan minimum.
 *
 * A hub's transient `distance` and `previous_hub` attributes are kept as two
 * maps of the graph, `hubDistance` and `previousHub`; a hub that was never
 * given a value reads as `math.inf` and None, as a fresh Hub object does.
 */
module GraphImpl {
  import opened Wrappers
  import opened Buckets
  import opened HashMaps
  import opened Paths

  /** A hub of the delivery network (Project/models/hub.py): name, street address, zip code. */
  datatype Hub = Hub(name: string, address: string, zipcode: int)

  /** An item of `get_all_elements` on the adjacency map: a hub and its neighbour list. */
  type Entry = (Hub, seq<Hub>)

  /**
   * What `add_node` and `add_edge` keep true: neighbours are hubs of the
   * graph, no hub neighbours itself, adjacency is mutual, every adjacent pair
   * has a distance, and the distance table is symmetric.
   */
  ghost predicate WellFormed(adj: map<Hub, seq<Hub>>, w: map<(Hub, Hub), real>) {
    (forall a, b :: a in adj && b in adj[a] ==> b in adj && a != b && a in adj[b] && (a, b) in w) &&
    (forall a, b :: (a, b) in w ==> (b, a) in w && w[(b, a)] == w[(a, b)])
  }

  /** What `get_distance` answers: infinity unless both are hubs and `e` is adjacent to `s`. */
  ghost function DistanceBetween(adj: map<Hub, seq<Hub>>, w: map<(Hub, Hub), real>, s: Hub, e: Hub): Dist
    requires WellFormed(adj, w)
  {
    if s in adj && e in adj && e in adj[s] then Fin(w[(s, e)]) else Inf
  }

  /** In a well-formed graph the distance from `a` to `b` is the distance from `b` to `a`. */
  lemma DistanceSymmetric(adj: map<Hub, seq<Hub>>, w: map<(Hub, Hub), real>, a: Hub, b: Hub)
    requires WellFormed(adj, w)
    ensures DistanceBetween(adj, w, a, b) == DistanceBetween(adj, w, b, a)
  {
    if a in adj && b in adj[a] {
      assert a in adj[b];
    }
  }

  /** The hubs named by the entries of `queue`. */
  function HubsOf(queue: seq<Entry>): set<Hub> {
    if |queue| == 0 then {} else HubsOf(queue[..|queue| - 1]) + {queue[|queue| - 1].0}
  }

  /** A new hub without neighbours keeps the graph well formed. */
  lemma WellFormedAddNode(adj: map<Hub, seq<Hub>>, w: map<(Hub, Hub), real>, hub: Hub)
    requires WellFormed(adj, w) && hub !in adj
    ensures WellFormed(adj[hub := []], w)
  {
  }

  /** Writing one distance both ways keeps the graph well formed. */
  lemma WellFormedUpdate(adj: map<Hub, seq<Hub>>, w: map<(Hub, Hub), real>, a: Hub, b: Hub, d: real)
    requires WellFormed(adj, w)
    ensures WellFormed(adj, w[(a, b) := d][(b, a) := d])
  {
  }

  /** Making two distinct hubs mutual neighbours, with their distance both ways, keeps the graph well formed. */
  lemma WellFormedAddEdge(adj: map<Hub, seq<Hub>>, w: map<(Hub, Hub), real>, a: Hub, b: Hub, d: real)
    requires WellFormed(adj, w) && a in adj && b in adj && a != b
    ensures WellFormed(adj[a := adj[a] + [b]][b := adj[b] + [a]], w[(a, b) := d][(b, a) := d])
  {
    var adj' := adj[a := adj[a] + [b]][b := adj[b] + [a]];
    forall x, y | x in adj' && y in adj'[x]
      ensures y in adj' && x != y && x in adj'[y]
    {
      if (x, y) != (a, b) && (x, y) != (b, a) {
        assert y in adj[x] by {
          if x == a {
            assert y in adj[a] + [b];
          } else if x == b {
            assert y in adj[b] + [a];
          }
        }
        assert x in adj[y];
      }
    }
  }

  /** The `for x in s: if x == target` scan: the first position of `target`, or -1. */
  method FirstIndex<T(==)>(s: seq<T>, target: T) returns (i: int)
    ensures -1 <= i < |s|
    ensures i < 0 <==> target !in s
    ensures 0 <= i ==> s[i] == target && target !in s[..i]
  {
    i := 0;
    while i < |s|
      invariant 0 <= i <= |s| && target !in s[..i]
    {
      if s[i] == target {
        return;
      }
      assert s[..i + 1] == s[..i] + [s[i]];
      i := i + 1;
    }
    assert s[..i] == s;
    i := -1;
  }

  /** `h` is named by `queue` exactly when some entry of `queue` is about `h`. */
  lemma InHubsOf(queue: seq<Entry>, h: Hub)
    ensures h in HubsOf(queue) <==> exists i :: 0 <= i < |queue| && queue[i].0 == h
  {
    if |queue| > 0 {
      var q := queue[..|queue| - 1];
      InHubsOf(q, h);
      if h in HubsOf(q) {
        var i :| 0 <= i < |q| && q[i].0 == h;
        assert queue[i] == q[i];
      }
      if exists i :: 0 <= i < |queue| && queue[i].0 == h {
        var i :| 0 <= i < |queue| && queue[i].0 == h;
        if i < |q| {
          assert q[i] == queue[i];
        }
      }
    }
  }

  /** A queue holding exactly the entries of `adj` names exactly its hubs. */
  lemma EntriesCoverHubs(queue: seq<Entry>, adj: map<Hub, seq<Hub>>)
    requires forall e :: e in queue <==> e.0 in adj && adj[e.0] == e.1
    ensures HubsOf(queue) == adj.Keys
  {
    forall h
      ensures h in HubsOf(queue) <==> h in adj
    {
      InHubsOf(queue, h);
      if h in adj {
        assert (h, adj[h]) in queue;
      }
    }
  }

  /** No hub appears twice. */
  ghost predicate Distinct(s: seq<Hub>) {
    forall i, j :: 0 <= i < j < |s| ==> s[i] != s[j]
  }

  /** Taking one entry out of a queue without repeated hubs leaves the other hubs, still without repeats. */
  lemma HubsOfRemove(queue: seq<Entry>, index: nat)
    requires index < |queue| && UniqueKeys(queue)
    ensures var rest := queue[..index] + queue[index + 1..];
      UniqueKeys(rest) && HubsOf(rest) == HubsOf(queue) - {queue[index].0}
  {
    var rest := queue[..index] + queue[index + 1..];
    assert forall j :: 0 <= j < |rest| ==> rest[j] == queue[if j < index then j else j + 1];
    forall h
      ensures h in HubsOf(rest) <==> h in HubsOf(queue) && h != queue[index].0
    {
      InHubsOf(rest, h);
      InHubsOf(queue, h);
      if h in HubsOf(queue) && h != queue[index].0 {
        var i :| 0 <= i < |queue| && queue[i].0 == h;
        assert rest[if i < index then i else i - 1] == queue[i];
      }
    }
  }

  /** `d` is already consistent with every edge from `y` to a hub of `xs`. */
  ghost predicate EdgesRelaxed(w: map<(Hub, Hub), real>, d: map<Hub, Dist>, y: Hub, xs: seq<Hub>) {
    forall x :: x in xs ==> At(d, x).AtMost(At(d, y).Plus(EdgeWeight(w, y, x)))
  }

  /** Every visited hub other than `cur` has all its edges relaxed. */
  ghost predicate OthersRelaxed(adj: map<Hub, seq<Hub>>, w0: map<(Hub, Hub), real>, d: map<Hub, Dist>, order: seq<Hub>, cur: Hub)
    requires forall h :: h in order ==> h in adj
  {
    forall y :: y in order && y != cur ==> EdgesRelaxed(w0, d, y, adj[y])
  }

  /**
   * `paths[h]` is a walk from `s` to `h` of weight `h`'s distance, the
   * predecessor links spell it backwards, and every hub on it before `h`
   * has already been visited.
   */
  ghost predicate Witnessed(adj: map<Hub, seq<Hub>>, w0: map<(Hub, Hub), real>, s: Hub, d: map<Hub, Dist>,
                            prev: map<Hub, Option<Hub>>, paths: map<Hub, seq<Hub>>, order: seq<Hub>, h: Hub)
    requires At(d, h).Fin?
  {
    h in paths && IsPath(adj, paths[h], s, h) && Weight(w0, paths[h]) == At(d, h).value &&
    Chain(prev, paths[h]) && forall i :: 0 <= i < |paths[h]| - 1 ==> paths[h][i] in order
  }

  /** Every finite distance of a hub is non-negative and witnessed by a walk. */
  ghost predicate Walks(adj: map<Hub, seq<Hub>>, w0: map<(Hub, Hub), real>, s: Hub, d: map<Hub, Dist>,
                        prev: map<Hub, Option<Hub>>, paths: map<Hub, seq<Hub>>, order: seq<Hub>)
  {
    forall h :: h in adj && At(d, h).Fin? ==> At(d, h).value >= 0.0 && Witnessed(adj, w0, s, d, prev, paths, order, h)
  }

  /** No visited hub is farther from the start than an unvisited one. */
  ghost predicate NearestFirst(adj: map<Hub, seq<Hub>>, d: map<Hub, Dist>, order: seq<Hub>) {
    forall y, x :: y in order && x in adj && x !in order ==> At(d, y).AtMost(At(d, x))
  }

  /** The run rewrites only pairs with the start, and never with a negative value. */
  ghost predicate TableKept(w0: map<(Hub, Hub), real>, w: map<(Hub, Hub), real>, s: Hub) {
    NonNegative(w) && forall a, b :: (a, b) in w0 && a != s && b != s ==> (a, b) in w && w[(a, b)] == w0[(a, b)]
  }

  /**
   * What holds between steps of Dijkstra's loop when the start is a hub and
   * no weight is negative. `w0` is the distance table as the run found it,
   * `w` as it is now, `order` the hubs visited so far.
   */
  ghost predicate Core(adj: map<Hub, seq<Hub>>, w0: map<(Hub, Hub), real>, w: map<(Hub, Hub), real>, s: Hub,
                       d: map<Hub, Dist>, prev: map<Hub, Option<Hub>>, paths: map<Hub, seq<Hub>>, order: seq<Hub>)
  {
    s in adj && WellFormed(adj, w0) && NonNegative(w0) && TableKept(w0, w, s) &&
    At(d, s) == Fin(0.0) && PrevAt(prev, s) == None &&
    (|order| == 0 ==> w == w0 && forall h :: h in adj && h != s ==> At(d, h) == Inf) &&
    (|order| > 0 ==> order[0] == s) &&
    (forall h :: h in order ==> h in adj) &&
    Walks(adj, w0, s, d, prev, paths, order) && NearestFirst(adj, d, order)
  }

  /** Between two visits: every visited hub's edges are relaxed. */
  ghost predicate Visiting(adj: map<Hub, seq<Hub>>, w0: map<(Hub, Hub), real>, w: map<(Hub, Hub), real>, s: Hub,
                           d: map<Hub, Dist>, prev: map<Hub, Option<Hub>>, paths: map<Hub, seq<Hub>>, order: seq<Hub>)
  {
    Core(adj, w0, w, s, d, prev, paths, order) &&
    forall y :: y in order ==> EdgesRelaxed(w0, d, y, adj[y])
  }

  /**
   * While visiting `cur`, the last hub of `order`: the first `k` of its
   * edges are relaxed, no visited hub is farther than `cur`, and while `cur`
   * is the start the table is still the one the run found.
   */
  ghost predicate Relaxing(adj: map<Hub, seq<Hub>>, w0: map<(Hub, Hub), real>, w: map<(Hub, Hub), real>, s: Hub,
                           d: map<Hub, Dist>, prev: map<Hub, Option<Hub>>, paths: map<Hub, seq<Hub>>, order: seq<Hub>,
                           cur: Hub, k: nat)
  {
    |order| > 0 && cur == order[|order| - 1] && cur in adj && k <= |adj[cur]| &&
    Core(adj, w0, w, s, d, prev, paths, order) &&
    (forall y :: y in order ==> At(d, y).AtMost(At(d, cur))) &&
    (cur == s ==> w == w0) &&
    OthersRelaxed(adj, w0, d, order, cur) && EdgesRelaxed(w0, d, cur, adj[cur][..k])
  }

  /**
   * The outcome Dijkstra promises: the start is at 0, every finite distance
   * is the weight of a walk that the predecessor links lead back along to
   * the start, and no walk from the start is shorter than its end's distance.
   */
  ghost predicate ShortestFrom(adj: map<Hub, seq<Hub>>, w0: map<(Hub, Hub), real>, s: Hub, d: map<Hub, Dist>,
                               prev: map<Hub, Option<Hub>>, paths: map<Hub, seq<Hub>>)
  {
    At(d, s) == Fin(0.0) &&
    (forall h :: h in adj && At(d, h).Fin? ==>
       h in paths && IsPath(adj, paths[h], s, h) && Weight(w0, paths[h]) == At(d, h).value && Chain(prev, paths[h])) &&
    (forall h, p :: IsPath(adj, p, s, h) ==> At(d, h).AtMost(Fin(Weight(w0, p))))
  }

  /** Right after the reset and the start's 0, nothing is visited and the invariant holds. */
  lemma StartVisiting(adj: map<Hub, seq<Hub>>, w0: map<(Hub, Hub), real>, s: Hub, d: map<Hub, Dist>, prev: map<Hub, Option<Hub>>)
    requires s in adj && WellFormed(adj, w0) && NonNegative(w0)
    requires At(d, s) == Fin(0.0) && PrevAt(prev, s) == None
    requires forall h :: h in adj && h != s ==> At(d, h) == Inf
    ensures Visiting(adj, w0, w0, s, d, prev, map[s := [s]], [])
  {
    var paths := map[s := [s]];
    assert IsPath(adj, paths[s], s, s) && Chain(prev, paths[s]);
    assert Witnessed(adj, w0, s, d, prev, paths, [], s);
  }

  /** Visiting the unvisited hub nearest the start keeps the invariant, with none of its edges relaxed yet. */
  lemma PopStep(adj: map<Hub, seq<Hub>>, w0: map<(Hub, Hub), real>, w: map<(Hub, Hub), real>, s: Hub,
                d: map<Hub, Dist>, prev: map<Hub, Option<Hub>>, paths: map<Hub, seq<Hub>>, order: seq<Hub>, cur: Hub)
    requires Visiting(adj, w0, w, s, d, prev, paths, order)
    requires cur in adj && cur !in order
    requires forall x :: x in adj && x !in order ==> At(d, cur).AtMost(At(d, x))
    ensures Relaxing(adj, w0, w, s, d, prev, paths, order + [cur], cur, 0)
  {
    var order' := order + [cur];
    if |order| == 0 {
      assert cur == s;
    }
    forall h | h in adj && At(d, h).Fin?
      ensures Witnessed(adj, w0, s, d, prev, paths, order', h)
    {
      assert Witnessed(adj, w0, s, d, prev, paths, order, h);
    }
    assert Walks(adj, w0, s, d, prev, paths, order');
    assert NearestFirst(adj, d, order') by {
      forall y, x | y in order' && x in adj && x !in order'
        ensures At(d, y).AtMost(At(d, x))
      {
        if y != cur {
          assert y in order;
        }
      }
    }
    assert forall y :: y in order' ==> At(d, y).AtMost(At(d, cur)) by {
      forall y | y in order'
        ensures At(d, y).AtMost(At(d, cur))
      {
        if y != cur {
          assert y in order;
        }
      }
    }
  }

  /** The weight on an edge out of the hub being visited is the one the run started with. */
  lemma EdgeAsFound(adj: map<Hub, seq<Hub>>, w0: map<(Hub, Hub), real>, w: map<(Hub, Hub), real>, s: Hub, cur: Hub, nb: Hub)
    requires WellFormed(adj, w0) && TableKept(w0, w, s) && (cur == s ==> w == w0)
    requires cur in adj && nb in adj[cur] && nb != s
    ensures (cur, nb) in w0 && (cur, nb) in w && w[(cur, nb)] == w0[(cur, nb)] == EdgeWeight(w0, cur, nb)
  {
  }

  /** An edge out of `cur` that does not improve its end is relaxed as it stands. */
  lemma RelaxKeep(adj: map<Hub, seq<Hub>>, w0: map<(Hub, Hub), real>, w: map<(Hub, Hub), real>, s: Hub,
                  d: map<Hub, Dist>, prev: map<Hub, Option<Hub>>, paths: map<Hub, seq<Hub>>, order: seq<Hub>,
                  cur: Hub, k: nat)
    requires Relaxing(adj, w0, w, s, d, prev, paths, order, cur, k) && k < |adj[cur]|
    requires (cur, adj[cur][k]) in w
    requires !At(d, cur).Plus(w[(cur, adj[cur][k])]).Below(At(d, adj[cur][k]))
    ensures Relaxing(adj, w0, w, s, d, prev, paths, order, cur, k + 1)
  {
    var nb := adj[cur][k];
    if nb != s {
      EdgeAsFound(adj, w0, w, s, cur, nb);
    }
    assert adj[cur][..k + 1] == adj[cur][..k] + [nb];
  }

  /** An edge out of `cur` that improves its end: the new distance, predecessor and walk keep the invariant. */
  lemma RelaxUpdate(adj: map<Hub, seq<Hub>>, w0: map<(Hub, Hub), real>, w: map<(Hub, Hub), real>, s: Hub,
                    d: map<Hub, Dist>, prev: map<Hub, Option<Hub>>, paths: map<Hub, seq<Hub>>, order: seq<Hub>,
                    cur: Hub, k: nat)
    requires Relaxing(adj, w0, w, s, d, prev, paths, order, cur, k) && k < |adj[cur]|
    requires (cur, adj[cur][k]) in w
    requires At(d, cur).Plus(w[(cur, adj[cur][k])]).Below(At(d, adj[cur][k]))
    ensures var nb := adj[cur][k];
      var nd := At(d, cur).Plus(w[(cur, nb)]);
      nb !in order && nb != s && cur in paths &&
      Relaxing(adj, w0, w[(s, nb) := nd.value][(nb, s) := nd.value], s, d[nb := nd], prev[nb := Some(cur)],
               paths[nb := paths[cur] + [nb]], order, cur, k + 1)
  {
    var nb := adj[cur][k];
    var nd := At(d, cur).Plus(w[(cur, nb)]);
    assert nb !in order;
    assert nb != s;
    EdgeAsFound(adj, w0, w, s, cur, nb);
    var w', d', prev', paths' := w[(s, nb) := nd.value][(nb, s) := nd.value], d[nb := nd], prev[nb := Some(cur)],
                                 paths[nb := paths[cur] + [nb]];
    assert At(d, cur).value >= 0.0;
    UpdateTable(w0, w, s, nb, nd.value);
    if cur == s {
      assert nd.value == w0[(s, nb)] == w0[(nb, s)];
      MapsEqual(w', w0);
    }
    UpdateWalks(adj, w0, s, d, prev, paths, order, cur, nb);
    UpdateNearest(adj, d, order, cur, nb, nd);
    UpdateCore(adj, w0, w, s, d, prev, paths, order, w', d', prev', paths');
    UpdateRelaxed(adj, w0, d, order, cur, adj[cur], k, nd);
  }

  /** Storing a non-negative distance for the pair of `s` and another hub keeps the table as found off the start. */
  lemma UpdateTable(w0: map<(Hub, Hub), real>, w: map<(Hub, Hub), real>, s: Hub, nb: Hub, v: real)
    requires TableKept(w0, w, s) && nb != s && v >= 0.0
    ensures TableKept(w0, w[(s, nb) := v][(nb, s) := v], s)
  {
  }

  /** `Core` for new tables, distances and walks, from its parts that can change. */
  lemma UpdateCore(adj: map<Hub, seq<Hub>>, w0: map<(Hub, Hub), real>, w: map<(Hub, Hub), real>, s: Hub,
                   d: map<Hub, Dist>, prev: map<Hub, Option<Hub>>, paths: map<Hub, seq<Hub>>, order: seq<Hub>,
                   w': map<(Hub, Hub), real>, d': map<Hub, Dist>, prev': map<Hub, Option<Hub>>, paths': map<Hub, seq<Hub>>)
    requires Core(adj, w0, w, s, d, prev, paths, order) && |order| > 0
    requires TableKept(w0, w', s) && At(d', s) == Fin(0.0) && PrevAt(prev', s) == None
    requires Walks(adj, w0, s, d', prev', paths', order) && NearestFirst(adj, d', order)
    ensures Core(adj, w0, w', s, d', prev', paths', order)
  {
  }

  /** Lowering an unvisited `nb` to the end of a walk through `cur` keeps every distance witnessed. */
  lemma UpdateWalks(adj: map<Hub, seq<Hub>>, w0: map<(Hub, Hub), real>, s: Hub, d: map<Hub, Dist>,
                    prev: map<Hub, Option<Hub>>, paths: map<Hub, seq<Hub>>, order: seq<Hub>, cur: Hub, nb: Hub)
    requires Walks(adj, w0, s, d, prev, paths, order) && NonNegative(w0)
    requires cur in order && nb !in order && cur in adj && nb in adj[cur] && At(d, cur).Fin?
    ensures var nd := Fin(At(d, cur).value + EdgeWeight(w0, cur, nb));
      cur in paths &&
      Walks(adj, w0, s, d[nb := nd], prev[nb := Some(cur)], paths[nb := paths[cur] + [nb]], order)
  {
    var nd := Fin(At(d, cur).value + EdgeWeight(w0, cur, nb));
    assert Witnessed(adj, w0, s, d, prev, paths, order, cur);
    var d', prev', paths' := d[nb := nd], prev[nb := Some(cur)], paths[nb := paths[cur] + [nb]];
    forall h | h in adj && At(d', h).Fin?
      ensures At(d', h).value >= 0.0 && Witnessed(adj, w0, s, d', prev', paths', order, h)
    {
      if h == nb {
        ExtendWalk(adj, w0, s, d, prev, paths, order, cur, nb);
      } else {
        KeepWalk(adj, w0, s, d, prev, paths, order, nb, nd, cur, h);
      }
    }
  }

  /** Going one edge further from `cur` to an unvisited `nb` gives a walk to `nb` with `nb`'s new distance. */
  lemma ExtendWalk(adj: map<Hub, seq<Hub>>, w0: map<(Hub, Hub), real>, s: Hub, d: map<Hub, Dist>,
                   prev: map<Hub, Option<Hub>>, paths: map<Hub, seq<Hub>>, order: seq<Hub>, cur: Hub, nb: Hub)
    requires At(d, cur).Fin? && Witnessed(adj, w0, s, d, prev, paths, order, cur)
    requires cur in order && nb !in order && cur in adj && nb in adj[cur]
    ensures var nd := Fin(At(d, cur).value + EdgeWeight(w0, cur, nb));
      Witnessed(adj, w0, s, d[nb := nd], prev[nb := Some(cur)], paths[nb := paths[cur] + [nb]], order, nb)
  {
    var p := paths[cur];
    var prev' := prev[nb := Some(cur)];
    WeightSnoc(w0, p, nb);
    assert nb !in p;
    assert Chain(prev', p + [nb]) by {
      forall i | 1 <= i < |p + [nb]|
        ensures PrevAt(prev', (p + [nb])[i]) == Some((p + [nb])[i - 1])
      {
        if i < |p| {
          assert (p + [nb])[i] == p[i] && (p + [nb])[i - 1] == p[i - 1];
        }
      }
    }
    assert IsPath(adj, p + [nb], s, nb) by {
      forall i | 0 <= i < |p + [nb]| - 1
        ensures (p + [nb])[i] in adj && (p + [nb])[i + 1] in adj[(p + [nb])[i]]
      {
        if i < |p| - 1 {
          assert (p + [nb])[i] == p[i] && (p + [nb])[i + 1] == p[i + 1];
        }
      }
    }
  }

  /** A walk that avoids the unvisited `nb` is unaffected by `nb`'s new distance and predecessor. */
  lemma KeepWalk(adj: map<Hub, seq<Hub>>, w0: map<(Hub, Hub), real>, s: Hub, d: map<Hub, Dist>,
                 prev: map<Hub, Option<Hub>>, paths: map<Hub, seq<Hub>>, order: seq<Hub>, nb: Hub, nd: Dist, cur: Hub, h: Hub)
    requires At(d, h).Fin? && Witnessed(adj, w0, s, d, prev, paths, order, h)
    requires nb !in order && h != nb && cur in paths
    ensures Witnessed(adj, w0, s, d[nb := nd], prev[nb := Some(cur)], paths[nb := paths[cur] + [nb]], order, h)
  {
    assert nb !in paths[h];
  }

  /** Lowering an unvisited `nb` to no less than `cur`'s distance keeps the visited hubs nearest. */
  lemma UpdateNearest(adj: map<Hub, seq<Hub>>, d: map<Hub, Dist>, order: seq<Hub>, cur: Hub, nb: Hub, nd: Dist)
    requires NearestFirst(adj, d, order) && (forall y :: y in order ==> At(d, y).AtMost(At(d, cur)))
    requires cur in order && nb !in order && At(d, cur).AtMost(nd)
    ensures NearestFirst(adj, d[nb := nd], order)
    ensures forall y :: y in order ==> At(d[nb := nd], y).AtMost(At(d[nb := nd], cur))
  {
    forall y, x | y in order && x in adj && x !in order
      ensures At(d[nb := nd], y).AtMost(At(d[nb := nd], x))
    {
      assert At(d, y).AtMost(At(d, cur));
    }
  }

  /** Lowering the unvisited `nb` to the value its edge from `cur` offers keeps every relaxed edge relaxed and relaxes that edge. */
  lemma UpdateRelaxed(adj: map<Hub, seq<Hub>>, w0: map<(Hub, Hub), real>, d: map<Hub, Dist>, order: seq<Hub>,
                      cur: Hub, edges: seq<Hub>, k: nat, nd: Dist)
    requires forall h :: h in order ==> h in adj
    requires k < |edges| && OthersRelaxed(adj, w0, d, order, cur) && EdgesRelaxed(w0, d, cur, edges[..k])
    requires cur in order && edges[k] !in order && nd.Below(At(d, edges[k]))
    requires nd == At(d, cur).Plus(EdgeWeight(w0, cur, edges[k]))
    ensures OthersRelaxed(adj, w0, d[edges[k] := nd], order, cur) && EdgesRelaxed(w0, d[edges[k] := nd], cur, edges[..k + 1])
  {
    var nb, done := edges[k], edges[..k];
    assert edges[..k + 1] == done + [nb];
    forall y | y in order && y != cur
      ensures EdgesRelaxed(w0, d[nb := nd], y, adj[y])
    {
      LowerKeepsRelaxed(w0, d, y, adj[y], nb, nd);
    }
    LowerKeepsRelaxed(w0, d, cur, done, nb, nd);
  }

  /** Lowering the distance of `nb` alone, when `y` is not `nb`, keeps `y`'s relaxed edges relaxed. */
  lemma LowerKeepsRelaxed(w0: map<(Hub, Hub), real>, d: map<Hub, Dist>, y: Hub, xs: seq<Hub>, nb: Hub, nd: Dist)
    requires EdgesRelaxed(w0, d, y, xs) && y != nb && nd.Below(At(d, nb))
    ensures EdgesRelaxed(w0, d[nb := nd], y, xs)
  {
  }

  /** Once all of `cur`'s edges are relaxed, the visit is complete. */
  lemma FinishVisit(adj: map<Hub, seq<Hub>>, w0: map<(Hub, Hub), real>, w: map<(Hub, Hub), real>, s: Hub,
                    d: map<Hub, Dist>, prev: map<Hub, Option<Hub>>, paths: map<Hub, seq<Hub>>, order: seq<Hub>, cur: Hub)
    requires cur in adj && Relaxing(adj, w0, w, s, d, prev, paths, order, cur, |adj[cur]|)
    ensures Visiting(adj, w0, w, s, d, prev, paths, order)
  {
    assert adj[cur][..|adj[cur]|] == adj[cur];
  }

  /** When every hub is visited, the distances are the shortest walk weights and the links lead back to the start. */
  lemma VisitingDone(adj: map<Hub, seq<Hub>>, w0: map<(Hub, Hub), real>, w: map<(Hub, Hub), real>, s: Hub,
                     d: map<Hub, Dist>, prev: map<Hub, Option<Hub>>, paths: map<Hub, seq<Hub>>, order: seq<Hub>)
    requires Visiting(adj, w0, w, s, d, prev, paths, order)
    requires forall h :: h in adj ==> h in order
    ensures ShortestFrom(adj, w0, s, d, prev, paths)
  {
    assert Relaxed(adj, w0, d) by {
      forall y, x | y in adj && x in adj[y]
        ensures At(d, x).AtMost(At(d, y).Plus(EdgeWeight(w0, y, x)))
      {
        assert EdgesRelaxed(w0, d, y, adj[y]);
      }
    }
    forall h, p | IsPath(adj, p, s, h)
      ensures At(d, h).AtMost(Fin(Weight(w0, p)))
    {
      RelaxedIsLowerBound(adj, w0, d, s, h, p);
    }
    forall h | h in adj && At(d, h).Fin?
      ensures h in paths && IsPath(adj, paths[h], s, h) && Weight(w0, paths[h]) == At(d, h).value && Chain(prev, paths[h])
    {
      assert Witnessed(adj, w0, s, d, prev, paths, order, h);
    }
  }

  /** The table holds `v` for the start and `h`, both ways round. */
  ghost predicate StoredBothWays(w: map<(Hub, Hub), real>, s: Hub, h: Hub, v: real) {
    (s, h) in w && w[(s, h)] == v && (h, s) in w && w[(h, s)] == v
  }

  /**
   * Hubs outside the graph, other than the start, keep what they had; and
   * when the start is not a hub of the graph, no hub of the graph is ever reached.
   */
  ghost predicate Outside(adj: map<Hub, seq<Hub>>, s: Hub, d: map<Hub, Dist>, prev: map<Hub, Option<Hub>>,
                          d0: map<Hub, Dist>, prev0: map<Hub, Option<Hub>>)
  {
    (forall h :: h !in adj && h != s ==> At(d, h) == At(d0, h) && PrevAt(prev, h) == PrevAt(prev0, h)) &&
    (s !in adj ==> At(d, s) == Fin(0.0) && forall h :: h in adj ==> At(d, h) == Inf && PrevAt(prev, h) == None)
  }

  /**
   * Whatever the weights: the graph stays well formed, only pairs with the
   * start are rewritten, and every hub other than the start that has a
   * finite distance has it recorded against the start both ways.
   */
  ghost predicate TableOutcome(adj: map<Hub, seq<Hub>>, w0: map<(Hub, Hub), real>, w: map<(Hub, Hub), real>, s: Hub,
                               d: map<Hub, Dist>)
  {
    WellFormed(adj, w) &&
    (forall a, b :: (a, b) in w0 && a != s && b != s ==> (a, b) in w && w[(a, b)] == w0[(a, b)]) &&
    (forall h :: h in adj && h != s && At(d, h).Fin? ==> StoredBothWays(w, s, h, At(d, h).value))
  }

  /** An improvement of a neighbour `nb` of `cur` to the finite `nd` keeps the outcomes that hold whatever the weights. */
  lemma RecordImprovement(adj: map<Hub, seq<Hub>>, w0: map<(Hub, Hub), real>, w: map<(Hub, Hub), real>, s: Hub,
                          d: map<Hub, Dist>, prev: map<Hub, Option<Hub>>, d0: map<Hub, Dist>, prev0: map<Hub, Option<Hub>>,
                          cur: Hub, nb: Hub, nd: Dist)
    requires Outside(adj, s, d, prev, d0, prev0) && TableOutcome(adj, w0, w, s, d)
    requires cur in adj && nb in adj[cur] && (cur, nb) in w && nd.Below(At(d, nb)) && nd == At(d, cur).Plus(w[(cur, nb)])
    ensures var w' := w[(s, nb) := nd.value][(nb, s) := nd.value];
      Outside(adj, s, d[nb := nd], prev[nb := Some(cur)], d0, prev0) && TableOutcome(adj, w0, w', s, d[nb := nd])
  {
    WellFormedUpdate(adj, w, s, nb, nd.value);
  }

  /** The queue names, each once, exactly the hubs not yet visited; `order` lists the visited ones, each once. */
  ghost predicate QueueSplit(queue: seq<Entry>, adj: map<Hub, seq<Hub>>, order: seq<Hub>) {
    UniqueKeys(queue) && Distinct(order) && (forall h :: h in order ==> h in adj) &&
    forall h :: h in HubsOf(queue) <==> h in adj && h !in order
  }

  /** Right after `_initialize_hubs`, every hub is queued and none visited. */
  lemma StartSplit(queue: seq<Entry>, adj: map<Hub, seq<Hub>>)
    requires UniqueKeys(queue) && HubsOf(queue) == adj.Keys
    ensures QueueSplit(queue, adj, [])
  {
  }

  /** Visiting the entry `GetHubWithSmallestDistance` pops: it was unvisited, is nearest, and the rest stay queued. */
  lemma NearestUnvisited(queue: seq<Entry>, index: nat, d: map<Hub, Dist>, adj: map<Hub, seq<Hub>>, order: seq<Hub>)
    requires index < |queue| && QueueSplit(queue, adj, order)
    requires forall j :: 0 <= j < |queue| ==> At(d, queue[index].0).AtMost(At(d, queue[j].0))
    ensures var cur, rest := queue[index].0, queue[..index] + queue[index + 1..];
      cur in adj && cur !in order && QueueSplit(rest, adj, order + [cur]) &&
      (forall x :: x in adj && x !in order ==> At(d, cur).AtMost(At(d, x)))
  {
    var cur, rest := queue[index].0, queue[..index] + queue[index + 1..];
    HubsOfRemove(queue, index);
    InHubsOf(queue, cur);
    forall x | x in adj && x !in order
      ensures At(d, cur).AtMost(At(d, x))
    {
      InHubsOf(queue, x);
    }
    assert Distinct(order + [cur]) by {
      forall i, j | 0 <= i < j < |order + [cur]|
        ensures (order + [cur])[i] != (order + [cur])[j]
      {
        if j == |order| {
          assert (order + [cur])[i] == order[i];
        } else {
          assert (order + [cur])[i] == order[i] && (order + [cur])[j] == order[j];
        }
      }
    }
  }

  /** The state `_initialize_hubs` and the start's 0 leave satisfies the outcomes that hold whatever the weights. */
  lemma StartOutcome(adj: map<Hub, seq<Hub>>, w: map<(Hub, Hub), real>, s: Hub, d: map<Hub, Dist>, prev: map<Hub, Option<Hub>>,
                     d0: map<Hub, Dist>, prev0: map<Hub, Option<Hub>>)
    requires WellFormed(adj, w)
    requires forall h :: At(d, h) == if h in adj then Inf else At(d0, h)
    requires forall h :: PrevAt(prev, h) == if h in adj then None else PrevAt(prev0, h)
    ensures Outside(adj, s, d[s := Fin(0.0)], prev, d0, prev0) && TableOutcome(adj, w, w, s, d[s := Fin(0.0)])
  {
  }

  /** Once the queue is empty, every hub has been visited exactly once. */
  lemma AllVisited(adj: map<Hub, seq<Hub>>, order: seq<Hub>)
    requires QueueSplit([], adj, order)
    ensures Distinct(order) && forall h :: h in order <==> h in adj
  {
  }

  /**
   * The bookkeeping of one pass of the neighbour loop: from the state before
   * and the state `RelaxEdge` leaves, the invariants move on by one edge.
   */
  lemma RelaxStep(adj: map<Hub, seq<Hub>>, w0: map<(Hub, Hub), real>, s: Hub, good: bool, order: seq<Hub>,
                  d0: map<Hub, Dist>, prev0: map<Hub, Option<Hub>>, cur: Hub, k: nat,
                  w: map<(Hub, Hub), real>, d: map<Hub, Dist>, prev: map<Hub, Option<Hub>>, paths: map<Hub, seq<Hub>>,
                  w': map<(Hub, Hub), real>, d': map<Hub, Dist>, prev': map<Hub, Option<Hub>>)
    returns (paths': map<Hub, seq<Hub>>)
    requires cur in adj && k < |adj[cur]|
    requires Outside(adj, s, d, prev, d0, prev0) && TableOutcome(adj, w0, w, s, d)
    requires good ==> Relaxing(adj, w0, w, s, d, prev, paths, order, cur, k)
    requires var nb := adj[cur][k];
      (cur, nb) in w &&
      var nd := At(d, cur).Plus(w[(cur, nb)]);
      if nd.Below(At(d, nb)) then
        d' == d[nb := nd] && prev' == prev[nb := Some(cur)] && w' == w[(s, nb) := nd.value][(nb, s) := nd.value]
      else
        d' == d && prev' == prev && w' == w
    ensures Outside(adj, s, d', prev', d0, prev0) && TableOutcome(adj, w0, w', s, d')
    ensures good ==> Relaxing(adj, w0, w', s, d', prev', paths', order, cur, k + 1)
  {
    var nb := adj[cur][k];
    var nd := At(d, cur).Plus(w[(cur, nb)]);
    paths' := paths;
    if nd.Below(At(d, nb)) {
      if good {
        RelaxUpdate(adj, w0, w, s, d, prev, paths, order, cur, k);
        paths' := paths[nb := paths[cur] + [nb]];
      }
      RecordImprovement(adj, w0, w, s, d, prev, d0, prev0, cur, nb, nd);
    } else if good {
      RelaxKeep(adj, w0, w, s, d, prev, paths, order, cur, k);
    }
  }

  class Graph {
    const adjacency: HashMap<Hub, seq<Hub>>
    const distance: HashMap<(Hub, Hub), real>
    var hubDistance: map<Hub, Dist>
    var previousHub: map<Hub, Option<Hub>>

    ghost predicate Valid()
      reads adjacency, distance
    {
      adjacency as object != distance as object &&
      adjacency.Valid() && distance.Valid() && Placed(adjacency.table, adjacency.hash) &&
      WellFormed(adjacency.Contents(), distance.Contents())
    }

    ghost function Adj(): map<Hub, seq<Hub>>
      reads adjacency
      requires adjacency.Valid()
    {
      adjacency.Contents()
    }

    ghost function Weights(): map<(Hub, Hub), real>
      reads distance
      requires distance.Valid()
    {
      distance.Contents()
    }

    /** An empty adjacency map of 26 buckets and an empty distance table of 100. */
    constructor (hubHash: Hub -> int, pairHash: ((Hub, Hub)) -> int)
      ensures Valid() && fresh(adjacency) && fresh(distance)
      ensures Adj() == map[] && Weights() == map[]
    {
      adjacency := new HashMap(hubHash, 26);
      distance := new HashMap(pairHash);
      hubDistance := map[];
      previousHub := map[];
    }

    /** Adds `hub` with no neighbours, unless it is already a hub of the graph. */
    method AddNode(hub: Hub)
      requires Valid()
      modifies adjacency
      ensures Valid() && Weights() == old(Weights())
      ensures Adj() == if hub in old(Adj()) then old(Adj()) else old(Adj())[hub := []]
    {
      var present := adjacency.Contains(hub);
      if !present {
        WellFormedAddNode(Adj(), Weights(), hub);
        var _ := adjacency.Add(hub, []);
      }
    }

    /** Writes `d` for both (hub1, hub2) and (hub2, hub1), and touches nothing else. */
    method UpdateHubDistance(hub1: Hub, hub2: Hub, d: real)
      requires distance.Valid()
      modifies distance
      ensures distance.Valid() && Weights() == old(Weights())[(hub1, hub2) := d][(hub2, hub1) := d]
    {
      var _ := distance.Add((hub1, hub2), d);
      var _ := distance.Add((hub2, hub1), d);
    }

    /**
     * Makes two distinct hubs neighbours of each other and records their
     * distance both ways; the same hub twice changes nothing.
     */
    method AddEdge(hub1: Hub, hub2: Hub, d: real)
      requires Valid() && hub1 in Adj() && hub2 in Adj()
      modifies adjacency, distance
      ensures Valid()
      ensures hub1 == hub2 ==> Adj() == old(Adj()) && Weights() == old(Weights())
      ensures hub1 != hub2 ==>
        Adj() == old(Adj())[hub1 := old(Adj())[hub1] + [hub2]][hub2 := old(Adj())[hub2] + [hub1]] &&
        Weights() == old(Weights())[(hub1, hub2) := d][(hub2, hub1) := d]
    {
      if hub1 != hub2 {
        WellFormedAddEdge(Adj(), Weights(), hub1, hub2, d);
        var first := adjacency.Get(hub1);
        var _ := adjacency.Add(hub1, first.value + [hub2]);
        var second := adjacency.Get(hub2);
        var _ := adjacency.Add(hub2, second.value + [hub1]);
        UpdateHubDistance(hub1, hub2, d);
      }
    }

    /** Infinity unless both are hubs and `endHub` is adjacent to `startHub`; otherwise their stored distance. */
    method GetDistance(startHub: Hub, endHub: Hub) returns (r: Dist)
      requires Valid()
      ensures r == DistanceBetween(Adj(), Weights(), startHub, endHub)
    {
      var hasStart := adjacency.Contains(startHub);
      var hasEnd := adjacency.Contains(endHub);
      if !hasStart || !hasEnd {
        return Inf;
      }
      var neighbours := adjacency.Get(startHub);
      var list := neighbours.value;
      var i := FirstIndex(list, endHub);
      if i >= 0 {
        assert (startHub, endHub) in Weights() by {
          assert endHub in Adj()[startHub];
        }
        var d := distance.Get((startHub, list[i]));
        return Fin(d.value);
      }
      return Inf;
    }

    /**
     * Sets every hub's distance to infinity and its predecessor to None, and
     * returns the queue of all (hub, neighbours) entries, each hub once.
     */
    method InitializeHubs() returns (queue: seq<Entry>)
      requires Valid()
      modifies this
      ensures Valid()
      ensures queue == Flatten(adjacency.table)
      ensures UniqueKeys(queue) && HubsOf(queue) == Adj().Keys
      ensures forall e :: e in queue <==> e.0 in Adj() && Adj()[e.0] == e.1
      ensures forall h :: At(hubDistance, h) == if h in Adj() then Inf else At(old(hubDistance), h)
      ensures forall h :: PrevAt(previousHub, h) == if h in Adj() then None else PrevAt(old(previousHub), h)
    {
      var all := adjacency.GetAllElements();
      queue := [];
      var i := 0;
      while i < |all|
        invariant 0 <= i <= |all| && queue == all[..i]
        invariant forall h :: At(hubDistance, h) == if h in HubsOf(queue) then Inf else At(old(hubDistance), h)
        invariant forall h :: PrevAt(previousHub, h) == if h in HubsOf(queue) then None else PrevAt(old(previousHub), h)
      {
        hubDistance := hubDistance[all[i].0 := Inf];
        previousHub := previousHub[all[i].0 := None];
        assert (queue + [all[i]])[..|queue|] == queue;
        queue := queue + [all[i]];
        i := i + 1;
      }
      assert all[..i] == all;
      FlattenIsModel(adjacency.table, adjacency.hash);
      EntriesCoverHubs(all, Adj());
    }

    /**
     * Pops the first entry of least distance: no entry is strictly nearer,
     * and every entry before it is strictly farther.
     */
    method GetHubWithSmallestDistance(queue: seq<Entry>) returns (index: nat, current: Entry, rest: seq<Entry>)
      requires |queue| > 0
      ensures index < |queue| && current == queue[index] && rest == queue[..index] + queue[index + 1..]
      ensures |rest| == |queue| - 1
      ensures forall j :: 0 <= j < |queue| ==> At(hubDistance, current.0).AtMost(At(hubDistance, queue[j].0))
      ensures forall j :: 0 <= j < index ==> At(hubDistance, current.0).Below(At(hubDistance, queue[j].0))
    {
      index := 0;
      var i := 1;
      while i < |queue|
        invariant 1 <= i <= |queue| && index < i
        invariant forall j :: 0 <= j < i ==> At(hubDistance, queue[index].0).AtMost(At(hubDistance, queue[j].0))
        invariant forall j :: 0 <= j < index ==> At(hubDistance, queue[index].0).Below(At(hubDistance, queue[j].0))
      {
        if At(hubDistance, queue[i].0).Below(At(hubDistance, queue[index].0)) {
          index := i;
        }
        i := i + 1;
      }
      current := queue[index];
      rest := queue[..index] + queue[index + 1..];
    }
    /** The weight the table holds for an edge of the graph. */
    method StoredWeight(a: Hub, b: Hub) returns (r: real)
      requires Valid() && a in Adj() && b in Adj()[a]
      ensures (a, b) in Weights() && r == Weights()[(a, b)]
    {
      var w := distance.Get((a, b));
      r := w.value;
    }

    /**
     * Records an improvement: `nd` as `nb`'s distance, both ways in the table
     * against the start, and `cur` as `nb`'s predecessor.
     */
    method ImproveHub(s: Hub, cur: Hub, nb: Hub, nd: real)
      requires Valid()
      modifies this, distance
      ensures Valid() && Adj() == old(Adj())
      ensures hubDistance == old(hubDistance)[nb := Fin(nd)] && previousHub == old(previousHub)[nb := Some(cur)]
      ensures Weights() == old(Weights())[(s, nb) := nd][(nb, s) := nd]
    {
      WellFormedUpdate(Adj(), Weights(), s, nb, nd);
      UpdateHubDistance(s, nb, nd);
      hubDistance := hubDistance[nb := Fin(nd)];
      previousHub := previousHub[nb := Some(cur)];
    }

    /**
     * One pass of the `for neighbor_hub in ...` loop of a visit: if going
     * through `cur` brings its `k`-th neighbour strictly nearer, that
     * neighbour is improved; otherwise nothing changes.
     */
    method RelaxEdge(s: Hub, cur: Hub, k: nat)
      requires Valid() && cur in Adj() && k < |Adj()[cur]|
      modifies this, distance
      ensures Valid() && Adj() == old(Adj())
      ensures var nb := Adj()[cur][k];
        (cur, nb) in old(Weights()) &&
        var nd := At(old(hubDistance), cur).Plus(old(Weights())[(cur, nb)]);
        if nd.Below(At(old(hubDistance), nb)) then
          hubDistance == old(hubDistance)[nb := nd] && previousHub == old(previousHub)[nb := Some(cur)] &&
          Weights() == old(Weights())[(s, nb) := nd.value][(nb, s) := nd.value]
        else
          hubDistance == old(hubDistance) && previousHub == old(previousHub) && Weights() == old(Weights())
    {
      var neighbours := adjacency.Get(cur);
      var nb := neighbours.value[k];
      var w := StoredWeight(cur, nb);
      var newDistance := At(hubDistance, cur).Plus(w);
      if newDistance.Below(At(hubDistance, nb)) {
        ImproveHub(s, cur, nb, newDistance.value);
      }
    }

    /**
     * The `for neighbor_hub in ...` loop of one visit: relaxes every edge out
     * of `cur`, in adjacency-list order. `paths'` extends `paths` with the
     * walks to the improved hubs.
     */
    method RelaxNeighbours(s: Hub, cur: Hub, ghost A: map<Hub, seq<Hub>>, ghost W0: map<(Hub, Hub), real>, ghost good: bool,
                           ghost order: seq<Hub>, ghost paths: map<Hub, seq<Hub>>,
                           ghost d0: map<Hub, Dist>, ghost prev0: map<Hub, Option<Hub>>)
      returns (ghost paths': map<Hub, seq<Hub>>)
      requires Valid() && Adj() == A && cur in A
      requires Outside(A, s, hubDistance, previousHub, d0, prev0)
      requires TableOutcome(A, W0, Weights(), s, hubDistance)
      requires good ==> Relaxing(A, W0, Weights(), s, hubDistance, previousHub, paths, order, cur, 0)
      modifies this, distance
      ensures Valid() && Adj() == A
      ensures Outside(A, s, hubDistance, previousHub, d0, prev0)
      ensures TableOutcome(A, W0, Weights(), s, hubDistance)
      ensures good ==> Relaxing(A, W0, Weights(), s, hubDistance, previousHub, paths', order, cur, |A[cur]|)
    {
      paths' := paths;
      var neighbours := adjacency.Get(cur);
      var count := |neighbours.value|;
      var k := 0;
      while k < count
        invariant Valid() && Adj() == A && count == |A[cur]| && k <= count
        invariant Outside(A, s, hubDistance, previousHub, d0, prev0)
        invariant TableOutcome(A, W0, Weights(), s, hubDistance)
        invariant good ==> Relaxing(A, W0, Weights(), s, hubDistance, previousHub, paths', order, cur, k)
      {
        ghost var d, prev, W := hubDistance, previousHub, Weights();
        RelaxEdge(s, cur, k);
        paths' := RelaxStep(A, W0, s, good, order, d0, prev0, cur, k, W, d, prev, paths', Weights(), hubDistance, previousHub);
        k := k + 1;
      }
    }

    /**
     * The lines before the main loop: every hub of the graph is queued at
     * distance infinity with no predecessor, then the start hub gets 0.
     */
    method StartSearch(s: Hub, ghost A: map<Hub, seq<Hub>>, ghost W0: map<(Hub, Hub), real>, ghost good: bool,
                       ghost d0: map<Hub, Dist>, ghost prev0: map<Hub, Option<Hub>>)
      returns (queue: seq<Entry>, ghost order: seq<Hub>, ghost paths: map<Hub, seq<Hub>>)
      requires Valid() && Adj() == A && Weights() == W0 && hubDistance == d0 && previousHub == prev0
      requires good == (s in A && NonNegative(W0))
      modifies this
      ensures Valid() && Adj() == A && QueueSplit(queue, A, order)
      ensures Outside(A, s, hubDistance, previousHub, d0, prev0)
      ensures TableOutcome(A, W0, Weights(), s, hubDistance)
      ensures good ==> Visiting(A, W0, Weights(), s, hubDistance, previousHub, paths, order)
    {
      queue := InitializeHubs();
      StartOutcome(A, W0, s, hubDistance, previousHub, d0, prev0);
      StartSplit(queue, A);
      hubDistance := hubDistance[s := Fin(0.0)];
      order, paths := [], map[s := [s]];
      if good {
        StartVisiting(A, W0, s, hubDistance, previousHub);
      }
    }

    /**
     * One pass of the `while unvisited_queue` loop: pops the nearest queued
     * hub, appends it to the visiting order and relaxes its edges.
     */
    method VisitNearest(s: Hub, queue: seq<Entry>, ghost A: map<Hub, seq<Hub>>, ghost W0: map<(Hub, Hub), real>,
                        ghost good: bool, ghost order: seq<Hub>, ghost paths: map<Hub, seq<Hub>>,
                        ghost d0: map<Hub, Dist>, ghost prev0: map<Hub, Option<Hub>>)
      returns (rest: seq<Entry>, ghost order': seq<Hub>, ghost paths': map<Hub, seq<Hub>>)
      requires |queue| > 0 && Valid() && Adj() == A && QueueSplit(queue, A, order)
      requires Outside(A, s, hubDistance, previousHub, d0, prev0)
      requires TableOutcome(A, W0, Weights(), s, hubDistance)
      requires good ==> Visiting(A, W0, Weights(), s, hubDistance, previousHub, paths, order)
      modifies this, distance
      ensures Valid() && Adj() == A && |rest| == |queue| - 1 && QueueSplit(rest, A, order')
      ensures Outside(A, s, hubDistance, previousHub, d0, prev0)
      ensures TableOutcome(A, W0, Weights(), s, hubDistance)
      ensures good ==> Visiting(A, W0, Weights(), s, hubDistance, previousHub, paths', order')
    {
      var index, current;
      index, current, rest := GetHubWithSmallestDistance(queue);
      var cur := current.0;
      NearestUnvisited(queue, index, hubDistance, A, order);
      if good {
        PopStep(A, W0, Weights(), s, hubDistance, previousHub, paths, order, cur);
      }
      order' := order + [cur];
      paths' := RelaxNeighbours(s, cur, A, W0, good, order', paths, d0, prev0);
      if good {
        FinishVisit(A, W0, Weights(), s, hubDistance, previousHub, paths', order', cur);
      }
    }

    /**
     * Dijkstra's algorithm from `startHub`: every hub is visited exactly
     * once, nearest first, and each improvement is written to the hub and,
     * both ways, to the distance table under the pair (start, hub). With no
     * negative weight and the start a hub of the graph, each hub ends at its
     * shortest walk weight under the table as it was before the run, with
     * the predecessor links leading back to the start along such a walk.
     * `order` is the visiting order and `paths` the walks, both ghost.
     */
    method Dijkstra(startHub: Entry) returns (ghost order: seq<Hub>, ghost paths: map<Hub, seq<Hub>>)
      requires Valid()
      modifies this, distance
      ensures Valid() && Adj() == old(Adj())
      ensures Distinct(order) && forall h :: h in order <==> h in Adj()
      ensures Outside(Adj(), startHub.0, hubDistance, previousHub, old(hubDistance), old(previousHub))
      ensures TableOutcome(Adj(), old(Weights()), Weights(), startHub.0, hubDistance)
      ensures startHub.0 in Adj() && NonNegative(old(Weights())) ==>
        ShortestFrom(Adj(), old(Weights()), startHub.0, hubDistance, previousHub, paths)
    {
      var s := startHub.0;
      ghost var A, W0 := Adj(), Weights();
      ghost var d0, prev0 := hubDistance, previousHub;
      ghost var good := s in A && NonNegative(W0);
      var queue;
      queue, order, paths := StartSearch(s, A, W0, good, d0, prev0);
      while |queue| > 0
        invariant Valid() && Adj() == A
        invariant QueueSplit(queue, A, order)
        invariant Outside(A, s, hubDistance, previousHub, d0, prev0)
        invariant TableOutcome(A, W0, Weights(), s, hubDistance)
        invariant good ==> Visiting(A, W0, Weights(), s, hubDistance, previousHub, paths, order)
        decreases |queue|
      {
        queue, order, paths := VisitNearest(s, queue, A, W0, good, order, paths, d0, prev0);
      }
      AllVisited(A, order);
      if good {
        VisitingDone(A, W0, Weights(), s, hubDistance, previousHub, paths, order);
      }
    }
  }
}
