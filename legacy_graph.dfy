/**
 * The older graph of Project/src/graph.py: a dict from node to a list of
 * (neighbour, weight) pairs, a dict of distances, and the routine named
 * `a_star_shortest_path`. That routine only ever queues the start node: a
 * neighbour's distance is written before the test "not yet in the distance
 * dict", which therefore never holds. So it relaxes the start's neighbour
 * list once, and the value it offers a neighbour is `get_distance(start, x)`
 * plus the weight, which is twice the edge weight on a simple graph.
 *
 * Nodes are compared by value where the source uses `is not` (see README).
 * A KeyError the source would raise is the outcome `KeyError`.
 */
module LegacyGraph {
  import opened Wrappers
  import opened Paths

  /** A value, or the KeyError that a missing dict key raises. */
  datatype Outcome<T> = Value(value: T) | KeyError

  /** What `a_star_shortest_path` returns: the whole distance dict, or one distance. */
  datatype Answer<N> = All(distances: map<N, Dist>) | One(distance: Dist)

  /** The index of the first entry for `e` in a neighbour list, or the list's length when there is none. */
  function FirstIndex<N(==)>(xs: seq<(N, real)>, e: N): (i: nat)
    ensures i <= |xs| && (i < |xs| ==> xs[i].0 == e)
    ensures forall j :: 0 <= j < i ==> xs[j].0 != e
  {
    if |xs| == 0 then 0
    else if xs[0].0 == e then 0
    else 1 + FirstIndex(xs[1..], e)
  }

  /** The weight of the first entry for `e`, which is what `get_distance` returns when it finds one. */
  function FirstWeight<N(==)>(xs: seq<(N, real)>, e: N): (r: Option<real>)
    ensures r.Some? <==> exists i :: 0 <= i < |xs| && xs[i].0 == e
    ensures r.Some? ==> exists i :: 0 <= i < |xs| && xs[i] == (e, r.value) && forall j :: 0 <= j < i ==> xs[j].0 != e
  {
    var i := FirstIndex(xs, e);
    if i < |xs| then Some(xs[i].1) else None
  }

  /** With no node listed twice, the first entry for a listed node is its only entry. */
  lemma FirstWeightDistinct<N>(xs: seq<(N, real)>, i: int)
    requires 0 <= i < |xs| && forall j, k :: 0 <= j < k < |xs| ==> xs[j].0 != xs[k].0
    ensures FirstWeight(xs, xs[i].0) == Some(xs[i].1)
  {
    var k := FirstIndex(xs, xs[i].0);
    assert k == i;
  }

  /** `get_distance(start, end)` on an adjacency dict; KeyError when `start` is no node. */
  function DistanceOf<N(==)>(adj: map<N, seq<(N, real)>>, s: N, e: N): (r: Outcome<Dist>)
    ensures r.KeyError? <==> s !in adj
    ensures r.Value? && r.value.Fin? <==> s in adj && e in adj && exists i :: 0 <= i < |adj[s]| && adj[s][i].0 == e
    ensures r.Value? && r.value.Fin? ==> Some(r.value.value) == FirstWeight(adj[s], e)
  {
    if s !in adj then KeyError
    else if |adj[s]| == 0 || e !in adj then Value(Inf)
    else match FirstWeight(adj[s], e)
      case Some(w) => Value(Fin(w))
      case None => Value(Inf)
  }

  /** The value the loop offers neighbour `x` reached by an entry of weight `w`: the stored distance plus `w`, or `cd + w` when `get_distance` says infinity. */
  function Candidate<N(==)>(adj: map<N, seq<(N, real)>>, cur: N, cd: real, x: N, w: real): real {
    match DistanceOf(adj, cur, x)
    case Value(Fin(v)) => v + w
    case _ => cd + w
  }

  /**
   * Relaxing the entries `xs` of `cur`'s neighbour list in order, starting
   * from the distances `d`: the distances reached and whether the pass got
   * through without a KeyError (a neighbour with no distance stops it).
   */
  function Pass<N(==)>(adj: map<N, seq<(N, real)>>, d: map<N, Dist>, cur: N, cd: real, xs: seq<(N, real)>): (map<N, Dist>, bool)
    decreases |xs|
  {
    if |xs| == 0 then (d, true)
    else
      var (m, ok) := Pass(adj, d, cur, cd, xs[..|xs| - 1]);
      var x, w := xs[|xs| - 1].0, xs[|xs| - 1].1;
      if !ok || x !in m then (m, false)
      else if Fin(Candidate(adj, cur, cd, x, w)).Below(m[x]) then (m[x := Fin(Candidate(adj, cur, cd, x, w))], true)
      else (m, true)
  }

  /** The last entry of a pass that reaches a neighbour still at infinity sets it to the value offered. */
  lemma PassLast<N>(adj: map<N, seq<(N, real)>>, d: map<N, Dist>, cur: N, cd: real, xs: seq<(N, real)>, m: map<N, Dist>)
    requires |xs| > 0 && Pass(adj, d, cur, cd, xs[..|xs| - 1]) == (m, true)
    requires xs[|xs| - 1].0 in m && m[xs[|xs| - 1].0] == Inf
    ensures Pass(adj, d, cur, cd, xs) == (m[xs[|xs| - 1].0 := Fin(Candidate(adj, cur, cd, xs[|xs| - 1].0, xs[|xs| - 1].1))], true)
  {
  }

  /** Once the pass has stopped on a KeyError, later entries change nothing. */
  lemma {:induction false} PassStops<N>(adj: map<N, seq<(N, real)>>, d: map<N, Dist>, cur: N, cd: real, xs: seq<(N, real)>, i: nat)
    requires i <= |xs| && !Pass(adj, d, cur, cd, xs[..i]).1
    ensures Pass(adj, d, cur, cd, xs) == Pass(adj, d, cur, cd, xs[..i])
    decreases |xs| - i
  {
    if i < |xs| {
      assert xs[..i + 1][..i] == xs[..i];
      PassStops(adj, d, cur, cd, xs, i + 1);
    } else {
      assert xs[..i] == xs;
    }
  }

  /** The distances after the reset loop: every node at infinity, other keys kept. */
  function Reset<N(==)>(d: map<N, Dist>, nodes: set<N>): (r: map<N, Dist>)
    ensures r.Keys == d.Keys + nodes
    ensures forall x :: x in r ==> r[x] == if x in nodes then Inf else d[x]
  {
    map x | x in d.Keys + nodes :: if x in nodes then Inf else d[x]
  }

  /** Resetting one more node is one more write of infinity. */
  lemma ResetOneMore<N>(d: map<N, Dist>, nodes: set<N>, x: N)
    ensures Reset(d, nodes)[x := Inf] == Reset(d, nodes + {x})
  {
    var a, b := Reset(d, nodes)[x := Inf], Reset(d, nodes + {x});
    assert a.Keys == b.Keys;
    forall y | y in a ensures a[y] == b[y] {
    }
  }

  /** The distances the loop starts from: reset, and the start at 0. */
  function StartDistances<N(==)>(d: map<N, Dist>, nodes: set<N>, start: N): (r: map<N, Dist>)
    ensures r.Keys == d.Keys + nodes + {start}
    ensures forall x :: x in r ==> r[x] == if x == start then Fin(0.0) else if x in nodes then Inf else d[x]
  {
    Reset(d, nodes)[start := Fin(0.0)]
  }

  /** The elements of a sequence, as a set. */
  function Elems<N(==)>(s: seq<N>): set<N> {
    set x | x in s
  }

  /** Each node appears once in the dict's key order, and only there. */
  ghost predicate KeyOrder<N>(nodes: seq<N>, adj: map<N, seq<(N, real)>>) {
    (forall i, j :: 0 <= i < j < |nodes| ==> nodes[i] != nodes[j]) &&
    adj.Keys == Elems(nodes)
  }

  /** Every listed neighbour is a node, and each entry is mirrored by an entry of equal weight in the neighbour's list. */
  ghost predicate Mirrored<N>(adj: map<N, seq<(N, real)>>) {
    forall a, i :: a in adj && 0 <= i < |adj[a]| ==> adj[a][i].0 in adj && (a, adj[a][i].1) in adj[adj[a][i].0]
  }

  /** The dict after `add_node`: unchanged when the node is present, otherwise with an empty list for it. */
  function WithNode<N(==)>(adj: map<N, seq<(N, real)>>, node: N): (r: map<N, seq<(N, real)>>)
    ensures node in r && r.Keys == adj.Keys + {node}
    ensures forall x :: x in adj ==> r[x] == adj[x]
    ensures node !in adj ==> r[node] == []
  {
    if node in adj then adj else adj[node := []]
  }

  /** `add_node` twice is `add_node` once. */
  lemma WithNodeIdempotent<N>(adj: map<N, seq<(N, real)>>, node: N)
    ensures WithNode(WithNode(adj, node), node) == WithNode(adj, node)
  {
  }

  /** A new empty list mirrors nothing and breaks no mirror. */
  lemma WithNodeMirrored<N>(adj: map<N, seq<(N, real)>>, node: N)
    requires Mirrored(adj)
    ensures Mirrored(WithNode(adj, node))
  {
    var r: map<N, seq<(N, real)>> := WithNode(adj, node);
    forall a: N, i: int | a in r && 0 <= i < |r[a]|
      ensures r[a][i].0 in r && (a, r[a][i].1) in r[r[a][i].0]
    {
      assert a in adj && r[a] == adj[a];
      assert adj[a][i].0 in adj && (a, adj[a][i].1) in adj[adj[a][i].0];
    }
  }

  /**
   * The dict after `add_edge(a, b, w)` with two nodes: each gains the other,
   * with weight `w`, at the end of its list.
   */
  function WithEdge<N(==)>(adj: map<N, seq<(N, real)>>, a: N, b: N, w: real): (r: map<N, seq<(N, real)>>)
    requires a in adj && b in adj && a != b
    ensures r.Keys == adj.Keys && r[a] == adj[a] + [(b, w)] && r[b] == adj[b] + [(a, w)]
    ensures forall x :: x in adj && x != a && x != b ==> r[x] == adj[x]
  {
    adj[a := adj[a] + [(b, w)]][b := adj[b] + [(a, w)]]
  }

  /** An edge added between two distinct nodes keeps every entry mirrored. */
  lemma WithEdgeMirrored<N>(adj: map<N, seq<(N, real)>>, a: N, b: N, w: real)
    requires Mirrored(adj) && a in adj && b in adj && a != b
    ensures Mirrored(WithEdge(adj, a, b, w))
  {
    var r: map<N, seq<(N, real)>> := WithEdge(adj, a, b, w);
    forall x: N, i: int | x in r && 0 <= i < |r[x]|
      ensures r[x][i].0 in r && (x, r[x][i].1) in r[r[x][i].0]
    {
      if i < |adj[x]| {
        assert r[x][i] == adj[x][i];
        var y := adj[x][i].0;
        assert (x, adj[x][i].1) in adj[y];
        assert adj[y] <= r[y];
      } else if x == a {
        assert r[x][i] == (b, w) && (a, w) == r[b][|adj[b]|];
      } else {
        assert x == b && r[x][i] == (a, w) && (b, w) == r[a][|adj[a]|];
      }
    }
  }

  /**
   * On a graph without repeated neighbours and without a stale distance for
   * the start's neighbours, the pass from the start gives every neighbour
   * `x` reached by an entry of weight `w` the distance 2 * w, and changes no
   * other distance.
   */
  lemma PassDoubles<N>(adj: map<N, seq<(N, real)>>, d: map<N, Dist>, start: N, k: nat)
    requires start in adj && k <= |adj[start]|
    requires forall j, l :: 0 <= j < l < |adj[start]| ==> adj[start][j].0 != adj[start][l].0
    requires forall j :: 0 <= j < |adj[start]| ==> adj[start][j].0 in adj && adj[start][j].0 in d && d[adj[start][j].0] == Inf
    ensures var (m, ok) := Pass(adj, d, start, 0.0, adj[start][..k]);
      ok && m.Keys == d.Keys &&
      (forall j :: 0 <= j < k ==> m[adj[start][j].0] == Fin(2.0 * adj[start][j].1)) &&
      (forall x :: x in d && (forall j :: 0 <= j < k ==> adj[start][j].0 != x) ==> m[x] == d[x])
  {
    var ys := adj[start][..k];
    DoublesPrefix(adj, d, start, ys);
    DoubledKeys(d, ys);
    PrefixDistinct(adj[start], k);
    DoubledListed(d, ys);
    DoubledUnlisted(d, ys);
    assert forall j :: 0 <= j < k ==> ys[j] == adj[start][j];
  }

  /** A prefix of a list whose entries name distinct nodes names distinct nodes. */
  lemma PrefixDistinct<N>(s: seq<(N, real)>, k: nat)
    requires k <= |s| && forall j, l :: 0 <= j < l < |s| ==> s[j].0 != s[l].0
    ensures forall j, l :: 0 <= j < l < k ==> s[..k][j].0 != s[..k][l].0
  {
    forall j, l | 0 <= j < l < k ensures s[..k][j].0 != s[..k][l].0 {
      assert s[..k][j] == s[j] && s[..k][l] == s[l];
    }
  }

  /** With no node listed twice, every listed node ends at twice its listed weight. */
  lemma DoubledListed<N>(d: map<N, Dist>, ys: seq<(N, real)>)
    requires forall i, l :: 0 <= i < l < |ys| ==> ys[i].0 != ys[l].0
    ensures forall j :: 0 <= j < |ys| ==> ys[j].0 in Doubled(d, ys) && Doubled(d, ys)[ys[j].0] == Fin(2.0 * ys[j].1)
  {
    forall j | 0 <= j < |ys| ensures ys[j].0 in Doubled(d, ys) && Doubled(d, ys)[ys[j].0] == Fin(2.0 * ys[j].1) {
      DoubledAt(d, ys, j);
    }
  }

  /** Every node `ys` does not list keeps its distance. */
  lemma DoubledUnlisted<N>(d: map<N, Dist>, ys: seq<(N, real)>)
    ensures forall x :: x in d && (forall j :: 0 <= j < |ys| ==> ys[j].0 != x) ==> x in Doubled(d, ys) && Doubled(d, ys)[x] == d[x]
  {
    forall x | x in d && (forall j :: 0 <= j < |ys| ==> ys[j].0 != x) ensures x in Doubled(d, ys) && Doubled(d, ys)[x] == d[x] {
      DoubledOther(d, ys, x);
    }
  }

  /** The distances `d` with each node listed in `ys` set to twice the weight listed with it, later entries last. */
  function Doubled<N(==)>(d: map<N, Dist>, ys: seq<(N, real)>): map<N, Dist> {
    if |ys| == 0 then d else Doubled(d, ys[..|ys| - 1])[ys[|ys| - 1].0 := Fin(2.0 * ys[|ys| - 1].1)]
  }

  /** Doubling nodes that already have a distance adds no key. */
  lemma {:induction false} DoubledKeys<N>(d: map<N, Dist>, ys: seq<(N, real)>)
    requires forall j :: 0 <= j < |ys| ==> ys[j].0 in d
    ensures Doubled(d, ys).Keys == d.Keys
  {
    if |ys| > 0 {
      DoubledKeys(d, ys[..|ys| - 1]);
    }
  }

  /** A node `ys` does not list keeps its distance. */
  lemma {:induction false} DoubledOther<N>(d: map<N, Dist>, ys: seq<(N, real)>, y: N)
    requires y in d && forall j :: 0 <= j < |ys| ==> ys[j].0 != y
    ensures y in Doubled(d, ys) && Doubled(d, ys)[y] == d[y]
  {
    if |ys| > 0 {
      DoubledOther(d, ys[..|ys| - 1], y);
    }
  }

  /** With no node listed twice, each listed node ends at twice its listed weight. */
  lemma {:induction false} DoubledAt<N>(d: map<N, Dist>, ys: seq<(N, real)>, j: int)
    requires 0 <= j < |ys| && forall i, l :: 0 <= i < l < |ys| ==> ys[i].0 != ys[l].0
    ensures ys[j].0 in Doubled(d, ys) && Doubled(d, ys)[ys[j].0] == Fin(2.0 * ys[j].1)
  {
    var n := |ys| - 1;
    if j < n {
      var init := ys[..n];
      assert init[j] == ys[j];
      DoubledAt(d, init, j);
      assert ys[j].0 != ys[n].0;
    }
  }

  /** `PassDoubles` over the first entries `ys` of the start's list: the pass doubles exactly them. */
  lemma {:induction false} DoublesPrefix<N>(adj: map<N, seq<(N, real)>>, d: map<N, Dist>, start: N, ys: seq<(N, real)>)
    requires start in adj && |ys| <= |adj[start]| && ys == adj[start][..|ys|]
    requires forall j, l :: 0 <= j < l < |adj[start]| ==> adj[start][j].0 != adj[start][l].0
    requires forall j :: 0 <= j < |adj[start]| ==> adj[start][j].0 in adj && adj[start][j].0 in d && d[adj[start][j].0] == Inf
    ensures Pass(adj, d, start, 0.0, ys) == (Doubled(d, ys), true)
  {
    if |ys| > 0 {
      var n := |ys| - 1;
      var init := ys[..n];
      var x, w := ys[n].0, ys[n].1;
      assert init == adj[start][..n] && ys[n] == adj[start][n];
      DoublesPrefix(adj, d, start, init);
      assert Doubled(d, init)[x] == Inf by {
        forall j | 0 <= j < n ensures init[j].0 != x {
          assert init[j] == adj[start][j];
        }
        DoubledOther(d, init, x);
      }
      assert Candidate(adj, start, 0.0, x, w) == 2.0 * w by {
        FirstWeightDistinct(adj[start], n);
      }
      assert Doubled(d, ys) == Doubled(d, init)[x := Fin(2.0 * w)];
      PassLast(adj, d, start, 0.0, ys, Doubled(d, init));
    }
  }

  class Graph<N(==)> {
    var adjacency: map<N, seq<(N, real)>>
    /** The adjacency dict's keys in insertion order, the order `for node in self.adjacency_list` visits them. */
    var nodes: seq<N>
    var distance: map<N, Dist>

    ghost predicate Valid()
      reads this
    {
      KeyOrder(nodes, adjacency)
    }

    /** Two empty dicts. */
    constructor ()
      ensures Valid() && adjacency == map[] && distance == map[]
    {
      adjacency, nodes, distance := map[], [], map[];
    }

    /** A new node gets an empty neighbour list; a present one is left alone. */
    method AddNode(node: N)
      requires Valid()
      modifies this
      ensures Valid() && adjacency == WithNode(old(adjacency), node) && distance == old(distance)
    {
      if node !in adjacency {
        adjacency := adjacency[node := []];
        nodes := nodes + [node];
      }
    }

    /**
     * Appends `(b, w)` to `a`'s list and `(a, w)` to `b`'s list; the same node
     * twice changes nothing. `a` missing is a KeyError before any change;
     * `b` missing is a KeyError after `a`'s list has grown.
     */
    method AddEdge(a: N, b: N, w: real) returns (ok: bool)
      requires Valid()
      modifies this
      ensures Valid() && nodes == old(nodes) && distance == old(distance)
      ensures ok <==> a == b || (a in old(adjacency) && b in old(adjacency))
      ensures a == b || a !in old(adjacency) ==> adjacency == old(adjacency)
      ensures a != b && a in old(adjacency) && b in old(adjacency) ==> adjacency == WithEdge(old(adjacency), a, b, w)
      ensures a != b && a in old(adjacency) && b !in old(adjacency) ==>
        adjacency == old(adjacency)[a := old(adjacency)[a] + [(b, w)]]
    {
      if a != b {
        if a !in adjacency {
          return false;
        }
        adjacency := adjacency[a := adjacency[a] + [(b, w)]];
        if b !in adjacency {
          return false;
        }
        adjacency := adjacency[b := adjacency[b] + [(a, w)]];
      }
      ok := true;
    }

    /** Infinity unless `s` has neighbours, `e` is a node and an entry of `s` names `e`; then the first such weight. */
    method GetDistance(s: N, e: N) returns (r: Outcome<Dist>)
      ensures r == DistanceOf(adjacency, s, e)
    {
      if s !in adjacency {
        return KeyError;
      }
      var list := adjacency[s];
      if |list| == 0 || e !in adjacency {
        return Value(Inf);
      }
      var i := 0;
      while i < |list|
        invariant 0 <= i <= |list| && forall j :: 0 <= j < i ==> list[j].0 != e
      {
        if list[i].0 == e {
          assert FirstIndex(list, e) == i;
          return Value(Fin(list[i].1));
        }
        i := i + 1;
      }
      return Value(Inf);
    }

    /** `for node in self.adjacency_list: self.distance[node] = float('inf')`. */
    method ResetDistances()
      requires Valid()
      modifies this
      ensures Valid() && adjacency == old(adjacency) && nodes == old(nodes)
      ensures distance == Reset(old(distance), adjacency.Keys)
    {
      var k := 0;
      assert Elems(nodes[..0]) == {};
      assert Reset(old(distance), {}) == distance;
      while k < |nodes|
        invariant 0 <= k <= |nodes| && adjacency == old(adjacency) && nodes == old(nodes)
        invariant distance == Reset(old(distance), Elems(nodes[..k]))
      {
        assert Elems(nodes[..k + 1]) == Elems(nodes[..k]) + {nodes[k]} by {
          assert nodes[..k + 1] == nodes[..k] + [nodes[k]];
        }
        ResetOneMore(old(distance), Elems(nodes[..k]), nodes[k]);
        distance := distance[nodes[k] := Inf];
        k := k + 1;
      }
      assert nodes[..k] == nodes;
      assert Elems(nodes[..k]) == adjacency.Keys;
    }

    /**
     * The `for adj_node in self.adjacency_list[curr_node]` loop: relaxes the
     * entries of `cur`'s list in order, as `Pass` does; false when a
     * neighbour has no distance (a KeyError), the distances then being
     * those reached before it. `queued` collects what the loop appends to
     * the unvisited queue, and it stays empty: an improved neighbour is
     * checked for a missing distance right after its distance is written.
     */
    method RelaxList(cur: N, cd: real) returns (ok: bool, queued: seq<(N, real)>)
      requires cur in adjacency
      modifies this
      ensures queued == []
      ensures adjacency == old(adjacency) && nodes == old(nodes)
      ensures (distance, ok) == Pass(adjacency, old(distance), cur, cd, adjacency[cur])
    {
      var list := adjacency[cur];
      queued := [];
      var i := 0;
      while i < |list|
        invariant 0 <= i <= |list| && adjacency == old(adjacency) && nodes == old(nodes) && queued == []
        invariant (distance, true) == Pass(adjacency, old(distance), cur, cd, list[..i])
      {
        var x, w := list[i].0, list[i].1;
        var dist := GetDistance(cur, x);
        var alt := if dist.Value? && dist.value.Fin? then dist.value.value + w else cd + w;
        assert list[..i + 1][..i] == list[..i];
        if x !in distance {
          PassStops(adjacency, old(distance), cur, cd, list, i + 1);
          return false, queued;
        }
        if Fin(alt).Below(distance[x]) {
          distance := distance[x := Fin(alt)];
          if x !in distance {
            queued := queued + [(x, alt)];
          }
        }
        i := i + 1;
      }
      assert list[..i] == list;
      ok := true;
    }

    /**
     * Puts every node at infinity (other keys of the distance dict keep
     * their value), the start at 0, and queues only the start. The queue
     * never grows (a neighbour's distance is written before the test for a
     * missing key, so that test fails), so the loop runs once: it stops at
     * once when the start is the end, and otherwise relaxes the start's
     * neighbour list as `Pass` does. The answer is the whole dict, or the
     * end's distance.
     */
    method AStarShortestPath(start: N, end: Option<N>) returns (r: Outcome<Answer<N>>)
      requires Valid()
      modifies this
      ensures Valid() && adjacency == old(adjacency) && nodes == old(nodes)
      ensures var d0 := StartDistances(old(distance), adjacency.Keys, start);
        if end == Some(start) then
          distance == d0 && r == Value(One(Fin(0.0)))
        else if start !in adjacency then
          distance == d0 && r == KeyError
        else
          var (m, ok) := Pass(adjacency, d0, start, 0.0, adjacency[start]);
          distance == m &&
          r == if !ok then KeyError
               else match end
                 case None => Value(All(m))
                 case Some(e) => if e in m then Value(One(m[e])) else KeyError
    {
      var queue: seq<(N, real)> := [(start, 0.0)];
      ResetDistances();
      distance := distance[start := Fin(0.0)];
      ghost var d0 := distance;
      ghost var passed := false;
      while |queue| > 0
        invariant Valid() && adjacency == old(adjacency) && nodes == old(nodes)
        invariant !passed ==> queue == [(start, 0.0)] && distance == d0
        invariant passed ==> queue == [] && end != Some(start) && start in adjacency && (distance, true) == Pass(adjacency, d0, start, 0.0, adjacency[start])
        decreases |queue|
      {
        var cur, cd := queue[0].0, queue[0].1;
        queue := queue[1..];
        if end == Some(cur) {
          break;
        }
        if cur !in adjacency {
          return KeyError;
        }
        var ok, queued := RelaxList(cur, cd);
        if !ok {
          return KeyError;
        }
        queue := queue + queued;
        passed := true;
      }
      if end.None? {
        return Value(All(distance));
      }
      if end.value !in distance {
        return KeyError;
      }
      return Value(One(distance[end.value]));
    }
  }
}
