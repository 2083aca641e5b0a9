/**
 * Distances, paths and path weights over an adjacency map, the vocabulary in
 * which the shortest-path routine of Project/src/graph_impl.py is specified.
 */
module Paths {
  import opened Wrappers

  /** A tentative distance: a finite value, or Python's `math.inf`. */
  datatype Dist = Fin(value: real) | Inf {

    /** Python's `<` between two such values. */
    predicate Below(other: Dist) {
      match this
      case Inf => false
      case Fin(x) => other.Inf? || x < other.value
    }

    predicate AtMost(other: Dist) {
      !other.Below(this)
    }

    /** `self + w`: infinity absorbs every finite weight. */
    function Plus(w: real): Dist {
      match this
      case Inf => Inf
      case Fin(x) => Fin(x + w)
    }
  }

  /** The distance stored for `n`; a hub that was never given one still has `math.inf`. */
  function At<N(==)>(d: map<N, Dist>, n: N): Dist {
    if n in d then d[n] else Inf
  }

  /** The predecessor stored for `n`; a hub that was never given one still has None. */
  function PrevAt<N(==)>(prev: map<N, Option<N>>, n: N): Option<N> {
    if n in prev then prev[n] else None
  }

  ghost function EdgeWeight<N>(w: map<(N, N), real>, a: N, b: N): real {
    if (a, b) in w then w[(a, b)] else 0.0
  }

  ghost predicate NonNegative<N>(w: map<(N, N), real>) {
    forall e :: e in w ==> w[e] >= 0.0
  }

  /** `p` walks from `s` to `t` along adjacency lists. */
  ghost predicate IsPath<N>(adj: map<N, seq<N>>, p: seq<N>, s: N, t: N) {
    |p| >= 1 && p[0] == s && p[|p| - 1] == t &&
    forall i :: 0 <= i < |p| - 1 ==> p[i] in adj && p[i + 1] in adj[p[i]]
  }

  ghost function Weight<N>(w: map<(N, N), real>, p: seq<N>): real
    decreases |p|
  {
    if |p| <= 1 then 0.0 else Weight(w, p[..|p| - 1]) + EdgeWeight(w, p[|p| - 2], p[|p| - 1])
  }

  /** No edge can shorten any distance in `d` any more. */
  ghost predicate Relaxed<N>(adj: map<N, seq<N>>, w: map<(N, N), real>, d: map<N, Dist>) {
    forall y, x :: y in adj && x in adj[y] ==> At(d, x).AtMost(At(d, y).Plus(EdgeWeight(w, y, x)))
  }

  /**
   * Following the predecessor links from the last hub of `c` spells `c`
   * backwards and stops at its first hub, which has no predecessor.
   */
  ghost predicate Chain<N>(prev: map<N, Option<N>>, c: seq<N>) {
    |c| >= 1 && PrevAt(prev, c[0]) == None &&
    forall i :: 1 <= i < |c| ==> PrevAt(prev, c[i]) == Some(c[i - 1])
  }

  /** Extending a path by one edge adds that edge's weight. */
  lemma WeightSnoc<N>(w: map<(N, N), real>, p: seq<N>, x: N)
    requires |p| >= 1
    ensures Weight(w, p + [x]) == Weight(w, p) + EdgeWeight(w, p[|p| - 1], x)
  {
    assert (p + [x])[..|p|] == p;
  }

  /**
   * Once every edge is relaxed and the source is at most 0, every stored
   * distance is a lower bound on the weight of every path to that hub.
   */
  lemma {:induction false} RelaxedIsLowerBound<N>(adj: map<N, seq<N>>, w: map<(N, N), real>, d: map<N, Dist>, s: N, t: N, p: seq<N>)
    requires Relaxed(adj, w, d) && At(d, s).AtMost(Fin(0.0)) && IsPath(adj, p, s, t)
    ensures At(d, t).AtMost(Fin(Weight(w, p)))
    decreases |p|
  {
    if |p| > 1 {
      var q := p[..|p| - 1];
      var y := p[|p| - 2];
      assert IsPath(adj, q, s, y) by {
        forall i | 0 <= i < |q| - 1
          ensures q[i] in adj && q[i + 1] in adj[q[i]]
        {
          assert q[i] == p[i] && q[i + 1] == p[i + 1];
        }
      }
      RelaxedIsLowerBound(adj, w, d, s, y, q);
      assert y in adj && t in adj[y];
    }
  }
}
