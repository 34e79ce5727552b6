/**
 * The abstract value shared by both graph representations: a mutable,
 * directed, weighted graph over string labels, seen as an adjacency map.
 * The keys of the map are the vertices; `g[s][t]` is the weight of the edge
 * s -> t. A weight of 0 means "no edge" and is never stored.
 */
module WeightedGraph {

  type Graph = map<string, map<string, int>>

  /** Invariants I1 and I2: every edge ends at a vertex, every stored weight is positive. */
  ghost predicate WellFormed(g: Graph)
  {
    forall s :: s in g ==> forall t :: t in g[s] ==> t in g && g[s][t] > 0
  }

  /** The weight of the edge s -> t, or 0 when there is none. */
  function Weight(g: Graph, s: string, t: string): int
  {
    if s in g && t in g[s] then g[s][t] else 0
  }

  /** Adds a vertex with no edges, or leaves the graph alone if it is already there. */
  function AddVertex(g: Graph, v: string): (r: Graph)
    ensures r.Keys == g.Keys + {v}
    ensures v in g ==> r == g
    ensures forall s, t :: Weight(r, s, t) == Weight(g, s, t)
    ensures WellFormed(g) ==> WellFormed(r)
  {
    if v in g then g else g[v := map[]]
  }

  /**
   * Upserts the edge s -> t with weight w, or deletes it when w == 0,
   * after adding both endpoints as vertices.
   */
  function SetEdge(g: Graph, s: string, t: string, w: int): (r: Graph)
    requires w >= 0
    ensures r.Keys == g.Keys + {s, t}
    ensures Weight(r, s, t) == w
    ensures forall p, q :: (p, q) != (s, t) ==> Weight(r, p, q) == Weight(g, p, q)
    ensures WellFormed(g) ==> WellFormed(r)
  {
    var out := if s in g then g[s] else map[];
    var h := if t in g then g else g[t := map[]];
    h[s := if w == 0 then out - {t} else out[t := w]]
  }

  /** Deletes a vertex together with every edge into or out of it. */
  function RemoveVertex(g: Graph, v: string): (r: Graph)
    ensures r.Keys == g.Keys - {v}
    ensures forall p, q :: Weight(r, p, q) == if p == v || q == v then 0 else Weight(g, p, q)
    ensures WellFormed(g) ==> WellFormed(r)
  {
    map u | u in g && u != v :: g[u] - {v}
  }

  /** Every vertex with an edge into t, mapped to that edge's weight. */
  function Sources(g: Graph, t: string): (r: map<string, int>)
    ensures forall s :: s in r ==> r[s] == Weight(g, s, t)
    ensures WellFormed(g) ==> forall s :: s in r <==> Weight(g, s, t) > 0
  {
    map s | s in g && t in g[s] :: g[s][t]
  }

  /** Every vertex with an edge out of s, mapped to that edge's weight. */
  function Targets(g: Graph, s: string): (r: map<string, int>)
    ensures forall t :: t in r ==> r[t] == Weight(g, s, t)
    ensures WellFormed(g) ==> forall t :: t in r <==> Weight(g, s, t) > 0
  {
    if s in g then g[s] else map[]
  }

  /** Two well-formed graphs with the same vertices and the same weights are equal. */
  lemma {:induction false} Extensionality(g1: Graph, g2: Graph)
    requires WellFormed(g1) && WellFormed(g2)
    requires g1.Keys == g2.Keys
    requires forall s, t :: Weight(g1, s, t) == Weight(g2, s, t)
    ensures g1 == g2
  {
    forall s | s in g1
      ensures g1[s] == g2[s]
    {
      forall t | t in g1[s] || t in g2[s]
        ensures t in g1[s] && t in g2[s] && g1[s][t] == g2[s][t]
      {
        assert Weight(g1, s, t) == Weight(g2, s, t);
      }
    }
  }

  /** A vertex that is added and then removed leaves the graph as it was. */
  lemma AddThenRemove(g: Graph, v: string)
    requires WellFormed(g)
    requires v !in g
    ensures RemoveVertex(AddVertex(g, v), v) == g
  {
    Extensionality(RemoveVertex(AddVertex(g, v), v), g);
  }

  /** Setting an edge to the weight it already has only adds its endpoints as vertices. */
  lemma SetCurrentWeight(g: Graph, s: string, t: string)
    requires WellFormed(g)
    ensures Weight(g, s, t) >= 0
    ensures SetEdge(g, s, t, Weight(g, s, t)) == AddVertex(AddVertex(g, s), t)
  {
    var b := SetEdge(g, s, t, Weight(g, s, t));
    var c := AddVertex(AddVertex(g, s), t);
    forall p, q
      ensures Weight(b, p, q) == Weight(c, p, q)
    {
      assert Weight(c, p, q) == Weight(AddVertex(g, s), p, q);
    }
    Extensionality(b, c);
  }

  /**
   * Setting an edge back to the weight that `SetEdge` reports as previous
   * undoes it; only the implicitly created endpoints remain.
   */
  lemma SetThenRestore(g: Graph, s: string, t: string, w: int)
    requires WellFormed(g)
    requires w >= 0
    ensures Weight(g, s, t) >= 0
    ensures SetEdge(SetEdge(g, s, t, w), s, t, Weight(g, s, t)) == AddVertex(AddVertex(g, s), t)
  {
    SetCurrentWeight(g, s, t);
    SetTwice(g, s, t, w, Weight(g, s, t));
  }

  /** Only the last weight set for an ordered pair matters. */
  lemma SetTwice(g: Graph, s: string, t: string, w1: int, w2: int)
    requires WellFormed(g)
    requires w1 >= 0 && w2 >= 0
    ensures SetEdge(SetEdge(g, s, t, w1), s, t, w2) == SetEdge(g, s, t, w2)
  {
    var a := SetEdge(g, s, t, w1);
    var b := SetEdge(a, s, t, w2);
    var c := SetEdge(g, s, t, w2);
    forall p, q
      ensures Weight(b, p, q) == Weight(c, p, q)
    {
    }
    Extensionality(b, c);
  }

  /** An edge is seen from both ends: s is a source of t exactly when t is a target of s. */
  lemma SourcesTargetsAgree(g: Graph, s: string, t: string)
    requires WellFormed(g)
    ensures s in Sources(g, t) <==> t in Targets(g, s)
    ensures s in Sources(g, t) ==> Sources(g, t)[s] == Targets(g, s)[t] > 0
  {
  }

  /** After a vertex is removed, no query reports an edge that touches it. */
  lemma RemoveIsolates(g: Graph, v: string, u: string)
    requires WellFormed(g)
    ensures v !in Sources(RemoveVertex(g, v), u) && v !in Targets(RemoveVertex(g, v), u)
    ensures Sources(RemoveVertex(g, v), v) == map[] && Targets(RemoveVertex(g, v), v) == map[]
  {
  }
}
