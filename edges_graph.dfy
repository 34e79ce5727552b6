/**
 * The edge-list representation (ConcreteEdgesGraph): a set of vertex labels
 * and a list of immutable (source, target, weight) records.
 */
module EdgesGraph {
  import G = WeightedGraph

  /** An immutable directed edge. */
  datatype Edge = Edge(source: string, target: string, weight: int)

  datatype Result<T> = Ok(value: T) | Err(message: string)

  /** The Edge constructor: a weight that is not positive is rejected. */
  function NewEdge(source: string, target: string, weight: int): (r: Result<Edge>)
    ensures r.Ok? <==> weight > 0
    ensures r.Ok? ==> r.value.source == source && r.value.target == target && r.value.weight == weight
  {
    if weight <= 0 then Err("weight must be greater than zero") else Ok(Edge(source, target, weight))
  }

  predicate Joins(e: Edge, s: string, t: string)
  {
    e.source == s && e.target == t
  }

  /** Invariants I1 and I2 on the list: endpoints are vertices, weights are positive. */
  ghost predicate EndpointsWithin(vs: set<string>, es: seq<Edge>)
  {
    forall e :: e in es ==> e.source in vs && e.target in vs && e.weight > 0
  }

  /** Invariant I3: no two records of the list share an ordered pair. */
  ghost predicate UniquePairs(es: seq<Edge>)
  {
    forall i, j :: 0 <= i < j < |es| ==> !Joins(es[i], es[j].source, es[j].target)
  }

  /** The representation invariant of ConcreteEdgesGraph. */
  ghost predicate RepOk(vs: set<string>, es: seq<Edge>)
  {
    EndpointsWithin(vs, es) && UniquePairs(es)
  }

  /** The weight of the last record s -> t in the list, or 0 if there is none. */
  function WeightIn(es: seq<Edge>, s: string, t: string): int
  {
    if es == [] then 0
    else if Joins(es[|es| - 1], s, t) then es[|es| - 1].weight
    else WeightIn(es[..|es| - 1], s, t)
  }

  /**
   * The map that `targets(s)` builds: it walks the list and puts every
   * record out of s, so a later record overwrites an earlier one.
   */
  function OutOf(es: seq<Edge>, s: string): (r: map<string, int>)
    ensures forall t :: t in r ==> r[t] == WeightIn(es, s, t)
    ensures forall t :: t !in r ==> WeightIn(es, s, t) == 0
    ensures (forall e :: e in es ==> e.weight > 0) ==> forall t :: t in r ==> r[t] > 0
  {
    if es == [] then map[]
    else
      var e := es[|es| - 1];
      var m := OutOf(es[..|es| - 1], s);
      if e.source == s then m[e.target := e.weight] else m
  }

  /** The map that `sources(t)` builds, by the same walk over records into t. */
  function InTo(es: seq<Edge>, t: string): (r: map<string, int>)
    ensures forall s :: s in r ==> r[s] == WeightIn(es, s, t)
    ensures forall s :: s !in r ==> WeightIn(es, s, t) == 0
    ensures (forall e :: e in es ==> e.weight > 0) ==> forall s :: s in r ==> r[s] > 0
  {
    if es == [] then map[]
    else
      var e := es[|es| - 1];
      var m := InTo(es[..|es| - 1], t);
      if e.target == t then m[e.source := e.weight] else m
  }

  /** What `removeIf` leaves: the records that neither start nor end at v, in order. */
  function Detach(es: seq<Edge>, v: string): (r: seq<Edge>)
    ensures forall e :: e in r <==> e in es && e.source != v && e.target != v
    ensures forall s, t :: WeightIn(r, s, t) == if s == v || t == v then 0 else WeightIn(es, s, t)
  {
    if es == [] then []
    else
      var e := es[|es| - 1];
      var rest := Detach(es[..|es| - 1], v);
      if e.source != v && e.target != v then
        assert (rest + [e])[..|rest|] == rest;
        rest + [e]
      else
        rest
  }

  /** Filtering keeps invariant I3. */
  lemma {:induction false} DetachUnique(es: seq<Edge>, v: string)
    requires UniquePairs(es)
    ensures UniquePairs(Detach(es, v))
  {
    if es != [] {
      var e := es[|es| - 1];
      var init := es[..|es| - 1];
      DetachUnique(init, v);
      if e.source != v && e.target != v {
        assert es == init + [e];
        UniqueLast(init, e);
        var rest := Detach(init, v);
        assert Detach(es, v) == rest + [e];
      }
    }
  }

  /** In a list without repeated pairs, no earlier record shares the last record's pair. */
  lemma UniqueLast(init: seq<Edge>, e: Edge)
    requires UniquePairs(init + [e])
    ensures forall x :: x in init ==> !Joins(x, e.source, e.target)
  {
    forall x | x in init
      ensures !Joins(x, e.source, e.target)
    {
      var m :| 0 <= m < |init| && init[m] == x;
      assert (init + [e])[m] == x && (init + [e])[|init|] == e;
    }
  }

  /** With no record s -> t, the weight of s -> t is 0. */
  lemma {:induction false} WeightInAbsent(es: seq<Edge>, s: string, t: string)
    requires forall e :: e in es ==> !Joins(e, s, t)
    ensures WeightIn(es, s, t) == 0
  {
    if es != [] {
      WeightInAbsent(es[..|es| - 1], s, t);
    }
  }

  /** A non-zero weight comes from a record, so it is positive and joins two vertices. */
  lemma {:induction false} WeightInWithin(vs: set<string>, es: seq<Edge>, s: string, t: string)
    requires EndpointsWithin(vs, es)
    ensures WeightIn(es, s, t) == 0 || (WeightIn(es, s, t) > 0 && s in vs && t in vs)
  {
    if es != [] && !Joins(es[|es| - 1], s, t) {
      WeightInWithin(vs, es[..|es| - 1], s, t);
    }
  }

  /** Without repeated pairs, the weight of a record's pair is that record's weight. */
  lemma {:induction false} WeightInAt(es: seq<Edge>, k: nat)
    requires UniquePairs(es) && k < |es|
    ensures WeightIn(es, es[k].source, es[k].target) == es[k].weight
  {
    if k < |es| - 1 {
      WeightInAt(es[..|es| - 1], k);
    }
  }

  /** Removing a record of another pair leaves the weight of s -> t alone. */
  lemma {:induction false} WeightInRemove(es: seq<Edge>, k: nat, s: string, t: string)
    requires k < |es| && !Joins(es[k], s, t)
    ensures WeightIn(es[..k] + es[k + 1..], s, t) == WeightIn(es, s, t)
  {
    var n := |es| - 1;
    if k == n {
      assert es[..k] + es[k + 1..] == es[..n];
    } else {
      var rest := es[..n][..k] + es[..n][k + 1..];
      assert es[..k] + es[k + 1..] == rest + [es[n]];
      assert (rest + [es[n]])[..|rest|] == rest;
      WeightInRemove(es[..n], k, s, t);
    }
  }

  /** Appending a record makes it the one `WeightIn` reports for its pair. */
  lemma WeightInAppend(es: seq<Edge>, e: Edge, s: string, t: string)
    ensures WeightIn(es + [e], s, t) == if Joins(e, s, t) then e.weight else WeightIn(es, s, t)
  {
    assert (es + [e])[..|es|] == es;
  }

  /**
   * The abstraction function: the vertex set is `vs`, and the edges out of
   * each vertex are what `targets` would report for it.
   */
  ghost function Abstraction(vs: set<string>, es: seq<Edge>): G.Graph
  {
    map v | v in vs :: OutOf(es, v)
  }

  /** The weights of the abstract graph are those `WeightIn` reads off the list. */
  lemma AbstractionWeights(vs: set<string>, es: seq<Edge>)
    requires EndpointsWithin(vs, es)
    ensures forall s, t :: G.Weight(Abstraction(vs, es), s, t) == WeightIn(es, s, t)
  {
    forall s, t
      ensures G.Weight(Abstraction(vs, es), s, t) == WeightIn(es, s, t)
    {
      WeightInWithin(vs, es, s, t);
    }
  }

  /** The rep invariant makes the abstract graph well-formed (I1, I2), with vertex set `vs`. */
  lemma AbstractionWellFormed(vs: set<string>, es: seq<Edge>)
    requires EndpointsWithin(vs, es)
    ensures Abstraction(vs, es).Keys == vs
    ensures G.WellFormed(Abstraction(vs, es))
  {
    var g := Abstraction(vs, es);
    forall s, t | s in g && t in g[s]
      ensures t in g && g[s][t] > 0
    {
      WeightInWithin(vs, es, s, t);
    }
  }

  /** `targets(s)` reports exactly the abstract graph's edges out of s. */
  lemma OutOfIsTargets(vs: set<string>, es: seq<Edge>, s: string)
    requires EndpointsWithin(vs, es)
    ensures OutOf(es, s) == G.Targets(Abstraction(vs, es), s)
  {
    if s !in vs {
      forall t | t in OutOf(es, s)
        ensures false
      {
        WeightInWithin(vs, es, s, t);
      }
    }
  }

  /** `sources(t)` reports exactly the abstract graph's edges into t. */
  lemma InToIsSources(vs: set<string>, es: seq<Edge>, t: string)
    requires EndpointsWithin(vs, es)
    ensures InTo(es, t) == G.Sources(Abstraction(vs, es), t)
  {
    var g := Abstraction(vs, es);
    AbstractionWellFormed(vs, es);
    var a, b := InTo(es, t), G.Sources(g, t);
    forall s
      ensures s in a <==> s in b
      ensures s in a ==> a[s] == b[s]
    {
      WeightInWithin(vs, es, s, t);
      assert G.Weight(g, s, t) == WeightIn(es, s, t);
    }
  }

  /** Taking out the record at k, the only one for s -> t, keeps invariant I3 and leaves no s -> t record. */
  lemma RemoveAtFacts(es: seq<Edge>, s: string, t: string, k: nat)
    requires UniquePairs(es)
    requires k < |es| && Joins(es[k], s, t)
    requires forall j :: 0 <= j < k ==> !Joins(es[j], s, t)
    ensures UniquePairs(es[..k] + es[k + 1..])
    ensures forall x :: x in es[..k] + es[k + 1..] ==> x in es && !Joins(x, s, t)
  {
    var rest := es[..k] + es[k + 1..];
    forall m | 0 <= m < |rest|
      ensures rest[m] == if m < k then es[m] else es[m + 1]
    {
    }
    forall i, j | 0 <= i < j < |rest|
      ensures !Joins(rest[i], rest[j].source, rest[j].target)
    {
      var j' := if j < k then j else j + 1;
      assert rest[j] == es[j'];
    }
  }

  /** Appending a record for a pair the list does not have keeps invariant I3. */
  lemma AppendUnique(es: seq<Edge>, e: Edge)
    requires UniquePairs(es)
    requires forall x :: x in es ==> !Joins(x, e.source, e.target)
    ensures UniquePairs(es + [e])
  {
    var es' := es + [e];
    forall i, j | 0 <= i < j < |es'|
      ensures !Joins(es'[i], es'[j].source, es'[j].target)
    {
      assert es'[i] == es[i];
      if j < |es| {
        assert es'[j] == es[j];
      }
    }
  }

  /**
   * The list that `set` leaves behind: the record for s -> t, if any, is taken
   * out and a new one is appended when w > 0. The list keeps the invariant, and
   * only the weight of s -> t changes.
   */
  lemma SetListEffect(vs: set<string>, es: seq<Edge>, s: string, t: string, w: int, k: nat,
                      rest: seq<Edge>, es': seq<Edge>)
    requires RepOk(vs, es) && w >= 0
    requires k <= |es| && (k < |es| ==> Joins(es[k], s, t))
    requires forall j :: 0 <= j < k ==> !Joins(es[j], s, t)
    requires rest == if k < |es| then es[..k] + es[k + 1..] else es
    requires es' == if w > 0 then rest + [Edge(s, t, w)] else rest
    ensures RepOk(vs + {s} + {t}, es')
    ensures forall p, q :: WeightIn(es', p, q) == if p == s && q == t then w else WeightIn(es, p, q)
  {
    if k < |es| {
      RemoveAtFacts(es, s, t, k);
    }
    assert UniquePairs(rest) && forall x :: x in rest ==> x in es && !Joins(x, s, t);
    if w > 0 {
      AppendUnique(rest, Edge(s, t, w));
    }
    forall p, q
      ensures WeightIn(es', p, q) == if p == s && q == t then w else WeightIn(es, p, q)
    {
      WeightInAbsent(rest, s, t);
      if k < |es| && !(p == s && q == t) {
        WeightInRemove(es, k, p, q);
      }
      if w > 0 {
        WeightInAppend(rest, Edge(s, t, w), p, q);
      }
    }
  }

  /** The weight `set` reports is the abstract weight of source -> target. */
  lemma PreviousWeight(vs: set<string>, es: seq<Edge>, s: string, t: string, k: nat)
    requires RepOk(vs, es)
    requires k <= |es| && (k < |es| ==> Joins(es[k], s, t))
    requires forall j :: 0 <= j < k ==> !Joins(es[j], s, t)
    ensures G.Weight(Abstraction(vs, es), s, t) == if k < |es| then es[k].weight else 0
  {
    AbstractionWeights(vs, es);
    if k < |es| {
      WeightInAt(es, k);
    } else {
      WeightInAbsent(es, s, t);
    }
  }

  /** A list whose weights are those of `SetEdge` gives its abstract graph those weights. */
  lemma SetWeights(vs: set<string>, es: seq<Edge>, es': seq<Edge>, s: string, t: string, w: int)
    requires RepOk(vs, es) && RepOk(vs + {s} + {t}, es') && w >= 0
    requires forall p, q :: WeightIn(es', p, q) == if p == s && q == t then w else WeightIn(es, p, q)
    ensures forall p, q :: G.Weight(Abstraction(vs + {s} + {t}, es'), p, q)
                           == G.Weight(G.SetEdge(Abstraction(vs, es), s, t, w), p, q)
  {
    var before, after := Abstraction(vs, es), Abstraction(vs + {s} + {t}, es');
    AbstractionWeights(vs, es);
    AbstractionWeights(vs + {s} + {t}, es');
    forall p, q
      ensures G.Weight(after, p, q) == G.Weight(G.SetEdge(before, s, t, w), p, q)
    {
      if p != s || q != t {
        assert G.Weight(G.SetEdge(before, s, t, w), p, q) == G.Weight(before, p, q);
      }
    }
  }

  /** A list whose weights are those of `SetEdge` represents `SetEdge`'s graph. */
  lemma SetRefines(vs: set<string>, es: seq<Edge>, es': seq<Edge>, s: string, t: string, w: int)
    requires RepOk(vs, es) && RepOk(vs + {s} + {t}, es') && w >= 0
    requires forall p, q :: WeightIn(es', p, q) == if p == s && q == t then w else WeightIn(es, p, q)
    ensures Abstraction(vs + {s} + {t}, es') == G.SetEdge(Abstraction(vs, es), s, t, w)
  {
    var before, after := Abstraction(vs, es), Abstraction(vs + {s} + {t}, es');
    SetWeights(vs, es, es', s, t, w);
    AbstractionWellFormed(vs, es);
    AbstractionWellFormed(vs + {s} + {t}, es');
    assert after.Keys == before.Keys + {s, t};
    G.Extensionality(after, G.SetEdge(before, s, t, w));
  }

  /** `remove(v)` on the representation is `RemoveVertex` on the abstract graph. */
  lemma RemoveRefines(vs: set<string>, es: seq<Edge>, v: string)
    requires RepOk(vs, es)
    ensures RepOk(vs - {v}, Detach(es, v))
    ensures Abstraction(vs - {v}, Detach(es, v)) == G.RemoveVertex(Abstraction(vs, es), v)
  {
    DetachUnique(es, v);
    var before, after := Abstraction(vs, es), Abstraction(vs - {v}, Detach(es, v));
    AbstractionWeights(vs, es);
    AbstractionWellFormed(vs, es);
    AbstractionWeights(vs - {v}, Detach(es, v));
    AbstractionWellFormed(vs - {v}, Detach(es, v));
    G.Extensionality(after, G.RemoveVertex(before, v));
  }

  /** `add(v)` on the representation is `AddVertex` on the abstract graph. */
  lemma AddRefines(vs: set<string>, es: seq<Edge>, v: string)
    requires RepOk(vs, es)
    ensures RepOk(vs + {v}, es)
    ensures Abstraction(vs + {v}, es) == G.AddVertex(Abstraction(vs, es), v)
  {
    AbstractionWeights(vs, es);
    AbstractionWellFormed(vs, es);
    AbstractionWeights(vs + {v}, es);
    AbstractionWellFormed(vs + {v}, es);
    G.Extensionality(Abstraction(vs + {v}, es), G.AddVertex(Abstraction(vs, es), v));
  }

  class ConcreteEdgesGraph {
    var vertices: set<string>
    var edges: seq<Edge>
    /** The abstract graph this object stands for. */
    ghost var Model: G.Graph

    /** The representation invariant, and the abstraction function applied to the fields. */
    ghost predicate Valid()
      reads this
    {
      RepOk(vertices, edges) && Model == Abstraction(vertices, edges)
    }

    constructor ()
      ensures Valid() && Model == map[]
    {
      vertices := {};
      edges := [];
      Model := map[];
    }

    /** Adds the vertex if it is missing; true exactly when it was missing. */
    method Add(vertex: string) returns (added: bool)
      requires Valid()
      modifies this
      ensures Valid()
      ensures added <==> vertex !in old(Model)
      ensures Model == G.AddVertex(old(Model), vertex)
    {
      AbstractionWellFormed(vertices, edges);
      AddRefines(vertices, edges, vertex);
      added := vertex !in vertices;
      vertices := vertices + {vertex};
      Model := G.AddVertex(Model, vertex);
    }

    /** The scan of `set` for the record source -> target: its index, or |edges| when there is none. */
    method FindEdge(source: string, target: string) returns (k: nat)
      ensures k <= |edges|
      ensures k < |edges| ==> Joins(edges[k], source, target)
      ensures forall j :: 0 <= j < k ==> !Joins(edges[j], source, target)
    {
      k := 0;
      while k < |edges| && !Joins(edges[k], source, target)
        invariant k <= |edges|
        invariant forall j :: 0 <= j < k ==> !Joins(edges[j], source, target)
      {
        k := k + 1;
      }
    }

    /**
     * Adds both endpoints, then replaces the record source -> target by one of
     * the new weight, or drops it when the weight is 0. Returns the old weight.
     */
    method Set(source: string, target: string, weight: int) returns (previous: int)
      requires Valid()
      requires weight >= 0
      modifies this
      ensures Valid()
      ensures previous == G.Weight(old(Model), source, target)
      ensures Model == G.SetEdge(old(Model), source, target, weight)
    {
      vertices := vertices + {source};
      vertices := vertices + {target};
      var k := FindEdge(source, target);
      previous := if k < |edges| then edges[k].weight else 0;
      if k < |edges| {
        edges := edges[..k] + edges[k + 1..];
      }
      ghost var rest := edges;
      if weight > 0 {
        var e := NewEdge(source, target, weight);
        edges := edges + [e.value];
      }
      PreviousWeight(old(vertices), old(edges), source, target, k);
      SetListEffect(old(vertices), old(edges), source, target, weight, k, rest, edges);
      SetRefines(old(vertices), old(edges), edges, source, target, weight);
      Model := G.SetEdge(Model, source, target, weight);
    }

    /** Removes the vertex and every record that starts or ends at it; false if it is absent. */
    method Remove(vertex: string) returns (removed: bool)
      requires Valid()
      modifies this
      ensures Valid()
      ensures removed <==> vertex in old(Model)
      ensures Model == if removed then G.RemoveVertex(old(Model), vertex) else old(Model)
    {
      AbstractionWellFormed(vertices, edges);
      if vertex !in vertices {
        return false;
      }
      RemoveRefines(vertices, edges, vertex);
      vertices := vertices - {vertex};
      edges := Detach(edges, vertex);
      Model := G.RemoveVertex(Model, vertex);
      return true;
    }

    /** A copy of the vertex set. */
    function Vertices(): (vs: set<string>)
      reads this
      requires Valid()
      ensures vs == Model.Keys
    {
      AbstractionWellFormed(vertices, edges);
      vertices
    }

    /** Every vertex with an edge into target, with its weight. */
    method Sources(target: string) returns (m: map<string, int>)
      requires Valid()
      ensures m == G.Sources(Model, target)
    {
      m := map[];
      var i := 0;
      while i < |edges|
        invariant i <= |edges|
        invariant m == InTo(edges[..i], target)
      {
        assert edges[..i + 1][..i] == edges[..i];
        if edges[i].target == target {
          m := m[edges[i].source := edges[i].weight];
        }
        i := i + 1;
      }
      assert edges[..i] == edges;
      InToIsSources(vertices, edges, target);
    }

    /** Every vertex with an edge out of source, with its weight. */
    method Targets(source: string) returns (m: map<string, int>)
      requires Valid()
      ensures m == G.Targets(Model, source)
    {
      m := map[];
      var i := 0;
      while i < |edges|
        invariant i <= |edges|
        invariant m == OutOf(edges[..i], source)
      {
        assert edges[..i + 1][..i] == edges[..i];
        if edges[i].source == source {
          m := m[edges[i].target := edges[i].weight];
        }
        i := i + 1;
      }
      assert edges[..i] == edges;
      OutOfIsTargets(vertices, edges, source);
    }
  }
}
