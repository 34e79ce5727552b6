/**
 * The vertex-list representation (ConcreteVerticesGraph): a list of vertex
 * records, each owning a mutable map from target label to weight.
 */
module VerticesGraph {
  import G = WeightedGraph

  /** The names of a list of vertex records. */
  ghost function NamesOf(vs: seq<Vertex>): set<string>
  {
    if vs == [] then {} else NamesOf(vs[..|vs| - 1]) + {vs[|vs| - 1].name}
  }

  /** No two records in the list share a name (invariant I4). */
  ghost predicate DistinctNames(vs: seq<Vertex>)
  {
    forall i, j :: 0 <= i < j < |vs| ==> vs[i].name != vs[j].name
  }

  /** Every name in the list belongs to a record at some index. */
  lemma {:induction false} NameIndex(vs: seq<Vertex>, x: string) returns (i: nat)
    requires x in NamesOf(vs)
    ensures i < |vs| && vs[i].name == x
    decreases |vs|
  {
    var init := vs[..|vs| - 1];
    if x == vs[|vs| - 1].name {
      i := |vs| - 1;
    } else {
      i := NameIndex(init, x);
      assert vs[i] == init[i];
    }
  }

  /** The record at each index contributes its name. */
  lemma {:induction false} NameAt(vs: seq<Vertex>, i: int)
    requires 0 <= i < |vs|
    ensures vs[i].name in NamesOf(vs)
    decreases |vs|
  {
    if i < |vs| - 1 {
      var init := vs[..|vs| - 1];
      NameAt(init, i);
      assert vs[i] == init[i];
    }
  }

  /** Dropping the record at k keeps the other names distinct. */
  lemma {:induction false} DistinctRemoveAt(vs: seq<Vertex>, k: int)
    requires 0 <= k < |vs|
    requires DistinctNames(vs)
    ensures DistinctNames(vs[..k] + vs[k + 1..])
  {
    var ws := vs[..k] + vs[k + 1..];
    assert forall j :: 0 <= j < |ws| ==> ws[j] == if j < k then vs[j] else vs[j + 1];
  }

  /** Dropping the record at k drops exactly its name, since names are distinct. */
  lemma {:induction false} NamesRemoveAt(vs: seq<Vertex>, k: int)
    requires 0 <= k < |vs|
    requires DistinctNames(vs)
    ensures NamesOf(vs[..k] + vs[k + 1..]) == NamesOf(vs) - {vs[k].name}
  {
    var ws := vs[..k] + vs[k + 1..];
    forall x | x in NamesOf(vs) && x != vs[k].name
      ensures x in NamesOf(ws)
    {
      var i := NameIndex(vs, x);
      var j := if i < k then i else i - 1;
      assert ws[j] == vs[i];
      NameAt(ws, j);
    }
    forall x | x in NamesOf(ws)
      ensures x in NamesOf(vs) && x != vs[k].name
    {
      var j := NameIndex(ws, x);
      var i := if j < k then j else j + 1;
      assert ws[j] == vs[i];
      NameAt(vs, i);
    }
  }

  /** Every edge into v deleted; v itself stays a vertex. */
  function WithoutEdgesInto(g: G.Graph, v: string): (r: G.Graph)
    ensures r.Keys == g.Keys
    ensures forall p, q :: G.Weight(r, p, q) == if q == v then 0 else G.Weight(g, p, q)
  {
    map u | u in g :: g[u] - {v}
  }

  lemma WithoutEdgesIntoWellFormed(g: G.Graph, v: string)
    requires G.WellFormed(g)
    ensures G.WellFormed(WithoutEdgesInto(g, v))
    ensures forall s :: s in WithoutEdgesInto(g, v) ==> v !in WithoutEdgesInto(g, v)[s]
  {
  }

  /**
   * Removing a vertex is deleting the edges into it and then its own entry,
   * which carries the edges out of it.
   */
  lemma RemoveInTwoSteps(g: G.Graph, v: string)
    requires G.WellFormed(g)
    ensures G.RemoveVertex(g, v) == WithoutEdgesInto(g, v) - {v}
  {
    var a, b := G.RemoveVertex(g, v), WithoutEdgesInto(g, v) - {v};
    WithoutEdgesIntoWellFormed(g, v);
    forall p, q
      ensures G.Weight(a, p, q) == G.Weight(b, p, q)
    {
      assert G.Weight(b, p, q) == if p == v then 0 else G.Weight(WithoutEdgesInto(g, v), p, q);
    }
    G.Extensionality(a, b);
  }

  /**
   * Adding both endpoints and then replacing the source's outgoing map by the
   * updated one is the abstract `SetEdge`.
   */
  lemma SetByRow(g: G.Graph, s: string, t: string, w: int)
    requires w >= 0
    ensures AddEndpoints(g, s, t)[s] == G.Targets(g, s)
    ensures AddEndpoints(g, s, t)[s := UpdatedRow(G.Targets(g, s), t, w)] == G.SetEdge(g, s, t, w)
  {
  }

  /** Both endpoints added as vertices. */
  function AddEndpoints(g: G.Graph, s: string, t: string): (r: G.Graph)
    ensures s in r && t in r
  {
    G.AddVertex(G.AddVertex(g, s), t)
  }

  /** An outgoing map after the edge to t is set to w (0 deletes it). */
  function UpdatedRow(row: map<string, int>, t: string, w: int): (r: map<string, int>)
    ensures t in r <==> w != 0
    ensures t in r ==> r[t] == w
    ensures forall u :: u != t ==> (u in r <==> u in row)
    ensures forall u :: u != t && u in r ==> r[u] == row[u]
  {
    if w == 0 then row - {t} else row[t := w]
  }

  /** A vertex record: its name and its outgoing edges, which are updated in place. */
  class Vertex {
    const name: string
    var targets: map<string, int>

    constructor (name: string)
      ensures this.name == name && targets == map[]
    {
      this.name := name;
      targets := map[];
    }

    /** The record's own invariant: every stored weight is positive. */
    ghost predicate Valid()
      reads this
    {
      forall t :: t in targets ==> targets[t] > 0
    }

    /** The outgoing edges, as a value the caller cannot use to change the record. */
    function GetTargets(): (m: map<string, int>)
      reads this
      ensures Valid() ==> forall t :: t in m ==> m[t] > 0
    {
      targets
    }

    /**
     * Weight 0 deletes the edge to target, a positive weight puts it; returns
     * the weight that was stored before, or 0.
     */
    method SetEdge(target: string, weight: int) returns (prev: int)
      requires weight >= 0
      modifies this
      ensures prev == if target in old(targets) then old(targets)[target] else 0
      ensures targets == UpdatedRow(old(targets), target, weight)
      ensures old(Valid()) ==> Valid()
    {
      prev := if target in targets then targets[target] else 0;
      if weight == 0 {
        targets := targets - {target};
      } else {
        targets := targets[target := weight];
      }
    }

    /** Deletes the edge to target, if there is one. */
    method RemoveEdge(target: string)
      modifies this
      ensures targets == old(targets) - {target}
    {
      targets := targets - {target};
    }
  }

  class ConcreteVerticesGraph {
    var vertices: seq<Vertex>
    /** The abstract graph this object stands for. */
    ghost var Model: G.Graph
    /** The vertex records this object owns. */
    ghost var Repr: set<Vertex>

    /**
     * The representation invariant and the abstraction function: no two
     * records share a name (I4), each record is one abstract vertex whose
     * outgoing edges are the record's map, there is no other vertex, and the
     * abstract graph keeps I1 and I2 (every target is a vertex, every weight
     * is positive).
     */
    ghost predicate Valid()
      reads this, Repr
    {
      && DistinctNames(vertices)
      && (forall i :: 0 <= i < |vertices| ==>
            vertices[i] in Repr && vertices[i].name in Model && Model[vertices[i].name] == vertices[i].targets)
      && Model.Keys == NamesOf(vertices)
      && G.WellFormed(Model)
    }

    constructor ()
      ensures Valid() && Model == map[] && vertices == [] && Repr == {}
    {
      vertices := [];
      Model := map[];
      Repr := {};
    }

    /** Linear scan: is there a record with this name? */
    method ContainsVertex(name: string) returns (found: bool)
      requires Valid()
      ensures found <==> name in Model
    {
      var i := 0;
      while i < |vertices|
        invariant i <= |vertices|
        invariant forall j :: 0 <= j < i ==> vertices[j].name != name
      {
        if vertices[i].name == name {
          return true;
        }
        i := i + 1;
      }
      if name in Model {
        ghost var j := NameIndex(vertices, name);
      }
      return false;
    }

    /** Linear scan: the record with this name, or null. */
    method GetVertex(name: string) returns (v: Vertex?)
      requires Valid()
      ensures v == null <==> name !in Model
      ensures v != null ==> v in vertices && v in Repr && v.name == name
    {
      var i := 0;
      while i < |vertices|
        invariant i <= |vertices|
        invariant forall j :: 0 <= j < i ==> vertices[j].name != name
      {
        if vertices[i].name == name {
          return vertices[i];
        }
        i := i + 1;
      }
      if name in Model {
        ghost var j := NameIndex(vertices, name);
      }
      return null;
    }

    /** Appends a fresh record with no edges unless the name is already there. */
    method Add(vertex: string) returns (added: bool)
      requires Valid()
      modifies this
      ensures Valid()
      ensures added <==> vertex !in old(Model)
      ensures Model == G.AddVertex(old(Model), vertex)
      ensures !added ==> vertices == old(vertices)
      ensures added ==> |vertices| == |old(vertices)| + 1 && vertices[..|old(vertices)|] == old(vertices)
      ensures added ==> vertices[|old(vertices)|].name == vertex && vertices[|old(vertices)|].targets == map[]
      ensures old(Repr) <= Repr && fresh(Repr - old(Repr))
    {
      var present := ContainsVertex(vertex);
      if present {
        return false;
      }
      var v := new Vertex(vertex);
      vertices := vertices + [v];
      Model := Model[vertex := map[]];
      Repr := Repr + {v};
      assert vertices[..|vertices| - 1] == old(vertices);
      forall i | 0 <= i < |vertices|
        ensures vertices[i] in Repr && vertices[i].name in Model && Model[vertices[i].name] == vertices[i].targets
        ensures i < |vertices| - 1 ==> vertices[i].name != vertex
      {
        if i < |vertices| - 1 {
          assert vertices[i] == old(vertices)[i];
          NameAt(old(vertices), i);
        }
      }
      return true;
    }

    /**
     * Adds both endpoints if they are missing, then sets the edge on the
     * source's record. Returns the weight stored before, or 0.
     */
    method Set(source: string, target: string, weight: int) returns (prev: int)
      requires Valid()
      requires weight >= 0
      modifies this, Repr
      ensures Valid()
      ensures prev == G.Weight(old(Model), source, target)
      ensures Model == G.SetEdge(old(Model), source, target, weight)
      ensures old(Repr) <= Repr && fresh(Repr - old(Repr))
    {
      var has := ContainsVertex(source);
      if !has {
        var _ := Add(source);
      }
      has := ContainsVertex(target);
      if !has {
        var _ := Add(target);
      }
      ghost var mid := Model;
      assert mid == AddEndpoints(old(Model), source, target);
      assert old(Repr) <= Repr && fresh(Repr - old(Repr));
      SetByRow(old(Model), source, target, weight);
      var src := GetVertex(source);
      prev := SetOnRecord(src, target, weight);
    }

    /** The last step of `Set`: the source's record takes the new weight. */
    method SetOnRecord(src: Vertex, target: string, weight: int) returns (prev: int)
      requires Valid()
      requires src in vertices && target in Model
      requires weight >= 0
      modifies src, this
      ensures Valid() && Repr == old(Repr)
      ensures prev == G.Weight(old(Model), src.name, target)
      ensures Model == old(Model)[src.name := UpdatedRow(old(Model)[src.name], target, weight)]
    {
      ghost var k :| 0 <= k < |vertices| && vertices[k] == src;
      label Before:
      prev := src.SetEdge(target, weight);
      Model := Model[src.name := src.targets];
      forall i | 0 <= i < |vertices| && i != k
        ensures Model[vertices[i].name] == vertices[i].targets
      {
        assert vertices[i].name != vertices[k].name;
        assert vertices[i].targets == old@Before(vertices[i].targets);
      }
      assert G.WellFormed(Model);
    }

    /**
     * Deletes every edge into the vertex from every record, then drops the
     * vertex's own record; false if there is no such vertex.
     */
    method Remove(vertex: string) returns (removed: bool)
      requires Valid()
      modifies this, Repr
      ensures Valid()
      ensures removed <==> vertex in old(Model)
      ensures Model == if removed then G.RemoveVertex(old(Model), vertex) else old(Model)
      ensures Repr == old(Repr)
    {
      var v := GetVertex(vertex);
      if v == null {
        return false;
      }
      RemoveEdgesInto(vertex);
      var k :| 0 <= k < |vertices| && vertices[k] == v;
      DropRecord(k);
      RemoveInTwoSteps(old(Model), vertex);
      return true;
    }

    /** The loop of `Remove`: every record forgets its edge into the vertex. */
    method RemoveEdgesInto(vertex: string)
      requires Valid()
      modifies this, Repr
      ensures Valid() && vertices == old(vertices) && Repr == old(Repr)
      ensures Model == WithoutEdgesInto(old(Model), vertex)
    {
      var i := 0;
      while i < |vertices|
        invariant i <= |vertices|
        invariant vertices == old(vertices) && Model == old(Model) && Repr == old(Repr)
        invariant forall j :: 0 <= j < |vertices| ==> vertices[j] in Repr && vertices[j].name in Model
        invariant DistinctNames(vertices)
        invariant forall j :: 0 <= j < i ==> vertices[j].targets == Model[vertices[j].name] - {vertex}
        invariant forall j :: i <= j < |vertices| ==> vertices[j].targets == Model[vertices[j].name]
      {
        vertices[i].RemoveEdge(vertex);
        i := i + 1;
      }
      WithoutEdgesIntoWellFormed(Model, vertex);
      Model := WithoutEdgesInto(Model, vertex);
    }

    /** The `vertices.remove(v)` step of `Remove`: the record at k leaves the list. */
    method DropRecord(k: int)
      requires Valid()
      requires 0 <= k < |vertices|
      requires forall s :: s in Model ==> vertices[k].name !in Model[s]
      modifies this
      ensures Valid() && Repr == old(Repr)
      ensures Model == old(Model) - {old(vertices)[k].name}
    {
      ghost var before, name := vertices, vertices[k].name;
      DistinctRemoveAt(before, k);
      NamesRemoveAt(before, k);
      vertices := vertices[..k] + vertices[k + 1..];
      Model := Model - {name};
      forall j | 0 <= j < |vertices|
        ensures vertices[j] in Repr && vertices[j].name in Model && Model[vertices[j].name] == vertices[j].targets
      {
        var j' := if j < k then j else j + 1;
        assert vertices[j] == before[j'] && before[j'].name != name;
      }
    }

    /** The set of vertex names. */
    method Vertices() returns (vs: set<string>)
      requires Valid()
      ensures vs == Model.Keys
    {
      vs := {};
      var i := 0;
      while i < |vertices|
        invariant i <= |vertices|
        invariant forall j :: 0 <= j < i ==> vertices[j].name in vs
        invariant vs <= Model.Keys
      {
        vs := vs + {vertices[i].name};
        i := i + 1;
      }
      forall x | x in Model
        ensures x in vs
      {
        var j := NameIndex(vertices, x);
      }
    }

    /** Every record whose map holds target, mapped to that weight. */
    method Sources(target: string) returns (m: map<string, int>)
      requires Valid()
      ensures m == G.Sources(Model, target)
    {
      m := map[];
      var i := 0;
      while i < |vertices|
        invariant i <= |vertices|
        invariant forall j :: 0 <= j < i && target in vertices[j].targets ==> vertices[j].name in m
        invariant forall s :: s in m ==> s in Model && target in Model[s] && m[s] == Model[s][target]
      {
        var out := vertices[i].GetTargets();
        if target in out {
          m := m[vertices[i].name := out[target]];
        }
        i := i + 1;
      }
      forall s | s in Model && target in Model[s]
        ensures s in m
      {
        var j := NameIndex(vertices, s);
      }
    }

    /** A copy of the source's map, or the empty map if there is no such vertex. */
    method Targets(source: string) returns (m: map<string, int>)
      requires Valid()
      ensures m == G.Targets(Model, source)
    {
      var v := GetVertex(source);
      if v == null {
        return map[];
      }
      return v.GetTargets();
    }
  }
}
