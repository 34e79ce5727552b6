/**
 * The two representations against one contract. A single test suite drives
 * either class through the same calls, so both must return the same replies
 * and answer every query alike. Here both are run in lockstep on any sequence
 * of mutator calls.
 */
module Equivalence {
  import G = WeightedGraph
  import E = EdgesGraph
  import V = VerticesGraph

  /** One call of a mutator of the graph interface. */
  datatype Op =
    | Add(vertex: string)
    | Set(source: string, target: string, weight: nat)
    | Remove(vertex: string)

  /** What a mutator returns: add and remove report a flag, set the previous weight. */
  datatype Reply = Flag(changed: bool) | Previous(weight: int)

  /** The abstract effect and reply of one call. */
  function Step(g: G.Graph, op: Op): (G.Graph, Reply)
  {
    match op
    case Add(x) => (G.AddVertex(g, x), Flag(x !in g))
    case Set(s, t, w) => (G.SetEdge(g, s, t, w), Previous(G.Weight(g, s, t)))
    case Remove(x) => (if x in g then G.RemoveVertex(g, x) else g, Flag(x in g))
  }

  /** The abstract effect of a sequence of calls, with one reply per call in order. */
  function Run(g: G.Graph, ops: seq<Op>): (r: (G.Graph, seq<Reply>))
    ensures |r.1| == |ops|
    decreases |ops|
  {
    if ops == [] then (g, [])
    else
      var before := Run(g, ops[..|ops| - 1]);
      var last := Step(before.0, ops[|ops| - 1]);
      (last.0, before.1 + [last.1])
  }

  /** One call keeps invariants I1 and I2. */
  lemma StepWellFormed(g: G.Graph, op: Op)
    requires G.WellFormed(g)
    ensures G.WellFormed(Step(g, op).0)
  {
  }

  /** Any sequence of calls keeps invariants I1 and I2. */
  lemma {:induction false} RunWellFormed(g: G.Graph, ops: seq<Op>)
    requires G.WellFormed(g)
    ensures G.WellFormed(Run(g, ops).0)
    decreases |ops|
  {
    if ops != [] {
      RunWellFormed(g, ops[..|ops| - 1]);
      StepWellFormed(Run(g, ops[..|ops| - 1]).0, ops[|ops| - 1]);
    }
  }

  /** One call on the edge-list graph. */
  method ApplyEdges(e: E.ConcreteEdgesGraph, op: Op) returns (reply: Reply)
    requires e.Valid()
    modifies e
    ensures e.Valid()
    ensures (e.Model, reply) == Step(old(e.Model), op)
  {
    match op
    case Add(x) =>
      var added := e.Add(x);
      reply := Flag(added);
    case Set(s, t, w) =>
      var previous := e.Set(s, t, w);
      reply := Previous(previous);
    case Remove(x) =>
      var removed := e.Remove(x);
      reply := Flag(removed);
  }

  /** One call on the vertex-list graph. */
  method ApplyVertices(v: V.ConcreteVerticesGraph, op: Op) returns (reply: Reply)
    requires v.Valid()
    modifies v, v.Repr
    ensures v.Valid()
    ensures (v.Model, reply) == Step(old(v.Model), op)
    ensures old(v.Repr) <= v.Repr && fresh(v.Repr - old(v.Repr))
  {
    match op
    case Add(x) =>
      var added := v.Add(x);
      reply := Flag(added);
    case Set(s, t, w) =>
      var previous := v.Set(s, t, w);
      reply := Previous(previous);
    case Remove(x) =>
      var removed := v.Remove(x);
      reply := Flag(removed);
  }

  /** One call on both representations of one graph: same reply, same new graph. */
  method ApplyBoth(e: E.ConcreteEdgesGraph, v: V.ConcreteVerticesGraph, op: Op)
    returns (reply: Reply, reply': Reply)
    requires e.Valid() && v.Valid() && e.Model == v.Model
    modifies e, v, v.Repr
    ensures e.Valid() && v.Valid() && e.Model == v.Model
    ensures (e.Model, reply) == Step(old(e.Model), op)
    ensures reply' == reply
    ensures old(v.Repr) <= v.Repr && fresh(v.Repr - old(v.Repr))
  {
    reply := ApplyEdges(e, op);
    reply' := ApplyVertices(v, op);
  }

  /**
   * Runs the same calls on both representations of one graph: they return the
   * same replies, the replies and final graph are those of `Run`, and both
   * still stand for the same graph.
   */
  method RunBoth(e: E.ConcreteEdgesGraph, v: V.ConcreteVerticesGraph, ops: seq<Op>)
    returns (replies: seq<Reply>, replies': seq<Reply>)
    requires e.Valid() && v.Valid() && e.Model == v.Model
    modifies e, v, v.Repr
    ensures e.Valid() && v.Valid() && e.Model == v.Model
    ensures (e.Model, replies) == Run(old(e.Model), ops)
    ensures replies' == replies
    ensures old(v.Repr) <= v.Repr && fresh(v.Repr - old(v.Repr))
  {
    replies, replies' := [], [];
    var i := 0;
    while i < |ops|
      invariant i <= |ops|
      invariant e.Valid() && v.Valid() && e.Model == v.Model
      invariant (e.Model, replies) == Run(old(e.Model), ops[..i])
      invariant replies' == replies
      invariant old(v.Repr) <= v.Repr && fresh(v.Repr - old(v.Repr))
    {
      var reply, reply' := ApplyBoth(e, v, ops[i]);
      assert ops[..i + 1][..i] == ops[..i];
      replies, replies' := replies + [reply], replies' + [reply'];
      i := i + 1;
    }
    assert ops[..|ops|] == ops;
  }

  /**
   * Two new graphs, one of each class, driven by the same calls from empty, as
   * every shared test case starts: both return the replies of `Run` from the
   * empty graph and end as the same graph.
   */
  method RunFromEmpty(ops: seq<Op>)
    returns (e: E.ConcreteEdgesGraph, v: V.ConcreteVerticesGraph, replies: seq<Reply>, replies': seq<Reply>)
    ensures e.Valid() && v.Valid() && e.Model == v.Model
    ensures (e.Model, replies) == Run(map[], ops)
    ensures replies' == replies
    ensures fresh(e) && fresh(v) && fresh(v.Repr)
  {
    e := new E.ConcreteEdgesGraph();
    v := new V.ConcreteVerticesGraph();
    replies, replies' := RunBoth(e, v, ops);
  }

  /**
   * Every query answers alike on two representations of one graph, and the
   * answer is the abstract graph's.
   */
  method Observe(e: E.ConcreteEdgesGraph, v: V.ConcreteVerticesGraph, s: string, t: string)
    returns (vs: set<string>, vs': set<string>, sources: map<string, int>, sources': map<string, int>,
             targets: map<string, int>, targets': map<string, int>)
    requires e.Valid() && v.Valid() && e.Model == v.Model
    ensures vs == vs' == e.Model.Keys
    ensures sources == sources' == G.Sources(e.Model, t)
    ensures targets == targets' == G.Targets(e.Model, s)
  {
    vs := e.Vertices();
    vs' := v.Vertices();
    sources := e.Sources(t);
    sources' := v.Sources(t);
    targets := e.Targets(s);
    targets' := v.Targets(s);
  }

  /**
   * testAddVertex on the abstract graph: each new vertex is reported as added
   * and joins the vertex set.
   */
  lemma AddVertexScenario(a: string, b: string)
    requires a != b
    ensures var s1 := Step(map[], Add(a));
      var s2 := Step(s1.0, Add(b));
      && s1.1 == Flag(true) && s1.0.Keys == {a}
      && s2.1 == Flag(true) && s2.0.Keys == {a, b}
  {
  }

  /**
   * testAddDuplicateVertex on the abstract graph: the second add of the same
   * vertex reports false and changes nothing.
   */
  lemma AddDuplicateScenario(a: string)
    ensures var s1 := Step(map[], Add(a));
      var s2 := Step(s1.0, Add(a));
      && s1.1 == Flag(true) && s2.1 == Flag(false)
      && s2.0 == s1.0 && s2.0.Keys == {a}
  {
  }

  /**
   * testAddEdge on the abstract graph: after two adds and one positive `set`,
   * both queries show exactly that edge.
   */
  lemma AddEdgeScenario(a: string, b: string, w: int)
    requires a != b && w > 0
    ensures var s1 := Step(map[], Add(a));
      var s2 := Step(s1.0, Add(b));
      var s3 := Step(s2.0, Set(a, b, w));
      && [s1.1, s2.1, s3.1] == [Flag(true), Flag(true), Previous(0)]
      && G.Targets(s3.0, a) == map[b := w]
      && G.Sources(s3.0, b) == map[a := w]
  {
    var s2 := Step(Step(map[], Add(a)).0, Add(b));
    assert G.WellFormed(map[]);
    assert G.Weight(s2.0, a, b) == 0;
    OnlyEdge(Step(s2.0, Set(a, b, w)).0, a, b, w);
  }

  /**
   * testUpdateEdgeWeight on the abstract graph: the second `set` reports the
   * first weight, and both queries show the new one.
   */
  lemma UpdateWeightScenario(a: string, b: string, w1: int, w2: int)
    requires a != b && w1 > 0 && w2 > 0
    ensures var s1 := Step(map[], Add(a));
      var s2 := Step(s1.0, Add(b));
      var s3 := Step(s2.0, Set(a, b, w1));
      var s4 := Step(s3.0, Set(a, b, w2));
      && [s1.1, s2.1, s3.1, s4.1] == [Flag(true), Flag(true), Previous(0), Previous(w1)]
      && G.Targets(s4.0, a) == map[b := w2]
      && G.Sources(s4.0, b) == map[a := w2]
  {
    var s2 := Step(Step(map[], Add(a)).0, Add(b));
    var s3 := Step(s2.0, Set(a, b, w1));
    assert G.WellFormed(map[]);
    assert G.Weight(s2.0, a, b) == 0;
    OnlyEdge(Step(s3.0, Set(a, b, w2)).0, a, b, w2);
  }

  /**
   * testRemoveEdge on the abstract graph: setting the edge to 0 reports its
   * weight and leaves both queries empty.
   */
  lemma RemoveEdgeScenario(a: string, b: string, w: int)
    requires a != b && w > 0
    ensures var s1 := Step(map[], Add(a));
      var s2 := Step(s1.0, Add(b));
      var s3 := Step(s2.0, Set(a, b, w));
      var s4 := Step(s3.0, Set(a, b, 0));
      && [s1.1, s2.1, s3.1, s4.1] == [Flag(true), Flag(true), Previous(0), Previous(w)]
      && G.Targets(s4.0, a) == map[]
      && G.Sources(s4.0, b) == map[]
  {
    var s2 := Step(Step(map[], Add(a)).0, Add(b));
    var s3 := Step(s2.0, Set(a, b, w));
    var g4 := Step(s3.0, Set(a, b, 0)).0;
    assert G.WellFormed(map[]);
    assert forall p, q :: G.Weight(s2.0, p, q) == 0;
    forall p, q
      ensures G.Weight(g4, p, q) == 0
    {
      if (p, q) != (a, b) {
        assert G.Weight(g4, p, q) == G.Weight(s3.0, p, q) == G.Weight(s2.0, p, q);
      }
    }
    NoEdges(g4, a, b);
  }

  /**
   * testRemoveVertex on the abstract graph: removing the target of the only
   * edge leaves just the source, with no edges.
   */
  lemma RemoveVertexScenario(a: string, b: string, w: int)
    requires a != b && w > 0
    ensures var s1 := Step(map[], Add(a));
      var s2 := Step(s1.0, Add(b));
      var s3 := Step(s2.0, Set(a, b, w));
      var s4 := Step(s3.0, Remove(b));
      && [s1.1, s2.1, s3.1, s4.1] == [Flag(true), Flag(true), Previous(0), Flag(true)]
      && s4.0 == map[a := map[]]
      && b !in s4.0 && G.Targets(s4.0, a) == map[] && G.Sources(s4.0, b) == map[]
  {
    var s2 := Step(Step(map[], Add(a)).0, Add(b));
    var s3 := Step(s2.0, Set(a, b, w));
    var s4 := Step(s3.0, Remove(b));
    assert G.WellFormed(map[]);
    assert forall p, q :: G.Weight(s2.0, p, q) == 0;
    assert G.Weight(s2.0, a, b) == 0;
    assert s2.0.Keys == {a, b};
    forall p, q
      ensures G.Weight(s4.0, p, q) == 0
    {
      if p != b && q != b {
        assert G.Weight(s3.0, p, q) == G.Weight(s2.0, p, q);
      }
    }
    G.Extensionality(s4.0, map[a := map[]]);
    NoEdges(s4.0, a, b);
  }

  /** In a well-formed graph whose only edge is s -> t, the queries report just that edge. */
  lemma OnlyEdge(g: G.Graph, s: string, t: string, w: int)
    requires G.WellFormed(g) && G.Weight(g, s, t) == w && w > 0
    requires forall p, q :: (p, q) != (s, t) ==> G.Weight(g, p, q) == 0
    ensures G.Targets(g, s) == map[t := w] && G.Sources(g, t) == map[s := w]
  {
  }

  /** In a well-formed graph with no edge at all, the queries report nothing. */
  lemma NoEdges(g: G.Graph, s: string, t: string)
    requires G.WellFormed(g)
    requires forall p, q :: G.Weight(g, p, q) == 0
    ensures G.Targets(g, s) == map[] && G.Sources(g, t) == map[]
  {
  }

  /** Running two call sequences one after the other is running their concatenation. */
  lemma {:induction false} RunConcat(g: G.Graph, ops1: seq<Op>, ops2: seq<Op>)
    ensures var first := Run(g, ops1);
      var second := Run(first.0, ops2);
      Run(g, ops1 + ops2) == (second.0, first.1 + second.1)
    decreases |ops2|
  {
    var first := Run(g, ops1);
    if ops2 == [] {
      assert ops1 + ops2 == ops1;
      assert first.1 + [] == first.1;
    } else {
      var init := ops2[..|ops2| - 1];
      var op := ops2[|ops2| - 1];
      RunConcat(g, ops1, init);
      var mid := Run(first.0, init);
      var last := Step(mid.0, op);
      RunSnoc(first.0, init, op);
      assert init + [op] == ops2;
      assert (ops1 + init) + [op] == ops1 + ops2;
      RunSnoc(g, ops1 + init, op);
      assert (first.1 + mid.1) + [last.1] == first.1 + (mid.1 + [last.1]);
    }
  }

  /** `Run` on one more call is one more `Step`. */
  lemma RunSnoc(g: G.Graph, ops: seq<Op>, op: Op)
    ensures var before := Run(g, ops);
      var last := Step(before.0, op);
      Run(g, ops + [op]) == (last.0, before.1 + [last.1])
  {
    assert (ops + [op])[..|ops|] == ops;
  }

  /*
   * The shared test cases that make at most two calls, each run on one new
   * graph of each class, for any labels. The longer ones are the scenario
   * lemmas above, on the abstract graph; `ApplyBoth` and `RunBoth` carry any
   * sequence of calls over to both classes.
   */

  /** testInitialVerticesEmpty on both classes. */
  method InitialVerticesEmptyCase() returns (vs: set<string>, vs': set<string>)
    ensures vs == vs' == {}
  {
    var e := new E.ConcreteEdgesGraph();
    var v := new V.ConcreteVerticesGraph();
    vs := e.Vertices();
    vs' := v.Vertices();
  }

  /** testAddVertex on both classes. */
  method AddVertexCase(a: string, b: string)
    returns (added: seq<Reply>, added': seq<Reply>, vs1: set<string>, vs1': set<string>, vs2: set<string>, vs2': set<string>)
    requires a != b
    ensures added == added' == [Flag(true), Flag(true)]
    ensures vs1 == vs1' == {a} && vs2 == vs2' == {a, b}
  {
    var e := new E.ConcreteEdgesGraph();
    var v := new V.ConcreteVerticesGraph();
    AddVertexScenario(a, b);
    var r1, q1 := ApplyBoth(e, v, Add(a));
    vs1 := e.Vertices();
    vs1' := v.Vertices();
    var r2, q2 := ApplyBoth(e, v, Add(b));
    vs2 := e.Vertices();
    vs2' := v.Vertices();
    added, added' := [r1, r2], [q1, q2];
  }

  /** testAddDuplicateVertex on both classes. */
  method AddDuplicateCase(a: string)
    returns (added: seq<Reply>, added': seq<Reply>, vs: set<string>, vs': set<string>)
    ensures added == added' == [Flag(true), Flag(false)]
    ensures vs == vs' == {a}
  {
    var e := new E.ConcreteEdgesGraph();
    var v := new V.ConcreteVerticesGraph();
    AddDuplicateScenario(a);
    var r1, q1 := ApplyBoth(e, v, Add(a));
    var r2, q2 := ApplyBoth(e, v, Add(a));
    vs := e.Vertices();
    vs' := v.Vertices();
    added, added' := [r1, r2], [q1, q2];
  }
}
