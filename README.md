# Weighted digraph: two representations of one abstract graph

The modelled system is a mutable, directed, weighted graph over string labels. It has two
interchangeable implementations of one interface. Both must pass the same test suite.

- `ConcreteEdgesGraph` keeps a set of vertex labels and a list of immutable
  `(source, target, weight)` edge records.
- `ConcreteVerticesGraph` keeps a list of mutable `Vertex` records. Each record owns a map from
  target label to weight.

Both offer `add`, `set`, `remove`, `vertices`, `sources` and `targets`.

The model has four modules:

- `WeightedGraph` (`graph_spec.dfy`) is the abstract graph both classes stand for. It is an
  adjacency map `map<string, map<string, int>>` whose keys are the vertices. It has the abstract
  operations and their laws. The three invariants are:
  - I1: every edge ends at a vertex;
  - I2: every stored weight is positive;
  - I3: at most one weight per ordered pair, which the map type gives for free.
- `EdgesGraph` (`edges_graph.dfy`) models `ConcreteEdgesGraph` and `Edge`:
  - the class holds a `set<string>` and a `seq<Edge>`, with `Valid()` as the representation
    invariant and a ghost `Model` tied to the fields by the documented abstraction function;
  - every mutator states its new `Model` as the abstract operation applied to the old one;
  - the `targets`/`sources` loops are folds over the list, and `removeIf` is a filter;
  - lemmas show that the list operations refine the abstract ones;
  - the immutable `Edge` class (src/graph/ConcreteEdgesGraph.java:147-175) is the datatype
    `EdgesGraph.Edge`, and its constructor's weight check is `NewEdge`.
- `VerticesGraph` (`vertices_graph.dfy`) models `ConcreteVerticesGraph` and `Vertex`. A `Vertex`
  is a class whose `targets` map is updated in place. The graph holds a `seq<Vertex>` and a ghost
  footprint `Repr`. Its `Valid()` states:
  - I4: distinct names;
  - one abstract vertex per record, with that record's map as its outgoing edges, and no other
    vertex;
  - I1 and I2.
- `Equivalence` (`equivalence.dfy`) runs both classes in lockstep on any sequence of mutator
  calls. It proves that they return the same replies, the replies of the abstract `Run`, and that
  every query gives the abstract graph's answer on both. It also states the cases of the shared
  test suite at test/graph/GraphInstanceTest.java:35-103, each with all its calls, the leading `add` calls
  included, for any distinct labels and positive weights:
  - the cases with at most two calls are run on one new object of each class;
  - the longer cases are stated as chains of abstract `Step`s, which `ApplyBoth` and `RunBoth`
    carry over to both classes.

## Model

| member | source | states |
|---|---|---|
| `WeightedGraph.AddVertex` | src/graph/ConcreteEdgesGraph.java:55-61 | adds exactly the new label; a present label leaves the graph unchanged; no weight changes; I1/I2 kept |
| `WeightedGraph.SetEdge` | src/graph/ConcreteEdgesGraph.java:63-96 | both endpoints become vertices, s -> t gets weight w (0 = no edge), every other pair keeps its weight; a non-negative weight keeps I1/I2 |
| `WeightedGraph.RemoveVertex` | src/graph/ConcreteEdgesGraph.java:98-109 | exactly the label leaves the vertex set; every edge touching it reads 0, all others unchanged; I1/I2 kept |
| `WeightedGraph.Sources` | src/graph/ConcreteEdgesGraph.java:116-125 | each reported weight is the weight of s -> t; on a well-formed graph s is reported iff that weight is positive |
| `WeightedGraph.Targets` | src/graph/ConcreteEdgesGraph.java:127-136 | each reported weight is the weight of s -> t; on a well-formed graph t is reported iff that weight is positive |
| `WeightedGraph.Extensionality` | src/graph/ConcreteEdgesGraph.java:22-25 | the abstract graph is determined by its vertex set and its weights |
| `WeightedGraph.AddThenRemove` | src/graph/ConcreteEdgesGraph.java:55-109 | `add` (lines 55-61) of a new vertex followed by `remove` (lines 98-109) of it restores the graph |
| `WeightedGraph.SetCurrentWeight` | src/graph/ConcreteEdgesGraph.java:68-71 | setting an edge to its current weight only adds the endpoints as vertices |
| `WeightedGraph.SetThenRestore` | src/graph/ConcreteEdgesGraph.java:82-95 | setting the weight `set` returned as previous undoes a `set`, apart from the added endpoints |
| `WeightedGraph.SetTwice` | test/graph/GraphInstanceTest.java:70-79 | for one pair, the last weight set wins |
| `WeightedGraph.SourcesTargetsAgree` | test/graph/GraphInstanceTest.java:60-68 | s is a source of t iff t is a target of s, with the same positive weight |
| `WeightedGraph.RemoveIsolates` | test/graph/GraphInstanceTest.java:93-103 | after `remove(v)` no query reports an edge touching v |
| `EdgesGraph.EndpointsWithin` | src/graph/ConcreteEdgesGraph.java:28-32 | I1 and I2 on the list: every record's endpoints are in the label set and its weight is positive |
| `EdgesGraph.UniquePairs` | src/graph/ConcreteEdgesGraph.java:33 | I3: no two records share an ordered pair; the comment states it but `checkRep` does not assert it, so this invariant is deliberately stronger than the run-time check |
| `EdgesGraph.RepOk` | src/graph/ConcreteEdgesGraph.java:27-33 | the documented rep invariant: I1, I2 (`EndpointsWithin`) and I3 (`UniquePairs`) |
| `EdgesGraph.Abstraction` | src/graph/ConcreteEdgesGraph.java:22-25 | the abstraction function: the label set with, for each label, its outgoing list weights |
| `EdgesGraph.ConcreteEdgesGraph.Valid` | src/graph/ConcreteEdgesGraph.java:42-53 | `checkRep`: `RepOk` of the fields, and the ghost model is their abstraction; every operation is proved to keep it |
| `EdgesGraph.NewEdge` | src/graph/ConcreteEdgesGraph.java:167-175 | the constructor succeeds iff weight > 0, and then holds the given fields |
| `EdgesGraph.OutOf` | src/graph/ConcreteEdgesGraph.java:127-136 | the `targets` loop's map: each weight is the last record's for that pair; a missing key has no record; positive when all records are |
| `EdgesGraph.InTo` | src/graph/ConcreteEdgesGraph.java:116-125 | the `sources` loop's map, characterised the same way |
| `EdgesGraph.Detach` | src/graph/ConcreteEdgesGraph.java:104-105 | `removeIf` keeps exactly the records not touching v; weights of pairs touching v become 0, others unchanged |
| `EdgesGraph.DetachUnique` | src/graph/ConcreteEdgesGraph.java:33 | filtering keeps invariant I3 (one record per ordered pair) |
| `EdgesGraph.UniqueLast` | src/graph/ConcreteEdgesGraph.java:33 | under I3 no earlier record shares the last record's pair |
| `EdgesGraph.WeightInAbsent` | src/graph/ConcreteEdgesGraph.java:82 | no record for the pair means weight 0 |
| `EdgesGraph.WeightInWithin` | src/graph/ConcreteEdgesGraph.java:29-32 | a non-zero weight is positive and joins two vertices |
| `EdgesGraph.WeightInAt` | src/graph/ConcreteEdgesGraph.java:74-82 | under I3 the weight of a record's pair is that record's weight |
| `EdgesGraph.WeightInRemove` | src/graph/ConcreteEdgesGraph.java:84-87 | removing a record of another pair leaves a pair's weight alone |
| `EdgesGraph.WeightInAppend` | src/graph/ConcreteEdgesGraph.java:89-92 | an appended record decides its pair's weight |
| `EdgesGraph.AbstractionWeights` | src/graph/ConcreteEdgesGraph.java:22-25 | the abstract weights are the list's weights |
| `EdgesGraph.AbstractionWellFormed` | src/graph/ConcreteEdgesGraph.java:22-33 | the abstract vertex set is `vertices`, and the rep invariant gives I1 and I2 |
| `EdgesGraph.OutOfIsTargets` | src/graph/ConcreteEdgesGraph.java:127-136 | the `targets` fold is the abstract `Targets` |
| `EdgesGraph.InToIsSources` | src/graph/ConcreteEdgesGraph.java:116-125 | the `sources` fold is the abstract `Sources` |
| `EdgesGraph.RemoveAtFacts` | src/graph/ConcreteEdgesGraph.java:84-87 | taking out the matched record keeps I3 and leaves no record for the pair |
| `EdgesGraph.AppendUnique` | src/graph/ConcreteEdgesGraph.java:89-92 | appending a record for an absent pair keeps I3 |
| `EdgesGraph.SetListEffect` | src/graph/ConcreteEdgesGraph.java:70-92 | the list `set` leaves keeps the rep invariant, and only the pair's weight changes, to w |
| `EdgesGraph.PreviousWeight` | src/graph/ConcreteEdgesGraph.java:74-82 | the weight `set` returns is the abstract weight of the pair |
| `EdgesGraph.SetWeights` | src/graph/ConcreteEdgesGraph.java:63-96 | the list after `set` has `SetEdge`'s weights |
| `EdgesGraph.SetRefines` | src/graph/ConcreteEdgesGraph.java:63-96 | the list after `set` represents `SetEdge` of the old graph |
| `EdgesGraph.RemoveRefines` | src/graph/ConcreteEdgesGraph.java:98-109 | `remove` keeps the rep invariant and represents `RemoveVertex` |
| `EdgesGraph.AddRefines` | src/graph/ConcreteEdgesGraph.java:55-61 | `add` keeps the rep invariant and represents `AddVertex` |
| `EdgesGraph.ConcreteEdgesGraph.constructor` | src/graph/ConcreteEdgesGraph.java:19-20 | a new graph is valid and empty |
| `EdgesGraph.ConcreteEdgesGraph.Add` | src/graph/ConcreteEdgesGraph.java:55-61 | true iff the label was missing; the new graph is `AddVertex` of the old |
| `EdgesGraph.ConcreteEdgesGraph.FindEdge` | src/graph/ConcreteEdgesGraph.java:73-80 | the scan stops at the first record for the pair, or at the end when there is none |
| `EdgesGraph.ConcreteEdgesGraph.Set` | src/graph/ConcreteEdgesGraph.java:63-96 | returns the old weight of the pair; the new graph is `SetEdge` of the old; the rep invariant holds |
| `EdgesGraph.ConcreteEdgesGraph.Remove` | src/graph/ConcreteEdgesGraph.java:98-109 | true iff the label was a vertex; then the new graph is `RemoveVertex` of the old, else unchanged |
| `EdgesGraph.ConcreteEdgesGraph.Vertices` | src/graph/ConcreteEdgesGraph.java:111-114 | exactly the abstract vertex set |
| `EdgesGraph.ConcreteEdgesGraph.Sources` | src/graph/ConcreteEdgesGraph.java:116-125 | the loop's map is exactly the abstract `Sources` |
| `EdgesGraph.ConcreteEdgesGraph.Targets` | src/graph/ConcreteEdgesGraph.java:127-136 | the loop's map is exactly the abstract `Targets` |
| `VerticesGraph.NameIndex` | src/graph/ConcreteVerticesGraph.java:21-25 | every name in the list belongs to a record at some index |
| `VerticesGraph.NameAt` | src/graph/ConcreteVerticesGraph.java:21-25 | every record's name is among the list's names |
| `VerticesGraph.DistinctRemoveAt` | src/graph/ConcreteVerticesGraph.java:104 | dropping one record keeps names distinct (I4) |
| `VerticesGraph.NamesRemoveAt` | src/graph/ConcreteVerticesGraph.java:104 | dropping the record at k removes exactly its name |
| `VerticesGraph.WithoutEdgesInto` | src/graph/ConcreteVerticesGraph.java:99-102 | after the `removeEdge` loop no weight into v remains; the vertex set and all other weights are unchanged |
| `VerticesGraph.WithoutEdgesIntoWellFormed` | src/graph/ConcreteVerticesGraph.java:27-31 | the loop's result keeps I1 and I2 and has no edge into v |
| `VerticesGraph.RemoveInTwoSteps` | src/graph/ConcreteVerticesGraph.java:94-108 | removing the edges into v, then v's record, is `RemoveVertex` |
| `VerticesGraph.SetByRow` | src/graph/ConcreteVerticesGraph.java:82-92 | adding the endpoints, then updating only the source's map, is `SetEdge` |
| `VerticesGraph.UpdatedRow` | src/graph/ConcreteVerticesGraph.java:188-199 | weight 0 deletes the key, a positive weight puts it; no other key changes |
| `VerticesGraph.Vertex.Valid` | src/graph/ConcreteVerticesGraph.java:169-173 | `Vertex.checkRep`: every stored weight is positive |
| `VerticesGraph.ConcreteVerticesGraph.Valid` | src/graph/ConcreteVerticesGraph.java:44-58 | `checkRep` with the abstraction function and rep invariant at lines 21-31: distinct names (I4), one abstract vertex per record with the record's map as its outgoing edges, no other vertex, I1 and I2 |
| `VerticesGraph.Vertex.constructor` | src/graph/ConcreteVerticesGraph.java:164-167 | a new record has the given name and no edges |
| `VerticesGraph.Vertex.GetTargets` | src/graph/ConcreteVerticesGraph.java:179-181 | on a valid record every reported weight is positive |
| `VerticesGraph.Vertex.SetEdge` | src/graph/ConcreteVerticesGraph.java:183-199 | returns the old weight for the key or 0; the map becomes `UpdatedRow`; only this record changes; validity kept |
| `VerticesGraph.Vertex.RemoveEdge` | src/graph/ConcreteVerticesGraph.java:201-204 | the key is gone and nothing else changes |
| `VerticesGraph.ConcreteVerticesGraph.constructor` | src/graph/ConcreteVerticesGraph.java:39-42 | a new graph is valid and empty and owns no record yet, so a caller may go on to call `Set` and `Remove` on it |
| `VerticesGraph.ConcreteVerticesGraph.ContainsVertex` | src/graph/ConcreteVerticesGraph.java:60-65 | true iff the label is a vertex |
| `VerticesGraph.ConcreteVerticesGraph.GetVertex` | src/graph/ConcreteVerticesGraph.java:67-72 | null iff the label is absent, else the owned record with that name |
| `VerticesGraph.ConcreteVerticesGraph.Add` | src/graph/ConcreteVerticesGraph.java:74-80 | false and the list unchanged if present; else true and one fresh record with no edges appended; the new graph is `AddVertex` |
| `VerticesGraph.ConcreteVerticesGraph.Set` | src/graph/ConcreteVerticesGraph.java:82-92 | returns the old weight; the new graph is `SetEdge` of the old; the invariant holds |
| `VerticesGraph.ConcreteVerticesGraph.SetOnRecord` | src/graph/ConcreteVerticesGraph.java:87-88 | only the source record's map changes, to `UpdatedRow`; returns the old weight |
| `VerticesGraph.ConcreteVerticesGraph.Remove` | src/graph/ConcreteVerticesGraph.java:94-108 | true iff the label was a vertex; then the new graph is `RemoveVertex`, else unchanged |
| `VerticesGraph.ConcreteVerticesGraph.RemoveEdgesInto` | src/graph/ConcreteVerticesGraph.java:99-102 | every record loses its edge into v (the self-loop included); the list is unchanged |
| `VerticesGraph.ConcreteVerticesGraph.DropRecord` | src/graph/ConcreteVerticesGraph.java:104 | the record leaves the list, and its vertex and outgoing edges leave the graph |
| `VerticesGraph.ConcreteVerticesGraph.Vertices` | src/graph/ConcreteVerticesGraph.java:110-116 | exactly the set of record names |
| `VerticesGraph.ConcreteVerticesGraph.Sources` | src/graph/ConcreteVerticesGraph.java:118-126 | exactly the records whose map holds the target, with that weight |
| `VerticesGraph.ConcreteVerticesGraph.Targets` | src/graph/ConcreteVerticesGraph.java:128-133 | the source record's map, or empty when there is no such record |
| `Equivalence.Step` | test/graph/GraphInstanceTest.java:41-103 | the abstract effect and reply of one mutator call; it has no contract of its own, and `StepWellFormed` states that it keeps I1 and I2 |
| `Equivalence.Run` | test/graph/GraphInstanceTest.java:41-103 | one reply per call, in order |
| `Equivalence.StepWellFormed` | src/graph/ConcreteEdgesGraph.java:27-33 | one abstract call keeps I1 and I2 |
| `Equivalence.RunWellFormed` | src/graph/ConcreteEdgesGraph.java:27-33 | any sequence of calls keeps I1 and I2 |
| `Equivalence.RunSnoc` | test/graph/GraphInstanceTest.java:41-103 | `Run` on one more call is one more `Step`, its reply appended |
| `Equivalence.RunConcat` | test/graph/GraphInstanceTest.java:41-103 | running two call sequences one after the other is running their concatenation, replies concatenated |
| `Equivalence.ApplyEdges` | test/graph/ConcreteEdgesGraphTest.java:23-25 | one call on `ConcreteEdgesGraph` has the abstract effect and reply |
| `Equivalence.ApplyVertices` | test/graph/ConcreteVerticesGraphTest.java:22-25 | one call on `ConcreteVerticesGraph` has the abstract effect and reply |
| `Equivalence.ApplyBoth` | test/graph/GraphInstanceTest.java:41-103 | one call on both classes gives the same reply and the same new graph, the abstract `Step`'s |
| `Equivalence.RunBoth` | test/graph/GraphInstanceTest.java:41-103 | any call sequence gives both classes the same replies and the same abstract graph |
| `Equivalence.RunFromEmpty` | test/graph/GraphInstanceTest.java:41-103 | one new graph of each class, driven by the same calls from empty: both return `Run`'s replies from the empty graph and end as the same graph |
| `Equivalence.Observe` | test/graph/GraphInstanceTest.java:60-103 | two representations of one graph answer `vertices`, `sources` and `targets` alike, with the abstract graph's answers |
| `Equivalence.AddVertexScenario` | test/graph/GraphInstanceTest.java:41-48 | `add(a)` then `add(b)`: each returns true, and the vertex set is {a}, then {a, b} |
| `Equivalence.AddDuplicateScenario` | test/graph/GraphInstanceTest.java:50-57 | `add(a)` twice: true, then false with the graph unchanged; the vertex set is {a} |
| `Equivalence.AddEdgeScenario` | test/graph/GraphInstanceTest.java:59-68 | `add(a)`, `add(b)`, `set(a, b, w)`: `targets(a)` is {b: w} and `sources(b)` is {a: w} |
| `Equivalence.UpdateWeightScenario` | test/graph/GraphInstanceTest.java:70-79 | after the same adds, `set` twice on one pair: the second returns the first weight, and both queries show only the new weight |
| `Equivalence.RemoveEdgeScenario` | test/graph/GraphInstanceTest.java:81-91 | after the same adds, `set` to w then to 0: the second returns w, and both queries are empty |
| `Equivalence.RemoveVertexScenario` | test/graph/GraphInstanceTest.java:93-103 | after the same adds and one `set`, `remove(b)` returns true; b is no vertex, only a remains, and both queries are empty |
| `Equivalence.InitialVerticesEmptyCase` | test/graph/GraphInstanceTest.java:35-39 | a new object of either class has no vertices |
| `Equivalence.AddVertexCase` | test/graph/GraphInstanceTest.java:41-48 | on new objects of both classes, `add(a)` and `add(b)` both return true, and `vertices` is {a}, then {a, b}, on both |
| `Equivalence.AddDuplicateCase` | test/graph/GraphInstanceTest.java:50-57 | on new objects of both classes, a second `add(a)` returns false, and `vertices` is {a} on both |

## Left out

- Negative weights. Callers must pass a non-negative weight: both `set` methods and
  `Vertex.SetEdge` require `weight >= 0`. Neither class checks the sign itself:
  - `ConcreteEdgesGraph` stores no record for it, so it acts as a deletion;
  - `ConcreteVerticesGraph` stores it, and its own assertion then fails.

  The two classes disagree here, so this case has no common contract.
- `null` labels. Java's null checks (`add` returning false, `set` throwing, `Objects.requireNonNull`
  in `Vertex`) have no counterpart, because Dafny strings cannot be null.
- `toString` of all four classes. It is diagnostic text that depends on hash-table iteration order.
- 32-bit `int` width. No operation does arithmetic on weights, so wrap-around cannot arise.
- Runtime `checkRep` assertions. They are modelled as the `Valid()` predicates, which every
  operation is proved to keep, not as run-time checks.
- Defensive copies and `Collections.unmodifiable*` wrappers. Queries return Dafny values, which
  are snapshots by construction. `Vertex.getTargets` (src/graph/ConcreteVerticesGraph.java:179-181)
  returns a live read-only view that reflects later changes to the record. `GetTargets` is a
  snapshot instead, so it does not model that aliasing.
- List order. Only set and map contents are observable, so no contract says where `set`
  re-appends the replaced edge record.
- The JUnit classes themselves. Their cases serve as evidence for the properties. The shared
  cases at test/graph/GraphInstanceTest.java:35-103 are stated in `Equivalence`;
  `testAssertionsEnabled` only checks a JVM flag.
- Replays on objects of the cases with three or four calls (`testAddEdge`, `testUpdateEdgeWeight`,
  `testRemoveEdge`, `testRemoveVertex`). Each proof would hold four successive heap states of the
  vertex-list graph, which is too costly for the verifier. These cases are stated on the abstract
  graph, and `ApplyBoth`/`RunBoth` carry every call to both classes.
- `testVerticesListImmutable`. Queries return Dafny values, so nothing a caller does to one can
  reach the graph.
- Weights of `Equivalence.Op.Set` are `nat`, because both `set` methods require `weight >= 0`
  (see the first item).
- `Vertex.getName`, and the `Edge` getters. These are plain field reads: a `const` field and
  datatype fields respectively.
