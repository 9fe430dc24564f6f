# ONNX graph IR container, modelled in Dafny

This project models the in-memory graph representation used by CNTK's ONNX
importer and exporter (`Source/CNTKv2LibraryDll/proto/onnx/core/graph/graph.h`).
The header declares a directed graph of operator nodes joined by named values:

- **NodeArg**: a named value descriptor with an optional type. The shape
  lives inside the type. An empty name marks an absent optional argument.
- **Node**: an operator instance.
  - Its name, operator type, domain and description.
  - Its input and output definitions, and the `input_arg_count` grouping that
    assigns the inputs to the operator's argument slots.
  - An attribute map.
  - Relationship sets: input and output nodes and control-input names. In
    the model only control edges add to them, since the data edges derived
    from the definitions are built in `graph.cc` (see "Left out").
- **GraphBase**: the container.
  - An index-addressed arena of node slots. A slot is null once its node is
    freed.
  - A count of the live nodes and the source and sink sentinel indices.
  - The pool of NodeArgs the graph owns.
  - Two dirty flags: resolve-needed and proto-sync-needed.
  - The structural half of `Resolve`: the duplicate-name check and the
    acyclicity check, which yields a topological order.

Modules, one per concern:

| file | module | contents |
|---|---|---|
| `onnx_types.dfy` | `OnnxTypes` | opaque stand-ins for the protobuf types, the attribute variant, `Status` and `Result` |
| `sequences.dfy` | `Sequences` | sequences without repetitions |
| `node_arg.dfy` | `NodeArgs` | `NodeArg` as a value: existence, type and shape |
| `input_arg_count.dfy` | `InputArgCounts` | summing the argument-slot counts, and the partition of the inputs that valid counts describe |
| `topo_sort.dfy` | `TopoSort` | depth-first cycle detection with a topological order, proved against an independent definition of cycles |
| `graph.dfy` | `Graph` | the `Node` and `GraphBase` classes |

Modelling choices:
- `Node` and `GraphBase` are classes, because the source updates their
  fields in place.
- The arena is the field `nodes: seq<Node?>`. `ArenaValid` is its invariant:
  `numOfNodes` equals the number of live slots, and slot `i` holds the node
  whose index is `i` and whose graph is this one. `Valid` adds that the two
  sentinels are distinct slots of the arena.
- Node references are `NodeIndex` (`nat`) values.
- NodeArgs are values identified by their name. A node's definitions hold
  NodeArg names.
- Errors that the source reports as a `Status` are `Status` or `Result`
  values. The enforce in `GetNode` is a precondition.

`graph.cc`, where most bodies live, is not part of this model. The bodies
follow the header's inline code and its doc comments. The design choices
for the declared-only operations are:
- `AllocateNode` appends a slot, so indices are never reused.
- `ReleaseNode` returns false for an index outside the arena and for a
  slot that is already free.
- `AddNode`, `AddNodeCopy`, `AddConstantNode`, `RemoveNode`,
  `AddControlEdge`, `Node.AddAttribute` and `Node.ClearAttribute` set both
  dirty flags. `AllocateNode` and `ReleaseNode` are raw arena primitives and
  set neither.
- The duplicate-name check compares every live node's name, the empty name
  included. It compares the names of all existing outputs, skipping the
  empty name of an absent output. It rejects an output name that a single
  node declares twice.
- The acyclicity check follows each node's recorded input nodes, which in
  the model are those added by control edges. It skips references to freed or out-of-range slots, which is
  the policy for neighbours of a removed node. The depth-first search starts
  from every live node in index order. `graph.cc` is not available to say
  where the original traversal starts.
- `UpdateInputArgCount` checks only that the counts sum to the number of
  inputs. Empty counts are filled in as one input per argument slot.
  Negative counts are not rejected.
- The sentinel nodes are named `_Graph_Source` and `_Graph_Sink`, with
  operator type `NoOp`, the descriptions "Source node internally in a
  graph." and "Sink node internally in a graph.", and the default domain.
- The cited `GraphBase` constructor only sets the two flags; the sentinels
  are added by a separate `AddSourceSinkNodes` call. The model's
  constructor makes that call itself, so every `GraphBase` value has its
  sentinels. The header starts the sentinel indices at an impossible
  value (graph.h:728-730); in the model they are 0 until the call
  overwrites them, which happens before the constructor returns.

## Model

| member | source | states |
|---|---|---|
| NodeArgs.NewNodeArg | Source/CNTKv2LibraryDll/proto/onnx/core/graph/graph.h:101-104 | a new NodeArg keeps its name and type, exists iff its name is non-empty (existence is its name being non-empty for every NodeArg value), and has exactly the shape its type carries |
| NodeArgs.NodeArg.Shape | Source/CNTKv2LibraryDll/proto/onnx/core/graph/graph.h:86-88 | a shape is reported only when a type is set |
| NodeArgs.NodeArg.SetType | Source/CNTKv2LibraryDll/proto/onnx/core/graph/graph.h:110-111 | setting the type keeps the name and existence, and the shape becomes the new type's shape |
| NodeArgs.NodeArg.SetShape | Source/CNTKv2LibraryDll/proto/onnx/core/graph/graph.h:90-93 | without a type the NodeArg is unchanged and still shapeless; with one, the shape is replaced and the element type kept |
| NodeArgs.ShapeNeedsTypeFirst | Source/CNTKv2LibraryDll/proto/onnx/core/graph/graph.h:60-66 | type then shape yields that shape; shape then type on an untyped NodeArg loses the shape |
| NodeArgs.FirstWithName | Source/CNTKv2LibraryDll/proto/onnx/core/graph/graph.h:480-497 | the first pool position holding the name, with no earlier match; none iff no entry has the name |
| InputArgCounts.Accumulate | Source/CNTKv2LibraryDll/proto/onnx/core/graph/graph.h:362-363 | the loop computes the sum of the argument-slot counts |
| InputArgCounts.OnesSum | Source/CNTKv2LibraryDll/proto/onnx/core/graph/graph.h:279-286 | the default grouping, one input per slot, sums to the number of inputs |
| InputArgCounts.GroupsPartition | Source/CNTKv2LibraryDll/proto/onnx/core/graph/graph.h:279-286 | non-negative counts summing to the input count split the inputs into one group per slot, each as long as its count, which concatenate back to the inputs in order |
| Graph.LiveCountBound | Source/CNTKv2LibraryDll/proto/onnx/core/graph/graph.h:467-473 | the live count never exceeds the number of slots |
| Graph.LiveCountFree | Source/CNTKv2LibraryDll/proto/onnx/core/graph/graph.h:519-522 | freeing a live slot lowers the live count by exactly one |
| Graph.LiveCountIsLiveIndices | Source/CNTKv2LibraryDll/proto/onnx/core/graph/graph.h:722-726 | the live count is the number of indices whose slot holds a node |
| Graph.Node.constructor | Source/CNTKv2LibraryDll/proto/onnx/core/graph/graph.h:333-335 | a node is created with its index and graph and empty definitions, attributes and relationships |
| Graph.Node.Init | Source/CNTKv2LibraryDll/proto/onnx/core/graph/graph.h:337-343 | sets name, operator, description, domain, inputs and outputs; one input per argument slot; the attributes when given |
| Graph.Node.AddAttribute | Source/CNTKv2LibraryDll/proto/onnx/core/graph/graph.h:229-242 | the attribute is added or overwritten, no other attribute changes, and the graph is marked for resolve and proto sync |
| Graph.Node.ClearAttribute | Source/CNTKv2LibraryDll/proto/onnx/core/graph/graph.h:244-245 | reports true iff the attribute was present; afterwards it is absent and the others are kept |
| Graph.Node.UpdateInputArgCount | Source/CNTKv2LibraryDll/proto/onnx/core/graph/graph.h:362-363 | succeeds iff the counts are empty or sum to the number of inputs; empty counts become one per input; on success the counts sum to the number of inputs; failure is an arg-count mismatch |
| Graph.GraphBase.constructor | Source/CNTKv2LibraryDll/proto/onnx/core/graph/graph.h:598-608 | the cited constructor only sets the two flags, as given; the model's constructor then also runs AddSourceSinkNodes, so a new graph is valid, holds exactly the source and sink sentinels in slots 0 and 1, each in its sentinel state, has no NodeArgs, inputs, outputs or order, and passes both phases of resolution |
| Graph.GraphBase.AddSourceSinkNodes | Source/CNTKv2LibraryDll/proto/onnx/core/graph/graph.h:607-608 | appends the source and the sink after the existing slots and records their indices; each is a NoOp node with its own name and description, an empty domain, and no definitions, argument counts, attributes or relationships; the graph stays valid |
| Graph.GraphBase.SentinelsResolve | Source/CNTKv2LibraryDll/proto/onnx/core/graph/graph.h:607-608 | a graph holding only the two sentinels has distinct node names, no output names and no cycle |
| Graph.GraphBase.AllocateNode | Source/CNTKv2LibraryDll/proto/onnx/core/graph/graph.h:698 | appends one fresh empty node at the next index and raises the live count by one |
| Graph.GraphBase.ReleaseNode | Source/CNTKv2LibraryDll/proto/onnx/core/graph/graph.h:700-704 | true iff the slot was live; if so, only that slot is nulled and the count drops by one; otherwise nothing changes |
| Graph.GraphBase.RemoveNode | Source/CNTKv2LibraryDll/proto/onnx/core/graph/graph.h:519-522 | as ReleaseNode, plus the max index is unchanged, `GetNode(i)` is null afterwards, and success marks both flags |
| Graph.GraphBase.AddNode | Source/CNTKv2LibraryDll/proto/onnx/core/graph/graph.h:503-510 | a fresh node at the next index holds the given definitions and no relationships; both flags set |
| Graph.GraphBase.AddNodeCopy | Source/CNTKv2LibraryDll/proto/onnx/core/graph/graph.h:512-517 | a fresh node at the next index copies the other's name, operator, domain, description, attributes and input and output definitions; its argument grouping is reset to one input per slot rather than copied; it has no relationships; both flags set |
| Graph.GraphBase.AddConstantNode | Source/CNTKv2LibraryDll/proto/onnx/core/graph/graph.h:524-528 | a fresh Constant node in the default domain, with no inputs and no argument counts, the given outputs, no relationships, and as its only attribute "value", the tensor; both flags set |
| Graph.GraphBase.AddControlEdge | Source/CNTKv2LibraryDll/proto/onnx/core/graph/graph.h:530-533 | true iff both indices are live; then dst joins src's output nodes, and src joins dst's input nodes and its control inputs by name; the other relationship sets and all data of the two nodes are unchanged, no other node may change, the graph stays valid and both flags are set; on false nothing changes: neither flag, nor a live endpoint |
| Graph.GraphBase.GetNode | Source/CNTKv2LibraryDll/proto/onnx/core/graph/graph.h:439-449 | only indices inside the arena are accepted; the result is null iff the slot is not live, and otherwise is the node of that index |
| Graph.GraphBase.MaxNodeIndex | Source/CNTKv2LibraryDll/proto/onnx/core/graph/graph.h:461-465 | the number of slots |
| Graph.GraphBase.NumberOfNodes | Source/CNTKv2LibraryDll/proto/onnx/core/graph/graph.h:467-473 | in a valid arena, between 0 and MaxNodeIndex and equal to the number of live slots |
| Graph.GraphBase.IsSourceNode | Source/CNTKv2LibraryDll/proto/onnx/core/graph/graph.h:535 | true iff the index is the source's; in a valid graph it is then inside the arena and not the sink's |
| Graph.GraphBase.IsSinkNode | Source/CNTKv2LibraryDll/proto/onnx/core/graph/graph.h:536 | true iff the index is the sink's; in a valid graph it is then inside the arena and not the source's |
| Graph.GraphBase.IsSourceNodeOf | Source/CNTKv2LibraryDll/proto/onnx/core/graph/graph.h:538-541 | true iff the node's index is the source index; for a node of a valid graph, iff it occupies the source slot |
| Graph.GraphBase.IsSinkNodeOf | Source/CNTKv2LibraryDll/proto/onnx/core/graph/graph.h:543-546 | the same for the sink |
| Graph.GraphBase.SourceNode | Source/CNTKv2LibraryDll/proto/onnx/core/graph/graph.h:548 | the source slot; passes the source test and, in a valid graph, fails the sink test |
| Graph.GraphBase.SinkNode | Source/CNTKv2LibraryDll/proto/onnx/core/graph/graph.h:549 | the sink slot; passes the sink test and, in a valid graph, fails the source test |
| Graph.GraphBase.GraphResolveNeeded | Source/CNTKv2LibraryDll/proto/onnx/core/graph/graph.h:563-566 | the resolve-needed flag |
| Graph.GraphBase.GraphProtoSyncNeeded | Source/CNTKv2LibraryDll/proto/onnx/core/graph/graph.h:574-577 | the proto-sync-needed flag |
| Graph.GraphBase.SetGraphResolveNeeded | Source/CNTKv2LibraryDll/proto/onnx/core/graph/graph.h:556-561 | the resolve flag becomes true and nothing else changes |
| Graph.GraphBase.SetGraphResolveNeededTo | Source/CNTKv2LibraryDll/proto/onnx/core/graph/graph.h:657-661 | the resolve flag becomes exactly the argument and nothing else changes |
| Graph.GraphBase.SetGraphProtoSyncNeeded | Source/CNTKv2LibraryDll/proto/onnx/core/graph/graph.h:568-572 | the proto-sync flag becomes true and nothing else changes |
| Graph.GraphBase.SetGraphProtoSyncNeededTo | Source/CNTKv2LibraryDll/proto/onnx/core/graph/graph.h:663-667 | the proto-sync flag becomes exactly the argument and nothing else changes |
| Graph.GraphBase.CreateOwnedNodeArg | Source/CNTKv2LibraryDll/proto/onnx/core/graph/graph.h:475-501 | with a type and an owned NodeArg of that name, returns the first such and leaves the pool unchanged; otherwise appends exactly one new NodeArg of that name and type and returns it |
| Graph.CollectOutputs | Source/CNTKv2LibraryDll/proto/onnx/core/graph/graph.h:675-677 | registering one node's existing outputs succeeds iff none was seen before or repeats; on success every one maps to the node and earlier entries are kept |
| Graph.GraphBase.VerifyNoDuplicateName | Source/CNTKv2LibraryDll/proto/onnx/core/graph/graph.h:675-677 | succeeds iff live node names are all distinct and existing output names are all distinct; each failure names the rule broken; on success each node name maps to its node and each output to its producer |
| TopoSort.Visit | Source/CNTKv2LibraryDll/proto/onnx/core/graph/graph.h:679-685 | one DFS step keeps the finished prefix a closed topological order; reporting a back edge implies a cycle exists; its outcome is exactly that of the functional search `VisitF` |
| TopoSort.VisitProducer | Source/CNTKv2LibraryDll/proto/onnx/core/graph/graph.h:679-685 | following one producer edge either detects a back edge, which implies a cycle, or finishes the producer; either way it agrees with one step of the functional scan `ScanF` |
| TopoSort.BackEdgeIsCycle | Source/CNTKv2LibraryDll/proto/onnx/core/graph/graph.h:680-681 | an edge back to a node on the DFS path closes a cycle |
| TopoSort.Sort | Source/CNTKv2LibraryDll/proto/onnx/core/graph/graph.h:679-685 | succeeds iff the graph has no cycle; on success the order lists each live node once and every node after its inputs, and it is `DfsOrder`, a function of the adjacency and the live set alone |
| TopoSort.TopologicalOrderIsAcyclic | Source/CNTKv2LibraryDll/proto/onnx/core/graph/graph.h:682-683 | a graph that has a topological order has no cycle |
| TopoSort.ProducerPrecedes | Source/CNTKv2LibraryDll/proto/onnx/core/graph/graph.h:305-308 | in a topological order every live input node comes before its consumer |
| Graph.GraphBase.CheckIsAcyclic | Source/CNTKv2LibraryDll/proto/onnx/core/graph/graph.h:679-685 | OK iff the recorded input-node relation has no cycle, otherwise a cycle error; on OK the order is topological over the live nodes, as long as the live count, and equal to `DfsOrder` of the graph |
| Graph.GraphBase.OrderRespectsInputs | Source/CNTKv2LibraryDll/proto/onnx/core/graph/graph.h:305-311 | in a resolved order a node, including the target of a control edge, comes after each live node it depends on |
| Graph.GraphBase.ResolveStructure | Source/CNTKv2LibraryDll/proto/onnx/core/graph/graph.h:408-418 | succeeds iff names are unique and the graph is acyclic over the recorded input nodes; the only errors are a duplicate node name, a duplicate output name or a cycle; duplicate names always fail with a name error, and a cycle error comes only after the name check passed; success stores `DfsOrder` of the graph, so resolving an unchanged graph again stores the same order, and clears the resolve flag; failure changes nothing |
| Graph.GraphBase.GetNodesInTopologicalOrder | Source/CNTKv2LibraryDll/proto/onnx/core/graph/graph.h:551-554 | the stored order iff the graph does not need resolving, otherwise a resolve-needed error |

## Left out

- Schema lookup and type/shape inference are external to the graph:
  `Op()`, `InferOutputTypesAndShapes`, and `Resolve`'s attribute, input and
  output checks against the operator definition.
- `BuildConnections`, the input/output derivation and the clean-up steps of
  `Resolve` live in `graph.cc`, which is not part of this model. The
  resolve modelled here is the name phase followed by the cycle phase. Graph
  inputs and outputs (`GetInputs`, `GetOutputs`, `MutableInputs`,
  `MutableOutputs`) are plain fields that nothing in the model fills.
- Protobuf serialisation (`ToProto`, `NodeArgInfo`, `AddNode(NodeProto)`)
  is out of scope. `TypeProto`, `TensorShapeProto`, `TensorProto` and
  `GraphProto` are opaque values. The `AttributeProto` overload of
  `AddAttribute` is covered by the attribute variant.
- Float attributes are floating point and irrelevant to structure.
- The `SetType(DataType)` overload belongs to the runtime type registry.
- `ConstPointerContainer`, `GraphNodes` and `Nodes()` are defined in files
  not part of this model. Live-node iteration is the filter over non-null
  slots (`LiveIndices`).
- `ReverseDFSFrom` takes caller callbacks and a comparator, which are
  foreign code.
- `ForEachDef`, `ForEachInputDef` and `ForEachOutputDef` take foreign
  callbacks. `ReplaceDefs` is defined in `graph.cc`.
- `Mutable_OutputDefs`, `MutableDefinitions` and `MutableRelationships` are
  direct field access.
- The execution-provider tag, `domain_to_version` and the IR version are
  plumbing with no structural behaviour.
- The commented-out shape check in `CreateOwnedNodeArg` is dead code.
- The `node_args_` registry, `owned_edges_` and the edge endpoints of data
  edges are built by `BuildConnections` in `graph.cc`. In the model,
  `inputEdges` and `outputEdges` are fields that no modelled operation
  changes.
- NodeArgs are values in the model. A NodeArg shared through pointers
  between nodes and the pool, and later updated in place, is not captured.
- Graph.GraphBase.MaxNodeIndex: does not model the `narrow_cast` to `int`.
  The model's integers are unbounded, so an arena above 2^31 slots is not
  truncated.
- InputArgCounts.Accumulate: does not model overflow of the 32-bit `int`
  counts.
- Graph.Node.UpdateInputArgCount: does not reject negative counts, since
  only the sum is checked. The partition lemma therefore also requires
  non-negative counts.
- Graph.GraphBase.ResolveStructure: the input nodes come only from
  `AddControlEdge`. The data dependencies that `BuildConnections` derives
  from the input and output definitions are not recorded, so a cycle
  through definitions alone (node A consumes "y" and produces "x", node B
  consumes "x" and produces "y") is not detected and the graph resolves
  Ok. The same holds for `CheckIsAcyclic`.
- Graph.GraphBase.CheckIsAcyclic: the order is the one the modelled
  depth-first search yields (`TopoSort.DfsOrder`), a function of the
  adjacency and the live nodes, so resolving an unchanged graph twice stores
  the same order. Whether the original traversal yields that same order
  depends on `graph.cc`, which is not part of this model.
- NodeArgs.NodeArg.SetShape: on a NodeArg without a type the shape is
  ignored and the NodeArg returned unchanged, rather than the call being
  reported as a failure. The header's `SetShape` returns `void`, so no
  status is modelled; the loss of the shape is stated by
  `ShapeNeedsTypeFirst`.
- Concurrency: the graph is single-threaded, so there is nothing to model.
