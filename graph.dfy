/** The graph container of the IR: an index-addressed arena of operator nodes,
    the pool of value descriptors it owns, its dirty flags, and the structural
    checks of Resolve (unique names, acyclicity with a topological order). */
module Graph {
  import opened OnnxTypes
  import opened Sequences
  import opened NodeArgs
  import opened InputArgCounts
  import TopoSort

  type NodeIndex = nat

  /** One end of an edge: a node and the value descriptor (by name) carried. */
  datatype EdgeEnd = EdgeEnd(node: NodeIndex, arg: string)

  /** The number of slots that hold a node. */
  function LiveCount(slots: seq<Node?>): nat {
    if slots == [] then 0
    else LiveCount(slots[..|slots| - 1]) + (if slots[|slots| - 1] != null then 1 else 0)
  }

  /** There are never more live nodes than slots. */
  lemma {:induction false} LiveCountBound(slots: seq<Node?>)
    ensures LiveCount(slots) <= |slots|
  {
    if slots != [] {
      LiveCountBound(slots[..|slots| - 1]);
    }
  }

  /** Freeing a live slot lowers the count by exactly one. */
  lemma {:induction false} LiveCountFree(slots: seq<Node?>, i: nat)
    requires i < |slots| && slots[i] != null
    ensures LiveCount(slots[i := null]) == LiveCount(slots) - 1
  {
    var n := |slots|;
    if i == n - 1 {
      assert slots[i := null][..n - 1] == slots[..n - 1];
    } else {
      assert slots[i := null][..n - 1] == slots[..n - 1][i := null];
      LiveCountFree(slots[..n - 1], i);
    }
  }

  /** The live count is the number of indices whose slot holds a node. */
  lemma {:induction false} LiveCountIsLiveIndices(slots: seq<Node?>)
    ensures |set i | 0 <= i < |slots| && slots[i] != null| == LiveCount(slots)
  {
    if slots != [] {
      var n := |slots|;
      var init := slots[..n - 1];
      LiveCountIsLiveIndices(init);
      var before := set i | 0 <= i < |init| && init[i] != null;
      var after := set i | 0 <= i < n && slots[i] != null;
      if slots[n - 1] != null {
        assert after == before + {n - 1};
      } else {
        assert after == before;
      }
    }
  }

  /** The value descriptors a node actually produces: its output definitions
      with the empty name (an absent optional output) left out. */
  ghost function ExistingOutputs(defs: seq<string>): seq<string> {
    if defs == [] then []
    else ExistingOutputs(defs[..|defs| - 1]) + (if defs[|defs| - 1] != "" then [defs[|defs| - 1]] else [])
  }

  lemma ExistingOutputsStep(defs: seq<string>, p: nat)
    requires p < |defs|
    ensures ExistingOutputs(defs[..p + 1]) ==
            ExistingOutputs(defs[..p]) + (if defs[p] != "" then [defs[p]] else [])
  {
    assert defs[..p + 1][..p] == defs[..p];
  }

  /** The values produced by the first outputs of a node are among those
      produced by all of them, in the same order. */
  lemma {:induction false} ExistingOutputsPrefix(defs: seq<string>, p: nat)
    requires p <= |defs|
    ensures ExistingOutputs(defs[..p]) <= ExistingOutputs(defs)
    decreases |defs|
  {
    if p == |defs| {
      assert defs[..p] == defs;
    } else {
      var init := defs[..|defs| - 1];
      assert defs[..p] == init[..p];
      ExistingOutputsPrefix(init, p);
      var x, y, z := ExistingOutputs(init[..p]), ExistingOutputs(init), ExistingOutputs(defs);
      assert z[..|y|] == y;
      assert z[..|x|] == y[..|x|];
    }
  }

  /** A value produced again by a later output makes the whole list of
      produced values repeat. */
  lemma DuplicateOutput(seen: seq<string>, defs: seq<string>, p: nat)
    requires p < |defs| && defs[p] != "" && defs[p] in seen + ExistingOutputs(defs[..p])
    ensures !Distinct(seen + ExistingOutputs(defs))
  {
    ExistingOutputsStep(defs, p);
    AppendRepeats(seen + ExistingOutputs(defs[..p]), defs[p]);
    assert seen + ExistingOutputs(defs[..p + 1]) == seen + ExistingOutputs(defs[..p]) + [defs[p]];
    ExistingOutputsPrefix(defs, p + 1);
    NotDistinctExtends(seen + ExistingOutputs(defs[..p + 1]), seen + ExistingOutputs(defs));
  }

  /** Registers the values one node produces, keyed to that node, in the
      map of values seen so far (whose keys are exactly `seen`). Fails iff a
      produced value was seen before or is produced twice by the node; on
      success earlier entries are kept. */
  method CollectOutputs(defs: seq<string>, producer: NodeIndex, outputArgs: map<string, NodeIndex>,
                        ghost seen: seq<string>)
    returns (ok: bool, result: map<string, NodeIndex>)
    requires Distinct(seen)
    requires forall n :: n in outputArgs <==> n in seen
    ensures ok <==> Distinct(seen + ExistingOutputs(defs))
    ensures ok ==> forall n :: n in result <==> n in seen + ExistingOutputs(defs)
    ensures ok ==> forall n :: n in outputArgs ==> n in result && result[n] == outputArgs[n]
    ensures ok ==> forall q :: 0 <= q < |defs| && defs[q] != "" ==>
              defs[q] in result && result[defs[q]] == producer
  {
    result := outputArgs;
    var p := 0;
    ghost var acc := seen;
    assert defs[..0] == [];
    while p < |defs|
      invariant 0 <= p <= |defs|
      invariant acc == seen + ExistingOutputs(defs[..p])
      invariant Distinct(acc)
      invariant forall n :: n in result <==> n in acc
      invariant forall n :: n in outputArgs ==> n in result && result[n] == outputArgs[n]
      invariant forall q :: 0 <= q < p && defs[q] != "" ==>
                  defs[q] in result && result[defs[q]] == producer
    {
      ExistingOutputsStep(defs, p);
      var def := defs[p];
      if def != "" {
        if def in result {
          DuplicateOutput(seen, defs, p);
          return false, result;
        }
        AppendFresh(acc, def);
        acc := acc + [def];
        result := result[def := producer];
      }
      p := p + 1;
    }
    assert defs[..p] == defs;
    ok := true;
  }

  /** A node's producers as the traversal sees them: input nodes whose slot
      is live (references to freed or unknown slots are skipped). */
  ghost function LiveInputsOf(slots: seq<Node?>, i: nat): set<NodeIndex>
    reads slots
    requires i < |slots|
  {
    if slots[i] == null then {}
    else set m | m in slots[i].inputNodes && m < |slots| && slots[m] != null
  }

  /** The dependency relation over an arena: slot i maps to its live producers. */
  ghost function AdjacencyOf(slots: seq<Node?>): (adj: seq<set<NodeIndex>>)
    reads slots
    ensures |adj| == |slots|
    ensures forall i :: 0 <= i < |slots| ==> adj[i] == LiveInputsOf(slots, i)
  {
    seq(|slots|, i requires 0 <= i < |slots| reads slots => LiveInputsOf(slots, i))
  }

  /** An operator instance. Its index is its permanent identity in the arena;
      neighbours are referred to by index. */
  class Node {
    const index: NodeIndex
    const graph: GraphBase
    var name: string
    var opType: string
    var domain: string
    var description: string
    var inputDefs: seq<string>
    var inputArgCount: seq<int>
    var outputDefs: seq<string>
    var attributes: map<string, AttributeValue>
    var inputEdges: set<EdgeEnd>
    var outputEdges: set<EdgeEnd>
    /** Producers of this node, control inputs included. */
    var inputNodes: set<NodeIndex>
    var outputNodes: set<NodeIndex>
    /** Names of the nodes this one is ordered behind without a data edge. */
    var controlInputs: set<string>

    ghost predicate IsEmpty()
      reads this
    {
      && name == "" && opType == "" && domain == "" && description == ""
      && inputDefs == [] && inputArgCount == [] && outputDefs == [] && attributes == map[]
      && NoRelationships()
    }

    /** The state of a sentinel: a named NoOp without definitions,
        attributes or neighbours. */
    ghost predicate IsSentinel(sentinelName: string, sentinelDescription: string)
      reads this
    {
      && name == sentinelName && opType == NoOpType && description == sentinelDescription
      && domain == "" && inputDefs == [] && inputArgCount == [] && outputDefs == []
      && attributes == map[] && NoRelationships()
    }

    ghost predicate NoRelationships()
      reads this
    {
      inputEdges == {} && outputEdges == {} && inputNodes == {} && outputNodes == {} &&
      controlInputs == {}
    }

    constructor (index: NodeIndex, graph: GraphBase)
      ensures this.index == index && this.graph == graph
      ensures IsEmpty()
    {
      this.index := index;
      this.graph := graph;
      name, opType, domain, description := "", "", "", "";
      inputDefs, inputArgCount, outputDefs := [], [], [];
      attributes := map[];
      inputEdges, outputEdges := {}, {};
      inputNodes, outputNodes := {}, {};
      controlInputs := {};
    }

    /** Fills in the node's definitions. Every input starts as its own
        argument slot, and the attributes are taken when given. */
    method Init(name: string, opType: string, description: string, inputArgs: seq<string>,
                outputArgs: seq<string>, attrs: Option<map<string, AttributeValue>>, domain: string)
      modifies this`name, this`opType, this`description, this`inputDefs, this`outputDefs,
               this`inputArgCount, this`attributes, this`domain
      ensures this.name == name && this.opType == opType && this.description == description
      ensures this.domain == domain
      ensures inputDefs == inputArgs && outputDefs == outputArgs
      ensures inputArgCount == Ones(|inputArgs|)
      ensures attributes == if attrs.Some? then attrs.value else old(attributes)
    {
      this.name, this.opType, this.description := name, opType, description;
      inputDefs, outputDefs := inputArgs, outputArgs;
      this.domain := domain;
      inputArgCount := Ones(|inputArgs|);
      if attrs.Some? {
        attributes := attrs.value;
      }
    }

    /** Turns an empty node into one of the two sentinels. */
    method InitSentinel(sentinelName: string, sentinelDescription: string)
      requires IsEmpty()
      modifies this`name, this`opType, this`description, this`inputDefs, this`outputDefs,
               this`inputArgCount, this`attributes, this`domain
      ensures IsSentinel(sentinelName, sentinelDescription)
    {
      Init(sentinelName, NoOpType, sentinelDescription, [], [], None, "");
    }

    /** Adds an attribute, replacing one of the same name. The owning graph
        must be resolved and serialized again. */
    method AddAttribute(attrName: string, value: AttributeValue)
      modifies this`attributes, graph`graphResolveNeeded, graph`graphProtoSyncNeeded
      ensures attributes == old(attributes)[attrName := value]
      ensures graph.graphResolveNeeded && graph.graphProtoSyncNeeded
    {
      attributes := attributes[attrName := value];
      graph.graphResolveNeeded := true;
      graph.graphProtoSyncNeeded := true;
    }

    /** Everything but the node-level relationships is as it was. */
    twostate predicate DataUnchanged()
      reads this
    {
      && name == old(name) && opType == old(opType) && domain == old(domain)
      && description == old(description) && inputDefs == old(inputDefs)
      && inputArgCount == old(inputArgCount) && outputDefs == old(outputDefs)
      && attributes == old(attributes)
      && inputEdges == old(inputEdges) && outputEdges == old(outputEdges)
    }

    /** Records a consumer of this node's values. */
    method AddOutputNode(i: NodeIndex)
      modifies this`outputNodes
      ensures outputNodes == old(outputNodes) + {i}
    {
      outputNodes := outputNodes + {i};
    }

    /** Records a producer this node must wait for, by index and by name. */
    method AddControlInput(i: NodeIndex, producer: string)
      modifies this`inputNodes, this`controlInputs
      ensures inputNodes == old(inputNodes) + {i}
      ensures controlInputs == old(controlInputs) + {producer}
    {
      inputNodes := inputNodes + {i};
      controlInputs := controlInputs + {producer};
    }

    /** Removes an attribute; reports whether one was there. */
    method ClearAttribute(attrName: string) returns (removed: bool)
      modifies this`attributes, graph`graphResolveNeeded, graph`graphProtoSyncNeeded
      ensures removed <==> attrName in old(attributes)
      ensures attributes == old(attributes) - {attrName}
      ensures graph.graphResolveNeeded && graph.graphProtoSyncNeeded
    {
      removed := attrName in attributes;
      attributes := attributes - {attrName};
      graph.graphResolveNeeded := true;
      graph.graphProtoSyncNeeded := true;
    }

    /** Validates the grouping of the inputs into argument slots: the counts
        must add up to the number of inputs. An empty grouping stands for one
        input per slot and is filled in as such. */
    method UpdateInputArgCount() returns (s: Status)
      modifies this`inputArgCount
      ensures s.Ok? <==> old(inputArgCount) == [] || Sum(old(inputArgCount)) == |inputDefs|
      ensures s.Fail? ==> s.error == InputArgCountMismatch
      ensures s.Ok? ==> Sum(inputArgCount) == |inputDefs|
      ensures inputArgCount == if old(inputArgCount) == [] then Ones(|inputDefs|) else old(inputArgCount)
    {
      if inputArgCount == [] {
        inputArgCount := Ones(|inputDefs|);
        OnesSum(|inputDefs|);
        return Ok;
      }
      var total := Accumulate(inputArgCount);
      if total != |inputDefs| {
        return Fail(InputArgCountMismatch);
      }
      return Ok;
    }
  }

  /** The sentinel nodes' names and operator type. */
  const SourceNodeName: string := "_Graph_Source"
  const SinkNodeName: string := "_Graph_Sink"
  const NoOpType: string := "NoOp"
  const SourceNodeDescription: string := "Source node internally in a graph."
  const SinkNodeDescription: string := "Sink node internally in a graph."
  /** The operator type and attribute name of a constant node. */
  const ConstantOpType: string := "Constant"
  const ConstantValueAttr: string := "value"

  class GraphBase {
    /** The arena: slot `i` holds the node with index `i`, or null once freed. */
    var nodes: seq<Node?>
    var numOfNodes: int
    var sourceNodeIndex: NodeIndex
    var sinkNodeIndex: NodeIndex
    var graphResolveNeeded: bool
    var graphProtoSyncNeeded: bool
    var nodesInTopologicalOrder: seq<NodeIndex>
    var graphInputs: seq<string>
    var graphOutputs: seq<string>
    var ownedNodeArgs: seq<NodeArg>

    /** The arena invariant: the count tracks the live slots, and a live slot
        holds the node of that index, which belongs to this graph. */
    ghost predicate ArenaValid()
      reads this`nodes, this`numOfNodes
    {
      && numOfNodes == LiveCount(nodes)
      && (forall i :: 0 <= i < |nodes| && nodes[i] != null ==>
            nodes[i].index == i && nodes[i].graph == this)
    }

    /** In addition, the two sentinels are distinct slots of the arena. */
    ghost predicate Valid()
      reads this`nodes, this`numOfNodes, this`sourceNodeIndex, this`sinkNodeIndex
    {
      && ArenaValid()
      && sourceNodeIndex < |nodes| && sinkNodeIndex < |nodes|
      && sourceNodeIndex != sinkNodeIndex
    }

    ghost function LiveIndices(): set<NodeIndex>
      reads this`nodes
    {
      set i | 0 <= i < |nodes| && nodes[i] != null
    }

    /** A graph starts with its source and sink nodes and the given flags. */
    constructor (resolveNeeded: bool, protoSyncNeeded: bool)
      ensures Valid()
      ensures |nodes| == 2 && sourceNodeIndex == 0 && sinkNodeIndex == 1
      ensures nodes[0] != null && nodes[0].IsSentinel(SourceNodeName, SourceNodeDescription)
      ensures nodes[1] != null && nodes[1].IsSentinel(SinkNodeName, SinkNodeDescription)
      ensures UniqueNodeNames() && UniqueOutputNames() && !TopoSort.HasCycle(AdjacencyOf(nodes))
      ensures graphResolveNeeded == resolveNeeded && graphProtoSyncNeeded == protoSyncNeeded
      ensures ownedNodeArgs == [] && nodesInTopologicalOrder == []
      ensures graphInputs == [] && graphOutputs == []
    {
      nodes := [];
      numOfNodes := 0;
      sourceNodeIndex, sinkNodeIndex := 0, 0;
      graphResolveNeeded, graphProtoSyncNeeded := resolveNeeded, protoSyncNeeded;
      nodesInTopologicalOrder := [];
      graphInputs, graphOutputs := [], [];
      ownedNodeArgs := [];
      new;
      AddSourceSinkNodes();
      SentinelsResolve();
    }

    /** A graph holding only its two sentinels passes both phases of
        resolution: their names differ, they produce nothing and they have
        no edges. */
    lemma SentinelsResolve()
      requires |nodes| == 2 && nodes[0] != null && nodes[1] != null
      requires nodes[0].IsSentinel(SourceNodeName, SourceNodeDescription)
      requires nodes[1].IsSentinel(SinkNodeName, SinkNodeDescription)
      ensures UniqueNodeNames() && UniqueOutputNames() && !TopoSort.HasCycle(AdjacencyOf(nodes))
    {
      assert SourceNodeName[8] != SinkNodeName[8];
      assert LiveNodeNames(0) == [] && LiveOutputNames(0) == [];
      assert LiveNodeNames(1) == [SourceNodeName] && LiveOutputNames(1) == [];
      assert LiveNodeNames(2) == [SourceNodeName, SinkNodeName] && LiveOutputNames(2) == [];
      TopoSort.NoEdgesNoCycle(AdjacencyOf(nodes));
    }

    /** Creates the two sentinel nodes and records their indices. */
    method AddSourceSinkNodes()
      requires ArenaValid()
      modifies this`nodes, this`numOfNodes, this`sourceNodeIndex, this`sinkNodeIndex
      ensures Valid()
      ensures |nodes| == old(|nodes|) + 2 && nodes[..old(|nodes|)] == old(nodes)
      ensures sourceNodeIndex == old(|nodes|) && sinkNodeIndex == old(|nodes|) + 1
      ensures nodes[sourceNodeIndex] != null
      ensures nodes[sourceNodeIndex].IsSentinel(SourceNodeName, SourceNodeDescription)
      ensures nodes[sinkNodeIndex] != null
      ensures nodes[sinkNodeIndex].IsSentinel(SinkNodeName, SinkNodeDescription)
    {
      var source := AllocateNode();
      source.InitSentinel(SourceNodeName, SourceNodeDescription);
      var sink := AllocateNode();
      sink.InitSentinel(SinkNodeName, SinkNodeDescription);
      sourceNodeIndex, sinkNodeIndex := source.index, sink.index;
    }

    /** Appends a slot holding a fresh empty node whose index is the next one;
        indices are therefore never reused. */
    method AllocateNode() returns (n: Node)
      requires ArenaValid()
      modifies this`nodes, this`numOfNodes
      ensures ArenaValid()
      ensures fresh(n) && n.IsEmpty() && n.graph == this
      ensures n.index == old(|nodes|) && nodes == old(nodes) + [n]
      ensures numOfNodes == old(numOfNodes) + 1
    {
      n := new Node(|nodes|, this);
      assert (nodes + [n])[..|nodes|] == nodes;
      nodes := nodes + [n];
      numOfNodes := numOfNodes + 1;
    }

    /** Frees the slot of a live node. Reports false, changing nothing, when
        the index is outside the arena or the slot is already free. */
    method ReleaseNode(i: NodeIndex) returns (ok: bool)
      requires ArenaValid()
      modifies this`nodes, this`numOfNodes
      ensures ArenaValid()
      ensures ok <==> i < old(|nodes|) && old(nodes)[i] != null
      ensures nodes == if ok then old(nodes)[i := null] else old(nodes)
      ensures numOfNodes == if ok then old(numOfNodes) - 1 else old(numOfNodes)
    {
      ok := i < |nodes| && nodes[i] != null;
      if ok {
        LiveCountFree(nodes, i);
        nodes := nodes[i := null];
        numOfNodes := numOfNodes - 1;
      }
    }

    /** Adds a node with the given definitions; names are not checked here
        but by the duplicate-name phase of Resolve. */
    method AddNode(name: string, opType: string, description: string, inputArgs: seq<string>,
                   outputArgs: seq<string>, attrs: Option<map<string, AttributeValue>>,
                   domain: string)
      returns (n: Node)
      requires Valid()
      modifies this`nodes, this`numOfNodes, this`graphResolveNeeded, this`graphProtoSyncNeeded
      ensures Valid()
      ensures fresh(n) && n.index == old(|nodes|) && nodes == old(nodes) + [n]
      ensures numOfNodes == old(numOfNodes) + 1
      ensures n.name == name && n.opType == opType && n.description == description
      ensures n.domain == domain && n.inputDefs == inputArgs && n.outputDefs == outputArgs
      ensures n.inputArgCount == Ones(|inputArgs|)
      ensures n.attributes == if attrs.Some? then attrs.value else map[]
      ensures n.NoRelationships()
      ensures graphResolveNeeded && graphProtoSyncNeeded
    {
      n := AllocateNode();
      n.Init(name, opType, description, inputArgs, outputArgs, attrs, domain);
      graphResolveNeeded := true;
      graphProtoSyncNeeded := true;
    }

    /** Adds a copy of another node's name, operator, domain, description,
        attributes and input and output definitions. Its edges are not copied,
        and the argument grouping starts afresh at one input per slot. */
    method AddNodeCopy(other: Node) returns (n: Node)
      requires Valid()
      modifies this`nodes, this`numOfNodes, this`graphResolveNeeded, this`graphProtoSyncNeeded
      ensures Valid()
      ensures fresh(n) && n.index == old(|nodes|) && nodes == old(nodes) + [n]
      ensures numOfNodes == old(numOfNodes) + 1
      ensures n.name == other.name && n.opType == other.opType && n.domain == other.domain
      ensures n.description == other.description && n.attributes == other.attributes
      ensures n.inputDefs == other.inputDefs && n.outputDefs == other.outputDefs
      ensures n.inputArgCount == Ones(|other.inputDefs|)
      ensures n.NoRelationships()
      ensures graphResolveNeeded && graphProtoSyncNeeded
    {
      n := AddNode(other.name, other.opType, other.description, other.inputDefs,
                   other.outputDefs, Some(other.attributes), other.domain);
    }

    /** Adds a Constant node without inputs whose "value" attribute is the tensor. */
    method AddConstantNode(name: string, description: string, outputArgs: seq<string>,
                           tensor: TensorProto)
      returns (n: Node)
      requires Valid()
      modifies this`nodes, this`numOfNodes, this`graphResolveNeeded, this`graphProtoSyncNeeded
      ensures Valid()
      ensures fresh(n) && n.index == old(|nodes|) && nodes == old(nodes) + [n]
      ensures numOfNodes == old(numOfNodes) + 1
      ensures n.name == name && n.opType == ConstantOpType && n.description == description
      ensures n.domain == "" && n.inputDefs == [] && n.inputArgCount == [] && n.outputDefs == outputArgs
      ensures n.attributes == map[ConstantValueAttr := TensorAttr(tensor)]
      ensures n.NoRelationships()
      ensures graphResolveNeeded && graphProtoSyncNeeded
    {
      n := AddNode(name, ConstantOpType, description, [], outputArgs, None, "");
      n.AddAttribute(ConstantValueAttr, TensorAttr(tensor));
    }

    /** Removes and frees a node. Its neighbours keep their references to its
        index; the traversal of Resolve skips references to freed slots. */
    method RemoveNode(i: NodeIndex) returns (ok: bool)
      requires Valid()
      modifies this`nodes, this`numOfNodes, this`graphResolveNeeded, this`graphProtoSyncNeeded
      ensures Valid()
      ensures ok <==> i < old(|nodes|) && old(nodes)[i] != null
      ensures nodes == if ok then old(nodes)[i := null] else old(nodes)
      ensures numOfNodes == if ok then old(numOfNodes) - 1 else old(numOfNodes)
      ensures MaxNodeIndex() == old(MaxNodeIndex())
      ensures ok ==> i < MaxNodeIndex() && GetNode(i) == null
      ensures ok ==> graphResolveNeeded && graphProtoSyncNeeded
      ensures !ok ==> graphResolveNeeded == old(graphResolveNeeded)
      ensures !ok ==> graphProtoSyncNeeded == old(graphProtoSyncNeeded)
    {
      ok := ReleaseNode(i);
      if ok {
        graphResolveNeeded := true;
        graphProtoSyncNeeded := true;
      }
    }

    /** Orders <dst> behind <src> without a data edge. Reports false, changing
        nothing, unless both indices name live nodes; no node other than
        these two changes. */
    method AddControlEdge(src: NodeIndex, dst: NodeIndex) returns (ok: bool)
      requires Valid()
      modifies if src < |nodes| && dst < |nodes| then {nodes[src], nodes[dst]} else {}
      modifies this`graphResolveNeeded, this`graphProtoSyncNeeded
      ensures Valid()
      ensures ok <==> src < |nodes| && dst < |nodes| && nodes[src] != null && nodes[dst] != null
      ensures ok ==> nodes[src].outputNodes == old(nodes[src].outputNodes) + {dst}
      ensures ok ==> nodes[dst].inputNodes == old(nodes[dst].inputNodes) + {src}
      ensures ok ==> nodes[dst].controlInputs == old(nodes[dst].controlInputs) + {old(nodes[src].name)}
      ensures ok && src != dst ==> nodes[src].inputNodes == old(nodes[src].inputNodes)
      ensures ok && src != dst ==> nodes[src].controlInputs == old(nodes[src].controlInputs)
      ensures ok && src != dst ==> nodes[dst].outputNodes == old(nodes[dst].outputNodes)
      ensures ok ==> nodes[src].DataUnchanged() && nodes[dst].DataUnchanged()
      ensures ok ==> graphResolveNeeded && graphProtoSyncNeeded
      ensures !ok && src < |nodes| && nodes[src] != null ==> unchanged(nodes[src])
      ensures !ok && dst < |nodes| && nodes[dst] != null ==> unchanged(nodes[dst])
      ensures !ok ==> graphResolveNeeded == old(graphResolveNeeded)
      ensures !ok ==> graphProtoSyncNeeded == old(graphProtoSyncNeeded)
    {
      if src >= |nodes| || dst >= |nodes| || nodes[src] == null || nodes[dst] == null {
        return false;
      }
      var s, d := nodes[src], nodes[dst];
      s.AddOutputNode(dst);
      d.AddControlInput(src, s.name);
      graphResolveNeeded := true;
      graphProtoSyncNeeded := true;
      ok := true;
    }

    /** The slot at an index inside the arena: the node of that index, or
        null once it has been freed. An index outside the arena is a
        programming error, not a status. */
    function GetNode(i: NodeIndex): (n: Node?)
      reads this
      requires i < |nodes|
      ensures n == null <==> i !in LiveIndices()
      ensures ArenaValid() && n != null ==> n.index == i && n.graph == this
    {
      nodes[i]
    }

    /** The arena size, an upper bound on node indices. */
    function MaxNodeIndex(): (r: nat)
      reads this
      ensures r == |nodes|
    {
      |nodes|
    }

    /** The number of live nodes, which never exceeds the arena size. */
    function NumberOfNodes(): (r: int)
      reads this
      ensures ArenaValid() ==> 0 <= r <= MaxNodeIndex() && r == |LiveIndices()|
    {
      LiveCountBound(nodes);
      LiveCountIsLiveIndices(nodes);
      numOfNodes
    }

    /** Whether an index is the source sentinel's; in a valid graph that is a
        slot of the arena and never the sink's. */
    function IsSourceNode(i: NodeIndex): (r: bool)
      reads this
      ensures Valid() && r ==> i < MaxNodeIndex() && i != sinkNodeIndex
      ensures r <==> i == sourceNodeIndex
    {
      i == sourceNodeIndex
    }

    function IsSinkNode(i: NodeIndex): (r: bool)
      reads this
      ensures Valid() && r ==> i < MaxNodeIndex() && i != sourceNodeIndex
      ensures r <==> i == sinkNodeIndex
    {
      i == sinkNodeIndex
    }

    /** Whether a node is the source, by its index; for a node of this arena
        that is the same as sitting in the source's slot. */
    function IsSourceNodeOf(n: Node): (r: bool)
      reads this
      ensures r <==> n.index == sourceNodeIndex
      ensures Valid() && n in nodes ==> (r <==> nodes[sourceNodeIndex] == n)
    {
      n.index == sourceNodeIndex
    }

    function IsSinkNodeOf(n: Node): (r: bool)
      reads this
      ensures r <==> n.index == sinkNodeIndex
      ensures Valid() && n in nodes ==> (r <==> nodes[sinkNodeIndex] == n)
    {
      n.index == sinkNodeIndex
    }

    /** The source sentinel, which the source test recognises. */
    function SourceNode(): (n: Node?)
      reads this
      requires sourceNodeIndex < |nodes|
      ensures n == GetNode(sourceNodeIndex)
      ensures ArenaValid() && n != null ==> IsSourceNodeOf(n)
      ensures Valid() && n != null ==> !IsSinkNodeOf(n)
    {
      nodes[sourceNodeIndex]
    }

    function SinkNode(): (n: Node?)
      reads this
      requires sinkNodeIndex < |nodes|
      ensures n == GetNode(sinkNodeIndex)
      ensures ArenaValid() && n != null ==> IsSinkNodeOf(n)
      ensures Valid() && n != null ==> !IsSourceNodeOf(n)
    {
      nodes[sinkNodeIndex]
    }

    function GraphResolveNeeded(): (r: bool)
      reads this
      ensures r == graphResolveNeeded
    {
      graphResolveNeeded
    }

    function GraphProtoSyncNeeded(): (r: bool)
      reads this
      ensures r == graphProtoSyncNeeded
    {
      graphProtoSyncNeeded
    }

    method SetGraphResolveNeeded()
      modifies this`graphResolveNeeded
      ensures graphResolveNeeded
    {
      graphResolveNeeded := true;
    }

    method SetGraphResolveNeededTo(needed: bool)
      modifies this`graphResolveNeeded
      ensures graphResolveNeeded == needed
    {
      graphResolveNeeded := needed;
    }

    method SetGraphProtoSyncNeeded()
      modifies this`graphProtoSyncNeeded
      ensures graphProtoSyncNeeded
    {
      graphProtoSyncNeeded := true;
    }

    method SetGraphProtoSyncNeededTo(needed: bool)
      modifies this`graphProtoSyncNeeded
      ensures graphProtoSyncNeeded == needed
    {
      graphProtoSyncNeeded := needed;
    }

    /** Returns the value descriptor owned by this graph for a name. With a
        type given, the first owned one of that name is returned and the pool
        is unchanged; otherwise, and always without a type, a new one is
        appended. */
    method CreateOwnedNodeArg(name: string, argType: Option<TypeProto>) returns (arg: NodeArg, k: nat)
      modifies this`ownedNodeArgs
      ensures k < |ownedNodeArgs| && ownedNodeArgs[k] == arg && arg.name == name
      ensures argType.Some? && FirstWithName(old(ownedNodeArgs), name).Some? ==>
                ownedNodeArgs == old(ownedNodeArgs) && k == FirstWithName(old(ownedNodeArgs), name).value
      ensures argType.None? || FirstWithName(old(ownedNodeArgs), name).None? ==>
                ownedNodeArgs == old(ownedNodeArgs) + [NewNodeArg(name, argType)] &&
                k == |old(ownedNodeArgs)|
    {
      if argType.Some? {
        var j := 0;
        while j < |ownedNodeArgs|
          invariant 0 <= j <= |ownedNodeArgs|
          invariant forall i :: 0 <= i < j ==> ownedNodeArgs[i].name != name
        {
          if ownedNodeArgs[j].name == name {
            return ownedNodeArgs[j], j;
          }
          j := j + 1;
        }
      }
      arg := NewNodeArg(name, argType);
      ownedNodeArgs := ownedNodeArgs + [arg];
      k := |ownedNodeArgs| - 1;
    }

    /** The names of the live nodes below index k, in index order. */
    ghost function LiveNodeNames(k: nat): seq<string>
      reads this`nodes, nodes
      requires k <= |nodes|
    {
      if k == 0 then []
      else LiveNodeNames(k - 1) + (if nodes[k - 1] != null then [nodes[k - 1].name] else [])
    }

    /** The names of the values produced by the live nodes below index k. */
    ghost function LiveOutputNames(k: nat): seq<string>
      reads this`nodes, nodes
      requires k <= |nodes|
    {
      if k == 0 then []
      else LiveOutputNames(k - 1) +
           (if nodes[k - 1] != null then ExistingOutputs(nodes[k - 1].outputDefs) else [])
    }

    ghost predicate UniqueNodeNames()
      reads this`nodes, nodes
    {
      Distinct(LiveNodeNames(|nodes|))
    }

    ghost predicate UniqueOutputNames()
      reads this`nodes, nodes
    {
      Distinct(LiveOutputNames(|nodes|))
    }

    lemma {:induction false} NamesPrefix(i: nat, k: nat)
      requires i <= k <= |nodes|
      ensures LiveNodeNames(i) <= LiveNodeNames(k)
      ensures LiveOutputNames(i) <= LiveOutputNames(k)
      decreases k - i
    {
      if i < k {
        NamesPrefix(i, k - 1);
      }
    }

    /** One step of the duplicate-name phase: registers the node in slot i,
        if any, in the maps built from the slots below it. */
    method RegisterNode(i: NodeIndex, outputArgs: map<string, NodeIndex>,
                        nodeNameToIndex: map<string, NodeIndex>)
      returns (s: Status, outputArgs': map<string, NodeIndex>, nodeNameToIndex': map<string, NodeIndex>)
      requires i < |nodes|
      requires Distinct(LiveNodeNames(i)) && Distinct(LiveOutputNames(i))
      requires forall n :: n in nodeNameToIndex <==> n in LiveNodeNames(i)
      requires forall n :: n in outputArgs <==> n in LiveOutputNames(i)
      ensures s.Ok? <==> Distinct(LiveNodeNames(i + 1)) && Distinct(LiveOutputNames(i + 1))
      ensures s == Fail(DuplicateNodeName) ==> !Distinct(LiveNodeNames(i + 1))
      ensures s == Fail(DuplicateOutputName) ==> !Distinct(LiveOutputNames(i + 1))
      ensures s.Fail? ==> s.error == DuplicateNodeName || s.error == DuplicateOutputName
      ensures s.Ok? ==> forall n :: n in nodeNameToIndex' <==> n in LiveNodeNames(i + 1)
      ensures s.Ok? ==> forall n :: n in outputArgs' <==> n in LiveOutputNames(i + 1)
      ensures s.Ok? ==> forall n :: n in nodeNameToIndex ==>
                n in nodeNameToIndex' && nodeNameToIndex'[n] == nodeNameToIndex[n]
      ensures s.Ok? ==> forall n :: n in outputArgs ==> n in outputArgs' && outputArgs'[n] == outputArgs[n]
      ensures s.Ok? && nodes[i] != null ==>
                nodes[i].name in nodeNameToIndex' && nodeNameToIndex'[nodes[i].name] == i
      ensures s.Ok? && nodes[i] != null ==> forall p :: (0 <= p < |nodes[i].outputDefs| &&
                nodes[i].outputDefs[p] != "") ==>
                nodes[i].outputDefs[p] in outputArgs' && outputArgs'[nodes[i].outputDefs[p]] == i
    {
      var node := nodes[i];
      outputArgs', nodeNameToIndex' := outputArgs, nodeNameToIndex;
      if node == null {
        assert LiveNodeNames(i + 1) == LiveNodeNames(i);
        assert LiveOutputNames(i + 1) == LiveOutputNames(i);
        return Ok, outputArgs', nodeNameToIndex';
      }
      assert LiveNodeNames(i + 1) == LiveNodeNames(i) + [node.name];
      assert LiveOutputNames(i + 1) == LiveOutputNames(i) + ExistingOutputs(node.outputDefs);
      if node.name in nodeNameToIndex {
        AppendRepeats(LiveNodeNames(i), node.name);
        return Fail(DuplicateNodeName), outputArgs', nodeNameToIndex';
      }
      AppendFresh(LiveNodeNames(i), node.name);
      nodeNameToIndex' := nodeNameToIndex[node.name := i];
      var ok;
      ok, outputArgs' := CollectOutputs(node.outputDefs, i, outputArgs, LiveOutputNames(i));
      s := if ok then Ok else Fail(DuplicateOutputName);
    }

    /** A repetition among the names of the first slots remains one among
        the names of all slots. */
    lemma DuplicatesPersist(k: nat)
      requires k <= |nodes|
      ensures !Distinct(LiveNodeNames(k)) ==> !UniqueNodeNames()
      ensures !Distinct(LiveOutputNames(k)) ==> !UniqueOutputNames()
    {
      NamesPrefix(k, |nodes|);
      if !Distinct(LiveNodeNames(k)) {
        NotDistinctExtends(LiveNodeNames(k), LiveNodeNames(|nodes|));
      }
      if !Distinct(LiveOutputNames(k)) {
        NotDistinctExtends(LiveOutputNames(k), LiveOutputNames(|nodes|));
      }
    }

    /** Registering slot i keeps every earlier node's entries, so the maps
        cover the slots up to and including i. */
    lemma MapsExtend(i: nat, names: map<string, NodeIndex>, names': map<string, NodeIndex>,
                     outputs: map<string, NodeIndex>, outputs': map<string, NodeIndex>)
      requires i < |nodes|
      requires forall j :: 0 <= j < i && nodes[j] != null ==>
                 nodes[j].name in names && names[nodes[j].name] == j
      requires forall j, p :: (0 <= j < i && nodes[j] != null &&
                 0 <= p < |nodes[j].outputDefs| && nodes[j].outputDefs[p] != "") ==>
                 nodes[j].outputDefs[p] in outputs && outputs[nodes[j].outputDefs[p]] == j
      requires forall n :: n in names ==> n in names' && names'[n] == names[n]
      requires forall n :: n in outputs ==> n in outputs' && outputs'[n] == outputs[n]
      requires nodes[i] != null ==> nodes[i].name in names' && names'[nodes[i].name] == i
      requires nodes[i] != null ==> forall p :: (0 <= p < |nodes[i].outputDefs| &&
                 nodes[i].outputDefs[p] != "") ==>
                 nodes[i].outputDefs[p] in outputs' && outputs'[nodes[i].outputDefs[p]] == i
      ensures forall j :: 0 <= j < i + 1 && nodes[j] != null ==>
                nodes[j].name in names' && names'[nodes[j].name] == j
      ensures forall j, p :: (0 <= j < i + 1 && nodes[j] != null &&
                0 <= p < |nodes[j].outputDefs| && nodes[j].outputDefs[p] != "") ==>
                nodes[j].outputDefs[p] in outputs' && outputs'[nodes[j].outputDefs[p]] == j
    {
    }

    /** Duplicate-name phase of Resolve. Fails iff two live nodes share a
        name or two existing node outputs share a name; on success the maps
        give each node name its node and each produced value its producer. */
    method VerifyNoDuplicateName()
      returns (s: Status, outputArgs: map<string, NodeIndex>, nodeNameToIndex: map<string, NodeIndex>)
      ensures s.Ok? <==> UniqueNodeNames() && UniqueOutputNames()
      ensures s == Fail(DuplicateNodeName) ==> !UniqueNodeNames()
      ensures s == Fail(DuplicateOutputName) ==> !UniqueOutputNames()
      ensures s.Fail? ==> s.error == DuplicateNodeName || s.error == DuplicateOutputName
      ensures s.Ok? ==> forall i :: 0 <= i < |nodes| && nodes[i] != null ==>
                nodes[i].name in nodeNameToIndex && nodeNameToIndex[nodes[i].name] == i
      ensures s.Ok? ==> forall n :: n in nodeNameToIndex ==> n in LiveNodeNames(|nodes|)
      ensures s.Ok? ==> forall i, p :: (0 <= i < |nodes| && nodes[i] != null &&
                0 <= p < |nodes[i].outputDefs| && nodes[i].outputDefs[p] != "") ==>
                nodes[i].outputDefs[p] in outputArgs && outputArgs[nodes[i].outputDefs[p]] == i
      ensures s.Ok? ==> forall n :: n in outputArgs ==> n in LiveOutputNames(|nodes|)
    {
      outputArgs, nodeNameToIndex := map[], map[];
      var i := 0;
      while i < |nodes|
        invariant 0 <= i <= |nodes|
        invariant Distinct(LiveNodeNames(i)) && Distinct(LiveOutputNames(i))
        invariant forall n :: n in nodeNameToIndex <==> n in LiveNodeNames(i)
        invariant forall j :: 0 <= j < i && nodes[j] != null ==>
                    nodes[j].name in nodeNameToIndex && nodeNameToIndex[nodes[j].name] == j
        invariant forall n :: n in outputArgs <==> n in LiveOutputNames(i)
        invariant forall j, p :: (0 <= j < i && nodes[j] != null &&
                    0 <= p < |nodes[j].outputDefs| && nodes[j].outputDefs[p] != "") ==>
                    nodes[j].outputDefs[p] in outputArgs && outputArgs[nodes[j].outputDefs[p]] == j
      {
        ghost var prevOutputs, prevNames := outputArgs, nodeNameToIndex;
        s, outputArgs, nodeNameToIndex := RegisterNode(i, outputArgs, nodeNameToIndex);
        if s.Fail? {
          DuplicatesPersist(i + 1);
          return;
        }
        MapsExtend(i, prevNames, nodeNameToIndex, prevOutputs, outputArgs);
        i := i + 1;
      }
      s := Ok;
    }

    /** Depth-first cycle check. Succeeds iff no node depends on itself
        through input nodes (control inputs included); on success the order
        lists each live node once, every node after all its input nodes, and
        is as long as the live-node count. */
    method CheckIsAcyclic() returns (s: Status, order: seq<NodeIndex>)
      ensures s.Ok? <==> !TopoSort.HasCycle(AdjacencyOf(nodes))
      ensures s.Fail? ==> s.error == Cycle
      ensures s.Ok? ==> TopoSort.IsTopologicalOrder(AdjacencyOf(nodes), LiveIndices(), order)
      ensures s.Ok? ==> |order| == LiveCount(nodes)
      ensures s.Ok? ==> order == TopoSort.DfsOrder(AdjacencyOf(nodes), LiveIndices())
    {
      var adj: seq<set<NodeIndex>> := [];
      var live: set<NodeIndex> := {};
      var k := 0;
      while k < |nodes|
        invariant 0 <= k <= |nodes|
        invariant |adj| == k
        invariant forall j :: 0 <= j < k ==> adj[j] == LiveInputsOf(nodes, j)
        invariant live == set j | 0 <= j < k && nodes[j] != null
      {
        var ins: set<NodeIndex> := {};
        if nodes[k] != null {
          ins := set m | m in nodes[k].inputNodes && m < |nodes| && nodes[m] != null;
          live := live + {k};
        }
        adj := adj + [ins];
        k := k + 1;
      }
      assert adj == AdjacencyOf(nodes);
      assert live == LiveIndices();
      var ok;
      ok, order := TopoSort.Sort(adj, live);
      if !ok {
        return Fail(Cycle), order;
      }
      s := Ok;
      DistinctCardinality(order);
      assert Elements(order) == live;
      LiveCountIsLiveIndices(nodes);
    }

    /** In a resolved order a node comes after each live node it depends on,
        by a data edge or by a control edge. */
    lemma OrderRespectsInputs(order: seq<NodeIndex>, src: NodeIndex, dst: NodeIndex)
      requires TopoSort.IsTopologicalOrder(AdjacencyOf(nodes), LiveIndices(), order)
      requires src < |nodes| && dst < |nodes| && nodes[src] != null && nodes[dst] != null
      requires src in nodes[dst].inputNodes
      ensures src in order && dst in order
      ensures TopoSort.PositionOf(order, src) < TopoSort.PositionOf(order, dst)
    {
      assert src in LiveInputsOf(nodes, dst);
      TopoSort.ProducerPrecedes(AdjacencyOf(nodes), LiveIndices(), order, src, dst);
    }

    /** The structural part of Resolve: the duplicate-name phase, then the
        cycle check. On success the topological order is stored and the graph
        no longer needs resolving; on failure nothing changes. */
    method ResolveStructure() returns (s: Status)
      modifies this`graphResolveNeeded, this`nodesInTopologicalOrder
      ensures s.Ok? <==> UniqueNodeNames() && UniqueOutputNames() &&
                         !TopoSort.HasCycle(AdjacencyOf(nodes))
      ensures s.Fail? ==> s.error == DuplicateNodeName || s.error == DuplicateOutputName || s.error == Cycle
      ensures !(UniqueNodeNames() && UniqueOutputNames()) ==> s.Fail? && s.error != Cycle
      ensures s == Fail(Cycle) ==> UniqueNodeNames() && UniqueOutputNames()
      ensures s.Ok? ==> !graphResolveNeeded
      ensures s.Ok? ==>
                TopoSort.IsTopologicalOrder(AdjacencyOf(nodes), LiveIndices(), nodesInTopologicalOrder)
      ensures s.Ok? ==> GetNodesInTopologicalOrder() == Success(nodesInTopologicalOrder)
      ensures s.Ok? ==> nodesInTopologicalOrder == TopoSort.DfsOrder(AdjacencyOf(nodes), LiveIndices())
      ensures s.Fail? ==> graphResolveNeeded == old(graphResolveNeeded)
      ensures s.Fail? ==> nodesInTopologicalOrder == old(nodesInTopologicalOrder)
    {
      var outputArgs, nameToIndex;
      s, outputArgs, nameToIndex := VerifyNoDuplicateName();
      if s.Fail? {
        return;
      }
      var order;
      s, order := CheckIsAcyclic();
      if s.Fail? {
        return;
      }
      nodesInTopologicalOrder := order;
      graphResolveNeeded := false;
    }

    /** The order stored by the last successful Resolve; an error while the
        graph needs resolving, since the order may be stale. */
    function GetNodesInTopologicalOrder(): (r: Result<seq<NodeIndex>>)
      reads this
      ensures r.Success? <==> !graphResolveNeeded
      ensures r.Success? ==> r.value == nodesInTopologicalOrder
      ensures r.Failure? ==> r.error == ResolveNeeded
    {
      if graphResolveNeeded then Failure(ResolveNeeded) else Success(nodesInTopologicalOrder)
    }
  }
}
