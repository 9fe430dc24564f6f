/** Value types shared by the graph IR: stand-ins for the protobuf messages the
    graph holds, the attribute variant, and the status a validation step returns. */
module OnnxTypes {

  datatype Option<T> = None | Some(value: T)

  /** A tensor shape. Its content is opaque to the graph structure. */
  datatype TensorShape = TensorShape(dims: seq<int>)

  /** An ONNX type. The shape is carried inside the type, which is why a
      shape can only be attached to a value whose type is known. */
  datatype TypeProto = TypeProto(elemType: string, shape: Option<TensorShape>)

  /** Opaque handles for a constant tensor and for a sub-graph literal. */
  datatype TensorProto = TensorProto(token: nat)
  datatype GraphProto = GraphProto(token: nat)

  /** One node attribute: a tagged variant over the attribute kinds the node
      accepts (the floating-point kinds are not modelled). */
  datatype AttributeValue =
    | IntAttr(i: int)
    | IntsAttr(ints: seq<int>)
    | StringAttr(s: string)
    | StringsAttr(strings: seq<string>)
    | TensorAttr(t: TensorProto)
    | TensorsAttr(tensors: seq<TensorProto>)
    | GraphAttr(g: GraphProto)
    | GraphsAttr(graphs: seq<GraphProto>)

  /** The structural errors a graph operation reports as a status. */
  datatype GraphError =
    | DuplicateNodeName
    | DuplicateOutputName
    | Cycle
    | InputArgCountMismatch
    | ResolveNeeded

  datatype Status = Ok | Fail(error: GraphError)

  datatype Result<T> = Success(value: T) | Failure(error: GraphError)
}
