/** The value descriptor (NodeArg) of the graph IR: a named, optionally typed
    value that flows between nodes. Its identity is its name. */
module NodeArgs {
  import opened OnnxTypes

  datatype NodeArg = NodeArg(name: string, argType: Option<TypeProto>)
  {
    /** An empty name stands for an optional argument that is absent. */
    predicate Exists() {
      name != ""
    }

    /** The shape, which lives inside the type; none when no type is set. */
    function Shape(): (s: Option<TensorShape>)
      ensures s.Some? ==> argType.Some?
    {
      if argType.Some? then argType.value.shape else None
    }

    /** Setting the type always succeeds and replaces the whole type,
        including any shape it carried. */
    function SetType(t: TypeProto): (r: NodeArg)
      ensures r.name == name && r.Exists() == Exists()
      ensures r.argType == Some(t) && r.Shape() == t.shape
    {
      this.(argType := Some(t))
    }

    /** Setting the shape has an effect only once a type is set: without a
        type the value is returned unchanged and still has no shape. */
    function SetShape(s: TensorShape): (r: NodeArg)
      ensures r.name == name && r.Exists() == Exists()
      ensures argType.None? ==> r == this && r.Shape().None?
      ensures argType.Some? ==>
                r.Shape() == Some(s) && r.argType.value.elemType == argType.value.elemType
    {
      if argType.Some? then this.(argType := Some(argType.value.(shape := Some(s)))) else this
    }
  }

  /** The constructor: a NodeArg exists iff its name is non-empty. */
  function NewNodeArg(name: string, t: Option<TypeProto>): (a: NodeArg)
    ensures a.name == name && a.argType == t
    ensures a.Exists() <==> name != ""
    ensures a.Shape() == (if t.Some? then t.value.shape else None)
  {
    NodeArg(name, t)
  }

  /** Setting a type and then a shape yields that shape; the order matters,
      since a shape set first is lost. */
  lemma ShapeNeedsTypeFirst(a: NodeArg, t: TypeProto, s: TensorShape)
    ensures a.SetType(t).SetShape(s).Shape() == Some(s)
    ensures a.argType.None? ==> a.SetShape(s).SetType(t).Shape() == t.shape
  {
  }

  /** The first position in the pool holding a NodeArg with the given name. */
  ghost function FirstWithName(pool: seq<NodeArg>, name: string): (r: Option<nat>)
    ensures r.Some? ==> r.value < |pool| && pool[r.value].name == name
    ensures r.Some? ==> forall j :: 0 <= j < r.value ==> pool[j].name != name
    ensures r.None? <==> forall j :: 0 <= j < |pool| ==> pool[j].name != name
  {
    if pool == [] then None
    else if pool[0].name == name then Some(0)
    else match FirstWithName(pool[1..], name)
      case None => None
      case Some(k) => Some(k + 1)
  }
}
