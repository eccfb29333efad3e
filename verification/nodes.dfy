/** The closed set of dependency-graph node kinds. Every C# node class becomes one
    constructor of `Kind`, named after the class and carrying the class's extra properties;
    the shared `Index` and `Name` live in `Node`. Edges are kept by the graph, not the node. */
module Nodes {
  import opened Wrappers
  import opened Metadata
  import Strings

  datatype Kind =
    | PlainNode
    | RegionNode
    | ModuleMetadataNode
    | ConstructedEETypeNode
    | ReflectedMethodNode
    | ReflectedFieldNode
    | MethodTableNode(isBoxedValueType: bool)
    | ReflectedTypeNode
    | CustomAttributeMetadataNode(assemblyName: string)
    | VTableSliceNode
    | InterfaceDispatchMapNode
    | SealedVTableNode
    | GenericDictionaryNode
    | DictionaryLayoutNode
    | FieldMetadataNode
    | GenericCompositionNode(variance: seq<int>)
    | WritableDataNode
    | EETypeOptionalFieldsNode
    | MethodMetadataNode
    | SimpleEmbeddedPointerIndirectionNode
    | VirtualMethodUseNode
    | GCStaticEETypeNode
    | TentativeInstanceMethodNode
    | NativeLayoutTemplateMethodLayoutVertexNode
    | NativeLayoutTypeSignatureVertexNode
    | NativeLayoutPlacedSignatureVertexNode
    | NativeLayoutMethodNameAndSignatureVertexNode
    | NativeLayoutMethodSignatureVertexNode
    | FrozenObjectNode
    | FatFunctionPointerNode(isUnboxingStub: bool)
    | ShadowConcreteMethodNode(canonicalMethodName: string)
    | InterfaceDispatchCellNode(callSiteIdentifier: Option<string>)
    | RuntimeMethodHandleNode
    | TypeGVMEntriesNode
    | GCStaticsNode
    | GCStaticsPreInitDataNode
    | NonGCStaticsNode
    | NativeLayoutTemplateMethodSignatureVertexNode
    | NativeLayoutMethodLdTokenVertexNode
    | NativeLayoutFieldLdTokenVertexNode
    | NativeLayoutExternalReferenceVertexNode
    | NativeLayoutPlacedVertexSequenceOfUIntVertexNode
    | NativeLayoutDictionarySignatureNode
    | NativeLayoutTypeHandleGenericDictionarySlotNode
    | NativeLayoutUnwrapNullableGenericDictionarySlotNode
    | NativeLayoutAllocateObjectGenericDictionarySlotNode
    | NativeLayoutThreadStaticBaseIndexDictionarySlotNode
    | NativeLayoutDefaultConstructorGenericDictionarySlotNode
    | NativeLayoutGcStaticsGenericDictionarySlotNode
    | NativeLayoutNonGcStaticsGenericDictionarySlotNode
    | NativeLayoutInterfaceDispatchGenericDictionarySlotNode
    | NativeLayoutMethodDictionaryGenericDictionarySlotNode
    | WrappedMethodDictionaryVertexNode
    | NativeLayoutFieldLdTokenGenericDictionarySlotNode
    | NativeLayoutMethodLdTokenGenericDictionarySlotNode
    | NativeLayoutConstrainedMethodDictionarySlotNode
    | NativeLayoutMethodEntrypointGenericDictionarySlotNode
    | WrappedMethodEntryVertexNode
    | NativeLayoutNotSupportedDictionarySlotNode
    | GVMDependenciesNode
    | VariantInterfaceMethodUseNode
    | DataflowAnalyzedMethodNode
    | ReadyToRunGenericHelperNode
      /** Produced only by the node converter: a node resolved to a metadata type. */
    | TypeNode(typeReference: TypeRef)

  /** A classified node: its externally assigned index, its derived name and its kind.
      (`ReflectedTypeNode.IsBoxed` is never assigned in the source and so is always false;
      it carries no field here.) */
  datatype Node = Node(index: int, name: string, kind: Kind)

  /** The name a payload-free kind's constructor always passes to the base class. */
  function FixedName(k: Kind): Option<string> {
    match k
    case NativeLayoutPlacedSignatureVertexNode => Some("NativeLayoutPlacedSignatureVertexNode")
    case NativeLayoutPlacedVertexSequenceOfUIntVertexNode => Some("NativeLayoutPlacedVertexSequenceOfUIntVertexNode")
    case NativeLayoutNotSupportedDictionarySlotNode => Some("NativeLayoutNotSupportedDictionarySlotNode")
    case _ => None
  }

  /** What the C# constructors guarantee about a node: payload-free kinds carry their fixed
      name, and a type node is named by the full name of its type. */
  predicate WellFormed(n: Node) {
    && (FixedName(n.kind).Some? ==> n.name == FixedName(n.kind).value)
    && (n.kind.TypeNode? ==> n.name == n.kind.typeReference.fullName)
  }

  /** `new TypeNode(id, typeReference)`. */
  function MakeTypeNode(id: int, t: TypeRef): (n: Node)
    ensures WellFormed(n) && n.kind == TypeNode(t)
  {
    Node(id, t.fullName, TypeNode(t))
  }

  /** The constructor of a payload-free kind, which takes only the index. */
  function MakeFixedNode(id: int, k: Kind): (n: Node)
    requires FixedName(k).Some?
    ensures WellFormed(n) && n.kind == k
  {
    Node(id, FixedName(k).value, k)
  }

  /** `Node.ToString()`. */
  function Describe(n: Node): string {
    "Index: " + Strings.IntToString(n.index) + ", Name: " + n.name
  }
}
