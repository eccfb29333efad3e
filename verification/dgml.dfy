/** `DgmlGraphProcessing.ParseXml` (DgmlGraphProcessing.cs:9-52) as a fold over the elements
    an XML reader would report. Reading the stream and parsing the integer attributes are
    left to the caller: elements arrive already decoded. */
module DgmlLoading {
  import opened Wrappers
  import opened Strings
  import opened Metadata
  import opened Nodes
  import opened Classifier
  import opened NodeConverter
  import opened Graphs

  /** The element kinds the loader reacts to; every other element, and every `Property` or
      `Properties` element, is `OtherElement`. */
  datatype Element =
    | NodeElement(id: int, nodeLabel: string)
    | LinkElement(source: int, target: int, reason: string)
    | DirectedGraphElement
    | OtherElement

  /** The exceptions that escape `ParseXml`: a label the classifier throws on, or a duplicate
      node index. */
  datatype LoadError = LabelError(parseError: ParseError) | GraphFailure(graphError: GraphError)

  /** DgmlGraphProcessing.cs:31-32: classify the label, then resolve it against the types. */
  function LoadNode(pool: seq<TypeRef>, id: int, nodeLabel: string): (r: Result<Node, ParseError>)
    ensures r.Success? ==> r.value.index == id && WellFormed(r.value)
    ensures r.Success? <==> ParseNode(id, nodeLabel).Success?
  {
    match ParseNode(id, nodeLabel)
    case Success(node) => Success(Convert(pool, node))
    case Failure(e) => Failure(e)
  }

  /** The indices that node elements declare. */
  function NodeIds(elements: seq<Element>): set<int> {
    set k | 0 <= k < |elements| && elements[k].NodeElement? :: elements[k].id
  }

  /** The indices a single element declares. */
  function DeclaredIds(e: Element): set<int> {
    if e.NodeElement? then {e.id} else {}
  }

  /** One turn of the reading loop (DgmlGraphProcessing.cs:27-46). The flag says whether
      reading goes on; it is false only for a link with a missing end, and then the graph is
      unchanged. */
  function Step(pool: seq<TypeRef>, graphName: string, e: Element, g: Graph): (r: Result<(bool, Graph), LoadError>)
    ensures Valid(g) && r.Success? ==> Valid(r.value.1)
    ensures r.Success? ==> forall i :: i in g.nodes ==> i in r.value.1.nodes && r.value.1.nodes[i] == g.nodes[i]
    ensures r.Success? && r.value.0 ==> r.value.1.nodes.Keys == g.nodes.Keys + DeclaredIds(e)
    ensures r.Success? && e.NodeElement? ==>
              LoadNode(pool, e.id, e.nodeLabel).Success? && e.id in r.value.1.nodes && r.value.1.nodes[e.id] == LoadNode(pool, e.id, e.nodeLabel).value
    ensures r.Success? && e.LinkElement? && r.value.0 ==> e.source in g.nodes && e.target in g.nodes
    ensures r.Success? && !r.value.0 ==>
              e.LinkElement? && r.value.1 == g && (e.source !in g.nodes || e.target !in g.nodes)
    ensures r.Failure? ==> e.NodeElement?
  {
    match e
    case NodeElement(id, nodeLabel) =>
      (match LoadNode(pool, id, nodeLabel)
       case Failure(err) => Failure(LabelError(err))
       case Success(node) =>
         match AddNode(g, id, node)
         case Failure(err) => Failure(GraphFailure(err))
         case Success(g1) => Success((true, g1)))
    case LinkElement(source, target, reason) => Success(AddEdge(g, source, target, reason))
    case DirectedGraphElement => Success((true, g.(name := Some(graphName))))
    case OtherElement => Success((true, g))
  }

  /** DgmlGraphProcessing.cs:17-51: take the elements in order and stop with false at the
      first link whose source or target is not yet a node. */
  function Load(pool: seq<TypeRef>, graphName: string, elements: seq<Element>, g: Graph): (r: Result<(bool, Graph), LoadError>)
    decreases |elements|
  {
    if |elements| == 0 then Success((true, g))
    else
      match Step(pool, graphName, elements[0], g)
      case Failure(err) => Failure(err)
      case Success((go, g1)) => if go then Load(pool, graphName, elements[1..], g1) else Success((false, g1))
  }

  /** Reading preserves the graph invariant and never changes a node already present. */
  lemma {:induction false} LoadPreserves(pool: seq<TypeRef>, graphName: string, elements: seq<Element>, g: Graph)
    ensures var r := Load(pool, graphName, elements, g);
            && (Valid(g) && r.Success? ==> Valid(r.value.1))
            && (r.Success? ==> forall i :: i in g.nodes ==> i in r.value.1.nodes && r.value.1.nodes[i] == g.nodes[i])
    decreases |elements|
  {
    if |elements| > 0 {
      var s := Step(pool, graphName, elements[0], g);
      if s.Success? && s.value.0 {
        LoadPreserves(pool, graphName, elements[1..], s.value.1);
      }
    }
  }

  lemma NodeIdsCons(elements: seq<Element>)
    requires |elements| > 0
    ensures NodeIds(elements) == DeclaredIds(elements[0]) + NodeIds(elements[1..])
  {
    var rest := elements[1..];
    assert forall k :: 1 <= k < |elements| ==> elements[k] == rest[k - 1];
    assert forall k :: 0 <= k < |rest| ==> rest[k] == elements[k + 1];
  }

  /** A load that reads every element declares exactly the nodes of the node elements
      (DgmlGraphProcessing.cs:29-34). */
  lemma {:induction false} LoadDeclaresNodes(pool: seq<TypeRef>, graphName: string, elements: seq<Element>, g: Graph)
    requires Load(pool, graphName, elements, g).Success? && Load(pool, graphName, elements, g).value.0
    ensures Load(pool, graphName, elements, g).value.1.nodes.Keys == g.nodes.Keys + NodeIds(elements)
    decreases |elements|
  {
    if |elements| > 0 {
      var g1 := Step(pool, graphName, elements[0], g).value.1;
      LoadDeclaresNodes(pool, graphName, elements[1..], g1);
      NodeIdsCons(elements);
    }
  }

  /** In a load that reads every element, each node is the classified and resolved form of its
      label. */
  lemma {:induction false} LoadResolvesNodes(pool: seq<TypeRef>, graphName: string, elements: seq<Element>, g: Graph)
    requires Load(pool, graphName, elements, g).Success? && Load(pool, graphName, elements, g).value.0
    ensures var h := Load(pool, graphName, elements, g).value.1;
            forall k :: 0 <= k < |elements| && elements[k].NodeElement? ==>
              LoadNode(pool, elements[k].id, elements[k].nodeLabel).Success? && elements[k].id in h.nodes &&
              h.nodes[elements[k].id] == LoadNode(pool, elements[k].id, elements[k].nodeLabel).value
    decreases |elements|
  {
    if |elements| > 0 {
      var rest := elements[1..];
      var g1 := Step(pool, graphName, elements[0], g).value.1;
      LoadResolvesNodes(pool, graphName, rest, g1);
      LoadPreserves(pool, graphName, rest, g1);
      forall k | 1 <= k < |elements|
        ensures elements[k] == rest[k - 1]
      {
      }
    }
  }

  /** In a load that reads every element, every link joins two loaded nodes
      (DgmlGraphProcessing.cs:35-42). */
  lemma {:induction false} LoadLinksJoinNodes(pool: seq<TypeRef>, graphName: string, elements: seq<Element>, g: Graph)
    requires Load(pool, graphName, elements, g).Success? && Load(pool, graphName, elements, g).value.0
    ensures var h := Load(pool, graphName, elements, g).value.1;
            forall k :: 0 <= k < |elements| && elements[k].LinkElement? ==>
              elements[k].source in h.nodes && elements[k].target in h.nodes
    decreases |elements|
  {
    if |elements| > 0 {
      var rest := elements[1..];
      var g1 := Step(pool, graphName, elements[0], g).value.1;
      LoadLinksJoinNodes(pool, graphName, rest, g1);
      LoadPreserves(pool, graphName, rest, g1);
      forall k | 1 <= k < |elements|
        ensures elements[k] == rest[k - 1]
      {
      }
    }
  }

  /** A load that stops early stops at a link one of whose ends is not a node of the graph it
      returns (DgmlGraphProcessing.cs:38-41). */
  lemma {:induction false} LoadStopsAtDanglingLink(pool: seq<TypeRef>, graphName: string, elements: seq<Element>, g: Graph)
    requires Load(pool, graphName, elements, g).Success? && !Load(pool, graphName, elements, g).value.0
    ensures var h := Load(pool, graphName, elements, g).value.1;
            exists k :: 0 <= k < |elements| && elements[k].LinkElement? &&
              (elements[k].source !in h.nodes || elements[k].target !in h.nodes)
    decreases |elements|
  {
    var h := Load(pool, graphName, elements, g).value.1;
    var s := Step(pool, graphName, elements[0], g);
    if s.value.0 {
      var rest := elements[1..];
      LoadStopsAtDanglingLink(pool, graphName, rest, s.value.1);
      var k :| 0 <= k < |rest| && rest[k].LinkElement? && (rest[k].source !in h.nodes || rest[k].target !in h.nodes);
      assert elements[k + 1] == rest[k];
    } else {
      assert elements[0].LinkElement?;
    }
  }

  /** `ParseXml` starts from a new graph. */
  function ParseXml(pool: seq<TypeRef>, graphName: string, elements: seq<Element>): (r: Result<(bool, Graph), LoadError>)
    ensures r.Success? ==> Valid(r.value.1)
    ensures r.Success? && r.value.0 ==> r.value.1.nodes.Keys == NodeIds(elements)
  {
    LoadPreserves(pool, graphName, elements, EmptyGraph);
    var r := Load(pool, graphName, elements, EmptyGraph);
    if r.Success? && r.value.0 then LoadDeclaresNodes(pool, graphName, elements, EmptyGraph); r else r
  }
}
