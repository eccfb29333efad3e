/** `Graph` (Graph.cs:24-88) in arena style. Nodes are kept by index; a node's `Targets` and
    `Sources` dictionaries, which the source keys by node object, are kept as two maps keyed
    by index pairs: `targets[(a, b)]` is `a.Targets[b]` and `sources[(b, a)]` is
    `b.Sources[a]`. Every node of a graph has its own index, so keying by index loses nothing. */
module Graphs {
  import opened Wrappers
  import opened Strings
  import opened Nodes

  /** The exceptions `Dictionary` throws: a missing key on lookup, a present key on `Add`. */
  datatype GraphError = KeyNotFound(key: int) | DuplicateKey(key: int)

  type Reasons = map<(int, int), seq<string>>

  /** `nextConditional` is `NextConditionalNodeIndex`; `name` is `Name`, unset until a graph
      element is read. */
  datatype Graph = Graph(
    nextConditional: int,
    name: Option<string>,
    nodes: map<int, Node>,
    targets: Reasons,
    sources: Reasons)

  /** `new Graph()`: no nodes, and the conditional counter at `int.MaxValue` (Graph.cs:26). */
  const EmptyGraph: Graph := Graph(MaxInt32, None, map[], map[], map[])

  /** The reasons recorded for a key, empty when the key is absent. */
  function ReasonsAt(m: Reasons, a: int, b: int): seq<string> {
    if (a, b) in m then m[(a, b)] else []
  }

  /** What every graph built by these operations satisfies: edges join present nodes, every
      recorded list is non-empty, and `a.Targets[b]` and `b.Sources[a]` are the same list. */
  ghost predicate Valid(g: Graph) {
    && (forall e :: e in g.targets ==> e.0 in g.nodes && e.1 in g.nodes && |g.targets[e]| > 0)
    && (forall e :: e in g.sources ==> e.0 in g.nodes && e.1 in g.nodes && |g.sources[e]| > 0)
    && (forall a, b :: ReasonsAt(g.targets, a, b) == ReasonsAt(g.sources, b, a))
  }

  /** Graph.cs:77-87: append to the key's list, or start a one-element list. */
  function AddReason<K(==)>(dict: map<K, seq<string>>, key: K, reason: string): (r: map<K, seq<string>>)
    ensures r.Keys == dict.Keys + {key}
    ensures r[key] == (if key in dict then dict[key] else []) + [reason]
    ensures forall k :: k in dict && k != key ==> r[k] == dict[k]
  {
    if key in dict then dict[key := dict[key] + [reason]] else dict[key := [reason]]
  }

  /** The two `AddReason` calls that record one edge from `a` to `b` on both of its ends
      (Graph.cs:41-42 and each pair of Graph.cs:61-68). */
  function Link(g: Graph, a: int, b: int, reason: string): (r: Graph)
    ensures r.nodes == g.nodes && r.nextConditional == g.nextConditional && r.name == g.name
    ensures ReasonsAt(r.targets, a, b) == ReasonsAt(g.targets, a, b) + [reason]
    ensures ReasonsAt(r.sources, b, a) == ReasonsAt(g.sources, b, a) + [reason]
    ensures forall x, y :: (x, y) != (a, b) ==> ReasonsAt(r.targets, x, y) == ReasonsAt(g.targets, x, y)
    ensures forall x, y :: (x, y) != (b, a) ==> ReasonsAt(r.sources, x, y) == ReasonsAt(g.sources, x, y)
    ensures Valid(g) && a in g.nodes && b in g.nodes ==> Valid(r)
  {
    g.(targets := AddReason(g.targets, (a, b), reason), sources := AddReason(g.sources, (b, a), reason))
  }

  /** Graph.cs:37-49: false, and nothing changes, when either end is not a node. */
  function AddEdge(g: Graph, source: int, target: int, reason: string): (r: (bool, Graph))
    ensures r.0 <==> source in g.nodes && target in g.nodes
    ensures !r.0 ==> r.1 == g
    ensures r.1.nodes == g.nodes && r.1.nextConditional == g.nextConditional
    ensures r.0 ==> ReasonsAt(r.1.targets, source, target) == ReasonsAt(g.targets, source, target) + [reason]
    ensures r.0 ==> ReasonsAt(r.1.sources, target, source) == ReasonsAt(g.sources, target, source) + [reason]
    ensures forall x, y :: (x, y) != (source, target) ==> ReasonsAt(r.1.targets, x, y) == ReasonsAt(g.targets, x, y)
    ensures forall x, y :: (x, y) != (target, source) ==> ReasonsAt(r.1.sources, x, y) == ReasonsAt(g.sources, x, y)
    ensures Valid(g) ==> Valid(r.1)
  {
    if source in g.nodes && target in g.nodes then (true, Link(g, source, target, reason))
    else (false, g)
  }

  /** `NextConditionalNodeIndex--` on a 32-bit counter: `int.MinValue` wraps to
      `int.MaxValue`. */
  function Decrement32(i: int): (r: int)
    ensures MinInt32 <= r <= MaxInt32
    ensures MinInt32 < i <= MaxInt32 ==> r == i - 1
    ensures i == MinInt32 ==> r == MaxInt32
  {
    (i - 1 - MinInt32) % 0x1_0000_0000 + MinInt32
  }

  /** The name of a conditional node, built from the `ToString` of its two reasons
      (Graph.cs:58). */
  function ConditionalName(reason1: Node, reason2: Node): string {
    "Conditional(" + Describe(reason1) + " - " + Describe(reason2) + ")"
  }

  function Reason1Label(reason: string): string { "Reason1Conditional - " + reason }
  function Reason2Label(reason: string): string { "Reason2Conditional - " + reason }

  /** Graph.cs:51-69: look up the three nodes, take a fresh index from the counter, add the
      conditional node and wire it to the target and from both reasons. */
  function AddConditionalEdge(g: Graph, reason1: int, reason2: int, target: int, reason: string): (r: Result<Graph, GraphError>)
    ensures r.Failure? <==> reason1 !in g.nodes || reason2 !in g.nodes || target !in g.nodes || g.nextConditional in g.nodes
    ensures r.Failure? ==> r.error == (if reason1 !in g.nodes then KeyNotFound(reason1)
                                       else if reason2 !in g.nodes then KeyNotFound(reason2)
                                       else if target !in g.nodes then KeyNotFound(target)
                                       else DuplicateKey(g.nextConditional))
    ensures r.Success? ==> r.value.nextConditional == Decrement32(g.nextConditional)
    ensures r.Success? ==> r.value.nodes == g.nodes[g.nextConditional := Node(g.nextConditional, ConditionalName(g.nodes[reason1], g.nodes[reason2]), PlainNode)]
    ensures Valid(g) && r.Success? ==> Valid(r.value)
  {
    if reason1 !in g.nodes then Failure(KeyNotFound(reason1))
    else if reason2 !in g.nodes then Failure(KeyNotFound(reason2))
    else if target !in g.nodes then Failure(KeyNotFound(target))
    else
      var c := g.nextConditional;
      if c in g.nodes then Failure(DuplicateKey(c))
      else
        var conditional := Node(c, ConditionalName(g.nodes[reason1], g.nodes[reason2]), PlainNode);
        var g1 := g.(nextConditional := Decrement32(c), nodes := g.nodes[c := conditional]);
        assert Valid(g) ==> Valid(g1);
        var g2 := Link(g1, c, target, reason);
        var g3 := Link(g2, reason1, c, Reason1Label(reason));
        Success(Link(g3, reason2, c, Reason2Label(reason)))
  }

  /** `Nodes.Add(index, node)` (Graph.cs:71-75): a present index throws. */
  function AddNode(g: Graph, index: int, node: Node): (r: Result<Graph, GraphError>)
    ensures r.Failure? <==> index in g.nodes
    ensures r.Failure? ==> r.error == DuplicateKey(index)
    ensures r.Success? ==> r.value.nodes == g.nodes[index := node] && index !in g.nodes
    ensures r.Success? ==> r.value.targets == g.targets && r.value.sources == g.sources
    ensures r.Success? ==> r.value.nextConditional == g.nextConditional
    ensures Valid(g) && r.Success? ==> Valid(r.value)
  {
    if index in g.nodes then Failure(DuplicateKey(index))
    else Success(g.(nodes := g.nodes[index := node]))
  }
}

/** Facts about graphs built from the empty graph by the operations above. */
module GraphFacts {
  import opened Wrappers
  import opened Strings
  import opened Nodes
  import opened Graphs

  lemma EmptyGraphValid()
    ensures Valid(EmptyGraph)
  {
  }

  /** Adding the same edge twice keeps one key per direction and records both reasons in
      order (Graph.cs:39-43, 77-87). */
  lemma RepeatedEdgeAccumulates(g: Graph, source: int, target: int, first: string, second: string)
    requires source in g.nodes && target in g.nodes
    ensures var g2 := AddEdge(AddEdge(g, source, target, first).1, source, target, second).1;
            && ReasonsAt(g2.targets, source, target) == ReasonsAt(g.targets, source, target) + [first, second]
            && ReasonsAt(g2.sources, target, source) == ReasonsAt(g.sources, target, source) + [first, second]
            && g2.targets.Keys == g.targets.Keys + {(source, target)}
  {
  }

  /** The three edge pairs of a conditional edge (Graph.cs:61-68): the conditional node
      leads to the target with the reason, and each reason node leads to the conditional
      node with its labelled reason. When the two reasons are one node its list holds both
      labels. No other list changes. */
  lemma ConditionalEdgeWiring(g: Graph, reason1: int, reason2: int, target: int, reason: string)
    requires Valid(g)
    requires AddConditionalEdge(g, reason1, reason2, target, reason).Success?
    ensures var r, c := AddConditionalEdge(g, reason1, reason2, target, reason).value, g.nextConditional;
            && ReasonsAt(r.targets, c, target) == [reason]
            && ReasonsAt(r.sources, target, c) == [reason]
            && (reason1 != reason2 ==> ReasonsAt(r.targets, reason1, c) == [Reason1Label(reason)])
            && (reason1 != reason2 ==> ReasonsAt(r.targets, reason2, c) == [Reason2Label(reason)])
            && (reason1 == reason2 ==> ReasonsAt(r.targets, reason1, c) == [Reason1Label(reason), Reason2Label(reason)])
            && (forall x, y :: x != c && y != c ==> ReasonsAt(r.targets, x, y) == ReasonsAt(g.targets, x, y))
            && (forall x, y :: x != c && y != c ==> ReasonsAt(r.sources, x, y) == ReasonsAt(g.sources, x, y))
  {
    var c := g.nextConditional;
    assert ReasonsAt(g.targets, c, target) == [] && ReasonsAt(g.sources, target, c) == [];
    assert ReasonsAt(g.targets, reason1, c) == [] && ReasonsAt(g.targets, reason2, c) == [];
  }

  /** The counter is used and then lowered by one, so successive conditional nodes get
      `int.MaxValue`, `int.MaxValue - 1`, ... (Graph.cs:26, 57). */
  lemma ConditionalIndicesDescend(g: Graph, r1: int, r2: int, t: int, reason: string)
    requires MinInt32 < g.nextConditional <= MaxInt32
    requires AddConditionalEdge(g, r1, r2, t, reason).Success?
    ensures var g2 := AddConditionalEdge(g, r1, r2, t, reason).value;
            && g.nextConditional in g2.nodes && g.nextConditional !in g.nodes
            && g2.nodes[g.nextConditional].index == g.nextConditional
            && g2.nextConditional == g.nextConditional - 1
  {
  }
}
