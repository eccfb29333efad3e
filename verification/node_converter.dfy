/** `NodeConverter` (NodeConverter.cs): resolves a classified node to a metadata type of a
    pool by comparing the node's name, for exact equality, with five renderings of each
    candidate type. Each pool type is tried before its nested types, which are searched depth
    first, and the first type that matches wins. */
module NodeConverter {
  import opened Wrappers
  import opened Strings
  import opened Metadata
  import opened Nodes

  /** The characters `MangleTypeName` replaces by '_'. */
  predicate IsMangledChar(c: char) {
    c == '.' || c == '<' || c == '>' || c == '`' || c == '/'
  }

  /** NodeConverter.cs:77-80: five `Replace` calls in a row. */
  function MangleTypeName(s: string): (r: string)
    ensures |r| == |s|
    ensures forall i :: 0 <= i < |s| ==> r[i] == if IsMangledChar(s[i]) then '_' else s[i]
  {
    ReplaceChar(ReplaceChar(ReplaceChar(ReplaceChar(ReplaceChar(s, '.', '_'), '<', '_'), '>', '_'), '`', '_'), '/', '_')
  }

  /** NodeConverter.cs:82-85. */
  function MangleAssemblyName(s: string): (r: string)
    ensures |r| == |s|
    ensures forall i :: 0 <= i < |s| ==> r[i] == if s[i] == '.' then '_' else s[i]
  {
    ReplaceChar(s, '.', '_')
  }

  /** The five names under which a type is recognised (NodeConverter.cs:32-60): the mangled
      assembly and type names joined by '_', the mangled type name, the full name with '+'
      for '/', the same after the bracketed assembly name, and the full name itself. */
  function Renderings(t: TypeRef): seq<string> {
    [ MangleAssemblyName(ReplaceChar(t.scope, '.', '_')) + "_" + MangleTypeName(t.fullName),
      MangleTypeName(t.fullName),
      ReplaceChar(t.fullName, '/', '+'),
      "[" + t.scope + "]" + ReplaceChar(t.fullName, '/', '+'),
      t.fullName ]
  }

  predicate RendersAs(t: TypeRef, name: string) {
    name in Renderings(t)
  }

  /** NodeConverter.cs:28-75: the type itself, then its nested types in order. */
  function TryConvertNode(t: TypeRef, node: Node): (r: Option<Node>)
    decreases t, 1
    ensures r.Some? ==> r.value.index == node.index && WellFormed(r.value)
    ensures r.Some? ==> r.value.kind.TypeNode? && RendersAs(r.value.kind.typeReference, node.name)
  {
    if RendersAs(t, node.name) then Some(MakeTypeNode(node.index, t))
    else TryConvertFirst(t.nested, node)
  }

  /** The `foreach` that returns the first successful conversion of a list of types. */
  function TryConvertFirst(ts: seq<TypeRef>, node: Node): (r: Option<Node>)
    decreases ts, 0
    ensures r.Some? ==> r.value.index == node.index && WellFormed(r.value)
    ensures r.Some? ==> r.value.kind.TypeNode? && RendersAs(r.value.kind.typeReference, node.name)
  {
    if |ts| == 0 then None
    else match TryConvertNode(ts[0], node)
      case Some(n) => Some(n)
      case None => TryConvertFirst(ts[1..], node)
  }

  /** NodeConverter.cs:15-26: the node is returned unchanged when nothing matches. */
  function Convert(pool: seq<TypeRef>, node: Node): (r: Node)
    ensures r.index == node.index
    ensures r == node || (r.kind.TypeNode? && WellFormed(r) && RendersAs(r.kind.typeReference, node.name))
  {
    match TryConvertFirst(pool, node)
    case Some(n) => n
    case None => node
  }

  /** The order in which the converter visits types: each type before its nested types. */
  function Preorder(t: TypeRef): (order: seq<TypeRef>)
    decreases t, 1
    ensures |order| > 0 && order[0] == t
  {
    [t] + PreorderAll(t.nested)
  }

  function PreorderAll(ts: seq<TypeRef>): seq<TypeRef>
    decreases ts, 0
  {
    if |ts| == 0 then [] else Preorder(ts[0]) + PreorderAll(ts[1..])
  }

  /** The position of the first type in `order` that renders as `name`, or `|order|`. */
  function FirstRenderedAs(order: seq<TypeRef>, name: string): (k: nat)
    ensures k <= |order|
    ensures k < |order| ==> RendersAs(order[k], name)
    ensures forall j :: 0 <= j < k ==> !RendersAs(order[j], name)
  {
    if |order| == 0 then 0
    else if RendersAs(order[0], name) then 0
    else 1 + FirstRenderedAs(order[1..], name)
  }

  /** The reference meaning of a search: the first type of `order` that renders as the node's
      name, as a type node with the node's index. */
  function SearchResult(order: seq<TypeRef>, node: Node): Option<Node> {
    var k := FirstRenderedAs(order, node.name);
    if k < |order| then Some(MakeTypeNode(node.index, order[k])) else None
  }
}

/** What the converter computes, against the preorder search and the string-level facts
    about mangling. */
module NodeConverterFacts {
  import opened Wrappers
  import opened Strings
  import opened Metadata
  import opened Nodes
  import opened NodeConverter

  /** Searching a concatenation searches the first part, then the second. */
  lemma {:induction false} SearchConcat(a: seq<TypeRef>, b: seq<TypeRef>, node: Node)
    ensures SearchResult(a + b, node) == if SearchResult(a, node).Some? then SearchResult(a, node) else SearchResult(b, node)
    decreases |a|
  {
    if |a| == 0 {
      assert a + b == b;
    } else {
      assert (a + b)[1..] == a[1..] + b;
      SearchConcat(a[1..], b, node);
      if !RendersAs(a[0], node.name) {
        assert FirstRenderedAs(a + b, node.name) == 1 + FirstRenderedAs(a[1..] + b, node.name);
        assert FirstRenderedAs(a, node.name) == 1 + FirstRenderedAs(a[1..], node.name);
      }
    }
  }

  /** `TryConvertNode` is the first match in the preorder of the type's tree
      (NodeConverter.cs:62-71). */
  lemma {:induction false} TryConvertNodeIsPreorderSearch(t: TypeRef, node: Node)
    ensures TryConvertNode(t, node) == SearchResult(Preorder(t), node)
    decreases t, 1
  {
    TryConvertFirstIsPreorderSearch(t.nested, node);
    SearchConcat([t], PreorderAll(t.nested), node);
  }

  lemma {:induction false} TryConvertFirstIsPreorderSearch(ts: seq<TypeRef>, node: Node)
    ensures TryConvertFirst(ts, node) == SearchResult(PreorderAll(ts), node)
    decreases ts, 0
  {
    if |ts| > 0 {
      TryConvertNodeIsPreorderSearch(ts[0], node);
      TryConvertFirstIsPreorderSearch(ts[1..], node);
      SearchConcat(Preorder(ts[0]), PreorderAll(ts[1..]), node);
    }
  }

  /** `Convert` returns a type node for the first type, in pool order and each type before
      its nested types, that renders as the node's name, and the node itself when there is
      none (NodeConverter.cs:15-36). */
  lemma ConvertIsFirstInPreorder(pool: seq<TypeRef>, node: Node)
    ensures var order := PreorderAll(pool);
            var k := FirstRenderedAs(order, node.name);
            Convert(pool, node) == if k < |order| then MakeTypeNode(node.index, order[k]) else node
  {
    TryConvertFirstIsPreorderSearch(pool, node);
  }

  /** Mangling leaves none of the five replaced characters behind, so mangling twice is
      mangling once. */
  lemma MangleTypeNameIdempotent(s: string)
    ensures forall i :: 0 <= i < |s| ==> !IsMangledChar(MangleTypeName(s)[i])
    ensures MangleTypeName(MangleTypeName(s)) == MangleTypeName(s)
  {
  }

  /** The assembly name has its dots replaced before `MangleAssemblyName` sees it, so the
      second replacement changes nothing (NodeConverter.cs:32). */
  lemma MangleAssemblyNameAfterReplace(s: string)
    ensures MangleAssemblyName(ReplaceChar(s, '.', '_')) == ReplaceChar(s, '.', '_')
    ensures forall i :: 0 <= i < |s| ==> MangleAssemblyName(s)[i] != '.'
  {
  }

  lemma MangleTypeNameConcat(a: string, b: string)
    ensures MangleTypeName(a + b) == MangleTypeName(a) + MangleTypeName(b)
  {
    assert forall i :: 0 <= i < |a + b| ==> MangleTypeName(a + b)[i] == (MangleTypeName(a) + MangleTypeName(b))[i] by {
      forall i | 0 <= i < |a + b|
        ensures MangleTypeName(a + b)[i] == (MangleTypeName(a) + MangleTypeName(b))[i]
      {
        if i < |a| {
          assert (a + b)[i] == a[i];
        } else {
          assert (a + b)[i] == b[i - |a|];
        }
      }
    }
  }

  lemma ReplaceCharConcat(a: string, b: string, from: char, to: char)
    ensures ReplaceChar(a + b, from, to) == ReplaceChar(a, from, to) + ReplaceChar(b, from, to)
  {
    assert forall i :: 0 <= i < |a + b| ==> ReplaceChar(a + b, from, to)[i] == (ReplaceChar(a, from, to) + ReplaceChar(b, from, to))[i] by {
      forall i | 0 <= i < |a + b|
        ensures ReplaceChar(a + b, from, to)[i] == (ReplaceChar(a, from, to) + ReplaceChar(b, from, to))[i]
      {
        if i < |a| {
          assert (a + b)[i] == a[i];
        } else {
          assert (a + b)[i] == b[i - |a|];
        }
      }
    }
  }

  lemma ReplaceAbsentChar(s: string, from: char, to: char)
    requires from !in s
    ensures ReplaceChar(s, from, to) == s
  {
  }

  /** The first position is the one before which nothing renders as `name` and at which
      something does. */
  lemma {:induction false} FirstRenderedAsIs(order: seq<TypeRef>, name: string, k: nat)
    requires k < |order| && RendersAs(order[k], name)
    requires forall j :: 0 <= j < k ==> !RendersAs(order[j], name)
    ensures FirstRenderedAs(order, name) == k
    decreases k
  {
    if k > 0 {
      FirstRenderedAsIs(order[1..], name, k - 1);
    }
  }
}

/** The pool of NodeConversionTests.cs:36-60 and the three resolutions asserted there. Long
    names are written as concatenations of their namespace and name parts. A nested type's
    `declaring` is left empty: the converter never reads it. */
module NodeConversionExamples {
  import opened Wrappers
  import opened Strings
  import opened Metadata
  import opened Nodes
  import opened NodeConverter
  import opened NodeConverterFacts

  const MvcCore: string := "Microsoft.AspNetCore.Mvc.Core"
  const ModuleType: TypeRef := TypeRef(MvcCore, "", "<Module>", "<Module>", 0, None, [], [])
  const HolderNamespace: string := "Microsoft.Extensions.Internal"
  const HolderName: string := "CopyOnWriteDictionaryHolder`2"
  const HolderType: TypeRef := TypeRef(MvcCore, HolderNamespace, HolderName, HolderNamespace + "." + HolderName, 0, None, [], [])

  const LayoutFullName: string := "Library.Pages.Shared." + "Pages_Shared__Layout"
  const ClosureFullName: string := LayoutFullName + "/<>c"
  const StateMachineFullName: string := ClosureFullName + "/<<ExecuteAsync>b__17_2>d"
  const StateMachineType: TypeRef := TypeRef("Library", "", "<<ExecuteAsync>b__17_2>d", StateMachineFullName, 0, None, [], [])
  const ClosureType: TypeRef := TypeRef("Library", "", "<>c", ClosureFullName, 0, None, [], [StateMachineType])
  const LayoutType: TypeRef := TypeRef("Library", "Library.Pages.Shared", "Pages_Shared__Layout", LayoutFullName, 0, None, [], [ClosureType])

  const Pool: seq<TypeRef> := [ModuleType, HolderType, LayoutType]

  /** The pool's types in the order the converter visits them. */
  lemma PoolPreorder()
    ensures PreorderAll(Pool) == [ModuleType, HolderType, LayoutType, ClosureType, StateMachineType]
  {
    assert PreorderAll([StateMachineType]) == [StateMachineType];
    assert Preorder(ClosureType) == [ClosureType, StateMachineType];
    assert PreorderAll([ClosureType]) == [ClosureType, StateMachineType];
    assert Preorder(LayoutType) == [LayoutType, ClosureType, StateMachineType];
    assert PreorderAll(Pool[2..]) == [LayoutType, ClosureType, StateMachineType];
    assert PreorderAll(Pool[1..]) == [HolderType, LayoutType, ClosureType, StateMachineType];
  }

  lemma ModuleRenders(node: Node)
    requires node.name == "Microsoft_AspNetCore_Mvc_Core__Module_"
    ensures RendersAs(ModuleType, node.name)
  {
    assert ReplaceChar(MvcCore, '.', '_') == "Microsoft_AspNetCore_Mvc_Core";
    MangleAssemblyNameAfterReplace(MvcCore);
    assert MangleTypeName("<Module>") == "_Module_";
    assert Renderings(ModuleType)[0] == node.name;
  }

  /** NodeConversionTests.cs:8-16: the module type is found under its mangled rendering. */
  lemma ModuleTypeResolves()
    ensures Convert(Pool, Node(332, "Microsoft_AspNetCore_Mvc_Core__Module_", PlainNode)) == MakeTypeNode(332, ModuleType)
  {
    var node := Node(332, "Microsoft_AspNetCore_Mvc_Core__Module_", PlainNode);
    ModuleRenders(node);
    PoolPreorder();
    ConvertIsFirstInPreorder(Pool, node);
  }

  /** No rendering of `t` has the length of `name`. */
  lemma RenderingLengthsDiffer(t: TypeRef, name: string)
    requires |name| != |t.scope| + 1 + |t.fullName| && |name| != |t.fullName| && |name| != |t.scope| + 2 + |t.fullName|
    ensures !RendersAs(t, name)
  {
  }

  lemma HolderMangledName()
    ensures MangleTypeName(HolderType.fullName) == "Microsoft_Extensions_Internal" + "_" + "CopyOnWriteDictionaryHolder_2"
  {
    MangleTypeNameConcat(HolderNamespace, "." + HolderName);
    MangleTypeNameConcat(".", HolderName);
    assert MangleTypeName(HolderNamespace) == "Microsoft_Extensions_Internal";
    assert MangleTypeName(".") == "_";
    assert MangleTypeName(HolderName) == "CopyOnWriteDictionaryHolder_2";
  }

  lemma MvcCoreMangledName()
    ensures MangleAssemblyName(ReplaceChar(MvcCore, '.', '_')) == "Microsoft_AspNetCore_Mvc_Core"
  {
    assert ReplaceChar(MvcCore, '.', '_') == "Microsoft_AspNetCore_Mvc_Core";
    MangleAssemblyNameAfterReplace(MvcCore);
  }

  lemma HolderRenders(node: Node)
    requires node.name == "Microsoft_AspNetCore_Mvc_Core" + "_" + "Microsoft_Extensions_Internal" + "_" + "CopyOnWriteDictionaryHolder_2"
    ensures RendersAs(HolderType, node.name)
  {
    HolderMangledName();
    MvcCoreMangledName();
    var a, b := "Microsoft_AspNetCore_Mvc_Core", "Microsoft_Extensions_Internal" + "_" + "CopyOnWriteDictionaryHolder_2";
    assert a + "_" + b == node.name;
    assert Renderings(HolderType)[0] == a + "_" + b;
  }

  /** NodeConversionTests.cs:17-25: the generic type is found under its mangled rendering,
      the backtick of its arity replaced by '_'. */
  lemma GenericTypeResolves()
    ensures var node := Node(332, "Microsoft_AspNetCore_Mvc_Core" + "_" + "Microsoft_Extensions_Internal" + "_" + "CopyOnWriteDictionaryHolder_2", PlainNode);
            Convert(Pool, node) == MakeTypeNode(332, HolderType)
  {
    var node := Node(332, "Microsoft_AspNetCore_Mvc_Core" + "_" + "Microsoft_Extensions_Internal" + "_" + "CopyOnWriteDictionaryHolder_2", PlainNode);
    RenderingLengthsDiffer(ModuleType, node.name);
    HolderRenders(node);
    PoolPreorder();
    ConvertIsFirstInPreorder(Pool, node);
  }

  lemma StateMachinePlusName()
    ensures ReplaceChar(StateMachineType.fullName, '/', '+')
         == "Library.Pages.Shared." + "Pages_Shared__Layout" + "+<>c" + "+<<ExecuteAsync>b__17_2>d"
  {
    ReplaceCharConcat(ClosureFullName, "/<<ExecuteAsync>b__17_2>d", '/', '+');
    ReplaceCharConcat(LayoutFullName, "/<>c", '/', '+');
    ReplaceCharConcat("Library.Pages.Shared.", "Pages_Shared__Layout", '/', '+');
    ReplaceAbsentChar("Library.Pages.Shared.", '/', '+');
    ReplaceAbsentChar("Pages_Shared__Layout", '/', '+');
    assert ReplaceChar("/<>c", '/', '+') == "+<>c";
    assert ReplaceChar("/<<ExecuteAsync>b__17_2>d", '/', '+') == "+<<ExecuteAsync>b__17_2>d";
  }

  lemma StateMachineRenders(node: Node)
    requires node.name == "[Library]" + "Library.Pages.Shared." + "Pages_Shared__Layout" + "+<>c" + "+<<ExecuteAsync>b__17_2>d"
    ensures RendersAs(StateMachineType, node.name)
  {
    var b := "Library.Pages.Shared." + "Pages_Shared__Layout" + "+<>c" + "+<<ExecuteAsync>b__17_2>d";
    assert "[" + "Library" + "]" + b == node.name;
    assert Renderings(StateMachineType)[3] == "[" + "Library" + "]" + b by {
      StateMachinePlusName();
    }
  }

  /** NodeConversionTests.cs:26-34: the doubly nested type is found, after its enclosing
      types, under its bracketed rendering with '+' for '/'. */
  lemma NestedTypeResolves()
    ensures var node := Node(332, "[Library]" + "Library.Pages.Shared." + "Pages_Shared__Layout" + "+<>c" + "+<<ExecuteAsync>b__17_2>d", PlainNode);
            Convert(Pool, node) == MakeTypeNode(332, StateMachineType)
  {
    var node := Node(332, "[Library]" + "Library.Pages.Shared." + "Pages_Shared__Layout" + "+<>c" + "+<<ExecuteAsync>b__17_2>d", PlainNode);
    RenderingLengthsDiffer(ModuleType, node.name);
    RenderingLengthsDiffer(HolderType, node.name);
    RenderingLengthsDiffer(LayoutType, node.name);
    RenderingLengthsDiffer(ClosureType, node.name);
    StateMachineRenders(node);
    PoolPreorder();
    FirstRenderedAsIs(PreorderAll(Pool), node.name, 4);
    ConvertIsFirstInPreorder(Pool, node);
  }
}
