/** The label classifier `DgmlGraphProcessing.ParseNode`: an ordered cascade of tests on a
    node label in which the first test that fires decides the node kind and how its name and
    payload are cut out of the label. The cascade is written down as the table `Rules`, in
    the order of the source; `ParseNode` applies the first rule that matches. Where the C#
    code throws, the result is a `Failure`. */
module Classifier {
  import opened Wrappers
  import opened Strings
  import opened Nodes

  /** The exceptions the C# classifier can raise. */
  datatype ParseError =
    | MangledNameTooShort(mangled: string)   // `Substring(4, len - 9)` with fewer than 9 characters
    | EmptyGenericInstance                   // `Substring(1)` of the empty remainder
    | BadVariance(piece: string)             // `int.Parse` of a variance piece
    | MissingAssemblyName(payload: string)   // `parts[1]` of a custom attribute without " in "

  /** One test of the cascade and the node it builds. */
  datatype Rule =
      /** Label starts with `marker`; the name is the rest of the label. */
    | Prefix(marker: string, kind: Kind)
      /** Label starts with `marker`; the rest is a mangled method-table name. */
    | MangledPrefix(marker: string, kind: Kind)
      /** Label equals `text`; a payload-free kind with its fixed name. */
    | Exact(text: string, kind: Kind)
      /** "?__GCSTATICS@" statics, with or without pre-initialised data. */
    | GCStatics(marker: string)
    | NonGCStatics(marker: string)
      /** A generic composition with an optional variance suffix. */
    | GenericInstance(marker: string)
      /** Label contains `separator` anywhere. */
    | ShadowConcrete(separator: string)
    | CustomAttribute(marker: string)
    | DispatchCell(marker: string)
      /** Label starts with `prefix` and ends with `suffix`. */
    | MethodTable(prefix: string, suffix: string)
      /** Label ends with `suffix`. */
    | Constructed(suffix: string)

  /** Shared heads of the longer markers. */
  const NativeLayoutPrefix := "NativeLayout"
  const WrappedMethodEntryPrefix := "WrappedMethodEntryVertexNode"

  /** The cascade of `ParseNode`, in source order (DgmlGraphProcessing.cs lines in comments). */
  const Rules: seq<Rule> :=
    RuleBlock0 + RuleBlock1 + RuleBlock2 + RuleBlock3 + RuleBlock4 + RuleBlock5 + RuleBlock6 + RuleBlock7

  /** Rules 0 to 7 (from DgmlGraphProcessing.cs:56 on). */
  const RuleBlock0: seq<Rule> := [
    Prefix("Region ", RegionNode), //  0: 56
    Prefix("Reflectable module: ", ModuleMetadataNode), //  1: 62
    Prefix("Reflectable method: ", ReflectedMethodNode), //  2: 68
    Prefix("Reflectable field: ", ReflectedFieldNode), //  3: 74
    Prefix("Reflectable type: ", ReflectedTypeNode), //  4: 80
    Prefix("__vtable_", VTableSliceNode), //  5: 86
    MangledPrefix("__SealedVTable_", SealedVTableNode), //  6: 92
    Prefix("__GenericDict_", GenericDictionaryNode) //  7: 100
  ]

  /** Rules 8 to 15 (from DgmlGraphProcessing.cs:106 on). */
  const RuleBlock1: seq<Rule> := [
    Prefix("Dictionary layout for ", DictionaryLayoutNode), //  8: 106
    Prefix("__InterfaceDispatchMap_", InterfaceDispatchMapNode), //  9: 112
    Prefix("Field metadata: ", FieldMetadataNode), // 10: 118
    Prefix("__writableData", WritableDataNode), // 11: 124
    MangledPrefix("__optionalfields_", EETypeOptionalFieldsNode), // 12: 130
    Prefix("Method metadata: ", MethodMetadataNode), // 13: 138
    Prefix("Embedded pointer to ", SimpleEmbeddedPointerIndirectionNode), // 14: 144
    Prefix("VirtualMethodUse ", VirtualMethodUseNode) // 15: 150
  ]

  /** Rules 16 to 23 (from DgmlGraphProcessing.cs:156 on). */
  const RuleBlock2: seq<Rule> := [
    Prefix("__GCStaticEEType_", GCStaticEETypeNode), // 16: 156
    Prefix("Tentative instance method: ", TentativeInstanceMethodNode), // 17: 162
    Prefix("NativeLayoutTemplateTypeLayoutVertexNode_", NativeLayoutTemplateMethodLayoutVertexNode), // 18: 168
    Prefix("NativeLayoutTypeSignatureVertexNode: ", NativeLayoutTypeSignatureVertexNode), // 19: 174
    Prefix("NativeLayoutMethodNameAndSignatureVertexNode", NativeLayoutMethodNameAndSignatureVertexNode), // 20: 180
    Prefix("NativeLayoutMethodSignatureVertexNode ", NativeLayoutMethodSignatureVertexNode), // 21: 186
    Prefix("__FrozenObj_", FrozenObjectNode), // 22: 192
    Prefix("__fatpointer_", FatFunctionPointerNode(false)) // 23: 198
  ]

  /** Rules 24 to 31 (from DgmlGraphProcessing.cs:204 on). */
  const RuleBlock3: seq<Rule> := [
    Prefix("__fatunboxpointer_", FatFunctionPointerNode(true)), // 24: 204
    Prefix("__RuntimeMethodHandle_", RuntimeMethodHandleNode), // 25: 210
    Prefix("__TypeGVMEntriesNode_", TypeGVMEntriesNode), // 26: 216
    GCStatics("?__GCSTATICS@"), // 27: 222
    NonGCStatics("?__NONGCSTATICS@"), // 28: 232
    Prefix(NativeLayoutPrefix + "TemplateMethodSignatureVertexNode_", NativeLayoutTemplateMethodSignatureVertexNode), // 29: 238
    Prefix("NativeLayoutMethodLdTokenVertexNode_", NativeLayoutMethodLdTokenVertexNode), // 30: 244
    Prefix("NativeLayoutFieldLdTokenVertexNode_", NativeLayoutFieldLdTokenVertexNode) // 31: 250
  ]

  /** Rules 32 to 39 (from DgmlGraphProcessing.cs:256 on). */
  const RuleBlock4: seq<Rule> := [
    Prefix("NativeLayoutISymbolNodeReferenceVertexNode ", NativeLayoutExternalReferenceVertexNode), // 32: 256
    Exact("NativeLayoutPlacedVertexSequenceVertexNode", NativeLayoutPlacedVertexSequenceOfUIntVertexNode), // 33: 262
    Prefix("Dictionary layout signature for ", NativeLayoutDictionarySignatureNode), // 34: 267
    Prefix(NativeLayoutPrefix + "TypeHandleGenericDictionarySlotNode_", NativeLayoutTypeHandleGenericDictionarySlotNode), // 35: 273
    Prefix(NativeLayoutPrefix + "UnwrapNullableGenericDictionarySlotNode_", NativeLayoutUnwrapNullableGenericDictionarySlotNode), // 36: 279
    Prefix(NativeLayoutPrefix + "AllocateObjectGenericDictionarySlotNode_", NativeLayoutAllocateObjectGenericDictionarySlotNode), // 37: 285
    Prefix(NativeLayoutPrefix + "ThreadStaticBaseIndexDictionarySlotNode_", NativeLayoutThreadStaticBaseIndexDictionarySlotNode), // 38: 291
    Prefix(NativeLayoutPrefix + "DefaultConstructorGenericDictionarySlotNode_", NativeLayoutDefaultConstructorGenericDictionarySlotNode) // 39: 297
  ]

  /** Rules 40 to 47 (from DgmlGraphProcessing.cs:303 on). */
  const RuleBlock5: seq<Rule> := [
    Prefix(NativeLayoutPrefix + "GcStaticsGenericDictionarySlotNode_", NativeLayoutGcStaticsGenericDictionarySlotNode), // 40: 303
    Prefix(NativeLayoutPrefix + "NonGcStaticsGenericDictionarySlotNode_", NativeLayoutNonGcStaticsGenericDictionarySlotNode), // 41: 309
    Prefix(NativeLayoutPrefix + "InterfaceDispatchGenericDictionarySlotNode_", NativeLayoutInterfaceDispatchGenericDictionarySlotNode), // 42: 315
    Prefix(NativeLayoutPrefix + "MethodDictionaryGenericDictionarySlotNode_", NativeLayoutMethodDictionaryGenericDictionarySlotNode), // 43: 321
    Prefix(WrappedMethodEntryPrefix + "ForDictionarySlot_", WrappedMethodDictionaryVertexNode), // 44: 327
    Prefix(NativeLayoutPrefix + "FieldLdTokenGenericDictionarySlotNode_", NativeLayoutFieldLdTokenGenericDictionarySlotNode), // 45: 333
    Prefix(NativeLayoutPrefix + "MethodLdTokenGenericDictionarySlotNode_", NativeLayoutMethodLdTokenGenericDictionarySlotNode), // 46: 339
    Prefix(NativeLayoutPrefix + "ConstrainedMethodDictionarySlotNode_", NativeLayoutConstrainedMethodDictionarySlotNode) // 47: 345
  ]

  /** Rules 48 to 55 (from DgmlGraphProcessing.cs:352 on). */
  const RuleBlock6: seq<Rule> := [
    Prefix(NativeLayoutPrefix + "MethodEntrypointGenericDictionarySlotNode_", NativeLayoutMethodEntrypointGenericDictionarySlotNode), // 48: 352
    Prefix(WrappedMethodEntryPrefix + "ForDictionarySlot_", WrappedMethodEntryVertexNode), // 49: 358
    Exact("NativeLayoutNotSupportedDictionarySlotNode", NativeLayoutNotSupportedDictionarySlotNode), // 50: 365
    Prefix("__GVMDependenciesNode_", GVMDependenciesNode), // 51: 370
    Prefix("VariantInterfaceMethodUse ", VariantInterfaceMethodUseNode), // 52: 376
    Prefix("Dataflow analysis for ", DataflowAnalyzedMethodNode), // 53: 382
    Prefix("__GenericLookupFromDict_", ReadyToRunGenericHelperNode), // 54: 388
    GenericInstance(GenericInstanceMarker) // 55: 394
  ]

  /** Rules 56 to 61 (from DgmlGraphProcessing.cs:407 on). */
  const RuleBlock7: seq<Rule> := [
    ShadowConcrete(ShadowConcreteSeparator), // 56: 407
    CustomAttribute(CustomAttributeMarker), // 57: 414
    DispatchCell(DispatchCellMarker), // 58: 421
    MethodTable(MethodTablePrefix, MethodTableSuffix), // 59: 429
    Constructed(ConstructedSuffix), // 60: 436
    Exact("NativeLayoutPlacedSignatureVertexNode", NativeLayoutPlacedSignatureVertexNode) // 61: 442
  ]

  const WrappedMethodDictionaryRule: nat := 44
  const WrappedMethodEntryRule: nat := 49
  const GenericInstanceRule: nat := 55
  const ShadowConcreteRule: nat := 56
  const CustomAttributeRule: nat := 57
  const DispatchCellRule: nat := 58
  const MethodTableRule: nat := 59
  const ConstructedRule: nat := 60

  /** Does the test of `rule` fire on `label`? */
  predicate Matches(rule: Rule, nodeLabel: string) {
    match rule
    case Prefix(m, _) => StartsWith(nodeLabel, m)
    case MangledPrefix(m, _) => StartsWith(nodeLabel, m)
    case Exact(text, _) => nodeLabel == text
    case GCStatics(m) => StartsWith(nodeLabel, m)
    case NonGCStatics(m) => StartsWith(nodeLabel, m)
    case GenericInstance(m) => StartsWith(nodeLabel, m)
    case ShadowConcrete(sep) => |sep| > 0 && Contains(nodeLabel, sep)
    case CustomAttribute(m) => StartsWith(nodeLabel, m)
    case DispatchCell(m) => StartsWith(nodeLabel, m)
    case MethodTable(p, s) => StartsWith(nodeLabel, p) && EndsWith(nodeLabel, s)
    case Constructed(s) => EndsWith(nodeLabel, s)
  }

  /** The shape constraints the table respects: named kinds are neither payload-free nor
      type nodes, exact rules build payload-free kinds, and the method-table rule tests the
      prefix and suffix that `ParseMangledName` cuts off. */
  predicate RuleOk(rule: Rule) {
    match rule
    case Prefix(_, k) => FixedName(k).None? && !k.TypeNode?
    case MangledPrefix(_, k) => FixedName(k).None? && !k.TypeNode?
    case Exact(_, k) => FixedName(k).Some?
    case MethodTable(p, s) => p == MethodTablePrefix && s == MethodTableSuffix
    case _ => true
  }

  lemma RulesOk()
    ensures forall i :: 0 <= i < |Rules| ==> RuleOk(Rules[i])
  {
    RuleBlock0Ok(); RuleBlock1Ok(); RuleBlock2Ok(); RuleBlock3Ok(); RuleBlock4Ok(); RuleBlock5Ok(); RuleBlock6Ok(); RuleBlock7Ok();
    assert forall r :: r in Rules ==> RuleOk(r);
  }

  lemma RuleBlock0Ok()
    ensures forall r :: r in RuleBlock0 ==> RuleOk(r)
  {
  }

  lemma RuleBlock1Ok()
    ensures forall r :: r in RuleBlock1 ==> RuleOk(r)
  {
  }

  lemma RuleBlock2Ok()
    ensures forall r :: r in RuleBlock2 ==> RuleOk(r)
  {
  }

  lemma RuleBlock3Ok()
    ensures forall r :: r in RuleBlock3 ==> RuleOk(r)
  {
  }

  lemma RuleBlock4Ok()
    ensures forall r :: r in RuleBlock4 ==> RuleOk(r)
  {
  }

  lemma RuleBlock5Ok()
    ensures forall r :: r in RuleBlock5 ==> RuleOk(r)
  {
  }

  lemma RuleBlock6Ok()
    ensures forall r :: r in RuleBlock6 ==> RuleOk(r)
  {
  }

  lemma RuleBlock7Ok()
    ensures forall r :: r in RuleBlock7 ==> RuleOk(r)
  {
  }


  /** The index of the first rule of `rules` at or after `from` that fires, or `|rules|` if
      none does. */
  function FirstMatch(rules: seq<Rule>, nodeLabel: string, from: nat): (i: nat)
    requires from <= |rules|
    ensures from <= i <= |rules|
    ensures i < |rules| ==> Matches(rules[i], nodeLabel)
    ensures forall j :: from <= j < i ==> !Matches(rules[j], nodeLabel)
    decreases |rules| - from
  {
    if from == |rules| then from
    else if Matches(rules[from], nodeLabel) then from
    else FirstMatch(rules, nodeLabel, from + 1)
  }

  const MethodTablePrefix := "??_7"
  const MethodTableSuffix := "@@6B@"

  /** The method-table prefix and suffix cannot overlap: no character of "??_7" could also
      be one of "@@6B@". So a label with both has at least 9 characters and the
      `Substring(4, len - 9)` of `ParseMangledName` cannot throw on it. */
  lemma MethodTableLabelLongEnough(nodeLabel: string)
    requires StartsWith(nodeLabel, MethodTablePrefix) && EndsWith(nodeLabel, MethodTableSuffix)
    ensures |nodeLabel| >= 9
  {
    StartsWithChars(nodeLabel, MethodTablePrefix);
    EndsWithChars(nodeLabel, MethodTableSuffix);
    assert nodeLabel[3] == '7';
    assert forall j :: |nodeLabel| - 5 <= j < |nodeLabel| ==> nodeLabel[j] != '7' by {
      forall j | |nodeLabel| - 5 <= j < |nodeLabel|
        ensures nodeLabel[j] != '7'
      {
        assert nodeLabel[j] == MethodTableSuffix[j - (|nodeLabel| - 5)];
      }
    }
  }

  /** The result of `ParseMangledName`. */
  datatype Mangled = Mangled(unmangledName: string, isBoxedValueType: bool, unboxingThunk: bool)

  const BoxedMarker := "Boxed_"
  const UnboxingMarker := "unbox_"

  /** The marker that `ParseMangledName` strips for the flags it reports. */
  function FlagMarker(m: Mangled): string {
    if m.isBoxedValueType then BoxedMarker else if m.unboxingThunk then UnboxingMarker else ""
  }

  /** `ParseMangledName` (DgmlGraphProcessing.cs:450-462): drops the first 4 and the last 5
      characters, whatever they are, then a leading "Boxed_" or "unbox_" marker, which sets
      the matching flag. Fewer than 9 characters make `Substring` throw. */
  function ParseMangledName(s: string): (r: Result<Mangled, ParseError>)
    ensures r.Success? <==> |s| >= 9
    ensures r.Failure? ==> r.error == MangledNameTooShort(s)
    ensures r.Success? ==> !(r.value.isBoxedValueType && r.value.unboxingThunk)
    ensures r.Success? ==> s[4..|s| - 5] == FlagMarker(r.value) + r.value.unmangledName
    ensures r.Success? ==> (r.value.isBoxedValueType <==> StartsWith(s[4..|s| - 5], BoxedMarker))
    ensures r.Success? ==>
      (r.value.unboxingThunk <==> !StartsWith(s[4..|s| - 5], BoxedMarker) && StartsWith(s[4..|s| - 5], UnboxingMarker))
  {
    if |s| < 9 then Failure(MangledNameTooShort(s))
    else
      var inner := s[4..|s| - 5];
      if StartsWith(inner, BoxedMarker) then
        assert inner == BoxedMarker + inner[|BoxedMarker|..];
        Success(Mangled(inner[|BoxedMarker|..], true, false))
      else if StartsWith(inner, UnboxingMarker) then
        assert inner == UnboxingMarker + inner[|UnboxingMarker|..];
        Success(Mangled(inner[|UnboxingMarker|..], false, true))
      else Success(Mangled(inner, false, false))
  }

  /** `parts[1].Split('_', RemoveEmptyEntries).Select(int.Parse).ToArray()`: the pieces are
      parsed in order and the first that is not a 32-bit integer throws. */
  function ParseVariance(pieces: seq<string>): (r: Result<seq<int>, ParseError>)
    ensures r.Success? <==> forall k :: 0 <= k < |pieces| ==> ParseInt32(pieces[k]).Some?
    ensures r.Success? ==> |r.value| == |pieces|
    ensures r.Success? ==> forall k :: 0 <= k < |pieces| ==> ParseInt32(pieces[k]) == Some(r.value[k])
    ensures r.Failure? ==> r.error.BadVariance? && r.error.piece in pieces && ParseInt32(r.error.piece).None?
    ensures r.Failure? ==> exists i :: FirstBadPiece(pieces, i) && pieces[i] == r.error.piece
  {
    if |pieces| == 0 then Success([])
    else
      match ParseInt32(pieces[0])
      case None =>
        assert FirstBadPiece(pieces, 0);
        Failure(BadVariance(pieces[0]))
      case Some(v) =>
        var rest := ParseVariance(pieces[1..]);
        AllPiecesParse(pieces);
        if rest.Failure? then
          FirstBadPieceShifts(pieces, rest.error.piece);
          Failure(rest.error)
        else
          PiecesParseTo(ParseInt32, pieces, v, rest.value);
          Success([v] + rest.value)
  }

  /** Parsing the head to `v` and the tail to `vs` parses the whole to `[v] + vs`. */
  lemma PiecesParseTo(parse: string -> Option<int>, pieces: seq<string>, v: int, vs: seq<int>)
    requires |pieces| > 0 && parse(pieces[0]) == Some(v) && |vs| == |pieces| - 1
    requires forall k :: 0 <= k < |pieces[1..]| ==> parse(pieces[1..][k]) == Some(vs[k])
    ensures forall k :: 0 <= k < |pieces| ==> parse(pieces[k]) == Some(([v] + vs)[k])
  {
    forall k | 0 <= k < |pieces|
      ensures parse(pieces[k]) == Some(([v] + vs)[k])
    {
      if k == 0 {
        assert ([v] + vs)[0] == v;
      } else {
        assert pieces[k] == pieces[1..][k - 1];
        assert ([v] + vs)[k] == vs[k - 1];
      }
    }
  }

  lemma AllPiecesParse(pieces: seq<string>)
    requires |pieces| > 0
    ensures (forall k :: 0 <= k < |pieces| ==> ParseInt32(pieces[k]).Some?)
            <==> ParseInt32(pieces[0]).Some? && forall k :: 0 <= k < |pieces[1..]| ==> ParseInt32(pieces[1..][k]).Some?
  {
    if ParseInt32(pieces[0]).Some? && forall k :: 0 <= k < |pieces[1..]| ==> ParseInt32(pieces[1..][k]).Some? {
      forall k | 0 <= k < |pieces|
        ensures ParseInt32(pieces[k]).Some?
      {
        if k > 0 { assert pieces[k] == pieces[1..][k - 1]; }
      }
    }
  }

  /** `pieces[i]` is the first piece that is not a 32-bit integer. */
  predicate FirstBadPiece(pieces: seq<string>, i: int)
  {
    0 <= i < |pieces| && ParseInt32(pieces[i]).None?
    && forall k :: 0 <= k < i ==> ParseInt32(pieces[k]).Some?
  }

  /** The first bad piece after a first piece that parses is the first bad piece of all. */
  lemma FirstBadPieceShifts(pieces: seq<string>, piece: string)
    requires |pieces| > 0 && ParseInt32(pieces[0]).Some?
    requires exists i :: FirstBadPiece(pieces[1..], i) && pieces[1..][i] == piece
    ensures exists i :: FirstBadPiece(pieces, i) && pieces[i] == piece
  {
    var i :| FirstBadPiece(pieces[1..], i) && pieces[1..][i] == piece;
    forall k | 0 <= k < i + 1
      ensures ParseInt32(pieces[k]).Some?
    {
      if k > 0 { assert pieces[k] == pieces[1..][k - 1]; }
    }
    assert FirstBadPiece(pieces, i + 1);
  }

  /** `s.Split(sep)[0]` and `s.Split(sep)[1]` when `sep` occurs: the text before the first
      occurrence and the text between the first and the second (or the end). */
  function FirstTwoPieces(s: string, sep: string): (pair: (string, string))
    requires |sep| > 0 && Contains(s, sep)
    ensures !Contains(pair.0, sep) && !Contains(pair.1, sep)
    ensures StartsWith(s, pair.0 + sep + pair.1)
    ensures s == pair.0 + sep + pair.1 || OccursAt(s, sep, |pair.0 + sep + pair.1|)
  {
    var parts := Split(s, sep);
    SplitFirstTwo(s, sep);
    (parts[0], parts[1])
  }

  /** When the first `sep` of `a + sep + b` is the one after `a` and `b` holds none, the
      first two pieces are `a` and `b`. */
  lemma FirstTwoPiecesOf(a: string, sep: string, b: string)
    requires |sep| > 0 && IndexOf(a + sep + b, sep) == |a| && !Contains(b, sep)
    ensures Contains(a + sep + b, sep)
    ensures FirstTwoPieces(a + sep + b, sep) == (a, b)
  {
    var s := a + sep + b;
    assert s[..|a|] == a;
    assert s[|a| + |sep|..] == b;
    assert Before(b, sep) == b;
  }

  const GenericInstanceMarker := "__GenericInstance"
  const VarianceSeparator := "__Variance__"
  const ShadowConcreteSeparator := " backed by "
  const CustomAttributeMarker := "Reflectable custom attribute "
  const ConstructedSuffix := " constructed"
  const AssemblySeparator := " in "
  const DispatchCellMarker := "__InterfaceDispatchCell_"
  const GenericDictSeparator := "___GenericDict_"
  const PreInitDataSuffix := "@@__PreInitData"

  /** The payload of a generic composition (DgmlGraphProcessing.cs:396-404), given the text
      after "__GenericInstance": its first character is dropped unchecked, the name runs up
      to the first "__Variance__", and the variances are the underscore-separated integers
      that follow it, up to the next separator. */
  function ParseGenericComposition(rest: string): (r: Result<(string, seq<int>), ParseError>)
    ensures r.Failure? ==> (r.error == EmptyGenericInstance <==> |rest| == 0)
    ensures r.Failure? && |rest| > 0 ==> r.error.BadVariance? && Contains(rest[1..], VarianceSeparator)
    ensures |rest| > 0 && !Contains(rest[1..], VarianceSeparator) ==> r == Success((rest[1..], []))
    ensures r.Success? && |rest| > 0 && Contains(rest[1..], VarianceSeparator) ==>
      (!Contains(r.value.0, VarianceSeparator) && StartsWith(rest[1..], r.value.0 + VarianceSeparator))
  {
    if |rest| == 0 then Failure(EmptyGenericInstance)
    else
      var body := rest[1..];
      if !Contains(body, VarianceSeparator) then Success((body, []))
      else
        var pair := FirstTwoPieces(body, VarianceSeparator);
        var variance :- ParseVariance(SplitNonEmpty(pair.1, '_'));
        assert (pair.0 + VarianceSeparator + pair.1)[..|pair.0 + VarianceSeparator|] == pair.0 + VarianceSeparator;
        Success((pair.0, variance))
  }

  /** With a variance separator, the generic composition is the first piece and the
      variances parsed from the second. */
  lemma GenericCompositionOf(rest: string, name: string, list: string, variance: seq<int>)
    requires |rest| > 0 && Contains(rest[1..], VarianceSeparator)
    requires FirstTwoPieces(rest[1..], VarianceSeparator) == (name, list)
    requires ParseVariance(SplitNonEmpty(list, '_')) == Success(variance)
    ensures ParseGenericComposition(rest) == Success((name, variance))
  {
  }

  /** The payload of a custom attribute (DgmlGraphProcessing.cs:416-418), given the text after
      its marker: the attribute up to the first " in ", then the assembly up to the next one.
      Without " in " the C# code indexes past the end of the split. */
  function ParseCustomAttribute(rest: string): (r: Result<(string, string), ParseError>)
    ensures r.Success? <==> Contains(rest, AssemblySeparator)
    ensures r.Failure? ==> r.error == MissingAssemblyName(rest)
    ensures r.Success? ==> !Contains(r.value.0, AssemblySeparator) && !Contains(r.value.1, AssemblySeparator)
    ensures r.Success? ==> StartsWith(rest, r.value.0 + AssemblySeparator + r.value.1)
    ensures r.Success? ==> rest == r.value.0 + AssemblySeparator + r.value.1
                           || OccursAt(rest, AssemblySeparator, |r.value.0 + AssemblySeparator + r.value.1|)
  {
    if Contains(rest, AssemblySeparator) then Success(FirstTwoPieces(rest, AssemblySeparator))
    else Failure(MissingAssemblyName(rest))
  }

  /** The payload of an interface dispatch cell (DgmlGraphProcessing.cs:423-426): the name up
      to the first "___GenericDict_" and, if that occurs, the call site after it. */
  function ParseDispatchCell(rest: string): (r: (string, Option<string>))
    ensures r.1.None? <==> !Contains(rest, GenericDictSeparator)
    ensures r.1.None? ==> r.0 == rest
    ensures r.1.Some? ==> !Contains(r.0, GenericDictSeparator)
    ensures r.1.Some? ==> !Contains(r.1.value, GenericDictSeparator)
    ensures r.1.Some? ==> StartsWith(rest, r.0 + GenericDictSeparator + r.1.value)
    ensures r.1.Some? ==> rest == r.0 + GenericDictSeparator + r.1.value
                          || OccursAt(rest, GenericDictSeparator, |r.0 + GenericDictSeparator + r.1.value|)
  {
    if Contains(rest, GenericDictSeparator) then
      var (name, site) := FirstTwoPieces(rest, GenericDictSeparator);
      (name, Some(site))
    else
      assert Split(rest, GenericDictSeparator) == [rest];
      (rest, None)
  }

  /** The statics of a type (DgmlGraphProcessing.cs:222-230), given the text after
      "?__GCSTATICS@": pre-initialised data when it ends with "@@__PreInitData" (which is
      cut off), otherwise plain statics named without their trailing '@'s. */
  function ParseGCStatics(leftover: string): (r: (string, Kind))
    ensures r.1 == GCStaticsPreInitDataNode || r.1 == GCStaticsNode
    ensures r.1 == GCStaticsPreInitDataNode <==> EndsWith(leftover, PreInitDataSuffix)
    ensures r.1 == GCStaticsPreInitDataNode ==> r.0 + PreInitDataSuffix == leftover
    ensures r.1 == GCStaticsNode ==> r.0 == TrimEnd(leftover, '@')
  {
    if EndsWith(leftover, PreInitDataSuffix) then
      var name := leftover[..|leftover| - |PreInitDataSuffix|];
      assert name + PreInitDataSuffix == leftover;
      (name, GCStaticsPreInitDataNode)
    else (TrimEnd(leftover, '@'), GCStaticsNode)
  }

  /** Rules whose kind is fixed by the table entry; the others decide the kind, or a payload,
      from the label. */
  predicate IsNamingRule(rule: Rule) {
    rule.Prefix? || rule.MangledPrefix? || rule.Exact?
  }

  /** The kinds that rules with a payload build. */
  predicate IsPayloadKind(k: Kind) {
    || k.GCStaticsNode? || k.GCStaticsPreInitDataNode? || k.NonGCStaticsNode?
    || k.GenericCompositionNode? || k.ShadowConcreteMethodNode? || k.CustomAttributeMetadataNode?
    || k.InterfaceDispatchCellNode? || k.MethodTableNode? || k.ConstructedEETypeNode?
  }

  /** The node a naming rule builds: the rule's kind, named by the rest of the label. */
  function ApplyNaming(rule: Rule, id: int, nodeLabel: string): (r: Result<Node, ParseError>)
    requires IsNamingRule(rule) && Matches(rule, nodeLabel) && RuleOk(rule)
    ensures r.Success? ==> r.value.index == id && r.value.kind == rule.kind && WellFormed(r.value)
    ensures r.Failure? ==> rule.MangledPrefix?
  {
    match rule
    case Prefix(m, k) => Success(Node(id, nodeLabel[|m|..], k))
    case MangledPrefix(m, k) =>
      var parsed :- ParseMangledName(nodeLabel[|m|..]);
      Success(Node(id, parsed.unmangledName, k))
    case Exact(_, k) => Success(MakeFixedNode(id, k))
  }

  /** The node a rule with a payload builds. */
  function ApplyPayload(rule: Rule, id: int, nodeLabel: string): (r: Result<Node, ParseError>)
    requires !IsNamingRule(rule) && Matches(rule, nodeLabel) && RuleOk(rule)
    ensures r.Success? ==> r.value.index == id && IsPayloadKind(r.value.kind)
    ensures r.Failure? ==> rule.GenericInstance? || rule.CustomAttribute?
  {
    match rule
    case GCStatics(m) =>
      var (name, k) := ParseGCStatics(nodeLabel[|m|..]);
      Success(Node(id, name, k))
    case NonGCStatics(m) => Success(Node(id, TrimEnd(nodeLabel[|m|..], '@'), NonGCStaticsNode))
    case GenericInstance(m) =>
      var (name, variance) :- ParseGenericComposition(nodeLabel[|m|..]);
      Success(Node(id, name, GenericCompositionNode(variance)))
    case ShadowConcrete(sep) =>
      var (name, canonical) := FirstTwoPieces(nodeLabel, sep);
      Success(Node(id, name, ShadowConcreteMethodNode(canonical)))
    case CustomAttribute(m) =>
      var (name, assembly) :- ParseCustomAttribute(nodeLabel[|m|..]);
      Success(Node(id, name, CustomAttributeMetadataNode(assembly)))
    case DispatchCell(m) =>
      var (name, site) := ParseDispatchCell(nodeLabel[|m|..]);
      Success(Node(id, name, InterfaceDispatchCellNode(site)))
    case MethodTable(_, _) =>
      MethodTableLabelLongEnough(nodeLabel);
      var parsed := ParseMangledName(nodeLabel).value;
      Success(Node(id, parsed.unmangledName, MethodTableNode(parsed.isBoxedValueType)))
    case Constructed(suffix) => Success(Node(id, nodeLabel[..|nodeLabel| - |suffix|], ConstructedEETypeNode))
  }

  /** The node that `rule` builds from a label it matches. */
  function Apply(rule: Rule, id: int, nodeLabel: string): (r: Result<Node, ParseError>)
    requires Matches(rule, nodeLabel) && RuleOk(rule)
    ensures r.Success? ==> r.value.index == id && WellFormed(r.value) && !r.value.kind.TypeNode?
    ensures r.Success? && IsNamingRule(rule) ==> r.value.kind == rule.kind
    ensures r.Success? && !IsNamingRule(rule) ==> IsPayloadKind(r.value.kind)
    ensures r.Failure? ==> rule.MangledPrefix? || rule.GenericInstance? || rule.CustomAttribute?
  {
    if IsNamingRule(rule) then ApplyNaming(rule, id, nodeLabel) else ApplyPayload(rule, id, nodeLabel)
  }

  /** A cascade over any well-formed table: the first rule that fires builds the node, and
      a label that no rule recognises becomes a plain node named by the whole label. */
  function Classify(rules: seq<Rule>, id: int, nodeLabel: string): (r: Result<Node, ParseError>)
    requires forall i :: 0 <= i < |rules| ==> RuleOk(rules[i])
    ensures r.Success? ==> r.value.index == id && WellFormed(r.value) && !r.value.kind.TypeNode?
    ensures FirstMatch(rules, nodeLabel, 0) == |rules| ==> r == Success(Node(id, nodeLabel, PlainNode))
    ensures r.Success? && r.value.kind.WrappedMethodEntryVertexNode? ==>
      var i := FirstMatch(rules, nodeLabel, 0);
      i < |rules| && IsNamingRule(rules[i]) && rules[i].kind == WrappedMethodEntryVertexNode
    ensures r.Failure? ==>
      var i := FirstMatch(rules, nodeLabel, 0);
      i < |rules| && (rules[i].MangledPrefix? || rules[i].GenericInstance? || rules[i].CustomAttribute?)
  {
    var i := FirstMatch(rules, nodeLabel, 0);
    if i == |rules| then Success(Node(id, nodeLabel, PlainNode)) else Apply(rules[i], id, nodeLabel)
  }

  /** `DgmlGraphProcessing.ParseNode(id, label)` (DgmlGraphProcessing.cs:54-448): the cascade
      of `Rules`. No label becomes a `WrappedMethodEntryVertexNode`, and only the
      mangled-name, generic-composition and custom-attribute branches can throw. */
  function ParseNode(id: int, nodeLabel: string): (r: Result<Node, ParseError>)
    ensures r.Success? ==> r.value.index == id && WellFormed(r.value)
    ensures r.Success? ==> !r.value.kind.TypeNode? && !r.value.kind.WrappedMethodEntryVertexNode?
    ensures FirstMatch(Rules, nodeLabel, 0) == |Rules| ==> r == Success(Node(id, nodeLabel, PlainNode))
    ensures r.Failure? ==>
      var i := FirstMatch(Rules, nodeLabel, 0);
      i < |Rules| && (Rules[i].MangledPrefix? || Rules[i].GenericInstance? || Rules[i].CustomAttribute?)
  {
    RulesOk();
    WrappedMethodEntryRuleIsDead(nodeLabel);
    OnlyRuleBuildingWrappedMethodEntry();
    Classify(Rules, id, nodeLabel)
  }

  /** The entries of the table that the payload facts are about. */
  lemma PayloadRulesAt()
    ensures Rules[GenericInstanceRule] == GenericInstance(GenericInstanceMarker)
    ensures Rules[ShadowConcreteRule] == ShadowConcrete(ShadowConcreteSeparator)
    ensures Rules[CustomAttributeRule] == CustomAttribute(CustomAttributeMarker)
    ensures Rules[MethodTableRule] == MethodTable(MethodTablePrefix, MethodTableSuffix)
    ensures Rules[ConstructedRule] == Constructed(ConstructedSuffix)
  {
  }

  /** The dispatch-cell entry of the table. */
  lemma DispatchCellRuleAt()
    ensures Rules[DispatchCellRule] == DispatchCell(DispatchCellMarker)
  {
  }

  /** The node of a recognised label is the one its first matching rule builds. */
  lemma ParseNodeUsesFirstMatch(id: int, nodeLabel: string)
    requires FirstMatch(Rules, nodeLabel, 0) < |Rules|
    ensures RuleOk(Rules[FirstMatch(Rules, nodeLabel, 0)])
    ensures ParseNode(id, nodeLabel) == Apply(Rules[FirstMatch(Rules, nodeLabel, 0)], id, nodeLabel)
  {
    RulesOk();
  }

  // ---------------------------------------------------------------------------
  // Properties of the cascade
  // ---------------------------------------------------------------------------

  /** Rule 49 (line 358) tests the same marker as rule 44 (line 327), which comes first, so
      it never fires. */
  lemma WrappedMethodEntryRuleIsDead(nodeLabel: string)
    ensures FirstMatch(Rules, nodeLabel, 0) != WrappedMethodEntryRule
  {
    assert Rules[WrappedMethodDictionaryRule].marker == Rules[WrappedMethodEntryRule].marker;
    assert Matches(Rules[WrappedMethodEntryRule], nodeLabel) ==> Matches(Rules[WrappedMethodDictionaryRule], nodeLabel);
  }

  /** The only table entry that names `WrappedMethodEntryVertexNode` is rule 49. */
  lemma OnlyRuleBuildingWrappedMethodEntry()
    ensures forall i :: 0 <= i < |Rules| && IsNamingRule(Rules[i]) && Rules[i].kind == WrappedMethodEntryVertexNode ==>
      i == WrappedMethodEntryRule
  {
  }
}

/** Round trips and edge cases of the label classifier: for each family of rules, the label
    that a node came from is put back together from the node's name and payload, and the
    branches that throw are pinned to the labels that make them throw. */
module ClassifierFacts {
  import opened Wrappers
  import opened Strings
  import opened Nodes
  import opened Classifier

  /** A prefix rule names the node by what follows its marker, so marker and name give the
      label back. */
  lemma PrefixNodeNamesRestOfLabel(id: int, nodeLabel: string)
    requires FirstMatch(Rules, nodeLabel, 0) < |Rules| && Rules[FirstMatch(Rules, nodeLabel, 0)].Prefix?
    ensures var rule := Rules[FirstMatch(Rules, nodeLabel, 0)];
      && ParseNode(id, nodeLabel) == Success(Node(id, ParseNode(id, nodeLabel).value.name, rule.kind))
      && rule.marker + ParseNode(id, nodeLabel).value.name == nodeLabel
  {
    var rule := Rules[FirstMatch(Rules, nodeLabel, 0)];
    assert nodeLabel[..|rule.marker|] == rule.marker;
    assert nodeLabel == nodeLabel[..|rule.marker|] + nodeLabel[|rule.marker|..];
  }

  /** Conversely, marker plus name parses back to the node, when no earlier rule claims it. */
  lemma PrefixRuleRoundTrip(i: nat, id: int, name: string)
    requires i < |Rules| && Rules[i].Prefix?
    requires FirstMatch(Rules, Rules[i].marker + name, 0) == i
    ensures ParseNode(id, Rules[i].marker + name) == Success(Node(id, name, Rules[i].kind))
  {
    assert (Rules[i].marker + name)[|Rules[i].marker|..] == name;
  }

  /** "Region " comes first in the cascade, so every region label round-trips
      (ParseNodeTests.cs:7-14). */
  lemma RegionRoundTrip(id: int, name: string)
    ensures ParseNode(id, "Region " + name) == Success(Node(id, name, RegionNode))
  {
    assert Matches(Rules[0], "Region " + name) by {
      assert ("Region " + name)[..7] == "Region ";
    }
    PrefixRuleRoundTrip(0, id, name);
  }

  /** A constructed type's label is its name followed by " constructed"
      (ParseNodeTests.cs:24-32). */
  lemma ConstructedRoundTrip(id: int, name: string)
    requires FirstMatch(Rules, name + " constructed", 0) == ConstructedRule
    ensures ParseNode(id, name + " constructed") == Success(Node(id, name, ConstructedEETypeNode))
  {
    assert (name + " constructed")[..|name|] == name;
  }

  /** What the method-table rule builds from a label with the method-table prefix and
      suffix: it never throws, and the label is the prefix, the marker of the flag, the name
      and the suffix. */
  lemma ApplyMethodTable(id: int, nodeLabel: string)
    requires StartsWith(nodeLabel, MethodTablePrefix) && EndsWith(nodeLabel, MethodTableSuffix)
    ensures |nodeLabel| >= 9
    ensures var r, inner := Apply(MethodTable(MethodTablePrefix, MethodTableSuffix), id, nodeLabel), nodeLabel[4..|nodeLabel| - 5];
      && r.Success? && r.value.kind.MethodTableNode?
      && (r.value.kind.isBoxedValueType <==> StartsWith(inner, BoxedMarker))
      && nodeLabel == MethodTablePrefix
                      + (if StartsWith(inner, BoxedMarker) then BoxedMarker
                         else if StartsWith(inner, UnboxingMarker) then UnboxingMarker
                         else "")
                      + r.value.name + MethodTableSuffix
  {
    MethodTableLabelLongEnough(nodeLabel);
    var inner := nodeLabel[4..|nodeLabel| - 5];
    assert nodeLabel[..4] == MethodTablePrefix;
    assert nodeLabel[|nodeLabel| - 5..] == MethodTableSuffix;
    assert nodeLabel == nodeLabel[..4] + inner + nodeLabel[|nodeLabel| - 5..];
  }

  /** A label that reaches the method-table rule never throws (ParseNodeTests.cs:54-74). */
  lemma MethodTableParses(id: int, nodeLabel: string)
    requires FirstMatch(Rules, nodeLabel, 0) == MethodTableRule
    ensures ParseNode(id, nodeLabel).Success? && ParseNode(id, nodeLabel).value.kind.MethodTableNode?
  {
    ParseNodeUsesFirstMatch(id, nodeLabel);
    PayloadRulesAt();
    ApplyMethodTable(id, nodeLabel);
  }

  /** The unboxing flag that `ParseMangledName` reports is dropped: a method table with the
      "unbox_" marker and one without it give the same node. */
  lemma UnboxingMarkerIsDropped(id: int, name: string)
    requires !StartsWith(name, BoxedMarker) && !StartsWith(name, UnboxingMarker)
    requires FirstMatch(Rules, MethodTablePrefix + UnboxingMarker + name + MethodTableSuffix, 0) == MethodTableRule
    requires FirstMatch(Rules, MethodTablePrefix + name + MethodTableSuffix, 0) == MethodTableRule
    ensures ParseNode(id, MethodTablePrefix + UnboxingMarker + name + MethodTableSuffix)
         == ParseNode(id, MethodTablePrefix + name + MethodTableSuffix)
         == Success(Node(id, name, MethodTableNode(false)))
  {
    var withMarker := MethodTablePrefix + UnboxingMarker + name + MethodTableSuffix;
    var plain := MethodTablePrefix + name + MethodTableSuffix;
    assert withMarker[4..|withMarker| - 5] == UnboxingMarker + name;
    assert plain[4..|plain| - 5] == name;
    assert !StartsWith(UnboxingMarker + name, BoxedMarker) by {
      assert (UnboxingMarker + name)[0] != BoxedMarker[0];
    }
    assert (UnboxingMarker + name)[|UnboxingMarker|..] == name;
    assert (UnboxingMarker + name)[..|UnboxingMarker|] == UnboxingMarker;
  }

  /** A sealed vtable whose mangled name is shorter than 9 characters makes `Substring`
      throw. */
  lemma ShortSealedVTableFails(id: int, rest: string)
    requires |rest| < 9
    ensures ParseNode(id, "__SealedVTable_" + rest) == Failure(MangledNameTooShort(rest))
  {
    var l := "__SealedVTable_" + rest;
    assert l[..15] == "__SealedVTable_";
    assert l[15..] == rest;
    assert l[0] == '_' && l[1] == '_' && l[2] == 'S';
    FirstBlockAt();
    forall j | 0 <= j < 5
      ensures !Matches(Rules[j], l)
    {
      LeadExcludesMatch(Rules[j], l);
    }
    assert !Matches(Rules[5], l) by {
      if StartsWith(l, "__vtable_") { StartsWithChars(l, "__vtable_"); }
    }
    assert Matches(Rules[6], l);
    FirstMatchIs(Rules, l, 6);
    ParseNodeUsesFirstMatch(id, l);
  }

  /** The first block of the table sits at its head. */
  lemma FirstBlockAt()
    ensures forall j :: 0 <= j < |RuleBlock0| ==> Rules[j] == RuleBlock0[j]
  {
  }

  /** A shadow concrete method's label is its name, " backed by " and its canonical method,
      provided the first " backed by " is the one after the name. */
  lemma ShadowConcreteRoundTrip(id: int, name: string, canonical: string)
    requires IndexOf(name + ShadowConcreteSeparator + canonical, ShadowConcreteSeparator) == |name|
    requires !Contains(canonical, ShadowConcreteSeparator)
    requires FirstMatch(Rules, name + ShadowConcreteSeparator + canonical, 0) == ShadowConcreteRule
    ensures ParseNode(id, name + ShadowConcreteSeparator + canonical)
         == Success(Node(id, name, ShadowConcreteMethodNode(canonical)))
  {
    ParseNodeUsesFirstMatch(id, name + ShadowConcreteSeparator + canonical);
    PayloadRulesAt();
    FirstTwoPiecesOf(name, ShadowConcreteSeparator, canonical);
  }

  lemma ApplyCustomAttribute(id: int, name: string, assembly: string)
    requires IndexOf(name + AssemblySeparator + assembly, AssemblySeparator) == |name|
    requires !Contains(assembly, AssemblySeparator)
    requires Matches(CustomAttribute(CustomAttributeMarker), CustomAttributeMarker + name + AssemblySeparator + assembly)
    ensures Apply(CustomAttribute(CustomAttributeMarker), id, CustomAttributeMarker + name + AssemblySeparator + assembly)
         == Success(Node(id, name, CustomAttributeMetadataNode(assembly)))
  {
    var nodeLabel := CustomAttributeMarker + name + AssemblySeparator + assembly;
    assert nodeLabel[|CustomAttributeMarker|..] == name + AssemblySeparator + assembly;
    FirstTwoPiecesOf(name, AssemblySeparator, assembly);
  }

  /** A custom attribute's label is the marker, the attribute, " in " and the assembly
      (ParseNodeTests.cs:86-95), provided the first " in " is the one after the attribute. */
  lemma CustomAttributeRoundTrip(id: int, name: string, assembly: string)
    requires IndexOf(name + AssemblySeparator + assembly, AssemblySeparator) == |name|
    requires !Contains(assembly, AssemblySeparator)
    requires FirstMatch(Rules, CustomAttributeMarker + name + AssemblySeparator + assembly, 0) == CustomAttributeRule
    ensures ParseNode(id, CustomAttributeMarker + name + AssemblySeparator + assembly)
         == Success(Node(id, name, CustomAttributeMetadataNode(assembly)))
  {
    ParseNodeUsesFirstMatch(id, CustomAttributeMarker + name + AssemblySeparator + assembly);
    PayloadRulesAt();
    ApplyCustomAttribute(id, name, assembly);
  }

  /** A custom attribute without " in " makes the C# code index past the end of its split. */
  lemma CustomAttributeWithoutAssemblyFails(id: int, rest: string)
    requires !Contains(rest, AssemblySeparator)
    requires FirstMatch(Rules, CustomAttributeMarker + rest, 0) == CustomAttributeRule
    ensures ParseNode(id, CustomAttributeMarker + rest) == Failure(MissingAssemblyName(rest))
  {
    ParseNodeUsesFirstMatch(id, CustomAttributeMarker + rest);
    PayloadRulesAt();
    assert (CustomAttributeMarker + rest)[|CustomAttributeMarker|..] == rest;
  }

  /** An interface dispatch cell's payload is its name, "___GenericDict_" and its call site,
      provided the first separator is the one after the name and the call site holds none. */
  lemma DispatchCellRoundTrip(name: string, site: string)
    requires IndexOf(name + GenericDictSeparator + site, GenericDictSeparator) == |name|
    requires !Contains(site, GenericDictSeparator)
    ensures ParseDispatchCell(name + GenericDictSeparator + site) == (name, Some(site))
  {
    FirstTwoPiecesOf(name, GenericDictSeparator, site);
  }

  /** The same at the level of the whole label: the marker, the name, "___GenericDict_" and
      the call site give an interface dispatch cell with that call site. */
  lemma DispatchCellLabelRoundTrip(id: int, name: string, site: string)
    requires IndexOf(name + GenericDictSeparator + site, GenericDictSeparator) == |name|
    requires !Contains(site, GenericDictSeparator)
    requires FirstMatch(Rules, DispatchCellMarker + name + GenericDictSeparator + site, 0) == DispatchCellRule
    ensures ParseNode(id, DispatchCellMarker + name + GenericDictSeparator + site)
         == Success(Node(id, name, InterfaceDispatchCellNode(Some(site))))
  {
    ParseNodeUsesFirstMatch(id, DispatchCellMarker + name + GenericDictSeparator + site);
    DispatchCellRuleAt();
    ApplyDispatchCell(id, name, site);
  }

  /** The dispatch-cell builder recovers the name and the call site from their label. */
  lemma ApplyDispatchCell(id: int, name: string, site: string)
    requires IndexOf(name + GenericDictSeparator + site, GenericDictSeparator) == |name|
    requires !Contains(site, GenericDictSeparator)
    ensures Apply(DispatchCell(DispatchCellMarker), id, DispatchCellMarker + name + GenericDictSeparator + site)
         == Success(Node(id, name, InterfaceDispatchCellNode(Some(site))))
  {
    var nodeLabel := DispatchCellMarker + name + GenericDictSeparator + site;
    assert nodeLabel[|DispatchCellMarker|..] == name + GenericDictSeparator + site;
    DispatchCellRoundTrip(name, site);
  }

  /** A generic composition without "__Variance__" has no variances
      (ParseNodeTests.cs:168-177); the character after the marker is dropped whatever it is. */
  lemma GenericCompositionWithoutVariance(id: int, c: char, name: string)
    requires !Contains(name, VarianceSeparator)
    requires FirstMatch(Rules, GenericInstanceMarker + [c] + name, 0) == GenericInstanceRule
    ensures ParseNode(id, GenericInstanceMarker + [c] + name) == Success(Node(id, name, GenericCompositionNode([])))
  {
    ParseNodeUsesFirstMatch(id, GenericInstanceMarker + [c] + name);
    PayloadRulesAt();
    assert (GenericInstanceMarker + [c] + name)[|GenericInstanceMarker|..][1..] == name;
  }

  lemma ApplyGenericComposition(id: int, c: char, name: string, list: string, variance: seq<int>)
    requires IndexOf(name + VarianceSeparator + list, VarianceSeparator) == |name|
    requires !Contains(list, VarianceSeparator)
    requires ParseVariance(SplitNonEmpty(list, '_')) == Success(variance)
    requires Matches(GenericInstance(GenericInstanceMarker), GenericInstanceMarker + [c] + name + VarianceSeparator + list)
    ensures Apply(GenericInstance(GenericInstanceMarker), id, GenericInstanceMarker + [c] + name + VarianceSeparator + list)
         == Success(Node(id, name, GenericCompositionNode(variance)))
  {
    var nodeLabel := GenericInstanceMarker + [c] + name + VarianceSeparator + list;
    var rest := [c] + name + VarianceSeparator + list;
    AfterMarker(GenericInstanceMarker, [c], name, VarianceSeparator, list);
    GenericPayloadWithVariance(c, name, list, variance);
  }

  lemma GenericPayloadWithVariance(c: char, name: string, list: string, variance: seq<int>)
    requires IndexOf(name + VarianceSeparator + list, VarianceSeparator) == |name|
    requires !Contains(list, VarianceSeparator)
    requires ParseVariance(SplitNonEmpty(list, '_')) == Success(variance)
    ensures ParseGenericComposition([c] + name + VarianceSeparator + list) == Success((name, variance))
  {
    FirstTwoPiecesOf(name, VarianceSeparator, list);
    AfterLeadingChar(c, name, VarianceSeparator, list);
    GenericCompositionOf([c] + name + VarianceSeparator + list, name, list, variance);
  }

  /** Dropping the leading character of `[c] + a + sep + b` leaves `a + sep + b`. */
  lemma AfterLeadingChar(c: char, a: string, sep: string, b: string)
    ensures |[c] + a + sep + b| > 0
    ensures ([c] + a + sep + b)[1..] == a + sep + b
  {
    assert [c] + a + sep + b == [c] + (a + sep + b);
  }

  /** What follows a marker at the head of a five-part label. */
  lemma AfterMarker(m: string, a: string, b: string, c: string, d: string)
    ensures (m + a + b + c + d)[|m|..] == a + b + c + d
  {
    assert m + a + b + c + d == m + (a + b + c + d);
  }

  /** A generic composition with variances (ParseNodeTests.cs:157-166): the name runs up to
      "__Variance__" and the variances are the integers of the underscore-separated list
      after it. */
  lemma GenericCompositionWithVariance(id: int, c: char, name: string, list: string, variance: seq<int>)
    requires IndexOf(name + VarianceSeparator + list, VarianceSeparator) == |name|
    requires !Contains(list, VarianceSeparator)
    requires ParseVariance(SplitNonEmpty(list, '_')) == Success(variance)
    requires FirstMatch(Rules, GenericInstanceMarker + [c] + name + VarianceSeparator + list, 0) == GenericInstanceRule
    ensures ParseNode(id, GenericInstanceMarker + [c] + name + VarianceSeparator + list)
         == Success(Node(id, name, GenericCompositionNode(variance)))
  {
    ParseNodeUsesFirstMatch(id, GenericInstanceMarker + [c] + name + VarianceSeparator + list);
    PayloadRulesAt();
    ApplyGenericComposition(id, c, name, list, variance);
  }

  // ---------------------------------------------------------------------------
  // First match wins
  // ---------------------------------------------------------------------------

  /** The text that every label a rule fires on starts with, for the rules that have one. */
  function Lead(rule: Rule): Option<string> {
    match rule
    case Prefix(m, _) => Some(m)
    case MangledPrefix(m, _) => Some(m)
    case Exact(text, _) => Some(text)
    case GCStatics(m) => Some(m)
    case NonGCStatics(m) => Some(m)
    case GenericInstance(m) => Some(m)
    case CustomAttribute(m) => Some(m)
    case DispatchCell(m) => Some(m)
    case MethodTable(p, _) => Some(p)
    case _ => None
  }

  /** `rule` has a lead of two or more characters that does not begin with `c0 c1`. */
  predicate LeadExcludes(rule: Rule, c0: char, c1: char) {
    Lead(rule).Some? && |Lead(rule).value| >= 2 && (Lead(rule).value[0] != c0 || Lead(rule).value[1] != c1)
  }

  /** A rule whose lead excludes the first two characters of a label does not fire on it. */
  lemma LeadExcludesMatch(rule: Rule, nodeLabel: string)
    requires |nodeLabel| >= 2 && LeadExcludes(rule, nodeLabel[0], nodeLabel[1])
    ensures !Matches(rule, nodeLabel)
  {
    if Matches(rule, nodeLabel) {
      StartsWithChars(nodeLabel, Lead(rule).value);
    }
  }

  lemma LeadsBlock0() ensures forall r :: r in RuleBlock0 ==> LeadExcludes(r, '?', '?') {}
  lemma LeadsBlock1() ensures forall r :: r in RuleBlock1 ==> LeadExcludes(r, '?', '?') {}
  lemma LeadsBlock2() ensures forall r :: r in RuleBlock2 ==> LeadExcludes(r, '?', '?') {}
  lemma LeadsBlock3() ensures forall r :: r in RuleBlock3 ==> LeadExcludes(r, '?', '?') {}
  lemma LeadsBlock4() ensures forall r :: r in RuleBlock4 ==> LeadExcludes(r, '?', '?') {}
  lemma LeadsBlock5() ensures forall r :: r in RuleBlock5 ==> LeadExcludes(r, '?', '?') {}
  lemma LeadsBlock6() ensures forall r :: r in RuleBlock6 ==> LeadExcludes(r, '?', '?') {}

  /** No rule before the shadow-concrete rule fires on a label starting with "??". */
  lemma EarlyRulesSkipDoubleQuestion(nodeLabel: string)
    requires |nodeLabel| >= 2 && nodeLabel[0] == '?' && nodeLabel[1] == '?'
    ensures forall j :: 0 <= j < ShadowConcreteRule ==> !Matches(Rules[j], nodeLabel)
  {
    LeadsBlock0(); LeadsBlock1(); LeadsBlock2(); LeadsBlock3(); LeadsBlock4(); LeadsBlock5(); LeadsBlock6();
    var early := RuleBlock0 + RuleBlock1 + RuleBlock2 + RuleBlock3 + RuleBlock4 + RuleBlock5 + RuleBlock6;
    assert forall r :: r in early ==> LeadExcludes(r, '?', '?');
    assert |early| == ShadowConcreteRule;
    forall j | 0 <= j < ShadowConcreteRule
      ensures !Matches(Rules[j], nodeLabel)
    {
      assert Rules[j] == early[j];
      LeadExcludesMatch(Rules[j], nodeLabel);
    }
  }

  /** The first rule that fires is the one that fires with none firing before it. */
  lemma FirstMatchIs(rules: seq<Rule>, nodeLabel: string, i: nat)
    requires i < |rules| && Matches(rules[i], nodeLabel)
    requires forall j :: 0 <= j < i ==> !Matches(rules[j], nodeLabel)
    ensures FirstMatch(rules, nodeLabel, 0) == i
  {
  }

  /** Rules are tried in order: a method-table symbol followed by " constructed" is a
      constructed type whose name keeps "??_7" and "@@6B@" (ParseNodeTests.cs:24-32). */
  lemma ConstructedMethodTableLabel(id: int, symbol: string)
    requires StartsWith(symbol, MethodTablePrefix)
    requires !Contains(symbol + ConstructedSuffix, ShadowConcreteSeparator)
    ensures ParseNode(id, symbol + ConstructedSuffix) == Success(Node(id, symbol, ConstructedEETypeNode))
  {
    var nodeLabel := symbol + ConstructedSuffix;
    StartsWithChars(symbol, MethodTablePrefix);
    assert nodeLabel[0] == '?' && nodeLabel[1] == '?';
    EarlyRulesSkipDoubleQuestion(nodeLabel);
    PayloadRulesAt();
    assert Rules[CustomAttributeRule + 1] == DispatchCell(DispatchCellMarker);
    LeadExcludesMatch(Rules[CustomAttributeRule], nodeLabel);
    LeadExcludesMatch(Rules[CustomAttributeRule + 1], nodeLabel);
    assert !EndsWith(nodeLabel, MethodTableSuffix) by {
      assert nodeLabel[|nodeLabel| - 1] == 'd';
    }
    assert EndsWith(nodeLabel, ConstructedSuffix) by {
      assert nodeLabel[|nodeLabel| - |ConstructedSuffix|..] == ConstructedSuffix;
    }
    FirstMatchIs(Rules, nodeLabel, ConstructedRule);
    ConstructedRoundTrip(id, symbol);
  }

  /** An exact label gives the payload-free kind under its fixed name, which for the
      placed vertex sequence is not the label itself. */
  lemma ExactRuleGivesFixedNode(id: int, nodeLabel: string)
    requires FirstMatch(Rules, nodeLabel, 0) < |Rules| && Rules[FirstMatch(Rules, nodeLabel, 0)].Exact?
    ensures var k := Rules[FirstMatch(Rules, nodeLabel, 0)].kind;
      FixedName(k).Some? && ParseNode(id, nodeLabel) == Success(Node(id, FixedName(k).value, k))
  {
    ParseNodeUsesFirstMatch(id, nodeLabel);
  }

  lemma PlacedVertexSequenceIsRenamed()
    ensures Rules[33].Exact? && Rules[33].kind == NativeLayoutPlacedVertexSequenceOfUIntVertexNode
    ensures FixedName(Rules[33].kind) != Some(Rules[33].text)
  {
    assert |Rules[33].text| != |FixedName(Rules[33].kind).value|;
  }
}
