# MstatAnalyser core in Dafny

MstatAnalyser reads what the .NET native-AOT compiler writes about an application's size and
answers "what takes up the space". There are two inputs. One is a DGML dependency graph whose
nodes are labelled with the compiler's internal node names. The other is an `.mstat` assembly
whose global type holds three methods, "Types", "Methods" and "Blobs". Each method's IL body is
a flat table of (token, size, …) operands. This project models the pure core of the analyser
as immutable datatypes and functions, and proves what the code promises about them.

- **Label classifier** (`classifier.dfy`, `nodes.dfy`):
  - `DgmlGraphProcessing.ParseNode` is an ordered table `Classifier.Rules` of 62 tests, in
    source order; the first one that fires decides the node kind and how the name and any
    payload are cut out of the label.
  - The node classes of `Node.cs` become one datatype `Nodes.Kind` with per-kind payload.
  - Where the C# code throws, the result is a `Failure`.
  - The earlier classifier in `Graph.cs` is `LegacyClassifier.LegacyParseNode`, related to
    the current one by lemmas.
- **Graph** (`graph.dfy`, `dgml.dfy`):
  - `Graph` is kept arena-style: nodes by index, and `Targets`/`Sources` as maps keyed by
    index pairs.
  - `Graphs.Valid` is the invariant every operation keeps: edges join nodes, lists are
    non-empty, and `a.Targets[b]` and `b.Sources[a]` are the same list.
  - The XML reading loop is a fold over already decoded elements.
- **Node converter** (`node_converter.dfy`): exact-equality lookup of a node name against
  five renderings of each type of a pool, each type before its nested types, depth first.
- **Size tables** (`size_table.dfy`, `type_table.dfy`, `application_stats.dfy`):
  - Fixed-width records are decoded from the operand sequence of a container method. The
    current `ApplicationStats` decoders are loops; the earlier `AssemblyStats.cs` and
    `Program.cs` decoders use a strict bound.
  - Methods are attached to their declaring type's record, and zero-size placeholder
    records are created for types that have no record of their own.
  - `ApplicationTables.TypeStatsOf` chains the steps of `ApplicationStats.TypeStats` in
    source order, so the error reported is the one from the first step that fails.
- **Assemblies and filters** (`stats.dfy`, `aggregation.dfy`, `filter.dfy`):
  - the related-assemblies closure over generic arguments;
  - the per-assembly and per-namespace size totals;
  - the wildcard include/exclude filters of both revisions, with the wildcard pattern given
    its glob meaning directly.

`wrappers.dfy` (Option, Result), `strings.dfy` (prefix, split, replace and integer parsing on
`seq<char>`), `sequences.dfy` (distinct, filter, subsequence) and `metadata.dfy` (the type and
method references and IL operands that Mono.Cecil would supply) are shared helpers.

## Model

| member | source | states |
|---|---|---|
| Classifier.FirstMatch | MstatAnalyser.Core/DgmlGraphProcessing.cs:54-448 | the index returned is a rule that fires on the label, with no earlier rule firing, or the end of the table when none fires |
| Classifier.RulesOk | MstatAnalyser.Core/DgmlGraphProcessing.cs:56-447 | every entry of the cascade is well formed: prefix rules build named kinds, exact rules build payload-free kinds, the method-table rule tests the prefix and suffix that the name parser cuts off |
| Classifier.MethodTableLabelLongEnough | MstatAnalyser.Core/DgmlGraphProcessing.cs:429-434 | a label that starts with "??_7" and ends with "@@6B@" has at least 9 characters, so the method-table branch cannot make `Substring` throw |
| Classifier.ParseMangledName | MstatAnalyser.Core/DgmlGraphProcessing.cs:450-462 | succeeds exactly on 9 or more characters; the inner text is the stripped flag marker followed by the name; the boxed flag holds iff the inner text starts with "Boxed_"; the unboxing flag holds iff it starts with "unbox_" and not "Boxed_"; never both flags |
| Classifier.ParseVariance | MstatAnalyser.Core/DgmlGraphProcessing.cs:400-403 | succeeds iff every piece is a 32-bit integer, giving them in order; otherwise fails naming the first piece that does not parse |
| Classifier.FirstTwoPieces | MstatAnalyser.Core/DgmlGraphProcessing.cs:409-410 | the two pieces contain no separator and the label starts with piece, separator, piece, followed by the end or another separator |
| Classifier.FirstTwoPiecesOf | MstatAnalyser.Core/DgmlGraphProcessing.cs:409-410 | splitting a + sep + b, where the first separator follows a and b contains none, gives back (a, b) |
| Classifier.ParseGenericComposition | MstatAnalyser.Core/DgmlGraphProcessing.cs:394-405 | an empty rest throws; without "__Variance__" the name is the rest minus its first character and the variance is empty; with it, the name is the text before the first separator |
| Classifier.ParseCustomAttribute | MstatAnalyser.Core/DgmlGraphProcessing.cs:414-419 | succeeds iff " in " occurs; the attribute is the text before the first " in " and the assembly the text up to the second one or the end, neither holding " in "; otherwise fails with the missing-assembly error |
| Classifier.ParseDispatchCell | MstatAnalyser.Core/DgmlGraphProcessing.cs:421-427 | the call site is absent iff "___GenericDict_" does not occur, and then the name is the whole rest; otherwise the name is the text before the first separator and the call site the text up to the second one or the end, neither holding the separator |
| ClassifierFacts.DispatchCellRoundTrip | MstatAnalyser.Core/DgmlGraphProcessing.cs:421-427 | name + "___GenericDict_" + site, where the first separator follows the name and the site holds none, parses back to that name and call site |
| ClassifierFacts.ApplyDispatchCell | MstatAnalyser.Core/DgmlGraphProcessing.cs:421-427 | the dispatch-cell rule builds a node named by the name and carrying the call site |
| ClassifierFacts.DispatchCellLabelRoundTrip | MstatAnalyser.Core/DgmlGraphProcessing.cs:421-427 | marker + name + "___GenericDict_" + site parses to an interface dispatch cell with that name and call site when that rule fires first |
| Classifier.ParseGCStatics | MstatAnalyser.Core/DgmlGraphProcessing.cs:222-236 | pre-initialised data iff the leftover ends with "@@__PreInitData", and the name plus that suffix is the leftover; otherwise plain statics named by the leftover with trailing '@' trimmed |
| Classifier.ApplyNaming | MstatAnalyser.Core/DgmlGraphProcessing.cs:56-392 | a prefix, mangled-prefix or exact rule builds a well-formed node of the rule's kind with the given index; only the mangled-prefix rules can throw |
| Classifier.ApplyPayload | MstatAnalyser.Core/DgmlGraphProcessing.cs:222-440 | a payload rule builds a node of one of the payload kinds with the given index; only the generic-instance and custom-attribute rules can throw |
| Classifier.Apply | MstatAnalyser.Core/DgmlGraphProcessing.cs:54-448 | a matching rule builds a well-formed, non-type node with the given index, of the rule's kind for naming rules; failures come only from the three throwing families |
| Classifier.Classify | MstatAnalyser.Core/DgmlGraphProcessing.cs:54-448 | over any well-formed table: a label no rule recognises becomes a plain node named by the whole label, and a failure is pinned to a throwing family at the first match |
| Classifier.ParseNode | MstatAnalyser.Core/DgmlGraphProcessing.cs:54-448 | every result keeps the given index and is well formed; no label yields a wrapped-method-entry node; unrecognised labels become plain nodes; only the mangled-name, generic-composition and custom-attribute branches throw |
| Classifier.PayloadRulesAt | MstatAnalyser.Core/DgmlGraphProcessing.cs:394-440 | the generic-instance, shadow-concrete, custom-attribute, method-table and constructed rules sit at positions 55 to 60 of the cascade |
| Classifier.ParseNodeUsesFirstMatch | MstatAnalyser.Core/DgmlGraphProcessing.cs:54-448 | the node of a recognised label is what its first matching rule builds |
| Classifier.WrappedMethodEntryRuleIsDead | MstatAnalyser.Core/DgmlGraphProcessing.cs:327-362 | the test at line 358 never fires first, because line 327 tests the same marker earlier |
| Classifier.OnlyRuleBuildingWrappedMethodEntry | MstatAnalyser.Core/DgmlGraphProcessing.cs:358-362 | the dead test is the only one that could build a wrapped-method-entry node |
| ClassifierFacts.PrefixNodeNamesRestOfLabel | MstatAnalyser.Core/DgmlGraphProcessing.cs:56-392 | when a simple prefix rule fires first, the node has its kind and marker + name gives the label back |
| ClassifierFacts.PrefixRuleRoundTrip | MstatAnalyser.Core/DgmlGraphProcessing.cs:56-392 | conversely, marker + name parses to the rule's kind named name whenever that rule is the first to fire |
| ClassifierFacts.RegionRoundTrip | MstatAnalyser.Core.Tests/ParseNodeTests.cs:7-14 | every "Region " label is a region node named by the rest of the label, whatever follows |
| ClassifierFacts.ConstructedRoundTrip | MstatAnalyser.Core/DgmlGraphProcessing.cs:436-440 | a label that reaches the constructed rule is a constructed type named by the label without " constructed" |
| ClassifierFacts.ApplyMethodTable | MstatAnalyser.Core/DgmlGraphProcessing.cs:429-434 | a method-table label never throws; the label is the prefix, the stripped flag marker, the name and the suffix; the node's boxed flag is "Boxed_" |
| ClassifierFacts.MethodTableParses | MstatAnalyser.Core.Tests/ParseNodeTests.cs:54-74 | a label that reaches the method-table rule always yields a method-table node |
| ClassifierFacts.UnboxingMarkerIsDropped | MstatAnalyser.Core/DgmlGraphProcessing.cs:431-433 | the unboxing flag is not stored: with and without "unbox_" the same unboxed node results |
| ClassifierFacts.ShortSealedVTableFails | MstatAnalyser.Core/DgmlGraphProcessing.cs:92-98 | a sealed-vtable label whose mangled part has fewer than 9 characters throws |
| ClassifierFacts.ShadowConcreteRoundTrip | MstatAnalyser.Core/DgmlGraphProcessing.cs:407-412 | name + " backed by " + canonical parses to a shadow concrete method with that name and canonical method |
| ClassifierFacts.ApplyCustomAttribute | MstatAnalyser.Core/DgmlGraphProcessing.cs:414-419 | the custom-attribute rule builds a node named by the attribute and carrying the assembly |
| ClassifierFacts.CustomAttributeRoundTrip | MstatAnalyser.Core.Tests/ParseNodeTests.cs:86-95 | marker + attribute + " in " + assembly parses back to that attribute and assembly |
| ClassifierFacts.CustomAttributeWithoutAssemblyFails | MstatAnalyser.Core/DgmlGraphProcessing.cs:416-418 | a custom-attribute label without " in " throws |
| ClassifierFacts.GenericCompositionWithoutVariance | MstatAnalyser.Core.Tests/ParseNodeTests.cs:168-177 | without "__Variance__" the character after the marker is dropped and the variance is empty |
| ClassifierFacts.ApplyGenericComposition | MstatAnalyser.Core/DgmlGraphProcessing.cs:394-405 | the generic-instance rule builds a composition named by the text up to "__Variance__" with the parsed variances |
| ClassifierFacts.GenericPayloadWithVariance | MstatAnalyser.Core/DgmlGraphProcessing.cs:396-404 | the payload parser recovers name and variances from char + name + "__Variance__" + list |
| ClassifierFacts.GenericCompositionWithVariance | MstatAnalyser.Core.Tests/ParseNodeTests.cs:157-166 | a full generic-instance label with a variance list parses back to its name and variances |
| ClassifierFacts.LeadExcludesMatch | MstatAnalyser.Core/DgmlGraphProcessing.cs:56-392 | a rule whose leading text differs from the label's first two characters does not fire |
| ClassifierFacts.EarlyRulesSkipDoubleQuestion | MstatAnalyser.Core/DgmlGraphProcessing.cs:56-405 | no rule before the shadow-concrete one fires on a label starting with "??" |
| ClassifierFacts.FirstMatchIs | MstatAnalyser.Core/DgmlGraphProcessing.cs:54-448 | a rule that fires with none firing before it is the first match |
| ClassifierFacts.ConstructedMethodTableLabel | MstatAnalyser.Core.Tests/ParseNodeTests.cs:24-32 | a method-table symbol followed by " constructed" is a constructed type whose name keeps "??_7" and "@@6B@" |
| ClassifierFacts.ExactRuleGivesFixedNode | MstatAnalyser.Core/DgmlGraphProcessing.cs:262-265 | an exact label yields the payload-free kind under that kind's fixed name |
| ClassifierFacts.PlacedVertexSequenceIsRenamed | MstatAnalyser.Core/Node.cs:362-368 | the placed-vertex-sequence label yields a node whose fixed name differs from the label |
| Nodes.MakeTypeNode | MstatAnalyser.Core/NodeConverter.cs:88-96 | a type node is well formed: it is named by its type's full name |
| Nodes.MakeFixedNode | MstatAnalyser.Core/Node.cs:225-231 | a payload-free node carries its kind's fixed name |
| LegacyClassifier.LegacyParseNode | MstatAnalyser.Core/Graph.cs:134-190 | the earlier classifier keeps the index, builds well-formed nodes, and throws only on a custom attribute without " in " |
| LegacyClassifierFacts.SharedRulesAt | MstatAnalyser.Core/Graph.cs:136-164 | the earlier classifier's five prefix tests are the first five rules of the current cascade |
| LegacyClassifierFacts.AgreeOnReflectablePrefixes | MstatAnalyser.Core/Graph.cs:134-164 | on labels starting with "Region " or "Reflectable module/method/field/type: " both revisions give the same node |
| LegacyClassifierFacts.SkipsReflectablePrefixes | MstatAnalyser.Core/Graph.cs:136-164 | a label that the current cascade passes beyond rule 4 starts with none of the five shared prefixes |
| LegacyClassifierFacts.AgreeOnCustomAttributes | MstatAnalyser.Core/Graph.cs:166-171 | custom attributes get the same node, or the same failure, from both revisions |
| LegacyClassifierFacts.ApplyMethodTableAgrees | MstatAnalyser.Core/Graph.cs:173-181 | the earlier method-table branch builds what the current rule builds unless "unbox_" follows the prefix |
| LegacyClassifierFacts.AgreeOnMethodTables | MstatAnalyser.Core/Graph.cs:173-181 | method tables without "unbox_" get the same node from both revisions |
| LegacyClassifierFacts.AgreeOnConstructed | MstatAnalyser.Core/Graph.cs:183-187 | constructed types get the same node from both revisions |
| LegacyClassifierFacts.AgreeOnUnrecognised | MstatAnalyser.Core/Graph.cs:189 | a label no current rule recognises is a plain node in both revisions |
| LegacyClassifierFacts.LegacyKeepsUnboxingMarker | MstatAnalyser.Core/Graph.cs:173-181 | the earlier revision keeps "unbox_" in a method table's name, where the current one strips it |
| LegacyClassifierFacts.MethodTableSkipsEarlierTests | MstatAnalyser.Core/Graph.cs:136-172 | a label that starts with "??_7" passes over the region, the four reflectable and the custom-attribute tests, so the earlier revision reaches its method-table test |
| Graphs.AddReason | MstatAnalyser.Core/Graph.cs:77-87 | the key's list gains the reason at its end, or becomes a one-element list; every other key keeps its list |
| Graphs.Link | MstatAnalyser.Core/Graph.cs:39-43 | one edge appends the reason to a.Targets[b] and to b.Sources[a], changes no other list, and keeps the invariant |
| Graphs.AddEdge | MstatAnalyser.Core/Graph.cs:37-49 | true iff both ends are nodes; false leaves the graph unchanged; true appends the reason exactly once on both sides; the invariant is kept |
| Graphs.Decrement32 | MstatAnalyser.Core/Graph.cs:57 | the counter decrement stays in 32-bit range and wraps only at int.MinValue |
| Graphs.AddConditionalEdge | MstatAnalyser.Core/Graph.cs:51-69 | fails iff one of the three nodes is missing or the counter's index is taken, with the exception the code raises; on success adds exactly the conditional node, lowers the counter and keeps the invariant |
| Graphs.AddNode | MstatAnalyser.Core/Graph.cs:71-75 | fails iff the index is present; otherwise adds exactly that node and leaves edges and counter alone |
| GraphFacts.EmptyGraphValid | MstatAnalyser.Core/Graph.cs:24-35 | a new graph satisfies the mirror invariant |
| GraphFacts.RepeatedEdgeAccumulates | MstatAnalyser.Core/Graph.cs:39-43 | adding the same edge twice records both reasons in order under one key per direction |
| GraphFacts.ConditionalEdgeWiring | MstatAnalyser.Core/Graph.cs:61-68 | exactly three edge pairs: conditional to target with the reason, each reason node to the conditional with its labelled reason; no other list changes |
| GraphFacts.ConditionalIndicesDescend | MstatAnalyser.Core/Graph.cs:26-59 | the conditional node takes the counter's index, which was free, and the counter drops by one |
| NodeConverter.MangleTypeName | MstatAnalyser.Core/NodeConverter.cs:77-80 | same length; each of '.', '<', '>', '`' and '/' becomes '_' and every other character is kept |
| NodeConverter.MangleAssemblyName | MstatAnalyser.Core/NodeConverter.cs:82-85 | same length; only '.' becomes '_' |
| NodeConverter.TryConvertNode | MstatAnalyser.Core/NodeConverter.cs:28-75 | a result is a well-formed type node with the node's index whose type renders as the node's name |
| NodeConverter.TryConvertFirst | MstatAnalyser.Core/NodeConverter.cs:62-71 | the same for the first of a list of types |
| NodeConverter.Convert | MstatAnalyser.Core/NodeConverter.cs:15-26 | keeps the index; the result is the node itself or a type node whose type renders as its name |
| NodeConverter.Preorder | MstatAnalyser.Core/NodeConverter.cs:62-71 | a type is visited before its nested types |
| NodeConverter.FirstRenderedAs | MstatAnalyser.Core/NodeConverter.cs:32-60 | the first position whose type renders as the name, with none before it |
| NodeConverterFacts.SearchConcat | MstatAnalyser.Core/NodeConverter.cs:17-23 | searching a concatenation searches the first part, then the second |
| NodeConverterFacts.TryConvertNodeIsPreorderSearch | MstatAnalyser.Core/NodeConverter.cs:62-71 | the per-type conversion is the first match in the preorder of the type's nested tree |
| NodeConverterFacts.TryConvertFirstIsPreorderSearch | MstatAnalyser.Core/NodeConverter.cs:17-23 | the list conversion is the first match in the concatenated preorders |
| NodeConverterFacts.ConvertIsFirstInPreorder | MstatAnalyser.Core/NodeConverter.cs:15-36 | the converter returns the type node of the first type in pool preorder that renders as the name, else the node unchanged |
| NodeConverterFacts.MangleTypeNameIdempotent | MstatAnalyser.Core/NodeConverter.cs:77-80 | mangling leaves none of the replaced characters, so mangling twice is mangling once |
| NodeConverterFacts.MangleAssemblyNameAfterReplace | MstatAnalyser.Core/NodeConverter.cs:32 | the assembly mangling after the dot replacement changes nothing |
| NodeConverterFacts.MangleTypeNameConcat | MstatAnalyser.Core/NodeConverter.cs:77-80 | mangling distributes over concatenation |
| NodeConverterFacts.FirstRenderedAsIs | MstatAnalyser.Core/NodeConverter.cs:17-23 | a position that renders the name with none before it is the first match |
| NodeConversionExamples.PoolPreorder | MstatAnalyser.Core.Tests/NodeConversionTests.cs:36-60 | the order in which the test pool's types are visited |
| NodeConversionExamples.ModuleTypeResolves | MstatAnalyser.Core.Tests/NodeConversionTests.cs:8-16 | "Microsoft_AspNetCore_Mvc_Core__Module_" resolves to the module type |
| NodeConversionExamples.GenericTypeResolves | MstatAnalyser.Core.Tests/NodeConversionTests.cs:17-25 | the mangled holder name with "_2" resolves to the generic type with "`2" |
| NodeConversionExamples.NestedTypeResolves | MstatAnalyser.Core.Tests/NodeConversionTests.cs:26-34 | the bracketed '+'-nested name resolves to the doubly nested type |
| DgmlLoading.LoadNode | MstatAnalyser.Core/DgmlGraphProcessing.cs:31-32 | fails exactly when the classifier throws; otherwise a well-formed node with the element's index |
| DgmlLoading.Step | MstatAnalyser.Core/DgmlGraphProcessing.cs:27-46 | one element keeps the invariant and every present node; a node element adds its classified node; reading stops only on a link with a missing end, leaving the graph as it was |
| DgmlLoading.LoadPreserves | MstatAnalyser.Core/DgmlGraphProcessing.cs:17-51 | reading keeps the invariant and never changes a node already present |
| DgmlLoading.LoadDeclaresNodes | MstatAnalyser.Core/DgmlGraphProcessing.cs:29-34 | a complete read declares exactly the node elements' indices |
| DgmlLoading.LoadResolvesNodes | MstatAnalyser.Core/DgmlGraphProcessing.cs:29-34 | in a complete read each node is the classified and resolved form of its label |
| DgmlLoading.LoadLinksJoinNodes | MstatAnalyser.Core/DgmlGraphProcessing.cs:35-42 | in a complete read every link joins two loaded nodes |
| DgmlLoading.LoadStopsAtDanglingLink | MstatAnalyser.Core/DgmlGraphProcessing.cs:38-41 | a read that stops early stops at a link with an end that is not a node |
| DgmlLoading.ParseXml | MstatAnalyser.Core/DgmlGraphProcessing.cs:9-52 | from a new graph: the result is valid, and a complete read has exactly the declared nodes |
| Sequences.Distinct | MstatAnalyser.Core/TypeStats.cs:19 | no duplicates, the same elements, in order of first occurrence, starting with the first element |
| Sequences.Filter | MstatAnalyser.Core/StatsFilter.cs:13-14 | keeps exactly the elements that pass, each as often as in the input, as an order-preserving subsequence |
| Sequences.FilterIdempotent | MstatAnalyser.Core/StatsFilter.cs:13-14 | filtering the filtered list changes nothing |
| Stats.TypeAssemblies | MstatAnalyser.Core/TypeStats.cs:26-39 | the scope comes first, and a non-generic type yields exactly its scope |
| Stats.RelatedAssemblies | MstatAnalyser.Core/TypeStats.cs:13-24 | no duplicates, the same assemblies as the closure, and the primary assembly first |
| Stats.MethodRelatedAssemblies | MstatAnalyser.Core/MethodStats.cs:16-36 | no duplicates; exactly the declaring type's closure plus, for a generic method instance, the arguments' closures; the declaring scope first |
| SizeTables.TypeAt | MstatAnalyser.Core/ApplicationStats.cs:54 | the cast succeeds iff the operand is a type reference, and then gives it; otherwise a cast error at that position |
| SizeTables.MethodAt | MstatAnalyser.Core/ApplicationStats.cs:84 | the same for a method reference |
| SizeTables.IntAt | MstatAnalyser.Core/ApplicationStats.cs:55 | the same for an int |
| SizeTables.StringAt | MstatAnalyser.Core/ApplicationStats.cs:107 | the same for a string |
| SizeTables.TypeRecord | MstatAnalyser.Core/ApplicationStats.cs:54-60 | record k decodes iff operand 2k is a type and 2k+1 an int, and holds exactly those with no methods |
| SizeTables.MethodRecord | MstatAnalyser.Core/ApplicationStats.cs:84-94 | record k decodes iff operands 4k to 4k+3 are a method and three ints, and holds exactly those |
| SizeTables.BlobRecord | MstatAnalyser.Core/ApplicationStats.cs:107-113 | record k decodes iff operand 2k is a string and 2k+1 an int, and holds exactly those |
| SizeTables.Collect | MstatAnalyser.Core/ApplicationStats.cs:52-61 | succeeds iff every record decodes, giving them all in order; otherwise the error of the first record that does not |
| SizeTables.WholeRecords | MstatAnalyser.Core/ApplicationStats.cs:52 | the number of whole records that fit: c records fit and c + 1 do not |
| SizeTables.StrictRecords | AssemblyStats.cs:78 | the number of records the strict bound reads: fewer operands than c + 1 records need, but more than c records use |
| SizeTables.GetTypes | MstatAnalyser.Core/ApplicationStats.cs:47-61 | the loop decodes exactly the whole pairs, |ops| / 2 records, and fails on the first operand of the wrong kind |
| SizeTables.GetMethods | MstatAnalyser.Core/ApplicationStats.cs:76-97 | the loop decodes exactly the whole quadruples, |ops| / 4 records, filling every slot |
| SizeTables.GetBlobs | MstatAnalyser.Core/ApplicationStats.cs:99-116 | the loop decodes exactly the whole pairs, |ops| / 2 records |
| SizeTables.LegacyGetTypes | AssemblyStats.cs:74-88 | the strict loop decodes the first StrictRecords pairs |
| SizeTables.LegacyGetMethods | AssemblyStats.cs:90-108 | the strict loop decodes the first StrictRecords quadruples |
| SizeTables.LegacyGetBlobs | AssemblyStats.cs:110-124 | the strict loop decodes the first StrictRecords pairs |
| SizeTables.FirstFailure | MstatAnalyser.Core/ApplicationStats.cs:52-61 | decoding stops with the error of the first record that fails |
| SizeTables.AllRead | MstatAnalyser.Core/ApplicationStats.cs:52-61 | when every record decodes, the result is exactly those records |
| SizeTables.Container | Program.cs:147-161 | found iff a method of that name exists, giving the first one's operands; otherwise the missing-container error |
| SizeTableFacts.CollectPrefix | AssemblyStats.cs:74-88 | decoding a prefix of the records gives the prefix of the decoded list |
| SizeTableFacts.StrictRecordsComparedToWhole | AssemblyStats.cs:78 | the strict bound reads as many records as the current one when the count is zero or not a multiple of the width, and one fewer otherwise |
| SizeTableFacts.LegacyTypesArePrefix | AssemblyStats.cs:74-88 | the earlier type decoder gives a prefix of the current one's records, shorter by one iff the count is a positive even number |
| SizeTableFacts.LegacyMethodsArePrefix | AssemblyStats.cs:90-108 | the earlier method decoder gives a prefix, shorter by one iff the count is a positive multiple of 4 |
| SizeTableFacts.LegacyBlobsArePrefix | AssemblyStats.cs:110-124 | the earlier blob decoder gives a prefix, shorter by one iff the count is a positive even number |
| SizeTableFacts.StrictBoundDropsLastRecord | Program.cs:98 | on one whole type record the strict bound decodes nothing while the current bound decodes it |
| TypeTables.FirstRepeat | MstatAnalyser.Core/ApplicationStats.cs:62 | absent iff the tokens are distinct; otherwise the first token whose second occurrence comes earliest |
| TypeTables.TokenIndex | MstatAnalyser.Core/ApplicationStats.cs:65 | absent iff no record has the token; otherwise a record with it |
| TypeTables.Attach | MstatAnalyser.Core/ApplicationStats.cs:63-72 | tokens stay distinct; a known token's record gains the method at the end of its list; an unknown token appends a zero-size record holding only the method |
| TypeTables.AttachAll | MstatAnalyser.Core/ApplicationStats.cs:63-72 | attaching all methods keeps the tokens distinct |
| TypeTables.AttachMethods | MstatAnalyser.Core/ApplicationStats.cs:62-73 | fails iff two decoded records share a token, naming the first repeated one; otherwise the records keep distinct tokens and none is lost |
| ApplicationTables.TypeTable | MstatAnalyser.Core/ApplicationStats.cs:21-62 | succeeds iff the "Types" container exists, all its records decode and their tokens are distinct; a decode error is reported before a repeated token |
| ApplicationTables.TypeStatsOf | MstatAnalyser.Core/ApplicationStats.cs:21-73 | succeeds iff the type table and the method records both read; a type-stage error wins over any method error; on success every method is filed under its declaring type, placeholders follow in order of first method and tokens stay distinct |
| ApplicationTables.TypeErrorsComeFirst | MstatAnalyser.Core/ApplicationStats.cs:62-63 | a type table that cannot be built gives the same error whatever the "Methods" container holds or lacks |
| ApplicationTables.MethodErrorsComeLast | MstatAnalyser.Core/ApplicationStats.cs:22-63 | a missing "Methods" container or a bad method reference is reported only when the type records decoded with distinct tokens, and it is the methods' own first error |
| ApplicationTables.ReadTypeStats | MstatAnalyser.Core/ApplicationStats.cs:21-73 | running the decoders in the source's order yields the outcome of TypeStatsOf, and never fewer records than the type table |
| TypeTableFacts.DecodedRecordsKept | MstatAnalyser.Core/ApplicationStats.cs:62-73 | decoded records keep their type and size in place; every record after them has size 0 and a token no decoded record has |
| TypeTableFacts.RecordTokens | MstatAnalyser.Core/ApplicationStats.cs:62-73 | the tokens of the result are the decoded tokens plus the methods' declaring tokens |
| TypeTableFacts.EveryMethodHasOneRecord | MstatAnalyser.Core/ApplicationStats.cs:62-73 | each method's declaring token has exactly one record |
| TypeTableFacts.RecordMethods | MstatAnalyser.Core/ApplicationStats.cs:63-72 | each record holds its earlier methods followed by exactly the methods with its token, in order |
| TypeTableFacts.FiledAfterMerge | MstatAnalyser.Core/ApplicationStats.cs:66-71 | a method whose declaring type already has a record goes to the end of that record's methods, and every record stays filed with exactly the methods of its token |
| TypeTableFacts.FiledAfterAppend | MstatAnalyser.Core/ApplicationStats.cs:66-71 | a method whose declaring type has no record yet gets a new last record holding only that method, and no earlier record gains it |
| TypeTableFacts.MergeKeepsTypes | MstatAnalyser.Core/ApplicationStats.cs:66-71 | filing a method under an existing record adds no record and changes no record's type |
| TypeTableFacts.PlaceholderOrder | MstatAnalyser.Core/ApplicationStats.cs:66-70 | the placeholders are the declaring types of the methods, in the order in which their tokens first appear |
| TypeTableFacts.AttachKeepsSizeSum | MstatAnalyser.Core/ApplicationStats.cs:66-70 | placeholders add nothing to the total size |
| Aggregation.GroupIndex | MstatAnalyser.Core/ApplicationStats.cs:31 | absent iff no group has the key; otherwise a group with it |
| Aggregation.AddTally | MstatAnalyser.Core/ApplicationStats.cs:31-35 | keys stay distinct; the key's group adds both sums; a new key appends the tally |
| Aggregation.Contributions | MstatAnalyser.Core/ApplicationStats.cs:31-32 | each type contributes its size to its primary assembly's types size, then each method its total size to its primary assembly's methods size |
| AggregationFacts.AssemblyStatsSizes | MstatAnalyser.Core/ApplicationStats.cs:29-45 | each entry's types size is the size sum of what `GetAssemblyTypes` returns for its name, and its methods size the total size of the methods with that primary assembly |
| Aggregation.AssemblyTypes | MstatAnalyser.Core/ApplicationStats.cs:42-45 | exactly the records with that primary assembly, each as often as in the input, in order |
| Aggregation.DeclaringChain | Program.cs:9-26 | the chain starts at the type, follows each declaring type, and ends at an outermost type |
| Aggregation.FindNamespaceWalksChain | Program.cs:9-26 | the namespace is the first non-empty one on the chain, or else the outermost type's name |
| Aggregation.NamespaceContributions | Program.cs:43-44 | each method contributes its total size, then each type its size, to its namespace |
| AggregationFacts.NamespaceSizesEach | Program.cs:43-44 | one entry per distinct namespace, in order of first appearance among the methods and then the types; each size is the methods' total size plus the types' size under that namespace |
| AggregationFacts.GroupKeys | MstatAnalyser.Core/ApplicationStats.cs:31 | the group keys are the distinct keys in order of first appearance |
| AggregationFacts.GroupSums | MstatAnalyser.Core/ApplicationStats.cs:33-34 | each group's sums are the sums of the tallies with its key |
| AggregationFacts.GroupTotals | MstatAnalyser.Core/ApplicationStats.cs:31-35 | grouping keeps both grand totals |
| AggregationFacts.AddTallyTotals | MstatAnalyser.Core/ApplicationStats.cs:31-35 | adding one tally adds its amounts to both totals |
| AggregationFacts.MergeIsUpdate | MstatAnalyser.Core/ApplicationStats.cs:31-35 | an element whose key already has a group adds its amounts to that group and leaves every other group as it was |
| AggregationFacts.AssemblyStatsTotals | MstatAnalyser.Core/ApplicationStats.cs:29-35 | the entries' types sizes sum to the type sizes and their methods sizes to the method total sizes |
| AggregationFacts.AssemblyStatsNames | MstatAnalyser.Core/ApplicationStats.cs:31 | one entry per distinct primary assembly, in order of first appearance |
| AggregationFacts.NamespaceSizesTotal | Program.cs:43-44 | the namespace sums add up to the type sizes plus the methods' size, GC-info and EH-info sizes |
| Globs.WildCardToRegular | MstatAnalyser.Core/StatsFilter.cs:23-26 | one token per character: '*' is a run, '?' is one character, everything else is literal |
| GlobFacts.StarMatchesAll | MstatAnalyser.Core/StatsFilter.cs:23-26 | "*" matches every name |
| GlobFacts.PlainPatternMatchesOnlyItself | MstatAnalyser.Core/StatsFilter.cs:23-26 | a pattern without wildcards matches exactly itself, which is the whole-string anchoring |
| GlobFacts.PrefixPattern | StatsFilter.cs:20-23 | "name*" matches exactly the strings that start with "name" |
| GlobFacts.RunThenRestOnly | MstatAnalyser.Core/StatsFilter.cs:25 | a leading run matches only by letting the rest match a suffix |
| Filters.FilterTypes | MstatAnalyser.Core/StatsFilter.cs:11-15 | keeps exactly the types some related assembly of which matches the inclusion pattern and none of which matches an exclusion, as a subsequence with counts kept |
| Filters.FilterMethods | MstatAnalyser.Core/StatsFilter.cs:17-21 | the same rule over a method's related assemblies |
| FilterFacts.TypeRefMatchesAssemblies | MstatAnalyser.Core/StatsFilter.cs:63-81 | the recursive scope-or-argument test holds iff some assembly of the closure matches |
| FilterFacts.TypeTestsAgree | MstatAnalyser.Core/StatsFilter.cs:38-46 | the list-based test on a type record agrees with the recursive test on its type |
| FilterFacts.TypeListTestsAgree | MstatAnalyser.Core/StatsFilter.cs:28-36 | the two pattern-list overloads agree |
| FilterFacts.NoFilterKeepsAll | MstatAnalyser.Core/StatsFilter.cs:38-43 | with no inclusion pattern and no exclusions both filters return their input |
| FilterFacts.FiltersIdempotent | MstatAnalyser.Core/StatsFilter.cs:11-21 | filtering twice is filtering once |
| FilterFacts.KeepsTypeExplained | MstatAnalyser.Core/StatsFilter.cs:13-14 | with both patterns present: kept iff some related assembly matches the inclusion and no exclusion matches any related assembly |
| LegacyFilters.LegacyFilterTypes | StatsFilter.cs:10-13 | keeps exactly the types whose type passes the recursive test, every copy of each, as a subsequence |
| LegacyFilters.LegacyFilterMethods | StatsFilter.cs:15-18 | keeps exactly the methods whose declaring type passes, every copy of each, as a subsequence |
| LegacyFilterFacts.LegacyTypesAgree | StatsFilter.cs:25-43 | without exclusions the earlier type filter returns what the current one does |
| LegacyFilterFacts.LegacyMethodsKeptByCurrent | StatsFilter.cs:15-18 | a method the earlier filter keeps, the current one keeps too |
| LegacyFilterFacts.CurrentAlsoTestsMethodArguments | MstatAnalyser.Core/MethodStats.cs:23-28 | a generic method matched only through its argument is kept by the current filter and dropped by the earlier one |

## Left out

- `Debug.Assert` (DgmlGraphProcessing.cs:96, 134, 348, 361, 425, 432) is a no-op, as in a
  release build: a sealed v-table, optional-fields or method-table label carrying an
  unboxing marker, a constrained-method or wrapped-method-entry dictionary slot, and an
  interface dispatch cell with more than one generic-dictionary separator are all
  classified rather than stopped. `Classifier.ParseNode` and
  `ClassifierFacts.UnboxingMarkerIsDropped` describe that build.
- XML reading. The element stream, `XmlReader` and `int.Parse` of the attributes are
  replaced by a list of decoded elements. `Graph.cs`'s own copy of `ParseXml` is not
  modelled beyond its classifier.
- Mono.Cecil. Assembly loading, `LookupToken`, `SimplifyMacros` and the metadata tree are
  taken as inputs (`Metadata.TypeRef`, `Metadata.Operand`). MstatAnalyzer.Core/Extensions.cs
  is not part of this model.
- A generic instance is a reference with a non-empty argument list. Cecil's
  `IsGenericInstance` flag and the `is GenericInstanceType` test are not told apart.
- The command line, printing, sorting for display, the web and UI projects. These are I/O
  or presentation.
- Memoisation. The lazily cached `RelatedAssemblies` and the memoised stats properties of
  `AssemblyStats.cs` are plain functions, so every read gives the same list by
  construction.
- Regular-expression details. `.` and `$` treat a newline specially, and assembly names
  contain none. `Regex.Escape` is taken to leave every non-wildcard character literal.
- Culture-sensitive string comparison and number text. `StartsWith`, `EndsWith` and
  `Contains` compare ordinally here. `Strings.ParseInt32` (the `int.Parse` of
  DgmlGraphProcessing.cs:400-403) and `Strings.IntToString` (the `{Index}` interpolation in
  a conditional node's name) use the invariant culture's `-` and `+` signs, not the current
  culture's `NegativeSign` and `PositiveSign`.
- 32-bit overflow of the size sums. Sizes and sums are unbounded integers. The conditional
  node counter does wrap, explicitly.
- Null operands and casts of null. An operand is always one of the four kinds. A failed
  cast is an error result at that position, not an `InvalidCastException`.
- Partial state after an exception. A failing operation returns an error and no graph,
  where the C# code leaves what it had already added.
- Lazy evaluation order in the earlier decoders. They are `yield` iterators, so a bad record
  throws only when it is reached. Here the whole decode fails on the first bad record, as
  in the current decoders.
- Graph.cs node classes. Its node classes are the current ones of the same names. The
  index and ID fields of the older `Graph` class are not modelled.
- The `TypeStats.Methods` list. The list is missing from the current `TypeStats` class, but
  ApplicationStats.cs:71 uses it, so the model adds it as a field.
- `Node.ToString` appears only as the conditional node's name (`Graphs.ConditionalName`).
- `TypeStats` and `MethodStats` are memoised (ApplicationStats.cs:21-22). A caller that reads
  `MethodStats` first sees a method error before any type error; `ApplicationTables` models
  the first read of `TypeStats` only.
- `TypeTables.AttachMethods`: its error names the first repeated token. `ToDictionary`
  throws on the first duplicate key it meets, which is the same token, but the exception
  message is not modelled.

## Findings

| source | as written | input that shows it | evidently intended | confidence | as-written member | corrected member |
|---|---|---|---|---|---|---|
| AssemblyStats.cs:78 | the loop runs while `i + 2 < il.Count` (and `i + 4 <` at :94, `i + 2 <` at :114; the same bounds in Program.cs:98, 114, 134), so the last whole record is skipped whenever the operand count is a positive multiple of the record width | operands [type T, int 5]: no type record is decoded | decode every whole record, `i + 2 <= il.Count`, as the later ApplicationStats.cs:52 does | not executed; medium: a container method body that ends in one extra instruction, such as `ret`, hides the difference | SizeTables.LegacyGetTypes, SizeTableFacts.StrictBoundDropsLastRecord | SizeTables.GetTypes |
