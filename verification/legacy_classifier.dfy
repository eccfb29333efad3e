/** The earlier revision of the label classifier, `DGMLGraphProcessing.ParseNode` in
    Graph.cs:134-190. It knows eight of the current kinds, tests them in the same relative
    order as the current cascade, and strips only "Boxed_" from method-table names. Its node
    classes (Graph.cs:193-263) are the current ones of the same names, so both revisions
    build `Nodes.Node` values. */
module LegacyClassifier {
  import opened Wrappers
  import opened Strings
  import opened Nodes
  import opened Classifier

  /** Graph.cs:134-190. */
  function LegacyParseNode(id: int, nodeLabel: string): (r: Result<Node, ParseError>)
    ensures r.Success? ==> r.value.index == id && WellFormed(r.value)
    ensures r.Failure? ==> StartsWith(nodeLabel, CustomAttributeMarker) && !Contains(nodeLabel[|CustomAttributeMarker|..], AssemblySeparator)
  {
    if StartsWith(nodeLabel, "Region ") then Success(Node(id, nodeLabel[7..], RegionNode))
    else if StartsWith(nodeLabel, "Reflectable module: ") then Success(Node(id, nodeLabel[20..], ModuleMetadataNode))
    else if StartsWith(nodeLabel, "Reflectable method: ") then Success(Node(id, nodeLabel[20..], ReflectedMethodNode))
    else if StartsWith(nodeLabel, "Reflectable field: ") then Success(Node(id, nodeLabel[19..], ReflectedFieldNode))
    else if StartsWith(nodeLabel, "Reflectable type: ") then Success(Node(id, nodeLabel[18..], ReflectedTypeNode))
    else if StartsWith(nodeLabel, CustomAttributeMarker) then
      var (name, assembly) :- ParseCustomAttribute(nodeLabel[|CustomAttributeMarker|..]);
      Success(Node(id, name, CustomAttributeMetadataNode(assembly)))
    else if StartsWith(nodeLabel, MethodTablePrefix) && EndsWith(nodeLabel, MethodTableSuffix) then
      MethodTableLabelLongEnough(nodeLabel);
      var inner := nodeLabel[4..|nodeLabel| - 5];
      if StartsWith(inner, BoxedMarker) then Success(Node(id, inner[|BoxedMarker|..], MethodTableNode(true)))
      else Success(Node(id, inner, MethodTableNode(false)))
    else if EndsWith(nodeLabel, ConstructedSuffix) then
      Success(Node(id, nodeLabel[..|nodeLabel| - |ConstructedSuffix|], ConstructedEETypeNode))
    else Success(Node(id, nodeLabel, PlainNode))
  }
}

/** How the two revisions of the classifier relate: they agree on every label that the
    current cascade hands to one of the rules the earlier revision also has, except that the
    earlier one keeps an "unbox_" marker in a method-table name. */
module LegacyClassifierFacts {
  import opened Wrappers
  import opened Strings
  import opened Nodes
  import opened Classifier
  import opened ClassifierFacts
  import opened LegacyClassifier

  /** The earlier revision's tests are rules 0 to 4, 57, 59 and 60 of the current table. */
  lemma SharedRulesAt()
    ensures Rules[0] == Prefix("Region ", RegionNode)
    ensures Rules[1] == Prefix("Reflectable module: ", ModuleMetadataNode)
    ensures Rules[2] == Prefix("Reflectable method: ", ReflectedMethodNode)
    ensures Rules[3] == Prefix("Reflectable field: ", ReflectedFieldNode)
    ensures Rules[4] == Prefix("Reflectable type: ", ReflectedTypeNode)
  {
  }

  /** A label that the current cascade gives to one of the first five rules, which the
      earlier revision tests first too, gets the same node from both (Graph.cs:134-164). */
  lemma AgreeOnReflectablePrefixes(id: int, nodeLabel: string)
    requires FirstMatch(Rules, nodeLabel, 0) < 5
    ensures LegacyParseNode(id, nodeLabel) == ParseNode(id, nodeLabel)
  {
    ParseNodeUsesFirstMatch(id, nodeLabel);
    SharedRulesAt();
  }

  /** The later rules that the earlier revision shares fire only after the first five
      have not. */
  lemma SkipsReflectablePrefixes(nodeLabel: string)
    requires FirstMatch(Rules, nodeLabel, 0) >= 5
    ensures !StartsWith(nodeLabel, "Region ") && !StartsWith(nodeLabel, "Reflectable module: ")
    ensures !StartsWith(nodeLabel, "Reflectable method: ") && !StartsWith(nodeLabel, "Reflectable field: ")
    ensures !StartsWith(nodeLabel, "Reflectable type: ")
  {
    SharedRulesAt();
    assert !Matches(Rules[0], nodeLabel) && !Matches(Rules[1], nodeLabel) && !Matches(Rules[2], nodeLabel);
    assert !Matches(Rules[3], nodeLabel) && !Matches(Rules[4], nodeLabel);
  }

  /** Custom attributes are read the same way by both revisions, failure included. */
  lemma AgreeOnCustomAttributes(id: int, nodeLabel: string)
    requires FirstMatch(Rules, nodeLabel, 0) == CustomAttributeRule
    ensures LegacyParseNode(id, nodeLabel) == ParseNode(id, nodeLabel)
  {
    SkipsReflectablePrefixes(nodeLabel);
    ParseNodeUsesFirstMatch(id, nodeLabel);
    PayloadRulesAt();
  }

  /** Past the custom-attribute test, both revisions read a method-table label alike unless
      it carries the "unbox_" marker. */
  lemma ApplyMethodTableAgrees(id: int, nodeLabel: string)
    requires StartsWith(nodeLabel, MethodTablePrefix) && EndsWith(nodeLabel, MethodTableSuffix)
    requires !StartsWith(nodeLabel, MethodTablePrefix + UnboxingMarker)
    requires !StartsWith(nodeLabel, CustomAttributeMarker)
    requires !StartsWith(nodeLabel, "Region ") && !StartsWith(nodeLabel, "Reflectable module: ")
    requires !StartsWith(nodeLabel, "Reflectable method: ") && !StartsWith(nodeLabel, "Reflectable field: ")
    requires !StartsWith(nodeLabel, "Reflectable type: ")
    ensures LegacyParseNode(id, nodeLabel) == Apply(MethodTable(MethodTablePrefix, MethodTableSuffix), id, nodeLabel)
  {
    MethodTableLabelLongEnough(nodeLabel);
  }

  /** Method tables without an "unbox_" marker get the same node from both revisions. */
  lemma AgreeOnMethodTables(id: int, nodeLabel: string)
    requires FirstMatch(Rules, nodeLabel, 0) == MethodTableRule
    requires !StartsWith(nodeLabel, MethodTablePrefix + UnboxingMarker)
    ensures LegacyParseNode(id, nodeLabel) == ParseNode(id, nodeLabel)
  {
    SkipsReflectablePrefixes(nodeLabel);
    ParseNodeUsesFirstMatch(id, nodeLabel);
    PayloadRulesAt();
    assert !Matches(Rules[CustomAttributeRule], nodeLabel);
    ApplyMethodTableAgrees(id, nodeLabel);
  }

  /** Constructed types get the same node from both revisions. */
  lemma AgreeOnConstructed(id: int, nodeLabel: string)
    requires FirstMatch(Rules, nodeLabel, 0) == ConstructedRule
    ensures LegacyParseNode(id, nodeLabel) == ParseNode(id, nodeLabel)
  {
    SkipsReflectablePrefixes(nodeLabel);
    ParseNodeUsesFirstMatch(id, nodeLabel);
    PayloadRulesAt();
    assert !Matches(Rules[CustomAttributeRule], nodeLabel) && !Matches(Rules[MethodTableRule], nodeLabel);
  }

  /** A label no current rule recognises is a plain node in both revisions. */
  lemma AgreeOnUnrecognised(id: int, nodeLabel: string)
    requires FirstMatch(Rules, nodeLabel, 0) == |Rules|
    ensures LegacyParseNode(id, nodeLabel) == ParseNode(id, nodeLabel) == Success(Node(id, nodeLabel, PlainNode))
  {
    SkipsReflectablePrefixes(nodeLabel);
    PayloadRulesAt();
    assert !Matches(Rules[CustomAttributeRule], nodeLabel) && !Matches(Rules[MethodTableRule], nodeLabel);
    assert !Matches(Rules[ConstructedRule], nodeLabel);
  }

  /** A label that begins with "??_7" passes over every test the earlier revision makes
      before the method-table one. */
  lemma MethodTableSkipsEarlierTests(nodeLabel: string)
    requires StartsWith(nodeLabel, MethodTablePrefix)
    ensures !StartsWith(nodeLabel, "Region ") && !StartsWith(nodeLabel, "Reflectable module: ")
    ensures !StartsWith(nodeLabel, "Reflectable method: ") && !StartsWith(nodeLabel, "Reflectable field: ")
    ensures !StartsWith(nodeLabel, "Reflectable type: ") && !StartsWith(nodeLabel, CustomAttributeMarker)
  {
    StartsWithChars(nodeLabel, MethodTablePrefix);
    assert nodeLabel[0] == '?';
    assert !StartsWith(nodeLabel, "Region ") by {
      if StartsWith(nodeLabel, "Region ") { StartsWithChars(nodeLabel, "Region "); }
    }
    assert !StartsWith(nodeLabel, "Reflectable module: ") by {
      if StartsWith(nodeLabel, "Reflectable module: ") { StartsWithChars(nodeLabel, "Reflectable module: "); }
    }
    assert !StartsWith(nodeLabel, "Reflectable method: ") by {
      if StartsWith(nodeLabel, "Reflectable method: ") { StartsWithChars(nodeLabel, "Reflectable method: "); }
    }
    assert !StartsWith(nodeLabel, "Reflectable field: ") by {
      if StartsWith(nodeLabel, "Reflectable field: ") { StartsWithChars(nodeLabel, "Reflectable field: "); }
    }
    assert !StartsWith(nodeLabel, "Reflectable type: ") by {
      if StartsWith(nodeLabel, "Reflectable type: ") { StartsWithChars(nodeLabel, "Reflectable type: "); }
    }
    assert !StartsWith(nodeLabel, CustomAttributeMarker) by {
      if StartsWith(nodeLabel, CustomAttributeMarker) { StartsWithChars(nodeLabel, CustomAttributeMarker); }
    }
  }

  /** The earlier revision keeps "unbox_" in the name of an unboxing method table, where the
      current one strips it. */
  lemma LegacyKeepsUnboxingMarker(id: int, name: string)
    requires !StartsWith(name, BoxedMarker)
    ensures LegacyParseNode(id, MethodTablePrefix + UnboxingMarker + name + MethodTableSuffix)
         == Success(Node(id, UnboxingMarker + name, MethodTableNode(false)))
  {
    var nodeLabel := MethodTablePrefix + UnboxingMarker + name + MethodTableSuffix;
    assert StartsWith(nodeLabel, MethodTablePrefix) by {
      assert nodeLabel[..4] == MethodTablePrefix;
    }
    assert EndsWith(nodeLabel, MethodTableSuffix) by {
      assert nodeLabel[|nodeLabel| - 5..] == MethodTableSuffix;
    }
    MethodTableSkipsEarlierTests(nodeLabel);
    var inner := nodeLabel[4..|nodeLabel| - 5];
    assert inner == UnboxingMarker + name;
    assert !StartsWith(inner, BoxedMarker) by {
      assert inner[0] == 'u';
    }
  }
}
