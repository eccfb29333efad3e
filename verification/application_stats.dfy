/** The whole of `ApplicationStats.TypeStats` (ApplicationStats.cs:21-22, 47-73): find the
    "Types" container, decode its records, index them by token, then find the "Methods"
    container, decode it and file every method under its declaring type. The steps run in
    that order, so an error is reported from the first step that fails. */
module ApplicationTables {
  import opened Wrappers
  import opened Metadata
  import opened Sequences
  import opened Stats
  import opened SizeTables
  import opened TypeTables
  import opened TypeTableFacts

  /** The names of the containers (Program.cs:147-161). */
  const TypesContainer := "Types"
  const MethodsContainer := "Methods"

  /** The decoded type records, before any method is attached (ApplicationStats.cs:21, 47-61). */
  function DecodedTypes(globals: seq<ContainerMethod>): Result<seq<TypeStats>, DecodeError> {
    var ops :- Container(globals, TypesContainer);
    Collect(TypeReads(ops, WholeRecords(|ops|, TypeWidth)))
  }

  /** The decoded method records (ApplicationStats.cs:22, 76-97). */
  function DecodedMethods(globals: seq<ContainerMethod>): Result<seq<MethodStats>, DecodeError> {
    var ops :- Container(globals, MethodsContainer);
    Collect(MethodReads(ops, WholeRecords(|ops|, MethodWidth)))
  }

  /** The type table stage: the decoded records when their tokens are distinct, which is
      what `ToDictionary` (ApplicationStats.cs:62) demands before any method is read. */
  function TypeTable(globals: seq<ContainerMethod>): (r: Result<seq<TypeStats>, DecodeError>)
    ensures r.Success? <==> DecodedTypes(globals).Success? && NoDuplicates(Tokens(DecodedTypes(globals).value))
    ensures r.Success? ==> r.value == DecodedTypes(globals).value
    ensures DecodedTypes(globals).Failure? ==> r == Failure(DecodedTypes(globals).error)
    ensures DecodedTypes(globals).Success? && !NoDuplicates(Tokens(DecodedTypes(globals).value))
            ==> r == Failure(DuplicateToken(FirstRepeat(Tokens(DecodedTypes(globals).value)).value))
  {
    var rows :- DecodedTypes(globals);
    match FirstRepeat(Tokens(rows))
    case Some(t) => Failure(DuplicateToken(t))
    case None => Success(rows)
  }

  /** `ApplicationStats.TypeStats`: the type records with every method filed under its
      declaring type, placeholders for the undeclared types following in order of their first
      method; or the error of the first step that fails. */
  function TypeStatsOf(globals: seq<ContainerMethod>): (r: Result<seq<TypeStats>, DecodeError>)
    ensures r.Success? <==> TypeTable(globals).Success? && DecodedMethods(globals).Success?
    ensures TypeTable(globals).Failure? ==> r == Failure(TypeTable(globals).error)
    ensures TypeTable(globals).Success? && DecodedMethods(globals).Failure?
            ==> r == Failure(DecodedMethods(globals).error)
    ensures r.Success? ==> && DecodedRecordsFirst(TypeTable(globals).value, r.value)
                           && MethodsFiled(TypeTable(globals).value, DecodedMethods(globals).value, r.value)
                           && PlaceholdersInOrder(TypeTable(globals).value, DecodedMethods(globals).value, r.value)
                           && NoDuplicates(Tokens(r.value))
  {
    var rows :- TypeTable(globals);
    var methods :- DecodedMethods(globals);
    DecodedRecordsKept(rows, methods);
    RecordMethods(rows, methods);
    PlaceholderOrder(rows, methods);
    RecordTokens(rows, methods);
    Success(AttachAll(rows, methods))
  }

  /** A type table that cannot be built is reported the same way whatever the "Methods"
      container holds, or whether there is one at all: the methods are read only after the
      dictionary is built. */
  lemma TypeErrorsComeFirst(globals: seq<ContainerMethod>, others: seq<ContainerMethod>)
    requires Container(globals, TypesContainer) == Container(others, TypesContainer)
    requires TypeTable(globals).Failure?
    ensures TypeStatsOf(globals) == TypeStatsOf(others) == Failure(TypeTable(globals).error)
  {
  }

  /** An error from the methods is reported only when the type records decoded with distinct
      tokens; it is then the first error in the "Methods" container. */
  lemma MethodErrorsComeLast(globals: seq<ContainerMethod>)
    requires TypeStatsOf(globals).Failure?
    requires TypeStatsOf(globals).error == MissingContainer(MethodsContainer)
             || TypeStatsOf(globals).error.NotAMethod?
    ensures DecodedTypes(globals).Success? && NoDuplicates(Tokens(DecodedTypes(globals).value))
    ensures DecodedMethods(globals).Failure? && TypeStatsOf(globals).error == DecodedMethods(globals).error
  {
    if DecodedTypes(globals).Failure? {
      TypeErrorsAreAboutTypes(globals);
    }
  }

  /** The type stage never complains about the "Methods" container or a method reference. */
  lemma TypeErrorsAreAboutTypes(globals: seq<ContainerMethod>)
    requires DecodedTypes(globals).Failure?
    ensures DecodedTypes(globals).error != MissingContainer(MethodsContainer)
    ensures !DecodedTypes(globals).error.NotAMethod?
  {
    var tc := Container(globals, TypesContainer);
    if tc.Success? {
      var outcomes := TypeReads(tc.value, WholeRecords(|tc.value|, TypeWidth));
      var k :| 0 <= k < |outcomes| && outcomes[k] == Failure(DecodedTypes(globals).error);
      assert outcomes[k] == TypeRecord(tc.value, k);
    }
  }

  /** `ApplicationStats.TypeStats` step by step, in the source's order: the "Types" container,
      its records, the dictionary, the "Methods" container, its records, then the filing. */
  method ReadTypeStats(globals: seq<ContainerMethod>) returns (r: Result<seq<TypeStats>, DecodeError>)
    ensures r == TypeStatsOf(globals)
    ensures r.Success? ==> |r.value| >= |TypeTable(globals).value|
  {
    var typeOps := Container(globals, TypesContainer);
    if typeOps.Failure? {
      return Failure(typeOps.error);
    }
    var rows := GetTypes(typeOps.value);
    if rows.Failure? {
      return Failure(rows.error);
    }
    var repeat := FirstRepeat(Tokens(rows.value));
    if repeat.Some? {
      return Failure(DuplicateToken(repeat.value));
    }
    var methodOps := Container(globals, MethodsContainer);
    if methodOps.Failure? {
      return Failure(methodOps.error);
    }
    var methods := GetMethods(methodOps.value);
    if methods.Failure? {
      return Failure(methods.error);
    }
    r := AttachMethods(rows.value, methods.value);
  }
}
