/** The size records of the analyser (TypeStats.cs, MethodStats.cs, AssemblyStats.cs of
    MstatAnalyser.Core) and the assemblies a type or method relates to: its own scope and,
    for a generic instance, those of its generic arguments, recursively. The lazily cached
    `RelatedAssemblies` lists are plain functions of the record here, so every read gives the
    same list. */
module Stats {
  import opened Wrappers
  import opened Metadata
  import opened Sequences

  /** A decoded type record. `methods` is the list that `GetTypes` fills (ApplicationStats.cs:71). */
  datatype TypeStats = TypeStats(typeRef: TypeRef, size: int, methods: seq<MethodStats>)

  datatype MethodStats = MethodStats(methodRef: MethodRef, size: int, gcInfoSize: int, ehInfoSize: int)
  {
    /** MethodStats.cs:13. */
    function TotalSize(): int {
      size + gcInfoSize + ehInfoSize
    }
  }

  datatype BlobStats = BlobStats(name: string, size: int)

  datatype AssemblyStats = AssemblyStats(assemblyName: string, typesSize: int, methodsSize: int)
  {
    /** AssemblyStats.cs:9. */
    function TotalSize(): int {
      typesSize + methodsSize
    }
  }

  /** `GetTypeAssemblies` (MstatAnalyser.Core/TypeStats.cs:26-39, MstatAnalyser.Core/MethodStats.cs:38-51): the scope first, then
      for a generic instance the assemblies of each argument in order. */
  function TypeAssemblies(t: TypeRef): (r: seq<string>)
    decreases t, 1
    ensures |r| > 0 && r[0] == t.scope
    ensures !t.IsGenericInstance() ==> r == [t.scope]
  {
    [t.scope] + (if t.IsGenericInstance() then ArgumentAssemblies(t.genericArgs) else [])
  }

  function ArgumentAssemblies(ts: seq<TypeRef>): seq<string>
    decreases ts, 0
  {
    if |ts| == 0 then [] else TypeAssemblies(ts[0]) + ArgumentAssemblies(ts[1..])
  }

  /** TypeStats.cs:12. */
  function PrimaryAssembly(t: TypeStats): string {
    t.typeRef.scope
  }

  /** TypeStats.cs:13-22. */
  function RelatedAssemblies(t: TypeStats): (r: seq<string>)
    ensures NoDuplicates(r)
    ensures forall a :: a in r <==> a in TypeAssemblies(t.typeRef)
    ensures |r| > 0 && r[0] == PrimaryAssembly(t)
  {
    var all := TypeAssemblies(t.typeRef);
    var r := Distinct(all);
    r
  }

  /** MethodStats.cs:15. */
  function MethodPrimaryAssembly(m: MethodStats): string {
    m.methodRef.declaring.scope
  }

  /** The assemblies a method's generic arguments bring in: none unless it is a generic
      instance. */
  function MethodArgumentAssemblies(m: MethodRef): seq<string> {
    if m.IsGenericInstance() then ArgumentAssemblies(m.genericArgs) else []
  }

  /** MethodStats.cs:16-36: the declaring type's assemblies, then for a generic method
      instance those of its arguments, without duplicates. */
  function MethodRelatedAssemblies(m: MethodStats): (r: seq<string>)
    ensures NoDuplicates(r)
    ensures forall a :: a in r <==> a in TypeAssemblies(m.methodRef.declaring) || a in MethodArgumentAssemblies(m.methodRef)
    ensures |r| > 0 && r[0] == MethodPrimaryAssembly(m)
  {
    var own := TypeAssemblies(m.methodRef.declaring);
    var first := Distinct(own);
    if m.methodRef.IsGenericInstance() then
      var all := first + ArgumentAssemblies(m.methodRef.genericArgs);
      var r := Distinct(all);
      r
    else first
  }
}
