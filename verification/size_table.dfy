/** Decoding the three size tables of an `.mstat` file. The compiler stores each table as the
    body of a method of the global type ("Types", "Methods", "Blobs"); after macro
    simplification every instruction carries one operand, and consecutive operands form
    fixed-width records: (type, size) for types, (method, size, GC info size, EH info size)
    for methods and (name, size) for blobs. A trailing partial record is dropped. The casts
    the source applies to each operand throw on an operand of another kind; here they give a
    `DecodeError` naming the operand's position. */
module SizeTables {
  import opened Wrappers
  import opened Metadata
  import opened Stats

  datatype DecodeError =
    | NotAType(position: nat)
    | NotAMethod(position: nat)
    | NotAnInt(position: nat)
    | NotAString(position: nat)
    | DuplicateToken(token: int)
    | MissingContainer(containerName: string)

  /** Record widths, in operands. */
  const TypeWidth: nat := 2
  const MethodWidth: nat := 4
  const BlobWidth: nat := 2

  /** `(TypeReference)il[p].Operand`. */
  function TypeAt(ops: seq<Operand>, p: nat): (r: Result<TypeRef, DecodeError>)
    requires p < |ops|
    ensures r.Success? <==> ops[p].TypeOperand?
    ensures r.Success? ==> r.value == ops[p].typeRef
    ensures r.Failure? ==> r.error == NotAType(p)
  {
    if ops[p].TypeOperand? then Success(ops[p].typeRef) else Failure(NotAType(p))
  }

  /** `(MethodReference)il[p].Operand`. */
  function MethodAt(ops: seq<Operand>, p: nat): (r: Result<MethodRef, DecodeError>)
    requires p < |ops|
    ensures r.Success? <==> ops[p].MethodOperand?
    ensures r.Success? ==> r.value == ops[p].methodRef
    ensures r.Failure? ==> r.error == NotAMethod(p)
  {
    if ops[p].MethodOperand? then Success(ops[p].methodRef) else Failure(NotAMethod(p))
  }

  /** `(int)il[p].Operand`. */
  function IntAt(ops: seq<Operand>, p: nat): (r: Result<int, DecodeError>)
    requires p < |ops|
    ensures r.Success? <==> ops[p].IntOperand?
    ensures r.Success? ==> r.value == ops[p].intValue
    ensures r.Failure? ==> r.error == NotAnInt(p)
  {
    if ops[p].IntOperand? then Success(ops[p].intValue) else Failure(NotAnInt(p))
  }

  /** `(string)il[p].Operand`. */
  function StringAt(ops: seq<Operand>, p: nat): (r: Result<string, DecodeError>)
    requires p < |ops|
    ensures r.Success? <==> ops[p].StringOperand?
    ensures r.Success? ==> r.value == ops[p].stringValue
    ensures r.Failure? ==> r.error == NotAString(p)
  {
    if ops[p].StringOperand? then Success(ops[p].stringValue) else Failure(NotAString(p))
  }

  /** Type record `k`: operands 2k and 2k+1 (ApplicationStats.cs:54-60). A decoded record has
      no methods yet. */
  function TypeRecord(ops: seq<Operand>, k: nat): (r: Result<TypeStats, DecodeError>)
    requires TypeWidth * k + TypeWidth <= |ops|
    ensures r.Success? <==> ops[2 * k].TypeOperand? && ops[2 * k + 1].IntOperand?
    ensures r.Success? ==> r.value == TypeStats(ops[2 * k].typeRef, ops[2 * k + 1].intValue, [])
  {
    var t :- TypeAt(ops, 2 * k);
    var size :- IntAt(ops, 2 * k + 1);
    Success(TypeStats(t, size, []))
  }

  /** Method record `k`: operands 4k to 4k+3 (ApplicationStats.cs:84-94). */
  function MethodRecord(ops: seq<Operand>, k: nat): (r: Result<MethodStats, DecodeError>)
    requires MethodWidth * k + MethodWidth <= |ops|
    ensures r.Success? <==> ops[4 * k].MethodOperand? && ops[4 * k + 1].IntOperand?
                            && ops[4 * k + 2].IntOperand? && ops[4 * k + 3].IntOperand?
    ensures r.Success? ==> r.value == MethodStats(ops[4 * k].methodRef, ops[4 * k + 1].intValue,
                                                  ops[4 * k + 2].intValue, ops[4 * k + 3].intValue)
  {
    var m :- MethodAt(ops, 4 * k);
    var size :- IntAt(ops, 4 * k + 1);
    var gcInfoSize :- IntAt(ops, 4 * k + 2);
    var ehInfoSize :- IntAt(ops, 4 * k + 3);
    Success(MethodStats(m, size, gcInfoSize, ehInfoSize))
  }

  /** Blob record `k`: operands 2k and 2k+1 (ApplicationStats.cs:107-113). */
  function BlobRecord(ops: seq<Operand>, k: nat): (r: Result<BlobStats, DecodeError>)
    requires BlobWidth * k + BlobWidth <= |ops|
    ensures r.Success? <==> ops[2 * k].StringOperand? && ops[2 * k + 1].IntOperand?
    ensures r.Success? ==> r.value == BlobStats(ops[2 * k].stringValue, ops[2 * k + 1].intValue)
  {
    var name :- StringAt(ops, 2 * k);
    var size :- IntAt(ops, 2 * k + 1);
    Success(BlobStats(name, size))
  }

  /** The outcome of reading records one after the other: all of them, or the error of the
      first one that cannot be read. */
  function Collect<T>(outcomes: seq<Result<T, DecodeError>>): (r: Result<seq<T>, DecodeError>)
    ensures r.Success? <==> forall k :: 0 <= k < |outcomes| ==> outcomes[k].Success?
    ensures r.Success? ==> |r.value| == |outcomes| && forall k :: 0 <= k < |outcomes| ==> outcomes[k] == Success(r.value[k])
    ensures r.Failure? ==> exists k :: 0 <= k < |outcomes| && outcomes[k] == Failure(r.error)
                                       && forall j :: 0 <= j < k ==> outcomes[j].Success?
  {
    if |outcomes| == 0 then Success([])
    else
      var init := outcomes[..|outcomes| - 1];
      var last := outcomes[|outcomes| - 1];
      assert forall k :: 0 <= k < |init| ==> init[k] == outcomes[k];
      match Collect(init)
      case Failure(e) => Failure(e)
      case Success(rows) =>
        if last.Failure? then Failure(last.error)
        else
          assert forall k :: 0 <= k < |init| ==> outcomes[k] == Success((rows + [last.value])[k]);
          Success(rows + [last.value])
  }

  /** The first `count` type records, each read on its own. */
  function TypeReads(ops: seq<Operand>, count: nat): (r: seq<Result<TypeStats, DecodeError>>)
    requires TypeWidth * count <= |ops|
    ensures |r| == count && forall k :: 0 <= k < count ==> r[k] == TypeRecord(ops, k)
  {
    seq(count, k requires 0 <= k < count => TypeRecord(ops, k))
  }

  function MethodReads(ops: seq<Operand>, count: nat): (r: seq<Result<MethodStats, DecodeError>>)
    requires MethodWidth * count <= |ops|
    ensures |r| == count && forall k :: 0 <= k < count ==> r[k] == MethodRecord(ops, k)
  {
    seq(count, k requires 0 <= k < count => MethodRecord(ops, k))
  }

  function BlobReads(ops: seq<Operand>, count: nat): (r: seq<Result<BlobStats, DecodeError>>)
    requires BlobWidth * count <= |ops|
    ensures |r| == count && forall k :: 0 <= k < count ==> r[k] == BlobRecord(ops, k)
  {
    seq(count, k requires 0 <= k < count => BlobRecord(ops, k))
  }

  /** The number of whole records among `n` operands, the count the loop bound `i + w <= n`
      of the current decoder reaches: every whole record and no partial one. */
  function WholeRecords(n: nat, w: nat): (c: nat)
    requires w > 0
    ensures c * w <= n < c * w + w
  {
    n / w
  }

  /** The count the strict loop bound `i + w < n` of the earlier decoders reaches: only the
      records that at least one more operand follows. */
  function StrictRecords(n: nat, w: nat): (c: nat)
    requires w > 0
    ensures n == 0 ==> c == 0
    ensures n > 0 ==> c * w < n <= c * w + w
  {
    if n == 0 then 0 else (n - 1) / w
  }

  /** `ApplicationStats.GetTypes` up to the point where the methods are attached
      (ApplicationStats.cs:47-61). */
  method GetTypes(ops: seq<Operand>) returns (r: Result<seq<TypeStats>, DecodeError>)
    ensures r == Collect(TypeReads(ops, WholeRecords(|ops|, TypeWidth)))
    ensures r.Success? ==> |r.value| == |ops| / 2
  {
    var rows: seq<TypeStats> := [];
    var i := 0;
    while i + 2 <= |ops|
      invariant i % 2 == 0 && i <= |ops|
      invariant |rows| == i / 2
      invariant forall k :: 0 <= k < i / 2 ==> TypeRecord(ops, k) == Success(rows[k])
    {
      var row := TypeRecord(ops, i / 2);
      if row.Failure? {
        FirstFailure(TypeReads(ops, WholeRecords(|ops|, TypeWidth)), i / 2);
        return Failure(row.error);
      }
      rows := rows + [row.value];
      i := i + 2;
    }
    AllRead(TypeReads(ops, WholeRecords(|ops|, TypeWidth)), rows);
    r := Success(rows);
  }

  /** `ApplicationStats.GetMethods` (ApplicationStats.cs:76-97). */
  method GetMethods(ops: seq<Operand>) returns (r: Result<seq<MethodStats>, DecodeError>)
    ensures r == Collect(MethodReads(ops, WholeRecords(|ops|, MethodWidth)))
    ensures r.Success? ==> |r.value| == |ops| / 4
  {
    var rows: seq<MethodStats> := [];
    var i := 0;
    while i + 4 <= |ops|
      invariant i % 4 == 0 && i <= |ops|
      invariant |rows| == i / 4
      invariant forall k :: 0 <= k < i / 4 ==> MethodRecord(ops, k) == Success(rows[k])
    {
      var row := MethodRecord(ops, i / 4);
      if row.Failure? {
        FirstFailure(MethodReads(ops, WholeRecords(|ops|, MethodWidth)), i / 4);
        return Failure(row.error);
      }
      rows := rows + [row.value];
      i := i + 4;
    }
    AllRead(MethodReads(ops, WholeRecords(|ops|, MethodWidth)), rows);
    r := Success(rows);
  }

  /** `ApplicationStats.GetBlobs` (ApplicationStats.cs:99-116). */
  method GetBlobs(ops: seq<Operand>) returns (r: Result<seq<BlobStats>, DecodeError>)
    ensures r == Collect(BlobReads(ops, WholeRecords(|ops|, BlobWidth)))
    ensures r.Success? ==> |r.value| == |ops| / 2
  {
    var rows: seq<BlobStats> := [];
    var i := 0;
    while i + 2 <= |ops|
      invariant i % 2 == 0 && i <= |ops|
      invariant |rows| == i / 2
      invariant forall k :: 0 <= k < i / 2 ==> BlobRecord(ops, k) == Success(rows[k])
    {
      var row := BlobRecord(ops, i / 2);
      if row.Failure? {
        FirstFailure(BlobReads(ops, WholeRecords(|ops|, BlobWidth)), i / 2);
        return Failure(row.error);
      }
      rows := rows + [row.value];
      i := i + 2;
    }
    AllRead(BlobReads(ops, WholeRecords(|ops|, BlobWidth)), rows);
    r := Success(rows);
  }

  /** The earlier `GetTypes` (AssemblyStats.cs:74-88, Program.cs:94-108). */
  method LegacyGetTypes(ops: seq<Operand>) returns (r: Result<seq<TypeStats>, DecodeError>)
    ensures r == Collect(TypeReads(ops, StrictRecords(|ops|, TypeWidth)))
  {
    var rows: seq<TypeStats> := [];
    var i := 0;
    while i + 2 < |ops|
      invariant i % 2 == 0 && i <= |ops|
      invariant i / 2 <= StrictRecords(|ops|, TypeWidth)
      invariant |rows| == i / 2
      invariant forall k :: 0 <= k < i / 2 ==> TypeRecord(ops, k) == Success(rows[k])
    {
      var row := TypeRecord(ops, i / 2);
      if row.Failure? {
        FirstFailure(TypeReads(ops, StrictRecords(|ops|, TypeWidth)), i / 2);
        return Failure(row.error);
      }
      rows := rows + [row.value];
      i := i + 2;
    }
    AllRead(TypeReads(ops, StrictRecords(|ops|, TypeWidth)), rows);
    r := Success(rows);
  }

  /** The earlier `GetMethods` (AssemblyStats.cs:90-108, Program.cs:110-128). */
  method LegacyGetMethods(ops: seq<Operand>) returns (r: Result<seq<MethodStats>, DecodeError>)
    ensures r == Collect(MethodReads(ops, StrictRecords(|ops|, MethodWidth)))
  {
    var rows: seq<MethodStats> := [];
    var i := 0;
    while i + 4 < |ops|
      invariant i % 4 == 0 && i <= |ops|
      invariant i / 4 <= StrictRecords(|ops|, MethodWidth)
      invariant |rows| == i / 4
      invariant forall k :: 0 <= k < i / 4 ==> MethodRecord(ops, k) == Success(rows[k])
    {
      var row := MethodRecord(ops, i / 4);
      if row.Failure? {
        FirstFailure(MethodReads(ops, StrictRecords(|ops|, MethodWidth)), i / 4);
        return Failure(row.error);
      }
      rows := rows + [row.value];
      i := i + 4;
    }
    AllRead(MethodReads(ops, StrictRecords(|ops|, MethodWidth)), rows);
    r := Success(rows);
  }

  /** The earlier `GetBlobs` (AssemblyStats.cs:110-124, Program.cs:130-144). */
  method LegacyGetBlobs(ops: seq<Operand>) returns (r: Result<seq<BlobStats>, DecodeError>)
    ensures r == Collect(BlobReads(ops, StrictRecords(|ops|, BlobWidth)))
  {
    var rows: seq<BlobStats> := [];
    var i := 0;
    while i + 2 < |ops|
      invariant i % 2 == 0 && i <= |ops|
      invariant i / 2 <= StrictRecords(|ops|, BlobWidth)
      invariant |rows| == i / 2
      invariant forall k :: 0 <= k < i / 2 ==> BlobRecord(ops, k) == Success(rows[k])
    {
      var row := BlobRecord(ops, i / 2);
      if row.Failure? {
        FirstFailure(BlobReads(ops, StrictRecords(|ops|, BlobWidth)), i / 2);
        return Failure(row.error);
      }
      rows := rows + [row.value];
      i := i + 2;
    }
    AllRead(BlobReads(ops, StrictRecords(|ops|, BlobWidth)), rows);
    r := Success(rows);
  }

  /** Reading stops at the first record that cannot be read, with its error. */
  lemma FirstFailure<T>(outcomes: seq<Result<T, DecodeError>>, k: nat)
    requires k < |outcomes| && outcomes[k].Failure?
    requires forall j :: 0 <= j < k ==> outcomes[j].Success?
    ensures Collect(outcomes) == Failure(outcomes[k].error)
  {
    var r := Collect(outcomes);
    var k' :| 0 <= k' < |outcomes| && outcomes[k'] == Failure(r.error) && forall j :: 0 <= j < k' ==> outcomes[j].Success?;
    assert k' == k;
  }

  /** When every record outcomes, the outcome lists them. */
  lemma AllRead<T>(outcomes: seq<Result<T, DecodeError>>, rows: seq<T>)
    requires |rows| == |outcomes| && forall k :: 0 <= k < |outcomes| ==> outcomes[k] == Success(rows[k])
    ensures Collect(outcomes) == Success(rows)
  {
    assert Collect(outcomes).Success?;
    var r := Collect(outcomes).value;
    assert |r| == |rows|;
    assert forall k :: 0 <= k < |rows| ==> outcomes[k] == Success(r[k]) && r[k] == rows[k];
    assert r == rows;
  }

  /** A method body of the global type: its name and its operands. */
  datatype ContainerMethod = ContainerMethod(name: string, operands: seq<Operand>)

  /** `globalType.Methods.First(x => x.Name == name)` (Program.cs:147-161): the first method
      of that name; `First` throws when there is none. */
  function Container(methods: seq<ContainerMethod>, name: string): (r: Result<seq<Operand>, DecodeError>)
    ensures r.Success? <==> exists k :: 0 <= k < |methods| && methods[k].name == name
    ensures r.Failure? ==> r.error == MissingContainer(name)
    ensures r.Success? ==> exists k :: 0 <= k < |methods| && methods[k].name == name && r.value == methods[k].operands
                                       && forall j :: 0 <= j < k ==> methods[j].name != name
  {
    if |methods| == 0 then Failure(MissingContainer(name))
    else if methods[0].name == name then Success(methods[0].operands)
    else
      var r := Container(methods[1..], name);
      assert forall k :: 1 <= k < |methods| ==> methods[k] == methods[1..][k - 1];
      r
  }
}

/** How the earlier decoders relate to the current ones. */
module SizeTableFacts {
  import opened Wrappers
  import opened Metadata
  import opened Stats
  import opened SizeTables

  /** Reading fewer records gives a prefix of the records. */
  lemma {:induction false} CollectPrefix<T>(outcomes: seq<Result<T, DecodeError>>, n: nat)
    requires n <= |outcomes| && Collect(outcomes).Success?
    ensures Collect(outcomes[..n]) == Success(Collect(outcomes).value[..n])
  {
    var rows := Collect(outcomes).value;
    var prefix := outcomes[..n];
    assert forall k :: 0 <= k < n ==> prefix[k] == Success(rows[..n][k]);
    AllRead(prefix, rows[..n]);
  }

  /** The strict bound reads as many records as the current one unless the operands form a
      whole number of records, and then one fewer. */
  lemma StrictRecordsComparedToWhole(n: nat, w: nat)
    requires w > 0
    ensures n == 0 || n % w != 0 ==> StrictRecords(n, w) == WholeRecords(n, w)
    ensures n > 0 && n % w == 0 ==> StrictRecords(n, w) == WholeRecords(n, w) - 1
  {
    if n > 0 {
      var q, rest := n / w, n % w;
      assert n == q * w + rest && 0 <= rest < w;
      if rest == 0 {
        DivUnique(n - 1, w, q - 1, w - 1);
      } else {
        DivUnique(n - 1, w, q, rest - 1);
      }
    }
  }

  /** Division by `w` has one answer. */
  lemma DivUnique(a: int, w: int, q: int, rest: int)
    requires w > 0 && a == q * w + rest && 0 <= rest < w
    ensures a / w == q
  {
    var q', rest' := a / w, a % w;
    assert q' * w + rest' == q * w + rest;
    if q' < q {
      MulGap(q', q, w);
    } else if q' > q {
      MulGap(q, q', w);
    }
  }

  /** Multiples of `w` at different factors lie at least `w` apart. */
  lemma {:induction false} MulGap(x: int, y: int, w: int)
    requires x < y && w > 0
    ensures x * w + w <= y * w
    decreases y - x
  {
    if x + 1 < y {
      MulGap(x + 1, y, w);
    }
    assert (x + 1) * w == x * w + w;
  }

  lemma TypeReadsPrefix(ops: seq<Operand>, c: nat, d: nat)
    requires d <= c && TypeWidth * c <= |ops|
    ensures TypeReads(ops, c)[..d] == TypeReads(ops, d)
  {
  }

  lemma MethodReadsPrefix(ops: seq<Operand>, c: nat, d: nat)
    requires d <= c && MethodWidth * c <= |ops|
    ensures MethodReads(ops, c)[..d] == MethodReads(ops, d)
  {
  }

  lemma BlobReadsPrefix(ops: seq<Operand>, c: nat, d: nat)
    requires d <= c && BlobWidth * c <= |ops|
    ensures BlobReads(ops, c)[..d] == BlobReads(ops, d)
  {
  }

  /** Where the current type decoder succeeds, the earlier one returns a prefix of its
      records, missing the last one exactly when the operands form whole records. */
  lemma LegacyTypesArePrefix(ops: seq<Operand>)
    requires Collect(TypeReads(ops, WholeRecords(|ops|, TypeWidth))).Success?
    ensures var rows := Collect(TypeReads(ops, WholeRecords(|ops|, TypeWidth))).value;
            var legacy := Collect(TypeReads(ops, StrictRecords(|ops|, TypeWidth)));
            && legacy.Success?
            && legacy.value == rows[..StrictRecords(|ops|, TypeWidth)]
            && (|ops| > 0 && |ops| % 2 == 0 <==> |legacy.value| == |rows| - 1)
  {
    var c, s := WholeRecords(|ops|, TypeWidth), StrictRecords(|ops|, TypeWidth);
    StrictRecordsComparedToWhole(|ops|, TypeWidth);
    TypeReadsPrefix(ops, c, s);
    CollectPrefix(TypeReads(ops, c), s);
  }

  /** The same for method records. */
  lemma LegacyMethodsArePrefix(ops: seq<Operand>)
    requires Collect(MethodReads(ops, WholeRecords(|ops|, MethodWidth))).Success?
    ensures var rows := Collect(MethodReads(ops, WholeRecords(|ops|, MethodWidth))).value;
            var legacy := Collect(MethodReads(ops, StrictRecords(|ops|, MethodWidth)));
            && legacy.Success?
            && legacy.value == rows[..StrictRecords(|ops|, MethodWidth)]
            && (|ops| > 0 && |ops| % 4 == 0 <==> |legacy.value| == |rows| - 1)
  {
    var c, s := WholeRecords(|ops|, MethodWidth), StrictRecords(|ops|, MethodWidth);
    StrictRecordsComparedToWhole(|ops|, MethodWidth);
    MethodReadsPrefix(ops, c, s);
    CollectPrefix(MethodReads(ops, c), s);
  }

  /** The same for blob records. */
  lemma LegacyBlobsArePrefix(ops: seq<Operand>)
    requires Collect(BlobReads(ops, WholeRecords(|ops|, BlobWidth))).Success?
    ensures var rows := Collect(BlobReads(ops, WholeRecords(|ops|, BlobWidth))).value;
            var legacy := Collect(BlobReads(ops, StrictRecords(|ops|, BlobWidth)));
            && legacy.Success?
            && legacy.value == rows[..StrictRecords(|ops|, BlobWidth)]
            && (|ops| > 0 && |ops| % 2 == 0 <==> |legacy.value| == |rows| - 1)
  {
    var c, s := WholeRecords(|ops|, BlobWidth), StrictRecords(|ops|, BlobWidth);
    StrictRecordsComparedToWhole(|ops|, BlobWidth);
    BlobReadsPrefix(ops, c, s);
    CollectPrefix(BlobReads(ops, c), s);
  }

  /** A types table holding exactly one record: the earlier decoder returns no record, the
      current one returns it. */
  lemma StrictBoundDropsLastRecord(t: TypeRef, size: int)
    ensures var ops := [TypeOperand(t), IntOperand(size)];
            && Collect(TypeReads(ops, StrictRecords(|ops|, TypeWidth))) == Success([])
            && Collect(TypeReads(ops, WholeRecords(|ops|, TypeWidth))) == Success([TypeStats(t, size, [])])
  {
    var ops := [TypeOperand(t), IntOperand(size)];
    assert StrictRecords(|ops|, TypeWidth) == 0;
    assert WholeRecords(|ops|, TypeWidth) == 1;
    AllRead(TypeReads(ops, 1), [TypeStats(t, size, [])]);
  }
}
