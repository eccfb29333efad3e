/** The second half of `ApplicationStats.GetTypes` (ApplicationStats.cs:62-73): index the
    decoded type records by metadata token, then hand every method to the record of its
    declaring type, appending a zero-size record for a declaring type the table does not
    list. The dictionary is the position of a token in the record list, so a record and its
    dictionary entry are one value. */
module TypeTables {
  import opened Wrappers
  import opened Metadata
  import opened Sequences
  import opened Stats
  import opened SizeTables

  /** The metadata tokens of the records, in order. */
  function Tokens(rows: seq<TypeStats>): (r: seq<int>)
    ensures |r| == |rows| && forall k :: 0 <= k < |rows| ==> r[k] == rows[k].typeRef.token
  {
    seq(|rows|, k requires 0 <= k < |rows| => rows[k].typeRef.token)
  }

  /** The token a method is filed under: its declaring type's. */
  function DeclaringToken(m: MethodStats): int {
    m.methodRef.declaring.token
  }

  /** The declaring-type tokens of the methods, in order. */
  function MethodTokens(methods: seq<MethodStats>): (r: seq<int>)
    ensures |r| == |methods| && forall k :: 0 <= k < |methods| ==> r[k] == DeclaringToken(methods[k])
  {
    seq(|methods|, k requires 0 <= k < |methods| => DeclaringToken(methods[k]))
  }

  /** The key `ToDictionary` rejects: the first token that repeats an earlier one. */
  function FirstRepeat(xs: seq<int>): (r: Option<int>)
    ensures r.None? <==> NoDuplicates(xs)
    ensures r.Some? ==> exists i, j :: 0 <= i < j < |xs| && xs[i] == r.value && xs[j] == r.value && NoDuplicates(xs[..j])
  {
    if |xs| == 0 then None
    else
      var init, last := xs[..|xs| - 1], xs[|xs| - 1];
      match FirstRepeat(init)
      case Some(t) =>
        var i, j :| 0 <= i < j < |init| && init[i] == t && init[j] == t && NoDuplicates(init[..j]);
        assert init[..j] == xs[..j];
        Some(t)
      case None =>
        if last in init then
          var i :| 0 <= i < |init| && init[i] == last;
          assert xs[..|xs| - 1] == init;
          Some(last)
        else None
  }

  /** The position of the record with token `token`, if any. */
  function TokenIndex(rows: seq<TypeStats>, token: int): (r: Option<nat>)
    ensures r.Some? ==> r.value < |rows| && rows[r.value].typeRef.token == token
    ensures r.None? <==> forall k :: 0 <= k < |rows| ==> rows[k].typeRef.token != token
  {
    if |rows| == 0 then None
    else if rows[0].typeRef.token == token then Some(0)
    else
      match TokenIndex(rows[1..], token)
      case Some(k) => Some(k + 1)
      case None => None
  }

  /** One turn of the loop at ApplicationStats.cs:63-72: the method joins the record of its
      declaring type, or a new zero-size record for that type is appended. */
  function Attach(rows: seq<TypeStats>, m: MethodStats): (r: seq<TypeStats>)
    requires NoDuplicates(Tokens(rows))
    ensures NoDuplicates(Tokens(r))
    ensures forall t :: t in Tokens(r) <==> t in Tokens(rows) || t == DeclaringToken(m)
    ensures (exists k :: 0 <= k < |rows| && rows[k].typeRef.token == DeclaringToken(m)) ==>
              && |r| == |rows|
              && forall k :: 0 <= k < |rows| ==>
                   r[k] == if rows[k].typeRef.token == DeclaringToken(m) then rows[k].(methods := rows[k].methods + [m]) else rows[k]
    ensures (forall k :: 0 <= k < |rows| ==> rows[k].typeRef.token != DeclaringToken(m)) ==>
              r == rows + [TypeStats(m.methodRef.declaring, 0, [m])]
  {
    match TokenIndex(rows, DeclaringToken(m))
    case Some(k) =>
      var r := rows[k := rows[k].(methods := rows[k].methods + [m])];
      assert Tokens(r) == Tokens(rows);
      r
    case None =>
      var r := rows + [TypeStats(m.methodRef.declaring, 0, [m])];
      assert Tokens(r) == Tokens(rows) + [DeclaringToken(m)];
      r
  }

  /** The whole loop, methods in order. */
  function AttachAll(rows: seq<TypeStats>, methods: seq<MethodStats>): (r: seq<TypeStats>)
    requires NoDuplicates(Tokens(rows))
    ensures NoDuplicates(Tokens(r))
    decreases |methods|
  {
    if |methods| == 0 then rows
    else Attach(AttachAll(rows, methods[..|methods| - 1]), methods[|methods| - 1])
  }

  /** `GetTypes` after decoding: `ToDictionary` throws on a repeated token; otherwise the
      methods are attached. */
  function AttachMethods(rows: seq<TypeStats>, methods: seq<MethodStats>): (r: Result<seq<TypeStats>, DecodeError>)
    ensures r.Failure? <==> !NoDuplicates(Tokens(rows))
    ensures r.Failure? ==> r.error == DuplicateToken(FirstRepeat(Tokens(rows)).value)
    ensures r.Success? ==> NoDuplicates(Tokens(r.value)) && |r.value| >= |rows|
  {
    match FirstRepeat(Tokens(rows))
    case Some(t) => Failure(DuplicateToken(t))
    case None => AttachAllGrows(rows, methods); Success(AttachAll(rows, methods))
  }

  /** Attaching never drops a record. */
  lemma {:induction false} AttachAllGrows(rows: seq<TypeStats>, methods: seq<MethodStats>)
    requires NoDuplicates(Tokens(rows))
    ensures |AttachAll(rows, methods)| >= |rows|
    decreases |methods|
  {
    if |methods| > 0 {
      AttachAllGrows(rows, methods[..|methods| - 1]);
    }
  }

  /** The methods filed under `token`, in order. */
  function MethodsWithToken(methods: seq<MethodStats>, token: int): (r: seq<MethodStats>)
    ensures forall m :: m in r ==> m in methods && DeclaringToken(m) == token
    decreases |methods|
  {
    if |methods| == 0 then []
    else
      var last := methods[|methods| - 1];
      MethodsWithToken(methods[..|methods| - 1], token) + (if DeclaringToken(last) == token then [last] else [])
  }

  /** The total size of the records. */
  function SizeSum(rows: seq<TypeStats>): int
    decreases |rows|
  {
    if |rows| == 0 then 0 else SizeSum(rows[..|rows| - 1]) + rows[|rows| - 1].size
  }
}

/** What attaching the methods guarantees (ApplicationStats.cs:62-73). */
module TypeTableFacts {
  import opened Wrappers
  import opened Metadata
  import opened Sequences
  import opened Stats
  import opened SizeTables
  import opened TypeTables

  /** The decoded records stay first, with their types and sizes; every record after them is
      a zero-size placeholder for a token the decoded records do not have. */
  predicate DecodedRecordsFirst(rows: seq<TypeStats>, r: seq<TypeStats>) {
    && |r| >= |rows|
    && (forall k :: 0 <= k < |rows| ==> r[k].typeRef == rows[k].typeRef && r[k].size == rows[k].size)
    && (forall k :: |rows| <= k < |r| ==> r[k].size == 0 && r[k].typeRef.token !in Tokens(rows))
  }

  lemma {:induction false} DecodedRecordsKept(rows: seq<TypeStats>, methods: seq<MethodStats>)
    requires NoDuplicates(Tokens(rows))
    ensures DecodedRecordsFirst(rows, AttachAll(rows, methods))
    decreases |methods|
  {
    if |methods| > 0 {
      var init := methods[..|methods| - 1];
      DecodedRecordsKept(rows, init);
      var before := AttachAll(rows, init);
      var r := AttachAll(rows, methods);
      forall k | |rows| <= k < |r|
        ensures r[k].typeRef.token !in Tokens(rows)
      {
        if k < |before| {
          assert r[k].typeRef == before[k].typeRef;
        } else {
          assert r[k].typeRef.token == DeclaringToken(methods[|methods| - 1]);
          forall j | 0 <= j < |rows|
            ensures rows[j].typeRef.token != r[k].typeRef.token
          {
            assert before[j].typeRef == rows[j].typeRef;
          }
        }
      }
    }
  }

  /** Afterwards the records are those of the decoded tokens and of the methods' declaring
      types, and no others. */
  lemma {:induction false} RecordTokens(rows: seq<TypeStats>, methods: seq<MethodStats>)
    requires NoDuplicates(Tokens(rows))
    ensures forall t :: t in Tokens(AttachAll(rows, methods)) <==> t in Tokens(rows) || t in MethodTokens(methods)
    decreases |methods|
  {
    if |methods| > 0 {
      var init := methods[..|methods| - 1];
      RecordTokens(rows, init);
      assert MethodTokens(methods) == MethodTokens(init) + [DeclaringToken(methods[|methods| - 1])];
    }
  }

  /** Exactly one record has the token. */
  predicate OneRecordFor(rows: seq<TypeStats>, token: int) {
    exists k :: 0 <= k < |rows| && rows[k].typeRef.token == token
                && forall j :: 0 <= j < |rows| && rows[j].typeRef.token == token ==> j == k
  }

  /** Afterwards every method's declaring type has exactly one record. */
  lemma EveryMethodHasOneRecord(rows: seq<TypeStats>, methods: seq<MethodStats>)
    requires NoDuplicates(Tokens(rows))
    ensures forall m :: m in methods ==> OneRecordFor(AttachAll(rows, methods), DeclaringToken(m))
  {
    RecordTokens(rows, methods);
    var r := AttachAll(rows, methods);
    assert forall k, j :: 0 <= k < |r| && 0 <= j < |r| && r[k].typeRef.token == r[j].typeRef.token ==> j == k by {
      forall k, j | 0 <= k < |r| && 0 <= j < |r| && r[k].typeRef.token == r[j].typeRef.token
        ensures j == k
      {
        assert Tokens(r)[k] == Tokens(r)[j];
      }
    }
    forall m | m in methods
      ensures OneRecordFor(r, DeclaringToken(m))
    {
      var i :| 0 <= i < |methods| && methods[i] == m;
      assert DeclaringToken(m) in MethodTokens(methods);
      var k :| 0 <= k < |r| && Tokens(r)[k] == DeclaringToken(m);
      assert r[k].typeRef.token == DeclaringToken(m);
    }
  }

  /** A token no method carries files no method. */
  lemma {:induction false} NoMethodsWithToken(methods: seq<MethodStats>, token: int)
    requires token !in MethodTokens(methods)
    ensures MethodsWithToken(methods, token) == []
    decreases |methods|
  {
    if |methods| > 0 {
      var init := methods[..|methods| - 1];
      assert forall k :: 0 <= k < |init| ==> MethodTokens(init)[k] == MethodTokens(methods)[k];
      NoMethodsWithToken(init, token);
      assert DeclaringToken(methods[|methods| - 1]) == MethodTokens(methods)[|methods| - 1];
    }
  }

  /** Each record's methods are the ones it started with followed by the methods filed under
      its token, in the order they were read; a placeholder starts with none. */
  predicate MethodsFiled(rows: seq<TypeStats>, methods: seq<MethodStats>, r: seq<TypeStats>) {
    && |rows| <= |r|
    && forall k :: 0 <= k < |r| ==>
         r[k].methods == (if k < |rows| then rows[k].methods else []) + MethodsWithToken(methods, r[k].typeRef.token)
  }

  lemma {:induction false} RecordMethods(rows: seq<TypeStats>, methods: seq<MethodStats>)
    requires NoDuplicates(Tokens(rows))
    ensures MethodsFiled(rows, methods, AttachAll(rows, methods))
    decreases |methods|
  {
    if |methods| == 0 {
      forall k | 0 <= k < |rows|
        ensures MethodsWithToken(methods, rows[k].typeRef.token) == []
      {
      }
    } else {
      var init := methods[..|methods| - 1];
      RecordMethods(rows, init);
      RecordTokens(rows, init);
      var before := AttachAll(rows, init);
      if DeclaringToken(methods[|methods| - 1]) in Tokens(before) {
        FiledAfterMerge(rows, methods, before);
      } else {
        FiledAfterAppend(rows, methods, before);
      }
    }
  }

  /** A method whose declaring type has a record joins the end of that record's methods. */
  lemma FiledAfterMerge(rows: seq<TypeStats>, methods: seq<MethodStats>, before: seq<TypeStats>)
    requires |methods| > 0 && NoDuplicates(Tokens(before))
    requires MethodsFiled(rows, methods[..|methods| - 1], before)
    requires DeclaringToken(methods[|methods| - 1]) in Tokens(before)
    ensures MethodsFiled(rows, methods, Attach(before, methods[|methods| - 1]))
  {
    var init, last := methods[..|methods| - 1], methods[|methods| - 1];
    var t := DeclaringToken(last);
    var r := Attach(before, last);
    var i :| 0 <= i < |before| && Tokens(before)[i] == t;
    assert before[i].typeRef.token == t;
    forall k | 0 <= k < |r|
      ensures r[k].methods == (if k < |rows| then rows[k].methods else []) + MethodsWithToken(methods, r[k].typeRef.token)
    {
      var token := r[k].typeRef.token;
      assert before[k].typeRef.token == token;
      MergedRecord(r[k], before[k], if k < |rows| then rows[k].methods else [],
                   MethodsWithToken(init, token), MethodsWithToken(methods, token), last, t == token);
    }
  }

  /** One record after a merge: its methods grow by the new one exactly when the tokens agree. */
  lemma MergedRecord(after: TypeStats, before: TypeStats, base: seq<MethodStats>, filed: seq<MethodStats>,
                     filedNow: seq<MethodStats>, last: MethodStats, hit: bool)
    requires before.methods == base + filed
    requires filedNow == filed + (if hit then [last] else [])
    requires after.methods == if hit then before.methods + [last] else before.methods
    ensures after.methods == base + filedNow
  {
    if hit {
      assert (base + filed) + [last] == base + (filed + [last]);
    }
  }

  /** A method whose declaring type has no record yet starts a placeholder record of its own. */
  lemma FiledAfterAppend(rows: seq<TypeStats>, methods: seq<MethodStats>, before: seq<TypeStats>)
    requires |methods| > 0 && NoDuplicates(Tokens(before))
    requires MethodsFiled(rows, methods[..|methods| - 1], before)
    requires DeclaringToken(methods[|methods| - 1]) !in Tokens(before)
    requires forall t :: t in Tokens(before) <==> t in Tokens(rows) || t in MethodTokens(methods[..|methods| - 1])
    ensures MethodsFiled(rows, methods, Attach(before, methods[|methods| - 1]))
  {
    var init, last := methods[..|methods| - 1], methods[|methods| - 1];
    var t := DeclaringToken(last);
    var r := Attach(before, last);
    assert r == before + [TypeStats(last.methodRef.declaring, 0, [last])];
    assert t !in MethodTokens(init);
    NoMethodsWithToken(init, t);
    forall k | 0 <= k < |r|
      ensures r[k].methods == (if k < |rows| then rows[k].methods else []) + MethodsWithToken(methods, r[k].typeRef.token)
    {
      if k < |before| {
        assert before[k].typeRef.token != t by {
          assert Tokens(before)[k] == before[k].typeRef.token;
        }
      }
    }
  }

  /** The placeholders are made from the declaring type of the first method filed under
      their token, and follow one another in the order those first methods were read. */
  predicate PlaceholdersInOrder(rows: seq<TypeStats>, methods: seq<MethodStats>, r: seq<TypeStats>) {
    && (forall k :: |rows| <= k < |r| ==>
          && r[k].typeRef.token in MethodTokens(methods)
          && r[k].typeRef == methods[FirstIndex(MethodTokens(methods), r[k].typeRef.token)].methodRef.declaring)
    && (forall i, j :: |rows| <= i < j < |r| ==>
          FirstIndex(MethodTokens(methods), r[i].typeRef.token) < FirstIndex(MethodTokens(methods), r[j].typeRef.token))
  }

  lemma {:induction false} PlaceholderOrder(rows: seq<TypeStats>, methods: seq<MethodStats>)
    requires NoDuplicates(Tokens(rows))
    ensures PlaceholdersInOrder(rows, methods, AttachAll(rows, methods))
    decreases |methods|
  {
    if |methods| > 0 {
      var init, last := methods[..|methods| - 1], methods[|methods| - 1];
      PlaceholderOrder(rows, init);
      RecordTokens(rows, init);
      PlaceholderTokens(rows, init);
      FirstIndicesOfInit(methods);
      var before := AttachAll(rows, init);
      var r := Attach(before, last);
      var t := DeclaringToken(last);
      if t !in Tokens(before) {
        var all := MethodTokens(methods);
        assert t !in MethodTokens(init);
        assert all[|init|] == t && all[..|init|] == MethodTokens(init);
        assert FirstIndex(all, t) == |init|;
        PlaceholdersGrow(rows, methods, before, r);
      } else {
        MergeKeepsTypes(before, last);
        PlaceholdersKept(rows, methods, before, r);
      }
    }
  }

  /** Joining an existing record changes no record's type. */
  lemma MergeKeepsTypes(rows: seq<TypeStats>, m: MethodStats)
    requires NoDuplicates(Tokens(rows)) && DeclaringToken(m) in Tokens(rows)
    ensures var r := Attach(rows, m);
            |r| == |rows| && forall k :: 0 <= k < |rows| ==> r[k].typeRef == rows[k].typeRef
  {
    var i :| 0 <= i < |rows| && Tokens(rows)[i] == DeclaringToken(m);
    assert rows[i].typeRef.token == DeclaringToken(m);
    var r := Attach(rows, m);
    forall k | 0 <= k < |rows|
      ensures r[k].typeRef == rows[k].typeRef
    {
    }
  }

  /** Every placeholder record carries the token of some method. */
  lemma PlaceholderTokens(rows: seq<TypeStats>, methods: seq<MethodStats>)
    requires NoDuplicates(Tokens(rows))
    ensures var r := AttachAll(rows, methods);
            |rows| <= |r| && forall k :: |rows| <= k < |r| ==> r[k].typeRef.token in MethodTokens(methods)
  {
    RecordTokens(rows, methods);
    DecodedRecordsKept(rows, methods);
    var r := AttachAll(rows, methods);
    forall k | |rows| <= k < |r|
      ensures r[k].typeRef.token in MethodTokens(methods)
    {
      assert Tokens(r)[k] == r[k].typeRef.token;
    }
  }

  /** A token of the earlier methods first occurs at the same place among all of them. */
  lemma FirstIndicesOfInit(methods: seq<MethodStats>)
    requires |methods| > 0
    ensures forall x :: x in MethodTokens(methods[..|methods| - 1]) ==>
              && FirstIndex(MethodTokens(methods), x) < |methods| - 1
              && FirstIndex(MethodTokens(methods), x) == FirstIndex(MethodTokens(methods[..|methods| - 1]), x)
  {
    var all, earlier := MethodTokens(methods), MethodTokens(methods[..|methods| - 1]);
    assert earlier == all[..|earlier|];
    forall x | x in earlier
      ensures FirstIndex(all, x) < |methods| - 1 && FirstIndex(all, x) == FirstIndex(earlier, x)
    {
      FirstIndexOfPrefix(all, earlier, x);
    }
  }

  lemma PlaceholdersKept(rows: seq<TypeStats>, methods: seq<MethodStats>, before: seq<TypeStats>, r: seq<TypeStats>)
    requires |methods| > 0
    requires PlaceholdersInOrder(rows, methods[..|methods| - 1], before)
    requires forall k :: |rows| <= k < |before| ==> before[k].typeRef.token in MethodTokens(methods[..|methods| - 1])
    requires forall x :: x in MethodTokens(methods[..|methods| - 1]) ==>
               && FirstIndex(MethodTokens(methods), x) < |methods| - 1
               && FirstIndex(MethodTokens(methods), x) == FirstIndex(MethodTokens(methods[..|methods| - 1]), x)
    requires |r| == |before| && forall k :: 0 <= k < |before| ==> r[k].typeRef == before[k].typeRef
    ensures PlaceholdersInOrder(rows, methods, r)
  {
    var init := methods[..|methods| - 1];
    forall k | |rows| <= k < |r|
      ensures r[k].typeRef.token in MethodTokens(methods)
      ensures r[k].typeRef == methods[FirstIndex(MethodTokens(methods), r[k].typeRef.token)].methodRef.declaring
    {
      var x := before[k].typeRef.token;
      assert MethodTokens(init)[FirstIndex(MethodTokens(init), x)] == x;
      assert methods[FirstIndex(MethodTokens(init), x)] == init[FirstIndex(MethodTokens(init), x)];
    }
  }

  lemma PlaceholdersGrow(rows: seq<TypeStats>, methods: seq<MethodStats>, before: seq<TypeStats>, r: seq<TypeStats>)
    requires |methods| > 0 && |rows| <= |before|
    requires PlaceholdersInOrder(rows, methods[..|methods| - 1], before)
    requires forall k :: |rows| <= k < |before| ==> before[k].typeRef.token in MethodTokens(methods[..|methods| - 1])
    requires forall x :: x in MethodTokens(methods[..|methods| - 1]) ==>
               && FirstIndex(MethodTokens(methods), x) < |methods| - 1
               && FirstIndex(MethodTokens(methods), x) == FirstIndex(MethodTokens(methods[..|methods| - 1]), x)
    requires FirstIndex(MethodTokens(methods), DeclaringToken(methods[|methods| - 1])) == |methods| - 1
    requires r == before + [TypeStats(methods[|methods| - 1].methodRef.declaring, 0, [methods[|methods| - 1]])]
    ensures PlaceholdersInOrder(rows, methods, r)
  {
    var init := methods[..|methods| - 1];
    forall k | |rows| <= k < |before|
      ensures r[k].typeRef == methods[FirstIndex(MethodTokens(methods), r[k].typeRef.token)].methodRef.declaring
    {
      var x := before[k].typeRef.token;
      assert methods[FirstIndex(MethodTokens(init), x)] == init[FirstIndex(MethodTokens(init), x)];
    }
  }

  /** Records with the same sizes have the same total. */
  lemma {:induction false} SizeSumOfSameSizes(a: seq<TypeStats>, b: seq<TypeStats>)
    requires |a| == |b| && forall k :: 0 <= k < |a| ==> a[k].size == b[k].size
    ensures SizeSum(a) == SizeSum(b)
    decreases |a|
  {
    if |a| > 0 {
      SizeSumOfSameSizes(a[..|a| - 1], b[..|b| - 1]);
    }
  }

  /** Attaching methods leaves the total type size as decoded: placeholders weigh nothing. */
  lemma {:induction false} AttachKeepsSizeSum(rows: seq<TypeStats>, methods: seq<MethodStats>)
    requires NoDuplicates(Tokens(rows))
    ensures SizeSum(AttachAll(rows, methods)) == SizeSum(rows)
    decreases |methods|
  {
    if |methods| > 0 {
      var init, last := methods[..|methods| - 1], methods[|methods| - 1];
      AttachKeepsSizeSum(rows, init);
      var before := AttachAll(rows, init);
      var r := Attach(before, last);
      if |r| == |before| {
        SizeSumOfSameSizes(r, before);
      } else {
        assert r[..|r| - 1] == before;
      }
    }
  }
}
