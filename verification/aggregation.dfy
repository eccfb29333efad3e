/** Size totals per assembly (ApplicationStats.cs:25-45) and per namespace (Program.cs:9-26,
    43-44). Both are a LINQ `GroupBy` followed by sums; `GroupBy` keeps the keys in the
    order in which they first appear. */
module Aggregation {
  import opened Wrappers
  import opened Metadata
  import opened Sequences
  import opened Stats
  import opened TypeTables

  /** One element of a grouping: its key and the two sizes it contributes. */
  datatype Tally = Tally(key: string, first: int, second: int)

  function Keys(ts: seq<Tally>): (r: seq<string>)
    ensures |r| == |ts| && forall k :: 0 <= k < |ts| ==> r[k] == ts[k].key
  {
    seq(|ts|, k requires 0 <= k < |ts| => ts[k].key)
  }

  function FirstSum(ts: seq<Tally>): int
    decreases |ts|
  {
    if |ts| == 0 then 0 else FirstSum(ts[..|ts| - 1]) + ts[|ts| - 1].first
  }

  function SecondSum(ts: seq<Tally>): int
    decreases |ts|
  {
    if |ts| == 0 then 0 else SecondSum(ts[..|ts| - 1]) + ts[|ts| - 1].second
  }

  /** The first sizes of the elements with key `key`. */
  function FirstSumOf(ts: seq<Tally>, key: string): int
    decreases |ts|
  {
    if |ts| == 0 then 0
    else FirstSumOf(ts[..|ts| - 1], key) + (if ts[|ts| - 1].key == key then ts[|ts| - 1].first else 0)
  }

  function SecondSumOf(ts: seq<Tally>, key: string): int
    decreases |ts|
  {
    if |ts| == 0 then 0
    else SecondSumOf(ts[..|ts| - 1], key) + (if ts[|ts| - 1].key == key then ts[|ts| - 1].second else 0)
  }

  /** The position of the group with key `key`, if any. */
  function GroupIndex(groups: seq<Tally>, key: string): (r: Option<nat>)
    ensures r.Some? ==> r.value < |groups| && groups[r.value].key == key
    ensures r.None? <==> key !in Keys(groups)
  {
    if |groups| == 0 then None
    else if groups[0].key == key then Some(0)
    else
      match GroupIndex(groups[1..], key)
      case Some(k) => Some(k + 1)
      case None =>
        assert forall k :: 1 <= k < |groups| ==> Keys(groups)[k] == Keys(groups[1..])[k - 1];
        None
  }

  /** Add one element to the groups built so far: into the group of its key, or as a new
      last group. */
  function AddTally(groups: seq<Tally>, t: Tally): (r: seq<Tally>)
    requires NoDuplicates(Keys(groups))
    ensures NoDuplicates(Keys(r))
    ensures Keys(r) == if t.key in Keys(groups) then Keys(groups) else Keys(groups) + [t.key]
    ensures forall k :: 0 <= k < |groups| ==>
              r[k] == if groups[k].key == t.key then Tally(t.key, groups[k].first + t.first, groups[k].second + t.second) else groups[k]
    ensures t.key !in Keys(groups) ==> r[|groups|] == t
  {
    match GroupIndex(groups, t.key)
    case Some(k) =>
      var r := groups[k := Tally(t.key, groups[k].first + t.first, groups[k].second + t.second)];
      assert Keys(r) == Keys(groups);
      assert forall j :: 0 <= j < |groups| && groups[j].key == t.key ==> j == k by {
        forall j | 0 <= j < |groups| && groups[j].key == t.key
          ensures j == k
        {
          assert Keys(groups)[j] == Keys(groups)[k];
        }
      }
      r
    case None =>
      var r := groups + [t];
      assert Keys(r) == Keys(groups) + [t.key];
      r
  }

  /** `GroupBy(x => x.key).Select(g => (g.Key, g.Sum(first), g.Sum(second)))`. */
  function GroupBy(ts: seq<Tally>): (r: seq<Tally>)
    ensures NoDuplicates(Keys(r))
    decreases |ts|
  {
    if |ts| == 0 then [] else AddTally(GroupBy(ts[..|ts| - 1]), ts[|ts| - 1])
  }

  /** What each type and each method contributes to its assembly (ApplicationStats.cs:31-32). */
  function Contributions(types: seq<TypeStats>, methods: seq<MethodStats>): (r: seq<Tally>)
    ensures |r| == |types| + |methods|
    ensures forall k :: 0 <= k < |types| ==> r[k] == Tally(PrimaryAssembly(types[k]), types[k].size, 0)
    ensures forall k :: 0 <= k < |methods| ==>
              r[|types| + k] == Tally(MethodPrimaryAssembly(methods[k]), 0, methods[k].TotalSize())
  {
    seq(|types|, k requires 0 <= k < |types| => Tally(PrimaryAssembly(types[k]), types[k].size, 0))
    + seq(|methods|, k requires 0 <= k < |methods| => Tally(MethodPrimaryAssembly(methods[k]), 0, methods[k].TotalSize()))
  }

  /** The `AssemblyStats` property (ApplicationStats.cs:25-40). The ensures only unfold the
      body for callers; `AssemblyStatsSizes` states each entry in the source's terms. */
  function AssemblyStatsOf(types: seq<TypeStats>, methods: seq<MethodStats>): (r: seq<AssemblyStats>)
    ensures var groups := GroupBy(Contributions(types, methods));
            |r| == |groups| && forall k :: 0 <= k < |r| ==> r[k] == AssemblyStats(groups[k].key, groups[k].first, groups[k].second)
  {
    var groups := GroupBy(Contributions(types, methods));
    seq(|groups|, k requires 0 <= k < |groups| => AssemblyStats(groups[k].key, groups[k].first, groups[k].second))
  }

  /** The total of the methods' `TotalSize`. */
  function MethodSizeSum(methods: seq<MethodStats>): int
    decreases |methods|
  {
    if |methods| == 0 then 0 else MethodSizeSum(methods[..|methods| - 1]) + methods[|methods| - 1].TotalSize()
  }

  function TypesSizeTotal(stats: seq<AssemblyStats>): int
    decreases |stats|
  {
    if |stats| == 0 then 0 else TypesSizeTotal(stats[..|stats| - 1]) + stats[|stats| - 1].typesSize
  }

  function MethodsSizeTotal(stats: seq<AssemblyStats>): int
    decreases |stats|
  {
    if |stats| == 0 then 0 else MethodsSizeTotal(stats[..|stats| - 1]) + stats[|stats| - 1].methodsSize
  }

  /** The sum of the sizes in a list of (name, size) pairs. */
  function SizesTotal(sizes: seq<(string, int)>): int
    decreases |sizes|
  {
    if |sizes| == 0 then 0 else SizesTotal(sizes[..|sizes| - 1]) + sizes[|sizes| - 1].1
  }

  /** `GetAssemblyTypes` (ApplicationStats.cs:42-45): the records whose primary assembly is
      `assemblyName`, in order. */
  function AssemblyTypes(types: seq<TypeStats>, assemblyName: string): (r: seq<TypeStats>)
    ensures forall t :: t in r <==> t in types && PrimaryAssembly(t) == assemblyName
    ensures forall t :: multiset(r)[t] == if PrimaryAssembly(t) == assemblyName then multiset(types)[t] else 0
    ensures IsSubsequence(r, types)
  {
    Filter(types, t => PrimaryAssembly(t) == assemblyName)
  }

  /** The methods whose primary assembly is `assemblyName`, in order. */
  function AssemblyMethods(methods: seq<MethodStats>, assemblyName: string): seq<MethodStats>
  {
    Filter(methods, (m: MethodStats) => MethodPrimaryAssembly(m) == assemblyName)
  }

  /** The chain of a type and its enclosing types, innermost first. */
  function DeclaringChain(t: TypeRef): (r: seq<TypeRef>)
    ensures |r| > 0 && r[0] == t && r[|r| - 1].declaring.None?
    ensures forall k :: 0 <= k < |r| - 1 ==> r[k].declaring == Some(r[k + 1])
    decreases t
  {
    match t.declaring
    case None => [t]
    case Some(d) => [t] + DeclaringChain(d)
  }

  /** `FindNamespace` (Program.cs:9-26): walk outwards through the enclosing types. */
  function FindNamespace(t: TypeRef): string
    decreases t
  {
    if t.namespace != "" then t.namespace
    else
      match t.declaring
      case None => t.name
      case Some(d) => FindNamespace(d)
  }

  /** The type on the chain whose namespace `FindNamespace` returns is the innermost one that
      has a namespace; when none has, it returns the name of the outermost type. */
  predicate NamespaceOfChain(chain: seq<TypeRef>, r: string)
    requires |chain| > 0
  {
    || (exists k :: 0 <= k < |chain| && chain[k].namespace != "" && r == chain[k].namespace
                    && forall j :: 0 <= j < k ==> chain[j].namespace == "")
    || ((forall k :: 0 <= k < |chain| ==> chain[k].namespace == "") && r == chain[|chain| - 1].name)
  }

  lemma {:induction false} FindNamespaceWalksChain(t: TypeRef)
    ensures NamespaceOfChain(DeclaringChain(t), FindNamespace(t))
    decreases t
  {
    if t.namespace == "" && t.declaring.Some? {
      var d := t.declaring.value;
      FindNamespaceWalksChain(d);
      var r := FindNamespace(d);
      var chain, rest := DeclaringChain(t), DeclaringChain(d);
      assert chain == [t] + rest;
      if exists k :: 0 <= k < |rest| && rest[k].namespace != "" && r == rest[k].namespace
                     && forall j :: 0 <= j < k ==> rest[j].namespace == "" {
        var k :| 0 <= k < |rest| && rest[k].namespace != "" && r == rest[k].namespace
                 && forall j :: 0 <= j < k ==> rest[j].namespace == "";
        assert chain[k + 1] == rest[k];
        assert forall j :: 1 <= j < k + 1 ==> chain[j] == rest[j - 1];
      } else {
        assert forall k :: 1 <= k < |chain| ==> chain[k] == rest[k - 1];
      }
    }
  }

  /** What each method and each type contributes to its namespace (Program.cs:43-44): the
      methods first, each as its declaring type with the method's total size. */
  function NamespaceContributions(types: seq<TypeStats>, methods: seq<MethodStats>): (r: seq<Tally>)
    ensures |r| == |methods| + |types|
    ensures forall k :: 0 <= k < |methods| ==>
              r[k] == Tally(FindNamespace(methods[k].methodRef.declaring), methods[k].TotalSize(), 0)
    ensures forall k :: 0 <= k < |types| ==> r[|methods| + k] == Tally(FindNamespace(types[k].typeRef), types[k].size, 0)
  {
    seq(|methods|, k requires 0 <= k < |methods| => Tally(FindNamespace(methods[k].methodRef.declaring), methods[k].TotalSize(), 0))
    + seq(|types|, k requires 0 <= k < |types| => Tally(FindNamespace(types[k].typeRef), types[k].size, 0))
  }

  /** The type records that `FindNamespace` puts in `ns`, in order. */
  function NamespaceTypes(types: seq<TypeStats>, ns: string): seq<TypeStats>
  {
    Filter(types, (t: TypeStats) => FindNamespace(t.typeRef) == ns)
  }

  /** The methods whose declaring type `FindNamespace` puts in `ns`, in order. */
  function NamespaceMethods(methods: seq<MethodStats>, ns: string): seq<MethodStats>
  {
    Filter(methods, (m: MethodStats) => FindNamespace(m.methodRef.declaring) == ns)
  }

  /** The size of each namespace (Program.cs:43-44), before it is sorted for printing. The
      ensures only unfold the body for callers; `NamespaceSizesEach` states each entry. */
  function NamespaceSizes(types: seq<TypeStats>, methods: seq<MethodStats>): (r: seq<(string, int)>)
    ensures var groups := GroupBy(NamespaceContributions(types, methods));
            |r| == |groups| && forall k :: 0 <= k < |r| ==> r[k] == (groups[k].key, groups[k].first)
  {
    var groups := GroupBy(NamespaceContributions(types, methods));
    seq(|groups|, k requires 0 <= k < |groups| => (groups[k].key, groups[k].first))
  }
}

/** What grouping guarantees: one group per key in order of first appearance, each holding
    the sums of its elements, and nothing lost from the totals. */
module AggregationFacts {
  import opened Wrappers
  import opened Metadata
  import opened Sequences
  import opened Stats
  import opened TypeTables
  import opened Aggregation

  /** The group keys are the distinct keys, in order of first appearance. */
  lemma {:induction false} GroupKeys(ts: seq<Tally>)
    ensures Keys(GroupBy(ts)) == Distinct(Keys(ts))
    decreases |ts|
  {
    if |ts| > 0 {
      var init := ts[..|ts| - 1];
      GroupKeys(init);
      assert Keys(ts)[..|ts| - 1] == Keys(init);
    }
  }

  /** Each group holds the sums over the elements of its key. */
  lemma {:induction false} GroupSums(ts: seq<Tally>)
    ensures forall k :: 0 <= k < |GroupBy(ts)| ==>
              && GroupBy(ts)[k].first == FirstSumOf(ts, GroupBy(ts)[k].key)
              && GroupBy(ts)[k].second == SecondSumOf(ts, GroupBy(ts)[k].key)
    decreases |ts|
  {
    if |ts| > 0 {
      var init, last := ts[..|ts| - 1], ts[|ts| - 1];
      GroupSums(init);
      var before := GroupBy(init);
      var after := GroupBy(ts);
      assert after == AddTally(before, last);
      if last.key !in Keys(before) {
        GroupKeys(init);
        assert last.key !in Keys(init);
        KeyAbsentSumsZero(init, last.key);
      }
      forall k | 0 <= k < |after|
        ensures after[k].first == FirstSumOf(ts, after[k].key)
        ensures after[k].second == SecondSumOf(ts, after[k].key)
      {
        var key := after[k].key;
        assert FirstSumOf(ts, key) == FirstSumOf(init, key) + (if last.key == key then last.first else 0);
        assert SecondSumOf(ts, key) == SecondSumOf(init, key) + (if last.key == key then last.second else 0);
        if k < |before| {
          assert key == before[k].key;
        } else {
          assert after[k] == last;
        }
      }
    }
  }

  /** A key no element has sums to nothing. */
  lemma {:induction false} KeyAbsentSumsZero(ts: seq<Tally>, key: string)
    requires key !in Keys(ts)
    ensures FirstSumOf(ts, key) == 0 && SecondSumOf(ts, key) == 0
    decreases |ts|
  {
    if |ts| > 0 {
      var init := ts[..|ts| - 1];
      assert Keys(init) == Keys(ts)[..|ts| - 1];
      KeyAbsentSumsZero(init, key);
      assert Keys(ts)[|ts| - 1] == ts[|ts| - 1].key;
    }
  }

  /** Changing one element's sizes by some amount changes the totals by that amount. */
  lemma {:induction false} SumsAfterUpdate(ts: seq<Tally>, k: nat, t: Tally)
    requires k < |ts|
    ensures FirstSum(ts[k := t]) == FirstSum(ts) - ts[k].first + t.first
    ensures SecondSum(ts[k := t]) == SecondSum(ts) - ts[k].second + t.second
    decreases |ts|
  {
    var u := ts[k := t];
    if k < |ts| - 1 {
      assert u[..|u| - 1] == ts[..|ts| - 1][k := t];
      SumsAfterUpdate(ts[..|ts| - 1], k, t);
    } else {
      assert u[..|u| - 1] == ts[..|ts| - 1];
    }
  }

  /** Grouping loses nothing from either total. */
  lemma {:induction false} GroupTotals(ts: seq<Tally>)
    ensures FirstSum(GroupBy(ts)) == FirstSum(ts)
    ensures SecondSum(GroupBy(ts)) == SecondSum(ts)
    decreases |ts|
  {
    if |ts| > 0 {
      var init, last := ts[..|ts| - 1], ts[|ts| - 1];
      GroupTotals(init);
      AddTallyTotals(GroupBy(init), last);
    }
  }

  /** Adding an element to the groups adds its sizes to the totals. */
  lemma AddTallyTotals(groups: seq<Tally>, t: Tally)
    requires NoDuplicates(Keys(groups))
    ensures FirstSum(AddTally(groups, t)) == FirstSum(groups) + t.first
    ensures SecondSum(AddTally(groups, t)) == SecondSum(groups) + t.second
  {
    if GroupIndex(groups, t.key).Some? {
      MergedTallyTotals(groups, t, GroupIndex(groups, t.key).value);
    } else {
      AppendedTallyTotals(groups, t);
    }
  }

  lemma MergedTallyTotals(groups: seq<Tally>, t: Tally, k: nat)
    requires NoDuplicates(Keys(groups)) && GroupIndex(groups, t.key) == Some(k)
    ensures FirstSum(AddTally(groups, t)) == FirstSum(groups) + t.first
    ensures SecondSum(AddTally(groups, t)) == SecondSum(groups) + t.second
  {
    var merged := Tally(t.key, groups[k].first + t.first, groups[k].second + t.second);
    MergeIsUpdate(groups, t, k);
    SumsAfterUpdate(groups, k, merged);
  }

  /** An element whose key has a group changes that group and no other. */
  lemma MergeIsUpdate(groups: seq<Tally>, t: Tally, k: nat)
    requires NoDuplicates(Keys(groups)) && k < |groups| && groups[k].key == t.key
    ensures AddTally(groups, t) == groups[k := Tally(t.key, groups[k].first + t.first, groups[k].second + t.second)]
  {
    var merged := Tally(t.key, groups[k].first + t.first, groups[k].second + t.second);
    var r := AddTally(groups, t);
    assert |r| == |Keys(r)| == |groups|;
    forall j | 0 <= j < |groups|
      ensures r[j] == groups[k := merged][j]
    {
      if j != k {
        assert Keys(groups)[j] != Keys(groups)[k];
      }
    }
  }

  lemma AppendedTallyTotals(groups: seq<Tally>, t: Tally)
    requires NoDuplicates(Keys(groups)) && GroupIndex(groups, t.key).None?
    ensures FirstSum(AddTally(groups, t)) == FirstSum(groups) + t.first
    ensures SecondSum(AddTally(groups, t)) == SecondSum(groups) + t.second
  {
    var r := AddTally(groups, t);
    assert r == groups + [t];
    assert r[..|r| - 1] == groups;
  }

  lemma {:induction false} SumsOfConcat(a: seq<Tally>, b: seq<Tally>)
    ensures FirstSum(a + b) == FirstSum(a) + FirstSum(b)
    ensures SecondSum(a + b) == SecondSum(a) + SecondSum(b)
    decreases |b|
  {
    if |b| == 0 {
      assert a + b == a;
    } else {
      var c := a + b;
      assert c[..|c| - 1] == a + b[..|b| - 1];
      SumsOfConcat(a, b[..|b| - 1]);
    }
  }

  lemma {:induction false} TypeContributionSums(types: seq<TypeStats>, ts: seq<Tally>)
    requires |ts| == |types| && forall k :: 0 <= k < |types| ==> ts[k].first == types[k].size && ts[k].second == 0
    ensures FirstSum(ts) == SizeSum(types) && SecondSum(ts) == 0
    decreases |ts|
  {
    if |ts| > 0 {
      TypeContributionSums(types[..|types| - 1], ts[..|ts| - 1]);
    }
  }

  lemma {:induction false} MethodContributionSums(methods: seq<MethodStats>, ts: seq<Tally>, inFirst: bool)
    requires |ts| == |methods|
    requires forall k :: 0 <= k < |methods| ==>
               if inFirst then ts[k].first == methods[k].TotalSize() && ts[k].second == 0
               else ts[k].first == 0 && ts[k].second == methods[k].TotalSize()
    ensures inFirst ==> FirstSum(ts) == MethodSizeSum(methods) && SecondSum(ts) == 0
    ensures !inFirst ==> FirstSum(ts) == 0 && SecondSum(ts) == MethodSizeSum(methods)
    decreases |ts|
  {
    if |ts| > 0 {
      MethodContributionSums(methods[..|methods| - 1], ts[..|ts| - 1], inFirst);
    }
  }

  lemma {:induction false} TotalsOfSizes(groups: seq<Tally>, sizes: seq<(string, int)>)
    requires |sizes| == |groups|
    requires forall k :: 0 <= k < |groups| ==> sizes[k] == (groups[k].key, groups[k].first)
    ensures SizesTotal(sizes) == FirstSum(groups)
    decreases |groups|
  {
    if |groups| > 0 {
      TotalsOfSizes(groups[..|groups| - 1], sizes[..|sizes| - 1]);
    }
  }

  lemma {:induction false} TotalsOfStats(groups: seq<Tally>, stats: seq<AssemblyStats>)
    requires |stats| == |groups|
    requires forall k :: 0 <= k < |groups| ==> stats[k] == AssemblyStats(groups[k].key, groups[k].first, groups[k].second)
    ensures TypesSizeTotal(stats) == FirstSum(groups) && MethodsSizeTotal(stats) == SecondSum(groups)
    decreases |groups|
  {
    if |groups| > 0 {
      TotalsOfStats(groups[..|groups| - 1], stats[..|stats| - 1]);
    }
  }

  /** `AssemblyStats` has one entry per primary assembly, in order of first appearance among
      the types and then the methods; the types' sizes and the methods' total sizes are
      shared out among the entries without loss (ApplicationStats.cs:29-35). */
  lemma AssemblyStatsTotals(types: seq<TypeStats>, methods: seq<MethodStats>)
    ensures var stats := AssemblyStatsOf(types, methods);
            && TypesSizeTotal(stats) == SizeSum(types)
            && MethodsSizeTotal(stats) == MethodSizeSum(methods)
  {
    var cs := Contributions(types, methods);
    var tpart, mpart := cs[..|types|], cs[|types|..];
    assert cs == tpart + mpart;
    SumsOfConcat(tpart, mpart);
    TypeContributionSums(types, tpart);
    MethodContributionSums(methods, mpart, false);
    GroupTotals(cs);
    TotalsOfStats(GroupBy(cs), AssemblyStatsOf(types, methods));
  }

  lemma AssemblyStatsNames(types: seq<TypeStats>, methods: seq<MethodStats>)
    ensures var stats := AssemblyStatsOf(types, methods);
            var names := Keys(Contributions(types, methods));
            && |stats| == |Distinct(names)|
            && forall k :: 0 <= k < |stats| ==> stats[k].assemblyName == Distinct(names)[k]
  {
    GroupKeys(Contributions(types, methods));
  }

  /** The namespace sizes add up to the types' sizes plus the methods' total sizes
      (Program.cs:43-44). */
  lemma NamespaceSizesTotal(types: seq<TypeStats>, methods: seq<MethodStats>)
    ensures SizesTotal(NamespaceSizes(types, methods)) == SizeSum(types) + MethodSizeSum(methods)
  {
    var cs := NamespaceContributions(types, methods);
    var mpart, tpart := cs[..|methods|], cs[|methods|..];
    assert cs == mpart + tpart;
    SumsOfConcat(mpart, tpart);
    MethodContributionSums(methods, mpart, true);
    TypeContributionSums(types, tpart);
    GroupTotals(cs);
    TotalsOfSizes(GroupBy(cs), NamespaceSizes(types, methods));
  }
  /** The per-key sums of a concatenation are the sums of its parts. */
  lemma {:induction false} KeySumsOfConcat(a: seq<Tally>, b: seq<Tally>, key: string)
    ensures FirstSumOf(a + b, key) == FirstSumOf(a, key) + FirstSumOf(b, key)
    ensures SecondSumOf(a + b, key) == SecondSumOf(a, key) + SecondSumOf(b, key)
    decreases |b|
  {
    if |b| == 0 {
      assert a + b == a;
    } else {
      var c := a + b;
      assert c[..|c| - 1] == a + b[..|b| - 1];
      KeySumsOfConcat(a, b[..|b| - 1], key);
    }
  }

  /** The sizes that the elements with key `key` weigh, with `keyOf` and `sizeOf` standing
      for how an element is keyed and weighed. */
  function KeyedSum<T>(xs: seq<T>, keyOf: T -> string, sizeOf: T -> int, key: string): int
    decreases |xs|
  {
    if |xs| == 0 then 0
    else KeyedSum(xs[..|xs| - 1], keyOf, sizeOf, key) + (if keyOf(xs[|xs| - 1]) == key then sizeOf(xs[|xs| - 1]) else 0)
  }

  function TypeSize(t: TypeStats): int { t.size }
  function MethodSize(m: MethodStats): int { m.TotalSize() }
  function TypeNamespace(t: TypeStats): string { FindNamespace(t.typeRef) }
  function MethodNamespace(m: MethodStats): string { FindNamespace(m.methodRef.declaring) }

  /** Tallies made element by element sum, per key, to the elements' keyed sum. */
  lemma {:induction false} FirstSumIsKeyedSum<T>(xs: seq<T>, ts: seq<Tally>, keyOf: T -> string, sizeOf: T -> int,
                                                 key: string, n: nat)
    requires n <= |ts| == |xs|
    requires forall k :: 0 <= k < |xs| ==> ts[k].key == keyOf(xs[k]) && ts[k].first == sizeOf(xs[k])
    ensures FirstSumOf(ts[..n], key) == KeyedSum(xs[..n], keyOf, sizeOf, key)
    decreases n
  {
    if n > 0 {
      FirstSumIsKeyedSum(xs, ts, keyOf, sizeOf, key, n - 1);
      assert ts[..n][..n - 1] == ts[..n - 1] && ts[..n][n - 1] == ts[n - 1];
      assert xs[..n][..n - 1] == xs[..n - 1] && xs[..n][n - 1] == xs[n - 1];
    }
  }

  lemma {:induction false} SecondSumIsKeyedSum<T>(xs: seq<T>, ts: seq<Tally>, keyOf: T -> string, sizeOf: T -> int,
                                                  key: string, n: nat)
    requires n <= |ts| == |xs|
    requires forall k :: 0 <= k < |xs| ==> ts[k].key == keyOf(xs[k]) && ts[k].second == sizeOf(xs[k])
    ensures SecondSumOf(ts[..n], key) == KeyedSum(xs[..n], keyOf, sizeOf, key)
    decreases n
  {
    if n > 0 {
      SecondSumIsKeyedSum(xs, ts, keyOf, sizeOf, key, n - 1);
      assert ts[..n][..n - 1] == ts[..n - 1] && ts[..n][n - 1] == ts[n - 1];
      assert xs[..n][..n - 1] == xs[..n - 1] && xs[..n][n - 1] == xs[n - 1];
    }
  }

  /** Tallies that put nothing in one of their sums put nothing under any key there. */
  lemma {:induction false} ZeroSumsOf(ts: seq<Tally>, key: string)
    ensures (forall k :: 0 <= k < |ts| ==> ts[k].first == 0) ==> FirstSumOf(ts, key) == 0
    ensures (forall k :: 0 <= k < |ts| ==> ts[k].second == 0) ==> SecondSumOf(ts, key) == 0
    decreases |ts|
  {
    if |ts| > 0 {
      ZeroSumsOf(ts[..|ts| - 1], key);
    }
  }

  lemma {:induction false} AssemblyTypesSum(types: seq<TypeStats>, key: string)
    ensures SizeSum(AssemblyTypes(types, key)) == KeyedSum(types, PrimaryAssembly, TypeSize, key)
    decreases |types|
  {
    if |types| > 0 {
      AssemblyTypesSum(types[..|types| - 1], key);
      AssemblyTypesStep(types, key);
    }
  }

  lemma {:induction false} AssemblyMethodsSum(methods: seq<MethodStats>, key: string)
    ensures MethodSizeSum(AssemblyMethods(methods, key)) == KeyedSum(methods, MethodPrimaryAssembly, MethodSize, key)
    decreases |methods|
  {
    if |methods| > 0 {
      AssemblyMethodsSum(methods[..|methods| - 1], key);
      AssemblyMethodsStep(methods, key);
    }
  }

  lemma {:induction false} NamespaceTypesSum(types: seq<TypeStats>, key: string)
    ensures SizeSum(NamespaceTypes(types, key)) == KeyedSum(types, TypeNamespace, TypeSize, key)
    decreases |types|
  {
    if |types| > 0 {
      NamespaceTypesSum(types[..|types| - 1], key);
      NamespaceTypesStep(types, key);
    }
  }

  lemma {:induction false} NamespaceMethodsSum(methods: seq<MethodStats>, key: string)
    ensures MethodSizeSum(NamespaceMethods(methods, key)) == KeyedSum(methods, MethodNamespace, MethodSize, key)
    decreases |methods|
  {
    if |methods| > 0 {
      NamespaceMethodsSum(methods[..|methods| - 1], key);
      NamespaceMethodsStep(methods, key);
    }
  }

  /** What the types put under one assembly is the size of that assembly's types. */
  lemma TypeTalliesByAssembly(types: seq<TypeStats>, ts: seq<Tally>, key: string)
    requires |ts| == |types|
    requires forall k :: 0 <= k < |types| ==> ts[k] == Tally(PrimaryAssembly(types[k]), types[k].size, 0)
    ensures FirstSumOf(ts, key) == SizeSum(AssemblyTypes(types, key)) && SecondSumOf(ts, key) == 0
  {
    FirstSumIsKeyedSum(types, ts, PrimaryAssembly, TypeSize, key, |ts|);
    assert ts[..|ts|] == ts && types[..|types|] == types;
    AssemblyTypesSum(types, key);
    ZeroSumsOf(ts, key);
  }

  /** What the methods put under one assembly is the total size of that assembly's methods. */
  lemma MethodTalliesByAssembly(methods: seq<MethodStats>, ts: seq<Tally>, key: string)
    requires |ts| == |methods|
    requires forall k :: 0 <= k < |methods| ==> ts[k] == Tally(MethodPrimaryAssembly(methods[k]), 0, methods[k].TotalSize())
    ensures FirstSumOf(ts, key) == 0 && SecondSumOf(ts, key) == MethodSizeSum(AssemblyMethods(methods, key))
  {
    SecondSumIsKeyedSum(methods, ts, MethodPrimaryAssembly, MethodSize, key, |ts|);
    assert ts[..|ts|] == ts && methods[..|methods|] == methods;
    AssemblyMethodsSum(methods, key);
    ZeroSumsOf(ts, key);
  }

  /** What the types put under one namespace is the size of that namespace's types. */
  lemma TypeTalliesByNamespace(types: seq<TypeStats>, ts: seq<Tally>, key: string)
    requires |ts| == |types|
    requires forall k :: 0 <= k < |types| ==> ts[k] == Tally(FindNamespace(types[k].typeRef), types[k].size, 0)
    ensures FirstSumOf(ts, key) == SizeSum(NamespaceTypes(types, key))
  {
    FirstSumIsKeyedSum(types, ts, TypeNamespace, TypeSize, key, |ts|);
    assert ts[..|ts|] == ts && types[..|types|] == types;
    NamespaceTypesSum(types, key);
  }

  /** What the methods put under one namespace is the total size of that namespace's methods. */
  lemma MethodTalliesByNamespace(methods: seq<MethodStats>, ts: seq<Tally>, key: string)
    requires |ts| == |methods|
    requires forall k :: 0 <= k < |methods| ==>
               ts[k] == Tally(FindNamespace(methods[k].methodRef.declaring), methods[k].TotalSize(), 0)
    ensures FirstSumOf(ts, key) == MethodSizeSum(NamespaceMethods(methods, key))
  {
    FirstSumIsKeyedSum(methods, ts, MethodNamespace, MethodSize, key, |ts|);
    assert ts[..|ts|] == ts && methods[..|methods|] == methods;
    NamespaceMethodsSum(methods, key);
  }

  lemma AssemblyTypesStep(types: seq<TypeStats>, key: string)
    requires |types| > 0
    ensures var n := |types| - 1;
            SizeSum(AssemblyTypes(types, key)) == SizeSum(AssemblyTypes(types[..n], key)) + (if PrimaryAssembly(types[n]) == key then types[n].size else 0)
  {
    var n := |types| - 1;
    var kept := AssemblyTypes(types[..n], key);
    if PrimaryAssembly(types[n]) == key {
      assert AssemblyTypes(types, key) == kept + [types[n]];
      assert (kept + [types[n]])[..|kept|] == kept;
    } else {
      assert AssemblyTypes(types, key) == kept;
    }
  }

  lemma AssemblyMethodsStep(methods: seq<MethodStats>, key: string)
    requires |methods| > 0
    ensures var n := |methods| - 1;
            MethodSizeSum(AssemblyMethods(methods, key)) == MethodSizeSum(AssemblyMethods(methods[..n], key)) + (if MethodPrimaryAssembly(methods[n]) == key then methods[n].TotalSize() else 0)
  {
    var n := |methods| - 1;
    var kept := AssemblyMethods(methods[..n], key);
    if MethodPrimaryAssembly(methods[n]) == key {
      assert AssemblyMethods(methods, key) == kept + [methods[n]];
      assert (kept + [methods[n]])[..|kept|] == kept;
    } else {
      assert AssemblyMethods(methods, key) == kept;
    }
  }

  lemma NamespaceTypesStep(types: seq<TypeStats>, key: string)
    requires |types| > 0
    ensures var n := |types| - 1;
            SizeSum(NamespaceTypes(types, key)) == SizeSum(NamespaceTypes(types[..n], key)) + (if FindNamespace(types[n].typeRef) == key then types[n].size else 0)
  {
    var n := |types| - 1;
    var kept := NamespaceTypes(types[..n], key);
    if FindNamespace(types[n].typeRef) == key {
      assert NamespaceTypes(types, key) == kept + [types[n]];
      assert (kept + [types[n]])[..|kept|] == kept;
    } else {
      assert NamespaceTypes(types, key) == kept;
    }
  }

  lemma NamespaceMethodsStep(methods: seq<MethodStats>, key: string)
    requires |methods| > 0
    ensures var n := |methods| - 1;
            MethodSizeSum(NamespaceMethods(methods, key)) == MethodSizeSum(NamespaceMethods(methods[..n], key)) + (if FindNamespace(methods[n].methodRef.declaring) == key then methods[n].TotalSize() else 0)
  {
    var n := |methods| - 1;
    var kept := NamespaceMethods(methods[..n], key);
    if FindNamespace(methods[n].methodRef.declaring) == key {
      assert NamespaceMethods(methods, key) == kept + [methods[n]];
      assert (kept + [methods[n]])[..|kept|] == kept;
    } else {
      assert NamespaceMethods(methods, key) == kept;
    }
  }

  /** The sizes put under one assembly: its types' sizes first, its methods' total sizes second. */
  lemma AssemblyKeySums(types: seq<TypeStats>, methods: seq<MethodStats>, key: string)
    ensures FirstSumOf(Contributions(types, methods), key) == SizeSum(AssemblyTypes(types, key))
    ensures SecondSumOf(Contributions(types, methods), key) == MethodSizeSum(AssemblyMethods(methods, key))
  {
    var cs := Contributions(types, methods);
    var tpart, mpart := cs[..|types|], cs[|types|..];
    assert cs == tpart + mpart;
    KeySumsOfConcat(tpart, mpart, key);
    TypeTalliesByAssembly(types, tpart, key);
    MethodTalliesByAssembly(methods, mpart, key);
  }

  /** The size put under one namespace: its methods' total sizes plus its types' sizes. */
  lemma NamespaceKeySum(types: seq<TypeStats>, methods: seq<MethodStats>, key: string)
    ensures FirstSumOf(NamespaceContributions(types, methods), key)
            == MethodSizeSum(NamespaceMethods(methods, key)) + SizeSum(NamespaceTypes(types, key))
  {
    var cs := NamespaceContributions(types, methods);
    var mpart, tpart := cs[..|methods|], cs[|methods|..];
    assert cs == mpart + tpart;
    KeySumsOfConcat(mpart, tpart, key);
    MethodTalliesByNamespace(methods, mpart, key);
    TypeTalliesByNamespace(types, tpart, key);
  }

  /** Each `AssemblyStats` entry carries the size of its assembly's types (what
      `GetAssemblyTypes` returns for its name) and the total size of its assembly's methods
      (ApplicationStats.cs:31-34). */
  lemma AssemblyStatsSizes(types: seq<TypeStats>, methods: seq<MethodStats>)
    ensures var stats := AssemblyStatsOf(types, methods);
            forall k :: 0 <= k < |stats| ==>
              && stats[k].typesSize == SizeSum(AssemblyTypes(types, stats[k].assemblyName))
              && stats[k].methodsSize == MethodSizeSum(AssemblyMethods(methods, stats[k].assemblyName))
  {
    var cs := Contributions(types, methods);
    var groups := GroupBy(cs);
    var stats := AssemblyStatsOf(types, methods);
    GroupSums(cs);
    forall k | 0 <= k < |stats|
      ensures stats[k].typesSize == SizeSum(AssemblyTypes(types, stats[k].assemblyName))
      ensures stats[k].methodsSize == MethodSizeSum(AssemblyMethods(methods, stats[k].assemblyName))
    {
      AssemblyKeySums(types, methods, groups[k].key);
    }
  }

  /** Each namespace size is the total size of the methods declared in it plus the size of the
      types in it (Program.cs:43-44), and the namespaces come in order of first appearance
      among the methods and then the types. */
  lemma NamespaceSizesEach(types: seq<TypeStats>, methods: seq<MethodStats>)
    ensures var sizes := NamespaceSizes(types, methods);
            var names := Distinct(Keys(NamespaceContributions(types, methods)));
            && |sizes| == |names|
            && forall k :: 0 <= k < |sizes| ==>
                 && sizes[k].0 == names[k]
                 && sizes[k].1 == MethodSizeSum(NamespaceMethods(methods, sizes[k].0)) + SizeSum(NamespaceTypes(types, sizes[k].0))
  {
    var cs := NamespaceContributions(types, methods);
    var groups := GroupBy(cs);
    var sizes := NamespaceSizes(types, methods);
    GroupKeys(cs);
    GroupSums(cs);
    forall k | 0 <= k < |sizes|
      ensures sizes[k].0 == Distinct(Keys(cs))[k]
      ensures sizes[k].1 == MethodSizeSum(NamespaceMethods(methods, sizes[k].0)) + SizeSum(NamespaceTypes(types, sizes[k].0))
    {
      assert Keys(groups)[k] == groups[k].key;
      NamespaceKeySum(types, methods, groups[k].key);
    }
  }
}
