/** The wildcard patterns of the assembly filters. `WildCardToRegular` escapes the pattern,
    turns the escaped `?` into `.` and the escaped `*` into `.*`, and anchors the result at
    both ends; the regular expression that comes out accepts exactly what the glob below
    accepts on a string without line breaks. */
module Globs {
  import opened Strings

  datatype GlobToken = AnyRun | AnyChar | Literal(c: char)

  /** `WildCardToRegular` (MstatAnalyser.Core/StatsFilter.cs:23-26, StatsFilter.cs:20-23). */
  function WildCardToRegular(pattern: string): (r: seq<GlobToken>)
    ensures |r| == |pattern|
    ensures forall k :: 0 <= k < |pattern| ==> (r[k] == AnyRun <==> pattern[k] == '*')
    ensures forall k :: 0 <= k < |pattern| ==> (r[k] == AnyChar <==> pattern[k] == '?')
    ensures forall k :: 0 <= k < |pattern| && pattern[k] != '*' && pattern[k] != '?' ==> r[k] == Literal(pattern[k])
  {
    seq(|pattern|, k requires 0 <= k < |pattern| =>
      if pattern[k] == '*' then AnyRun else if pattern[k] == '?' then AnyChar else Literal(pattern[k]))
  }

  /** Whole-string match: a run token takes any number of characters, including none. */
  predicate TokensMatch(tokens: seq<GlobToken>, s: string)
    decreases |tokens| + |s|
  {
    if |tokens| == 0 then |s| == 0
    else match tokens[0]
      case AnyRun => TokensMatch(tokens[1..], s) || (|s| > 0 && TokensMatch(tokens, s[1..]))
      case AnyChar => |s| > 0 && TokensMatch(tokens[1..], s[1..])
      case Literal(c) => |s| > 0 && s[0] == c && TokensMatch(tokens[1..], s[1..])
  }

  /** `Regex.IsMatch(s, WildCardToRegular(pattern))`. */
  predicate GlobMatches(pattern: string, s: string) {
    TokensMatch(WildCardToRegular(pattern), s)
  }

  predicate HasWildcard(pattern: string) {
    '*' in pattern || '?' in pattern
  }
}

module GlobFacts {
  import opened Strings
  import opened Globs

  /** A run token matches every string. */
  lemma {:induction false} RunMatchesAll(s: string)
    ensures TokensMatch([AnyRun], s)
    decreases |s|
  {
    if |s| > 0 {
      RunMatchesAll(s[1..]);
    }
  }

  /** "*" matches every assembly name. */
  lemma StarMatchesAll(s: string)
    ensures GlobMatches("*", s)
  {
    assert WildCardToRegular("*") == [AnyRun];
    RunMatchesAll(s);
  }

  /** Literal tokens match exactly the string they spell. */
  lemma {:induction false} LiteralsMatchThemselves(p: string, s: string)
    requires !HasWildcard(p)
    ensures TokensMatch(WildCardToRegular(p), s) <==> s == p
    decreases |p|
  {
    var tokens := WildCardToRegular(p);
    if |p| > 0 {
      assert tokens[0] == Literal(p[0]);
      assert tokens[1..] == WildCardToRegular(p[1..]);
      assert !HasWildcard(p[1..]) by {
        assert forall c :: c in p[1..] ==> c in p;
      }
      if |s| > 0 {
        LiteralsMatchThemselves(p[1..], s[1..]);
        assert s == p <==> s[0] == p[0] && s[1..] == p[1..] by {
          if s[0] == p[0] && s[1..] == p[1..] {
            assert s == [s[0]] + s[1..];
            assert p == [p[0]] + p[1..];
          }
        }
      }
    }
  }

  /** A pattern without wildcards matches only itself. */
  lemma PlainPatternMatchesOnlyItself(p: string, s: string)
    requires !HasWildcard(p)
    ensures GlobMatches(p, s) <==> s == p
  {
    LiteralsMatchThemselves(p, s);
  }

  /** A run matches what follows it wherever that begins. */
  lemma {:induction false} RunThenRest(tokens: seq<GlobToken>, s: string, k: nat)
    requires k <= |s| && TokensMatch(tokens, s[k..])
    ensures TokensMatch([AnyRun] + tokens, s)
    decreases k
  {
    var run := [AnyRun] + tokens;
    assert run[1..] == tokens;
    if k > 0 {
      assert s[1..][k - 1..] == s[k..];
      RunThenRest(tokens, s[1..], k - 1);
    }
  }

  /** Only a run can match more than the rest of the pattern; a run followed by literals
      matches a string ending in them. */
  lemma {:induction false} RunThenRestOnly(tokens: seq<GlobToken>, s: string)
    requires TokensMatch([AnyRun] + tokens, s)
    ensures exists k :: 0 <= k <= |s| && TokensMatch(tokens, s[k..])
    decreases |s|
  {
    var run := [AnyRun] + tokens;
    assert run[1..] == tokens;
    if TokensMatch(tokens, s) {
      assert s[0..] == s;
    } else {
      RunThenRestOnly(tokens, s[1..]);
      var k :| 0 <= k <= |s[1..]| && TokensMatch(tokens, s[1..][k..]);
      assert s[1..][k..] == s[k + 1..];
    }
  }

  /** "name*" matches exactly the strings that start with "name". */
  lemma {:induction false} PrefixPattern(p: string, s: string)
    requires !HasWildcard(p)
    ensures GlobMatches(p + "*", s) <==> StartsWith(s, p)
    decreases |p|
  {
    var tokens := WildCardToRegular(p + "*");
    if |p| == 0 {
      assert p + "*" == "*";
      StarMatchesAll(s);
    } else {
      assert tokens[0] == Literal(p[0]);
      assert tokens[1..] == WildCardToRegular(p[1..] + "*") by {
        assert (p + "*")[1..] == p[1..] + "*";
      }
      assert !HasWildcard(p[1..]) by {
        assert forall c :: c in p[1..] ==> c in p;
      }
      if |s| > 0 {
        PrefixPattern(p[1..], s[1..]);
        assert StartsWith(s, p) <==> s[0] == p[0] && StartsWith(s[1..], p[1..]) by {
          if |s| >= |p| {
            assert s[..|p|] == [s[0]] + s[1..][..|p| - 1];
            assert p == [p[0]] + p[1..];
          }
        }
      }
    }
  }
}

/** The current assembly filter (MstatAnalyser.Core/StatsFilter.cs): a record is kept when
    one of its related assemblies matches the inclusion pattern and none matches any of the
    exclusion patterns. An absent inclusion pattern includes everything; absent exclusions
    exclude nothing. */
module Filters {
  import opened Wrappers
  import opened Metadata
  import opened Sequences
  import opened Stats
  import opened Globs

  datatype StatsFilter = StatsFilter(assemblyFilter: Option<string>, excludedAssemblies: Option<seq<string>>)

  /** `names.Any(a => Regex.IsMatch(a, WildCardToRegular(pattern)))`. */
  predicate AnyMatches(names: seq<string>, pattern: string) {
    exists a :: a in names && GlobMatches(pattern, a)
  }

  /** `IsTypeFiltered(TypeStats, string?)` (MstatAnalyser.Core/StatsFilter.cs:38-46). */
  predicate IsTypeIncluded(t: TypeStats, pattern: Option<string>) {
    pattern.None? || AnyMatches(RelatedAssemblies(t), pattern.value)
  }

  /** `IsTypeFiltered(TypeStats, string[])` (MstatAnalyser.Core/StatsFilter.cs:33-36). */
  predicate IsTypeIncludedByAny(t: TypeStats, patterns: seq<string>) {
    exists p :: p in patterns && IsTypeIncluded(t, Some(p))
  }

  /** `IsMethodFiltered(MethodStats, string?)` (MstatAnalyser.Core/StatsFilter.cs:53-61). */
  predicate IsMethodIncluded(m: MethodStats, pattern: Option<string>) {
    pattern.None? || AnyMatches(MethodRelatedAssemblies(m), pattern.value)
  }

  /** `IsMethodFiltered(MethodStats, string[])` (MstatAnalyser.Core/StatsFilter.cs:48-51). */
  predicate IsMethodIncludedByAny(m: MethodStats, patterns: seq<string>) {
    exists p :: p in patterns && IsMethodIncluded(m, Some(p))
  }

  /** The test `FilterTypes` applies to each record (MstatAnalyser.Core/StatsFilter.cs:13-14). */
  predicate KeepsType(filter: StatsFilter, t: TypeStats) {
    IsTypeIncluded(t, filter.assemblyFilter)
    && (filter.excludedAssemblies.None? || !IsTypeIncludedByAny(t, filter.excludedAssemblies.value))
  }

  predicate KeepsMethod(filter: StatsFilter, m: MethodStats) {
    IsMethodIncluded(m, filter.assemblyFilter)
    && (filter.excludedAssemblies.None? || !IsMethodIncludedByAny(m, filter.excludedAssemblies.value))
  }

  /** `FilterTypes` (MstatAnalyser.Core/StatsFilter.cs:11-15). */
  function FilterTypes(filter: StatsFilter, types: seq<TypeStats>): (r: seq<TypeStats>)
    ensures forall t :: t in r <==> t in types && KeepsType(filter, t)
    ensures forall t :: multiset(r)[t] == if KeepsType(filter, t) then multiset(types)[t] else 0
    ensures IsSubsequence(r, types)
  {
    Filter(types, t => KeepsType(filter, t))
  }

  /** `FilterMethods` (MstatAnalyser.Core/StatsFilter.cs:17-21). */
  function FilterMethods(filter: StatsFilter, methods: seq<MethodStats>): (r: seq<MethodStats>)
    ensures forall m :: m in r <==> m in methods && KeepsMethod(filter, m)
    ensures forall m :: multiset(r)[m] == if KeepsMethod(filter, m) then multiset(methods)[m] else 0
    ensures IsSubsequence(r, methods)
  {
    Filter(methods, m => KeepsMethod(filter, m))
  }

  /** The recursive `IsTypeFiltered(TypeReference, string?)` (MstatAnalyser.Core/StatsFilter.cs:63-81)
      with a pattern present: the scope matches, or the type is a generic instance one of
      whose arguments matches. */
  predicate TypeRefMatches(t: TypeRef, pattern: string)
    decreases t, 1
  {
    GlobMatches(pattern, t.scope) || (t.IsGenericInstance() && ArgumentsMatch(t.genericArgs, pattern))
  }

  predicate ArgumentsMatch(ts: seq<TypeRef>, pattern: string)
    decreases ts, 0
  {
    |ts| > 0 && (TypeRefMatches(ts[0], pattern) || ArgumentsMatch(ts[1..], pattern))
  }

  predicate IsTypeRefIncluded(t: TypeRef, pattern: Option<string>) {
    pattern.None? || TypeRefMatches(t, pattern.value)
  }

  /** `IsTypeFiltered(TypeReference, string[])` (MstatAnalyser.Core/StatsFilter.cs:28-31). */
  predicate IsTypeRefIncludedByAny(t: TypeRef, patterns: seq<string>) {
    exists p :: p in patterns && IsTypeRefIncluded(t, Some(p))
  }
}

/** How the recursive type test relates to the related-assemblies lists, and what the
    current filters guarantee. */
module FilterFacts {
  import opened Wrappers
  import opened Metadata
  import opened Sequences
  import opened Stats
  import opened Globs
  import opened Filters

  /** The recursive test matches exactly when one of the assemblies `GetTypeAssemblies`
      lists matches. */
  lemma {:induction false} TypeRefMatchesAssemblies(t: TypeRef, pattern: string)
    ensures TypeRefMatches(t, pattern) <==> AnyMatches(TypeAssemblies(t), pattern)
    decreases t, 1
  {
    var all := TypeAssemblies(t);
    if t.IsGenericInstance() {
      ArgumentsMatchAssemblies(t.genericArgs, pattern);
      assert all == [t.scope] + ArgumentAssemblies(t.genericArgs);
      assert t.scope in all;
      assert forall a :: a in all <==> a == t.scope || a in ArgumentAssemblies(t.genericArgs);
    } else {
      assert all == [t.scope];
    }
  }

  lemma {:induction false} ArgumentsMatchAssemblies(ts: seq<TypeRef>, pattern: string)
    ensures ArgumentsMatch(ts, pattern) <==> AnyMatches(ArgumentAssemblies(ts), pattern)
    decreases ts, 0
  {
    if |ts| > 0 {
      TypeRefMatchesAssemblies(ts[0], pattern);
      ArgumentsMatchAssemblies(ts[1..], pattern);
      var all := ArgumentAssemblies(ts);
      assert all == TypeAssemblies(ts[0]) + ArgumentAssemblies(ts[1..]);
      assert forall a :: a in all <==> a in TypeAssemblies(ts[0]) || a in ArgumentAssemblies(ts[1..]);
    }
  }

  /** So the list-based test on a type record and the recursive test on its type agree. */
  lemma TypeTestsAgree(t: TypeStats, pattern: Option<string>)
    ensures IsTypeIncluded(t, pattern) <==> IsTypeRefIncluded(t.typeRef, pattern)
  {
    if pattern.Some? {
      TypeRefMatchesAssemblies(t.typeRef, pattern.value);
    }
  }

  /** The two pattern-list overloads agree in the same way. */
  lemma TypeListTestsAgree(t: TypeStats, patterns: seq<string>)
    ensures IsTypeIncludedByAny(t, patterns) <==> IsTypeRefIncludedByAny(t.typeRef, patterns)
  {
    forall p | p in patterns
      ensures IsTypeIncluded(t, Some(p)) <==> IsTypeRefIncluded(t.typeRef, Some(p))
    {
      TypeTestsAgree(t, Some(p));
    }
  }

  /** A filter with neither an inclusion pattern nor exclusions keeps every record. */
  lemma NoFilterKeepsAll(types: seq<TypeStats>, methods: seq<MethodStats>)
    ensures FilterTypes(StatsFilter(None, None), types) == types
    ensures FilterMethods(StatsFilter(None, None), methods) == methods
  {
    KeepAllIsIdentity(types, t => KeepsType(StatsFilter(None, None), t));
    KeepAllIsIdentity(methods, m => KeepsMethod(StatsFilter(None, None), m));
  }

  lemma {:induction false} KeepAllIsIdentity<T(!new)>(xs: seq<T>, keep: T -> bool)
    requires forall x :: keep(x)
    ensures Filter(xs, keep) == xs
    decreases |xs|
  {
    if |xs| > 0 {
      KeepAllIsIdentity(xs[..|xs| - 1], keep);
      assert xs == xs[..|xs| - 1] + [xs[|xs| - 1]];
    }
  }

  /** An empty exclusion list excludes nothing, like an absent one. */
  lemma EmptyExclusionsExcludeNothing(pattern: Option<string>, t: TypeStats, m: MethodStats)
    ensures KeepsType(StatsFilter(pattern, Some([])), t) <==> KeepsType(StatsFilter(pattern, None), t)
    ensures KeepsMethod(StatsFilter(pattern, Some([])), m) <==> KeepsMethod(StatsFilter(pattern, None), m)
  {
  }

  /** Filtering the filtered list changes nothing. */
  lemma FiltersIdempotent(filter: StatsFilter, types: seq<TypeStats>, methods: seq<MethodStats>)
    ensures FilterTypes(filter, FilterTypes(filter, types)) == FilterTypes(filter, types)
    ensures FilterMethods(filter, FilterMethods(filter, methods)) == FilterMethods(filter, methods)
  {
    FilterIdempotent(types, t => KeepsType(filter, t));
    FilterIdempotent(methods, m => KeepsMethod(filter, m));
  }

  /** A type is kept exactly when some related assembly matches the inclusion pattern and no
      related assembly matches any exclusion pattern. */
  lemma KeepsTypeExplained(filter: StatsFilter, t: TypeStats)
    requires filter.assemblyFilter.Some? && filter.excludedAssemblies.Some?
    ensures KeepsType(filter, t) <==>
              (exists a :: a in RelatedAssemblies(t) && GlobMatches(filter.assemblyFilter.value, a))
              && forall p, a :: p in filter.excludedAssemblies.value && a in RelatedAssemblies(t) ==> !GlobMatches(p, a)
  {
  }
}

/** The earlier filter (StatsFilter.cs): one optional pattern, tested with the recursive type
    test on a type record's type and on a method's declaring type only. */
module LegacyFilters {
  import opened Wrappers
  import opened Metadata
  import opened Sequences
  import opened Stats
  import opened Globs
  import opened Filters

  datatype LegacyStatsFilter = LegacyStatsFilter(assemblyFilter: Option<string>)

  /** `FilterTypes` (StatsFilter.cs:10-13). */
  function LegacyFilterTypes(filter: LegacyStatsFilter, types: seq<TypeStats>): (r: seq<TypeStats>)
    ensures forall t :: t in r <==> t in types && IsTypeRefIncluded(t.typeRef, filter.assemblyFilter)
    ensures forall t :: multiset(r)[t] == if IsTypeRefIncluded(t.typeRef, filter.assemblyFilter) then multiset(types)[t] else 0
    ensures IsSubsequence(r, types)
  {
    Filter(types, (t: TypeStats) => IsTypeRefIncluded(t.typeRef, filter.assemblyFilter))
  }

  /** `FilterMethods` (StatsFilter.cs:15-18): only the declaring type is tested. */
  function LegacyFilterMethods(filter: LegacyStatsFilter, methods: seq<MethodStats>): (r: seq<MethodStats>)
    ensures forall m :: m in r <==> m in methods && IsTypeRefIncluded(m.methodRef.declaring, filter.assemblyFilter)
    ensures forall m :: multiset(r)[m] == if IsTypeRefIncluded(m.methodRef.declaring, filter.assemblyFilter) then multiset(methods)[m] else 0
    ensures IsSubsequence(r, methods)
  {
    Filter(methods, (m: MethodStats) => IsTypeRefIncluded(m.methodRef.declaring, filter.assemblyFilter))
  }
}

module LegacyFilterFacts {
  import opened Wrappers
  import opened Metadata
  import opened Sequences
  import opened Stats
  import opened Globs
  import opened Filters
  import opened FilterFacts
  import opened LegacyFilters
  import GlobFacts

  lemma {:induction false} SameTestSameFilter<T(!new)>(xs: seq<T>, keep: T -> bool, keep': T -> bool)
    requires forall x :: keep(x) == keep'(x)
    ensures Filter(xs, keep) == Filter(xs, keep')
    decreases |xs|
  {
    if |xs| > 0 {
      SameTestSameFilter(xs[..|xs| - 1], keep, keep');
    }
  }

  /** Without exclusions the current revision keeps the same types as the earlier one. */
  lemma LegacyTypesAgree(pattern: Option<string>, types: seq<TypeStats>)
    ensures LegacyFilterTypes(LegacyStatsFilter(pattern), types) == FilterTypes(StatsFilter(pattern, None), types)
  {
    forall t: TypeStats
      ensures IsTypeRefIncluded(t.typeRef, pattern) == KeepsType(StatsFilter(pattern, None), t)
    {
      TypeTestsAgree(t, pattern);
    }
    SameTestSameFilter(types, (t: TypeStats) => IsTypeRefIncluded(t.typeRef, pattern), (t: TypeStats) => KeepsType(StatsFilter(pattern, None), t));
  }

  /** A method the earlier revision keeps, the current one keeps too when there are no
      exclusions: the declaring type's assemblies are among the method's related ones. */
  lemma LegacyMethodsKeptByCurrent(pattern: Option<string>, m: MethodStats)
    requires IsTypeRefIncluded(m.methodRef.declaring, pattern)
    ensures KeepsMethod(StatsFilter(pattern, None), m)
  {
    if pattern.Some? {
      TypeRefMatchesAssemblies(m.methodRef.declaring, pattern.value);
      var a :| a in TypeAssemblies(m.methodRef.declaring) && GlobMatches(pattern.value, a);
      assert a in MethodRelatedAssemblies(m);
    }
  }

  /** The converse fails: a generic method instance whose only matching assembly is that of
      a generic argument is kept by the current revision alone. */
  lemma CurrentAlsoTestsMethodArguments(declaring: TypeRef, argument: TypeRef)
    requires !declaring.IsGenericInstance() && declaring.scope == "App"
    requires !argument.IsGenericInstance() && argument.scope == "Lib"
    ensures var m := MethodStats(MethodRef("M", declaring, [argument]), 1, 0, 0);
            && !IsTypeRefIncluded(m.methodRef.declaring, Some("Lib"))
            && KeepsMethod(StatsFilter(Some("Lib"), None), m)
  {
    var m := MethodStats(MethodRef("M", declaring, [argument]), 1, 0, 0);
    GlobFacts.PlainPatternMatchesOnlyItself("Lib", "App");
    GlobFacts.PlainPatternMatchesOnlyItself("Lib", "Lib");
    assert TypeAssemblies(argument) == ["Lib"];
    assert ArgumentAssemblies([argument]) == TypeAssemblies(argument) + ArgumentAssemblies([]);
    assert "Lib" in MethodRelatedAssemblies(m);
  }
}
