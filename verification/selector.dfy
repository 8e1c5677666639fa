/**
 Which tests a run takes (src/testing/TestSelector.cpp): filter, sort, take one shard,
 shuffle.
 */
module Selector {
  import opened Text
  import opened Order
  import Glob
  import Ids

  datatype Test = Test(suite: string, name: string, tags: seq<string>, enabled: bool)

  datatype Filter = Filter(
    suites: seq<string>, names: seq<string>, tags: seq<string>, excludeTags: seq<string>, excludeSuites: seq<string>,
    includeDisabled: bool)

  datatype Options = Options(shardCount: int, shardIndex: int, shuffle: bool)

  function FullName(t: Test): string { QualifiedName(t.suite, t.name) }

  // ---- the filter --------------------------------------------------------------------------

  predicate AnyGlob(patterns: seq<string>, text: string) {
    exists i :: 0 <= i < |patterns| && Glob.Code(patterns[i], text)
  }

  predicate AnyTag(patterns: seq<string>, tags: seq<string>) {
    exists i :: 0 <= i < |tags| && AnyGlob(patterns, tags[i])
  }

  predicate Matches(f: Filter, t: Test) {
    && (t.enabled || f.includeDisabled)
    && (f.suites == [] || AnyGlob(f.suites, t.suite))
    && !AnyGlob(f.excludeSuites, t.suite)
    && (f.names == [] || AnyGlob(f.names, FullName(t)) || AnyGlob(f.names, t.name))
    && (f.tags == [] || AnyTag(f.tags, t.tags))
    && !AnyTag(f.excludeTags, t.tags)
  }

  method MatchesAnyGlob(patterns: seq<string>, text: string) returns (found: bool)
    ensures found == AnyGlob(patterns, text)
  {
    for i := 0 to |patterns|
      invariant forall j :: 0 <= j < i ==> !Glob.Code(patterns[j], text)
    {
      var hit, _ := Glob.GlobMatch(patterns[i], text);
      if hit {
        return true;
      }
    }
    return false;
  }

  method MatchesAnyTag(patterns: seq<string>, tags: seq<string>) returns (found: bool)
    ensures found == AnyTag(patterns, tags)
  {
    for i := 0 to |tags|
      invariant forall j :: 0 <= j < i ==> !AnyGlob(patterns, tags[j])
    {
      var hit := MatchesAnyGlob(patterns, tags[i]);
      if hit {
        return true;
      }
    }
    return false;
  }

  method FilterMatches(f: Filter, t: Test) returns (ok: bool)
    ensures ok == Matches(f, t)
  {
    if !t.enabled && !f.includeDisabled {
      return false;
    }
    if f.suites != [] {
      var hit := MatchesAnyGlob(f.suites, t.suite);
      if !hit {
        return false;
      }
    }
    if f.excludeSuites != [] {
      var hit := MatchesAnyGlob(f.excludeSuites, t.suite);
      if hit {
        return false;
      }
    }
    if f.names != [] {
      var qualified := MatchesAnyGlob(f.names, FullName(t));
      var bare := MatchesAnyGlob(f.names, t.name);
      if !qualified && !bare {
        return false;
      }
    }
    if f.tags != [] {
      var hit := MatchesAnyTag(f.tags, t.tags);
      if !hit {
        return false;
      }
    }
    if f.excludeTags != [] {
      var hit := MatchesAnyTag(f.excludeTags, t.tags);
      if hit {
        return false;
      }
    }
    return true;
  }

  // ---- filtering, sorting, sharding -------------------------------------------------------------

  function Filtered(f: Filter, tests: seq<Test>): seq<Test> {
    if tests == [] then []
    else
      var last := tests[|tests| - 1];
      Filtered(f, tests[..|tests| - 1]) + if Matches(f, last) then [last] else []
  }

  ghost predicate ByName(tests: seq<Test>) {
    forall i, j :: 0 <= i < j < |tests| ==> Leq(FullName(tests[i]), FullName(tests[j]))
  }

  function Insert(tests: seq<Test>, t: Test): seq<Test> {
    if tests == [] then [t]
    else
      var last := |tests| - 1;
      if Leq(FullName(tests[last]), FullName(t)) then tests + [t] else Insert(tests[..last], t) + [tests[last]]
  }

  /** std::sort by qualified name. */
  function SortedByName(tests: seq<Test>): seq<Test> {
    if tests == [] then [] else Insert(SortedByName(tests[..|tests| - 1]), tests[|tests| - 1])
  }

  function ShardOf(t: Test, count: nat): nat
    requires count > 0
  {
    Ids.Fnv1a64(FullName(t)) % count
  }

  function Shard(tests: seq<Test>, count: nat, index: nat): seq<Test>
    requires count > 0
  {
    if tests == [] then []
    else
      var last := tests[|tests| - 1];
      Shard(tests[..|tests| - 1], count, index) + if ShardOf(last, count) == index % count then [last] else []
  }

  /** What is selected, before any shuffling. */
  function Chosen(candidates: seq<Test>, f: Filter, o: Options): seq<Test> {
    var sorted := SortedByName(Filtered(f, candidates));
    if o.shardCount > 1 then Shard(sorted, o.shardCount, if o.shardIndex < 0 then 0 else o.shardIndex) else sorted
  }

  /** std::shuffle: callers may rely on no more than that the elements stay the same. */
  method Shuffle(tests: seq<Test>) returns (shuffled: seq<Test>)
    ensures multiset(shuffled) == multiset(tests)
  {
    shuffled := tests;
  }

  method Select(candidates: seq<Test>, f: Filter, o: Options) returns (selected: seq<Test>)
    ensures if o.shuffle then multiset(selected) == multiset(Chosen(candidates, f, o))
      else selected == Chosen(candidates, f, o)
  {
    hide Matches, SortedByName, Ids.Fnv1a64;
    selected := [];
    for i := 0 to |candidates|
      invariant selected == Filtered(f, candidates[..i])
    {
      assert candidates[..i + 1][..i] == candidates[..i];
      var ok := FilterMatches(f, candidates[i]);
      if ok {
        selected := selected + [candidates[i]];
      }
    }
    assert candidates[..|candidates|] == candidates;
    selected := SortedByName(selected);
    if o.shardCount > 1 {
      var index := if o.shardIndex < 0 then 0 else o.shardIndex;
      var shard: seq<Test> := [];
      for i := 0 to |selected|
        invariant shard == Shard(selected[..i], o.shardCount, index)
      {
        assert selected[..i + 1][..i] == selected[..i];
        var hash := Ids.ComputeHash(FullName(selected[i]));
        if hash % o.shardCount == index % o.shardCount {
          shard := shard + [selected[i]];
        }
      }
      assert selected[..|selected|] == selected;
      selected := shard;
    }
    if o.shuffle {
      selected := Shuffle(selected);
    }
  }

  // ---- what is selected ------------------------------------------------------------------------------

  predicate NotAfter(t: Test, u: Test) { Leq(FullName(t), FullName(u)) }

  lemma AppendByName(tests: seq<Test>, t: Test)
    requires ByName(tests) && forall x :: x in tests ==> NotAfter(x, t)
    ensures ByName(tests + [t])
  {
    hide Leq, FullName;
    forall i, j | 0 <= i < j < |tests + [t]|
      ensures Leq(FullName((tests + [t])[i]), FullName((tests + [t])[j]))
    {
      assert NotAfter(tests[i], t);
    }
  }

  lemma FrontByName(tests: seq<Test>)
    requires ByName(tests) && tests != []
    ensures ByName(tests[..|tests| - 1])
    ensures forall x :: x in tests ==> NotAfter(x, tests[|tests| - 1])
  {
    LeqTotal(FullName(tests[|tests| - 1]), FullName(tests[|tests| - 1]));
    hide Leq, FullName;
  }

  lemma {:induction false} InsertKeeps(tests: seq<Test>, t: Test)
    ensures multiset(Insert(tests, t)) == multiset(tests) + multiset{t}
    ensures forall x :: x in Insert(tests, t) ==> x in tests || x == t
  {
    hide Leq, FullName;
    if tests != [] {
      var front, last := tests[..|tests| - 1], tests[|tests| - 1];
      InsertKeeps(front, t);
      assert tests == front + [last];
      assert forall x :: x in Insert(front, t) + [last] ==> x in Insert(front, t) || x == last;
    }
  }

  lemma {:induction false} InsertSorts(tests: seq<Test>, t: Test)
    requires ByName(tests)
    ensures ByName(Insert(tests, t))
  {
    if tests != [] {
      var front, last := tests[..|tests| - 1], tests[|tests| - 1];
      FrontByName(tests);
      LeqTotal(FullName(last), FullName(t));
      hide Leq, ByName;
      if Leq(FullName(last), FullName(t)) {
        forall x | x in tests
          ensures NotAfter(x, t)
        {
          LeqTransitive(FullName(x), FullName(last), FullName(t));
        }
        AppendByName(tests, t);
      } else {
        InsertSorts(front, t);
        InsertKeeps(front, t);
        assert forall x :: x in front ==> x in tests;
        AppendByName(Insert(front, t), last);
      }
    } else {
      assert Insert(tests, t) == [t];
    }
  }

  lemma {:induction false} SortKeeps(tests: seq<Test>)
    ensures multiset(SortedByName(tests)) == multiset(tests)
  {
    hide Insert;
    if tests != [] {
      var front, last := tests[..|tests| - 1], tests[|tests| - 1];
      SortKeeps(front);
      InsertKeeps(SortedByName(front), last);
      assert tests == front + [last];
    }
  }

  lemma {:induction false} SortSorts(tests: seq<Test>)
    ensures ByName(SortedByName(tests)) && multiset(SortedByName(tests)) == multiset(tests)
  {
    assert ByName([]);
    SortKeeps(tests);
    hide ByName, Insert;
    if tests != [] {
      SortSorts(tests[..|tests| - 1]);
      InsertSorts(SortedByName(tests[..|tests| - 1]), tests[|tests| - 1]);
    }
  }

  lemma {:induction false} FilteredExactly(f: Filter, tests: seq<Test>, t: Test)
    ensures multiset(Filtered(f, tests))[t] == if Matches(f, t) then multiset(tests)[t] else 0
  {
    hide Matches;
    if tests != [] {
      FilteredExactly(f, tests[..|tests| - 1], t);
      assert tests == tests[..|tests| - 1] + [tests[|tests| - 1]];
    }
  }

  /** Without shards, exactly the tests that match are selected, in the order of their names. */
  lemma SelectsMatching(candidates: seq<Test>, f: Filter, o: Options, t: Test)
    requires o.shardCount <= 1
    ensures ByName(Chosen(candidates, f, o))
    ensures multiset(Chosen(candidates, f, o))[t] == if Matches(f, t) then multiset(candidates)[t] else 0
  {
    hide Matches, SortedByName, ByName;
    SortSorts(Filtered(f, candidates));
    FilteredExactly(f, candidates, t);
  }

  lemma {:induction false} ShardExactly(tests: seq<Test>, count: nat, index: nat, t: Test)
    requires count > 0
    ensures multiset(Shard(tests, count, index))[t]
         == if ShardOf(t, count) == index % count then multiset(tests)[t] else 0
  {
    hide ShardOf;
    if tests != [] {
      ShardExactly(tests[..|tests| - 1], count, index, t);
      assert tests == tests[..|tests| - 1] + [tests[|tests| - 1]];
    }
  }

  lemma {:induction false} ShardMembers(tests: seq<Test>, count: nat, index: nat, t: Test)
    requires count > 0 && t in Shard(tests, count, index)
    ensures t in tests
  {
    hide ShardOf;
    ShardExactly(tests, count, index, t);
    hide Shard;
    assert t in multiset(Shard(tests, count, index));
    assert t in multiset(tests);
  }

  lemma {:induction false} ShardSorted(tests: seq<Test>, count: nat, index: nat)
    requires count > 0 && ByName(tests)
    ensures ByName(Shard(tests, count, index))
  {
    if tests != [] {
      var front, last := tests[..|tests| - 1], tests[|tests| - 1];
      FrontByName(tests);
      hide ByName, ShardOf, NotAfter;
      ShardSorted(front, count, index);
      forall x | x in Shard(front, count, index)
        ensures NotAfter(x, last)
      {
        ShardMembers(front, count, index, x);
        assert x in tests;
      }
      AppendByName(Shard(front, count, index), last);
    }
  }

  /**
   The shards split the selection: each matching test, as often as it is a candidate,
   is in exactly one of the shards 0 .. count - 1, namely the one its own name says,
   whatever the other tests are.
   */
  lemma ShardsPartition(candidates: seq<Test>, f: Filter, count: nat, index: nat, t: Test)
    requires count > 1 && index < count
    ensures ByName(Chosen(candidates, f, Options(count, index, false)))
    ensures multiset(Chosen(candidates, f, Options(count, index, false)))[t]
            == if Matches(f, t) && ShardOf(t, count) == index then multiset(candidates)[t] else 0
    ensures ShardOf(t, count) < count
  {
    hide Matches, ByName, ShardOf, SortedByName;
    var sorted := SortedByName(Filtered(f, candidates));
    SortSorts(Filtered(f, candidates));
    FilteredExactly(f, candidates, t);
    ShardExactly(sorted, count, index, t);
    ShardSorted(sorted, count, index);
    SmallModulo(index, count);
    ShardInRange(t, count);
  }

  lemma ShardInRange(t: Test, count: nat)
    requires count > 0
    ensures ShardOf(t, count) < count
  {
  }

  lemma SmallModulo(i: nat, n: nat)
    requires i < n
    ensures i % n == i
  {
  }

  // ---- who is selected, pattern by pattern ------------------------------------------------------

  /** Some pattern of the list matches the text. */
  ghost predicate Hit(patterns: seq<string>, text: string) { exists p :: p in patterns && Glob.Code(p, text) }

  ghost predicate HitsTag(patterns: seq<string>, t: Test) { exists tag :: tag in t.tags && Hit(patterns, tag) }

  /** The test is switched off, or ruled out by its suite or by one of its tags. */
  ghost predicate RuledOut(f: Filter, t: Test) {
    (!t.enabled && !f.includeDisabled) || Hit(f.excludeSuites, t.suite) || HitsTag(f.excludeTags, t)
  }

  /** Every list that asks for something is met: suites, names with or without their suite, tags. */
  ghost predicate AskedFor(f: Filter, t: Test) {
    && (f.suites != [] ==> Hit(f.suites, t.suite))
    && (f.names != [] ==>
        Hit(f.names, t.name) || Hit(f.names, if t.suite == "" then t.name else t.suite + "." + t.name))
    && (f.tags != [] ==> HitsTag(f.tags, t))
  }

  lemma GlobHits(patterns: seq<string>, text: string)
    ensures AnyGlob(patterns, text) <==> Hit(patterns, text)
  {
    if Hit(patterns, text) {
      var p :| p in patterns && Glob.Code(p, text);
      var i :| 0 <= i < |patterns| && patterns[i] == p;
    }
    if AnyGlob(patterns, text) {
      var i :| 0 <= i < |patterns| && Glob.Code(patterns[i], text);
      assert patterns[i] in patterns;
    }
  }

  lemma TagHits(patterns: seq<string>, t: Test)
    ensures AnyTag(patterns, t.tags) <==> HitsTag(patterns, t)
  {
    forall tag ensures AnyGlob(patterns, tag) <==> Hit(patterns, tag) {
      GlobHits(patterns, tag);
    }
    hide AnyGlob, Hit;
    if HitsTag(patterns, t) {
      var tag :| tag in t.tags && Hit(patterns, tag);
      var i :| 0 <= i < |t.tags| && t.tags[i] == tag;
      assert AnyGlob(patterns, t.tags[i]);
    }
    if AnyTag(patterns, t.tags) {
      var i :| 0 <= i < |t.tags| && AnyGlob(patterns, t.tags[i]);
      assert t.tags[i] in t.tags;
    }
  }

  lemma MatchesExactly(f: Filter, t: Test)
    ensures Matches(f, t) <==> AskedFor(f, t) && !RuledOut(f, t)
  {
    GlobHits(f.suites, t.suite);
    GlobHits(f.excludeSuites, t.suite);
    GlobHits(f.names, FullName(t));
    GlobHits(f.names, t.name);
    TagHits(f.tags, t);
    TagHits(f.excludeTags, t);
    hide AnyGlob, AnyTag, Hit, HitsTag;
  }

  /** How often a test is selected, whatever the options. */
  lemma SelectedCount(candidates: seq<Test>, f: Filter, o: Options, t: Test)
    ensures multiset(Chosen(candidates, f, o))[t]
         == if Matches(f, t)
               && (o.shardCount <= 1
                   || ShardOf(t, o.shardCount) == (if o.shardIndex < 0 then 0 else o.shardIndex) % o.shardCount)
            then multiset(candidates)[t] else 0
  {
    hide Matches, SortedByName, ByName, ShardOf;
    SortSorts(Filtered(f, candidates));
    FilteredExactly(f, candidates, t);
    if o.shardCount > 1 {
      var index := if o.shardIndex < 0 then 0 else o.shardIndex;
      ShardExactly(SortedByName(Filtered(f, candidates)), o.shardCount, index, t);
    }
  }

  /** A test that is ruled out is never selected, whatever else asks for it and whatever the shards. */
  lemma RuledOutIsNotSelected(candidates: seq<Test>, f: Filter, o: Options, t: Test)
    requires RuledOut(f, t)
    ensures t !in Chosen(candidates, f, o)
  {
    MatchesExactly(f, t);
    SelectedCount(candidates, f, o, t);
    hide Chosen, Matches, RuledOut, AskedFor, ShardOf;
    assert t in Chosen(candidates, f, o) <==> t in multiset(Chosen(candidates, f, o));
  }

  /** Without shards exactly the candidates that are asked for and not ruled out are selected. */
  lemma SelectedExactly(candidates: seq<Test>, f: Filter, o: Options, t: Test)
    requires o.shardCount <= 1
    ensures t in Chosen(candidates, f, o) <==> t in candidates && AskedFor(f, t) && !RuledOut(f, t)
  {
    MatchesExactly(f, t);
    SelectedCount(candidates, f, o, t);
    hide Chosen, Matches, RuledOut, AskedFor, ShardOf;
    assert t in Chosen(candidates, f, o) <==> t in multiset(Chosen(candidates, f, o));
    assert t in candidates <==> t in multiset(candidates);
  }

  /** The second filter excludes everything that the first one excludes, and asks for the same. */
  ghost predicate Stricter(f: Filter, g: Filter) {
    && g.suites == f.suites && g.names == f.names && g.tags == f.tags && (g.includeDisabled ==> f.includeDisabled)
    && (forall p :: p in f.excludeTags ==> p in g.excludeTags)
    && (forall p :: p in f.excludeSuites ==> p in g.excludeSuites)
  }

  /** Adding exclusions, or leaving out the disabled tests, only removes tests. */
  lemma ExclusionsOnlyRemove(candidates: seq<Test>, f: Filter, g: Filter, o: Options)
    requires Stricter(f, g)
    ensures multiset(Chosen(candidates, g, o)) <= multiset(Chosen(candidates, f, o))
  {
    forall t: Test
      ensures multiset(Chosen(candidates, g, o))[t] <= multiset(Chosen(candidates, f, o))[t]
    {
      MatchesExactly(f, t);
      MatchesExactly(g, t);
      StricterRulesOut(f, g, t);
      SelectedCount(candidates, f, o, t);
      SelectedCount(candidates, g, o, t);
      hide Chosen, Matches, RuledOut, AskedFor, ShardOf, Stricter;
    }
  }

  lemma StricterRulesOut(f: Filter, g: Filter, t: Test)
    requires Stricter(f, g)
    ensures RuledOut(f, t) ==> RuledOut(g, t)
    ensures AskedFor(f, t) <==> AskedFor(g, t)
  {
  }
}
