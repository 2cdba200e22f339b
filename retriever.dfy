/** `PolicyRetriever.retrieve`: the recency-biased filter applied to the
    ordered results of the similarity search. The search itself
    (`self.retriever.invoke(query)`, top 10 by similarity) is outside the
    model; its result is the `rawResults` argument. */
module Retriever {
  import opened Wrappers
  import opened Seqs
  import opened Text
  import opened Documents
  import opened YearSort

  /** Substrings of the lower-cased query that mark a question about
      work policy. */
  const WorkKeywords: seq<string> :=
    ["work", "remote", "office", "home", "wfh", "working", "policy", "can i", "allow"]

  /** Policies effective from this year on are the current ones. */
  const CurrentYear: int := 2024

  /** At most this many current policies are returned. */
  const MaxCurrentPolicies: nat := 3

  /** Outside the policy path: at most this many of each kind ... */
  const MixedPerKind: nat := 2

  /** ... and at most this many in all. */
  const MaxMixed: nat := 3

  /** `any(keyword in query.lower() for keyword in work_keywords)` */
  predicate IsPolicyQuery(query: string)
    ensures IsPolicyQuery(query) ==> 3 <= |Lower(query)|
  {
    exists k :: k in WorkKeywords && Contains(Lower(query), k)
  }

  predicate IsCurrent(d: Doc) {
    Year(d) >= CurrentYear
  }

  /** The value `retrieve` returns for `query` when the search produced
      `rawResults`. */
  function Select(query: string, rawResults: seq<Doc>): (r: seq<Doc>)
    ensures |r| <= MaxMixed
    ensures r == [] <==> rawResults == []
  {
    Rank(IsPolicyQuery(query), rawResults)
  }

  /** The filter once the intent of the query is known. */
  function Rank(policyIntent: bool, rawResults: seq<Doc>): (r: seq<Doc>)
    ensures |r| <= MaxMixed
    ensures r == [] <==> rawResults == []
  {
    if rawResults == [] then []
    else
      var policyDocs := Filter(IsPolicy, rawResults);
      var nonPolicyDocs := Filter(IsNonPolicy, rawResults);
      assert rawResults[0] in policyDocs || rawResults[0] in nonPolicyDocs;
      if policyIntent && policyDocs != [] then
        var sorted := SortByYearDesc(policyDocs);
        var currentPolicies := Filter(IsCurrent, sorted);
        if currentPolicies != [] then Take(currentPolicies, MaxCurrentPolicies)
        else Take(sorted, 1)
      else
        var sorted := if policyDocs != [] then SortByYearDesc(policyDocs) else policyDocs;
        Take(Take(sorted, MixedPerKind) + Take(nonPolicyDocs, MixedPerKind), MaxMixed)
  }

  /** The retriever as the source runs it: one pass over the results that
      appends each to the policy or the non-policy list, then the sort, the
      filter and the slices. */
  method Retrieve(query: string, rawResults: seq<Doc>) returns (result: seq<Doc>)
    ensures result == Select(query, rawResults)
  {
    if rawResults == [] {
      return [];
    }
    var policyDocs: seq<Doc> := [];
    var nonPolicyDocs: seq<Doc> := [];
    for i := 0 to |rawResults|
      invariant policyDocs == Filter(IsPolicy, rawResults[..i])
      invariant nonPolicyDocs == Filter(IsNonPolicy, rawResults[..i])
    {
      var doc := rawResults[i];
      assert rawResults[..i + 1] == rawResults[..i] + [doc];
      FilterSnoc(IsPolicy, rawResults[..i], doc);
      FilterSnoc(IsNonPolicy, rawResults[..i], doc);
      if DocumentType(doc) == PolicyType {
        policyDocs := policyDocs + [doc];
      } else {
        nonPolicyDocs := nonPolicyDocs + [doc];
      }
    }
    assert rawResults[..|rawResults|] == rawResults;
    var isPolicyQuery := IsPolicyQuery(query);
    if isPolicyQuery && policyDocs != [] {
      policyDocs := SortByYearDesc(policyDocs);
      var currentPolicies := Filter(IsCurrent, policyDocs);
      if currentPolicies != [] {
        return Take(currentPolicies, MaxCurrentPolicies);
      } else {
        return Take(policyDocs, 1);
      }
    }
    if policyDocs != [] {
      policyDocs := SortByYearDesc(policyDocs);
    }
    result := Take(Take(policyDocs, MixedPerKind) + Take(nonPolicyDocs, MixedPerKind), MaxMixed);
  }

  /** No search results, nothing returned. */
  lemma EmptyResultsSelectNothing(query: string)
    ensures Select(query, []) == []
  {
  }

  /** The split into policy and non-policy documents is exact: each result
      lands in exactly one list, by its `document_type` alone (a missing type
      counting as "general"). `Filter` keeps the search order. */
  lemma PartitionExact(rawResults: seq<Doc>)
    ensures multiset(Filter(IsPolicy, rawResults)) + multiset(Filter(IsNonPolicy, rawResults))
            == multiset(rawResults)
    ensures forall d :: d in Filter(IsPolicy, rawResults) <==>
                        d in rawResults && d.documentType == Some(PolicyType)
  {
    FilterComplement(IsPolicy, IsNonPolicy, rawResults);
    forall d | d in rawResults {
      PolicyIffTagged(d);
    }
  }

  /** A query is a policy question exactly when one of the nine keywords
      occurs somewhere in its lower-cased text. */
  lemma PolicyQueryIff(query: string)
    ensures IsPolicyQuery(query) <==>
            exists k, i :: k in WorkKeywords && OccursAt(Lower(query), k, i)
  {
    var lowered := Lower(query);
    if IsPolicyQuery(query) {
      var k :| k in WorkKeywords && Contains(lowered, k);
      ContainsIff(lowered, k);
      var i :| OccursAt(lowered, k, i);
    }
    if exists k, i :: k in WorkKeywords && OccursAt(lowered, k, i) {
      var k, i :| k in WorkKeywords && OccursAt(lowered, k, i);
      ContainsIff(lowered, k);
      assert Contains(Lower(query), k);
      assert IsPolicyQuery(query);
    }
  }

  /** The intent test ignores case: lower-casing the query first changes nothing. */
  lemma PolicyQueryIgnoresCase(query: string)
    ensures IsPolicyQuery(Lower(query)) == IsPolicyQuery(query)
  {
    LowerIdempotent(query);
  }

  /** A policy question with at least one policy document among the results
      gets policy documents only, between one and three of them. */
  lemma PolicyQueryReturnsOnlyPolicies(rawResults: seq<Doc>)
    requires exists d :: d in rawResults && IsPolicy(d)
    ensures var r := Rank(true, rawResults);
      1 <= |r| <= MaxCurrentPolicies &&
      forall d :: d in r ==> IsPolicy(d) && d in rawResults
  {
    var policyDocs := Filter(IsPolicy, rawResults);
    var d :| d in rawResults && IsPolicy(d);
    assert d in policyDocs;
    var sorted := SortByYearDesc(policyDocs);
    forall x | x in sorted ensures x in policyDocs {
      assert x in multiset(sorted);
    }
  }

  /** The policy path of `Rank`, unfolded. */
  lemma RankPolicyPath(rawResults: seq<Doc>)
    requires Filter(IsPolicy, rawResults) != []
    ensures var sorted := SortByYearDesc(Filter(IsPolicy, rawResults));
      var currentPolicies := Filter(IsCurrent, sorted);
      Rank(true, rawResults) ==
        if currentPolicies != [] then Take(currentPolicies, MaxCurrentPolicies) else Take(sorted, 1)
  {
  }

  /** When some policy in the results is current (effective 2024 or later),
      a policy question gets the current policies, newest first, at most
      three; every older policy is left out, and none that is left out is
      newer than one returned. */
  lemma CurrentPoliciesWin(rawResults: seq<Doc>)
    requires exists d :: d in rawResults && IsPolicy(d) && IsCurrent(d)
    ensures var r := Rank(true, rawResults);
      var current := Filter(IsCurrent, Filter(IsPolicy, rawResults));
      r == Take(SortByYearDesc(current), MaxCurrentPolicies) &&
      |r| == Min(|current|, MaxCurrentPolicies) &&
      (forall i :: 0 <= i < |r| ==> IsPolicy(r[i]) && Year(r[i]) >= CurrentYear) &&
      YearsNonIncreasing(r) &&
      (forall d, i :: d in current && d !in r && 0 <= i < |r| ==> Year(d) <= Year(r[i]))
  {
    var policyDocs := Filter(IsPolicy, rawResults);
    var current := Filter(IsCurrent, policyDocs);
    var d :| d in rawResults && IsPolicy(d) && IsCurrent(d);
    assert d in current;
    RankPolicyPath(rawResults);
    FilterSortCommute(IsCurrent, policyDocs);
    var r := Take(SortByYearDesc(current), MaxCurrentPolicies);
    assert Rank(true, rawResults) == r;
    TopOfRanked(current, MaxCurrentPolicies);
    forall i | 0 <= i < |r| ensures IsPolicy(r[i]) && Year(r[i]) >= CurrentYear {
      assert r[i] in r;
    }
  }

  /** The first `n` of a sorted list are newest-first and no document left
      out is newer than one kept. */
  lemma TopOfRanked(docs: seq<Doc>, n: nat)
    ensures var ranked := SortByYearDesc(docs);
      var r := Take(ranked, n);
      YearsNonIncreasing(r) &&
      (forall d :: d in r ==> d in docs) &&
      (forall d, i :: d in docs && d !in r && 0 <= i < |r| ==> Year(d) <= Year(r[i]))
  {
    var ranked := SortByYearDesc(docs);
    var r := Take(ranked, n);
    forall d | d in ranked ensures d in docs {
      assert d in multiset(ranked);
    }
    forall d | d in docs ensures d in ranked {
      assert d in multiset(docs);
    }
    PrefixDominates(ranked, n);
  }

  /** In a newest-first list nothing after the first `n` is newer than any
      of them. */
  lemma PrefixDominates(ranked: seq<Doc>, n: nat)
    requires YearsNonIncreasing(ranked)
    ensures var r := Take(ranked, n);
      YearsNonIncreasing(r) &&
      (forall d :: d in r ==> d in ranked) &&
      (forall e, i :: e in ranked && e !in r && 0 <= i < |r| ==> Year(e) <= Year(r[i]))
  {
    var r := Take(ranked, n);
    var rest := ranked[|r|..];
    assert ranked == r + rest;
    forall e, i | e in ranked && e !in r && 0 <= i < |r| ensures Year(e) <= Year(r[i]) {
      assert e in rest;
      var j :| 0 <= j < |rest| && rest[j] == e;
      assert ranked[|r| + j] == e;
      assert r[i] == ranked[i];
    }
  }

  /** When no policy in the results is current, a policy question gets
      exactly one document: a policy of the latest year present, and of
      those the first in search order. */
  lemma FallbackNewestPolicy(rawResults: seq<Doc>)
    requires exists d :: d in rawResults && IsPolicy(d)
    requires forall d :: d in rawResults && IsPolicy(d) ==> !IsCurrent(d)
    ensures var r := Rank(true, rawResults);
      var policyDocs := Filter(IsPolicy, rawResults);
      |r| == 1 && r[0] in policyDocs &&
      (forall d :: d in policyDocs ==> Year(d) <= Year(r[0])) &&
      exists i :: 0 <= i < |policyDocs| && policyDocs[i] == r[0] &&
                  forall j :: 0 <= j < i ==> Year(policyDocs[j]) < Year(r[0])
  {
    FallbackIsHead(rawResults);
    NewestHead(Filter(IsPolicy, rawResults));
  }

  /** The head of the sorted list is one of the documents, of the latest
      year, and the first of that year in the list given. */
  lemma NewestHead(docs: seq<Doc>)
    requires docs != []
    ensures var top := SortByYearDesc(docs)[0];
      top in docs &&
      (forall d :: d in docs ==> Year(d) <= Year(top)) &&
      exists i :: 0 <= i < |docs| && docs[i] == top &&
                  forall j :: 0 <= j < i ==> Year(docs[j]) < Year(top)
  {
    var sorted := SortByYearDesc(docs);
    assert sorted[0] in multiset(sorted);
    SortedHeadIsNewest(docs);
    FirstOfNewestYear(docs);
  }

  /** Without a current policy, the policy path keeps the head of the
      sorted policies alone. */
  lemma FallbackIsHead(rawResults: seq<Doc>)
    requires exists d :: d in rawResults && IsPolicy(d)
    requires forall d :: d in rawResults && IsPolicy(d) ==> !IsCurrent(d)
    ensures Filter(IsPolicy, rawResults) != []
    ensures Rank(true, rawResults) == [SortByYearDesc(Filter(IsPolicy, rawResults))[0]]
  {
    var policyDocs := Filter(IsPolicy, rawResults);
    var d :| d in rawResults && IsPolicy(d);
    assert d in policyDocs;
    var sorted := SortByYearDesc(policyDocs);
    RankPolicyPath(rawResults);
    NoCurrentPolicies(rawResults);
    assert Take(sorted, 1) == [sorted[0]];
  }

  lemma NoCurrentPolicies(rawResults: seq<Doc>)
    requires forall d :: d in rawResults && IsPolicy(d) ==> !IsCurrent(d)
    ensures Filter(IsCurrent, SortByYearDesc(Filter(IsPolicy, rawResults))) == []
  {
    var policyDocs := Filter(IsPolicy, rawResults);
    var sorted := SortByYearDesc(policyDocs);
    forall i | 0 <= i < |sorted| ensures !IsCurrent(sorted[i]) {
      assert sorted[i] in multiset(policyDocs);
      assert sorted[i] in policyDocs;
    }
    FilterDropsAll(IsCurrent, sorted);
  }

  /** The first document of the sorted list is, of the newest documents,
      the one that comes first in the list given. */
  lemma FirstOfNewestYear(docs: seq<Doc>)
    requires docs != []
    ensures var top := SortByYearDesc(docs)[0];
      exists i :: 0 <= i < |docs| && docs[i] == top &&
                  forall j :: 0 <= j < i ==> Year(docs[j]) < Year(top)
  {
    var sorted := SortByYearDesc(docs);
    var top := sorted[0];
    var y := Year(top);
    var sameYear := (e: Doc) => Year(e) == y;
    SortedHeadIsNewest(docs);
    SortIsStable(docs, sameYear, y);
    assert Filter(sameYear, sorted)[0] == top;
    FilterFirst(sameYear, docs);
    var i :| 0 <= i < |docs| && docs[i] == Filter(sameYear, docs)[0] &&
             forall j :: 0 <= j < i ==> !sameYear(docs[j]);
    forall j | 0 <= j < i ensures Year(docs[j]) < y {
      assert docs[j] in docs;
    }
  }

  /** The mixed path of `Rank`, unfolded. */
  lemma RankMixedPath(policyIntent: bool, rawResults: seq<Doc>)
    requires !policyIntent || Filter(IsPolicy, rawResults) == []
    ensures var sorted := SortByYearDesc(Filter(IsPolicy, rawResults));
      Rank(policyIntent, rawResults) ==
        Take(Take(sorted, MixedPerKind) + Take(Filter(IsNonPolicy, rawResults), MixedPerKind), MaxMixed)
  {
    if rawResults == [] {
      assert Filter(IsPolicy, rawResults) == [] && Filter(IsNonPolicy, rawResults) == [];
    }
  }

  /** Any other query (or a policy question without policy documents) gets
      up to two policy documents, newest first, followed by up to two
      non-policy documents in search order, three at most in all. */
  lemma MixedSelection(policyIntent: bool, rawResults: seq<Doc>)
    requires !policyIntent || forall d :: d in rawResults ==> !IsPolicy(d)
    ensures var r := Rank(policyIntent, rawResults);
      var policyDocs := Filter(IsPolicy, rawResults);
      var nonPolicyDocs := Filter(IsNonPolicy, rawResults);
      var np := Min(|policyDocs|, MixedPerKind);
      r == Take(SortByYearDesc(policyDocs), MixedPerKind) +
           Take(nonPolicyDocs, Min(MixedPerKind, MaxMixed - np)) &&
      |r| == Min(MaxMixed, np + Min(|nonPolicyDocs|, MixedPerKind)) &&
      Filter(IsPolicy, r) == Take(SortByYearDesc(policyDocs), MixedPerKind) &&
      Filter(IsNonPolicy, r) == Take(nonPolicyDocs, Min(MixedPerKind, MaxMixed - np)) &&
      forall i, j :: 0 <= i < j < |r| && IsPolicy(r[j]) ==> IsPolicy(r[i])
  {
    MixedConcatenation(policyIntent, rawResults);
    PartsKeepTheirKind(rawResults);
    MixedShape(SortByYearDesc(Filter(IsPolicy, rawResults)), Filter(IsNonPolicy, rawResults));
  }

  /** The mixed path as the concatenation of its two parts. */
  lemma MixedConcatenation(policyIntent: bool, rawResults: seq<Doc>)
    requires !policyIntent || forall d :: d in rawResults ==> !IsPolicy(d)
    ensures var policyDocs := Filter(IsPolicy, rawResults);
      var np := Min(|policyDocs|, MixedPerKind);
      Rank(policyIntent, rawResults) ==
        Take(SortByYearDesc(policyDocs), MixedPerKind) +
        Take(Filter(IsNonPolicy, rawResults), Min(MixedPerKind, MaxMixed - np))
  {
    var policyDocs := Filter(IsPolicy, rawResults);
    var nonPolicyDocs := Filter(IsNonPolicy, rawResults);
    if policyIntent {
      FilterDropsAll(IsPolicy, rawResults);
    }
    RankMixedPath(policyIntent, rawResults);
    var sorted := SortByYearDesc(policyDocs);
    var a := Take(sorted, MixedPerKind);
    var b := Take(nonPolicyDocs, MixedPerKind);
    var np := Min(|policyDocs|, MixedPerKind);
    assert |a| == np;
    TakeAppend(a, b, MaxMixed);
    TakeTake(nonPolicyDocs, MixedPerKind, MaxMixed - np);
  }

  /** The two parts of the mixed path, of policies and of other documents,
      in that order. */
  lemma MixedShape(sorted: seq<Doc>, nonPolicyDocs: seq<Doc>)
    requires forall i :: 0 <= i < |sorted| ==> IsPolicy(sorted[i])
    requires forall i :: 0 <= i < |nonPolicyDocs| ==> IsNonPolicy(nonPolicyDocs[i])
    ensures var np := Min(|sorted|, MixedPerKind);
      var a := Take(sorted, MixedPerKind);
      var rest := Take(nonPolicyDocs, Min(MixedPerKind, MaxMixed - np));
      var r := a + rest;
      |r| == Min(MaxMixed, np + Min(|nonPolicyDocs|, MixedPerKind)) &&
      Filter(IsPolicy, r) == a &&
      Filter(IsNonPolicy, r) == rest &&
      forall i, j :: 0 <= i < j < |r| && IsPolicy(r[j]) ==> IsPolicy(r[i])
  {
    var np := Min(|sorted|, MixedPerKind);
    var a := Take(sorted, MixedPerKind);
    var rest := Take(nonPolicyDocs, Min(MixedPerKind, MaxMixed - np));
    forall e | e in a ensures IsPolicy(e) {
      var k :| 0 <= k < |a| && a[k] == e;
      assert a[k] == sorted[k];
    }
    forall e | e in rest ensures IsNonPolicy(e) {
      var k :| 0 <= k < |rest| && rest[k] == e;
      assert rest[k] == nonPolicyDocs[k];
    }
    MixedParts(a, rest);
  }

  /** Sorting the policy documents keeps them policies, and filtering for
      the other kind keeps only non-policies. */
  lemma PartsKeepTheirKind(rawResults: seq<Doc>)
    ensures var sorted := SortByYearDesc(Filter(IsPolicy, rawResults));
      forall i :: 0 <= i < |sorted| ==> IsPolicy(sorted[i])
    ensures var nonPolicyDocs := Filter(IsNonPolicy, rawResults);
      forall i :: 0 <= i < |nonPolicyDocs| ==> IsNonPolicy(nonPolicyDocs[i])
  {
    var sorted := SortByYearDesc(Filter(IsPolicy, rawResults));
    forall i | 0 <= i < |sorted| ensures IsPolicy(sorted[i]) {
      assert sorted[i] in multiset(sorted);
    }
    var nonPolicyDocs := Filter(IsNonPolicy, rawResults);
    forall i | 0 <= i < |nonPolicyDocs| ensures IsNonPolicy(nonPolicyDocs[i]) {
      assert nonPolicyDocs[i] in nonPolicyDocs;
    }
  }

  /** A policy part followed by a non-policy part splits back into the two. */
  lemma MixedParts(a: seq<Doc>, b: seq<Doc>)
    requires forall d :: d in a ==> IsPolicy(d)
    requires forall d :: d in b ==> IsNonPolicy(d)
    ensures Filter(IsPolicy, a + b) == a
    ensures Filter(IsNonPolicy, a + b) == b
    ensures forall i, j :: 0 <= i < j < |a + b| && IsPolicy((a + b)[j]) ==> IsPolicy((a + b)[i])
  {
    FilterAppend(IsPolicy, a, b);
    FilterAppend(IsNonPolicy, a, b);
    FilterKeepsAll(IsPolicy, a);
    FilterDropsAll(IsPolicy, b);
    FilterDropsAll(IsNonPolicy, a);
    FilterKeepsAll(IsNonPolicy, b);
    forall i, j | 0 <= i < j < |a + b| && IsPolicy((a + b)[j]) ensures IsPolicy((a + b)[i]) {
      assert (a + b)[i] == a[i];
    }
  }

  /** On every path at most three documents come back, each one a search
      result, and none more often than the search returned it. */
  lemma RankBounded(policyIntent: bool, rawResults: seq<Doc>)
    ensures |Rank(policyIntent, rawResults)| <= 3
    ensures multiset(Rank(policyIntent, rawResults)) <= multiset(rawResults)
  {
    var r := Rank(policyIntent, rawResults);
    var policyDocs := Filter(IsPolicy, rawResults);
    var nonPolicyDocs := Filter(IsNonPolicy, rawResults);
    var sorted := SortByYearDesc(policyDocs);
    if policyIntent && policyDocs != [] {
      RankPolicyPath(rawResults);
      var currentPolicies := Filter(IsCurrent, sorted);
      FilterMultiset(IsPolicy, rawResults);
      FilterMultiset(IsCurrent, sorted);
      TakeMultiset(currentPolicies, MaxCurrentPolicies);
      TakeMultiset(sorted, 1);
      assert multiset(r) <= multiset(sorted);
    } else {
      RankMixedPath(policyIntent, rawResults);
      FilterComplement(IsPolicy, IsNonPolicy, rawResults);
      var a := Take(sorted, MixedPerKind);
      var b := Take(nonPolicyDocs, MixedPerKind);
      TakeMultiset(sorted, MixedPerKind);
      TakeMultiset(nonPolicyDocs, MixedPerKind);
      TakeMultiset(a + b, MaxMixed);
      assert multiset(a + b) == multiset(a) + multiset(b);
      assert multiset(a + b) <= multiset(policyDocs) + multiset(nonPolicyDocs);
    }
  }

  /** Results that carry no `document_type` at all, as every document the
      loader produces, never reach the policy path: whatever the query, the
      first two results come back. */
  lemma UntypedResultsTakeFirstTwo(query: string, rawResults: seq<Doc>)
    requires forall d :: d in rawResults ==> d.documentType.None?
    ensures Select(query, rawResults) == Take(rawResults, MixedPerKind)
  {
    forall i | 0 <= i < |rawResults| ensures IsNonPolicy(rawResults[i]) {
      PolicyIffTagged(rawResults[i]);
    }
    FilterDropsAll(IsPolicy, rawResults);
    FilterKeepsAll(IsNonPolicy, rawResults);
    assert [] + Take(rawResults, MixedPerKind) == Take(rawResults, MixedPerKind);
  }
}
