/** FilterAndSortCandidates: the candidates a query matches, best first. */
module Filtering {
  import opened Wrappers
  import opened Utf8
  import opened Words
  import opened Embedding
  import opened Ranking
  import opened PartialSorting
  import opened Repositories
  import opened Normalization
  import opened UnicodeTable

  /** A result and the position of its candidate in the caller's list. */
  type Ranked = (MatchResult, nat)

  predicate RankedBefore(a: Ranked, b: Ranked)
  {
    Before(a.0, b.0)
  }

  ghost function ResultsFor(query: Word): iset<MatchResult>
  {
    iset r: MatchResult | ResultFor(query, r)
  }

  ghost function RankedFor(query: Word): iset<Ranked>
  {
    iset p: Ranked | ResultFor(query, p.0)
  }

  lemma BeforeIsStrictWeakOrder(query: Word)
    ensures StrictWeakOrder(Before, ResultsFor(query))
  {
    var dom := ResultsFor(query);
    forall x | x in dom
      ensures !Before(x, x)
    {
      LessIrreflexive(query, x);
    }
    forall x, y, z | x in dom && y in dom && z in dom && Before(x, y) && Before(y, z)
      ensures Before(x, z)
    {
      LessTransitive(query, x, y, z);
    }
    forall x, y, z | x in dom && y in dom && z in dom && Tied(Before, x, y) && Tied(Before, y, z)
      ensures Tied(Before, x, z)
    {
      TiesTransitive(query, x, y, z);
    }
  }

  lemma RankedBeforeIsStrictWeakOrder(query: Word)
    ensures StrictWeakOrder(RankedBefore, RankedFor(query))
  {
    BeforeIsStrictWeakOrder(query);
    var dom, results := RankedFor(query), ResultsFor(query);
    forall x, y, z | x in dom && y in dom && z in dom && Tied(RankedBefore, x, y) && Tied(RankedBefore, y, z)
      ensures Tied(RankedBefore, x, z)
    {
      assert x.0 in results && y.0 in results && z.0 in results;
      assert Tied(Before, x.0, y.0) && Tied(Before, y.0, z.0);
    }
    forall x, y, z | x in dom && y in dom && z in dom && RankedBefore(x, y) && RankedBefore(y, z)
      ensures RankedBefore(x, z)
    {
      assert x.0 in results && y.0 in results && z.0 in results;
    }
  }

  /** The tests the loop makes. */
  predicate Passes(c: Candidate, query: Word)
  {
    !c.word.IsEmpty() && c.word.ContainsBytes(query) && ResultOf(c, query).Match?
  }

  /** The results of the first n candidates that pass, with their positions. */
  function Passing(candidates: seq<Candidate>, query: Word, n: nat): seq<Ranked>
    requires n <= |candidates|
  {
    if n == 0 then []
    else
      var before := Passing(candidates, query, n - 1);
      if Passes(candidates[n - 1], query) then before + [(ResultOf(candidates[n - 1], query), n - 1)] else before
  }

  lemma {:induction false} PassingContents(candidates: seq<Candidate>, query: Word, n: nat)
    requires n <= |candidates|
    ensures var xs := Passing(candidates, query, n);
      && (forall j :: 0 <= j < |xs| ==>
            xs[j].1 < n && Passes(candidates[xs[j].1], query) && xs[j].0 == ResultOf(candidates[xs[j].1], query))
      && (forall j, k :: 0 <= j < k < |xs| ==> xs[j].1 < xs[k].1)
      && (forall i :: 0 <= i < n && Passes(candidates[i], query) ==> (ResultOf(candidates[i], query), i) in xs)
      && Within(xs, RankedFor(query))
  {
    if n > 0 {
      PassingContents(candidates, query, n - 1);
      ResultsBounded(candidates[n - 1], query);
      var before, xs := Passing(candidates, query, n - 1), Passing(candidates, query, n);
      forall p | p in before
        ensures p in xs
      {}
      if Passes(candidates[n - 1], query) {
        assert xs[|xs| - 1] in xs;
      }
    }
  }

  method RankCandidates(candidates: seq<Candidate>, query: Word, k: nat) returns (ranked: seq<Ranked>)
    ensures IsTopK(RankedBefore, Passing(candidates, query, |candidates|), k, ranked)
  {
    var results: seq<Ranked> := [];
    for i := 0 to |candidates|
      invariant results == Passing(candidates, query, i)
    {
      var candidate := candidates[i];
      if candidate.word.IsEmpty() || !candidate.word.ContainsBytes(query) {
        continue;
      }
      var result := QueryMatchResult(candidate, query);
      if result.Match? {
        results := results + [(result, i)];
      }
    }
    PassingContents(candidates, query, |candidates|);
    RankedBeforeIsStrictWeakOrder(query);
    var a := new Ranked[|results|](i requires 0 <= i < |results| => results[i]);
    assert a[..] == results;
    var kept := PartialSort(RankedBefore, a, k, RankedFor(query));
    return a[..kept];
  }

  /** The text an object's candidate is built from. */
  function TextOf<O>(o: O, property: O -> Bytes): Bytes
  {
    Clipped(property(o))
  }

  /** The candidates of the objects' texts, the same one for equal texts. */
  ghost predicate CandidatesOf<O>(rows: seq<Row>, objects: seq<O>, property: O -> Bytes, candidates: seq<Candidate>)
  {
    && |candidates| == |objects|
    && (forall i :: 0 <= i < |objects| ==> CandidateOf(rows, TextOf(objects[i], property), candidates[i]))
    && (forall i, j ::
         0 <= i < |objects| && 0 <= j < |objects| && TextOf(objects[i], property) == TextOf(objects[j], property) ==>
         candidates[i] == candidates[j])
  }

  /** They are the objects of one repository. */
  ghost predicate BuiltBy<O>(
    build: Bytes -> Option<Candidate>, objects: seq<O>, property: O -> Bytes, candidates: seq<Candidate>)
  {
    |candidates| == |objects| &&
    forall i :: 0 <= i < |objects| ==> build(TextOf(objects[i], property)) == Some(candidates[i])
  }

  ghost predicate CandidateRepository(rows: seq<Row>, repository: Repository<Candidate>)
  {
    repository.holdsCandidates && Builds(rows, repository.build)
  }

  /** None where some text does not decode. */
  method CandidatesFromObjectList<O>(
    ghost rows: seq<Row>, repository: Repository<Candidate>, objects: seq<O>, property: O -> Bytes)
    returns (r: Option<seq<Candidate>>)
    requires repository.Valid() && CandidateRepository(rows, repository)
    modifies repository
    ensures repository.Valid()
    ensures r.None? <==> exists i :: 0 <= i < |objects| && Split(TextOf(objects[i], property)).Failure?
    ensures r.Some? ==>
      CandidatesOf(rows, objects, property, r.value) && BuiltBy(repository.build, objects, property, r.value)
  {
    var texts := seq(|objects|, i requires 0 <= i < |objects| => property(objects[i]));
    var elements := repository.GetElements(texts);
    if elements.None? {
      var i :| 0 <= i < |texts| && repository.build(repository.Clip(texts[i])).None?;
      assert Split(TextOf(objects[i], property)).Failure?;
      return None;
    }
    var candidates := seq(|objects|, i requires 0 <= i < |objects| => elements.value[i].value);
    forall i | 0 <= i < |objects|
      ensures repository.build(TextOf(objects[i], property)) == Some(candidates[i])
    {
      assert repository.holder[repository.Clip(texts[i])] == elements.value[i];
    }
    return Some(candidates);
  }

  /** The objects at the ranked positions. */
  ghost predicate Picks<O>(objects: seq<O>, ranked: seq<Ranked>, r: seq<O>)
  {
    |r| == |ranked| && forall i :: 0 <= i < |r| ==> ranked[i].1 < |objects| && r[i] == objects[ranked[i].1]
  }

  method PickObjects<O>(objects: seq<O>, ranked: seq<Ranked>) returns (r: seq<O>)
    requires forall i :: 0 <= i < |ranked| ==> ranked[i].1 < |objects|
    ensures Picks(objects, ranked, r)
  {
    r := [];
    for i := 0 to |ranked|
      invariant |r| == i
      invariant forall j :: 0 <= j < i ==> r[j] == objects[ranked[j].1]
    {
      r := r + [objects[ranked[i].1]];
    }
  }

  ghost predicate FilteredAndSorted<O>(
    rows: seq<Row>, objects: seq<O>, property: O -> Bytes, queryText: Bytes, k: nat,
    query: Word, candidates: seq<Candidate>, ranked: seq<Ranked>, r: seq<O>)
  {
    && WordOf(rows, queryText, query)
    && CandidatesOf(rows, objects, property, candidates)
    && IsTopK(RankedBefore, Passing(candidates, query, |candidates|), k, ranked)
    && Picks(objects, ranked, r)
  }

  /** None exactly where a candidate's text or the query does not decode. */
  method FilterAndSortCandidates<O>(
    table: seq<RawCodePoint>, ghost rows: seq<Row>, repository: Repository<Candidate>,
    objects: seq<O>, property: O -> Bytes, queryText: Bytes, k: nat) returns (r: Option<seq<O>>)
    requires TableFor(table, rows) && UnicodeData(rows)
    requires repository.Valid() && CandidateRepository(rows, repository)
    modifies repository
    ensures repository.Valid()
    ensures r.None? <==>
      Split(queryText).Failure? || exists i :: 0 <= i < |objects| && Split(TextOf(objects[i], property)).Failure?
    ensures r.Some? ==> exists query, candidates, ranked ::
      BuiltBy(repository.build, objects, property, candidates) &&
      FilteredAndSorted(rows, objects, property, queryText, k, query, candidates, ranked, r.value)
  {
    var candidates := CandidatesFromObjectList(rows, repository, objects, property);
    if candidates.None? { return None; }
    var query := MakeWord(table, rows, queryText);
    if query.Failure? { return None; }
    var ranked := RankCandidates(candidates.value, query.value, k);
    TopKMembers(candidates.value, query.value, k, ranked);
    PassingContents(candidates.value, query.value, |candidates.value|);
    var filtered := PickObjects(objects, ranked);
    assert FilteredAndSorted(rows, objects, property, queryText, k, query.value, candidates.value, ranked, filtered);
    return Some(filtered);
  }

  lemma TopKMembers(candidates: seq<Candidate>, query: Word, k: nat, ranked: seq<Ranked>)
    requires IsTopK(RankedBefore, Passing(candidates, query, |candidates|), k, ranked)
    ensures forall i :: 0 <= i < |ranked| ==> ranked[i] in Passing(candidates, query, |candidates|)
  {
    var xs := Passing(candidates, query, |candidates|);
    var rest :| Selects(RankedBefore, xs, ranked, rest);
    forall i | 0 <= i < |ranked|
      ensures ranked[i] in xs
    {
      assert ranked[i] in multiset(xs);
    }
  }

  // ----- What is returned -----

  /** A nonempty candidate in which the query embeds; any nonempty one for the empty query. */
  ghost predicate Eligible(c: Candidate, query: Word)
  {
    c.word.characters != [] && Embeddable(Smart, query.characters, c.word.characters)
  }

  /** Byte sets are those of the characters, and a match keeps bytes; see PrefilterExact. */
  ghost predicate Comparable(c: Candidate, query: Word)
  {
    HasBytes(query) && HasBytes(c.word) && MatchesKeepBytes(query.characters, c.word.characters)
  }

  /** The byte test never changes what passes. */
  lemma PassesIffEligible(c: Candidate, query: Word)
    requires Comparable(c, query)
    ensures Passes(c, query) <==> Eligible(c, query)
  {
    if query.characters == [] {
      assert Embeds(Smart, query.characters, c.word.characters, 0, []);
    } else {
      MatchesIffEmbeddable(c, query);
    }
    if Eligible(c, query) {
      PrefilterSound(query, c.word);
    }
  }

  /** Candidates and queries built from normalised rows are comparable as soon as equal folds share their base. */
  lemma BuiltComparable(rows: seq<Row>, x: Bytes, y: Bytes, c: Candidate, query: Word)
    requires ComputedNormals(rows) && WordOf(rows, x, c.word) && WordOf(rows, y, query)
    requires FoldsShareBase(query.characters, c.word.characters)
    ensures Comparable(c, query)
  {
    BuiltWordsCoherent(rows, y, x, query, c.word);
    CoherentKeepsBytes(query.characters, c.word.characters);
  }

  ghost function EligiblePositions(candidates: seq<Candidate>, query: Word): set<nat>
  {
    set i: nat | i < |candidates| && Eligible(candidates[i], query)
  }

  predicate Kept(ranked: seq<Ranked>, p: nat)
  {
    exists i :: 0 <= i < |ranked| && ranked[i].1 == p
  }

  lemma EligibleNext(candidates: seq<Candidate>, query: Word, n: nat)
    requires 0 < n <= |candidates|
    ensures var before := EligiblePositions(candidates[..n - 1], query);
      && n - 1 !in before
      && EligiblePositions(candidates[..n], query) ==
         if Eligible(candidates[n - 1], query) then before + {n - 1} else before
  {
    assert forall i :: 0 <= i < n - 1 ==> candidates[..n - 1][i] == candidates[..n][i];
  }

  lemma {:induction false} PassingCount(candidates: seq<Candidate>, query: Word, n: nat)
    requires n <= |candidates| && forall i :: 0 <= i < |candidates| ==> Comparable(candidates[i], query)
    ensures |Passing(candidates, query, n)| == |EligiblePositions(candidates[..n], query)|
  {
    if n > 0 {
      PassingCount(candidates, query, n - 1);
      PassesIffEligible(candidates[n - 1], query);
      EligibleNext(candidates, query, n);
    }
  }

  /** Distinct positions of eligible candidates, as many as asked for, in order, none better left out. */
  ghost predicate BestEligible(candidates: seq<Candidate>, query: Word, k: nat, ranked: seq<Ranked>)
  {
    && (k == 0 || k > |EligiblePositions(candidates, query)| ==> |ranked| == |EligiblePositions(candidates, query)|)
    && (0 < k <= |EligiblePositions(candidates, query)| ==> |ranked| == k)
    && (forall i :: 0 <= i < |ranked| ==>
         && ranked[i].1 in EligiblePositions(candidates, query)
         && ranked[i].0 == ResultOf(candidates[ranked[i].1], query) && ranked[i].0.Match?)
    && (forall i, j :: 0 <= i < j < |ranked| ==> ranked[i].1 != ranked[j].1 && !Less(ranked[j].0, ranked[i].0))
    && (forall p, j :: p in EligiblePositions(candidates, query) && !Kept(ranked, p) && 0 <= j < |ranked| ==>
         ResultOf(candidates[p], query).Match? && !Less(ResultOf(candidates[p], query), ranked[j].0))
  }

  /** The result of ranking. */
  lemma RankingMeaning(candidates: seq<Candidate>, query: Word, k: nat, ranked: seq<Ranked>)
    requires IsTopK(RankedBefore, Passing(candidates, query, |candidates|), k, ranked)
    requires forall i :: 0 <= i < |candidates| ==> Comparable(candidates[i], query)
    ensures BestEligible(candidates, query, k, ranked)
    ensures var m := |EligiblePositions(candidates, query)|; |ranked| == if 0 < k <= m then k else m
  {
    var xs := Passing(candidates, query, |candidates|);
    PassingContents(candidates, query, |candidates|);
    PassingCount(candidates, query, |candidates|);
    assert candidates[..|candidates|] == candidates;
    TopKMembers(candidates, query, k, ranked);
    var rest :| Selects(RankedBefore, xs, ranked, rest);
    AllPassIffEligible(candidates, query);
    MembersEligible(candidates, query, ranked);
    forall i, j | 0 <= i < j < |ranked|
      ensures ranked[i].1 != ranked[j].1 && !Less(ranked[j].0, ranked[i].0)
    {
      DistinctMembers(xs, ranked, rest, i, j);
      assert !RankedBefore(ranked[j], ranked[i]);
    }
    forall p, j | p in EligiblePositions(candidates, query) && !Kept(ranked, p) && 0 <= j < |ranked|
      ensures ResultOf(candidates[p], query).Match? && !Less(ResultOf(candidates[p], query), ranked[j].0)
    {
      var x := (ResultOf(candidates[p], query), p);
      assert x in xs && x !in ranked;
      OmittedNotBetter(xs, ranked, rest, x, j);
    }
  }

  lemma AllPassIffEligible(candidates: seq<Candidate>, query: Word)
    requires forall i :: 0 <= i < |candidates| ==> Comparable(candidates[i], query)
    ensures forall i :: 0 <= i < |candidates| ==> (Passes(candidates[i], query) <==> Eligible(candidates[i], query))
  {
    forall i | 0 <= i < |candidates|
      ensures Passes(candidates[i], query) <==> Eligible(candidates[i], query)
    {
      PassesIffEligible(candidates[i], query);
    }
  }

  lemma MembersEligible(candidates: seq<Candidate>, query: Word, ranked: seq<Ranked>)
    requires forall i :: 0 <= i < |ranked| ==> ranked[i] in Passing(candidates, query, |candidates|)
    requires forall i :: 0 <= i < |candidates| ==> (Passes(candidates[i], query) <==> Eligible(candidates[i], query))
    ensures forall i :: 0 <= i < |ranked| ==>
      && ranked[i].1 in EligiblePositions(candidates, query)
      && ranked[i].0 == ResultOf(candidates[ranked[i].1], query) && ranked[i].0.Match?
  {
    PassingContents(candidates, query, |candidates|);
  }

  lemma OmittedNotBetter(xs: seq<Ranked>, ranked: seq<Ranked>, rest: seq<Ranked>, x: Ranked, j: nat)
    requires Selects(RankedBefore, xs, ranked, rest) && x in xs && x !in ranked && j < |ranked|
    ensures !RankedBefore(x, ranked[j])
  {
    assert x in multiset(ranked) + multiset(rest);
    assert x in rest;
    var t :| 0 <= t < |rest| && rest[t] == x;
  }

  /** The same of a call's objects and texts: those returned are, at distinct positions, the best of the objects whose
      text is not empty, not over-long, and embeds the query. */
  lemma FilteredMeaning<O>(
    rows: seq<Row>, objects: seq<O>, property: O -> Bytes, queryText: Bytes, k: nat,
    query: Word, candidates: seq<Candidate>, ranked: seq<Ranked>, r: seq<O>)
    requires FilteredAndSorted(rows, objects, property, queryText, k, query, candidates, ranked, r)
    requires ComputedNormals(rows)
    requires forall i :: 0 <= i < |candidates| ==> FoldsShareBase(query.characters, candidates[i].word.characters)
    ensures forall p :: 0 <= p < |objects| ==>
      (p in EligiblePositions(candidates, query) <==>
        0 < |property(objects[p])| <= 80 &&
        Embeddable(Smart, query.characters, candidates[p].word.characters))
    ensures BestEligible(candidates, query, k, ranked)
    ensures var m := |EligiblePositions(candidates, query)|; |r| == if 0 < k <= m then k else m
    ensures |r| == |ranked| && forall i :: 0 <= i < |r| ==> ranked[i].1 < |objects| && r[i] == objects[ranked[i].1]
  {
    forall p | 0 <= p < |objects|
      ensures candidates[p].word.characters != [] <==> 0 < |property(objects[p])| <= 80
      ensures Comparable(candidates[p], query)
    {
      TextComparable(rows, property(objects[p]), queryText, candidates[p], query);
    }
    RankingMeaning(candidates, query, k, ranked);
  }

  lemma TextComparable(rows: seq<Row>, text: Bytes, queryText: Bytes, c: Candidate, query: Word)
    requires ComputedNormals(rows) && CandidateOf(rows, Clipped(text), c) && WordOf(rows, queryText, query)
    requires FoldsShareBase(query.characters, c.word.characters)
    ensures c.word.characters != [] <==> 0 < |text| <= 80
    ensures Comparable(c, query)
  {
    EmptyWord(rows, Clipped(text), c.word);
    BuiltComparable(rows, Clipped(text), queryText, c, query);
  }

  lemma DistinctMembers(xs: seq<Ranked>, ys: seq<Ranked>, rest: seq<Ranked>, i: nat, j: nat)
    requires forall a, b :: 0 <= a < b < |xs| ==> xs[a].1 < xs[b].1
    requires multiset(ys) + multiset(rest) == multiset(xs) && i < j < |ys|
    ensures ys[i].1 != ys[j].1
  {
    KeptOnce(xs, ys, rest, i, j);
    assert ys[i] in multiset(xs) && ys[j] in multiset(xs);
    var a :| 0 <= a < |xs| && xs[a] == ys[i];
    var b :| 0 <= b < |xs| && xs[b] == ys[j];
  }

  /** When the candidates that pass have distinct case-swapped texts, the list returned is the only one possible. */
  lemma RankingUnique(
    candidates: seq<Candidate>, query: Word, k: nat, ys: seq<Ranked>, zs: seq<Ranked>)
    requires forall i, j ::
      0 <= i < j < |candidates| && Passes(candidates[i], query) && Passes(candidates[j], query) ==>
      candidates[i].caseSwappedText != candidates[j].caseSwappedText
    requires IsTopK(RankedBefore, Passing(candidates, query, |candidates|), k, ys)
    requires IsTopK(RankedBefore, Passing(candidates, query, |candidates|), k, zs)
    ensures ys == zs
  {
    var xs := Passing(candidates, query, |candidates|);
    PassingContents(candidates, query, |candidates|);
    RankedBeforeIsStrictWeakOrder(query);
    forall x, y | x in xs && y in xs && Tied(RankedBefore, x, y)
      ensures x == y
    {
      ResultsBounded(candidates[x.1], query);
      ResultsBounded(candidates[y.1], query);
      ResultCandidate(candidates[x.1], query);
      ResultCandidate(candidates[y.1], query);
      if x.1 != y.1 {
        DistinctTextsRanked(query, x.0, y.0);
      }
    }
    TopKUnique(RankedBefore, RankedFor(query), xs, k, ys, zs);
  }

  lemma ResultCandidate(c: Candidate, query: Word)
    ensures ResultOf(c, query).Match? ==> ResultOf(c, query).candidate == c
  {
  }
}
