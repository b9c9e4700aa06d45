/** The result of matching a candidate against a query, and the order in which results are listed. */
module Ranking {
  import opened Wrappers
  import opened Sequences
  import opened Characters
  import opened Words
  import opened Embedding
  import opened Lcs
  import opened PartialSorting

  datatype MatchResult =
    | NoMatch
    | Match(candidate: Candidate, query: Word, firstCharSame: bool, queryIsPrefix: bool, indexSum: nat, wbMatches: nat)

  /** Result's constructor, its features set from the query. */
  method MakeResult(candidate: Candidate, query: Word, indexSum: nat, queryIsPrefix: bool) returns (r: MatchResult)
    ensures r == WithFeatures(candidate, query, indexSum, queryIsPrefix)
  {
    var firstCharSame, wbMatches := false, 0;
    if query.IsEmpty() || candidate.word.IsEmpty() {
      return Match(candidate, query, firstCharSame, queryIsPrefix, indexSum, wbMatches);
    }
    firstCharSame := candidate.word.characters[0].EqualsBase(query.characters[0]);
    wbMatches := LongestCommonSubsequenceLength(query.characters, candidate.wordBoundaryChars);
    return Match(candidate, query, firstCharSame, queryIsPrefix, indexSum, wbMatches);
  }

  function WithFeatures(candidate: Candidate, query: Word, indexSum: nat, queryIsPrefix: bool): MatchResult
  {
    var q, c := query.characters, candidate.word.characters;
    if q == [] || c == [] then Match(candidate, query, false, queryIsPrefix, indexSum, 0)
    else
      var wbMatches := LcsLength(q, candidate.wordBoundaryChars);
      Match(candidate, query, c[0].base == q[0].base, queryIsPrefix, indexSum, wbMatches)
  }

  /** The result the scan's positions determine; ResultMeaning says what it holds. */
  function ResultOf(candidate: Candidate, query: Word): MatchResult
  {
    var q, c := query.characters, candidate.word.characters;
    if q == [] then WithFeatures(candidate, query, 0, false)
    else
      match Greedy(Smart, q, c, 0)
      case None => NoMatch
      case Some(f) => if f == [] then NoMatch else WithFeatures(candidate, query, Sum(f), f[|f| - 1] == |q| - 1)
  }

  /** What is left of the scan after the positions taken. */
  function Resume(taken: seq<nat>, rest: Option<seq<nat>>): Option<seq<nat>>
  {
    if rest.Some? then Some(taken + rest.value) else None
  }

  lemma TooShort(q: seq<Character>, c: seq<Character>)
    requires |c| < |q|
    ensures Greedy(Smart, q, c, 0).None?
  {
    if Greedy(Smart, q, c, 0).Some? {
      var f := Greedy(Smart, q, c, 0).value;
      GreedyEmbeds(Smart, q, c, 0);
      IncreasingAtLeast(f, |f| - 1);
    }
  }

  lemma TakeOne(q: seq<Character>, c: seq<Character>, i: nat, taken: seq<nat>)
    requires q != [] && i < |c| && Smart(q[0], c[i])
    ensures Resume(taken, Greedy(Smart, q, c, i)) == Resume(taken + [i], Greedy(Smart, q[1..], c, i + 1))
    ensures Sum(taken + [i]) == Sum(taken) + i
  {
    var rest := Greedy(Smart, q[1..], c, i + 1);
    if rest.Some? {
      assert taken + ([i] + rest.value) == (taken + [i]) + rest.value;
    }
    assert (taken + [i])[..|taken|] == taken;
  }

  /** The scan has taken these positions and goes on from here. */
  ghost predicate ScanAt(
    q: seq<Character>, c: seq<Character>, queryIndex: nat, candidateIndex: nat, taken: seq<nat>)
  {
    queryIndex < |q| && candidateIndex <= |c| &&
    Greedy(Smart, q, c, 0) == Resume(taken, Greedy(Smart, q[queryIndex..], c, candidateIndex))
  }

  lemma ScanStart(q: seq<Character>, c: seq<Character>)
    requires q != []
    ensures ScanAt(q, c, 0, 0, [])
  {
    assert q[0..] == q;
    var all := Greedy(Smart, q, c, 0);
    assert all.Some? ==> [] + all.value == all.value;
  }

  lemma ScanTake(q: seq<Character>, c: seq<Character>, queryIndex: nat, candidateIndex: nat, taken: seq<nat>)
    requires ScanAt(q, c, queryIndex, candidateIndex, taken) && candidateIndex < |c|
    requires Smart(q[queryIndex], c[candidateIndex])
    ensures Sum(taken + [candidateIndex]) == Sum(taken) + candidateIndex
    ensures if queryIndex + 1 == |q| then Greedy(Smart, q, c, 0) == Some(taken + [candidateIndex])
      else ScanAt(q, c, queryIndex + 1, candidateIndex + 1, taken + [candidateIndex])
  {
    TakeOne(q[queryIndex..], c, candidateIndex, taken);
    assert q[queryIndex..][1..] == q[queryIndex + 1..];
    var more := taken + [candidateIndex];
    assert more + [] == more;
  }

  lemma ScanSkip(q: seq<Character>, c: seq<Character>, queryIndex: nat, candidateIndex: nat, taken: seq<nat>)
    requires ScanAt(q, c, queryIndex, candidateIndex, taken) && candidateIndex < |c|
    requires !Smart(q[queryIndex], c[candidateIndex])
    ensures ScanAt(q, c, queryIndex, candidateIndex + 1, taken)
  {
    assert q[queryIndex..][0] == q[queryIndex];
  }

  method QueryMatchResult(candidate: Candidate, query: Word) returns (r: MatchResult)
    ensures r == ResultOf(candidate, query)
  {
    var q, c := query.characters, candidate.word.characters;
    if query.IsEmpty() {
      r := MakeResult(candidate, query, 0, false);
      return;
    }
    if |c| < |q| {
      TooShort(q, c);
      return NoMatch;
    }
    var queryIndex, candidateIndex, indexSum := 0, 0, 0;
    ghost var taken: seq<nat> := [];
    ScanStart(q, c);
    while candidateIndex < |c|
      invariant ScanAt(q, c, queryIndex, candidateIndex, taken)
      invariant indexSum == Sum(taken)
    {
      if q[queryIndex].MatchesSmart(c[candidateIndex]) {
        ScanTake(q, c, queryIndex, candidateIndex, taken);
        indexSum := indexSum + candidateIndex;
        taken := taken + [candidateIndex];
        if queryIndex + 1 == |q| {
          r := MakeResult(candidate, query, indexSum, candidateIndex == queryIndex);
          return;
        }
        queryIndex := queryIndex + 1;
      } else {
        ScanSkip(q, c, queryIndex, candidateIndex, taken);
      }
      candidateIndex := candidateIndex + 1;
    }
    return NoMatch;
  }

  /** A nonempty query gives a result exactly when it embeds in the candidate. */
  lemma MatchesIffEmbeddable(candidate: Candidate, query: Word)
    requires query.characters != []
    ensures ResultOf(candidate, query).Match? <==> Embeddable(Smart, query.characters, candidate.word.characters)
  {
    var q, c := query.characters, candidate.word.characters;
    GreedyComplete(Smart, q, c);
    if Greedy(Smart, q, c, 0).Some? {
      GreedyEmbeds(Smart, q, c, 0);
    }
  }

  /** f picks, in order, positions of c that the elements of q match. */
  ghost predicate PicksMatches(q: seq<Character>, c: seq<Character>, f: seq<nat>)
  {
    && |f| == |q|
    && (forall i :: 0 <= i < |f| ==> f[i] < |c| && q[i].MatchesSmart(c[f[i]]))
    && (forall i, j :: 0 <= i < j < |f| ==> f[i] < f[j])
  }

  /** A nonempty query gives a result exactly when such positions exist. */
  lemma MatchMeaning(candidate: Candidate, query: Word)
    requires query.characters != []
    ensures ResultOf(candidate, query).Match? <==>
      exists f :: PicksMatches(query.characters, candidate.word.characters, f)
  {
    var q, c := query.characters, candidate.word.characters;
    MatchesIffEmbeddable(candidate, query);
    if f :| Embeds(Smart, q, c, 0, f) {
      assert PicksMatches(q, c, f);
    }
    if f :| PicksMatches(q, c, f) {
      assert Embeds(Smart, q, c, 0, f);
    }
  }

  /** The empty query matches every candidate, all features unset. */
  lemma EmptyQuery(candidate: Candidate, query: Word)
    requires query.characters == []
    ensures ResultOf(candidate, query) == Match(candidate, query, false, false, 0, 0)
  {
  }

  /** The index sum of a query of one character is where that is found; each further one adds its position. */
  lemma IndexSums(f: seq<nat>, i: nat)
    ensures Sum([]) == 0 && Sum([i]) == i && Sum(f + [i]) == Sum(f) + i
  {
    assert (f + [i])[..|f|] == f && [i][..0] == [];
  }

  /** Its index sum is attained by an embedding, and by none undercut. */
  lemma ScanSum(candidate: Candidate, query: Word)
    requires query.characters != [] && ResultOf(candidate, query).Match?
    ensures var q, c, r := query.characters, candidate.word.characters, ResultOf(candidate, query);
      && (exists f :: Embeds(Smart, q, c, 0, f) && Sum(f) == r.indexSum)
      && (forall f :: Embeds(Smart, q, c, 0, f) ==> r.indexSum <= Sum(f))
  {
    var q, c := query.characters, candidate.word.characters;
    GreedyEmbeds(Smart, q, c, 0);
    forall g | Embeds(Smart, q, c, 0, g)
      ensures ResultOf(candidate, query).indexSum <= Sum(g)
    {
      GreedySumLeast(Smart, q, c, g);
    }
  }

  /** Its prefix flag says that the query matches the candidate's first characters one by one. */
  lemma ScanPrefix(candidate: Candidate, query: Word)
    requires query.characters != [] && ResultOf(candidate, query).Match?
    ensures ResultOf(candidate, query).queryIsPrefix <==>
      PrefixMatches(Smart, query.characters, candidate.word.characters)
  {
    GreedyPrefix(Smart, query.characters, candidate.word.characters);
  }

  /** Its other features compare the first characters and count the word boundaries the query reaches. */
  lemma BaseFeatures(candidate: Candidate, query: Word)
    requires query.characters != [] && ResultOf(candidate, query).Match?
    ensures var q, c, r := query.characters, candidate.word.characters, ResultOf(candidate, query);
      && r.candidate == candidate && r.query == query
      && c != [] && (r.firstCharSame <==> c[0].base == q[0].base)
      && r.wbMatches == LcsLength(q, candidate.wordBoundaryChars)
      && r.wbMatches <= |q| && r.wbMatches <= |candidate.wordBoundaryChars|
      && (r.wbMatches == |q| <==> exists g :: FindsBases(q, candidate.wordBoundaryChars, g))
  {
    var q, c := query.characters, candidate.word.characters;
    GreedyEmbeds(Smart, q, c, 0);
    assert Greedy(Smart, q, c, 0).value[0] < |c|;
    LcsFull(q, candidate.wordBoundaryChars);
    TableAtMost(q, candidate.wordBoundaryChars, |q|, |candidate.wordBoundaryChars|);
  }

  // ----- The order -----

  /** Result::operator<, criterion by criterion. */
  predicate Less(a: MatchResult, b: MatchResult)
    requires a.Match? && b.Match?
  {
    var n := |a.query.characters|;
    if n != 0 && a.firstCharSame != b.firstCharSame then a.firstCharSame
    else if n != 0 && (a.wbMatches == n || b.wbMatches == n) && a.wbMatches != b.wbMatches then
      a.wbMatches > b.wbMatches
    else if n != 0 && (a.wbMatches == n || b.wbMatches == n) &&
      |a.candidate.wordBoundaryChars| != |b.candidate.wordBoundaryChars| then
      |a.candidate.wordBoundaryChars| < |b.candidate.wordBoundaryChars|
    else if n != 0 && a.queryIsPrefix != b.queryIsPrefix then a.queryIsPrefix
    else if n != 0 && a.wbMatches != b.wbMatches then a.wbMatches > b.wbMatches
    else if n != 0 && |a.candidate.wordBoundaryChars| != |b.candidate.wordBoundaryChars| then
      |a.candidate.wordBoundaryChars| < |b.candidate.wordBoundaryChars|
    else if n != 0 && a.indexSum != b.indexSum then a.indexSum < b.indexSum
    else if n != 0 && |a.candidate.word.characters| != |b.candidate.word.characters| then
      |a.candidate.word.characters| < |b.candidate.word.characters|
    else if n != 0 && a.candidate.textIsLowercase != b.candidate.textIsLowercase then a.candidate.textIsLowercase
    else LexLess(a.candidate.caseSwappedText, b.candidate.caseSwappedText)
  }

  predicate Before(a: MatchResult, b: MatchResult)
  {
    a.Match? && b.Match? && Less(a, b)
  }

  /** A result of the query whose word boundary matches do not outnumber the query. */
  predicate ResultFor(query: Word, r: MatchResult)
  {
    r.Match? && r.query == query && r.wbMatches <= |query.characters|
  }

  lemma ResultsBounded(candidate: Candidate, query: Word)
    ensures ResultOf(candidate, query).Match? ==> ResultFor(query, ResultOf(candidate, query))
  {
    TableAtMost(query.characters, candidate.wordBoundaryChars, |query.characters|, |candidate.wordBoundaryChars|);
  }

  function Flag(b: bool): int { if b then 0 else 1 }

  /** One list of numbers whose lexicographic order is the ranking. */
  function Key(r: MatchResult): seq<int>
    requires r.Match?
  {
    var n, wb := |r.query.characters|, |r.candidate.wordBoundaryChars|;
    (if n == 0 then [] else
       [Flag(r.firstCharSame), Flag(r.wbMatches == n), if r.wbMatches == n then wb else 0, Flag(r.queryIsPrefix),
        n - r.wbMatches, wb, r.indexSum, |r.candidate.word.characters|, Flag(r.candidate.textIsLowercase)])
    + r.candidate.caseSwappedText
  }

  lemma {:induction false} LexCommonPrefix(p: seq<int>, x: seq<int>, y: seq<int>)
    ensures LexLess(p + x, p + y) <==> LexLess(x, y)
  {
    if p == [] {
      assert p + x == x && p + y == y;
    } else {
      LexCommonPrefix(p[1..], x, y);
      assert (p + x)[1..] == p[1..] + x && (p + y)[1..] == p[1..] + y;
    }
  }

  lemma LexDecided(a: seq<int>, b: seq<int>, k: nat)
    requires k < |a| && k < |b| && a[k] != b[k] && forall i :: 0 <= i < k ==> a[i] == b[i]
    ensures LexLess(a, b) <==> a[k] < b[k]
  {
    if a[k] < b[k] {
      LexFirstDifference(a, b, k);
    } else {
      LexFirstDifference(b, a, k);
      LexAsymmetric(b, a);
    }
  }

  lemma FirstDifference(a: seq<int>, b: seq<int>, n: nat) returns (k: nat)
    requires n <= |a| && n <= |b|
    ensures k <= n && (forall i :: 0 <= i < k ==> a[i] == b[i]) && (k < n ==> a[k] != b[k])
  {
    k := 0;
    while k < n && a[k] == b[k]
      invariant k <= n && forall i :: 0 <= i < k ==> a[i] == b[i]
    {
      k := k + 1;
    }
  }

  lemma DecidingCriterion(query: Word, a: MatchResult, b: MatchResult, k: nat)
    requires ResultFor(query, a) && ResultFor(query, b) && query.characters != []
    requires k < 9 && Key(a)[k] != Key(b)[k] && forall i :: 0 <= i < k ==> Key(a)[i] == Key(b)[i]
    ensures Less(a, b) <==> Key(a)[k] < Key(b)[k]
  {
    var x, y := Key(a), Key(b);
    assert k > 0 ==> x[0] == y[0];
    assert k > 1 ==> x[1] == y[1];
    assert k > 2 ==> x[2] == y[2];
    assert k > 3 ==> x[3] == y[3];
    assert k > 4 ==> x[4] == y[4];
    assert k > 5 ==> x[5] == y[5];
    assert k > 6 ==> x[6] == y[6];
    assert k > 7 ==> x[7] == y[7];
  }

  /** For results of one query the ten criteria are one lexicographic comparison; the bound on wbMatches is needed. */
  lemma LessIsKeyOrder(query: Word, a: MatchResult, b: MatchResult)
    requires ResultFor(query, a) && ResultFor(query, b)
    ensures Less(a, b) <==> LexLess(Key(a), Key(b))
  {
    var x, y := Key(a), Key(b);
    if query.characters == [] {
      assert x == a.candidate.caseSwappedText && y == b.candidate.caseSwappedText;
    } else {
      var k := FirstDifference(x, y, 9);
      if k < 9 {
        LexDecided(x, y, k);
        DecidingCriterion(query, a, b, k);
      } else {
        assert x[0] == y[0] && x[1] == y[1] && x[2] == y[2] && x[3] == y[3] && x[4] == y[4];
        assert x[5] == y[5] && x[6] == y[6] && x[7] == y[7] && x[8] == y[8];
        assert x == x[..9] + a.candidate.caseSwappedText && y == x[..9] + b.candidate.caseSwappedText;
        LexCommonPrefix(x[..9], a.candidate.caseSwappedText, b.candidate.caseSwappedText);
      }
    }
  }

  lemma LessIrreflexive(query: Word, a: MatchResult)
    requires ResultFor(query, a)
    ensures !Less(a, a)
  {
    LexIrreflexive(a.candidate.caseSwappedText);
  }

  lemma LessTransitive(query: Word, a: MatchResult, b: MatchResult, c: MatchResult)
    requires ResultFor(query, a) && ResultFor(query, b) && ResultFor(query, c)
    requires Less(a, b) && Less(b, c)
    ensures Less(a, c)
  {
    LessIsKeyOrder(query, a, b);
    LessIsKeyOrder(query, b, c);
    LessIsKeyOrder(query, a, c);
    LexTransitive(Key(a), Key(b), Key(c));
  }

  lemma TiedIsEqualKey(query: Word, a: MatchResult, b: MatchResult)
    requires ResultFor(query, a) && ResultFor(query, b)
    ensures Tied(Before, a, b) <==> Key(a) == Key(b)
  {
    LessIsKeyOrder(query, a, b);
    LessIsKeyOrder(query, b, a);
    LexTotal(Key(a), Key(b));
    LexIrreflexive(Key(a));
  }

  lemma TiesTransitive(query: Word, a: MatchResult, b: MatchResult, c: MatchResult)
    requires ResultFor(query, a) && ResultFor(query, b) && ResultFor(query, c)
    requires Tied(Before, a, b) && Tied(Before, b, c)
    ensures Tied(Before, a, c)
  {
    TiedIsEqualKey(query, a, b);
    TiedIsEqualKey(query, b, c);
    TiedIsEqualKey(query, a, c);
  }

  /** Results whose case-swapped texts differ are never tied. */
  lemma DistinctTextsRanked(query: Word, a: MatchResult, b: MatchResult)
    requires ResultFor(query, a) && ResultFor(query, b)
    requires a.candidate.caseSwappedText != b.candidate.caseSwappedText
    ensures Less(a, b) || Less(b, a)
  {
    TiedIsEqualKey(query, a, b);
    var n := if query.characters == [] then 0 else 9;
    assert Key(a)[n..] == a.candidate.caseSwappedText && Key(b)[n..] == b.candidate.caseSwappedText;
  }

  /** Without the bound the order fails: three results, each ranked before the next, in a circle. */
  lemma BoundNeeded(candidate: Candidate, query: Word)
    requires |query.characters| == 1
    ensures var a := Match(candidate, query, true, false, 0, 1);
      var b := Match(candidate, query, true, false, 0, 2);
      var c := Match(candidate, query, true, true, 0, 0);
      Less(a, c) && Less(c, b) && Less(b, a)
  {
  }
}
