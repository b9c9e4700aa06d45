/** On ASCII texts the case-swapped text tells candidates apart, so the ranking leaves no ties. */
module AsciiRanking {
  import opened Wrappers
  import opened Sequences
  import opened Utf8
  import opened UnicodeTable
  import opened CodePoints
  import opened CanonicalOrdering
  import opened Segmentation
  import opened Normalization
  import opened Characters
  import opened Words
  import opened Ranking
  import opened Repositories
  import opened Filtering
  import opened IdentifierDatabases
  import opened Determinacy

  predicate Ascii(text: Bytes)
  {
    forall i :: 0 <= i < |text| ==> text[i] < 0x80
  }

  function SwapCase(b: Byte): Byte
  {
    if 0x41 <= b <= 0x5A then b + 0x20 else if 0x61 <= b <= 0x7A then b - 0x20 else b
  }

  function SwapAll(text: Bytes): Bytes
  {
    seq(|text|, i requires 0 <= i < |text| => SwapCase(text[i]))
  }

  /** What the Unicode data says of ASCII: own normal forms, starters, letters swapping case. */
  ghost predicate AsciiRows(rows: seq<Row>)
  {
    forall b: Byte :: b < 0x80 ==>
      var raw := Lookup(rows, [b]);
      raw.normal == [b] && raw.swappedCase == [SwapCase(b)] && raw.combiningClass == 0
  }

  /** Lowercase letters and capitals change places, 32 apart; every other byte stays. */
  lemma SwapCaseMeaning(b: Byte)
    ensures 0x41 <= b <= 0x5A ==> SwapCase(b) == b + 0x20
    ensures 0x61 <= b <= 0x7A ==> SwapCase(b) == b - 0x20
    ensures !(0x41 <= b <= 0x5A) && !(0x61 <= b <= 0x7A) ==> SwapCase(b) == b
    ensures SwapCase(SwapCase(b)) == b
  {
  }

  lemma SwapAllInjective(a: Bytes, b: Bytes)
    requires SwapAll(a) == SwapAll(b)
    ensures a == b
  {
    assert |a| == |SwapAll(a)| == |b|;
    forall i | 0 <= i < |a|
      ensures a[i] == b[i]
    {
      assert SwapAll(a)[i] == SwapCase(a[i]) && SwapAll(b)[i] == SwapCase(b[i]);
    }
  }

  lemma SwapAllConcat(a: Bytes, b: Bytes)
    ensures SwapAll(a + b) == SwapAll(a) + SwapAll(b)
  {
  }

  function Singles(text: Bytes): seq<Bytes>
  {
    seq(|text|, i requires 0 <= i < |text| => [text[i]])
  }

  lemma {:induction false} FlattenSingles(text: Bytes)
    ensures Flatten(Singles(text)) == text
  {
    if text != [] {
      FlattenSingles(text[1..]);
      assert Singles(text)[1..] == Singles(text[1..]);
    }
  }

  lemma AsciiPieces(text: Bytes)
    requires Ascii(text)
    ensures Split(text) == Success(Singles(text))
  {
    FlattenSingles(text);
    Factorisation(text, Singles(text));
  }

  lemma AsciiNormalForm(rows: seq<Row>, text: Bytes)
    requires AsciiRows(rows) && Ascii(text)
    ensures NormalForm(MakeCodePoints(rows, Singles(text))) == text
  {
    assert Normals(MakeCodePoints(rows, Singles(text))) == Singles(text);
    FlattenSingles(text);
  }

  lemma StartersOrderedOnce(s: Text, r: Text)
    requires CanonicallyOrders(s, r) && forall i :: 0 <= i < |s| ==> Starter(s[i])
    ensures r == s
  {
  }

  lemma AsciiDecoded(rows: seq<Row>, spelling: Bytes)
    requires AsciiRows(rows) && Ascii(spelling)
    ensures var s := MakeCodePoints(rows, Singles(spelling));
      && (forall i :: 0 <= i < |s| ==> Starter(s[i]))
      && Pick(s, SwappedPart) == Singles(SwapAll(spelling))
  {
    var s, swapped := MakeCodePoints(rows, Singles(spelling)), SwapAll(spelling);
    forall i | 0 <= i < |s|
      ensures Starter(s[i]) && SwappedPart(s[i]) == [swapped[i]]
    {
      assert s[i] == MakeCodePoint(Lookup(rows, [spelling[i]]));
    }
  }

  lemma AsciiCharacter(rows: seq<Row>, spelling: Bytes, c: Character)
    requires AsciiRows(rows) && Ascii(spelling) && BuiltFrom(rows, spelling, c)
    ensures c.swappedCase == SwapAll(spelling)
  {
    AsciiPieces(spelling);
    AsciiDecoded(rows, spelling);
    var s: Text :| CanonicallyOrders(MakeCodePoints(rows, Singles(spelling)), s) && c == Assemble(s);
    StartersOrderedOnce(MakeCodePoints(rows, Singles(spelling)), s);
    FlattenSingles(SwapAll(spelling));
  }

  lemma {:induction false} AsciiParts(parts: seq<Bytes>, i: nat)
    requires Ascii(Flatten(parts)) && i < |parts|
    ensures Ascii(parts[i])
  {
    var head, tail := parts[0], Flatten(parts[1..]);
    if i == 0 {
      assert forall k :: 0 <= k < |head| ==> head[k] == Flatten(parts)[k];
    } else {
      assert forall k :: 0 <= k < |tail| ==> tail[k] == Flatten(parts)[|head| + k];
      AsciiParts(parts[1..], i - 1);
    }
  }

  lemma {:induction false} SwappedTextOf(spellings: seq<Bytes>, characters: seq<Character>)
    requires |characters| == |spellings|
    requires forall i :: 0 <= i < |characters| ==> characters[i].swappedCase == SwapAll(spellings[i])
    ensures SwappedText(characters) == SwapAll(Flatten(spellings))
  {
    if characters != [] {
      var n := |characters| - 1;
      SwappedTextOf(spellings[..n], characters[..n]);
      assert spellings == spellings[..n] + [spellings[n]];
      FlattenSnoc(spellings[..n], spellings[n]);
      SwapAllConcat(Flatten(spellings[..n]), spellings[n]);
    }
  }

  /** The characters of an ASCII text spell it, each in ASCII. */
  lemma AsciiSpellings(rows: seq<Row>, text: Bytes)
    requires AsciiRows(rows) && Ascii(text)
    ensures Split(text).Success? && Flatten(Spellings(rows, text)) == text
    ensures forall i :: 0 <= i < |Spellings(rows, text)| ==> Ascii(Spellings(rows, text)[i])
  {
    AsciiPieces(text);
    AsciiNormalForm(rows, text);
    var s, spellings := MakeCodePoints(rows, Singles(text)), Spellings(rows, text);
    if s != [] {
      ClustersPartition(s);
      NormalFormsFlatten(Clusters(s));
      assert s[..|s|] == s;
    }
    forall i | 0 <= i < |spellings|
      ensures Ascii(spellings[i])
    {
      AsciiParts(spellings, i);
    }
  }

  /** The case-swapped text of an ASCII candidate is its text with the case of each letter swapped. */
  lemma AsciiCandidate(rows: seq<Row>, text: Bytes, c: Candidate)
    requires AsciiRows(rows) && Ascii(text) && CandidateOf(rows, text, c)
    ensures c.caseSwappedText == SwapAll(text)
  {
    AsciiSpellings(rows, text);
    var spellings, characters := Spellings(rows, text), c.word.characters;
    forall i | 0 <= i < |spellings|
      ensures characters[i].swappedCase == SwapAll(spellings[i])
    {
      AsciiCharacter(rows, spellings[i], characters[i]);
    }
    SwappedTextOf(spellings, characters);
  }

  /** ASCII texts determine their words: all their code points are starters. */
  lemma AsciiDetermined(rows: seq<Row>, text: Bytes)
    requires AsciiRows(rows) && Ascii(text)
    ensures Determined(rows, text)
  {
    AsciiSpellings(rows, text);
    forall i | 0 <= i < |Spellings(rows, text)|
      ensures UnambiguousSpelling(rows, Spellings(rows, text)[i])
    {
      AsciiPieces(Spellings(rows, text)[i]);
      AsciiDecoded(rows, Spellings(rows, text)[i]);
    }
  }

  lemma AsciiSwapsDiffer(rows: seq<Row>, x: Bytes, y: Bytes, a: Candidate, b: Candidate)
    requires AsciiRows(rows) && Ascii(x) && Ascii(y) && x != y
    requires CandidateOf(rows, x, a) && CandidateOf(rows, y, b)
    ensures a.caseSwappedText != b.caseSwappedText
  {
    AsciiCandidate(rows, x, a);
    AsciiCandidate(rows, y, b);
    if SwapAll(x) == SwapAll(y) {
      SwapAllInjective(x, y);
    }
  }

  /** Of two candidates with different ASCII texts one is always ranked before the other. */
  lemma AsciiTextsRanked(rows: seq<Row>, query: Word, x: Bytes, y: Bytes, a: Candidate, b: Candidate)
    requires AsciiRows(rows) && Ascii(x) && Ascii(y) && x != y
    requires CandidateOf(rows, x, a) && CandidateOf(rows, y, b)
    requires ResultOf(a, query).Match? && ResultOf(b, query).Match?
    ensures Less(ResultOf(a, query), ResultOf(b, query)) || Less(ResultOf(b, query), ResultOf(a, query))
  {
    AsciiSwapsDiffer(rows, x, y, a, b);
    DistinctCandidatesRanked(query, a, b);
  }

  lemma DistinctCandidatesRanked(query: Word, a: Candidate, b: Candidate)
    requires a.caseSwappedText != b.caseSwappedText
    requires ResultOf(a, query).Match? && ResultOf(b, query).Match?
    ensures Less(ResultOf(a, query), ResultOf(b, query)) || Less(ResultOf(b, query), ResultOf(a, query))
  {
    ResultsBounded(a, query);
    ResultsBounded(b, query);
    DistinctTextsRanked(query, ResultOf(a, query), ResultOf(b, query));
  }

  /** A candidate that passes is of a text that is not over-long. */
  lemma PassingIsShort(rows: seq<Row>, text: Bytes, c: Candidate, query: Word)
    requires CandidateOf(rows, Clipped(text), c) && Passes(c, query)
    ensures Clipped(text) == text
  {
    EmptyWord(rows, Clipped(text), c.word);
  }

  /** On ASCII texts, those over-long aside, any two calls return the same list when the texts that pass are
      distinct. */
  lemma AsciiListUnique<O>(
    rows: seq<Row>, objects: seq<O>, property: O -> Bytes, queryText: Bytes, k: nat,
    q: Word, cs: seq<Candidate>, ranked: seq<Ranked>, r: seq<O>,
    q': Word, cs': seq<Candidate>, ranked': seq<Ranked>, r': seq<O>)
    requires AsciiRows(rows)
    requires FilteredAndSorted(rows, objects, property, queryText, k, q, cs, ranked, r)
    requires FilteredAndSorted(rows, objects, property, queryText, k, q', cs', ranked', r')
    requires Ascii(queryText) && forall i :: 0 <= i < |objects| ==> Ascii(TextOf(objects[i], property))
    requires forall i, j :: 0 <= i < j < |objects| && Passes(cs[i], q) && Passes(cs[j], q) ==>
      property(objects[i]) != property(objects[j])
    ensures q == q' && cs == cs' && ranked == ranked' && r == r'
  {
    AsciiDetermined(rows, queryText);
    forall i | 0 <= i < |objects|
      ensures Determined(rows, TextOf(objects[i], property))
    {
      AsciiDetermined(rows, TextOf(objects[i], property));
    }
    forall i, j | 0 <= i < j < |cs| && Passes(cs[i], q) && Passes(cs[j], q)
      ensures cs[i].caseSwappedText != cs[j].caseSwappedText
    {
      PassingIsShort(rows, property(objects[i]), cs[i], q);
      PassingIsShort(rows, property(objects[j]), cs[j], q);
      AsciiSwapsDiffer(rows, property(objects[i]), property(objects[j]), cs[i], cs[j]);
    }
    ListDetermined(rows, objects, property, queryText, k, q, cs, ranked, r, q', cs', ranked', r');
  }

  /** When the query and the known texts that pass are ASCII, any two answers are the same. */
  lemma AsciiAnswerUnique(
    rows: seq<Row>, build: Bytes -> Option<Candidate>, queryText: Bytes, seen: set<Bytes>, k: nat,
    q: Word, xs: seq<MatchResult>, a: seq<MatchResult>, q': Word, ys: seq<MatchResult>, b: seq<MatchResult>)
    requires AsciiRows(rows) && Builds(rows, build) && Ascii(queryText)
    requires Answers(rows, build, queryText, q, seen, xs, k, a)
    requires Answers(rows, build, queryText, q', seen, ys, k, b)
    requires forall t :: t in seen && PassingText(build, q, t) ==> Ascii(t)
    ensures q == q' && a == b
  {
    AsciiDetermined(rows, queryText);
    forall t, u | t in seen && u in seen && t != u && PassingText(build, q, t) && PassingText(build, q, u)
      ensures build(t).value.caseSwappedText != build(u).value.caseSwappedText
    {
      assert CandidateMade(rows, t, build(t)) && CandidateMade(rows, u, build(u));
      AsciiSwapsDiffer(rows, t, u, build(t).value, build(u).value);
    }
    AnswerDetermined(rows, build, queryText, seen, k, q, xs, a, q', ys, b);
  }
}
