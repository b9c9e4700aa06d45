/** What an unstable sort leaves open: when a text determines its word and candidate, and a call its result. */
module Determinacy {
  import opened Wrappers
  import opened Utf8
  import opened UnicodeTable
  import opened CodePoints
  import opened CanonicalOrdering
  import opened Normalization
  import opened Characters
  import opened Words
  import opened Ranking
  import opened Filtering
  import opened IdentifierDatabases

  // ----- Words and candidates -----

  ghost predicate UnambiguousSpelling(rows: seq<Row>, spelling: Bytes)
  {
    Split(spelling).Success? ==> Unambiguous(MakeCodePoints(rows, Split(spelling).value))
  }

  /** No character of the text has a run that mixes different code points of one combining class. */
  ghost predicate Determined(rows: seq<Row>, text: Bytes)
  {
    Split(text).Success? ==>
      forall i :: 0 <= i < |Spellings(rows, text)| ==> UnambiguousSpelling(rows, Spellings(rows, text)[i])
  }

  lemma CharacterDetermined(rows: seq<Row>, spelling: Bytes, a: Character, b: Character)
    requires UnambiguousSpelling(rows, spelling) && BuiltFrom(rows, spelling, a) && BuiltFrom(rows, spelling, b)
    ensures a == b
  {
    var s := MakeCodePoints(rows, Split(spelling).value);
    var x: Text :| CanonicallyOrders(s, x) && a == Assemble(x);
    var y: Text :| CanonicallyOrders(s, y) && b == Assemble(y);
    OrderingDetermined(s, x, y);
  }

  lemma WordDetermined(rows: seq<Row>, text: Bytes, v: Word, w: Word)
    requires Determined(rows, text) && WordOf(rows, text, v) && WordOf(rows, text, w)
    ensures v == w
  {
    forall i | 0 <= i < |v.characters|
      ensures v.characters[i] == w.characters[i]
    {
      CharacterDetermined(rows, Spellings(rows, text)[i], v.characters[i], w.characters[i]);
    }
  }

  /** A settled character whose spelling is ambiguous can also be built otherwise. */
  lemma CharacterUndetermined(rows: seq<Row>, spelling: Bytes, c: Character) returns (other: Character)
    requires Settled(rows, spelling) && !UnambiguousSpelling(rows, spelling) && BuiltFrom(rows, spelling, c)
    ensures BuiltFrom(rows, spelling, other) && other != c
  {
    var s := MakeCodePoints(rows, Split(spelling).value);
    var x: Text :| CanonicallyOrders(s, x) && c == Assemble(x);
    var y := OrderingUndetermined(s, x);
    other := Assemble(y);
    if other == c {
      EqualNormalsEqualTexts(rows, spelling, spelling, x, y);
    }
  }

  ghost function WithCharacter(w: Word, i: nat, c: Character): Word
    requires i < |w.characters|
  {
    Word(w.text, w.characters[i := c], BytesOf(w.characters[i := c]))
  }

  /** A text determines its word if and only if no character is ambiguous. */
  lemma WordDeterminedExact(rows: seq<Row>, text: Bytes, w: Word)
    requires ComputedNormals(rows) && WordOf(rows, text, w)
    ensures (forall v :: WordOf(rows, text, v) ==> v == w) <==> Determined(rows, text)
  {
    if Determined(rows, text) {
      forall v | WordOf(rows, text, v)
        ensures v == w
      {
        WordDetermined(rows, text, v, w);
      }
    } else {
      var v := WordUndetermined(rows, text, w);
    }
  }

  lemma WordUndetermined(rows: seq<Row>, text: Bytes, w: Word) returns (v: Word)
    requires ComputedNormals(rows) && WordOf(rows, text, w) && !Determined(rows, text)
    ensures WordOf(rows, text, v) && v != w
  {
    var i :| 0 <= i < |Spellings(rows, text)| && !UnambiguousSpelling(rows, Spellings(rows, text)[i]);
    SpellingSettled(rows, text, i);
    var other := CharacterUndetermined(rows, Spellings(rows, text)[i], w.characters[i]);
    v := WithCharacter(w, i, other);
    Respelled(rows, Spellings(rows, text), w.characters, i, other);
    assert v.characters[i] != w.characters[i];
  }

  lemma Respelled(rows: seq<Row>, spellings: seq<Bytes>, characters: seq<Character>, i: nat, c: Character)
    requires SpelledBy(rows, spellings, characters) && i < |characters| && BuiltFrom(rows, spellings[i], c)
    ensures SpelledBy(rows, spellings, characters[i := c])
  {
  }

  lemma SpellingSettled(rows: seq<Row>, text: Bytes, i: nat)
    requires ComputedNormals(rows) && Split(text).Success? && i < |Spellings(rows, text)|
    ensures Settled(rows, Spellings(rows, text)[i])
  {
    if text != [] {
      WordCharacters(rows, text);
    }
  }

  lemma CandidateDetermined(rows: seq<Row>, text: Bytes, a: Candidate, b: Candidate)
    requires Determined(rows, text) && CandidateOf(rows, text, a) && CandidateOf(rows, text, b)
    ensures a == b
  {
    WordDetermined(rows, text, a.word, b.word);
  }

  // ----- Calls -----

  /** Of the candidates that pass, no two have the same swapped text. */
  ghost predicate PassingSwapsDiffer(candidates: seq<Candidate>, query: Word)
  {
    forall i, j :: 0 <= i < j < |candidates| && Passes(candidates[i], query) && Passes(candidates[j], query) ==>
      candidates[i].caseSwappedText != candidates[j].caseSwappedText
  }

  lemma CandidatesDetermined<O>(
    rows: seq<Row>, objects: seq<O>, property: O -> Bytes, cs: seq<Candidate>, cs': seq<Candidate>)
    requires CandidatesOf(rows, objects, property, cs) && CandidatesOf(rows, objects, property, cs')
    requires forall i :: 0 <= i < |objects| ==> Determined(rows, TextOf(objects[i], property))
    ensures cs == cs'
  {
    forall i | 0 <= i < |objects|
      ensures cs[i] == cs'[i]
    {
      CandidateDetermined(rows, TextOf(objects[i], property), cs[i], cs'[i]);
    }
  }

  /** Any two calls of FilterAndSortCandidates on determined texts agree, whatever the sorts did, when the candidates
      that pass have distinct swapped texts. */
  lemma ListDetermined<O>(
    rows: seq<Row>, objects: seq<O>, property: O -> Bytes, queryText: Bytes, k: nat,
    q: Word, cs: seq<Candidate>, ranked: seq<Ranked>, r: seq<O>,
    q': Word, cs': seq<Candidate>, ranked': seq<Ranked>, r': seq<O>)
    requires FilteredAndSorted(rows, objects, property, queryText, k, q, cs, ranked, r)
    requires FilteredAndSorted(rows, objects, property, queryText, k, q', cs', ranked', r')
    requires Determined(rows, queryText)
    requires cs == cs' || forall i :: 0 <= i < |objects| ==> Determined(rows, TextOf(objects[i], property))
    requires PassingSwapsDiffer(cs, q)
    ensures q == q' && cs == cs' && ranked == ranked' && r == r'
  {
    WordDetermined(rows, queryText, q, q');
    if cs != cs' {
      CandidatesDetermined(rows, objects, property, cs, cs');
    }
    RankingUnique(cs, q, k, ranked, ranked');
  }

  /** Calls on one repository share their candidates. */
  lemma RepositoryCandidates<O>(
    build: Bytes -> Option<Candidate>, objects: seq<O>, property: O -> Bytes, cs: seq<Candidate>, cs': seq<Candidate>)
    requires BuiltBy(build, objects, property, cs) && BuiltBy(build, objects, property, cs')
    ensures cs == cs'
  {
    assert forall i :: 0 <= i < |objects| ==> Some(cs[i]) == Some(cs'[i]);
  }

  /** Any two answers to a determined query agree, whatever order the files come in and whatever the sorts did. */
  lemma AnswerDetermined(
    rows: seq<Row>, build: Bytes -> Option<Candidate>, queryText: Bytes, seen: set<Bytes>, k: nat,
    q: Word, xs: seq<MatchResult>, a: seq<MatchResult>, q': Word, ys: seq<MatchResult>, b: seq<MatchResult>)
    requires Answers(rows, build, queryText, q, seen, xs, k, a)
    requires Answers(rows, build, queryText, q', seen, ys, k, b)
    requires Determined(rows, queryText) && SwappedTextsDiffer(build, q, seen)
    ensures q == q' && a == b
  {
    WordDetermined(rows, queryText, q, q');
    AnswersAgree(build, q, seen, k, xs, ys, a, b);
  }
}
