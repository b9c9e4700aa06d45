/** Words and candidates: texts cut into characters, with what ranking needs to know of them. */
module Words {
  import opened Wrappers
  import opened Utf8
  import opened UnicodeTable
  import opened CodePoints
  import opened Graphemes
  import opened Segmentation
  import opened Normalization
  import opened Characters
  import opened Embedding

  datatype Word = Word(text: Bytes, characters: seq<Character>, bytesPresent: set<Byte>)
  {
    predicate IsEmpty() { characters == [] }

    predicate ContainsBytes(other: Word) { bytesPresent * other.bytesPresent == other.bytesPresent }
  }

  datatype Candidate = Candidate(
    word: Word, caseSwappedText: Bytes, wordBoundaryChars: seq<Character>, textIsLowercase: bool)

  // ----- Words -----

  ghost function BytesOf(characters: seq<Character>): set<Byte>
  {
    set i, k | 0 <= i < |characters| && 0 <= k < |characters[i].base| :: characters[i].base[k]
  }

  method ComputeBytesPresent(characters: seq<Character>) returns (bytes: set<Byte>)
    ensures bytes == BytesOf(characters)
    ensures forall b :: b in bytes <==>
      exists i, k :: 0 <= i < |characters| && 0 <= k < |characters[i].base| && characters[i].base[k] == b
  {
    bytes := {};
    for i := 0 to |characters|
      invariant bytes == BytesOf(characters[..i])
    {
      var base := characters[i].base;
      for k := 0 to |base|
        invariant bytes == BytesOf(characters[..i]) + set j | 0 <= j < k :: base[j]
      {
        bytes := bytes + {base[k]};
      }
      assert characters[..i + 1] == characters[..i] + [characters[i]];
    }
    assert characters[..|characters|] == characters;
  }

  /** The data's break properties, row by row; see ConsistentProperties. */
  ghost predicate ConsistentRows(rows: seq<Row>)
  {
    forall i :: 0 <= i < |rows| ==>
      && (rows[i].raw.indicBreak in {IndicExtend, Linker} ==> rows[i].raw.breakProperty in {Extend, ZWJ})
      && (rows[i].raw.indicBreak == Consonant ==> rows[i].raw.breakProperty == Other)
  }

  /** What the engine's results need of the Unicode data. */
  ghost predicate UnicodeData(rows: seq<Row>)
  {
    ConsistentRows(rows) && ComputedNormals(rows)
  }

  lemma DecodedConsistent(rows: seq<Row>, pieces: seq<Bytes>)
    requires WellFormed(rows) && ConsistentRows(rows)
    ensures ConsistentProperties(MakeCodePoints(rows, pieces))
  {
    forall i | 0 <= i < |pieces|
      ensures ConsistentProperties([MakeCodePoint(Lookup(rows, pieces[i]))])
    {
      LookupFinds(rows, pieces[i]);
    }
    var s := MakeCodePoints(rows, pieces);
    forall i | 0 <= i < |s|
      ensures Conjoining(s[i]) ==> s[i].breakProperty in {Extend, ZWJ}
      ensures s[i].indicBreak == Consonant ==> s[i].breakProperty == Other
    {
      assert [s[i]][0] == MakeCodePoint(Lookup(rows, pieces[i]));
    }
  }

  /** The spelling of the characters of a text that decodes. */
  ghost function Spellings(rows: seq<Row>, text: Bytes): seq<Bytes>
    requires Split(text).Success?
  {
    var s := MakeCodePoints(rows, Split(text).value);
    NormalForms(Clusters(s))
  }

  ghost predicate SpelledBy(rows: seq<Row>, spellings: seq<Bytes>, characters: seq<Character>)
  {
    |characters| == |spellings| && forall i :: 0 <= i < |characters| ==> BuiltFrom(rows, spellings[i], characters[i])
  }

  ghost predicate WordOf(rows: seq<Row>, text: Bytes, w: Word)
  {
    && Split(text).Success?
    && w.text == text
    && SpelledBy(rows, Spellings(rows, text), w.characters)
    && w.bytesPresent == BytesOf(w.characters)
  }

  method MakeCharacters(table: seq<RawCodePoint>, ghost rows: seq<Row>, spellings: seq<Bytes>)
    returns (r: Result<seq<Character>, DecodeError>)
    requires TableFor(table, rows)
    ensures r.Success? <==> forall i :: 0 <= i < |spellings| ==> Split(spellings[i]).Success?
    ensures r.Success? ==> SpelledBy(rows, spellings, r.value)
  {
    var characters: seq<Character> := [];
    for i := 0 to |spellings|
      invariant |characters| == i
      invariant forall j :: 0 <= j < i ==> Split(spellings[j]).Success? && BuiltFrom(rows, spellings[j], characters[j])
    {
      var c := MakeCharacter(table, rows, spellings[i]);
      if c.Failure? { return Failure(c.error); }
      characters := characters + [c.value];
    }
    return Success(characters);
  }

  /** With normalised rows every character decodes. */
  lemma SpellingsDecode(rows: seq<Row>, text: Bytes)
    requires ComputedNormals(rows) && Split(text).Success?
    ensures forall i :: 0 <= i < |Spellings(rows, text)| ==> Split(Spellings(rows, text)[i]).Success?
  {
    if text != [] {
      WordCharacters(rows, text);
    }
  }

  /** With normalised rows a word fails only where its text does. */
  method MakeWord(table: seq<RawCodePoint>, ghost rows: seq<Row>, text: Bytes) returns (r: Result<Word, DecodeError>)
    requires TableFor(table, rows) && ConsistentRows(rows)
    ensures Split(text).Failure? ==> r == Failure(Split(text).error)
    ensures Split(text).Success? ==>
      (r.Success? <==> forall i :: 0 <= i < |Spellings(rows, text)| ==> Split(Spellings(rows, text)[i]).Success?)
    ensures ComputedNormals(rows) ==> (r.Success? <==> Split(text).Success?)
    ensures r.Success? ==> WordOf(rows, text, r.value)
  {
    var decoded := DecodeText(table, rows, text);
    if decoded.Failure? { return Failure(decoded.error); }
    DecodedConsistent(rows, Split(text).value);
    var spellings := BreakCodePointsIntoCharacters(decoded.value);
    assert spellings == Spellings(rows, text);
    if ComputedNormals(rows) { SpellingsDecode(rows, text); }
    var characters := MakeCharacters(table, rows, spellings);
    if characters.Failure? { return Failure(characters.error); }
    var bytes := ComputeBytesPresent(characters.value);
    return Success(Word(text, characters.value, bytes));
  }

  // ----- Candidates -----

  predicate IsBoundary(characters: seq<Character>, i: nat)
    requires i < |characters|
  {
    if i == 0 then !characters[0].isPunctuation
    else
      (!characters[i - 1].isUppercase && characters[i].isUppercase) ||
      (characters[i - 1].isPunctuation && characters[i].isLetter)
  }

  predicate HoldsAt(f: seq<nat>, i: nat)
  {
    exists k :: 0 <= k < |f| && f[k] == i
  }

  /** f lists the word boundaries before n, in order, and all of them. */
  ghost predicate ListsBoundaries(characters: seq<Character>, n: nat, f: seq<nat>)
    requires n <= |characters|
  {
    && (forall k :: 0 <= k < |f| ==> f[k] < n && IsBoundary(characters, f[k]))
    && (forall j, k :: 0 <= j < k < |f| ==> f[j] < f[k])
    && (forall i :: 0 <= i < n && IsBoundary(characters, i) ==> HoldsAt(f, i))
  }

  /** chars are the characters at the word boundaries before n, found at positions f. */
  ghost predicate BoundaryCharsAt(characters: seq<Character>, n: nat, chars: seq<Character>, f: seq<nat>)
  {
    n <= |characters| && ListsBoundaries(characters, n, f) &&
    |f| == |chars| && forall k :: 0 <= k < |f| ==> chars[k] == characters[f[k]]
  }

  lemma BoundariesNext(characters: seq<Character>, n: nat, chars: seq<Character>, f: seq<nat>)
    requires n < |characters| && BoundaryCharsAt(characters, n, chars, f)
    ensures if IsBoundary(characters, n)
      then BoundaryCharsAt(characters, n + 1, chars + [characters[n]], f + [n])
      else BoundaryCharsAt(characters, n + 1, chars, f)
  {
    var more := f + [n];
    assert more[|f|] == n;
    forall i | 0 <= i < n && IsBoundary(characters, i)
      ensures HoldsAt(more, i)
    {
      var k :| 0 <= k < |f| && f[k] == i;
      assert more[k] == i;
    }
  }

  /** The characters at the word boundaries before n. */
  function BoundaryChars(characters: seq<Character>, n: nat): seq<Character>
    requires n <= |characters|
  {
    if n == 0 then []
    else if IsBoundary(characters, n - 1) then BoundaryChars(characters, n - 1) + [characters[n - 1]]
    else BoundaryChars(characters, n - 1)
  }

  lemma {:induction false} BoundaryPositions(characters: seq<Character>, n: nat) returns (f: seq<nat>)
    requires n <= |characters|
    ensures BoundaryCharsAt(characters, n, BoundaryChars(characters, n), f)
  {
    if n == 0 { return []; }
    var last := n - 1;
    var before := BoundaryPositions(characters, last);
    var chars := BoundaryChars(characters, last);
    BoundariesNext(characters, last, chars, before);
    if IsBoundary(characters, last) {
      assert BoundaryChars(characters, n) == chars + [characters[last]];
      return before + [last];
    }
    return before;
  }

  /** chars are, in order, the characters at the positions f, and those positions are all at which a word starts: the
      first character unless it is punctuation, an uppercase one after one that is not, a letter after punctuation. */
  ghost predicate WordStarts(characters: seq<Character>, chars: seq<Character>, f: seq<nat>)
  {
    && |f| == |chars|
    && (forall k :: 0 <= k < |f| ==> f[k] < |characters| && chars[k] == characters[f[k]])
    && (forall j, k :: 0 <= j < k < |f| ==> f[j] < f[k])
    && (characters != [] ==> (HoldsAt(f, 0) <==> !characters[0].isPunctuation))
    && (forall i :: 0 < i < |characters| ==>
         (HoldsAt(f, i) <==>
          (!characters[i - 1].isUppercase && characters[i].isUppercase) ||
          (characters[i - 1].isPunctuation && characters[i].isLetter)))
  }

  lemma BoundariesListed(characters: seq<Character>) returns (f: seq<nat>)
    ensures WordStarts(characters, BoundaryChars(characters, |characters|), f)
  {
    f := BoundaryPositions(characters, |characters|);
    assert forall i :: 0 <= i < |characters| ==> (HoldsAt(f, i) <==> IsBoundary(characters, i));
  }

  method ComputeWordBoundaryChars(characters: seq<Character>) returns (chars: seq<Character>)
    ensures chars == BoundaryChars(characters, |characters|)
    ensures exists f :: WordStarts(characters, chars, f)
  {
    chars := [];
    ghost var f := BoundariesListed(characters);
    if characters == [] { return; }
    if !characters[0].isPunctuation {
      chars := chars + [characters[0]];
    }
    for i := 1 to |characters|
      invariant chars == BoundaryChars(characters, i)
    {
      if (!characters[i - 1].isUppercase && characters[i].isUppercase) ||
         (characters[i - 1].isPunctuation && characters[i].isLetter) {
        chars := chars + [characters[i]];
      }
    }
  }

  function SwappedText(characters: seq<Character>): Bytes
  {
    if characters == [] then []
    else SwappedText(characters[..|characters| - 1]) + characters[|characters| - 1].swappedCase
  }

  method ComputeCaseSwappedText(characters: seq<Character>) returns (text: Bytes)
    ensures text == SwappedText(characters)
  {
    text := [];
    for i := 0 to |characters|
      invariant text == SwappedText(characters[..i])
    {
      assert characters[..i + 1][..i] == characters[..i];
      text := text + characters[i].swappedCase;
    }
    assert characters[..|characters|] == characters;
  }

  method ComputeTextIsLowercase(characters: seq<Character>) returns (lower: bool)
    ensures lower <==> forall i :: 0 <= i < |characters| ==> !characters[i].isUppercase
  {
    for i := 0 to |characters|
      invariant forall j :: 0 <= j < i ==> !characters[j].isUppercase
    {
      if characters[i].isUppercase { return false; }
    }
    return true;
  }

  ghost predicate CandidateOf(rows: seq<Row>, text: Bytes, c: Candidate)
  {
    var characters := c.word.characters;
    && WordOf(rows, text, c.word)
    && c.caseSwappedText == SwappedText(characters)
    && c.wordBoundaryChars == BoundaryChars(characters, |characters|)
    && (c.textIsLowercase <==> forall i :: 0 <= i < |characters| ==> !characters[i].isUppercase)
  }

  /** What a constructor call leaves: a candidate of the text exactly where the text decodes. */
  ghost predicate CandidateMade(rows: seq<Row>, text: Bytes, r: Option<Candidate>)
  {
    (r.Some? <==> Split(text).Success?) && (r.Some? ==> CandidateOf(rows, text, r.value))
  }

  /** A candidate constructor seen as a function; MakeCandidate's outcomes are of this kind. */
  ghost predicate Builds(rows: seq<Row>, build: Bytes -> Option<Candidate>)
  {
    forall t :: CandidateMade(rows, t, build(t))
  }

  method MakeCandidate(table: seq<RawCodePoint>, ghost rows: seq<Row>, text: Bytes)
    returns (r: Result<Candidate, DecodeError>)
    requires TableFor(table, rows) && ConsistentRows(rows)
    ensures Split(text).Failure? ==> r == Failure(Split(text).error)
    ensures Split(text).Success? ==>
      (r.Success? <==> forall i :: 0 <= i < |Spellings(rows, text)| ==> Split(Spellings(rows, text)[i]).Success?)
    ensures r.Success? ==> CandidateOf(rows, text, r.value)
    ensures ComputedNormals(rows) ==> CandidateMade(rows, text, r.ToOption())
  {
    var word := MakeWord(table, rows, text);
    if word.Failure? { return Failure(word.error); }
    var characters := word.value.characters;
    var swapped := ComputeCaseSwappedText(characters);
    var boundaries := ComputeWordBoundaryChars(characters);
    var lower := ComputeTextIsLowercase(characters);
    return Success(Candidate(word.value, swapped, boundaries, lower));
  }

  /** A word is empty exactly when its text is. */
  lemma EmptyWord(rows: seq<Row>, text: Bytes, w: Word)
    requires WordOf(rows, text, w)
    ensures w.IsEmpty() <==> text == []
  {
    var s := MakeCodePoints(rows, Split(text).value);
    Factorisation(text, Split(text).value);
    if s != [] {
      ClustersPartition(s);
    }
  }

  // ----- The prefilter -----

  predicate Smart(a: Character, b: Character) { a.MatchesSmart(b) }

  /** Every byte of a's base is one of b's. */
  ghost predicate BaseWithin(a: Character, b: Character)
  {
    forall k :: 0 <= k < |a.base| ==> a.base[k] in b.base
  }

  /** A match of one of q's characters by one of c's never loses a byte. */
  ghost predicate MatchesKeepBytes(q: seq<Character>, c: seq<Character>)
  {
    forall a, b :: a in q && b in c && Smart(a, b) ==> BaseWithin(a, b)
  }

  ghost predicate HasBytes(w: Word)
  {
    w.bytesPresent == BytesOf(w.characters)
  }

  /** A candidate in which the query embeds has all the query's bytes, so the byte test loses no match. */
  lemma PrefilterSound(q: Word, c: Word)
    requires HasBytes(q) && HasBytes(c) && MatchesKeepBytes(q.characters, c.characters)
    requires Embeddable(Smart, q.characters, c.characters)
    ensures c.ContainsBytes(q)
  {
    var f :| Embeds(Smart, q.characters, c.characters, 0, f);
    forall b | b in q.bytesPresent
      ensures b in c.bytesPresent
    {
      var i, k :| 0 <= i < |q.characters| && 0 <= k < |q.characters[i].base| && q.characters[i].base[k] == b;
      assert BaseWithin(q.characters[i], c.characters[f[i]]);
      var j :| 0 <= j < |c.characters[f[i]].base| && c.characters[f[i]].base[j] == b;
    }
    assert c.bytesPresent * q.bytesPresent == q.bytesPresent;
  }

  ghost predicate Over(w: Word, alphabet: set<Character>)
  {
    HasBytes(w) && forall c :: c in w.characters ==> c in alphabet
  }

  ghost predicate Matches(q: Word, c: Word)
  {
    Embeddable(Smart, q.characters, c.characters)
  }

  /** The same fold, the first not in upper case, or the same normal form. */
  predicate SameForm(a: Character, b: Character)
  {
    (!a.isUppercase && a.foldedCase == b.foldedCase) || a.normal == b.normal
  }

  ghost predicate FormsKeepBytes(alphabet: set<Character>)
  {
    forall a, b :: a in alphabet && b in alphabet && SameForm(a, b) ==> BaseWithin(a, b)
  }

  /** Over an alphabet the byte test loses no match if and only if matches by fold or normal form keep bytes. */
  lemma PrefilterExact(alphabet: set<Character>)
    ensures (forall q, c :: Over(q, alphabet) && Over(c, alphabet) && Matches(q, c) ==> c.ContainsBytes(q))
      <==> FormsKeepBytes(alphabet)
  {
    if FormsKeepBytes(alphabet) {
      forall q, c | Over(q, alphabet) && Over(c, alphabet) && Matches(q, c)
        ensures c.ContainsBytes(q)
      {
        assert forall a, b :: a in q.characters && b in c.characters && Smart(a, b) ==> BaseWithin(a, b);
        PrefilterSound(q, c);
      }
    }
    if forall q, c :: Over(q, alphabet) && Over(c, alphabet) && Matches(q, c) ==> c.ContainsBytes(q) {
      forall a, b | a in alphabet && b in alphabet && Smart(a, b)
        ensures BaseWithin(a, b)
      {
        assert Over(OneCharacter(a), alphabet) && Over(OneCharacter(b), alphabet);
        OneCharacterMatch(a, b);
      }
    }
  }

  ghost function OneCharacter(a: Character): Word
  {
    Word([], [a], BytesOf([a]))
  }

  lemma SingleEmbeds(a: Character, b: Character)
    ensures Embeddable(Smart, [a], [b]) <==> Smart(a, b)
  {
    if Smart(a, b) {
      assert Embeds(Smart, [a], [b], 0, [0]);
    }
    if f :| Embeds(Smart, [a], [b], 0, f) {
      assert f[0] == 0;
    }
  }

  lemma OneCharacterMatch(a: Character, b: Character)
    requires Smart(a, b)
    ensures Matches(OneCharacter(a), OneCharacter(b))
    ensures OneCharacter(b).ContainsBytes(OneCharacter(a)) ==> BaseWithin(a, b)
  {
    SingleEmbeds(a, b);
    if OneCharacter(b).ContainsBytes(OneCharacter(a)) {
      forall k | 0 <= k < |a.base|
        ensures a.base[k] in b.base
      {
        assert [a][0].base[k] in BytesOf([a]);
        assert a.base[k] in BytesOf([b]);
      }
    }
  }

  ghost predicate CoherentWords(q: seq<Character>, c: seq<Character>)
  {
    forall a, b :: a in q && b in c ==> Coherent(a, b)
  }

  /** Equal folded forms share their base. */
  ghost predicate FoldsShareBase(q: seq<Character>, c: seq<Character>)
  {
    forall a, b :: a in q && b in c && a.foldedCase == b.foldedCase ==> a.base == b.base && a.isBase == b.isBase
  }

  lemma CoherentKeepsBytes(q: seq<Character>, c: seq<Character>)
    requires CoherentWords(q, c)
    ensures MatchesKeepBytes(q, c)
  {
    forall a, b | a in q && b in c && Smart(a, b)
      ensures BaseWithin(a, b)
    {
      MatchesShareBase(a, b);
    }
  }

  /** Characters built from a normalised table are coherent as soon as equal folds share their base. */
  lemma BuiltWordsCoherent(rows: seq<Row>, x: Bytes, y: Bytes, q: Word, c: Word)
    requires ComputedNormals(rows) && WordOf(rows, x, q) && WordOf(rows, y, c)
    requires FoldsShareBase(q.characters, c.characters)
    ensures CoherentWords(q.characters, c.characters)
  {
    if x != [] { WordCharacters(rows, x); }
    if y != [] { WordCharacters(rows, y); }
    forall a, b | a in q.characters && b in c.characters
      ensures Coherent(a, b)
    {
      if a.normal == b.normal {
        var i :| 0 <= i < |q.characters| && q.characters[i] == a;
        var j :| 0 <= j < |c.characters| && c.characters[j] == b;
        EqualNormalsEqualCharacters(rows, Spellings(rows, x)[i], Spellings(rows, y)[j], a, b);
      }
    }
  }

  /** Matching is a preorder on words. */
  lemma WordMatchReflexive(q: seq<Character>)
    ensures Embeddable(Smart, q, q)
  {
    EmbeddableReflexive(Smart, q);
  }

  lemma WordMatchTransitive(q: seq<Character>, c: seq<Character>, d: seq<Character>)
    requires CoherentWords(q, c) && CoherentWords(c, d)
    requires Embeddable(Smart, q, c) && Embeddable(Smart, c, d)
    ensures Embeddable(Smart, q, d)
  {
    forall x, y, z | x in q && y in c && z in d && Smart(x, y) && Smart(y, z)
      ensures Smart(x, z)
    {
      MatchesTransitive(x, y, z);
    }
    EmbeddableTransitive(Smart, q, c, d);
  }

  /** Characters are told apart by their normal forms, as EqualNormalsEqualCharacters says of built ones. */
  ghost predicate NormalsTellApart(alphabet: set<Character>)
  {
    forall a, b :: a in alphabet && b in alphabet && a.normal == b.normal ==> a == b
  }

  /** The characters without marks are those whose base is their whole fold, as BuiltBased says of built ones. */
  ghost predicate PlainlyBased(alphabet: set<Character>)
  {
    forall a :: a in alphabet ==> (a.isBase <==> a.base == a.foldedCase)
  }

  /** y folds as the marked lowercase x does, but on another base. */
  predicate FoldsAstray(x: Character, y: Character)
  {
    !x.isBase && !x.isUppercase && x.foldedCase == y.foldedCase && x.base != y.base
  }

  /** No plain lowercase letter has the base of x; and if y is plain, no marked character has its base. */
  ghost predicate BasesApart(alphabet: set<Character>, x: Character, y: Character)
  {
    && (forall a :: a in alphabet && a.isBase && !a.isUppercase ==> a.base != x.base)
    && (y.isBase ==> forall b :: b in alphabet && b.base == y.base && (y.isUppercase ==> b.isUppercase) ==> b.isBase)
  }

  ghost predicate FoldsRespectBases(alphabet: set<Character>)
  {
    forall x, y :: x in alphabet && y in alphabet && FoldsAstray(x, y) ==> BasesApart(alphabet, x, y)
  }

  ghost predicate SmartTransitive(alphabet: set<Character>)
  {
    forall a, b, c :: a in alphabet && b in alphabet && c in alphabet && Smart(a, b) && Smart(b, c) ==> Smart(a, c)
  }

  lemma RespectNecessary(alphabet: set<Character>, x: Character, y: Character)
    requires NormalsTellApart(alphabet) && PlainlyBased(alphabet) && SmartTransitive(alphabet)
    requires x in alphabet && y in alphabet && FoldsAstray(x, y)
    ensures BasesApart(alphabet, x, y)
  {
    assert Smart(x, y);
    forall a | a in alphabet && a.isBase && !a.isUppercase
      ensures a.base != x.base
    {
      assert Smart(a, x) ==> Smart(a, y);
    }
    forall b | b in alphabet && y.isBase && b.base == y.base && (y.isUppercase ==> b.isUppercase)
      ensures b.isBase
    {
      assert Smart(y, b) && Smart(x, b);
    }
  }

  /** Smart matching chains over an alphabet if and only if folds respect bases. */
  lemma SmartTransitiveExact(alphabet: set<Character>)
    requires NormalsTellApart(alphabet) && PlainlyBased(alphabet)
    ensures SmartTransitive(alphabet) <==> FoldsRespectBases(alphabet)
  {
    if SmartTransitive(alphabet) {
      forall x, y | x in alphabet && y in alphabet && FoldsAstray(x, y)
        ensures BasesApart(alphabet, x, y)
      {
        RespectNecessary(alphabet, x, y);
      }
    }
    if FoldsRespectBases(alphabet) {
      forall a, b, c | a in alphabet && b in alphabet && c in alphabet && Smart(a, b) && Smart(b, c)
        ensures Smart(a, c)
      {
        assert FoldsAstray(a, b) ==> BasesApart(alphabet, a, b);
        assert FoldsAstray(b, c) ==> BasesApart(alphabet, b, c);
      }
    }
  }

  /** Every marked lowercase character has a plain lowercase letter on its base. */
  ghost predicate HoldsBases(alphabet: set<Character>)
  {
    forall x :: x in alphabet && !x.isBase && !x.isUppercase ==>
      exists a :: a in alphabet && a.isBase && !a.isUppercase && a.base == x.base
  }

  /** With such letters it chains if and only if a marked lowercase character shares its base with all that folds
      alike. */
  lemma SmartTransitiveWithBases(alphabet: set<Character>)
    requires NormalsTellApart(alphabet) && PlainlyBased(alphabet) && HoldsBases(alphabet)
    ensures SmartTransitive(alphabet) <==> forall x, y :: x in alphabet && y in alphabet ==> !FoldsAstray(x, y)
  {
    SmartTransitiveExact(alphabet);
  }

  /** Over an alphabet matching chains if and only if folds respect bases. */
  lemma WordMatchTransitiveExact(alphabet: set<Character>)
    requires NormalsTellApart(alphabet) && PlainlyBased(alphabet)
    ensures (forall q, c, d ::
      Over(q, alphabet) && Over(c, alphabet) && Over(d, alphabet) && Matches(q, c) && Matches(c, d) ==> Matches(q, d))
      <==> FoldsRespectBases(alphabet)
  {
    SmartTransitiveExact(alphabet);
    if SmartTransitive(alphabet) {
      forall q, c, d | Over(q, alphabet) && Over(c, alphabet) && Over(d, alphabet) && Matches(q, c) && Matches(c, d)
        ensures Matches(q, d)
      {
        EmbeddableTransitive(Smart, q.characters, c.characters, d.characters);
      }
    }
    if forall q, c, d ::
      Over(q, alphabet) && Over(c, alphabet) && Over(d, alphabet) && Matches(q, c) && Matches(c, d) ==> Matches(q, d) {
      forall a, b, c | a in alphabet && b in alphabet && c in alphabet && Smart(a, b) && Smart(b, c)
        ensures Smart(a, c)
      {
        SingleEmbeds(a, b);
        SingleEmbeds(b, c);
        SingleEmbeds(a, c);
        assert Over(OneCharacter(a), alphabet) && Over(OneCharacter(b), alphabet) && Over(OneCharacter(c), alphabet);
        assert Matches(OneCharacter(a), OneCharacter(b)) && Matches(OneCharacter(b), OneCharacter(c));
        assert Matches(OneCharacter(a), OneCharacter(c));
      }
    }
  }
}
