/** Smart matching on texts as the engine builds them: the documented table, and where its laws fail. */
module MatchingCases {
  import opened Wrappers
  import opened Sequences
  import opened Utf8
  import opened UnicodeTable
  import opened CodePoints
  import opened CanonicalOrdering
  import opened Graphemes
  import opened Cutting
  import opened Segmentation
  import opened Normalization
  import opened Characters
  import opened Words
  import opened Embedding
  import opened Filtering

  // ----- Texts of one character -----

  /** No two neighbours are non-starters. */
  ghost predicate CutEverywhere(s: Text)
  {
    forall i :: 0 <= i <= |s| ==> Cut(s, i)
  }

  lemma NoChoice(s: Text, r: Text)
    requires CanonicallyOrders(s, r) && CutEverywhere(s)
    ensures r == s
  {
    forall k | 0 <= k < |s|
      ensures r[k] == s[k]
    {
      assert Cut(s, k) && Cut(s, k + 1);
      NextSame(s, r, k);
    }
  }

  lemma NextSame(s: Text, r: Text, k: nat)
    requires |r| == |s| && k < |s| && multiset(r[..k]) == multiset(s[..k])
    requires multiset(r[..k + 1]) == multiset(s[..k + 1])
    ensures r[k] == s[k]
  {
    SliceMultiset(r, k, k + 1);
    SliceMultiset(s, k, k + 1);
    Cancel(multiset(s[..k]), multiset(r[k..k + 1]), multiset(s[k..k + 1]));
    assert r[k..k + 1] == [r[k]] && s[k..k + 1] == [s[k]];
    assert r[k] in multiset([s[k]]);
  }

  lemma BuiltOneWay(rows: seq<Row>, pieces: seq<Bytes>, c: Character)
    requires forall p :: p in pieces ==> WellLed(p)
    requires CutEverywhere(MakeCodePoints(rows, pieces)) && BuiltFrom(rows, Flatten(pieces), c)
    ensures c == Assemble(MakeCodePoints(rows, pieces))
  {
    var s := MakeCodePoints(rows, pieces);
    Factorisation(Flatten(pieces), pieces);
    var r: Text :| CanonicallyOrders(s, r) && c == Assemble(r);
    NoChoice(s, r);
  }

  lemma OneCluster(s: Text)
    requires s != [] && forall i :: 0 < i < |s| ==> !LoopBreaks(s, i)
    ensures Clusters(s) == [s]
  {
    ClustersPartition(s);
    var clusters := Clusters(s);
    assert clusters != [];
    FlattenSplit(clusters, 0);
    assert clusters[..0] == [];
    if |clusters| > 1 {
      FlattenSplit(clusters, 1);
      assert clusters[..1] == [] + [clusters[0]];
      FlattenSnoc([], clusters[0]);
      assert PieceStartsAt(clusters, |clusters[0]|);
      assert false;
    }
    assert clusters == [] + [clusters[0]];
    FlattenSnoc([], clusters[0]);
    assert clusters[0] == s;
  }

  lemma SoleSpelling(rows: seq<Row>, pieces: seq<Bytes>)
    requires pieces != [] && forall p :: p in pieces ==> FixedPiece(rows, p)
    requires forall i :: 0 < i < |pieces| ==> !LoopBreaks(MakeCodePoints(rows, pieces), i)
    ensures Split(Flatten(pieces)) == Success(pieces) && Spellings(rows, Flatten(pieces)) == [Flatten(pieces)]
  {
    Factorisation(Flatten(pieces), pieces);
    OneCluster(MakeCodePoints(rows, pieces));
    FixedPieces(rows, pieces);
  }

  /** The word of a settled text that nowhere breaks and has one ordering. */
  lemma SoleCharacter(rows: seq<Row>, pieces: seq<Bytes>, w: Word)
    requires pieces != [] && forall p :: p in pieces ==> FixedPiece(rows, p)
    requires CutEverywhere(MakeCodePoints(rows, pieces))
    requires forall i :: 0 < i < |pieces| ==> !LoopBreaks(MakeCodePoints(rows, pieces), i)
    requires WordOf(rows, Flatten(pieces), w)
    ensures w.characters == [Assemble(MakeCodePoints(rows, pieces))]
  {
    SoleSpelling(rows, pieces);
    BuiltOneWay(rows, pieces, w.characters[0]);
  }

  lemma AssembleOne(c: CodePoint)
    ensures Assemble([c]) == Character(
      c.normal, if Attached(c) then [] else c.foldedCase, c.foldedCase, c.swappedCase,
      !Attached(c), c.isLetter, c.isPunctuation, c.isUppercase)
  {
    AssembleSnoc([], c);
    assert [] + [c] == [c];
  }

  /** A letter and what attaches to it. */
  lemma AssembleTwo(c: CodePoint, d: CodePoint)
    requires Attached(d)
    ensures var a := Assemble([c, d]);
      && a.normal == c.normal + d.normal && a.foldedCase == c.foldedCase + d.foldedCase
      && a.base == (if Attached(c) then [] else c.foldedCase) && !a.isBase
      && a.isUppercase == (c.isUppercase || d.isUppercase)
  {
    AssembleOne(c);
    AssembleSnoc([c], d);
    assert [c] + [d] == [c, d];
  }

  lemma FlattenTwo(x: Bytes, y: Bytes)
    ensures Flatten([x]) == x && Flatten([x, y]) == x + y
  {
    assert [x] == [] + [x] && [x, y] == [x] + [y];
    FlattenSnoc([], x);
    FlattenSnoc([x], y);
  }

  // ----- The documented table -----

  /** The rows of a letter, its capital and a combining accent or spacing mark, say e, E and U+0301. */
  ghost predicate LetterRows(rows: seq<Row>, lower: Bytes, upper: Bytes, accent: Bytes)
  {
    var l, u, a := Lookup(rows, lower), Lookup(rows, upper), Lookup(rows, accent);
    && lower != upper && l.foldedCase == u.foldedCase && a.foldedCase != []
    && FixedPiece(rows, lower) && FixedPiece(rows, upper) && FixedPiece(rows, accent)
    && !l.isUppercase && u.isUppercase && !a.isUppercase
    && l.breakProperty == u.breakProperty == Other && a.breakProperty in {Extend, SpacingMark}
    && l.combiningClass == u.combiningClass == 0
  }

  lemma AccentedLetter(rows: seq<Row>, letter: Bytes, accent: Bytes, c: Character)
    requires FixedPiece(rows, letter) && FixedPiece(rows, accent)
    requires Lookup(rows, letter).breakProperty == Other && Lookup(rows, letter).combiningClass == 0
    requires Lookup(rows, accent).breakProperty in {Extend, SpacingMark} && BuiltFrom(rows, letter + accent, c)
    ensures c.normal == letter + accent && c.base == Lookup(rows, letter).foldedCase && !c.isBase
    ensures c.foldedCase == Lookup(rows, letter).foldedCase + Lookup(rows, accent).foldedCase
    ensures c.isUppercase == (Lookup(rows, letter).isUppercase || Lookup(rows, accent).isUppercase)
  {
    TwoPieces(rows, letter, accent, c);
    AssembleTwo(MakeCodePoint(Lookup(rows, letter)), MakeCodePoint(Lookup(rows, accent)));
  }

  lemma TwoPieces(rows: seq<Row>, letter: Bytes, accent: Bytes, c: Character)
    requires WellLed(letter) && WellLed(accent) && Lookup(rows, letter).combiningClass == 0
    requires BuiltFrom(rows, letter + accent, c)
    ensures c == Assemble([MakeCodePoint(Lookup(rows, letter)), MakeCodePoint(Lookup(rows, accent))])
  {
    var s := MakeCodePoints(rows, [letter, accent]);
    FlattenTwo(letter, accent);
    BuiltOneWay(rows, [letter, accent], c);
    assert s == [s[0], s[1]];
  }

  lemma PlainLetter(rows: seq<Row>, letter: Bytes, c: Character)
    requires FixedPiece(rows, letter) && Lookup(rows, letter).breakProperty == Other && BuiltFrom(rows, letter, c)
    ensures c.normal == letter && c.base == c.foldedCase == Lookup(rows, letter).foldedCase && c.isBase
    ensures c.isUppercase == Lookup(rows, letter).isUppercase
  {
    var s := MakeCodePoints(rows, [letter]);
    FlattenTwo(letter, []);
    BuiltOneWay(rows, [letter], c);
    assert s == [s[0]];
    AssembleOne(s[0]);
  }

  /** A plain letter and an accented one are spelled differently. */
  lemma SpelledApart(x: Bytes, y: Bytes, accent: Bytes)
    requires WellLed(x) && WellLed(y) && WellLed(accent)
    ensures x != y + accent
    ensures x + accent == y + accent ==> x == y
  {
    FlattenTwo(x, accent);
    FlattenTwo(y, accent);
    Factorisation(x, [x]);
    Factorisation(y + accent, [y, accent]);
    assert |[x]| != |[y, accent]|;
    if x + accent == y + accent {
      assert x == (x + accent)[..|x|] == (y + accent)[..|y|] == y;
    }
  }

  /** A plain and an accented letter, each in both cases. */
  predicate LetterFamily(plain: Character, plainUpper: Character, accented: Character, accentedUpper: Character)
  {
    && plain.base == plainUpper.base == accented.base == accentedUpper.base
    && plain.isBase && plainUpper.isBase && !accented.isBase && !accentedUpper.isBase
    && !plain.isUppercase && plainUpper.isUppercase && !accented.isUppercase && accentedUpper.isUppercase
    && plain.foldedCase == plainUpper.foldedCase != accented.foldedCase == accentedUpper.foldedCase
    && plain.normal != plainUpper.normal && accented.normal != accentedUpper.normal
    && plain.normal !in {accented.normal, accentedUpper.normal}
    && plainUpper.normal !in {accented.normal, accentedUpper.normal}
  }

  lemma BuiltFamily(
    rows: seq<Row>, lower: Bytes, upper: Bytes, accent: Bytes,
    plain: Character, plainUpper: Character, accented: Character, accentedUpper: Character)
    requires LetterRows(rows, lower, upper, accent)
    requires BuiltFrom(rows, lower, plain) && BuiltFrom(rows, upper, plainUpper)
    requires BuiltFrom(rows, lower + accent, accented) && BuiltFrom(rows, upper + accent, accentedUpper)
    ensures LetterFamily(plain, plainUpper, accented, accentedUpper)
  {
    PlainLetter(rows, lower, plain);
    PlainLetter(rows, upper, plainUpper);
    AccentedLetter(rows, lower, accent, accented);
    AccentedLetter(rows, upper, accent, accentedUpper);
    SpelledApart(lower, lower, accent);
    SpelledApart(lower, upper, accent);
    SpelledApart(upper, lower, accent);
    SpelledApart(upper, upper, accent);
    assert |plain.foldedCase| != |accented.foldedCase|;
  }

  lemma FamilyTable(
    plain: Character, plainUpper: Character, accented: Character, accentedUpper: Character, c: Character)
    requires LetterFamily(plain, plainUpper, accented, accentedUpper)
    requires c in {plain, plainUpper, accented, accentedUpper}
    ensures plain.MatchesSmart(c)
    ensures plainUpper.MatchesSmart(c) <==> c in {plainUpper, accentedUpper}
    ensures accented.MatchesSmart(c) <==> c in {accented, accentedUpper}
    ensures accentedUpper.MatchesSmart(c) <==> c == accentedUpper
  {
  }

  /** The documented table: a plain lowercase letter matches all four forms, each refinement narrows the choice. */
  lemma MatchingTable(
    rows: seq<Row>, lower: Bytes, upper: Bytes, accent: Bytes,
    plain: Character, plainUpper: Character, accented: Character, accentedUpper: Character, c: Character)
    requires LetterRows(rows, lower, upper, accent)
    requires BuiltFrom(rows, lower, plain) && BuiltFrom(rows, upper, plainUpper)
    requires BuiltFrom(rows, lower + accent, accented) && BuiltFrom(rows, upper + accent, accentedUpper)
    requires c in {plain, plainUpper, accented, accentedUpper}
    ensures plain.MatchesSmart(c)
    ensures plainUpper.MatchesSmart(c) <==> c in {plainUpper, accentedUpper}
    ensures accented.MatchesSmart(c) <==> c in {accented, accentedUpper}
    ensures accentedUpper.MatchesSmart(c) <==> c == accentedUpper
  {
    BuiltFamily(rows, lower, upper, accent, plain, plainUpper, accented, accentedUpper);
    FamilyTable(plain, plainUpper, accented, accentedUpper, c);
  }

  // ----- Where the laws fail -----

  /** A lowercase letter and a mark that folds to it, as U+03B9 and U+0345. */
  ghost predicate FoldingMark(rows: seq<Row>, letter: Bytes, mark: Bytes)
  {
    var l, m := Lookup(rows, letter), Lookup(rows, mark);
    && FixedPiece(rows, letter) && FixedPiece(rows, mark)
    && l.foldedCase == m.foldedCase != [] && !l.isUppercase
    && l.breakProperty == Other && m.breakProperty in {Extend, SpacingMark}
  }

  /** A starter that attaches to what precedes it, as U+FE0F. */
  ghost predicate Selector(rows: seq<Row>, selector: Bytes)
  {
    var v := Lookup(rows, selector);
    FixedPiece(rows, selector) && v.foldedCase != [] && !v.isUppercase &&
    v.breakProperty in {Extend, SpacingMark} && v.combiningClass == 0
  }

  /** The one character of a code point on its own. */
  lemma OnePiece(rows: seq<Row>, piece: Bytes, w: Word)
    requires FixedPiece(rows, piece) && WordOf(rows, piece, w)
    ensures |w.characters| == 1 && w.characters == [w.characters[0]]
    ensures var c, a := MakeCodePoint(Lookup(rows, piece)), w.characters[0];
      && a.normal == piece && a.base == (if Attached(c) then [] else c.foldedCase) && a.foldedCase == c.foldedCase
      && a.isBase == !Attached(c) && a.isUppercase == c.isUppercase
  {
    FlattenTwo(piece, []);
    var c := MakeCodePoint(Lookup(rows, piece));
    assert MakeCodePoints(rows, [piece]) == [c];
    SoleCharacter(rows, [piece], w);
    AssembleOne(c);
  }

  /** The same with a selector attached. */
  lemma SelectedPiece(rows: seq<Row>, piece: Bytes, selector: Bytes, w: Word)
    requires FixedPiece(rows, piece) && Selector(rows, selector) && WordOf(rows, piece + selector, w)
    requires Lookup(rows, piece).breakProperty in {Other, Extend, SpacingMark}
    ensures |w.characters| == 1 && w.characters == [w.characters[0]]
    ensures var c, v, a := MakeCodePoint(Lookup(rows, piece)), Lookup(rows, selector), w.characters[0];
      && a.normal == piece + selector && a.foldedCase == c.foldedCase + v.foldedCase
      && a.base == (if Attached(c) then [] else c.foldedCase) && !a.isBase && a.isUppercase == c.isUppercase
  {
    var pieces := [piece, selector];
    var s := MakeCodePoints(rows, pieces);
    FlattenTwo(piece, selector);
    assert s == [MakeCodePoint(Lookup(rows, piece)), MakeCodePoint(Lookup(rows, selector))];
    BreakByClasses(s, 1);
    SoleCharacter(rows, pieces, w);
    AssembleTwo(s[0], s[1]);
  }

  lemma LosesByte(q: Word, c: Word, a: Character, b: Character)
    requires HasBytes(q) && HasBytes(c) && q.characters == [a] && c.characters == [b]
    requires a.base != [] && b.base == []
    ensures !c.ContainsBytes(q)
  {
    assert q.characters[0].base[0] in q.bytesPresent;
    assert c.bytesPresent == {};
  }

  /** The letter matches the lone mark, whose base is empty: a match the byte test rejects. */
  lemma PrefilterLosesMatch(rows: seq<Row>, letter: Bytes, mark: Bytes, query: Word, c: Candidate)
    requires FoldingMark(rows, letter, mark)
    requires WordOf(rows, letter, query) && CandidateOf(rows, mark, c)
    ensures Eligible(c, query) && !Passes(c, query)
  {
    OnePiece(rows, letter, query);
    OnePiece(rows, mark, c.word);
    var a, b := query.characters[0], c.word.characters[0];
    SingleEmbeds(a, b);
    LosesByte(query, c.word, a, b);
  }

  /** The letter matches itself with a selector, that matches the mark with a selector, which the letter does not. */
  lemma TransitivityFails(
    rows: seq<Row>, letter: Bytes, mark: Bytes, selector: Bytes, x: Word, y: Word, z: Word)
    requires FoldingMark(rows, letter, mark) && Selector(rows, selector)
    requires WordOf(rows, letter, x) && WordOf(rows, letter + selector, y) && WordOf(rows, mark + selector, z)
    ensures Embeddable(Smart, x.characters, y.characters) && Embeddable(Smart, y.characters, z.characters)
    ensures !Embeddable(Smart, x.characters, z.characters)
  {
    OnePiece(rows, letter, x);
    SelectedPiece(rows, letter, selector, y);
    SelectedPiece(rows, mark, selector, z);
    var a, b, c := x.characters[0], y.characters[0], z.characters[0];
    SpelledApart(letter, mark, selector);
    assert |a.foldedCase| != |c.foldedCase|;
    ChainBroken(a, b, c);
  }

  lemma ChainBroken(a: Character, b: Character, c: Character)
    requires a.isBase && !a.isUppercase && !b.isUppercase && a.base == b.base != c.base
    requires a.foldedCase != c.foldedCase == b.foldedCase && a.normal != c.normal
    ensures Embeddable(Smart, [a], [b]) && Embeddable(Smart, [b], [c]) && !Embeddable(Smart, [a], [c])
  {
    SingleEmbeds(a, b);
    SingleEmbeds(b, c);
    SingleEmbeds(a, c);
  }

  const IOTA: Bytes := [0xCE, 0xB9]

  /** U+0345, the combining iota. */
  const YPOGEGRAMMENI: Bytes := [0xCD, 0x85]

  /** U+FE0F */
  const VARIATION_SELECTOR: Bytes := [0xEF, 0xB8, 0x8F]

  /** What the Unicode data says of the three. */
  ghost predicate IotaRows(rows: seq<Row>)
  {
    var capital, v := [0xCE, 0x99], Lookup(rows, VARIATION_SELECTOR);
    && Lookup(rows, IOTA) == RawCodePoint(IOTA, IOTA, IOTA, capital, true, false, false, Other, 0, NoIndic)
    && Lookup(rows, YPOGEGRAMMENI) ==
       RawCodePoint(YPOGEGRAMMENI, YPOGEGRAMMENI, IOTA, capital, false, false, false, Extend, 240, IndicExtend)
    && v.normal == v.foldedCase == VARIATION_SELECTOR && !v.isUppercase
    && v.breakProperty == Extend && v.combiningClass == 0
  }

  lemma IotaFolds(rows: seq<Row>)
    requires IotaRows(rows)
    ensures FoldingMark(rows, IOTA, YPOGEGRAMMENI) && Selector(rows, VARIATION_SELECTOR)
  {
  }

  /** Searching for iota loses the candidate that is a combining iota. */
  lemma IotaLost(rows: seq<Row>, query: Word, c: Candidate)
    requires IotaRows(rows) && WordOf(rows, IOTA, query) && CandidateOf(rows, YPOGEGRAMMENI, c)
    ensures Eligible(c, query) && !Passes(c, query)
  {
    IotaFolds(rows);
    PrefilterLosesMatch(rows, IOTA, YPOGEGRAMMENI, query, c);
  }

  /** Iota matches iota with a selector, that matches the combining iota with a selector, which iota does not. */
  lemma IotaChain(rows: seq<Row>, x: Word, y: Word, z: Word)
    requires IotaRows(rows) && WordOf(rows, IOTA, x) && WordOf(rows, IOTA + VARIATION_SELECTOR, y)
    requires WordOf(rows, YPOGEGRAMMENI + VARIATION_SELECTOR, z)
    ensures Embeddable(Smart, x.characters, y.characters) && Embeddable(Smart, y.characters, z.characters)
    ensures !Embeddable(Smart, x.characters, z.characters)
  {
    IotaFolds(rows);
    TransitivityFails(rows, IOTA, YPOGEGRAMMENI, VARIATION_SELECTOR, x, y, z);
  }
}
