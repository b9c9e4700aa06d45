/** Word boundaries read off a printable ASCII text. */
module AsciiWords {
  import opened Utf8
  import opened UnicodeTable
  import opened CodePoints
  import opened Graphemes
  import opened Cutting
  import opened Segmentation
  import opened Characters
  import opened Words
  import opened AsciiRanking
  import opened MatchingCases

  predicate Printable(b: Byte) { 0x20 <= b <= 0x7E }

  predicate Capital(b: Byte) { 0x41 <= b <= 0x5A }

  predicate Letter(b: Byte) { 0x41 <= b <= 0x5A || 0x61 <= b <= 0x7A }

  /** The ASCII code points of the general categories P: all but $ + < = > ^ ` | ~ of the signs. */
  predicate Punctuation(b: Byte)
  {
    0x21 <= b <= 0x23 || 0x25 <= b <= 0x2A || 0x2C <= b <= 0x2F || 0x3A <= b <= 0x3B || 0x3F <= b <= 0x40 ||
    0x5B <= b <= 0x5D || b == 0x5F || b == 0x7B || b == 0x7D
  }

  /** What the Unicode data says of printable ASCII. */
  ghost predicate PrintableRows(rows: seq<Row>)
  {
    AsciiRows(rows) && forall b: Byte :: Printable(b) ==>
      var raw := Lookup(rows, [b]);
      && raw.breakProperty == Other && raw.indicBreak == NoIndic
      && raw.isLetter == Letter(b) && raw.isPunctuation == Punctuation(b) && raw.isUppercase == Capital(b)
  }

  predicate AllPrintable(text: Bytes)
  {
    forall i :: 0 <= i < |text| ==> Printable(text[i])
  }

  lemma {:induction false} CutEach<T>(s: seq<T>, cuts: set<nat>, n: nat)
    requires 0 < n <= |s| && forall i :: 0 < i < n ==> i in cuts
    ensures CutAt(s, cuts, n) == seq(n, i requires 0 <= i < n => [s[i]])
  {
    if n > 1 {
      CutEach(s, cuts, n - 1);
    }
  }

  lemma BreaksEverywhere(rows: seq<Row>, text: Bytes, i: nat)
    requires PrintableRows(rows) && AllPrintable(text) && 0 < i < |text|
    ensures LoopBreaks(MakeCodePoints(rows, Singles(text)), i)
  {
    var s := MakeCodePoints(rows, Singles(text));
    assert s[i - 1] == MakeCodePoint(Lookup(rows, [text[i - 1]])) && s[i] == MakeCodePoint(Lookup(rows, [text[i]]));
    assert Printable(text[i - 1]) && Printable(text[i]);
  }

  /** Each byte is a character of its own. */
  lemma PrintableSpellings(rows: seq<Row>, text: Bytes)
    requires PrintableRows(rows) && AllPrintable(text)
    ensures Split(text).Success? && Spellings(rows, text) == Singles(text)
  {
    AsciiPieces(text);
    var s := MakeCodePoints(rows, Singles(text));
    if s != [] {
      forall i | 0 < i < |s|
        ensures i in BreakPositions(s)
      {
        BreaksEverywhere(rows, text, i);
      }
      CutEach(s, BreakPositions(s), |s|);
    }
    forall i | 0 <= i < |s|
      ensures NormalForm([s[i]]) == [text[i]]
    {
      NormalFormOne(s[i]);
      assert s[i] == MakeCodePoint(Lookup(rows, [text[i]]));
    }
  }

  lemma PrintableCharacter(rows: seq<Row>, b: Byte, c: Character)
    requires PrintableRows(rows) && Printable(b) && BuiltFrom(rows, [b], c)
    ensures c.normal == [b]
    ensures c.isLetter == Letter(b) && c.isPunctuation == Punctuation(b) && c.isUppercase == Capital(b)
  {
    FlattenTwo([b], []);
    assert MakeCodePoints(rows, [[b]]) == [MakeCodePoint(Lookup(rows, [b]))];
    BuiltOneWay(rows, [[b]], c);
    AssembleOne(MakeCodePoint(Lookup(rows, [b])));
  }

  /** characters are those of the bytes of a printable text. */
  ghost predicate SpellsBytes(text: Bytes, characters: seq<Character>)
  {
    && |characters| == |text|
    && (forall i :: 0 <= i < |text| ==> characters[i].normal == [text[i]])
    && (forall i :: 0 <= i < |text| ==> characters[i].isLetter == Letter(text[i]))
    && (forall i :: 0 <= i < |text| ==> characters[i].isPunctuation == Punctuation(text[i]))
    && (forall i :: 0 <= i < |text| ==> characters[i].isUppercase == Capital(text[i]))
  }

  lemma PrintableWord(rows: seq<Row>, text: Bytes, w: Word)
    requires PrintableRows(rows) && AllPrintable(text) && WordOf(rows, text, w)
    ensures SpellsBytes(text, w.characters)
  {
    PrintableSpellings(rows, text);
    forall i | 0 <= i < |text|
      ensures w.characters[i].normal == [text[i]] && w.characters[i].isLetter == Letter(text[i])
      ensures w.characters[i].isPunctuation == Punctuation(text[i])
      ensures w.characters[i].isUppercase == Capital(text[i])
    {
      PrintableCharacter(rows, text[i], w.characters[i]);
    }
  }

  /** chars are, in order, those of the bytes at the positions f, which are all at which a word starts: the first byte
      unless it is punctuation, each capital after a byte that is none, each letter after punctuation. */
  ghost predicate ByteStarts(text: Bytes, chars: seq<Character>, f: seq<nat>)
  {
    && |f| == |chars|
    && (forall k :: 0 <= k < |f| ==> f[k] < |text| && chars[k].normal == [text[f[k]]])
    && (forall j, k :: 0 <= j < k < |f| ==> f[j] < f[k])
    && (text != [] ==> (HoldsAt(f, 0) <==> !Punctuation(text[0])))
    && (forall i :: 0 < i < |text| ==>
         (HoldsAt(f, i) <==>
          (!Capital(text[i - 1]) && Capital(text[i])) || (Punctuation(text[i - 1]) && Letter(text[i]))))
  }

  lemma StartsInText(text: Bytes, characters: seq<Character>, chars: seq<Character>, f: seq<nat>)
    requires SpellsBytes(text, characters) && WordStarts(characters, chars, f)
    ensures ByteStarts(text, chars, f)
  {
    forall i | 0 < i < |text|
      ensures HoldsAt(f, i) <==>
        (!Capital(text[i - 1]) && Capital(text[i])) || (Punctuation(text[i - 1]) && Letter(text[i]))
    {
      assert characters[i - 1].isUppercase == Capital(text[i - 1]);
    }
  }

  /** The boundary characters of a printable ASCII candidate are those of the bytes that start a word. */
  lemma PrintableBoundaries(rows: seq<Row>, text: Bytes, c: Candidate) returns (f: seq<nat>)
    requires PrintableRows(rows) && AllPrintable(text) && CandidateOf(rows, text, c)
    ensures ByteStarts(text, c.wordBoundaryChars, f)
  {
    PrintableWord(rows, text, c.word);
    f := BoundariesListed(c.word.characters);
    StartsInText(text, c.word.characters, c.wordBoundaryChars, f);
  }

  /** Such a candidate counts as lowercase exactly when it has no capital. */
  lemma PrintableLowercase(rows: seq<Row>, text: Bytes, c: Candidate)
    requires PrintableRows(rows) && AllPrintable(text) && CandidateOf(rows, text, c)
    ensures c.textIsLowercase <==> forall i :: 0 <= i < |text| ==> !(0x41 <= text[i] <= 0x5A)
  {
    PrintableWord(rows, text, c.word);
    assert forall i :: 0 <= i < |text| ==> c.word.characters[i].isUppercase == Capital(text[i]);
  }
}
