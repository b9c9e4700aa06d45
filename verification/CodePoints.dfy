/** The engine's code point objects: a table row without its spelling. */
module CodePoints {
  import opened Wrappers
  import opened Utf8
  import opened UnicodeTable

  datatype CodePoint = CodePoint(
    normal: Bytes, foldedCase: Bytes, swappedCase: Bytes,
    isLetter: bool, isPunctuation: bool, isUppercase: bool,
    breakProperty: GraphemeBreak, combiningClass: nat, indicBreak: IndicBreak)

  type Text = seq<CodePoint>

  function MakeCodePoint(raw: RawCodePoint): CodePoint
  {
    CodePoint(raw.normal, raw.foldedCase, raw.swappedCase, raw.isLetter, raw.isPunctuation,
              raw.isUppercase, raw.breakProperty, raw.combiningClass, raw.indicBreak)
  }

  /** The code points of a cut text, as the whole database has them. */
  function MakeCodePoints(rows: seq<Row>, pieces: seq<Bytes>): (r: Text)
    ensures |r| == |pieces|
    ensures forall i :: 0 <= i < |r| ==> r[i] == MakeCodePoint(Lookup(rows, pieces[i]))
  {
    seq(|pieces|, i requires 0 <= i < |pieces| => MakeCodePoint(Lookup(rows, pieces[i])))
  }

  method FindCodePoints(table: seq<RawCodePoint>, ghost rows: seq<Row>, pieces: seq<Bytes>) returns (s: Text)
    requires TableFor(table, rows) && forall i :: 0 <= i < |pieces| ==> pieces[i] != []
    ensures s == MakeCodePoints(rows, pieces)
  {
    GeneratedSorted(rows);
    s := [];
    for i := 0 to |pieces|
      invariant |s| == i && forall j :: 0 <= j < i ==> s[j] == MakeCodePoint(Lookup(rows, pieces[j]))
    {
      var raw := FindCodePoint(table, pieces[i]);
      SparseTable(rows, pieces[i], raw);
      s := s + [MakeCodePoint(raw)];
    }
  }

  /** Decoding by search in the sparse table sees every code point as the whole database has it. */
  method DecodeText(table: seq<RawCodePoint>, ghost rows: seq<Row>, text: Bytes) returns (r: Result<Text, DecodeError>)
    requires TableFor(table, rows)
    ensures Split(text).Failure? ==> r == Failure(Split(text).error)
    ensures Split(text).Success? ==> r == Success(MakeCodePoints(rows, Split(text).value))
  {
    var pieces := BreakIntoCodePoints(text);
    if pieces.Failure? { return Failure(pieces.error); }
    Factorisation(text, pieces.value);
    assert forall i :: 0 <= i < |pieces.value| ==> pieces.value[i] in pieces.value && WellLed(pieces.value[i]);
    var decoded := FindCodePoints(table, rows, pieces.value);
    return Success(decoded);
  }

  /** Each field of a decoded code point is that of its row. */
  lemma DecodedFields(rows: seq<Row>, pieces: seq<Bytes>, i: nat)
    requires i < |pieces|
    ensures var c, raw := MakeCodePoints(rows, pieces)[i], Lookup(rows, pieces[i]);
      && c.normal == raw.normal && c.foldedCase == raw.foldedCase && c.swappedCase == raw.swappedCase
      && c.isLetter == raw.isLetter && c.isPunctuation == raw.isPunctuation && c.isUppercase == raw.isUppercase
      && c.breakProperty == raw.breakProperty && c.combiningClass == raw.combiningClass
      && c.indicBreak == raw.indicBreak
  {
  }

  // ----- One part of every code point -----

  function Pick(s: Text, part: CodePoint -> Bytes): seq<Bytes>
  {
    seq(|s|, i requires 0 <= i < |s| => part(s[i]))
  }
}
