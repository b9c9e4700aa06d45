/** The generated table of code point properties and the engine's search in it. */
module UnicodeTable {
  import opened Sequences
  import opened Utf8

  datatype GraphemeBreak =
    | Other | CR | LF | Control | Extend | ZWJ | RegionalIndicator | Prepend | SpacingMark
    | L | V | T | LV | LVT | ExtPict

  datatype IndicBreak = NoIndic | Linker | Consonant | IndicExtend

  datatype RawCodePoint = RawCodePoint(
    original: Bytes, normal: Bytes, foldedCase: Bytes, swappedCase: Bytes,
    isLetter: bool, isPunctuation: bool, isUppercase: bool,
    breakProperty: GraphemeBreak, combiningClass: nat, indicBreak: IndicBreak)

  /** One code point of the Unicode Character Database with its computed properties. */
  datatype Row = Row(key: Scalar, raw: RawCodePoint)

  predicate NulFree(b: Bytes)
  {
    forall i :: 0 <= i < |b| ==> b[i] != 0
  }

  /** The database lists code points in ascending order; only U+0000 spells a NUL byte. */
  ghost predicate WellFormed(rows: seq<Row>)
  {
    && (forall i, j :: 0 <= i < j < |rows| ==> rows[i].key < rows[j].key)
    && (forall i :: 0 <= i < |rows| ==> rows[i].raw.original == Encode(rows[i].key))
    && (forall i :: 0 <= i < |rows| && rows[i].key != 0 ==>
         NulFree(rows[i].raw.normal) && NulFree(rows[i].raw.foldedCase) && NulFree(rows[i].raw.swappedCase))
  }

  /** What the engine takes a code point to be when the table does not list it. */
  function Default(text: Bytes): RawCodePoint
  {
    RawCodePoint(text, text, text, text, false, false, false, Other, 0, NoIndic)
  }

  /** The generator's condition for listing a code point. */
  predicate Listed(raw: RawCodePoint)
  {
    raw.original != raw.normal || raw.original != raw.foldedCase || raw.original != raw.swappedCase ||
    raw.isLetter || raw.isPunctuation || raw.isUppercase ||
    raw.breakProperty != Other || raw.combiningClass != 0 || raw.indicBreak != NoIndic
  }

  /** A char array read back as a C string ends at its first NUL. */
  function CString(b: Bytes): Bytes
  {
    if b == [] || b[0] == 0 then [] else [b[0]] + CString(b[1..])
  }

  function Stored(raw: RawCodePoint): RawCodePoint
  {
    raw.(original := CString(raw.original), normal := CString(raw.normal),
         foldedCase := CString(raw.foldedCase), swappedCase := CString(raw.swappedCase))
  }

  function Generated(rows: seq<Row>): seq<RawCodePoint>
  {
    if rows == [] then []
    else
      var before, last := Generated(rows[..|rows| - 1]), rows[|rows| - 1].raw;
      if Listed(last) then before + [Stored(last)] else before
  }

  method GetCodePoints(rows: seq<Row>) returns (table: seq<RawCodePoint>)
    ensures table == Generated(rows)
  {
    table := [];
    for i := 0 to |rows|
      invariant table == Generated(rows[..i])
    {
      assert rows[..i + 1][..i] == rows[..i];
      if Listed(rows[i].raw) {
        table := table + [Stored(rows[i].raw)];
      }
    }
    assert rows[..|rows|] == rows;
  }

  ghost predicate SortedTable(table: seq<RawCodePoint>)
  {
    forall i, j :: 0 <= i < j < |table| ==> LexLess(table[i].original, table[j].original)
  }

  /** r is the row spelled text, or the default where there is none. */
  ghost predicate IsRowFor(table: seq<RawCodePoint>, text: Bytes, r: RawCodePoint)
  {
    if exists i :: 0 <= i < |table| && table[i].original == text
    then r in table && r.original == text
    else r == Default(text)
  }

  method FindCodePoint(table: seq<RawCodePoint>, text: Bytes) returns (r: RawCodePoint)
    requires SortedTable(table)
    ensures IsRowFor(table, text, r)
  {
    var lo, hi := 0, |table|;
    while lo < hi
      invariant 0 <= lo <= hi <= |table|
      invariant forall i :: 0 <= i < lo ==> LexLess(table[i].original, text)
      invariant forall i :: hi <= i < |table| ==> !LexLess(table[i].original, text)
    {
      var mid := (lo + hi) / 2;
      if LexLess(table[mid].original, text) {
        forall i | 0 <= i < mid
          ensures LexLess(table[i].original, text)
        {
          LexTransitive(table[i].original, table[mid].original, text);
        }
        lo := mid + 1;
      } else {
        forall i | mid < i < |table|
          ensures !LexLess(table[i].original, text)
        {
          if LexLess(table[i].original, text) {
            LexTransitive(table[mid].original, table[i].original, text);
          }
        }
        hi := mid;
      }
    }
    LexIrreflexive(text);
    if lo < |table| && text == table[lo].original {
      return table[lo];
    }
    if lo < |table| {
      LexTotal(table[lo].original, text);
      forall i | lo < i < |table|
        ensures LexLess(text, table[i].original)
      {
        LexTransitive(text, table[lo].original, table[i].original);
      }
    }
    return Default(text);
  }

  /** The properties the whole database gives a spelling; NUL's row is never reached. */
  function Lookup(rows: seq<Row>, text: Bytes): RawCodePoint
  {
    if rows == [] then Default(text)
    else
      var last := rows[|rows| - 1];
      if last.key != 0 && last.raw.original == text then last.raw else Lookup(rows[..|rows| - 1], text)
  }

  lemma {:induction false} CStringNulFree(b: Bytes)
    requires NulFree(b)
    ensures CString(b) == b
  {
    if b != [] {
      assert forall i :: 0 <= i < |b[1..]| ==> b[1..][i] == b[i + 1];
      CStringNulFree(b[1..]);
    }
  }

  lemma EncodeNulFree(k: Scalar)
    requires k != 0
    ensures NulFree(Encode(k)) && CString(Encode(k)) == Encode(k)
  {
    CStringNulFree(Encode(k));
  }

  /** Stored rows are the listed ones, unchanged except for U+0000's, whose spelling is cut to nothing. */
  lemma StoredRow(rows: seq<Row>, i: nat)
    requires WellFormed(rows) && i < |rows|
    ensures rows[i].key != 0 ==> Stored(rows[i].raw) == rows[i].raw
    ensures rows[i].key == 0 ==> Stored(rows[i].raw).original == []
  {
    if rows[i].key != 0 {
      EncodeNulFree(rows[i].key);
      CStringNulFree(rows[i].raw.normal);
      CStringNulFree(rows[i].raw.foldedCase);
      CStringNulFree(rows[i].raw.swappedCase);
    }
  }

  /** A row is left out exactly when it says nothing but the spelling. */
  lemma ListedMeaning(raw: RawCodePoint)
    ensures !Listed(raw) <==>
      raw == RawCodePoint(
        raw.original, raw.original, raw.original, raw.original, false, false, false, Other, 0, NoIndic)
  {
  }

  lemma {:induction false} GeneratedRows(rows: seq<Row>, raw: RawCodePoint)
    ensures raw in Generated(rows) <==> exists i :: 0 <= i < |rows| && Listed(rows[i].raw) && raw == Stored(rows[i].raw)
  {
    if rows != [] {
      GeneratedRows(rows[..|rows| - 1], raw);
    }
  }

  lemma GeneratedBefore(rows: seq<Row>, n: nat, raw: RawCodePoint)
    requires WellFormed(rows) && n < |rows| && raw in Generated(rows[..n])
    ensures LexLess(raw.original, Stored(rows[n].raw).original)
  {
    GeneratedRows(rows[..n], raw);
    var j :| 0 <= j < n && raw == Stored(rows[j].raw);
    StoredRow(rows, j);
    StoredRow(rows, n);
    EncodeOrder(rows[j].key, rows[n].key);
  }

  lemma SortedSnoc(table: seq<RawCodePoint>, last: RawCodePoint)
    requires SortedTable(table) && forall raw :: raw in table ==> LexLess(raw.original, last.original)
    ensures SortedTable(table + [last])
  {
  }

  /** The generated table is sorted by spelling, so the binary search may be used on it. */
  lemma {:induction false} GeneratedSorted(rows: seq<Row>)
    requires WellFormed(rows)
    ensures SortedTable(Generated(rows))
  {
    if rows != [] {
      var n := |rows| - 1;
      GeneratedSorted(rows[..n]);
      forall raw | raw in Generated(rows[..n])
        ensures LexLess(raw.original, Stored(rows[n].raw).original)
      {
        GeneratedBefore(rows, n, raw);
      }
      SortedSnoc(Generated(rows[..n]), Stored(rows[n].raw));
    }
  }

  /** The engine's table: the one generated from the database. */
  ghost predicate TableFor(table: seq<RawCodePoint>, rows: seq<Row>)
  {
    WellFormed(rows) && table == Generated(rows)
  }

  lemma {:induction false} LookupFinds(rows: seq<Row>, text: Bytes)
    requires WellFormed(rows)
    ensures (exists i :: 0 <= i < |rows| && rows[i].key != 0 && rows[i].raw.original == text &&
               Lookup(rows, text) == rows[i].raw) ||
      ((forall i :: 0 <= i < |rows| && rows[i].key != 0 ==> rows[i].raw.original != text) &&
       Lookup(rows, text) == Default(text))
  {
    if rows != [] {
      var n := |rows| - 1;
      var front := rows[..n];
      LookupFinds(front, text);
      assert forall i :: 0 <= i < n ==> front[i] == rows[i];
      if rows[n].key != 0 && rows[n].raw.original == text {
        assert Lookup(rows, text) == rows[n].raw;
      } else {
        assert Lookup(rows, text) == Lookup(front, text);
      }
    }
  }

  /** Searching the sparse table gives every spelling the properties of the whole database. */
  lemma SparseTable(rows: seq<Row>, text: Bytes, r: RawCodePoint)
    requires WellFormed(rows) && text != []
    requires IsRowFor(Generated(rows), text, r)
    ensures r == Lookup(rows, text)
  {
    var table := Generated(rows);
    LookupFinds(rows, text);
    if exists k :: 0 <= k < |table| && table[k].original == text {
      GeneratedRows(rows, r);
      var i :| 0 <= i < |rows| && Listed(rows[i].raw) && r == Stored(rows[i].raw);
      StoredRow(rows, i);
      SameSpelling(rows, i, text);
    } else if r != Lookup(rows, text) {
      var i :| 0 <= i < |rows| && rows[i].key != 0 && rows[i].raw.original == text && Lookup(rows, text) == rows[i].raw;
      StoredRow(rows, i);
      GeneratedRows(rows, rows[i].raw);
    }
  }

  lemma SameSpelling(rows: seq<Row>, i: nat, text: Bytes)
    requires WellFormed(rows) && i < |rows| && rows[i].key != 0 && rows[i].raw.original == text
    ensures Lookup(rows, text) == rows[i].raw
  {
    LookupFinds(rows, text);
    forall j | 0 <= j < |rows| && rows[j].raw.original == text
      ensures j == i
    {
      EncodeInjective(rows[i].key, rows[j].key);
    }
  }

  /** The engine sees a code point as the database does, except a U+0000 that is not all defaults. */
  lemma TableAgreement(rows: seq<Row>, i: nat)
    requires WellFormed(rows) && i < |rows|
    ensures Lookup(rows, Encode(rows[i].key)) == rows[i].raw <==> rows[i].key != 0 || !Listed(rows[i].raw)
  {
    if rows[i].key != 0 {
      SameSpelling(rows, i, Encode(rows[i].key));
    } else {
      LookupFinds(rows, Encode(0));
      forall j | 0 <= j < |rows| && rows[j].raw.original == Encode(0)
        ensures rows[j].key == 0
      {
        EncodeInjective(rows[j].key, 0);
      }
    }
  }

  /** A code point absent from the database keeps its spelling and has no property. */
  lemma AbsentCodePoint(rows: seq<Row>, k: Scalar)
    requires WellFormed(rows) && forall i :: 0 <= i < |rows| ==> rows[i].key != k
    ensures Lookup(rows, Encode(k)) ==
      RawCodePoint(Encode(k), Encode(k), Encode(k), Encode(k), false, false, false, Other, 0, NoIndic)
  {
    LookupFinds(rows, Encode(k));
    forall j | 0 <= j < |rows| && rows[j].raw.original == Encode(k)
      ensures false
    {
      EncodeInjective(rows[j].key, k);
    }
  }
}
