/** NormalizeInput: every code point of the text replaced by its canonical decomposition. */
module Normalization {
  import opened Wrappers
  import opened Sequences
  import opened Utf8
  import opened UnicodeTable
  import opened CodePoints
  import opened Decomposition
  import opened Segmentation

  /** The rows the generator computes: one per listed code point, with its decomposition as normal form. */
  ghost predicate NormalRows(rows: seq<Row>, db: Database, rank: Scalar -> nat)
    requires Acyclic(db, rank)
  {
    && WellFormed(rows)
    && (forall k :: k in db ==> exists i :: 0 <= i < |rows| && rows[i].key == k)
    && (forall i :: 0 <= i < |rows| ==>
         var d := DecomposeList(db, rank, [rows[i].key]);
         d.Some? && rows[i].raw.normal == EncodeAll(d.value))
  }

  /** The rows come from some acyclic database in which jamo do not decompose. */
  ghost predicate ComputedNormals(rows: seq<Row>)
  {
    exists db, rank :: Acyclic(db, rank) && JamoAtomic(db) && NormalRows(rows, db, rank)
  }

  function NormalOfPieces(rows: seq<Row>, pieces: seq<Bytes>): Bytes
  {
    NormalForm(MakeCodePoints(rows, pieces))
  }

  function Normalized(rows: seq<Row>, text: Bytes): Result<Bytes, DecodeError>
  {
    match Split(text)
    case Success(pieces) => Success(NormalOfPieces(rows, pieces))
    case Failure(e) => Failure(e)
  }

  method NormalizeInput(table: seq<RawCodePoint>, ghost rows: seq<Row>, text: Bytes)
    returns (r: Result<Bytes, DecodeError>)
    requires TableFor(table, rows)
    ensures r == Normalized(rows, text)
  {
    var decoded := DecodeText(table, rows, text);
    if decoded.Failure? { return Failure(decoded.error); }
    var codePoints := decoded.value;
    var normal: Bytes := [];
    for i := 0 to |codePoints|
      invariant normal == NormalForm(codePoints[..i])
    {
      assert codePoints[..i + 1] == codePoints[..i] + [codePoints[i]];
      NormalFormConcat(codePoints[..i], [codePoints[i]]);
      NormalFormOne(codePoints[i]);
      normal := normal + codePoints[i].normal;
    }
    assert codePoints[..|codePoints|] == codePoints;
    return Success(normal);
  }

  predicate FixedPiece(rows: seq<Row>, p: Bytes)
  {
    WellLed(p) && Lookup(rows, p).normal == p
  }

  /** Cut into pieces that are their own normal forms. */
  ghost predicate Settled(rows: seq<Row>, text: Bytes)
  {
    Split(text).Success? && forall p :: p in Split(text).value ==> FixedPiece(rows, p)
  }

  lemma SettledConcat(rows: seq<Row>, a: Bytes, b: Bytes)
    requires Settled(rows, a) && Settled(rows, b)
    ensures Settled(rows, a + b)
  {
    SplitConcat(a, b);
  }

  lemma FixedPieces(rows: seq<Row>, pieces: seq<Bytes>)
    requires forall p :: p in pieces ==> FixedPiece(rows, p)
    ensures NormalOfPieces(rows, pieces) == Flatten(pieces)
  {
    var s := MakeCodePoints(rows, pieces);
    forall i | 0 <= i < |pieces|
      ensures s[i].normal == pieces[i]
    {
      assert pieces[i] in pieces;
    }
    assert Normals(s) == pieces;
  }

  lemma SettledUnchanged(rows: seq<Row>, text: Bytes)
    requires Settled(rows, text)
    ensures Normalized(rows, text) == Success(text)
  {
    Factorisation(text, Split(text).value);
    FixedPieces(rows, Split(text).value);
  }

  lemma AtomSettled(rows: seq<Row>, db: Database, rank: Scalar -> nat, d: Scalar)
    requires Acyclic(db, rank) && NormalRows(rows, db, rank) && Atomic(db, d)
    ensures FixedPiece(rows, Encode(d))
  {
    var i :| 0 <= i < |rows| && rows[i].key == d;
    AtomicListStays(db, rank, [d]);
    assert EncodePieces([d]) == [Encode(d)] == [] + [Encode(d)];
    FlattenSnoc([], Encode(d));
    if d == 0 {
      LookupFinds(rows, Encode(0));
      forall j | 0 <= j < |rows| && rows[j].raw.original == Encode(0)
        ensures rows[j].key == 0
      {
        EncodeInjective(rows[j].key, 0);
      }
    } else {
      SameSpelling(rows, i, Encode(d));
    }
  }

  /** A code point's normal form is settled, whether it comes from the table or is a default. */
  lemma NormalSettled(rows: seq<Row>, db: Database, rank: Scalar -> nat, p: Bytes)
    requires Acyclic(db, rank) && JamoAtomic(db) && NormalRows(rows, db, rank) && WellLed(p)
    ensures Settled(rows, Lookup(rows, p).normal)
  {
    LookupFinds(rows, p);
    if i :| 0 <= i < |rows| && Lookup(rows, p) == rows[i].raw {
      var ds := DecomposeList(db, rank, [rows[i].key]).value;
      ListAtomic(db, rank, [rows[i].key]);
      SplitEncodeAll(ds);
      forall j | 0 <= j < |ds|
        ensures FixedPiece(rows, EncodePieces(ds)[j])
      {
        assert ds[j] in ds;
        AtomSettled(rows, db, rank, ds[j]);
      }
    } else {
      assert [p] == [] + [p];
      FlattenSnoc([], p);
      Factorisation(p, [p]);
      assert Split(p) == Success([p]);
    }
  }

  /** A code point object the table can give. */
  ghost predicate FromTable(rows: seq<Row>, c: CodePoint)
  {
    exists p :: WellLed(p) && c == MakeCodePoint(Lookup(rows, p))
  }

  lemma SettledSnoc(rows: seq<Row>, db: Database, rank: Scalar -> nat, s: Text, c: CodePoint)
    requires Acyclic(db, rank) && JamoAtomic(db) && NormalRows(rows, db, rank)
    requires FromTable(rows, c) && Settled(rows, NormalForm(s))
    ensures Settled(rows, NormalForm(s + [c]))
  {
    var p :| WellLed(p) && c == MakeCodePoint(Lookup(rows, p));
    NormalSettled(rows, db, rank, p);
    NormalFormConcat(s, [c]);
    NormalFormOne(c);
    SettledConcat(rows, NormalForm(s), c.normal);
  }

  ghost predicate AllFromTable(rows: seq<Row>, s: Text)
  {
    forall i :: 0 <= i < |s| ==> FromTable(rows, s[i])
  }

  lemma {:induction false} NormalFormSettled(rows: seq<Row>, db: Database, rank: Scalar -> nat, s: Text, n: nat)
    requires Acyclic(db, rank) && JamoAtomic(db) && NormalRows(rows, db, rank)
    requires AllFromTable(rows, s) && n <= |s|
    ensures Settled(rows, NormalForm(s[..n]))
  {
    if n == 0 {
      assert Split(NormalForm(s[..n])) == Success([]);
    } else {
      NormalFormSettled(rows, db, rank, s, n - 1);
      SettledSnoc(rows, db, rank, s[..n - 1], s[n - 1]);
      assert s[..n] == s[..n - 1] + [s[n - 1]];
    }
  }

  lemma DecodedFromTable(rows: seq<Row>, text: Bytes)
    requires Split(text).Success?
    ensures AllFromTable(rows, MakeCodePoints(rows, Split(text).value))
  {
    var pieces := Split(text).value;
    Factorisation(text, pieces);
    forall i | 0 <= i < |pieces|
      ensures FromTable(rows, MakeCodePoints(rows, pieces)[i])
    {
      assert pieces[i] in pieces;
    }
  }

  /** Normalising twice is normalising once, on every text that decodes. */
  lemma NormalizeIdempotent(rows: seq<Row>, text: Bytes)
    requires ComputedNormals(rows) && Normalized(rows, text).Success?
    ensures Normalized(rows, Normalized(rows, text).value) == Normalized(rows, text)
  {
    var db, rank :| Acyclic(db, rank) && JamoAtomic(db) && NormalRows(rows, db, rank);
    DecodedFromTable(rows, text);
    var s := MakeCodePoints(rows, Split(text).value);
    NormalFormSettled(rows, db, rank, s, |s|);
    assert s[..|s|] == s;
    SettledUnchanged(rows, Normalized(rows, text).value);
  }

  /** The characters of a word: they concatenate to its normalised text, and each passes Character's assertion. */
  lemma WordCharacters(rows: seq<Row>, text: Bytes)
    requires ComputedNormals(rows) && text != [] && Split(text).Success?
    ensures var s := MakeCodePoints(rows, Split(text).value);
      && s != []
      && var characters := NormalForms(Clusters(s));
      && Success(Flatten(characters)) == Normalized(rows, text)
      && forall i :: 0 <= i < |characters| ==>
           Settled(rows, characters[i]) && Normalized(rows, characters[i]) == Success(characters[i])
  {
    var db, rank :| Acyclic(db, rank) && JamoAtomic(db) && NormalRows(rows, db, rank);
    var s := MakeCodePoints(rows, Split(text).value);
    Factorisation(text, Split(text).value);
    var clusters := Clusters(s);
    ClustersPartition(s);
    NormalFormsFlatten(clusters);
    assert s[..|s|] == s;
    DecodedFromTable(rows, text);
    forall i | 0 <= i < |clusters|
      ensures Settled(rows, NormalForm(clusters[i]))
      ensures Normalized(rows, NormalForm(clusters[i])) == Success(NormalForm(clusters[i]))
    {
      forall k | 0 <= k < |clusters[i]|
        ensures FromTable(rows, clusters[i][k])
      {
        ClusterMember(clusters, i, clusters[i][k]);
        var j :| 0 <= j < |s| && s[j] == clusters[i][k];
      }
      NormalFormSettled(rows, db, rank, clusters[i], |clusters[i]|);
      assert clusters[i][..|clusters[i]|] == clusters[i];
      SettledUnchanged(rows, NormalForm(clusters[i]));
    }
  }

  lemma {:induction false} NormalFormsFlatten(clusters: seq<Text>)
    ensures Flatten(NormalForms(clusters)) == NormalForm(Flatten(clusters))
  {
    if clusters != [] {
      NormalFormsFlatten(clusters[1..]);
      assert NormalForms(clusters)[1..] == NormalForms(clusters[1..]);
      NormalFormConcat(clusters[0], Flatten(clusters[1..]));
    }
  }

  lemma {:induction false} ClusterMember(clusters: seq<Text>, i: nat, c: CodePoint)
    requires i < |clusters| && c in clusters[i]
    ensures c in Flatten(clusters)
  {
    if i > 0 {
      ClusterMember(clusters[1..], i - 1, c);
    }
  }
}
