/** When equal folds share their base: a condition on the code points of the texts. */
module Folding {
  import opened Sequences
  import opened Utf8
  import opened UnicodeTable
  import opened CodePoints
  import opened CanonicalOrdering
  import opened Normalization
  import opened Characters
  import opened Words

  predicate AttachedPiece(rows: seq<Row>, piece: Bytes)
  {
    Attached(MakeCodePoint(Lookup(rows, piece)))
  }

  /** A code point folds to code points, attached exactly where it is. */
  ghost predicate FoldsInPlace(rows: seq<Row>, piece: Bytes)
  {
    var fold := Lookup(rows, piece).foldedCase;
    fold != [] && Split(fold).Success? &&
    forall f :: f in Split(fold).value ==> (AttachedPiece(rows, f) <==> AttachedPiece(rows, piece))
  }

  /** So do all code points of the normalised text. */
  ghost predicate TextFoldsInPlace(rows: seq<Row>, text: Bytes)
  {
    match Normalized(rows, text)
    case Failure(_) => true
    case Success(normal) => Split(normal).Success? ==> forall p :: p in Split(normal).value ==> FoldsInPlace(rows, p)
  }

  // ----- The base read off the fold -----

  function BaseOf(rows: seq<Row>, pieces: seq<Bytes>): Bytes
  {
    if pieces == [] then []
    else (if AttachedPiece(rows, pieces[0]) then [] else pieces[0]) + BaseOf(rows, pieces[1..])
  }

  lemma {:induction false} BaseOfConcat(rows: seq<Row>, a: seq<Bytes>, b: seq<Bytes>)
    ensures BaseOf(rows, a + b) == BaseOf(rows, a) + BaseOf(rows, b)
  {
    if a == [] {
      assert a + b == b;
    } else {
      assert (a + b)[1..] == a[1..] + b;
      BaseOfConcat(rows, a[1..], b);
    }
  }

  lemma {:induction false} BaseOfUniform(rows: seq<Row>, pieces: seq<Bytes>, attached: bool)
    requires forall i :: 0 <= i < |pieces| ==> (AttachedPiece(rows, pieces[i]) <==> attached)
    ensures BaseOf(rows, pieces) == if attached then [] else Flatten(pieces)
  {
    if pieces != [] {
      BaseOfUniform(rows, pieces[1..], attached);
    }
  }

  ghost predicate Unattached(rows: seq<Row>, pieces: seq<Bytes>)
  {
    forall i :: 0 <= i < |pieces| ==> !AttachedPiece(rows, pieces[i])
  }

  /** base and flag are those read off the fold. */
  ghost predicate ReadOff(rows: seq<Row>, fold: Bytes, base: Bytes, isBase: bool)
  {
    && Split(fold).Success?
    && base == BaseOf(rows, Split(fold).value)
    && (isBase <==> Unattached(rows, Split(fold).value))
  }

  lemma PieceReadOff(rows: seq<Row>, piece: Bytes)
    requires FoldsInPlace(rows, piece)
    ensures var fold := Lookup(rows, piece).foldedCase;
      ReadOff(rows, fold, if AttachedPiece(rows, piece) then [] else fold, !AttachedPiece(rows, piece))
  {
    var fold := Lookup(rows, piece).foldedCase;
    var pieces := Split(fold).value;
    Factorisation(fold, pieces);
    assert forall i :: 0 <= i < |pieces| ==> pieces[i] in pieces;
    BaseOfUniform(rows, pieces, AttachedPiece(rows, piece));
    assert pieces != [];
  }

  lemma ReadOffConcat(rows: seq<Row>, x: Bytes, a: Bytes, f: bool, y: Bytes, b: Bytes, g: bool)
    requires ReadOff(rows, x, a, f) && ReadOff(rows, y, b, g)
    ensures ReadOff(rows, x + y, a + b, f && g)
  {
    var p, q := Split(x).value, Split(y).value;
    SplitConcat(x, y);
    BaseOfConcat(rows, p, q);
    assert forall i :: 0 <= i < |q| ==> (p + q)[|p| + i] == q[i];
    assert forall i :: 0 <= i < |p| ==> (p + q)[i] == p[i];
  }

  ghost predicate FromInPlace(rows: seq<Row>, c: CodePoint)
  {
    exists p :: FoldsInPlace(rows, p) && c == MakeCodePoint(Lookup(rows, p))
  }

  lemma {:induction false} AssembledReadOff(rows: seq<Row>, s: Text)
    requires forall i :: 0 <= i < |s| ==> FromInPlace(rows, s[i])
    ensures ReadOff(rows, Assemble(s).foldedCase, Assemble(s).base, Assemble(s).isBase)
  {
    if s != [] {
      var n := |s| - 1;
      var before, last := s[..n], s[n];
      AssembledReadOff(rows, before);
      assert s == before + [last];
      AssembleSnoc(before, last);
      var p :| FoldsInPlace(rows, p) && last == MakeCodePoint(Lookup(rows, p));
      PieceReadOff(rows, p);
      var a := Assemble(before);
      ReadOffConcat(rows, a.foldedCase, a.base, a.isBase, last.foldedCase,
                    if Attached(last) then [] else last.foldedCase, !Attached(last));
    }
  }

  // ----- Words -----

  lemma {:induction false} PieceOfWhole(spellings: seq<Bytes>, i: nat, p: Bytes)
    requires forall j :: 0 <= j < |spellings| ==> Split(spellings[j]).Success?
    requires i < |spellings| && p in Split(spellings[i]).value
    ensures Split(Flatten(spellings)).Success? && p in Split(Flatten(spellings)).value
  {
    AllSplit(spellings[1..]);
    SplitConcat(spellings[0], Flatten(spellings[1..]));
    if i > 0 {
      PieceOfWhole(spellings[1..], i - 1, p);
    }
  }

  lemma {:induction false} AllSplit(spellings: seq<Bytes>)
    requires forall j :: 0 <= j < |spellings| ==> Split(spellings[j]).Success?
    ensures Split(Flatten(spellings)).Success?
  {
    if spellings != [] {
      AllSplit(spellings[1..]);
      SplitConcat(spellings[0], Flatten(spellings[1..]));
    }
  }

  lemma BuiltReadOff(rows: seq<Row>, spelling: Bytes, c: Character)
    requires BuiltFrom(rows, spelling, c)
    requires forall p :: p in Split(spelling).value ==> FoldsInPlace(rows, p)
    ensures ReadOff(rows, c.foldedCase, c.base, c.isBase)
  {
    var pieces := Split(spelling).value;
    var s := MakeCodePoints(rows, pieces);
    var r: Text :| CanonicallyOrders(s, r) && c == Assemble(r);
    OrderedMembers(s, r);
    forall i | 0 <= i < |r|
      ensures FromInPlace(rows, r[i])
    {
      assert r[i] in s;
      var j :| 0 <= j < |s| && s[j] == r[i];
      assert pieces[j] in pieces;
    }
    AssembledReadOff(rows, r);
  }

  lemma WordReadOff(rows: seq<Row>, text: Bytes, w: Word, i: nat)
    requires ComputedNormals(rows) && WordOf(rows, text, w) && TextFoldsInPlace(rows, text) && i < |w.characters|
    ensures var c := w.characters[i]; ReadOff(rows, c.foldedCase, c.base, c.isBase)
  {
    var spellings := Spellings(rows, text);
    if text != [] { WordCharacters(rows, text); }
    AllSplit(spellings);
    forall p | p in Split(spellings[i]).value
      ensures FoldsInPlace(rows, p)
    {
      PieceOfWhole(spellings, i, p);
    }
    BuiltReadOff(rows, spellings[i], w.characters[i]);
  }

  /** Words of texts that fold in place share base and base flag wherever they share the fold. */
  lemma FoldsShareBaseInPlace(rows: seq<Row>, x: Bytes, y: Bytes, q: Word, c: Word)
    requires ComputedNormals(rows) && WordOf(rows, x, q) && WordOf(rows, y, c)
    requires TextFoldsInPlace(rows, x) && TextFoldsInPlace(rows, y)
    ensures FoldsShareBase(q.characters, c.characters)
  {
    forall a, b | a in q.characters && b in c.characters && a.foldedCase == b.foldedCase
      ensures a.base == b.base && a.isBase == b.isBase
    {
      var i :| 0 <= i < |q.characters| && q.characters[i] == a;
      var j :| 0 <= j < |c.characters| && c.characters[j] == b;
      WordReadOff(rows, x, q, i);
      WordReadOff(rows, y, c, j);
    }
  }
}
