/** Characters: grapheme clusters in canonical form, and the smart matching of one against another. */
module Characters {
  import opened Wrappers
  import opened Sequences
  import opened Utf8
  import opened UnicodeTable
  import opened CodePoints
  import opened CanonicalOrdering
  import opened Segmentation
  import opened Normalization

  datatype Character = Character(
    normal: Bytes, base: Bytes, foldedCase: Bytes, swappedCase: Bytes,
    isBase: bool, isLetter: bool, isPunctuation: bool, isUppercase: bool)
  {
    predicate EqualsBase(other: Character) { base == other.base }

    predicate EqualsIgnoreCase(other: Character) { foldedCase == other.foldedCase }

    predicate MatchesSmart(other: Character)
    {
      (isBase && EqualsBase(other) && (!isUppercase || other.isUppercase)) ||
      (!isUppercase && EqualsIgnoreCase(other)) ||
      normal == other.normal
    }
  }

  /** Code points that a base character does without. */
  predicate Attached(c: CodePoint)
  {
    c.breakProperty in {Prepend, Extend, SpacingMark}
  }

  function Joined(s: Text, part: CodePoint -> Bytes): Bytes
  {
    Flatten(Pick(s, part))
  }

  function BasePart(c: CodePoint): Bytes { if Attached(c) then [] else c.foldedCase }

  function FoldedPart(c: CodePoint): Bytes { c.foldedCase }

  function SwappedPart(c: CodePoint): Bytes { c.swappedCase }

  /** The character made of a canonically ordered cluster. */
  function Assemble(s: Text): Character
  {
    Character(
      NormalForm(s), Joined(s, BasePart), Joined(s, FoldedPart), Joined(s, SwappedPart),
      forall c :: c in s ==> !Attached(c),
      exists c :: c in s && c.isLetter,
      exists c :: c in s && c.isPunctuation,
      exists c :: c in s && c.isUppercase)
  }

  lemma JoinedSnoc(s: Text, c: CodePoint, part: CodePoint -> Bytes)
    ensures Joined(s + [c], part) == Joined(s, part) + part(c)
  {
    assert Pick(s + [c], part) == Pick(s, part) + [part(c)];
    FlattenSnoc(Pick(s, part), part(c));
  }

  /** One turn of the constructor's loop. */
  function Appended(r: Character, c: CodePoint): Character
  {
    Character(
      r.normal + c.normal, r.base + BasePart(c), r.foldedCase + c.foldedCase, r.swappedCase + c.swappedCase,
      r.isBase && !Attached(c), r.isLetter || c.isLetter, r.isPunctuation || c.isPunctuation,
      r.isUppercase || c.isUppercase)
  }

  lemma AssembleSnoc(s: Text, c: CodePoint)
    ensures Assemble(s + [c]) == Appended(Assemble(s), c)
  {
    NormalFormConcat(s, [c]);
    NormalFormOne(c);
    JoinedSnoc(s, c, BasePart);
    JoinedSnoc(s, c, FoldedPart);
    JoinedSnoc(s, c, SwappedPart);
    assert forall d :: d in s + [c] <==> d in s || d == c;
  }

  /** c is what the constructor may build from a cluster; an unstable sort can leave it more than one choice. */
  ghost predicate BuiltFrom(rows: seq<Row>, cluster: Bytes, c: Character)
  {
    Split(cluster).Success? &&
    exists s :: CanonicallyOrders(MakeCodePoints(rows, Split(cluster).value), s) && c == Assemble(s)
  }

  /** Every field of an assembled character, written out: the base leaves out the folds of code points of class Prepend,
      Extend or SpacingMark, and the base flag says that there are none. */
  lemma AssembledFields(s: Text)
    ensures var a := Assemble(s);
      && a.normal == Flatten(seq(|s|, i requires 0 <= i < |s| => s[i].normal))
      && a.base == Flatten(seq(|s|, i requires 0 <= i < |s| =>
           if s[i].breakProperty in {Prepend, Extend, SpacingMark} then [] else s[i].foldedCase))
      && a.foldedCase == Flatten(seq(|s|, i requires 0 <= i < |s| => s[i].foldedCase))
      && a.swappedCase == Flatten(seq(|s|, i requires 0 <= i < |s| => s[i].swappedCase))
      && (a.isBase <==> forall i :: 0 <= i < |s| ==> s[i].breakProperty !in {Prepend, Extend, SpacingMark})
      && (a.isLetter <==> exists i :: 0 <= i < |s| && s[i].isLetter)
      && (a.isPunctuation <==> exists i :: 0 <= i < |s| && s[i].isPunctuation)
      && (a.isUppercase <==> exists i :: 0 <= i < |s| && s[i].isUppercase)
  {
    assert Normals(s) == seq(|s|, i requires 0 <= i < |s| => s[i].normal);
    assert Pick(s, BasePart) == seq(|s|, i requires 0 <= i < |s| =>
      if s[i].breakProperty in {Prepend, Extend, SpacingMark} then [] else s[i].foldedCase);
    assert Pick(s, FoldedPart) == seq(|s|, i requires 0 <= i < |s| => s[i].foldedCase);
    assert Pick(s, SwappedPart) == seq(|s|, i requires 0 <= i < |s| => s[i].swappedCase);
    assert forall i :: 0 <= i < |s| ==> s[i] in s;
  }

  /** So the fields of a built character are those of the code points of its cluster in some canonical ordering. */
  lemma BuiltFields(rows: seq<Row>, cluster: Bytes, c: Character) returns (s: Text)
    requires BuiltFrom(rows, cluster, c)
    ensures CanonicallyOrders(MakeCodePoints(rows, Split(cluster).value), s)
    ensures c.normal == Flatten(seq(|s|, i requires 0 <= i < |s| => s[i].normal))
    ensures c.base == Flatten(seq(|s|, i requires 0 <= i < |s| =>
      if s[i].breakProperty in {Prepend, Extend, SpacingMark} then [] else s[i].foldedCase))
    ensures c.foldedCase == Flatten(seq(|s|, i requires 0 <= i < |s| => s[i].foldedCase))
    ensures c.swappedCase == Flatten(seq(|s|, i requires 0 <= i < |s| => s[i].swappedCase))
    ensures c.isBase <==> forall i :: 0 <= i < |s| ==> s[i].breakProperty !in {Prepend, Extend, SpacingMark}
    ensures c.isLetter <==> exists i :: 0 <= i < |s| && s[i].isLetter
    ensures c.isPunctuation <==> exists i :: 0 <= i < |s| && s[i].isPunctuation
    ensures c.isUppercase <==> exists i :: 0 <= i < |s| && s[i].isUppercase
  {
    s :| CanonicallyOrders(MakeCodePoints(rows, Split(cluster).value), s) && c == Assemble(s);
    AssembledFields(s);
  }

  method AppendCodePoint(before: Character, c: CodePoint) returns (r: Character)
    ensures r == Appended(before, c)
  {
    r := before.(normal := before.normal + c.normal,
                 foldedCase := before.foldedCase + c.foldedCase,
                 swappedCase := before.swappedCase + c.swappedCase,
                 isLetter := before.isLetter || c.isLetter,
                 isPunctuation := before.isPunctuation || c.isPunctuation,
                 isUppercase := before.isUppercase || c.isUppercase);
    if c.breakProperty in {Prepend, Extend, SpacingMark} {
      r := r.(isBase := false);
    } else {
      r := r.(base := r.base + c.foldedCase);
    }
  }

  method AppendCodePoints(s: Text) returns (r: Character)
    ensures r == Assemble(s)
  {
    r := Character([], [], [], [], true, false, false, false);
    for i := 0 to |s|
      invariant r == Assemble(s[..i])
    {
      var c := s[i];
      assert s[..i + 1] == s[..i] + [c];
      AssembleSnoc(s[..i], c);
      r := AppendCodePoint(r, c);
    }
    assert s[..|s|] == s;
  }

  method MakeCharacter(table: seq<RawCodePoint>, ghost rows: seq<Row>, cluster: Bytes)
    returns (r: Result<Character, DecodeError>)
    requires TableFor(table, rows)
    ensures r.Success? <==> Split(cluster).Success?
    ensures r.Failure? ==> r == Failure(Split(cluster).error)
    ensures r.Success? ==> BuiltFrom(rows, cluster, r.value)
  {
    var decoded := DecodeText(table, rows, cluster);
    if decoded.Failure? { return Failure(decoded.error); }
    var s := decoded.value;
    var a := new CodePoint[|s|](i requires 0 <= i < |s| => s[i]);
    assert a[..] == s;
    CanonicalSort(a);
    var character := AppendCodePoints(a[..]);
    return Success(character);
  }

  lemma OrderedMembers(s: Text, r: Text)
    requires CanonicallyOrders(s, r)
    ensures forall c :: c in r ==> c in s
  {
    assert r[..|s|] == r && s[..|s|] == s && Cut(s, |s|);
    forall c | c in r
      ensures c in s
    {
      assert c in multiset(r) && multiset(r) == multiset(s);
    }
  }

  /** In a cluster that is its own normal form, the spelling of a code point determines it. */
  lemma SettledCodePoints(rows: seq<Row>, cluster: Bytes, r: Text)
    requires Settled(rows, cluster) && CanonicallyOrders(MakeCodePoints(rows, Split(cluster).value), r)
    ensures forall i :: 0 <= i < |r| ==> WellLed(r[i].normal) && r[i] == MakeCodePoint(Lookup(rows, r[i].normal))
  {
    var pieces := Split(cluster).value;
    var s := MakeCodePoints(rows, pieces);
    OrderedMembers(s, r);
    forall i | 0 <= i < |r|
      ensures WellLed(r[i].normal) && r[i] == MakeCodePoint(Lookup(rows, r[i].normal))
    {
      assert r[i] in s;
      var j :| 0 <= j < |s| && s[j] == r[i];
      assert pieces[j] in pieces && FixedPiece(rows, pieces[j]);
    }
  }

  lemma EqualNormalsEqualTexts(rows: seq<Row>, x: Bytes, y: Bytes, s: Text, t: Text)
    requires Settled(rows, x) && CanonicallyOrders(MakeCodePoints(rows, Split(x).value), s)
    requires Settled(rows, y) && CanonicallyOrders(MakeCodePoints(rows, Split(y).value), t)
    requires NormalForm(s) == NormalForm(t)
    ensures s == t
  {
    SettledCodePoints(rows, x, s);
    SettledCodePoints(rows, y, t);
    var p, q := Normals(s), Normals(t);
    Factorisation(NormalForm(s), p);
    Factorisation(NormalForm(s), q);
    assert p == q;
    assert |s| == |p| == |t|;
    forall i | 0 <= i < |s|
      ensures s[i] == t[i]
    {
      assert p[i] == s[i].normal && q[i] == t[i].normal;
    }
  }

  /** Characters of normalised clusters with equal normal forms are equal in every respect. */
  lemma EqualNormalsEqualCharacters(rows: seq<Row>, x: Bytes, y: Bytes, a: Character, b: Character)
    requires Settled(rows, x) && Settled(rows, y)
    requires BuiltFrom(rows, x, a) && BuiltFrom(rows, y, b)
    requires a.normal == b.normal
    ensures a == b
  {
    var s: Text :| CanonicallyOrders(MakeCodePoints(rows, Split(x).value), s) && a == Assemble(s);
    var t: Text :| CanonicallyOrders(MakeCodePoints(rows, Split(y).value), t) && b == Assemble(t);
    EqualNormalsEqualTexts(rows, x, y, s, t);
  }

  /** No code point folds to nothing. */
  ghost predicate FoldsNonempty(rows: seq<Row>)
  {
    forall p :: WellLed(p) ==> Lookup(rows, p).foldedCase != []
  }

  lemma {:induction false} BaseShorter(s: Text)
    requires forall i :: 0 <= i < |s| ==> s[i].foldedCase != []
    ensures var a := Assemble(s);
      |a.base| <= |a.foldedCase| && if a.isBase then a.base == a.foldedCase else |a.base| < |a.foldedCase|
  {
    if s != [] {
      var n := |s| - 1;
      BaseShorter(s[..n]);
      AssembleSnoc(s[..n], s[n]);
      assert s == s[..n] + [s[n]];
    }
  }

  /** A built character is a base character exactly when its base is its whole fold. */
  lemma BuiltBased(rows: seq<Row>, cluster: Bytes, c: Character)
    requires FoldsNonempty(rows) && BuiltFrom(rows, cluster, c)
    ensures c.isBase <==> c.base == c.foldedCase
  {
    var pieces := Split(cluster).value;
    var s := MakeCodePoints(rows, pieces);
    var r: Text :| CanonicallyOrders(s, r) && c == Assemble(r);
    Factorisation(cluster, pieces);
    OrderedMembers(s, r);
    forall i | 0 <= i < |r|
      ensures r[i].foldedCase != []
    {
      assert r[i] in s;
      var j :| 0 <= j < |s| && s[j] == r[i];
      assert pieces[j] in pieces;
    }
    BaseShorter(r);
  }

  // ----- Smart matching -----

  /** Equal folded forms share their base; equal normal forms share everything matching looks at. */
  predicate Coherent(a: Character, b: Character)
  {
    && (a.foldedCase == b.foldedCase ==> a.base == b.base && a.isBase == b.isBase)
    && (a.normal == b.normal ==> a.foldedCase == b.foldedCase && a.base == b.base &&
                                 a.isBase == b.isBase && a.isUppercase == b.isUppercase)
  }

  lemma MatchesTransitive(a: Character, b: Character, c: Character)
    requires Coherent(a, b) && Coherent(b, c)
    requires a.MatchesSmart(b) && b.MatchesSmart(c)
    ensures a.MatchesSmart(c)
  {
  }

  lemma MatchesShareBase(a: Character, b: Character)
    requires Coherent(a, b) && a.MatchesSmart(b)
    ensures a.base == b.base
  {
  }
}
