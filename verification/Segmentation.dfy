/** Cutting a list at a set of positions. */
module Cutting {
  import opened Sequences

  /** s[..n] cut at the positions in cuts. */
  ghost function CutAt<T>(s: seq<T>, cuts: set<nat>, n: nat): (r: seq<seq<T>>)
    requires 0 < n <= |s|
    ensures r != []
  {
    if n == 1 then [[s[0]]]
    else
      var before := CutAt(s, cuts, n - 1);
      if n - 1 in cuts then before + [[s[n - 1]]]
      else before[..|before| - 1] + [before[|before| - 1] + [s[n - 1]]]
  }

  lemma CutNext<T>(s: seq<T>, cuts: set<nat>, n: nat, closed: seq<seq<T>>, open: seq<T>)
    requires 0 < n < |s| && CutAt(s, cuts, n) == closed + [open]
    ensures CutAt(s, cuts, n + 1) == if n in cuts then closed + [open] + [[s[n]]] else closed + [open + [s[n]]]
  {
    assert (closed + [open])[..|closed|] == closed;
  }

  /** No piece is empty. */
  lemma {:induction false} PiecesNonempty<T>(s: seq<T>, cuts: set<nat>, n: nat)
    requires 0 < n <= |s|
    ensures forall j :: 0 <= j < |CutAt(s, cuts, n)| ==> CutAt(s, cuts, n)[j] != []
  {
    if n > 1 {
      PiecesNonempty(s, cuts, n - 1);
    }
  }

  lemma CutNextFlat<T>(s: seq<T>, cuts: set<nat>, n: nat)
    requires 0 < n < |s|
    ensures Flatten(CutAt(s, cuts, n + 1)) == Flatten(CutAt(s, cuts, n)) + [s[n]]
  {
    var before := CutAt(s, cuts, n);
    var closed, open := before[..|before| - 1], before[|before| - 1];
    assert before == closed + [open];
    CutNext(s, cuts, n, closed, open);
    if n in cuts {
      FlattenSnoc(before, [s[n]]);
    } else {
      FlattenExtendLast(closed, open, [s[n]]);
    }
  }

  /** The pieces concatenate to the list. */
  lemma {:induction false} PiecesConcatenate<T>(s: seq<T>, cuts: set<nat>, n: nat)
    requires 0 < n <= |s|
    ensures Flatten(CutAt(s, cuts, n)) == s[..n]
  {
    if n == 1 {
      FlattenSnoc([], [s[0]]);
      assert [[s[0]]] == [] + [[s[0]]];
    } else {
      PiecesConcatenate(s, cuts, n - 1);
      CutNextFlat(s, cuts, n - 1);
      assert s[..n] == s[..n - 1] + [s[n - 1]];
    }
  }

  /** Some piece but the first begins at i. */
  ghost predicate PieceStartsAt<T>(pieces: seq<seq<T>>, i: nat)
  {
    exists j :: 0 < j < |pieces| && |Flatten(pieces[..j])| == i
  }

  /** A piece begins exactly at each cut. */
  lemma {:induction false} PieceEdges<T>(s: seq<T>, cuts: set<nat>, n: nat, i: nat)
    requires 0 < n <= |s| && 0 < i < n
    ensures PieceStartsAt(CutAt(s, cuts, n), i) <==> i in cuts
  {
    var before, after := CutAt(s, cuts, n - 1), CutAt(s, cuts, n);
    var m := |before|;
    SamePrefixes(s, cuts, n);
    if i < n - 1 {
      PieceEdges(s, cuts, n - 1, i);
    }
    if n - 1 in cuts {
      PiecesConcatenate(s, cuts, n - 1);
      assert after[..m] == before;
    }
  }

  lemma SamePrefixes<T>(s: seq<T>, cuts: set<nat>, n: nat)
    requires 1 < n <= |s|
    ensures var before, after := CutAt(s, cuts, n - 1), CutAt(s, cuts, n);
      && |before| <= |after| <= |before| + 1
      && forall j :: 0 < j < |before| ==> after[..j] == before[..j] && |Flatten(before[..j])| < n - 1
  {
    var before, after := CutAt(s, cuts, n - 1), CutAt(s, cuts, n);
    forall j | 0 < j < |before|
      ensures after[..j] == before[..j] && |Flatten(before[..j])| < n - 1
    {
      PiecePrefix(s, cuts, n - 1, j);
    }
  }

  lemma PiecePrefix<T>(s: seq<T>, cuts: set<nat>, n: nat, j: nat)
    requires 0 < n <= |s| && 0 < j < |CutAt(s, cuts, n)|
    ensures |Flatten(CutAt(s, cuts, n)[..j])| < n
  {
    PiecesConcatenate(s, cuts, n);
    PiecesNonempty(s, cuts, n);
    FlattenSplit(CutAt(s, cuts, n), j);
  }

  lemma FlattenSplit<T>(all: seq<seq<T>>, j: nat)
    requires j < |all|
    ensures |Flatten(all)| == |Flatten(all[..j])| + |all[j]| + |Flatten(all[j + 1..])|
  {
    assert all == all[..j] + all[j..];
    FlattenConcat(all[..j], all[j..]);
    assert all[j..][1..] == all[j + 1..];
  }
}

/** The engine's cutting of a text into the normalised spellings of its characters. */
module Segmentation {
  import opened Sequences
  import opened Utf8
  import opened CodePoints
  import opened Graphemes
  import opened Cutting

  ghost function BreakPositions(s: Text): set<nat>
  {
    set i: nat | 0 < i < |s| && LoopBreaks(s, i)
  }

  /** The text cut where the loop breaks. */
  ghost function Clusters(s: Text): seq<Text>
  {
    if s == [] then [] else CutAt(s, BreakPositions(s), |s|)
  }

  /** The clusters are nonempty, concatenate to the text, and begin exactly where the loop breaks. */
  lemma ClustersPartition(s: Text)
    ensures Flatten(Clusters(s)) == s
    ensures forall j :: 0 <= j < |Clusters(s)| ==> Clusters(s)[j] != []
    ensures forall i :: 0 < i < |s| ==> (PieceStartsAt(Clusters(s), i) <==> LoopBreaks(s, i))
  {
    if s != [] {
      PiecesConcatenate(s, BreakPositions(s), |s|);
      PiecesNonempty(s, BreakPositions(s), |s|);
      assert s[..|s|] == s;
      forall i | 0 < i < |s|
        ensures PieceStartsAt(Clusters(s), i) <==> LoopBreaks(s, i)
      {
        PieceEdges(s, BreakPositions(s), |s|, i);
      }
    }
  }

  /** Where every joiner ends its run of extenders, they begin exactly where UAX #29 breaks. */
  lemma ClustersAreGraphemes(s: Text)
    requires JoinersEndRuns(s)
    ensures forall i :: 0 < i < |s| ==> (PieceStartsAt(Clusters(s), i) <==> Break(s, i))
  {
    ClustersPartition(s);
    forall i | 0 < i < |s|
      ensures LoopBreaks(s, i) <==> Break(s, i)
    {
      LoopMeetsRules(s, i);
    }
  }

  function NormalPart(c: CodePoint): Bytes { c.normal }

  function Normals(s: Text): (r: seq<Bytes>)
    ensures |r| == |s| && forall i :: 0 <= i < |s| ==> r[i] == s[i].normal
  {
    Pick(s, NormalPart)
  }

  function NormalForm(s: Text): Bytes
  {
    Flatten(Normals(s))
  }

  ghost function NormalForms(clusters: seq<Text>): seq<Bytes>
  {
    seq(|clusters|, i requires 0 <= i < |clusters| => NormalForm(clusters[i]))
  }

  lemma NormalFormConcat(a: Text, b: Text)
    ensures NormalForm(a + b) == NormalForm(a) + NormalForm(b)
  {
    assert Normals(a + b) == Normals(a) + Normals(b);
    FlattenConcat(Normals(a), Normals(b));
  }

  lemma NormalFormOne(c: CodePoint)
    ensures NormalForm([c]) == c.normal
  {
    assert Normals([c]) == [] + [c.normal];
    FlattenSnoc([], c.normal);
  }

  /** What the loop has built of s[..n]: the closed characters and the one still growing. */
  ghost predicate BuiltUpTo(s: Text, n: nat, closed: seq<Text>, open: Text, characters: seq<Bytes>, character: Bytes)
  {
    && 0 < n <= |s| && CutAt(s, BreakPositions(s), n) == closed + [open]
    && characters == NormalForms(closed) && character == NormalForm(open)
  }

  lemma FirstCharacter(s: Text)
    requires s != []
    ensures FlagsAt(s, 0, Flags(false, false, false, false))
    ensures BuiltUpTo(s, 1, [], [s[0]], [], s[0].normal)
  {
    NormalFormOne(s[0]);
    assert [] + [[s[0]]] == [[s[0]]];
  }

  lemma LastCharacter(
    s: Text, closed: seq<Text>, open: Text, characters: seq<Bytes>, character: Bytes)
    requires s != [] && BuiltUpTo(s, |s|, closed, open, characters, character)
    ensures characters + [character] == NormalForms(Clusters(s))
  {
    assert NormalForms(closed + [open]) == NormalForms(closed) + [NormalForm(open)];
  }

  lemma CloseCharacter(
    s: Text, n: nat, closed: seq<Text>, open: Text, characters: seq<Bytes>, character: Bytes)
    requires n < |s| && BuiltUpTo(s, n, closed, open, characters, character) && LoopBreaks(s, n)
    ensures BuiltUpTo(s, n + 1, closed + [open], [s[n]], characters + [character], s[n].normal)
  {
    CutNext(s, BreakPositions(s), n, closed, open);
    NormalFormOne(s[n]);
  }

  lemma ExtendCharacter(
    s: Text, n: nat, closed: seq<Text>, open: Text, characters: seq<Bytes>, character: Bytes)
    requires n < |s| && BuiltUpTo(s, n, closed, open, characters, character) && !LoopBreaks(s, n)
    ensures BuiltUpTo(s, n + 1, closed, open + [s[n]], characters, character + s[n].normal)
  {
    CutNext(s, BreakPositions(s), n, closed, open);
    NormalFormConcat(open, [s[n]]);
    NormalFormOne(s[n]);
  }

  /** Both break tests between s[i-1] and s[i], with the flags they leave. */
  method TestBreak(s: Text, i: nat, f: Flags) returns (allowed: bool, next: Flags)
    requires ConsistentProperties(s) && 0 < i < |s| && FlagsAt(s, i - 1, f)
    ensures FlagsAt(s, i, next)
    ensures allowed <==> LoopBreaks(s, i)
  {
    LoopStep(s, i - 1, f);
    var g := GraphemeBreakAllowed(s[i - 1].breakProperty, s[i].breakProperty, f.withinEmoji, f.riOdd);
    var c := IndicConjunctBreakAllowed(s[i - 1].indicBreak, s[i].indicBreak, f.withinIndic, f.seenLinker);
    return g.allowed && c.allowed, Flags(g.withinEmoji, g.riOdd, c.within, c.seenLinker);
  }

  /** The loop: all characters but the last, and that one. */
  method ScanCharacters(s: Text)
    returns (characters: seq<Bytes>, character: Bytes, ghost closed: seq<Text>, ghost open: Text)
    requires ConsistentProperties(s) && s != []
    ensures BuiltUpTo(s, |s|, closed, open, characters, character)
  {
    characters, character := [], s[0].normal;
    closed, open := [], [s[0]];
    FirstCharacter(s);
    var flags := Flags(false, false, false, false);
    var i := 1;
    while i < |s|
      invariant 1 <= i <= |s|
      invariant FlagsAt(s, i - 1, flags)
      invariant BuiltUpTo(s, i, closed, open, characters, character)
    {
      var allowed;
      allowed, flags := TestBreak(s, i, flags);
      if allowed {
        CloseCharacter(s, i, closed, open, characters, character);
        characters := characters + [character];
        character := s[i].normal;
        closed, open := closed + [open], [s[i]];
      } else {
        ExtendCharacter(s, i, closed, open, characters, character);
        character := character + s[i].normal;
        open := open + [s[i]];
      }
      i := i + 1;
    }
  }

  method BreakCodePointsIntoCharacters(s: Text) returns (characters: seq<Bytes>)
    requires ConsistentProperties(s)
    ensures characters == NormalForms(Clusters(s))
  {
    if s == [] { return []; }
    if |s| == 1 {
      FirstCharacter(s);
      LastCharacter(s, [], [s[0]], [], s[0].normal);
      return [s[0].normal];
    }
    var character: Bytes;
    ghost var closed, open;
    characters, character, closed, open := ScanCharacters(s);
    LastCharacter(s, closed, open, characters, character);
    characters := characters + [character];
  }
}
