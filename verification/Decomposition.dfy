/** The generator's recursive canonical decomposition (section 3.7 of The Unicode Standard). */
module Decomposition {
  import opened Wrappers
  import opened Utf8

  /** The decomposition field of a UnicodeData line; <tagged> ones are compatibility decompositions. */
  datatype Entry = NoDecomposition | Compatibility | Canonical(parts: seq<Scalar>)

  type Database = map<Scalar, Entry>

  const HANGUL_BASE := 0xAC00
  const HANGUL_L_BASE := 0x1100
  const HANGUL_V_BASE := 0x1161
  const HANGUL_T_BASE := 0x11A7
  const HANGUL_VT_COUNT := 21 * 28
  const HANGUL_LVT_COUNT := 19 * 21 * 28

  predicate IsSyllable(k: Scalar)
  {
    HANGUL_BASE <= k < HANGUL_BASE + HANGUL_LVT_COUNT
  }

  predicate IsJamo(k: Scalar)
  {
    HANGUL_L_BASE <= k < HANGUL_L_BASE + 19 || HANGUL_V_BASE <= k < HANGUL_V_BASE + 21 ||
    HANGUL_T_BASE < k < HANGUL_T_BASE + 28
  }

  function DecomposeHangul(k: Scalar): Option<seq<Scalar>>
  {
    if !IsSyllable(k) then None
    else
      var index := k - HANGUL_BASE;
      var lv := [HANGUL_L_BASE + index / HANGUL_VT_COUNT, HANGUL_V_BASE + index % HANGUL_VT_COUNT / 28];
      Some(if index % 28 != 0 then lv + [HANGUL_T_BASE + index % 28] else lv)
  }

  /** U+AC00 to U+D7A3 decompose by arithmetic into jamo from U+1100, U+1161 and, unless it is the first, U+11A7; no
      other code point does. */
  lemma HangulMeaning(k: Scalar)
    ensures k < 0xAC00 || k > 0xD7A3 ==> DecomposeHangul(k) == None
    ensures 0xAC00 <= k <= 0xD7A3 ==>
      var lead, vowel := 0x1100 + (k - 0xAC00) / 588, 0x1161 + (k - 0xAC00) % 588 / 28;
      DecomposeHangul(k) ==
      Some(if (k - 0xAC00) % 28 == 0 then [lead, vowel] else [lead, vowel, 0x11A7 + (k - 0xAC00) % 28])
    ensures IsJamo(k) <==> 0x1100 <= k <= 0x1112 || 0x1161 <= k <= 0x1175 || 0x11A8 <= k <= 0x11C2
  {
    var x, y, z := 0x1100 + (k - 0xAC00) / 588, 0x1161 + (k - 0xAC00) % 588 / 28, 0x11A7 + (k - 0xAC00) % 28;
    assert [x, y] + [z] == [x, y, z];
  }

  /** The arithmetic composition of a syllable's jamo. */
  function ComposeHangul(jamo: seq<Scalar>): int
    requires |jamo| == 2 || |jamo| == 3
  {
    HANGUL_BASE + ((jamo[0] - HANGUL_L_BASE) * 21 + (jamo[1] - HANGUL_V_BASE)) * 28 +
    (if |jamo| == 3 then jamo[2] - HANGUL_T_BASE else 0)
  }

  /** A syllable decomposes into two or three jamo, from which it is composed again. */
  lemma HangulRoundTrip(k: Scalar)
    requires IsSyllable(k)
    ensures var jamo := DecomposeHangul(k).value;
      && (|jamo| == 2 || |jamo| == 3) && ComposeHangul(jamo) == k
      && forall d :: d in jamo ==> IsJamo(d)
  {
  }

  /** Decompositions lead to smaller ranks, so no code point decomposes into itself. */
  ghost predicate Acyclic(db: Database, rank: Scalar -> nat)
  {
    forall k, d :: k in db && db[k].Canonical? && d in db[k].parts ==> rank(d) < rank(k)
  }

  ghost predicate JamoAtomic(db: Database)
  {
    forall k :: IsJamo(k) ==> Atomic(db, k)
  }

  /** A listed code point that no rule decomposes. */
  predicate Atomic(db: Database, k: Scalar)
  {
    k in db && !IsSyllable(k) && !db[k].Canonical?
  }

  function Append(a: Option<seq<Scalar>>, b: Option<seq<Scalar>>): Option<seq<Scalar>>
  {
    if a.Some? && b.Some? then Some(a.value + b.value) else None
  }

  lemma AppendAssociative(a: Option<seq<Scalar>>, b: Option<seq<Scalar>>, c: Option<seq<Scalar>>)
    ensures Append(a, Append(b, c)) == Append(Append(a, b), c)
  {
    if a.Some? && b.Some? && c.Some? {
      assert a.value + (b.value + c.value) == (a.value + b.value) + c.value;
    }
  }

  // ----- What Decompose computes; None stands for Python's KeyError -----

  ghost function Decompose(db: Database, rank: Scalar -> nat, k: Scalar): Option<seq<Scalar>>
    requires Acyclic(db, rank)
    decreases rank(k) + 1, 0
  {
    if IsSyllable(k) then DecomposeHangul(k)
    else if k !in db then None
    else if db[k].Canonical? then DecomposeParts(db, rank, rank(k), db[k].parts)
    else Some([k])
  }

  ghost function DecomposeParts(db: Database, rank: Scalar -> nat, bound: nat, ks: seq<Scalar>): Option<seq<Scalar>>
    requires Acyclic(db, rank)
    requires forall k :: k in ks ==> rank(k) < bound
    decreases bound, |ks|
  {
    if ks == [] then Some([])
    else Append(Decompose(db, rank, ks[0]), DecomposeParts(db, rank, bound, ks[1..]))
  }

  ghost function DecomposeList(db: Database, rank: Scalar -> nat, ks: seq<Scalar>): Option<seq<Scalar>>
    requires Acyclic(db, rank)
  {
    if ks == [] then Some([])
    else Append(Decompose(db, rank, ks[0]), DecomposeList(db, rank, ks[1..]))
  }

  lemma {:induction false} PartsAreList(db: Database, rank: Scalar -> nat, bound: nat, ks: seq<Scalar>)
    requires Acyclic(db, rank)
    requires forall k :: k in ks ==> rank(k) < bound
    ensures DecomposeParts(db, rank, bound, ks) == DecomposeList(db, rank, ks)
    decreases |ks|
  {
    if ks != [] {
      PartsAreList(db, rank, bound, ks[1..]);
    }
  }

  lemma {:induction false} ListConcat(db: Database, rank: Scalar -> nat, a: seq<Scalar>, b: seq<Scalar>)
    requires Acyclic(db, rank)
    ensures DecomposeList(db, rank, a + b) == Append(DecomposeList(db, rank, a), DecomposeList(db, rank, b))
    decreases |a|
  {
    if a == [] {
      assert a + b == b;
      var rest := DecomposeList(db, rank, b);
      assert rest.Some? ==> [] + rest.value == rest.value;
    } else {
      ListConcat(db, rank, a[1..], b);
      assert (a + b)[1..] == a[1..] + b;
      AppendAssociative(Decompose(db, rank, a[0]), DecomposeList(db, rank, a[1..]), DecomposeList(db, rank, b));
    }
  }

  lemma ListOne(db: Database, rank: Scalar -> nat, k: Scalar)
    requires Acyclic(db, rank)
    ensures DecomposeList(db, rank, [k]) == Decompose(db, rank, k)
  {
    var d := Decompose(db, rank, k);
    assert [k][1..] == [];
    assert DecomposeList(db, rank, []) == Some([]);
    assert d.Some? ==> d.value + [] == d.value;
  }

  /** The recursion as written: the list is extended part by part. */
  method ComputeDecomposition(db: Database, ghost rank: Scalar -> nat, k: Scalar) returns (r: Option<seq<Scalar>>)
    requires Acyclic(db, rank)
    ensures r == Decompose(db, rank, k)
    decreases rank(k)
  {
    var hangul := DecomposeHangul(k);
    if hangul.Some? { return hangul; }
    if k !in db { return None; }
    if !db[k].Canonical? { return Some([k]); }
    var parts := db[k].parts;
    PartsAreList(db, rank, rank(k), parts);
    var decomposition: seq<Scalar> := [];
    for i := 0 to |parts|
      invariant DecomposeList(db, rank, parts[..i]) == Some(decomposition)
    {
      assert parts[..i + 1] == parts[..i] + [parts[i]];
      ListConcat(db, rank, parts[..i], [parts[i]]);
      ListOne(db, rank, parts[i]);
      var d := ComputeDecomposition(db, rank, parts[i]);
      if d.None? {
        assert parts == parts[..i + 1] + parts[i + 1..];
        ListConcat(db, rank, parts[..i + 1], parts[i + 1..]);
        return None;
      }
      decomposition := decomposition + d.value;
    }
    assert parts[..|parts|] == parts;
    return Some(decomposition);
  }

  // ----- It is the unique irreducible form -----

  ghost predicate AllAtomic(db: Database, ks: seq<Scalar>)
  {
    forall k :: k in ks ==> Atomic(db, k)
  }

  /** One rule applied to one code point: the arithmetic one or the database's. */
  function Rule(db: Database, k: Scalar): Option<seq<Scalar>>
  {
    if IsSyllable(k) then DecomposeHangul(k)
    else if k in db && db[k].Canonical? then Some(db[k].parts)
    else None
  }

  ghost predicate RewritesAt(db: Database, s: seq<Scalar>, i: nat, t: seq<Scalar>)
  {
    i < |s| && Rule(db, s[i]).Some? && t == s[..i] + Rule(db, s[i]).value + s[i + 1..]
  }

  ghost predicate Rewrites(db: Database, s: seq<Scalar>, t: seq<Scalar>)
  {
    exists i: nat :: RewritesAt(db, s, i, t)
  }

  /** A list of lists, each one rewriting step from the one before. */
  ghost predicate Derivation(db: Database, chain: seq<seq<Scalar>>)
  {
    chain != [] && forall i :: 0 <= i < |chain| - 1 ==> Rewrites(db, chain[i], chain[i + 1])
  }

  ghost predicate Reaches(db: Database, s: seq<Scalar>, t: seq<Scalar>)
  {
    exists chain :: Derivation(db, chain) && chain[0] == s && chain[|chain| - 1] == t
  }

  lemma {:induction false} AtomicListStays(db: Database, rank: Scalar -> nat, ks: seq<Scalar>)
    requires Acyclic(db, rank) && AllAtomic(db, ks)
    ensures DecomposeList(db, rank, ks) == Some(ks)
  {
    if ks != [] {
      AtomicListStays(db, rank, ks[1..]);
      assert ks[0] in ks;
      assert Decompose(db, rank, ks[0]) == Some([ks[0]]);
      assert [ks[0]] + ks[1..] == ks;
    }
  }

  lemma SyllableAtoms(db: Database, rank: Scalar -> nat, k: Scalar)
    requires Acyclic(db, rank) && JamoAtomic(db) && IsSyllable(k)
    ensures AllAtomic(db, DecomposeHangul(k).value)
    ensures DecomposeList(db, rank, DecomposeHangul(k).value) == DecomposeHangul(k)
  {
    HangulRoundTrip(k);
    AtomicListStays(db, rank, DecomposeHangul(k).value);
  }

  /** Decompose leaves nothing to decompose. */
  lemma DecomposeAtomic(db: Database, rank: Scalar -> nat, k: Scalar)
    requires Acyclic(db, rank) && JamoAtomic(db) && Decompose(db, rank, k).Some?
    ensures AllAtomic(db, Decompose(db, rank, k).value)
    decreases rank(k), 1
  {
    if IsSyllable(k) {
      SyllableAtoms(db, rank, k);
    } else if db[k].Canonical? {
      PartsAtomic(db, rank, rank(k), db[k].parts);
    }
  }

  lemma {:induction false} PartsAtomic(db: Database, rank: Scalar -> nat, bound: nat, ks: seq<Scalar>)
    requires Acyclic(db, rank) && JamoAtomic(db)
    requires forall k :: k in ks ==> rank(k) < bound
    requires DecomposeParts(db, rank, bound, ks).Some?
    ensures AllAtomic(db, DecomposeParts(db, rank, bound, ks).value)
    decreases bound, 0, |ks|
  {
    if ks != [] {
      DecomposeAtomic(db, rank, ks[0]);
      PartsAtomic(db, rank, bound, ks[1..]);
    }
  }

  lemma {:induction false} ListAtomic(db: Database, rank: Scalar -> nat, ks: seq<Scalar>)
    requires Acyclic(db, rank) && JamoAtomic(db) && DecomposeList(db, rank, ks).Some?
    ensures AllAtomic(db, DecomposeList(db, rank, ks).value)
  {
    if ks != [] {
      DecomposeAtomic(db, rank, ks[0]);
      ListAtomic(db, rank, ks[1..]);
    }
  }

  lemma RuleKeepsDecomposition(db: Database, rank: Scalar -> nat, k: Scalar)
    requires Acyclic(db, rank) && JamoAtomic(db) && Rule(db, k).Some?
    ensures DecomposeList(db, rank, Rule(db, k).value) == Decompose(db, rank, k)
  {
    if IsSyllable(k) {
      SyllableAtoms(db, rank, k);
    } else {
      PartsAreList(db, rank, rank(k), db[k].parts);
    }
  }

  lemma RewritingKeepsDecomposition(
    db: Database, rank: Scalar -> nat, s: seq<Scalar>, t: seq<Scalar>)
    requires Acyclic(db, rank) && JamoAtomic(db) && Rewrites(db, s, t)
    ensures DecomposeList(db, rank, s) == DecomposeList(db, rank, t)
  {
    var i: nat :| RewritesAt(db, s, i, t);
    var parts := Rule(db, s[i]).value;
    assert s == s[..i] + [s[i]] + s[i + 1..];
    ListConcat(db, rank, s[..i] + [s[i]], s[i + 1..]);
    ListConcat(db, rank, s[..i], [s[i]]);
    ListOne(db, rank, s[i]);
    RuleKeepsDecomposition(db, rank, s[i]);
    ListConcat(db, rank, s[..i] + parts, s[i + 1..]);
    ListConcat(db, rank, s[..i], parts);
  }

  lemma {:induction false} DerivationKeepsDecomposition(db: Database, rank: Scalar -> nat, chain: seq<seq<Scalar>>)
    requires Acyclic(db, rank) && JamoAtomic(db) && Derivation(db, chain)
    ensures DecomposeList(db, rank, chain[0]) == DecomposeList(db, rank, chain[|chain| - 1])
  {
    if |chain| > 1 {
      RewritingKeepsDecomposition(db, rank, chain[0], chain[1]);
      assert forall i :: 0 <= i < |chain[1..]| ==> chain[1..][i] == chain[i + 1];
      DerivationKeepsDecomposition(db, rank, chain[1..]);
    }
  }

  lemma ContextSlices(a: seq<Scalar>, s: seq<Scalar>, b: seq<Scalar>, i: nat)
    requires i < |s|
    ensures var u := a + s + b;
      |a| + i < |u| && u[|a| + i] == s[i] && u[..|a| + i] == a + s[..i] && u[|a| + i + 1..] == s[i + 1..] + b
  {
  }

  lemma RewritesInContext(
    db: Database, a: seq<Scalar>, s: seq<Scalar>, t: seq<Scalar>, b: seq<Scalar>)
    requires Rewrites(db, s, t)
    ensures Rewrites(db, a + s + b, a + t + b)
  {
    var i: nat :| RewritesAt(db, s, i, t);
    ContextSlices(a, s, b, i);
    var parts := Rule(db, s[i]).value;
    assert a + (s[..i] + parts + s[i + 1..]) + b == (a + s[..i]) + parts + (s[i + 1..] + b);
    assert RewritesAt(db, a + s + b, |a| + i, a + t + b);
  }

  lemma ReachesInContext(
    db: Database, a: seq<Scalar>, s: seq<Scalar>, t: seq<Scalar>, b: seq<Scalar>)
    requires Reaches(db, s, t)
    ensures Reaches(db, a + s + b, a + t + b)
  {
    var chain :| Derivation(db, chain) && chain[0] == s && chain[|chain| - 1] == t;
    var wide := seq(|chain|, i requires 0 <= i < |chain| => a + chain[i] + b);
    forall i | 0 <= i < |wide| - 1
      ensures Rewrites(db, wide[i], wide[i + 1])
    {
      RewritesInContext(db, a, chain[i], chain[i + 1], b);
    }
    assert Derivation(db, wide);
  }

  lemma ReachesTransitive(db: Database, s: seq<Scalar>, t: seq<Scalar>, u: seq<Scalar>)
    requires Reaches(db, s, t) && Reaches(db, t, u)
    ensures Reaches(db, s, u)
  {
    var c :| Derivation(db, c) && c[0] == s && c[|c| - 1] == t;
    var d :| Derivation(db, d) && d[0] == t && d[|d| - 1] == u;
    var both := c + d[1..];
    forall i | 0 <= i < |both| - 1
      ensures Rewrites(db, both[i], both[i + 1])
    {
      if i >= |c| - 1 {
        assert both[i] == d[i - (|c| - 1)] && both[i + 1] == d[i - (|c| - 1) + 1];
      }
    }
    assert Derivation(db, both);
  }

  lemma ReachesSelf(db: Database, s: seq<Scalar>)
    ensures Reaches(db, s, s)
  {
    assert Derivation(db, [s]);
  }

  lemma RuleReaches(db: Database, k: Scalar)
    requires Rule(db, k).Some?
    ensures Reaches(db, [k], Rule(db, k).value)
  {
    var parts := Rule(db, k).value;
    assert [k][..0] + parts + [k][1..] == parts;
    assert RewritesAt(db, [k], 0, parts);
    assert Derivation(db, [[k], parts]);
  }

  lemma DecomposeReached(db: Database, rank: Scalar -> nat, k: Scalar)
    requires Acyclic(db, rank) && Decompose(db, rank, k).Some?
    ensures Reaches(db, [k], Decompose(db, rank, k).value)
    decreases rank(k), 1
  {
    if Rule(db, k).None? {
      ReachesSelf(db, [k]);
    } else {
      RuleReaches(db, k);
      if !IsSyllable(k) {
        PartsReached(db, rank, rank(k), db[k].parts);
        ReachesTransitive(db, [k], db[k].parts, Decompose(db, rank, k).value);
      }
    }
  }

  lemma {:induction false} PartsReached(db: Database, rank: Scalar -> nat, bound: nat, ks: seq<Scalar>)
    requires Acyclic(db, rank)
    requires forall k :: k in ks ==> rank(k) < bound
    requires DecomposeParts(db, rank, bound, ks).Some?
    ensures Reaches(db, ks, DecomposeParts(db, rank, bound, ks).value)
    decreases bound, 0, |ks|
  {
    if ks == [] {
      ReachesSelf(db, []);
    } else {
      DecomposeReached(db, rank, ks[0]);
      PartsReached(db, rank, bound, ks[1..]);
      ReachesConcat(db, [ks[0]], Decompose(db, rank, ks[0]).value,
                    ks[1..], DecomposeParts(db, rank, bound, ks[1..]).value);
      assert [ks[0]] + ks[1..] == ks;
    }
  }

  lemma ReachesConcat(db: Database, a: seq<Scalar>, a': seq<Scalar>, b: seq<Scalar>, b': seq<Scalar>)
    requires Reaches(db, a, a') && Reaches(db, b, b')
    ensures Reaches(db, a + b, a' + b')
  {
    ReachesInContext(db, [], a, a', b);
    ReachesInContext(db, a', b, b', []);
    assert [] + a + b == a + b && [] + a' + b == a' + b + [] && a' + b' + [] == a' + b';
    ReachesTransitive(db, a + b, a' + b, a' + b');
  }

  /** Decompose gives a list exactly when rewriting k leads to that list and no rule applies to it. */
  lemma DecomposeIsNormalForm(db: Database, rank: Scalar -> nat, k: Scalar, d: seq<Scalar>)
    requires Acyclic(db, rank) && JamoAtomic(db)
    ensures Decompose(db, rank, k) == Some(d) <==> AllAtomic(db, d) && Reaches(db, [k], d)
  {
    if Decompose(db, rank, k) == Some(d) {
      DecomposeAtomic(db, rank, k);
      DecomposeReached(db, rank, k);
    }
    if AllAtomic(db, d) && Reaches(db, [k], d) {
      var chain :| Derivation(db, chain) && chain[0] == [k] && chain[|chain| - 1] == d;
      DerivationKeepsDecomposition(db, rank, chain);
      ListOne(db, rank, k);
      AtomicListStays(db, rank, d);
    }
  }

  /** Decomposing a decomposition again changes nothing. */
  lemma DecomposeIdempotent(db: Database, rank: Scalar -> nat, ks: seq<Scalar>)
    requires Acyclic(db, rank) && JamoAtomic(db) && DecomposeList(db, rank, ks).Some?
    ensures DecomposeList(db, rank, DecomposeList(db, rank, ks).value) == DecomposeList(db, rank, ks)
  {
    ListAtomic(db, rank, ks);
    AtomicListStays(db, rank, DecomposeList(db, rank, ks).value);
  }
}
