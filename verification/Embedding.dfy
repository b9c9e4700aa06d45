/** Order-preserving matches of one list in another, under any match relation. */
module Embedding {
  import opened Wrappers

  /** f places each element of q on a matching element of c, from position `from` on, in order. */
  ghost predicate Embeds<A, B>(m: (A, B) -> bool, q: seq<A>, c: seq<B>, from: nat, f: seq<nat>)
  {
    && |f| == |q|
    && (forall i :: 0 <= i < |f| ==> from <= f[i] < |c| && m(q[i], c[f[i]]))
    && (forall i, j :: 0 <= i < j < |f| ==> f[i] < f[j])
  }

  ghost predicate Embeddable<A, B>(m: (A, B) -> bool, q: seq<A>, c: seq<B>)
  {
    exists f :: Embeds(m, q, c, 0, f)
  }

  /** The positions a scan from `from` takes, always the first that matches. */
  function Greedy<A, B>(m: (A, B) -> bool, q: seq<A>, c: seq<B>, from: nat): Option<seq<nat>>
    decreases |c| - from
  {
    if q == [] then Some([])
    else if from >= |c| then None
    else if m(q[0], c[from]) then
      match Greedy(m, q[1..], c, from + 1)
      case None => None
      case Some(rest) => Some([from] + rest)
    else Greedy(m, q, c, from + 1)
  }

  lemma {:induction false} GreedyEmbeds<A, B>(m: (A, B) -> bool, q: seq<A>, c: seq<B>, from: nat)
    requires Greedy(m, q, c, from).Some?
    ensures Embeds(m, q, c, from, Greedy(m, q, c, from).value)
    decreases |c| - from
  {
    if q != [] {
      if m(q[0], c[from]) {
        GreedyEmbeds(m, q[1..], c, from + 1);
      } else {
        GreedyEmbeds(m, q, c, from + 1);
      }
    }
  }

  lemma TailEmbeds<A, B>(m: (A, B) -> bool, q: seq<A>, c: seq<B>, from: nat, g: seq<nat>)
    requires q != [] && Embeds(m, q, c, from, g)
    ensures Embeds(m, q[1..], c, g[0] + 1, g[1..])
  {
    forall i | 0 <= i < |g[1..]|
      ensures g[0] < g[1..][i] < |c| && m(q[1..][i], c[g[1..][i]])
    {
      assert g[1..][i] == g[i + 1] && q[1..][i] == q[i + 1];
    }
  }

  lemma LaterStart<A, B>(m: (A, B) -> bool, q: seq<A>, c: seq<B>, from: nat, to: nat, g: seq<nat>)
    requires q != [] && Embeds(m, q, c, from, g) && to <= g[0]
    ensures Embeds(m, q, c, to, g)
  {
    forall i | 0 <= i < |g|
      ensures to <= g[i]
    {
      if i > 0 { assert g[0] < g[i]; }
    }
  }

  lemma EarlierStart<A, B>(m: (A, B) -> bool, q: seq<A>, c: seq<B>, from: nat, to: nat, g: seq<nat>)
    requires Embeds(m, q, c, from, g) && to <= from
    ensures Embeds(m, q, c, to, g)
  {
  }

  /** If anything embeds, the scan succeeds, and pointwise no embedding is earlier. */
  lemma {:induction false} GreedyLeast<A, B>(m: (A, B) -> bool, q: seq<A>, c: seq<B>, from: nat, g: seq<nat>)
    requires Embeds(m, q, c, from, g)
    ensures Greedy(m, q, c, from).Some? && |Greedy(m, q, c, from).value| == |q|
    ensures forall i :: 0 <= i < |q| ==> Greedy(m, q, c, from).value[i] <= g[i]
    decreases |c| - from
  {
    if q != [] {
      assert from <= g[0] < |c|;
      if m(q[0], c[from]) {
        TailEmbeds(m, q, c, from, g);
        EarlierStart(m, q[1..], c, g[0] + 1, from + 1, g[1..]);
        GreedyLeast(m, q[1..], c, from + 1, g[1..]);
      } else {
        LaterStart(m, q, c, from, from + 1, g);
        GreedyLeast(m, q, c, from + 1, g);
      }
    }
  }

  /** The scan succeeds exactly when some embedding exists. */
  lemma GreedyComplete<A, B>(m: (A, B) -> bool, q: seq<A>, c: seq<B>)
    ensures Greedy(m, q, c, 0).Some? <==> Embeddable(m, q, c)
  {
    if Greedy(m, q, c, 0).Some? {
      GreedyEmbeds(m, q, c, 0);
    }
    if f :| Embeds(m, q, c, 0, f) {
      GreedyLeast(m, q, c, 0, f);
    }
  }

  function Sum(f: seq<nat>): nat
  {
    if f == [] then 0 else Sum(f[..|f| - 1]) + f[|f| - 1]
  }

  lemma {:induction false} SumMonotone(f: seq<nat>, g: seq<nat>)
    requires |f| == |g| && forall i :: 0 <= i < |f| ==> f[i] <= g[i]
    ensures Sum(f) <= Sum(g)
  {
    if f != [] {
      SumMonotone(f[..|f| - 1], g[..|g| - 1]);
    }
  }

  /** No embedding has a smaller sum of positions than the scan's. */
  lemma GreedySumLeast<A, B>(m: (A, B) -> bool, q: seq<A>, c: seq<B>, g: seq<nat>)
    requires Embeds(m, q, c, 0, g)
    ensures Greedy(m, q, c, 0).Some? && Sum(Greedy(m, q, c, 0).value) <= Sum(g)
  {
    GreedyLeast(m, q, c, 0, g);
    GreedyEmbeds(m, q, c, 0);
    SumMonotone(Greedy(m, q, c, 0).value, g);
  }

  ghost predicate PrefixMatches<A, B>(m: (A, B) -> bool, q: seq<A>, c: seq<B>)
  {
    |q| <= |c| && forall i :: 0 <= i < |q| ==> m(q[i], c[i])
  }

  lemma {:induction false} IncreasingAtLeast(f: seq<nat>, i: nat)
    requires i < |f| && forall i, j :: 0 <= i < j < |f| ==> f[i] < f[j]
    ensures i <= f[i]
    ensures |f| - 1 - i <= f[|f| - 1] - f[i]
  {
    if i > 0 { IncreasingAtLeast(f, i - 1); }
    if i < |f| - 1 { IncreasingGap(f, i); }
  }

  lemma {:induction false} IncreasingGap(f: seq<nat>, i: nat)
    requires i < |f| && forall i, j :: 0 <= i < j < |f| ==> f[i] < f[j]
    ensures |f| - 1 - i <= f[|f| - 1] - f[i]
    decreases |f| - i
  {
    if i < |f| - 1 { IncreasingGap(f, i + 1); }
  }

  lemma TightIsIdentity(f: seq<nat>)
    requires f != [] && f[|f| - 1] == |f| - 1 && forall i, j :: 0 <= i < j < |f| ==> f[i] < f[j]
    ensures forall i :: 0 <= i < |f| ==> f[i] == i
  {
    forall i | 0 <= i < |f|
      ensures f[i] == i
    {
      IncreasingAtLeast(f, i);
    }
  }

  lemma PrefixIsTight<A, B>(m: (A, B) -> bool, q: seq<A>, c: seq<B>)
    requires q != [] && PrefixMatches(m, q, c)
    ensures Greedy(m, q, c, 0).Some? && |Greedy(m, q, c, 0).value| == |q|
    ensures Greedy(m, q, c, 0).value[|q| - 1] <= |q| - 1
  {
    var identity := seq(|q|, i => i);
    assert Embeds(m, q, c, 0, identity);
    GreedyLeast(m, q, c, 0, identity);
  }

  lemma TightMatches<A, B>(m: (A, B) -> bool, q: seq<A>, c: seq<B>, f: seq<nat>)
    requires q != [] && Embeds(m, q, c, 0, f) && f[|q| - 1] == |q| - 1
    ensures PrefixMatches(m, q, c)
  {
    TightIsIdentity(f);
    forall i | 0 <= i < |q|
      ensures i < |c| && m(q[i], c[i])
    {
      assert f[i] == i;
    }
  }

  /** The last position is |q| - 1 exactly when the query matches the candidate's first characters one by one. */
  lemma GreedyPrefix<A, B>(m: (A, B) -> bool, q: seq<A>, c: seq<B>)
    requires q != [] && Greedy(m, q, c, 0).Some?
    ensures |Greedy(m, q, c, 0).value| == |q|
    ensures Greedy(m, q, c, 0).value[|q| - 1] == |q| - 1 <==> PrefixMatches(m, q, c)
  {
    var f := Greedy(m, q, c, 0).value;
    GreedyEmbeds(m, q, c, 0);
    IncreasingAtLeast(f, |q| - 1);
    if f[|q| - 1] == |q| - 1 {
      TightMatches(m, q, c, f);
    }
    if PrefixMatches(m, q, c) {
      PrefixIsTight(m, q, c);
    }
  }

  // ----- Embedding as an order on words -----

  lemma EmbeddableReflexive<A>(m: (A, A) -> bool, q: seq<A>)
    requires forall i :: 0 <= i < |q| ==> m(q[i], q[i])
    ensures Embeddable(m, q, q)
  {
    assert Embeds(m, q, q, 0, seq(|q|, i => i));
  }

  lemma EmbeddableTransitive<A>(m: (A, A) -> bool, q: seq<A>, c: seq<A>, d: seq<A>)
    requires Embeddable(m, q, c) && Embeddable(m, c, d)
    requires forall x, y, z :: x in q && y in c && z in d && m(x, y) && m(y, z) ==> m(x, z)
    ensures Embeddable(m, q, d)
  {
    var f :| Embeds(m, q, c, 0, f);
    var g :| Embeds(m, c, d, 0, g);
    var h := seq(|f|, i requires 0 <= i < |f| => g[f[i]]);
    forall i | 0 <= i < |h|
      ensures h[i] < |d| && m(q[i], d[h[i]])
    {
      assert m(q[i], c[f[i]]) && m(c[f[i]], d[g[f[i]]]);
    }
    assert Embeds(m, q, d, 0, h);
  }

  /** What matches a longer query matches the shorter one it extends. */
  lemma ExtensionShrinks<A, B>(m: (A, B) -> bool, q: seq<A>, more: seq<A>, c: seq<B>)
    requires Embeddable(m, q + more, c)
    ensures Embeddable(m, q, c)
  {
    var f :| Embeds(m, q + more, c, 0, f);
    forall i | 0 <= i < |q|
      ensures m(q[i], c[f[..|q|][i]])
    {
      assert (q + more)[i] == q[i];
    }
    assert Embeds(m, q, c, 0, f[..|q|]);
  }
}
