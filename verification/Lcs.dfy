/** The longest common subsequence, computed over two rolling rows. */
module Lcs {
  import opened Embedding
  import opened Characters

  function Max(a: nat, b: nat): nat { if a < b then b else a }

  /** The entry of the full table for the first i and the first j elements. */
  function Table(a: seq<Character>, b: seq<Character>, i: nat, j: nat): nat
    requires i <= |a| && j <= |b|
    decreases i, j
  {
    if i == 0 || j == 0 then 0
    else if a[i - 1].EqualsBase(b[j - 1]) then Table(a, b, i - 1, j - 1) + 1
    else Max(Table(a, b, i, j - 1), Table(a, b, i - 1, j))
  }

  function LcsLength(a: seq<Character>, b: seq<Character>): nat
  {
    Table(a, b, |a|, |b|)
  }

  ghost predicate Increasing(f: seq<nat>, bound: nat)
  {
    (forall i :: 0 <= i < |f| ==> f[i] < bound) && (forall i, j :: 0 <= i < j < |f| ==> f[i] < f[j])
  }

  /** f and g pick, in order, positions of a and b holding characters of one base. */
  ghost predicate CommonSubsequence(a: seq<Character>, b: seq<Character>, i: nat, j: nat, f: seq<nat>, g: seq<nat>)
    requires i <= |a| && j <= |b|
  {
    && |f| == |g| && Increasing(f, i) && Increasing(g, j)
    && forall k :: 0 <= k < |f| ==> a[f[k]].base == b[g[k]].base
  }

  lemma {:induction false} TableAttained(
    a: seq<Character>, b: seq<Character>, i: nat, j: nat) returns (f: seq<nat>, g: seq<nat>)
    requires i <= |a| && j <= |b|
    ensures CommonSubsequence(a, b, i, j, f, g) && |f| == Table(a, b, i, j)
    decreases i, j
  {
    if i == 0 || j == 0 {
      f, g := [], [];
    } else if a[i - 1].EqualsBase(b[j - 1]) {
      f, g := TableAttained(a, b, i - 1, j - 1);
      f, g := f + [i - 1], g + [j - 1];
    } else if Table(a, b, i, j - 1) >= Table(a, b, i - 1, j) {
      f, g := TableAttained(a, b, i, j - 1);
    } else {
      f, g := TableAttained(a, b, i - 1, j);
    }
  }

  lemma ButLast(a: seq<Character>, b: seq<Character>, i: nat, j: nat, f: seq<nat>, g: seq<nat>)
    requires i <= |a| && j <= |b| && CommonSubsequence(a, b, i, j, f, g) && f != []
    ensures CommonSubsequence(a, b, f[|f| - 1], g[|g| - 1], f[..|f| - 1], g[..|g| - 1])
  {
  }

  lemma {:induction false} TableBounds(a: seq<Character>, b: seq<Character>, i: nat, j: nat, f: seq<nat>, g: seq<nat>)
    requires i <= |a| && j <= |b| && CommonSubsequence(a, b, i, j, f, g)
    ensures |f| <= Table(a, b, i, j)
    decreases i, j
  {
    if f != [] {
      var x, y := f[|f| - 1], g[|g| - 1];
      if a[i - 1].EqualsBase(b[j - 1]) {
        ButLast(a, b, i, j, f, g);
        TableBounds(a, b, i - 1, j - 1, f[..|f| - 1], g[..|g| - 1]);
      } else if x < i - 1 {
        TableBounds(a, b, i - 1, j, f, g);
      } else {
        assert y < j - 1;
        TableBounds(a, b, i, j - 1, f, g);
      }
    }
  }

  /** The length is the maximum over all common subsequences, here x and y: attained, and never exceeded. */
  lemma LcsIsMaximum(a: seq<Character>, b: seq<Character>, x: seq<nat>, y: seq<nat>)
    returns (f: seq<nat>, g: seq<nat>)
    requires |x| == |y|
    requires forall k :: 0 <= k < |x| ==> x[k] < |a| && y[k] < |b| && a[x[k]].base == b[y[k]].base
    requires forall j, k :: 0 <= j < k < |x| ==> x[j] < x[k] && y[j] < y[k]
    ensures |x| <= LcsLength(a, b) == |f| == |g|
    ensures forall k :: 0 <= k < |f| ==> f[k] < |a| && g[k] < |b| && a[f[k]].base == b[g[k]].base
    ensures forall j, k :: 0 <= j < k < |f| ==> f[j] < f[k] && g[j] < g[k]
  {
    f, g := TableAttained(a, b, |a|, |b|);
    TableBounds(a, b, |a|, |b|, x, y);
  }

  lemma {:induction false} TableSymmetric(a: seq<Character>, b: seq<Character>, i: nat, j: nat)
    requires i <= |a| && j <= |b|
    ensures Table(a, b, i, j) == Table(b, a, j, i)
    decreases i + j
  {
    if i != 0 && j != 0 {
      TableSymmetric(a, b, i - 1, j - 1);
      TableSymmetric(a, b, i, j - 1);
      TableSymmetric(a, b, i - 1, j);
    }
  }

  lemma {:induction false} TableAtMost(a: seq<Character>, b: seq<Character>, i: nat, j: nat)
    requires i <= |a| && j <= |b|
    ensures Table(a, b, i, j) <= i && Table(a, b, i, j) <= j
    decreases i, j
  {
    if i != 0 && j != 0 {
      TableAtMost(a, b, i - 1, j - 1);
      TableAtMost(a, b, i, j - 1);
      TableAtMost(a, b, i - 1, j);
    }
  }

  /** g picks, in order, positions of b that hold the bases of q. */
  ghost predicate FindsBases(q: seq<Character>, b: seq<Character>, g: seq<nat>)
  {
    && |g| == |q|
    && (forall i :: 0 <= i < |g| ==> g[i] < |b| && b[g[i]].base == q[i].base)
    && (forall i, j :: 0 <= i < j < |g| ==> g[i] < g[j])
  }

  /** The whole of q is matched exactly when its bases appear in b in order. */
  lemma LcsFull(q: seq<Character>, b: seq<Character>)
    ensures LcsLength(q, b) == |q| <==> exists g :: FindsBases(q, b, g)
  {
    TableAtMost(q, b, |q|, |b|);
    if LcsLength(q, b) == |q| {
      var f, g := TableAttained(q, b, |q|, |b|);
      forall i | 0 <= i < |q|
        ensures f[i] == i
      {
        IncreasingAtLeast(f, i);
      }
      assert FindsBases(q, b, g);
    }
    if g :| FindsBases(q, b, g) {
      var identity := seq(|q|, i => i);
      assert CommonSubsequence(q, b, |q|, |b|, identity, g);
      TableBounds(q, b, |q|, |b|, identity, g);
    }
  }

  /** The inner loop: row i + 1 of the table, from row i. */
  method FillRow(longer: seq<Character>, shorter: seq<Character>, i: nat, previous: array<nat>, current: array<nat>)
    requires i < |longer| && previous != current && previous.Length == current.Length == |shorter| + 1
    requires forall k :: 0 <= k <= |shorter| ==> previous[k] == Table(longer, shorter, i, k)
    requires current[0] == 0
    modifies current
    ensures forall k :: 0 <= k <= |shorter| ==> current[k] == Table(longer, shorter, i + 1, k)
  {
    for j := 0 to |shorter|
      invariant forall k :: 0 <= k <= j ==> current[k] == Table(longer, shorter, i + 1, k)
    {
      assert current[j] == Table(longer, shorter, i + 1, j);
      assert previous[j + 1] == Table(longer, shorter, i, j + 1) && previous[j] == Table(longer, shorter, i, j);
      if longer[i].EqualsBase(shorter[j]) {
        current[j + 1] := previous[j] + 1;
      } else {
        current[j + 1] := Max(current[j], previous[j + 1]);
      }
    }
  }

  /** The second inner loop. */
  method CopyRow(from: array<nat>, to: array<nat>)
    requires from != to && from.Length == to.Length > 0 && from[0] == to[0]
    modifies to
    ensures forall k :: 0 <= k < to.Length ==> to[k] == from[k]
  {
    for j := 0 to from.Length - 1
      invariant forall k :: 0 <= k <= j ==> to[k] == from[k]
    {
      to[j + 1] := from[j + 1];
    }
  }

  method LongestCommonSubsequenceLength(first: seq<Character>, second: seq<Character>) returns (length: nat)
    ensures length == LcsLength(first, second)
  {
    var longer := if |first| > |second| then first else second;
    var shorter := if |first| > |second| then second else first;
    var n := |shorter|;
    var previous := new nat[n + 1](_ => 0);
    var current := new nat[n + 1](_ => 0);
    for i := 0 to |longer|
      invariant forall k :: 0 <= k <= n ==> previous[k] == Table(longer, shorter, i, k)
      invariant forall k :: 0 <= k <= n ==> current[k] == Table(longer, shorter, i, k)
    {
      FillRow(longer, shorter, i, previous, current);
      CopyRow(current, previous);
    }
    TableSymmetric(first, second, |first|, |second|);
    return current[n];
  }
}
