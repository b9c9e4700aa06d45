/** The Canonical Ordering Algorithm (section 3.11 of The Unicode Standard, D108 and D109). */
module CanonicalOrdering {
  import opened Sequences
  import opened CodePoints

  predicate Starter(c: CodePoint) { c.combiningClass == 0 }

  /** D108: the pair at i is out of canonical order. */
  predicate ReorderablePair(s: Text, i: nat)
    requires i + 1 < |s|
  {
    s[i].combiningClass > s[i + 1].combiningClass > 0
  }

  /** No run of non-starters crosses position i. */
  predicate Cut(s: Text, i: nat)
    requires i <= |s|
  {
    i == 0 || i == |s| || Starter(s[i - 1]) || Starter(s[i])
  }

  /** What the standard asks of a canonical ordering r of s: starters stay, runs are permuted, no pair is
      reorderable. */
  ghost predicate CanonicallyOrders(s: Text, r: Text)
  {
    && |r| == |s|
    && (forall i :: 0 <= i < |s| && Starter(s[i]) ==> r[i] == s[i])
    && (forall i :: 0 <= i <= |s| && Cut(s, i) ==> multiset(r[..i]) == multiset(s[..i]))
    && (forall i :: 0 <= i < |s| - 1 ==> !ReorderablePair(r, i))
  }

  // ----- The sort, run by run in place -----

  lemma ExchangeKeepsPrefix(r: Text, p: nat, q: nat, n: nat)
    requires p < |r| && q < |r| && n <= |r| && (p < n <==> q < n)
    ensures multiset(Exchanged(r, p, q)[..n]) == multiset(r[..n])
  {
    if p < n {
      assert Exchanged(r, p, q)[..n] == Exchanged(r[..n], p, q);
    } else {
      assert Exchanged(r, p, q)[..n] == r[..n];
    }
  }

  lemma SliceExchanged(s: Text, lo: nat, hi: nat, i: nat, j: nat)
    requires lo <= i < hi <= |s| && lo <= j < hi
    ensures Exchanged(s, i, j)[..lo] == s[..lo] && Exchanged(s, i, j)[hi..] == s[hi..]
    ensures Exchanged(s, i, j)[lo..hi] == Exchanged(s[lo..hi], i - lo, j - lo)
  {
  }

  lemma SliceMultiset(s: Text, lo: nat, hi: nat)
    requires lo <= hi <= |s|
    ensures multiset(s[..hi]) == multiset(s[..lo]) + multiset(s[lo..hi])
  {
    assert s[..hi] == s[..lo] + s[lo..hi];
  }

  ghost predicate SortedByClass(s: Text)
  {
    forall i, j :: 0 <= i < j < |s| ==> s[i].combiningClass <= s[j].combiningClass
  }

  /** The first n elements are in place: each has a class no later than any element after it. */
  ghost predicate SelectedUpTo(s: Text, n: nat)
  {
    forall j, k :: 0 <= j < n && j < k < |s| ==> s[j].combiningClass <= s[k].combiningClass
  }

  lemma SelectStep(s: Text, n: nat, least: nat)
    requires SelectedUpTo(s, n) && n <= least < |s|
    requires forall j :: n <= j < |s| ==> s[least].combiningClass <= s[j].combiningClass
    ensures SelectedUpTo(Exchanged(s, n, least), n + 1)
  {
  }

  /** Stands in for std::sort on a range; its contract does not promise stability. */
  method SortRange(a: array<CodePoint>, lo: nat, hi: nat)
    requires lo <= hi <= a.Length
    modifies a
    ensures a[..lo] == old(a[..lo]) && a[hi..] == old(a[hi..])
    ensures multiset(a[lo..hi]) == multiset(old(a[lo..hi]))
    ensures SortedByClass(a[lo..hi])
  {
    var i := lo;
    while i < hi
      invariant lo <= i <= hi
      invariant a[..lo] == old(a[..lo]) && a[hi..] == old(a[hi..])
      invariant multiset(a[lo..hi]) == multiset(old(a[lo..hi]))
      invariant SelectedUpTo(a[lo..hi], i - lo)
    {
      PlaceLeast(a, lo, hi, i);
      i := i + 1;
    }
  }

  method PlaceLeast(a: array<CodePoint>, lo: nat, hi: nat, i: nat)
    requires lo <= i < hi <= a.Length && SelectedUpTo(a[lo..hi], i - lo)
    modifies a
    ensures a[..lo] == old(a[..lo]) && a[hi..] == old(a[hi..])
    ensures multiset(a[lo..hi]) == multiset(old(a[lo..hi]))
    ensures SelectedUpTo(a[lo..hi], i - lo + 1)
  {
    ghost var run := a[lo..hi];
    var least := FindLeast(a, i, hi);
    forall j | i - lo <= j < hi - lo
      ensures run[least - lo].combiningClass <= run[j].combiningClass
    {
      assert run[j] == a[lo + j];
    }
    SwapWithin(a, lo, hi, i, least);
    SelectStep(run, i - lo, least - lo);
  }

  method SwapWithin(a: array<CodePoint>, lo: nat, hi: nat, i: nat, j: nat)
    requires lo <= i < hi <= a.Length && lo <= j < hi
    modifies a
    ensures a[..lo] == old(a[..lo]) && a[hi..] == old(a[hi..])
    ensures a[lo..hi] == Exchanged(old(a[lo..hi]), i - lo, j - lo)
    ensures multiset(a[lo..hi]) == multiset(old(a[lo..hi]))
  {
    ghost var before := a[..];
    a[i], a[j] := a[j], a[i];
    assert a[..] == Exchanged(before, i, j);
    SliceExchanged(before, lo, hi, i, j);
    assert before[..lo] == old(a[..lo]) && before[hi..] == old(a[hi..]) && before[lo..hi] == old(a[lo..hi]);
    assert a[..][..lo] == a[..lo] && a[..][hi..] == a[hi..] && a[..][lo..hi] == a[lo..hi];
    ExchangeKeepsAll(before[lo..hi], i - lo, j - lo);
  }

  method FindLeast(a: array<CodePoint>, lo: nat, hi: nat) returns (least: nat)
    requires lo < hi <= a.Length
    ensures lo <= least < hi
    ensures forall j :: lo <= j < hi ==> a[least].combiningClass <= a[j].combiningClass
  {
    least := lo;
    for k := lo + 1 to hi
      invariant lo <= least < hi
      invariant forall j :: lo <= j < k ==> a[least].combiningClass <= a[j].combiningClass
    {
      if a[k].combiningClass < a[least].combiningClass { least := k; }
    }
  }

  method FindFirst(a: array<CodePoint>, from: nat, starter: bool) returns (i: nat)
    requires from <= a.Length
    ensures from <= i <= a.Length
    ensures forall k :: from <= k < i ==> Starter(a[k]) != starter
    ensures i < a.Length ==> Starter(a[i]) == starter
  {
    i := from;
    while i < a.Length && Starter(a[i]) != starter
      invariant from <= i <= a.Length
      invariant forall k :: from <= k < i ==> Starter(a[k]) != starter
    {
      i := i + 1;
    }
  }

  /** CanonicallyOrders up to position n, the rest still untouched. */
  ghost predicate OrdersUpTo(s: Text, r: Text, n: nat)
  {
    && n <= |s| == |r|
    && (forall i :: 0 <= i < n && Starter(s[i]) ==> r[i] == s[i])
    && (forall i :: 0 <= i <= n && Cut(s, i) ==> multiset(r[..i]) == multiset(s[..i]))
    && (forall i :: 0 <= i < n - 1 ==> !ReorderablePair(r, i))
    && r[n..] == s[n..]
  }

  lemma RestUntouched(s: Text, r: Text, n: nat)
    requires OrdersUpTo(s, r, n)
    ensures forall k :: n <= k < |s| ==> r[k] == s[k]
  {
    assert forall k :: n <= k < |s| ==> r[k] == r[n..][k - n] && s[k] == s[n..][k - n];
  }

  lemma StartersPass(s: Text, r: Text, n: nat, m: nat)
    requires OrdersUpTo(s, r, n) && n <= m <= |s| && Cut(s, n)
    requires forall k :: n <= k < m ==> Starter(r[k])
    ensures OrdersUpTo(s, r, m) && Cut(s, m)
  {
    RestUntouched(s, r, n);
    forall i | n < i <= m
      ensures multiset(r[..i]) == multiset(s[..i])
    {
      SliceMultiset(r, n, i);
      SliceMultiset(s, n, i);
      assert r[n..i] == r[n..][..i - n] == s[n..][..i - n] == s[n..i];
    }
  }

  lemma RunSorted(s: Text, r: Text, t: Text, n: nat, m: nat)
    requires OrdersUpTo(s, r, n) && n <= m <= |s| && Cut(s, n) && (m == |s| || Starter(r[m]))
    requires forall k :: n <= k < m ==> !Starter(r[k])
    requires |t| == |s| && t[..n] == r[..n] && t[m..] == r[m..]
    requires multiset(t[n..m]) == multiset(r[n..m]) && SortedByClass(t[n..m])
    ensures OrdersUpTo(s, t, m) && Cut(s, m)
  {
    RestUntouched(s, r, n);
    assert forall k :: 0 <= k < n ==> t[k] == t[..n][k] && r[k] == r[..n][k];
    forall i | 0 <= i <= m && Cut(s, i)
      ensures multiset(t[..i]) == multiset(s[..i])
    {
      RunPrefix(s, r, t, n, m, i);
    }
    RunPairs(s, r, t, n, m);
    assert r[m..] == s[m..];
  }

  lemma RunPrefix(s: Text, r: Text, t: Text, n: nat, m: nat, i: nat)
    requires OrdersUpTo(s, r, n) && n <= m <= |s| && i <= m && Cut(s, n) && Cut(s, i)
    requires forall k :: n <= k < m ==> !Starter(r[k])
    requires |t| == |s| && t[..n] == r[..n] && multiset(t[n..m]) == multiset(r[n..m])
    ensures multiset(t[..i]) == multiset(s[..i])
  {
    if i <= n {
      assert t[..i] == t[..n][..i] && r[..i] == r[..n][..i];
    } else {
      RestUntouched(s, r, n);
      assert i == m;
      SliceMultiset(t, n, m);
      SliceMultiset(s, n, m);
      assert r[n..m] == r[n..][..m - n] == s[n..][..m - n] == s[n..m];
    }
  }

  lemma RunPairs(s: Text, r: Text, t: Text, n: nat, m: nat)
    requires OrdersUpTo(s, r, n) && n <= m <= |s| && Cut(s, n)
    requires forall k :: n <= k < m ==> !Starter(r[k])
    requires |t| == |s| && t[..n] == r[..n] && SortedByClass(t[n..m])
    ensures forall i :: 0 <= i < m - 1 ==> !ReorderablePair(t, i)
  {
    RestUntouched(s, r, n);
    assert forall k :: 0 <= k < n ==> t[k] == t[..n][k] && r[k] == r[..n][k];
    var run := t[n..m];
    forall i | 0 <= i < m - 1
      ensures !ReorderablePair(t, i)
    {
      if i < n - 1 {
        assert !ReorderablePair(r, i);
        assert t[i] == r[i] && t[i + 1] == r[i + 1];
      } else if i == n - 1 {
        assert s[n] == r[n] && Starter(s[i]) && t[i] == r[i] == s[i];
      } else {
        assert run[i - n] == t[i] && run[i + 1 - n] == t[i + 1];
      }
    }
  }

  method CanonicalSort(a: array<CodePoint>)
    modifies a
    ensures CanonicallyOrders(old(a[..]), a[..])
    ensures forall i :: 0 <= i < a.Length && old(a[i]).combiningClass == 0 ==> a[i] == old(a[i])
    ensures forall i :: 0 <= i < a.Length - 1 ==> !(a[i].combiningClass > a[i + 1].combiningClass > 0)
    ensures forall i :: 0 < i < a.Length && (old(a[i - 1]).combiningClass == 0 || old(a[i]).combiningClass == 0) ==>
      multiset(a[..i]) == multiset(old(a[..i]))
    ensures multiset(a[..]) == multiset(old(a[..]))
  {
    ghost var s := a[..];
    var start := 0;
    while start != a.Length
      invariant 0 <= start <= a.Length
      invariant OrdersUpTo(s, a[..], start) && Cut(s, start)
    {
      ghost var r := a[..];
      ghost var from := start;
      start := FindFirst(a, start, false);
      var end := FindFirst(a, start, true);
      StartersPass(s, r, from, start);
      SortRange(a, start, end);
      RunSorted(s, r, a[..], start, end);
      start := end;
    }
    SortedFields(s, a[..]);
    assert forall i :: 0 <= i <= a.Length ==> a[..][..i] == a[..i] && s[..i] == old(a[..i]);
  }

  lemma SortedFields(s: Text, r: Text)
    requires CanonicallyOrders(s, r)
    ensures forall i :: 0 <= i < |s| && s[i].combiningClass == 0 ==> r[i] == s[i]
    ensures forall i :: 0 <= i < |r| - 1 ==> !(r[i].combiningClass > r[i + 1].combiningClass > 0)
    ensures forall i :: 0 < i < |s| && (s[i - 1].combiningClass == 0 || s[i].combiningClass == 0) ==>
      multiset(r[..i]) == multiset(s[..i])
    ensures multiset(r) == multiset(s)
  {
    forall i | 0 <= i < |r| - 1
      ensures !(r[i].combiningClass > r[i + 1].combiningClass > 0)
    {
      assert !ReorderablePair(r, i);
    }
    assert Cut(s, |s|) && r[..|s|] == r && s[..|s|] == s;
  }

  // ----- When the result is determined -----

  /** Positions i and j with no starter from one to the other. */
  predicate SameRun(s: Text, i: nat, j: nat)
    requires i <= j < |s|
  {
    forall k :: i <= k <= j ==> !Starter(s[k])
  }

  /** Distinct code points of one run have distinct classes. */
  ghost predicate Unambiguous(s: Text)
  {
    forall i, j :: 0 <= i < j < |s| && SameRun(s, i, j) && s[i].combiningClass == s[j].combiningClass ==> s[i] == s[j]
  }

  lemma RunAround(s: Text, i: nat) returns (lo: nat, hi: nat)
    requires i < |s| && !Starter(s[i])
    ensures lo <= i < hi <= |s| && Cut(s, lo) && Cut(s, hi)
    ensures forall k :: lo <= k < hi ==> !Starter(s[k])
    ensures forall j :: i <= j < |s| && SameRun(s, i, j) ==> j < hi
  {
    lo, hi := i, i + 1;
    while lo > 0 && !Starter(s[lo - 1])
      invariant lo <= i
      invariant forall k :: lo <= k <= i ==> !Starter(s[k])
    {
      lo := lo - 1;
    }
    while hi < |s| && !Starter(s[hi])
      invariant i < hi <= |s|
      invariant forall k :: i <= k < hi ==> !Starter(s[k])
    {
      hi := hi + 1;
    }
  }

  lemma Cancel(a: multiset<CodePoint>, x: multiset<CodePoint>, y: multiset<CodePoint>)
    requires a + x == a + y
    ensures x == y
  {
    assert x == (a + x) - a;
    assert y == (a + y) - a;
  }

  lemma RunPermuted(s: Text, r: Text, lo: nat, hi: nat)
    requires CanonicallyOrders(s, r) && lo < hi <= |s| && Cut(s, lo) && Cut(s, hi)
    requires forall k :: lo <= k < hi ==> !Starter(s[k])
    ensures multiset(r[lo..hi]) == multiset(s[lo..hi])
    ensures SortedByClass(r[lo..hi])
  {
    SliceMultiset(r, lo, hi);
    SliceMultiset(s, lo, hi);
    Cancel(multiset(s[..lo]), multiset(r[lo..hi]), multiset(s[lo..hi]));
    var run := r[lo..hi];
    forall k | 0 <= k < |run|
      ensures !Starter(run[k])
    {
      assert run[k] in multiset(s[lo..hi]);
    }
    forall k | 0 <= k < |run| - 1
      ensures !ReorderablePair(run, k)
    {
      assert !ReorderablePair(r, lo + k);
    }
    NeighboursSorted(run);
  }

  lemma {:induction false} NeighboursSorted(s: Text)
    requires forall i :: 0 <= i < |s| ==> !Starter(s[i])
    requires forall i :: 0 <= i < |s| - 1 ==> !ReorderablePair(s, i)
    ensures SortedByClass(s)
  {
    if |s| > 1 {
      var n := |s| - 1;
      var before := s[..n];
      forall i | 0 <= i < n - 1
        ensures !ReorderablePair(before, i)
      {
        assert !ReorderablePair(s, i);
      }
      NeighboursSorted(before);
      assert !ReorderablePair(s, n - 1);
      assert forall i :: 0 <= i < n ==> before[i] == s[i];
    }
  }

  /** Code points of one class are equal. */
  ghost predicate ClassesDetermine(x: Text)
  {
    forall i, j :: 0 <= i < |x| && 0 <= j < |x| && x[i].combiningClass == x[j].combiningClass ==> x[i] == x[j]
  }

  lemma SortedHeads(x: Text, y: Text)
    requires multiset(x) == multiset(y) && SortedByClass(x) && SortedByClass(y) && ClassesDetermine(x)
    requires x != [] && y != []
    ensures x[0] == y[0]
  {
    assert x[0] in multiset(y) && y[0] in multiset(x);
    var i :| 0 <= i < |x| && x[i] == y[0];
    var j :| 0 <= j < |y| && y[j] == x[0];
    assert x[0].combiningClass == x[i].combiningClass;
  }

  lemma TailMultiset(x: Text)
    requires x != []
    ensures multiset(x[1..]) == multiset(x) - multiset{x[0]}
  {
    assert x == [x[0]] + x[1..];
  }

  lemma HeadAndTail(x: Text, y: Text)
    requires |x| == |y| > 0 && x[0] == y[0] && x[1..] == y[1..]
    ensures x == y
  {
    forall i | 0 < i < |x|
      ensures x[i] == y[i]
    {
      assert x[1..][i - 1] == y[1..][i - 1];
    }
  }

  lemma {:induction false} SortedOnce(x: Text, y: Text)
    requires multiset(x) == multiset(y) && SortedByClass(x) && SortedByClass(y) && ClassesDetermine(x)
    ensures x == y
  {
    assert |multiset(x)| == |x| && |multiset(y)| == |y|;
    if x != [] {
      SortedHeads(x, y);
      TailMultiset(x);
      TailMultiset(y);
      SortedOnce(x[1..], y[1..]);
      HeadAndTail(x, y);
    }
  }

  lemma RunClasses(s: Text, lo: nat, hi: nat, c: CodePoint, d: CodePoint)
    requires Unambiguous(s) && lo < hi <= |s| && c in s[lo..hi] && d in s[lo..hi]
    requires forall k :: lo <= k < hi ==> !Starter(s[k])
    requires c.combiningClass == d.combiningClass
    ensures c == d
  {
    var i :| lo <= i < hi && s[i] == c;
    var j :| lo <= j < hi && s[j] == d;
    if i < j {
      assert SameRun(s, i, j);
    } else if j < i {
      assert SameRun(s, j, i);
    }
  }

  lemma RunDetermined(s: Text, r1: Text, r2: Text, lo: nat, hi: nat)
    requires CanonicallyOrders(s, r1) && CanonicallyOrders(s, r2) && Unambiguous(s)
    requires lo < hi <= |s| && Cut(s, lo) && Cut(s, hi)
    requires forall k :: lo <= k < hi ==> !Starter(s[k])
    ensures r1[lo..hi] == r2[lo..hi]
  {
    RunPermuted(s, r1, lo, hi);
    RunPermuted(s, r2, lo, hi);
    var x := r1[lo..hi];
    forall i, j | 0 <= i < |x| && 0 <= j < |x| && x[i].combiningClass == x[j].combiningClass
      ensures x[i] == x[j]
    {
      assert x[i] in multiset(s[lo..hi]) && x[j] in multiset(s[lo..hi]);
      RunClasses(s, lo, hi, x[i], x[j]);
    }
    SortedOnce(r1[lo..hi], r2[lo..hi]);
  }

  lemma OrderingDetermined(s: Text, r1: Text, r2: Text)
    requires CanonicallyOrders(s, r1) && CanonicallyOrders(s, r2) && Unambiguous(s)
    ensures r1 == r2
  {
    forall i | 0 <= i < |s|
      ensures r1[i] == r2[i]
    {
      if !Starter(s[i]) {
        var lo, hi := RunAround(s, i);
        RunDetermined(s, r1, r2, lo, hi);
        assert r1[i] == r1[lo..hi][i - lo] && r2[i] == r2[lo..hi][i - lo];
      }
    }
  }

  lemma ExchangeStillOrders(s: Text, r: Text, lo: nat, hi: nat, p: nat, q: nat)
    requires CanonicallyOrders(s, r) && lo <= p < hi && lo <= q < hi && hi <= |s|
    requires forall k :: lo <= k < hi ==> !Starter(s[k])
    requires r[p].combiningClass == r[q].combiningClass
    ensures CanonicallyOrders(s, Exchanged(r, p, q))
  {
    var other := Exchanged(r, p, q);
    forall n | 0 <= n <= |s| && Cut(s, n)
      ensures multiset(other[..n]) == multiset(r[..n])
    {
      assert n <= lo || hi <= n;
      ExchangeKeepsPrefix(r, p, q, n);
    }
    assert forall k :: 0 <= k < |s| ==> other[k].combiningClass == r[k].combiningClass;
    forall k | 0 <= k < |s| - 1
      ensures !ReorderablePair(other, k)
    {
      assert !ReorderablePair(r, k);
    }
  }

  lemma FindInRun(s: Text, r: Text, lo: nat, hi: nat, i: nat) returns (p: nat)
    requires CanonicallyOrders(s, r) && lo <= i < hi <= |s| && Cut(s, lo) && Cut(s, hi)
    requires forall k :: lo <= k < hi ==> !Starter(s[k])
    ensures lo <= p < hi && r[p] == s[i]
  {
    RunPermuted(s, r, lo, hi);
    assert s[i] == s[lo..hi][i - lo] && s[i] in multiset(r[lo..hi]);
    p :| lo <= p < hi && r[p] == s[i];
  }

  /** A run with two code points of one class leaves an unstable sort a choice. */
  lemma OrderingUndetermined(s: Text, r: Text) returns (other: Text)
    requires CanonicallyOrders(s, r) && !Unambiguous(s)
    ensures CanonicallyOrders(s, other) && other != r
  {
    var i, j :| 0 <= i < j < |s| && SameRun(s, i, j) && s[i].combiningClass == s[j].combiningClass && s[i] != s[j];
    var lo, hi := RunAround(s, i);
    var p := FindInRun(s, r, lo, hi, i);
    var q := FindInRun(s, r, lo, hi, j);
    ExchangeStillOrders(s, r, lo, hi, p, q);
    other := Exchanged(r, p, q);
    assert other[p] == s[j];
  }

  /** The result of an ordering is the only one allowed if and only if no run mixes code points of one class. */
  lemma OrderingUniqueness(s: Text, r: Text)
    requires CanonicallyOrders(s, r)
    ensures (forall other :: CanonicallyOrders(s, other) ==> other == r) <==> Unambiguous(s)
  {
    if Unambiguous(s) {
      forall other | CanonicallyOrders(s, other)
        ensures other == r
      {
        OrderingDetermined(s, other, r);
      }
    } else {
      var other := OrderingUndetermined(s, r);
    }
  }

  // ----- Canonically equivalent inputs -----

  ghost predicate SwapAt(s: Text, i: nat, t: Text)
  {
    i + 1 < |s| && !Starter(s[i]) && !Starter(s[i + 1]) &&
    s[i].combiningClass != s[i + 1].combiningClass && t == Exchanged(s, i, i + 1)
  }

  /** t is s with one reorderable pair exchanged, in either direction. */
  ghost predicate SwapStep(s: Text, t: Text)
  {
    exists i: nat :: SwapAt(s, i, t)
  }

  lemma SwapKeepsCuts(s: Text, i: nat, t: Text, n: nat)
    requires SwapAt(s, i, t) && n <= |s|
    ensures Cut(s, n) <==> Cut(t, n)
    ensures Cut(s, n) ==> multiset(s[..n]) == multiset(t[..n])
  {
    if n != i + 1 {
      ExchangeKeepsPrefix(s, i, i + 1, n);
    }
  }

  lemma SwapKeepsOrdering(s: Text, i: nat, t: Text, r: Text)
    requires SwapAt(s, i, t) && CanonicallyOrders(s, r)
    ensures CanonicallyOrders(t, r)
  {
    forall n | 0 <= n <= |t| && Cut(t, n)
      ensures multiset(r[..n]) == multiset(t[..n])
    {
      SwapKeepsCuts(s, i, t, n);
    }
  }

  lemma SwapKeepsOrderings(s: Text, t: Text, r: Text)
    requires SwapStep(s, t)
    ensures CanonicallyOrders(s, r) <==> CanonicallyOrders(t, r)
  {
    var i: nat :| SwapAt(s, i, t);
    if CanonicallyOrders(s, r) {
      SwapKeepsOrdering(s, i, t, r);
    }
    if CanonicallyOrders(t, r) {
      assert SwapAt(t, i, s);
      SwapKeepsOrdering(t, i, s, r);
    }
  }

  ghost predicate SwapChain(chain: seq<Text>)
  {
    chain != [] && forall i :: 0 <= i < |chain| - 1 ==> SwapStep(chain[i], chain[i + 1])
  }

  /** Inputs joined by any series of exchanges of reorderable pairs have the same orderings. */
  lemma {:induction false} EquivalentInputs(chain: seq<Text>, r: Text)
    requires SwapChain(chain)
    ensures CanonicallyOrders(chain[0], r) <==> CanonicallyOrders(chain[|chain| - 1], r)
  {
    if |chain| > 1 {
      SwapKeepsOrderings(chain[0], chain[1], r);
      assert forall i :: 0 <= i < |chain| - 1 ==> chain[1..][i] == chain[i + 1];
      EquivalentInputs(chain[1..], r);
    }
  }

  /** So they are ordered alike whenever one of them determines its ordering. */
  lemma EquivalentOrderedAlike(chain: seq<Text>, r1: Text, r2: Text)
    requires SwapChain(chain) && Unambiguous(chain[0])
    requires CanonicallyOrders(chain[0], r1) && CanonicallyOrders(chain[|chain| - 1], r2)
    ensures r1 == r2
  {
    EquivalentInputs(chain, r2);
    OrderingDetermined(chain[0], r1, r2);
  }
}
