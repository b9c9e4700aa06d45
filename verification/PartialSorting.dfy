/** The engine's partial sort: keep the k first elements, in order. */
module PartialSorting {
  import opened Sequences

  /** What std::sort and its relatives require of a comparison, on the elements at hand. */
  ghost predicate StrictWeakOrder<T(!new)>(less: (T, T) -> bool, dom: iset<T>)
  {
    && (forall x :: x in dom ==> !less(x, x))
    && (forall x, y, z :: x in dom && y in dom && z in dom && less(x, y) && less(y, z) ==> less(x, z))
    && (forall x, y, z :: x in dom && y in dom && z in dom && Tied(less, x, y) && Tied(less, y, z) ==> Tied(less, x, z))
  }

  predicate Tied<T>(less: (T, T) -> bool, x: T, y: T)
  {
    !less(x, y) && !less(y, x)
  }

  ghost predicate Within<T(!new)>(s: seq<T>, dom: iset<T>)
  {
    forall i :: 0 <= i < |s| ==> s[i] in dom
  }

  lemma NotLessTransitive<T(!new)>(less: (T, T) -> bool, dom: iset<T>, x: T, y: T, z: T)
    requires StrictWeakOrder(less, dom) && x in dom && y in dom && z in dom
    requires !less(x, y) && !less(y, z)
    ensures !less(x, z)
  {
    if less(x, z) && !less(y, x) && !less(z, y) {
      assert Tied(less, x, y) && Tied(less, y, z);
    }
  }

  ghost predicate SortedBy<T>(less: (T, T) -> bool, s: seq<T>)
  {
    forall i, j :: 0 <= i < j < |s| ==> !less(s[j], s[i])
  }

  /** No element of back comes before an element of front. */
  ghost predicate NoneBefore<T>(less: (T, T) -> bool, front: seq<T>, back: seq<T>)
  {
    forall i, j :: 0 <= i < |front| && 0 <= j < |back| ==> !less(back[j], front[i])
  }

  /** ys and rest together are xs; ys is sorted, and nothing in rest is ranked before anything kept. */
  ghost predicate Selects<T>(less: (T, T) -> bool, xs: seq<T>, ys: seq<T>, rest: seq<T>)
  {
    multiset(ys) + multiset(rest) == multiset(xs) && SortedBy(less, ys) && NoneBefore(less, ys, rest)
  }

  /** ys are the k first elements of xs in order, all of them when k is 0 or too large. */
  ghost predicate IsTopK<T(!new)>(less: (T, T) -> bool, xs: seq<T>, k: nat, ys: seq<T>)
  {
    && (k == 0 || k > |xs| ==> |ys| == |xs|)
    && (0 < k <= |xs| ==> |ys| == k)
    && exists rest :: Selects(less, xs, ys, rest)
  }

  // ----- Stand-ins for the standard algorithms -----

  ghost predicate Permuted<T>(a: seq<T>, b: seq<T>)
  {
    multiset(a) == multiset(b)
  }

  lemma StillFirst<T(!new)>(less: (T, T) -> bool, dom: iset<T>, x: T, least: T, next: T)
    requires StrictWeakOrder(less, dom) && x in dom && least in dom && next in dom
    requires !less(x, least) && less(next, least)
    ensures !less(x, next)
  {
  }

  method IndexOfFirst<T(!new)>(
    less: (T, T) -> bool, a: array<T>, from: nat, end: nat, ghost dom: iset<T>) returns (least: nat)
    requires from < end <= a.Length && StrictWeakOrder(less, dom) && Within(a[..end], dom)
    ensures from <= least < end
    ensures forall j :: from <= j < end ==> !less(a[j], a[least])
  {
    assert forall i :: 0 <= i < end ==> a[..end][i] == a[i];
    least := from;
    for k := from + 1 to end
      invariant from <= least < end
      invariant forall j :: from <= j < k ==> !less(a[j], a[least])
    {
      if less(a[k], a[least]) {
        forall j | from <= j < k
          ensures !less(a[j], a[k])
        {
          StillFirst(less, dom, a[j], a[least], a[k]);
        }
        least := k;
      }
    }
  }

  ghost predicate FrontDone<T>(less: (T, T) -> bool, s: seq<T>, n: nat)
  {
    n <= |s| && SortedBy(less, s[..n]) && NoneBefore(less, s[..n], s[n..])
  }

  lemma ExchangeSorted<T(!new)>(less: (T, T) -> bool, s: seq<T>, n: nat, least: nat)
    requires n <= least < |s| && FrontDone(less, s, n)
    ensures SortedBy(less, Exchanged(s, n, least)[..n + 1])
  {
    var front := Exchanged(s, n, least)[..n + 1];
    assert forall i :: 0 <= i < n ==> front[i] == s[..n][i];
    assert front[n] == s[n..][least - n];
  }

  lemma ExchangeNoneBefore<T(!new)>(less: (T, T) -> bool, s: seq<T>, n: nat, least: nat)
    requires n <= least < |s| && FrontDone(less, s, n)
    requires forall j :: n <= j < |s| ==> !less(s[j], s[least])
    ensures NoneBefore(less, Exchanged(s, n, least)[..n + 1], Exchanged(s, n, least)[n + 1..])
  {
    var t := Exchanged(s, n, least);
    var front, back := t[..n + 1], t[n + 1..];
    forall i, j | 0 <= i < |front| && 0 <= j < |back|
      ensures !less(back[j], front[i])
    {
      assert back[j] == s[n..][j + 1] || back[j] == s[n..][0];
      if i < n {
        assert front[i] == s[..n][i];
      } else {
        assert front[i] == s[least];
      }
    }
  }

  lemma ExchangeStep<T(!new)>(less: (T, T) -> bool, s: seq<T>, n: nat, least: nat, dom: iset<T>)
    requires Within(s, dom) && n <= least < |s| && FrontDone(less, s, n)
    requires forall j :: n <= j < |s| ==> !less(s[j], s[least])
    ensures FrontDone(less, Exchanged(s, n, least), n + 1)
    ensures Permuted(Exchanged(s, n, least), s) && Within(Exchanged(s, n, least), dom)
  {
    ExchangeSorted(less, s, n, least);
    ExchangeNoneBefore(less, s, n, least);
  }

  /** std::partial_sort on a[..end]. */
  method PartialSortFront<T(!new)>(less: (T, T) -> bool, a: array<T>, m: nat, end: nat, ghost dom: iset<T>)
    requires m <= end <= a.Length && StrictWeakOrder(less, dom) && Within(a[..end], dom)
    modifies a
    ensures Permuted(a[..end], old(a[..end])) && Within(a[..end], dom) && a[end..] == old(a[end..])
    ensures FrontDone(less, a[..end], m)
  {
    for n := 0 to m
      invariant Permuted(a[..end], old(a[..end])) && Within(a[..end], dom) && a[end..] == old(a[end..])
      invariant FrontDone(less, a[..end], n)
    {
      var least := IndexOfFirst(less, a, n, end, dom);
      ghost var s := a[..end];
      assert forall j :: n <= j < end ==> s[j] == a[j];
      ExchangeStep(less, s, n, least, dom);
      a[n], a[least] := a[least], a[n];
      assert a[..end] == Exchanged(s, n, least);
    }
  }

  /** std::nth_element: no order is promised within the two parts. */
  method NthElement<T(!new)>(less: (T, T) -> bool, a: array<T>, m: nat, ghost dom: iset<T>)
    requires m <= a.Length && StrictWeakOrder(less, dom) && Within(a[..], dom)
    modifies a
    ensures Permuted(a[..], old(a[..])) && Within(a[..], dom)
    ensures NoneBefore(less, a[..m], a[m..])
  {
    assert a[..a.Length] == a[..];
    PartialSortFront(less, a, m, a.Length, dom);
    assert a[..a.Length] == a[..] && a[..][..m] == a[..m] && a[..][m..] == a[m..];
  }

  /** std::sort on the first m elements. */
  method SortFront<T(!new)>(less: (T, T) -> bool, a: array<T>, m: nat, ghost dom: iset<T>)
    requires m <= a.Length && StrictWeakOrder(less, dom) && Within(a[..m], dom)
    modifies a
    ensures Permuted(a[..m], old(a[..m])) && a[m..] == old(a[m..])
    ensures SortedBy(less, a[..m])
  {
    PartialSortFront(less, a, m, m, dom);
    assert a[..m][..m] == a[..m];
  }

  lemma PermutedNoneBefore<T>(less: (T, T) -> bool, front: seq<T>, other: seq<T>, back: seq<T>)
    requires Permuted(other, front) && NoneBefore(less, front, back)
    ensures NoneBefore(less, other, back)
  {
    forall i, j | 0 <= i < |other| && 0 <= j < |back|
      ensures !less(back[j], other[i])
    {
      assert other[i] in multiset(front);
      var k :| 0 <= k < |front| && front[k] == other[i];
    }
  }

  lemma FrontSelects<T>(less: (T, T) -> bool, xs: seq<T>, s: seq<T>, kept: nat)
    requires Permuted(s, xs) && FrontDone(less, s, kept)
    ensures Selects(less, xs, s[..kept], s[kept..])
  {
    assert s == s[..kept] + s[kept..];
  }

  lemma PartsSelect<T>(less: (T, T) -> bool, xs: seq<T>, s: seq<T>, t: seq<T>, kept: nat)
    requires Permuted(s, xs) && kept <= |s| == |t| && NoneBefore(less, s[..kept], s[kept..])
    requires Permuted(t[..kept], s[..kept]) && t[kept..] == s[kept..] && SortedBy(less, t[..kept])
    ensures Selects(less, xs, t[..kept], t[kept..]) && Permuted(t, xs)
  {
    assert s == s[..kept] + s[kept..] && t == t[..kept] + t[kept..];
    PermutedNoneBefore(less, s[..kept], t[..kept], s[kept..]);
  }

  /** PartialSort; what erase leaves of the vector is a[..kept]. */
  method PartialSort<T(!new)>(less: (T, T) -> bool, a: array<T>, k: nat, ghost dom: iset<T>) returns (kept: nat)
    requires StrictWeakOrder(less, dom) && Within(a[..], dom)
    modifies a
    ensures kept == if 0 < k <= a.Length then k else a.Length
    ensures IsTopK(less, old(a[..]), k, a[..kept])
    ensures Permuted(a[..], old(a[..]))
  {
    ghost var xs := a[..];
    kept := if k > 0 && a.Length >= k then k else a.Length;
    if kept <= (if 1024 < a.Length / 64 then a.Length / 64 else 1024) {
      assert a[..a.Length] == a[..];
      PartialSortFront(less, a, kept, a.Length, dom);
      assert a[..a.Length] == a[..];
      FrontSelects(less, xs, a[..], kept);
      assert a[..][..kept] == a[..kept];
    } else {
      NthElement(less, a, kept, dom);
      ghost var s := a[..];
      assert s[..kept] == a[..kept] && s[kept..] == a[kept..];
      SortFront(less, a, kept, dom);
      assert a[..][..kept] == a[..kept] && a[..][kept..] == a[kept..];
      PartsSelect(less, xs, s, a[..], kept);
    }
  }

  // ----- What is left undetermined -----

  function CountBefore<T>(less: (T, T) -> bool, s: seq<T>, pivot: T): nat
  {
    if s == [] then 0
    else CountBefore(less, s[..|s| - 1], pivot) + if less(s[|s| - 1], pivot) then 1 else 0
  }

  lemma {:induction false} CountConcat<T>(less: (T, T) -> bool, s: seq<T>, t: seq<T>, pivot: T)
    ensures CountBefore(less, s + t, pivot) == CountBefore(less, s, pivot) + CountBefore(less, t, pivot)
  {
    if t == [] {
      assert s + t == s;
    } else {
      CountConcat(less, s, t[..|t| - 1], pivot);
      assert (s + t)[..|s + t| - 1] == s + t[..|t| - 1];
    }
  }

  function Without<T>(s: seq<T>, j: nat): seq<T>
    requires j < |s|
  {
    s[..j] + s[j + 1..]
  }

  lemma CountSnoc<T>(less: (T, T) -> bool, s: seq<T>, x: T, pivot: T)
    ensures CountBefore(less, s + [x], pivot) == CountBefore(less, s, pivot) + if less(x, pivot) then 1 else 0
  {
    assert (s + [x])[..|s|] == s;
  }

  lemma CountMiddle<T>(less: (T, T) -> bool, a: seq<T>, x: T, b: seq<T>, pivot: T)
    ensures CountBefore(less, (a + [x]) + b, pivot) == CountBefore(less, a + b, pivot) + if less(x, pivot) then 1 else 0
  {
    CountConcat(less, a + [x], b, pivot);
    CountSnoc(less, a, x, pivot);
    CountConcat(less, a, b, pivot);
  }

  lemma {:induction false} CountWithout<T>(less: (T, T) -> bool, s: seq<T>, j: nat, pivot: T)
    requires j < |s|
    ensures CountBefore(less, s, pivot) == CountBefore(less, Without(s, j), pivot) + if less(s[j], pivot) then 1 else 0
  {
    assert s == (s[..j] + [s[j]]) + s[j + 1..];
    CountMiddle(less, s[..j], s[j], s[j + 1..], pivot);
  }

  lemma MultisetWithout<T>(s: seq<T>, j: nat)
    requires j < |s|
    ensures multiset(Without(s, j)) == multiset(s) - multiset{s[j]}
  {
    assert s == s[..j] + [s[j]] + s[j + 1..];
  }

  lemma {:induction false} CountPermuted<T>(less: (T, T) -> bool, s: seq<T>, t: seq<T>, pivot: T)
    requires Permuted(s, t)
    ensures CountBefore(less, s, pivot) == CountBefore(less, t, pivot)
    decreases |s|
  {
    assert |s| == |multiset(s)| == |multiset(t)| == |t|;
    if s != [] {
      assert s[0] in multiset(t);
      var j :| 0 <= j < |t| && t[j] == s[0];
      CountWithout(less, s, 0, pivot);
      CountWithout(less, t, j, pivot);
      MultisetWithout(s, 0);
      MultisetWithout(t, j);
      CountPermuted(less, Without(s, 0), Without(t, j), pivot);
    }
  }

  lemma {:induction false} CountAll<T>(less: (T, T) -> bool, s: seq<T>, pivot: T)
    requires forall i :: 0 <= i < |s| ==> less(s[i], pivot)
    ensures CountBefore(less, s, pivot) == |s|
  {
    if s != [] { CountAll(less, s[..|s| - 1], pivot); }
  }

  lemma {:induction false} CountNone<T>(less: (T, T) -> bool, s: seq<T>, pivot: T)
    requires forall i :: 0 <= i < |s| ==> !less(s[i], pivot)
    ensures CountBefore(less, s, pivot) == 0
  {
    if s != [] { CountNone(less, s[..|s| - 1], pivot); }
  }

  lemma {:induction false} CountAtMost<T>(less: (T, T) -> bool, s: seq<T>, pivot: T)
    ensures CountBefore(less, s, pivot) <= |s|
  {
    if s != [] { CountAtMost(less, s[..|s| - 1], pivot); }
  }

  lemma {:induction false} SelectionCount<T>(less: (T, T) -> bool, xs: seq<T>, ys: seq<T>, rest: seq<T>, i: nat)
    requires Selects(less, xs, ys, rest) && i < |ys| && !less(ys[i], ys[i])
    ensures CountBefore(less, xs, ys[i]) <= i
  {
    assert Permuted(xs, ys + rest);
    CountPermuted(less, xs, ys + rest, ys[i]);
    CountConcat(less, ys, rest, ys[i]);
    assert ys == ys[..i] + ys[i..];
    CountConcat(less, ys[..i], ys[i..], ys[i]);
    CountAtMost(less, ys[..i], ys[i]);
    CountNone(less, ys[i..], ys[i]);
    CountNone(less, rest, ys[i]);
  }

  lemma SelectionMembers<T(!new)>(
    less: (T, T) -> bool, dom: iset<T>, xs: seq<T>, ys: seq<T>, rest: seq<T>)
    requires Selects(less, xs, ys, rest) && Within(xs, dom)
    ensures Within(ys, dom)
  {
    forall i | 0 <= i < |ys|
      ensures ys[i] in dom
    {
      assert ys[i] in multiset(xs);
    }
  }

  lemma SelectionCountAbove<T(!new)>(
    less: (T, T) -> bool, dom: iset<T>, xs: seq<T>, ys: seq<T>, rest: seq<T>, i: nat, pivot: T)
    requires StrictWeakOrder(less, dom) && Within(ys, dom) && pivot in dom
    requires Selects(less, xs, ys, rest) && i < |ys| && less(ys[i], pivot)
    ensures CountBefore(less, xs, pivot) > i
  {
    assert Permuted(xs, ys + rest);
    CountPermuted(less, xs, ys + rest, pivot);
    CountConcat(less, ys, rest, pivot);
    var early := ys[..i + 1];
    assert ys == early + ys[i + 1..];
    CountConcat(less, early, ys[i + 1..], pivot);
    forall j | 0 <= j < |early|
      ensures less(early[j], pivot)
    {
      if j < i && !less(ys[j], pivot) {
        NotLessTransitive(less, dom, ys[i], ys[j], pivot);
      }
    }
    CountAll(less, early, pivot);
  }

  lemma NotEarlier<T(!new)>(
    less: (T, T) -> bool, dom: iset<T>, xs: seq<T>, ys: seq<T>, zs: seq<T>, r: seq<T>, t: seq<T>, i: nat)
    requires StrictWeakOrder(less, dom) && Within(xs, dom)
    requires Selects(less, xs, ys, r) && Selects(less, xs, zs, t) && i < |ys| && i < |zs|
    ensures !less(ys[i], zs[i])
  {
    SelectionMembers(less, dom, xs, ys, r);
    SelectionMembers(less, dom, xs, zs, t);
    SelectionCount(less, xs, zs, t, i);
    if less(ys[i], zs[i]) {
      SelectionCountAbove(less, dom, xs, ys, r, i, zs[i]);
    }
  }

  /** Any two partial sorts of one input agree position by position up to ties. */
  lemma TopKUpToTies<T(!new)>(
    less: (T, T) -> bool, dom: iset<T>, xs: seq<T>, k: nat, ys: seq<T>, zs: seq<T>)
    requires StrictWeakOrder(less, dom) && Within(xs, dom)
    requires IsTopK(less, xs, k, ys) && IsTopK(less, xs, k, zs)
    ensures |ys| == |zs| && forall i :: 0 <= i < |ys| ==> Tied(less, ys[i], zs[i])
  {
    var r :| Selects(less, xs, ys, r);
    var t :| Selects(less, xs, zs, t);
    forall i | 0 <= i < |ys|
      ensures Tied(less, ys[i], zs[i])
    {
      NotEarlier(less, dom, xs, ys, zs, r, t, i);
      NotEarlier(less, dom, xs, zs, ys, t, r, i);
    }
  }

  /** Where no two different elements are tied there is one result, whichever branch computes it. */
  lemma TopKUnique<T(!new)>(
    less: (T, T) -> bool, dom: iset<T>, xs: seq<T>, k: nat, ys: seq<T>, zs: seq<T>)
    requires StrictWeakOrder(less, dom) && Within(xs, dom)
    requires forall x, y :: x in xs && y in xs && Tied(less, x, y) ==> x == y
    requires IsTopK(less, xs, k, ys) && IsTopK(less, xs, k, zs)
    ensures ys == zs
  {
    TopKUpToTies(less, dom, xs, k, ys, zs);
    var r :| Selects(less, xs, ys, r);
    var t :| Selects(less, xs, zs, t);
    forall i | 0 <= i < |ys|
      ensures ys[i] == zs[i]
    {
      assert ys[i] in multiset(xs) && zs[i] in multiset(xs);
    }
  }

  /** The order in which the elements come does not matter. */
  lemma TopKOfPermutation<T(!new)>(
    less: (T, T) -> bool, xs: seq<T>, other: seq<T>, k: nat, ys: seq<T>)
    requires Permuted(xs, other) && IsTopK(less, xs, k, ys)
    ensures IsTopK(less, other, k, ys)
  {
    assert |xs| == |multiset(xs)| == |multiset(other)| == |other|;
    var rest :| Selects(less, xs, ys, rest);
    assert Selects(less, other, ys, rest);
  }

  ghost predicate NoRepeats<T>(s: seq<T>)
  {
    forall i, j :: 0 <= i < j < |s| ==> s[i] != s[j]
  }

  lemma {:induction false} NoRepeatsCount<T>(s: seq<T>, x: T)
    requires NoRepeats(s)
    ensures multiset(s)[x] == if x in s then 1 else 0
  {
    if s != [] {
      var last := s[|s| - 1];
      assert s == s[..|s| - 1] + [last];
      NoRepeatsCount(s[..|s| - 1], x);
      assert x in s <==> x in s[..|s| - 1] || x == last;
    }
  }

  lemma SameMembersPermuted<T(!new)>(s: seq<T>, t: seq<T>)
    requires NoRepeats(s) && NoRepeats(t) && forall x :: x in s <==> x in t
    ensures Permuted(s, t)
  {
    forall x
      ensures multiset(s)[x] == multiset(t)[x]
    {
      NoRepeatsCount(s, x);
      NoRepeatsCount(t, x);
    }
  }

  /** What has no repeats has none among what is kept of it. */
  lemma KeptOnce<T>(xs: seq<T>, ys: seq<T>, rest: seq<T>, i: nat, j: nat)
    requires NoRepeats(xs) && multiset(ys) + multiset(rest) == multiset(xs) && i < j < |ys|
    ensures ys[i] != ys[j]
  {
    NoRepeatsCount(xs, ys[i]);
    assert ys == ys[..i + 1] + ys[i + 1..];
    assert ys[..i + 1][i] == ys[i] && ys[i + 1..][j - i - 1] == ys[j];
    assert multiset(ys) == multiset(ys[..i + 1]) + multiset(ys[i + 1..]);
    assert ys[i] in multiset(ys[..i + 1]) && ys[j] in multiset(ys[i + 1..]);
  }
}
