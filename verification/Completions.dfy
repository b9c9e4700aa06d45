/** The completer's cache: one remembered answer, reused while requests stay equal. */
module Completions {
  import opened Wrappers
  import opened Utf8
  import opened LineOffsets
  import opened RequestWrapping

  datatype FileData = FileData(contents: Str, filetypes: seq<Str>)

  /** What a request's readers see of it. */
  datatype Request = Request(
    filepath: Str, lineNum: int, columnNum: int, startColumn: int, startCodepoint: int, prefix: Str, query: Str,
    forceSemantic: bool, extraConfData: map<Str, Str>, fileData: map<Str, FileData>)
  {
    /** Request validation: the current file's data is present. */
    predicate Valid() { filepath in fileData }

    function Filetypes(): seq<Str>
      requires Valid()
    {
      fileData[filepath].filetypes
    }

    function Lines(): seq<Str>
      requires Valid()
    {
      SplitLines(fileData[filepath].contents)
    }

    function AsPosition(isIdentifier: Str -> bool): Position
      requires Valid()
    {
      Position(fileData[filepath].contents, lineNum, columnNum, isIdentifier)
    }

    /** The bytes of the current line before the start column. */
    function BytesBeforeStart(): Bytes
      requires Valid()
    {
      var line := Index(Lines(), lineNum - 1);
      SliceTo(ToBytes(if line.Some? then line.value else []), startColumn - 1)
    }
  }

  /** The computed fields are those of a request object whose start is s. */
  ghost predicate Shows(r: Request, isIdentifier: Str -> bool, s: Start)
    requires r.Valid()
  {
    var p := r.AsPosition(isIdentifier);
    && p.FromScratch(StartColumn, s) == Some(Number(r.startColumn))
    && p.FromScratch(StartCodepoint, s) == Some(Number(r.startCodepoint))
    && p.FromScratch(Prefix, s) == Some(Text(r.prefix))
    && p.FromScratch(Query, s) == Some(Text(r.query))
  }

  /** What some request object shows, its start computed or assigned. */
  ghost predicate Snapshot(r: Request)
  {
    r.Valid() && exists isIdentifier, s :: Shows(r, isIdentifier, s)
  }

  ghost predicate Readable(p: Position, s: Start)
  {
    p.FromScratch(StartColumn, s).Some? && p.FromScratch(StartCodepoint, s).Some? &&
    p.FromScratch(Prefix, s).Some? && p.FromScratch(Query, s).Some?
  }

  /** Reading a request object; None where a field raises UnicodeDecodeError. */
  method ReadRequest(
    request: RequestWrap, filepath: Str, forceSemantic: bool, extraConfData: map<Str, Str>,
    fileData: map<Str, FileData>) returns (r: Option<Request>)
    requires request.Valid()
    requires filepath in fileData && fileData[filepath].contents == request.position.contents
    modifies request`cached
    ensures request.Valid()
    ensures r.Some? ==> Snapshot(r.value) && Shows(r.value, request.position.isIdentifier, request.start)
    ensures r.Some? ==>
      && r.value.lineNum == request.position.lineNum && r.value.columnNum == request.position.columnNum
      && r.value.filepath == filepath && r.value.fileData == fileData
      && r.value.forceSemantic == forceSemantic && r.value.extraConfData == extraConfData
    ensures r.Some? <==> Readable(request.position, request.start)
  {
    var column := request.Get(StartColumn);
    if column.None? { return None; }
    var codepoint := request.Get(StartCodepoint);
    if codepoint.None? { return None; }
    var prefix := request.Get(Prefix);
    if prefix.None? { return None; }
    var query := request.Get(Query);
    if query.None? { return None; }
    var p := request.position;
    r := Some(Request(
      filepath, p.lineNum, p.columnNum, column.value.n, codepoint.value.n, prefix.value.text, query.value.text,
      forceSemantic, extraConfData, fileData));
    assert r.value.AsPosition(p.isIdentifier) == p;
    assert Shows(r.value, p.isIdentifier, request.start);
  }

  // ----- Request equality -----

  /** The fields __eq__ compares first, among them the text before the start. */
  predicate SameFields(a: Request, b: Request)
    requires a.Valid() && b.Valid()
  {
    a.filepath == b.filepath && a.Filetypes() == b.Filetypes() && a.lineNum == b.lineNum &&
    a.startColumn == b.startColumn && a.prefix == b.prefix && a.forceSemantic == b.forceSemantic &&
    a.extraConfData == b.extraConfData
  }

  /** Its test of one file of the first request. */
  predicate SameFile(a: Request, b: Request, filename: Str)
    requires a.Valid() && b.Valid() && filename in a.fileData
  {
    if filename == a.filepath then
      var lines, other := a.Lines(), b.Lines();
      |lines| == |other| &&
      SliceTo(lines, a.lineNum - 1) == SliceTo(other, a.lineNum - 1) &&
      SliceFrom(lines, a.lineNum) == SliceFrom(other, a.lineNum)
    else filename in b.fileData && a.fileData[filename] == b.fileData[filename]
  }

  predicate Equal(a: Request, b: Request)
    requires a.Valid() && b.Valid()
  {
    SameFields(a, b) && |a.fileData| == |b.fileData| && forall f :: f in a.fileData ==> SameFile(a, b, f)
  }

  /** RequestWrap.__eq__ */
  method RequestsEqual(a: Request, b: Request) returns (r: bool)
    requires a.Valid() && b.Valid()
    ensures r == Equal(a, b)
  {
    if !SameFields(a, b) || |a.fileData| != |b.fileData| { return false; }
    var todo := a.fileData.Keys;
    while todo != {}
      invariant todo <= a.fileData.Keys
      invariant forall f :: f in a.fileData && f !in todo ==> SameFile(a, b, f)
      decreases todo
    {
      var filename :| filename in todo;
      if !SameFile(a, b, filename) { return false; }
      todo := todo - {filename};
    }
    return true;
  }

  /** The one line that equality leaves out: the current one, where there is one. */
  predicate Skipped(a: Request, i: nat)
    requires a.Valid() && i < |a.Lines()|
  {
    SliceEnd(|a.Lines()|, a.lineNum - 1) <= i < SliceEnd(|a.Lines()|, a.lineNum)
  }

  lemma SameKeys(a: Request, b: Request)
    requires a.Valid() && b.Valid() && Equal(a, b)
    ensures a.fileData.Keys == b.fileData.Keys
  {
    forall f | f in a.fileData
      ensures f in b.fileData
    {
      assert SameFile(a, b, f);
    }
    SubsetOfSameSize(a.fileData.Keys, b.fileData.Keys);
  }

  lemma SubsetOfSameSize<T>(x: set<T>, y: set<T>)
    requires x <= y && |x| == |y|
    ensures x == y
  {
    assert |y - x| == |y| - |x|;
    assert y == x + (y - x);
  }

  /** Everything but the start and the prefix that equality compares, put plainly. */
  predicate SameElsewhere(a: Request, b: Request)
    requires a.Valid() && b.Valid()
  {
    && a.filepath == b.filepath && a.lineNum == b.lineNum
    && a.fileData[a.filepath].filetypes == b.fileData[b.filepath].filetypes
    && a.forceSemantic == b.forceSemantic && a.extraConfData == b.extraConfData
    && a.fileData - {a.filepath} == b.fileData - {b.filepath}
    && var x, y := SplitLines(a.fileData[a.filepath].contents), SplitLines(b.fileData[b.filepath].contents);
    && |x| == |y|
    && (forall i :: 0 <= i < |x| && !Skipped(a, i) ==> x[i] == y[i])
  }

  lemma EqualFields(a: Request, b: Request)
    requires a.Valid() && b.Valid()
    ensures Equal(a, b) <==> SameElsewhere(a, b) && a.startColumn == b.startColumn && a.prefix == b.prefix
  {
    if Equal(a, b) {
      SameKeys(a, b);
      assert SameFile(a, b, a.filepath);
      forall f | f in a.fileData && f != a.filepath
        ensures a.fileData[f] == b.fileData[f]
      {
        assert SameFile(a, b, f);
      }
      LinesSame(a, b);
    } else if SameElsewhere(a, b) {
      OthersSame(a, b);
      LinesSame(a, b);
    }
  }

  lemma SnapshotPrefix(r: Request)
    requires Snapshot(r)
    ensures ToBytes(r.prefix) == r.BytesBeforeStart()
  {
    var isIdentifier, s :| Shows(r, isIdentifier, s);
    PrefixBeforeStart(r.AsPosition(isIdentifier), s, r.prefix, r.startColumn);
  }

  /** Equality of what request objects show: all is the same but the current line from the start on. */
  lemma EqualMeaning(a: Request, b: Request)
    requires Snapshot(a) && Snapshot(b)
    ensures Equal(a, b) <==>
      SameElsewhere(a, b) && a.startColumn == b.startColumn && a.BytesBeforeStart() == b.BytesBeforeStart()
  {
    EqualFields(a, b);
    SnapshotPrefix(a);
    SnapshotPrefix(b);
    ToUnicodeIff(ToBytes(a.prefix), a.prefix);
    ToUnicodeIff(ToBytes(b.prefix), b.prefix);
  }

  /** On a line of the contents they are the bytes of line lineNum before the start column. */
  lemma BytesBeforeStartMeaning(r: Request)
    requires r.Valid() && 1 <= r.lineNum <= |SplitLines(r.fileData[r.filepath].contents)|
    ensures var bytes := ToBytes(SplitLines(r.fileData[r.filepath].contents)[r.lineNum - 1]);
      1 <= r.startColumn <= |bytes| + 1 ==> r.BytesBeforeStart() == bytes[..r.startColumn - 1]
  {
  }

  /** With a line number from 1, the one line that may differ is the current one. */
  lemma EqualElsewhere(a: Request, b: Request, i: nat)
    requires Snapshot(a) && Snapshot(b) && Equal(a, b) && a.lineNum >= 1 && i < |a.Lines()|
    ensures |a.Lines()| == |b.Lines()| && (i != a.lineNum - 1 ==> a.Lines()[i] == b.Lines()[i])
  {
    EqualMeaning(a, b);
    assert Skipped(a, i) <==> i == a.lineNum - 1;
  }

  lemma OthersSame(a: Request, b: Request)
    requires a.Valid() && b.Valid() && a.filepath == b.filepath
    requires a.fileData - {a.filepath} == b.fileData - {b.filepath}
    ensures |a.fileData| == |b.fileData|
    ensures forall f :: f in a.fileData && f != a.filepath ==> f in b.fileData && a.fileData[f] == b.fileData[f]
  {
    var x, y := a.fileData - {a.filepath}, b.fileData - {a.filepath};
    assert a.fileData.Keys == x.Keys + {a.filepath} && b.fileData.Keys == y.Keys + {a.filepath};
    forall f | f in a.fileData && f != a.filepath
      ensures f in b.fileData && a.fileData[f] == b.fileData[f]
    {
      assert f in x && x[f] == y[f];
    }
  }

  lemma LinesSame(a: Request, b: Request)
    requires a.Valid() && b.Valid() && a.lineNum == b.lineNum && |a.Lines()| == |b.Lines()|
    ensures (SliceTo(a.Lines(), a.lineNum - 1) == SliceTo(b.Lines(), a.lineNum - 1) &&
             SliceFrom(a.Lines(), a.lineNum) == SliceFrom(b.Lines(), a.lineNum)) <==>
      forall i :: 0 <= i < |a.Lines()| && !Skipped(a, i) ==> a.Lines()[i] == b.Lines()[i]
  {
    var x, y := a.Lines(), b.Lines();
    var lo, hi := SliceEnd(|x|, a.lineNum - 1), SliceEnd(|x|, a.lineNum);
    if SliceTo(x, a.lineNum - 1) == SliceTo(y, a.lineNum - 1) && SliceFrom(x, a.lineNum) == SliceFrom(y, a.lineNum) {
      forall i | 0 <= i < |x| && !(lo <= i < hi)
        ensures x[i] == y[i]
      {
        if i < lo {
          assert SliceTo(x, a.lineNum - 1)[i] == SliceTo(y, a.lineNum - 1)[i];
        } else {
          assert SliceFrom(x, a.lineNum)[i - hi] == SliceFrom(y, a.lineNum)[i - hi];
        }
      }
    }
    if forall i :: 0 <= i < |x| && !Skipped(a, i) ==> x[i] == y[i] {
      assert forall i :: 0 <= i < lo ==> !Skipped(a, i);
      assert forall i :: hi <= i < |x| ==> !Skipped(a, i);
    }
  }

  lemma EqualReflexive(a: Request)
    requires a.Valid()
    ensures Equal(a, a)
  {
  }

  lemma EqualSymmetric(a: Request, b: Request)
    requires a.Valid() && b.Valid() && Equal(a, b)
    ensures Equal(b, a)
  {
    SameKeys(a, b);
    forall f | f in b.fileData
      ensures SameFile(b, a, f)
    {
      assert SameFile(a, b, f);
    }
  }

  lemma EqualTransitive(a: Request, b: Request, c: Request)
    requires a.Valid() && b.Valid() && c.Valid() && Equal(a, b) && Equal(b, c)
    ensures Equal(a, c)
  {
    SameKeys(a, b);
    forall f | f in a.fileData
      ensures SameFile(a, c, f)
    {
      assert SameFile(a, b, f) && SameFile(b, c, f);
    }
  }

  // ----- The completer -----

  /** What a completer subclass and the user's options supply. */
  datatype Behaviour<!C> = Behaviour(
    compute: Request -> seq<C>, triggers: Request -> bool, filter: (seq<C>, Str) -> seq<C>)
  {
    function FilterAndSort(candidates: seq<C>, query: Str): seq<C>
    {
      if candidates == [] then [] else filter(candidates, query)
    }

    predicate Active(request: Request) { request.forceSemantic || triggers(request) }

    /** The answer without a cache. */
    function Fresh(request: Request): seq<C>
    {
      if Active(request) then FilterAndSort(compute(request), request.query) else []
    }
  }

  datatype Cache<C> = Empty | Holding(request: Request, completions: seq<C>)

  predicate CacheValid<C>(cache: Cache<C>)
  {
    cache.Holding? ==> cache.request.Valid()
  }

  predicate Hit<C>(cache: Cache<C>, request: Request)
    requires CacheValid(cache) && request.Valid()
  {
    cache.Holding? && Equal(cache.request, request)
  }

  /** One request: the answer and the cache left behind. */
  function Step<C>(b: Behaviour<C>, cache: Cache<C>, request: Request): (r: (seq<C>, Cache<C>))
    requires CacheValid(cache) && request.Valid()
    ensures CacheValid(r.1)
  {
    if !b.Active(request) then ([], Empty)
    else if Hit(cache, request) && cache.completions != [] then
      (b.FilterAndSort(cache.completions, request.query), cache)
    else if Hit(cache, request) && !request.forceSemantic then ([], cache)
    else (b.FilterAndSort(b.compute(request), request.query), Holding(request, b.compute(request)))
  }

  class Completer<C(==)> {
    const behaviour: Behaviour<C>
    var cache: Cache<C>

    constructor (behaviour: Behaviour<C>)
      ensures this.behaviour == behaviour && cache == Empty
    {
      this.behaviour, cache := behaviour, Empty;
    }

    method Invalidate()
      modifies this
      ensures cache == Empty
    {
      cache := Empty;
    }

    method Update(request: Request, completions: seq<C>)
      modifies this
      ensures cache == Holding(request, completions)
    {
      cache := Holding(request, completions);
    }

    method GetCompletionsIfCacheValid(request: Request) returns (r: Option<seq<C>>)
      requires CacheValid(cache) && request.Valid()
      ensures r == if Hit(cache, request) then Some(cache.completions) else None
    {
      if cache.Empty? { return None; }
      var equal := RequestsEqual(cache.request, request);
      return if equal then Some(cache.completions) else None;
    }

    /** Not when the remembered answer is empty. */
    method ShouldUseNow(request: Request) returns (r: bool)
      requires CacheValid(cache) && request.Valid()
      modifies this
      ensures !behaviour.triggers(request) ==> !r && cache == Empty
      ensures behaviour.triggers(request) ==> cache == old(cache)
      ensures behaviour.triggers(request) ==> (r <==> !Hit(cache, request) || cache.completions != [])
    {
      if !behaviour.triggers(request) {
        Invalidate();
        return false;
      }
      var cached := GetCompletionsIfCacheValid(request);
      return if cached.None? then true else cached.value != [];
    }

    method GetCandidatesFromSubclass(request: Request) returns (r: seq<C>)
      requires CacheValid(cache) && request.Valid()
      modifies this
      ensures if Hit(old(cache), request) && old(cache).completions != []
        then r == old(cache).completions && cache == old(cache)
        else r == behaviour.compute(request) && cache == Holding(request, r)
    {
      var cached := GetCompletionsIfCacheValid(request);
      if cached.Some? && cached.value != [] {
        return cached.value;
      }
      r := behaviour.compute(request);
      Update(request, r);
    }

    method ComputeCandidates(request: Request) returns (r: seq<C>)
      requires CacheValid(cache) && request.Valid()
      modifies this
      ensures (r, cache) == Step(behaviour, old(cache), request)
    {
      if !request.forceSemantic {
        var use := ShouldUseNow(request);
        if !use { return []; }
      }
      var candidates := GetCandidatesFromSubclass(request);
      if candidates == [] { return []; }
      return behaviour.filter(candidates, request.query);
    }
  }

  // ----- Whole runs -----

  predicate AllValid(requests: seq<Request>)
  {
    forall i :: 0 <= i < |requests| ==> requests[i].Valid()
  }

  /** The answers to a list of requests. */
  function Run<C>(b: Behaviour<C>, cache: Cache<C>, requests: seq<Request>): seq<seq<C>>
    requires CacheValid(cache) && AllValid(requests)
    decreases |requests|
  {
    if requests == [] then []
    else
      var step := Step(b, cache, requests[0]);
      [step.0] + Run(b, step.1, requests[1..])
  }

  function FreshAnswers<C>(b: Behaviour<C>, requests: seq<Request>): seq<seq<C>>
  {
    if requests == [] then [] else [b.Fresh(requests[0])] + FreshAnswers(b, requests[1..])
  }

  /** Any kind of requests: those that request objects show, of them those with a computed start, and so on. */
  ghost predicate Kind(kind: iset<Request>)
  {
    forall r :: r in kind ==> r.Valid()
  }

  /** All that request objects can show. */
  ghost function Snapshots(): (kind: iset<Request>)
    ensures Kind(kind)
  {
    iset r: Request | Snapshot(r)
  }

  ghost predicate AllIn(requests: seq<Request>, kind: iset<Request>)
  {
    forall i :: 0 <= i < |requests| ==> requests[i] in kind
  }

  /** On requests of that kind the subclass answer depends only on what request equality compares. */
  ghost predicate Respects<C(!new)>(b: Behaviour<C>, kind: iset<Request>)
    requires Kind(kind)
  {
    forall x: Request, y: Request :: x in kind && y in kind && Equal(x, y) ==> b.compute(x) == b.compute(y)
  }

  /** An answer remembered for x serves y: as shown after filtering, and no worse when it was empty. */
  ghost predicate Serves<C>(b: Behaviour<C>, x: Request, y: Request)
  {
    if b.compute(x) != [] then b.FilterAndSort(b.compute(x), y.query) == b.FilterAndSort(b.compute(y), y.query)
    else y.forceSemantic || b.FilterAndSort(b.compute(y), y.query) == []
  }

  /** Between any two equal requests that are answered at all. */
  ghost predicate ServesEqualRequests<C>(b: Behaviour<C>, kind: iset<Request>)
    requires Kind(kind)
  {
    forall x: Request, y: Request :: x in kind && y in kind && Equal(x, y) && b.Active(x) && b.Active(y) ==>
      Serves(b, x, y)
  }

  lemma RespectsServes<C(!new)>(b: Behaviour<C>, kind: iset<Request>)
    requires Kind(kind) && Respects(b, kind)
    ensures ServesEqualRequests(b, kind)
  {
    forall x: Request, y: Request | x in kind && y in kind && Equal(x, y) && b.Active(x) && b.Active(y)
      ensures Serves(b, x, y)
    {
      assert b.compute(x) == b.compute(y);
    }
  }

  /** The cache holds what was computed for a request that was answered. */
  ghost predicate Faithful<C>(b: Behaviour<C>, kind: iset<Request>, cache: Cache<C>)
  {
    cache.Holding? ==>
      cache.request in kind && b.Active(cache.request) && cache.completions == b.compute(cache.request)
  }

  lemma {:induction false} ServingIsTransparent<C(!new)>(
    b: Behaviour<C>, kind: iset<Request>, cache: Cache<C>, requests: seq<Request>)
    requires Kind(kind) && ServesEqualRequests(b, kind)
    requires Faithful(b, kind, cache) && AllIn(requests, kind)
    ensures Run(b, cache, requests) == FreshAnswers(b, requests)
    decreases |requests|
  {
    if requests != [] {
      var step := Step(b, cache, requests[0]);
      if Hit(cache, requests[0]) && b.Active(requests[0]) {
        assert Serves(b, cache.request, requests[0]);
      }
      assert step.0 == b.Fresh(requests[0]);
      ServingIsTransparent(b, kind, step.1, requests[1..]);
    }
  }

  /** Whatever kind of requests come, the cache is invisible over every run of them if and only if remembered answers
      serve equal requests. */
  lemma CacheTransparency<C(!new)>(b: Behaviour<C>, kind: iset<Request>)
    requires Kind(kind)
    ensures (forall requests :: AllIn(requests, kind) ==> Run(b, Empty, requests) == FreshAnswers(b, requests)) <==>
      ServesEqualRequests(b, kind)
  {
    if ServesEqualRequests(b, kind) {
      forall requests | AllIn(requests, kind)
        ensures Run(b, Empty, requests) == FreshAnswers(b, requests)
      {
        ServingIsTransparent(b, kind, Empty, requests);
      }
    }
    if forall requests :: AllIn(requests, kind) ==> Run(b, Empty, requests) == FreshAnswers(b, requests) {
      forall x: Request, y: Request | x in kind && y in kind && Equal(x, y) && b.Active(x) && b.Active(y)
        ensures Serves(b, x, y)
      {
        assert AllIn([x, y], kind);
        PairRun(b, x, y);
      }
    }
  }

  lemma PairRun<C(!new)>(b: Behaviour<C>, x: Request, y: Request)
    requires x.Valid() && y.Valid() && Equal(x, y) && b.Active(x) && b.Active(y)
    requires Run(b, Empty, [x, y]) == FreshAnswers(b, [x, y])
    ensures Serves(b, x, y)
  {
    var first := Step(b, Empty, x);
    var second := Step(b, first.1, y);
    assert [x, y][1..] == [y] && [y][1..] == [];
    assert Run(b, Empty, [x, y]) == [first.0] + Run(b, first.1, [y]);
    assert Run(b, first.1, [y]) == [second.0] + Run(b, second.1, []);
    assert FreshAnswers(b, [x, y]) == [b.Fresh(x)] + FreshAnswers(b, [y]);
    assert FreshAnswers(b, [y]) == [b.Fresh(y)] + FreshAnswers(b, []);
    assert Run(b, Empty, [x, y])[1] == second.0 && FreshAnswers(b, [x, y])[1] == b.Fresh(y);
  }

  /** In particular over what request objects show, when the subclass respects equality there: a request forced or
      triggered gets what the subclass answers to it, filtered, and an empty list as it is; any other gets none. */
  lemma CacheIsTransparent<C(!new)>(b: Behaviour<C>, requests: seq<Request>)
    requires Respects(b, Snapshots()) && AllIn(requests, Snapshots())
    ensures Run(b, Empty, requests) == FreshAnswers(b, requests) && |Run(b, Empty, requests)| == |requests|
    ensures forall i :: 0 <= i < |requests| ==>
      Run(b, Empty, requests)[i] ==
      if (requests[i].forceSemantic || b.triggers(requests[i])) && b.compute(requests[i]) != []
      then b.filter(b.compute(requests[i]), requests[i].query) else []
  {
    RespectsServes(b, Snapshots());
    ServingIsTransparent(b, Snapshots(), Empty, requests);
    FreshEach(b, requests);
  }

  lemma {:induction false} FreshEach<C>(b: Behaviour<C>, requests: seq<Request>)
    ensures |FreshAnswers(b, requests)| == |requests|
    ensures forall i :: 0 <= i < |requests| ==> FreshAnswers(b, requests)[i] == b.Fresh(requests[i])
  {
    if requests != [] {
      FreshEach(b, requests[1..]);
    }
  }
}
