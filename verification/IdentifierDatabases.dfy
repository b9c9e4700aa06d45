/** The identifier database: identifiers by filetype and file, queried by filetype. */
module IdentifierDatabases {
  import opened Wrappers
  import opened Utf8
  import opened UnicodeTable
  import opened Normalization
  import opened Words
  import opened Embedding
  import opened Ranking
  import opened PartialSorting
  import opened Repositories
  import opened Filtering

  // ----- The plain history -----

  datatype Operation =
    | AddSingle(text: Bytes, filetype: Bytes, filepath: Bytes)
    | Recreate(texts: seq<Bytes>, filetype: Bytes, filepath: Bytes)

  /** text is one of the texts, over-long ones counted as empty. */
  ghost predicate Gives(texts: seq<Bytes>, text: Bytes)
  {
    exists k :: 0 <= k < |texts| && Clipped(texts[k]) == text
  }

  ghost predicate Provides(op: Operation, filetype: Bytes, filepath: Bytes, text: Bytes)
  {
    op.filetype == filetype && op.filepath == filepath &&
    match op
    case AddSingle(t, _, _) => Clipped(t) == text
    case Recreate(ts, _, _) => Gives(ts, text)
  }

  predicate Clears(op: Operation, filetype: Bytes, filepath: Bytes)
  {
    op.Recreate? && op.filetype == filetype && op.filepath == filepath
  }

  /** text was given for the file by some operation since, or at, the last recreation of the file. */
  ghost predicate InHistory(log: seq<Operation>, filetype: Bytes, filepath: Bytes, text: Bytes)
  {
    exists i :: 0 <= i < |log| && Provides(log[i], filetype, filepath, text) &&
      forall j :: i < j < |log| ==> !Clears(log[j], filetype, filepath)
  }

  lemma HistoryNext(
    log: seq<Operation>, op: Operation, filetype: Bytes, filepath: Bytes, text: Bytes)
    ensures InHistory(log + [op], filetype, filepath, text) <==>
      Provides(op, filetype, filepath, text) ||
      (InHistory(log, filetype, filepath, text) && !Clears(op, filetype, filepath))
  {
    var next := log + [op];
    if Provides(op, filetype, filepath, text) {
      assert next[|log|] == op;
    }
    if InHistory(log, filetype, filepath, text) && !Clears(op, filetype, filepath) {
      var i :| 0 <= i < |log| && Provides(log[i], filetype, filepath, text) &&
        forall j :: i < j < |log| ==> !Clears(log[j], filetype, filepath);
      assert next[i] == log[i];
    }
    if InHistory(next, filetype, filepath, text) && !Provides(op, filetype, filepath, text) {
      var i :| 0 <= i < |next| && Provides(next[i], filetype, filepath, text) &&
        forall j :: i < j < |next| ==> !Clears(next[j], filetype, filepath);
      assert next[|log|] == op && i < |log| && next[i] == log[i];
      assert forall j :: i < j < |log| ==> next[j] == log[j];
    }
  }

  /** A text added is known for its file from then on, beside what was known. */
  lemma AddedToHistory(log: seq<Operation>, text: Bytes, filetype: Bytes, filepath: Bytes)
    ensures forall ft, fp, t :: InHistory(log + [AddSingle(text, filetype, filepath)], ft, fp, t) <==>
      InHistory(log, ft, fp, t) || (ft == filetype && fp == filepath && t == Clipped(text))
  {
    var op := AddSingle(text, filetype, filepath);
    forall ft, fp, t
      ensures InHistory(log + [op], ft, fp, t) <==>
        InHistory(log, ft, fp, t) || (ft == filetype && fp == filepath && t == Clipped(text))
    {
      HistoryNext(log, op, ft, fp, t);
    }
  }

  /** A file recreated has the texts given and no others; other files keep theirs. */
  lemma RecreatedInHistory(log: seq<Operation>, texts: seq<Bytes>, filetype: Bytes, filepath: Bytes)
    ensures forall ft, fp, t :: InHistory(log + [Recreate(texts, filetype, filepath)], ft, fp, t) <==>
      if ft == filetype && fp == filepath then exists k :: 0 <= k < |texts| && Clipped(texts[k]) == t
      else InHistory(log, ft, fp, t)
  {
    var op := Recreate(texts, filetype, filepath);
    forall ft, fp, t
      ensures InHistory(log + [op], ft, fp, t) <==>
        if ft == filetype && fp == filepath then exists k :: 0 <= k < |texts| && Clipped(texts[k]) == t
        else InHistory(log, ft, fp, t)
    {
      HistoryNext(log, op, ft, fp, t);
    }
  }

  // ----- The database -----

  type Files = map<Bytes, map<Bytes, seq<Candidate>>>

  function CandidatesIn(files: Files, filetype: Bytes, filepath: Bytes): seq<Candidate>
  {
    if filetype in files && filepath in files[filetype] then files[filetype][filepath] else []
  }

  ghost predicate HasText(candidates: seq<Candidate>, text: Bytes)
  {
    exists k :: 0 <= k < |candidates| && candidates[k].word.text == text
  }

  function WithFile(files: Files, filetype: Bytes, filepath: Bytes, candidates: seq<Candidate>): Files
  {
    var paths := if filetype in files then files[filetype] else map[];
    files[filetype := paths[filepath := candidates]]
  }

  /** Candidates are built of the texts that decode, and keep them. */
  ghost predicate KeepsText(build: Bytes -> Option<Candidate>)
  {
    forall t :: (build(t).Some? <==> Split(t).Success?) && (build(t).Some? ==> build(t).value.word.text == t)
  }

  type Batch = map<Bytes, map<Bytes, seq<Bytes>>>

  predicate Lists(batch: Batch, filetype: Bytes, filepath: Bytes)
  {
    filetype in batch && filepath in batch[filetype]
  }

  function TextsIn(batch: Batch, filetype: Bytes, filepath: Bytes): seq<Bytes>
  {
    if Lists(batch, filetype, filepath) then batch[filetype][filepath] else []
  }

  /** Between the two histories the files done got exactly their listed texts, and nothing else changed. */
  ghost predicate FilesReplaced(
    batch: Batch, done: set<(Bytes, Bytes)>, before: seq<Operation>, after: seq<Operation>)
  {
    forall ft, fp, t :: InHistory(after, ft, fp, t) <==>
      if (ft, fp) in done then Gives(TextsIn(batch, ft, fp), t) else InHistory(before, ft, fp, t)
  }

  ghost function WithPaths(done: set<(Bytes, Bytes)>, filetype: Bytes, paths: set<Bytes>): (r: set<(Bytes, Bytes)>)
    ensures forall ft, fp :: (ft, fp) in r <==> (ft, fp) in done || (ft == filetype && fp in paths)
  {
    done + set fp | fp in paths :: (filetype, fp)
  }

  lemma ReplacedMore(
    batch: Batch, done: set<(Bytes, Bytes)>, filetype: Bytes, paths: set<Bytes>,
    first: seq<Operation>, before: seq<Operation>, after: seq<Operation>)
    requires FilesReplaced(batch, done, first, before)
    requires forall ft, fp, t :: InHistory(after, ft, fp, t) <==>
      if ft == filetype && fp in paths then Gives(TextsIn(batch, ft, fp), t) else InHistory(before, ft, fp, t)
    ensures FilesReplaced(batch, WithPaths(done, filetype, paths), first, after)
  {
  }

  class IdentifierDatabase {
    const repository: Repository<Candidate>
    var files: Files
    ghost var log: seq<Operation>

    constructor (ghost rows: seq<Row>, repository: Repository<Candidate>)
      requires repository.Valid() && CandidateRepository(rows, repository)
      ensures Valid() && this.repository == repository && log == [] && files == map[]
    {
      this.repository := repository;
      files, log := map[], [];
      BuildsKeepTexts(rows, repository.build);
    }

    /** What is stored is exactly what the history says, each text with the candidate built for it. */
    ghost predicate Valid()
      reads this, repository
    {
      && repository.Valid() && repository.holdsCandidates && KeepsText(repository.build)
      && (forall ft, fp, t :: HasText(CandidatesIn(files, ft, fp), t) <==> InHistory(log, ft, fp, t))
      && (forall ft, fp, k :: 0 <= k < |CandidatesIn(files, ft, fp)| ==>
           repository.build(CandidatesIn(files, ft, fp)[k].word.text) == Some(CandidatesIn(files, ft, fp)[k]))
    }

    /** The candidates with one more, unless its text is there already. */
    static method AddMissing(current: seq<Candidate>, candidate: Candidate) returns (next: seq<Candidate>)
      ensures next == if HasText(current, candidate.word.text) then current else current + [candidate]
      ensures forall t :: HasText(next, t) <==> HasText(current, t) || t == candidate.word.text
    {
      forall t
        ensures HasText(current + [candidate], t) <==> HasText(current, t) || t == candidate.word.text
      {
        AddedText(current, candidate, t);
      }
      for k := 0 to |current|
        invariant forall j :: 0 <= j < k ==> current[j].word.text != candidate.word.text
      {
        if current[k].word.text == candidate.word.text { return current; }
      }
      return current + [candidate];
    }

    /** The file's candidates become these, as the operation says. */
    method Store(filetype: Bytes, filepath: Bytes, candidates: seq<Candidate>, ghost op: Operation)
      requires Valid() && op.filetype == filetype && op.filepath == filepath
      requires forall k :: 0 <= k < |candidates| ==> repository.build(candidates[k].word.text) == Some(candidates[k])
      requires forall t :: HasText(candidates, t) <==>
        Provides(op, filetype, filepath, t) ||
        (HasText(CandidatesIn(files, filetype, filepath), t) && !Clears(op, filetype, filepath))
      modifies this`files, this`log
      ensures Valid() && log == old(log) + [op] && files.Keys == old(files.Keys) + {filetype}
    {
      FileReplaced(files, filetype, filepath, candidates);
      files := WithFile(files, filetype, filepath, candidates);
      log := log + [op];
      forall ft, fp, t
        ensures HasText(CandidatesIn(files, ft, fp), t) <==> InHistory(log, ft, fp, t)
      {
        HistoryNext(old(log), op, ft, fp, t);
      }
    }

    /** The filetype and the file become known, with whatever candidates the file has. */
    method Touch(filetype: Bytes, filepath: Bytes)
      requires Valid()
      modifies this`files
      ensures Valid() && files.Keys == old(files.Keys) + {filetype}
      ensures forall ft, fp :: CandidatesIn(files, ft, fp) == CandidatesIn(old(files), ft, fp)
    {
      FileReplaced(files, filetype, filepath, CandidatesIn(files, filetype, filepath));
      files := WithFile(files, filetype, filepath, CandidatesIn(files, filetype, filepath));
    }

    /** False where the text does not decode; nothing is then recorded. */
    method AddSingleIdentifier(text: Bytes, filetype: Bytes, filepath: Bytes) returns (ok: bool)
      requires Valid()
      modifies this, repository
      ensures Valid()
      ensures ok <==> Split(Clipped(text)).Success?
      ensures log == if ok then old(log) + [AddSingle(text, filetype, filepath)] else old(log)
      ensures ok ==> forall ft, fp, t :: InHistory(log, ft, fp, t) <==>
        InHistory(old(log), ft, fp, t) || (ft == filetype && fp == filepath && t == Clipped(text))
      ensures files.Keys == if ok then old(files.Keys) + {filetype} else old(files.Keys)
    {
      var elements := repository.GetElements([text]);
      if elements.None? {
        return false;
      }
      assert repository.holder[repository.Clip([text][0])] == elements.value[0];
      var next := AddMissing(CandidatesIn(files, filetype, filepath), elements.value[0].value);
      Store(filetype, filepath, next, AddSingle(text, filetype, filepath));
      AddedToHistory(old(log), text, filetype, filepath);
      return true;
    }

    /** The file's candidates are replaced; a text that does not decode leaves them as they were. */
    method RecreateIdentifiers(texts: seq<Bytes>, filetype: Bytes, filepath: Bytes) returns (ok: bool)
      requires Valid()
      modifies this, repository
      ensures Valid()
      ensures ok <==> Decodable(texts)
      ensures log == if ok then old(log) + [Recreate(texts, filetype, filepath)] else old(log)
      ensures ok ==> forall ft, fp, t :: InHistory(log, ft, fp, t) <==>
        if ft == filetype && fp == filepath then exists k :: 0 <= k < |texts| && Clipped(texts[k]) == t
        else InHistory(old(log), ft, fp, t)
      ensures files.Keys == old(files.Keys) + {filetype}
    {
      Touch(filetype, filepath);
      var elements := repository.GetElements(texts);
      if elements.None? {
        return false;
      }
      var candidates := seq(|texts|, i requires 0 <= i < |texts| => elements.value[i].value);
      forall i | 0 <= i < |texts|
        ensures repository.build(Clipped(texts[i])) == Some(candidates[i])
        ensures candidates[i].word.text == Clipped(texts[i])
      {
        assert repository.holder[repository.Clip(texts[i])] == elements.value[i];
      }
      ghost var op := Recreate(texts, filetype, filepath);
      forall t
        ensures HasText(candidates, t) <==> Provides(op, filetype, filepath, t)
      {
        RecreatedText(texts, candidates, op, t);
      }
      Store(filetype, filepath, candidates, op);
      RecreatedInHistory(old(log), texts, filetype, filepath);
      return true;
    }

    /** The files of one filetype, in whatever order the map lists them, up to the first that fails: those done have
        exactly their listed texts. */
    method RecreateFiles(filetype: Bytes, paths: map<Bytes, seq<Bytes>>) returns (ok: bool, ghost done: set<Bytes>)
      requires Valid()
      modifies this, repository
      ensures Valid()
      ensures done <= paths.Keys && forall fp :: fp in done ==> Decodable(paths[fp])
      ensures forall ft, fp, t :: InHistory(log, ft, fp, t) <==>
        if ft == filetype && fp in done then Gives(paths[fp], t) else InHistory(old(log), ft, fp, t)
      ensures if ok then done == paths.Keys else exists fp :: fp in paths && !Decodable(paths[fp])
      ensures files.Keys == if paths == map[] then old(files.Keys) else old(files.Keys) + {filetype}
    {
      var todo := paths.Keys;
      done := {};
      while todo != {}
        invariant Valid() && todo == paths.Keys - done && done <= paths.Keys
        invariant forall fp :: fp in done ==> Decodable(paths[fp])
        invariant forall ft, fp, t :: InHistory(log, ft, fp, t) <==>
          if ft == filetype && fp in done then Gives(paths[fp], t) else InHistory(old(log), ft, fp, t)
        invariant files.Keys == if done == {} then old(files.Keys) else old(files.Keys) + {filetype}
        decreases todo
      {
        var filepath :| filepath in todo;
        ghost var before := log;
        var each := RecreateIdentifiers(paths[filepath], filetype, filepath);
        if !each { return false, done; }
        forall ft, fp, t
          ensures InHistory(log, ft, fp, t) <==>
            if ft == filetype && fp == filepath then Gives(paths[filepath], t) else InHistory(before, ft, fp, t)
        {
          HistoryNext(before, Recreate(paths[filepath], filetype, filepath), ft, fp, t);
        }
        todo, done := todo - {filepath}, done + {filepath};
      }
      return true, done;
    }

    /** The batch form succeeds if and only if every listed text decodes. The files done, all of them then, have
        exactly their listed texts, every other file its old ones. */
    method RecreateAllIdentifiers(batch: Batch) returns (ok: bool, ghost done: set<(Bytes, Bytes)>)
      requires Valid()
      modifies this, repository
      ensures Valid()
      ensures forall ft, fp :: (ft, fp) in done ==> Lists(batch, ft, fp) && Decodable(TextsIn(batch, ft, fp))
      ensures FilesReplaced(batch, done, old(log), log)
      ensures if ok then forall ft, fp :: Lists(batch, ft, fp) ==> (ft, fp) in done
        else exists ft, fp :: Lists(batch, ft, fp) && !Decodable(TextsIn(batch, ft, fp))
    {
      var todo := batch.Keys;
      done := {};
      while todo != {}
        invariant Valid() && todo <= batch.Keys
        invariant forall ft, fp :: (ft, fp) in done ==> Lists(batch, ft, fp) && Decodable(TextsIn(batch, ft, fp))
        invariant forall ft, fp :: Lists(batch, ft, fp) ==> ((ft, fp) in done <==> ft !in todo)
        invariant FilesReplaced(batch, done, old(log), log)
        decreases todo
      {
        var filetype :| filetype in todo;
        var each: bool;
        ghost var paths, before := {}, log;
        each, paths := RecreateFiles(filetype, batch[filetype]);
        ReplacedMore(batch, done, filetype, paths, old(log), before, log);
        done := WithPaths(done, filetype, paths);
        if !each {
          ghost var fp :| fp in batch[filetype] && !Decodable(batch[filetype][fp]);
          assert Lists(batch, filetype, fp) && TextsIn(batch, filetype, fp) == batch[filetype][fp];
          return false, done;
        }
        todo := todo - {filetype};
      }
      return true, done;
    }

    /** One file's candidates, those with a text seen before left out. */
    method ScanFile(candidates: seq<Candidate>, query: Word, seen: set<Bytes>, results: seq<MatchResult>)
      returns (seen': set<Bytes>, results': seq<MatchResult>)
      requires forall k :: 0 <= k < |candidates| ==> repository.build(candidates[k].word.text) == Some(candidates[k])
      requires ListsOnce(repository.build, query, seen, results)
      ensures SeenWith(seen', seen, candidates)
      ensures ListsOnce(repository.build, query, seen', results')
    {
      seen', results' := seen, results;
      for k := 0 to |candidates|
        invariant SeenWith(seen', seen, candidates[..k])
        invariant ListsOnce(repository.build, query, seen', results')
      {
        var candidate := candidates[k];
        SeenMore(seen', seen, candidates, k);
        if candidate.word.text in seen' {
          assert seen' + {candidate.word.text} == seen';
          continue;
        }
        ListsOneMore(repository.build, query, seen', results', candidate);
        seen' := seen' + {candidate.word.text};
        if candidate.word.IsEmpty() || !candidate.word.ContainsBytes(query) {
          continue;
        }
        var result := QueryMatchResult(candidate, query);
        if result.Match? {
          results' := results' + [result];
        }
      }
      assert candidates[..|candidates|] == candidates;
    }

    static method KeepBest(query: Word, results: seq<MatchResult>, k: nat) returns (best: seq<MatchResult>)
      requires Within(results, ResultsFor(query))
      ensures IsTopK(Before, results, k, best)
    {
      BeforeIsStrictWeakOrder(query);
      var a := new MatchResult[|results|](i requires 0 <= i < |results| => results[i]);
      assert a[..] == results;
      var kept := PartialSort(Before, a, k, ResultsFor(query));
      return a[..kept];
    }

    /** None exactly where a filetype is known and the query does not decode. */
    method ResultsForQueryAndType(
      table: seq<RawCodePoint>, ghost rows: seq<Row>, queryText: Bytes, filetype: Bytes, maxResults: nat)
      returns (r: Option<seq<MatchResult>>)
      requires Valid() && TableFor(table, rows) && UnicodeData(rows)
      ensures r.None? <==> filetype in files && Split(queryText).Failure?
      ensures r.Some? && filetype !in files ==> r.value == [] && forall fp, t :: !InHistory(log, filetype, fp, t)
      ensures r.Some? && filetype in files ==> exists query, seen, results ::
        && (forall t :: t in seen <==> exists filepath :: InHistory(log, filetype, filepath, t))
        && Answers(rows, repository.build, queryText, query, seen, results, maxResults, r.value)
    {
      if filetype !in files {
        UnknownFiletype(filetype);
        return Some([]);
      }
      var query := MakeWord(table, rows, queryText);
      if query.Failure? { return None; }
      var seen, results := ScanFiles(filetype, query.value);
      assert Within(results, ResultsFor(query.value));
      var best := KeepBest(query.value, results, maxResults);
      assert Answers(rows, repository.build, queryText, query.value, seen, results, maxResults, best);
      return Some(best);
    }

    /** The loop over the files of a filetype. */
    method ScanFiles(filetype: Bytes, query: Word) returns (seen: set<Bytes>, results: seq<MatchResult>)
      requires Valid() && filetype in files
      ensures forall t :: t in seen <==> exists filepath :: InHistory(log, filetype, filepath, t)
      ensures ListsOnce(repository.build, query, seen, results)
    {
      var paths := files[filetype];
      seen, results := {}, [];
      var todo := paths.Keys;
      while todo != {}
        invariant todo <= paths.Keys
        invariant forall t :: t in seen <==> exists fp :: fp in paths && fp !in todo && HasText(paths[fp], t)
        invariant ListsOnce(repository.build, query, seen, results)
        decreases todo
      {
        var filepath :| filepath in todo;
        assert CandidatesIn(files, filetype, filepath) == paths[filepath];
        seen, results := ScanFile(paths[filepath], query, seen, results);
        todo := todo - {filepath};
      }
      forall t
        ensures t in seen <==> exists filepath :: InHistory(log, filetype, filepath, t)
      {
        KnownTexts(t, filetype);
      }
    }

    lemma UnknownFiletype(filetype: Bytes)
      requires Valid() && filetype !in files
      ensures forall fp, t :: !InHistory(log, filetype, fp, t)
    {
      forall t, fp
        ensures !InHistory(log, filetype, fp, t)
      {
        assert !HasText(CandidatesIn(files, filetype, fp), t);
      }
    }

    lemma KnownTexts(text: Bytes, filetype: Bytes)
      requires Valid() && filetype in files
      ensures (exists filepath :: InHistory(log, filetype, filepath, text)) <==>
        exists fp :: fp in files[filetype] && HasText(files[filetype][fp], text)
    {
      if fp :| InHistory(log, filetype, fp, text) {
        assert HasText(CandidatesIn(files, filetype, fp), text);
      }
      if fp :| fp in files[filetype] && HasText(files[filetype][fp], text) {
        assert HasText(CandidatesIn(files, filetype, fp), text);
      }
    }
  }

  /** No candidate constructor fails on the texts. */
  predicate Decodable(texts: seq<Bytes>)
  {
    forall i :: 0 <= i < |texts| ==> Split(Clipped(texts[i])).Success?
  }

  /** results holds, once each, the results of the texts seen that match the query. */
  ghost predicate ListsOnce(build: Bytes -> Option<Candidate>, query: Word, seen: set<Bytes>, results: seq<MatchResult>)
  {
    && (forall t :: t in seen ==> build(t).Some?)
    && (forall i :: 0 <= i < |results| ==>
         && ResultFor(query, results[i]) && results[i].candidate.word.text in seen
         && build(results[i].candidate.word.text) == Some(results[i].candidate)
         && Passes(results[i].candidate, query) && results[i] == ResultOf(results[i].candidate, query))
    && (forall i, j :: 0 <= i < j < |results| ==> results[i].candidate.word.text != results[j].candidate.word.text)
    && (forall t :: t in seen && Passes(build(t).value, query) ==> ResultOf(build(t).value, query) in results)
  }

  /** answer is the top k of the results of the texts seen for the query spelled queryText. */
  ghost predicate Answers(
    rows: seq<Row>, build: Bytes -> Option<Candidate>, queryText: Bytes, query: Word, seen: set<Bytes>,
    results: seq<MatchResult>, k: nat, answer: seq<MatchResult>)
  {
    WordOf(rows, queryText, query) && ListsOnce(build, query, seen, results) && IsTopK(Before, results, k, answer)
  }

  lemma ListsOneMore(
    build: Bytes -> Option<Candidate>, query: Word, seen: set<Bytes>, results: seq<MatchResult>, candidate: Candidate)
    requires ListsOnce(build, query, seen, results)
    requires build(candidate.word.text) == Some(candidate) && candidate.word.text !in seen
    ensures ListsOnce(build, query, seen + {candidate.word.text},
      if Passes(candidate, query) then results + [ResultOf(candidate, query)] else results)
  {
    ResultsBounded(candidate, query);
    ResultCandidate(candidate, query);
    var more := results + [ResultOf(candidate, query)];
    assert more[|results|] == ResultOf(candidate, query);
    assert forall r :: r in results ==> r in more;
  }

  lemma FileReplaced(files: Files, filetype: Bytes, filepath: Bytes, candidates: seq<Candidate>)
    ensures forall ft, fp ::
      CandidatesIn(WithFile(files, filetype, filepath, candidates), ft, fp) ==
      (if ft == filetype && fp == filepath then candidates else CandidatesIn(files, ft, fp))
  {
  }

  lemma AddedText(current: seq<Candidate>, candidate: Candidate, text: Bytes)
    ensures HasText(current + [candidate], text) <==> HasText(current, text) || text == candidate.word.text
  {
    var next := current + [candidate];
    assert next[|current|] == candidate;
    assert forall k :: 0 <= k < |current| ==> next[k] == current[k];
  }

  /** more is seen and the texts of the candidates. */
  ghost predicate SeenWith(more: set<Bytes>, seen: set<Bytes>, candidates: seq<Candidate>)
  {
    forall t :: t in more <==> t in seen || HasText(candidates, t)
  }

  lemma SeenMore(more: set<Bytes>, seen: set<Bytes>, candidates: seq<Candidate>, k: nat)
    requires k < |candidates| && SeenWith(more, seen, candidates[..k])
    ensures SeenWith(more + {candidates[k].word.text}, seen, candidates[..k + 1])
  {
    assert candidates[..k + 1] == candidates[..k] + [candidates[k]];
    forall t
      ensures HasText(candidates[..k + 1], t) <==> HasText(candidates[..k], t) || t == candidates[k].word.text
    {
      AddedText(candidates[..k], candidates[k], t);
    }
  }

  lemma RecreatedText(texts: seq<Bytes>, candidates: seq<Candidate>, op: Operation, text: Bytes)
    requires op.Recreate? && op.texts == texts && |candidates| == |texts|
    requires forall i :: 0 <= i < |texts| ==> candidates[i].word.text == Clipped(texts[i])
    ensures HasText(candidates, text) <==> Provides(op, op.filetype, op.filepath, text)
  {
  }

  lemma ListedAlike(
    build: Bytes -> Option<Candidate>, query: Word, seen: set<Bytes>, xs: seq<MatchResult>, ys: seq<MatchResult>,
    r: MatchResult)
    requires ListsOnce(build, query, seen, xs) && ListsOnce(build, query, seen, ys) && r in xs
    ensures r in ys
  {
    var i :| 0 <= i < |xs| && xs[i] == r;
    assert xs[i].candidate.word.text in seen;
  }

  ghost predicate PassingText(build: Bytes -> Option<Candidate>, query: Word, text: Bytes)
  {
    build(text).Some? && Passes(build(text).value, query)
  }

  /** Of the texts seen that pass, no two have the same swapped text. */
  ghost predicate SwappedTextsDiffer(build: Bytes -> Option<Candidate>, query: Word, seen: set<Bytes>)
  {
    forall t, u :: t in seen && u in seen && t != u && PassingText(build, query, t) && PassingText(build, query, u) ==>
      build(t).value.caseSwappedText != build(u).value.caseSwappedText
  }

  /** Whatever order the files are listed in, answers agree place by place up to rank ties, and exactly where the
      swapped texts of those that pass are distinct. */
  lemma AnswersAgree(
    build: Bytes -> Option<Candidate>, query: Word, seen: set<Bytes>, k: nat,
    xs: seq<MatchResult>, ys: seq<MatchResult>, a: seq<MatchResult>, b: seq<MatchResult>)
    requires ListsOnce(build, query, seen, xs) && ListsOnce(build, query, seen, ys)
    requires IsTopK(Before, xs, k, a) && IsTopK(Before, ys, k, b)
    ensures |a| == |b| && forall i :: 0 <= i < |a| ==> Tied(Before, a[i], b[i])
    ensures SwappedTextsDiffer(build, query, seen) ==> a == b
  {
    forall r
      ensures r in xs <==> r in ys
    {
      if r in xs { ListedAlike(build, query, seen, xs, ys, r); }
      if r in ys { ListedAlike(build, query, seen, ys, xs, r); }
    }
    SameMembersPermuted(xs, ys);
    TopKOfPermutation(Before, ys, xs, k, b);
    BeforeIsStrictWeakOrder(query);
    assert Within(xs, ResultsFor(query));
    TopKUpToTies(Before, ResultsFor(query), xs, k, a, b);
    if SwappedTextsDiffer(build, query, seen) {
      forall x, y | x in xs && y in xs && Tied(Before, x, y)
        ensures x == y
      {
        if x.candidate.caseSwappedText != y.candidate.caseSwappedText {
          DistinctTextsRanked(query, x, y);
        }
        assert PassingText(build, query, x.candidate.word.text) && PassingText(build, query, y.candidate.word.text);
        assert x.candidate.word.text == y.candidate.word.text;
      }
      TopKUnique(Before, ResultsFor(query), xs, k, a, b);
    }
  }

  /** The texts among those seen that the query matches. */
  ghost function MatchingTexts(build: Bytes -> Option<Candidate>, query: Word, seen: set<Bytes>): set<Bytes>
  {
    set t | t in seen && build(t).Some? && Eligible(build(t).value, query)
  }

  lemma {:induction false} DistinctTexts(xs: seq<MatchResult>, n: nat)
    requires n <= |xs| && forall i :: 0 <= i < |xs| ==> xs[i].Match?
    requires forall i, j :: 0 <= i < j < |xs| ==> xs[i].candidate.word.text != xs[j].candidate.word.text
    ensures |set i | 0 <= i < n :: xs[i].candidate.word.text| == n
  {
    if n > 0 {
      DistinctTexts(xs, n - 1);
      assert (set i | 0 <= i < n :: xs[i].candidate.word.text) ==
        (set i | 0 <= i < n - 1 :: xs[i].candidate.word.text) + {xs[n - 1].candidate.word.text};
    }
  }

  lemma ListedCount(
    build: Bytes -> Option<Candidate>, query: Word, seen: set<Bytes>, xs: seq<MatchResult>)
    requires ListsOnce(build, query, seen, xs) && KeepsText(build)
    requires forall t :: t in seen ==> Comparable(build(t).value, query)
    ensures |xs| == |MatchingTexts(build, query, seen)|
  {
    DistinctTexts(xs, |xs|);
    var texts := set i | 0 <= i < |xs| :: xs[i].candidate.word.text;
    forall t
      ensures t in texts <==> t in MatchingTexts(build, query, seen)
    {
      if t in texts {
        var i :| 0 <= i < |xs| && xs[i].candidate.word.text == t;
        PassesIffEligible(xs[i].candidate, query);
      }
      if t in MatchingTexts(build, query, seen) {
        PassesIffEligible(build(t).value, query);
        var i :| 0 <= i < |xs| && xs[i] == ResultOf(build(t).value, query);
        ResultCandidate(build(t).value, query);
        assert xs[i].candidate == build(t).value;
        assert xs[i].candidate.word.text in texts;
      }
    }
    assert texts == MatchingTexts(build, query, seen);
  }

  lemma AnswerBest(
    build: Bytes -> Option<Candidate>, query: Word, seen: set<Bytes>, k: nat, xs: seq<MatchResult>, a: seq<MatchResult>)
    requires ListsOnce(build, query, seen, xs) && IsTopK(Before, xs, k, a) && KeepsText(build)
    requires forall t :: t in seen ==> Comparable(build(t).value, query)
    ensures forall i :: 0 <= i < |a| ==> a[i].Match?
    ensures forall i, j :: 0 <= i < j < |a| ==>
      a[i].candidate.word.text != a[j].candidate.word.text && !Before(a[j], a[i])
    ensures forall i :: 0 <= i < |a| ==>
      && a[i].candidate.word.text in seen && build(a[i].candidate.word.text) == Some(a[i].candidate)
      && Eligible(a[i].candidate, query) && a[i] == ResultOf(a[i].candidate, query)
    ensures forall t, j ::
      t in seen && Eligible(build(t).value, query) && 0 <= j < |a| && ResultOf(build(t).value, query) !in a ==>
      !Before(ResultOf(build(t).value, query), a[j])
    ensures var m := |MatchingTexts(build, query, seen)|; |a| == if 0 < k <= m then k else m
    ensures k == 0 ==> forall t :: t in seen && Eligible(build(t).value, query) ==> ResultOf(build(t).value, query) in a
  {
    var rest :| Selects(Before, xs, a, rest);
    forall i | 0 <= i < |a|
      ensures a[i] in xs && Eligible(a[i].candidate, query)
    {
      assert a[i] in multiset(xs);
      PassesIffEligible(a[i].candidate, query);
    }
    assert NoRepeats(xs);
    forall i, j | 0 <= i < j < |a|
      ensures a[i].candidate.word.text != a[j].candidate.word.text
    {
      if a[i] == a[j] {
        KeptOnce(xs, a, rest, i, j);
      }
    }
    forall t | t in seen && Eligible(build(t).value, query)
      ensures ResultOf(build(t).value, query) in a || ResultOf(build(t).value, query) in rest
    {
      PassesIffEligible(build(t).value, query);
      assert ResultOf(build(t).value, query) in multiset(a) + multiset(rest);
    }
    ListedCount(build, query, seen, xs);
    if k == 0 {
      assert |multiset(a) + multiset(rest)| == |multiset(xs)| == |xs|;
      assert rest == [];
    }
  }

  predicate Answered(a: seq<MatchResult>, text: Bytes)
  {
    exists i :: 0 <= i < |a| && a[i].Match? && a[i].candidate.word.text == text
  }

  /** The text has a result, and that is not ranked before r. */
  predicate NotBetter(build: Bytes -> Option<Candidate>, query: Word, text: Bytes, r: MatchResult)
  {
    build(text).Some? && r.Match? &&
    var omitted := ResultOf(build(text).value, query);
    omitted.Match? && !Less(omitted, r)
  }

  /** Results of some of the texts, each once, in order, none of those left out ranked before one of them. */
  ghost predicate BestOf(build: Bytes -> Option<Candidate>, query: Word, texts: set<Bytes>, a: seq<MatchResult>)
  {
    && (forall i :: 0 <= i < |a| ==>
         && a[i].Match? && a[i].candidate.word.text in texts && build(a[i].candidate.word.text) == Some(a[i].candidate)
         && a[i] == ResultOf(a[i].candidate, query))
    && (forall i, j :: 0 <= i < j < |a| ==>
         a[i].candidate.word.text != a[j].candidate.word.text && !Less(a[j], a[i]))
    && (forall t, j :: t in texts && !Answered(a, t) && 0 <= j < |a| ==> NotBetter(build, query, t, a[j]))
  }

  /** An answer holds the min(k, m) best of the m texts seen that match, all of them when k is 0. */
  lemma AnswerMeaning(
    build: Bytes -> Option<Candidate>, query: Word, seen: set<Bytes>, k: nat, xs: seq<MatchResult>, a: seq<MatchResult>)
    requires ListsOnce(build, query, seen, xs) && IsTopK(Before, xs, k, a) && KeepsText(build)
    requires forall t :: t in seen ==> Comparable(build(t).value, query)
    ensures var m := |MatchingTexts(build, query, seen)|; |a| == if 0 < k <= m then k else m
    ensures BestOf(build, query, MatchingTexts(build, query, seen), a)
    ensures k == 0 ==> forall t :: t in MatchingTexts(build, query, seen) ==> Answered(a, t)
  {
    AnswerBest(build, query, seen, k, xs, a);
    forall i, j | 0 <= i < j < |a|
      ensures !Less(a[j], a[i])
    {
      BeforeIsLess(a[j], a[i]);
    }
    forall t | t in MatchingTexts(build, query, seen)
      ensures ResultOf(build(t).value, query).Match?
      ensures ResultOf(build(t).value, query) in a ==> Answered(a, t)
    {
      PassesIffEligible(build(t).value, query);
      ResultCandidate(build(t).value, query);
    }
    forall t, j | t in MatchingTexts(build, query, seen) && !Answered(a, t) && 0 <= j < |a|
      ensures NotBetter(build, query, t, a[j])
    {
      BeforeIsLess(ResultOf(build(t).value, query), a[j]);
    }
  }

  lemma BeforeIsLess(a: MatchResult, b: MatchResult)
    requires a.Match? && b.Match?
    ensures Before(a, b) <==> Less(a, b)
  {
  }

  /** The same of an answer to a query text: with computed normal forms and folds that share their base, it holds the
      min(k, m) best of the m texts seen that are not empty and embed the query, each once and in order. */
  lemma AnswerForTexts(
    rows: seq<Row>, build: Bytes -> Option<Candidate>, queryText: Bytes, query: Word, seen: set<Bytes>,
    xs: seq<MatchResult>, k: nat, a: seq<MatchResult>)
    requires Answers(rows, build, queryText, query, seen, xs, k, a)
    requires ComputedNormals(rows) && Builds(rows, build)
    requires forall t :: t in seen ==> FoldsShareBase(query.characters, build(t).value.word.characters)
    ensures forall t :: t in seen ==> (t in MatchingTexts(build, query, seen) <==>
      t != [] && Embeddable(Smart, query.characters, build(t).value.word.characters))
    ensures var m := |MatchingTexts(build, query, seen)|; |a| == if 0 < k <= m then k else m
    ensures BestOf(build, query, MatchingTexts(build, query, seen), a)
  {
    forall t | t in seen
      ensures Comparable(build(t).value, query)
      ensures build(t).value.word.characters != [] <==> t != []
    {
      assert CandidateMade(rows, t, build(t));
      BuiltComparable(rows, t, queryText, build(t).value, query);
      EmptyWord(rows, t, build(t).value.word);
    }
    BuildsKeepTexts(rows, build);
    AnswerMeaning(build, query, seen, k, xs, a);
  }

  lemma BuildsKeepTexts(rows: seq<Row>, build: Bytes -> Option<Candidate>)
    requires Builds(rows, build)
    ensures KeepsText(build)
  {
    forall t
      ensures build(t).Some? <==> Split(t).Success?
      ensures build(t).Some? ==> build(t).value.word.text == t
    {
      assert CandidateMade(rows, t, build(t));
    }
  }
}
