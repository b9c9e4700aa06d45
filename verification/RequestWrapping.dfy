/** The request object: fields computed on first reading, cached, and reset by assignments to the start. */
module RequestWrapping {
  import opened Wrappers
  import opened Utf8
  import opened LineOffsets

  datatype Key = Lines | LineValue | LineBytes | ColumnCodepoint | StartCodepoint | StartColumn | Query | Prefix

  datatype Value = LineList(lines: seq<Str>) | Text(text: Str) | Raw(bytes: Bytes) | Number(n: int)

  /** Who decided where the completion starts. */
  datatype Start = Computed | ByColumn(column: int) | ByCodepoint(codepoint: int)

  datatype Outcome = Assigned | ReadOnly | DecodeFailed

  // ----- What each field is, computed from scratch -----

  /** Python's s[i], None for IndexError. */
  function Index<T>(s: seq<T>, i: int): Option<T>
  {
    if 0 <= i < |s| then Some(s[i]) else if -|s| <= i < 0 then Some(s[|s| + i]) else None
  }

  /** Python's s[from:to]. */
  function Slice<T>(s: seq<T>, from: int, to: int): seq<T>
  {
    var lo, hi := SliceEnd(|s|, from), SliceEnd(|s|, to);
    if lo <= hi then s[lo..hi] else []
  }

  function SplitLines(contents: Str): (lines: seq<Str>)
    ensures lines != []
  {
    if contents == [] then [[]]
    else
      var rest := SplitLines(contents[1..]);
      if contents[0] == 10 then [[]] + rest else [[contents[0]] + rest[0]] + rest[1..]
  }

  function JoinLines(lines: seq<Str>): Str
    requires lines != []
  {
    if |lines| == 1 then lines[0] else lines[0] + [10] + JoinLines(lines[1..])
  }

  /** The lines hold no newline and, joined by newlines, are the contents. */
  lemma {:induction false} LinesJoin(contents: Str)
    ensures JoinLines(SplitLines(contents)) == contents
    ensures forall i :: 0 <= i < |SplitLines(contents)| ==> 10 !in SplitLines(contents)[i]
  {
    if contents != [] {
      LinesJoin(contents[1..]);
      var rest := SplitLines(contents[1..]);
      var lines := SplitLines(contents);
      if contents[0] == 10 {
        assert lines[1..] == rest;
        assert JoinLines(lines) == [] + [10] + contents[1..];
      } else {
        assert lines[1..] == rest[1..];
        assert JoinLines(lines) == [contents[0]] + JoinLines(rest);
      }
    }
  }

  /** The least start of an identifier that ends at index, or index where there is none. */
  function StartOfIdentifier(isIdentifier: Str -> bool, text: Str, i: nat, index: nat): nat
    requires i <= index <= |text|
    decreases index - i
  {
    if i == index then index
    else if isIdentifier(text[i..index]) then i
    else StartOfIdentifier(isIdentifier, text, i + 1, index)
  }

  function LongestIdentifierStart(isIdentifier: Str -> bool, text: Str, index: int): int
  {
    if text == [] || index < 1 || index > |text| then index else StartOfIdentifier(isIdentifier, text, 0, index)
  }

  lemma {:induction false} IdentifierStartIsLeast(isIdentifier: Str -> bool, text: Str, i: nat, index: nat)
    requires i <= index <= |text|
    ensures var r := StartOfIdentifier(isIdentifier, text, i, index);
      && i <= r <= index
      && (r < index ==> isIdentifier(text[r..index]))
      && forall k :: i <= k < r ==> !isIdentifier(text[k..index])
    decreases index - i
  {
    if i < index && !isIdentifier(text[i..index]) {
      IdentifierStartIsLeast(isIdentifier, text, i + 1, index);
    }
  }

  /** The search starts at 0; an index outside the text is returned as it is. */
  lemma LongestIdentifier(isIdentifier: Str -> bool, text: Str, index: int)
    ensures var r := LongestIdentifierStart(isIdentifier, text, index);
      if 1 <= index <= |text| then
        && 0 <= r <= index
        && (r < index ==> isIdentifier(text[r..index]))
        && forall k :: 0 <= k < r ==> !isIdentifier(text[k..index])
      else r == index
  {
    if 1 <= index <= |text| {
      IdentifierStartIsLeast(isIdentifier, text, 0, index);
    }
  }

  method StartOfLongestIdentifierEndingAtIndex(isIdentifier: Str -> bool, text: Str, index: int) returns (r: int)
    ensures r == LongestIdentifierStart(isIdentifier, text, index)
    ensures text == [] || index < 1 || index > |text| ==> r == index
    ensures 1 <= index <= |text| ==>
      && 0 <= r <= index
      && (r < index ==> isIdentifier(text[r..index]))
      && forall k :: 0 <= k < r ==> !isIdentifier(text[k..index])
  {
    LongestIdentifier(isIdentifier, text, index);
    if text == [] || index < 1 || index > |text| { return index; }
    for i := 0 to index
      invariant StartOfIdentifier(isIdentifier, text, 0, index) == StartOfIdentifier(isIdentifier, text, i, index)
    {
      if isIdentifier(text[i..index]) { return i; }
    }
    return index;
  }

  /** None stands for UnicodeDecodeError: the column falls inside a character. */
  function CompletionStartCodepoint(isIdentifier: Str -> bool, line: Str, columnNum: int): Option<int>
  {
    match ByteOffsetToCodepointOffset(line, columnNum)
    case None => None
    case Some(c) => Some(LongestIdentifierStart(isIdentifier, line, c - 1) + 1)
  }

  // ----- Fields from scratch -----

  /** What a client sends of its position, and the server's idea of an identifier. */
  datatype Position = Position(contents: Str, lineNum: int, columnNum: int, isIdentifier: Str -> bool)
  {
    function CurrentLine(): Str
    {
      var line := Index(SplitLines(contents), lineNum - 1);
      if line.Some? then line.value else []
    }

    function StartCodepointOf(s: Start): Option<int>
    {
      match s
      case Computed => CompletionStartCodepoint(isIdentifier, CurrentLine(), columnNum)
      case ByColumn(b) => ByteOffsetToCodepointOffset(CurrentLine(), b)
      case ByCodepoint(c) => Some(c)
    }

    function StartColumnOf(s: Start): Option<int>
    {
      match s
      case Computed =>
        (match CompletionStartCodepoint(isIdentifier, CurrentLine(), columnNum)
         case None => None
         case Some(c) => Some(CodepointOffsetToByteOffset(CurrentLine(), c)))
      case ByColumn(b) => Some(b)
      case ByCodepoint(c) => Some(CodepointOffsetToByteOffset(CurrentLine(), c))
    }

    /** The value of a field worked out afresh; None where that raises UnicodeDecodeError. */
    function FromScratch(key: Key, s: Start): Option<Value>
    {
      var line, cursor := CurrentLine(), ByteOffsetToCodepointOffset(CurrentLine(), columnNum);
      match key
      case Lines => Some(LineList(SplitLines(contents)))
      case LineValue => Some(Text(line))
      case LineBytes => Some(Raw(ToBytes(line)))
      case ColumnCodepoint => if cursor.None? then None else Some(Number(cursor.value))
      case StartCodepoint => if StartCodepointOf(s).None? then None else Some(Number(StartCodepointOf(s).value))
      case StartColumn => if StartColumnOf(s).None? then None else Some(Number(StartColumnOf(s).value))
      case Query =>
        if StartCodepointOf(s).None? || cursor.None? then None
        else Some(Text(Slice(line, StartCodepointOf(s).value - 1, cursor.value - 1)))
      case Prefix =>
        if StartCodepointOf(s).None? then None
        else Some(Text(SliceTo(line, StartCodepointOf(s).value - 1)))
    }

    /** Where the assigned start is an offset of the line. */
    ghost predicate OnLine(s: Start)
    {
      match s
      case Computed => true
      case ByColumn(b) => Boundary(CurrentLine(), b)
      case ByCodepoint(c) => 1 <= c <= |CurrentLine()| + 1
    }
  }

  /** The fields an assignment to the start leaves as they are. */
  predicate StartIndependent(key: Key)
  {
    key in {Lines, LineValue, LineBytes, ColumnCodepoint}
  }

  lemma StartDoesNotMatter(p: Position, key: Key, s: Start, t: Start)
    requires StartIndependent(key)
    ensures p.FromScratch(key, s) == p.FromScratch(key, t)
  {
  }

  /** The cache after an assignment: both offsets of the new start, and nothing that depended on the old one. */
  lemma AssignedCacheValid(
    p: Position, before: map<Key, Value>, after: map<Key, Value>, s: Start, t: Start)
    requires forall key :: key in before ==> p.FromScratch(key, s) == Some(before[key])
    requires p.StartColumnOf(t).Some? && p.StartCodepointOf(t).Some?
    requires after == before[StartColumn := Number(p.StartColumnOf(t).value)]
                            [StartCodepoint := Number(p.StartCodepointOf(t).value)] - {Prefix, Query}
    ensures forall key :: key in after ==> p.FromScratch(key, t) == Some(after[key])
  {
    forall key | key in after
      ensures p.FromScratch(key, t) == Some(after[key])
    {
      if StartIndependent(key) {
        StartDoesNotMatter(p, key, s, t);
      } else {
        assert key == StartColumn || key == StartCodepoint;
      }
    }
  }

  lemma ComputedStartOnLine(p: Position)
    ensures var c := CompletionStartCodepoint(p.isIdentifier, p.CurrentLine(), p.columnNum);
      c.Some? ==> 1 <= c.value <= |p.CurrentLine()| + 1
  {
    var line, c := p.CurrentLine(), ByteOffsetToCodepointOffset(p.CurrentLine(), p.columnNum);
    CodepointInRange(line, p.columnNum);
    if c.Some? && line != [] && c.value - 1 >= 1 {
      IdentifierStartIsLeast(p.isIdentifier, line, 0, c.value - 1);
    }
  }

  /** The computed start is the first from which an identifier reaches the cursor, or else the cursor itself. */
  lemma ComputedStart(p: Position, cursor: int) returns (start: int)
    requires ByteOffsetToCodepointOffset(p.CurrentLine(), p.columnNum) == Some(cursor)
    ensures p.FromScratch(StartCodepoint, Computed) == Some(Number(start))
    ensures p.FromScratch(ColumnCodepoint, Computed) == Some(Number(cursor))
    ensures 1 <= start <= cursor <= |p.CurrentLine()| + 1
    ensures start < cursor ==> p.isIdentifier(p.CurrentLine()[start - 1..cursor - 1])
    ensures var end := cursor - 1; forall k :: 0 <= k < start - 1 ==> !p.isIdentifier(p.CurrentLine()[k..end])
  {
    var line := p.CurrentLine();
    CodepointInRange(line, p.columnNum);
    LongestIdentifier(p.isIdentifier, line, cursor - 1);
    start := LongestIdentifierStart(p.isIdentifier, line, cursor - 1) + 1;
  }

  /** The current line is line lineNum of the contents, counted from 1; from the end for a negative index, as Python
      does; empty where there is none. */
  lemma CurrentLineMeaning(p: Position, s: Start)
    ensures var lines := SplitLines(p.contents);
      && p.FromScratch(Lines, s) == Some(LineList(lines))
      && (1 <= p.lineNum <= |lines| ==> p.FromScratch(LineValue, s) == Some(Text(lines[p.lineNum - 1])))
      && (1 - |lines| <= p.lineNum <= 0 ==>
           p.FromScratch(LineValue, s) == Some(Text(lines[|lines| + p.lineNum - 1])))
      && (p.lineNum > |lines| || p.lineNum < 1 - |lines| ==> p.FromScratch(LineValue, s) == Some(Text([])))
    ensures p.FromScratch(LineValue, s) == Some(Text(p.CurrentLine()))
    ensures p.FromScratch(LineBytes, s) == Some(Raw(EncodeAll(p.CurrentLine())))
  {
  }

  /** The two start offsets are conversions of each other exactly while the start lies on the line. */
  lemma StartOffsetsConvert(p: Position, s: Start)
    requires p.StartColumnOf(s).Some? && p.StartCodepointOf(s).Some?
    ensures var column, codepoint := p.StartColumnOf(s).value, p.StartCodepointOf(s).value;
      (CodepointOffsetToByteOffset(p.CurrentLine(), codepoint) == column &&
       ByteOffsetToCodepointOffset(p.CurrentLine(), column) == Some(codepoint)) <==> p.OnLine(s)
  {
    var line := p.CurrentLine();
    match s {
      case Computed =>
        ComputedStartOnLine(p);
        CodepointRoundTrip(line, p.StartCodepointOf(s).value);
      case ByColumn(b) =>
        ByteRoundTrip(line, b);
      case ByCodepoint(c) =>
        CodepointInRange(line, CodepointOffsetToByteOffset(line, c));
        if 1 <= c <= |line| + 1 {
          CodepointRoundTrip(line, c);
        }
    }
  }

  lemma StartOnLine(p: Position, s: Start)
    requires p.OnLine(s) && p.StartCodepointOf(s).Some?
    ensures 1 <= p.StartCodepointOf(s).value <= |p.CurrentLine()| + 1
  {
    match s {
      case Computed => ComputedStartOnLine(p);
      case ByColumn(b) => CodepointInRange(p.CurrentLine(), b);
      case ByCodepoint(c) =>
    }
  }

  /** Prefix and query make up the line to the cursor exactly when the place where the line is cut does not pass it. */
  lemma PrefixAndQuery(p: Position, s: Start, prefix: Str, query: Str, cursor: int)
    requires p.FromScratch(Prefix, s) == Some(Text(prefix)) && p.FromScratch(Query, s) == Some(Text(query))
    requires ByteOffsetToCodepointOffset(p.CurrentLine(), p.columnNum) == Some(cursor)
    ensures prefix + query == SliceTo(p.CurrentLine(), cursor - 1) <==>
      SliceEnd(|p.CurrentLine()|, p.StartCodepointOf(s).value - 1) <= cursor - 1
    ensures p.OnLine(s) ==>
      (prefix + query == SliceTo(p.CurrentLine(), cursor - 1) <==> p.StartCodepointOf(s).value <= cursor)
  {
    if p.OnLine(s) { StartOnLine(p, s); }
    CodepointInRange(p.CurrentLine(), p.columnNum);
    var line, from := p.CurrentLine(), p.StartCodepointOf(s).value;
    PrefixThenQuery(p, s, prefix, query, from, cursor);
    CutAtCursor(line, from, cursor);
  }

  lemma PrefixThenQuery(p: Position, s: Start, prefix: Str, query: Str, from: int, cursor: int)
    requires p.FromScratch(Prefix, s) == Some(Text(prefix)) && p.FromScratch(Query, s) == Some(Text(query))
    requires p.StartCodepointOf(s) == Some(from)
    requires ByteOffsetToCodepointOffset(p.CurrentLine(), p.columnNum) == Some(cursor)
    ensures prefix == SliceTo(p.CurrentLine(), from - 1) && query == Slice(p.CurrentLine(), from - 1, cursor - 1)
  {
  }

  /** The prefix is what the bytes of the line before the start column spell, wherever that is. */
  lemma PrefixBeforeStart(p: Position, s: Start, prefix: Str, column: int)
    requires p.FromScratch(Prefix, s) == Some(Text(prefix)) && p.FromScratch(StartColumn, s) == Some(Number(column))
    ensures ToBytes(prefix) == SliceTo(ToBytes(p.CurrentLine()), column - 1)
  {
    var line, codepoint := p.CurrentLine(), p.StartCodepointOf(s).value;
    match s {
      case ByColumn(b) => PrefixOfColumn(line, b);
      case _ => PrefixOfCodepoint(line, codepoint);
    }
  }

  lemma QueryBetween(p: Position, s: Start, from: int, to: int)
    requires p.FromScratch(StartCodepoint, s) == Some(Number(from))
    requires p.FromScratch(ColumnCodepoint, s) == Some(Number(to))
    ensures p.FromScratch(Query, s) == Some(Text(Slice(p.CurrentLine(), from - 1, to - 1)))
  {
  }

  lemma QueryUndefined(p: Position, s: Start)
    requires p.FromScratch(StartCodepoint, s).None? || p.FromScratch(ColumnCodepoint, s).None?
    ensures p.FromScratch(Query, s).None?
  {
  }

  // ----- The request object -----

  class RequestWrap {
    const position: Position
    var cached: map<Key, Value>
    /** The last assignment to the start, if any. */
    ghost var start: Start

    constructor (position: Position)
      ensures Valid() && start == Computed && cached == map[] && this.position == position
    {
      this.position := position;
      cached, start := map[], Computed;
    }

    /** Every cached field has its from-scratch value; an assigned start is cached both ways. */
    ghost predicate Valid()
      reads this
    {
      && (forall key :: key in cached ==> position.FromScratch(key, start) == Some(cached[key]))
      && (start != Computed ==> StartCodepoint in cached && StartColumn in cached)
    }

    function Rank(key: Key): nat
    {
      match key
      case Lines => 0
      case LineValue => 1
      case LineBytes => 2
      case ColumnCodepoint => 3
      case StartCodepoint => 3
      case StartColumn => 3
      case Query => 4
      case Prefix => 4
    }

    /** request[ key ] */
    method Get(key: Key) returns (r: Option<Value>)
      requires Valid()
      modifies this`cached
      ensures Valid() && old(cached).Keys <= cached.Keys
      ensures r == position.FromScratch(key, start)
      ensures r.Some? ==> key in cached
      decreases Rank(key), 1
    {
      if key in cached { return Some(cached[key]); }
      match key {
        case Lines => r := Some(LineList(SplitLines(position.contents)));
        case LineValue => r := GetLine();
        case LineBytes => r := GetLineBytes();
        case ColumnCodepoint => r := GetColumnCodepoint();
        case StartCodepoint => r := GetStartCodepoint();
        case StartColumn => r := GetStartColumn();
        case Query => r := GetQuery();
        case Prefix => r := GetPrefix();
      }
      if r.Some? {
        cached := cached[key := r.value];
      }
    }

    method GetLine() returns (r: Option<Value>)
      requires Valid()
      modifies this`cached
      ensures Valid() && old(cached).Keys <= cached.Keys
      ensures r == position.FromScratch(LineValue, start)
      decreases 1, 0
    {
      var lines := Get(Lines);
      var line := Index(lines.value.lines, position.lineNum - 1);
      r := Some(Text(if line.Some? then line.value else []));
    }

    method GetLineBytes() returns (r: Option<Value>)
      requires Valid()
      modifies this`cached
      ensures Valid() && old(cached).Keys <= cached.Keys
      ensures r == position.FromScratch(LineBytes, start)
      decreases 2, 0
    {
      var line := Get(LineValue);
      r := Some(Raw(ToBytes(line.value.text)));
    }

    method GetColumnCodepoint() returns (r: Option<Value>)
      requires Valid()
      modifies this`cached
      ensures Valid() && old(cached).Keys <= cached.Keys
      ensures r == position.FromScratch(ColumnCodepoint, start)
      decreases 3, 0
    {
      var bytes := Get(LineBytes);
      var prefix := ToUnicode(SliceTo(bytes.value.bytes, position.columnNum - 1));
      r := if prefix.None? then None else Some(Number(|prefix.value| + 1));
    }

    method GetStartCodepoint() returns (r: Option<Value>)
      requires Valid() && start == Computed
      modifies this`cached
      ensures Valid() && old(cached).Keys <= cached.Keys
      ensures r == position.FromScratch(StartCodepoint, start)
      decreases 3, 0
    {
      var line := Get(LineValue);
      var c := ComputeStart(line.value.text);
      r := if c.None? then None else Some(Number(c.value));
    }

    method GetStartColumn() returns (r: Option<Value>)
      requires Valid() && start == Computed
      modifies this`cached
      ensures Valid() && old(cached).Keys <= cached.Keys
      ensures r == position.FromScratch(StartColumn, start)
      decreases 3, 0
    {
      var line := Get(LineValue);
      var c := ComputeStart(line.value.text);
      r := if c.None? then None else Some(Number(CodepointOffsetToByteOffset(line.value.text, c.value)));
    }

    method GetNumber(key: Key) returns (r: Option<int>)
      requires Valid() && key in {StartCodepoint, ColumnCodepoint}
      modifies this`cached
      ensures Valid() && old(cached).Keys <= cached.Keys
      ensures position.FromScratch(key, start) == if r.None? then None else Some(Number(r.value))
      decreases Rank(key), 2
    {
      var value := Get(key);
      r := if value.None? then None else Some(value.value.n);
    }

    /** Where the query starts and ends. */
    method GetQueryBounds() returns (r: Option<(int, int)>)
      requires Valid()
      modifies this`cached
      ensures Valid() && old(cached).Keys <= cached.Keys
      ensures r.None? ==> position.FromScratch(Query, start) == None
      ensures r.Some? ==>
        && position.FromScratch(StartCodepoint, start) == Some(Number(r.value.0))
        && position.FromScratch(ColumnCodepoint, start) == Some(Number(r.value.1))
      decreases 3, 3
    {
      var from := GetNumber(StartCodepoint);
      if from.None? {
        QueryUndefined(position, start);
        return None;
      }
      var to := GetNumber(ColumnCodepoint);
      if to.None? {
        QueryUndefined(position, start);
        return None;
      }
      return Some((from.value, to.value));
    }

    method GetQuery() returns (r: Option<Value>)
      requires Valid()
      modifies this`cached
      ensures Valid() && old(cached).Keys <= cached.Keys
      ensures r == position.FromScratch(Query, start)
      decreases 4, 0
    {
      var line := Get(LineValue);
      var bounds := GetQueryBounds();
      if bounds.None? { return None; }
      var (from, to) := bounds.value;
      QueryBetween(position, start, from, to);
      r := Some(Text(Slice(line.value.text, from - 1, to - 1)));
    }

    method GetPrefix() returns (r: Option<Value>)
      requires Valid()
      modifies this`cached
      ensures Valid() && old(cached).Keys <= cached.Keys
      ensures r == position.FromScratch(Prefix, start)
      decreases 4, 0
    {
      var line := Get(LineValue);
      var from := Get(StartCodepoint);
      if from.None? { return None; }
      r := Some(Text(SliceTo(line.value.text, from.value.n - 1)));
    }

    method ComputeStart(line: Str) returns (r: Option<int>)
      ensures r == CompletionStartCodepoint(position.isIdentifier, line, position.columnNum)
    {
      var c := ByteOffsetToCodepointOffset(line, position.columnNum);
      if c.None? { return None; }
      var index := StartOfLongestIdentifierEndingAtIndex(position.isIdentifier, line, c.value - 1);
      return Some(index + 1);
    }

    /** A column inside a character raises after start_column is already overwritten. */
    method SetStartColumn(n: int) returns (r: Outcome)
      requires Valid()
      modifies this
      ensures if ByteOffsetToCodepointOffset(position.CurrentLine(), n).Some?
        then r == Assigned && start == ByColumn(n) && Valid() && cached[StartColumn] == Number(n)
        else r == DecodeFailed && start == old(start) && OnlyColumnChanged(old(cached), cached, n)
    {
      var line := Get(LineValue);
      ghost var before := cached;
      cached := cached[StartColumn := Number(n)];
      var codepoint := ByteOffsetToCodepointOffset(line.value.text, n);
      if codepoint.None? { return DecodeFailed; }
      cached := cached[StartCodepoint := Number(codepoint.value)];
      CacheUpdate(before, Number(n), Number(codepoint.value));
      cached := cached - {Prefix};
      cached := cached - {Query};
      start := ByColumn(n);
      AssignedCacheValid(position, before, cached, old(start), start);
      return Assigned;
    }

    method SetStartCodepoint(n: int)
      requires Valid()
      modifies this
      ensures start == ByCodepoint(n) && Valid() && cached[StartCodepoint] == Number(n)
    {
      var line := Get(LineValue);
      ghost var before := cached;
      cached := cached[StartCodepoint := Number(n)];
      cached := cached[StartColumn := Number(CodepointOffsetToByteOffset(line.value.text, n))];
      cached := cached - {Prefix};
      cached := cached - {Query};
      start := ByCodepoint(n);
      CacheUpdate(before, Number(position.StartColumnOf(start).value), Number(n));
      AssignedCacheValid(position, before, cached, old(start), start);
    }

    /** request[ key ] = n */
    method Set(key: Key, n: int) returns (r: Outcome)
      requires Valid()
      modifies this
      ensures key != StartColumn && key != StartCodepoint ==>
        r == ReadOnly && cached == old(cached) && start == old(start)
      ensures key == StartCodepoint ==> r == Assigned && start == ByCodepoint(n)
      ensures key == StartColumn ==>
        if ByteOffsetToCodepointOffset(position.CurrentLine(), n).Some? then r == Assigned && start == ByColumn(n)
        else r == DecodeFailed && start == old(start) && OnlyColumnChanged(old(cached), cached, n)
      ensures r != DecodeFailed ==> Valid()
    {
      if key == StartColumn {
        r := SetStartColumn(n);
      } else if key == StartCodepoint {
        SetStartCodepoint(n);
        r := Assigned;
      } else {
        r := ReadOnly;
      }
    }

  }

  /** The column is overwritten; every other field cached before is as it was, stale or not. */
  ghost predicate OnlyColumnChanged(before: map<Key, Value>, after: map<Key, Value>, n: int)
  {
    && StartColumn in after && after[StartColumn] == Number(n)
    && forall key :: key in before && key != StartColumn ==> key in after && after[key] == before[key]
  }

  /** Neither the order of the two updates nor that of the two removals matters. */
  lemma CacheUpdate(before: map<Key, Value>, column: Value, codepoint: Value)
    ensures before[StartColumn := column][StartCodepoint := codepoint] - {Prefix} - {Query} ==
      before[StartColumn := column][StartCodepoint := codepoint] - {Prefix, Query}
    ensures before[StartCodepoint := codepoint][StartColumn := column] - {Prefix} - {Query} ==
      before[StartColumn := column][StartCodepoint := codepoint] - {Prefix, Query}
  {
  }

  lemma CutAtCursor(line: Str, from: int, cursor: int)
    requires 1 <= cursor <= |line| + 1
    ensures SliceTo(line, from - 1) + Slice(line, from - 1, cursor - 1) == SliceTo(line, cursor - 1) <==>
      SliceEnd(|line|, from - 1) <= cursor - 1
  {
    var k := SliceEnd(|line|, from - 1);
    if k <= cursor - 1 {
      assert line[..k] + line[k..cursor - 1] == line[..cursor - 1];
    }
  }
}
