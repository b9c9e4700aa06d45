/** Conversion between byte offsets and code point offsets into a line, both counted from 1. */
module LineOffsets {
  import opened Wrappers
  import opened Utf8

  /** An element of a Python string that UTF-8 can encode. */
  type UnicodeChar = n: Scalar | n < 0xD800 || 0xE000 <= n < 0x11_0000

  type Str = seq<UnicodeChar>

  function ToBytes(s: Str): Bytes { EncodeAll(s) }

  /** The value of one piece if it is the encoding of a character. */
  function DecodePiece(p: Bytes): Option<UnicodeChar>
  {
    var v :=
      if |p| == 1 then p[0] as int
      else if |p| == 2 then (p[0] as int - 0xC0) * 0x40 + (p[1] as int - 0x80)
      else if |p| == 3 then ((p[0] as int - 0xE0) * 0x40 + (p[1] as int - 0x80)) * 0x40 + (p[2] as int - 0x80)
      else if |p| == 4 then
        var head := ((p[0] as int - 0xF0) * 0x40 + (p[1] as int - 0x80)) * 0x40 + (p[2] as int - 0x80);
        head * 0x40 + (p[3] as int - 0x80)
      else -1;
    if (0 <= v < 0xD800 || 0xE000 <= v < 0x11_0000) && Encode(v) == p then Some(v) else None
  }

  function DecodePieces(pieces: seq<Bytes>): Option<Str>
  {
    if pieces == [] then Some([])
    else
      match DecodePiece(pieces[0])
      case None => None
      case Some(c) =>
        match DecodePieces(pieces[1..])
        case None => None
        case Some(rest) => Some([c] + rest)
  }

  /** Strict decoding; None stands for UnicodeDecodeError. */
  function ToUnicode(bytes: Bytes): Option<Str>
  {
    match Split(bytes)
    case Failure(_) => None
    case Success(pieces) => DecodePieces(pieces)
  }

  lemma DecodePieceEncode(c: UnicodeChar)
    ensures DecodePiece(Encode(c)) == Some(c)
  {
    var p := Encode(c);
    if |p| == 3 {
      assert c == (c / 0x1000 * 0x40 + c / 0x40 % 0x40) * 0x40 + c % 0x40 by { SixBitDigits(c); }
    } else if |p| == 4 {
      assert c == ((c / 0x4_0000 * 0x40 + c / 0x1000 % 0x40) * 0x40 + c / 0x40 % 0x40) * 0x40 + c % 0x40 by {
        SixBitDigits(c);
      }
    }
  }

  lemma {:induction false} DecodePiecesIff(pieces: seq<Bytes>, s: Str)
    ensures DecodePieces(pieces) == Some(s) <==> pieces == EncodePieces(s)
  {
    if pieces == [] || s == [] {
      assert EncodePieces(s) == [] <==> s == [] by { assert |EncodePieces(s)| == |s|; }
      if s == [] && pieces != [] && DecodePieces(pieces).Some? {
        assert DecodePieces(pieces).value != [];
      }
    } else {
      DecodePiecesIff(pieces[1..], s[1..]);
      DecodePieceEncode(s[0]);
      assert s == [s[0]] + s[1..] && pieces == [pieces[0]] + pieces[1..];
      assert EncodePieces(s) == [Encode(s[0])] + EncodePieces(s[1..]);
      if DecodePieces(pieces) == Some(s) {
        var c, rest := DecodePiece(pieces[0]).value, DecodePieces(pieces[1..]).value;
        assert ([c] + rest)[0] == s[0] && ([c] + rest)[1..] == rest;
      }
    }
  }

  /** Decoding is the inverse of encoding: it succeeds exactly on encodings, with the string encoded. */
  lemma ToUnicodeIff(bytes: Bytes, s: Str)
    ensures ToUnicode(bytes) == Some(s) <==> ToBytes(s) == bytes
  {
    SplitEncodeAll(s);
    if Split(bytes).Success? {
      DecodePiecesIff(Split(bytes).value, s);
      Factorisation(bytes, Split(bytes).value);
    }
  }

  /** s[:end] as Python slices it, a negative end counting from the right. */
  function SliceTo<T>(s: seq<T>, end: int): seq<T>
  {
    s[..SliceEnd(|s|, end)]
  }

  /** s[from:] */
  function SliceFrom<T>(s: seq<T>, from: int): seq<T>
  {
    s[SliceEnd(|s|, from)..]
  }

  function SliceEnd(length: nat, end: int): (n: nat)
    ensures n <= length
  {
    if end < 0 then (if length + end < 0 then 0 else length + end) else if end < length then end else length
  }

  /** Python's slices: an end past the list is its end, a negative one counts from the right, down to the start. */
  lemma SliceMeaning<T>(s: seq<T>, end: int)
    ensures 0 <= end <= |s| ==> SliceTo(s, end) == s[..end] && SliceFrom(s, end) == s[end..]
    ensures end > |s| ==> SliceTo(s, end) == s && SliceFrom(s, end) == []
    ensures -|s| <= end < 0 ==> SliceTo(s, end) == s[..|s| + end] && SliceFrom(s, end) == s[|s| + end..]
    ensures end < -|s| ==> SliceTo(s, end) == [] && SliceFrom(s, end) == s
  {
  }

  function ByteOffsetToCodepointOffset(line: Str, byteOffset: int): Option<int>
  {
    match ToUnicode(SliceTo(ToBytes(line), byteOffset - 1))
    case None => None
    case Some(s) => Some(|s| + 1)
  }

  function CodepointOffsetToByteOffset(line: Str, codepointOffset: int): int
  {
    |ToBytes(SliceTo(line, codepointOffset - 1))| + 1
  }

  /** A byte offset at which a character begins, or just past the line. */
  ghost predicate Boundary(line: Str, byteOffset: int)
  {
    exists k :: 0 <= k <= |line| && byteOffset == |ToBytes(line[..k])| + 1
  }

  lemma {:induction false} PrefixDecodes(line: Str, u: Str, rest: Bytes)
    requires ToBytes(u) + rest == ToBytes(line)
    ensures u <= line
  {
    if u != [] {
      var x, tail := Encode(u[0]), ToBytes(u[1..]) + rest;
      assert ToBytes(u) == x + ToBytes(u[1..]);
      assert ToBytes(line) == x + tail;
      assert line != [];
      var y := Encode(line[0]);
      assert ToBytes(line) == y + ToBytes(line[1..]);
      assert x[0] == ToBytes(line)[0] == y[0];
      assert x == ToBytes(line)[..|x|] == y;
      EncodeInjective(u[0], line[0]);
      assert tail == ToBytes(line)[|x|..] == ToBytes(line[1..]);
      PrefixDecodes(line[1..], u[1..], rest);
    }
  }

  lemma PrefixBytes(line: Str, k: nat)
    requires k <= |line|
    ensures |ToBytes(line[..k])| <= |ToBytes(line)|
    ensures ToBytes(line[..k]) == ToBytes(line)[..|ToBytes(line[..k])|]
  {
    assert line == line[..k] + line[k..];
    EncodeAllConcat(line[..k], line[k..]);
  }

  /** A prefix of the bytes decodes exactly when it ends at a boundary, and then to that prefix of the line. */
  lemma ByteOffsetDefined(line: Str, n: nat)
    requires n <= |ToBytes(line)|
    ensures ToUnicode(ToBytes(line)[..n]).Some? <==> Boundary(line, n + 1)
    ensures forall k ::
      0 <= k <= |line| && n == |ToBytes(line[..k])| ==> ToUnicode(ToBytes(line)[..n]) == Some(line[..k])
  {
    var bytes := ToBytes(line);
    forall k | 0 <= k <= |line| && n == |ToBytes(line[..k])|
      ensures ToUnicode(bytes[..n]) == Some(line[..k])
    {
      PrefixBytes(line, k);
      ToUnicodeIff(bytes[..n], line[..k]);
    }
    if ToUnicode(bytes[..n]).Some? {
      var u := ToUnicode(bytes[..n]).value;
      ToUnicodeIff(bytes[..n], u);
      assert bytes == bytes[..n] + bytes[n..];
      PrefixDecodes(line, u, bytes[n..]);
      assert line[..|u|] == u;
    }
  }

  /** The k code points before an offset k + 1 take the bytes before the byte offset it converts to. */
  lemma OffsetMeaning(line: Str, k: nat)
    requires k <= |line|
    ensures CodepointOffsetToByteOffset(line, k + 1) == |ToBytes(line[..k])| + 1
    ensures ByteOffsetToCodepointOffset(line, |ToBytes(line[..k])| + 1) == Some(k + 1)
  {
    PrefixBytes(line, k);
    ByteOffsetDefined(line, |ToBytes(line[..k])|);
  }

  /** From code points to bytes and back. */
  lemma CodepointRoundTrip(line: Str, c: int)
    requires 1 <= c <= |line| + 1
    ensures ByteOffsetToCodepointOffset(line, CodepointOffsetToByteOffset(line, c)) == Some(c)
    ensures Boundary(line, CodepointOffsetToByteOffset(line, c))
  {
    PrefixBytes(line, c - 1);
    ByteOffsetDefined(line, |ToBytes(line[..c - 1])|);
  }

  /** Converting a byte offset to code points and back returns it exactly when it is a boundary of the line. */
  lemma ByteRoundTrip(line: Str, b: int)
    ensures var c := ByteOffsetToCodepointOffset(line, b);
      c.Some? && CodepointOffsetToByteOffset(line, c.value) == b <==> Boundary(line, b)
  {
    var n := SliceEnd(|ToBytes(line)|, b - 1);
    ByteOffsetDefined(line, n);
    if Boundary(line, b) {
      var k :| 0 <= k <= |line| && b == |ToBytes(line[..k])| + 1;
      PrefixBytes(line, k);
    } else if ByteOffsetToCodepointOffset(line, b).Some? {
      var k :| 0 <= k <= |line| && n == |ToBytes(line[..k])|;
      assert CodepointOffsetToByteOffset(line, k + 1) == n + 1;
    }
  }

  /** A converted byte offset is a code point offset of the line. */
  lemma CodepointInRange(line: Str, b: int)
    ensures var c := ByteOffsetToCodepointOffset(line, b);
      c.Some? ==> 1 <= c.value <= |line| + 1
  {
    var n := SliceEnd(|ToBytes(line)|, b - 1);
    ByteOffsetDefined(line, n);
    if ToUnicode(ToBytes(line)[..n]).Some? {
      var k :| 0 <= k <= |line| && n == |ToBytes(line[..k])|;
    }
  }

  /** Cutting the line where a byte offset converts to cuts its bytes there. */
  lemma PrefixOfColumn(line: Str, b: int)
    ensures var c := ByteOffsetToCodepointOffset(line, b);
      c.Some? ==> ToBytes(SliceTo(line, c.value - 1)) == SliceTo(ToBytes(line), b - 1)
  {
    var n := SliceEnd(|ToBytes(line)|, b - 1);
    ByteOffsetDefined(line, n);
    if ToUnicode(ToBytes(line)[..n]).Some? {
      var k :| 0 <= k <= |line| && n == |ToBytes(line[..k])|;
      PrefixBytes(line, k);
    }
  }

  lemma PrefixOfCodepoint(line: Str, c: int)
    ensures ToBytes(SliceTo(line, c - 1)) == SliceTo(ToBytes(line), CodepointOffsetToByteOffset(line, c) - 1)
  {
    PrefixBytes(line, SliceEnd(|line|, c - 1));
  }

  /** Later code points begin at later bytes. */
  lemma OffsetsIncrease(line: Str, c: int, d: int)
    requires 1 <= c < d <= |line| + 1
    ensures CodepointOffsetToByteOffset(line, c) < CodepointOffsetToByteOffset(line, d)
  {
    var x, y := line[..c - 1], line[c - 1..d - 1];
    assert line[..d - 1] == x + y;
    EncodeAllConcat(x, y);
    assert EncodeAll(y) == Encode(y[0]) + EncodeAll(y[1..]);
  }
}
