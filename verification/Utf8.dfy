/** UTF-8: the table generator's encoder and the engine's decoder (section 3 of RFC 3629). */
module Utf8 {
  import opened Wrappers
  import opened Sequences

  type Byte = x: int | 0 <= x < 0x100
  type Bytes = seq<Byte>
  type Bit = x: int | 0 <= x < 2

  /** A code point the encoder accepts: at most 21 binary digits. */
  type Scalar = n: int | 0 <= n < 0x20_0000

  datatype DecodeError = InvalidLeadingByte | InvalidLength

  // ----- The decoder -----

  /** Length announced by a leading byte, None where the decoder throws. */
  function SequenceLength(lead: Byte): Option<nat>
  {
    if lead < 0x80 then Some(1)
    else if lead < 0xC0 then None
    else if lead < 0xE0 then Some(2)
    else if lead < 0xF0 then Some(3)
    else if lead < 0xF8 then Some(4)
    else None
  }

  /** The decoder's mask tests, in the order it makes them. */
  method GetCodePointLength(lead: Byte) returns (r: Option<nat>)
    ensures r == SequenceLength(lead)
    ensures r == if lead <= 0x7F then Some(1)
      else if 0xC0 <= lead <= 0xDF then Some(2)
      else if 0xE0 <= lead <= 0xEF then Some(3)
      else if 0xF0 <= lead <= 0xF7 then Some(4)
      else None
  {
    var b := lead as bv8;
    if b & 0x80 == 0x00 { return Some(1); }
    if b & 0xE0 == 0xC0 { return Some(2); }
    if b & 0xF0 == 0xE0 { return Some(3); }
    if b & 0xF8 == 0xF0 { return Some(4); }
    return None;
  }

  predicate WellLed(piece: Bytes)
  {
    piece != [] && SequenceLength(piece[0]) == Some(|piece|)
  }

  /** What the decoder computes; Factorisation below says what that is. */
  function Split(text: Bytes): Result<seq<Bytes>, DecodeError>
    decreases |text|
  {
    if text == [] then Success([])
    else match SequenceLength(text[0])
      case None => Failure(InvalidLeadingByte)
      case Some(n) =>
        if |text| < n then Failure(InvalidLength)
        else match Split(text[n..])
          case Success(rest) => Success([text[..n]] + rest)
          case Failure(e) => Failure(e)
  }

  function Prepend(pieces: seq<Bytes>, r: Result<seq<Bytes>, DecodeError>): Result<seq<Bytes>, DecodeError>
  {
    match r
    case Success(rest) => Success(pieces + rest)
    case Failure(e) => Failure(e)
  }

  lemma PrependNone(r: Result<seq<Bytes>, DecodeError>)
    ensures Prepend([], r) == r
  {
    assert r.Success? ==> [] + r.value == r.value;
  }

  /** One byte up to 0x7F, or two, three or four led by 0xC0-0xDF, 0xE0-0xEF or 0xF0-0xF7. */
  predicate LedPiece(piece: Bytes)
  {
    match |piece|
    case 1 => piece[0] <= 0x7F
    case 2 => 0xC0 <= piece[0] <= 0xDF
    case 3 => 0xE0 <= piece[0] <= 0xEF
    case 4 => 0xF0 <= piece[0] <= 0xF7
    case _ => false
  }

  lemma LedPieces(text: Bytes)
    ensures Split(text).Success? ==>
      Flatten(Split(text).value) == text && forall i :: 0 <= i < |Split(text).value| ==> LedPiece(Split(text).value[i])
  {
    if Split(text).Success? {
      var pieces := Split(text).value;
      Factorisation(text, pieces);
      forall i | 0 <= i < |pieces|
        ensures LedPiece(pieces[i])
      {
        assert pieces[i] in pieces;
      }
    }
  }

  lemma LeadRejected(text: Bytes)
    ensures text != [] && (0x80 <= text[0] <= 0xBF || 0xF8 <= text[0]) ==> Split(text) == Failure(InvalidLeadingByte)
  {
  }

  method BreakIntoCodePoints(text: Bytes) returns (r: Result<seq<Bytes>, DecodeError>)
    ensures r == Split(text)
    ensures r.Success? ==> Flatten(r.value) == text && forall i :: 0 <= i < |r.value| ==> LedPiece(r.value[i])
    ensures text != [] && (0x80 <= text[0] <= 0xBF || 0xF8 <= text[0]) ==> r == Failure(InvalidLeadingByte)
  {
    LedPieces(text);
    LeadRejected(text);
    var pieces: seq<Bytes> := [];
    var i := 0;
    assert text[i..] == text;
    PrependNone(Split(text));
    while i < |text|
      invariant 0 <= i <= |text|
      invariant Split(text) == Prepend(pieces, Split(text[i..]))
      decreases |text| - i
    {
      var length := GetCodePointLength(text[i]);
      if length.None? {
        return Failure(InvalidLeadingByte);
      }
      var n := length.value;
      if |text| - i < n {
        return Failure(InvalidLength);
      }
      assert text[i..][n..] == text[i + n..];
      assert text[i..][..n] == text[i..i + n];
      ghost var rest := Split(text[i + n..]);
      assert rest.Success? ==> (pieces + [text[i..i + n]]) + rest.value == pieces + ([text[i..i + n]] + rest.value);
      pieces := pieces + [text[i..i + n]];
      i := i + n;
    }
    assert text[i..] == [];
    assert pieces + [] == pieces;
    return Success(pieces);
  }

  /** Decoding succeeds exactly with the one cutting of the text into well-led pieces. */
  lemma {:induction false} Factorisation(text: Bytes, pieces: seq<Bytes>)
    ensures Split(text) == Success(pieces) <==> Flatten(pieces) == text && forall p :: p in pieces ==> WellLed(p)
    decreases |text|
  {
    if text == [] {
      if pieces != [] && WellLed(pieces[0]) {
        assert Flatten(pieces)[0] == pieces[0][0];
      }
    } else if pieces != [] {
      var n := SequenceLength(text[0]);
      if n.Some? && n.value <= |text| {
        Factorisation(text[n.value..], pieces[1..]);
        if Split(text) == Success(pieces) {
          assert Split(text[n.value..]) == Success(pieces[1..]);
          assert text == text[..n.value] + text[n.value..];
        }
        if Flatten(pieces) == text && forall p :: p in pieces ==> WellLed(p) {
          assert WellLed(pieces[0]);
          assert text[0] == pieces[0][0];
          assert text[..n.value] == pieces[0];
          assert text[n.value..] == Flatten(pieces[1..]);
          assert pieces == [pieces[0]] + pieces[1..];
        }
      } else if WellLed(pieces[0]) && Flatten(pieces)[0] == text[0] {
        assert Flatten(pieces)[0] == pieces[0][0];
        assert Flatten(pieces) != text;
      }
    }
  }

  lemma SplitConcat(a: Bytes, b: Bytes)
    requires Split(a).Success? && Split(b).Success?
    ensures Split(a + b) == Success(Split(a).value + Split(b).value)
  {
    var p, q := Split(a).value, Split(b).value;
    Factorisation(a, p);
    Factorisation(b, q);
    FlattenConcat(p, q);
    Factorisation(a + b, p + q);
  }

  /** The place where decoding stops, and why. */
  ghost predicate StuckAt(text: Bytes, pieces: seq<Bytes>, rest: Bytes, e: DecodeError)
  {
    && Flatten(pieces) + rest == text
    && (forall p :: p in pieces ==> WellLed(p))
    && rest != []
    && (match e
        case InvalidLeadingByte => SequenceLength(rest[0]).None?
        case InvalidLength => SequenceLength(rest[0]).Some? && |rest| < SequenceLength(rest[0]).value)
  }

  lemma {:induction false} SplitStuck(text: Bytes) returns (pieces: seq<Bytes>, rest: Bytes)
    requires Split(text).Failure?
    ensures StuckAt(text, pieces, rest, Split(text).error)
    decreases |text|
  {
    var n := SequenceLength(text[0]);
    if n.None? || |text| < n.value {
      return [], text;
    }
    var ps, r := SplitStuck(text[n.value..]);
    pieces, rest := [text[..n.value]] + ps, r;
    assert text == text[..n.value] + text[n.value..];
    assert pieces[1..] == ps;
    assert text[..n.value] + (Flatten(ps) + r) == (text[..n.value] + Flatten(ps)) + r;
  }

  lemma {:induction false} StuckFails(text: Bytes, pieces: seq<Bytes>, rest: Bytes, e: DecodeError)
    requires StuckAt(text, pieces, rest, e)
    ensures Split(text) == Failure(e)
    decreases |pieces|
  {
    if pieces == [] {
      assert text == rest;
    } else {
      assert WellLed(pieces[0]);
      assert text == pieces[0] + (Flatten(pieces[1..]) + rest);
      assert text[0] == pieces[0][0];
      assert text[|pieces[0]|..] == Flatten(pieces[1..]) + rest;
      StuckFails(text[|pieces[0]|..], pieces[1..], rest, e);
    }
  }

  /** Decoding fails exactly where well-led pieces are followed by a bad lead byte or a truncation. */
  lemma SplitFailure(text: Bytes, e: DecodeError)
    ensures Split(text) == Failure(e) <==> exists pieces, rest :: StuckAt(text, pieces, rest, e)
  {
    if Split(text) == Failure(e) {
      var pieces, rest := SplitStuck(text);
    }
    forall pieces, rest | StuckAt(text, pieces, rest, e)
      ensures Split(text) == Failure(e)
    {
      StuckFails(text, pieces, rest, e);
    }
  }

  // ----- The encoder -----

  function Encode(n: Scalar): (r: Bytes)
    ensures WellLed(r)
  {
    if n < 0x80 then [n]
    else if n < 0x800 then [0xC0 + n / 0x40, 0x80 + n % 0x40]
    else if n < 0x1_0000 then [0xE0 + n / 0x1000, 0x80 + n / 0x40 % 0x40, 0x80 + n % 0x40]
    else [0xF0 + n / 0x4_0000, 0x80 + n / 0x1000 % 0x40, 0x80 + n / 0x40 % 0x40, 0x80 + n % 0x40]
  }

  /** The ranges of code points that take one to four bytes. */
  lemma EncodedLength(n: Scalar)
    ensures |Encode(n)| == if n <= 0x7F then 1 else if n <= 0x7FF then 2 else if n <= 0xFFFF then 3 else 4
  {
  }

  function EncodePieces(ns: seq<Scalar>): (r: seq<Bytes>)
    ensures |r| == |ns|
    ensures forall i :: 0 <= i < |ns| ==> r[i] == Encode(ns[i])
  {
    if ns == [] then [] else [Encode(ns[0])] + EncodePieces(ns[1..])
  }

  function EncodeAll(ns: seq<Scalar>): Bytes
  {
    Flatten(EncodePieces(ns))
  }

  lemma EncodeAllConcat(a: seq<Scalar>, b: seq<Scalar>)
    ensures EncodeAll(a + b) == EncodeAll(a) + EncodeAll(b)
  {
    var whole, parts := EncodePieces(a + b), EncodePieces(a) + EncodePieces(b);
    forall i | 0 <= i < |whole|
      ensures whole[i] == parts[i]
    {
      assert (a + b)[i] == if i < |a| then a[i] else b[i - |a|];
    }
    assert whole == parts;
    FlattenConcat(EncodePieces(a), EncodePieces(b));
  }

  /** The decoder undoes the encoder on every list of code points. */
  lemma SplitEncodeAll(ns: seq<Scalar>)
    ensures Split(EncodeAll(ns)) == Success(EncodePieces(ns))
  {
    forall p | p in EncodePieces(ns)
      ensures WellLed(p)
    {
      var i :| 0 <= i < |ns| && EncodePieces(ns)[i] == p;
    }
    Factorisation(EncodeAll(ns), EncodePieces(ns));
  }

  /** UTF-8 byte order is code point order (section 1 of RFC 3629). */
  lemma EncodeOrder(a: Scalar, b: Scalar)
    requires a < b
    ensures LexLess(Encode(a), Encode(b))
  {
    var x, y := Encode(a), Encode(b);
    if x[0] < y[0] {
      LexFirstDifference(x, y, 0);
    } else {
      SameLead(a, b);
      if |x| >= 2 && x[1] < y[1] {
        LexFirstDifference(x, y, 1);
      } else if |x| >= 3 && x[2] < y[2] {
        LexFirstDifference(x, y, 2);
      } else {
        LexFirstDifference(x, y, 3);
      }
    }
  }

  /** A number is its quotient and remainder by 64, three digits deep. */
  lemma SixBitDigits(n: nat)
    ensures n == n / 0x40 * 0x40 + n % 0x40
    ensures n / 0x40 == n / 0x1000 * 0x40 + n / 0x40 % 0x40
    ensures n / 0x1000 == n / 0x4_0000 * 0x40 + n / 0x1000 % 0x40
  {
  }

  /** Two encodings with one lead byte have one length, and the trailing bytes order them. */
  lemma SameLead(a: Scalar, b: Scalar)
    requires a < b && Encode(a)[0] >= Encode(b)[0]
    ensures var x, y := Encode(a), Encode(b);
      && |x| == |y| >= 2 && x[0] == y[0]
      && (x[1] < y[1] || (x[1] == y[1] && |x| >= 3 &&
         (x[2] < y[2] || (x[2] == y[2] && |x| == 4 && x[3] < y[3]))))
  {
    SixBitDigits(a);
    SixBitDigits(b);
    assert |Encode(a)| == |Encode(b)|;
    var x, y := Encode(a), Encode(b);
    assert |x| == 2 ==> x == [0xC0 + a / 0x40, 0x80 + a % 0x40] && y == [0xC0 + b / 0x40, 0x80 + b % 0x40];
  }

  lemma EncodeInjective(a: Scalar, b: Scalar)
    requires Encode(a) == Encode(b)
    ensures a == b
  {
    if a < b {
      EncodeOrder(a, b);
      LexIrreflexive(Encode(a));
    } else if b < a {
      EncodeOrder(b, a);
      LexIrreflexive(Encode(a));
    }
  }
}
