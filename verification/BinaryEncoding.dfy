/** The generator's encoder as it is written: slices of a string of binary digits. */
module BinaryEncoding {
  import opened Wrappers
  import opened Utf8

  type Bits = seq<Bit>

  /** The digits of bin(n) after its 0b prefix. */
  function Binary(n: nat): (r: Bits)
    ensures r != []
  {
    if n < 2 then [n] else Binary(n / 2) + [n % 2]
  }

  function ZFill(bits: Bits, width: nat): Bits
  {
    seq(if |bits| < width then width - |bits| else 0, _ => 0) + bits
  }

  function Value(bits: Bits): nat
  {
    if bits == [] then 0 else 2 * Value(bits[..|bits| - 1]) + bits[|bits| - 1]
  }

  /** UnicodeToBinaryUtf8; None where it raises RuntimeError. */
  function UnicodeToBinaryUtf8(n: nat): Option<Bits>
  {
    var binary := Binary(n);
    if |binary| <= 7 then Some(ZFill(binary, 8))
    else if |binary| <= 11 then
      var b := ZFill(binary, 11);
      Some([1, 1, 0] + b[..5] + ([1, 0] + b[5..]))
    else if |binary| <= 16 then
      var b := ZFill(binary, 16);
      Some([1, 1, 1, 0] + b[..4] + ([1, 0] + b[4..10]) + ([1, 0] + b[10..]))
    else if |binary| <= 21 then
      var b := ZFill(binary, 21);
      Some([1, 1, 1, 1, 0] + b[..3] + ([1, 0] + b[3..9]) + ([1, 0] + b[9..15]) + ([1, 0] + b[15..]))
    else None
  }

  /** The concatenation of the bytes' eight digits. */
  function Octets(bytes: Bytes): Bits
  {
    if bytes == [] then [] else ZFill(Binary(bytes[0]), 8) + Octets(bytes[1..])
  }

  function Pow2(k: nat): nat
  {
    if k == 0 then 1 else 2 * Pow2(k - 1)
  }

  lemma {:induction false} ValueBinary(n: nat, k: nat)
    requires k >= 1
    ensures Value(Binary(n)) == n
    ensures |Binary(n)| <= k <==> n < Pow2(k)
  {
    if n >= 2 {
      var half := Binary(n / 2);
      assert (half + [n % 2])[..|half|] == half;
      if k > 1 {
        ValueBinary(n / 2, k - 1);
      } else {
        ValueBinary(n / 2, 1);
      }
    } else {
      Pow2Positive(k - 1);
    }
  }

  lemma {:induction false} Pow2Positive(k: nat)
    ensures Pow2(k) >= 1
  {
    if k > 0 { Pow2Positive(k - 1); }
  }

  lemma {:induction false} ValueConcat(a: Bits, b: Bits)
    ensures Value(a + b) == Value(a) * Pow2(|b|) + Value(b)
    ensures Value(b) < Pow2(|b|)
  {
    if b == [] {
      assert a + b == a;
    } else {
      var n, last := |b| - 1, b[|b| - 1];
      ValueConcat(a, b[..n]);
      assert (a + b)[..|a + b| - 1] == a + b[..n];
      ScaleTwice(Value(a), Pow2(n), Value(b[..n]), last);
    }
  }

  lemma ScaleTwice(x: nat, y: nat, v: nat, d: nat)
    ensures 2 * (x * y + v) + d == x * (2 * y) + (2 * v + d)
  {
  }

  lemma {:induction false} ValueInjective(a: Bits, b: Bits)
    requires |a| == |b| && Value(a) == Value(b)
    ensures a == b
  {
    if a != [] {
      ValueInjective(a[..|a| - 1], b[..|b| - 1]);
      assert a == a[..|a| - 1] + [a[|a| - 1]] && b == b[..|b| - 1] + [b[|b| - 1]];
    }
  }

  lemma {:induction false} ValueZeros(k: nat)
    ensures Value(seq(k, _ => 0)) == 0
  {
    if k > 0 {
      assert seq(k, _ => 0)[..k - 1] == seq(k - 1, _ => 0);
      ValueZeros(k - 1);
    }
  }

  lemma ValuePadded(zeros: nat, b: Bits)
    ensures Value(seq(zeros, _ => 0) + b) == Value(b)
  {
    ValueZeros(zeros);
    ValueConcat(seq(zeros, _ => 0), b);
    assert 0 * Pow2(|b|) == 0;
  }

  lemma ValueZFill(n: nat, width: nat)
    requires width >= 1 && n < Pow2(width)
    ensures |ZFill(Binary(n), width)| == width && Value(ZFill(Binary(n), width)) == n
  {
    ValueBinary(n, width);
    ValuePadded(width - |Binary(n)|, Binary(n));
  }

  lemma Powers(k: nat)
    requires k <= 21
    ensures k == 6 ==> Pow2(k) == 0x40
    ensures k == 7 ==> Pow2(k) == 0x80
    ensures k == 8 ==> Pow2(k) == 0x100
    ensures k == 11 ==> Pow2(k) == 0x800
    ensures k == 12 ==> Pow2(k) == 0x1000
    ensures k == 16 ==> Pow2(k) == 0x1_0000
    ensures k == 18 ==> Pow2(k) == 0x4_0000
    ensures k == 21 ==> Pow2(k) == 0x20_0000
    ensures k <= 5 ==> Pow2(k) == [1, 2, 4, 8, 16, 32][k]
  {
    if k >= 6 {
      assert Pow2(6) == 64;
      if k >= 12 {
        assert Pow2(12) == 64 * Pow2(6) by { assert Pow2(9) == 8 * Pow2(6); }
        if k >= 18 { assert Pow2(18) == 64 * Pow2(12) by { assert Pow2(15) == 8 * Pow2(12); } }
      }
    }
  }

  /** A byte is told by a prefix and a payload whose digits make up eight. */
  lemma {:induction false} OctetOf(prefix: Bits, payload: Bits, byte: Byte)
    requires |prefix| + |payload| == 8
    requires Value(prefix) * Pow2(|payload|) + Value(payload) == byte
    ensures prefix + payload == ZFill(Binary(byte), 8)
  {
    Powers(8);
    ValueConcat(prefix, payload);
    ValueZFill(byte, 8);
    ValueInjective(prefix + payload, ZFill(Binary(byte), 8));
  }

  /** Cutting off the last k digits divides; the digits cut off are the remainder. */
  lemma {:induction false} CutDigits(b: Bits, k: nat)
    requires k in {6, 12, 18} && k <= |b|
    ensures Value(b[..|b| - k]) == Value(b) / (if k == 6 then 0x40 else if k == 12 then 0x1000 else 0x4_0000)
    ensures Value(b[|b| - k..]) == Value(b) % (if k == 6 then 0x40 else if k == 12 then 0x1000 else 0x4_0000)
  {
    var hi, lo := b[..|b| - k], b[|b| - k..];
    assert b == hi + lo;
    ValueConcat(hi, lo);
    Powers(k);
  }

  lemma {:induction false} MiddleDigits(b: Bits, k: nat)
    requires k in {6, 12} && k + 6 <= |b|
    ensures Value(b[|b| - k - 6..|b| - k]) == Value(b) / (if k == 6 then 0x40 else 0x1000) % 0x40
  {
    CutDigits(b, k);
    CutDigits(b[..|b| - k], 6);
    assert b[..|b| - k][|b| - k - 6..] == b[|b| - k - 6..|b| - k];
  }

  /** A leading byte holds its length prefix and the digits above the continuation bytes'. */
  lemma {:induction false} LeadOctet(b: Bits, pre: Bits, rest: nat)
    requires (pre == [1, 1, 0] && rest == 6) || (pre == [1, 1, 1, 0] && rest == 12) ||
      (pre == [1, 1, 1, 1, 0] && rest == 18)
    requires |b| == rest + 8 - |pre|
    ensures LeadByte(Value(b), rest) < 0x100
    ensures pre + b[..|b| - rest] == ZFill(Binary(LeadByte(Value(b), rest)), 8)
  {
    Prefixes();
    CutDigits(b, rest);
    ValueConcat([], b[..|b| - rest]);
    Powers(8 - |pre|);
    OctetOf(pre, b[..|b| - rest], LeadByte(Value(b), rest));
  }

  /** The leading byte of a number whose last `rest` digits go to continuation bytes. */
  function LeadByte(n: nat, rest: nat): nat
  {
    if rest == 6 then 0xC0 + n / 0x40 else if rest == 12 then 0xE0 + n / 0x1000 else 0xF0 + n / 0x4_0000
  }

  /** A continuation byte holds the prefix 10 and six digits. */
  lemma {:induction false} Continuation(payload: Bits)
    requires |payload| == 6
    ensures Value(payload) < 0x40
    ensures [1, 0] + payload == ZFill(Binary(0x80 + Value(payload)), 8)
  {
    ValueConcat([], payload);
    Powers(6);
    assert Value([1, 0]) == 2 by { assert [1, 0][..1] == [1] && [1][..0] == []; }
    OctetOf([1, 0], payload, 0x80 + Value(payload));
  }

  /** The continuation byte of the six digits above the last k. */
  lemma {:induction false} MiddleOctet(b: Bits, k: nat)
    requires k in {6, 12} && k + 6 <= |b|
    ensures var payload := Value(b) / (if k == 6 then 0x40 else 0x1000) % 0x40;
      [1, 0] + b[|b| - k - 6..|b| - k] == ZFill(Binary(0x80 + payload), 8)
  {
    MiddleDigits(b, k);
    Continuation(b[|b| - k - 6..|b| - k]);
  }

  lemma {:induction false} LastOctet(b: Bits)
    requires 6 <= |b|
    ensures [1, 0] + b[|b| - 6..] == ZFill(Binary(0x80 + Value(b) % 0x40), 8)
  {
    CutDigits(b, 6);
    Continuation(b[|b| - 6..]);
  }

  /** The encoder's digits are those of the bytes of Encode, and it raises above 21 digits. */
  lemma EncoderBytes(n: nat)
    ensures UnicodeToBinaryUtf8(n) == if n < 0x20_0000 then Some(Octets(Encode(n))) else None
  {
    ValueBinary(n, 7); ValueBinary(n, 11); ValueBinary(n, 16); ValueBinary(n, 21);
    Powers(7); Powers(11); Powers(16); Powers(21);
    if n < 0x80 {
      OneByte(n);
    } else if n < 0x800 {
      ValueZFill(n, 11);
      TwoBytes(ZFill(Binary(n), 11));
    } else if n < 0x1_0000 {
      ValueZFill(n, 16);
      ThreeBytes(ZFill(Binary(n), 16));
    } else if n < 0x20_0000 {
      ValueZFill(n, 21);
      FourBytes(ZFill(Binary(n), 21));
    }
  }

  lemma OneByte(n: nat)
    requires n < 0x80
    ensures ZFill(Binary(n), 8) == Octets(Encode(n))
  {
    assert Octets([n]) == ZFill(Binary(n), 8) + Octets([]);
  }

  lemma {:induction false} TwoBytes(b: Bits)
    requires |b| == 11 && 0x80 <= Value(b) < 0x800
    ensures [1, 1, 0] + b[..5] + ([1, 0] + b[5..]) == Octets(Encode(Value(b)))
  {
    LeadOctet(b, [1, 1, 0], 6);
    LastOctet(b);
    Octets2(Encode(Value(b)));
  }

  lemma EncodedThree(n: nat)
    requires 0x800 <= n < 0x1_0000
    ensures Octets(Encode(n)) == ZFill(Binary(LeadByte(n, 12)), 8) +
      ZFill(Binary(0x80 + n / 0x40 % 0x40), 8) + ZFill(Binary(0x80 + n % 0x40), 8)
  {
    Octets3(Encode(n));
  }

  lemma {:induction false} ThreeOctets(b: Bits)
    requires |b| == 16
    ensures [1, 1, 1, 0] + b[..4] == ZFill(Binary(LeadByte(Value(b), 12)), 8)
    ensures [1, 0] + b[4..10] == ZFill(Binary(0x80 + Value(b) / 0x40 % 0x40), 8)
    ensures [1, 0] + b[10..] == ZFill(Binary(0x80 + Value(b) % 0x40), 8)
  {
    LeadOctet(b, [1, 1, 1, 0], 12);
    MiddleOctet(b, 6);
    LastOctet(b);
  }

  lemma {:induction false} ThreeBytes(b: Bits)
    requires |b| == 16 && 0x800 <= Value(b) < 0x1_0000
    ensures [1, 1, 1, 0] + b[..4] + ([1, 0] + b[4..10]) + ([1, 0] + b[10..]) == Octets(Encode(Value(b)))
  {
    ThreeOctets(b);
    EncodedThree(Value(b));
  }

  lemma EncodedFour(n: nat)
    requires 0x1_0000 <= n < 0x20_0000
    ensures Octets(Encode(n)) == ZFill(Binary(LeadByte(n, 18)), 8) +
      ZFill(Binary(0x80 + n / 0x1000 % 0x40), 8) + ZFill(Binary(0x80 + n / 0x40 % 0x40), 8) +
      ZFill(Binary(0x80 + n % 0x40), 8)
  {
    Octets4(Encode(n));
  }

  lemma {:induction false} FourOctets(b: Bits)
    requires |b| == 21
    ensures [1, 1, 1, 1, 0] + b[..3] == ZFill(Binary(LeadByte(Value(b), 18)), 8)
    ensures [1, 0] + b[3..9] == ZFill(Binary(0x80 + Value(b) / 0x1000 % 0x40), 8)
    ensures [1, 0] + b[9..15] == ZFill(Binary(0x80 + Value(b) / 0x40 % 0x40), 8)
    ensures [1, 0] + b[15..] == ZFill(Binary(0x80 + Value(b) % 0x40), 8)
  {
    LeadOctet(b, [1, 1, 1, 1, 0], 18);
    MiddleOctet(b, 12);
    MiddleOctet(b, 6);
    LastOctet(b);
  }

  lemma {:induction false} FourBytes(b: Bits)
    requires |b| == 21 && 0x1_0000 <= Value(b) < 0x20_0000
    ensures [1, 1, 1, 1, 0] + b[..3] + ([1, 0] + b[3..9]) + ([1, 0] + b[9..15]) + ([1, 0] + b[15..]) ==
      Octets(Encode(Value(b)))
  {
    FourOctets(b);
    EncodedFour(Value(b));
  }

  lemma Prefixes()
    ensures Value([1, 1, 0]) == 6 && Value([1, 1, 1, 0]) == 14 && Value([1, 1, 1, 1, 0]) == 30
  {
    assert [1, 1, 0][..2] == [1, 1] && [1, 1][..1] == [1] && [1][..0] == [];
    assert [1, 1, 1, 0][..3] == [1, 1, 1] && [1, 1, 1][..2] == [1, 1];
    assert [1, 1, 1, 1, 0][..4] == [1, 1, 1, 1] && [1, 1, 1, 1][..3] == [1, 1, 1];
  }

  lemma Octets2(x: Bytes)
    requires |x| == 2
    ensures Octets(x) == ZFill(Binary(x[0]), 8) + ZFill(Binary(x[1]), 8)
  {
    assert x[1..] == [x[1]];
    assert Octets([x[1]]) == ZFill(Binary(x[1]), 8) + Octets([]);
  }

  lemma Octets3(x: Bytes)
    requires |x| == 3
    ensures Octets(x) == ZFill(Binary(x[0]), 8) + ZFill(Binary(x[1]), 8) + ZFill(Binary(x[2]), 8)
  {
    Octets2(x[1..]);
  }

  lemma Octets4(x: Bytes)
    requires |x| == 4
    ensures Octets(x) ==
      ZFill(Binary(x[0]), 8) + ZFill(Binary(x[1]), 8) + ZFill(Binary(x[2]), 8) + ZFill(Binary(x[3]), 8)
  {
    Octets3(x[1..]);
  }
}
