/** Octets and the fixed-width arithmetic the C++ code does on them. */
module Bytes {

  type byte = x: int | 0 <= x < 256
  type bytes = seq<byte>
  type uint32 = x: int | 0 <= x < 0x1_0000_0000

  const UINT32_RANGE := 0x1_0000_0000
  const INT_MAX := 0x7fff_ffff

  /** The low octet of an unbounded number: what a store through `uint8_t*` keeps. */
  function Low8(x: int): byte {
    x % 256
  }

  function U16(s: bytes): (v: nat)
    requires 2 <= |s|
    ensures v < 0x1_0000
  {
    var lo: int, hi: int := s[0], s[1];
    lo + 256 * hi
  }

  function U32(s: bytes): (v: uint32)
    requires 4 <= |s|
  {
    U16(s) + 0x1_0000 * U16(s[2..])
  }

  function PutU16(v: nat): (s: bytes)
    requires v < 0x1_0000
    ensures |s| == 2 && U16(s) == v
  {
    [v % 256, v / 256]
  }

  function PutU32(v: uint32): (s: bytes)
    ensures |s| == 4 && U32(s) == v
  {
    var low, high := PutU16(v % 0x1_0000), PutU16(v / 0x1_0000);
    assert (low + high)[2..] == high;
    low + high
  }

  /** Sum of all octets, not reduced. */
  function Sum(s: bytes): nat {
    if s == [] then 0 else s[0] + Sum(s[1..])
  }

  lemma {:induction false} SumConcat(s: bytes, t: bytes)
    ensures Sum(s + t) == Sum(s) + Sum(t)
  {
    if s == [] {
      assert s + t == t;
    } else {
      assert (s + t)[1..] == s[1..] + t;
      SumConcat(s[1..], t);
    }
  }

  /** Changing one octet moves the sum by exactly the difference. */
  lemma SumUpdate(s: bytes, i: nat, b: byte)
    requires i < |s|
    ensures Sum(s[i := b]) == Sum(s) - s[i] + b
  {
    assert s == s[..i] + ([s[i]] + s[i + 1..]);
    assert s[i := b] == s[..i] + ([b] + s[i + 1..]);
    SumConcat(s[..i], [s[i]] + s[i + 1..]);
    SumConcat(s[..i], [b] + s[i + 1..]);
  }

  /** Exclusive or of the low `width` bits, bit by bit. */
  function XorBits(a: nat, b: nat, width: nat): (r: nat) {
    if width == 0 then 0
    else (a % 2 + b % 2) % 2 + 2 * XorBits(a / 2, b / 2, width - 1)
  }

  function Pow2(n: nat): (r: nat)
    ensures r > 0
  {
    if n == 0 then 1 else 2 * Pow2(n - 1)
  }

  lemma {:induction false} XorBitsCancels(a: nat, b: nat, width: nat)
    requires a < Pow2(width)
    ensures XorBits(a, b, width) < Pow2(width)
    ensures XorBits(XorBits(a, b, width), b, width) == a
  {
    if width > 0 {
      XorBitsCancels(a / 2, b / 2, width - 1);
      Bit(a, b, XorBits(a / 2, b / 2, width - 1));
    }
  }

  lemma Bit(a: nat, b: nat, high: nat)
    ensures var r := (a % 2 + b % 2) % 2 + 2 * high; r / 2 == high && (r % 2 + b % 2) % 2 == a % 2
  {
  }

  lemma Pow2Of8()
    ensures Pow2(8) == 256
  {
    assert Pow2(4) == 16;
  }

  function Xor8(a: byte, b: byte): (r: byte) {
    Pow2Of8();
    XorBitsCancels(a, b, 8);
    XorBits(a, b, 8)
  }

  lemma Xor8Cancels(a: byte, b: byte)
    ensures Xor8(Xor8(a, b), b) == a
  {
    Pow2Of8();
    XorBitsCancels(a, b, 8);
  }

  // ---------- what these are, digit by digit ----------

  /** Little-endian: the first octet counts least. */
  lemma LittleEndian(s: bytes)
    requires 4 <= |s|
    ensures var a: int, b: int, c: int, d: int := s[0], s[1], s[2], s[3];
            U16(s) == a + 0x100 * b && U32(s) == a + 0x100 * b + 0x1_0000 * c + 0x100_0000 * d
  {
    assert s[2..][0] == s[2] && s[2..][1] == s[3];
  }

  /** And each word has only one spelling. */
  lemma WordsSpellBack(s: bytes)
    requires 4 <= |s|
    ensures s[..2] == PutU16(U16(s)) && s[..4] == PutU32(U32(s))
  {
    var low, high := U16(s), U16(s[2..]);
    assert U32(s) % 0x1_0000 == low && U32(s) / 0x1_0000 == high;
    assert s[2..][0] == s[2] && s[2..][1] == s[3];
  }

  lemma HalveThenDivide(x: nat, p: nat)
    requires 0 < p
    ensures x / (2 * p) == x / 2 / p
  {
    var q, r := x / 2 / p, x / 2 % p;
    assert x / 2 == p * q + r;
    assert x == (2 * p) * q + (2 * r + x % 2);
    QuotientOf(x, 2 * p, q, 2 * r + x % 2);
  }

  lemma QuotientOf(x: nat, d: nat, q: nat, r: nat)
    requires r < d && x == d * q + r
    ensures x / d == q
  {
    var e := x / d;
    assert x == d * e + x % d;
    TimesGrows(d, e, q);
    TimesGrows(d, q, e);
  }

  lemma TimesGrows(d: nat, a: nat, b: nat)
    ensures a < b ==> d * a + d <= d * b
  {
    if a < b {
      assert d * b == d * a + d + d * (b - a - 1);
    }
  }

  /** Bit `i` of a number. */
  function BitOf(x: nat, i: nat): (bit: nat)
    ensures bit < 2
  {
    x / Pow2(i) % 2
  }

  lemma FirstBit(x: nat)
    ensures BitOf(x, 0) == x % 2
  {
    assert Pow2(0) == 1;
  }

  lemma LaterBit(x: nat, i: nat)
    requires 0 < i
    ensures BitOf(x, i) == BitOf(x / 2, i - 1)
  {
    HalveThenDivide(x, Pow2(i - 1));
  }

  /** Each bit of an exclusive or is set exactly when one of the two operands' bits is. */
  lemma {:induction false} XorBitsEach(a: nat, b: nat, width: nat, i: nat)
    requires i < width
    ensures BitOf(XorBits(a, b, width), i) == (BitOf(a, i) + BitOf(b, i)) % 2
    decreases i
  {
    hide XorBits, BitOf, Pow2;
    var r := XorBits(a, b, width);
    XorBitsUnfolds(a, b, width);
    if i == 0 {
      FirstBit(r);
      FirstBit(a);
      FirstBit(b);
    } else {
      XorBitsEach(a / 2, b / 2, width - 1, i - 1);
      LaterBit(r, i);
      LaterBit(a, i);
      LaterBit(b, i);
    }
  }

  lemma XorBitsUnfolds(a: nat, b: nat, width: nat)
    requires 0 < width
    ensures XorBits(a, b, width) / 2 == XorBits(a / 2, b / 2, width - 1)
    ensures XorBits(a, b, width) % 2 == (a % 2 + b % 2) % 2
  {
    Bit(a, b, XorBits(a / 2, b / 2, width - 1));
  }

  lemma Xor8Each(a: byte, b: byte, i: nat)
    requires i < 8
    ensures BitOf(Xor8(a, b), i) == (BitOf(a, i) + BitOf(b, i)) % 2
  {
    XorBitsEach(a, b, 8, i);
  }
}
