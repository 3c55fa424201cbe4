/** The packet frame: header fields, the two interlocking checksums and the per-packet cipher. */
module Frames {
  import opened Bytes

  const HEADER := 12
  const MAX_PACKET := 131072
  const KEY_LENGTH := 10

  const FLAG_KEY := 1
  const FLAG_ENCRYPTED := 2
  const FLAG_ALIVE_REPLY := 8

  predicate HasKey(flag: byte) { flag % 2 == 1 }
  predicate HasAliveRequest(flag: byte) { flag / 4 % 2 == 1 }
  predicate HasAliveReply(flag: byte) { flag / 8 % 2 == 1 }

  type Key = k: bytes | |k| == 10 witness [0, 0, 0, 0, 0, 0, 0, 0, 0, 0]

  /** Anything with a complete header. */
  type Frame = f: bytes | |f| >= 12 witness [0, 0, 0, 0, 0, 0, 0, 0, 0, 0, 0, 0]

  /** A frame carries its own size. */
  predicate IsFrame(f: bytes) {
    HEADER <= |f| && U32(f) == |f|
  }

  function Payload(f: bytes): bytes
    requires HEADER <= |f|
  {
    f[HEADER..]
  }

  predicate KeyNumberOk(n: byte) {
    n < KEY_LENGTH || n == 0xff
  }

  /** The key byte a frame is enciphered with; 0xff names the fixed key. */
  function KeyByte(key: Key, number: byte): byte
    requires KeyNumberOk(number)
  {
    if number != 0xff then key[number] else 8
  }

  // ---------- cipher ----------

  function Decipher(c: byte, k: byte): byte { Xor8(Low8(c + k), k) }
  function Encipher(p: byte, k: byte): byte { Low8(Xor8(p, k) - k) }

  lemma CipherInverts(b: byte, k: byte)
    ensures Decipher(Encipher(b, k), k) == b
    ensures Encipher(Decipher(b, k), k) == b
  {
    Xor8Cancels(b, k);
    Xor8Cancels(Low8(b + k), k);
    hide Xor8;
    WrapCancels(Xor8(b, k), k);
    UnwrapCancels(b, k);
  }

  lemma UnwrapCancels(x: byte, k: byte)
    ensures Low8(Low8(x + k) - k) == x
  {
  }

  lemma WrapCancels(x: byte, k: int)
    ensures Low8(Low8(x - k) + k) == x
  {
  }

  function DecipherAll(s: bytes, k: byte): (r: bytes)
    ensures |r| == |s|
  {
    seq(|s|, i requires 0 <= i < |s| => Decipher(s[i], k))
  }

  function EncipherAll(s: bytes, k: byte): (r: bytes)
    ensures |r| == |s|
  {
    seq(|s|, i requires 0 <= i < |s| => Encipher(s[i], k))
  }

  lemma CipherAllInverts(s: bytes, k: byte)
    ensures DecipherAll(EncipherAll(s, k), k) == s
    ensures EncipherAll(DecipherAll(s, k), k) == s
  {
    forall b: byte
      ensures Decipher(Encipher(b, k), k) == b && Encipher(Decipher(b, k), k) == b
    {
      CipherInverts(b, k);
    }
    hide Decipher, Encipher;
  }

  /** An octet is deciphered by adding the key octet, modulo 256, and taking the exclusive or with it, bit for bit. */
  lemma DecipherEachBit(c: byte, k: byte, i: nat)
    requires i < 8
    ensures BitOf(Decipher(c, k), i) == (BitOf((c + k) % 256, i) + BitOf(k, i)) % 2
  {
    Xor8Each(Low8(c + k), k, i);
  }

  /** And enciphered by the exclusive or, then taking the key octet away. */
  lemma EncipherEachBit(p: byte, k: byte, i: nat)
    requires i < 8
    ensures BitOf((Encipher(p, k) + k) % 256, i) == (BitOf(p, i) + BitOf(k, i)) % 2
  {
    WrapCancels(Xor8(p, k), k);
    Xor8Each(p, k, i);
  }

  /** The frame with its data deciphered, as the receiver makes it in place. */
  function Opened(f: bytes, k: byte): (r: bytes)
    requires HEADER <= |f|
    ensures |r| == |f| && r[..HEADER] == f[..HEADER]
  {
    f[..HEADER] + DecipherAll(f[HEADER..], k)
  }

  // ---------- checksums ----------

  predicate HeaderSumOk(f: bytes)
    requires HEADER <= |f|
  {
    Low8(Sum(f[..11]) - f[6]) == f[6]
  }

  /** Checked on the deciphered frame. */
  predicate DataSumOk(plain: bytes, k: byte)
    requires HEADER <= |plain|
  {
    Low8(Sum(plain) + k - plain[6] - plain[5]) == plain[5]
  }

  /** What a receiver holding key byte `k` accepts. */
  predicate Sound(f: bytes, k: byte)
    requires HEADER <= |f|
  {
    HeaderSumOk(f) && DataSumOk(Opened(f, k), k)
  }

  /** The frame with both checksum fields filled in, before its data is enciphered. */
  function Summed(f: bytes, k: byte): (r: bytes)
    requires HEADER <= |f|
    ensures |r| == |f|
    ensures forall i | 0 <= i < |f| && i != 5 && i != 6 :: r[i] == f[i]
  {
    var z := f[5 := 0][6 := 0];
    var data := Low8(Sum(z) + k);
    var header := Low8(Sum(z[..11]) + data);
    z[5 := data][6 := header]
  }

  /** What goes on the wire. */
  function Sealed(f: bytes, k: byte): (r: bytes)
    requires HEADER <= |f|
    ensures |r| == |f|
  {
    var g := Summed(f, k);
    g[..HEADER] + EncipherAll(g[HEADER..], k)
  }

  lemma SumPrefixUpdate(s: bytes, n: nat, i: nat, b: byte)
    requires i < |s| && n <= |s|
    ensures Sum(s[i := b][..n]) == if i < n then Sum(s[..n]) - s[i] + b else Sum(s[..n])
  {
    if i < n {
      assert s[i := b][..n] == s[..n][i := b];
      SumUpdate(s[..n], i, b);
    } else {
      assert s[i := b][..n] == s[..n];
    }
  }

  /** A sealed frame opens, with the same key byte, to the frame that was sealed, and passes both checks. */
  lemma SealedIsSound(f: bytes, k: byte)
    requires HEADER <= |f|
    ensures Opened(Sealed(f, k), k) == Summed(f, k)
    ensures Sealed(f, k)[..HEADER] == Summed(f, k)[..HEADER]
    ensures Sound(Sealed(f, k), k)
  {
    var g, w := Summed(f, k), Sealed(f, k);
    CipherAllInverts(g[HEADER..], k);
    assert w[..HEADER] == g[..HEADER] && w[HEADER..] == EncipherAll(g[HEADER..], k);
    assert g == g[..HEADER] + g[HEADER..];
    SummedChecks(f, k);
    assert w[..11] == g[..HEADER][..11] == g[..11];
    assert w[6] == w[..HEADER][6] == g[6];
  }

  lemma OpenedAt(f: bytes, k: byte, j: nat)
    requires HEADER <= j < |f|
    ensures Opened(f, k)[j] == Decipher(f[j], k)
  {
    hide Decipher;
    assert f[HEADER..][j - HEADER] == f[j];
  }

  /** Bit for bit, what opening a frame makes of its data. */
  lemma OpenedEachBit(f: bytes, k: byte, j: nat, i: nat)
    requires HEADER <= j < |f| && i < 8
    ensures BitOf(Opened(f, k)[j], i) == (BitOf((f[j] + k) % 256, i) + BitOf(k, i)) % 2
  {
    assert Opened(f, k)[j] == Decipher(f[j], k) by { hide Decipher; OpenedAt(f, k, j); }
    DecipherEachBit(f[j], k, i);
    hide Decipher, Opened, BitOf;
  }

  /**
   * A sealed frame's header on the wire: as given but for the two checksums, the data one at 5 over all of the frame
   * and the key octet, the header one at 6 over the first 11 octets and the data one; both with these two fields as 0.
   */
  lemma SealedHeaderOnTheWire(f: bytes, k: byte)
    requires HEADER <= |f|
    ensures var w, z := Sealed(f, k), f[5 := 0][6 := 0];
            && (forall j | 0 <= j < HEADER && j != 5 && j != 6 :: w[j] == f[j])
            && w[5] == Low8(Sum(z) + k) && w[6] == Low8(Sum(z[..11]) + Sum(z) + k)
  {
    SummedFields(f, k);
    hide Encipher, Summed, Sum, Low8;
  }

  /** Its data on the wire: the exclusive or with the key octet, bit for bit, less that octet. */
  lemma SealedDataOnTheWire(f: bytes, k: byte, j: nat, i: nat)
    requires HEADER <= j < |f| && i < 8
    ensures BitOf((Sealed(f, k)[j] + k) % 256, i) == (BitOf(f[j], i) + BitOf(k, i)) % 2
  {
    hide Encipher, Summed;
    EncipherEachBit(f[j], k, i);
    assert Summed(f, k)[HEADER..][j - HEADER] == f[j];
  }

  lemma SummedFields(f: bytes, k: byte)
    requires HEADER <= |f|
    ensures var z := f[5 := 0][6 := 0];
            Summed(f, k)[5] == Low8(Sum(z) + k) && Summed(f, k)[6] == Low8(Sum(z[..11]) + Sum(z) + k)
  {
    hide Low8, Sum;
    var z := f[5 := 0][6 := 0];
    LowOfLow(Sum(z[..11]), Sum(z) + k);
  }

  lemma LowOfLow(a: int, b: int)
    ensures Low8(a + Low8(b)) == Low8(a + b)
  {
  }

  lemma SummedChecks(f: bytes, k: byte)
    requires HEADER <= |f|
    ensures HeaderSumOk(Summed(f, k)) && DataSumOk(Summed(f, k), k)
  {
    var z := f[5 := 0][6 := 0];
    var data := Low8(Sum(z) + k);
    var header := Low8(Sum(z[..11]) + data);
    SumPrefixUpdate(z, 11, 5, data);
    SumPrefixUpdate(z[5 := data], 11, 6, header);
    SumUpdate(z, 5, data);
    SumUpdate(z[5 := data], 6, header);
  }

  // ---------- error detection ----------

  lemma OpenedUpdate(f: bytes, k: byte, i: nat, b: byte)
    requires HEADER <= |f| && i < |f|
    ensures Opened(f[i := b], k) == Opened(f, k)[i := if i < HEADER then b else Decipher(b, k)]
  {
    hide Decipher;
    if i < HEADER {
      assert f[i := b][..HEADER] == f[..HEADER][i := b];
      assert f[i := b][HEADER..] == f[HEADER..];
    } else {
      assert f[i := b][..HEADER] == f[..HEADER];
      assert f[i := b][HEADER..] == f[HEADER..][i - HEADER := b];
    }
  }

  lemma DecipherInjective(a: byte, b: byte, k: byte)
    requires Decipher(a, k) == Decipher(b, k)
    ensures a == b
  {
    CipherInverts(a, k);
    CipherInverts(b, k);
  }

  lemma HeaderCorruption(f: bytes, i: nat, b: byte)
    requires HEADER <= |f| && HeaderSumOk(f) && i < 11 && b != f[i]
    ensures !HeaderSumOk(f[i := b])
  {
    SumPrefixUpdate(f, 11, i, b);
    hide Sum;
  }

  lemma DataCorruption(plain: bytes, k: byte, i: nat, c: byte)
    requires HEADER <= |plain| && DataSumOk(plain, k) && 11 <= i < |plain| && c != plain[i]
    ensures !DataSumOk(plain[i := c], k)
  {
    SumUpdate(plain, i, c);
    hide Sum;
  }

  /** Of an accepted frame, every corruption of a single byte is noticed by one of the two checks. */
  lemma OneByteCorruptionDetected(f: bytes, k: byte, i: nat, b: byte)
    requires HEADER <= |f| && Sound(f, k)
    requires i < |f| && b != f[i]
    ensures !Sound(f[i := b], k)
    ensures i < 11 ==> !HeaderSumOk(f[i := b])
  {
    if i < 11 {
      HeaderCorruption(f, i, b);
    } else {
      var c := if i < HEADER then b else Decipher(b, k);
      var plain := Opened(f, k);
      OpenedUpdate(f, k, i, b);
      if i >= HEADER && c == plain[i] {
        DecipherInjective(b, f[i], k);
      }
      hide DataSumOk, HeaderSumOk, Decipher;
      DataCorruption(plain, k, i, c);
    }
  }
}
