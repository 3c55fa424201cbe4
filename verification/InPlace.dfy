/** Checking and deciphering a frame where it lies in a larger array. */
module InPlace {
  import opened Bytes
  import opened Frames

  /** Sum of `n` bytes, kept in 8 bits as the code does. */
  method Checksum(p: array<byte>, at: nat, n: nat) returns (sum: byte)
    requires at + n <= p.Length
    ensures sum == Low8(Sum(p[at..at + n]))
  {
    sum := 0;
    for i := 0 to n
      invariant sum == Low8(Sum(p[at..at + i]))
    {
      assert p[at..at + i + 1] == p[at..at + i] + [p[at + i]];
      SumConcat(p[at..at + i], [p[at + i]]);
      sum := Low8(sum + p[at + i]);
    }
  }

  method HeaderCheck(p: array<byte>, at: nat, n: nat) returns (ok: bool)
    requires HEADER <= n && at + n <= p.Length
    ensures ok == HeaderSumOk(p[at..at + n])
  {
    ghost var f := p[at..at + n];
    var sum: int := Checksum(p, at, 11);
    assert p[at..at + 11] == f[..11] && p[at + 6] == f[6];
    ok := Low8(sum - p[at + 6]) == p[at + 6];
    HeaderSumInOctets(f, sum);
  }

  lemma HeaderSumInOctets(f: Frame, sum: int)
    requires sum == Low8(Sum(f[..11]))
    ensures (Low8(sum - f[6]) == f[6]) == HeaderSumOk(f)
  {
    hide Sum;
  }

  lemma DataSumInOctets(plain: Frame, k: byte, sum: int)
    requires sum == Low8(Sum(plain))
    ensures (Low8(sum + k - plain[6] - plain[5]) == plain[5]) == DataSumOk(plain, k)
  {
    hide Sum;
  }

  method DecipherInPlace(p: array<byte>, at: nat, n: nat, k: byte)
    requires HEADER <= n && at + n <= p.Length
    modifies p
    ensures p[at..at + n] == Opened(old(p[at..at + n]), k)
    ensures p[..at] == old(p[..at]) && p[at + n..] == old(p[at + n..])
  {
    hide Decipher;
    ghost var f := p[at..at + n];
    for i := HEADER to n
      invariant p[..at + HEADER] == old(p[..at + HEADER]) && p[at + i..] == old(p[at + i..])
      invariant forall j | HEADER <= j < i :: p[at + j] == Decipher(f[j], k)
    {
      assert p[at + i] == f[i];
      p[at + i] := Decipher(p[at + i], k);
    }
    ghost var g := p[at..at + n];
    assert g[..HEADER] == p[..at + HEADER][at..] == old(p[..at + HEADER])[at..] == f[..HEADER];
    assert g[HEADER..] == DecipherAll(f[HEADER..], k);
    assert g == g[..HEADER] + g[HEADER..];
  }

  /** Deciphers the data and checks its sum; nothing outside the frame is touched. */
  method OpenInPlace(p: array<byte>, at: nat, n: nat, k: byte) returns (ok: bool)
    requires HEADER <= n && at + n <= p.Length
    modifies p
    ensures p[at..at + n] == Opened(old(p[at..at + n]), k)
    ensures ok == DataSumOk(Opened(old(p[at..at + n]), k), k)
    ensures p[..at] == old(p[..at]) && p[at..at + 4] == old(p[at..at + 4]) && p[at + n..] == old(p[at + n..])
  {
    hide Sum, DataSumOk;
    ghost var f, first := p[at..at + n], p[at..at + 4];
    DecipherInPlace(p, at, n, k);
    var sum: int := Checksum(p, at, n);
    ghost var plain := p[at..at + n];
    assert p[at + 6] == plain[6] && p[at + 5] == plain[5];
    SameStart(plain, f);
    assert plain[..4] == p[at..at + 4] && f[..4] == first;
    DataSumInOctets(plain, k, sum);
    sum := Low8(sum + k - p[at + 6] - p[at + 5]);
    ok := sum == p[at + 5];
  }

  lemma SameStart(a: Frame, b: Frame)
    requires a[..HEADER] == b[..HEADER]
    ensures a[..4] == b[..4]
  {
    assert a[..4] == a[..HEADER][..4] && b[..4] == b[..HEADER][..4];
  }

  /** A 32-bit field, least significant byte first. */
  method Load32(p: array<byte>, at: nat) returns (v: uint32)
    requires at + 4 <= p.Length
    ensures v == U32(p[at..])
  {
    var a: int, b: int, c: int, d: int := p[at], p[at + 1], p[at + 2], p[at + 3];
    v := a + 256 * b + 0x1_0000 * (c + 256 * d);
  }
}
