/** The packer, which only ever emits one literal run, and its round trip through the decoder. */
module RomPacker {
  import opened Bytes
  import opened RomPackFormat
  import opened RomPackDecoder

  /** The length bytes the packer's loop emits; a value below 0 or above 255 is cut to an octet. */
  function LengthBytes(len: int): (s: bytes) {
    if len > 255 then [0] + LengthBytes(len - 255) else [Low8(len)]
  }

  function Packed(src: bytes): (s: bytes) {
    [0] + LengthBytes(|src| - 18) + src + [0x11, 0, 0]
  }

  method Pack(src: array<byte>, srclen: nat, dst: array<byte>) returns (ok: bool, outlen: int)
    requires src != dst && srclen <= src.Length && dst.Length <= INT_MAX
    requires srclen != 18  // asserted by the source
    requires |Packed(src[..srclen])| <= dst.Length
    modifies dst
    ensures ok && outlen == |Packed(src[..srclen])|
    ensures dst[..] == Packed(src[..srclen]) + old(dst[..])[outlen..]
  {
    ghost var before := dst[..];
    var out := PackLength(srclen, dst);
    assert dst[out..] == before[out..];
    SameFurther(dst[..], before, out, out + srclen);
    CopyIn(src, srclen, dst, out);
    out := out + srclen;
    SameFurther(dst[..], before, out, out + 3);
    PutMarker(dst, out);
    out := out + 3;
    assert dst[..] == dst[..out] + dst[out..];
    ok, outlen := true, out;
  }

  lemma SameFurther(a: bytes, b: bytes, i: nat, j: nat)
    requires i <= j <= |a| == |b| && a[i..] == b[i..]
    ensures a[j..] == b[j..]
  {
    assert a[j..] == a[i..][j - i..] && b[j..] == b[i..][j - i..];
  }

  /** The end-of-stream marker. */
  method PutMarker(dst: array<byte>, at: nat)
    requires at + 3 <= dst.Length
    modifies dst
    ensures dst[..at + 3] == old(dst[..at]) + [0x11, 0, 0]
    ensures dst[at + 3..] == old(dst[at + 3..])
  {
    dst[at], dst[at + 1], dst[at + 2] := 0x11, 0, 0;
  }

  /** The command byte and the length loop. */
  method PackLength(srclen: nat, dst: array<byte>) returns (out: nat)
    requires 1 + |LengthBytes(srclen - 18)| <= dst.Length
    modifies dst
    ensures out <= dst.Length && dst[..out] == [0] + LengthBytes(srclen - 18)
    ensures dst[out..] == old(dst[out..])
  {
    ghost var goal := LengthBytes(srclen - 18);
    out := 1;
    dst[0] := 0;
    var len := srclen - 18;
    while len > 255
      invariant 1 <= out && out - 1 + |LengthBytes(len)| == |goal|
      invariant dst[..out] + LengthBytes(len) == [0] + goal
      invariant dst[out..] == old(dst[out..])
    {
      ghost var before := dst[..out];
      dst[out] := 0;
      assert dst[..out + 1] == before + [0];
      out, len := out + 1, len - 255;
    }
    ghost var before := dst[..out];
    dst[out] := Low8(len);
    assert dst[..out + 1] == before + [Low8(len)];
    out := out + 1;
  }

  /** memcpy of the data bytes. */
  method CopyIn(src: array<byte>, n: nat, dst: array<byte>, at: nat)
    requires src != dst && n <= src.Length && at + n <= dst.Length
    modifies dst
    ensures dst[..at + n] == old(dst[..at]) + src[..n]
    ensures dst[at + n..] == old(dst[at + n..])
  {
    forall i | 0 <= i < n { dst[at + i] := src[i]; }
  }

  lemma {:induction false} LengthBytesExtend(len: int)
    requires 1 <= len
    ensures LengthBytes(len) == Extension(len)
    ensures |LengthBytes(len)| == 1 + (len - 1) / 255
  {
    if len > 255 {
      LengthBytesExtend(len - 255);
      assert (len - 1) / 255 == (len - 256) / 255 + 1;
    }
  }

  function PackedProgram(src: bytes): Program {
    Then(Run(|src|), src, End(Stop(1, 0)))
  }

  /** From 19 bytes on, the packer's output is a program denoting its input, of exactly this size. */
  lemma PackedMeans(src: bytes)
    requires |src| >= 19
    ensures Means(Packed(src), PackedProgram(src), src)
    ensures |Packed(src)| == |src| + 5 + (|src| - 19) / 255
  {
    LengthBytesExtend(|src| - 18);
    assert Header(Run(|src|)) == [0] + Extension(|src| - 18);
    assert Header(Stop(1, 0)) == [0x11, 0, 0];
    assert Packed(src) == Encode(Start, PackedProgram(src));
    assert Expand(PackedProgram(src), []) == [] + src == src;
  }

  /** Below 18 bytes the cut length asks for more literals than there are. */
  lemma ShortPackedOverruns(src: bytes)
    requires |src| < 18
    ensures Decode(Packed(src), Start, []) == OutOfBounds
  {
    var s := Packed(src);
    var v: int := Low8(|src| - 18);
    assert s == [0, v] + src + [0x11, 0, 0] && v == 238 + |src|;
    assert s[1..] == [v] + src + [0x11, 0, 0];
    assert ReadExtension(s[1..]) == Got(v, 1);
    assert ReadCommand(s, Start) == Got(Run(v + 18), 2);
  }

  /** Packing is undone by the decoder exactly when the input has at least 19 bytes (18 fails the assertion). */
  lemma RoundTripExactly(src: bytes)
    requires |src| != 18
    ensures Decode(Packed(src), Start, []) == Done(src, []) <==> |src| >= 19
  {
    if |src| >= 19 {
      PackedMeans(src);
      DecodesExactlyEncodings(Packed(src), src);
    } else {
      ShortPackedOverruns(src);
    }
  }
}
