/** The dump tool's "rompack" transformation: an optional trailer is dropped, then the stream is unpacked. */
module Packing {
  import opened Bytes
  import opened RomPackFormat
  import opened RomPackDecoder
  import opened RomPack
  import opened RomPacker

  datatype Option<T> = None | Some(value: T)

  const ESTIMATE := 1024 * 1024

  predicate HasTrailer(s: bytes) {
    |s| > 8 && s[|s| - 4..] == [0x11, 0x10, 0, 0]
  }

  function Stripped(s: bytes): bytes {
    if HasTrailer(s) then s[..|s| - 8] else s
  }

  /** What the transformation makes of its input. */
  function Unpacked(s: bytes): Option<bytes> {
    match Decode(Stripped(s), Start, [])
    case Done(out, rest) => if rest == [] then Some(out) else None
    case _ => None
  }

  /** ROMPacking::Apply, for input that is not empty and output that fits. */
  method Apply(source: array<byte>, sourceLen: nat, dest: array<byte>) returns (ok: bool, destLen: int)
    requires source != dest && 1 <= sourceLen == source.Length <= MAX_SOURCE && dest.Length == ESTIMATE
    requires !Decode(source[..], Start, []).OutOfBounds?
    requires |Decode(source[..], Start, []).out| <= dest.Length
    modifies dest
    ensures ok == Unpacked(source[..]).Some?
    ensures ok ==> 0 <= destLen <= dest.Length && dest[..destLen] == Unpacked(source[..]).value
  {
    hide Decode, Means;
    var length := sourceLen;
    if sourceLen > 8 && source[sourceLen - 4] == 0x11 && source[sourceLen - 3] == 0x10 &&
       source[sourceLen - 2] == 0 && source[sourceLen - 1] == 0 {
      assert source[..][|source[..]| - 4..] == [0x11, 0x10, 0, 0];
      length := sourceLen - 8;
    }
    ghost var s := source[..];
    assert Stripped(s) == s[..length];
    ok, destLen := Unpack(source, length, dest);
    DecodesExactlyEncodings(s[..length], dest[..destLen]);
    assert source[..length] == s[..length];
    if Unpacked(s).Some? {
      DecodesExactlyEncodings(s[..length], Unpacked(s).value);
    }
  }

  // ---------- the trailer rule ----------

  lemma ExtensionEnds(n: nat)
    requires 1 <= n
    ensures var e := Extension(n); 1 <= e[|e| - 1] && (|e| > 1 ==> e[|e| - 2] == 0)
  {
    if n > 255 {
      ExtensionEnds(n - 255);
    }
  }

  /** Every stream ends in its end marker. */
  lemma {:induction false} EncodingEnds(mode: Mode, p: Program) returns (before: bytes, n: nat, low: nat)
    requires WellFormed(mode, p)
    ensures 1 <= n && low <= 3 && Encode(mode, p) == before + Counted(0x10, n, 7) + [low, 0]
    decreases p
  {
    match p
    case End(m) =>
      before, n, low := [], m.count, m.low;
      assert before + Counted(0x10, n, 7) + [low, 0] == Header(m);
    case Then(c, lits, rest) =>
      hide Header, Counted;
      before, n, low := EncodingEnds(NextMode(c), rest);
      before := Header(c) + lits + before;
  }

  lemma CountEnds(n: nat)
    requires 1 <= n
    ensures var c := Counted(0x10, n, 7);
      |c| >= 1 && (c[|c| - 1] == 0x10 ==> |c| >= 2 && c[|c| - 2] != 0x11)
  {
    if n > 7 {
      ExtensionEnds(n - 7);
    }
  }

  /** No stream ends like the trailer, however its end marker is spelled: the rule never cuts into a stream. */
  lemma EncodingHasNoTrailer(p: Program)
    requires WellFormed(Start, p)
    ensures !HasTrailer(Encode(Start, p))
  {
    hide Encode, WellFormed, Counted;
    var s := Encode(Start, p);
    var before, n, low := EncodingEnds(Start, p);
    CountEnds(n);
    var counted := Counted(0x10, n, 7);
    assert s[|s| - 3] == counted[|counted| - 1];
    if |counted| >= 2 {
      assert s[|s| - 4] == counted[|counted| - 2];
    }
    if |s| > 8 {
      var last := s[|s| - 4..];
      assert last[0] == s[|s| - 4] && last[1] == s[|s| - 3];
    }
  }

  /** A stream unpacks to its meaning, with or without a trailer behind it. */
  lemma UnpackedStream(p: Program, pad: bytes)
    requires WellFormed(Start, p) && InRange(p, 0) && |pad| == 4
    ensures Unpacked(Encode(Start, p)) == Some(Expand(p, []))
    ensures Unpacked(Encode(Start, p) + pad + [0x11, 0x10, 0, 0]) == Some(Expand(p, []))
  {
    var s, out := Encode(Start, p), Expand(p, []);
    EncodingHasNoTrailer(p);
    hide Decode, Encode, Expand, WellFormed, InRange;
    assert |s| > 0;
    TrailerStripped(s, pad);
    assert Stripped(s) == s;
    DecodeOfEncoding(p, Start, [], []);
    assert s + [] == s;
  }

  lemma TrailerStripped(s: bytes, pad: bytes)
    requires |s| > 0 && |pad| == 4
    ensures Stripped(s + pad + [0x11, 0x10, 0, 0]) == s
  {
    var t := s + pad + [0x11, 0x10, 0, 0];
    assert t[|t| - 4..] == [0x11, 0x10, 0, 0];
    assert t[..|t| - 8] == s;
  }

  /** The packer's output passes the transformation unchanged. */
  lemma UnpackedPacked(src: bytes)
    requires |src| >= 19
    ensures Unpacked(Packed(src)) == Some(src)
  {
    PackedMeans(src);
    UnpackedStream(PackedProgram(src), [0, 0, 0, 0]);
  }
}
