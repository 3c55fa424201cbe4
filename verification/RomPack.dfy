/** The in-place decoder and the literal-only packer, over arrays and indices. */
module RomPack {
  import opened Bytes
  import opened RomPackFormat
  import opened RomPackDecoder

  /** The labels of the decoder's jumps. */
  datatype Label = TryStandardRun | TryAlternative | HandleTrailing | TryStandard

  /** A source this long cannot make a 32-bit count wrap. */
  const MAX_SOURCE := 0x100_0000

  /** What is left to decode when `k` trailing literals are still to be copied. */
  function AfterMatch(s: bytes, k: nat, out: bytes): Outcome {
    if |s| < k then OutOfBounds
    else Decode(s[k..], if k == 0 then Standard else AfterTrailing, out + s[..k])
  }

  /** What is left to decode at each label; `code` is the command byte `TryStandard` has already fetched. */
  function Remaining(at: Label, s: bytes, inp: nat, out: bytes): Outcome
    requires inp <= |s|
    requires at == TryStandard ==> 1 <= inp
    requires at == HandleTrailing ==> 2 <= inp
  {
    match at
    case TryStandardRun => Decode(s[inp..], Standard, out)
    case TryAlternative => Decode(s[inp..], Alternative, out)
    case TryStandard => Decode(s[inp - 1..], AfterTrailing, out)
    case HandleTrailing => AfterMatch(s[inp..], s[inp - 2] % 4, out)
  }

  /** The COPY loop from the source. */
  method CopyLiterals(src: array<byte>, dst: array<byte>, inp: nat, out: nat, count: uint32) returns (inp': nat, out': nat)
    requires src != dst && inp + count <= src.Length && out + count <= dst.Length
    modifies dst
    ensures inp' == inp + count && out' == out + count
    ensures dst[..out'] == old(dst[..out]) + src[inp..inp']
    ensures dst[out'..] == old(dst[out'..])
  {
    inp', out' := inp, out;
    var left := count;
    while left > 0
      invariant inp' + left == inp + count && out' + left == out + count
      invariant dst[..out'] == old(dst[..out]) + src[inp..inp']
      invariant dst[out + count..] == old(dst[out + count..])
    {
      dst[out'] := src[inp'];
      inp', out', left := inp' + 1, out' + 1, left - 1;
    }
  }

  /** The COPY loop within the output; source and target may overlap. */
  method CopyOutput(dst: array<byte>, buf: int, out: nat, count: uint32) returns (out': nat)
    requires 0 <= buf < out && out + count <= dst.Length
    modifies dst
    ensures out' == out + count
    ensures dst[..out'] == CopyBack(old(dst[..out]), out - buf, count)
    ensures dst[out'..] == old(dst[out'..])
  {
    ghost var goal := CopyBack(dst[..out], out - buf, count);
    out' := out;
    var from, left := buf, count;
    while left > 0
      invariant out' + left == out + count && out' - from == out - buf
      invariant CopyBack(dst[..out'], out - buf, left) == goal
      invariant dst[out + count..] == old(dst[out + count..])
    {
      ghost var before := dst[..out'];
      dst[out'] := dst[from];
      assert dst[..out' + 1] == before + [before[|before| - (out - buf)]];
      out', from, left := out' + 1, from + 1, left - 1;
    }
  }

  /** HANDLE_COUNT: a zero field is extended by the bytes that follow. */
  method HandleCount(src: array<byte>, inp: nat, acc: uint32, mask: uint32) returns (inp': nat, acc': uint32)
    requires 1 <= inp <= src.Length <= MAX_SOURCE && mask < 256
    requires ReadCount(src[inp - 1..], acc % (mask + 1), mask).Got?
    ensures var r := ReadCount(src[inp - 1..], acc % (mask + 1), mask);
            acc' == r.value && inp' == inp - 1 + r.used <= src.Length
    ensures acc' <= 255 * MAX_SOURCE + 511
  {
    inp', acc' := inp, acc % (mask + 1);
    if acc' == 0 {
      ghost var want := ReadExtension(src[inp..]);
      assert src[inp - 1..][1..] == src[inp..];
      ReadExtensionUsed(src[inp..]);
      while src[inp'] == 0
        invariant inp <= inp' < src.Length && acc' == 255 * (inp' - inp)
        invariant var r := ReadExtension(src[inp'..]);
                  r.Got? && r.value + acc' == want.value && r.used + (inp' - inp) == want.used
        decreases src.Length - inp'
      {
        assert src[inp'..][1..] == src[inp' + 1..];
        ReadExtensionUsed(src[inp' + 1..]);
        acc', inp' := acc' + 255, inp' + 1;
      }
      acc', inp' := acc' + (src[inp'] + mask), inp' + 1;
    }
  }

  /** One match command: the copy, then what `HandleTrailing` still has to do. */
  lemma MatchStep(s: bytes, mode: Mode, out: bytes)
    requires ReadCommand(s, mode).Got? && ReadCommand(s, mode).value.Match?
    requires !Decode(s, mode, out).OutOfBounds?
    ensures var r := ReadCommand(s, mode);
            && r.used <= |s| && 1 <= r.value.distance <= |out|
            && Decode(s, mode, out) == AfterMatch(s[r.used..], r.value.trailing, CopyBack(out, r.value.distance, r.value.count))
            && CopyBack(out, r.value.distance, r.value.count) <= Decode(s, mode, out).out
  {
    hide ReadCommand, Decode;
    DecodeStep(s, mode, out);
    var r := ReadCommand(s, mode);
    var c, rest := r.value, s[r.used..];
    assert rest[..c.trailing] == s[r.used..r.used + c.trailing];
    assert rest[c.trailing..] == s[r.used + c.trailing..];
  }

  /** One literal run. */
  lemma RunStep(s: bytes, mode: Mode, out: bytes)
    requires ReadCommand(s, mode).Got?
    requires ReadCommand(s, mode).value.Initial? || ReadCommand(s, mode).value.Run?
    requires !Decode(s, mode, out).OutOfBounds?
    ensures var r := ReadCommand(s, mode);
            var next := r.used + r.value.count;
            && next <= |s|
            && Decode(s, mode, out) == Decode(s[next..], NextMode(r.value), out + s[r.used..next])
            && out + s[r.used..next] <= Decode(s, mode, out).out
  {
    hide ReadCommand, Decode;
    DecodeStep(s, mode, out);
  }

  /** The decoder stands at a label and what remains decodes to `total`, which reads nothing out of bounds. */
  ghost predicate At(at: Label, code: int, s: bytes, inp: nat, out: bytes, total: Outcome) {
    && !total.OutOfBounds?
    && inp <= |s|
    && (at == TryStandard ==> 1 <= inp && code == s[inp - 1])
    && (at == HandleTrailing ==> 2 <= inp)
    && Remaining(at, s, inp, out) == total
  }

  lemma Slices(s: bytes, i: nat, j: nat, k: nat)
    requires i + j <= k <= |s|
    ensures s[i..][j..] == s[i + j..] && s[i..][j..k - i] == s[i + j..k] && s[i..][k - i..] == s[k..]
  {
  }

  lemma SameCommand(s: bytes, mode: Mode, mode': Mode, out: bytes)
    requires ReadCommand(s, mode) == ReadCommand(s, mode')
    ensures Decode(s, mode, out) == Decode(s, mode', out)
  {
    hide ReadCommand;
  }

  lemma SameFromTen(s: bytes, mode: Mode)
    requires s != [] && s[0] >= 0x10 && mode != Start
    ensures ReadCommand(s, mode) == ReadCommand(s, AfterTrailing)
  {
    hide ReadMid, ReadFar, ReadCount;
  }

  /** From 10 up, a command byte means the same at every label. */
  lemma CommonStep(s: bytes, inp: nat, mode: Mode, out: bytes, total: Outcome)
    requires inp < |s| && mode != Start && s[inp] >= 0x10
    requires Decode(s[inp..], mode, out) == total && !total.OutOfBounds?
    ensures At(TryStandard, s[inp], s, inp + 1, out, total)
  {
    hide ReadCommand, Decode;
    SameFromTen(s[inp..], mode);
    SameCommand(s[inp..], mode, AfterTrailing, out);
  }

  lemma Fetched(s: bytes, inp: nat, mode: Mode, out: bytes)
    requires inp <= |s| && !Decode(s[inp..], mode, out).OutOfBounds?
    ensures inp < |s| && !ReadCommand(s[inp..], mode).Overrun?
  {
  }

  lemma RunCommand(s: bytes)
    requires s != [] && s[0] < 0x10
    ensures var r, n := ReadCommand(s, Standard), ReadCount(s, s[0] % 16, 15);
            (r.Overrun? || (n.Got? && r == Got(Run(n.value + 3), n.used)))
  {
  }

  lemma StandardStep(s: bytes, inp: nat, out: bytes, total: Outcome)
    requires inp < |s| && s[inp] < 0x10
    requires At(TryStandardRun, 0, s, inp, out, total)
    ensures var r := ReadCount(s[inp..], s[inp] % 16, 15);
              && r.Got?
              && var start, end := inp + r.used, inp + r.used + r.value + 3;
                 && end <= |s|
                 && out + s[start..end] <= total.out
                 && At(TryAlternative, 0, s, end, out + s[start..end], total)
  {
    hide ReadCommand, ReadCount, Decode;
    var rest := s[inp..];
    Fetched(s, inp, Standard, out);
    RunCommand(rest);
    var r := ReadCommand(rest, Standard);
    RunStep(rest, Standard, out);
    Slices(s, inp, r.used, inp + r.used + r.value.count);
  }

  /** Label try_00to0F_standard. */
  method StandardRun(src: array<byte>, dst: array<byte>, inp: nat, out: nat, ghost total: Outcome)
    returns (inp': nat, out': nat, code: uint32, at: Label)
    requires src != dst && src.Length <= MAX_SOURCE && out <= dst.Length
    requires At(TryStandardRun, 0, src[..], inp, dst[..out], total) && |total.out| <= dst.Length
    modifies dst
    ensures inp < inp' && out <= out' <= dst.Length && dst[out'..] == old(dst[out'..])
    ensures At(at, code, src[..], inp', dst[..out'], total)
  {
    hide Decode, ReadCount;
    ghost var s := src[..];
    Fetched(s, inp, Standard, dst[..out]);
    code, inp', out' := src[inp], inp + 1, out;
    if code >= 0x10 {
      CommonStep(s, inp, Standard, dst[..out], total);
      at := TryStandard;
    } else {
      StandardStep(s, inp, dst[..out], total);
      assert src[inp..] == s[inp..];
      inp', code := HandleCount(src, inp', code, 15);
      code := code + 3;
      ghost var start := inp';
      inp', out' := CopyLiterals(src, dst, inp', out, code);
      assert src[start..inp'] == s[start..inp'];
      at := TryAlternative;
    }
  }

  lemma MidTrailing(s: bytes)
    requires s != [] && 0x20 <= s[0] < 0x40 && ReadMid(s).Got?
    ensures var r := ReadMid(s); 2 <= r.used <= |s| && s[r.used - 2] % 4 == r.value.trailing
  {
    hide ReadCount;
    WordLow(s[ReadMid(s).used - 2..]);
  }

  lemma FarTrailing(s: bytes)
    requires s != [] && 0x10 <= s[0] < 0x20 && ReadFar(s).Got? && ReadFar(s).value.Match?
    ensures var r := ReadFar(s); 2 <= r.used <= |s| && s[r.used - 2] % 4 == r.value.trailing
  {
    hide ReadCount;
    WordLow(s[ReadFar(s).used - 2..]);
  }

  /** The low bits two bytes before the read position are the trailing count of the match just read. */
  lemma TrailingBits(s: bytes, mode: Mode)
    requires ReadCommand(s, mode).Got? && ReadCommand(s, mode).value.Match?
    ensures var r := ReadCommand(s, mode); 2 <= r.used <= |s| && s[r.used - 2] % 4 == r.value.trailing
  {
    hide ReadCount, ReadMid, ReadFar;
    if 0x20 <= s[0] < 0x40 {
      MidTrailing(s);
    } else if 0x10 <= s[0] < 0x20 {
      FarTrailing(s);
    }
  }

  lemma WordLow(s: bytes)
    requires 2 <= |s|
    ensures U16(s) % 4 == s[0] % 4
  {
  }

  lemma MatchAt(s: bytes, inp: nat, mode: Mode, out: bytes, total: Outcome)
    requires 1 <= inp <= |s| && Decode(s[inp - 1..], mode, out) == total && !total.OutOfBounds?
    requires ReadCommand(s[inp - 1..], mode).Got? && ReadCommand(s[inp - 1..], mode).value.Match?
    ensures var r := ReadCommand(s[inp - 1..], mode);
            var c, end := r.value, inp - 1 + r.used;
            && inp < end <= |s| && 1 <= c.distance <= |out|
            && CopyBack(out, c.distance, c.count) <= total.out
            && At(HandleTrailing, 0, s, end, CopyBack(out, c.distance, c.count), total)
  {
    hide ReadCommand, Decode;
    var rest := s[inp - 1..];
    var r := ReadCommand(rest, mode);
    TrailingBits(rest, mode);
    MatchStep(rest, mode, out);
    Slices(s, inp - 1, r.used, inp - 1 + r.used);
  }

  /** Label try_00to0F_alternative, falling through to the trailing literals. */
  method ShortMatch(src: array<byte>, dst: array<byte>, inp: nat, out: nat, ghost total: Outcome)
    returns (inp': nat, out': nat, code: uint32, at: Label)
    requires src != dst && src.Length <= MAX_SOURCE && out <= dst.Length
    requires At(TryAlternative, 0, src[..], inp, dst[..out], total) && |total.out| <= dst.Length
    modifies dst
    ensures inp < inp' && out <= out' <= dst.Length && dst[out'..] == old(dst[out'..])
    ensures At(at, code, src[..], inp', dst[..out'], total)
  {
    hide Decode;
    ghost var s, before := src[..], dst[..out];
    Fetched(s, inp, Alternative, before);
    code, inp', out' := src[inp], inp + 1, out;
    if code >= 0x10 {
      CommonStep(s, inp, Alternative, before, total);
      at := TryStandard;
    } else {
      MatchAt(s, inp', Alternative, before, total);
      var low: int := src[inp'];
      var buf := out' - code / 4 - low * 4 - 0x801;
      inp' := inp' + 1;
      out' := CopyOutput(dst, buf, out', 3);
      at := HandleTrailing;
    }
  }

  lemma TrailingStep(s: bytes, inp: nat, out: bytes, total: Outcome)
    requires At(HandleTrailing, 0, s, inp, out, total)
    ensures var k := s[inp - 2] % 4;
            if k == 0 then At(TryStandardRun, 0, s, inp, out, total)
            else
              && inp + k < |s|
              && out + s[inp..inp + k] <= total.out
              && At(TryStandard, s[inp + k], s, inp + k + 1, out + s[inp..inp + k], total)
  {
    hide ReadCommand, Decode;
    var k := s[inp - 2] % 4;
    if k == 0 {
      assert s[inp..][0..] == s[inp..] && out + s[inp..][..0] == out;
    } else {
      Slices(s, inp, k, inp + k);
      assert s[inp..][..k] == s[inp..inp + k];
      Fetched(s, inp + k, AfterTrailing, out + s[inp..inp + k]);
    }
  }

  /** Label handle_offset_count. */
  method Trailing(src: array<byte>, dst: array<byte>, inp: nat, out: nat, ghost total: Outcome)
    returns (inp': nat, out': nat, code: uint32, at: Label)
    requires src != dst && src.Length <= MAX_SOURCE && out <= dst.Length
    requires At(HandleTrailing, 0, src[..], inp, dst[..out], total) && |total.out| <= dst.Length
    modifies dst
    ensures inp < inp' || (inp == inp' && at == TryStandardRun)
    ensures out <= out' <= dst.Length && dst[out'..] == old(dst[out'..])
    ensures At(at, code, src[..], inp', dst[..out'], total)
  {
    hide Decode;
    ghost var s := src[..];
    TrailingStep(s, inp, dst[..out], total);
    code, inp', out' := src[inp - 2] % 4, inp, out;
    if code == 0 {
      at := TryStandardRun;
    } else {
      inp', out' := CopyLiterals(src, dst, inp, out, code);
      assert src[inp..inp'] == s[inp..inp'];
      code, inp' := src[inp'], inp' + 1;
      at := TryStandard;
    }
  }

  /** The decoder has returned: `ok` and `outlen` are its results. */
  ghost predicate Returned(ok: bool, outlen: int, length: nat, srclen: int, out: bytes, total: Outcome) {
    && !total.OutOfBounds? && total.out == out
    && outlen == (if total.Done? then |out| else 0)
    && ok == (total.Done? && length - |total.rest| == srclen)
  }

  method ReadU16(src: array<byte>, inp: nat) returns (w: uint32)
    requires inp + 2 <= src.Length
    ensures w < 0x1_0000 && w == U16(src[inp..])
  {
    var low: int, high: int := src[inp], src[inp + 1];
    w := low + 256 * high;
  }

  lemma NearAt(s: bytes, inp: nat, out: bytes, total: Outcome)
    requires 1 <= inp <= |s| && s[inp - 1] >= 0x40
    requires At(TryStandard, s[inp - 1], s, inp, out, total)
    ensures inp < |s|
    ensures var b: int, d: int := s[inp - 1], s[inp];
            ReadCommand(s[inp - 1..], AfterTrailing) == Got(Match(Near, b / 32 + 1, b / 4 % 8 + d * 8 + 1, b % 4), 2)
  {
    Fetched(s, inp - 1, AfterTrailing, out);
  }

  lemma MidAt(s: bytes, inp: nat, out: bytes, total: Outcome)
    requires 1 <= inp <= |s| && 0x20 <= s[inp - 1] < 0x40
    requires At(TryStandard, s[inp - 1], s, inp, out, total)
    ensures var rest := s[inp - 1..];
            var n := ReadCount(rest, s[inp - 1] % 32, 31);
            && n.Got? && n.used + 2 <= |rest|
            && var w := U16(rest[n.used..]);
               ReadCommand(rest, AfterTrailing) == Got(Match(Mid, n.value + 2, w / 4 + 1, w % 4), n.used + 2)
  {
    hide Decode, ReadCommand, ReadCount, U16;
    Fetched(s, inp - 1, AfterTrailing, out);
    MidRead(s[inp - 1..]);
  }

  lemma MidRead(rest: bytes)
    requires rest != [] && 0x20 <= rest[0] < 0x40 && !ReadCommand(rest, AfterTrailing).Overrun?
    ensures var n := ReadCount(rest, rest[0] % 32, 31);
            && n.Got? && n.used + 2 <= |rest|
            && var w := U16(rest[n.used..]);
               ReadCommand(rest, AfterTrailing) == Got(Match(Mid, n.value + 2, w / 4 + 1, w % 4), n.used + 2)
  {
    ReadExtensionUsed(rest[1..]);
  }

  lemma FarAt(s: bytes, inp: nat, out: bytes, total: Outcome)
    requires 1 <= inp <= |s| && 0x10 <= s[inp - 1] < 0x20
    requires At(TryStandard, s[inp - 1], s, inp, out, total)
    ensures var rest := s[inp - 1..];
            var n := ReadCount(rest, s[inp - 1] % 8, 7);
            && n.Got? && n.used + 2 <= |rest|
            && ReadCommand(rest, AfterTrailing) ==
               Got(FarCommand(n.value, s[inp - 1] / 8 % 2, U16(rest[n.used..])), n.used + 2)
  {
    Fetched(s, inp - 1, AfterTrailing, out);
    ReadExtensionUsed(s[inp..]);
  }

  lemma RefusedAt(s: bytes, inp: nat, out: bytes, total: Outcome)
    requires 1 <= inp <= |s| && s[inp - 1] < 0x10
    requires At(TryStandard, s[inp - 1], s, inp, out, total)
    ensures total == Rejected(out)
  {
  }

  lemma StopAt(s: bytes, inp: nat, out: bytes, total: Outcome)
    requires 1 <= inp <= |s| && At(TryStandard, s[inp - 1], s, inp, out, total)
    requires var r := ReadCommand(s[inp - 1..], AfterTrailing); r.Got? && r.value.Stop?
    ensures var r := ReadCommand(s[inp - 1..], AfterTrailing);
            inp - 1 + r.used <= |s| && total == Done(out, s[inp - 1 + r.used..])
  {
    hide ReadCommand;
    ReadUsed(s[inp - 1..], AfterTrailing);
  }

  /** Label try_standard, codes from 40 up. */
  method NearMatch(src: array<byte>, dst: array<byte>, inp: nat, out: nat, code: uint32, ghost total: Outcome)
    returns (inp': nat, out': nat)
    requires src != dst && 1 <= inp <= src.Length <= MAX_SOURCE && out <= dst.Length && 0x40 <= code
    requires At(TryStandard, code, src[..], inp, dst[..out], total) && |total.out| <= dst.Length
    modifies dst
    ensures inp < inp' && out <= out' <= dst.Length && dst[out'..] == old(dst[out'..])
    ensures At(HandleTrailing, 0, src[..], inp', dst[..out'], total)
  {
    hide Decode, ReadCommand;
    ghost var s, before := src[..], dst[..out];
    NearAt(s, inp, before, total);
    MatchAt(s, inp, AfterTrailing, before, total);
    var low: int := src[inp];
    var buf := out - code / 4 % 8 - low * 8 - 1;
    inp' := inp + 1;
    out' := CopyOutput(dst, buf, out, code / 32 + 1);
  }

  /** Label try_standard, codes 20..3F: where to copy from, and how much. */
  method MidSource(src: array<byte>, inp: nat, out: nat, code: uint32, ghost before: bytes, ghost total: Outcome)
    returns (inp': nat, buf: int, count: uint32)
    requires 1 <= inp <= src.Length <= MAX_SOURCE && 0x20 <= code < 0x40 && |before| == out
    requires At(TryStandard, code, src[..], inp, before, total)
    ensures ReadCommand(src[inp - 1..], AfterTrailing).Got?
    ensures var r := ReadCommand(src[inp - 1..], AfterTrailing);
            && r.value.Match? && inp' == inp - 1 + r.used
            && r.value.count == count + 2 && r.value.distance == out - buf
    ensures count < 0xffff_fffe
  {
    hide Decode, ReadCommand, ReadCount;
    ghost var s := src[..];
    ghost var rest := s[inp - 1..];
    assert src[inp - 1..] == rest;
    MidAt(s, inp, before, total);
    inp', count := HandleCount(src, inp, code, 31);
    assert src[inp'..] == rest[inp' - (inp - 1)..];
    var word := ReadU16(src, inp');
    buf := out - word / 4 - 1;
    inp' := inp' + 2;
  }

  /** Label try_standard, codes 10..1F; `stop` when the pointer has not moved: the end marker. */
  method FarSource(src: array<byte>, inp: nat, out: nat, code: uint32, ghost before: bytes, ghost total: Outcome)
    returns (inp': nat, buf: int, count: uint32, stop: bool)
    requires 1 <= inp <= src.Length <= MAX_SOURCE && 0x10 <= code < 0x20 && |before| == out
    requires At(TryStandard, code, src[..], inp, before, total)
    ensures ReadCommand(src[inp - 1..], AfterTrailing).Got?
    ensures var r := ReadCommand(src[inp - 1..], AfterTrailing);
            && inp' == inp - 1 + r.used && stop == r.value.Stop?
            && (!stop ==> r.value.Match? && r.value.count == count + 2 && r.value.distance == out - buf)
    ensures count < 0xffff_fffe
  {
    hide Decode, ReadCommand, ReadCount;
    ghost var s := src[..];
    ghost var rest := s[inp - 1..];
    assert src[inp - 1..] == rest;
    FarAt(s, inp, before, total);
    buf := out - code / 8 % 2 * 8 * 0x800;
    inp', count := HandleCount(src, inp, code, 7);
    assert src[inp'..] == rest[inp' - (inp - 1)..];
    var word := ReadU16(src, inp');
    buf := buf - word / 4;
    inp' := inp' + 2;
    stop := buf == out;
    buf := buf - 0x4000;
  }

  /** Label try_standard. */
  method TryStandardCode(src: array<byte>, srclen: int, dst: array<byte>, inp: nat, out: nat, code: uint32, ghost total: Outcome)
    returns (inp': nat, out': nat, finished: bool, ok: bool, outlen: int)
    requires src != dst && 1 <= inp <= src.Length <= MAX_SOURCE && out <= dst.Length
    requires At(TryStandard, code, src[..], inp, dst[..out], total) && |total.out| <= dst.Length
    modifies dst
    ensures out <= out' <= dst.Length && dst[out'..] == old(dst[out'..])
    ensures finished ==> Returned(ok, outlen, src.Length, srclen, dst[..out'], total)
    ensures !finished ==> inp < inp' && At(HandleTrailing, 0, src[..], inp', dst[..out'], total)
  {
    hide Decode, ReadCommand;
    ghost var s, before := src[..], dst[..out];
    inp', out', finished, ok, outlen := inp, out, false, false, 0;
    var buf, count, stop;
    if code >= 0x40 {
      inp', out' := NearMatch(src, dst, inp, out, code, total);
      return;
    }
    if code >= 0x20 {
      inp', buf, count := MidSource(src, inp, out, code, before, total);
    } else {
      if code < 0x10 {
        RefusedAt(s, inp, before, total);
        finished := true;
        return;
      }
      inp', buf, count, stop := FarSource(src, inp, out, code, before, total);
      if stop {
        assert src[inp - 1..] == s[inp - 1..];
        StopAt(s, inp, before, total);
        finished, outlen, ok := true, out, inp' == srclen;
        return;
      }
    }
    assert src[inp - 1..] == s[inp - 1..];
    MatchAt(s, inp, AfterTrailing, before, total);
    out' := CopyOutput(dst, buf, out, count + 2);
  }

  lemma StartCommand(s: bytes)
    requires s != []
    ensures s[0] > 0x11 ==> ReadCommand(s, Start) == Got(Initial(s[0] - 0x11), 1)
    ensures s[0] <= 0x11 ==> ReadCommand(s, Start) == ReadCommand(s, Standard)
  {
  }

  lemma InitialStep(s: bytes, total: Outcome)
    requires s != [] && s[0] > 0x11
    requires total == Decode(s, Start, []) && !total.OutOfBounds?
    ensures var n := s[0] - 0x11;
            && 1 + n <= |s| && s[1..1 + n] <= total.out
            && Decode(s[1 + n..], if n < 4 then Standard else Alternative, s[1..1 + n]) == total
  {
    hide Decode, ReadCommand;
    StartCommand(s);
    RunStep(s, Start, []);
    var n := s[0] - 0x11;
    assert [] + s[1..1 + n] == s[1..1 + n];
  }

  lemma PlainStart(s: bytes, total: Outcome)
    requires s != [] && s[0] <= 0x11
    requires total == Decode(s, Start, []) && !total.OutOfBounds?
    ensures At(TryStandardRun, 0, s, 0, [], total)
  {
    hide Decode, ReadCommand;
    StartCommand(s);
    SameCommand(s, Start, Standard, []);
    assert s[0..] == s;
  }

  /** The first byte: an initial run, or the first command. */
  method FirstByte(src: array<byte>, dst: array<byte>, ghost total: Outcome)
    returns (inp: nat, out: nat, at: Label)
    requires src != dst && src.Length <= MAX_SOURCE
    requires total == Decode(src[..], Start, []) && !total.OutOfBounds? && |total.out| <= dst.Length
    modifies dst
    ensures out <= dst.Length && dst[out..] == old(dst[out..])
    ensures at != TryStandard && At(at, 0, src[..], inp, dst[..out], total)
  {
    hide Decode;
    ghost var s := src[..];
    inp, out, at := 0, 0, TryStandardRun;
    assert s[0..] == s && dst[..0] == [];
    Fetched(s, 0, Start, []);
    if src[0] > 0x11 {
      InitialStep(s, total);
      var code: uint32 := src[0] - 0x11;
      inp := 1;
      at := if code < 4 then TryStandardRun else TryAlternative;
      inp, out := CopyLiterals(src, dst, inp, out, code);
      assert dst[..out] == s[1..inp] by { assert src[1..inp] == s[1..inp]; }
    } else {
      PlainStart(s, total);
    }
  }

  /** The jumps between the labels; each one reads on, or moves from the trailing literals to a plain fetch. */
  method Jump(src: array<byte>, srclen: int, dst: array<byte>, ghost total: Outcome)
    returns (ok: bool, outlen: int, out: nat)
    requires src != dst && src.Length <= MAX_SOURCE
    requires total == Decode(src[..], Start, []) && !total.OutOfBounds? && |total.out| <= dst.Length
    modifies dst
    ensures out <= dst.Length && dst[out..] == old(dst[out..])
    ensures Returned(ok, outlen, src.Length, srclen, dst[..out], total)
  {
    hide Decode, Remaining, Returned;
    ghost var s := src[..];
    var inp, at;
    inp, out, at := FirstByte(src, dst, total);
    var code: uint32, finished := 0, false;
    ok, outlen := false, 0;
    while !finished
      invariant src[..] == s && out <= dst.Length && dst[out..] == old(dst[out..])
      invariant !finished ==> At(at, code, s, inp, dst[..out], total)
      invariant finished ==> Returned(ok, outlen, src.Length, srclen, dst[..out], total)
      decreases !finished, src.Length - inp, if at == HandleTrailing then 1 else 0
    {
      match at
      case TryStandardRun => inp, out, code, at := StandardRun(src, dst, inp, out, total);
      case TryAlternative => inp, out, code, at := ShortMatch(src, dst, inp, out, total);
      case HandleTrailing => inp, out, code, at := Trailing(src, dst, inp, out, total);
      case TryStandard =>
        inp, out, finished, ok, outlen := TryStandardCode(src, srclen, dst, inp, out, code, total);
        at := HandleTrailing;
    }
  }

  /** The decoder. Its reads stay inside `src`, its copies inside the output, and `dst` has room for the output. */
  method Unpack(src: array<byte>, srclen: int, dst: array<byte>) returns (ok: bool, outlen: int)
    requires src != dst && 0 <= srclen <= src.Length <= MAX_SOURCE && dst.Length <= INT_MAX
    requires !Decode(src[..], Start, []).OutOfBounds?
    requires |Decode(src[..], Start, []).out| <= dst.Length
    modifies dst
    // what the stream decodes to is in `dst`, and nothing else of it has changed
    ensures var out := Decode(src[..], Start, []).out; dst[..] == out + old(dst[..])[|out|..]
    ensures 0 <= outlen <= dst.Length
    // success exactly when the source spells a program, of which the output is the meaning
    ensures ok <==> exists p :: Means(src[..srclen], p, dst[..outlen])
    ensures forall p, out :: Means(src[..srclen], p, out) ==> ok && dst[..outlen] == out
    // the length is reported whenever an end marker is found, even before the source is used up
    ensures outlen == (if Decode(src[..], Start, []).Done? then |Decode(src[..], Start, []).out| else 0)
  {
    hide Decode, Means;
    ghost var s := src[..];
    ghost var total := Decode(s, Start, []);
    var out;
    ok, outlen, out := Jump(src, srclen, dst, total);
    assert dst[..] == dst[..out] + dst[out..];
    AcceptedMeans(s, srclen, total);
    assert src[..srclen] == s[..srclen];
  }

  /** A decoded prefix is exactly a prefix that spells a program. */
  lemma AcceptedMeans(s: bytes, n: nat, total: Outcome)
    requires n <= |s| && total == Decode(s, Start, [])
    ensures total.Done? && |s| - |total.rest| == n ==> exists p :: Means(s[..n], p, total.out)
    ensures forall p, out :: Means(s[..n], p, out) ==> total == Done(out, s[n..])
  {
    hide Decode;
    if total.Done? && |s| - |total.rest| == n {
      var p := DecodedProgram(s, Start, []);
      assert s[..n] == Encode(Start, p);
      assert Means(s[..n], p, total.out);
    }
    forall p, out | Means(s[..n], p, out)
      ensures total == Done(out, s[n..])
    {
      DecodeOfEncoding(p, Start, [], s[n..]);
      assert s[..n] + s[n..] == s;
    }
  }
}
