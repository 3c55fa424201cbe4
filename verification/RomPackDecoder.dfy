/** What a ROMPack stream means, read from its bytes; proved to be exactly the inverse of the spelling. */
module RomPackDecoder {
  import opened Bytes
  import opened RomPackFormat

  datatype Fetch<T> = Overrun | Refused | Got(value: T, used: nat)

  /** Reads an extended count: `used` counts the bytes read. */
  function ReadExtension(s: bytes): Fetch<nat> {
    if s == [] then Overrun
    else if s[0] == 0 then
      match ReadExtension(s[1..])
      case Got(n, used) => Got(n + 255, used + 1)
      case _ => Overrun
    else Got(s[0], 1)
  }

  /** The count held in a command byte's low bits, or after it when those are all zero. */
  function ReadCount(s: bytes, field: nat, mask: nat): Fetch<nat> {
    if field != 0 then Got(field, 1)
    else
      match ReadExtension(s[if s == [] then 0 else 1..])
      case Got(n, used) => Got(n + mask, used + 1)
      case _ => Overrun
  }

  function ReadMid(s: bytes): Fetch<Command>
    requires s != [] && 0x20 <= s[0] < 0x40
  {
    match ReadCount(s, s[0] % 32, 31)
    case Got(n, used) =>
      if |s| < used + 2 then Overrun
      else
        var w := U16(s[used..]);
        Got(Match(Mid, n + 2, w / 4 + 1, w % 4), used + 2)
    case _ => Overrun
  }

  /** A zero offset in the lower bank is the end marker. */
  function FarCommand(n: nat, bank: nat, w: nat): Command {
    var offset := bank * 0x4000 + w / 4;
    if offset == 0 then Stop(n, w % 4) else Match(Far, n + 2, offset + 0x4000, w % 4)
  }

  function ReadFar(s: bytes): Fetch<Command>
    requires s != [] && 0x10 <= s[0] < 0x20
  {
    match ReadCount(s, s[0] % 8, 7)
    case Got(n, used) =>
      if |s| < used + 2 then Overrun
      else
        Got(FarCommand(n, s[0] / 8 % 2, U16(s[used..])), used + 2)
    case _ => Overrun
  }

  /** The next command. `Overrun`: the stream ends inside it. */
  function ReadCommand(s: bytes, mode: Mode): Fetch<Command> {
    if s == [] then Overrun
    else
      var b: int := s[0];
      if mode == Start && b > 0x11 then Got(Initial(b - 0x11), 1)
      else if b >= 0x40 then
        if |s| < 2 then Overrun
        else
          var d: int := s[1];
          Got(Match(Near, b / 32 + 1, b / 4 % 8 + d * 8 + 1, b % 4), 2)
      else if b >= 0x20 then ReadMid(s)
      else if b >= 0x10 then ReadFar(s)
      else if mode == AfterTrailing then Refused
      else if mode == Alternative then
        if |s| < 2 then Overrun
        else
          var d: int := s[1];
          Got(Match(Short, 3, b / 4 + d * 4 + 0x801, b % 4), 2)
      else
        match ReadCount(s, b, 15)
        case Got(n, used) => Got(Run(n + 3), used)
        case _ => Overrun
  }

  datatype Outcome =
    | OutOfBounds                         // a read past the stream or before the output
    | Rejected(out: bytes)                // 00..0F after trailing literals
    | Done(out: bytes, rest: bytes)       // end marker found

  /** Decodes `s` from between two commands, `out` being the output so far. */
  function Decode(s: bytes, mode: Mode, out: bytes): (r: Outcome)
    ensures r.OutOfBounds? || out <= r.out
    decreases |s|
  {
    match ReadCommand(s, mode)
    case Overrun => OutOfBounds
    case Refused => Rejected(out)
    case Got(c, used) =>
      ReadUsed(s, mode);
      if c.Stop? then Done(out, s[used..])
      else if c.Match? && c.distance > |out| then OutOfBounds
      else if |s| < used + LiteralCount(c) then OutOfBounds
      else
        var next := used + LiteralCount(c);
        Decode(s[next..], NextMode(c), Denote(c, s[used..next], out))
  }

  // ---------- reading undoes spelling ----------

  lemma {:induction false} ReadExtensionUsed(s: bytes)
    ensures ReadExtension(s).Got? ==> 1 <= ReadExtension(s).used <= |s| && 1 <= ReadExtension(s).value
    ensures !ReadExtension(s).Refused?
  {
    if s != [] && s[0] == 0 {
      ReadExtensionUsed(s[1..]);
    }
  }

  lemma ReadUsed(s: bytes, mode: Mode)
    ensures var r := ReadCommand(s, mode); r.Got? ==>
              1 <= r.used <= |s| && (r.value.Match? ==> 1 <= r.value.distance)
  {
    if s != [] {
      ReadExtensionUsed(s[1..]);
    }
  }

  lemma {:induction false} ReadExtensionOfSpelling(n: nat, tail: bytes)
    requires 1 <= n
    ensures ReadExtension(Extension(n) + tail) == Got(n, |Extension(n)|)
  {
    var s := Extension(n) + tail;
    if n > 255 {
      assert s[1..] == Extension(n - 255) + tail;
      ReadExtensionOfSpelling(n - 255, tail);
    }
  }

  lemma {:induction false} ReadExtensionSpells(s: bytes)
    requires ReadExtension(s).Got?
    ensures var r := ReadExtension(s); 1 <= r.value && r.used <= |s| && s[..r.used] == Extension(r.value)
  {
    var r := ReadExtension(s);
    if s[0] == 0 {
      ReadExtensionSpells(s[1..]);
      assert s[..r.used] == [0] + s[1..][..r.used - 1];
    }
  }

  lemma ReadCountOfSpelling(base: nat, n: nat, mask: nat, tail: bytes)
    requires 1 <= n && base + mask < 256
    ensures var s := Counted(base, n, mask) + tail;
            ReadCount(s, s[0] - base, mask) == Got(n, |Counted(base, n, mask)|)
  {
    var s := Counted(base, n, mask) + tail;
    if n > mask {
      assert s[1..] == Extension(n - mask) + tail;
      ReadExtensionOfSpelling(n - mask, tail);
    }
  }

  lemma ReadCountSpells(s: bytes, base: nat, mask: nat)
    requires s != [] && base <= s[0] <= base + mask < 256
    requires ReadCount(s, s[0] - base, mask).Got?
    ensures var r := ReadCount(s, s[0] - base, mask);
            1 <= r.value && r.used <= |s| && s[..r.used] == Counted(base, r.value, mask)
  {
    var r := ReadCount(s, s[0] - base, mask);
    if s[0] == base {
      ReadExtensionSpells(s[1..]);
      assert s[..r.used] == [s[0]] + s[1..][..r.used - 1];
    } else {
      assert s[..1] == [s[0]];
    }
  }

  lemma ReadOfMid(n: nat, d: nat, k: nat, mode: Mode, tail: bytes)
    requires Legal(mode, Match(Mid, n, d, k))
    ensures var c := Match(Mid, n, d, k); ReadCommand(Header(c) + tail, mode) == Got(c, |Header(c)|)
  {
    var counted, word := Counted(0x20, n - 2, 31), PutU16((d - 1) * 4 + k);
    var s := counted + word + tail;
    assert s == counted + (word + tail);
    ReadCountOfSpelling(0x20, n - 2, 31, word + tail);
    assert s[|counted|..][..2] == word;
    assert ReadMid(s) == Got(Match(Mid, n, d, k), |counted| + 2);
  }

  lemma ReadOfFar(bank: nat, n: nat, w: nat, mode: Mode, tail: bytes)
    requires 1 <= n && w < 0x1_0000 && bank <= 1
    requires mode == Start ==> Counted(0x10 + bank * 8, n, 7)[0] <= 0x11
    ensures var counted := Counted(0x10 + bank * 8, n, 7);
            ReadCommand(counted + PutU16(w) + tail, mode) == Got(FarCommand(n, bank, w), |counted| + 2)
  {
    var counted, word := Counted(0x10 + bank * 8, n, 7), PutU16(w);
    var s := counted + word + tail;
    assert s == counted + (word + tail);
    ReadCountOfSpelling(0x10 + bank * 8, n, 7, word + tail);
    assert s[|counted|..][..2] == word;
    assert s[0] % 8 == s[0] - (0x10 + bank * 8) && s[0] / 8 % 2 == bank;
  }

  lemma ReadOfFarMatch(n: nat, d: nat, k: nat, mode: Mode, tail: bytes)
    requires Legal(mode, Match(Far, n, d, k))
    ensures var c := Match(Far, n, d, k); ReadCommand(Header(c) + tail, mode) == Got(c, |Header(c)|)
  {
    hide ReadCommand, Header;
    var offset := d - 0x4000;
    var bank := if offset < 0x4000 then 0 else 1;
    var w := (offset - bank * 0x4000) * 4 + k;
    assert w / 4 == offset - bank * 0x4000 && w % 4 == k;
    assert FarCommand(n - 2, bank, w) == Match(Far, n, d, k);
    FarSpelling(n - 2, bank, w);
    ReadOfFar(bank, n - 2, w, mode, tail);
  }

  lemma NearBits(a: nat, b: nat, k: nat)
    requires b < 8 && k < 4
    ensures var code := a * 32 + b * 4 + k; code / 32 == a && code / 4 % 8 == b && code % 4 == k
  {
    var code := a * 32 + b * 4 + k;
    assert code / 4 == a * 8 + b;
  }

  lemma NearCode(code: nat)
    ensures code == code / 32 * 32 + code / 4 % 8 * 4 + code % 4
  {
    assert code / 4 / 8 == code / 32;
  }

  lemma ReadOfNear(n: nat, d: nat, k: nat, mode: Mode, tail: bytes)
    requires Legal(mode, Match(Near, n, d, k))
    ensures var c := Match(Near, n, d, k); ReadCommand(Header(c) + tail, mode) == Got(c, |Header(c)|)
  {
    NearBits(n - 1, (d - 1) % 8, k);
  }

  lemma ReadOfShort(n: nat, d: nat, k: nat, mode: Mode, tail: bytes)
    requires Legal(mode, Match(Short, n, d, k))
    ensures var c := Match(Short, n, d, k); ReadCommand(Header(c) + tail, mode) == Got(c, |Header(c)|)
  {
  }

  lemma ReadOfRun(n: nat, mode: Mode, tail: bytes)
    requires Legal(mode, Run(n))
    ensures ReadCommand(Header(Run(n)) + tail, mode) == Got(Run(n), |Header(Run(n))|)
  {
    ReadCountOfSpelling(0, n - 3, 15, tail);
  }

  /** A legal command read back from its own spelling. */
  lemma ReadOfHeader(c: Command, mode: Mode, tail: bytes)
    requires Legal(mode, c)
    ensures ReadCommand(Header(c) + tail, mode) == Got(c, |Header(c)|)
  {
    match c
    case Initial(n) =>
    case Run(n) =>
      hide ReadCommand;
      ReadOfRun(n, mode, tail);
    case Stop(n, low) =>
      hide ReadCommand;
      assert PutU16(low) == [low, 0];
      ReadOfFar(0, n, low, mode, tail);
    case Match(form, n, d, k) =>
      hide ReadCommand;
      if form == Mid {
        ReadOfMid(n, d, k, mode, tail);
      } else if form == Far {
        ReadOfFarMatch(n, d, k, mode, tail);
      } else if form == Near {
        ReadOfNear(n, d, k, mode, tail);
      } else {
        ReadOfShort(n, d, k, mode, tail);
      }
  }

  lemma WordSpells(s: bytes)
    requires 2 <= |s|
    ensures s[..2] == PutU16(U16(s))
  {
    assert s[..2] == [s[0], s[1]];
  }

  lemma ReadMidSpells(s: bytes)
    requires s != [] && 0x20 <= s[0] < 0x40 && ReadMid(s).Got?
    ensures var r := ReadMid(s); r.used <= |s| && Shaped(r.value) && s[..r.used] == Header(r.value)
  {
    var r := ReadMid(s);
    ReadCountSpells(s, 0x20, 31);
    WordSpells(s[r.used - 2..]);
    assert s[..r.used] == s[..r.used - 2] + s[r.used - 2..][..2];
  }

  lemma ReadFarSpells(s: bytes)
    requires s != [] && 0x10 <= s[0] < 0x20 && ReadFar(s).Got?
    ensures var r := ReadFar(s); r.used <= |s| && Shaped(r.value) && s[..r.used] == Header(r.value)
  {
    var r := ReadFar(s);
    var bank := s[0] / 8 % 2;
    assert s[0] == 0x10 + bank * 8 + s[0] % 8;
    ReadCountSpells(s, 0x10 + bank * 8, 7);
    var w := U16(s[r.used - 2..]);
    WordSpells(s[r.used - 2..]);
    assert s[..r.used] == s[..r.used - 2] + s[r.used - 2..][..2];
    FarSpelling(ReadCount(s, s[0] % 8, 7).value, bank, w);
  }

  lemma FarSpelling(n: nat, bank: nat, w: nat)
    requires 1 <= n && bank <= 1 && w < 0x1_0000
    ensures var c := FarCommand(n, bank, w); Shaped(c) && Header(c) == Counted(0x10 + bank * 8, n, 7) + PutU16(w)
  {
    var c := FarCommand(n, bank, w);
    if c.Match? {
      var offset := c.distance - 0x4000;
      assert offset / 0x4000 == bank && offset % 0x4000 == w / 4;
    } else {
      assert PutU16(w) == [c.low, 0];
    }
  }

  lemma ReadTwoBytesSpells(s: bytes, mode: Mode)
    requires ReadCommand(s, mode).Got?
    requires s[0] >= 0x40 || (s[0] < 0x10 && mode == Alternative)
    requires !(mode == Start && s[0] > 0x11)
    ensures var r := ReadCommand(s, mode); r.used == 2 <= |s| && Shaped(r.value) && s[..2] == Header(r.value)
  {
    NearCode(s[0]);
    assert s[..2] == [s[0], s[1]];
  }

  lemma ReadRunSpells(s: bytes, mode: Mode)
    requires ReadCommand(s, mode).Got? && ReadCommand(s, mode).value.Run?
    ensures var r := ReadCommand(s, mode); r.used <= |s| && Shaped(r.value) && s[..r.used] == Header(r.value)
  {
    ReadCountSpells(s, 0, 15);
  }

  /** Whatever command is read is legal, and the bytes read are its spelling. */
  lemma ReadSpells(s: bytes, mode: Mode)
    requires ReadCommand(s, mode).Got?
    ensures var r := ReadCommand(s, mode);
            && r.used <= |s|
            && Legal(mode, r.value)
            && s[..r.used] == Header(r.value)
  {
    var r := ReadCommand(s, mode);
    var b := s[0];
    hide Header, ReadMid, ReadFar, ReadCount;
    if mode == Start && b > 0x11 {
      assert s[..1] == Header(Initial(b - 0x11)) by { InitialSpells(b - 0x11); }
    } else if 0x20 <= b < 0x40 {
      ReadMidSpells(s);
    } else if 0x10 <= b < 0x20 {
      ReadFarSpells(s);
    } else if r.value.Run? {
      ReadRunSpells(s, mode);
    } else {
      ReadTwoBytesSpells(s, mode);
    }
    assert s[..r.used][0] == b;
  }

  lemma InitialSpells(n: nat)
    requires 1 <= n <= 0xee
    ensures Header(Initial(n)) == [0x11 + n]
  {
  }

  // ---------- whole streams ----------

  /** One command: its payload is there, and decoding goes on after it. */
  lemma DecodeStep(s: bytes, mode: Mode, out: bytes)
    requires !Decode(s, mode, out).OutOfBounds?
    requires ReadCommand(s, mode).Got? && !ReadCommand(s, mode).value.Stop?
    ensures var r := ReadCommand(s, mode);
            var c, next := r.value, r.used + LiteralCount(r.value);
            && 1 <= r.used && next <= |s| && (c.Match? ==> 1 <= c.distance <= |out|)
            && Decode(s, mode, out) == Decode(s[next..], NextMode(c), Denote(c, s[r.used..next], out))
  {
    hide ReadCommand, Denote;
    ReadUsed(s, mode);
  }

  lemma DoneFetched(s: bytes, mode: Mode, out: bytes)
    requires Decode(s, mode, out).Done?
    ensures ReadCommand(s, mode).Got?
  {
    hide ReadCommand;
  }

  lemma StopStep(s: bytes, mode: Mode, out: bytes)
    requires ReadCommand(s, mode).Got? && ReadCommand(s, mode).value.Stop?
    ensures var r := ReadCommand(s, mode); 1 <= r.used <= |s| && Decode(s, mode, out) == Done(out, s[r.used..])
  {
    hide ReadCommand;
    ReadUsed(s, mode);
  }

  lemma DecodeForward(s: bytes, mode: Mode, out: bytes, c: Command, used: nat)
    requires !c.Stop? && 1 <= used && used + LiteralCount(c) <= |s|
    requires ReadCommand(s, mode) == Got(c, used) && (c.Match? ==> 1 <= c.distance <= |out|)
    ensures var next := used + LiteralCount(c);
            Decode(s, mode, out) == Decode(s[next..], NextMode(c), Denote(c, s[used..next], out))
  {
    hide ReadCommand, Denote;
  }

  /** Every well-formed program whose matches stay in range decodes to what it denotes. */
  lemma {:induction false} DecodeOfEncoding(p: Program, mode: Mode, out: bytes, tail: bytes)
    requires WellFormed(mode, p) && InRange(p, |out|)
    ensures Decode(Encode(mode, p) + tail, mode, out) == Done(Expand(p, out), tail)
    decreases p
  {
    hide ReadCommand, Shaped, Header;
    var s, c := Encode(mode, p) + tail, First(p);
    var after := AfterHeader(p, mode, tail);
    EncodingSplits(p, mode, tail);
    ReadOfHeader(c, mode, after);
    assert s[|Header(c)|..] == after;
    if p.Then? {
      hide Decode;
      var follow := Encode(NextMode(c), p.rest) + tail;
      var next := |Header(c)| + |p.literals|;
      assert s[|Header(c)|..next] == p.literals && s[next..] == follow;
      DecodeForward(s, mode, out, c, |Header(c)|);
      DecodeOfEncoding(p.rest, NextMode(c), Denote(c, p.literals, out), tail);
    }
  }

  /** Whatever decodes is the encoding of a well-formed program, and the output is what that denotes. */
  lemma {:induction false} DecodedProgram(s: bytes, mode: Mode, out: bytes) returns (p: Program)
    requires Decode(s, mode, out).Done?
    ensures WellFormed(mode, p) && InRange(p, |out|)
    ensures s == Encode(mode, p) + Decode(s, mode, out).rest
    ensures Expand(p, out) == Decode(s, mode, out).out
    decreases |s|
  {
    hide ReadCommand, Shaped, Header, Denote, Decode;
    DoneFetched(s, mode, out);
    var r := ReadCommand(s, mode);
    var c := r.value;
    ReadSpells(s, mode);
    if c.Stop? {
      StopStep(s, mode, out);
      p := End(c);
    } else {
      DecodeStep(s, mode, out);
      var next := r.used + LiteralCount(c);
      var lits, tail := s[r.used..next], s[next..];
      var rest := DecodedProgram(tail, NextMode(c), Denote(c, lits, out));
      p := Then(c, lits, rest);
      SpellsOn(s, mode, p, Decode(s, mode, out).rest);
    }
  }

  lemma SpellsOn(s: bytes, mode: Mode, p: Program, tail: bytes)
    requires WellFormed(mode, p) && p.Then?
    requires var n, k := |Header(p.command)|, |p.literals|;
             && n + k <= |s| && s[..n] == Header(p.command) && s[n..n + k] == p.literals
             && s[n + k..] == Encode(NextMode(p.command), p.rest) + tail
    ensures s == Encode(mode, p) + tail
  {
    hide Header, Shaped;
    var n, k := |Header(p.command)|, |p.literals|;
    assert s == s[..n] + s[n..n + k] + s[n + k..];
  }

  /** The spelling is a prefix code: two programs cannot share an encoding, nor can one encoding extend another. */
  lemma {:induction false} EncodingIsPrefixFree(p: Program, q: Program, mode: Mode, a: bytes, b: bytes)
    requires WellFormed(mode, p) && WellFormed(mode, q)
    requires Encode(mode, p) + a == Encode(mode, q) + b
    ensures p == q && a == b
    decreases p
  {
    hide Header, Shaped, ReadCommand;
    EncodingSplits(p, mode, a);
    EncodingSplits(q, mode, b);
    var s := Encode(mode, p) + a;
    var c, d := First(p), First(q);
    var after, after' := AfterHeader(p, mode, a), AfterHeader(q, mode, b);
    ReadOfHeader(c, mode, after);
    ReadOfHeader(d, mode, after');
    assert after == s[|Header(c)|..] && after' == s[|Header(c)|..];
    if p.Then? {
      var n := LiteralCount(c);
      assert after == p.literals + (Encode(NextMode(c), p.rest) + a);
      assert after' == q.literals + (Encode(NextMode(c), q.rest) + b);
      assert p.literals == after[..n] && q.literals == after[..n];
      assert Encode(NextMode(c), p.rest) + a == after[n..] == Encode(NextMode(c), q.rest) + b;
      EncodingIsPrefixFree(p.rest, q.rest, NextMode(c), a, b);
    }
  }

  function First(p: Program): Command {
    if p.End? then p.marker else p.command
  }

  lemma EncodingSplits(p: Program, mode: Mode, tail: bytes)
    requires WellFormed(mode, p)
    ensures Header(First(p)) + AfterHeader(p, mode, tail) == Encode(mode, p) + tail
  {
    hide Header, Shaped;
  }

  function AfterHeader(p: Program, mode: Mode, tail: bytes): (s: bytes)
    requires WellFormed(mode, p)
  {
    if p.End? then tail else p.literals + (Encode(NextMode(p.command), p.rest) + tail)
  }

  ghost predicate Means(s: bytes, p: Program, out: bytes) {
    WellFormed(Start, p) && InRange(p, 0) && s == Encode(Start, p) && Expand(p, []) == out
  }

  /** A stream decodes completely exactly when it spells a program in range, and that program is unique. */
  lemma DecodesExactlyEncodings(s: bytes, out: bytes)
    ensures Decode(s, Start, []) == Done(out, []) <==> exists p :: Means(s, p, out)
    ensures forall p, q, out' :: Means(s, p, out) && Means(s, q, out') ==> p == q
  {
    if Decode(s, Start, []) == Done(out, []) {
      var p := DecodedProgram(s, Start, []);
      assert Encode(Start, p) + [] == Encode(Start, p);
      assert Means(s, p, out);
    }
    forall p | Means(s, p, out)
      ensures Decode(s, Start, []) == Done(out, [])
    {
      DecodeOfEncoding(p, Start, [], []);
      assert s + [] == s;
    }
    forall p, q, out' | Means(s, p, out) && Means(s, q, out')
      ensures p == q
    {
      EncodingIsPrefixFree(p, q, Start, [], []);
    }
  }
}
