/** The ROMPack byte format: commands, programs of commands, what a program denotes and how it is spelled. */
module RomPackFormat {
  import opened Bytes

  /** What the last command leaves open for the next command byte. */
  datatype Mode =
    | Start          // nothing read: the first byte may open an initial run
    | Standard       // 00..0F opens a literal run
    | Alternative    // 00..0F is a short match
    | AfterTrailing  // 00..0F is refused

  datatype Form = Short | Near | Mid | Far

  datatype Command =
    | Initial(count: nat)
    | Run(count: nat)
    | Match(form: Form, count: nat, distance: nat, trailing: nat)
    | Stop(count: nat, low: nat)

  /** A whole stream: commands, each with the literal bytes that follow it, closed by an end marker. */
  datatype Program =
    | End(marker: Command)
    | Then(command: Command, literals: bytes, rest: Program)

  // ---------- grammar ----------

  predicate InForm(c: Command)
    requires c.Match?
  {
    match c.form
    case Short => c.count == 3 && 0x801 <= c.distance <= 0xc00
    case Near => 3 <= c.count <= 8 && 1 <= c.distance <= 0x800
    case Mid => 3 <= c.count && 1 <= c.distance <= 0x4000
    case Far => 3 <= c.count && 0x4001 <= c.distance <= 0xbfff
  }

  predicate Shaped(c: Command) {
    match c
    case Initial(n) => 1 <= n <= 0xee
    case Run(n) => 4 <= n
    case Match(_, _, _, k) => k <= 3 && InForm(c)
    case Stop(n, low) => 1 <= n && low <= 3
  }

  /** Which commands may come next; the very first byte must not be mistaken for an initial run. */
  predicate Legal(mode: Mode, c: Command) {
    && Shaped(c)
    && (c.Initial? ==> mode == Start)
    && (c.Run? ==> mode == Start || mode == Standard)
    && (c.Match? && c.form == Short ==> mode == Alternative)
    && (mode == Start && !c.Initial? ==> Header(c)[0] <= 0x11)
  }

  function NextMode(c: Command): Mode
    requires !c.Stop?
  {
    match c
    case Initial(n) => if n < 4 then Standard else Alternative
    case Run(_) => Alternative
    case Match(_, _, _, k) => if k == 0 then Standard else AfterTrailing
  }

  function LiteralCount(c: Command): nat {
    match c
    case Initial(n) => n
    case Run(n) => n
    case Match(_, _, _, k) => k
    case Stop(_, _) => 0
  }

  predicate WellFormed(mode: Mode, p: Program)
    decreases p
  {
    match p
    case End(m) => m.Stop? && Legal(mode, m)
    case Then(c, lits, rest) =>
      !c.Stop? && Legal(mode, c) && |lits| == LiteralCount(c) && WellFormed(NextMode(c), rest)
  }

  // ---------- denotation ----------

  /** Appends `count` bytes, each equal to the one `distance` places before it (the source may overlap the copy). */
  function CopyBack(out: bytes, distance: nat, count: nat): (r: bytes)
    requires 1 <= distance <= |out|
    ensures |r| == |out| + count && out <= r
    decreases count
  {
    if count == 0 then out else CopyBack(out + [out[|out| - distance]], distance, count - 1)
  }

  function CopyCount(c: Command): nat {
    if c.Match? then c.count else 0
  }

  function Denote(c: Command, lits: bytes, out: bytes): (r: bytes)
    requires c.Match? ==> 1 <= c.distance <= |out|
    ensures out <= r && |r| == |out| + CopyCount(c) + |lits|
  {
    (if c.Match? then CopyBack(out, c.distance, c.count) else out) + lits
  }

  /** Every match points inside the output produced before it. */
  predicate InRange(p: Program, have: nat) {
    match p
    case End(_) => true
    case Then(c, lits, rest) =>
      && (c.Match? ==> 1 <= c.distance <= have)
      && InRange(rest, have + CopyCount(c) + |lits|)
  }

  function Expand(p: Program, out: bytes): (r: bytes)
    requires InRange(p, |out|)
    ensures out <= r
    decreases p
  {
    match p
    case End(_) => out
    case Then(c, lits, rest) => Expand(rest, Denote(c, lits, out))
  }

  // ---------- spelling ----------

  /** A count above its field: zero bytes worth 255 each, closed by a byte 1..255. */
  function Extension(n: nat): (s: bytes)
    requires 1 <= n
    ensures s != []
  {
    if n <= 255 then [n] else [0] + Extension(n - 255)
  }

  function Counted(base: nat, n: nat, mask: nat): (s: bytes)
    requires 1 <= n && base + mask < 256
    ensures s != []
  {
    if n <= mask then [base + n] else [base] + Extension(n - mask)
  }

  function Header(c: Command): (s: bytes)
    requires Shaped(c)
    ensures s != []
  {
    match c
    case Initial(n) => [0x11 + n]
    case Run(n) => Counted(0, n - 3, 15)
    case Stop(n, low) => Counted(0x10, n, 7) + [low, 0]
    case Match(Short, _, d, k) => [(d - 0x801) % 4 * 4 + k, (d - 0x801) / 4]
    case Match(Near, n, d, k) => [(n - 1) * 32 + (d - 1) % 8 * 4 + k, (d - 1) / 8]
    case Match(Mid, n, d, k) => Counted(0x20, n - 2, 31) + PutU16((d - 1) * 4 + k)
    case Match(Far, n, d, k) =>
      var offset := d - 0x4000;
      Counted(0x10 + offset / 0x4000 * 8, n - 2, 7) + PutU16(offset % 0x4000 * 4 + k)
  }

  function Encode(mode: Mode, p: Program): (s: bytes)
    requires WellFormed(mode, p)
    ensures s != []
    decreases p
  {
    match p
    case End(m) => Header(m)
    case Then(c, lits, rest) => Header(c) + lits + Encode(NextMode(c), rest)
  }

  // ---------- properties of the denotation ----------

  /** Each new byte of a copy is the one `distance` before it in the result. */
  lemma {:induction false} CopyBackEachByte(out: bytes, distance: nat, count: nat, i: nat)
    requires 1 <= distance <= |out|
    requires |out| <= i < |out| + count
    ensures CopyBack(out, distance, count)[i] == CopyBack(out, distance, count)[i - distance]
    decreases count
  {
    var next := out + [out[|out| - distance]];
    var r := CopyBack(out, distance, count);
    assert r == CopyBack(next, distance, count - 1) && next <= r;
    if i == |out| {
      assert r[i] == next[i] && r[i - distance] == next[i - distance];
    } else {
      CopyBackEachByte(next, distance, count - 1, i);
    }
  }

  /** A copy longer than its distance repeats the last `distance` bytes, round after round. */
  lemma {:induction false} CopyBackRepeats(out: bytes, distance: nat, count: nat, round: nat, j: nat)
    requires 1 <= distance <= |out| && j < distance
    requires round * distance + j < count
    ensures CopyBack(out, distance, count)[|out| + round * distance + j] == out[|out| - distance + j]
    decreases round
  {
    var at := |out| + round * distance + j;
    CopyBackEachByte(out, distance, count, at);
    if round > 0 {
      assert at - distance == |out| + (round - 1) * distance + j;
      CopyBackRepeats(out, distance, count, round - 1, j);
    }
  }

  // ---------- the spelling, octet by octet ----------

  function Zeros(z: nat): bytes {
    seq(z, i requires 0 <= i < z => 0)
  }

  /** A count is held in the command octet's low bits; above them each zero octet adds 255, and the closing one itself. */
  lemma {:induction false} CountOctets(base: nat, mask: nat, z: nat, b: byte)
    requires base + mask < 256 && 1 <= b
    ensures Counted(base, mask + 255 * z + b, mask) == [base] + Zeros(z) + [b]
    ensures 1 <= b <= mask ==> Counted(base, b, mask) == [base + b]
  {
    ExtensionOctets(z, b);
  }

  lemma {:induction false} ExtensionOctets(z: nat, b: byte)
    requires 1 <= b
    ensures Extension(255 * z + b) == Zeros(z) + [b]
  {
    if z == 0 {
      assert Zeros(0) + [b] == [b];
    } else {
      ExtensionOctets(z - 1, b);
      assert Zeros(z) + [b] == [0] + (Zeros(z - 1) + [b]);
    }
  }

  /** 0000aakk bbbbbbbb: three octets from aa + 4 * bbbbbbbb + 0x801 back. */
  lemma ShortOctets(a: nat, b: byte, k: nat)
    requires a < 4 && k < 4
    ensures var c := Match(Short, 3, a + 4 * b + 0x801, k); Shaped(c) && Header(c) == [4 * a + k, b]
  {
  }

  /** cccbbbkk dddddddd: ccc + 1 octets from bbb + 8 * dddddddd + 1 back. */
  lemma NearOctets(c: nat, b: nat, d: byte, k: nat)
    requires 2 <= c < 8 && b < 8 && k < 4
    ensures var m := Match(Near, c + 1, b + 8 * d + 1, k); Shaped(m) && Header(m) == [32 * c + 4 * b + k, d]
  {
  }

  /** 001nnnnn and the word ooooooooooooookk, low octet first: n + 2 octets from o + 1 back. */
  lemma MidOctets(n: nat, lo: byte, hi: byte)
    requires 1 <= n
    ensures var w := lo + 0x100 * hi;
            var m := Match(Mid, n + 2, w / 4 + 1, w % 4); Shaped(m) && Header(m) == Counted(0x20, n, 31) + [lo, hi]
  {
  }

  /** 0001bnnn and the word ooooooooooooookk: n + 2 octets from b * 0x4000 + o + 0x4000 back, or the end marker. */
  lemma FarOctets(n: nat, b: nat, lo: byte, hi: byte)
    requires 1 <= n && b < 2
    ensures var w := lo + 0x100 * hi;
            var c := if b == 0 && w / 4 == 0 then Stop(n, w) else Match(Far, n + 2, b * 0x4000 + w / 4 + 0x4000, w % 4);
            Shaped(c) && Header(c) == Counted(0x10 + 8 * b, n, 7) + [lo, hi]
  {
    var w: int := lo + 0x100 * hi;
    var offset := b * 0x4000 + w / 4;
    if offset > 0 {
      assert offset / 0x4000 == b && offset % 0x4000 == w / 4;
    }
  }

  /** 0000nnnn: a run of n + 3 literals; an octet above 0x11 at the very start: a run of that many more. */
  lemma RunOctets(n: nat, b: byte)
    requires 1 <= n
    ensures Shaped(Run(n + 3)) && Header(Run(n + 3)) == Counted(0, n, 15)
    ensures 0x11 < b ==> Shaped(Initial(b - 0x11)) && Header(Initial(b - 0x11)) == [b]
  {
  }

  /** What the low octets mean after each command, in terms of the two commands themselves. */
  lemma NextCommand(c: Command, d: Command)
    requires !c.Stop? && Shaped(c)
    ensures d.Run? && Shaped(d) ==> (Legal(NextMode(c), d) <==> (c.Match? && c.trailing == 0) || (c.Initial? && c.count < 4))
    ensures d.Match? && d.form == Short && Shaped(d) ==>
              (Legal(NextMode(c), d) <==> c.Run? || (c.Initial? && 4 <= c.count))
    ensures (d.Stop? || (d.Match? && d.form != Short)) && Shaped(d) ==> Legal(NextMode(c), d)
    ensures !Legal(NextMode(c), Initial(1))
  {
  }
}
