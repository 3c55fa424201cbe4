/** The receiving side of a connection as a parse of its byte stream, however that is cut into reads. */
module Receiver {
  import opened Bytes
  import opened Frames

  const BUFFER_SIZE := 262144

  datatype Keys = Keys(key: Key, have: bool)

  /** What the connection tells its callback object, in order. */
  datatype Event =
    | RawPacket(frame: Frame)
    | NewKey(key: Key)
    | Packet(frame: Frame)      // deciphered
    | KeepaliveReply

  datatype Status =
    | Running
    | Aborted
    | OutOfBounds   // a key number past the end of the key

  datatype Step = Step(status: Status, keys: Keys, events: seq<Event>)

  function KeyFromData(data: bytes): (key: Key)
    requires |data| == KEY_LENGTH
  {
    DecipherAll(data, 8)
  }

  /** What one complete frame does. */
  function Receive(keys: Keys, f: bytes): Step
    requires HEADER <= |f|
  {
    var raw := [RawPacket(f)];
    if HasKey(f[4]) then
      if |f| != HEADER + KEY_LENGTH then Step(Running, keys, raw)
      else
        var key := KeyFromData(Payload(f));
        Step(Running, Keys(key, true), raw + [NewKey(key)])
    else if !HeaderSumOk(f) then Step(Aborted, keys, raw)
    else if HasAliveRequest(f[4]) then Step(Running, keys, raw + [KeepaliveReply])
    else if f[4] != FLAG_ENCRYPTED || !keys.have then Step(Running, keys, raw)
    else if !KeyNumberOk(f[7]) then Step(OutOfBounds, keys, raw)
    else
      var k := KeyByte(keys.key, f[7]);
      if !DataSumOk(Opened(f, k), k) then Step(Aborted, keys, raw)
      else Step(Running, keys, raw + [Packet(Opened(f, k))])
  }

  datatype Parse = Parse(status: Status, keys: Keys, rest: bytes, events: seq<Event>)

  function Prepend(events: seq<Event>, p: Parse): Parse {
    p.(events := events + p.events)
  }

  /** All complete frames at the head of `s`. */
  function ParseStream(keys: Keys, s: bytes): (p: Parse)
    ensures p.status.Running? ==> |p.rest| < MAX_PACKET - 1 && |p.rest| <= |s|
    decreases |s|
  {
    if |s| < HEADER then Parse(Running, keys, s, [])
    else
      var n := U32(s);
      if n < HEADER || n >= MAX_PACKET then Parse(Aborted, keys, s, [])
      else if |s| < n then Parse(Running, keys, s, [])
      else
        var step := Receive(keys, s[..n]);
        if !step.status.Running? then Parse(step.status, step.keys, s, step.events)
        else Prepend(step.events, ParseStream(step.keys, s[n..]))
  }

  /** One read: the bytes join the buffer, if it takes them, and complete frames are handled. */
  function OnRead(keys: Keys, pending: bytes, chunk: bytes): Parse {
    if |pending| + |chunk| >= BUFFER_SIZE then Parse(Aborted, keys, pending, [])
    else ParseStream(keys, pending + chunk)
  }

  /** Successive reads, until one fails. */
  function Reads(keys: Keys, pending: bytes, chunks: seq<bytes>): Parse
    decreases |chunks|
  {
    if chunks == [] then Parse(Running, keys, pending, [])
    else
      var r := OnRead(keys, pending, chunks[0]);
      if !r.status.Running? then r
      else Prepend(r.events, Reads(r.keys, r.rest, chunks[1..]))
  }

  function Joined(chunks: seq<bytes>): bytes {
    if chunks == [] then [] else chunks[0] + Joined(chunks[1..])
  }

  /** Same trace and outcome; and, unless the connection is dropped, same key and left-over bytes. */
  predicate Agree(p: Parse, q: Parse) {
    && p.status == q.status && p.events == q.events
    && (p.status.Running? ==> p.keys == q.keys && p.rest == q.rest)
  }

  lemma HeadFrame(s: bytes, t: bytes, n: nat)
    requires 4 <= n <= |s|
    ensures U32(s + t) == U32(s) && (s + t)[..n] == s[..n] && (s + t)[n..] == s[n..] + t
  {
    assert (s + t)[2..] == s[2..] + t;
  }

  /** More bytes only continue a parse: nothing already decided is revised. */
  lemma {:induction false} ParseContinues(keys: Keys, s: bytes, t: bytes)
    ensures var p := ParseStream(keys, s);
            if p.status.Running? then ParseStream(keys, s + t) == Prepend(p.events, ParseStream(p.keys, p.rest + t))
            else Agree(p, ParseStream(keys, s + t))
    decreases |s|
  {
    hide Receive;
    if |s| < HEADER {
      assert [] + ParseStream(keys, s + t).events == ParseStream(keys, s + t).events;
    } else {
      var n := U32(s);
      if HEADER <= n < MAX_PACKET && n <= |s| {
        HeadFrame(s, t, n);
        var step := Receive(keys, s[..n]);
        if step.status.Running? {
          ParseContinues(step.keys, s[n..], t);
          var p := ParseStream(step.keys, s[n..]);
          PrependTwice(step.events, p.events, ParseStream(p.keys, p.rest + t));
        }
      } else {
        HeadFrame(s, t, 4);
        assert [] + ParseStream(keys, s + t).events == ParseStream(keys, s + t).events;
      }
    }
  }

  lemma PrependTwice(a: seq<Event>, b: seq<Event>, p: Parse)
    ensures Prepend(a, Prepend(b, p)) == Prepend(a + b, p)
  {
    assert a + (b + p.events) == (a + b) + p.events;
  }

  /** However the stream is cut into reads of legal size, the outcome is that of parsing it whole. */
  lemma {:induction false} ChunkingIndependent(keys: Keys, pending: bytes, chunks: seq<bytes>)
    requires forall c :: c in chunks ==> 1 <= |c| <= MAX_PACKET
    requires ParseStream(keys, pending) == Parse(Running, keys, pending, [])
    ensures Agree(Reads(keys, pending, chunks), ParseStream(keys, pending + Joined(chunks)))
    decreases |chunks|
  {
    if chunks == [] {
      assert pending + [] == pending;
    } else {
      var c, others := chunks[0], chunks[1..];
      var whole := pending + c;
      BufferNeverFull(keys, pending, c);
      var r := ParseStream(keys, whole);
      assert pending + Joined(chunks) == whole + Joined(others);
      ParseContinues(keys, whole, Joined(others));
      if r.status.Running? {
        RestParses(keys, whole);
        ChunkingIndependent(r.keys, r.rest, others);
      }
    }
  }

  /** What a parse leaves over is less than one frame, so parsing it again changes nothing. */
  lemma {:induction false} RestParses(keys: Keys, s: bytes)
    requires ParseStream(keys, s).status.Running?
    ensures var p := ParseStream(keys, s); ParseStream(p.keys, p.rest) == Parse(Running, p.keys, p.rest, [])
    ensures var r := ParseStream(keys, s).rest; HEADER <= |r| ==> |r| < U32(r) < MAX_PACKET
    decreases |s|
  {
    hide Receive, U32;
    if |s| >= HEADER && |s| >= U32(s) {
      RestParses(Receive(keys, s[..U32(s)]).keys, s[U32(s)..]);
    }
  }

  /** A read of the largest size fits after everything a successful event can leave behind. */
  lemma BufferNeverFull(keys: Keys, pending: bytes, chunk: bytes)
    requires ParseStream(keys, pending) == Parse(Running, keys, pending, []) && |chunk| <= MAX_PACKET
    ensures |pending| <= 131070 && |pending| + |chunk| < BUFFER_SIZE
    ensures OnRead(keys, pending, chunk) == ParseStream(keys, pending + chunk)
  {
  }

  /** In no run of reads of legal size does the buffer refuse one: the abort of `OnRead` is never for lack of space. */
  lemma {:induction false} NoReadIsRefused(keys: Keys, chunks: seq<bytes>, i: nat)
    requires forall c :: c in chunks ==> 1 <= |c| <= MAX_PACKET
    requires i < |chunks| && Reads(keys, [], chunks[..i]).status.Running?
    ensures |Reads(keys, [], chunks[..i]).rest| + |chunks[i]| < BUFFER_SIZE
  {
    ChunkingIndependent(keys, [], chunks[..i]);
  }

  // ---------- one frame at a time ----------

  /** A frame that is neither a key nor sound is never handed to the callback as a packet. */
  lemma DeliveredIsSound(keys: Keys, f: bytes)
    requires HEADER <= |f|
    ensures forall e :: e in Receive(keys, f).events && e.Packet? ==>
              && keys.have && f[4] == FLAG_ENCRYPTED && KeyNumberOk(f[7])
              && Sound(f, KeyByte(keys.key, f[7]))
              && e.frame == Opened(f, KeyByte(keys.key, f[7]))
  {
  }

  /** No frame that differs in one byte from a delivered one is itself delivered. */
  lemma CorruptionNeverDelivered(keys: Keys, f: bytes, i: nat, b: byte)
    requires HEADER <= |f| && keys.have && f[4] == FLAG_ENCRYPTED && KeyNumberOk(f[7])
    requires Sound(f, KeyByte(keys.key, f[7]))
    requires i < |f| && b != f[i]
    ensures forall e :: e in Receive(keys, f[i := b]).events ==> !e.Packet?
  {
    hide Sound, HeaderSumOk, DataSumOk;
    var g := f[i := b];
    OneByteCorruptionDetected(f, KeyByte(keys.key, f[7]), i, b);
    forall e | e in Receive(keys, g).events && e.Packet?
      ensures false
    {
      DeliveredIsSound(keys, g);
      assert i >= 11 by { SoundHeader(g, KeyByte(keys.key, g[7])); }
    }
  }

  lemma SoundHeader(f: bytes, k: byte)
    requires HEADER <= |f| && Sound(f, k)
    ensures HeaderSumOk(f)
  {
  }

  /** One more complete frame on the wire is one more step. */
  lemma ParseOneMore(keys: Keys, s: bytes, f: bytes)
    requires IsFrame(f) && |f| < MAX_PACKET
    requires ParseStream(keys, s).status.Running? && ParseStream(keys, s).rest == []
    ensures var p := ParseStream(keys, s);
            var step := Receive(p.keys, f);
            var q := ParseStream(keys, s + f);
            && q.status == step.status && q.events == p.events + step.events
            && (step.status.Running? ==> q == Parse(Running, step.keys, [], p.events + step.events))
  {
    hide Receive;
    var p := ParseStream(keys, s);
    var step := Receive(p.keys, f);
    ParseContinues(keys, s, f);
    assert p.rest + f == f;
    assert f[..|f|] == f && f[|f|..] == [];
    assert ParseStream(step.keys, []) == Parse(Running, step.keys, [], []);
    assert step.events + [] == step.events;
  }

  /** A header with an impossible length drops the connection at once; what came before has been handled. */
  lemma BadLengthAborts(keys: Keys, s: bytes, f: bytes)
    requires HEADER <= |f| && (U32(f) < HEADER || MAX_PACKET <= U32(f))
    requires ParseStream(keys, s).status.Running? && ParseStream(keys, s).rest == []
    ensures ParseStream(keys, s + f).status == Aborted && ParseStream(keys, s + f).events == ParseStream(keys, s).events
  {
    ParseContinues(keys, s, f);
    assert [] + f == f;
  }

  // ---------- exactly when ----------

  /** The frames that ask for a sign of life. */
  predicate IsRequest(f: bytes)
    requires HEADER <= |f|
  {
    f[4] % 2 == 0 && f[4] / 4 % 2 == 1 && HeaderSumOk(f)
  }

  /** What a connection holding a key takes for a packet, before its data is looked at. */
  predicate IsEnciphered(keys: Keys, f: bytes)
    requires HEADER <= |f|
  {
    f[4] == 2 && HeaderSumOk(f) && keys.have
  }

  /**
   * What each frame does, told from its octets: which callbacks are made, and that the connection is dropped exactly
   * for a bad checksum, the data's being looked at only under a key.
   */
  lemma ReceivedExactly(keys: Keys, f: bytes)
    requires HEADER <= |f|
    ensures var r := Receive(keys, f);
            && (r.events[..1] == [RawPacket(f)] <= r.events && |r.events| <= 2)
            && (KeepaliveReply in r.events <==> IsRequest(f))
            && ((exists e :: e in r.events && e.NewKey?) <==> f[4] % 2 == 1 && |f| == 22)
            && (r.keys != keys ==> f[4] % 2 == 1 && |f| == 22)
            && ((exists e :: e in r.events && e.Packet?) <==>
                 IsEnciphered(keys, f) && KeyNumberOk(f[7]) && Sound(f, KeyByte(keys.key, f[7])))
            && (r.status == OutOfBounds <==> IsEnciphered(keys, f) && !KeyNumberOk(f[7]))
            && (r.status == Aborted <==>
                 f[4] % 2 == 0 &&
                 (HeaderSumOk(f) ==> IsEnciphered(keys, f) && KeyNumberOk(f[7]) && !Sound(f, KeyByte(keys.key, f[7]))))
  {
    var r := Receive(keys, f);
    hide HeaderSumOk, DataSumOk, Opened, KeyFromData;
    if |r.events| == 2 {
      assert r.events[1] in r.events;
    }
  }

  /** A received key, bit for bit: 8 is added to each octet of the frame's data, then its exclusive or with 8 is taken. */
  lemma KeyEachBit(keys: Keys, f: bytes, j: nat, i: nat)
    requires |f| == 22 && f[4] % 2 == 1 && j < 10 && i < 8
    ensures var r, c: int := Receive(keys, f).keys, f[HEADER + j];
            r.have && BitOf(r.key[j], i) == (BitOf((c + 8) % 256, i) + BitOf(8, i)) % 2
  {
    DecipherEachBit(f[HEADER + j], 8, i);
    hide Decipher;
  }

  /** A delivered packet, bit for bit, under the key octet its key number names. */
  lemma PacketEachBit(keys: Keys, f: bytes, e: Event, j: nat, i: nat)
    requires HEADER <= j < |f| && i < 8
    requires e in Receive(keys, f).events && e.Packet?
    ensures |e.frame| == |f| && e.frame[..HEADER] == f[..HEADER] && (f[7] < 10 || f[7] == 0xff)
    ensures var k: int := if f[7] == 0xff then 8 else keys.key[f[7]];
            BitOf(e.frame[j], i) == (BitOf((f[j] + k) % 256, i) + BitOf(k, i)) % 2
  {
    DeliveredIsSound(keys, f);
    hide Receive, Sound, Opened, BitOf;
    assert KeyNumberOk(f[7]);
    var k := KeyByte(keys.key, f[7]);
    assert e.frame == Opened(f, k);
    assert k == if f[7] == 0xff then 8 else keys.key[f[7]];
    hide KeyByte;
    OpenedEachBit(f, k, j, i);
  }
}
