/** The sending side: what each call puts on the wire, and that a peer with the same key reads it back. */
module Sender {
  import opened Bytes
  import opened Frames
  import opened Receiver

  /** A frame with these header fields; the checksum bytes are filled in by sealing. */
  function Stamp(f: bytes, flag: byte, number: byte, sequence: uint32): (r: bytes)
    requires HEADER <= |f|
    ensures |r| == |f| && r[..4] == f[..4] && r[4] == flag && r[7] == number
    ensures U32(r[8..]) == sequence && Payload(r) == Payload(f)
  {
    var r := f[..4] + [flag, 0, 0, number] + PutU32(sequence) + f[HEADER..];
    assert r[8..][..4] == PutU32(sequence);
    assert r[8..][2..] == PutU32(sequence)[2..] + f[HEADER..];
    r
  }

  function KeyNumber(sequence: uint32): (n: byte)
    ensures n < KEY_LENGTH
  {
    (sequence - 1) % 0x1_0000_0000 % 10
  }

  function NextSequence(sequence: uint32): uint32 {
    (sequence + 1) % 0x1_0000_0000
  }

  /** SendPacket. */
  function PacketFrame(f: bytes, key: Key, sequence: uint32): (r: bytes)
    requires HEADER <= |f|
    ensures |r| == |f|
  {
    var n := KeyNumber(sequence);
    Sealed(Stamp(f, FLAG_ENCRYPTED, n, sequence), KeyByte(key, n))
  }

  /** SendKey. */
  function KeyFrame(key: Key): (r: bytes)
    ensures |r| == HEADER + KEY_LENGTH
  {
    Sealed(Stamp(PutU32(22) + [0, 0, 0, 0, 0, 0, 0, 0] + key, FLAG_KEY + FLAG_ENCRYPTED, 0xff, 0), 8)
  }

  /** SendKeepaliveReply declares 16 bytes for a 12-byte struct; `past` is what lies behind it. */
  function ReplyFrame(past: bytes): (r: bytes)
    requires |past| == 4
    ensures |r| == 16
  {
    Sealed(Stamp(PutU32(16) + [0, 0, 0, 0, 0, 0, 0, 0] + past, FLAG_ALIVE_REPLY, 0xff, 0), 8)
  }

  lemma SealedHeader(f: bytes, k: byte)
    requires HEADER <= |f|
    ensures var w := Sealed(f, k);
            && w[..4] == f[..4] && U32(w) == U32(f) && w[4] == f[4] && w[7] == f[7] && w[8..HEADER] == f[8..HEADER]
            && Payload(Summed(f, k)) == Payload(f) && Summed(f, k)[..4] == f[..4]
  {
    var w, g := Sealed(f, k), Summed(f, k);
    SealedIsSound(f, k);
    forall i | 0 <= i < HEADER && i != 5 && i != 6
      ensures w[i] == f[i]
    {
      assert w[i] == w[..HEADER][i] == g[..HEADER][i] == f[i];
    }
    assert w[2..][0] == w[2] && w[2..][1] == w[3];
    assert f[2..][0] == f[2] && f[2..][1] == f[3];
    assert Payload(g) == Payload(f);
  }

  /** What a peer holding the key makes of a sent packet: the payload, under the sender's sequence number. */
  lemma PacketReceived(f: bytes, keys: Keys, sequence: uint32)
    requires IsFrame(f) && keys.have
    ensures var w := PacketFrame(f, keys.key, sequence);
            && IsFrame(w) && w[..4] == f[..4] && w[4] == FLAG_ENCRYPTED
            && w[7] == KeyNumber(sequence) && U32(w[8..]) == sequence
            && var plain := Opened(w, KeyByte(keys.key, KeyNumber(sequence)));
               && Payload(plain) == Payload(f) && plain[..4] == f[..4]
               && Receive(keys, w) == Step(Running, keys, [RawPacket(w), Packet(plain)])
  {
    var n := KeyNumber(sequence);
    var k := KeyByte(keys.key, n);
    var g := Stamp(f, FLAG_ENCRYPTED, n, sequence);
    var w := Sealed(g, k);
    SealedIsSound(g, k);
    SealedHeader(g, k);
    assert U32(g) == U32(f) by { assert g[2..][..2] == g[..4][2..] == f[..4][2..] == f[2..][..2]; }
    assert U32(w[8..]) == sequence by { WordOfSlice(w, g); }
    hide HeaderSumOk, DataSumOk, Opened, Sealed, Stamp, Summed, KeyNumber;
  }

  lemma WordOfSlice(a: bytes, b: bytes)
    requires HEADER <= |a| && HEADER <= |b| && a[8..HEADER] == b[8..HEADER]
    ensures U32(a[8..]) == U32(b[8..])
  {
    assert a[8..][..4] == a[8..HEADER] && b[8..][..4] == b[8..HEADER];
    assert forall i | 0 <= i < 4 :: a[8..][i] == a[8..][..4][i] && b[8..][i] == b[8..][..4][i];
    assert a[8..][2..][0] == a[8..][2] && a[8..][2..][1] == a[8..][3];
    assert b[8..][2..][0] == b[8..][2] && b[8..][2..][1] == b[8..][3];
  }

  /** A sent key is taken over by the peer, whatever it held before. */
  lemma KeyReceived(key: Key, keys: Keys)
    ensures var w := KeyFrame(key);
            && IsFrame(w) && w[4] == FLAG_KEY + FLAG_ENCRYPTED && w[7] == 0xff && U32(w[8..]) == 0 && Sound(w, 8)
            && Receive(keys, w) == Step(Running, Keys(key, true), [RawPacket(w), NewKey(key)])
  {
    var f := PutU32(22) + [0, 0, 0, 0, 0, 0, 0, 0] + key;
    var g := Stamp(f, FLAG_KEY + FLAG_ENCRYPTED, 0xff, 0);
    var w := Sealed(g, 8);
    SealedHeader(g, 8);
    SealedIsSound(g, 8);
    assert U32(w[8..]) == 0 by { WordOfSlice(w, g); }
    assert g[..4] == f[..4] == PutU32(22);
    WordOfHead(w, PutU32(22));
    assert Payload(g) == key;
    CipherAllInverts(key, 8);
    assert Payload(w) == EncipherAll(Payload(Summed(g, 8)), 8);
  }

  lemma WordOfHead(a: bytes, b: bytes)
    requires 4 <= |a| && |b| == 4 && a[..4] == b
    ensures U32(a) == U32(b)
  {
    assert forall i | 0 <= i < 4 :: a[i] == a[..4][i];
  }

  /** A keepalive reply tells the peer nothing. */
  lemma ReplyReceived(past: bytes, keys: Keys)
    requires |past| == 4
    ensures var w := ReplyFrame(past);
            && IsFrame(w) && w[4] == FLAG_ALIVE_REPLY && w[7] == 0xff && U32(w[8..]) == 0 && Sound(w, 8)
            && Payload(Opened(w, 8)) == past
            && Receive(keys, w) == Step(Running, keys, [RawPacket(w)])
  {
    var f := PutU32(16) + [0, 0, 0, 0, 0, 0, 0, 0] + past;
    var g := Stamp(f, FLAG_ALIVE_REPLY, 0xff, 0);
    var w := Sealed(g, 8);
    SealedIsSound(g, 8);
    SealedHeader(g, 8);
    assert U32(w[8..]) == 0 by { WordOfSlice(w, g); }
    assert g[..4] == f[..4] == PutU32(16);
    WordOfHead(w, PutU32(16));
    hide HeaderSumOk, DataSumOk, Opened, Summed;
  }

  // ---------- whole runs ----------

  /** What a receiver's callback learns from the peer: keys and payloads. */
  datatype Delivery = TheKey(key: Key) | ThePayload(data: bytes)

  function Deliveries(events: seq<Event>): seq<Delivery> {
    if events == [] then []
    else
      var rest := Deliveries(events[1..]);
      match events[0]
      case NewKey(key) => [TheKey(key)] + rest
      case Packet(f) => [ThePayload(Payload(f))] + rest
      case _ => rest
  }

  lemma {:induction false} DeliveriesConcat(a: seq<Event>, b: seq<Event>)
    ensures Deliveries(a + b) == Deliveries(a) + Deliveries(b)
  {
    if a == [] {
      assert a + b == b;
    } else {
      assert (a + b)[1..] == a[1..] + b;
      DeliveriesConcat(a[1..], b);
    }
  }

  predicate Sendable(packets: seq<bytes>) {
    forall i | 0 <= i < |packets| :: IsFrame(packets[i]) && |packets[i]| < MAX_PACKET
  }

  /** The writes of successive SendPacket calls. */
  function SendAll(packets: seq<bytes>, key: Key, sequence: uint32): (wire: bytes)
    requires Sendable(packets)
  {
    if packets == [] then []
    else PacketFrame(packets[0], key, sequence) + SendAll(packets[1..], key, NextSequence(sequence))
  }

  /** The sequence number after `i` sends. */
  function SequenceAfter(first: uint32, i: nat): uint32
    decreases i
  {
    if i == 0 then first else SequenceAfter(NextSequence(first), i - 1)
  }

  lemma {:induction false} SequenceWraps(first: uint32, i: nat)
    ensures SequenceAfter(first, i) == (first + i) % UINT32_RANGE
    decreases i
  {
    if i > 0 {
      SequenceWraps(NextSequence(first), i - 1);
      StepWraps(first + 1, i - 1);
    }
  }

  lemma StepWraps(x: nat, y: nat)
    requires x <= UINT32_RANGE
    ensures (x % UINT32_RANGE + y) % UINT32_RANGE == (x + y) % UINT32_RANGE
  {
    if x == UINT32_RANGE {
      var q, r := y / UINT32_RANGE, y % UINT32_RANGE;
      assert x + y == (q + 1) * UINT32_RANGE + r;
    }
  }

  /** The `i`-th packet (from 0) travels as sequence number i + 1 and under key number i mod 10, both wrapping at 32 bits. */
  lemma SequenceOfPacket(i: nat)
    ensures SequenceAfter(1, i) == (i + 1) % UINT32_RANGE
    ensures KeyNumber(SequenceAfter(1, i)) == i % UINT32_RANGE % 10
  {
    SequenceWraps(1, i);
    PredecessorWraps(i);
  }

  lemma PredecessorWraps(i: nat)
    ensures ((i + 1) % UINT32_RANGE - 1) % UINT32_RANGE == i % UINT32_RANGE
  {
    var q, r := i / UINT32_RANGE, i % UINT32_RANGE;
    if r == UINT32_RANGE - 1 {
      assert i + 1 == (q + 1) * UINT32_RANGE;
      assert (i + 1) % UINT32_RANGE == 0;
    } else {
      assert i + 1 == q * UINT32_RANGE + (r + 1);
      assert (i + 1) % UINT32_RANGE == r + 1;
    }
  }

  /** The two callbacks a packet causes: its frame as sent, and its payload. */
  ghost predicate HeardOne(raw: Event, handed: Event, f: Frame, key: Key, sequence: uint32) {
    && raw == RawPacket(PacketFrame(f, key, sequence))
    && handed.Packet? && Payload(handed.frame) == Payload(f)
  }

  ghost predicate Heard(events: seq<Event>, packets: seq<bytes>, key: Key, sequence: uint32)
    requires Sendable(packets)
  {
    && |events| == 2 * |packets|
    && forall i | 0 <= i < |packets| ::
         HeardOne(events[2 * i], events[2 * i + 1], packets[i], key, SequenceAfter(sequence, i))
  }

  lemma HeardOneMore(head: seq<Event>, tail: seq<Event>, packets: seq<bytes>, key: Key, sequence: uint32)
    requires Sendable(packets) && packets != [] && |head| == 2
    requires HeardOne(head[0], head[1], packets[0], key, sequence)
    requires Heard(tail, packets[1..], key, NextSequence(sequence))
    ensures Heard(head + tail, packets, key, sequence)
  {
    hide HeardOne;
    var events := head + tail;
    forall i | 0 <= i < |packets|
      ensures HeardOne(events[2 * i], events[2 * i + 1], packets[i], key, SequenceAfter(sequence, i))
    {
      if i > 0 {
        assert packets[i] == packets[1..][i - 1];
        assert events[2 * i] == tail[2 * (i - 1)] && events[2 * i + 1] == tail[2 * (i - 1) + 1];
      }
    }
  }

  /** A peer with the key, fed everything that was sent, is handed exactly the payloads, in order, and nothing is left. */
  lemma {:induction false} EverythingSentIsReceived(packets: seq<bytes>, keys: Keys, sequence: uint32)
    requires Sendable(packets) && keys.have
    ensures var p := ParseStream(keys, SendAll(packets, keys.key, sequence));
            && p.status.Running? && p.keys == keys && p.rest == []
            && Heard(p.events, packets, keys.key, sequence)
    decreases |packets|
  {
    if packets != [] {
      var f, others := packets[0], packets[1..];
      var w, tail := PacketFrame(f, keys.key, sequence), SendAll(others, keys.key, NextSequence(sequence));
      PacketReceived(f, keys, sequence);
      hide Receive, PacketFrame, Heard;
      EverythingSentIsReceived(others, keys, NextSequence(sequence));
      var step := Receive(keys, w);
      assert ParseStream(keys, w) == Parse(Running, keys, [], step.events) by {
        assert ParseStream(keys, []) == Parse(Running, keys, [], []);
        ParseOneMore(keys, [], w);
        assert [] + w == w && [] + step.events == step.events;
      }
      ParseContinues(keys, w, tail);
      assert [] + tail == tail;
      HeardOneMore(step.events, ParseStream(keys, tail).events, packets, keys.key, sequence);
    } else {
      assert Heard([], [], keys.key, sequence);
    }
  }
}
