/** The connection as the program runs it: a byte buffer, a key and a sequence number, all updated in place. */
module RomConnection {
  import opened Bytes
  import opened Frames
  import opened Receiver
  import opened Sender
  import opened Relay
  import opened InPlace

  class Buffer {
    const data: array<byte>
    var available: nat

    ghost predicate Valid()
      reads this
    {
      data.Length == BUFFER_SIZE && available <= data.Length
    }

    ghost function Contents(): bytes
      requires Valid()
      reads this, data
    {
      data[..available]
    }

    constructor ()
      ensures Valid() && fresh(data) && Contents() == []
    {
      data := new byte[BUFFER_SIZE];
      available := 0;
    }

    method AddData(packet: array<byte>, len: nat) returns (ok: bool)
      requires Valid() && packet != data && len <= packet.Length
      modifies this`available, data
      ensures Valid()
      ensures ok == (|old(Contents())| + len < BUFFER_SIZE)
      ensures Contents() == old(Contents()) + if ok then packet[..len] else []
    {
      if available + len >= BUFFER_SIZE {
        return false;
      }
      forall i | 0 <= i < len { data[available + i] := packet[i]; }
      available := available + len;
      return true;
    }

    method FlushData(len: nat)
      requires Valid() && len <= |Contents()|
      modifies this`available, data
      ensures Valid() && Contents() == old(Contents())[len..]
    {
      var left := available - len;
      forall i | 0 <= i < left { data[i] := data[i + len]; }
      available := left;
    }

    method PeekData(len: nat) returns (present: bool)
      requires Valid()
      ensures present == (len <= |Contents()|)
    {
      present := len <= available;
    }
  }

  class PacketLog {
    var entries: seq<Entry>
    const options: Options

    constructor (options: Options)
      ensures entries == [] && this.options == options
    {
      this.options := options;
      entries := [];
    }

    method Write(direction: Direction, on: bool, p: array<byte>, n: nat)
      requires HEADER <= n <= p.Length
      modifies this`entries
      ensures entries == old(entries) + if on then [Entry(direction, p[..n])] else []
    {
      if on {
        entries := entries + [Entry(direction, p[..n])];
      }
    }
  }

  method EncipherInPlace(p: array<byte>, n: nat, k: byte)
    requires HEADER <= n <= p.Length
    modifies p
    ensures p[..n] == old(p[..HEADER]) + EncipherAll(old(p[HEADER..n]), k) && p[n..] == old(p[n..])
  {
    hide Encipher;
    ghost var f := p[..n];
    for i := HEADER to n
      invariant p[..HEADER] == f[..HEADER] && p[i..] == old(p[i..])
      invariant forall j | HEADER <= j < i :: p[j] == Encipher(f[j], k)
    {
      assert p[i] == f[i];
      p[i] := Encipher(p[i], k);
    }
    assert p[HEADER..n] == EncipherAll(old(p[HEADER..n]), k);
    assert p[..n] == p[..HEADER] + p[HEADER..n];
  }

  /** Stores a 32-bit field, least significant byte first. */
  method Store32(p: array<byte>, at: nat, v: uint32)
    requires at + 4 <= p.Length
    modifies p
    ensures p[..] == old(p[..at]) + PutU32(v) + old(p[at + 4..])
  {
    var w := PutU32(v);
    p[at], p[at + 1], p[at + 2], p[at + 3] := w[0], w[1], w[2], w[3];
  }

  /** Both checksums, over the frame with the checksum fields zero. */
  method FillSums(p: array<byte>, n: nat, k: byte)
    requires HEADER <= n <= p.Length
    modifies p
    ensures p[..n] == Summed(old(p[..n]), k) && p[n..] == old(p[n..])
  {
    ghost var z := p[..n][5 := 0][6 := 0];
    p[6], p[5] := 0, 0;
    assert p[0..n] == p[..n] == z && p[0..11] == z[..11];
    var header := Checksum(p, 0, 11);
    var data := Checksum(p, 0, n);
    hide Sum;
    data := Low8((data as int) + k);
    header := Low8((header as int) + data);
    SumsInOctets(z, k);
    p[6], p[5] := header, data;
    assert p[..n] == z[5 := data][6 := header];
  }

  /** The sums reduced to octets at each step are those of the specification. */
  lemma SumsInOctets(z: bytes, k: byte)
    requires HEADER <= |z|
    ensures var a: int, b: int := Low8(Sum(z)), Low8(Sum(z[..11]));
            var data := Low8(Sum(z) + k);
            Low8(a + k) == data && Low8(b + data) == Low8(Sum(z[..11]) + data)
  {
    hide Sum;
  }

  /** Fills in both checksums and enciphers the data, in place. */
  method Seal(p: array<byte>, n: nat, k: byte)
    requires HEADER <= n <= p.Length
    modifies p
    ensures p[..n] == Sealed(old(p[..n]), k) && p[n..] == old(p[n..])
  {
    hide Summed;
    FillSums(p, n, k);
    ghost var g := p[..n];
    assert p[..HEADER] == g[..HEADER] && p[HEADER..n] == g[HEADER..];
    EncipherInPlace(p, n, k);
  }

  lemma SealedFromZeroed(f: bytes, g: bytes, k: byte)
    requires HEADER <= |f| && g == f[5 := 0][6 := 0]
    ensures Sealed(f, k) == Sealed(g, k)
  {
    assert g[5 := 0][6 := 0] == f[5 := 0][6 := 0];
  }

  /** memcpy of the key into the data of a frame. */
  method CopyInto(key: array<byte>, p: array<byte>)
    requires key != p && key.Length == KEY_LENGTH && HEADER + KEY_LENGTH <= p.Length
    modifies p
    ensures p[..HEADER] == old(p[..HEADER]) && p[HEADER..22] == key[..] && p[22..] == old(p[22..])
  {
    for i := 0 to KEY_LENGTH
      invariant p[..HEADER] == old(p[..HEADER]) && p[22..] == old(p[22..])
      invariant p[HEADER..HEADER + i] == key[..i]
    {
      p[HEADER + i] := key[i];
    }
  }

  /** A frame with the header and data of a key frame seals to it, whatever its checksum bytes. */
  lemma SealedKey(g: bytes, key: Key)
    requires |g| == 22 && g[..4] == PutU32(22) && g[4] == FLAG_KEY + FLAG_ENCRYPTED && g[7] == 0xff
    requires g[8..HEADER] == PutU32(0) && g[HEADER..] == key
    ensures Sealed(g, 8) == KeyFrame(key)
  {
    var stamped := Stamp(PutU32(22) + [0, 0, 0, 0, 0, 0, 0, 0] + key, FLAG_KEY + FLAG_ENCRYPTED, 0xff, 0);
    assert g == g[..4] + [g[4], g[5], g[6], g[7]] + g[8..HEADER] + g[HEADER..];
    assert g[5 := 0][6 := 0] == stamped == stamped[5 := 0][6 := 0];
    SealedFromZeroed(g, stamped, 8);
    SealedFromZeroed(stamped, stamped, 8);
  }

  lemma HeaderPut(all: bytes, n: nat, flag: byte, number: byte, sequence: uint32)
    requires HEADER <= n <= |all|
    ensures var q := all[4 := flag][7 := number][..8] + PutU32(sequence) + all[HEADER..];
            && q[..n] == all[..n][..4] + [flag, all[5], all[6], number] + PutU32(sequence) + all[..n][HEADER..]
            && q[n..] == all[n..]
  {
    assert all[4 := flag][7 := number][..8] == all[..4] + [flag, all[5], all[6], number];
    assert (all[HEADER..])[..n - HEADER] == all[..n][HEADER..];
  }

  /** Sets the flag, key number and sequence number of the frame in `p[..n]`; the checksum bytes stay as they are. */
  method SetHeader(p: array<byte>, n: nat, flag: byte, number: byte, sequence: uint32)
    requires HEADER <= n <= p.Length
    modifies p
    ensures p[..n][5 := 0][6 := 0] == Stamp(old(p[..n]), flag, number, sequence) && p[n..] == old(p[n..])
    ensures p[7] == number
    ensures forall k: byte :: Sealed(p[..n], k) == Sealed(Stamp(old(p[..n]), flag, number, sequence), k)
  {
    ghost var f := p[..n];
    ghost var all := p[..];
    p[4] := flag;
    Store32(p, 8, sequence);
    p[7] := number;
    assert p[..] == all[4 := flag][7 := number][..8] + PutU32(sequence) + all[HEADER..];
    HeaderPut(all, n, flag, number, sequence);
    assert p[..n] == p[..][..n];
    ghost var g, stamped := p[..n], Stamp(f, flag, number, sequence);
    assert g[5 := 0][6 := 0] == stamped == stamped[5 := 0][6 := 0];
    forall k: byte
      ensures Sealed(g, k) == Sealed(stamped, k)
    {
      SealedFromZeroed(g, stamped, k);
      SealedFromZeroed(stamped, stamped, k);
    }
  }

  class Connection {
    const buffer: Buffer
    const key: array<byte>
    var haveKey: bool
    var sequence: uint32
    const past: bytes
    var written: bytes       // everything the client object has been given to write
    ghost var heard: seq<Event>  // every callback made

    ghost predicate Valid()
      reads this, buffer
    {
      key.Length == KEY_LENGTH && key != buffer.data && buffer.Valid() && |past| == 4
    }

    ghost function CurrentKeys(): Keys
      requires Valid()
      reads this, buffer, key
    {
      Keys(key[..], haveKey)
    }

    ghost function Out(): Outlet
      requires Valid()
      reads this, buffer, key
    {
      Outlet(CurrentKeys(), sequence, written)
    }

    constructor (past: bytes)
      requires |past| == 4
      ensures Valid() && fresh(buffer) && fresh(buffer.data) && fresh(key) && this.past == past
      ensures buffer.Contents() == [] && heard == []
      ensures Out() == Outlet(Keys(seq(KEY_LENGTH, _ => 0), false), 1, [])
    {
      buffer := new Buffer();
      key := new byte[KEY_LENGTH](_ => 0);
      haveKey, sequence := false, 1;
      this.past := past;
      written, heard := [], [];
    }

    /** Seals the frame under the key its key number names, and writes it. */
    method ChecksumAndSend(p: array<byte>, n: nat)
      requires Valid() && p != key && HEADER <= n <= p.Length && KeyNumberOk(p[7])
      modifies p, this`written
      ensures p[..n] == Sealed(old(p[..n]), KeyByte(old(key[..]), old(p[7]))) && p[n..] == old(p[n..])
      ensures written == old(written) + p[..n] && key[..] == old(key[..])
    {
      var k := if p[7] != 0xff then key[p[7]] else 8;
      Seal(p, n, k);
      written := written + p[..n];
    }

    method SendPacket(p: array<byte>, n: nat)
      requires Valid() && p != key && HEADER <= n <= p.Length
      modifies p, this`written, this`sequence
      ensures p[..n] == PacketFrame(old(p[..n]), old(key[..]), old(sequence)) && p[n..] == old(p[n..])
      ensures Out() == Outlet(old(CurrentKeys()), NextSequence(old(sequence)), old(written) + p[..n])
    {
      hide Sealed, Stamp;
      SetHeader(p, n, FLAG_ENCRYPTED, (sequence - 1) % 0x1_0000_0000 % 10, sequence);
      sequence := (sequence + 1) % 0x1_0000_0000;
      ChecksumAndSend(p, n);
    }

    method SendKey(p: array<byte>, len: nat)
      requires Valid() && p != key && HEADER + KEY_LENGTH <= len <= p.Length
      modifies p, this`written
      ensures p[..22] == KeyFrame(old(key[..])) && p[22..] == old(p[22..])
      ensures Out() == Outlet(old(CurrentKeys()), old(sequence), old(written) + p[..22])
    {
      hide Sealed;
      Store32(p, 0, 22);
      ghost var f, tail := p[..22], p[22..];
      SetHeader(p, 22, FLAG_KEY + FLAG_ENCRYPTED, 0xff, 0);
      ghost var g := p[..22];
      assert g[..4] == g[5 := 0][6 := 0][..4] == f[..4] == PutU32(22);
      assert g[8..HEADER] == g[5 := 0][6 := 0][8..HEADER] == PutU32(0);
      CopyInto(key, p);
      assert p[..22] == g[..HEADER] + key[..];
      assert p[22..] == tail;
      SealedKey(p[..22], key[..]);
      ChecksumAndSend(p, 22);
    }

    method SendKeepaliveReply()
      requires Valid()
      modifies this`written
      ensures written == old(written) + ReplyFrame(past)
    {
      hide Sealed, Stamp;
      var p := new byte[16](i => if 12 <= i < 16 && |past| == 4 then past[i - 12] else 0);
      Store32(p, 0, 16);
      ghost var f := p[..16];
      assert f == PutU32(16) + [0, 0, 0, 0, 0, 0, 0, 0] + past;
      SetHeader(p, 16, FLAG_ALIVE_REPLY, 0xff, 0);
      ChecksumAndSend(p, 16);
      assert p[..16] == ReplyFrame(past);
    }

    method CopyKey(conn: Connection)
      requires Valid() && conn.Valid() && conn.haveKey && key != conn.key
      modifies key, this`haveKey
      ensures CurrentKeys() == old(conn.CurrentKeys()) && conn.CurrentKeys() == old(conn.CurrentKeys())
    {
      forall i | 0 <= i < KEY_LENGTH { key[i] := conn.key[i]; }
      haveKey := true;
      assert key[..] == old(conn.key[..]);
    }

    // ---------- receiving ----------

    /** The two connections of a proxy, and its log, share no storage. */
    ghost predicate Paired(peer: Connection, log: PacketLog)
      reads this, buffer, peer, peer.buffer
    {
      && Valid() && peer.Valid() && this != peer
      && buffer != peer.buffer && buffer.data != peer.buffer.data
      && key != peer.key && buffer.data != peer.key && key != peer.buffer.data
    }

    ghost function Surroundings(peer: Connection, log: PacketLog): World
      requires Paired(peer, log)
      reads this, buffer, peer, peer.buffer, peer.key, log
    {
      World(written, peer.Out(), log.entries)
    }

    method OnRawPacketReceived(peer: Connection, side: Side, log: PacketLog, n: nat)
      requires Paired(peer, log) && HEADER <= n <= buffer.available
      modifies log`entries, this`heard
      ensures var e := RawPacket(old(buffer.data[..n]));
              && Surroundings(peer, log) == React(side, log.options, past, old(Surroundings(peer, log)), e)
              && heard == old(heard) + [e]
    {
      heard := heard + [RawPacket(buffer.data[..n])];
      match side
      case ServerSide => log.Write(ServerToProxy, log.options.server, buffer.data, n);
      case ClientSide => log.Write(ClientToProxy, log.options.client, buffer.data, n);
    }

    /** Only a key from the server is passed on. */
    method OnNewKey(peer: Connection, side: Side, log: PacketLog)
      requires Paired(peer, log) && haveKey
      modifies log`entries, this`heard, peer`written, peer`haveKey, peer.key
      ensures var e := NewKey(old(key[..]));
              && Surroundings(peer, log) == React(side, log.options, past, old(Surroundings(peer, log)), e)
              && heard == old(heard) + [e]
    {
      heard := heard + [NewKey(key[..])];
      if side == ServerSide {
        var packet := new byte[64];
        peer.CopyKey(this);
        assert peer.key[..] == old(key[..]);
        peer.SendKey(packet, 64);
        log.Write(ProxyToClient, log.options.client, packet, 22);
      }
    }

    /** The packet is sealed again for the other side, in this connection's own buffer. */
    method OnPacket(peer: Connection, side: Side, log: PacketLog, n: nat)
      requires Paired(peer, log) && HEADER <= n <= buffer.available
      modifies log`entries, this`heard, peer`written, peer`sequence, buffer.data
      ensures var e := Packet(old(buffer.data[..n]));
              && Surroundings(peer, log) == React(side, log.options, past, old(Surroundings(peer, log)), e)
              && heard == old(heard) + [e]
      ensures buffer.data[..4] == old(buffer.data[..4]) && buffer.data[n..] == old(buffer.data[n..])
    {
      hide PacketFrame;
      heard := heard + [Packet(buffer.data[..n])];
      ghost var f := buffer.data[..n];
      PacketFrameKeepsLength(f, peer.key[..], peer.sequence);
      peer.SendPacket(buffer.data, n);
      assert buffer.data[..4] == buffer.data[..n][..4];
      match side
      case ServerSide => log.Write(ProxyToClient, log.options.client, buffer.data, n);
      case ClientSide => log.Write(ProxyToServer, log.options.server, buffer.data, n);
    }

    method TakeKey()
      requires Valid() && HEADER + KEY_LENGTH <= buffer.available
      modifies key, this`haveKey
      ensures CurrentKeys() == Keys(KeyFromData(buffer.data[HEADER..22]), true)
    {
      hide Decipher;
      for n := 0 to KEY_LENGTH
        invariant forall j | 0 <= j < n :: key[j] == Decipher(buffer.data[HEADER + j], 8)
      {
        key[n] := Decipher(buffer.data[HEADER + n], 8);
      }
      haveKey := true;
    }

    /** A key frame: taken over when it has the size of one, otherwise dropped. */
    method OnKeyFrame(n: nat, peer: Connection, side: Side, log: PacketLog)
      requires Paired(peer, log) && HEADER <= n <= buffer.available && HasKey(buffer.data[4])
      modifies this`haveKey, this`written, this`heard, key
      modifies peer`haveKey, peer`written, peer.key, log`entries
      ensures var step := Receive(old(CurrentKeys()), old(buffer.data[..n]));
              && step.status.Running? && CurrentKeys() == step.keys && 1 <= |step.events|
              && Surroundings(peer, log) ==
                 ReactAll(side, log.options, past, old(Surroundings(peer, log)), step.events[1..])
              && heard == old(heard) + step.events[1..]
    {
      ghost var f := buffer.data[..n];
      assert f[4] == buffer.data[4];
      if n != HEADER + KEY_LENGTH {
        return;
      }
      assert Payload(f) == buffer.data[HEADER..22];
      hide React, KeyFromData;
      TakeKey();
      ReactOne(side, log.options, past, Surroundings(peer, log), NewKey(key[..]));
      OnNewKey(peer, side, log);
      assert Receive(old(CurrentKeys()), f).events[1..] == [NewKey(key[..])];
    }

    /** An enciphered frame: deciphered in the buffer, checked, and handed on. */
    method OnDataFrame(n: nat, peer: Connection, side: Side, log: PacketLog) returns (ok: bool)
      requires Paired(peer, log) && HEADER <= n <= buffer.available && KeyNumberOk(buffer.data[7])
      modifies this`heard, buffer.data, peer`sequence, peer`written, log`entries
      ensures var f := old(buffer.data[..n]);
              var k := KeyByte(old(key[..]), f[7]);
              var events := if ok then [Packet(Opened(f, k))] else [];
              && ok == DataSumOk(Opened(f, k), k)
              && Surroundings(peer, log) == ReactAll(side, log.options, past, old(Surroundings(peer, log)), events)
              && heard == old(heard) + events
      ensures CurrentKeys() == old(CurrentKeys())
      ensures buffer.data[..4] == old(buffer.data[..4]) && buffer.data[n..] == old(buffer.data[n..])
    {
      hide React, Opened, DataSumOk;
      ghost var f := buffer.data[..n];
      assert f[7] == buffer.data[7];
      var k := if buffer.data[7] != 0xff then key[buffer.data[7]] else 8;
      ok := OpenInPlace(buffer.data, 0, n, k);
      assert buffer.data[0..n] == buffer.data[..n];
      if ok {
        ReactOne(side, log.options, past, Surroundings(peer, log), Packet(Opened(f, k)));
        OnPacket(peer, side, log, n);
      }
    }

    /** A frame that carries no key. */
    method OnCheckedFrame(n: nat, peer: Connection, side: Side, log: PacketLog) returns (ok: bool)
      requires Paired(peer, log) && HEADER <= n <= buffer.available && !HasKey(buffer.data[4])
      requires !Receive(CurrentKeys(), buffer.data[..n]).status.OutOfBounds?
      modifies this`written, this`heard, buffer.data, peer`sequence, peer`written, log`entries
      ensures var step := Receive(old(CurrentKeys()), old(buffer.data[..n]));
              && ok == step.status.Running? && step.keys == CurrentKeys() == old(CurrentKeys()) && 1 <= |step.events|
              && Surroundings(peer, log) ==
                 ReactAll(side, log.options, past, old(Surroundings(peer, log)), step.events[1..])
              && heard == old(heard) + step.events[1..]
      ensures buffer.data[..4] == old(buffer.data[..4]) && buffer.data[n..] == old(buffer.data[n..])
    {
      hide React, Opened, DataSumOk, HeaderSumOk;
      ghost var f := buffer.data[..n];
      assert f[4] == buffer.data[4] && f[6] == buffer.data[6] && f[7] == buffer.data[7];
      assert f[..11] == buffer.data[..11];
      ok := HeaderCheck(buffer.data, 0, n);
      assert buffer.data[0..n] == f;
      if !ok {
        return;
      }
      if HasAliveRequest(buffer.data[4]) {
        ReactOne(side, log.options, past, Surroundings(peer, log), KeepaliveReply);
        AnswerKeepalive(peer, side, log);
      } else if buffer.data[4] == FLAG_ENCRYPTED && haveKey {
        ok := OnDataFrame(n, peer, side, log);
      }
    }

    method AnswerKeepalive(peer: Connection, side: Side, log: PacketLog)
      requires Paired(peer, log)
      modifies this`written, this`heard
      ensures Surroundings(peer, log) == React(side, log.options, past, old(Surroundings(peer, log)), KeepaliveReply)
      ensures heard == old(heard) + [KeepaliveReply]
    {
      SendKeepaliveReply();
      heard := heard + [KeepaliveReply];
    }

    /** One complete frame at the head of the buffer; on success the caller flushes it. */
    method OnFrame(n: nat, peer: Connection, side: Side, log: PacketLog) returns (ok: bool)
      requires Paired(peer, log) && HEADER <= n <= buffer.available
      requires !Receive(CurrentKeys(), buffer.data[..n]).status.OutOfBounds?
      modifies this`haveKey, this`written, this`heard, key, buffer.data
      modifies peer`haveKey, peer`sequence, peer`written, peer.key, log`entries
      ensures var step := Receive(old(CurrentKeys()), old(buffer.data[..n]));
              && ok == step.status.Running? && CurrentKeys() == step.keys
              && Surroundings(peer, log) == ReactAll(side, log.options, past, old(Surroundings(peer, log)), step.events)
              && heard == old(heard) + step.events
      ensures buffer.data[..4] == old(buffer.data[..4]) && buffer.data[n..] == old(buffer.data[n..])
    {
      hide React, ReactAll, Receive;
      ghost var f := buffer.data[..n];
      FirstEvent(side, log.options, past, Surroundings(peer, log), CurrentKeys(), f);
      OnRawPacketReceived(peer, side, log, n);
      assert buffer.data[..n] == f;
      ok := true;
      if HasKey(buffer.data[4]) {
        OnKeyFrame(n, peer, side, log);
      } else {
        ok := OnCheckedFrame(n, peer, side, log);
      }
    }

    /** A read of `len` bytes has arrived (`len <= 0`: the read failed). Returns whether to keep the connection. */
    method OnEvent(packet: array<byte>, len: int, peer: Connection, side: Side, log: PacketLog) returns (ok: bool)
      requires Paired(peer, log)
      requires len <= packet.Length == MAX_PACKET
      requires packet != buffer.data && packet != key && packet != peer.key
      requires len > 0 ==> !OnRead(CurrentKeys(), buffer.Contents(), packet[..len]).status.OutOfBounds?
      modifies this`haveKey, this`written, this`heard, key, buffer`available, buffer.data
      modifies peer`haveKey, peer`sequence, peer`written, peer.key, log`entries
      ensures Paired(peer, log)
      ensures len <= 0 ==> !ok && Surroundings(peer, log) == old(Surroundings(peer, log)) && heard == old(heard)
      ensures len > 0 ==>
                var r := OnRead(old(CurrentKeys()), old(buffer.Contents()), packet[..len]);
                && ok == r.status.Running?
                && (ok ==> CurrentKeys() == r.keys && buffer.Contents() == r.rest)
                && heard == old(heard) + r.events
                && Surroundings(peer, log) == ReactAll(side, log.options, past, old(Surroundings(peer, log)), r.events)
    {
      if len <= 0 {
        return false;
      }
      ghost var w0, heard0 := Surroundings(peer, log), heard;
      ok := buffer.AddData(packet, len);
      if !ok {
        assert heard == heard0 + [];
        return;
      }
      ok := HandleFrames(peer, side, log);
    }

    /** One round of the loop: `more` when a frame was handled and the loop goes on. */
    method NextFrame(peer: Connection, side: Side, log: PacketLog) returns (more: bool, ok: bool, ghost events: seq<Event>)
      requires Paired(peer, log)
      requires !ParseStream(CurrentKeys(), buffer.Contents()).status.OutOfBounds?
      modifies this`haveKey, this`written, this`heard, key, buffer`available, buffer.data
      modifies peer`haveKey, peer`sequence, peer`written, peer.key, log`entries
      ensures Paired(peer, log) && heard == old(heard) + events
      ensures Surroundings(peer, log) == ReactAll(side, log.options, past, old(Surroundings(peer, log)), events)
      ensures var r := ParseStream(old(CurrentKeys()), old(buffer.Contents()));
              if more then
                r == Prepend(events, ParseStream(CurrentKeys(), buffer.Contents())) && buffer.available < old(buffer.available)
              else
                ok == r.status.Running? && events == r.events
                && (ok ==> CurrentKeys() == r.keys && buffer.Contents() == r.rest)
    {
      hide Receive, React, ReactAll, ParseStream;
      ghost var keys, s := CurrentKeys(), buffer.Contents();
      ParseHead(keys, s);
      more, ok, events := false, true, [];
      assert Surroundings(peer, log) == ReactAll(side, log.options, past, Surroundings(peer, log), []) by { ReactNone(side, log.options, past, Surroundings(peer, log)); }
      var present := buffer.PeekData(HEADER);
      if !present {
        return;
      }
      var n := Load32(buffer.data, 0);
      HeadWord(buffer.data, buffer.available);
      if n < HEADER || n >= MAX_PACKET {
        ok := false;
        return;
      }
      present := buffer.PeekData(n);
      if !present {
        return;
      }
      assert s[..n] == buffer.data[..n];
      events := Receive(keys, s[..n]).events;
      ghost var tail := buffer.data[n..];
      assert tail[..buffer.available - n] == s[n..];
      more := OnFrame(n, peer, side, log);
      ok := more;
      if more {
        assert buffer.data[n..buffer.available] == tail[..buffer.available - n];
        FlushFrame(s);
      }
    }

    /** Flushes the frame at the head, by its own length field, read again after the callbacks. */
    method FlushFrame(ghost s: bytes)
      requires Valid() && |s| == buffer.available && HEADER <= |s| && HEADER <= U32(s) <= |s|
      requires buffer.data[..4] == s[..4] && buffer.data[U32(s)..buffer.available] == s[U32(s)..]
      modifies buffer`available, buffer.data
      ensures Valid() && buffer.Contents() == s[U32(s)..] && buffer.available < |s|
    {
      var n := Load32(buffer.data, 0);
      assert buffer.data[0..] == buffer.data[..] && buffer.data[..][..4] == s[..4];
      SameHeadWord(buffer.data[..], s);
      assert buffer.Contents()[n..] == buffer.data[n..buffer.available];
      buffer.FlushData(n);
    }

    /** The loop over complete frames. */
    method HandleFrames(peer: Connection, side: Side, log: PacketLog) returns (ok: bool)
      requires Paired(peer, log)
      requires !ParseStream(CurrentKeys(), buffer.Contents()).status.OutOfBounds?
      modifies this`haveKey, this`written, this`heard, key, buffer`available, buffer.data
      modifies peer`haveKey, peer`sequence, peer`written, peer.key, log`entries
      ensures Paired(peer, log)
      ensures var r := ParseStream(old(CurrentKeys()), old(buffer.Contents()));
              && ok == r.status.Running?
              && (ok ==> CurrentKeys() == r.keys && buffer.Contents() == r.rest)
              && heard == old(heard) + r.events
              && Surroundings(peer, log) == ReactAll(side, log.options, past, old(Surroundings(peer, log)), r.events)
    {
      hide ParseStream, React, ReactAll;
      ghost var total := ParseStream(CurrentKeys(), buffer.Contents());
      ghost var w0, heard0, done: seq<Event> := Surroundings(peer, log), heard, [];
      assert Prepend([], total) == total;
      ReactNone(side, log.options, past, w0);
      var more := true;
      ok := true;
      while more
        invariant Paired(peer, log) && heard == heard0 + done
        invariant Surroundings(peer, log) == ReactAll(side, log.options, past, w0, done)
        invariant more ==> Prepend(done, ParseStream(CurrentKeys(), buffer.Contents())) == total
        invariant !more ==> ok == total.status.Running? && done == total.events
        invariant !more && ok ==> CurrentKeys() == total.keys && buffer.Contents() == total.rest
        decreases more, buffer.available
      {
        ghost var before, events := done, [];
        more, ok, events := NextFrame(peer, side, log);
        ReactAllConcat(side, log.options, past, w0, before, events);
        done := before + events;
        PrependTwice(before, events, ParseStream(CurrentKeys(), buffer.Contents()));
      }
    }
  }

  lemma ReactNone(side: Side, opts: Options, past: bytes, w: World)
    requires |past| == 4
    ensures ReactAll(side, opts, past, w, []) == w
  {
  }

  /** The cases of the loop, on the bytes in the buffer. */
  lemma ParseHead(keys: Keys, s: bytes)
    ensures |s| < HEADER ==> ParseStream(keys, s) == Parse(Running, keys, s, [])
    ensures |s| >= HEADER ==>
              var n, r := U32(s), ParseStream(keys, s);
              if n < HEADER || n >= MAX_PACKET then r.status == Aborted && r.events == []
              else if |s| < n then r == Parse(Running, keys, s, [])
              else
                var step := Receive(keys, s[..n]);
                if step.status.Running? then r == Prepend(step.events, ParseStream(step.keys, s[n..]))
                else r.status == step.status && r.events == step.events
  {
    hide Receive;
  }

  lemma HeadWord(p: array<byte>, n: nat)
    requires 4 <= n <= p.Length
    ensures U32(p[0..]) == U32(p[..n])
  {
  }

  lemma SameHeadWord(a: bytes, b: bytes)
    requires 4 <= |a| && 4 <= |b| && a[..4] == b[..4]
    ensures U32(a) == U32(b)
  {
    assert forall i | 0 <= i < 4 :: a[i] == a[..4][i] && b[i] == b[..4][i];
  }

  /** Every frame is first shown raw. */
  lemma FirstEvent(side: Side, opts: Options, past: bytes, w: World, keys: Keys, f: Frame)
    requires |past| == 4
    ensures var events := Receive(keys, f).events;
            && events != [] && events[0] == RawPacket(f)
            && ReactAll(side, opts, past, w, events) ==
               ReactAll(side, opts, past, React(side, opts, past, w, RawPacket(f)), events[1..])
  {
    hide React, Opened, HeaderSumOk, DataSumOk;
  }

  lemma ReactOne(side: Side, opts: Options, past: bytes, w: World, e: Event)
    requires |past| == 4
    ensures ReactAll(side, opts, past, w, [e]) == React(side, opts, past, w, e)
  {
    hide React;
    assert [e][1..] == [];
  }

  lemma PacketFrameKeepsLength(f: Frame, key: Key, sequence: uint32)
    ensures PacketFrame(f, key, sequence)[..4] == f[..4]
  {
    var n := KeyNumber(sequence);
    SealedHeader(Stamp(f, FLAG_ENCRYPTED, n, sequence), KeyByte(key, n));
  }
}
