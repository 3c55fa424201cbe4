/** The numbers the proxy gives the packets it relays, over whole runs and through any change of key. */
module Numbering {
  import opened Bytes
  import opened Frames
  import opened Receiver
  import opened Sender
  import opened Relay
  import opened Proxy
  import opened Ledger

  function IfPacket(f: Frame): seq<Frame> {
    if f[4] == FLAG_ENCRYPTED then [f] else []
  }

  /** The packets in a stream of whole frames: no keys and no keepalive replies. */
  function Packets(s: bytes): seq<Frame>
    requires AllFrames(s)
    decreases |s|
  {
    if s == [] then [] else IfPacket(s[..U32(s)]) + Packets(s[U32(s)..])
  }

  /** Numbered from 1 on, 32 bits wide, each under the key octet its number calls for. */
  predicate Numbered(packets: seq<Frame>) {
    forall i | 0 <= i < |packets| ::
      && U32(packets[i][8..]) == (i + 1) % UINT32_RANGE
      && packets[i][7] == i % UINT32_RANGE % 10
  }

  /** What an outlet has written is numbered, and its next number continues. */
  predicate InOrder(o: Outlet) {
    && AllFrames(o.written) && Numbered(Packets(o.written))
    && o.sequence == SequenceAfter(1, |Packets(o.written)|)
  }

  lemma {:induction false} PacketOne(s: bytes, f: Frame)
    requires AllFrames(s) && IsFrame(f)
    ensures AllFrames(s + f) && Packets(s + f) == Packets(s) + IfPacket(f)
    decreases |s|
  {
    hide IfPacket, U32;
    WriteOne(s, f);
    if s == [] {
      assert s + f == f && f[|f|..] == [] && f[..|f|] == f;
      assert Packets(f) == IfPacket(f) + [];
    } else {
      var n := U32(s);
      HeadFrame(s, f, n);
      PacketOne(s[n..], f);
      assert Packets(s + f) == IfPacket(s[..n]) + Packets(s[n..] + f);
      assert IfPacket(s[..n]) + (Packets(s[n..]) + IfPacket(f)) == (IfPacket(s[..n]) + Packets(s[n..])) + IfPacket(f);
    }
  }

  lemma NumberOne(o: Outlet, f: Frame)
    requires InOrder(o) && IsFrame(f)
    ensures var w := PacketFrame(f, o.keys.key, o.sequence);
            InOrder(Outlet(o.keys, NextSequence(o.sequence), o.written + w))
  {
    var w := PacketFrame(f, o.keys.key, o.sequence);
    var n := |Packets(o.written)|;
    hide PacketFrame, AllFrames, Packets, IsFrame, IfPacket, U32, KeyNumber, Numbered, SequenceAfter, NextSequence;
    PacketHeader(f, o.keys.key, o.sequence);
    PacketOne(o.written, w);
    SequenceOfPacket(n);
    OneMoreNumbered(Packets(o.written), w);
    assert |Packets(o.written + w)| == n + 1;
    NextAfter(n);
  }

  lemma NextAfter(n: nat)
    ensures SequenceAfter(1, n + 1) == NextSequence(SequenceAfter(1, n))
  {
    SequenceWraps(1, n);
    SequenceWraps(1, n + 1);
    hide SequenceAfter;
    OneMoreWraps(1 + n);
  }

  lemma OneMoreWraps(x: nat)
    ensures (x % UINT32_RANGE + 1) % UINT32_RANGE == (x + 1) % UINT32_RANGE
  {
    var q, m := x / UINT32_RANGE, x % UINT32_RANGE;
    if m + 1 == UINT32_RANGE {
      QuotientOf(x + 1, UINT32_RANGE, q + 1, 0);
    } else {
      QuotientOf(x + 1, UINT32_RANGE, q, m + 1);
    }
  }

  lemma PacketHeader(f: Frame, key: Key, sequence: uint32)
    requires IsFrame(f)
    ensures var w := PacketFrame(f, key, sequence);
            && IsFrame(w) && IfPacket(w) == [w] && w[7] == KeyNumber(sequence) && U32(w[8..]) == sequence
  {
    hide PacketFrame, Receive, Opened, IsFrame, U32, KeyNumber;
    PacketReceived(f, Keys(key, true), sequence);
  }

  lemma OneMoreNumbered(packets: seq<Frame>, f: Frame)
    requires var n := |packets|; Numbered(packets) && U32(f[8..]) == (n + 1) % UINT32_RANGE && f[7] == n % UINT32_RANGE % 10
    ensures Numbered(packets + [f])
  {
    hide U32;
    var all := packets + [f];
    forall i | 0 <= i < |all|
      ensures U32(all[i][8..]) == (i + 1) % UINT32_RANGE && all[i][7] == i % UINT32_RANGE % 10
    {
      assert i < |packets| ==> all[i] == packets[i];
    }
  }

  /** A frame that is not a packet leaves the numbering alone. */
  lemma PassOver(o: Outlet, keys: Keys, f: Frame)
    requires InOrder(o) && IsFrame(f) && f[4] != FLAG_ENCRYPTED
    ensures InOrder(Outlet(keys, o.sequence, o.written + f))
  {
    hide AllFrames, Packets, IsFrame, Numbered;
    PacketOne(o.written, f);
    assert Packets(o.written) + [] == Packets(o.written);
  }

  predicate BothInOrder(w: World, sequence: uint32) {
    InOrder(w.peer) && InOrder(Outlet(NO_KEY, sequence, w.written))
  }

  lemma EventInOrder(side: Side, opts: Options, past: bytes, w: World, e: Event, sequence: uint32)
    requires |past| == 4 && BothInOrder(w, sequence) && (e.Packet? ==> IsFrame(e.frame))
    ensures BothInOrder(React(side, opts, past, w, e), sequence)
  {
    hide InOrder, PacketFrame, KeyFrame, ReplyFrame, IsFrame, Receive;
    match e
    case RawPacket(f) =>
    case NewKey(key) =>
      KeyReceived(key, NO_KEY);
      PassOver(w.peer, Keys(key, true), KeyFrame(key));
    case Packet(f) =>
      NumberOne(w.peer, f);
    case KeepaliveReply =>
      ReplyReceived(past, NO_KEY);
      PassOver(Outlet(NO_KEY, sequence, w.written), NO_KEY, ReplyFrame(past));
  }

  lemma {:induction false} EventsInOrder(side: Side, opts: Options, past: bytes, w: World, events: seq<Event>, keys: Keys,
                                         sequence: uint32)
    requires |past| == 4 && BothInOrder(w, sequence) && Orderly(keys, events)
    ensures BothInOrder(ReactAll(side, opts, past, w, events), sequence)
    decreases |events|
  {
    hide BothInOrder, React, IsFrame;
    if events != [] {
      var e := events[0];
      EventInOrder(side, opts, past, w, e, sequence);
      EventsInOrder(side, opts, past, React(side, opts, past, w, e), events[1..], FollowOne(keys, e), sequence);
    }
  }

  /** In every run, the packets relayed to either side carry the numbers 1, 2, 3 and so on, whatever else is sent between. */
  lemma {:induction false} RelayedInOrder(su: Setup, inputs: seq<Input>)
    requires SetupOk(su)
    ensures var p := Run(su, inputs); InOrder(p.remote.outlet) && InOrder(p.local.outlet)
    decreases |inputs|
  {
    hide ReactAll, ParseStream, AllFrames, Packets, Numbered;
    if inputs == [] {
      NothingWritten();
    } else {
      var before, i := inputs[..|inputs| - 1], inputs[|inputs| - 1];
      RelayedInOrder(su, before);
      var p := Run(su, before);
      if p.alive {
        StepInOrder(su, p, i);
      }
    }
  }

  lemma NothingWritten()
    ensures AllFrames([]) && Packets([]) == [] && Numbered([])
  {
  }

  lemma StepInOrder(su: Setup, p: State, i: Input)
    requires SetupOk(su) && InOrder(p.remote.outlet) && InOrder(p.local.outlet)
    ensures var q := Next(su, p, i); InOrder(q.remote.outlet) && InOrder(q.local.outlet)
  {
    hide ReactAll, ParseStream, AllFrames, Packets, Numbered;
    var side := if i.FromServer? then ServerSide else ClientSide;
    var past := if i.FromServer? then su.remotePast else su.localPast;
    var self, peer := if i.FromServer? then p.remote else p.local, if i.FromServer? then p.local else p.remote;
    var r := OnRead(self.outlet.keys, self.pending, i.chunk);
    if |self.pending| + |i.chunk| < BUFFER_SIZE {
      ParseOrderly(self.outlet.keys, self.pending + i.chunk);
    }
    EventsInOrder(side, su.options, past, World(self.outlet.written, peer.outlet, p.log), r.events, self.outlet.keys,
                  self.outlet.sequence);
  }
}
