/** Signs of life: what the proxy answers over whole runs, counted on the frames received and the bytes written. */
module Keepalives {
  import opened Bytes
  import opened Frames
  import opened Receiver
  import opened Sender
  import opened Relay
  import opened Proxy
  import opened Replay
  import opened Ledger

  /** How many of the frames ask for a sign of life. */
  function Requests(frames: seq<Frame>): nat {
    if frames == [] then 0 else (if IsRequest(frames[0]) then 1 else 0) + Requests(frames[1..])
  }

  function IfReply(f: Frame): seq<Frame> {
    if f[4] == FLAG_ALIVE_REPLY then [f] else []
  }

  /** The keepalive replies in a stream of whole frames. */
  function Replies(s: bytes): seq<Frame>
    requires AllFrames(s)
    decreases |s|
  {
    if s == [] then [] else IfReply(s[..U32(s)]) + Replies(s[U32(s)..])
  }

  function Copies(f: Frame, n: nat): (r: seq<Frame>)
    ensures |r| == n
  {
    seq(n, i requires 0 <= i < n => f)
  }

  /** How often the callbacks ask for an answer. */
  function Asked(events: seq<Event>): nat {
    if events == [] then 0 else (if events[0].KeepaliveReply? then 1 else 0) + Asked(events[1..])
  }

  lemma {:induction false} AskedConcat(a: seq<Event>, b: seq<Event>)
    ensures Asked(a + b) == Asked(a) + Asked(b)
  {
    if a == [] {
      assert a + b == b;
    } else {
      assert (a + b)[1..] == a[1..] + b;
      AskedConcat(a[1..], b);
    }
  }

  lemma {:induction false} RequestsConcat(a: seq<Frame>, b: seq<Frame>)
    ensures Requests(a + b) == Requests(a) + Requests(b)
  {
    if a == [] {
      assert a + b == b;
    } else {
      assert (a + b)[1..] == a[1..] + b;
      RequestsConcat(a[1..], b);
    }
  }

  lemma {:induction false} ReplyOne(s: bytes, f: Frame)
    requires AllFrames(s) && IsFrame(f)
    ensures AllFrames(s + f) && Replies(s + f) == Replies(s) + IfReply(f)
    decreases |s|
  {
    hide IfReply, U32;
    WriteOne(s, f);
    if s == [] {
      assert s + f == f && f[|f|..] == [] && f[..|f|] == f;
      assert Replies(f) == IfReply(f) + [];
    } else {
      var n := U32(s);
      HeadFrame(s, f, n);
      ReplyOne(s[n..], f);
      assert Replies(s + f) == IfReply(s[..n]) + Replies(s[n..] + f);
      assert IfReply(s[..n]) + (Replies(s[n..]) + IfReply(f)) == (IfReply(s[..n]) + Replies(s[n..])) + IfReply(f);
    }
  }

  // ---------- from frames to callbacks ----------

  lemma FrameAsks(keys: Keys, f: Frame)
    ensures var events := Receive(keys, f).events; Asked(events) == Requests(RawFrames(events))
  {
    ReceivedExactly(keys, f);
    OnlyOneRaw(keys, f);
    var events := Receive(keys, f).events;
    hide Receive, IsRequest, RawFrames, Asked, Requests;
    assert events[0] == events[..1][0] == RawPacket(f);
    AskedOne(f);
    if |events| == 2 {
      assert events == [RawPacket(f), events[1]];
      TwoEvents(RawPacket(f), events[1]);
      AskedTwo(f, events[1]);
    } else {
      assert events == [RawPacket(f)];
      OneEvent(RawPacket(f));
    }
  }

  lemma AskedOne(f: Frame)
    ensures Asked([RawPacket(f)]) == 0 && Requests([f]) == if IsRequest(f) then 1 else 0
  {
    assert [RawPacket(f)][1..] == [] && [f][1..] == [];
  }

  lemma AskedTwo(f: Frame, e: Event)
    ensures Asked([RawPacket(f), e]) == if e == KeepaliveReply then 1 else 0
  {
    assert [RawPacket(f), e][1..] == [e] && [e][1..] == [];
    assert Asked([RawPacket(f), e]) == Asked([e]) == (if e.KeepaliveReply? then 1 else 0) + Asked([]);
  }

  lemma OnlyOneRaw(keys: Keys, f: Frame)
    ensures var events := Receive(keys, f).events; |events| == 2 ==> !events[1].RawPacket?
  {
    hide HeaderSumOk, DataSumOk, Opened, KeyFromData;
  }

  lemma {:induction false} StreamAsks(keys: Keys, s: bytes)
    ensures var events := ParseStream(keys, s).events; Asked(events) == Requests(RawFrames(events))
    decreases |s|
  {
    hide Receive, Requests, Asked;
    if |s| >= HEADER && HEADER <= U32(s) < MAX_PACKET && U32(s) <= |s| {
      var n := U32(s);
      var step := Receive(keys, s[..n]);
      FrameAsks(keys, s[..n]);
      if step.status.Running? {
        var rest := ParseStream(step.keys, s[n..]).events;
        StreamAsks(step.keys, s[n..]);
        AskedConcat(step.events, rest);
        RawFramesConcat(step.events, rest);
        RequestsConcat(RawFrames(step.events), RawFrames(rest));
      }
    } else {
      assert Asked([]) == Requests([]) by { NothingAsked(); }
    }
  }

  lemma NothingAsked()
    ensures Asked([]) == 0 && Requests([]) == 0
  {
  }

  // ---------- from callbacks to writes ----------

  predicate WholeWrites(w: World) {
    AllFrames(w.written) && AllFrames(w.peer.written)
  }

  lemma EventAnswered(side: Side, opts: Options, past: bytes, w: World, e: Event)
    requires |past| == 4 && WholeWrites(w) && (e.Packet? ==> IsFrame(e.frame))
    ensures var w' := React(side, opts, past, w, e);
            && WholeWrites(w') && Replies(w'.peer.written) == Replies(w.peer.written)
            && Replies(w'.written) == Replies(w.written) + if e.KeepaliveReply? then [ReplyFrame(past)] else []
  {
    hide AllFrames, Replies, PacketFrame, KeyFrame, ReplyFrame, IsFrame, NotReply;
    match e
    case RawPacket(f) =>
    case NewKey(key) =>
      KeyIsNoReply(key);
      NoReply(KeyFrame(key));
      ReplyOne(w.peer.written, KeyFrame(key));
    case Packet(f) =>
      var g := PacketFrame(f, w.peer.keys.key, w.peer.sequence);
      PacketIsNoReply(f, w.peer.keys.key, w.peer.sequence);
      NoReply(g);
      ReplyOne(w.peer.written, g);
    case KeepaliveReply =>
      ReplyIsReply(past);
      NoReply(ReplyFrame(past));
      ReplyOne(w.written, ReplyFrame(past));
  }

  lemma NoReply(f: Frame)
    ensures NotReply(f) == [f] ==> IfReply(f) == []
    ensures NotReply(f) == [] ==> IfReply(f) == [f]
  {
  }

  lemma {:induction false} EventsAnswered(side: Side, opts: Options, past: bytes, w: World, events: seq<Event>, keys: Keys)
    requires |past| == 4 && WholeWrites(w) && Orderly(keys, events)
    ensures var w' := ReactAll(side, opts, past, w, events);
            && WholeWrites(w') && Replies(w'.peer.written) == Replies(w.peer.written)
            && Replies(w'.written) == Replies(w.written) + Copies(ReplyFrame(past), Asked(events))
    decreases |events|
  {
    hide React, IsFrame, Replies, AllFrames, ReplyFrame;
    if events == [] {
      assert Copies(ReplyFrame(past), 0) == [];
    } else {
      var e, rest := events[0], events[1..];
      EventAnswered(side, opts, past, w, e);
      EventsAnswered(side, opts, past, React(side, opts, past, w, e), rest, FollowOne(keys, e));
      if e.KeepaliveReply? {
        assert [ReplyFrame(past)] + Copies(ReplyFrame(past), Asked(rest)) == Copies(ReplyFrame(past), Asked(events));
      }
    }
  }

  // ---------- whole runs ----------

  /** Each side has been sent one reply, and always the same one, for every request it has made. */
  ghost predicate Answered(su: Setup, p: State)
    requires SetupOk(su)
  {
    && AllFrames(p.remote.outlet.written) && AllFrames(p.local.outlet.written)
    && Replies(p.remote.outlet.written) == Copies(ReplyFrame(su.remotePast), Requests(RawFrames(p.remote.heard)))
    && Replies(p.local.outlet.written) == Copies(ReplyFrame(su.localPast), Requests(RawFrames(p.local.heard)))
  }

  lemma StepAnswered(su: Setup, p: State, i: Input)
    requires SetupOk(su) && Answered(su, p)
    ensures Answered(su, Next(su, p, i))
  {
    hide ReactAll, ParseStream, RawFrames, Requests, Replies, ReplyFrame, AllFrames, Copies;
    var side := if i.FromServer? then ServerSide else ClientSide;
    var past := if i.FromServer? then su.remotePast else su.localPast;
    var self, peer := if i.FromServer? then p.remote else p.local, if i.FromServer? then p.local else p.remote;
    var r := OnRead(self.outlet.keys, self.pending, i.chunk);
    if |self.pending| + |i.chunk| < BUFFER_SIZE {
      ParseOrderly(self.outlet.keys, self.pending + i.chunk);
      StreamAsks(self.outlet.keys, self.pending + i.chunk);
    } else {
      NothingAsked();
      NothingReplayed(false, self.outlet.keys);
    }
    EventsAnswered(side, su.options, past, World(self.outlet.written, peer.outlet, p.log), r.events, self.outlet.keys);
    RawFramesConcat(self.heard, r.events);
    RequestsConcat(RawFrames(self.heard), RawFrames(r.events));
    CopiesAdd(ReplyFrame(past), Requests(RawFrames(self.heard)), Requests(RawFrames(r.events)));
  }

  lemma CopiesAdd(f: Frame, m: nat, n: nat)
    ensures Copies(f, m) + Copies(f, n) == Copies(f, m + n)
  {
  }

  /**
   * In every run each side gets exactly one keepalive reply for each frame it has sent that asks for one (no key, good
   * header checksum, request bit set), and no other frame flagged as a reply.
   */
  lemma {:induction false} RequestsAnswered(su: Setup, inputs: seq<Input>)
    requires SetupOk(su)
    ensures var p := Run(su, inputs);
            && Answered(su, p)
            && |Replies(p.remote.outlet.written)| == Requests(RawFrames(p.remote.heard))
            && |Replies(p.local.outlet.written)| == Requests(RawFrames(p.local.heard))
    decreases |inputs|
  {
    if inputs != [] {
      var before := inputs[..|inputs| - 1];
      RequestsAnswered(su, before);
      hide Next, RawFrames, Replies, AllFrames, Requests, Copies;
      if Run(su, before).alive {
        StepAnswered(su, Run(su, before), inputs[|inputs| - 1]);
      }
    } else {
      assert Copies(ReplyFrame(su.remotePast), 0) == [] && Copies(ReplyFrame(su.localPast), 0) == [];
    }
  }
}
