/** The log as a ledger: what it says, direction by direction, against what was received and what was written. */
module Ledger {
  import opened Bytes
  import opened Frames
  import opened Receiver
  import opened Sender
  import opened Relay
  import opened Proxy
  import opened Replay

  function InDirection(log: seq<Entry>, d: Direction): seq<Frame> {
    if log == [] then []
    else (if log[0].direction == d then [log[0].frame] else []) + InDirection(log[1..], d)
  }

  /** A stream of whole frames, nothing left over. */
  predicate AllFrames(s: bytes)
    decreases |s|
  {
    s == [] || (HEADER <= |s| && HEADER <= U32(s) <= |s| && AllFrames(s[U32(s)..]))
  }

  /** A frame that is not the answer to a keepalive. */
  function NotReply(f: Frame): seq<Frame> {
    if f[4] == FLAG_ALIVE_REPLY then [] else [f]
  }

  /** The frames of a stream but for keepalive replies. */
  function Relayed(s: bytes): seq<Frame>
    requires AllFrames(s)
    decreases |s|
  {
    if s == [] then [] else NotReply(s[..U32(s)]) + Relayed(s[U32(s)..])
  }

  function When(on: bool, frames: seq<Frame>): seq<Frame> {
    if on then frames else []
  }

  /**
   * Every frame received is logged as it came, every frame written is logged as it left, each side in order and nothing
   * else; only keepalive replies are written without being logged.
   */
  ghost predicate Balanced(opts: Options, toServer: bytes, toClient: bytes, log: seq<Entry>,
                           fromServer: seq<Frame>, fromClient: seq<Frame>) {
    && AllFrames(toServer) && AllFrames(toClient)
    && InDirection(log, ServerToProxy) == When(opts.server, fromServer)
    && InDirection(log, ProxyToServer) == When(opts.server, Relayed(toServer))
    && InDirection(log, ClientToProxy) == When(opts.client, fromClient)
    && InDirection(log, ProxyToClient) == When(opts.client, Relayed(toClient))
  }

  lemma {:induction false} LogOne(log: seq<Entry>, e: Entry, d: Direction)
    ensures InDirection(log + [e], d) == InDirection(log, d) + if e.direction == d then [e.frame] else []
  {
    if log == [] {
      assert log + [e] == [e] && [e][1..] == [];
    } else {
      assert (log + [e])[1..] == log[1..] + [e];
      LogOne(log[1..], e, d);
    }
  }

  lemma LogEach(log: seq<Entry>, e: Entry)
    ensures forall d :: InDirection(log + [e], d) == InDirection(log, d) + if e.direction == d then [e.frame] else []
  {
    forall d {
      LogOne(log, e, d);
    }
  }

  lemma {:induction false} WriteOne(s: bytes, f: Frame)
    requires AllFrames(s) && IsFrame(f)
    ensures AllFrames(s + f) && Relayed(s + f) == Relayed(s) + NotReply(f)
    decreases |s|
  {
    hide NotReply, U32;
    if s == [] {
      assert s + f == f && f[|f|..] == [] && f[..|f|] == f;
      assert Relayed(f) == NotReply(f) + [];
    } else {
      var n := U32(s);
      HeadFrame(s, f, n);
      WriteOne(s[n..], f);
      assert Relayed(s + f) == NotReply(s[..n]) + Relayed(s[n..] + f);
      assert NotReply(s[..n]) + (Relayed(s[n..]) + NotReply(f)) == (NotReply(s[..n]) + Relayed(s[n..])) + NotReply(f);
    }
  }

  /** What a world of one side's callbacks means for both sides. */
  ghost predicate BalancedFor(side: Side, opts: Options, w: World, heard: seq<Frame>, other: seq<Frame>) {
    match side
    case ServerSide => Balanced(opts, w.written, w.peer.written, w.log, heard, other)
    case ClientSide => Balanced(opts, w.peer.written, w.written, w.log, other, heard)
  }

  lemma KeyIsNoReply(key: Key)
    ensures IsFrame(KeyFrame(key)) && NotReply(KeyFrame(key)) == [KeyFrame(key)]
  {
    hide KeyFrame, Receive, IsFrame;
    KeyReceived(key, NO_KEY);
  }

  lemma ReplyIsReply(past: bytes)
    requires |past| == 4
    ensures IsFrame(ReplyFrame(past)) && NotReply(ReplyFrame(past)) == []
  {
    hide ReplyFrame, Receive, IsFrame;
    ReplyReceived(past, NO_KEY);
  }

  lemma PacketIsNoReply(f: Frame, key: Key, sequence: uint32)
    requires IsFrame(f)
    ensures var g := PacketFrame(f, key, sequence); IsFrame(g) && NotReply(g) == [g]
  {
    hide PacketFrame, Receive, IsFrame, Opened;
    PacketReceived(f, Keys(key, true), sequence);
  }

  lemma LoggedBalanced(opts: Options, toServer: bytes, toClient: bytes, log: seq<Entry>, fromServer: seq<Frame>,
                       fromClient: seq<Frame>, d: Direction, f: Frame)
    requires Balanced(opts, toServer, toClient, log, fromServer, fromClient)
    requires d == ServerToProxy || d == ClientToProxy
    ensures d == ServerToProxy ==>
              Balanced(opts, toServer, toClient, if opts.server then log + [Entry(d, f)] else log, fromServer + [f], fromClient)
    ensures d == ClientToProxy ==>
              Balanced(opts, toServer, toClient, if opts.client then log + [Entry(d, f)] else log, fromServer, fromClient + [f])
  {
    hide AllFrames, Relayed, InDirection;
    LogEach(log, Entry(d, f));
  }

  lemma RelayedBalanced(opts: Options, toServer: bytes, toClient: bytes, log: seq<Entry>, fromServer: seq<Frame>,
                        fromClient: seq<Frame>, d: Direction, f: Frame)
    requires Balanced(opts, toServer, toClient, log, fromServer, fromClient)
    requires d == ProxyToServer || d == ProxyToClient
    requires IsFrame(f) && NotReply(f) == [f]
    ensures d == ProxyToServer ==>
              Balanced(opts, toServer + f, toClient, if opts.server then log + [Entry(d, f)] else log, fromServer, fromClient)
    ensures d == ProxyToClient ==>
              Balanced(opts, toServer, toClient + f, if opts.client then log + [Entry(d, f)] else log, fromServer, fromClient)
  {
    hide AllFrames, Relayed, InDirection, NotReply, IsFrame;
    LogEach(log, Entry(d, f));
    WriteOne(if d == ProxyToServer then toServer else toClient, f);
  }

  lemma RepliedBalanced(opts: Options, toServer: bytes, toClient: bytes, log: seq<Entry>, fromServer: seq<Frame>,
                        fromClient: seq<Frame>, f: Frame)
    requires Balanced(opts, toServer, toClient, log, fromServer, fromClient)
    requires IsFrame(f) && NotReply(f) == []
    ensures Balanced(opts, toServer + f, toClient, log, fromServer, fromClient)
    ensures Balanced(opts, toServer, toClient + f, log, fromServer, fromClient)
  {
    hide AllFrames, Relayed, InDirection, NotReply, IsFrame;
    WriteOne(toServer, f);
    WriteOne(toClient, f);
  }

  lemma EventBalanced(side: Side, opts: Options, past: bytes, w: World, e: Event, heard: seq<Frame>, other: seq<Frame>)
    requires |past| == 4 && BalancedFor(side, opts, w, heard, other)
    requires e.Packet? ==> IsFrame(e.frame)
    ensures BalancedFor(side, opts, React(side, opts, past, w, e), heard + RawFrames([e]), other)
  {
    hide Balanced, PacketFrame, KeyFrame, ReplyFrame, NotReply, IsFrame, RawFrames;
    OneEvent(e);
    assert heard + [] == heard;
    var toServer, toClient := if side == ServerSide then w.written else w.peer.written,
      if side == ServerSide then w.peer.written else w.written;
    var fromServer, fromClient := if side == ServerSide then heard else other, if side == ServerSide then other else heard;
    match e
    case RawPacket(f) =>
      LoggedBalanced(opts, toServer, toClient, w.log, fromServer, fromClient,
                     if side == ServerSide then ServerToProxy else ClientToProxy, f);
    case NewKey(key) =>
      if side == ServerSide {
        KeyIsNoReply(key);
        RelayedBalanced(opts, toServer, toClient, w.log, fromServer, fromClient, ProxyToClient, KeyFrame(key));
      }
    case Packet(f) =>
      PacketIsNoReply(f, w.peer.keys.key, w.peer.sequence);
      RelayedBalanced(opts, toServer, toClient, w.log, fromServer, fromClient,
                      if side == ServerSide then ProxyToClient else ProxyToServer,
                      PacketFrame(f, w.peer.keys.key, w.peer.sequence));
    case KeepaliveReply =>
      ReplyIsReply(past);
      RepliedBalanced(opts, toServer, toClient, w.log, fromServer, fromClient, ReplyFrame(past));
  }

  lemma {:induction false} EventsBalanced(side: Side, opts: Options, past: bytes, w: World, events: seq<Event>, keys: Keys,
                                          heard: seq<Frame>, other: seq<Frame>)
    requires |past| == 4 && BalancedFor(side, opts, w, heard, other) && Orderly(keys, events)
    ensures BalancedFor(side, opts, ReactAll(side, opts, past, w, events), heard + RawFrames(events), other)
    decreases |events|
  {
    hide BalancedFor, React, IsFrame;
    if events == [] {
      assert heard + [] == heard;
    } else {
      var e, rest := events[0], events[1..];
      assert [e] + rest == events;
      EventBalanced(side, opts, past, w, e, heard, other);
      EventsBalanced(side, opts, past, React(side, opts, past, w, e), rest, FollowOne(keys, e), heard + RawFrames([e]), other);
      RawFramesConcat([e], rest);
      assert (heard + RawFrames([e])) + RawFrames(rest) == heard + RawFrames(events);
    }
  }

  ghost predicate BooksBalance(opts: Options, p: State) {
    Balanced(opts, p.remote.outlet.written, p.local.outlet.written, p.log, RawFrames(p.remote.heard), RawFrames(p.local.heard))
  }

  lemma StepBalanced(su: Setup, p: State, i: Input)
    requires SetupOk(su) && BooksBalance(su.options, p)
    ensures BooksBalance(su.options, Next(su, p, i))
  {
    hide Balanced, ReactAll, ParseStream, RawFrames;
    var side := if i.FromServer? then ServerSide else ClientSide;
    var past := if i.FromServer? then su.remotePast else su.localPast;
    var self, peer := if i.FromServer? then p.remote else p.local, if i.FromServer? then p.local else p.remote;
    var r := OnRead(self.outlet.keys, self.pending, i.chunk);
    if |self.pending| + |i.chunk| < BUFFER_SIZE {
      ParseOrderly(self.outlet.keys, self.pending + i.chunk);
    }
    EventsBalanced(side, su.options, past, World(self.outlet.written, peer.outlet, p.log), r.events, self.outlet.keys,
                   RawFrames(self.heard), RawFrames(peer.heard));
    RawFramesConcat(self.heard, r.events);
  }

  /** In every run, whatever either side sends and however it ends, the log and the traffic agree in all four directions. */
  lemma {:induction false} LogBalancesRun(su: Setup, inputs: seq<Input>)
    requires SetupOk(su)
    ensures BooksBalance(su.options, Run(su, inputs))
    decreases |inputs|
  {
    if inputs != [] {
      var before := inputs[..|inputs| - 1];
      LogBalancesRun(su, before);
      hide BooksBalance, Next;
      if Run(su, before).alive {
        StepBalanced(su, Run(su, before), inputs[|inputs| - 1]);
      }
    }
  }
}
