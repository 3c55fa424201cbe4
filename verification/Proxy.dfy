/** The proxy as a step system: reads arrive from either side in any order. */
module Proxy {
  import opened Bytes
  import opened Frames
  import opened Receiver
  import opened Sender
  import opened Relay

  /** One connection of the proxy, with the callbacks it has made. */
  datatype Half = Half(outlet: Outlet, pending: bytes, heard: seq<Event>)

  datatype State = State(local: Half, remote: Half, log: seq<Entry>, alive: bool)

  datatype Input = FromServer(chunk: bytes) | FromClient(chunk: bytes)

  /** What does not change during a run: what is logged, and what lies behind each side's keepalive reply. */
  datatype Setup = Setup(options: Options, localPast: bytes, remotePast: bytes)

  predicate SetupOk(su: Setup) {
    |su.localPast| == 4 && |su.remotePast| == 4
  }

  const NO_KEY: Keys := Keys([0, 0, 0, 0, 0, 0, 0, 0, 0, 0], false)

  const FRESH: Half := Half(Outlet(NO_KEY, 1, []), [], [])

  const INITIAL: State := State(FRESH, FRESH, [], true)

  /** The half that has just read, and what its callbacks did to the other one and to the log. */
  function HalfRead(side: Side, opts: Options, past: bytes, self: Half, peer: Half, log: seq<Entry>, chunk: bytes)
    : (Half, Half, seq<Entry>, bool)
    requires |past| == 4
  {
    var r := OnRead(self.outlet.keys, self.pending, chunk);
    var w := ReactAll(side, opts, past, World(self.outlet.written, peer.outlet, log), r.events);
    (Half(Outlet(r.keys, self.outlet.sequence, w.written), r.rest, self.heard + r.events),
     peer.(outlet := w.peer), w.log, r.status.Running?)
  }

  function Next(su: Setup, p: State, i: Input): State
    requires SetupOk(su)
  {
    match i
    case FromServer(chunk) =>
      var (remote, local, log, alive) := HalfRead(ServerSide, su.options, su.remotePast, p.remote, p.local, p.log, chunk);
      State(local, remote, log, alive)
    case FromClient(chunk) =>
      var (local, remote, log, alive) := HalfRead(ClientSide, su.options, su.localPast, p.local, p.remote, p.log, chunk);
      State(local, remote, log, alive)
  }

  /** A run ends with the first event that fails: the connection is then closed. */
  function Run(su: Setup, inputs: seq<Input>): State
    requires SetupOk(su)
    decreases |inputs|
  {
    if inputs == [] then INITIAL
    else
      var p := Run(su, inputs[..|inputs| - 1]);
      if p.alive then Next(su, p, inputs[|inputs| - 1]) else p
  }

  // ---------- keys as events tell them ----------

  function FollowOne(keys: Keys, e: Event): Keys {
    if e.NewKey? then Keys(e.key, true) else keys
  }

  function Follow(keys: Keys, events: seq<Event>): Keys
    decreases |events|
  {
    if events == [] then keys else Follow(FollowOne(keys, events[0]), events[1..])
  }

  /** Packets are only handed over under a key, and are whole frames of legal size. */
  predicate Orderly(keys: Keys, events: seq<Event>)
    decreases |events|
  {
    events == [] || (
      && (events[0].Packet? ==> keys.have && IsFrame(events[0].frame) && |events[0].frame| < MAX_PACKET)
      && Orderly(FollowOne(keys, events[0]), events[1..]))
  }

  lemma {:induction false} FollowConcat(keys: Keys, a: seq<Event>, b: seq<Event>)
    ensures Follow(keys, a + b) == Follow(Follow(keys, a), b)
    ensures Orderly(keys, a + b) == (Orderly(keys, a) && Orderly(Follow(keys, a), b))
    decreases |a|
  {
    if a == [] {
      assert a + b == b;
    } else {
      assert (a + b)[1..] == a[1..] + b;
      FollowConcat(FollowOne(keys, a[0]), a[1..], b);
    }
  }

  lemma FollowTwo(keys: Keys, a: Event, b: Event)
    requires a.RawPacket?
    ensures Follow(keys, [a, b]) == FollowOne(keys, b)
    ensures Orderly(keys, [a, b]) == (b.Packet? ==> keys.have && IsFrame(b.frame) && |b.frame| < MAX_PACKET)
  {
    assert [a, b][1..] == [b] && [b][1..] == [];
    assert Follow(keys, [a, b]) == Follow(keys, [b]) == Follow(FollowOne(keys, b), []);
    assert Orderly(FollowOne(keys, b), []) && Orderly(keys, [a, b]) == Orderly(keys, [b]);
  }

  lemma ReceiveOrderly(keys: Keys, f: bytes)
    requires IsFrame(f) && |f| < MAX_PACKET
    ensures var step := Receive(keys, f); Orderly(keys, step.events) && step.keys == Follow(keys, step.events)
  {
    var step := Receive(keys, f);
    if |step.events| == 2 && step.events[1].Packet? {
      var g := step.events[1].frame;
      assert g[..4] == g[..HEADER][..4] == f[..HEADER][..4] == f[..4];
      assert forall i | 0 <= i < 4 :: g[i] == g[..4][i] && f[i] == f[..4][i];
    }
    if |step.events| == 2 {
      FollowTwo(keys, step.events[0], step.events[1]);
      assert step.events == [step.events[0], step.events[1]];
    } else {
      assert step.events == [RawPacket(f)] && step.events[1..] == [];
    }
  }

  lemma {:induction false} ParseOrderly(keys: Keys, s: bytes)
    ensures var p := ParseStream(keys, s); Orderly(keys, p.events) && p.keys == Follow(keys, p.events)
    decreases |s|
  {
    hide Receive;
    if |s| >= HEADER && HEADER <= U32(s) < MAX_PACKET && U32(s) <= |s| {
      var n := U32(s);
      HeadFrame(s[..n], s[n..], n);
      assert s[..n] + s[n..] == s;
      ReceiveOrderly(keys, s[..n]);
      var step := Receive(keys, s[..n]);
      if step.status.Running? {
        ParseOrderly(step.keys, s[n..]);
        FollowConcat(keys, step.events, ParseStream(step.keys, s[n..]).events);
      }
    }
  }

  // ---------- what the client makes of it ----------

  /** The client, fed all that was written to it, has heard exactly `told`, and holds the server's key. */
  ghost predicate InStep(written: bytes, localKeys: Keys, serverKeys: Keys, told: seq<Delivery>) {
    var c := ParseStream(NO_KEY, written);
    && c.status.Running? && c.rest == []
    && Deliveries(c.events) == told
    && (serverKeys.have ==> localKeys == serverKeys == c.keys)
  }

  lemma OneMoreFrame(written: bytes, w: bytes, before: seq<Delivery>)
    requires var c := ParseStream(NO_KEY, written); c.status.Running? && c.rest == [] && Deliveries(c.events) == before
    requires IsFrame(w) && |w| < MAX_PACKET && Receive(ParseStream(NO_KEY, written).keys, w).status.Running?
    ensures var step := Receive(ParseStream(NO_KEY, written).keys, w);
            var c := ParseStream(NO_KEY, written + w);
            && c.status.Running? && c.rest == [] && c.keys == step.keys
            && Deliveries(c.events) == before + Deliveries(step.events)
  {
    hide Receive, ParseStream;
    var c := ParseStream(NO_KEY, written);
    ParseOneMore(NO_KEY, written, w);
    DeliveriesConcat(c.events, Receive(c.keys, w).events);
  }

  lemma DeliveriesOfTwo(f: Frame, e: Event)
    ensures Deliveries([RawPacket(f), e]) == Deliveries([e])
  {
    assert [RawPacket(f), e][1..] == [e];
  }

  /** One event from the server side keeps the client in step. */
  lemma ServerEvent(opts: Options, past: bytes, w: World, e: Event, keys: Keys, told: seq<Delivery>)
    requires |past| == 4 && Orderly(keys, [e])
    requires InStep(w.peer.written, w.peer.keys, keys, told)
    ensures var w' := React(ServerSide, opts, past, w, e);
            InStep(w'.peer.written, w'.peer.keys, Follow(keys, [e]), told + Deliveries([e]))
  {
    var c := ParseStream(NO_KEY, w.peer.written);
    assert [e][1..] == [];
    match e
    case NewKey(key) =>
      KeyReceived(key, c.keys);
      hide Receive, KeyFrame, ParseStream;
      OneMoreFrame(w.peer.written, KeyFrame(key), told);
      DeliveriesOfTwo(KeyFrame(key), e);
    case Packet(f) =>
      var g := PacketFrame(f, w.peer.keys.key, w.peer.sequence);
      PacketReceived(f, c.keys, w.peer.sequence);
      var plain := Receive(c.keys, g).events[1];
      hide Receive, PacketFrame, ParseStream;
      OneMoreFrame(w.peer.written, g, told);
      DeliveriesOfTwo(g, plain);
      assert [plain][1..] == [] && Deliveries([plain]) == Deliveries([e]);
    case _ =>
      assert told + [] == told;
  }

  lemma {:induction false} ServerEvents(opts: Options, past: bytes, w: World, events: seq<Event>, keys: Keys, told: seq<Delivery>)
    requires |past| == 4 && Orderly(keys, events)
    requires InStep(w.peer.written, w.peer.keys, keys, told)
    ensures var w' := ReactAll(ServerSide, opts, past, w, events);
            InStep(w'.peer.written, w'.peer.keys, Follow(keys, events), told + Deliveries(events))
    decreases |events|
  {
    hide InStep, React;
    if events == [] {
      assert told + [] == told;
    } else {
      var e, rest := events[0], events[1..];
      assert events == [e] + rest;
      FollowConcat(keys, [e], rest);
      ServerEvent(opts, past, w, e, keys, told);
      ServerEvents(opts, past, React(ServerSide, opts, past, w, e), rest, Follow(keys, [e]), told + Deliveries([e]));
      DeliveriesConcat([e], rest);
      assert told + Deliveries([e]) + Deliveries(rest) == told + Deliveries(events);
    }
  }

  predicate NoKeys(events: seq<Event>) {
    forall e :: e in events ==> !e.NewKey?
  }

  lemma {:induction false} NoKeysKept(keys: Keys, events: seq<Event>)
    requires NoKeys(events)
    ensures Follow(keys, events) == keys
    decreases |events|
  {
    if events != [] {
      assert events[0] in events;
      NoKeysKept(keys, events[1..]);
    }
  }

  /** Events from the client only ever add keepalive replies to what the client is written. */
  lemma {:induction false} ClientEvents(opts: Options, past: bytes, w: World, events: seq<Event>, local: Keys, keys: Keys, told: seq<Delivery>)
    requires |past| == 4
    requires InStep(w.written, local, keys, told)
    ensures var w' := ReactAll(ClientSide, opts, past, w, events);
            InStep(w'.written, local, keys, told) && w'.peer.keys == w.peer.keys
    decreases |events|
  {
    if events != [] {
      var e, rest := events[0], events[1..];
      var w' := React(ClientSide, opts, past, w, e);
      if e.KeepaliveReply? {
        var c := ParseStream(NO_KEY, w.written);
        ReplyReceived(past, c.keys);
        hide Receive, ReplyFrame, ParseStream;
        OneMoreFrame(w.written, ReplyFrame(past), told);
        assert Deliveries([RawPacket(ReplyFrame(past))]) == [] by { assert [RawPacket(ReplyFrame(past))][1..] == []; }
        assert told + [] == told;
      }
      assert InStep(w'.written, local, keys, told);
      hide InStep, React;
      ClientEvents(opts, past, w', rest, local, keys, told);
    }
  }

  /** What holds after every prefix of a run in which the client sends no key. */
  ghost predicate Faithful(p: State) {
    InStep(p.local.outlet.written, p.local.outlet.keys, p.remote.outlet.keys, Deliveries(p.remote.heard))
  }

  lemma FaithfulServerStep(su: Setup, p: State, chunk: bytes)
    requires SetupOk(su) && Faithful(p)
    ensures Faithful(Next(su, p, FromServer(chunk)))
  {
    hide InStep, ReactAll, ParseStream;
    var keys := p.remote.outlet.keys;
    var r := OnRead(keys, p.remote.pending, chunk);
    ParseOrderly(keys, p.remote.pending + chunk);
    ServerEvents(su.options, su.remotePast, World(p.remote.outlet.written, p.local.outlet, p.log), r.events,
      keys, Deliveries(p.remote.heard));
    DeliveriesConcat(p.remote.heard, r.events);
  }

  lemma FaithfulClientStep(su: Setup, p: State, chunk: bytes)
    requires SetupOk(su) && Faithful(p)
    requires NoKeys(OnRead(p.local.outlet.keys, p.local.pending, chunk).events)
    ensures Faithful(Next(su, p, FromClient(chunk)))
  {
    hide InStep, ReactAll, ParseStream;
    var keys := p.local.outlet.keys;
    var r := OnRead(keys, p.local.pending, chunk);
    ParseOrderly(keys, p.local.pending + chunk);
    NoKeysKept(keys, r.events);
    ClientEvents(su.options, su.localPast, World(p.local.outlet.written, p.remote.outlet, p.log), r.events,
      keys, p.remote.outlet.keys, Deliveries(p.remote.heard));
  }

  /**
   * In every run in which the client sends no key, whatever the interleaving and however often the server
   * changes the key: the client hears exactly the keys and payloads the proxy accepted, in order.
   */
  lemma {:induction false} ServerReachesClient(su: Setup, inputs: seq<Input>)
    requires SetupOk(su) && NoKeys(Run(su, inputs).local.heard)
    ensures Faithful(Run(su, inputs))
    decreases |inputs|
  {
    hide ReactAll;
    if inputs == [] {
      assert ParseStream(NO_KEY, []) == Parse(Running, NO_KEY, [], []);
    } else {
      var before, i := inputs[..|inputs| - 1], inputs[|inputs| - 1];
      var p, q := Run(su, before), Run(su, inputs);
      assert p.local.heard <= q.local.heard;
      forall e | e in p.local.heard
        ensures !e.NewKey?
      {
        assert e in q.local.heard;
      }
      ServerReachesClient(su, before);
      if p.alive {
        hide Faithful, ParseStream;
        match i
        case FromServer(chunk) => FaithfulServerStep(su, p, chunk);
        case FromClient(chunk) =>
          var r := OnRead(p.local.outlet.keys, p.local.pending, chunk);
          assert q.local.heard == p.local.heard + r.events;
          FaithfulClientStep(su, p, chunk);
      }
    }
  }

  /** As long as the client sends no key, both connections hold the server's latest key. */
  lemma KeysStayEqual(su: Setup, inputs: seq<Input>)
    requires SetupOk(su) && NoKeys(Run(su, inputs).local.heard)
    ensures var p := Run(su, inputs); p.remote.outlet.keys.have ==> p.local.outlet.keys == p.remote.outlet.keys
  {
    ServerReachesClient(su, inputs);
  }

  /** A key from the client replaces the local one, so the two connections agree only if it is the server's own. */
  lemma ClientKeySplitsKeys(su: Setup, p: State, key: Key)
    requires SetupOk(su) && p.local.pending == []
    ensures var q := Next(su, p, FromClient(KeyFrame(key)));
            && q.alive && q.remote.outlet.keys == p.remote.outlet.keys
            && (q.local.outlet.keys == q.remote.outlet.keys <==> p.remote.outlet.keys == Keys(key, true))
  {
    var f, keys := KeyFrame(key), p.local.outlet.keys;
    KeyReceived(key, keys);
    assert [] + f == f && f[..22] == f && f[22..] == [];
    var step := Receive(keys, f);
    assert ParseStream(step.keys, []) == Parse(Running, step.keys, [], []);
    assert OnRead(keys, [], f) == Parse(Running, Keys(key, true), [], step.events + []);
    ClientLeavesServerKey(su.options, su.localPast, World(p.local.outlet.written, p.remote.outlet, p.log), step.events + []);
  }

  lemma {:induction false} ClientLeavesServerKey(opts: Options, past: bytes, w: World, events: seq<Event>)
    requires |past| == 4
    ensures ReactAll(ClientSide, opts, past, w, events).peer.keys == w.peer.keys
    decreases |events|
  {
    if events != [] {
      var w' := React(ClientSide, opts, past, w, events[0]);
      assert w'.peer.keys == w.peer.keys;
      hide React;
      ClientLeavesServerKey(opts, past, w', events[1..]);
    }
  }

  // ---------- what the proxy hears is what the server sent ----------

  function ServerBytes(inputs: seq<Input>): bytes
    decreases |inputs|
  {
    if inputs == [] then []
    else
      var i := inputs[|inputs| - 1];
      ServerBytes(inputs[..|inputs| - 1]) + if i.FromServer? then i.chunk else []
  }

  predicate LegalReads(inputs: seq<Input>) {
    forall i :: i in inputs ==> 1 <= |i.chunk| <= MAX_PACKET
  }

  /**
   * The callbacks of the server's connection are those of parsing all that the server has sent as one stream:
   * all of them while the run lives, the first of them once it has ended.
   */
  lemma {:induction false} ProxyHearsServer(su: Setup, inputs: seq<Input>)
    requires SetupOk(su) && LegalReads(inputs)
    ensures var p, whole := Run(su, inputs), ParseStream(NO_KEY, ServerBytes(inputs));
            && p.remote.heard <= whole.events
            && (p.alive ==> whole == Parse(Running, p.remote.outlet.keys, p.remote.pending, p.remote.heard))
    decreases |inputs|
  {
    if inputs == [] {
      assert ParseStream(NO_KEY, []) == Parse(Running, NO_KEY, [], []);
    } else {
      var before, i := inputs[..|inputs| - 1], inputs[|inputs| - 1];
      assert i in inputs;
      ProxyHearsServer(su, before);
      var p, s := Run(su, before), ServerBytes(before);
      var more := if i.FromServer? then i.chunk else [];
      ParseContinues(NO_KEY, s, more);
      if p.alive && i.FromServer? {
        RestParses(NO_KEY, s);
        BufferNeverFull(p.remote.outlet.keys, p.remote.pending, i.chunk);
        hide ReactAll, ParseStream;
      } else if p.alive {
        assert s + [] == s;
        ClientLeavesServerKey(su.options, su.localPast, World(p.local.outlet.written, p.remote.outlet, p.log),
          OnRead(p.local.outlet.keys, p.local.pending, i.chunk).events);
        hide ReactAll, ParseStream;
      }
    }
  }

  /** End to end: while the run lives and the client sends no key, the client has heard all of the server's stream. */
  lemma ClientHearsServer(su: Setup, inputs: seq<Input>)
    requires SetupOk(su) && LegalReads(inputs) && NoKeys(Run(su, inputs).local.heard)
    ensures var p := Run(su, inputs);
            var client := ParseStream(NO_KEY, p.local.outlet.written);
            var server := ParseStream(NO_KEY, ServerBytes(inputs));
            && client.status.Running? && client.rest == []
            && Deliveries(client.events) <= Deliveries(server.events)
            && (p.alive ==> Deliveries(client.events) == Deliveries(server.events))
  {
    var p := Run(su, inputs);
    var server := ParseStream(NO_KEY, ServerBytes(inputs));
    hide ParseStream, Run;
    ServerReachesClient(su, inputs);
    ProxyHearsServer(su, inputs);
    assert server.events == p.remote.heard + server.events[|p.remote.heard|..];
    DeliveriesConcat(p.remote.heard, server.events[|p.remote.heard|..]);
  }
}
