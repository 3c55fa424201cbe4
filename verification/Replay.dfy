/** What the dump tool recovers from logged frames, and that it is what the proxy handed on. */
module Replay {
  import opened Bytes
  import opened Frames
  import opened Receiver
  import opened Sender
  import opened Relay
  import opened Proxy

  /** A deciphered frame as shown: was a key known, and did both checksums hold? */
  datatype Shown = Shown(payload: bytes, underKey: bool, sound: bool)

  datatype Progress =
    | Going
    | WrongKeySize   // the tool exits
    | BadKeyNumber   // a read past the key
    | TooLong        // the tool aborts on an impossible length

  datatype Analysis = Analysis(progress: Progress, keys: Keys, shown: seq<Shown>)

  predicate IsKeepalive(flag: byte) { HasAliveRequest(flag) || HasAliveReply(flag) }

  /** One frame; `keepalives` is the option to look at keepalive frames too. */
  function AnalyzeFrame(keepalives: bool, keys: Keys, f: Frame): Analysis {
    if IsKeepalive(f[4]) && !keepalives then Analysis(Going, keys, [])
    else if HasKey(f[4]) then
      if |f| != HEADER + KEY_LENGTH then Analysis(WrongKeySize, keys, [])
      else Analysis(Going, Keys(KeyFromData(Payload(f)), true), [])
    else if f[4] != FLAG_ENCRYPTED then Analysis(Going, keys, [])
    else if !KeyNumberOk(f[7]) then Analysis(BadKeyNumber, keys, [])
    else
      var k := KeyByte(keys.key, f[7]);
      Analysis(Going, keys, [Shown(Payload(Opened(f, k)), keys.have, Sound(f, k))])
  }

  function After(shown: seq<Shown>, a: Analysis): Analysis {
    a.(shown := shown + a.shown)
  }

  function Analyze(keepalives: bool, keys: Keys, frames: seq<Frame>): Analysis
    decreases |frames|
  {
    if frames == [] then Analysis(Going, keys, [])
    else
      var a := AnalyzeFrame(keepalives, keys, frames[0]);
      if !a.progress.Going? then a else After(a.shown, Analyze(keepalives, a.keys, frames[1..]))
  }

  lemma {:induction false} AnalyzeConcat(keepalives: bool, keys: Keys, a: seq<Frame>, b: seq<Frame>)
    ensures var first := Analyze(keepalives, keys, a);
            Analyze(keepalives, keys, a + b) ==
            if first.progress.Going? then After(first.shown, Analyze(keepalives, first.keys, b)) else first
    decreases |a|
  {
    hide AnalyzeFrame;
    if a == [] {
      assert a + b == b;
      assert [] + Analyze(keepalives, keys, b).shown == Analyze(keepalives, keys, b).shown;
    } else {
      assert (a + b)[1..] == a[1..] + b;
      var one := AnalyzeFrame(keepalives, keys, a[0]);
      if one.progress.Going? {
        AnalyzeConcat(keepalives, one.keys, a[1..], b);
        var two := Analyze(keepalives, one.keys, a[1..]);
        var three := Analyze(keepalives, two.keys, b);
        assert one.shown + (two.shown + three.shown) == (one.shown + two.shown) + three.shown;
      }
    }
  }

  /** What was shown once a key was known. */
  function UnderKey(shown: seq<Shown>): seq<Shown> {
    if shown == [] then [] else (if shown[0].underKey then [shown[0]] else []) + UnderKey(shown[1..])
  }

  lemma {:induction false} UnderKeyConcat(a: seq<Shown>, b: seq<Shown>)
    ensures UnderKey(a + b) == UnderKey(a) + UnderKey(b)
  {
    if a == [] {
      assert a + b == b;
    } else {
      assert (a + b)[1..] == a[1..] + b;
      UnderKeyConcat(a[1..], b);
      var head := if a[0].underKey then [a[0]] else [];
      assert head + (UnderKey(a[1..]) + UnderKey(b)) == (head + UnderKey(a[1..])) + UnderKey(b);
    }
  }

  // ---------- the log of a run ----------

  function FramesOf(log: seq<Entry>): seq<Frame> {
    if log == [] then [] else [log[0].frame] + FramesOf(log[1..])
  }

  lemma {:induction false} FramesOfConcat(a: seq<Entry>, b: seq<Entry>)
    ensures FramesOf(a + b) == FramesOf(a) + FramesOf(b)
  {
    if a == [] {
      assert a + b == b;
    } else {
      assert (a + b)[1..] == a[1..] + b;
      FramesOfConcat(a[1..], b);
    }
  }

  /**
   * The frames the tool and the proxy treat alike: key frames of the right size that are not also keepalives
   * (or keepalives are looked at), and key numbers inside the key.
   */
  predicate Replayable(keepalives: bool, frames: seq<Frame>) {
    forall f :: f in frames ==>
      && (HasKey(f[4]) ==> |f| == HEADER + KEY_LENGTH && (keepalives || !IsKeepalive(f[4])))
      && (f[4] == FLAG_ENCRYPTED ==> KeyNumberOk(f[7]))
  }

  /** What the proxy handed to the client or passed on to the server, read as the tool should show it. */
  function Handed(events: seq<Event>): seq<Shown> {
    if events == [] then []
    else
      (if events[0].Packet? then [Shown(Payload(events[0].frame), true, true)] else []) + Handed(events[1..])
  }

  lemma {:induction false} HandedConcat(a: seq<Event>, b: seq<Event>)
    ensures Handed(a + b) == Handed(a) + Handed(b)
  {
    if a == [] {
      assert a + b == b;
    } else {
      assert (a + b)[1..] == a[1..] + b;
      HandedConcat(a[1..], b);
      hide Payload;
      var head := if a[0].Packet? then [Shown(Payload(a[0].frame), true, true)] else [];
      assert head + (Handed(a[1..]) + Handed(b)) == (head + Handed(a[1..])) + Handed(b);
    }
  }

  /** Over a whole run; packets from the client count once the server has sent a key. */
  function HandedIn(su: Setup, inputs: seq<Input>): seq<Shown>
    requires SetupOk(su)
    decreases |inputs|
  {
    if inputs == [] then []
    else
      var p := Run(su, inputs[..|inputs| - 1]);
      HandedIn(su, inputs[..|inputs| - 1]) +
      if !p.alive then []
      else
        match inputs[|inputs| - 1]
        case FromServer(chunk) => Handed(OnRead(p.remote.outlet.keys, p.remote.pending, chunk).events)
        case FromClient(chunk) =>
          if p.remote.outlet.keys.have then Handed(OnRead(p.local.outlet.keys, p.local.pending, chunk).events) else []
  }

  // ---------- server side ----------

  function RawFrames(events: seq<Event>): seq<Frame> {
    if events == [] then []
    else (if events[0].RawPacket? then [events[0].frame] else []) + RawFrames(events[1..])
  }

  lemma {:induction false} RawFramesConcat(a: seq<Event>, b: seq<Event>)
    ensures RawFrames(a + b) == RawFrames(a) + RawFrames(b)
  {
    if a == [] {
      assert a + b == b;
    } else {
      assert (a + b)[1..] == a[1..] + b;
      RawFramesConcat(a[1..], b);
      var head := if a[0].RawPacket? then [a[0].frame] else [];
      assert head + (RawFrames(a[1..]) + RawFrames(b)) == (head + RawFrames(a[1..])) + RawFrames(b);
    }
  }

  const SERVER_LOG := Options(false, true)

  lemma ServerEventLogs(past: bytes, w: World, e: Event)
    requires |past| == 4
    ensures FramesOf(React(ServerSide, SERVER_LOG, past, w, e).log) == FramesOf(w.log) + RawFrames([e])
  {
    hide PacketFrame, KeyFrame, ReplyFrame;
    OneEvent(e);
    if e.RawPacket? {
      var entry := Entry(ServerToProxy, e.frame);
      assert [entry][1..] == [];
      FramesOfConcat(w.log, [entry]);
    } else {
      assert FramesOf(w.log) + [] == FramesOf(w.log);
    }
  }

  lemma {:induction false} ServerReadLogs(past: bytes, w: World, events: seq<Event>)
    requires |past| == 4
    ensures FramesOf(ReactAll(ServerSide, SERVER_LOG, past, w, events).log) == FramesOf(w.log) + RawFrames(events)
    decreases |events|
  {
    hide React;
    if events == [] {
      assert FramesOf(w.log) + [] == FramesOf(w.log);
    } else {
      var w' := React(ServerSide, SERVER_LOG, past, w, events[0]);
      ServerEventLogs(past, w, events[0]);
      assert events == [events[0]] + events[1..];
      RawFramesConcat([events[0]], events[1..]);
      ServerReadLogs(past, w', events[1..]);
    }
  }

  /** The tool against the proxy on one server frame, case by case. */
  lemma FrameCases(keepalives: bool, keys: Keys, f: Frame)
    requires Replayable(keepalives, [f])
    ensures var step, a := Receive(keys, f), AnalyzeFrame(keepalives, keys, f);
            && a.progress.Going? && a.keys == step.keys
            && step.events != [] && step.events[0] == RawPacket(f)
            && (|step.events| == 1 ||
                (|step.events| == 2 && !step.events[1].RawPacket? && step.status.Running?))
            && (a.shown == [] || (|a.shown| == 1 && a.shown[0].underKey == keys.have))
            && (if |step.events| == 2 && step.events[1].Packet? then
                  a.shown == [Shown(Payload(step.events[1].frame), true, true)]
                else
                  a.shown == [] || !keys.have || !step.status.Running?)
            && (!step.status.Running? ==> AllBad(a.shown))
  {
    assert f in [f];
    hide Opened, HeaderSumOk, DataSumOk, KeyFromData;
  }

  /** One server frame: the tool follows the proxy's key, and shows what the proxy handed on or is about to refuse. */
  lemma ServerFrameReplayed(keepalives: bool, keys: Keys, f: Frame)
    requires Replayable(keepalives, [f])
    ensures var step, a := Receive(keys, f), AnalyzeFrame(keepalives, keys, f);
            && RawFrames(step.events) == [f] && a.progress.Going? && a.keys == step.keys
            && (step.status.Running? ==> UnderKey(a.shown) == Handed(step.events))
            && (!step.status.Running? ==>
                 Handed(step.events) == [] && |UnderKey(a.shown)| <= 1 && AllBad(UnderKey(a.shown)))
  {
    FrameCases(keepalives, keys, f);
    hide Receive, AnalyzeFrame;
    var step, a := Receive(keys, f), AnalyzeFrame(keepalives, keys, f);
    if |a.shown| == 1 {
      assert a.shown == [a.shown[0]] && a.shown[1..] == [];
    }
    if |step.events| == 2 {
      assert step.events == [step.events[0], step.events[1]];
      TwoEvents(step.events[0], step.events[1]);
    } else {
      assert step.events == [step.events[0]];
      OneEvent(step.events[0]);
    }
  }

  lemma OneEvent(a: Event)
    ensures RawFrames([a]) == if a.RawPacket? then [a.frame] else []
    ensures Handed([a]) == if a.Packet? then [Shown(Payload(a.frame), true, true)] else []
  {
    assert [a][1..] == [];
  }

  lemma TwoEvents(a: Event, b: Event)
    ensures RawFrames([a, b]) == RawFrames([a]) + RawFrames([b])
    ensures Handed([a, b]) == Handed([a]) + Handed([b])
    ensures RawFrames([a]) == if a.RawPacket? then [a.frame] else []
    ensures Handed([a]) == if a.Packet? then [Shown(Payload(a.frame), true, true)] else []
    ensures RawFrames([b]) == if b.RawPacket? then [b.frame] else []
    ensures Handed([b]) == if b.Packet? then [Shown(Payload(b.frame), true, true)] else []
  {
    OneEvent(a);
    OneEvent(b);
    assert [a, b] == [a] + [b];
    RawFramesConcat([a], [b]);
    HandedConcat([a], [b]);
  }

  /** What replaying the frames of a parse must give. */
  ghost predicate Matches(a: Analysis, keys: Keys, running: bool, handed: seq<Shown>) {
    && a.progress.Going? && a.keys == keys
    && handed <= UnderKey(a.shown)
    && |UnderKey(a.shown)| <= |handed| + (if running then 0 else 1)
    && AllBad(UnderKey(a.shown)[|handed|..])
  }

  /** Each is shown with a bad checksum. */
  predicate AllBad(shown: seq<Shown>) {
    forall s :: s in shown ==> !s.sound
  }

  lemma MatchesAfter(shown: seq<Shown>, a: Analysis, keys: Keys, running: bool, before: seq<Shown>, handed: seq<Shown>)
    requires UnderKey(shown) == before && Matches(a, keys, running, handed)
    ensures Matches(After(shown, a), keys, running, before + handed)
  {
    UnderKeyConcat(shown, a.shown);
    assert UnderKey(shown + a.shown)[|before + handed|..] == UnderKey(a.shown)[|handed|..];
  }

  lemma {:induction false} ServerStreamReplayed(keepalives: bool, keys: Keys, s: bytes)
    requires Replayable(keepalives, RawFrames(ParseStream(keys, s).events))
    ensures var p := ParseStream(keys, s);
            Matches(Analyze(keepalives, keys, RawFrames(p.events)), p.keys, p.status.Running?, Handed(p.events))
    decreases |s|
  {
    hide Receive, AnalyzeFrame, Matches, AllBad, Replayable, UnderKey;
    var p := ParseStream(keys, s);
    if |s| >= HEADER && HEADER <= U32(s) < MAX_PACKET && U32(s) <= |s| {
      var n := U32(s);
      var f := s[..n];
      var step := Receive(keys, f);
      OneRaw(keys, f);
      if step.status.Running? {
        var rest := ParseStream(step.keys, s[n..]);
        RawFramesConcat(step.events, rest.events);
        HandedConcat(step.events, rest.events);
        ReplayableParts(keepalives, [f], RawFrames(rest.events));
        ServerFrameReplayed(keepalives, keys, f);
        ServerStreamReplayed(keepalives, step.keys, s[n..]);
        FrameThenRest(keepalives, keys, f, RawFrames(rest.events), rest.keys, rest.status.Running?,
          Handed(step.events), Handed(rest.events));
      } else {
        FrameAborts(keepalives, keys, f);
      }
    } else {
      NothingReplayed(keepalives, keys);
    }
  }

  lemma OneRaw(keys: Keys, f: Frame)
    ensures RawFrames(Receive(keys, f).events) == [f]
  {
    RawIsFirst(keys, f);
    var events := Receive(keys, f).events;
    assert |events| == 1 || (|events| == 2 && !events[1].RawPacket?) by { hide Opened, HeaderSumOk, DataSumOk, KeyFromData; }
    hide Receive;
    if |events| == 2 {
      assert events == [events[0], events[1]];
      TwoEvents(events[0], events[1]);
    } else {
      assert events == [events[0]];
      OneEvent(events[0]);
    }
  }

  lemma FrameThenRest(keepalives: bool, keys: Keys, f: Frame, frames: seq<Frame>, keys': Keys, running: bool,
                      first: seq<Shown>, handed: seq<Shown>)
    requires var a := AnalyzeFrame(keepalives, keys, f);
             && a.progress.Going? && UnderKey(a.shown) == first
             && Matches(Analyze(keepalives, a.keys, frames), keys', running, handed)
    ensures Matches(Analyze(keepalives, keys, [f] + frames), keys', running, first + handed)
  {
    hide AnalyzeFrame, Matches;
    var a := AnalyzeFrame(keepalives, keys, f);
    assert ([f] + frames)[1..] == frames;
    MatchesAfter(a.shown, Analyze(keepalives, a.keys, frames), keys', running, first, handed);
  }

  lemma FrameAborts(keepalives: bool, keys: Keys, f: Frame)
    requires Replayable(keepalives, [f]) && !Receive(keys, f).status.Running?
    ensures Matches(Analyze(keepalives, keys, [f]), Receive(keys, f).keys, false, Handed(Receive(keys, f).events))
  {
    hide Receive, AnalyzeFrame, AllBad, Replayable;
    ServerFrameReplayed(keepalives, keys, f);
    var a := AnalyzeFrame(keepalives, keys, f);
    assert [f][1..] == [];
    assert a.shown + [] == a.shown;
    assert UnderKey(a.shown)[0..] == UnderKey(a.shown);
  }

  lemma RawIsFirst(keys: Keys, f: Frame)
    ensures var events := Receive(keys, f).events; events != [] && events[0] == RawPacket(f) && f in RawFrames(events)
  {
    hide Opened, HeaderSumOk, DataSumOk, KeyFromData;
  }

  // ---------- client side ----------

  /** What is sent on to the server, and logged, for packets from the client. */
  function Forwards(to: Outlet, events: seq<Event>): seq<Frame>
    decreases |events|
  {
    if events == [] then []
    else if events[0].Packet? then
      [PacketFrame(events[0].frame, to.keys.key, to.sequence)] +
      Forwards(to.(sequence := NextSequence(to.sequence)), events[1..])
    else Forwards(to, events[1..])
  }

  lemma {:induction false} ClientReadLogs(past: bytes, w: World, events: seq<Event>)
    requires |past| == 4
    ensures FramesOf(ReactAll(ClientSide, SERVER_LOG, past, w, events).log) ==
            FramesOf(w.log) + Forwards(w.peer.(written := []), events)
    decreases |events|
  {
    if events == [] {
      assert FramesOf(w.log) + [] == FramesOf(w.log);
    } else {
      var e := events[0];
      var w' := React(ClientSide, SERVER_LOG, past, w, e);
      hide PacketFrame, KeyFrame, ReplyFrame;
      if e.Packet? {
        var entry := Entry(ProxyToServer, PacketFrame(e.frame, w.peer.keys.key, w.peer.sequence));
        assert [entry][1..] == [];
        FramesOfConcat(w.log, [entry]);
      }
      ClientReadLogs(past, w', events[1..]);
    }
  }

  lemma ForwardReplayed(keepalives: bool, keys: Keys, f: Frame, sequence: uint32)
    requires IsFrame(f)
    ensures AnalyzeFrame(keepalives, keys, PacketFrame(f, keys.key, sequence)) ==
            Analysis(Going, keys, [Shown(Payload(f), keys.have, true)])
  {
    var have := Keys(keys.key, true);
    PacketReceived(f, have, sequence);
    var w := PacketFrame(f, keys.key, sequence);
    hide PacketFrame, Opened, HeaderSumOk, DataSumOk;
    DeliveredIsSound(have, w);
    assert Receive(have, w).events[1] in Receive(have, w).events;
  }

  lemma {:induction false} ForwardsReplayed(keepalives: bool, to: Outlet, events: seq<Event>, local: Keys)
    requires Orderly(local, events)
    ensures Matches(Analyze(keepalives, to.keys, Forwards(to, events)), to.keys, true,
                    if to.keys.have then Handed(events) else [])
    decreases |events|
  {
    hide AnalyzeFrame, PacketFrame;
    if events != [] {
      var e, rest := events[0], events[1..];
      if e.Packet? {
        var next := to.(sequence := NextSequence(to.sequence));
        var g := PacketFrame(e.frame, to.keys.key, to.sequence);
        ForwardReplayed(keepalives, to.keys, e.frame, to.sequence);
        ForwardsReplayed(keepalives, next, rest, FollowOne(local, e));
        var one := Shown(Payload(e.frame), to.keys.have, true);
        assert [one][1..] == [];
        assert Forwards(to, events)[1..] == Forwards(next, rest);
        MatchesAfter([one], Analyze(keepalives, to.keys, Forwards(next, rest)), to.keys, true,
          UnderKey([one]), if to.keys.have then Handed(rest) else []);
        assert [] + [] == UnderKey([one]) || to.keys.have;
      } else {
        ForwardsReplayed(keepalives, to, rest, FollowOne(local, e));
      }
    }
  }

  // ---------- whole runs ----------

  lemma ReplayStep(keepalives: bool, before: seq<Frame>, more: seq<Frame>, keys: Keys, keys': Keys, running: bool,
                   told: seq<Shown>, handed: seq<Shown>)
    requires Matches(Analyze(keepalives, NO_KEY, before), keys, true, told)
    requires Matches(Analyze(keepalives, keys, more), keys', running, handed)
    ensures Matches(Analyze(keepalives, NO_KEY, before + more), keys', running, told + handed)
  {
    AnalyzeConcat(keepalives, NO_KEY, before, more);
    var first := Analyze(keepalives, NO_KEY, before);
    assert UnderKey(first.shown) == told;
    MatchesAfter(first.shown, Analyze(keepalives, keys, more), keys', running, told, handed);
  }

  lemma ReplayableParts(keepalives: bool, a: seq<Frame>, b: seq<Frame>)
    requires Replayable(keepalives, a + b)
    ensures Replayable(keepalives, a) && Replayable(keepalives, b)
  {
    assert forall f :: f in a || f in b ==> f in a + b;
  }

  /** The server's key, as the tool must hold it: unchanged once the run has ended. */
  ghost predicate ReplayedRun(keepalives: bool, p: State, told: seq<Shown>) {
    var a := Analyze(keepalives, NO_KEY, FramesOf(p.log));
    && (p.alive ==> Matches(a, p.remote.outlet.keys, true, told))
    && (!p.alive ==> Matches(a, a.keys, false, told))
  }

  lemma ReplayServerStep(keepalives: bool, su: Setup, p: State, chunk: bytes, told: seq<Shown>)
    requires SetupOk(su) && su.options == SERVER_LOG && p.alive && ReplayedRun(keepalives, p, told)
    requires Replayable(keepalives, FramesOf(Next(su, p, FromServer(chunk)).log))
    ensures ReplayedRun(keepalives, Next(su, p, FromServer(chunk)),
                        told + Handed(OnRead(p.remote.outlet.keys, p.remote.pending, chunk).events))
  {
    hide Matches, ReactAll, Analyze, ParseStream, Replayable;
    var keys := p.remote.outlet.keys;
    var r := OnRead(keys, p.remote.pending, chunk);
    ServerReadLogs(su.remotePast, World(p.remote.outlet.written, p.local.outlet, p.log), r.events);
    ReplayableParts(keepalives, FramesOf(p.log), RawFrames(r.events));
    if |p.remote.pending| + |chunk| < BUFFER_SIZE {
      ServerStreamReplayed(keepalives, keys, p.remote.pending + chunk);
    } else {
      NothingReplayed(keepalives, keys);
    }
    ReplayStep(keepalives, FramesOf(p.log), RawFrames(r.events), keys, r.keys, r.status.Running?, told, Handed(r.events));
    MatchesOwnKeys(Analyze(keepalives, NO_KEY, FramesOf(p.log) + RawFrames(r.events)), r.keys, r.status.Running?,
      told + Handed(r.events));
  }

  lemma NothingReplayed(keepalives: bool, keys: Keys)
    ensures Matches(Analyze(keepalives, keys, []), keys, false, [])
    ensures Matches(Analyze(keepalives, keys, []), keys, true, [])
    ensures RawFrames([]) == [] && Handed([]) == []
  {
  }

  lemma MatchesOwnKeys(a: Analysis, keys: Keys, running: bool, told: seq<Shown>)
    requires Matches(a, keys, running, told)
    ensures Matches(a, a.keys, false, told)
  {
  }

  lemma ReplayClientStep(keepalives: bool, su: Setup, p: State, chunk: bytes, told: seq<Shown>)
    requires SetupOk(su) && su.options == SERVER_LOG && p.alive && ReplayedRun(keepalives, p, told)
    ensures ReplayedRun(keepalives, Next(su, p, FromClient(chunk)),
                        told + if p.remote.outlet.keys.have
                               then Handed(OnRead(p.local.outlet.keys, p.local.pending, chunk).events) else [])
  {
    hide Matches, ReactAll, Analyze, ParseStream;
    var to := p.remote.outlet.(written := []);
    var keys := p.local.outlet.keys;
    var r := OnRead(keys, p.local.pending, chunk);
    var w := World(p.local.outlet.written, p.remote.outlet, p.log);
    ParseOrderly(keys, p.local.pending + chunk);
    ClientReadLogs(su.localPast, w, r.events);
    ClientLeavesServerKey(su.options, su.localPast, w, r.events);
    ForwardsReplayed(keepalives, to, r.events, keys);
    var handed := if to.keys.have then Handed(r.events) else [];
    ReplayStep(keepalives, FramesOf(p.log), Forwards(to, r.events), to.keys, to.keys, true, told, handed);
    MatchesOwnKeys(Analyze(keepalives, NO_KEY, FramesOf(p.log) + Forwards(to, r.events)), to.keys, true, told + handed);
  }

  /**
   * Replaying the server-side log of any run gives, from the first key on, exactly the payloads the proxy handed to
   * the client or passed on to the server, in that order and with both checksums good; after a run that has failed
   * there may be one more, the packet it was refused for.
   */
  lemma {:induction false} ReplayRecoversTraffic(keepalives: bool, su: Setup, inputs: seq<Input>)
    requires SetupOk(su) && su.options == SERVER_LOG
    requires Replayable(keepalives, FramesOf(Run(su, inputs).log))
    ensures ReplayedRun(keepalives, Run(su, inputs), HandedIn(su, inputs))
    decreases |inputs|
  {
    hide ReactAll, Next, Replayable;
    if inputs == [] {
    } else {
      var before, i := inputs[..|inputs| - 1], inputs[|inputs| - 1];
      var p := Run(su, before);
      if p.alive {
        LogGrows(su, p, i);
        var more := FramesOf(Next(su, p, i).log)[|FramesOf(p.log)|..];
        assert FramesOf(Next(su, p, i).log) == FramesOf(p.log) + more;
        ReplayableParts(keepalives, FramesOf(p.log), more);
        ReplayRecoversTraffic(keepalives, su, before);
        match i
        case FromServer(chunk) => ReplayServerStep(keepalives, su, p, chunk, HandedIn(su, before));
        case FromClient(chunk) => ReplayClientStep(keepalives, su, p, chunk, HandedIn(su, before));
      } else {
        ReplayRecoversTraffic(keepalives, su, before);
        assert HandedIn(su, before) + [] == HandedIn(su, before);
      }
    }
  }

  lemma LogGrows(su: Setup, p: State, i: Input)
    requires SetupOk(su) && su.options == SERVER_LOG
    ensures FramesOf(p.log) <= FramesOf(Next(su, p, i).log)
  {
    hide ReactAll;
    match i
    case FromServer(chunk) =>
      ServerReadLogs(su.remotePast, World(p.remote.outlet.written, p.local.outlet, p.log),
        OnRead(p.remote.outlet.keys, p.remote.pending, chunk).events);
    case FromClient(chunk) =>
      ClientReadLogs(su.localPast, World(p.local.outlet.written, p.remote.outlet, p.log),
        OnRead(p.local.outlet.keys, p.local.pending, chunk).events);
  }

  /**
   * Of a sound enciphered frame, every corruption of a single octet shows: whatever the tool makes of it, and even if it
   * now names another key octet, nothing of it is shown as sound. The frame itself is.
   */
  lemma CorruptionShown(keepalives: bool, keys: Keys, f: Frame, i: nat, b: byte)
    requires f[4] == FLAG_ENCRYPTED && KeyNumberOk(f[7]) && Sound(f, KeyByte(keys.key, f[7]))
    requires i < |f| && b != f[i]
    ensures AllBad(AnalyzeFrame(keepalives, keys, f[i := b]).shown)
    ensures i >= HEADER ==> |AnalyzeFrame(keepalives, keys, f[i := b]).shown| == 1
    ensures |AnalyzeFrame(keepalives, keys, f).shown| == 1 && AnalyzeFrame(keepalives, keys, f).shown[0].sound
  {
    hide HeaderSumOk, DataSumOk, Opened;
    var g: Frame := f[i := b];
    OneByteCorruptionDetected(f, KeyByte(keys.key, f[7]), i, b);
    assert i >= 11 ==> g[4] == f[4] && g[7] == f[7];
    assert HeaderSumOk(g) ==> i >= 11;
  }

  /** So a packet of any sender under the tool's key, changed in one octet of its data, is reported. */
  lemma CorruptPacketShown(keepalives: bool, keys: Keys, p: Frame, sequence: uint32, i: nat, b: byte)
    requires IsFrame(p)
    requires HEADER <= i < |p| && b != PacketFrame(p, keys.key, sequence)[i]
    ensures var a := AnalyzeFrame(keepalives, keys, PacketFrame(p, keys.key, sequence)[i := b]);
            |a.shown| == 1 && !a.shown[0].sound && a.shown[0].underKey == keys.have
  {
    var w: Frame := PacketFrame(p, keys.key, sequence);
    ForwardReplayed(keepalives, keys, p, sequence);
    PacketReceived(p, Keys(keys.key, true), sequence);
    hide PacketFrame, HeaderSumOk, DataSumOk, Opened;
    var shown := AnalyzeFrame(keepalives, keys, w).shown;
    assert shown[0].sound && Sound(w, KeyByte(keys.key, w[7]));
    CorruptionShown(keepalives, keys, w, i, b);
    var bad := AnalyzeFrame(keepalives, keys, w[i := b]).shown;
    assert bad[0] in bad;
  }

  /**
   * On a frame with the key flag the tool follows the proxy exactly when: unless it is skipped as a keepalive, it has
   * the size of a key frame; and if it is skipped, it carries no key or the key already held.
   */
  lemma KeyFollowedExactly(keepalives: bool, keys: Keys, f: Frame)
    requires HasKey(f[4])
    ensures var a := AnalyzeFrame(keepalives, keys, f);
            a.progress.Going? && a.keys == Receive(keys, f).keys <==>
            if IsKeepalive(f[4]) && !keepalives then
              |f| == HEADER + KEY_LENGTH ==> keys == Keys(KeyFromData(Payload(f)), true)
            else |f| == HEADER + KEY_LENGTH
  {
    hide KeyFromData;
  }
}
