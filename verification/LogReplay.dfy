/** From the proxy's traffic through the log file to the dump tool, end to end. */
module LogReplay {
  import opened Bytes
  import opened Frames
  import opened Receiver
  import opened Sender
  import opened Relay
  import opened Proxy
  import opened Replay
  import opened Ledger
  import opened LogFile
  import opened Flows
  import opened RomDump

  // ---------- the logged frames are whole ----------

  predicate Whole(frames: seq<Frame>) {
    forall f :: f in frames ==> IsFrame(f) && |f| < MAX_PACKET
  }

  lemma WholeConcat(a: seq<Frame>, b: seq<Frame>)
    requires Whole(a) && Whole(b)
    ensures Whole(a + b)
  {
  }

  lemma {:induction false} ReceivedFramesWhole(keys: Keys, s: bytes)
    ensures Whole(RawFrames(ParseStream(keys, s).events))
    decreases |s|
  {
    hide Receive, IsFrame;
    if |s| >= HEADER && HEADER <= U32(s) < MAX_PACKET && U32(s) <= |s| {
      var n := U32(s);
      var f := s[..n];
      CutIsFrame(s, n);
      var step := Receive(keys, f);
      OnlyRaw(keys, f);
      if step.status.Running? {
        var rest := ParseStream(step.keys, s[n..]);
        RawFramesConcat(step.events, rest.events);
        ReceivedFramesWhole(step.keys, s[n..]);
      }
    }
  }

  lemma CutIsFrame(s: bytes, n: nat)
    requires HEADER <= |s| && HEADER <= n == U32(s) <= |s|
    ensures IsFrame(s[..n])
  {
    HeadFrame(s[..n], s[n..], n);
    assert s[..n] + s[n..] == s;
  }

  lemma OnlyRaw(keys: Keys, f: Frame)
    ensures RawFrames(Receive(keys, f).events) == [f]
  {
    var events := Receive(keys, f).events;
    hide Opened, HeaderSumOk, DataSumOk, KeyFromData;
    if |events| == 2 {
      assert events == [events[0], events[1]];
      TwoEvents(events[0], events[1]);
    } else {
      assert events == [events[0]];
      OneEvent(events[0]);
    }
  }

  lemma {:induction false} ForwardedFramesWhole(to: Outlet, events: seq<Event>, local: Keys)
    requires Orderly(local, events)
    ensures Whole(Forwards(to, events))
    decreases |events|
  {
    if events != [] {
      var e, rest := events[0], events[1..];
      if e.Packet? {
        PacketReceived(e.frame, Keys(to.keys.key, true), to.sequence);
        hide PacketFrame;
        ForwardedFramesWhole(to.(sequence := NextSequence(to.sequence)), rest, FollowOne(local, e));
      } else {
        ForwardedFramesWhole(to, rest, FollowOne(local, e));
      }
    }
  }

  lemma {:induction false} LoggedFramesWhole(su: Setup, inputs: seq<Input>)
    requires SetupOk(su) && su.options == SERVER_LOG
    ensures Whole(FramesOf(Run(su, inputs).log))
    decreases |inputs|
  {
    hide ReactAll, Whole, ParseStream;
    if inputs == [] {
      NoneWhole();
    } else {
      var before, i := inputs[..|inputs| - 1], inputs[|inputs| - 1];
      var p := Run(su, before);
      LoggedFramesWhole(su, before);
      if p.alive {
        match i
        case FromServer(chunk) =>
          var keys := p.remote.outlet.keys;
          var r := OnRead(keys, p.remote.pending, chunk);
          ServerReadLogs(su.remotePast, World(p.remote.outlet.written, p.local.outlet, p.log), r.events);
          ReceivedFramesWhole(keys, p.remote.pending + chunk);
          NoneWhole();
          WholeConcat(FramesOf(p.log), RawFrames(r.events));
        case FromClient(chunk) =>
          var keys := p.local.outlet.keys;
          var r := OnRead(keys, p.local.pending, chunk);
          ClientReadLogs(su.localPast, World(p.local.outlet.written, p.remote.outlet, p.log), r.events);
          ParseOrderly(keys, p.local.pending + chunk);
          ForwardedFramesWhole(p.remote.outlet.(written := []), r.events, keys);
          WholeConcat(FramesOf(p.log), Forwards(p.remote.outlet.(written := []), r.events));
      }
    }
  }

  lemma NoneWhole()
    ensures Whole([]) && RawFrames([]) == []
  {
  }

  // ---------- records ----------

  /** The endpoints of one proxied client. */
  datatype Addresses = Addresses(client: Endpoint, proxyLocal: Endpoint, proxyRemote: Endpoint, server: Endpoint)

  predicate AddressesOk(a: Addresses) {
    EndpointOk(a.client) && EndpointOk(a.proxyLocal) && EndpointOk(a.proxyRemote) && EndpointOk(a.server)
  }

  /** What the logger writes for an entry. */
  function RecordOf(a: Addresses, e: Entry): Record {
    match e.direction
    case ServerToProxy => Record(a.server, a.proxyRemote, e.frame)
    case ProxyToServer => Record(a.proxyRemote, a.server, e.frame)
    case ClientToProxy => Record(a.client, a.proxyLocal, e.frame)
    case ProxyToClient => Record(a.proxyLocal, a.client, e.frame)
  }

  function RecordsOf(a: Addresses, log: seq<Entry>): (r: seq<Record>)
    ensures |r| == |log| && forall i | 0 <= i < |log| :: r[i] == RecordOf(a, log[i])
  {
    seq(|log|, i requires 0 <= i < |log| => RecordOf(a, log[i]))
  }

  lemma {:induction false} FramesOfAt(log: seq<Entry>)
    ensures |FramesOf(log)| == |log| && forall i | 0 <= i < |log| :: FramesOf(log)[i] == log[i].frame
  {
    if log != [] {
      FramesOfAt(log[1..]);
    }
  }

  /** The file the proxy has written. */
  function FileOf(a: Addresses, log: seq<Entry>): bytes
    requires AddressesOk(a) && Whole(FramesOf(log))
  {
    LoggedRecordsOk(a, log);
    PutU32(MAGIC_2) + LogBytes(RecordsOf(a, log))
  }

  lemma RecordOfOk(a: Addresses, e: Entry)
    requires AddressesOk(a) && IsFrame(e.frame) && |e.frame| < MAX_PACKET
    ensures RecordOk(RecordOf(a, e)) && RecordOf(a, e).frame == e.frame
  {
  }

  lemma LoggedRecordsOk(a: Addresses, log: seq<Entry>)
    requires AddressesOk(a) && Whole(FramesOf(log))
    ensures var r := RecordsOf(a, log); forall i | 0 <= i < |r| :: RecordOk(r[i])
    ensures RecordFrames(RecordsOf(a, log)) == FramesOf(log) && WholeFrames(FramesOf(log))
  {
    hide RecordOf, RecordOk, IsFrame, FramesOf;
    FramesOfAt(log);
    var r, frames := RecordsOf(a, log), FramesOf(log);
    forall i | 0 <= i < |log|
      ensures RecordOk(r[i]) && r[i].frame == frames[i] && IsFrame(frames[i]) && |frames[i]| <= LONGEST
    {
      assert frames[i] in frames;
      RecordOfOk(a, log[i]);
    }
    assert RecordFrames(r) == frames;
  }

  /** Reading the file back gives each logged frame with its endpoints, and the tool analyses exactly these frames. */
  lemma FileAnalyzedFrameByFrame(keepalives: bool, a: Addresses, log: seq<Entry>)
    requires AddressesOk(a) && Whole(FramesOf(log))
    ensures var records := ParseLog(FileOf(a, log)[4..]);
            var d := Dump(keepalives, NO_KEY, map[], records);
            var whole := Analyze(keepalives, NO_KEY, FramesOf(log));
            && records == RecordsOf(a, log)
            && d.progress == whole.progress && d.keys == whole.keys && d.shown == whole.shown
            && (d.progress.Going? ==> forall l :: l in d.unread ==> d.unread[l] == [])
  {
    hide Analyze, Dump, LogBytes;
    LoggedRecordsOk(a, log);
    var records := RecordsOf(a, log);
    assert FileOf(a, log)[4..] == LogBytes(records);
    LogRoundTrip(records, []);
    assert LogBytes(records) + [] == LogBytes(records);
    NothingParsed();
    assert records + [] == records;
    WholeRecordsAnalyzed(keepalives, NO_KEY, map[], records);
  }

  /**
   * From the wire to the screen: for any run of the proxy that logs its server side, the dump tool given the log file
   * shows, from the first key on, what the proxy handed on, and leaves no flow with unread bytes.
   */
  lemma LogFileTellsTheRun(keepalives: bool, su: Setup, inputs: seq<Input>, a: Addresses)
    requires SetupOk(su) && su.options == SERVER_LOG && AddressesOk(a)
    requires Replayable(keepalives, FramesOf(Run(su, inputs).log))
    ensures var p := Run(su, inputs);
            && Whole(FramesOf(p.log))
            && var d := Dump(keepalives, NO_KEY, map[], ParseLog(FileOf(a, p.log)[4..]));
               && d.progress.Going?
               && HandedIn(su, inputs) <= UnderKey(d.shown)
               && |UnderKey(d.shown)| <= |HandedIn(su, inputs)| + (if p.alive then 0 else 1)
               && AllBad(UnderKey(d.shown)[|HandedIn(su, inputs)|..])
               && (p.alive ==> d.keys == p.remote.outlet.keys)
               && forall l :: l in d.unread ==> d.unread[l] == []
  {
    hide Run, HandedIn, Analyze, Dump;
    LoggedFramesWhole(su, inputs);
    ReplayRecoversTraffic(keepalives, su, inputs);
    FileAnalyzedFrameByFrame(keepalives, a, Run(su, inputs).log);
  }

  // ---------- record by record, direction by direction ----------

  /** The connection an entry is filed under. */
  function LinkFor(a: Addresses, d: Direction): Link {
    match d
    case ServerToProxy => Link(a.server, a.proxyRemote)
    case ProxyToServer => Link(a.proxyRemote, a.server)
    case ClientToProxy => Link(a.client, a.proxyLocal)
    case ProxyToClient => Link(a.proxyLocal, a.client)
  }

  predicate LinksDiffer(a: Addresses) {
    forall d, e :: d != e ==> LinkFor(a, d) != LinkFor(a, e)
  }

  function FramesOn(records: seq<Record>, l: Link): seq<bytes> {
    if records == [] then []
    else (if LinkOf(records[0]) == l then [records[0].frame] else []) + FramesOn(records[1..], l)
  }

  lemma {:induction false} RecordsByLink(a: Addresses, log: seq<Entry>, d: Direction)
    requires LinksDiffer(a)
    ensures FramesOn(RecordsOf(a, log), LinkFor(a, d)) == InDirection(log, d)
    decreases |log|
  {
    if log != [] {
      var r := RecordsOf(a, log);
      assert r[1..] == RecordsOf(a, log[1..]);
      RecordsByLink(a, log[1..], d);
      var head := log[0];
      assert LinkOf(r[0]) == LinkFor(a, head.direction) && r[0].frame == head.frame;
    }
  }

  /** Each direction of each log is filed under its own two endpoints. */
  lemma RecordsByAddress(a: Addresses, log: seq<Entry>)
    requires LinksDiffer(a)
    ensures var r := RecordsOf(a, log);
            && FramesOn(r, Link(a.server, a.proxyRemote)) == InDirection(log, ServerToProxy)
            && FramesOn(r, Link(a.proxyRemote, a.server)) == InDirection(log, ProxyToServer)
            && FramesOn(r, Link(a.client, a.proxyLocal)) == InDirection(log, ClientToProxy)
            && FramesOn(r, Link(a.proxyLocal, a.client)) == InDirection(log, ProxyToClient)
  {
    hide FramesOn, InDirection, RecordsOf;
    RecordsByLink(a, log, ServerToProxy);
    RecordsByLink(a, log, ProxyToServer);
    RecordsByLink(a, log, ClientToProxy);
    RecordsByLink(a, log, ProxyToClient);
  }

  /**
   * The file says who sent what: read back, the records under the server's address are the frames received from it, and
   * those under the proxy's are the frames written to it, but for keepalive replies; both in order.
   */
  lemma LogFileTellsDirections(su: Setup, inputs: seq<Input>, a: Addresses)
    requires SetupOk(su) && su.options == SERVER_LOG && AddressesOk(a) && LinksDiffer(a)
    ensures var p := Run(su, inputs);
            && Whole(FramesOf(p.log)) && AllFrames(p.remote.outlet.written)
            && var records := ParseLog(FileOf(a, p.log)[4..]);
               && FramesOn(records, Link(a.server, a.proxyRemote)) == RawFrames(p.remote.heard)
               && FramesOn(records, Link(a.proxyRemote, a.server)) == Relayed(p.remote.outlet.written)
  {
    hide Run, FramesOn, ParseLog;
    var p := Run(su, inputs);
    LoggedFramesWhole(su, inputs);
    LogBalancesRun(su, inputs);
    FileAnalyzedFrameByFrame(false, a, p.log);
    RecordsByAddress(a, p.log);
  }
}
