/** The dump tool's run over a log file: records in, one flow per pair of endpoints, everything analysed on arrival. */
module RomDump {
  import opened Bytes
  import opened Frames
  import opened Receiver
  import opened Sender
  import opened Relay
  import opened Proxy
  import opened Replay
  import opened LogFile
  import opened InPlace
  import opened Flows

  datatype Link = Link(source: Endpoint, dest: Endpoint)

  // ---------- specification ----------

  datatype Dumped = Dumped(progress: Progress, keys: Keys, shown: seq<Shown>, unread: map<Link, bytes>)

  function LinkOf(r: Record): Link {
    Link(r.source, r.dest)
  }

  function Waiting(unread: map<Link, bytes>, l: Link): bytes {
    if l in unread then unread[l] else []
  }

  function Dump(keepalives: bool, keys: Keys, unread: map<Link, bytes>, records: seq<Record>): Dumped
    decreases |records|
  {
    if records == [] then Dumped(Going, keys, [], unread)
    else
      var l := LinkOf(records[0]);
      var a := AnalyzeBytes(keepalives, keys, Waiting(unread, l) + records[0].frame);
      if !a.progress.Going? then Dumped(a.progress, a.keys, a.shown, unread[l := a.rest])
      else DumpLater(a.shown, Dump(keepalives, a.keys, unread[l := a.rest], records[1..]))
  }

  function DumpLater(shown: seq<Shown>, d: Dumped): Dumped {
    d.(shown := shown + d.shown)
  }

  predicate WholeFrames(frames: seq<bytes>) {
    forall i | 0 <= i < |frames| :: IsFrame(frames[i]) && |frames[i]| <= LONGEST
  }

  function RecordFrames(records: seq<Record>): seq<bytes> {
    seq(|records|, i requires 0 <= i < |records| => records[i].frame)
  }

  lemma TailWhole(frames: seq<bytes>)
    requires WholeFrames(frames) && frames != []
    ensures IsFrame(frames[0]) && |frames[0]| <= LONGEST && WholeFrames(frames[1..])
  {
    hide IsFrame;
    assert forall i | 0 <= i < |frames| - 1 :: frames[1..][i] == frames[i + 1];
  }

  lemma DumpWhole(keepalives: bool, keys: Keys, unread: map<Link, bytes>, records: seq<Record>)
    requires records != [] && IsFrame(records[0].frame) && |records[0].frame| <= LONGEST
    requires Waiting(unread, LinkOf(records[0])) == []
    ensures var f, l := records[0].frame, LinkOf(records[0]);
            var a, d := AnalyzeFrame(keepalives, keys, f), Dump(keepalives, keys, unread, records);
            if a.progress.Going? then d == DumpLater(a.shown, Dump(keepalives, a.keys, unread[l := []], records[1..]))
            else d.progress == a.progress && d.keys == a.keys && d.shown == a.shown
  {
    hide AnalyzeFrame, AnalyzeBytes, IsFrame;
    var f := records[0].frame;
    OneWholeFrame(keepalives, keys, f);
    assert [] + f == f;
  }

  lemma AnalyzeFirst(keepalives: bool, keys: Keys, frames: seq<Frame>)
    requires frames != []
    ensures var a, r := AnalyzeFrame(keepalives, keys, frames[0]), Analyze(keepalives, keys, frames);
            if a.progress.Going? then r == After(a.shown, Analyze(keepalives, a.keys, frames[1..])) else r == a
  {
    hide AnalyzeFrame;
  }

  /** When every record is one whole frame, the flows are analysed frame by frame, in log order, with nothing left over. */
  lemma {:induction false} WholeRecordsAnalyzed(keepalives: bool, keys: Keys, unread: map<Link, bytes>, records: seq<Record>)
    requires WholeFrames(RecordFrames(records))
    requires forall l :: l in unread ==> unread[l] == []
    ensures var d, a := Dump(keepalives, keys, unread, records), Analyze(keepalives, keys, RecordFrames(records));
            && d.progress == a.progress && d.keys == a.keys && d.shown == a.shown
            && (d.progress.Going? ==> forall l :: l in d.unread ==> d.unread[l] == [])
    decreases |records|
  {
    if records != [] {
      hide AnalyzeFrame, Analyze, Dump, IsFrame, WholeFrames;
      var frames, l := RecordFrames(records), LinkOf(records[0]);
      assert frames[0] == records[0].frame && frames[1..] == RecordFrames(records[1..]);
      TailWhole(frames);
      DumpWhole(keepalives, keys, unread, records);
      AnalyzeFirst(keepalives, keys, frames);
      var a := AnalyzeFrame(keepalives, keys, frames[0]);
      if a.progress.Going? {
        WholeRecordsAnalyzed(keepalives, a.keys, unread[l := []], records[1..]);
      }
    }
  }

  /** What records of one connection leave: the analysis `r` of its stream, and all other flows as they were. */
  ghost predicate OneStream(d: Dumped, r: FlowResult, unread: map<Link, bytes>, l: Link) {
    && d.progress == r.progress && d.keys == r.keys && d.shown == r.shown
    && (r.progress.Going? ==> Waiting(d.unread, l) == r.rest)
    && forall m :: m != l ==> Waiting(d.unread, m) == Waiting(unread, m)
  }

  lemma OneStreamLater(d: Dumped, r: FlowResult, unread: map<Link, bytes>, l: Link, shown: seq<Shown>, rest: bytes)
    requires OneStream(d, r, unread[l := rest], l)
    ensures OneStream(DumpLater(shown, d), Later(shown, r), unread, l)
  {
    assert forall m :: m != l ==> Waiting(unread[l := rest], m) == Waiting(unread, m);
  }

  /**
   * However the logged traffic of a connection is cut into records, inside frames or across them, analysing record by
   * record is analysing the whole stream; the other connections keep what they hold.
   */
  lemma {:induction false} OneConnectionAnalyzed(keepalives: bool, keys: Keys, unread: map<Link, bytes>,
                                                 records: seq<Record>, l: Link)
    requires forall i | 0 <= i < |records| :: LinkOf(records[i]) == l
    requires Waits(Waiting(unread, l))
    ensures OneStream(Dump(keepalives, keys, unread, records),
                      AnalyzeBytes(keepalives, keys, Waiting(unread, l) + Joined(RecordFrames(records))), unread, l)
    decreases |records|
  {
    hide Waits;
    var frames, had := RecordFrames(records), Waiting(unread, l);
    if records == [] {
      assert had + Joined(frames) == had;
      WaitsIdle(keepalives, keys, had);
    } else {
      hide AnalyzeBytes;
      var now := had + records[0].frame;
      var a := AnalyzeBytes(keepalives, keys, now);
      var later := Joined(frames[1..]);
      assert LinkOf(records[0]) == l && frames[1..] == RecordFrames(records[1..]);
      assert had + Joined(frames) == now + later;
      if a.progress.Going? {
        AnalysisContinues(keepalives, keys, now, later);
        assert Waits(a.rest) by { AnalysisStops(keepalives, keys, now); }
        OneConnectionAnalyzed(keepalives, a.keys, unread[l := a.rest], records[1..], l);
        hide OneStream;
        OneStreamLater(Dump(keepalives, a.keys, unread[l := a.rest], records[1..]),
          AnalyzeBytes(keepalives, a.keys, a.rest + later), unread, l, a.shown, a.rest);
      } else {
        FatalStays(keepalives, keys, now, later);
      }
    }
  }

  // ---------- the file ----------

  class File {
    const data: bytes
    var pos: nat

    ghost predicate Valid()
      reads this
    {
      pos <= |data|
    }

    constructor (data: bytes)
      ensures Valid() && pos == 0 && this.data == data
    {
      this.data := data;
      pos := 0;
    }

    /** Reads a record header. 0: no more; in the first version of the format the second length half is not there. */
    method ParseHeader(v2: bool) returns (length: nat, source: Endpoint, dest: Endpoint)
      requires Valid()
      modifies this`pos
      ensures Valid()
      ensures |old(data[pos..])| < RECORD_HEADER ==> length == 0 && pos == old(pos)
      ensures |old(data[pos..])| >= RECORD_HEADER ==>
                var s := old(data[pos..]);
                && source == ReadEndpoint(s) && dest == ReadEndpoint(s[6..])
                && (if v2 then length == RecordLength(s) && pos == old(pos) + RECORD_HEADER
                    else length == U16(s[12..]) && pos == old(pos) + RECORD_HEADER - 2)
    {
      source, dest := Endpoint(0, 0), Endpoint(0, 0);
      if |data| - pos < RECORD_HEADER {
        return 0, source, dest;
      }
      var s := data[pos..];
      source, dest := ReadEndpoint(s), ReadEndpoint(s[6..]);
      pos := pos + RECORD_HEADER;
      var high := U16(s[14..]);
      if !v2 {
        pos := pos - 2;
        high := 0;
      }
      length := U16(s[12..]) + high * 0x1_0000;
    }

    /** Reads one item of `length` bytes, or nothing. */
    method ReadPacket(buffer: array<byte>, length: nat) returns (read: nat)
      requires Valid() && length <= buffer.Length
      modifies this`pos, buffer
      ensures Valid()
      ensures read == (if |old(data[pos..])| < length then 0 else length)
      ensures read > 0 ==> pos == old(pos) + length && buffer[..length] == old(data[pos..])[..length]
    {
      if |data| - pos < length {
        pos := |data|;
        return 0;
      }
      forall i | 0 <= i < length { buffer[i] := data[pos + i]; }
      assert buffer[..length] == data[pos..][..length];
      pos := pos + length;
      read := length;
    }
  }

  lemma {:induction false} ParsedRecordOk(s: bytes)
    ensures forall i | 0 <= i < |ParseLog(s)| :: 1 <= |ParseLog(s)[i].frame| <= READ_SIZE
    decreases |s|
  {
    if |s| >= RECORD_HEADER {
      var n := RecordLength(s);
      if !(n == 0 || n > READ_SIZE || |s| < RECORD_HEADER + n) {
        ParsedRecordOk(s[RECORD_HEADER + n..]);
      }
    }
  }

  /** The cases of reading one record. */
  lemma ParseLogHead(s: bytes)
    ensures |s| < RECORD_HEADER ==> ParseLog(s) == []
    ensures |s| >= RECORD_HEADER ==>
              var n := RecordLength(s);
              if n == 0 || n > READ_SIZE || |s| < RECORD_HEADER + n then ParseLog(s) == []
              else
                var r := Record(ReadEndpoint(s), ReadEndpoint(s[6..]), s[RECORD_HEADER..RECORD_HEADER + n]);
                ParseLog(s) == [r] + ParseLog(s[RECORD_HEADER + n..])
  {
  }

  // ---------- the tool ----------

  ghost predicate Holds(f: Flow, unread: bytes)
    reads f, f.data
  {
    f.Valid() && f.Unread() == unread && f.data.Length < UINT32_RANGE
  }

  /** A set of separate flows, made of the objects in `repr`, with these unread bytes. */
  ghost predicate Good(flows: map<Link, Flow>, unread: map<Link, bytes>, repr: set<object>, limit: nat)
    reads repr
  {
    && flows.Keys == unread.Keys
    && (forall l :: l in flows ==>
         flows[l] in repr && flows[l].data in repr && Holds(flows[l], unread[l]) && flows[l].used <= limit)
    && (forall l, m :: l in flows && m in flows && l != m ==> flows[l] != flows[m] && flows[l].data != flows[m].data)
  }

  /** Taking one flow out leaves a good set that shares nothing with it. */
  lemma TakeOut(flows: map<Link, Flow>, unread: map<Link, bytes>, repr: set<object>, limit: nat, l: Link)
    requires Good(flows, unread, repr, limit) && l in flows
    ensures Good(flows - {l}, unread - {l}, repr - {flows[l], flows[l].data}, limit)
  {
    hide Holds;
    var rest := repr - {flows[l], flows[l].data};
    forall m | m in flows - {l}
      ensures flows[m] in rest && flows[m].data in rest
    {
      assert (flows[m] as object) != flows[l].data && (flows[m].data as object) != flows[l];
    }
  }

  /** Putting a separate flow in. */
  lemma PutIn(flows: map<Link, Flow>, unread: map<Link, bytes>, repr: set<object>, limit: nat, l: Link, flow: Flow, s: bytes)
    requires Good(flows, unread, repr, limit) && l !in flows
    requires flow !in repr && flow.data !in repr && Holds(flow, s) && flow.used <= limit
    ensures Good(flows[l := flow], unread[l := s], repr + {flow, flow.data}, limit)
  {
    hide Holds;
  }

  lemma RaiseLimit(flows: map<Link, Flow>, unread: map<Link, bytes>, repr: set<object>, limit: nat, limit': nat)
    requires Good(flows, unread, repr, limit) && limit <= limit'
    ensures Good(flows, unread, repr, limit')
  {
    hide Holds;
  }

  class Tool {
    const analyzer: Analyzer
    var flows: map<Link, Flow>
    ghost var unread: map<Link, bytes>
    ghost var repr: set<object>  // the flows and their buffers

    ghost predicate Valid(limit: nat)
      reads this, repr
    {
      && analyzer.Valid() && Good(flows, unread, repr, limit)
      && this !in repr && analyzer.key !in repr && (analyzer as object) !in repr
    }

    constructor (keepalives: bool)
      ensures Valid(0) && unread == map[] && repr == {} && fresh(analyzer) && fresh(analyzer.key)
      ensures analyzer.keepalives == keepalives && analyzer.CurrentKeys() == NO_KEY && analyzer.shown == []
    {
      analyzer := new Analyzer(keepalives);
      flows, unread, repr := map[], map[], {};
    }

    method AppendAndAnalyze(flow: Flow, ghost s: bytes, buffer: array<byte>, len: nat) returns (progress: Progress)
      requires analyzer.Valid() && Holds(flow, s)
      requires flow.data != analyzer.key && flow.data != buffer && buffer != analyzer.key
      requires len <= buffer.Length && flow.used + len <= 0x8000_0000
      requires !AnalyzeBytes(analyzer.keepalives, analyzer.CurrentKeys(), s + buffer[..len]).progress.BadKeyNumber?
      modifies analyzer, analyzer.key, flow, flow.data
      ensures var a := AnalyzeBytes(analyzer.keepalives, old(analyzer.CurrentKeys()), s + old(buffer[..len]));
              && progress == a.progress && analyzer.CurrentKeys() == a.keys
              && analyzer.shown == old(analyzer.shown) + a.shown
              && (progress.Going? ==> Holds(flow, a.rest) && flow.used == old(flow.used) + len)
      ensures flow.data == old(flow.data) || fresh(flow.data)
    {
      hide AnalyzeBytes;
      flow.Append(buffer, len);
      assert flow.Unread() == s + buffer[..len];
      progress := analyzer.AnalyzeFlow(flow);
    }

    /** The flow of these endpoints, or a new one, and the others apart from it. */
    method Select(l: Link, ghost limit: nat) returns (flow: Flow, ghost others: set<object>)
      requires Valid(limit)
      ensures Good(flows - {l}, unread - {l}, others, limit) && others <= repr
      ensures flow !in others && flow.data !in others && Holds(flow, Waiting(unread, l)) && flow.used <= limit
      ensures (flow in repr && flow.data in repr) || (fresh(flow) && fresh(flow.data))
    {
      others := repr;
      if l in flows {
        flow := flows[l];
        TakeOut(flows, unread, repr, limit, l);
        others := repr - {flow, flow.data};
      } else {
        flow := new Flow(262000);
        assert flow.Unread() == [];
        assert flows - {l} == flows && unread - {l} == unread;
      }
    }

    method Insert(l: Link, flow: Flow, ghost s: bytes, ghost others: set<object>, ghost limit: nat)
      requires analyzer.Valid() && this !in others && analyzer.key !in others && (analyzer as object) !in others
      requires Good(flows - {l}, unread - {l}, others, limit)
      requires flow !in others && flow.data !in others && flow.data != analyzer.key
      requires Holds(flow, s) && flow.used <= limit
      modifies this`flows, this`unread, this`repr
      ensures Valid(limit) && unread == old(unread)[l := s] && repr == others + {flow, flow.data}
    {
      hide Good, Holds;
      PutIn(flows - {l}, unread - {l}, others, limit, l, flow, s);
      assert (flows - {l})[l := flow] == flows[l := flow] && (unread - {l})[l := s] == unread[l := s];
      flows, unread, repr := flows[l := flow], unread[l := s], others + {flow, flow.data};
    }

    /** Appends to the flow of these endpoints, made on first use, and analyses as much of it as is complete. */
    method Feed(l: Link, buffer: array<byte>, len: nat, ghost limit: nat) returns (progress: Progress)
      requires Valid(limit) && len <= buffer.Length && limit + len <= 0x8000_0000
      requires buffer != analyzer.key && buffer !in repr
      requires !AnalyzeBytes(analyzer.keepalives, analyzer.CurrentKeys(), Waiting(unread, l) + buffer[..len]).progress.BadKeyNumber?
      modifies this`flows, this`unread, this`repr, analyzer, analyzer.key, repr
      ensures progress.Going? ==> Valid(limit + len)
      ensures var a := AnalyzeBytes(analyzer.keepalives, old(analyzer.CurrentKeys()), Waiting(old(unread), l) + old(buffer[..len]));
              && progress == a.progress && analyzer.CurrentKeys() == a.keys
              && analyzer.shown == old(analyzer.shown) + a.shown
              && (progress.Going? ==> unread == old(unread)[l := a.rest])
      ensures fresh(repr - old(repr))
    {
      hide AnalyzeBytes, Good, Holds;
      var flow; ghost var others, s;
      s := Waiting(unread, l);
      flow, others := Select(l, limit);
      ghost var a := AnalyzeBytes(analyzer.keepalives, analyzer.CurrentKeys(), s + buffer[..len]);
      progress := AppendAndAnalyze(flow, s, buffer, len);
      if progress.Going? {
        RaiseLimit(flows - {l}, unread - {l}, others, limit, limit + len);
        Insert(l, flow, a.rest, others, limit + len);
      }
    }

    /** One round of the main loop. */
    method NextRecord(file: File, buffer: array<byte>) returns (more: bool, progress: Progress)
      requires Valid(file.pos) && file.Valid() && |file.data| <= 0x8000_0000 && buffer.Length == READ_SIZE
      requires buffer != analyzer.key && buffer !in repr && file !in repr
      requires !Dump(analyzer.keepalives, analyzer.CurrentKeys(), unread, ParseLog(file.data[file.pos..])).progress.BadKeyNumber?
      modifies this`flows, this`unread, this`repr, analyzer, analyzer.key, repr, file`pos, buffer
      ensures file.Valid() && fresh(repr - old(repr)) && old(analyzer.shown) <= analyzer.shown
      ensures buffer !in repr && file !in repr
      ensures var d := Dump(analyzer.keepalives, old(analyzer.CurrentKeys()), old(unread), ParseLog(old(file.data[file.pos..])));
              if more then
                && Valid(file.pos) && progress.Going? && old(file.pos) < file.pos
                && d == DumpLater(analyzer.shown[|old(analyzer.shown)|..],
                          Dump(analyzer.keepalives, analyzer.CurrentKeys(), unread, ParseLog(file.data[file.pos..])))
              else
                && progress == d.progress && analyzer.CurrentKeys() == d.keys
                && analyzer.shown == old(analyzer.shown) + d.shown
    {
      hide AnalyzeBytes, Good, ParseLog;
      ghost var s, start := file.data[file.pos..], file.pos;
      ParseLogHead(s);
      more, progress := false, Going;
      var length, source, dest := file.ParseHeader(true);
      if length == 0 || length > READ_SIZE {
        return;
      }
      ghost var body := file.data[file.pos..];
      assert body == s[RECORD_HEADER..];
      var read := file.ReadPacket(buffer, length);
      if read == 0 {
        return;
      }
      ghost var r := Record(source, dest, buffer[..length]);
      assert r.frame == body[..length] == s[RECORD_HEADER..RECORD_HEADER + length];
      assert file.data[file.pos..] == s[RECORD_HEADER + length..];
      ghost var rest := ParseLog(s[RECORD_HEADER + length..]);
      assert ([r] + rest)[1..] == rest;
      LargerLimit(start, file.pos - length);
      progress := Feed(Link(source, dest), buffer, length, file.pos - length);
      more := progress.Going?;
    }

    lemma LargerLimit(limit: nat, limit': nat)
      requires Valid(limit) && limit <= limit'
      ensures Valid(limit')
    {
      RaiseLimit(flows, unread, repr, limit, limit');
    }
  }

  lemma DumpLaterTwice(a: seq<Shown>, b: seq<Shown>, d: Dumped)
    ensures DumpLater(a, DumpLater(b, d)) == DumpLater(a + b, d)
  {
    assert a + (b + d.shown) == (a + b) + d.shown;
  }

  /** The whole tool, on a log file of the second version. */
  method DumpFile(data: bytes, keepalives: bool) returns (tool: Tool, progress: Progress)
    requires 4 <= |data| <= 0x8000_0000 && U32(data) == MAGIC_2
    requires !Dump(keepalives, NO_KEY, map[], ParseLog(data[4..])).progress.BadKeyNumber?
    ensures var d := Dump(keepalives, NO_KEY, map[], ParseLog(data[4..]));
            progress == d.progress && tool.analyzer.shown == d.shown
    ensures tool.analyzer.Valid() && tool.analyzer.CurrentKeys() == Dump(keepalives, NO_KEY, map[], ParseLog(data[4..])).keys
  {
    hide Dump, Good, ParseLog;
    tool := new Tool(keepalives);
    var file := new File(data);
    file.pos := 4;
    var buffer := new byte[READ_SIZE];
    ghost var total := Dump(keepalives, NO_KEY, map[], ParseLog(data[4..]));
    ghost var done: seq<Shown> := [];
    assert DumpLater([], total) == total;
    tool.LargerLimit(0, 4);
    var more := true;
    progress := Going;
    while more
      invariant file.Valid() && file.data == data && fresh(file) && fresh(buffer) && buffer.Length == READ_SIZE
      invariant fresh(tool) && fresh(tool.repr) && fresh(tool.analyzer) && fresh(tool.analyzer.key)
      invariant tool.analyzer.keepalives == keepalives && tool.analyzer.Valid()
      invariant tool.analyzer.shown == done
      invariant more ==> tool.Valid(file.pos) && progress.Going?
      invariant more ==> buffer != tool.analyzer.key && buffer !in tool.repr && file !in tool.repr
      invariant more ==> DumpLater(done, Dump(keepalives, tool.analyzer.CurrentKeys(), tool.unread, ParseLog(file.data[file.pos..]))) == total
      invariant !more ==> progress == total.progress && tool.analyzer.CurrentKeys() == total.keys && done == total.shown
      decreases more, |data| - file.pos
    {
      ghost var before, mark := done, |tool.analyzer.shown|;
      more, progress := tool.NextRecord(file, buffer);
      done := before + tool.analyzer.shown[mark..];
      if more {
        DumpLaterTwice(before, tool.analyzer.shown[mark..],
          Dump(keepalives, tool.analyzer.CurrentKeys(), tool.unread, ParseLog(file.data[file.pos..])));
      }
    }
  }
}
