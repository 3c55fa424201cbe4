/** The dump tool's flows: growing buffers of one direction's bytes, analysed and deciphered in place. */
module Flows {
  import opened Bytes
  import opened Frames
  import opened Receiver
  import opened Replay
  import opened InPlace

  // ---------- specification ----------

  datatype FlowResult = FlowResult(progress: Progress, keys: Keys, shown: seq<Shown>, rest: bytes)

  const LONGEST := 131072

  /** All complete frames at the head of the unread bytes. */
  function AnalyzeBytes(keepalives: bool, keys: Keys, s: bytes): (r: FlowResult)
    ensures |r.rest| <= |s|
    decreases |s|
  {
    if |s| < HEADER then FlowResult(Going, keys, [], s)
    else
      var n := U32(s);
      if n > LONGEST then FlowResult(TooLong, keys, [], s)
      else if n < HEADER || n > |s| then FlowResult(Going, keys, [], s)
      else
        var a := AnalyzeFrame(keepalives, keys, s[..n]);
        if !a.progress.Going? then FlowResult(a.progress, a.keys, a.shown, s)
        else Later(a.shown, AnalyzeBytes(keepalives, a.keys, s[n..]))
  }

  function Later(shown: seq<Shown>, r: FlowResult): FlowResult {
    r.(shown := shown + r.shown)
  }

  lemma LaterTwice(a: seq<Shown>, b: seq<Shown>, r: FlowResult)
    ensures Later(a, Later(b, r)) == Later(a + b, r)
  {
    assert a + (b + r.shown) == (a + b) + r.shown;
  }

  /** A flow that holds nothing but one whole frame: it is analysed and nothing is left. */
  lemma OneWholeFrame(keepalives: bool, keys: Keys, f: bytes)
    requires IsFrame(f) && |f| <= LONGEST
    ensures var a, r := AnalyzeFrame(keepalives, keys, f), AnalyzeBytes(keepalives, keys, f);
            && r.progress == a.progress && r.keys == a.keys && r.shown == a.shown
            && (r.progress.Going? ==> r.rest == [])
  {
    hide AnalyzeFrame;
    assert f[..|f|] == f && f[|f|..] == [];
    var a := AnalyzeFrame(keepalives, keys, f);
    assert AnalyzeBytes(keepalives, a.keys, []) == FlowResult(Going, a.keys, [], []);
    assert a.shown + [] == a.shown;
  }

  /** More bytes only continue the analysis. */
  lemma {:induction false} AnalysisContinues(keepalives: bool, keys: Keys, s: bytes, t: bytes)
    ensures var r := AnalyzeBytes(keepalives, keys, s);
            r.progress.Going? ==>
              AnalyzeBytes(keepalives, keys, s + t) == Later(r.shown, AnalyzeBytes(keepalives, r.keys, r.rest + t))
    decreases |s|
  {
    hide AnalyzeFrame;
    if |s| < HEADER {
      assert [] + AnalyzeBytes(keepalives, keys, s + t).shown == AnalyzeBytes(keepalives, keys, s + t).shown;
    } else {
      var n := U32(s);
      HeadFrame(s, t, 4);
      if HEADER <= n <= LONGEST && n <= |s| {
        HeadFrame(s, t, n);
        var a := AnalyzeFrame(keepalives, keys, s[..n]);
        if a.progress.Going? {
          AnalysisContinues(keepalives, a.keys, s[n..], t);
          var r := AnalyzeBytes(keepalives, a.keys, s[n..]);
          LaterTwice(a.shown, r.shown, AnalyzeBytes(keepalives, r.keys, r.rest + t));
        }
      } else {
        assert [] + AnalyzeBytes(keepalives, keys, s + t).shown == AnalyzeBytes(keepalives, keys, s + t).shown;
      }
    }
  }

  /** A stream the tool waits to see more of: less than a header, or a length it cannot have yet, or never will. */
  predicate Waits(s: bytes) {
    HEADER <= |s| ==> U32(s) <= LONGEST && (U32(s) < HEADER || |s| < U32(s))
  }

  /** Where analysis stops: at bytes to wait on, at an impossible length, or in front of the frame that was fatal. */
  ghost predicate StopsRight(r: FlowResult, s: bytes) {
    && |r.rest| <= |s| && s[|s| - |r.rest|..] == r.rest
    && (r.progress.Going? <==> Waits(r.rest))
    && (r.progress.TooLong? <==> HEADER <= |r.rest| && LONGEST < U32(r.rest))
  }

  lemma {:induction false} AnalysisStops(keepalives: bool, keys: Keys, s: bytes)
    ensures StopsRight(AnalyzeBytes(keepalives, keys, s), s)
    decreases |s|
  {
    hide AnalyzeFrame, U32;
    if HEADER <= |s| && HEADER <= U32(s) <= LONGEST && U32(s) <= |s| {
      var n := U32(s);
      var a := AnalyzeFrame(keepalives, keys, s[..n]);
      NeverTooLong(keepalives, keys, s[..n]);
      if a.progress.Going? {
        var r := AnalyzeBytes(keepalives, a.keys, s[n..]);
        assert AnalyzeBytes(keepalives, keys, s) == Later(a.shown, r);
        AnalysisStops(keepalives, a.keys, s[n..]);
        hide AnalyzeBytes, StopsRight;
        StopsLater(a.shown, r, s, n);
      }
    }
  }

  lemma StopsLater(shown: seq<Shown>, r: FlowResult, s: bytes, n: nat)
    requires n <= |s| && StopsRight(r, s[n..])
    ensures StopsRight(Later(shown, r), s)
  {
    hide U32, Waits;
    var m := |s| - n - |r.rest|;
    assert s[n..][m..] == s[n + m..];
  }

  lemma WaitsIdle(keepalives: bool, keys: Keys, s: bytes)
    requires Waits(s)
    ensures AnalyzeBytes(keepalives, keys, s) == FlowResult(Going, keys, [], s)
  {
  }

  lemma NeverTooLong(keepalives: bool, keys: Keys, f: Frame)
    ensures !AnalyzeFrame(keepalives, keys, f).progress.TooLong?
  {
  }

  /** What was fatal stays fatal, whatever follows. */
  lemma {:induction false} FatalStays(keepalives: bool, keys: Keys, s: bytes, t: bytes)
    requires !AnalyzeBytes(keepalives, keys, s).progress.Going?
    ensures var r, q := AnalyzeBytes(keepalives, keys, s), AnalyzeBytes(keepalives, keys, s + t);
            q.progress == r.progress && q.keys == r.keys && q.shown == r.shown
    decreases |s|
  {
    hide AnalyzeFrame;
    var n := U32(s);
    HeadFrame(s, t, 4);
    if n <= LONGEST {
      HeadFrame(s, t, n);
      var a := AnalyzeFrame(keepalives, keys, s[..n]);
      if a.progress.Going? {
        FatalStays(keepalives, a.keys, s[n..], t);
      }
    }
  }

  // ---------- the buffer ----------

  class Flow {
    var data: array<byte>
    var used: nat
    var offset: nat
    ghost var stream: bytes  // all that was ever appended, as it arrived

    ghost predicate Valid()
      reads this, data
    {
      && 0 < data.Length && offset <= used <= data.Length && |stream| == used
      && data[offset..used] == stream[offset..]
    }

    /** What has not been analysed yet. */
    ghost function Unread(): bytes
      requires Valid()
      reads this, data
    {
      stream[offset..]
    }

    constructor (size: nat)
      requires 0 < size
      ensures Valid() && fresh(data) && stream == [] && offset == 0 && data.Length == size
    {
      data := new byte[size];
      used, offset, stream := 0, 0, [];
    }

    /** One doubling: a larger buffer with the same contents. */
    method Grow()
      requires Valid() && 2 * data.Length < UINT32_RANGE
      modifies this`data
      ensures Valid() && fresh(data) && data.Length == 2 * old(data.Length)
      ensures data[..used] == old(data[..used])
    {
      var bigger := new byte[data.Length * 2];
      forall i | 0 <= i < used { bigger[i] := data[i]; }
      assert bigger[..used] == data[..used];
      assert bigger[offset..used] == bigger[..used][offset..] == data[offset..used];
      data := bigger;
    }

    /** Doubles the buffer until the new bytes fit; below 2 GiB the 32-bit sizes do not wrap. */
    method Append(buffer: array<byte>, len: nat)
      requires Valid() && buffer != data && len <= buffer.Length
      requires used + len <= 0x8000_0000 && data.Length < UINT32_RANGE
      modifies this, data
      ensures Valid() && data.Length < UINT32_RANGE && (data == old(data) || fresh(data))
      ensures used == old(used) + len && offset == old(offset)
      ensures stream == old(stream) + buffer[..len]
      ensures data[..used] == old(data[..used]) + buffer[..len]
    {
      ghost var before := data[..used];
      while used + len > data.Length
        invariant Valid() && buffer != data && data.Length < UINT32_RANGE && (data == old(data) || fresh(data))
        invariant used == old(used) && offset == old(offset) && stream == old(stream)
        invariant data[..used] == before
        decreases used + len - data.Length
      {
        Grow();
      }
      assert data[offset..used] == before[offset..];
      forall i | 0 <= i < len { data[used + i] := buffer[i]; }
      stream := stream + buffer[..len];
      used := used + len;
      assert data[..used] == before + buffer[..len];
      assert data[offset..used] == before[offset..] + buffer[..len];
    }
  }

  // ---------- the analysis ----------

  /** The tool's state: one key for all flows, and what it has shown. */
  class Analyzer {
    const keepalives: bool
    const key: array<byte>
    var haveKey: bool
    var shown: seq<Shown>

    ghost predicate Valid()
    {
      key.Length == KEY_LENGTH
    }

    ghost function CurrentKeys(): Keys
      requires Valid()
      reads this, key
    {
      Keys(key[..], haveKey)
    }

    constructor (keepalives: bool)
      ensures Valid() && fresh(key) && this.keepalives == keepalives
      ensures CurrentKeys() == Keys([0, 0, 0, 0, 0, 0, 0, 0, 0, 0], false) && shown == []
    {
      this.keepalives := keepalives;
      key := new byte[KEY_LENGTH](_ => 0);
      haveKey, shown := false, [];
    }

    method TakeKey(data: array<byte>, at: nat)
      requires Valid() && data != key && at + HEADER + KEY_LENGTH <= data.Length
      modifies key, this`haveKey
      ensures CurrentKeys() == Keys(KeyFromData(data[at + HEADER..at + 22]), true)
    {
      hide Decipher;
      for n := 0 to KEY_LENGTH
        invariant forall j | 0 <= j < n :: key[j] == Decipher(data[at + HEADER + j], 8)
      {
        key[n] := Decipher(data[at + HEADER + n], 8);
      }
      haveKey := true;
    }

    /** Deciphers and shows the frame of `n` bytes at `at`; outside it nothing changes. */
    method Decipher'(data: array<byte>, at: nat, n: nat)
      requires Valid() && data != key && HEADER <= n && at + n <= data.Length && KeyNumberOk(data[at + 7])
      modifies data, this`shown
      ensures var f := old(data[at..at + n]);
              var k := KeyByte(key[..], f[7]);
              shown == old(shown) + [Shown(Payload(Opened(f, k)), haveKey, Sound(f, k))]
      ensures data[..at] == old(data[..at]) && data[at + n..] == old(data[at + n..])
    {
      hide HeaderSumOk, DataSumOk, Opened;
      ghost var f := data[at..at + n];
      assert f[7] == data[at + 7];
      var number := data[at + 7];
      var k := if number != 0xff then key[number] else 8;
      var headerOk := HeaderCheck(data, at, n);
      var dataOk := OpenInPlace(data, at, n, k);
      ghost var plain := data[at..at + n];
      assert data[at + HEADER..at + n] == Payload(plain);
      shown := shown + [Shown(data[at + HEADER..at + n], haveKey, headerOk && dataOk)];
    }

    method AnalyzePacket(data: array<byte>, at: nat, n: nat) returns (progress: Progress)
      requires Valid() && data != key && HEADER <= n && at + n <= data.Length
      requires !AnalyzeFrame(keepalives, CurrentKeys(), data[at..at + n]).progress.BadKeyNumber?
      modifies data, key, this`haveKey, this`shown
      ensures var a := AnalyzeFrame(keepalives, old(CurrentKeys()), old(data[at..at + n]));
              progress == a.progress && CurrentKeys() == a.keys && shown == old(shown) + a.shown
      ensures data[..at] == old(data[..at]) && data[at + n..] == old(data[at + n..])
    {
      hide HeaderSumOk, DataSumOk, Opened, KeyFromData, Sound;
      ghost var f := data[at..at + n];
      assert f[4] == data[at + 4] && f[7] == data[at + 7];
      progress := Going;
      var flag := data[at + 4];
      if IsKeepalive(flag) && !keepalives {
        return;
      }
      if HasKey(flag) {
        if n != HEADER + KEY_LENGTH {
          return WrongKeySize;
        }
        assert Payload(f) == data[at + HEADER..at + 22];
        TakeKey(data, at);
      } else if flag == FLAG_ENCRYPTED {
        Decipher'(data, at, n);
      }
    }

    /** One round of the loop. */
    method NextPacket(flow: Flow) returns (more: bool, progress: Progress)
      requires Valid() && flow.Valid() && flow.data != key
      requires !AnalyzeBytes(keepalives, CurrentKeys(), flow.Unread()).progress.BadKeyNumber?
      modifies flow`offset, flow.data, key, this`haveKey, this`shown
      ensures more || progress.Going? ==> flow.Valid()
      ensures var r := AnalyzeBytes(keepalives, old(CurrentKeys()), old(flow.Unread()));
              if more then
                && old(flow.offset) < flow.offset
                && old(shown) <= shown
                && r == Later(shown[|old(shown)|..], AnalyzeBytes(keepalives, CurrentKeys(), flow.Unread()))
              else
                && progress == r.progress && CurrentKeys() == r.keys && shown == old(shown) + r.shown
                && (progress.Going? ==> flow.Unread() == r.rest)
    {
      hide AnalyzeFrame, AnalyzeBytes;
      ghost var s, keys := flow.Unread(), CurrentKeys();
      AnalyzeHead(keepalives, keys, s);
      more, progress := false, Going;
      var at := flow.offset;
      if flow.used - at < HEADER {
        return;
      }
      var n := Load32(flow.data, at);
      assert flow.data[at..][..4] == s[..4] by { SamePrefix(flow.data, at, flow.used, s); }
      WordOfPrefix(flow.data[at..], s);
      if n > LONGEST {
        progress := TooLong;
        return;
      }
      if n < HEADER || n > flow.used - at {
        return;
      }
      progress := PacketAt(flow, n);
      more := progress.Going?;
    }

    /** Analyses the first `n` unread bytes and moves past them. */
    method PacketAt(flow: Flow, n: nat) returns (progress: Progress)
      requires Valid() && flow.Valid() && flow.data != key && HEADER <= n <= |flow.Unread()|
      requires !AnalyzeFrame(keepalives, CurrentKeys(), flow.Unread()[..n]).progress.BadKeyNumber?
      modifies flow`offset, flow.data, key, this`haveKey, this`shown
      ensures var a := AnalyzeFrame(keepalives, old(CurrentKeys()), old(flow.Unread())[..n]);
              && progress == a.progress && CurrentKeys() == a.keys && shown == old(shown) + a.shown
      ensures progress.Going? ==>
                && flow.Valid() && flow.offset == old(flow.offset) + n
                && flow.Unread() == old(flow.Unread())[n..]
    {
      hide AnalyzeFrame;
      ghost var at, end, s := flow.offset, flow.used, flow.Unread();
      ghost var tail := flow.data[at + n..];
      Window(flow.data[..], at, n, end);
      assert flow.data[at..at + n] == s[..n] && tail[..end - (at + n)] == s[n..];
      progress := AnalyzePacket(flow.data, flow.offset, n);
      assert flow.data[at + n..end] == tail[..end - (at + n)];
      if progress.Going? {
        flow.offset := flow.offset + n;
      }
    }

    /** Analyses every complete frame that has not been analysed yet. */
    method AnalyzeFlow(flow: Flow) returns (progress: Progress)
      requires Valid() && flow.Valid() && flow.data != key
      requires !AnalyzeBytes(keepalives, CurrentKeys(), flow.Unread()).progress.BadKeyNumber?
      modifies flow`offset, flow.data, key, this`haveKey, this`shown
      ensures progress.Going? ==> flow.Valid() && old(flow.offset) <= flow.offset
      ensures var r := AnalyzeBytes(keepalives, old(CurrentKeys()), old(flow.Unread()));
              && progress == r.progress && CurrentKeys() == r.keys && shown == old(shown) + r.shown
              && (progress.Going? ==> flow.Unread() == r.rest)
    {
      hide AnalyzeBytes;
      ghost var total := AnalyzeBytes(keepalives, CurrentKeys(), flow.Unread());
      ghost var shown0 := shown;
      var more := true;
      progress := Going;
      ghost var done: seq<Shown> := [];
      assert Later([], total) == total;
      while more
        invariant shown == shown0 + done
        invariant more || progress.Going? ==> flow.Valid() && old(flow.offset) <= flow.offset
        invariant more ==> Later(done, AnalyzeBytes(keepalives, CurrentKeys(), flow.Unread())) == total
        invariant !more ==> progress == total.progress && CurrentKeys() == total.keys && done == total.shown
        invariant !more && progress.Going? ==> flow.Unread() == total.rest
        decreases more, flow.used - flow.offset
      {
        ghost var before, mark := done, |shown|;
        more, progress := NextPacket(flow);
        done := before + shown[mark..];
        if more {
          LaterTwice(before, shown[mark..], AnalyzeBytes(keepalives, CurrentKeys(), flow.Unread()));
        }
      }
    }
  }

  /** The cases of the loop, on the unread bytes. */
  lemma Window(d: bytes, at: nat, n: nat, end: nat)
    requires at + n <= end <= |d|
    ensures d[at..at + n] == d[at..end][..n]
    ensures d[at + n..][..end - (at + n)] == d[at..end][n..]
  {
    assert d[at..end][n..] == d[at + n..end];
    assert d[at + n..][..end - (at + n)] == d[at + n..end];
  }

  lemma AnalyzeHead(keepalives: bool, keys: Keys, s: bytes)
    ensures |s| < HEADER ==> AnalyzeBytes(keepalives, keys, s) == FlowResult(Going, keys, [], s)
    ensures |s| >= HEADER ==>
              var n, r := U32(s), AnalyzeBytes(keepalives, keys, s);
              if n > LONGEST then r == FlowResult(TooLong, keys, [], s)
              else if n < HEADER || n > |s| then r == FlowResult(Going, keys, [], s)
              else
                var a := AnalyzeFrame(keepalives, keys, s[..n]);
                if a.progress.Going? then r == Later(a.shown, AnalyzeBytes(keepalives, a.keys, s[n..]))
                else r == FlowResult(a.progress, a.keys, a.shown, s)
  {
    hide AnalyzeFrame;
  }

  lemma SamePrefix(p: array<byte>, at: nat, end: nat, s: bytes)
    requires at + 4 <= end <= p.Length && p[at..end] == s
    ensures p[at..][..4] == s[..4]
  {
  }

  lemma WordOfPrefix(a: bytes, b: bytes)
    requires 4 <= |a| && 4 <= |b| && a[..4] == b[..4]
    ensures U32(a) == U32(b)
  {
    assert forall i | 0 <= i < 4 :: a[i] == a[..4][i] && b[i] == b[..4][i];
  }
}
