/** The packet log: what the logger appends to its file and what the dump tool reads back. */
module LogFile {
  import opened Bytes
  import opened Frames

  /** An IPv4 address and port. */
  datatype Endpoint = Endpoint(address: uint32, port: nat)

  predicate EndpointOk(e: Endpoint) {
    e.port < 0x1_0000
  }

  datatype Record = Record(source: Endpoint, dest: Endpoint, frame: bytes)

  const RECORD_HEADER := 16
  const MAGIC_2: uint32 := 0x2b4d6f52

  /** The tool's read buffer. */
  const READ_SIZE := 131072

  predicate RecordOk(r: Record) {
    EndpointOk(r.source) && EndpointOk(r.dest) && 1 <= |r.frame| <= READ_SIZE
  }

  function EndpointBytes(e: Endpoint): (s: bytes)
    requires EndpointOk(e)
    ensures |s| == 6
  {
    PutU32(e.address) + PutU16(e.port)
  }

  function ReadEndpoint(s: bytes): (e: Endpoint)
    requires 6 <= |s|
  {
    Endpoint(U32(s), U16(s[4..]))
  }

  /** A 32-bit length split over two 16-bit fields. */
  function LengthBytes(n: uint32): (s: bytes)
    ensures |s| == 4
  {
    PutU16(n % 0x1_0000) + PutU16(n / 0x1_0000)
  }

  function RecordBytes(r: Record): (s: bytes)
    requires RecordOk(r)
    ensures |s| == RECORD_HEADER + |r.frame|
  {
    EndpointBytes(r.source) + EndpointBytes(r.dest) + LengthBytes(|r.frame|) + r.frame
  }

  function LogBytes(records: seq<Record>): bytes
    requires forall i | 0 <= i < |records| :: RecordOk(records[i])
  {
    if records == [] then [] else RecordBytes(records[0]) + LogBytes(records[1..])
  }

  /** The length a record header announces; negative lengths appear as those too large. */
  function RecordLength(s: bytes): nat
    requires RECORD_HEADER <= |s|
  {
    U16(s[12..]) + 0x1_0000 * U16(s[14..])
  }

  /** The records read before the first short, empty or oversized one. */
  function ParseLog(s: bytes): seq<Record>
    decreases |s|
  {
    if |s| < RECORD_HEADER then []
    else
      var n := RecordLength(s);
      if n == 0 || n > READ_SIZE || |s| < RECORD_HEADER + n then []
      else
        [Record(ReadEndpoint(s), ReadEndpoint(s[6..]), s[RECORD_HEADER..RECORD_HEADER + n])] +
        ParseLog(s[RECORD_HEADER + n..])
  }

  lemma ReadFields(a: bytes, b: bytes, c: bytes, d: bytes)
    requires |a| == 6 && |b| == 6 && |c| == 4
    ensures var s := a + b + c + d;
            && ReadEndpoint(s) == ReadEndpoint(a) && ReadEndpoint(s[6..]) == ReadEndpoint(b)
            && RecordLength(s) == U16(c) + 0x1_0000 * U16(c[2..]) && s[RECORD_HEADER..] == d
  {
    var s := a + b + c + d;
    assert s[2..][..2] == a[2..][..2] && s[4..][..2] == a[4..][..2];
    assert s[6..][..6] == b;
    assert s[6..][2..][..2] == b[2..][..2] && s[6..][4..][..2] == b[4..][..2];
    assert s[12..][..4] == c;
    assert s[14..][..2] == c[2..][..2];
  }

  lemma EndpointRead(e: Endpoint)
    requires EndpointOk(e)
    ensures ReadEndpoint(EndpointBytes(e)) == e
  {
    var s := EndpointBytes(e);
    assert s[2..][..2] == PutU32(e.address)[2..];
    assert s[4..] == PutU16(e.port);
  }

  /** One record, then whatever follows it. */
  lemma ParseOneRecord(r: Record, tail: bytes)
    requires RecordOk(r)
    ensures ParseLog(RecordBytes(r) + tail) == [r] + ParseLog(tail)
  {
    var n := |r.frame|;
    var a, b, c, d := EndpointBytes(r.source), EndpointBytes(r.dest), LengthBytes(n), r.frame + tail;
    var s := a + b + c + d;
    assert RecordBytes(r) + tail == s;
    ReadFields(a, b, c, d);
    EndpointRead(r.source);
    EndpointRead(r.dest);
    assert c[2..] == PutU16(n / 0x1_0000) && U16(c) == n % 0x1_0000 && RecordLength(s) == n;
    assert s[RECORD_HEADER..RECORD_HEADER + n] == s[RECORD_HEADER..][..n] == r.frame;
    assert s[RECORD_HEADER + n..] == s[RECORD_HEADER..][n..] == tail;
  }

  /** Where the fields of a written record lie, low octets first: two addresses with their ports, the length in halves. */
  lemma RecordLayout(r: Record)
    requires RecordOk(r)
    ensures var s := RecordBytes(r);
            && U32(s) == r.source.address && U16(s[4..]) == r.source.port
            && U32(s[6..]) == r.dest.address && U16(s[10..]) == r.dest.port
            && U16(s[12..]) == |r.frame| % 0x1_0000 && U16(s[14..]) == |r.frame| / 0x1_0000
            && s[16..] == r.frame
  {
    var n := |r.frame|;
    var a, b, c := EndpointBytes(r.source), EndpointBytes(r.dest), LengthBytes(n);
    var s := RecordBytes(r);
    EndpointRead(r.source);
    EndpointRead(r.dest);
    ReadFields(a, b, c, r.frame);
    assert s == a + b + c + r.frame;
    assert s[6..][4..] == s[10..];
    assert s[12..][..2] == c[..2] == PutU16(n % 0x1_0000);
    assert s[14..][..2] == c[2..] == PutU16(n / 0x1_0000);
  }

  /** No record starts here: too few octets, or a length that is none or too large. */
  predicate NoRecord(s: bytes) {
    RECORD_HEADER <= |s| ==>
      var n := U16(s[12..]) + 0x1_0000 * U16(s[14..]);
      n == 0 || READ_SIZE < n || |s| < RECORD_HEADER + n
  }

  lemma RecordReadBack(s: bytes, n: nat)
    requires RECORD_HEADER + n <= |s| && n == RecordLength(s) && 1 <= n <= READ_SIZE
    ensures var r := Record(ReadEndpoint(s), ReadEndpoint(s[6..]), s[RECORD_HEADER..RECORD_HEADER + n]);
            RecordOk(r) && RecordBytes(r) == s[..RECORD_HEADER + n]
  {
    EndpointReadBack(s);
    EndpointReadBack(s[6..]);
    WordsSpellBack(s[12..]);
    WordsSpellBack(s[14..] + [0, 0]);
    assert (s[14..] + [0, 0])[..2] == s[14..][..2] == s[14..16];
    assert U16(s[14..] + [0, 0]) == U16(s[14..]);
    assert s[12..][..2] == s[12..14] && s[6..][..6] == s[6..12];
    assert LengthBytes(n) == s[12..14] + s[14..16];
    hide U16, ReadEndpoint, EndpointBytes, LengthBytes;
    assert s[..6] + s[6..12] + (s[12..14] + s[14..16]) + s[16..16 + n] == s[..16 + n];
  }

  lemma EndpointReadBack(s: bytes)
    requires 8 <= |s|
    ensures EndpointOk(ReadEndpoint(s)) && EndpointBytes(ReadEndpoint(s)) == s[..6]
  {
    WordsSpellBack(s);
    WordsSpellBack(s[4..]);
    assert s[4..][..2] == s[4..6];
    hide U32, U16;
    assert s[..4] + s[4..6] == s[..6];
  }

  /** Of any octets at all, what is read is what was written, up to the first place where no record can start. */
  lemma {:induction false} LogReadExactly(s: bytes) returns (tail: bytes)
    ensures var records := ParseLog(s);
            && (forall i | 0 <= i < |records| :: RecordOk(records[i]))
            && s == LogBytes(records) + tail && NoRecord(tail)
    decreases |s|
  {
    if NoRecord(s) {
      tail := s;
      assert [] + s == s;
    } else {
      var n := RecordLength(s);
      RecordReadBack(s, n);
      tail := LogReadExactly(s[RECORD_HEADER + n..]);
      var r := Record(ReadEndpoint(s), ReadEndpoint(s[6..]), s[RECORD_HEADER..RECORD_HEADER + n]);
      hide RecordOk, RecordBytes, ReadEndpoint;
      var rest := ParseLog(s[RECORD_HEADER + n..]);
      assert ParseLog(s) == [r] + rest && ([r] + rest)[1..] == rest;
      assert LogBytes([r] + rest) == RecordBytes(r) + LogBytes(rest);
      assert s == s[..RECORD_HEADER + n] + s[RECORD_HEADER + n..];
    }
  }

  /** Everything logged is read back, then whatever follows it. */
  lemma {:induction false} LogRoundTrip(records: seq<Record>, tail: bytes)
    requires forall i | 0 <= i < |records| :: RecordOk(records[i])
    ensures ParseLog(LogBytes(records) + tail) == records + ParseLog(tail)
    decreases |records|
  {
    hide ParseLog, RecordBytes;
    if records == [] {
      assert LogBytes(records) + tail == tail && records + ParseLog(tail) == ParseLog(tail);
    } else {
      var rest := LogBytes(records[1..]) + tail;
      assert LogBytes(records) + tail == RecordBytes(records[0]) + rest;
      ParseOneRecord(records[0], rest);
      LogRoundTrip(records[1..], tail);
      assert records == [records[0]] + records[1..];
    }
  }

  /** `m` records fit completely into the first `k` bytes of the log. */
  ghost predicate Complete(records: seq<Record>, k: nat, m: nat)
    requires forall i | 0 <= i < |records| :: RecordOk(records[i])
  {
    && m <= |records| && |LogBytes(records[..m])| <= k
    && (m < |records| ==> k < |LogBytes(records[..m + 1])|)
  }

  lemma {:induction false} CompleteRecords(records: seq<Record>, k: nat) returns (m: nat)
    requires forall i | 0 <= i < |records| :: RecordOk(records[i])
    requires k <= |LogBytes(records)|
    ensures Complete(records, k, m) && ParseLog(LogBytes(records)[..k]) == records[..m]
    decreases |records|
  {
    hide ParseLog, RecordBytes;
    m := 0;
    if records == [] {
      NothingParsed();
      assert LogBytes(records)[..k] == [] && records[..0] == [];
    } else {
      var r, rest := records[0], records[1..];
      var one, s := RecordBytes(r), LogBytes(records)[..k];
      LogOfPrefix(records, 0);
      assert records[..0] == [] && rest[..0] == [];
      if k < |one| {
        assert s == one[..k];
        CutRecord(r, k);
      } else {
        m := CompleteRecords(rest, k - |one|);
        assert s == one + LogBytes(rest)[..k - |one|];
        ParseOneRecord(r, LogBytes(rest)[..k - |one|]);
        assert [r] + rest[..m] == records[..m + 1];
        LogOfPrefix(records, m);
        if m < |rest| {
          LogOfPrefix(records, m + 1);
        }
        m := m + 1;
      }
    }
  }

  /** A log cut off anywhere yields the records that were completely written, and no others. */
  lemma TruncatedLog(records: seq<Record>, k: nat)
    requires forall i | 0 <= i < |records| :: RecordOk(records[i])
    requires k <= |LogBytes(records)|
    ensures exists m: nat | m <= |records| :: Complete(records, k, m) && ParseLog(LogBytes(records)[..k]) == records[..m]
  {
    var m := CompleteRecords(records, k);
  }

  lemma NothingParsed()
    ensures ParseLog([]) == []
  {
  }

  lemma LogOfPrefix(records: seq<Record>, m: nat)
    requires forall i | 0 <= i < |records| :: RecordOk(records[i])
    requires m < |records|
    ensures LogBytes(records[..m + 1]) == RecordBytes(records[0]) + LogBytes(records[1..][..m])
  {
    assert records[..m + 1][1..] == records[1..][..m];
  }

  lemma CutRecord(r: Record, k: nat)
    requires RecordOk(r) && k < |RecordBytes(r)|
    ensures ParseLog(RecordBytes(r)[..k]) == []
  {
    var s := RecordBytes(r)[..k];
    if k >= RECORD_HEADER {
      var n := |r.frame|;
      var a, b, c := EndpointBytes(r.source), EndpointBytes(r.dest), LengthBytes(n);
      assert s == a + b + c + r.frame[..k - RECORD_HEADER];
      ReadFields(a, b, c, r.frame[..k - RECORD_HEADER]);
      assert c[2..] == PutU16(n / 0x1_0000) && U16(c) == n % 0x1_0000;
    }
  }
}
