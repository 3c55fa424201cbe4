# Runes of Magic protocol tools: a verified model

The tools in this repository sit between a game client and its server. A proxy reassembles frames from two TCP
streams, checks and deciphers them, follows the session key and relays every packet; a logger writes what passes to a
file; a dump tool reads the file back, deciphers it a second time and decodes each packet by a schema, unpacking
compressed parts on the way. This project models those byte-level machines and proves what they promise each other.

The model keeps the form of the code. What updates arrays and fields is a class or a method with loops (`RomPack`,
`RomPacker`, `Packing`, `InPlace`, `RomConnection`, `ProxiedConnection`, `Flows`, `RomDump`, `Interpreter`), proved
equal to a specification function; what the code is for is then proved about that function.

| modules | part of the system |
|---|---|
| `Bytes` | octets, little-endian words, sums, exclusive or |
| `RomPackFormat`, `RomPackDecoder` | the packed format: commands, their meaning, their spelling, and a reading function |
| `RomPack`, `RomPacker`, `Packing` | the goto machine, the literal-only packer, the dump tool's transformation |
| `Frames`, `Receiver`, `Sender` | frames, cipher, checksums; what a connection makes of a stream; what it writes |
| `InPlace`, `RomConnection` | the same on one shared buffer: `Buffer`, `Connection`, the packet log |
| `Relay`, `Proxy`, `Ledger`, `Keepalives`, `Numbering`, `ProxiedConnection` | callbacks of the two connections; whole runs of the proxy; log against traffic; replies and sequence numbers; the class that runs them |
| `LogFile`, `Replay`, `Flows`, `RomDump`, `LogReplay` | log records, the second decoder, growing flows, the main loop, wire to log to dump |
| `Schema`, `Interpreter`, `GeneratedParser` | nested packet schemas, the recursive decoder, the tests the code generator emits |

## Main results

* **The decompressor accepts exactly the encodings.** `RomPack.Unpack` succeeds if and only if its input spells a
  program of the format, and then writes what the program means. A program is an optional initial run, literal runs,
  four kinds of match with 0 to 3 trailing literals, and an end marker. Programs have one spelling each, and no
  encoding is the beginning of another.
* **The packer round-trips exactly from 19 bytes on**, with its exact output size; below 18 the length byte wraps and
  the decoder leaves its input.
* **How the network cuts the stream does not matter**: any chunking gives the same callbacks and outcome as one parse
  of the whole stream, and the receive buffer never refuses a read.
* **Whole runs of the proxy.** For every interleaving of reads from the two sides, with the server changing keys
  whenever it likes, the client recovers every key and payload the server sent, in order and unchanged, as long as the
  client itself sends no key. One client key frame splits the two keys unless it repeats the server's.
* **The books balance.** In every run, however it ends, the log holds in each of the four directions exactly the frames
  received or written there, in order; only keepalive replies go unlogged, one for each request received. Relayed packets
  are numbered without a gap.
* **The log tells the run.** The file written by the server-side log, replayed by the dump tool, shows every payload
  the proxy handed over in either direction, in order, with at most one frame more: the one that closed the connection,
  reported with a bad checksum.
* **Size is meaning.** A schema of constant size takes all its bytes exactly when every leaf at every depth matches, so
  the size checks of the packet decoder are checks of content. A packed struct behind a header passes through
  transformation and decoder. What is recognised is exactly the first packet to fit, and variable strings and lists fit at
  every size in their limits. Frames passing the generated parser's tests are used up by the interpreter, exactly
  when no header field follows the length field.

Where comments and code differ, the model follows the code:

* `lib/rompack.cc:49` says a first byte of at least 0x11 opens the initial run; line 57 tests for more than 0x11.
* `lib/rompack.cc:183-185` gives the far match's bits as 0010..; the codes are 0x10 to 0x1F and bit 3 counts 0x4000 bytes
  (line 195), not 2048.
* A byte below 0x10 right after trailing literals is refused and leaves the length at 0 (`lib/rompack.cc:178-179`).
* `lib/romconnection.cc:87` says a new key holds from the next packet on, and `romproxy/romproxiedconnection.cc:123`
  that a key from the client is ignored; the key has been overwritten by then (lines 88-90), which
  `Proxy.ClientKeySplitsKeys` states.

## Model

| member | source | states |
|---|---|---|
| RomPackFormat.CopyBack | lib/rompack.cc:33-37 | a match only extends the output, by its count; earlier output stays |
| RomPackFormat.CopyBackEachByte | lib/rompack.cc:146-151 | each copied byte equals the one `distance` before it in the result, also when source and target overlap |
| RomPackFormat.CopyBackRepeats | lib/rompack.cc:212-214 | a count beyond the distance repeats the last `distance` bytes of the old output periodically |
| RomPackFormat.Expand | lib/rompack.cc:55-214 | a program only ever appends to the output |
| RomPackFormat.CountOctets | lib/rompack.cc:39-46 | a count is its field, or the mask plus 255 for each zero octet plus the closing one |
| RomPackFormat.ShortOctets | lib/rompack.cc:97-106 | the octets 0000aakk bbbbbbbb spell three bytes from aa + 4b + 0x801 back, with k literals |
| RomPackFormat.NearOctets | lib/rompack.cc:138-148 | cccbbbkk dddddddd spell ccc + 1 bytes from bbb + 8d + 1 back |
| RomPackFormat.MidOctets | lib/rompack.cc:153-164 | 001nnnnn and a little-endian word spell n + 2 bytes from its upper 14 bits + 1 back |
| RomPackFormat.FarOctets | lib/rompack.cc:195-209 | 0001bnnn and a word spell n + 2 bytes from 0x4000 b + offset + 0x4000 back, and the end marker exactly when b and the offset are 0 |
| RomPackFormat.RunOctets | lib/rompack.cc:57-87 | 0000nnnn spells n + 3 literals; a first byte above 0x11 that many less 0x11 |
| RomPackFormat.NextCommand | lib/rompack.cc:60-127 | literal runs may follow exactly a match without trailing literals or a short initial run; three-byte matches exactly a literal run or a longer initial one |
| RomPackDecoder.ReadOfHeader | lib/rompack.cc:73-210 | every legal command of every form and mode, as spelled, is read back as itself and no byte more |
| RomPackDecoder.ReadSpells | lib/rompack.cc:73-210 | whatever is read is a command legal in that mode, and its one spelling is what was read |
| RomPackDecoder.DecodeOfEncoding | lib/rompack.cc:55-214 | reading the encoding of any well-formed program in range gives its meaning and leaves what follows it |
| RomPackDecoder.DecodedProgram | lib/rompack.cc:55-214 | every stream that reaches an end marker starts with the encoding of a well-formed program with exactly that meaning |
| RomPackDecoder.EncodingIsPrefixFree | lib/rompack.cc:39-46 | two programs whose encodings begin the same bytes are the same program |
| RomPackDecoder.DecodesExactlyEncodings | lib/rompack.cc:55-208 | a stream decodes completely if and only if it encodes some program, and that program is unique |
| RomPack.CopyLiterals | lib/rompack.cc:33-37 | literals are appended to the output; nothing behind them is touched |
| RomPack.CopyOutput | lib/rompack.cc:33-37 | the byte loop from output to output is the overlapping copy of the format |
| RomPack.HandleCount | lib/rompack.cc:39-46 | the 32-bit accumulator holds the count that was spelled, without wrapping, and the input is right behind it |
| RomPack.StandardRun | lib/rompack.cc:69-87 | either a literal run is done and the alternative label entered, or a command byte handed on; what remains to decode is unchanged, input shrinks |
| RomPack.ShortMatch | lib/rompack.cc:89-114 | the three-byte match or the handed-on command leaves the overall meaning unchanged and consumes input |
| RomPack.Trailing | lib/rompack.cc:116-132 | the low bits of the byte two back give the trailing literals; without any, no input is consumed but the label's rank drops |
| RomPack.NearMatch | lib/rompack.cc:138-152 | a near match keeps the overall meaning and consumes input |
| RomPack.MidSource | lib/rompack.cc:153-164 | count and distance computed from the two bytes read are those of the command spelled there |
| RomPack.FarSource | lib/rompack.cc:165-210 | likewise for far matches; the end marker is recognised exactly when the distance computed is zero |
| RomPack.TryStandardCode | lib/rompack.cc:134-214 | it returns exactly when the stream ends or is refused, with the final answer, and otherwise keeps the overall meaning |
| RomPack.FirstByte | lib/rompack.cc:48-67 | the special first byte leads to the label its literal count calls for |
| RomPack.Jump | lib/rompack.cc:55-214 | the goto machine terminates (remaining input, then label rank) with the decoder's answer |
| RomPack.Unpack | lib/rompack.cc:24-218 | true if and only if the first `srclen` bytes encode a program, whose meaning is then the output; output beyond it untouched; length 0 when refused |
| RomPack.AcceptedMeans | lib/rompack.cc:202-208 | an end marker reached exactly at `srclen` is the same as those bytes being an encoding |
| RomPacker.Pack | lib/rompack.cc:220-250 | writes the packed form for every length but the asserted one, and nothing behind it |
| RomPacker.PackLength | lib/rompack.cc:228-236 | command byte and length bytes, the last one truncated to an octet |
| RomPacker.LengthBytesExtend | lib/rompack.cc:229-236 | the loop's bytes are the one extended spelling of the length, of the stated size |
| RomPacker.PackedMeans | lib/rompack.cc:220-250 | from 19 bytes on the output encodes a program meaning the source, in n + 5 + (n-19)/255 bytes |
| RomPacker.ShortPackedOverruns | lib/rompack.cc:229-235 | below 18 bytes the output makes the decoder read past its end |
| RomPacker.RoundTripExactly | lib/rompack.cc:220-250 | unpacking what was packed restores the source if and only if there were at least 19 bytes |
| Packing.Apply | romdump/romdump.cc:316-351 | succeeds exactly when the input without its trailer is a complete stream, and gives its meaning |
| Packing.EncodingHasNoTrailer | romdump/romdump.cc:324-333 | no complete stream ends like the trailer, however its end marker is spelled |
| Packing.UnpackedStream | romdump/romdump.cc:316-351 | every stream gives its meaning, with or without a trailer behind it |
| Packing.UnpackedPacked | romdump/romdump.cc:316-351 | the packer's output gives back the source |
| Frames.CipherInverts | lib/romconnection.cc:136-138 | deciphering undoes enciphering (lines 226-228) and the other way round, for every byte and key |
| Bytes.Xor8Each | lib/romconnection.cc:138 | each bit of the result is set exactly when one of the two operands' bits is: it is the exclusive or |
| Bytes.LittleEndian | lib/romstructs.h:26-38 | 16 and 32-bit fields are read lowest octet first |
| Frames.DecipherEachBit | lib/romconnection.cc:136-138 | bit for bit, a deciphered octet is (octet + key) mod 256 exclusive-or key |
| Frames.EncipherEachBit | lib/romconnection.cc:226-228 | bit for bit, an enciphered octet plus the key is the exclusive or of octet and key |
| Frames.OpenedEachBit | lib/romconnection.cc:133-138 | every data octet of an opened frame, bit by bit, from the frame on the wire |
| Frames.SealedHeaderOnTheWire | lib/romconnection.cc:209-224 | header fields as given; at 5 the sum of the whole frame plus key, at 6 that plus the sum of the first 11 octets, both counted with the two fields 0 |
| Frames.SealedDataOnTheWire | lib/romconnection.cc:226-228 | every data octet on the wire, bit by bit, from the frame sealed |
| Frames.SealedIsSound | lib/romconnection.cc:204-228 | a frame built for sending passes both checksums at the receiver and opens to what was put in |
| Frames.OneByteCorruptionDetected | lib/romconnection.cc:96-157 | a sound frame changed in any single byte is not sound; in the first 11 bytes the header check alone tells |
| Receiver.ParseContinues | lib/romconnection.cc:58-163 | parsing more bytes is parsing them behind what was left over, with the callbacks in order |
| Receiver.ChunkingIndependent | lib/romconnection.cc:42-164 | any split into reads gives the events, outcome, keys and leftover of one parse of the whole |
| Receiver.RestParses | lib/romconnection.cc:58-75 | what is left over is shorter than a header, or than the legal length its header gives |
| Receiver.BadLengthAborts | lib/romconnection.cc:65-69 | an impossible length ends the connection, after everything before it was handled |
| Receiver.ReceivedExactly | lib/romconnection.cc:75-160 | for each callback and each outcome, exactly which frames cause it, told from their octets |
| Receiver.KeyEachBit | lib/romconnection.cc:87-90 | every bit of a received key, from the octets of the key frame |
| Receiver.PacketEachBit | lib/romconnection.cc:133-138 | every bit of a delivered payload, under the key octet that the frame's number names |
| Receiver.BufferNeverFull | lib/romconnection.cc:47-56 | at most 131070 bytes are ever left over, so any read fits and is simply parsed behind them |
| Receiver.NoReadIsRefused | lib/buffer.cc:33-42 | the full-buffer branch is unreachable in every run |
| Receiver.DeliveredIsSound | lib/romconnection.cc:96-159 | a packet callback is only made under a key, for a frame that passes both checksums, with the deciphered frame |
| Receiver.CorruptionNeverDelivered | lib/romconnection.cc:96-159 | one changed byte anywhere in a sound packet, its flags and length included, and no packet is delivered from it |
| Receiver.ParseOneMore | lib/romconnection.cc:58-163 | one more whole frame adds exactly its own events, and decides whether the connection goes on |
| Sender.PacketReceived | lib/romconnection.cc:193-230 | a peer with the same key gets the original payload, under the stated number and sequence |
| Sender.KeyReceived | lib/romconnection.cc:166-180 | the peer ends up with exactly the key sent, in a sound frame numbered 0 under the fixed key |
| Sender.ReplyReceived | lib/romconnection.cc:182-191 | the keepalive reply is a sound 16-byte frame numbered 0 under the fixed key that only the raw callback sees, whatever its last bytes are |
| Sender.SequenceOfPacket | lib/romconnection.cc:193-202 | packet number i (from 0) carries sequence (i+1) mod 2^32 and key number (i mod 2^32) mod 10 |
| Sender.EverythingSentIsReceived | lib/romconnection.cc:193-230 | any run of sends is received completely, in order, unchanged, with nothing left over |
| Relay.ReactAllConcat | romproxy/romproxiedconnection.cc:81-145 | callbacks act one after the other, however they are grouped into reads |
| InPlace.HeaderCheck | lib/romconnection.cc:96-104 | the 8-bit loop decides the header checksum |
| InPlace.DecipherInPlace | lib/romconnection.cc:136-138 | deciphers the payload of one frame and no other byte of the buffer |
| InPlace.OpenInPlace | lib/romconnection.cc:133-152 | deciphers in place and decides the data checksum in 8-bit arithmetic |
| RomConnection.Buffer.constructor | lib/buffer.cc:22-26 | a new buffer is empty |
| RomConnection.Buffer.AddData | lib/buffer.cc:33-42 | appends if and only if the result stays below the buffer's size; otherwise nothing changes |
| RomConnection.Buffer.FlushData | lib/buffer.cc:44-52 | drops exactly the first bytes; the overlapping move keeps the rest |
| RomConnection.Buffer.PeekData | lib/buffer.cc:54-60 | tells whether that many bytes are there |
| RomConnection.Seal | lib/romconnection.cc:210-228 | the two 8-bit checksum loops and the in-place cipher build the sealed frame |
| RomConnection.Connection.constructor | lib/romconnection.cc:26-34 | no key, sequence 1, nothing pending or written |
| RomConnection.Connection.ChecksumAndSend | lib/romconnection.cc:204-230 | the frame is sealed under the key its number names, and written |
| RomConnection.Connection.SendPacket | lib/romconnection.cc:193-202 | writes the packet under its rotating key and steps the sequence, 32-bit |
| RomConnection.Connection.SendKey | lib/romconnection.cc:166-180 | writes the key frame; nothing else of the connection changes |
| RomConnection.Connection.SendKeepaliveReply | lib/romconnection.cc:182-191 | writes one reply frame |
| RomConnection.Connection.CopyKey | lib/romconnection.cc:232-238 | takes over the other connection's key, which keeps it |
| RomConnection.Connection.OnRawPacketReceived | romproxy/romproxiedconnection.cc:110-118 | logs the frame as it came in, on either side |
| RomConnection.Connection.OnNewKey | romproxy/romproxiedconnection.cc:81-97 | a server key is copied, sent on and logged; a client key has no further effect (line 123) |
| RomConnection.Connection.OnPacket | romproxy/romproxiedconnection.cc:99-108 | the packet is resealed in the shared buffer for the other side, written and logged as rewritten; only that frame's bytes change |
| RomConnection.Connection.OnKeyFrame | lib/romconnection.cc:79-94 | a key frame of the right size sets the key and is reported, any other is passed over |
| RomConnection.Connection.OnDataFrame | lib/romconnection.cc:133-160 | delivers the deciphered frame exactly when its checksum holds |
| RomConnection.Connection.OnCheckedFrame | lib/romconnection.cc:96-160 | header check, keepalive, flags, missing key and data in the order of the code |
| RomConnection.Connection.OnFrame | lib/romconnection.cc:75-160 | one whole frame in the shared buffer, with every callback's effect on peer and log |
| RomConnection.Connection.NextFrame | lib/romconnection.cc:58-75 | one turn of the loop keeps the parse of what is buffered, or ends as that parse ends |
| RomConnection.Connection.HandleFrames | lib/romconnection.cc:58-163 | the loop is the parse of the buffered bytes, and all callbacks were made in order |
| RomConnection.Connection.OnEvent | lib/romconnection.cc:42-164 | one event is one read parsed behind the pending bytes; peer, log and writes change as the callbacks say |
| Proxy.ParseOrderly | lib/romconnection.cc:58-163 | packets are only delivered under a key, and the key is always the last one reported |
| Proxy.ServerEvents | romproxy/romproxiedconnection.cc:81-108 | callbacks for the server's frames keep the client's view equal to what was reported, through any re-keying |
| Proxy.ClientEvents | romproxy/romproxiedconnection.cc:120-145 | callbacks for the client's frames never disturb that view or the server's key |
| Proxy.ServerReachesClient | romproxy/romproxiedconnection.cc:81-108 | for every interleaving in which the client sends no key, the client hears exactly the keys and payloads accepted from the server, in order |
| Proxy.KeysStayEqual | romproxy/romproxiedconnection.cc:81-92 | in every such run both connections hold the same key once the server has sent one |
| Proxy.ClientKeySplitsKeys | romproxy/romproxiedconnection.cc:120-124 | after a key frame from the client the keys agree if and only if it was the server's key |
| Proxy.ProxyHearsServer | lib/romconnection.cc:42-164 | through any run the proxy has heard a prefix of the server's stream, all of it while the connection lives |
| Proxy.ClientHearsServer | romproxy/romproxiedconnection.cc:81-108 | what the client hears through the proxy is what it would have heard from the server, a prefix of it once closed |
| Ledger.WriteOne | lib/romconnection.cc:229 | one more frame on a stream of whole frames is cut off it again as the last one |
| Ledger.EventBalanced | romproxy/romproxiedconnection.cc:81-145 | every callback, on either side and for any logging options, keeps log and traffic in agreement |
| Ledger.LogBalancesRun | romproxy/romproxiedconnection.cc:81-145 | for every run and either side's logging: received frames are logged as they came, written ones as they left, per direction, in order, nothing else; both written streams are whole frames |
| Keepalives.StreamAsks | lib/romconnection.cc:110-119 | a stream causes as many answers as it holds frames with no key bit, a good header sum and the request bit |
| Keepalives.RequestsAnswered | lib/romconnection.cc:110-119 | in every run each side is written exactly one reply, always the same frame, for each such frame received from it, and no other frame flagged as a reply |
| Numbering.RelayedInOrder | lib/romconnection.cc:193-202 | in every run the packets written to either side carry the sequence numbers 1, 2, 3 and so on mod 2^32, and their key numbers, through key changes and keepalives |
| ProxiedConnection.Proxied.OnRemoteEvent | romproxy/romproxiedconnection.cc:75-79 | one server event on the two mutable connections and the shared log is one step of the run |
| ProxiedConnection.Proxied.OnLocalEvent | romproxy/romproxiedconnection.cc:69-73 | likewise for a client event |
| ProxiedConnection.Proxied.constructor | romproxy/romproxiedconnection.cc:39-45 | a new proxied connection is the run's initial state |
| LogFile.ParseOneRecord | lib/rompacketlogger.cc:55-74 | a written record is read back first, with its split length, then the rest |
| LogFile.RecordLayout | lib/romstructs.h:50-57 | where each field of a written record lies and in which byte order, with the length's halves |
| LogFile.LogReadExactly | romdump/romlogparser.cc:27-49 | of any bytes at all, what is read is a written log, up to the first place where no record can start |
| LogFile.LogRoundTrip | lib/rompacketlogger.cc:64-73 | any sequence of records is read back whole, before whatever follows |
| LogFile.TruncatedLog | romdump/romlogparser.cc:27-49 | a log cut anywhere gives exactly the records that are complete |
| Replay.AnalyzeConcat | romdump/romdump.cc:162-224 | analysis carries only the key from frame to frame, and ends at the first fatal one |
| Replay.ServerStreamReplayed | romdump/romdump.cc:162-224 | the raw frames of any server stream analyse to the payloads the connection delivered, with the same key |
| Replay.ForwardsReplayed | romproxy/romproxiedconnection.cc:126-135 | the logged, resealed client packets analyse to their payloads under the server's key |
| Replay.ReplayRecoversTraffic | romdump/romdump.cc:162-224 | for every run logged on the server side the replay shows, under a key, the payloads of both directions in order; after a fatal frame at most one more, and that with a bad checksum |
| Replay.CorruptionShown | romdump/romdump.cc:192-223 | a sound enciphered frame with any single octet changed is never shown as sound, whatever the tool's key and options; unchanged it is |
| Replay.CorruptPacketShown | romdump/romdump.cc:192-258 | any sent packet with one data octet changed is shown, with a bad checksum |
| Replay.KeyFollowedExactly | romdump/romdump.cc:165-190 | the tool follows a key frame as the connection does if and only if its size is right and it is not skipped, or skipping it changes nothing |
| Flows.OneWholeFrame | romdump/romdump.cc:282-307 | a flow holding one whole frame is that frame analysed, nothing unread |
| Flows.AnalysisContinues | romdump/romdump.cc:282-307 | analysing after each append is analysing the whole stream |
| Flows.AnalysisStops | romdump/romdump.cc:288-297 | analysis goes on until less than a header or a whole frame is left, or a length below the header's; it aborts exactly at a length above 131072 |
| Flows.FatalStays | romdump/romdump.cc:288-297 | what was fatal is not revised by later bytes |
| Flows.Flow.constructor | romdump/flow.cc:23-28 | an empty flow with its offset at 0 |
| Flows.Flow.Grow | romdump/flow.cc:38-46 | a doubled buffer with all earlier bytes |
| Flows.Flow.Append | romdump/flow.cc:35-50 | the stream grows by the bytes; those already there, deciphered or not, and the offset stay |
| Flows.Analyzer.TakeKey | romdump/romdump.cc:185-187 | the key is the deciphered payload |
| Flows.Analyzer.AnalyzePacket | romdump/romdump.cc:162-224 | one frame is shown as specified, and only its own bytes change |
| Flows.Analyzer.NextPacket | romdump/romdump.cc:288-306 | one turn advances the offset and keeps the analysis of the unread bytes |
| Flows.Analyzer.AnalyzeFlow | romdump/romdump.cc:282-307 | the unread suffix is analysed; afterwards what is unread is still the raw end of the stream, and the offset never went back |
| RomDump.File.ParseHeader | romdump/romlogparser.cc:27-43 | both record headers, with the step back of two bytes for the older one; nothing on a short read |
| RomDump.File.ReadPacket | romdump/romlogparser.cc:45-49 | all of the bytes asked for, or none |
| RomDump.WholeRecordsAnalyzed | romdump/romdump.cc:654-698 | records that hold whole frames are analysed frame by frame in file order across all connections, nothing left over |
| RomDump.OneConnectionAnalyzed | romdump/romdump.cc:681-697 | however a connection's traffic is cut into records, inside frames or across them, the result is that of its whole stream, and other flows keep what they hold |
| RomDump.Tool.Select | romdump/romdump.cc:681-688 | the flow of the record's connection, or a new empty one, and no other |
| RomDump.Tool.Feed | romdump/romdump.cc:681-697 | appends to one flow and analyses it under the shared key; the other flows keep what they hold |
| RomDump.Tool.NextRecord | romdump/romdump.cc:654-698 | one turn of the main loop keeps what the rest of the file will show, or ends as it ends |
| RomDump.DumpFile | romdump/romdump.cc:630-698 | the whole tool on a log file shows what the record-by-record specification shows |
| LogReplay.LoggedFramesWhole | romproxy/romproxiedconnection.cc:110-135 | every logged entry of every run is one whole frame of legal size |
| LogReplay.FileAnalyzedFrameByFrame | lib/rompacketlogger.cc:55-74 | dumping the file of any such log is analysing its frames in order |
| LogReplay.RecordsByLink | romproxy/romproxiedconnection.cc:95-144 | the four directions are told apart by the addresses of their records |
| LogReplay.RecordsByAddress | romproxy/romproxiedconnection.cc:95-144 | for each of the four directions, between which two endpoints its frames are filed |
| LogReplay.LogFileTellsDirections | lib/rompacketlogger.cc:55-74 | read back, the records under the server's address are the frames it sent, those under the proxy's the frames written to it save keepalive replies |
| LogReplay.LogFileTellsTheRun | romdump/romdump.cc:630-698 | from wire through log file to dump: all payloads handed over in the run, in order, and the final key; the one frame that may be shown beyond them has a bad checksum |
| Schema.LeafTakesItsSize | lib/protocoldecode.cc:101-260 | a leaf of constant size never takes more, and takes all of it exactly when its own check holds |
| Schema.TextTakes | lib/protocoldecode.cc:149-161 | a string with fewer bytes than its minimum takes none, otherwise all there are up to its length |
| Schema.UnsignedTakes | lib/protocoldecode.cc:109-138 | a list of numbers with enough bytes and the right first value takes its count of entries, or leaves less than one entry |
| Schema.LeafTakesAllExactly | lib/protocoldecode.cc:101-260 | for every leaf type, fixed or variable, exactly which byte strings it uses up |
| Schema.ConstantSizeMeansMatch | lib/protocoldecode.cc:34-67 | for any nesting: at most the constant size is consumed, and all of it if and only if every leaf matches and no struct is declared repeated |
| Schema.FieldsMeanMatch | lib/protocoldecode.cc:53-67 | the same for a list of actions, which then succeed and stop right behind the last field |
| Schema.MatchStoresLeaves | lib/protocoldecode.cc:21-32 | a matching type stores every leaf's own bytes, at its own offset |
| Schema.HeaderCheckMeansMatch | lib/protocoldecode.cc:69-81 | the packet's header check passes if and only if every header leaf matched (`lib/protocoldefinition.cc:394-405`) |
| Schema.PacketTakesAllExactly | lib/protocoldecode.cc:69-99 | a packet takes all its data if and only if its header matches and nothing follows or some subpacket uses that up; the one named is the first, and the leaves are the header's and its own |
| Schema.RecognisedExactly | lib/protocoldecode.cc:262-276 | packet i is recognised if and only if it is the first to take all the data; none if and only if none does |
| Schema.SubpacketRecognised | lib/protocoldecode.cc:83-98 | with its header matching, a subpacket that uses up the rest makes packet j and subpacket k the ones recognised, unless an earlier one fits too; then the first such |
| Schema.RunActionsConcat | lib/protocoldecode.cc:60-65 | actions run in order until one fails |
| Schema.VariableTail | lib/protocoldecode.cc:53-67 | constant fields and one leaf of any size use up their bytes if and only if what the fields leave is nothing or within the leaf's limits, and the leaf then holds all of it |
| Schema.VariablePacketRecognised | lib/protocoldecode.cc:262-276 | so a packet or subpacket ending in a string or list is recognised at every size within its limits |
| Schema.FirstMismatchStops | lib/protocoldecode.cc:60-66 | in front of the first leaf that does not match decoding stops, with the leaves before it stored and none behind it |
| Schema.PackedBodyPasses | lib/protocoldefinition.cc:140-163 | header fields, transformation and body together take all the packed bytes, and the body's leaves come from the unpacked ones |
| Schema.FailedUnpackStops | lib/protocoldefinition.cc:155-157 | bytes that are no complete stream end the struct at the transformation |
| Schema.PackedPacketRecognised | lib/protocoldecode.cc:262-276 | any struct of 19 bytes to 1 MiB, packed behind matching headers, is recognised as that packet and subpacket, unless an earlier one fits too |
| Interpreter.DecodeState.Advance | lib/protocoldecode.cc:28-30 | pointer, remaining length and offset move together |
| Interpreter.GetConstantSize | lib/protocoldecode.cc:34-51 | the recursive loops compute the constant size |
| Interpreter.FillUnsigned | lib/protocoldecode.cc:109-138 | the entries stored are the little-endian numbers, each at its place, and the size returned is theirs |
| Interpreter.ReadNumber | lib/protocoldecode.cc:122-130 | one to four bytes combine to the little-endian number |
| Interpreter.FillLeaf | lib/protocoldecode.cc:101-260 | every leaf returns the size specified |
| Interpreter.FillType | lib/protocoldecode.cc:53-67 | filling any nested type on the mutable state gives the specified size and leaves |
| Interpreter.Process | lib/protocoldecode.cc:21-32 | a field advances the state, or fails and leaves it; a transformation redirects it |
| Interpreter.FillWhole | lib/protocoldecode.cc:69-99 | header check and the loop over subpackets, which takes the first that uses up the rest |
| Interpreter.ProcessData | lib/protocoldecode.cc:262-276 | the first packet type that takes all the data |
| GeneratedParser.SimpleFieldsMatch | lib/protocolcodegenerator.cc:472-492 | fields that pass the generated condition match in the interpreter, wherever the bytes reach |
| GeneratedParser.LengthFieldAt | lib/protocolcodegenerator.cc:520-537 | the length field lies behind the fields before it |
| GeneratedParser.LengthMustComeLast | lib/protocolcodegenerator.cc:541-548 | among frames passing the outer test, the interpreter accepts the header if and only if no field follows the length field; otherwise it rejects the packet |
| GeneratedParser.OuterTestMatches | lib/protocolcodegenerator.cc:539-548 | with the length field last, the outer test means the header matches and the length field tells the body's size |
| GeneratedParser.GeneratedTestsAreSound | lib/protocolcodegenerator.cc:539-591 | a frame passing the outer and inner tests is used up by that subpacket, all its leaves decode, and packet and subpacket are the ones recognised, unless an earlier one fits too |
| GeneratedParser.OuterTestExactly | lib/protocolcodegenerator.cc:539-548 | with the length field last, the outer test passes exactly the frames whose header matches |
| GeneratedParser.UnmeasuredTestExactly | lib/protocolcodegenerator.cc:541-548 | without a length field, it passes exactly the frames of the header's size that match |
| GeneratedParser.GeneratedTestsExactly | lib/protocolcodegenerator.cc:539-591 | both tests together pass exactly the frames where header and simple subpacket match and fill the frame |
| GeneratedParser.UnsizedTestExactly | lib/protocolcodegenerator.cc:566-586 | behind a transformation or a field of variable size no length is compared: the inner test asks for the leading fields only |

## Left out

- Sockets, `select`, addresses, signals, options, file handles: reads and writes are byte sequences, writes are complete. A failed keepalive write, which ends the connection, does not occur.
- RomPack.Unpack: has no bounds checks in the source, so streams that read past `src` or before the output, or outgrow `dst`, are excluded by preconditions (the pure decoder has them as the outcome `OutOfBounds`). Sources are at most 16 MiB, which keeps 32-bit counts from wrapping; the three explicit stores of the short match are the same copy loop with count 3.
- RomPacker.Pack: a source of 18 bytes is excluded by the code's own assertion.
- Packing.Apply: does not model empty input, for which the source reports success but leaves the output length at the estimate, nor output above the 1 MiB estimate.
- RomConnection.Connection.OnEvent: does not model received key numbers other than 0 to 9 and 0xff, which read past the key; the specification has the outcome `OutOfBounds` for them and a precondition excludes it.
- RomConnection.Connection.SendKeepaliveReply: the source sends 16 bytes of a 12-byte struct. The four bytes behind it are an arbitrary constant of the connection.
- Client-to-server delivery across a key change while packets are in flight, and what the server makes of packets after the client has sent a key of its own.
- Replay.ReplayRecoversTraffic: is about the server-side log; the client-side log is written by the same model but its replay is not related to the run. Key frames of a wrong size, at which the tool exits, and key frames flagged as keepalives, which it may skip, are excluded.
- RomDump.DumpFile: reads version-2 logs of at most 2 GiB; the older format is modelled in `RomDump.File.ParseHeader` only, and tcpflow input not at all. The reporting of incomplete flows at the end is left out.
- Flows.Analyzer.AnalyzePacket: shows enciphered frames only, with one verdict for both checksums; key frames, unenciphered frames and keepalives on request, everything else printed, and the hiding of packet types are left out.
- Interpreter.ProcessData: values are bytes with their offset; transformation buffers are values, so what an object keeps from an earlier packet is not modelled. An unsigned field with a fixed value that reads no entry compares a stale value in the source; both outcomes stop its struct. Widths are 1 to 4 bytes. Floats and doubles stay raw bytes.
- GeneratedParser.GeneratedTestsAreSound: the other direction does not hold and is not meant to, since the interpreter also accepts a frame that some of a subpacket's first fields use up. Fixed values inside nested structs, repeated fixed values and negative ones are not covered, and neither is the order in which the tests are tried, the text of the generated code or its sending functions.
- Reading schemas from XML, enumerations, annotations, filters, names, the Python bindings, logging sinks and the proxy's list of listeners: easy, or about C strings.
- The game proxy's rewriting of redirect packets.
