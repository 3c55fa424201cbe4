/** The two connections of a proxied client, as objects; each event is one step of the proxy. */
module ProxiedConnection {
  import opened Bytes
  import opened Frames
  import opened Receiver
  import opened Sender
  import opened Relay
  import opened RomConnection
  import opened Proxy

  class Proxied {
    const local: Connection
    const remote: Connection
    const log: PacketLog

    ghost predicate Valid()
      reads local, local.buffer, remote, remote.buffer
    {
      local.Paired(remote, log) && remote.Paired(local, log)
    }

    ghost function TheSetup(): Setup {
      Setup(log.options, local.past, remote.past)
    }

    ghost function Now(): State
      requires Valid()
      reads local, local.buffer, local.buffer.data, local.key
      reads remote, remote.buffer, remote.buffer.data, remote.key, log
    {
      State(Half(local.Out(), local.buffer.Contents(), local.heard),
            Half(remote.Out(), remote.buffer.Contents(), remote.heard), log.entries, true)
    }

    constructor (su: Setup)
      requires SetupOk(su)
      ensures Valid() && TheSetup() == su && Now() == INITIAL
    {
      local := new Connection(su.localPast);
      remote := new Connection(su.remotePast);
      log := new PacketLog(su.options);
    }

    /** The server's socket is readable. When the proxy gives up, all its callbacks so far have still been made. */
    method OnRemoteEvent(packet: array<byte>, len: nat) returns (ok: bool)
      requires Valid() && 1 <= len <= packet.Length == MAX_PACKET
      requires packet != local.key && packet != remote.key && packet != remote.buffer.data
      requires !OnRead(remote.CurrentKeys(), remote.buffer.Contents(), packet[..len]).status.OutOfBounds?
      modifies remote, remote.key, remote.buffer, remote.buffer.data, local, local.key, log
      ensures Valid()
      ensures var q := Next(TheSetup(), old(Now()), FromServer(packet[..len]));
              && ok == q.alive && (ok ==> Now() == q)
              && Now().local == q.local && Now().log == q.log
              && Now().remote.heard == q.remote.heard && Now().remote.outlet.written == q.remote.outlet.written
    {
      hide OnRead, ReactAll;
      ok := remote.OnEvent(packet, len, local, ServerSide, log);
      assert remote.Surroundings(local, log) == World(remote.written, local.Out(), log.entries);
    }

    /** The client's socket is readable. */
    method OnLocalEvent(packet: array<byte>, len: nat) returns (ok: bool)
      requires Valid() && 1 <= len <= packet.Length == MAX_PACKET
      requires packet != local.key && packet != remote.key && packet != local.buffer.data
      requires !OnRead(local.CurrentKeys(), local.buffer.Contents(), packet[..len]).status.OutOfBounds?
      modifies local, local.key, local.buffer, local.buffer.data, remote, remote.key, log
      ensures Valid()
      ensures var q := Next(TheSetup(), old(Now()), FromClient(packet[..len]));
              && ok == q.alive && (ok ==> Now() == q)
              && Now().remote == q.remote && Now().log == q.log
              && Now().local.heard == q.local.heard && Now().local.outlet.written == q.local.outlet.written
    {
      hide OnRead, ReactAll;
      ok := local.OnEvent(packet, len, remote, ClientSide, log);
      assert local.Surroundings(remote, log) == World(local.written, remote.Out(), log.entries);
    }
  }
}
