/** What the proxy's callbacks do when one of its two connections reports an event. */
module Relay {
  import opened Bytes
  import opened Frames
  import opened Receiver
  import opened Sender

  /** The side of the proxy a connection faces. */
  datatype Side = ServerSide | ClientSide

  datatype Direction = ServerToProxy | ProxyToServer | ClientToProxy | ProxyToClient

  datatype Entry = Entry(direction: Direction, frame: Frame)

  /** Which traffic is logged. */
  datatype Options = Options(client: bool, server: bool)

  /** The sending half of a connection. */
  datatype Outlet = Outlet(keys: Keys, sequence: uint32, written: bytes)

  /** What callbacks can change: the writes of the connection itself, the other connection, and the log. */
  datatype World = World(written: bytes, peer: Outlet, log: seq<Entry>)

  function Logged(w: World, on: bool, direction: Direction, f: Frame): World {
    if on then w.(log := w.log + [Entry(direction, f)]) else w
  }

  function Forwarded(w: World, f: Frame): World
  {
    var g := PacketFrame(f, w.peer.keys.key, w.peer.sequence);
    w.(peer := Outlet(w.peer.keys, NextSequence(w.peer.sequence), w.peer.written + g))
  }

  /** One event; `past` is what lies behind the keepalive reply's struct. */
  function React(side: Side, opts: Options, past: bytes, w: World, e: Event): World
    requires |past| == 4
  {
    match e
    case RawPacket(f) =>
      if side == ServerSide then Logged(w, opts.server, ServerToProxy, f) else Logged(w, opts.client, ClientToProxy, f)
    case NewKey(key) =>
      if side == ServerSide then
        var w' := w.(peer := Outlet(Keys(key, true), w.peer.sequence, w.peer.written + KeyFrame(key)));
        Logged(w', opts.client, ProxyToClient, KeyFrame(key))
      else w
    case Packet(f) =>
      var g := PacketFrame(f, w.peer.keys.key, w.peer.sequence);
      if side == ServerSide then Logged(Forwarded(w, f), opts.client, ProxyToClient, g)
      else Logged(Forwarded(w, f), opts.server, ProxyToServer, g)
    case KeepaliveReply => w.(written := w.written + ReplyFrame(past))
  }

  function ReactAll(side: Side, opts: Options, past: bytes, w: World, events: seq<Event>): World
    requires |past| == 4
    decreases |events|
  {
    if events == [] then w
    else ReactAll(side, opts, past, React(side, opts, past, w, events[0]), events[1..])
  }

  lemma {:induction false} ReactAllConcat(side: Side, opts: Options, past: bytes, w: World, a: seq<Event>, b: seq<Event>)
    requires |past| == 4
    ensures ReactAll(side, opts, past, w, a + b) == ReactAll(side, opts, past, ReactAll(side, opts, past, w, a), b)
    decreases |a|
  {
    hide React;
    if a == [] {
      assert a + b == b;
    } else {
      assert (a + b)[1..] == a[1..] + b;
      ReactAllConcat(side, opts, past, React(side, opts, past, w, a[0]), a[1..], b);
    }
  }
}
