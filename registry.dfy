/**
 * NetworkManager: the server-side registry of live connections. Threads are modelled as
 * sequential calls: one call of `AcceptClient` per accepted socket, `ReceiveLoop` and then
 * `ExitClient` for the life of a client handler, and `StopServer` from the owner.
 */
module Registry {
  import opened Bytes
  import opened Protocol
  import opened Connections

  /** A send a packet handler performs: a reply to the connection it serves, or a broadcast. */
  datatype Outgoing = ToClient(p: Packet) | ToAll(p: Packet)

  /** `erase(remove(cs, c))`: every occurrence of `c` dropped, the others kept in order. */
  function Without<T(==)>(cs: seq<T>, c: T): (r: seq<T>)
    ensures multiset(r) == multiset(cs)[c := 0]
    ensures forall x | x in r :: x in cs && x != c
    ensures forall x | x in cs && x != c :: x in r
    ensures c !in cs ==> r == cs
  {
    if cs == [] then []
    else
      assert cs == [cs[0]] + cs[1..];
      (if cs[0] == c then [] else [cs[0]]) + Without(cs[1..], c)
  }

  /** Every packet in the list can be framed: its size field does not exceed its payload. */
  predicate Sendable(sends: seq<Outgoing>)
  {
    forall i | 0 <= i < |sends| :: sends[i].p.size as int <= |sends[i].p.data|
  }

  /** Whether a send reaches a connection: a reply reaches the connection served, a broadcast every registered one. */
  predicate Reaches(o: Outgoing, served: bool, registered: bool)
  {
    if o.ToClient? then served else registered
  }

  /** The bytes a list of sends puts on one connection's stream when nothing is lost, in order. */
  function Stream(sends: seq<Outgoing>, served: bool, registered: bool): seq<Byte>
    requires Sendable(sends)
    decreases |sends|
  {
    if sends == [] then []
    else
      var last := sends[|sends| - 1];
      Stream(sends[..|sends| - 1], served, registered) + Piece(last, served, registered)
  }

  /** The bytes one send puts on a connection's stream when nothing is lost. */
  function Piece(o: Outgoing, served: bool, registered: bool): seq<Byte>
    requires o.p.size as int <= |o.p.data|
  {
    if Reaches(o, served, registered) then EncodeFrame(o.p) else []
  }

  /** The packets of the sends that reach a connection, in order. */
  function Reached(sends: seq<Outgoing>, served: bool, registered: bool): seq<Packet>
    decreases |sends|
  {
    if sends == [] then []
    else
      var last := sends[|sends| - 1];
      Reached(sends[..|sends| - 1], served, registered) + (if Reaches(last, served, registered) then [last.p] else [])
  }

  lemma StreamSnoc(sends: seq<Outgoing>, i: nat, served: bool, registered: bool)
    requires Sendable(sends) && i < |sends|
    ensures Sendable(sends[..i]) && Sendable(sends[..i + 1])
    ensures Stream(sends[..i + 1], served, registered)
            == Stream(sends[..i], served, registered) + Piece(sends[i], served, registered)
  {
    assert sends[..i + 1][..i] == sends[..i];
  }

  lemma StreamSnocAll(sends: seq<Outgoing>, i: nat)
    requires Sendable(sends) && i < |sends|
    ensures Sendable(sends[..i]) && Sendable(sends[..i + 1])
    ensures forall served, registered ::
              Stream(sends[..i + 1], served, registered) == Stream(sends[..i], served, registered) + Piece(sends[i], served, registered)
  {
    forall served, registered
      ensures Stream(sends[..i + 1], served, registered) == Stream(sends[..i], served, registered) + Piece(sends[i], served, registered)
    {
      StreamSnoc(sends, i, served, registered);
    }
  }

  /**
   * When every packet sent is well formed, the stream a connection gets is the frames of the
   * packets that reach it, so its peer parses back exactly those packets, in order.
   */
  lemma {:induction false} StreamFrames(sends: seq<Outgoing>, served: bool, registered: bool)
    requires forall i | 0 <= i < |sends| :: WellFormed(sends[i].p)
    ensures Sendable(sends) && AllWellFormed(Reached(sends, served, registered))
    ensures Stream(sends, served, registered) == Frames(Reached(sends, served, registered))
    ensures ParseFrames(Stream(sends, served, registered)) == Reached(sends, served, registered)
    decreases |sends|
  {
    if sends != [] {
      var init, last := sends[..|sends| - 1], sends[|sends| - 1];
      StreamFrames(init, served, registered);
      var r := Reached(init, served, registered);
      if Reaches(last, served, registered) {
        FramesSnoc(r, last.p);
        assert Reached(sends, served, registered) == r + [last.p];
      } else {
        assert Reached(sends, served, registered) == r + [] == r;
        assert Stream(sends, served, registered) == Stream(init, served, registered) + [] == Frames(r);
      }
    }
    var r := Reached(sends, served, registered);
    assert Stream(sends, served, registered) == Frames(r);
    ParseFramesOfFrames(r, []);
    assert Frames(r) + [] == Frames(r);
    assert ParseFrames([]) == [];
    assert r + [] == r;
  }

  lemma SendableAppend(a: seq<Outgoing>, b: seq<Outgoing>)
    requires Sendable(a) && Sendable(b)
    ensures Sendable(a + b)
  {
    forall i | 0 <= i < |a + b| ensures (a + b)[i].p.size as int <= |(a + b)[i].p.data| {
      if i >= |a| {
        assert (a + b)[i] == b[i - |a|];
      }
    }
  }

  /** The sends a handler performs for each packet in turn; a handler whose sends can be framed gives a list that can. */
  function Replies(handler: Packet -> seq<Outgoing>, ps: seq<Packet>): (r: seq<Outgoing>)
    requires forall p :: Sendable(handler(p))
    ensures Sendable(r)
    decreases |ps|
  {
    if ps == [] then []
    else
      var init := Replies(handler, ps[..|ps| - 1]);
      SendableAppend(init, handler(ps[|ps| - 1]));
      init + handler(ps[|ps| - 1])
  }

  lemma {:induction false} StreamAppend(a: seq<Outgoing>, b: seq<Outgoing>, served: bool, registered: bool)
    requires Sendable(a) && Sendable(b)
    ensures Sendable(a + b)
    ensures Stream(a + b, served, registered) == Stream(a, served, registered) + Stream(b, served, registered)
    decreases |b|
  {
    SendableAppend(a, b);
    if b == [] {
      assert a + b == a;
    } else {
      var init := b[..|b| - 1];
      assert forall i | 0 <= i < |init| :: init[i] == b[i];
      StreamAppend(a, init, served, registered);
      assert (a + b)[..|a + b| - 1] == a + init;
    }
  }

  lemma RepliesSnoc(handler: Packet -> seq<Outgoing>, ps: seq<Packet>, p: Packet)
    requires forall p :: Sendable(handler(p))
    ensures Replies(handler, ps + [p]) == Replies(handler, ps) + handler(p)
  {
    assert (ps + [p])[..|ps|] == ps;
  }

  /** What `Without` keeps is a subsequence of the input: dropping from the end commutes with it. */
  lemma {:induction false} WithoutAppend<T>(a: seq<T>, b: seq<T>, c: T)
    ensures Without(a + b, c) == Without(a, c) + Without(b, c)
  {
    if a == [] {
      assert a + b == b;
    } else {
      assert (a + b)[0] == a[0] && (a + b)[1..] == a[1..] + b;
      WithoutAppend(a[1..], b, c);
    }
  }

  /**
   * One successful receive in the handler loop: the packets so far and the unread stream still
   * make up the stream the loop started from.
   */
  lemma ServeStep(start: seq<Byte>, received: seq<Packet>, p: Packet, before: seq<Byte>, after: seq<Byte>)
    requires AllWellFormed(received) && WellFormed(p)
    requires start == Frames(received) + before && before == EncodeFrame(p) + after
    ensures AllWellFormed(received + [p]) && start == Frames(received + [p]) + after
    ensures ParseFrames(start) == received + ParseFrames(before) ==>
              ParseFrames(start) == (received + [p]) + ParseFrames(after)
  {
    FramesSnoc(received, p);
    ParseFramesCons(p, after);
    SnocAssoc(received, p, ParseFrames(after));
  }

  lemma AppendAssoc<T>(x: seq<T>, y: seq<T>, z: seq<T>)
    ensures (x + y) + z == x + (y + z)
  {
  }

  lemma SnocAssoc(r: seq<Packet>, p: Packet, x: seq<Packet>)
    ensures r + ([p] + x) == (r + [p]) + x
  {
  }

  /** No two registered connections share a socket stream (so no connection is registered twice). */
  predicate DistinctStreams(cs: seq<Connection>)
  {
    forall i, j | 0 <= i < j < |cs| :: cs[i].tx != cs[j].tx
  }

  /** Dropping the first connection keeps the others' streams distinct. */
  lemma TailDistinct(cs: seq<Connection>)
    requires DistinctStreams(cs) && cs != []
    ensures DistinctStreams(cs[1..])
  {
    var tail := cs[1..];
    forall i, j | 0 <= i < j < |tail| ensures tail[i].tx != tail[j].tx {
      assert tail[i] == cs[i + 1] && tail[j] == cs[j + 1];
    }
  }

  /** A connection whose stream no member of `w` shares can go in front of `w`. */
  lemma ConsDistinct(c: Connection, w: seq<Connection>)
    requires DistinctStreams(w)
    requires forall x | x in w :: x.tx != c.tx
    ensures DistinctStreams([c] + w)
  {
    var r := [c] + w;
    forall i, j | 0 <= i < j < |r| ensures r[i].tx != r[j].tx {
      assert r[j] == w[j - 1] && r[j] in w;
      if i > 0 {
        assert r[i] == w[i - 1];
      }
    }
  }

  /** Erasing a connection keeps the others' streams distinct. */
  lemma {:induction false} WithoutKeepsDistinct(cs: seq<Connection>, c: Connection)
    requires DistinctStreams(cs)
    ensures DistinctStreams(Without(cs, c))
  {
    if cs != [] {
      var tail := cs[1..];
      TailDistinct(cs);
      WithoutKeepsDistinct(tail, c);
      var w := Without(tail, c);
      if cs[0] != c {
        assert Without(cs, c) == [cs[0]] + w;
        forall x | x in w ensures x.tx != cs[0].tx {
          var k :| 0 <= k < |tail| && tail[k] == x;
          assert cs[k + 1] == x;
        }
        ConsDistinct(cs[0], w);
      } else {
        assert Without(cs, c) == w;
      }
    }
  }

  /** The effect of one `SendToAll` step on a connection, given its flag and stream before. */
  ghost predicate Delivered(c: Connection, wasConnected: bool, before: seq<Byte>, p: Packet)
    requires p.size as int <= |p.data|
    reads c, c.tx
  {
    if !wasConnected then !c.connected && c.tx.buffer == before
    else Extends(c.tx.buffer, before, EncodeFrame(p)) && (c.connected <==> c.tx.buffer == before + EncodeFrame(p))
  }

  /**
   * The effect of `SendToAll` on one registered connection: `Delivered`, the same descriptor and
   * close count, and a connection up on a valid descriptor and a lossless stream stays up.
   */
  ghost predicate Broadcasted(c: Connection, wasConnected: bool, before: seq<Byte>, socket: int, closes: nat, p: Packet)
    requires p.size as int <= |p.data|
    reads c, c.tx
  {
    Delivered(c, wasConnected, before, p) && c.socket == socket && c.closes == closes
    && (wasConnected && socket != INVALID_SOCKET && c.tx.lossless ==> c.connected)
  }

  /** A connection `SendToAll` has not reached yet: flag, descriptor, close count and stream as they were. */
  ghost predicate Untouched(c: Connection, wasConnected: bool, before: seq<Byte>, socket: int, closes: nat)
    reads c, c.tx
  {
    c.connected == wasConnected && c.tx.buffer == before && c.socket == socket && c.closes == closes
  }

  /**
   * What a connection has got from a run of sends, on its flag, descriptor, stream kind and stream
   * contents after: a disconnected one nothing, and a connected one on a valid descriptor and a
   * lossless stream exactly `bytes`, staying connected.
   */
  predicate Gets(wasConnected: bool, before: seq<Byte>, bytes: seq<Byte>,
                 connected: bool, socket: int, lossless: bool, buffer: seq<Byte>)
  {
    (!wasConnected ==> !connected && buffer == before)
    && (wasConnected && socket != INVALID_SOCKET && lossless ==> connected && buffer == before + bytes)
  }

  ghost predicate Got(c: Connection, wasConnected: bool, before: seq<Byte>, bytes: seq<Byte>)
    reads c, c.tx
  {
    Gets(wasConnected, before, bytes, c.connected, c.socket, c.tx.lossless, c.tx.buffer)
  }

  /** Two runs of sends on a connection whose descriptor stays the same make one run of both. */
  lemma GetsTrans(w0: bool, b0: seq<Byte>, x: seq<Byte>, w1: bool, b1: seq<Byte>, y: seq<Byte>,
                  connected: bool, socket: int, lossless: bool, buffer: seq<Byte>)
    requires Gets(w0, b0, x, w1, socket, lossless, b1)
    requires Gets(w1, b1, y, connected, socket, lossless, buffer)
    ensures Gets(w0, b0, x + y, connected, socket, lossless, buffer)
  {
    if w0 && socket != INVALID_SOCKET && lossless {
      assert b0 + x + y == b0 + (x + y);
    }
  }

  /** Two different members of a registry with distinct streams write to different streams. */
  lemma MembersDiffer(cs: seq<Connection>, a: Connection, b: Connection)
    requires DistinctStreams(cs) && a in cs && b in cs && a != b
    ensures a.tx != b.tx
  {
    var i :| 0 <= i < |cs| && cs[i] == a;
    var j :| 0 <= j < |cs| && cs[j] == b;
    if i > j {
      assert cs[j].tx != cs[i].tx;
    }
  }

  /** The state `Disconnect` as written leaves a connection in, given its flag, descriptor and close count before. */
  ghost predicate Stopped(c: Connection, wasConnected: bool, socket: int, closes: nat)
    reads c
  {
    !c.connected
    && (wasConnected && socket != INVALID_SOCKET ==> c.socket == INVALID_SOCKET && c.closes == closes + 1)
    && (!(wasConnected && socket != INVALID_SOCKET) ==> c.socket == socket && c.closes == closes)
  }

  /** In a registry with distinct streams, the connection at `i` is at no other index. */
  lemma DistinctAt(cs: seq<Connection>, i: nat)
    requires DistinctStreams(cs) && i < |cs|
    ensures forall k | 0 <= k < |cs| && k != i :: cs[k] != cs[i]
  {
    forall k | 0 <= k < |cs| && k != i ensures cs[k] != cs[i] {
      if k < i { assert cs[k].tx != cs[i].tx; } else { assert cs[i].tx != cs[k].tx; }
    }
  }

  class NetworkManager {
    var serverSocket: int
    var serverRunning: bool
    var shutdownRequested: bool
    var maxConnections: int
    var serverPort: int
    var connections: seq<Connection>

    /** Each registered connection owns its own socket streams and keeps its close-once invariant. */
    ghost predicate Valid()
      reads this, set c | c in connections
    {
      DistinctStreams(connections) && forall c | c in connections :: c.Valid()
    }

    constructor ()
      ensures serverSocket == INVALID_SOCKET && !serverRunning && !shutdownRequested
      ensures maxConnections == 1000 && serverPort == 0 && connections == []
      ensures Valid()
    {
      serverSocket := INVALID_SOCKET;
      serverRunning := false;
      shutdownRequested := false;
      maxConnections := 1000;
      serverPort := 0;
      connections := [];
    }

    /**
     * Records the port and backlog, then keeps the listening descriptor only if `socket()`, `bind()`
     * and `listen()` all succeeded; those calls are parameters here (`created` is what `socket()`
     * returned).
     */
    method InitializeServer(port: int, backlog: int, created: int, bound: bool, listening: bool) returns (ok: bool)
      modifies this
      ensures serverPort == port && maxConnections == backlog
      ensures ok <==> created != INVALID_SOCKET && bound && listening
      ensures serverSocket == if ok then created else INVALID_SOCKET
      ensures serverRunning == old(serverRunning) && shutdownRequested == old(shutdownRequested)
      ensures connections == old(connections)
    {
      serverPort := port;
      maxConnections := backlog;
      serverSocket := created;
      if serverSocket == INVALID_SOCKET {
        return false;
      }
      if !bound {
        serverSocket := INVALID_SOCKET;
        return false;
      }
      if !listening {
        serverSocket := INVALID_SOCKET;
        return false;
      }
      return true;
    }

    /** Starts only from stopped with a listening descriptor; the accept thread is not modelled. */
    method StartServer()
      modifies this
      ensures old(serverRunning) || old(serverSocket) == INVALID_SOCKET ==>
                serverRunning == old(serverRunning) && shutdownRequested == old(shutdownRequested)
      ensures !old(serverRunning) && old(serverSocket) != INVALID_SOCKET ==> serverRunning && !shutdownRequested
      ensures serverSocket == old(serverSocket) && connections == old(connections)
      ensures serverPort == old(serverPort) && maxConnections == old(maxConnections)
    {
      if serverRunning || serverSocket == INVALID_SOCKET {
        return;
      }
      serverRunning := true;
      shutdownRequested := false;
    }

    /** `IsServerRunning()`: reads the flag and changes nothing. */
    method IsServerRunning() returns (r: bool)
      ensures r == serverRunning
    {
      r := serverRunning;
    }

    /**
     * One pass of the accept loop: while the server runs, a valid descriptor from `accept()` becomes a
     * new connection appended to the registry; an invalid one is skipped.
     */
    method AcceptClient(fd: int, address: Narrow, alloc: IdAllocator, tx: Channel, rx: Channel) returns (conn: Connection?)
      requires Valid() && alloc.Valid()
      requires forall c | c in connections :: c.tx != tx
      modifies this, alloc
      ensures Valid() && alloc.Valid()
      ensures serverRunning == old(serverRunning) && shutdownRequested == old(shutdownRequested)
      ensures serverSocket == old(serverSocket)
      ensures !old(serverRunning) || old(shutdownRequested) || fd == INVALID_SOCKET ==>
                conn == null && connections == old(connections) && alloc.next == old(alloc.next)
      ensures old(serverRunning) && !old(shutdownRequested) && fd != INVALID_SOCKET ==>
                conn != null && fresh(conn) && connections == old(connections) + [conn]
                && conn.connected && conn.socket == fd && conn.address == address
                && conn.id == old(alloc.next) && conn.tx == tx && conn.rx == rx
    {
      if !serverRunning || shutdownRequested || fd == INVALID_SOCKET {
        return null;
      }
      conn := new Connection(fd, address, alloc, tx, rx);
      connections := connections + [conn];
    }

    /**
     * The handler thread's loop: while the connection is up and no shutdown was requested, receive a
     * packet and carry out the sends `handler` chooses for it (the packet callback). A reply that
     * fails clears the flag, which ends the loop before the next receive. Returns the packets
     * received, in arrival order.
     */
    method ReceiveLoop(conn: Connection, handler: Packet -> seq<Outgoing>) returns (received: seq<Packet>)
      requires Valid() && conn.Valid()
      requires forall p :: Sendable(handler(p))
      requires conn in connections || forall c | c in connections :: c.tx != conn.tx
      requires conn.rx != conn.tx && forall c | c in connections :: c.tx != conn.rx
      modifies conn, conn.rx, conn.tx, set c | c in connections, set c | c in connections :: c.tx
      ensures Valid() && conn.Valid() && conn.socket == old(conn.socket) && conn.closes == old(conn.closes)
      ensures AllWellFormed(received) && Frames(received) <= old(conn.rx.buffer)
      ensures !old(conn.connected) || shutdownRequested ==> received == []
      ensures old(conn.connected) && !shutdownRequested && conn.socket != INVALID_SOCKET && conn.rx.lossless && conn.tx.lossless ==>
                received == ParseFrames(old(conn.rx.buffer))
                && conn.tx.buffer == old(conn.tx.buffer) + Stream(Replies(handler, received), true, conn in connections)
    {
      received := [];
      ghost var start := conn.rx.buffer;
      ghost var sent := conn.tx.buffer;
      ghost var registered := conn in connections;
      ghost var lossless := old(conn.connected) && !shutdownRequested && conn.socket != INVALID_SOCKET && conn.rx.lossless && conn.tx.lossless;
      while conn.connected && !shutdownRequested
        invariant Valid() && conn.Valid() && conn.socket == old(conn.socket) && conn.closes == old(conn.closes)
        invariant conn.connected ==> old(conn.connected)
        invariant AllWellFormed(received) && start == Frames(received) + conn.rx.buffer
        invariant !old(conn.connected) || shutdownRequested ==> received == []
        invariant Sendable(Replies(handler, received))
        invariant lossless ==> conn.connected && ParseFrames(start) == received + ParseFrames(conn.rx.buffer)
        invariant lossless ==> conn.tx.buffer == sent + Stream(Replies(handler, received), true, registered)
        decreases |conn.rx.buffer|
      {
        ghost var before := conn.rx.buffer;
        ghost var out := conn.tx.buffer;
        var ok, p := Serve(conn, handler);
        if !ok {
          break;
        }
        ServeStep(start, received, p, before, conn.rx.buffer);
        RepliesSnoc(handler, received, p);
        ghost var earlier := Replies(handler, received);
        StreamAppend(earlier, handler(p), true, registered);
        if lossless {
          AppendAssoc(sent, Stream(earlier, true, registered), Stream(handler(p), true, registered));
        }
        received := received + [p];
      }
    }

    /** One turn of the handler loop: receive a packet and, if one came, carry out the handler's sends for it. */
    method Serve(conn: Connection, handler: Packet -> seq<Outgoing>) returns (ok: bool, p: Packet)
      requires Valid() && conn.Valid()
      requires forall p :: Sendable(handler(p))
      requires conn in connections || forall c | c in connections :: c.tx != conn.tx
      requires conn.rx != conn.tx && forall c | c in connections :: c.tx != conn.rx
      modifies conn, conn.rx, conn.tx, set c | c in connections, set c | c in connections :: c.tx
      ensures Valid() && conn.Valid() && conn.socket == old(conn.socket) && conn.closes == old(conn.closes)
      ensures ok ==> old(conn.connected) && WellFormed(p) && old(conn.rx.buffer) == EncodeFrame(p) + conn.rx.buffer
      ensures ok ==> Got(conn, true, old(conn.tx.buffer), Stream(handler(p), true, conn in connections))
      ensures !ok ==> !conn.connected && conn.tx.buffer == old(conn.tx.buffer)
      ensures !ok && old(conn.connected) && conn.socket != INVALID_SOCKET && conn.rx.lossless ==> FrameAt(old(conn.rx.buffer)).None?
    {
      ok, p := conn.Receive();
      if ok {
        Perform(conn, handler(p));
      }
    }

    /**
     * The end of a client handler, once its receive loop is over: disconnect the connection and
     * erase it from the registry.
     */
    method ExitClient(conn: Connection)
      requires Valid() && conn.Valid()
      modifies this, conn
      ensures Valid() && conn.Valid()
      ensures connections == Without(old(connections), conn)
      ensures !conn.connected
      ensures old(conn.connected) && old(conn.socket) != INVALID_SOCKET ==>
                conn.socket == INVALID_SOCKET && conn.closes == old(conn.closes) + 1
      ensures !(old(conn.connected) && old(conn.socket) != INVALID_SOCKET) ==>
                conn.socket == old(conn.socket) && conn.closes == old(conn.closes)
      ensures serverRunning == old(serverRunning) && shutdownRequested == old(shutdownRequested)
      ensures serverSocket == old(serverSocket) && serverPort == old(serverPort) && maxConnections == old(maxConnections)
    {
      conn.DisconnectAsWritten();
      WithoutKeepsDistinct(connections, conn);
      connections := Without(connections, conn);
    }

    /**
     * Closes the listening descriptor, disconnects every registered connection and empties the
     * registry; does nothing when the server is not running. Each connection goes through
     * `Disconnect` as written, so one whose flag was already cleared keeps its descriptor.
     */
    method StopServer()
      requires Valid()
      modifies this, set c | c in connections
      ensures Valid() && serverPort == old(serverPort) && maxConnections == old(maxConnections)
      ensures !old(serverRunning) ==>
                serverRunning == old(serverRunning) && shutdownRequested == old(shutdownRequested)
                && serverSocket == old(serverSocket) && connections == old(connections)
                && forall c | c in old(connections) ::
                     c.connected == old(c.connected) && c.socket == old(c.socket) && c.closes == old(c.closes)
      ensures old(serverRunning) ==>
                !serverRunning && shutdownRequested && serverSocket == INVALID_SOCKET && connections == []
                && (forall c | c in old(connections) :: Stopped(c, old(c.connected), old(c.socket), old(c.closes)))
    {
      if !serverRunning {
        return;
      }
      shutdownRequested := true;
      serverRunning := false;
      if serverSocket != INVALID_SOCKET {
        serverSocket := INVALID_SOCKET;
      }
      var i := 0;
      while i < |connections|
        invariant !serverRunning && shutdownRequested && serverSocket == INVALID_SOCKET
        invariant serverPort == old(serverPort) && maxConnections == old(maxConnections)
        invariant 0 <= i <= |connections| && connections == old(connections)
        invariant forall c | c in connections :: c.Valid()
        invariant forall k | 0 <= k < i :: Stopped(connections[k], old(connections[k].connected), old(connections[k].socket), old(connections[k].closes))
        invariant forall k | i <= k < |connections| ::
                    connections[k].connected == old(connections[k].connected)
                    && connections[k].socket == old(connections[k].socket) && connections[k].closes == old(connections[k].closes)
      {
        DistinctAt(connections, i);
        connections[i].DisconnectAsWritten();
        i := i + 1;
      }
      forall c | c in old(connections)
        ensures Stopped(c, old(c.connected), old(c.socket), old(c.closes))
      {
        var k :| 0 <= k < |connections| && connections[k] == c;
      }
      connections := [];
    }

    /** `SendToClient`: refuses a missing or disconnected connection without sending. */
    method SendToClient(conn: Connection?, p: Packet) returns (ok: bool)
      requires p.size as int <= |p.data|
      requires conn != null ==> conn.Valid()
      modifies if conn == null then {} else {conn, conn.tx}
      ensures conn != null ==> conn.Valid() && conn.socket == old(conn.socket) && conn.connected == ok
      ensures conn == null || !old(conn.connected) ==> !ok
      ensures conn != null ==> Delivered(conn, old(conn.connected), old(conn.tx.buffer), p)
      ensures conn != null && old(conn.connected) && conn.socket != INVALID_SOCKET && conn.tx.lossless ==> ok
      ensures conn != null ==> conn.closes == old(conn.closes)
    {
      if conn == null {
        return false;
      }
      var up := conn.IsConnected();
      if !up {
        return false;
      }
      ok := conn.Send(p);
    }

    /**
     * `SendToAll`: sends to every registered connection that is still connected and keeps going
     * after a failure; succeeds exactly when every attempted send did.
     */
    method SendToAll(p: Packet) returns (success: bool)
      requires p.size as int <= |p.data|
      requires Valid()
      modifies set c | c in connections, set c | c in connections :: c.tx
      ensures Valid()
      ensures forall i | 0 <= i < |connections| ::
                Broadcasted(connections[i], old(connections[i].connected), old(connections[i].tx.buffer),
                            old(connections[i].socket), old(connections[i].closes), p)
      ensures success <==> forall i | 0 <= i < |connections| :: old(connections[i].connected) ==> connections[i].connected
    {
      success := true;
      var i := 0;
      while i < |connections|
        invariant 0 <= i <= |connections| && Valid()
        invariant forall k | 0 <= k < i ::
                    Broadcasted(connections[k], old(connections[k].connected), old(connections[k].tx.buffer),
                                old(connections[k].socket), old(connections[k].closes), p)
        invariant forall k | i <= k < |connections| ::
                    Untouched(connections[k], old(connections[k].connected), old(connections[k].tx.buffer),
                              old(connections[k].socket), old(connections[k].closes))
        invariant success <==> forall k | 0 <= k < i :: old(connections[k].connected) ==> connections[k].connected
      {
        var c := connections[i];
        var up := c.IsConnected();
        if up {
          var ok := c.Send(p);
          if !ok {
            success := false;
          }
        }
        i := i + 1;
      }
    }

    /** `GetConnections()`: a copy of the registry. */
    method GetConnections() returns (r: seq<Connection>)
      ensures r == connections
    {
      r := connections;
    }

    /** `GetConnectionCount()`: the registry's length. */
    method GetConnectionCount() returns (n: int)
      ensures n == |connections|
    {
      n := |connections|;
    }

    /**
     * Carries out the sends a packet handler chose, in order, ignoring their results. A connected
     * connection on a valid descriptor and a lossless stream gets exactly the frames addressed to it:
     * `conn` its replies and, when registered, the broadcasts; every other registered connection
     * the broadcasts.
     */
    method Perform(conn: Connection, sends: seq<Outgoing>)
      requires Valid() && conn.Valid() && Sendable(sends)
      requires conn in connections || forall c | c in connections :: c.tx != conn.tx
      modifies conn, conn.tx, set c | c in connections, set c | c in connections :: c.tx
      ensures Valid() && conn.Valid() && conn.socket == old(conn.socket) && conn.closes == old(conn.closes)
      ensures Got(conn, old(conn.connected), old(conn.tx.buffer), Stream(sends, true, conn in connections))
      ensures forall k | 0 <= k < |connections| ::
                connections[k].socket == old(connections[k].socket) && connections[k].closes == old(connections[k].closes)
                && Got(connections[k], old(connections[k].connected), old(connections[k].tx.buffer), Stream(sends, connections[k] == conn, true))
    {
      ghost var registered := conn in connections;
      if registered {
        forall c | c in connections && c != conn ensures c.tx != conn.tx {
          MembersDiffer(connections, c, conn);
        }
      }
      var i := 0;
      while i < |sends|
        invariant 0 <= i <= |sends| && Valid() && conn.Valid()
        invariant conn.socket == old(conn.socket) && conn.closes == old(conn.closes)
        invariant Got(conn, old(conn.connected), old(conn.tx.buffer), Stream(sends[..i], true, registered))
        invariant forall k | 0 <= k < |connections| ::
                    connections[k].socket == old(connections[k].socket) && connections[k].closes == old(connections[k].closes)
                    && Got(connections[k], old(connections[k].connected), old(connections[k].tx.buffer), Stream(sends[..i], connections[k] == conn, true))
      {
        StreamSnocAll(sends, i);
        label step:
        PerformOne(conn, sends[i]);
        GetsTrans(old(conn.connected), old(conn.tx.buffer), Stream(sends[..i], true, registered),
                  old@step(conn.connected), old@step(conn.tx.buffer), Piece(sends[i], true, registered),
                  conn.connected, conn.socket, conn.tx.lossless, conn.tx.buffer);
        forall k | 0 <= k < |connections|
          ensures Got(connections[k], old(connections[k].connected), old(connections[k].tx.buffer), Stream(sends[..i + 1], connections[k] == conn, true))
        {
          var c := connections[k];
          GetsTrans(old(c.connected), old(c.tx.buffer), Stream(sends[..i], c == conn, true),
                    old@step(c.connected), old@step(c.tx.buffer), Piece(sends[i], c == conn, true),
                    c.connected, c.socket, c.tx.lossless, c.tx.buffer);
        }
        i := i + 1;
      }
      assert sends[..i] == sends;
    }

    /** One send of `Perform`: `SendToClient` on the connection served, or `SendToAll`. */
    method PerformOne(conn: Connection, o: Outgoing)
      requires Valid() && conn.Valid() && o.p.size as int <= |o.p.data|
      requires forall c | c in connections && c != conn :: c.tx != conn.tx
      modifies conn, conn.tx, set c | c in connections, set c | c in connections :: c.tx
      ensures Valid() && conn.Valid() && conn.socket == old(conn.socket) && conn.closes == old(conn.closes)
      ensures Got(conn, old(conn.connected), old(conn.tx.buffer), Piece(o, true, conn in connections))
      ensures forall k | 0 <= k < |connections| ::
                connections[k].socket == old(connections[k].socket) && connections[k].closes == old(connections[k].closes)
                && Got(connections[k], old(connections[k].connected), old(connections[k].tx.buffer), Piece(o, connections[k] == conn, true))
    {
      match o {
        case ToClient(p) =>
          var _ := SendToClient(conn, p);
        case ToAll(p) =>
          var _ := SendToAll(p);
          if conn in connections {
            var k :| 0 <= k < |connections| && connections[k] == conn;
          }
      }
    }
  }
}
