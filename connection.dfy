/**
 * Connection: one TCP peer. A socket is modelled as a pair of byte streams (`Channel`s), one per
 * direction; `send`/`recv` of n bytes may move fewer. The frame on the wire is the 16-bit type, the
 * 16-bit size (host order, taken here as little-endian) and then `size` payload bytes.
 */
module Connections {
  import opened Bytes
  import opened Wrappers
  import opened Protocol

  /** The descriptor value of a closed or never-opened socket. */
  const INVALID_SOCKET: int := -1

  /** The bytes a transfer that returned `n` actually moved: none for an error (-1) or zero. */
  function Moved(bytes: seq<Byte>, n: int): (r: seq<Byte>)
    requires n <= |bytes|
    ensures n <= 0 ==> r == []
    ensures n > 0 ==> |r| == n && r == bytes[..n]
  {
    if n <= 0 then [] else bytes[..n]
  }

  /** `after` is `before` followed by some prefix of `frame`. */
  predicate Extends(after: seq<Byte>, before: seq<Byte>, frame: seq<Byte>)
  {
    |before| <= |after| <= |before| + |frame| && after == before + frame[..|after| - |before|]
  }

  /** `after` is what is left of `before` once some of its leading bytes were taken. */
  predicate Suffix(after: seq<Byte>, before: seq<Byte>)
  {
    |after| <= |before| && after == before[|before| - |after|..]
  }

  /** One direction of a socket: the bytes written and not yet read. */
  class Channel {
    var buffer: seq<Byte>
    /** A lossless stream moves every byte asked for; a lossy one may move fewer, or fail. */
    const lossless: bool

    constructor (lossless: bool, initial: seq<Byte>)
      ensures this.lossless == lossless && buffer == initial
    {
      this.lossless := lossless;
      buffer := initial;
    }

    /** `send`: appends the bytes it managed to move and returns their count, or -1. */
    method Write(bytes: seq<Byte>) returns (n: int)
      modifies this
      ensures -1 <= n <= |bytes|
      ensures buffer == old(buffer) + Moved(bytes, n)
      ensures lossless ==> n == |bytes|
    {
      if lossless {
        n := |bytes|;
      } else {
        n :| -1 <= n <= |bytes|;
      }
      buffer := buffer + Moved(bytes, n);
    }

    /** `recv` of `count` bytes: takes at most that many from the front, returns how many, or -1. */
    method Read(count: nat) returns (n: int, got: seq<Byte>)
      modifies this
      ensures -1 <= n <= count && n <= |old(buffer)|
      ensures got == Moved(old(buffer), n) && old(buffer) == got + buffer
      ensures lossless ==> n == if count <= |old(buffer)| then count else |old(buffer)|
    {
      if lossless {
        n := if count <= |buffer| then count else |buffer|;
      } else {
        n :| -1 <= n <= count && n <= |buffer|;
      }
      got := Moved(buffer, n);
      buffer := buffer[|got|..];
    }
  }

  /** What `Send` writes for a packet: the header, then exactly `size` bytes of the payload. */
  function EncodeFrame(p: Packet): (r: seq<Byte>)
    requires p.size as int <= |p.data|
    ensures |r| == 4 + p.size as int
  {
    LE16(p.ptype) + LE16(p.size) + p.data[..p.size]
  }

  /** The packet `Receive` assembles from the front of a stream, if a whole frame is there. */
  function FrameAt(b: seq<Byte>): (r: Option<Packet>)
    ensures r.Some? ==> WellFormed(r.value) && 4 + r.value.size as int <= |b|
  {
    if |b| < 4 then None
    else
      var size := b[2] as int + 0x100 * b[3] as int;
      if |b| < 4 + size then None
      else Some(Packet(b[0] as int + 0x100 * b[1] as int, size, b[4 .. 4 + size]))
  }

  /** The frame found at the front of a stream is exactly the stream's first bytes. */
  lemma FrameAtPrefix(b: seq<Byte>)
    requires FrameAt(b).Some?
    ensures b == EncodeFrame(FrameAt(b).value) + b[4 + FrameAt(b).value.size as int ..]
  {
    var p := FrameAt(b).value;
    LE16Of(b[0], b[1]);
    LE16Of(b[2], b[3]);
    assert b[..4] == LE16(p.ptype) + LE16(p.size);
    assert b == b[..4] + b[4 .. 4 + p.size as int] + b[4 + p.size as int ..];
  }

  /** A well-formed packet's frame is read back as that packet, whatever follows it. */
  lemma FrameRoundTrip(p: Packet, rest: seq<Byte>)
    requires WellFormed(p)
    ensures FrameAt(EncodeFrame(p) + rest) == Some(p)
  {
    var b := EncodeFrame(p) + rest;
    assert b[0] as int + 0x100 * b[1] as int == p.ptype;
    assert b[2] as int + 0x100 * b[3] as int == p.size;
    assert b[4 .. 4 + p.size as int] == p.data;
  }

  /** The packets one receive loop obtains from a stream over which nothing is lost. */
  function ParseFrames(b: seq<Byte>): (ps: seq<Packet>)
    decreases |b|
  {
    match FrameAt(b)
    case None => []
    case Some(p) => [p] + ParseFrames(b[4 + p.size as int ..])
  }

  /** What a sender writes for a sequence of packets, in order. */
  function Frames(ps: seq<Packet>): (r: seq<Byte>)
    requires AllWellFormed(ps)
  {
    if ps == [] then [] else TailWellFormed(ps); EncodeFrame(ps[0]) + Frames(ps[1..])
  }

  predicate AllWellFormed(ps: seq<Packet>)
  {
    forall i | 0 <= i < |ps| :: WellFormed(ps[i])
  }

  lemma TailWellFormed(ps: seq<Packet>)
    requires AllWellFormed(ps) && ps != []
    ensures AllWellFormed(ps[1..])
  {
    forall i | 0 <= i < |ps| - 1 ensures WellFormed(ps[1..][i]) {
      assert ps[1..][i] == ps[i + 1];
    }
  }

  lemma ConsAppend(ps: seq<Packet>, c: seq<Packet>)
    requires ps != []
    ensures [ps[0]] + (ps[1..] + c) == ps + c
  {
    assert ps == [ps[0]] + ps[1..];
  }

  /** Parsing past one complete frame yields that packet and then whatever the rest parses to. */
  lemma ParseFramesCons(p: Packet, rest: seq<Byte>)
    requires WellFormed(p)
    ensures ParseFrames(EncodeFrame(p) + rest) == [p] + ParseFrames(rest)
  {
    var b := EncodeFrame(p) + rest;
    FrameRoundTrip(p, rest);
    assert b[4 + p.size as int ..] == rest;
  }

  /** Frames written back to back are parsed back one by one, in order. */
  lemma {:induction false} ParseFramesOfFrames(ps: seq<Packet>, rest: seq<Byte>)
    requires AllWellFormed(ps)
    ensures ParseFrames(Frames(ps) + rest) == ps + ParseFrames(rest)
  {
    if ps != [] {
      TailWellFormed(ps);
      var tail := Frames(ps[1..]) + rest;
      assert Frames(ps) + rest == EncodeFrame(ps[0]) + tail;
      ParseFramesCons(ps[0], tail);
      ParseFramesOfFrames(ps[1..], rest);
      ConsAppend(ps, ParseFrames(rest));
    } else {
      assert Frames(ps) + rest == rest;
      assert ps + ParseFrames(rest) == ParseFrames(rest);
    }
  }

  /** The version of `Frames(ps)` with one more packet on the end. */
  lemma {:induction false} FramesSnoc(ps: seq<Packet>, p: Packet)
    requires AllWellFormed(ps) && WellFormed(p)
    ensures AllWellFormed(ps + [p])
    ensures Frames(ps + [p]) == Frames(ps) + EncodeFrame(p)
  {
    assert forall i | 0 <= i < |ps| :: (ps + [p])[i] == ps[i];
    if ps == [] {
      assert [p][1..] == [];
    } else {
      TailWellFormed(ps);
      assert (ps + [p])[1..] == ps[1..] + [p];
      FramesSnoc(ps[1..], p);
    }
  }

  /** A whole frame at the front of a stream leaves at least `size` bytes after its header. */
  lemma FrameSizeAt(start: seq<Byte>, header: seq<Byte>, rest: seq<Byte>)
    requires |header| == 4 && start == header + rest && FrameAt(start).Some?
    ensures |rest| >= header[2] as int + 0x100 * header[3] as int
  {
    assert start[2] == header[2] && start[3] == header[3];
  }

  /** A header followed by exactly `size` payload bytes is the frame of the packet they describe. */
  lemma ReceivedFrame(start: seq<Byte>, header: seq<Byte>, p: Packet, rest: seq<Byte>)
    requires |header| == 4 && start == header + p.data + rest
    requires p.ptype == header[0] as int + 0x100 * header[1] as int
    requires p.size == header[2] as int + 0x100 * header[3] as int && |p.data| == p.size as int
    ensures WellFormed(p) && start == EncodeFrame(p) + rest && FrameAt(start) == Some(p)
  {
    LE16Of(header[0], header[1]);
    LE16Of(header[2], header[3]);
    assert p.data[..p.size] == p.data;
    assert EncodeFrame(p) == header + p.data;
    FrameRoundTrip(p, rest);
  }

  /** The first `k` connection ids handed out: the counter starts at 1 and wraps modulo 2^32. */
  function IdAt(k: nat): (id: U32)
    ensures k < 0xFFFF_FFFF ==> id == k + 1
  {
    (k + 1) % 0x1_0000_0000
  }

  function IdSequence(n: nat): (s: seq<U32>)
    ensures |s| == n && forall i | 0 <= i < n :: s[i] == IdAt(i)
  {
    seq(n, i requires 0 <= i < n => IdAt(i))
  }

  /** Until the counter wraps the ids start at 1 and strictly increase. */
  lemma IdsIncrease(n: nat, i: nat, j: nat)
    requires n <= 0xFFFF_FFFF && i < j < n
    ensures IdSequence(n)[0] == 1 && IdSequence(n)[i] < IdSequence(n)[j]
  {
  }

  /** The 2^32-th connection gets id 0 and the next one repeats id 1. */
  lemma IdsWrap()
    ensures IdAt(0xFFFF_FFFF) == 0 && IdAt(0x1_0000_0000) == IdAt(0)
  {
  }

  /** The static counter `Connection::next_id_`; `issued` records every id it has returned. */
  class IdAllocator {
    var next: U32
    ghost var issued: seq<U32>

    ghost predicate Valid()
      reads this
    {
      next == IdAt(|issued|) && issued == IdSequence(|issued|)
    }

    constructor ()
      ensures next == 1 && issued == [] && Valid()
    {
      next := 1;
      issued := [];
    }

    /** `next_id_.fetch_add(1)`: returns the current value and increments it with wrap-around. */
    method FetchAdd() returns (id: U32)
      requires Valid()
      modifies this
      ensures Valid()
      ensures id == old(next) && issued == old(issued) + [id]
      ensures next == (old(next) + 1) % 0x1_0000_0000
    {
      id := next;
      next := (next + 1) % 0x1_0000_0000;
      issued := issued + [id];
      assert issued == IdSequence(|issued|);
    }
  }

  class Connection {
    /** The application view of the peer: its id and its "host:port" text. */
    const id: U32
    const address: Narrow
    /** The stream this side writes to and the stream it reads from. */
    const tx: Channel
    const rx: Channel
    var socket: int
    var connected: bool
    /** How many times `closesocket` has been called on this connection's descriptor. */
    var closes: nat

    /** The descriptor is closed at most once, and only after the connection stopped being connected. */
    ghost predicate Valid()
      reads this
    {
      closes <= 1 && (closes == 1 ==> socket == INVALID_SOCKET && !connected)
    }

    /** A dead connection that still holds its descriptor. */
    predicate Leaked()
      reads this
    {
      !connected && socket != INVALID_SOCKET
    }

    /** Takes the next id from the counter and starts connected. */
    constructor (socket: int, address: Narrow, alloc: IdAllocator, tx: Channel, rx: Channel)
      requires alloc.Valid()
      modifies alloc
      ensures alloc.Valid()
      ensures id == old(alloc.next) && alloc.issued == old(alloc.issued) + [id]
      ensures alloc.next == (old(alloc.next) + 1) % 0x1_0000_0000
      ensures this.socket == socket && this.address == address && this.tx == tx && this.rx == rx
      ensures connected && closes == 0 && Valid()
    {
      var taken := alloc.FetchAdd();
      id := taken;
      this.socket := socket;
      this.address := address;
      this.tx := tx;
      this.rx := rx;
      connected := true;
      closes := 0;
    }

    /** `IsConnected()`: reads the flag and changes nothing. */
    method IsConnected() returns (r: bool)
      ensures r == connected
    {
      r := connected;
    }

    /** A `send` on this connection's descriptor; one on an invalid descriptor fails at once. */
    method Transmit(bytes: seq<Byte>) returns (n: int)
      modifies tx
      ensures -1 <= n <= |bytes|
      ensures socket == INVALID_SOCKET ==> n == -1 && tx.buffer == old(tx.buffer)
      ensures tx.buffer == old(tx.buffer) + Moved(bytes, n)
      ensures socket != INVALID_SOCKET && tx.lossless ==> n == |bytes|
    {
      if socket == INVALID_SOCKET {
        n := -1;
      } else {
        n := tx.Write(bytes);
      }
    }

    /** A `recv` on this connection's descriptor; one on an invalid descriptor fails at once. */
    method Collect(count: nat) returns (n: int, got: seq<Byte>)
      modifies rx
      ensures -1 <= n <= count && n <= |old(rx.buffer)|
      ensures socket == INVALID_SOCKET ==> n == -1 && rx.buffer == old(rx.buffer)
      ensures got == Moved(old(rx.buffer), n) && old(rx.buffer) == got + rx.buffer
      ensures socket != INVALID_SOCKET && rx.lossless && count <= |old(rx.buffer)| ==> n == count
    {
      if socket == INVALID_SOCKET {
        n, got := -1, [];
      } else {
        n, got := rx.Read(count);
      }
    }

    /**
     * Writes the header and then the payload; a short or failed write of either marks the
     * connection disconnected. The result is the new value of the flag.
     */
    method Send(p: Packet) returns (ok: bool)
      requires p.size as int <= |p.data|
      requires Valid()
      modifies this, tx
      ensures Valid() && socket == old(socket) && closes == old(closes)
      ensures connected == ok && (ok ==> old(connected))
      ensures !old(connected) ==> tx.buffer == old(tx.buffer)
      ensures Extends(tx.buffer, old(tx.buffer), EncodeFrame(p))
      ensures ok <==> old(connected) && tx.buffer == old(tx.buffer) + EncodeFrame(p)
      ensures old(connected) && socket != INVALID_SOCKET && tx.lossless ==> ok
    {
      if !connected {
        return false;
      }
      var frame := EncodeFrame(p);
      var header := LE16(p.ptype) + LE16(p.size);
      assert frame[..4] == header;
      var sent := Transmit(header);
      if sent != 4 {
        connected := false;
        return false;
      }
      if p.size > 0 {
        sent := Transmit(p.data[..p.size]);
        assert frame == header + p.data[..p.size];
        if sent != p.size as int {
          connected := false;
          return false;
        }
      }
      assert tx.buffer == old(tx.buffer) + frame;
      return true;
    }

    /**
     * Reads a header and then `size` payload bytes into a default-constructed packet; a short or
     * failed read of either marks the connection disconnected. On a short payload read the packet
     * holds the bytes that did arrive followed by the zeros `resize` put there.
     */
    method Receive() returns (ok: bool, p: Packet)
      requires Valid()
      modifies this, rx
      ensures Valid() && socket == old(socket) && closes == old(closes)
      ensures connected == ok && (ok ==> old(connected))
      ensures !old(connected) ==> rx.buffer == old(rx.buffer) && p == DefaultPacket
      ensures Suffix(rx.buffer, old(rx.buffer))
      ensures ok ==> WellFormed(p) && old(rx.buffer) == EncodeFrame(p) + rx.buffer
      ensures ok ==> FrameAt(old(rx.buffer)) == Some(p)
      ensures old(connected) && socket != INVALID_SOCKET && rx.lossless && FrameAt(old(rx.buffer)).Some? ==> ok
    {
      p := DefaultPacket;
      if !connected {
        return false, p;
      }
      ghost var start := rx.buffer;
      var n, header := Collect(4);
      if n != 4 {
        connected := false;
        return false, p;
      }
      var size: U16 := header[2] as int + 0x100 * header[3] as int;
      p := Packet(header[0] as int + 0x100 * header[1] as int, size, []);
      if size > 0 {
        if FrameAt(start).Some? {
          FrameSizeAt(start, header, rx.buffer);
        }
        var m, got := Collect(size);
        p := p.(data := got + seq(size - |got|, _ => 0));
        if m != size {
          connected := false;
          return false, p;
        }
        assert p.data == got;
      }
      ReceivedFrame(start, header, p, rx.buffer);
      return true, p;
    }

    /**
     * `Disconnect()` as written: only the call that flips `connected_` from true closes the
     * descriptor. A connection a failed `Send`/`Receive` already marked disconnected is never closed.
     */
    method DisconnectAsWritten()
      requires Valid()
      modifies this
      ensures Valid() && !connected
      ensures old(connected) && old(socket) != INVALID_SOCKET ==> socket == INVALID_SOCKET && closes == old(closes) + 1
      ensures !(old(connected) && old(socket) != INVALID_SOCKET) ==> socket == old(socket) && closes == old(closes)
      ensures old(Leaked()) ==> Leaked()
    {
      var was := connected;
      connected := false;
      if was {
        if socket != INVALID_SOCKET {
          closes := closes + 1;
          socket := INVALID_SOCKET;
        }
      }
    }

    /**
     * `Disconnect()` corrected: clears the flag and closes the descriptor whenever it is still open,
     * whatever the flag was. It still closes at most once.
     */
    method Disconnect()
      requires Valid()
      modifies this
      ensures Valid() && !connected && !Leaked() && socket == INVALID_SOCKET
      ensures closes == old(closes) + (if old(socket) != INVALID_SOCKET then 1 else 0)
    {
      connected := false;
      if socket != INVALID_SOCKET {
        closes := closes + 1;
        socket := INVALID_SOCKET;
      }
    }
  }

  /** A packet sent over a lossless stream is received intact by the reader at the other end. */
  method Loopback(p: Packet) returns (sent: bool, received: bool, q: Packet)
    requires WellFormed(p)
    ensures sent && received && q == p
  {
    var alloc := new IdAllocator();
    var wire := new Channel(true, []);
    var back := new Channel(true, []);
    var client := new Connection(3, "127.0.0.1:8001", alloc, wire, back);
    var server := new Connection(4, "127.0.0.1:50000", alloc, back, wire);
    sent := client.Send(p);
    FrameRoundTrip(p, []);
    assert EncodeFrame(p) + [] == EncodeFrame(p);
    assert wire.buffer == EncodeFrame(p) && FrameAt(wire.buffer) == Some(p);
    assert server.connected && server.socket == 4 && server.Valid();
    received, q := server.Receive();
  }

  /** Two `Disconnect` calls (say, the handler's and the destructor's) close the descriptor once. */
  method DisconnectTwiceClosesOnce() returns (closes: nat, socket: int)
    ensures closes == 1 && socket == INVALID_SOCKET
  {
    var alloc := new IdAllocator();
    var tx := new Channel(true, []);
    var rx := new Channel(true, []);
    var conn := new Connection(5, "10.0.0.2:4000", alloc, tx, rx);
    conn.DisconnectAsWritten();
    conn.DisconnectAsWritten();
    closes, socket := conn.closes, conn.socket;
  }

  /**
   * The handler path as written: the peer goes away, so `Receive` fails and clears the flag; the
   * handler's `Disconnect` and the destructor's then both skip the close, and the descriptor leaks.
   */
  method ShortReadLeaksSocket() returns (closes: nat, socket: int)
    ensures closes == 0 && socket == 5
  {
    var alloc := new IdAllocator();
    var tx := new Channel(true, []);
    var rx := new Channel(true, []);
    var conn := new Connection(5, "10.0.0.2:4000", alloc, tx, rx);
    var ok, p := conn.Receive();
    conn.DisconnectAsWritten();
    conn.DisconnectAsWritten();
    closes, socket := conn.closes, conn.socket;
  }

  /** The same path with the corrected `Disconnect`: the descriptor is closed exactly once. */
  method ShortReadClosesSocket() returns (closes: nat, socket: int)
    ensures closes == 1 && socket == INVALID_SOCKET
  {
    var alloc := new IdAllocator();
    var tx := new Channel(true, []);
    var rx := new Channel(true, []);
    var conn := new Connection(5, "10.0.0.2:4000", alloc, tx, rx);
    var ok, p := conn.Receive();
    conn.Disconnect();
    conn.Disconnect();
    closes, socket := conn.closes, conn.socket;
  }
}
