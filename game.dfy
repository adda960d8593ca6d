/** GameServer: the player-session table keyed by connection id and the reply each packet gets. */
module Game {
  import opened Bytes
  import opened Wrappers
  import opened Protocol
  import opened Codec
  import opened Registry
  import opened Replies

  /** `PlayerSession`. */
  datatype PlayerSession = PlayerSession(playerId: U32, address: string, x: Int32, y: Int32)

  /** `v += 1` on an int32_t, wrapping at the top as two's-complement hardware does. */
  function Inc32(v: Int32): (r: Int32)
    ensures Bits32(r) == (Bits32(v) + 1) % 0x1_0000_0000
  {
    if v == 0x7FFF_FFFF then -0x8000_0000 else v + 1
  }

  /** What a PLAYER_MOVE does to a session: one step down the diagonal. */
  function Step(s: PlayerSession): (r: PlayerSession)
    ensures r.playerId == s.playerId && r.address == s.address
    ensures s.x < 0x7FFF_FFFF ==> r.x == s.x + 1
    ensures s.y < 0x7FFF_FFFF ==> r.y == s.y + 1
  {
    s.(x := Inc32(s.x), y := Inc32(s.y))
  }

  /** The fixed reply texts. */
  const EchoResponse: Narrow := "GAME_ECHO_RESPONSE"
  const MoveSuccess: Narrow := "MOVE_SUCCESS"
  const ChatBroadcast: Narrow := "CHAT_BROADCAST"

  /** The sends HandlePacket performs, given whether the sender has a session. */
  function Sends(hasSession: bool, p: Packet): (sends: seq<Outgoing>)
    ensures Sendable(sends)
  {
    match TypeOf(p.ptype)
    case Some(ECHO) => [Reply(ECHO, EchoResponse)]
    case Some(PLAYER_MOVE) => if hasSession then [Reply(PLAYER_MOVE, MoveSuccess)] else []
    case Some(PLAYER_CHAT) => [Broadcast(PLAYER_CHAT, ChatBroadcast)]
    case _ => []
  }

  /** ECHO gets one reply to the sender carrying "GAME_ECHO_RESPONSE". */
  lemma SendsEcho(hasSession: bool, p: Packet)
    requires p.ptype == Code(ECHO)
    ensures var s := Sends(hasSession, p);
              |s| == 1 && s[0].ToClient? && Carries(s[0], ECHO, EchoResponse)
  {
    ReplyCarries(ECHO, EchoResponse);
    CodeTypeOf(p.ptype, ECHO);
  }

  /** PLAYER_CHAT gets one broadcast carrying "CHAT_BROADCAST". */
  lemma SendsChat(hasSession: bool, p: Packet)
    requires p.ptype == Code(PLAYER_CHAT)
    ensures var s := Sends(hasSession, p);
              |s| == 1 && s[0].ToAll? && Carries(s[0], PLAYER_CHAT, ChatBroadcast)
  {
    ReplyCarries(PLAYER_CHAT, ChatBroadcast);
    CodeTypeOf(p.ptype, PLAYER_CHAT);
  }

  /** PLAYER_MOVE gets one reply carrying "MOVE_SUCCESS" exactly when the sender has a session. */
  lemma SendsMove(hasSession: bool, p: Packet)
    requires p.ptype == Code(PLAYER_MOVE)
    ensures Sends(hasSession, p) != [] <==> hasSession
    ensures hasSession ==> var s := Sends(hasSession, p);
              |s| == 1 && s[0].ToClient? && Carries(s[0], PLAYER_MOVE, MoveSuccess)
  {
    ReplyCarries(PLAYER_MOVE, MoveSuccess);
    CodeTypeOf(p.ptype, PLAYER_MOVE);
  }

  /** Every other type gets nothing. */
  lemma SendsOther(hasSession: bool, p: Packet)
    requires p.ptype != Code(ECHO) && p.ptype != Code(PLAYER_CHAT) && p.ptype != Code(PLAYER_MOVE)
    ensures Sends(hasSession, p) == []
  {
    CodeTypeOf(p.ptype, ECHO);
    CodeTypeOf(p.ptype, PLAYER_CHAT);
    CodeTypeOf(p.ptype, PLAYER_MOVE);
  }

  class GameServer {
    /** `port_` and `game_tick_rate_`. */
    const port: int
    const tickRate: int
    /** `player_sessions_`. */
    var sessions: map<U32, PlayerSession>

    constructor ()
      ensures port == 8003 && tickRate == 20 && sessions == map[]
    {
      port := 8003;
      tickRate := 20;
      sessions := map[];
    }

    /** The connect callback: a fresh session at (0, 0) under the connection id, replacing any old one. */
    method OnConnected(id: U32, address: string)
      modifies this
      ensures sessions == old(sessions)[id := PlayerSession(id, address, 0, 0)]
    {
      sessions := sessions[id := PlayerSession(id, address, 0, 0)];
    }

    /** The disconnect callback: only that id's session goes. */
    method OnDisconnected(id: U32)
      modifies this
      ensures sessions == old(sessions) - {id}
    {
      sessions := sessions - {id};
    }

    /**
     * `HandlePacket` for a packet from connection `id`: a PLAYER_MOVE from a player with a session
     * steps that session and no other; nothing else touches the table. Returns the sends performed.
     */
    method HandlePacket(id: U32, p: Packet) returns (sends: seq<Outgoing>)
      modifies this
      ensures sends == Sends(id in old(sessions), p)
      ensures p.ptype == Code(PLAYER_MOVE) && id in old(sessions) ==> sessions == old(sessions)[id := Step(old(sessions)[id])]
      ensures p.ptype != Code(PLAYER_MOVE) || id !in old(sessions) ==> sessions == old(sessions)
    {
      CodeTypeOf(p.ptype, PLAYER_MOVE);
      match TypeOf(p.ptype) {
        case Some(ECHO) =>
          sends := [Reply(ECHO, EchoResponse)];
        case Some(PLAYER_MOVE) =>
          if id in sessions {
            var s := sessions[id];
            s := s.(x := Inc32(s.x));
            s := s.(y := Inc32(s.y));
            sessions := sessions[id := s];
            sends := [Reply(PLAYER_MOVE, MoveSuccess)];
          } else {
            sends := [];
          }
        case Some(PLAYER_CHAT) =>
          sends := [Broadcast(PLAYER_CHAT, ChatBroadcast)];
        case _ =>
          sends := [];
      }
    }
  }

  /** Two moves after a connect leave the player at (2, 2) with a reply each time; a stranger's move does nothing. */
  method ConnectAndMove() returns (s: PlayerSession, first: seq<Outgoing>, stranger: seq<Outgoing>, count: nat)
    ensures s == PlayerSession(7, "10.0.0.1", 2, 2)
    ensures first == [Reply(PLAYER_MOVE, MoveSuccess)] && stranger == [] && count == 1
  {
    var server := new GameServer();
    server.OnConnected(7, "10.0.0.1");
    var move := MakePacket(Code(PLAYER_MOVE), []);
    first := server.HandlePacket(7, move);
    var _ := server.HandlePacket(7, move);
    stranger := server.HandlePacket(8, move);
    s := server.sessions[7];
    count := |server.sessions|;
  }
}
