/**
 * The reply shape every service uses: a packet of a given type whose payload is one string written
 * by SerializeString, sent back to the requesting connection or to every connection.
 */
module Replies {
  import opened Bytes
  import opened Wrappers
  import opened Protocol
  import opened Codec
  import opened Registry

  /** `SendToClient(conn, Packet(t, SerializeString(msg)))`. */
  function Reply(t: PacketType, msg: Narrow): Outgoing
  {
    ToClient(MakePacket(Code(t), EncodeString(msg)))
  }

  /** `SendToAll(Packet(t, SerializeString(msg)))`. */
  function Broadcast(t: PacketType, msg: Narrow): Outgoing
  {
    ToAll(MakePacket(Code(t), EncodeString(msg)))
  }

  /** The packet carries type `t`, an exact size field, and a payload that reads back as `msg`. */
  predicate Carries(o: Outgoing, t: PacketType, msg: Narrow)
  {
    WellFormed(o.p) && TypeOf(o.p.ptype) == Some(t) && DecodeString(o.p.data, 0) == (msg, |o.p.data|)
  }

  /** A reply or broadcast whose payload fits the 16-bit size field is read back by the receiver as sent. */
  lemma ReplyCarries(t: PacketType, msg: Narrow)
    requires |msg| + 2 <= 0xFFFF
    ensures Carries(Reply(t, msg), t, msg) && Carries(Broadcast(t, msg), t, msg)
  {
    var d := EncodeString(msg);
    MakePacketWellFormedIff(Code(t), d);
    CodeTypeOf(Code(t), t);
    StringRoundTrip([], msg, []);
    assert [] + d + [] == d;
  }
}
