/** The packet record and the application packet-type codes shared by every service. */
module Protocol {
  import opened Bytes
  import opened Wrappers

  /** A frame as the services see it: a 16-bit type, a 16-bit size field and the payload bytes. */
  datatype Packet = Packet(ptype: U16, size: U16, data: seq<Byte>)

  /** The size field agrees with the payload: what the wire format can carry exactly. */
  predicate WellFormed(p: Packet)
  {
    p.size as int == |p.data|
  }

  /** `Packet()`: the default-constructed packet. */
  const DefaultPacket: Packet := Packet(0, 0, [])

  lemma DefaultPacketIsEmpty()
    ensures DefaultPacket.ptype == 0 && DefaultPacket.size == 0 && DefaultPacket.data == []
    ensures WellFormed(DefaultPacket)
  {
  }

  /** `Packet(t, d)`: the size field is `d.size()` stored into a uint16_t, so it is the length modulo 2^16. */
  function MakePacket(t: U16, d: seq<Byte>): (p: Packet)
    ensures p.ptype == t && p.data == d
    ensures p.size as int == |d| % 0x1_0000 && p.size as int <= |d|
  {
    Packet(t, |d| % 0x1_0000, d)
  }

  /** The size field of a constructed packet is exact precisely when the payload fits in 16 bits. */
  lemma MakePacketWellFormedIff(t: U16, d: seq<Byte>)
    ensures WellFormed(MakePacket(t, d)) <==> |d| <= 0xFFFF
  {
    if |d| > 0xFFFF {
      assert |d| % 0x1_0000 < 0x1_0000 <= |d|;
    }
  }

  /** The application packet types (enum PacketType : uint16_t). */
  datatype PacketType =
    | ECHO
    | AUTH_REQUEST | AUTH_RESPONSE
    | LOGIN_REQUEST | LOGIN_RESPONSE
    | GAME_DATA | PLAYER_MOVE | PLAYER_CHAT
    | ZONE_CHANGE | ZONE_DATA

  /** The wire code of each packet type. */
  function Code(t: PacketType): (c: U16)
    ensures c in {1, 100, 101, 102, 103, 200, 201, 202, 300, 301}
  {
    match t
    case ECHO => 1
    case AUTH_REQUEST => 100
    case AUTH_RESPONSE => 101
    case LOGIN_REQUEST => 102
    case LOGIN_RESPONSE => 103
    case GAME_DATA => 200
    case PLAYER_MOVE => 201
    case PLAYER_CHAT => 202
    case ZONE_CHANGE => 300
    case ZONE_DATA => 301
  }

  /** The packet type a 16-bit code stands for, if any. */
  function TypeOf(c: U16): (t: Option<PacketType>)
  {
    if c == 1 then Some(ECHO)
    else if c == 100 then Some(AUTH_REQUEST)
    else if c == 101 then Some(AUTH_RESPONSE)
    else if c == 102 then Some(LOGIN_REQUEST)
    else if c == 103 then Some(LOGIN_RESPONSE)
    else if c == 200 then Some(GAME_DATA)
    else if c == 201 then Some(PLAYER_MOVE)
    else if c == 202 then Some(PLAYER_CHAT)
    else if c == 300 then Some(ZONE_CHANGE)
    else if c == 301 then Some(ZONE_DATA)
    else None
  }

  /** The codes are fixed and pairwise distinct: a code names a type exactly when it is that type's code. */
  lemma CodeTypeOf(c: U16, t: PacketType)
    ensures TypeOf(c) == Some(t) <==> Code(t) == c
  {
  }

  lemma CodesDistinct(s: PacketType, t: PacketType)
    ensures Code(s) == Code(t) ==> s == t
  {
    CodeTypeOf(Code(s), s);
    CodeTypeOf(Code(s), t);
  }
}
