/** GatewayServer: the reply each packet type gets. Its StringToLogLevel is the same as AuthServer's. */
module Gateway {
  import opened Bytes
  import opened Protocol
  import opened Registry
  import opened Replies

  /** The fixed reply texts. */
  const EchoResponse: Narrow := "GATEWAY_ECHO_RESPONSE"
  const LoginSuccess: Narrow := "LOGIN_SUCCESS"

  /**
   * `HandlePacket`: ECHO is answered with ECHO "GATEWAY_ECHO_RESPONSE", LOGIN_REQUEST with
   * LOGIN_RESPONSE "LOGIN_SUCCESS"; any other type is only logged.
   */
  function HandlePacket(p: Packet): (sends: seq<Outgoing>)
    ensures Sendable(sends)
  {
    match TypeOf(p.ptype)
    case Some(ECHO) => [Reply(ECHO, EchoResponse)]
    case Some(LOGIN_REQUEST) => [Reply(LOGIN_RESPONSE, LoginSuccess)]
    case _ => []
  }

  /** Exactly the two request types get an answer, always one reply to the sender that reads back as sent. */
  lemma HandlePacketReplies(p: Packet)
    ensures HandlePacket(p) != [] <==> p.ptype == Code(ECHO) || p.ptype == Code(LOGIN_REQUEST)
    ensures p.ptype == Code(ECHO) ==>
              |HandlePacket(p)| == 1 && HandlePacket(p)[0].ToClient? && Carries(HandlePacket(p)[0], ECHO, EchoResponse)
    ensures p.ptype == Code(LOGIN_REQUEST) ==>
              |HandlePacket(p)| == 1 && HandlePacket(p)[0].ToClient? && Carries(HandlePacket(p)[0], LOGIN_RESPONSE, LoginSuccess)
  {
    ReplyCarries(ECHO, EchoResponse);
    ReplyCarries(LOGIN_RESPONSE, LoginSuccess);
    CodeTypeOf(p.ptype, ECHO);
    CodeTypeOf(p.ptype, LOGIN_REQUEST);
  }
}
