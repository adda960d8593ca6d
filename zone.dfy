/**
 * ZoneServer: the zone map with its border walls, the zone-player table keyed by connection id,
 * the clamped move, and the reply each packet gets.
 */
module Zone {
  import opened Bytes
  import opened Wrappers
  import opened Protocol
  import opened Registry
  import opened Replies

  // ---------------------------------------------------------------------------
  // std::to_string on int
  // ---------------------------------------------------------------------------

  function Digit(d: nat): (c: char)
    requires d < 10
    ensures '0' <= c <= '9' && c as int - '0' as int == d
  {
    ('0' as int + d) as char
  }

  predicate AllDigits(s: string)
  {
    forall i | 0 <= i < |s| :: '0' <= s[i] <= '9'
  }

  /** The decimal digits of `n`, most significant first, without leading zeros. */
  function NatToString(n: nat): (r: string)
    ensures |r| >= 1 && AllDigits(r)
    decreases n
  {
    if n < 10 then [Digit(n)] else NatToString(n / 10) + [Digit(n % 10)]
  }

  /** The value of a string of decimal digits. */
  function DigitsValue(s: string): nat
    requires AllDigits(s)
    decreases |s|
  {
    if s == [] then 0 else 10 * DigitsValue(s[..|s| - 1]) + (s[|s| - 1] as int - '0' as int)
  }

  /** Reading the digits back gives the number, and only zero is written with a leading '0'. */
  lemma {:induction false} NatToStringRoundTrip(n: nat)
    ensures DigitsValue(NatToString(n)) == n
    ensures NatToString(n)[0] == '0' <==> n == 0
    decreases n
  {
    var r := NatToString(n);
    if n >= 10 {
      NatToStringRoundTrip(n / 10);
      assert r[..|r| - 1] == NatToString(n / 10);
      assert r[0] == NatToString(n / 10)[0];
    }
  }

  function Pow10(k: nat): nat
  {
    if k == 0 then 1 else 10 * Pow10(k - 1)
  }

  /** A number below 10^k has at most k digits. */
  lemma {:induction false} NatToStringLength(n: nat, k: nat)
    requires 1 <= k && n < Pow10(k)
    ensures |NatToString(n)| <= k
    decreases k
  {
    if n >= 10 {
      NatToStringLength(n / 10, k - 1);
    }
  }

  /** `std::to_string(int)`: a minus sign before the digits of a negative value. */
  function IntToString(n: int): (r: Narrow)
    ensures n >= 0 ==> r == NatToString(n)
    ensures n < 0 ==> r == "-" + NatToString(-n)
  {
    var digits := NatToString(if n < 0 then -n else n);
    assert IsNarrow(digits);
    if n < 0 then
      NarrowConcat("-", digits);
      "-" + digits
    else digits
  }

  // ---------------------------------------------------------------------------
  // The map
  // ---------------------------------------------------------------------------

  /** A wall on the outer border of a `width` by `height` map, floor everywhere else. */
  function Cell(x: int, y: int, width: int, height: int): char
  {
    if x == 0 || x == width - 1 || y == 0 || y == height - 1 then '#' else '.'
  }

  /** `std::max` and `std::min` on int. */
  function Max(a: int, b: int): int
  {
    if a < b then b else a
  }

  function Min(a: int, b: int): int
  {
    if b < a then b else a
  }

  /**
   * The clamp PLAYER_MOVE applies to each coordinate, `max(1, min(size - 2, v))`: on a map of at
   * least 3 cells it lands inside the walls and leaves an inside value alone; it never exceeds
   * `max(1, size - 2)`.
   */
  function Clamp(v: int, size: int): (r: int)
    ensures size >= 3 ==> 1 <= r <= size - 2
    ensures size >= 3 && 1 <= v <= size - 2 ==> r == v
    ensures 1 <= r <= Max(1, size - 2)
  {
    Max(1, Min(size - 2, v))
  }

  /** A clamped position on a map of at least 3 by 3 is never on the wall. */
  lemma ClampedIsFloor(x: int, y: int, width: int, height: int)
    requires width >= 3 && height >= 3
    ensures Cell(Clamp(x, width), Clamp(y, height), width, height) == '.'
  {
  }

  /** `ZonePlayer`. */
  datatype ZonePlayer = ZonePlayer(playerId: U32, address: string, zoneX: Int32, zoneY: Int32)

  /** An int32 takes at most 11 characters: a sign and ten digits. */
  lemma IntToStringShort(n: Int32)
    ensures |IntToString(n)| <= 11
  {
    assert Pow10(10) == 10_000_000_000;
    var m: int := n;
    NatToStringLength(if m < 0 then -m else m, 10);
  }

  /** The text ZONE_DATA replies with. */
  function ZoneDataText(zoneId: Int32, width: Int32, height: Int32): (r: Narrow)
    ensures |r| <= 56
  {
    var a := IntToString(zoneId);
    var b := IntToString(width);
    var c := IntToString(height);
    NarrowConcat("ZONE_DATA_ZONE_", a);
    NarrowConcat("ZONE_DATA_ZONE_" + a, "_SIZE_");
    NarrowConcat("ZONE_DATA_ZONE_" + a + "_SIZE_", b);
    NarrowConcat("ZONE_DATA_ZONE_" + a + "_SIZE_" + b, "x");
    NarrowConcat("ZONE_DATA_ZONE_" + a + "_SIZE_" + b + "x", c);
    IntToStringShort(zoneId);
    IntToStringShort(width);
    IntToStringShort(height);
    "ZONE_DATA_ZONE_" + a + "_SIZE_" + b + "x" + c
  }

  /** The text ECHO replies with. */
  function EchoText(zoneId: Int32): (r: Narrow)
    ensures |r| <= 35
  {
    var t := IntToString(zoneId);
    IntToStringShort(zoneId);
    assert |t| <= 11;
    NarrowConcat("ZONE_ECHO_RESPONSE_ZONE_", t);
    "ZONE_ECHO_RESPONSE_ZONE_" + t
  }

  /** For zone 1 with its 50 by 50 map the texts are "ZONE_DATA_ZONE_1_SIZE_50x50" and "ZONE_ECHO_RESPONSE_ZONE_1". */
  lemma DefaultZoneTexts()
    ensures ZoneDataText(1, 50, 50) == "ZONE_DATA_ZONE_1_SIZE_50x50"
    ensures EchoText(1) == "ZONE_ECHO_RESPONSE_ZONE_1"
  {
    assert NatToString(5) == "5" && NatToString(0) == "0";
    assert NatToString(50) == "50";
  }

  /** The fixed reply texts. */
  const MoveSuccess: Narrow := "ZONE_MOVE_SUCCESS"
  const PositionSync: Narrow := "PLAYER_POSITION_SYNC"
  const ChangeSuccess: Narrow := "ZONE_CHANGE_SUCCESS"

  /** The sends HandlePacket performs, given the zone's settings and whether the sender is in the zone. */
  function Sends(zoneId: Int32, width: Int32, height: Int32, present: bool, p: Packet): (sends: seq<Outgoing>)
    ensures Sendable(sends)
  {
    match TypeOf(p.ptype)
    case Some(ECHO) => [Reply(ECHO, EchoText(zoneId))]
    case Some(ZONE_CHANGE) => [Reply(ZONE_CHANGE, ChangeSuccess)]
    case Some(ZONE_DATA) => [Reply(ZONE_DATA, ZoneDataText(zoneId, width, height))]
    case Some(PLAYER_MOVE) =>
      if present then [Reply(PLAYER_MOVE, MoveSuccess), Broadcast(GAME_DATA, PositionSync)] else []
    case _ => []
  }

  /** A move from a player in the zone sends one reply and then one broadcast; one from anyone else sends nothing. */
  lemma SendsMove(zoneId: Int32, width: Int32, height: Int32, present: bool, p: Packet)
    requires p.ptype == Code(PLAYER_MOVE)
    ensures present <==> Sends(zoneId, width, height, present, p) != []
    ensures present ==> var s := Sends(zoneId, width, height, present, p);
              |s| == 2 && s[0].ToClient? && Carries(s[0], PLAYER_MOVE, MoveSuccess)
              && s[1].ToAll? && Carries(s[1], GAME_DATA, PositionSync)
  {
    ReplyCarries(PLAYER_MOVE, MoveSuccess);
    ReplyCarries(GAME_DATA, PositionSync);
    CodeTypeOf(p.ptype, PLAYER_MOVE);
  }

  /** ECHO is answered with "ZONE_ECHO_RESPONSE_ZONE_" and the zone id. */
  lemma SendsEcho(zoneId: Int32, width: Int32, height: Int32, present: bool, p: Packet)
    requires p.ptype == Code(ECHO)
    ensures var s := Sends(zoneId, width, height, present, p);
              |s| == 1 && s[0].ToClient? && Carries(s[0], ECHO, EchoText(zoneId))
  {
    ReplyCarries(ECHO, EchoText(zoneId));
    CodeTypeOf(p.ptype, ECHO);
  }

  /** ZONE_DATA is answered with the zone's id and size. */
  lemma SendsZoneData(zoneId: Int32, width: Int32, height: Int32, present: bool, p: Packet)
    requires p.ptype == Code(ZONE_DATA)
    ensures var s := Sends(zoneId, width, height, present, p);
              |s| == 1 && s[0].ToClient? && Carries(s[0], ZONE_DATA, ZoneDataText(zoneId, width, height))
  {
    ReplyCarries(ZONE_DATA, ZoneDataText(zoneId, width, height));
    CodeTypeOf(p.ptype, ZONE_DATA);
  }

  /** ZONE_CHANGE is answered with ChangeSuccess. */
  lemma SendsZoneChange(zoneId: Int32, width: Int32, height: Int32, present: bool, p: Packet)
    requires p.ptype == Code(ZONE_CHANGE)
    ensures var s := Sends(zoneId, width, height, present, p);
              |s| == 1 && s[0].ToClient? && Carries(s[0], ZONE_CHANGE, ChangeSuccess)
  {
    ReplyCarries(ZONE_CHANGE, ChangeSuccess);
    CodeTypeOf(p.ptype, ZONE_CHANGE);
  }

  /** Types other than ECHO, ZONE_CHANGE, ZONE_DATA and PLAYER_MOVE get nothing. */
  lemma SendsOther(zoneId: Int32, width: Int32, height: Int32, present: bool, p: Packet)
    requires p.ptype != Code(ECHO) && p.ptype != Code(ZONE_CHANGE) && p.ptype != Code(ZONE_DATA) && p.ptype != Code(PLAYER_MOVE)
    ensures Sends(zoneId, width, height, present, p) == []
  {
    CodeTypeOf(p.ptype, ECHO);
    CodeTypeOf(p.ptype, ZONE_CHANGE);
    CodeTypeOf(p.ptype, ZONE_DATA);
    CodeTypeOf(p.ptype, PLAYER_MOVE);
  }

  class ZoneServer {
    /** `port_` and `zone_id_`. */
    const port: int
    const zoneId: Int32
    /** `map_width_`, `map_height_`, `zone_map_` (rows of cells) and `zone_players_`. */
    var width: Int32
    var height: Int32
    var zoneMap: seq<seq<char>>
    var players: map<U32, ZonePlayer>

    /** No stored coordinate is `INT_MAX`, so `zone_x + 1` never overflows. */
    ghost predicate Valid()
      reads this
    {
      forall id | id in players :: players[id].zoneX < 0x7FFF_FFFF && players[id].zoneY < 0x7FFF_FFFF
    }

    /** The constructor leaves the map size unset until InitializeZoneMap; the model starts it at 0 by 0. */
    constructor ()
      ensures port == 8004 && zoneId == 1 && players == map[] && zoneMap == []
      ensures width == 0 && height == 0 && Valid()
    {
      port := 8004;
      zoneId := 1;
      width := 0;
      height := 0;
      zoneMap := [];
      players := map[];
    }

    /** `InitializeZoneMap`: a 50 by 50 map, walls on the border and floor inside. */
    method InitializeZoneMap()
      requires Valid()
      modifies this
      ensures Valid() && width == 50 && height == 50 && players == old(players)
      ensures |zoneMap| == 50 && forall y | 0 <= y < 50 :: |zoneMap[y]| == 50
      ensures forall y, x | 0 <= y < 50 && 0 <= x < 50 :: zoneMap[y][x] == Cell(x, y, 50, 50)
    {
      width := 50;
      height := 50;
      zoneMap := [];
      var y := 0;
      while y < height
        invariant 0 <= y <= height && |zoneMap| == y && width == 50 && height == 50 && players == old(players)
        invariant forall j | 0 <= j < y :: |zoneMap[j]| == 50
        invariant forall j, x | 0 <= j < y && 0 <= x < 50 :: zoneMap[j][x] == Cell(x, j, 50, 50)
      {
        var row: seq<char> := [];
        var x := 0;
        while x < width
          invariant 0 <= x <= width && |row| == x
          invariant forall i | 0 <= i < x :: row[i] == Cell(i, y, 50, 50)
        {
          if x == 0 || x == width - 1 || y == 0 || y == height - 1 {
            row := row + ['#'];
          } else {
            row := row + ['.'];
          }
          x := x + 1;
        }
        zoneMap := zoneMap + [row];
        y := y + 1;
      }
    }

    /** The connect callback: the player enters at (100, 100) under the connection id. */
    method OnConnected(id: U32, address: string)
      requires Valid()
      modifies this
      ensures Valid() && players == old(players)[id := ZonePlayer(id, address, 100, 100)]
      ensures width == old(width) && height == old(height) && zoneMap == old(zoneMap)
    {
      players := players[id := ZonePlayer(id, address, 100, 100)];
    }

    /** The disconnect callback: only that id leaves. */
    method OnDisconnected(id: U32)
      requires Valid()
      modifies this
      ensures Valid() && players == old(players) - {id}
      ensures width == old(width) && height == old(height) && zoneMap == old(zoneMap)
    {
      players := players - {id};
    }

    /**
     * `HandlePacket` for a packet from connection `id`: a PLAYER_MOVE from a player in the zone moves
     * that player one step diagonally, clamped to the map interior, and touches no one else.
     * Returns the sends performed.
     */
    method HandlePacket(id: U32, p: Packet) returns (sends: seq<Outgoing>)
      requires Valid()
      modifies this
      ensures Valid() && width == old(width) && height == old(height) && zoneMap == old(zoneMap)
      ensures sends == Sends(zoneId, width, height, id in old(players), p)
      ensures p.ptype == Code(PLAYER_MOVE) && id in old(players) ==>
                var q := old(players)[id];
                players == old(players)[id := q.(zoneX := Clamp(q.zoneX + 1, width), zoneY := Clamp(q.zoneY + 1, height))]
      ensures p.ptype != Code(PLAYER_MOVE) || id !in old(players) ==> players == old(players)
      ensures p.ptype == Code(PLAYER_MOVE) && id in old(players) && width >= 3 && height >= 3 ==>
                1 <= players[id].zoneX <= width - 2 && 1 <= players[id].zoneY <= height - 2
    {
      CodeTypeOf(p.ptype, PLAYER_MOVE);
      match TypeOf(p.ptype) {
        case Some(ECHO) =>
          sends := [Reply(ECHO, EchoText(zoneId))];
        case Some(ZONE_CHANGE) =>
          sends := [Reply(ZONE_CHANGE, ChangeSuccess)];
        case Some(ZONE_DATA) =>
          sends := [Reply(ZONE_DATA, ZoneDataText(zoneId, width, height))];
        case Some(PLAYER_MOVE) =>
          if id in players {
            var player := players[id];
            var x := Clamp(player.zoneX + 1, width);
            var y := Clamp(player.zoneY + 1, height);
            players := players[id := player.(zoneX := x, zoneY := y)];
            sends := [Reply(PLAYER_MOVE, MoveSuccess), Broadcast(GAME_DATA, PositionSync)];
          } else {
            sends := [];
          }
        case _ =>
          sends := [];
      }
    }
  }

  /** A player who enters at (100, 100), outside the 50 by 50 map, is pulled to (48, 48) by the first move and lands on floor. */
  method EnterAndMove() returns (q: ZonePlayer, sends: seq<Outgoing>, cell: char)
    ensures q == ZonePlayer(3, "10.0.0.3", 48, 48) && cell == '.'
    ensures sends == [Reply(PLAYER_MOVE, MoveSuccess), Broadcast(GAME_DATA, PositionSync)]
  {
    var zone := new ZoneServer();
    zone.InitializeZoneMap();
    zone.OnConnected(3, "10.0.0.3");
    sends := zone.HandlePacket(3, MakePacket(Code(PLAYER_MOVE), []));
    q := zone.players[3];
    cell := zone.zoneMap[q.zoneY][q.zoneX];
  }
}
