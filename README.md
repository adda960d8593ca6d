# rpgserver core, modelled in Dafny

This project models the deterministic core of the rpgserver MMORPG servers in Dafny. It covers four parts:

- **The network layer.** This is the length-prefixed string codec and the little-endian int32 codec, the framed `Send`/`Receive` of a `Connection`, its id counter and close-once `Disconnect`, and the `NetworkManager` registry of live connections.
- **The INI configuration store** (`ConfigManager`). This covers trimming, `section.key` keys, the line parser that `LoadFromFile` runs, the lookups and the updates.
- **The logger** (`LogManager`). This covers level filtering, the fixed line layout `[timestamp] [LEVEL] [category] message`, and the console and file switches.
- **The packet handling of the four servers and the test client.** The auth, gateway, game and zone servers each get their reply per packet type. The game and zone servers also keep player tables keyed by connection id. The zone server builds a walled 50 by 50 map and clamps moves to its interior. The test client contributes its tokenizer and its command dispatch.

## How the model is built

- **Form.** Code that updates state in place becomes a Dafny `class` whose methods declare `modifies`, and every loop of the source becomes a `while` loop with invariants. Examples are `Connection`, `NetworkManager`, `ConfigManager`, `LogManager`, `GameServer`, `ZoneServer`, the codec loops, `SplitString` and `Run`. Code made of expressions becomes functions, and lemmas state its properties. Examples are `TrimString`, `CreateKey`, `GetString`/`GetBool`, `LogLevelToString`, `StringToLogLevel` and the reply selection.
- **Specification functions.** Each loop method is proved against a separate function of its inputs and old state:
  - `LoadFromFile` against a fold of the parsed lines (`Config.Load`);
  - `SplitString` against a recursive tokenizer (`Client.Tokens`);
  - `Run` against `Client.Session`;
  - the receive loop against `Connections.ParseFrames`.

  Lemmas then state what the source promises about those functions.
- **Byte and string types.**
  - A C++ `std::string` on the wire is `Bytes.Narrow`: a Dafny string whose characters are all below 256.
  - Wire bytes are `Bytes.Byte`.
  - `uint16_t`, `uint32_t` and `int32_t` are subset types, and wrap-around is written out where the source relies on it: the `Packet` size field, the id counter, and `+= 1` on an `int32_t`.
- **Sockets.** A socket is a pair of byte queues (`Connections.Channel`), one per direction. A lossless channel moves every byte asked for. A lossy one may move any prefix, or fail. The `send`/`recv` results therefore range over everything the OS may return.
- **Map order.** `std::map` iteration order is lexicographic on character codes (`KeyOrder.SortedKeys`).
- **Services.** A server's `HandlePacket` returns the list of sends it performs, as `Registry.Outgoing` values. `NetworkManager.Perform` carries them out with `SendToClient`/`SendToAll`.
- **Threads** are modelled as sequential calls:
  - `AcceptClient` is one pass of the accept loop;
  - `ReceiveLoop` and then `ExitClient` make up one client-handler thread: each received packet goes to a handler, whose sends `Perform` carries out before the loop checks the connection again;
  - callbacks are calls to the servers' `OnConnected`/`OnDisconnected` methods.
- **Host byte order.** The raw `uint16_t` frame header is taken as little-endian.

Where the code behaves surprisingly, the model keeps that behaviour. The only exceptions are the two corrected members under "## Findings" (`Connections.Connection.Disconnect` and `Client.Run`), and each has an as-written counterpart. Examples of behaviour kept:
- a `[section]` header followed by `key=value` stores `section.key`, and a line with no `=` is silently dropped;
- the zone server spawns players at (100, 100), which lies outside its own 50 by 50 map;
- the zone server's constructor leaves the map size unset. The model starts it at 0 by 0, and `InitializeZoneMap` sets it.

The gateway server's `StringToLogLevel` (gateway_server/main.cpp:11-18) is identical to the auth server's, so the model defines it once, in `Auth`.

## Model

| member | source | states |
|---|---|---|
| Bytes.LE16 | network/network_manager.cpp:381-382 | two bytes, low byte first, whose value is the 16-bit number |
| Bytes.LE16Of | network/network_manager.cpp:394 | reading two bytes low-first and writing them back gives the same two bytes |
| Bytes.ToBytes | network/network_manager.cpp:384-386 | one byte per character, equal to its code |
| Bytes.FromBytes | network/network_manager.cpp:402-404 | one character per byte, with that code |
| Bytes.BytesRoundTrip | network/network_manager.cpp:384-404 | converting characters to bytes and back is the identity |
| Protocol.DefaultPacketIsEmpty | network/network_manager.h:43 | a default packet has type 0, size 0, empty data, and is well formed |
| Protocol.MakePacket | network/network_manager.h:44 | `Packet(t, d)` keeps type and data, and its size field is the length modulo 65536 |
| Protocol.MakePacketWellFormedIff | network/network_manager.h:44 | the size field equals the payload length exactly when the payload has at most 65535 bytes |
| Protocol.Code | network/network_manager.h:140-151 | every packet type's code is one of 1, 100, 101, 102, 103, 200, 201, 202, 300, 301 |
| Protocol.CodeTypeOf | network/network_manager.h:140-151 | a 16-bit code names a type exactly when it is that type's code |
| Protocol.CodesDistinct | network/network_manager.h:140-151 | no two packet types share a code |
| Codec.EncodeString | network/network_manager.cpp:377-389 | the encoding is two bytes longer than the string |
| Codec.SerializeString | network/network_manager.cpp:377-389 | the loop emits the 16-bit length low byte first, then every character |
| Codec.DeserializeString | network/network_manager.cpp:391-408 | with fewer than 2 bytes left: "" and the offset unchanged; with an overrunning length: "" and the offset advanced by 2; otherwise the declared number of characters and the offset moved past them |
| Codec.StringRoundTrip | network/network_manager.cpp:377-408 | a string of at most 65535 characters decodes back from its encoding at any offset, leaving the offset 2 + length further on |
| Codec.LongStringTruncates | network/network_manager.cpp:379 | a longer string is emitted in full but decodes to only its first length-mod-65536 characters, so it does not round-trip |
| Codec.Bits32 | network/network_manager.cpp:411-414 | the two's-complement bit pattern of an int32 |
| Codec.Signed32 | network/network_manager.cpp:420-423 | the int32 whose bit pattern is the given word (inverse of Bits32) |
| Codec.EncodeInt32 | network/network_manager.cpp:410-415 | an int32 is written as exactly four bytes |
| Codec.ShiftedByte | network/network_manager.cpp:411-414 | `(value >> 8k) & 0xFF` on a negative value is byte k of its two's-complement pattern |
| Codec.SerializeInt32 | network/network_manager.cpp:410-415 | appends exactly the four little-endian two's-complement bytes and leaves the earlier bytes untouched |
| Codec.DeserializeInt32 | network/network_manager.cpp:417-426 | with fewer than 4 bytes left: 0 and the offset unchanged; otherwise the value whose pattern is the four bytes, and the offset plus 4 |
| Codec.Word32OfEncode | network/network_manager.cpp:410-426 | reassembling the four written bytes gives the bit pattern back |
| Codec.Int32RoundTrip | network/network_manager.cpp:410-426 | deserializing at the old end of a serialized buffer returns the same value and advances the offset by 4 |
| Connections.Channel.Write | network/network_manager.cpp:26 | a `send` appends a prefix of the bytes and returns its length or -1; a lossless stream moves all of them |
| Connections.Channel.Read | network/network_manager.cpp:51 | a `recv` takes a prefix of the unread bytes and returns its length or -1; a lossless stream returns as many as asked for and available |
| Connections.EncodeFrame | network/network_manager.cpp:25-39 | the frame Send writes is 4 + size bytes long: four header bytes and exactly `size` payload bytes |
| Connections.FrameAt | network/network_manager.cpp:50-68 | a frame read from the front of a stream is well formed and fits in the stream |
| Connections.FrameAtPrefix | network/network_manager.cpp:50-68 | the frame found at the front of a stream is exactly the stream's first bytes |
| Connections.FrameRoundTrip | network/network_manager.cpp:19-71 | the frame Send writes for a well-formed packet is read back as that packet, whatever follows it |
| Connections.ParseFramesOfFrames | network/network_manager.cpp:298-309 | frames written back to back are received one by one in order |
| Connections.IdAt | network/network_manager.cpp:8-12 | the k-th id handed out is k + 1 until the 32-bit counter wraps |
| Connections.IdSequence | network/network_manager.cpp:8-12 | the first n ids handed out, in order |
| Connections.IdsIncrease | network/network_manager.cpp:8-13 | ids start at 1 and strictly increase, one per constructed connection, until the counter wraps |
| Connections.IdsWrap | network/network_manager.cpp:8 | the 2^32-th connection gets id 0 and the next one repeats id 1 |
| Connections.IdAllocator.constructor | network/network_manager.cpp:8 | the counter starts at 1 with nothing issued |
| Connections.IdAllocator.FetchAdd | network/network_manager.cpp:12 | returns the current value, records it as issued, and increments with wrap-around |
| Connections.Connection.constructor | network/network_manager.cpp:10-13 | a new connection takes the next id from the counter, keeps socket and address, and starts connected with no close yet |
| Connections.Connection.IsConnected | network/network_manager.h:54 | returns the flag and changes nothing |
| Connections.Connection.Transmit | network/network_manager.cpp:26 | a `send` on the connection's descriptor; on an invalid descriptor it fails and moves nothing |
| Connections.Connection.Collect | network/network_manager.cpp:51 | a `recv` on the connection's descriptor; on an invalid descriptor it fails and takes nothing |
| Connections.Connection.Send | network/network_manager.cpp:19-42 | not connected: false and nothing written; otherwise a prefix of the frame is written, and the result is true, with the connection still up, exactly when the whole frame was; a lossless stream always succeeds |
| Connections.Connection.Receive | network/network_manager.cpp:44-71 | not connected: false, the default packet and nothing read; a short header or payload read clears the flag; on success the packet is well formed and was exactly the stream's first frame; a lossless stream holding a frame always succeeds |
| Connections.Connection.DisconnectAsWritten | network/network_manager.cpp:73-80 | clears the flag; only a call that finds the flag set closes a valid descriptor, once, and sets it to INVALID_SOCKET; a leaked connection stays leaked |
| Connections.Connection.Disconnect | network/network_manager.cpp:73-80 | corrected: clears the flag and closes the descriptor whatever the flag was, so nothing leaks; still at most one close |
| Connections.Loopback | network/network_manager.cpp:19-71 | a well-formed packet sent over a lossless stream is received intact at the other end |
| Connections.DisconnectTwiceClosesOnce | network/network_manager.cpp:73-80 | on a live connection, two Disconnect calls as written (the handler's and the destructor's) close the descriptor exactly once |
| Connections.ShortReadLeaksSocket | network/network_manager.cpp:44-80 | as written: after a failed Receive, the handler's and the destructor's Disconnect both skip the close, and the descriptor stays open |
| Connections.ShortReadClosesSocket | network/network_manager.cpp:73-80 | with the corrected Disconnect the same path closes the descriptor exactly once |
| Registry.Without | network/network_manager.cpp:317-320 | erase-remove drops every occurrence of the connection and keeps the others, with their multiplicities |
| Registry.StreamFrames | network/network_manager.cpp:344-364 | the bytes a run of well-formed sends puts on a connection's stream are the frames of the packets addressed to it, and the peer parses back exactly those packets, in order |
| Registry.StreamAppend | network/network_manager.cpp:303-305 | the stream of two runs of sends is the stream of the first followed by that of the second |
| Registry.GetsTrans | network/network_manager.cpp:303-305 | two runs of sends on a connection make one run: what it got from each is what it gets from both, in order |
| Registry.NetworkManager.constructor | network/network_manager.cpp:82-87 | no listening socket, not running, no shutdown request, backlog 1000, port 0, empty registry |
| Registry.NetworkManager.InitializeServer | network/network_manager.cpp:116-155 | records port and backlog; succeeds exactly when socket, bind and listen all succeed, and keeps the descriptor only then |
| Registry.NetworkManager.StartServer | network/network_manager.cpp:203-213 | a running server, or one without a listening socket, is left alone; otherwise it becomes running with the shutdown flag cleared |
| Registry.NetworkManager.IsServerRunning | network/network_manager.h:104 | returns the running flag and changes nothing |
| Registry.NetworkManager.AcceptClient | network/network_manager.cpp:252-283 | while running, a valid accepted descriptor becomes a new connected Connection appended to the registry with the next id; an invalid one changes nothing |
| Registry.NetworkManager.ReceiveLoop | network/network_manager.cpp:298-309 | receives well-formed packets in arrival order, handing each to the packet handler, while connected and not shutting down; a failed reply ends the loop; over lossless streams it returns every frame in the input, and the output stream grows by exactly the frames of the replies the handler chose for them, in order |
| Registry.NetworkManager.Serve | network/network_manager.cpp:300-307 | one turn of the loop: a successful receive takes one well-formed frame off the input and the handler's sends are carried out; a failed one leaves the connection down and its output untouched, and over a lossless input it fails only when no whole frame is left |
| Registry.NetworkManager.ExitClient | network/network_manager.cpp:311-321 | as written: disconnects through `Disconnect` and erases every occurrence of the connection from the registry, keeping the others in order; the descriptor is closed only if the connection was still connected, so one whose `Receive` failed keeps it (see Findings) |
| Registry.NetworkManager.StopServer | network/network_manager.cpp:215-234 | a stopped server is left alone, flags and connections included; otherwise it stops, sets the shutdown flag, closes the listening socket, disconnects every registered connection through `Disconnect` as written (a connection already down keeps its descriptor) and empties the registry; port and backlog never change |
| Registry.NetworkManager.SendToClient | network/network_manager.cpp:344-349 | a null or disconnected connection gives false without sending; otherwise the result is Send's, which is true on a lossless stream with a valid descriptor |
| Registry.NetworkManager.SendToAll | network/network_manager.cpp:351-364 | every connection that was up gets the frame (or a prefix of it on failure), the others are skipped, and the result is true exactly when every attempted send succeeded, so an empty registry gives true; a connection up on a lossless stream with a valid descriptor stays up |
| Registry.NetworkManager.GetConnections | network/network_manager.cpp:366-369 | returns the registry |
| Registry.NetworkManager.GetConnectionCount | network/network_manager.cpp:371-374 | equals the registry length |
| Registry.NetworkManager.Perform | network/network_manager.cpp:303-305 | carrying out a handler's sends in order: a connection that was down gets nothing; one up on a lossless stream with a valid descriptor stays up and gets exactly the frames addressed to it (the replies for the connection served, and the broadcasts for every registered one); descriptors and close counts do not change |
| Registry.NetworkManager.PerformOne | network/network_manager.cpp:344-364 | one send of a handler: a reply goes only to the connection served, a broadcast to every registered connection, with the same delivery guarantee as `Perform` |
| Replies.ReplyCarries | auth_server/main.cpp:114-117 | a reply or broadcast built from a string is a well-formed packet of the given type whose payload decodes back to that string |
| KeyOrder.SortedKeys | common/config_manager.cpp:186 | a range-for over the map visits every key exactly once |
| KeyOrder.SortedKeysStrict | common/config_manager.cpp:205 | the keys are visited in strictly increasing lexicographic order |
| Config.FirstNotSpace | common/config_manager.cpp:306 | the index of the first character not in " \t\r\n", with everything before it whitespace |
| Config.LastNotSpace | common/config_manager.cpp:310 | the index of the last character not in " \t\r\n", with everything after it whitespace |
| Config.TrimStringSpec | common/config_manager.cpp:304-312 | the result is empty exactly for all-whitespace input; otherwise it is a contiguous piece of the input with only whitespace cut from either side, and it starts and ends with non-whitespace |
| Config.TrimIdempotent | common/config_manager.cpp:304-312 | trimming twice equals trimming once |
| Config.Find | common/config_manager.cpp:44 | the first occurrence of the character, or the length when there is none |
| Config.CreateKeySection | common/config_manager.cpp:314-319 | a key made in a non-empty, dot-free section starts with "section." and its part before the first '.' is the section |
| Config.CreateKeyInjective | common/config_manager.cpp:314-319 | within one section, different keys give different stored keys |
| Config.ParseBlank | common/config_manager.cpp:29-34 | a line of whitespace only is skipped |
| Config.ParseHeader | common/config_manager.cpp:37-41 | a section header's name comes out trimmed |
| Config.ParseEntry | common/config_manager.cpp:44-53 | an entry's key is non-empty, trimmed and free of '=', and its value is trimmed |
| Config.Parsed | common/config_manager.cpp:27-29 | every line of the file is parsed, in order |
| Config.LoadAppend | common/config_manager.cpp:27-54 | loading two runs of lines is loading the first and then the second |
| Config.LoadKeepsOthers | common/config_manager.cpp:44-53 | a key no entry line names keeps its presence and value from before the load |
| Config.LoadWrites | common/config_manager.cpp:49-52 | every key an entry line names is present after the load |
| Config.LastEntryWins | common/config_manager.cpp:51 | a later entry for a key overwrites an earlier one |
| Config.HeaderThenEntry | common/config_manager.cpp:37-51 | a header sets only the current section, and the next entry is stored as "section.key" |
| Config.ToLower | common/config_manager.cpp:146 | same length; exactly the upper-case ASCII letters are lowered |
| Config.GetStringCases | common/config_manager.cpp:117-124 | a stored key answers with its value, a missing one with the caller's default |
| Config.GetBoolOfBoolText | common/config_manager.cpp:139-149 | a value stored by SetBool reads back as the same boolean, whatever the default |
| Config.GetBoolWords | common/config_manager.cpp:139-149 | "TRUE" and "On" are true, "y" and "2" are false, and an empty value gives the default |
| Config.SectionsFromSpec | common/config_manager.cpp:201-215 | the section fold never adds a duplicate, and it lists exactly the sections it started with plus the sections of keys that have a '.' |
| Config.KeysUnderSpec | common/config_manager.cpp:217-230 | GetKeys' fold returns exactly the suffixes k for which prefix + k is a stored key |
| Config.GetKeysMatchesHasKey | common/config_manager.cpp:194-230 | GetKeys of a non-empty section lists a key exactly when HasKey finds it |
| Config.ConfigManager.constructor | common/config_manager.h:51 | the store starts empty |
| Config.ConfigManager.LoadFromFile | common/config_manager.cpp:15-58 | a file that cannot be opened gives false and leaves the map alone; otherwise the map becomes the fold of the parsed lines over the old map, starting outside any section |
| Config.ConfigManager.ApplyLine | common/config_manager.cpp:31-53 | one parsed line applied to the store: a header switches the current section, an entry stores its value under the section-qualified key, anything else changes nothing |
| Config.ConfigManager.SetString | common/config_manager.cpp:164-168 | stores or overwrites exactly one key; afterwards HasKey holds and GetString returns the value for any default |
| Config.ConfigManager.SetBool | common/config_manager.cpp:174-176 | stores "true" or "false", and GetBool then returns the stored boolean for any default |
| Config.ConfigManager.HasSection | common/config_manager.cpp:182-192 | true exactly when some stored key starts with "section." |
| Config.ConfigManager.GetSections | common/config_manager.cpp:201-215 | the distinct sections in map order of first appearance, with no duplicates, exactly those of keys that have a '.' |
| Config.ConfigManager.GetKeys | common/config_manager.cpp:217-230 | the keys under "section." in map order with the prefix removed: x is listed exactly when "section." + x is stored |
| Config.ConfigManager.RemoveSection | common/config_manager.cpp:232-244 | erases exactly the keys starting with "section.", leaves the other values untouched, and afterwards HasSection is false |
| Config.ConfigManager.RemoveKey | common/config_manager.cpp:246-251 | erases only the one stored key; HasKey is then false |
| Config.ConfigManager.Clear | common/config_manager.cpp:253-256 | the map becomes empty |
| Logging.Rank | common/log_manager.h:13-19 | each level's integer value is at most 4 |
| Logging.RankOrder | common/log_manager.h:13-19 | DEBUG=0 < INFO=1 < WARNING=2 < ERROR=3 < CRITICAL=4, and no two levels share a value |
| Logging.LogLevelToString | common/log_manager.cpp:161-170 | every tag is exactly five characters |
| Logging.TagRoundTrip | common/log_manager.cpp:161-170 | every tag reads back as its level, so no two levels print the same tag |
| Logging.FormatLineFields | common/log_manager.cpp:84-89 | the line is "[" + timestamp + "] [" + five-character tag + "] [" + category + "] " + message, with each field at its fixed place and the message unchanged at the end |
| Logging.PassesMonotone | common/log_manager.cpp:78-80 | a message passing a threshold also passes every lower threshold, and so does every more severe message |
| Logging.Output | common/log_manager.cpp:77-98 | a target receives at most one line, exactly when it is on and the level is at or above the threshold, and that line is the formatted one |
| Logging.LogManager.constructor | common/log_manager.cpp:13-17 | starts at INFO with the console on and the file off |
| Logging.LogManager.SetLogLevel | common/log_manager.cpp:25-28 | changes the threshold and nothing else |
| Logging.LogManager.SetConsoleOutput | common/log_manager.cpp:30-33 | changes the console switch and nothing else |
| Logging.LogManager.SetFileOutput | common/log_manager.cpp:35-75 | when enabling: closes any open file, takes the given name or the default one, and ends with file output on exactly when the open succeeded; when disabling: file output off and the file closed |
| Logging.LogManager.Log | common/log_manager.cpp:77-98 | below the threshold nothing is written; otherwise the formatted line goes to the console when it is on and to the file when file output is on and the file is open; no setting changes |
| Logging.LogManager.Debug | common/log_manager.cpp:100-102 | logs the message unchanged at DEBUG |
| Logging.LogManager.Info | common/log_manager.cpp:104-106 | logs the message unchanged at INFO |
| Logging.LogManager.Warning | common/log_manager.cpp:108-110 | logs the message unchanged at WARNING |
| Logging.LogManager.Error | common/log_manager.cpp:112-114 | logs the message unchanged at ERROR |
| Logging.LogManager.Critical | common/log_manager.cpp:116-118 | logs the message unchanged at CRITICAL |
| Logging.LogManager.LogFormat | common/log_manager.cpp:121-123 | the overload without arguments logs the format text unchanged at the given level |
| Logging.LogManager.DebugFormat | common/log_manager.cpp:125-127 | logs the format text unchanged at DEBUG |
| Logging.LogManager.InfoFormat | common/log_manager.cpp:129-131 | logs the format text unchanged at INFO |
| Logging.LogManager.WarningFormat | common/log_manager.cpp:133-135 | logs the format text unchanged at WARNING |
| Logging.LogManager.ErrorFormat | common/log_manager.cpp:137-139 | logs the format text unchanged at ERROR |
| Logging.LogManager.CriticalFormat | common/log_manager.cpp:141-143 | logs the format text unchanged at CRITICAL |
| Logging.LogManager.LogFormatArgs | common/log_manager.h:138-144 | the templated form logs the formatted text only when the level passes the threshold, and does nothing otherwise |
| Logging.LogManager.DebugFormatArgs | common/log_manager.h:146-149 | forwards to the templated LogFormat at DEBUG |
| Logging.LogManager.InfoFormatArgs | common/log_manager.h:151-154 | forwards to the templated LogFormat at INFO |
| Logging.LogManager.WarningFormatArgs | common/log_manager.h:156-159 | forwards to the templated LogFormat at WARNING |
| Logging.LogManager.ErrorFormatArgs | common/log_manager.h:161-164 | forwards to the templated LogFormat at ERROR |
| Logging.LogManager.CriticalFormatArgs | common/log_manager.h:166-169 | forwards to the templated LogFormat at CRITICAL |
| Logging.DefaultsFilterDebug | common/log_manager.cpp:13-80 | with the defaults, a DEBUG message is dropped, an INFO one reaches the console, and nothing reaches a file |
| Auth.StringToLogLevelSpec | auth_server/main.cpp:11-18 | each level's own name maps to it; a string that is no level's name maps to INFO; a level other than INFO comes out exactly for its own name |
| Auth.StringToLogLevelExact | auth_server/main.cpp:11-17 | matching is exact: "debug", "Error", "WARNING " and "" all give INFO |
| Auth.HandlePacket | auth_server/main.cpp:108-134 | every send chosen can be framed |
| Auth.HandlePacketReplies | auth_server/main.cpp:112-133 | exactly ECHO and AUTH_REQUEST get an answer: a single reply to the sender, of type ECHO carrying "AUTH_ECHO_RESPONSE" and of type AUTH_RESPONSE carrying "AUTH_SUCCESS" respectively |
| Auth.AuthServer.constructor | auth_server/main.cpp:30 | keeps the configured level name |
| Auth.AuthServer.ReloadConfig | auth_server/main.cpp:158-174 | after a successful reload that names a different level, the name is kept and the logger threshold is set from it; otherwise nothing changes |
| Gateway.HandlePacket | gateway_server/main.cpp:95-116 | every send chosen can be framed |
| Gateway.HandlePacketReplies | gateway_server/main.cpp:96-115 | exactly ECHO and LOGIN_REQUEST get an answer: a single reply to the sender, of type ECHO carrying "GATEWAY_ECHO_RESPONSE" and of type LOGIN_RESPONSE carrying "LOGIN_SUCCESS" respectively |
| Game.Inc32 | game_server/main.cpp:116-117 | `+= 1` on an int32 adds one to the two's-complement pattern modulo 2^32 |
| Game.Step | game_server/main.cpp:116-117 | a move keeps id and address and adds one to x and to y below the int32 maximum |
| Game.Sends | game_server/main.cpp:101-140 | every send chosen can be framed |
| Game.SendsEcho | game_server/main.cpp:103-111 | ECHO gets one reply to the sender carrying "GAME_ECHO_RESPONSE" |
| Game.SendsChat | game_server/main.cpp:127-135 | PLAYER_CHAT gets one broadcast carrying "CHAT_BROADCAST" |
| Game.SendsMove | game_server/main.cpp:112-126 | PLAYER_MOVE gets one reply carrying "MOVE_SUCCESS" exactly when the sender has a session, and nothing otherwise |
| Game.SendsOther | game_server/main.cpp:136-138 | any other packet type gets nothing |
| Game.GameServer.constructor | game_server/main.cpp:11 | port 8003, tick rate 20, no sessions |
| Game.GameServer.OnConnected | game_server/main.cpp:20-24 | the session for the id becomes (id, address, 0, 0), replacing any earlier one |
| Game.GameServer.OnDisconnected | game_server/main.cpp:26-30 | only that id's session is erased |
| Game.GameServer.HandlePacket | game_server/main.cpp:101-140 | sends the selected replies; a PLAYER_MOVE from a session steps that session and no other; nothing else changes the table |
| Game.ConnectAndMove | game_server/main.cpp:112-124 | after a connect, two moves leave the player at (2, 2) with a reply each time, and a stranger's move sends nothing and adds no session |
| Zone.NatToString | zone_server/main.cpp:114 | at least one character, all decimal digits |
| Zone.NatToStringRoundTrip | zone_server/main.cpp:132-133 | the digits read back as the number, and only zero starts with '0' |
| Zone.IntToString | zone_server/main.cpp:114 | a non-negative value is its digits, a negative one a minus sign before the digits of its magnitude |
| Zone.IntToStringShort | zone_server/main.cpp:132-133 | an int32 takes at most 11 characters |
| Zone.Clamp | zone_server/main.cpp:145-146 | on a map of at least 3 cells the result lies in [1, size - 2], an inside value is unchanged, and the result is never above max(1, size - 2) |
| Zone.ClampedIsFloor | zone_server/main.cpp:145-146 | a clamped position on a map of at least 3 by 3 is a floor cell, never a wall |
| Zone.ZoneDataText | zone_server/main.cpp:132-133 | the ZONE_DATA text is at most 56 characters, so it fits in a packet |
| Zone.EchoText | zone_server/main.cpp:114 | the ECHO text is at most 35 characters |
| Zone.DefaultZoneTexts | zone_server/main.cpp:132-133 | zone 1 with a 50 by 50 map answers "ZONE_DATA_ZONE_1_SIZE_50x50" and "ZONE_ECHO_RESPONSE_ZONE_1" |
| Zone.Sends | zone_server/main.cpp:110-167 | every send chosen can be framed |
| Zone.SendsMove | zone_server/main.cpp:140-162 | a move from a player in the zone sends one reply "ZONE_MOVE_SUCCESS" and then one GAME_DATA broadcast "PLAYER_POSITION_SYNC"; from anyone else, nothing |
| Zone.SendsEcho | zone_server/main.cpp:112-120 | ECHO gets one reply carrying "ZONE_ECHO_RESPONSE_ZONE_" and the zone id |
| Zone.SendsZoneData | zone_server/main.cpp:130-139 | ZONE_DATA gets one reply carrying the zone id and the map size |
| Zone.SendsZoneChange | zone_server/main.cpp:121-129 | ZONE_CHANGE gets one reply carrying "ZONE_CHANGE_SUCCESS" |
| Zone.SendsOther | zone_server/main.cpp:163-165 | any other packet type gets nothing |
| Zone.ZoneServer.constructor | zone_server/main.cpp:12 | port 8004, zone 1, no players, no map yet |
| Zone.ZoneServer.InitializeZoneMap | zone_server/main.cpp:76-95 | 50 rows of 50 cells; a cell is a wall '#' exactly on the outer border and floor '.' elsewhere |
| Zone.ZoneServer.OnConnected | zone_server/main.cpp:21-25 | the player enters at (100, 100) under the connection id; the map is unchanged |
| Zone.ZoneServer.OnDisconnected | zone_server/main.cpp:27-31 | only that id leaves; the map is unchanged |
| Zone.ZoneServer.HandlePacket | zone_server/main.cpp:110-167 | sends the selected replies; a PLAYER_MOVE from a player in the zone sets x to max(1, min(W - 2, x + 1)) and likewise y, which lands in [1, W - 2] × [1, H - 2] on a map of at least 3 by 3; nothing else changes |
| Zone.EnterAndMove | zone_server/main.cpp:140-162 | a player who enters at (100, 100) is pulled to (48, 48) on floor by the first move, with the reply and the broadcast |
| Client.Word | test_client/main.cpp:262-270 | the characters gathered up to the next delimiter: a prefix of the input without the delimiter, ended by a delimiter or by the end of input |
| Client.TokensAtDelimiter | test_client/main.cpp:263-267 | a delimiter closes the token gathered so far when it is non-empty, and drops it otherwise |
| Client.TokensOfToken | test_client/main.cpp:273-275 | what is left at the end of input becomes the last token unless it is empty |
| Client.SplitString | test_client/main.cpp:258-278 | the loop returns exactly the maximal delimiter-free runs of the input, in order |
| Client.TokensSpec | test_client/main.cpp:258-278 | no token is empty, no token contains the delimiter, and the tokens joined in order are the input with every delimiter removed |
| Client.ScanOfSpec | test_client/main.cpp:262-271 | after any prefix of the input the loop's open token holds no delimiter, and the tokens closed so far followed by the tokens of the open token and the remaining text are the tokens of the whole input |
| Client.NoTokensIff | test_client/main.cpp:258-278 | there are no tokens exactly when the input consists only of delimiters |
| Client.DispatchEcho | test_client/main.cpp:48-50 | for every token list, the action is an echo exactly when the command is "echo", and it sends the second token, or "TEST_ECHO" when there is none |
| Client.DispatchChat | test_client/main.cpp:57-59 | for every token list, the action is a chat exactly when the command is "chat", and it sends the second token, or "Hello World!" when there is none |
| Client.DispatchConnect | test_client/main.cpp:42-45 | for every token list starting with "connect", it connects exactly when a host and a port follow, to those two; otherwise it is the unknown command "connect" |
| Client.DispatchQuit | test_client/main.cpp:40-41 | for every token list, the action is quit exactly when the command is "quit" or "exit"; matching is case-sensitive, so "Quit" is an unknown command |
| Client.DispatchUnknown | test_client/main.cpp:64-66 | any command other than the eleven known ones is reported as unknown, with the command itself |
| Client.BlankLinePassesGuard | test_client/main.cpp:35-38 | as written: a line of one space passes the guard and has no tokens, so `tokens[0]` is read past the end |
| Client.SessionSkipsBlank | test_client/main.cpp:33-69 | corrected: a line of spaces only causes no handler call |
| Client.SessionBounds | test_client/main.cpp:33-69 | at most one handler call per line |
| Client.SessionStopsAtQuit | test_client/main.cpp:39-41 | for any lines before it and any after it, a line whose command is "quit" or "exit" ends the session: the calls are those of the lines before it |
| Client.Run | test_client/main.cpp:33-69 | corrected: dispatches each line that has tokens until the first quit or the end of input, then disconnects |

## Left out

- Socket system calls are parameters or absent: `socket`, `bind`, `listen`, `accept`, `connect`, address parsing and hostname lookup. `InitializeServer` takes their outcomes, `AcceptClient` the accepted descriptor, and `ConnectToServer` is not modelled.
- Threads, atomics and mutexes become sequential calls. The test-and-set in `Disconnect` becomes a read and a write of a field, and the accept and handler threads are not started by `StartServer`. The close of the listening socket is modelled only as the descriptor becoming `INVALID_SOCKET`. The thread joins in `StopServer` are not modelled.
- The epoll, kqueue and WSA setup and teardown are never used for polling, so they are left out. So are the destructors, apart from the `Disconnect` that `~Connection` calls, which the demos model.
- `maxConnections` is only stored; the source never enforces it.
- `DisconnectClient` and `CleanupConnections` are declared in network/network_manager.h but have no body.
- The callback setters (`SetOnClientConnected` and the others) are replaced by direct calls to the servers' handlers.
- `ConfigManager::SaveToFile`, `GetInt`/`SetInt` and `GetDouble`/`SetDouble` are left out: they are file output, library number parsing (`stoi`, `stod`, `to_string`) and floating point. `LoadDefaultConfig` is a sequence of those setters and is left out with them. The `ServerConfig` getters are one-line delegations to `GetInt`/`GetString` and are left out too.
- `Config.ConfigManager.LoadFromFile`: the file is its list of lines plus whether it opened; directory handling and `getline` itself are outside the model.
- `Logging.LogManager.SetFileOutput`: the clock reading behind the default file name is a parameter (`stamp`), and whether the open succeeds is a parameter (`opens`). Directory creation is not modelled.
- `Logging.LogManager.Log`: the timestamp (`GetTimestamp`, `localtime`/`put_time`) is a parameter, and the console and file are the sequences of lines written to them.
- `Logging.LogManager.LogFormatArgs`: what `FormatString` makes of a format and its arguments (`snprintf`) is passed in as a finished string.
- The `LOG_X` and `LOG_X_FORMAT` macros and the `Instance()` singletons are preprocessor forwarding to the wrappers, which are modelled directly.
- The services' logging and console output inside `HandlePacket`, `ReloadConfig` and the callbacks are left out: they are output only.
- `AuthServerConfig` and `GatewayServerConfig` are used at auth_server/main.cpp:24-31 and gateway_server/main.cpp:23-29, but common/config_manager.h defines only `ConfigManager` and `ServerConfig`. Their values (loaded, the new level name) are parameters.
- `Auth.AuthServer.ReloadConfig`: the "reload succeeded" outcome and the reloaded level name come in as parameters.
- The game server's `GameLoop` tick timing, the servers' console command loops (`ProcessCommands`, `PrintStatus`, `PrintConfig`, `PrintZoneMap`) and the client's command handlers (`SendEcho`, `ConnectToServer` and the rest) are timing and console I/O.
- `Registry.NetworkManager.ReceiveLoop`: the packet handler is a fixed function from packet to sends, which is exact for the auth and gateway servers. The game and zone servers' handlers also update the server; that update is modelled by their own `HandlePacket` methods, not inside the loop.
- `Client.Run` returns the handler each line dispatches to. The handlers' network effects and the `std::stoi` of the port (which throws on non-numeric text) are not modelled.
- `Game.Inc32`: the game server's `+= 1` on `int32_t` at `INT_MAX` is undefined behaviour in C++. The model takes the two's-complement wrap hardware gives.
- `Zone.ZoneServer.HandlePacket`: it requires the class invariant that no stored coordinate is `INT_MAX`, so `zone_x + 1` cannot overflow. Every method keeps that invariant.
- `Zone.ZoneServer.constructor`: the source leaves `map_width_`/`map_height_` uninitialised until `InitializeZoneMap`, and the model starts them at 0.

## Findings

| source | as written | input that shows it | evidently intended | confidence | as-written member | corrected member |
|---|---|---|---|---|---|---|
| test_client/main.cpp:35-38 | `Run` skips only empty lines, then reads `tokens[0]` | the input line " " (one space): SplitString returns no tokens, so `tokens[0]` is out of range | lines with no tokens are skipped like empty ones | high; not executed | Client.BlankLinePassesGuard | Client.Run |
| network/network_manager.cpp:73-80 | `Disconnect` closes the socket only when it flips `connected_` from true | a peer closes its end: `Receive` fails and clears `connected_` (line 52-55), so the handler's `Disconnect` (line 312) and the destructor's both skip `closesocket`, and the descriptor leaks; `Registry.NetworkManager.ExitClient` and `StopServer` model these calls as written | the socket is closed once whenever it is still open | high; not executed | Connections.ShortReadLeaksSocket | Connections.ShortReadClosesSocket |
