# uptp: a verified model of the gateway's core

This project models the parts of uptp in which state, protocol steps or arithmetic can go wrong,
and proves what they are for.

- **Routing of outbounds** (`gateway/proxy_router.go`, `gateway/proxy_client.go`, the outbound handlers). CIDR blocks
  become 32-bit ranges (`Cidr`), kept disjoint in a search tree (`RouteTable`, `RouteTree`, `ProxyRouter`). The manager
  adds, updates, deletes, starts, stops and reloads outbounds (`OutboundSteps`, `ProxyClient`). `Claims` and
  `OutboundProofs` show that over every run the table holds no route without an open owner, and exactly when it holds
  one for every open outbound.
- **The SOCKS5 handshake over a stream** (`socks5/client.go` against `socks5/server.go`). Client and server are step
  machines joined by two byte pipes that deliver in chunks of any size (`SocksAddress`, `SocksCodec`, `Handshake`,
  `HandshakeProofs`), after sections 3 to 6 of RFC 1928 and section 2 of RFC 1929, first with each other, then each
  against a peer that sends what it likes. `Sessions` interleaves any number of connections over the per-peer session
  memory.
- **Framing** (`stream/var_length_packet.go`, `socks5/util.go`, `packetConn`). Base-128 lengths through one reused
  buffer (`VarLenPacket`), 16-bit lengths and the two copy loops of a UDP tunnel (`PacketFraming`), datagrams that carry
  their address and are shifted in place (`AddressedDatagram`), all over a stream that chunks reads at will
  (`ByteStream`).
- **Port-map listeners** (`portmap/portmap.go`, `gateway/portmap_app.go`, the app handlers): `ListenerKeys`,
  `Listeners`, `ListenerProofs`, `PortmapGateway`.
- **Small algorithms**: version order (`Version`), the time-step window (`Totp`), the backwards log scan (`LogTail`).

Objects that the source updates in place are classes here. Each of their methods is proved equal to a step function on
values, and the lemmas about runs are about those step functions. `Words` and `Decimal` hold shared arithmetic.

What the environment decides is a parameter of each step: peer checks, database writes, tunnel starts, sockets granted,
dial results, token checks, map iteration order and the size of read chunks.

## Findings

Places where the code does less than its surroundings suggest. The model follows the code, and each has its exact
condition proved.

- The router's refusal of a route is thrown away. An open outbound whose block overlaps that of another is saved, listed
  as open and answered "ok" without a route, or, on the same block, takes the other's place. Adding is exact if and only
  if the new range is non-empty and every open outbound it meets wants the very same entry
  (`OutboundProofs.AddExactIff`; from an empty manager `OutboundProofs.OverlapReached`). At start the order of the map
  decides who is served (`OutboundProofs.StartExactIff`, `OutboundProofs.FirstStartedWins`).
- An update of an open outbound deletes its live route before the peer is checked. If the check, the parse or the write
  then fails, the outbound stays open without a route (`OutboundProofs.UpdateExactIff`).
- Deleting an open outbound whose write fails leaves its route behind (`OutboundProofs.DeleteSoundIff`,
  `OutboundProofs.UnsavedDeletionOrphans`).
- Deleting an outbound takes whatever route starts where it does, also when the outbound was closed or its own route had
  been refused. Another outbound loses its route to a saved deletion if and only if the two ranges start at the same
  address (`OutboundProofs.DeletionUnroutesIff`, `OutboundProofs.DeleteExactIff`; from an empty manager
  `OutboundProofs.TwinsReached` with `OutboundProofs.ClosedTwinUnroutes`, and `OutboundProofs.OverlapReached` with
  `OutboundProofs.RefusedDeletionUnroutes`).
- An IPv6 prefix that contains no IPv4 address is still made a range of IPv4 addresses based at 0, and all of IPv4 from
  32 host bits on (`Cidr.NonV4StartsAtZero`). The range holds exactly the IPv4 addresses of the prefix if and only if it
  contains any at all, IPv4-mapped ones included (`Cidr.RangeFaithfulIff`, `Cidr.ReachesV4Means`).
- The client frames packets only when the network is exactly "udp", the server for every "udp" prefix
  (`HandshakeProofs.FramingAgreesIff`); a "udp4" dial does get that far (`HandshakeProofs.MismatchIsReached`).
- A connection accepted for a port-map app is looked up under "tcp" or "udp" and the local port, whatever network name
  the app was given. It is handed to the listener's owner if and only if that name is "tcp" or "udp" itself and no other
  app, running or not and on any address, has the same name and port (`ListenerProofs.LookupFindsOwnerIff`). Otherwise
  another app's peer can get it: two additions lead to such a table (`ListenerProofs.MixedReached`), nothing else is
  wrong with it (`ListenerProofs.MixedAgrees`), and the lookup finds the other app (`ListenerProofs.MixedLookup`).
- A listener asked for on port 0 is filed under the port the system picks while its app keeps port 0, so the app's own
  key has no listener (`ListenerProofs.AddAgreesIff`, `ListenerProofs.UpdateAgreesIff`,
  `ListenerProofs.StartupAgreesIff`).
- Socket errors swallowed in the SOCKS5 server are harmless if and only if a request cannot be read any more after a
  failed read, after a failed write, and after a disconnect (`Sessions.DialsAuthorisedIff`).
- The length byte of a host name wraps above 255 (`SocksAddress.DecodeEncodeIff`, `SocksCodec.MessageRoundTripIff`).
- `VarLenPacketStream.Write` accepts payloads up to `maxSize`, but its buffer has room only for header and payload
  together up to `maxSize`; between the two bounds it panics. It also counts the header in the number it returns
  (`VarLenPacket.VarLenPacketStream.Write`). `stream/var_length_packet_test.go:77-83` expects a lone zero byte to be a
  broken header; the code reads it as an empty packet.
- A datagram that ends inside its address header is parsed together with whatever stale bytes lie behind it in the buffer.
  Where they complete the header, the slice of the payload is out of range (`AddressedDatagram.UnpackedIff`,
  `AddressedDatagram.StaleHeaderCrashes`).
- A server that refuses a token, or a malformed negotiation, leaves the stream open; only a request, or looking for one
  in vain, closes it (`HandshakeProofs.ServerLeavesOpen`, `HandshakeProofs.CutNegotiationCloses`).
- When the client's stream ends inside a frame, what had come of its payload is sent on as a datagram of its own. The
  datagrams sent on are a prefix of those framed if and only if the stream does not end inside a payload after its first
  byte (`PacketFraming.CutStreamIff`, `PacketFraming.CutDatagramIsSent`).
- A UDP tunnel drops empty datagrams and cuts or refuses those above 32768 bytes (`PacketFraming.UpTunnelIff`,
  `PacketFraming.DownTunnelIff`).
- Two running apps on one endpoint share a listener, and deleting or moving one closes it for both
  (`ListenerProofs.DeleteAgreesIff`, `ListenerProofs.UpdateAgreesIff`).
- Version strings that differ as text but not as numbers are each LESS than the other (`Version.AntisymmetricIff`).
- The log viewer shows an empty file as "null", and cuts a line at a carriage return (`LogTail.GetLastLines`,
  `LogTail.LastLinesIff`).

## Model

| member | source | states |
|---|---|---|
| Cidr.V4RangeDoesNotWrap | gateway/proxy_router.go:119-130 | For every IPv4 prefix, 0 to 32 ones, in four bytes or IPv4-mapped, the 32-bit sum does not wrap: the range starts at the prefix's lowest 32 bits and spans 2^(host bits) aligned addresses. |
| Cidr.ContainsIffInRange | gateway/proxy_router.go:119-130 | An IPv4 address agrees with the prefix's own bytes on all but the host bits if and only if its number lies in the computed range. |
| Cidr.ContainsIsMasked | gateway/proxy_router.go:119-130 | That agreement is equality under the mask, bit by bit. |
| Cidr.To4Value | gateway/proxy_router.go:120-122 | The 32-bit number is the prefix's lowest 32 bits exactly for four bytes or sixteen inside ::ffff:0:0/96. |
| Cidr.BlocksNestOrMiss | gateway/proxy_router.go:119-130 | Two CIDR ranges that meet are nested. |
| Cidr.NonV4StartsAtZero | gateway/proxy_router.go:120-127 | A prefix outside the IPv4-mapped block becomes a range based at 0, whatever its address, and all of IPv4 from 32 host bits on. |
| Cidr.RangeFaithfulIff | gateway/proxy_router.go:119-130 | For every prefix of either family the range holds exactly the IPv4 addresses it contains if and only if it agrees with ::ffff:0:0/96 where both fix bits. |
| Cidr.ReachesV4Means | gateway/proxy_router.go:119-130 | That condition says that the prefix contains some IPv4 address. |
| RouteTable.BlockRefusedIff | gateway/proxy_router.go:37-54 | Among CIDR blocks a route is refused if and only if it strictly contains a stored block or lies strictly inside one. |
| RouteTable.RoutedAfterAdd | gateway/proxy_router.go:37-54 | A route that is taken sends exactly its range to the new dialer, in place of an old one there; a refused one changes no address. |
| RouteTable.RoutedAfterRemoval | gateway/proxy_router.go:56-61 | Removing a route silences the stored range that starts there and no other address. |
| RouteTree.OverlapWalkComplete | gateway/proxy_router.go:69-89 | The single root-to-leaf walk reports an overlap if and only if some stored range meets the new one. |
| RouteTree.GetWalkIsScan | gateway/proxy_router.go:101-116 | The lookup walk returns a dialer if and only if a stored range with that dialer holds the address. |
| RouteTree.ShapeIndependent | gateway/proxy_router.go:63-117 | Two search trees with the same entries give the same answers to both walks. |
| ProxyRouter.ProxyRouter.AddRoute | gateway/proxy_router.go:37-54 | Succeeds if and only if every stored range it meets is that same range; the new table has the route, or is unchanged. |
| ProxyRouter.ProxyRouter.DelRoute | gateway/proxy_router.go:56-61 | Removes the entry at the block's start and keeps search order and disjointness. |
| ProxyRouter.ProxyRouter.Add | gateway/proxy_router.go:63-93 | Inserts if and only if the range is non-empty and meets no stored range. |
| ProxyRouter.ProxyRouter.Get | gateway/proxy_router.go:95-117 | Returns exactly the dialer of the stored range that holds the address, or none. |
| ProxyClient.ProxyClient.constructor | gateway/proxy_client.go:192-202 | A new client has the stored outbounds, an empty router and no tunnel. |
| ProxyClient.ProxyClient.StartTunStack | gateway/proxy_client.go:332-357 | A running tunnel is left alone; otherwise the flag follows the start's outcome. |
| ProxyClient.ProxyClient.AddOutbound | gateway/proxy_client.go:242-268 | The new state is the step the lemmas below speak about, on every failure path; the answer is ok if and only if peer and text pass, the write succeeds and an open outbound finds the tunnel up. |
| ProxyClient.ProxyClient.UpdateOutbound | gateway/gateway.go:1418-1447 | The handler and the manager's update (gateway/proxy_client.go:270-292) as one step, the old route deleted first; ok if and only if the outbound is known, peer and text pass, the write succeeds and the tunnel is up. |
| ProxyClient.ProxyClient.DeleteOutbound | gateway/proxy_client.go:294-304 | A failed write returns before the route is deleted; ok if and only if the outbound is known and the write succeeds. |
| ProxyClient.ProxyClient.ListOutbounds | gateway/proxy_client.go:140-148 | Every outbound once, in an order left open. |
| ProxyClient.ProxyClient.StartOne | gateway/proxy_client.go:204-223 | One round of the loop below, a refused tunnel included. |
| ProxyClient.ProxyClient.Start | gateway/proxy_client.go:204-223 | The loop is the step function StartAll for whatever order the map hands out; a failed tunnel start turns the outbound off. |
| ProxyClient.ProxyClient.Stop | gateway/proxy_client.go:225-240 | With a sound table the router is empty afterwards. |
| ProxyClient.ProxyClient.DialerFor | gateway/proxy_client.go:373-382 | The four address bytes are looked up as their big-endian number. |
| OutboundProofs.RunsAreSound | gateway/proxy_client.go:204-304 | Over every run without an unsaved deletion of an outbound alone on its route, other failures included, each table entry belongs to an open outbound, and a tunnel that is down means no routes. |
| OutboundProofs.StepKeepsInvIff | gateway/proxy_client.go:204-304 | One honest step keeps that soundness if and only if it is no such deletion. |
| OutboundProofs.EveryRouteHasAnOwner | gateway/proxy_client.go:204-304 | The same for such a run from an empty manager, entry by entry: range and peer of an outbound open at that moment, whose token is what name and password decode to. |
| OutboundProofs.DialerPresents | gateway/proxy_client.go:43-62 | An outbound's dialer is the one that goes to its peer with its token, in eight bytes, as name and as password. |
| OutboundProofs.StopEmptiesTable | gateway/proxy_client.go:225-240 | Stop leaves no route, for every enumeration order. |
| OutboundProofs.StopRemovesIff | gateway/proxy_client.go:225-240 | In any state Stop removes exactly the routes that start where an open outbound does. |
| OutboundProofs.AddExactIff | gateway/proxy_client.go:242-268 | From an exact table, adding keeps it equal to the open outbounds' routes if and only if it is turned away, closed, served and fits (range non-empty, every open outbound it meets wants the same entry), or unserved and another open outbound wants the same entry. |
| OutboundProofs.UpdateExactIff | gateway/gateway.go:1425-1447 | From an exact table: if and only if a failed check or parse hits a closed outbound, or the new record is closed, or fits as for adding, and an old entry shared with another outbound is asked for again. |
| OutboundProofs.DeleteExactIff | gateway/gateway.go:1476-1494 | From any sound table, deleting a known outbound makes it exact if and only if all other open outbounds have their routes and, when saved, none of them starts where the deleted one does, when not, the deleted one is not alone on a route. |
| OutboundProofs.DeletionUnroutesIff | gateway/proxy_client.go:294-304 | In any state a deletion costs another outbound its route if and only if it is saved and the two ranges start at the same address. |
| OutboundProofs.DeleteSoundIff | gateway/proxy_client.go:294-304 | Deleting from a sound table leaves an entry without an owner if and only if it is not saved and the outbound was alone on its route. |
| OutboundProofs.UnsavedDeletionOrphans | gateway/proxy_client.go:294-304 | From an exact table, an unsaved deletion of an open outbound leaves an entry nobody owns unless another outbound wants the same one. |
| OutboundProofs.TwinsReached | gateway/proxy_client.go:242-268 | Two successful additions to an empty manager lead to that state. |
| OutboundProofs.ClosedTwinUnroutes | gateway/proxy_client.go:294-304 | Two outbounds on one block, the closed one deleted with success: the open one's route is gone. |
| OutboundProofs.OverlapReached | gateway/proxy_client.go:321-324 | Two successful additions of overlapping blocks lead to two open outbounds with one route. |
| OutboundProofs.RefusedDeletionUnroutes | gateway/proxy_client.go:294-304 | There the refused outbound, deleted with success, empties the table while the first one stays open. |
| OutboundProofs.StartExactIff | gateway/proxy_client.go:204-223 | From an empty table Start makes it exact if and only if the outbounds it leaves open are compatible (non-empty ranges, and two that meet want the same entry), in any order, with the tunnel failing at any point. |
| OutboundProofs.FirstStartedWins | gateway/proxy_client.go:204-223 | Of two overlapping open outbounds the one started first has its route, the other none. |
| OutboundProofs.RunsAreExactIff | gateway/proxy_client.go:204-304 | Over every run of timely honest steps the table is exactly the open outbounds' routes while serving, and empty while not, after each step, if and only if each step meets the condition above for its kind. |
| OutboundProofs.EveryDialReachesItsOwner | gateway/proxy_client.go:373-384 | After a run from scratch whose steps meet those conditions, and with open prefixes that contain IPv4 addresses, an IPv4 address is routed to a dialer if and only if an open outbound contains the address and the dialer presents its peer and token. |
| OutboundProofs.RestartRebuildsTable | gateway/proxy_client.go:150-179 | From an exact table with the map saved, Reload and Start with the tunnel up rebuild the very same table for every enumeration order. |
| OutboundProofs.RestartAfterRun | gateway/proxy_client.go:204-240 | Stopped, reloaded and started after a run from scratch whose steps meet those conditions and whose writes succeed, the manager has the table it had, in every enumeration order. |
| OutboundProofs.SavedStaysCurrent | gateway/proxy_client.go:170-179 | With writes succeeding the database holds the manager's map after every step. |
| OutboundProofs.SavedRunsStayCurrent | gateway/proxy_client.go:170-179 | The same over whole runs. |
| OutboundProofs.AddRecordsRequest | gateway/proxy_client.go:242-255 | Adding changes one record only, to the request with the checked peer name; the database follows if the write succeeds; the tunnel starts for an open outbound only. |
| OutboundProofs.UpdateRecordsRequest | gateway/proxy_client.go:270-279 | An update changes its own record only, to the request with the checked peer name; the database follows if the write succeeds; the tunnel starts for a closed outbound too. |
| OutboundProofs.DeleteRemovesRecord | gateway/proxy_client.go:126-138 | A deleted outbound, open or closed, leaves the map, and the database if the write succeeds; no other record changes. |
| OutboundProofs.StopKeepsRecords | gateway/proxy_client.go:225-240 | Stop keeps all records, and the tunnel only if it refuses to stop. |
| OutboundProofs.RestartForgetsUnsaved | gateway/proxy_client.go:150-179 | A restart finds what the database holds, as if an operation whose write failed had not been. |
| OutboundProofs.StartShutsIff | gateway/proxy_client.go:204-223 | Start turns off exactly the open outbounds whose turn comes before the tunnel is up, and changes nothing else of any record. |
| OutboundProofs.StartRunsIff | gateway/proxy_client.go:204-223 | After Start the tunnel is up if and only if it was before or came up at some open outbound. |
| Claims.ExactTableUnique | gateway/proxy_router.go:37-61 | A set of outbounds has one exact table. |
| SocksAddress.DecodeEncodeIff | socks5/client.go:111-147 | Address and port survive the wire form if and only if a name has at most 255 bytes; IPv4 in IPv6 form is canonical. |
| SocksAddress.EncodingLayout | socks5/client.go:111-135 | Byte for byte: type 1 with four bytes, 3 with a length and a name, 4 with sixteen bytes, then the port, high byte first. |
| SocksAddress.EncodeDecode | socks5/util.go:60-72 | What is parsed was written just so, but for an IPv4 address in sixteen bytes. |
| SocksAddress.CutAddressWaits | socks5/server.go:104-109 | An address cut short keeps the reader waiting. |
| SocksCodec.MessageRoundTripIff | socks5/client.go:142-150 | A request or reply is parsed back, leaving later bytes alone, if and only if a name has 1 to 255 bytes. |
| SocksCodec.UserPassRoundTrip | socks5/client.go:86-90 | The user name and password message is parsed back. |
| SocksCodec.PairInverse | socks5/client.go:75-80 | What is parsed as a method choice or a status was written just so; refused if and only if the version is wrong. |
| SocksCodec.NegotiationInverse | socks5/server.go:262-266 | Likewise for a negotiation, of version 5 with at least one method. |
| SocksCodec.UserPassInverse | socks5/server.go:274-277 | What is parsed as credentials was written just so; refused if and only if the version is not 1 or a part is empty. |
| SocksCodec.MessageInverse | socks5/server.go:104-109 | What is parsed as a message was written just so, up to the reserved byte. |
| SocksCodec.MessageRefusedIff | socks5/server.go:104-109 | A request or reply is refused if and only if its version is not 5, its address type unknown or its name empty. |
| SocksCodec.WireForm | socks5/client.go:70-150 | The messages byte for byte. |
| Handshake.TokenArrives | socks5/server.go:180-193 | The client presents its 64-bit token, in eight bytes, as name and as password, and the server checks exactly that. |
| HandshakeProofs.HandshakeAgreement | socks5/client.go:61-178 | For every interleaving and chunking: at most 2100 steps, never stuck, finished in transfer on both sides if and only if the token is accepted or waived, the target usable and the dial granted, and on neither side otherwise; same command and target, same framing if and only if the network is "udp" or not udp-prefixed. |
| HandshakeProofs.NeverStuck | socks5/server.go:104-163 | Every reachable unfinished state has an enabled step. |
| HandshakeProofs.RunsEnd | socks5/client.go:61-178 | Steps, weighed with bytes in flight, run out. |
| HandshakeProofs.StepKeepsInv | socks5/server.go:262-296 | Every step of either side moves between the fourteen phases of a handshake. |
| HandshakeProofs.TransferAgrees | socks5/server.go:115-162 | In transfer: same command and target, an accepted token where one was asked for, and no handshake byte left in the pipes. |
| HandshakeProofs.FramingAgreesIff | socks5/client.go:137-176 | Both sides frame packets alike if and only if the network is "udp" or does not start with it. |
| HandshakeProofs.OutcomeIff | socks5/server.go:104-163 | A finished handshake is in transfer, on each side, if and only if the dial had what it needs. |
| HandshakeProofs.RunToEnd | socks5/client.go:61-178 | From every phase some run reaches an end. |
| HandshakeProofs.SuccessIsReached | socks5/client.go:61-178 | Every dial that has what it needs has a run into transfer. |
| HandshakeProofs.MismatchIsReached | socks5/client.go:137-176 | A run of a "udp4" dial ends with a client that does not frame and a server that does. |
| HandshakeProofs.RefusalOnTheWire | socks5/server.go:298-307 | A client whose target could not be reached is sent code 4 with the zero address of the target's family, and nothing else. |
| HandshakeProofs.UnknownCommandRefused | socks5/server.go:142-146 | An unknown command is answered with code 7 and the zero address of the target's family, and the stream closed. |
| HandshakeProofs.NoServiceWithoutToken | socks5/server.go:93-193 | Whatever bytes a client sends, in whatever pieces, and wherever it breaks off, a server that asks for a token serves it only if eight consecutive bytes of them are an accepted one. |
| HandshakeProofs.ServerAnswers | socks5/server.go:262-296 | Against any client: each whole message has its answer, the methods offered do not matter, eight bytes of password decide. |
| HandshakeProofs.CutNegotiationCloses | socks5/server.go:93-109 | A stream that ends inside the negotiation makes the server look for a request in vain and close. |
| HandshakeProofs.ServerLeavesOpen | socks5/server.go:93-106 | A server that gives up closes the stream if and only if it was reading a request. |
| HandshakeProofs.ClientGoesOnIfTold | socks5/client.go:79-158 | Against any server: the token is shown only when asked for, the request sent only when told to go on, a connection handed over only after a reply of success. |
| HandshakeProofs.ClientResets | socks5/client.go:69-158 | A client that gives up resets the stream, except over the answer to its token. |
| Sessions.StepKeepsInv | socks5/server.go:93-102 | Each handler step, swallowed read and write errors included, keeps the session memory equal to the peers with an accepted token since their last disconnect. |
| Sessions.DialsFollowAcceptedTokens | socks5/server.go:93-193 | Over any interleaving every dial follows an accepted token of the same peer with no disconnect between, on streams that give no request after a failed read, a failed write or a disconnect. |
| Sessions.DialsAuthorisedIff | socks5/server.go:93-193 | All runs dial with authorisation only, if and only if the stream has all three of those properties; each one missing has its run. |
| Sessions.TokenAskedIff | socks5/server.go:165-178 | On any stream a new connection is asked for a token if and only if its peer has no accepted one left. |
| Sessions.NegotiationAsksIff | socks5/server.go:262-296 | On any stream, and whatever happens in between, a negotiation that goes through asks for a token if and only if the peer had no accepted one left when the connection came, and otherwise goes straight to the request. |
| Sessions.TokenDecides | socks5/server.go:274-290 | The peer is remembered and its handler goes on if and only if the token is accepted. |
| Sessions.KnownPeerIsServed | socks5/server.go:165-178 | After any run a peer whose token is still accepted has a run that dials without sending it again. |
| Sessions.LoggedErrorEnds | socks5/server.go:93-102 | After a logged error, or its request, a handler never acts again in any run. |
| Sessions.SwallowedErrorGoesOn | socks5/server.go:93-97 | A swallowed error lets the handler go on to the request, after a refused token too. |
| Sessions.OthersUntouched | socks5/server.go:93-193 | A handler's actions leave other connections alone; a disconnect cuts those of its peer only. |
| ByteStream.ReadFull | stream/var_length_packet.go:32-35 | The bytes read do not depend on how the stream chunks them. |
| VarLenPacket.HeaderRoundTrip | stream/var_length_packet.go:40-43 | Every 64-bit length is decoded from its header of at most ten bytes. |
| VarLenPacket.HeadersPrefixFree | stream/var_length_packet.go:40-43 | No header is a prefix of another. |
| VarLenPacket.UvarintIsHeader | stream/var_length_packet.go:60-66 | The header written is of that form and value. |
| VarLenPacket.LengthIff | stream/var_length_packet.go:40-43 | A length is read if and only if continued bytes and a last one stand in front, and it is the value of their seven-bit groups. |
| VarLenPacket.EofIff | stream/var_length_packet.go:40-43 | The stream ends inside a header if and only if it is fewer than ten bytes, all continued. |
| VarLenPacket.OverflowIff | stream/var_length_packet.go:40-43 | A header overflows if and only if nine bytes are continued and the tenth is more than one bit; ten bytes are used up. |
| VarLenPacket.ReadFrameIff | stream/var_length_packet.go:38-57 | A frame comes back as its packet if and only if it fits the reader's limit and buffer. |
| VarLenPacket.PacketReadIff | stream/var_length_packet.go:38-57 | A packet is read if and only if it fits and the stream starts with a header of its length and the payload right behind it. |
| VarLenPacket.CutFrameRead | stream/var_length_packet.go:38-57 | A frame cut short is an invalid header inside its header, and then truncated with exactly the payload that came. |
| VarLenPacket.BadHeaderIff | stream/var_length_packet.go:38-43 | The header is invalid if and only if no length can be read, the ended stream included. |
| VarLenPacket.PacketsRoundTrip | stream/var_length_packet.go:38-73 | Any list of packets is read back in order, and the stream is consumed exactly. |
| VarLenPacket.VarLenPacketStream.Write | stream/var_length_packet.go:60-73 | Sends the frame if and only if header and payload together fit maxSize. |
| VarLenPacket.VarLenPacketStream.Read | stream/var_length_packet.go:38-57 | Result and rest of the stream are those of the byte-string reader, for every chunking. |
| VarLenPacket.VarLenPacketStream.ReadUvarint | stream/var_length_packet.go:32-43 | The byte-by-byte loop decodes the header, end of stream and overflow included. |
| PacketFraming.FrameRoundTripIff | socks5/util.go:41-58 | A frame is read back if and only if its payload fits the buffer's capacity; otherwise the read slices out of range. |
| PacketFraming.FrameLayout | socks5/util.go:41-50 | On the wire: the length in two bytes, the high one first, then the payload. |
| PacketFraming.CutPacketRead | socks5/util.go:52-58 | A frame cut short yields nothing inside its length, and then exactly the payload that came, with an error. |
| PacketFraming.PacketReadWriter.Write | socks5/util.go:41-50 | Writes a frame if and only if the packet has at most 65535 bytes. |
| PacketFraming.PacketReadWriter.Read | socks5/util.go:52-58 | Result and rest of the stream are those of the byte-string reader, for a buffer of the array's capacity; a truncated payload comes back with its error. |
| PacketFraming.ForwardToStream | socks5/util.go:28-31 | The copy loop frames each non-empty datagram, cut to 32768 bytes, in order. |
| PacketFraming.CopiedEach | socks5/util.go:28-31 | Each datagram on its own is dropped if empty, and cut to its first 32768 bytes if longer. |
| PacketFraming.ForwardToUdp | socks5/util.go:28-31 | The copy loop sends each non-empty frame as one datagram until the stream ends or a frame is too long, and what has come of a last frame cut short. |
| PacketFraming.UpTunnelIff | socks5/util.go:28-58 | Client to server: the same datagrams arrive if and only if all are non-empty and at most 32768 bytes. |
| PacketFraming.CutStreamIff | socks5/util.go:28-58 | For a stream of frames cut anywhere, the datagrams sent on are a prefix of those framed if and only if the cut is not inside a payload after its first byte. |
| PacketFraming.CutDatagramIsSent | socks5/util.go:28-58 | A frame of five bytes that ends after two of them is sent on as a datagram of two. |
| PacketFraming.DownTunnelIff | socks5/util.go:28-58 | Server to client: likewise. |
| AddressedDatagram.PacketConn.WriteTo | socks5/util.go:74-81 | Sends address and payload as one frame if and only if they fit 65535 bytes. |
| AddressedDatagram.PacketConn.ReadFrom | socks5/client.go:342-353 | Address, payload and errors are those of the frame in front of the buffer's stale bytes. |
| AddressedDatagram.ShiftDown | socks5/client.go:347 | The overlapping copy inside one buffer keeps the payload. |
| AddressedDatagram.DatagramRoundTripIff | socks5/util.go:60-81 | Address and payload come back, whatever stale bytes follow, if and only if a name has at most 255 bytes. |
| AddressedDatagram.SentDatagramIsRead | socks5/client.go:342-361 | What WriteTo frames, ReadFrom takes off the stream, leaving the next frame in place. |
| AddressedDatagram.UnpackedIff | socks5/util.go:60-72 | A frame is received if and only if its address header lies inside it; stale bytes never change what is received, but complete a header cut short, and then the slice is out of range. |
| AddressedDatagram.StaleHeaderCrashes | socks5/util.go:60-72 | Five bytes of an address in front of two stale ones. |
| ListenerKeys.IndexInjective | portmap/portmap.go:422-424 | Keys of endpoints without a colon in the network name are equal only for equal endpoints. |
| ListenerKeys.IndexClash | portmap/portmap.go:422-424 | With such a colon two endpoints can share a key. |
| ListenerKeys.IndexForm | portmap/portmap.go:422-424 | The key of TCP port 80 on 127.0.0.1. |
| Decimal.DigitsInOrder | portmap/portmap.go:422-424 | The digits of a port are 0 to 9 in this order. |
| ListenerKeys.AgreementMeans | portmap/portmap.go:76-77 | Agreement says that the listener keys are exactly the keys of the apps marked running. |
| ListenerProofs.AddAgrees | gateway/gateway.go:805-822 | With the port granted as asked, after addApp the listener keys are the running apps' endpoints, with failed sockets and writes too. |
| ListenerProofs.AddAgreesIff | gateway/gateway.go:805-822 | addApp keeps the agreement if and only if it is not granted another port than it asked for, as with port 0. |
| ListenerProofs.RunningIffListening | gateway/gateway.go:808-815 | An app asked to run is marked running if and only if a listener stands or its socket opens, and the listener is under the app's key unless another port was granted. |
| ListenerProofs.AddStores | gateway/gateway.go:785-822 | Likewise for an addition, which always needs permission. |
| ListenerProofs.UpdateStores | gateway/gateway.go:846-903 | An update without the permission it needs changes nothing; otherwise its record is the request, running if a listener stands or opens, the database follows if the write succeeds, and no other record changes. |
| ListenerProofs.DeleteRemoves | gateway/gateway.go:929-941 | A deleted app leaves the table, and the database if the write succeeds; its listener is closed if it ran; every other record and listener stays. |
| ListenerProofs.RestartForgetsUnsaved | gateway/portmap_app.go:45-60 | A restart finds what the database holds, as if an operation whose write failed had not been. |
| ListenerProofs.StartupStops | gateway/gateway.go:220-231 | Startup changes no record but to mark running apps stopped whose socket failed. |
| ListenerProofs.UpdateAgreesIff | gateway/gateway.go:846-903 | updateApp keeps the agreement if and only if it stops short of the listeners, or is granted no other port than it asked for and no running app shared the old endpoint unless the same listener is reopened. |
| ListenerProofs.DeleteAgreesIff | gateway/gateway.go:929-941 | deleteApp keeps the agreement if and only if no running app shares the endpoint. |
| ListenerProofs.StartupAgrees | gateway/gateway.go:220-231 | With ports granted as asked, startup agrees for every order of the apps, with sockets failing at any point. |
| ListenerProofs.StartupAgreesIff | gateway/gateway.go:220-231 | With the ports a system grants, startup agrees if and only if no running app on port 0 gets a socket. |
| ListenerProofs.RestartRebuildsListeners | gateway/portmap_app.go:45-60 | A restart with sockets available brings back the same listener keys, ports and apps. |
| ListenerProofs.SavedRunsStayCurrent | gateway/portmap_app.go:80-92 | With writes succeeding the database holds the app table after every run. |
| ListenerProofs.RestartAfterRun | gateway/portmap_app.go:45-60 | The same after every run from scratch that keeps the agreement and whose writes succeed. |
| ListenerProofs.RunsAgreeIff | gateway/gateway.go:768-945 | Over every run index and app table agree after each step if and only if each step meets the condition above for its kind. |
| ListenerProofs.UsesTcpIff | portmap/portmap.go:126 | The test looks for "tcp" anywhere in the name. |
| ListenerProofs.DistinctKeeps | gateway/gateway.go:768-945 | Steps on pairwise distinct running endpoints, with ports granted as asked, meet that condition. |
| ListenerProofs.RunsKeepKinds | portmap/portmap.go:126-130 | Over every run each listener is a TCP socket if its network name holds "tcp", and a UDP one otherwise. |
| ListenerProofs.LookupFindsOwnerIff | portmap/portmap.go:261-285 | What a running app's listener presents finds that app, for every map order, if and only if its network is "tcp" or "udp" and no other app has its network and port. |
| ListenerProofs.AcceptedAfterRun | portmap/portmap.go:261-285 | The condition above, after every run from scratch that keeps the agreement. |
| ListenerProofs.MixedReached | gateway/gateway.go:785-822 | Two successful additions lead to that state. |
| ListenerProofs.MixedAgrees | gateway/gateway.go:785-822 | That state agrees, has colon-free names and no two apps with one network and port. |
| ListenerProofs.MixedLookup | portmap/portmap.go:261-285 | A connection to the running "tcp4" app's listener is handed to a stopped "tcp" app on the same port. |
| PortmapGateway.Portmap.AddListener | portmap/portmap.go:120-139 | Reuses a listener under the key or opens one, TCP or UDP by the network's name, and files it under its real port. |
| PortmapGateway.Portmap.DeleteListener | portmap/portmap.go:177-186 | Closes and forgets the listener under the key. |
| PortmapGateway.PortmapAppMgr.UpdatePortmapApp | gateway/portmap_app.go:80-85 | The table in memory changes even when the write fails. |
| PortmapGateway.PortmapAppMgr.DelPortmapApp | gateway/portmap_app.go:87-92 | Likewise for a deletion. |
| PortmapGateway.PortmapAppMgr.FindAppWithPort | gateway/portmap_app.go:109-116 | Returns a match, none only if there is none, and with unique network and port the one match in any map order. |
| PortmapGateway.Gateway.AddApp | gateway/gateway.go:785-822 | The handler's new state is the step the lemmas speak about. |
| PortmapGateway.Gateway.UpdateApp | gateway/gateway.go:846-903 | Likewise, the old listener closed before the new one opens. |
| PortmapGateway.Gateway.DeleteApp | gateway/gateway.go:929-941 | Likewise. |
| PortmapGateway.Gateway.StartListener | gateway/gateway.go:220-231 | One round of the startup loop: a failed socket marks the app stopped. |
| PortmapGateway.Gateway.StartListeners | gateway/gateway.go:220-231 | The startup loop is the step function Startup for whatever order the map hands out. |
| PortmapGateway.Gateway.HandshakeFor | gateway/gateway.go:191-208 | An accepted connection gets the peer and resource of some app with the presented network and port, of the only one if there is one. |
| PortmapGateway.Gateway.HandshakeForOwner | portmap/portmap.go:261-290 | On a plain network and a port of its own, that is the app whose listener accepted. |
| Version.CompareVersion | common/version.go:12-32 | On all strings: EQUAL for equal texts, else lexicographic order of the components as Atoi reads them, ties being LESS. |
| Version.LexicographicIff | common/version.go:18-31 | One list is less than another if and only if at their first difference it has the smaller number or has ended. |
| Version.SplitRebuilds | common/version.go:16-17 | The components hold no dot, and with dots between them they are the text. |
| Version.AtoiIs | common/version.go:23-24 | A component of digits means its number, clamped to 64 bits, with a sign too. |
| Version.AtoiOfOther | common/version.go:23-24 | A component with another character means 0, unless it is out of range before. |
| Version.CanonicalOrder | common/version.go:12-32 | On canonical versions it is the lexicographic order with a proper prefix smaller, antisymmetric, EQUAL only on equal strings. |
| Version.AntisymmetricIff | common/version.go:12-32 | Swapping the arguments flips the answer if and only if the texts are equal or their numbers differ. |
| Version.LeadingZeroTies | common/version.go:12-32 | "1.0" and "1.00" are each LESS than the other. |
| Version.UpgradesNeverRevisit | gateway/upgrade.go:53 | No chain of guarded upgrades comes back to a version. |
| Totp.CodeLastsOneStep | totp/totp.go:32-43 | A non-zero code verifies at every time within one step, across zero under truncating division. |
| Totp.WindowIff | totp/totp.go:32-43 | For a digest that tells steps apart, a code of another time verifies if and only if its step is at most one away, except that within one step of time zero the window does not reach to zero's far side. |
| Totp.WindowSinceZeroIff | totp/totp.go:32-43 | For times from zero on: at step distance at most one, and not otherwise. |
| Totp.OneSidedNearZero | totp/totp.go:32-43 | At time 1 a code of the step before zero is refused. |
| Totp.TokenIsItsCode | totp/totp.go:32-43 | A token is accepted as its own code at all times unless it is 0, and the code 0 never. |
| Totp.OthersCodesRefused | totp/totp.go:32-43 | With a digest that tells keys apart no code of one token is accepted for another at any time. |
| LogTail.GetLastLines | agent/uptpproxy/app/src/main/java/com/isletnet/uptpproxy/LogViewerActivity.kt:33-57 | The backwards scan returns the last lines, each read up to a carriage return, for every file and count; without carriage returns that is the end of the file, from the start of a line on, with one newline less than the count or than the lines there are; an empty file shows "null". |
| LogTail.LinesRebuild | agent/uptpproxy/app/src/main/java/com/isletnet/uptpproxy/LogViewerActivity.kt:33-57 | The lines the scan is specified by are a splitting of the file at its newlines: joined again they are the file. |
| LogTail.LastLinesIff | agent/uptpproxy/app/src/main/java/com/isletnet/uptpproxy/LogViewerActivity.kt:33-57 | The lines are unchanged if and only if none of those shown has a carriage return. |
| LogTail.CutIs | agent/uptpproxy/app/src/main/java/com/isletnet/uptpproxy/LogViewerActivity.kt:33-57 | What is shown of a line ends before its first carriage return. |

## Left out

- Concurrency of route changes: `addRoute` reads and replaces outside its lock (gateway/proxy_router.go:39-52), and `AddListener` writes its map under a read lock; runs are sequences of whole handler steps.
- The gods AVL library is not part of this model: an unbalanced search tree of values stands in for it, so node sharing and balance are not captured; the router proofs use search order only.
- Parsing of peer ids, CIDR text, host and port text: a record carries the parse's outcome, and every stored outbound has parsed (gateway/proxy_client.go:164-166 ignores a failure on load).
- JSON, leveldb: a successful write stores the map, a failed one leaves the old content, and reloading returns what was stored.
- Operating-system routes (`addRoute`, `delRoute` in gateway/sys_linux.go), tunnel device, tun_stack: only their success or failure enters.
- A handler on an unknown outbound id fails on a nil pointer in the source; here it returns without a change.
- Random ids are taken to be fresh.
- The handshake is a relation over the two sides' steps on values rather than two running objects: reads and writes of one message are atomic, while delivery is byte by byte. A stream that breaks halfway is followed in `Sessions` only, without the bytes; deadlines are not modelled.
- HandshakeProofs.UnknownCommandRefused: a foreign client may write an IPv4 address in sixteen bytes; the source then answers with the IPv6 zero address, the model with the IPv4 one, since it does not keep the form an address came in. Command 5 is `CmdPacketConn`.
- HandshakeProofs.HandshakeAgreement: names above 255 bytes are outside it, because the request that arrives is not the one sent (SocksCodec.MessageRoundTripIff).
- Sessions.DialsFollowAcceptedTokens: a disconnect clears the session and breaks the peer's streams in one step, while the engine learns of it by an event a little later. What it needs of a stream is stated by Sessions.DialsAuthorisedIff; that the transport provides it is not part of this model.
- `DialUDP`, `handleUDPPackConnRequest` and `CmdPacketConn`: only their datagram form is modelled, since the success reply sits in the error branch (socks5/server.go:211-221).
- `tunneling` as a pair of goroutines: each direction is modelled on its own; UDP itself neither loses nor reorders here.
- PacketFraming.ForwardToUdp: a frame longer than the buffer ends the loop, where the source panics in its goroutine.
- Port-map relay messages (portmap/portmap.go:206-218, 331-337) have no framing of their own and depend on read boundaries.
- Buffer lengths below the capacity: `packetReadWriter.Read` reslices up to the capacity and never looks at the length, so its array is the capacity; AddressedDatagram.PacketConn.ReadFrom takes a buffer without spare capacity.
- ListenerProofs.StartupAgreesIff: a socket asked for on a port other than 0 is taken to be granted on that port or not at all (Listeners.Plausible).
- The digest in `Totp` is a parameter; HMAC-SHA256 itself is not modelled.
- `LogTail` reads bytes as characters one to one, as `readLine` does; multi-byte text is not decoded.
- HTTP parsing and replies, login, web pages, installer, logger, self-upgrade download, agent: no deep property.
