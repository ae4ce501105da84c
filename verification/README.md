# LAN meeting relay — a Dafny model of its core

The system is a LAN meeting application. A host runs a relay server; other
users join it with an 8-character session id. Control traffic travels over
TCP: length-prefixed JSON messages for authentication, roster changes,
chat, file offers and file chunks, pings and leave notices. Audio and video
travel over UDP, as packets with a 20-byte big-endian header. The server
learns each member's UDP address from the member's stream ids or from a
`HELLO:<name>` packet, and relays every packet to all other members.

Clients keep a roster and a 100-entry chat history. They identify the
sender of a media packet from its stream id, and they reconnect with
exponential backoff. Files are uploaded in 64 KiB chunks, hex-encoded
inside JSON. The server assembles them and checks their SHA-256 digest.
It is meant to stream them back to requesters, but as written its sender
fails before the first message (see Findings). Around this sit several local pieces: an
error manager (templates, active errors, a bounded history, per-category
counts), a dotted-key settings store, a local profile store with hashed
passwords, and the host/join screen's session-id rules.

The model uses immutable datatypes and pure functions. Every handler is a
function from a state and an input to a new state plus the messages it
sends, in order. Hash functions, digests, UTF-8 decoding, JSON decoding,
random bytes, clocks and the "is this port free" probe are all parameters.

| module (file) | what it models |
|---|---|
| `Basics` (basics.dfy) | `Option`, `Result`, bytes, Python's `s[-n:]`, `s[k:]` and `list.remove` |
| `BigEndian` (bigendian.dfy) | the `struct` formats `>I` and `>Q` |
| `UdpPacket` (udp_packet.dfy) | `UDPPacket.pack` / `unpack` |
| `StreamIds` (stream_ids.dfy) | `StreamType`, `generate_stream_id` |
| `MessageTypes` (message_types.dfy) | `MessageType`, `CommunicationMode` |
| `Framing` (framing.dfy) | `serialize_message`, `deserialize_message`, the TCP receive-buffer loop |
| `Hex` (hex.dfy) | `bytes.hex()` / `bytes.fromhex()` |
| `OrderedMaps` (ordered_maps.dfy) | writing a chunk map in sorted key order |
| `TransferInfo` (transfer_info.dfy) | `FileTransferInfo`, chunk arithmetic, reading a file in chunks, reassembly |
| `Transfers` (transfers.dfy) | `FileTransferManager`: downloads, progress, cancel |
| `Upload` (upload.dfy) | `_upload_file_chunks` with `_send_chunk_with_retry` |
| `ServerFiles` (server_files.dfy) | `ServerFileManager` |
| `Roster` (roster.dfy) | the server's `clients` map: broadcast, multicast, unicast, UDP address learning, relay, heartbeat eviction |
| `Server` (server.dfy) | the server's control handlers, connection life cycle, datagram handling, file streaming, port search |
| `ClientSession` (client_session.dfy) | the client's roster and chat upkeep, sender identification, authentication guards |
| `Reconnect` (reconnect.dfy) | the client's connect / disconnect / reconnection state machine |
| `ErrorRegistry` (error_registry.dfy) | `ErrorManager` |
| `Settings` (settings.dfy) | `Config` |
| `Profiles` (profiles.dfy) | `ProfileManager` |
| `HostJoin` (host_join.dfy) | `generate_session_id`, `start_hosting`, `start_joining` |

## Model

| member | source | states |
|---|---|---|
| Basics.LastN | client/client.py:315-317 | `s[-n:]` has length `min(n, len(s))` and is a suffix: the dropped prefix followed by it is `s` |
| Basics.LastNOfLastN | client/client.py:314-317 | trimming to the last n before appending more leaves the last n of the whole unchanged, so trimming after every append is the same as trimming once |
| Basics.PySliceFrom | utils/error_manager.py:357-358 | Python's `s[k:]`: a non-negative k drops the first k elements (capped at the length); a negative k keeps the last `-k` |
| Basics.IndexOf | client/client.py:299-300 | the position `list.remove` acts on: an occurrence of the element with no earlier one |
| Basics.RemoveFirst | client/client.py:299-300 | `list.remove` on a present element deletes exactly its first occurrence and keeps the rest in order; an absent element leaves the list unchanged |
| BigEndian.Encode | utils/network_proto.py:164-166 | a fixed-width big-endian encoding has exactly the width's number of bytes |
| BigEndian.Decode | utils/network_proto.py:164-166 | a decoded w-byte field is below 256^w |
| BigEndian.DecodeEncode | utils/network_proto.py:164-166 | decoding an encoding gives back the number |
| BigEndian.EncodeDecode | utils/network_proto.py:164-166 | re-encoding a decoded field at its width gives back the bytes |
| BigEndian.EncodeInjective | utils/network_proto.py:164-166 | equal-width encodings are equal exactly when the numbers are |
| UdpPacket.Pack | utils/network_proto.py:182-192 | packing succeeds exactly when every header field fits `>IIQI`; the result is the 20-byte header followed by the payload, and its size field reads back as the payload length |
| UdpPacket.Unpack | utils/network_proto.py:194-213 | a datagram is accepted exactly when it holds the header and its size field equals the number of bytes after it; the payload is those bytes |
| UdpPacket.UnpackPack | utils/network_proto.py:182-213 | every packable packet survives pack then unpack unchanged |
| UdpPacket.PackUnpack | utils/network_proto.py:182-213 | every accepted datagram is exactly what packing its unpacked packet produces, so the header format is a bijection |
| StreamIds.KindOfNibble | utils/network_proto.py:169-172 | a low nibble names a stream kind exactly when it is 1 (audio) or 2 (video), and that kind's value is the nibble |
| StreamIds.GenerateStreamId | utils/network_proto.py:257-270 | an id's low nibble is its kind's value; the id is positive and below 2^35 |
| StreamIds.AudioVideoDistinct | utils/network_proto.py:257-270 | one user's audio and video ids differ, and neither is the hello id 0 |
| StreamIds.StreamIdInjective | utils/network_proto.py:257-270 | two ids are equal exactly when the kinds are equal and the 31-bit masked hashes are equal |
| StreamIds.StreamIdOverflowsHeader | utils/network_proto.py:268-270 | as written, a user whose masked hash is 2^28 gets audio id 2^32 + 1, and packing any packet of that stream fails |
| StreamIds.CorrectedStreamId | utils/network_proto.py:257-270 | with a 28-bit mask the id keeps its kind nibble, is positive and fits the 32-bit header field |
| StreamIds.CorrectedStreamIdPacks | utils/network_proto.py:182-213 | every packet of a corrected stream id packs, and unpacks to the same packet |
| MessageTypes.Parse | utils/network_proto.py:27-64 | a tag is recognised only as the member whose wire value it is |
| MessageTypes.ParseTag | utils/network_proto.py:27-64 | the 22 wire values are distinct, so every member's value parses back to that member |
| Framing.Serialize | utils/network_proto.py:233-239 | framing succeeds exactly when the body is shorter than 2^32 bytes; the frame is the 4-byte big-endian length followed by the body |
| Framing.Deserialize | utils/network_proto.py:241-255 | a buffer yields a body exactly when it holds the announced length after the 4-byte prefix; the body is that frame's content |
| Framing.DeserializeSerialize | utils/network_proto.py:233-255 | deserializing a serialized body gives the body back, whatever follows it in the buffer |
| Framing.SplitFrames | server/server.py:325-340 | the receive loop's output, reframed and followed by the kept remainder, is exactly the buffer, and the remainder holds no complete frame |
| Framing.SplitFrameAll | server/server.py:325-340 | frames sent back to back, followed by a partial frame, are split into exactly those bodies with the partial frame kept |
| Hex.FromHex | server/server.py:495 | decoding fails on odd-length text, and a decoded byte string has half the text's length |
| Hex.ToHex | server/server.py:830 | the hex text of n bytes has 2n characters |
| Hex.FromHexToHex | utils/file_transfer.py:453 | hex text made by the sender always decodes to the original bytes |
| OrderedMaps.MinKey | utils/file_transfer.py:320-321 | the first key `sorted` yields is in the map and below every other key |
| TransferInfo.CeilChunks | utils/file_transfer.py:36-37 | the chunk count times 64 KiB covers the file, and one chunk fewer does not |
| TransferInfo.CeilChunksLeast | utils/file_transfer.py:36-37 | the chunk count is the least count whose chunks cover the file |
| TransferInfo.NewInfo | utils/file_transfer.py:21-39 | a zero chunk count is replaced by the computed count and a zero timestamp by the clock; everything else is kept and no chunk is marked uploaded |
| TransferInfo.EmptyFileNoChunks | utils/file_transfer.py:36-37 | a file has no chunks exactly when it is empty |
| TransferInfo.ChunkOf | utils/file_transfer.py:162-164 | a chunk starting inside the file has between 1 and 64 KiB bytes; one starting at or past its end is empty |
| TransferInfo.Reads | server/server.py:818-822 | every successive non-empty read of a file is between 1 and 64 KiB long |
| TransferInfo.ReadsConcat | server/server.py:818-822 | the reads, written one after another, are the whole file in order |
| TransferInfo.ReadsCount | server/server.py:816-822 | the number of non-empty reads is exactly the file's chunk count |
| TransferInfo.ReadsAreChunks | server/server.py:818-822 | read k is chunk k, so reading sequentially and seeking to `k * 64 KiB` agree |
| TransferInfo.Gather | utils/file_transfer.py:686-693 | assembly succeeds exactly when every index from the start to the chunk count is present |
| TransferInfo.GatherChunks | utils/file_transfer.py:686-693 | assembling the chunks of a file from index i on gives exactly the file's bytes from chunk i on |
| TransferInfo.GatherWholeFile | utils/file_transfer.py:686-693 | assembling all chunks of a file gives the file back |
| Transfers.StartDownload | utils/file_transfer.py:229-273 | a new download is registered with unknown size and chunk count 0; uploads and callbacks are untouched |
| Transfers.HandleDownloadChunk | utils/file_transfer.py:275-301 | a chunk for an unknown download changes nothing; otherwise it is stored under its index and the index is marked received |
| Transfers.SortedIsInOrder | utils/file_transfer.py:320-321 | writing a chunk map whose keys are a contiguous range in sorted key order gives the same bytes as reading it index by index |
| Transfers.HandleDownloadComplete | utils/file_transfer.py:303-333 | nothing is written for an unknown download or one with no chunks; otherwise the download is dropped and its chunks are written in sorted order to `download_<name>` |
| Transfers.ReceiveChunksFrom | utils/file_transfer.py:275-301 | receiving a file's chunks in order leaves a download whose chunk map is exactly that file's chunks |
| Transfers.DownloadRoundTrip | utils/file_transfer.py:229-333 | start, all chunks, then completion writes exactly the original bytes and forgets the download |
| Transfers.EmptyDownloadNeverCompletes | utils/file_transfer.py:314-316 | a download that never receives a chunk is neither written nor dropped on completion |
| Transfers.Ratio | utils/file_transfer.py:348-354 | the ratio raises exactly when the chunk count is 0; otherwise, in exact real arithmetic, ratio times count is the number of chunks done |
| Transfers.Progress | utils/file_transfer.py:335-356 | uploads are consulted first, then downloads, and an unknown id reports 0.0 |
| Transfers.FreshDownloadProgressRaises | utils/file_transfer.py:352-354 | as written, the progress of a download just started raises a division by zero |
| Transfers.ProgressGuarded | utils/file_transfer.py:335-356 | the corrected progress equals the written one wherever that succeeds, and is 0.0 where it would raise |
| Transfers.ProgressGuardedBounded | utils/file_transfer.py:335-356 | the corrected progress of an entry whose received indices lie below its count is between 0 and 1 |
| Transfers.Cancel | utils/file_transfer.py:358-373 | the id disappears from all four maps and every other entry is kept unchanged |
| Transfers.CancelIdempotent | utils/file_transfer.py:358-373 | cancelling twice is cancelling once |
| Upload.Start | utils/file_transfer.py:133-155 | an upload starts at chunk 0 with no errors, in the sending phase, with the file's chunk count |
| Upload.SendWithRetry | utils/file_transfer.py:421-472 | a chunk is sent exactly when its retries are not used up and the socket accepts it; a refused send raises both counters; an exhausted chunk changes nothing as written |
| Upload.Step | utils/file_transfer.py:155-195 | one loop iteration only grows the uploaded set, advances by at most one chunk and marks the chunk it passes; it aborts only at 10 errors and completes only past the last chunk |
| Upload.RunKeepsPrefix | utils/file_transfer.py:155-195 | every chunk below the loop index stays uploaded, however the socket behaves |
| Upload.CompletedMeansAllSent | utils/file_transfer.py:155-205 | when the loop completes, every chunk of the file has been uploaded |
| Upload.UploadStalls | utils/file_transfer.py:441-443 | as written, a chunk whose retries are used up with fewer than 10 errors makes every later iteration change nothing, so the loop never ends |
| Upload.ThreeFailuresStall | utils/file_transfer.py:183-192 | a one-chunk upload whose first three sends fail stays in the sending phase whatever follows |
| Upload.CountedUploadTerminates | utils/file_transfer.py:155-195 | when an exhausted retry also counts as an error, the loop finishes or aborts within chunks-left plus errors-left iterations |
| Upload.FreshCountedUploadTerminates | utils/file_transfer.py:155-195 | corrected, a fresh upload leaves the sending phase within the chunk count plus 10 iterations |
| ServerFiles.Offer | utils/file_transfer.py:632-646 | an offer (re)registers the file's metadata with an empty chunk map and leaves the disk alone |
| ServerFiles.AssembleFile | utils/file_transfer.py:680-711 | a missing chunk leaves a partial file and keeps the chunks; a digest mismatch deletes the file; success writes the assembled bytes and drops the chunk map |
| ServerFiles.HandleChunk | utils/file_transfer.py:648-678 | a chunk for an unoffered file is refused with no change; otherwise it is stored, and assembly runs once every chunk is present |
| ServerFiles.HandleChunkChecked | utils/file_transfer.py:648-678 | corrected, a chunk carrying a digest records it before the chunk is stored |
| ServerFiles.FilePath | utils/file_transfer.py:713-720 | a path is returned exactly when the file is stored and its file exists on disk |
| ServerFiles.AvailableFiles | utils/file_transfer.py:722-728 | the available files are exactly the stored files that have a path, with their stored metadata |
| ServerFiles.Cleanup | utils/file_transfer.py:730-745 | cleanup forgets every file and deletes exactly the stored files' paths from disk, keeping everything else |
| ServerFiles.CleanupNothingAvailable | utils/file_transfer.py:730-745 | after cleanup nothing is available for download |
| ServerFiles.EmptyDigestNeverAssembles | utils/file_transfer.py:695-700 | a file whose recorded digest is empty never passes the digest check |
| ServerFiles.UploadNeverAvailable | utils/file_transfer.py:648-700 | as written, an upload offered with an empty digest never becomes available, however many of its chunks arrive |
| ServerFiles.UploadAssembles | utils/file_transfer.py:648-711 | corrected, delivering all of a file's chunks with its digest leaves exactly its bytes on disk and the file available |
| ServerFiles.PartialFileStaysAvailable | utils/file_transfer.py:686-693 | an assembly that stops at a missing chunk leaves the partial file on disk, so the file is listed as available |
| Roster.Names | server/server.py:414 | the usernames are listed in roster order, one per entry |
| Roster.Add | server/server.py:405-406 | a new member is appended with no UDP address and keeps usernames unique |
| Roster.Without | server/server.py:614-619 | deletion keeps exactly the entries with other names and never leaves the name behind |
| Roster.WithoutIdempotent | server/server.py:614-619 | deleting twice is deleting once |
| Roster.WithoutNames | server/server.py:614-619 | deleting one name leaves every other name's membership as it was |
| Roster.BroadcastTo | server/server.py:584-593 | a broadcast reaches exactly the members other than the excluded one |
| Roster.BroadcastDistinct | server/server.py:584-593 | a broadcast never reaches a member twice |
| Roster.MulticastTo | server/server.py:595-603 | a multicast reaches exactly the listed targets that are members, as often as each is listed |
| Roster.UnicastTo | server/server.py:605-612 | a unicast reaches the target alone, and only if it is a member |
| Roster.FirstIdentified | server/server.py:668-702 | the address is learned for the first member, in roster order, that the stream id identifies |
| Roster.LearnUdpAddress | server/server.py:668-702 | no member changes when nothing is identified; otherwise only the first identified member gets the address |
| Roster.SetUdpAddress | server/server.py:718-720 | only the named member's address changes |
| Roster.HandleHello | server/server.py:704-728 | a `HELLO:<name>` packet from a current member sets that member's address; any other packet changes nothing |
| Roster.RelayTargets | server/server.py:730-753 | a packet is relayed to exactly the learned addresses of the members other than its sender |
| Roster.Expired | server/server.py:766-771 | the timed-out list holds exactly the members silent for more than 90 seconds |
| Roster.Live | server/server.py:759-782 | the live roster keeps exactly the entries that have not timed out |
| Roster.RemoveClient | server/server.py:614-626 | removal deletes the entry and sends one `user_left` notice to each remaining member, in order |
| Roster.FilterExpiredIsLive | server/server.py:766-780 | removing the collected names one by one leaves exactly the live members |
| Roster.EvictStale | server/server.py:759-782 | eviction keeps exactly the members that have not timed out, usernames stay unique, and the notices are the staged ones: each expired name, in roster order, is announced to every member still present after its removal |
| Roster.RemoveEachNotices | server/server.py:614-626 | removing names one after another sends exactly the staged notices, each removal telling the members whose names are not among those removed so far |
| Roster.EvictionAnnounced | server/server.py:766-780 | every evicted name is announced to every member that survives the check, and only evicted names are announced |
| Roster.LiveWf | server/server.py:759-782 | eviction keeps usernames unique |
| Roster.LiveOrder | server/server.py:759-782 | two positions of the live roster hold different names, because they come from different roster entries |
| Roster.Touch | server/server.py:551-554 | a ping refreshes only the current member's heartbeat |
| Server.Targets | server/server.py:435-449 | a chat reaches the members selected by its mode: broadcast everyone but the sender, multicast the listed members, unicast the first listed name if a member, nobody for any other mode |
| Server.TargetsRelayed | server/server.py:435-449 | sending to the routing targets forwards the message, and nothing else, to every member the mode reaches and to no one else |
| Server.HandleAuth | server/server.py:372-433 | a wrong session id and a name in use are refused with their reasons and no change; otherwise the member is added, told success and the user list, and the others are told of the join |
| Server.JoinedAreOthers | server/server.py:415-421 | the join notice reaches as many members as there were before the join |
| Server.HandleRequest | server/server.py:508-528 | a request without file id or requester does nothing; an unavailable file gets a not-found error to a requester who is a member; an available one gets nothing as written, and the requester alone is streamed the file when corrected |
| Server.FileChunks | server/server.py:814-842 | corrected, the k-th chunk message carries index k, the count, the hex of read k and the digest, and the messages stop at the count or at the first empty read |
| Server.FileChunksWholeFile | server/server.py:814-842 | corrected, a whole file is streamed in exactly its chunk count of messages, each carrying its chunk's hex, and the chunks together are the file |
| Server.SendFile | server/server.py:798-859 | corrected, nothing is sent to a requester who is not a member; otherwise the chunk messages and then the completion message go to the requester |
| Server.RequestDeliversNothing | server/server.py:818-858 | as written, a member's request for an available file is answered with nothing at all |
| Server.CorrectedRequestStreamsFile | server/server.py:798-859 | corrected, a member's request for an available file streams one message per chunk, the k-th carrying chunk k in hex, then the completion message with the digest |
| Server.HandleControl | server/server.py:362-574 | each message type has its effect. Auth and leave act as their handlers. Chat and offers reach exactly the members their mode selects. Media with a streamer and a type, and screen shares, reach every member but the sender. A storable offer registers the file with an empty digest. A chunk is stored silently, and a malformed one or one for an unknown file changes nothing. Completion sends every member the file list. A request is answered as `HandleRequest` says. Ping is answered with pong and refreshes the heartbeat. Only auth and leave change the connection's username |
| Server.HandleLeave | server/server.py:568-572 | as written, leave clears the connection's username and changes nothing else; corrected, it also removes the member and tells the others |
| Server.Close | server/server.py:352-360 | a closing connection removes its member if it still has a username, and otherwise changes nothing |
| Server.HandleBodies | server/server.py:340-347 | the frame bodies of one `recv` are handled in order, and the session id never changes |
| Server.Serve | server/server.py:316-347 | serving a connection's receives keeps the server state valid and the session id fixed, and an empty receive ends the loop with nothing handled |
| Server.Connection | server/server.py:305-360 | a whole connection keeps the server state valid and the session id fixed |
| Server.LeaveKeepsMember | server/server.py:568-572 | as written, a member who sends leave stays in the roster, and other members keep relaying to it until its socket closes |
| Server.LeaveRemovesMember | server/server.py:568-572 | corrected, leave removes the member at once, so the later close changes nothing more |
| Server.OfferedUploadUnavailable | server/server.py:461-506 | as written, a file offered and then fully uploaded is never available to others, because the offer records an empty digest |
| Server.OfferedUploadAvailable | server/server.py:461-506 | corrected, the same upload leaves the file available with exactly its bytes |
| Server.HandleDatagram | server/server.py:632-666 | a malformed datagram is dropped; stream id 0 is a hello; any other packet teaches an address and is relayed unchanged to the others; roster names never change |
| Server.Heartbeat | server/server.py:759-782 | a heartbeat check keeps exactly the members that have not timed out and sends one `user_left` per staged notice, in order |
| Server.FindAvailablePort | server/server.py:139-171 | the port is among the 10 tried; it is the first free one if any, and the start port if none is free |
| ClientSession.HelloText | client/client.py:611 | the hello payload is `HELLO:` followed by the username |
| ClientSession.HelloIsRecognised | client/client.py:603-619 | the server recognises a member's hello and sets the address of exactly that member |
| ClientSession.HandleAuthResponse | client/client.py:266-278 | success marks the session authenticated and sends the UDP hello; failure changes nothing and reports the reason, or "Unknown error" |
| ClientSession.HandleUserList | client/client.py:281-285 | the server's list replaces the local one, nothing else changes, and exactly that list is signalled |
| ClientSession.HandleUserJoined | client/client.py:288-294 | one's own join is ignored; another name is appended only if not yet listed, and the join is signalled |
| ClientSession.HandleUserLeft | client/client.py:297-302 | a listed name loses its first occurrence, the rest keep their order, chat and identity are unchanged, and the departure is signalled |
| ClientSession.JoinedKeepsNoDuplicates | client/client.py:288-294 | joins keep the list free of duplicates |
| ClientSession.LeftRemovesName | client/client.py:297-302 | on a list free of duplicates, a departure removes the name entirely |
| ClientSession.JoinThenLeave | client/client.py:288-302 | a join followed by the same name's departure restores the list |
| ClientSession.Append | client/client.py:314-317 | the history keeps the last 100 entries and ends with the new one |
| ClientSession.HandleChat | client/client.py:305-320 | a chat is appended with its own timestamp, or the clock's if missing, and signalled; roster and authentication are untouched |
| ClientSession.HistoryIsLastHundred | client/client.py:314-317 | after any number of messages the history is exactly the last 100 of everything received |
| ClientSession.FirstMatch | client/client.py:550-562 | the sender found is the first candidate whose id of that kind equals the stream id, and a miss means no candidate matches |
| ClientSession.IdentifySender | client/client.py:534-564 | a nibble other than audio or video identifies nobody; an identified sender is a known user or oneself whose id is the stream id |
| ClientSession.IdentifiesGenerated | client/client.py:534-564 | when the receiver's hash agrees with the sender's on the sender's name, a known user's stream id is identified, and as that user when no other known user shares its masked hash |
| ClientSession.ForeignSenderUnidentified | client/client.py:550-562 | when the receiver's masked hashes of the names it knows all differ from the sender's own, the sender's packets are attributed to nobody |
| ClientSession.SendChat | client/client.py:396-417 | a chat goes out exactly when authenticated, sent as oneself, with the mode, the targets or [] and the text |
| ClientSession.SendFileOffer | client/client.py:419-445 | a file offer goes out exactly when authenticated, with the offer's fields |
| ClientSession.SendingNeedsAuthResponse | client/client.py:266-278 | only a successful authentication reply unlocks sending |
| Reconnect.Delay | client/client.py:736-745 | attempts 1 to 4 wait 2^(attempt-1) seconds; later ones wait 30 |
| Reconnect.DelayMonotone | client/client.py:736-745 | the backoff never shrinks and never exceeds 30 seconds |
| Reconnect.Disconnect | client/client.py:170-209 | disconnecting stops and deauthenticates; leave is sent only by an authenticated deliberate disconnect, which alone is signalled |
| Reconnect.Connect | client/client.py:115-168 | success starts and sends auth; failure is signalled first, stops, and as written marks the client as deliberately disconnected |
| Reconnect.AttemptReconnection | client/client.py:727-756 | an attempt in progress blocks another; otherwise the next attempt is scheduled with its backoff, or a manual retry is requested after the fifth |
| Reconnect.ConnectionLost | client/client.py:706-725 | a deliberate disconnect or an attempt in progress ignores the loss; otherwise the client stops and schedules an attempt or asks for a manual retry |
| Reconnect.ReconnectAfterDelay | client/client.py:758-803 | a successful reconnect restarts the client and resets the attempt counter |
| Reconnect.ManualReconnect | client/client.py:932-938 | a manual retry resets the counter and flags and schedules attempt 1 at once |
| Reconnect.ResetReconnectionState | client/client.py:940-944 | after a reset, a lost connection is ignored |
| Reconnect.ReceiveLoopEnded | client/client.py:248-258 | the end of the receive loop is ignored after a deliberate disconnect and stops the client otherwise |
| Reconnect.ChainBounded | client/client.py:727-756 | the attempt counter never exceeds 5, whatever the outcomes |
| Reconnect.SuccessResets | client/client.py:790-792 | after a successful reconnect, the next loss schedules attempt 1 again |
| Reconnect.FailedReconnectHalts | client/client.py:164-168 | as written, a failed reconnect marks the client deliberately disconnected, so later losses schedule nothing |
| Reconnect.AsWrittenSingleAttempt | client/client.py:795-797 | as written, a lost connection whose first reconnect fails gets exactly one attempt and never asks for a manual retry |
| Reconnect.FailStep | client/client.py:795-797 | corrected, a failed reconnect schedules the next attempt, or asks for a manual retry after the fifth |
| Reconnect.CorrectedChainGivesUp | client/client.py:727-756 | corrected, failing reconnects end after the fifth attempt with a manual-retry request |
| Reconnect.CorrectedFullSchedule | client/client.py:727-756 | corrected, a loss followed by failing reconnects waits 1, 2, 4, 8 and 30 seconds, then asks for a manual retry |
| Reconnect.DocumentedSchedule | client/client.py:736-745 | attempts 2 to 5 wait 2, 4, 8 and 30 seconds |
| Reconnect.ManualRetryRestarts | client/client.py:932-938 | a manual retry after the chain halted schedules a fresh first attempt one second later |
| ErrorRegistry.Find | utils/error_manager.py:92-214 | a template is found only under its (category, type) key, and nothing is found exactly when no entry has that key |
| ErrorRegistry.FindNothingFor | utils/error_manager.py:92-214 | a category without templates finds nothing, whatever the error type |
| ErrorRegistry.Generic | utils/error_manager.py:242-247 | the fallback template is titled with the category's name plus " Error" and does not retry |
| ErrorRegistry.TemplateFor | utils/error_manager.py:241-247 | a stored template is used if present, the generic one otherwise |
| ErrorRegistry.Duration | utils/error_manager.py:286-299 | every severity except info has a notification duration |
| ErrorRegistry.Trunc | utils/error_manager.py:238 | `int(x)` truncates toward zero for either sign |
| ErrorRegistry.Initial | utils/error_manager.py:83-89 | a fresh manager has no errors, no history, counter 0, five components and the fixed template table |
| ErrorRegistry.NotificationFor | utils/error_manager.py:286-299 | a notification is requested exactly for severities other than info, with the report's title, message and severity |
| ErrorRegistry.ReportError | utils/error_manager.py:218-301 | a report gets a fresh id from the next counter value, takes title, message, user action and auto-retry from its template, starts with no retries out of 3, becomes active, is added to the trimmed history and is notified with its title, message, severity value and duration unless informational; nothing else changes |
| ErrorRegistry.Insert | utils/error_manager.py:237-263 | a report under the next counter value is new, so the active errors grow by one |
| ErrorRegistry.HistoryIsRecent | utils/error_manager.py:264-269 | the history always holds the most recent reports, at most 100, oldest first |
| ErrorRegistry.ResolveError | utils/error_manager.py:303-319 | resolution succeeds exactly for an active id, removes only that id, and keeps the history |
| ErrorRegistry.ReportThenResolve | utils/error_manager.py:218-319 | a reported error can be resolved, and resolving it restores the active errors as they were |
| ErrorRegistry.ClearErrors | utils/error_manager.py:361-376 | clearing by category removes exactly that category's errors, with no category removes all, and keeps the history |
| ErrorRegistry.ByCategory | utils/error_manager.py:386-389 | each category present maps to its number of active errors, and categories with none are absent |
| ErrorRegistry.BySeverity | utils/error_manager.py:390-393 | each severity present maps to its number of active errors, and severities with none are absent |
| ErrorRegistry.SumOverCounts | utils/error_manager.py:378-395 | adding up the counts of distinct keys gives the number of errors whose key is one of them |
| ErrorRegistry.CategoryCountsAddUp | utils/error_manager.py:378-395 | the per-category counts of the summary add up to its total |
| ErrorRegistry.SeverityCountsAddUp | utils/error_manager.py:378-395 | the per-severity counts of the summary add up to its total |
| ErrorRegistry.GetHistory | utils/error_manager.py:355-359 | a positive limit keeps the last `limit` reports, a negative one drops the first `-limit`, and none or zero returns everything |
| ErrorRegistry.UpdateComponentStatus | utils/error_manager.py:321-341 | only the named component's row changes, its message defaulting to the status; errors and history are untouched |
| ErrorRegistry.GetComponentStatus | utils/error_manager.py:343-349 | an unknown component reads as "unknown" |
| ErrorRegistry.UpdateThenGet | utils/error_manager.py:321-349 | reading back a status just written returns it |
| Settings.Defaults | utils/config.py:50-71 | the defaults have exactly the network, media and ui sections, with the documented values |
| Settings.Split | utils/config.py:97 | splitting on dots gives at least one piece, none containing a dot |
| Settings.JoinSplit | utils/config.py:97 | joining the pieces of a key gives the key back |
| Settings.SplitJoin | utils/config.py:97 | dot-free pieces, joined and split again, come back unchanged |
| Settings.WalkPresent | utils/config.py:95-104 | reading along present keys reaches the stored value, whatever the default |
| Settings.SetPath | utils/config.py:106-112 | a write adds or replaces only the first key of the path at the top level |
| Settings.SetSucceeds | utils/config.py:106-112 | a write succeeds exactly when every intermediate key is absent or a dictionary |
| Settings.EmptyWritable | utils/config.py:106-112 | every path can be written into empty settings |
| Settings.GetAfterSetPath | utils/config.py:95-112 | after a successful write the path consists of dictionaries and reads back the written value |
| Settings.GetAfterSet | utils/config.py:95-112 | `get(key)` right after a successful `set(key, v)` returns `v` |
| Settings.SetPathFrame | utils/config.py:106-112 | a write leaves every path that leaves the written one before its end reading as before |
| Settings.Load | utils/config.py:73-84 | loading a dictionary replaces each loaded section whole and keeps every other section; anything else loads nothing |
| Settings.LoadedSectionReplaces | utils/config.py:73-84 | a loaded section drops the defaults it does not mention, and other sections read as before |
| Settings.DefaultPorts | utils/config.py:17-20 | the built-in TCP port, UDP port and buffer size read back through their dotted keys |
| Profiles.CreateProfile | utils/profiles.py:72-97 | a taken username is refused with no change; otherwise exactly one profile is added with the password's digest and no login yet |
| Profiles.Authenticate | utils/profiles.py:99-125 | a login succeeds exactly for a known user whose stored digest is the password's, and only then is the last login set |
| Profiles.GetProfile | utils/profiles.py:127-137 | a profile is returned exactly for a known user, and it is that user's |
| Profiles.DeleteProfile | utils/profiles.py:143-158 | deletion reports whether the user existed and removes that profile only |
| Profiles.Usernames | utils/profiles.py:139-141 | the listed names are exactly the users with a profile |
| Profiles.CreateThenAuthenticate | utils/profiles.py:72-125 | a profile just created accepts its password |
| Profiles.OtherPasswordRefused | utils/profiles.py:99-125 | a password with a different digest is refused and nothing changes |
| Profiles.DeleteThenRecreate | utils/profiles.py:99-158 | after deletion the user cannot log in and the name can be created again |
| Profiles.LoginRepeats | utils/profiles.py:99-125 | a successful login can be repeated |
| HostJoin.StripStart | gui/hostjoin.py:381 | leading whitespace is removed, and only whitespace |
| HostJoin.StripEnd | gui/hostjoin.py:381 | trailing whitespace is removed, and only whitespace |
| HostJoin.StripPadded | gui/hostjoin.py:381 | `strip` returns exactly the word inside any whitespace padding |
| HostJoin.Upper | gui/hostjoin.py:381 | upper-casing maps each character separately and keeps the length |
| HostJoin.GenerateSessionId | gui/hostjoin.py:327-335 | a generated id is 8 upper-case hex digits that read back as the random bytes |
| HostJoin.LowerHexUppercased | gui/hostjoin.py:327-335 | every upper-cased hex digit is one of 0-9A-F |
| HostJoin.UpperHexReads | gui/hostjoin.py:327-335 | hex digits read the same in either case |
| HostJoin.StartHosting | gui/hostjoin.py:369-377 | hosting goes ahead exactly when a non-empty session id has been generated |
| HostJoin.StartJoining | gui/hostjoin.py:379-409 | a join is requested exactly when the stripped, upper-cased id is 8 hex digits and the address is not blank; each failure is reported in the order checked |
| HostJoin.GeneratedIdJoins | gui/hostjoin.py:379-409 | given field text that is a generated id in lower case with surrounding whitespace, the join handler requests exactly the id the host announced |
| HostJoin.CaseIsIgnored | gui/hostjoin.py:381 | the case of the typed id never changes the outcome of a join |
| HostJoin.UpperStrip | gui/hostjoin.py:381 | upper-casing commutes with `strip` |

## Left out

- Sockets, threads, locks, sleeps, Qt signals and widgets, and logging. Each handler is a pure function from a state and an input to a new state and the messages it sends, in order.
- JSON text. A frame body's decoding is a parameter (`decode`) of `Server.Serve`; a body that does not decode is skipped, as the handler's `except` does.
- Python's `hash()`, SHA-256, UTF-8 decoding, `secrets.token_hex`, `time.time()` and the port probe are parameters. They are nondeterministic or external.
- Hex.FromHex: Python's `bytes.fromhex` also skips whitespace between byte pairs. The model accepts digits only, because the senders never insert whitespace.
- HostJoin.Upper: only ASCII letters are upper-cased. Non-ASCII case mappings (`ß` becomes `SS`, ligatures) are left out. Some non-ASCII input upper-cases into a valid id in Python (four `ﬀ` ligatures become `FFFFFFFF` and join), while the model rejects it.
- The join form's 8-character `maxLength` (gui/hostjoin.py:266) and live upper-casing (line 269) are left out; the model starts from the text the field holds. The handler upper-cases again, but its `len != 8` check is not the same as truncation: the field cuts a padded id to 8 characters before `strip()` runs, so padded input like that of `HostJoin.GeneratedIdJoins` never reaches the handler through the widget.
- The server's `FILE_LIST` message (server/server.py:538-547) is modelled as the map of available files rather than as a list of dictionaries.
- A `user_joined` message without a username is not modelled.
- `_handle_connection_lost` has an `if self.manual_disconnect` branch (client/client.py:716-718) that cannot run, because the earlier return already covers it. It is not modelled separately.
- Media capture, playback, screen sharing and media recovery are left out. The server only relays their control messages, which are modelled as routed opaque messages.
- Session restore, `resume_upload`, `resume_download`, `_save_transfer_state` and the disk-space check are left out. They are persistence on top of the modelled transfer state.
- Profile and config file I/O is left out. `Settings.Load` takes the parsed file as an `Option`, with `None` standing for a missing or unreadable file.
- Settings.SetPath: Python raises when the path meets a non-dictionary: `AttributeError` from `setdefault` on an intermediate value, or `TypeError` from the final item assignment. Such a write can only fail when every earlier key was present, so Python leaves the settings unchanged. The model returns an error with the settings unchanged; it does not distinguish the two exceptions.
- Settings.Load: `dict.update` also accepts a JSON top-level list of key/value pairs (utils/config.py:79). The model loads only a JSON object and loads nothing from a list.
- Profiles.Usernames: `list_usernames` returns a list in dictionary order; the model returns the set of names.
- The error report's `context` field and the error manager's recovery callbacks are left out. They are free-form data and foreign calls.
- Server.SendFile: the corrected sender would stop at the first chunk when the requester has left. The model states that nothing is sent to a requester who is not a member when the request is served; departures while streaming need concurrency, which is left out.
- The UI upper-cases a typed session id, while the server compares the id verbatim (server/server.py:383). The model keeps both behaviours; `HostJoin.GeneratedIdJoins` shows that generated ids are unaffected.
- server/server.py:362-574 dispatches every message type whether or not the connection has authenticated. There is no gate that accepts only authentication first, and the model has none either.
- If no port in the range is free, the port search returns the start port (server/server.py:169-171), and so does the model.
- The network test script defaults to ports 54321 (TCP) and 54322 (UDP) (network_test.py:28). The application defaults are 5555 and 5556 (utils/config.py:17-20), and the model uses those.
- Server.HandleAuth: the model's authentication request always carries a username string. In the source, a request without one (server/server.py:374) registers a `None` member (line 406), which the close never removes because `if username:` (line 355) is false. The model keeps the same stuck-member behaviour for the empty name `""`, but it has no `None` member.
- Transfers.Ratio: Python's float division is modelled as exact real division. The ratio-times-count identity holds for the model, not for the program's rounded floats (in Python `1/49*49` is `0.9999999999999999`). The error case and the 0 to 1 bound do not depend on rounding.
- Reconnect.Connect: `ok` stands for the socket calls only. A failure after `running = True` and the `connected` signal (client/client.py:133-144), such as the authentication send raising, emits `Connected` before the failure and the disconnect; the model's failure always starts with `ConnectionFailed`.
- Upload.SendWithRetry: the model always has a connected client. With no client (utils/file_transfer.py:447, 472) the source reports the chunk as not sent and counts no error. The model's `ok = false` always counts a retry and an error.

## Findings

| source | as written | input that shows it | evidently intended | confidence | as-written member | corrected member |
|---|---|---|---|---|---|---|
| utils/network_proto.py:268-270 | the hash is masked to 31 bits, then shifted left by 4, so ids reach 35 bits while the UDP header field is 32 bits | a username whose hash is 2^28: audio id 2^32 + 1, and `pack` raises for every packet of that stream | ids that fit the 32-bit `stream_id` field | not executed | StreamIds.StreamIdOverflowsHeader | StreamIds.CorrectedStreamIdPacks |
| client/client.py:164-168 | a failed `connect()` calls `disconnect()`, which sets `manual_disconnect`, so the reconnection chain stops after one failed attempt | connection lost, then the first reconnect fails: no second attempt and no manual-retry prompt | failed reconnects continue through the backoff schedule, then ask for a manual retry | not executed | Reconnect.AsWrittenSingleAttempt | Reconnect.CorrectedFullSchedule |
| utils/file_transfer.py:441-443 | a chunk whose retries are used up returns `False` without counting an error, so the loop retries it forever | a one-chunk upload whose first three sends fail | the upload aborts after 10 errors | not executed | Upload.UploadStalls | Upload.CountedUploadTerminates |
| server/server.py:473 | the offer handler records the checksum `""`, so the assembled file never matches its digest and is deleted | any offer followed by all its chunks | the uploaded file becomes available | not executed | Server.OfferedUploadUnavailable | Server.OfferedUploadAvailable |
| utils/file_transfer.py:352-354 | progress divides by `total_chunks`, which is 0 for every download just started | `download_file` then `get_transfer_progress` on the same id | 0.0 progress until the size is known | not executed | Transfers.FreshDownloadProgressRaises | Transfers.ProgressGuardedBounded |
| server/server.py:568-572 | `leave_session` clears the connection's username but keeps the member in the roster | auth as a user, send leave: the user is still listed and relayed to | the member is removed and the others are told | not executed | Server.LeaveKeepsMember | Server.LeaveRemovesMember |
| server/server.py:825 | `_send_file_to_user` passes the plain strings `"file_chunk"` (line 825) and `"file_complete"` (line 845) to `create_message`, which reads `msg_type.value` (utils/network_proto.py:227); the `AttributeError` is only logged (lines 857-858), so nothing is sent | a member's `file_request` for any available file, empty or not | the chunks and then `file_complete`, which client/client.py:332-348 handles | not executed | Server.RequestDeliversNothing | Server.CorrectedRequestStreamsFile |
| client/client.py:550-562 | the receiver recomputes each candidate's stream id with its own process's `hash()`, which Python salts per process, while the sender stamped its id with its own (client/client.py:105-106; utils/network_proto.py:268) | two clients in different processes whose masked hashes of the sender's name differ, and no name the receiver knows colliding: the packets are attributed to nobody | media from another client is attributed to its sender, as with a hash shared by every process | not executed | ClientSession.ForeignSenderUnidentified | ClientSession.IdentifiesGenerated |
