# Verified model of clustat

clustat shows the state of the accelerators ("gres") of a cluster. On every node a server collects
a snapshot, keeps it in a cache and answers queries over TCP or UDP; on the user's side a backend
finds the nodes, keeps connections and a cache of rows, and answers QUERY commands. This project
models the parts of it that are state machines, codecs or caches, and proves what they promise.

Everything is checked by `dafny verify dfyconfig.toml`. Instants, cache answers, the results of
`connect` and `query`, the datagrams that a network delivers and the texts that a collector returns
are parameters, so every theorem holds for all of them.

## How it is built

* **Server cache** (`SingleFlight`, `SingleFlightSafety`, `SingleFlightTheorems`, `GresCache`,
  `CacheMetrics`). Any number of calls run against one cache, interleaved at every access to
  shared state: clock reads, entry reads, counters, lock, condition variable (with spurious
  wake-ups), collector. The invariant is proved for every step and the theorems hold in every
  reachable state, including termination: runs are bounded and a waiting call always has somebody
  to wait for. The cache class is the sequential code; each of its calls, up to its answer or its
  next sleep, is proved to be a stretch of a run of that model.
* **Frames and chunks** (`Bytes`, `Frame`, `TcpFrames`, `TcpServer`, `TcpClient`, `UdpChunk`,
  `Reassembler`, `SingleChunk`, `ChunkIntegrity`, `ChunkSplice`, `Crc32`, `Folds`). Both header
  codecs are canonical. Reassembly is proved for every series of datagrams, genuine or not. The
  checksum is any fold over bytes; CRC-32 is one of them and is proved to lose no information in
  any step.
* **Queries over UDP** (`ServerTransport`, `UdpServer`, `UdpClient`, `UdpSession`,
  `UdpSessionSafety`, `UdpSessionSplice`, `UdpSplicedRun`, `UdpRoundTrip`, `UdpQuery`). The
  server's handlers and shortcuts, its receive loop with many peers, the client's receive loop,
  and the two together over a network that loses, reorders and repeats datagrams in both
  directions, up to the snapshot that a query returns.
* **Snapshots in two halves** (`Snapshots`, `MetadataHash`, `SnapshotSplit`, `Collector`,
  `WireQuery`). The metadata hash, the split and the join, the collector's contract, and the way
  of a snapshot from the server's cache to the client through the bytes of the frames.
* **Backend** (`Net`, `ConnectionPool`, `QueryRefresh`, `QueryAnswers`, `QueryHistory`).
  Concurrent connection attempts over one pool, the refresh of the row cache by a QUERY, and whole
  histories of discovery, connecting and QUERY.
* **Texts** (`Wildcard`, `FilterText`, `Base64`). The node filter language and the base64 decoder.

Results where the code and what one might expect of it part, each stated as an equivalence and
shown at a concrete input:

* A node that stops answering is not in general shown as stale before it goes: while it is pooled, a
  failed query removes its row at once (`QueryHistory.PooledNodeIsNotShown`). It is shown as stale
  exactly when an earlier target of the same QUERY replaced its connection
  (`QueryHistory.SilentNodeVanishes`, `QueryHistory.ReplacedNodeIsShown`).
* `wildcard_match` is not a glob for patterns that end in a literal: the last part is taken at its
  leftmost place (`Wildcard.MatchesIsShortestPrefix`, `Wildcard.LiteralEndIsIncomplete`).
* The neighbour checksums do not see a group mixed from several frames whose checksums agree at the
  seams, and the reassembler hands the mixture out as a frame (`ChunkIntegrity.MixDetectedAtSeams`,
  `ChunkSplice.SpliceDelivered`, `ChunkSplice.SpliceGoesUnseen`).
* A chunked reply that the client accepts need not be any response of the server: when the network
  repeats the request and the cache changes in between, the replies can be spliced
  (`UdpSessionSplice.ChunkedReplyOutcome`, `UdpSplicedRun.SplicedReplyIsAccepted`).
* On TCP a query takes whatever frame comes next for its answer, the late answer to an earlier query
  that gave up included (`TcpClient.QueryGetsItsOwnAnswer`, `TcpClient.LateAnswerIsTaken`). The
  backend avoids it by dropping a connection whose query failed.
* `decode_udp_single_chunk_ref` and a fresh reassembler differ exactly on single chunks that claim a
  frame shorter than their payload (`SingleChunk.SingleAgreesWithReassembler`,
  `SingleChunk.ShortClaimPartsTheDecoders`).
* The metadata hash cannot tell an absent text from an empty one (`MetadataHash.StreamInjective`,
  `MetadataHash.AbsentAndEmptyHashAlike`), and a hash of zero switches the client's comparison off:
  the answer is then right exactly when the held metadata agrees
  (`SnapshotSplit.QueryAnswersExactly`).
* `encode_udp_chunks` casts the payload length to 16 bits; its output is decodable exactly when the
  piece size fits (`UdpChunk.EncodingDecodable`, `UdpChunk.LongPieceDoesNotDecode`).
* `decode_base64` accepts padding between groups and stray bits (`Base64.EncodeInvertsDecode`,
  `Base64.StrayBitsAccepted`, `Base64.InnerPaddingAccepted`).
* A shortcut that gives up asks the cache a second time, so one reply may rest on either of two
  cache answers (`ServerTransport.ReplyRefinesGeneral`, `ServerTransport.SecondAnswerReplies`).

## Model

| member | source | states |
|---|---|---|
| `SingleFlightSafety.InvStep` | crates/server/src/cache.rs:133-238 | every atomic step of every call (look, count, lock, decide, wait, wake, collect, record, store, finish) keeps the joint invariant of lock owner, in-flight flag, generation, outcomes, counters and each call's position |
| `SingleFlightSafety.InvRun` | crates/server/src/cache.rs:133-238 | the invariant holds in every state of every run of any number of calls |
| `SingleFlightTheorems.InFlightIsOneLeader` | crates/server/src/cache.rs:144-194 | in_flight holds exactly when one call is between becoming leader and finishing; collections never overlap; collections started are the finished generations plus one while one is running |
| `SingleFlightTheorems.NoLostWakeup` | crates/server/src/cache.rs:147-170 | a call inside the condition variable implies a refresh in flight and an unchanged generation, in every reachable state |
| `SingleFlightTheorems.AnswersWereFresh` | crates/server/src/cache.rs:133-194 | every Ok of get_or_refresh with a positive ttl was fresh at an instant within that call, and carries no process command |
| `SingleFlightTheorems.FollowersGetRealErrors` | crates/server/src/cache.rs:152-157 | a follower's error other than Internal is the error of a collection that ended after the follower took the lock |
| `SingleFlight.LookIsExact` | crates/server/src/cache.rs:18-22 | a look finds the entry if and only if it is less than ttl times a million nanoseconds old |
| `SingleFlightTheorems.LooksAreExact` | crates/server/src/cache.rs:138-150 | in any state of any number of calls a look, the first or one under the lock, answers from the entry if and only if it is that young, and then without a collection and without touching the entry |
| `SingleFlightTheorems.FollowerGetsTheEntry` | crates/server/src/cache.rs:147-150 | in every run a call that looks under the lock less than its ttl after a collection, a follower among them, is given that entry or a later one |
| `SingleFlightTheorems.FollowersLooked` | crates/server/src/cache.rs:147-157 | in every run a follower's error follows a look of its own that found no entry young enough |
| `SingleFlightTheorems.MetricsAddUp` | crates/server/src/cache.rs:48-74 | hits plus misses count the lookups past their first check, each call collects at most once, and merges plus collects do not exceed misses plus spurious wake-ups |
| `SingleFlightTheorems.EntriesMoveForward` | crates/server/src/cache.rs:183-188 | over any stretch of any run the stored entry never disappears and its collection time never goes back |
| `SingleFlightTheorems.FailedRefreshKeepsEntry` | crates/server/src/cache.rs:189-193 | a leader whose collection fails leaves the entry that stood when it became leader |
| `SingleFlightTheorems.NeverStuck` | crates/server/src/cache.rs:147-182 | while a call is unfinished some call can take a step or is inside the collector: there is no deadlock |
| `SingleFlightTheorems.RankStep` | crates/server/src/cache.rs:133-194 | every step of a call or collector lowers a rank, the clock leaves it, a spurious wake-up raises it by at most four |
| `SingleFlightTheorems.RunsAreBounded` | crates/server/src/cache.rs:133-194 | a run of n calls does at most 18 n steps of work plus four for every spurious wake-up: no call loops for ever |
| `GresCache.Cached.constructor` | crates/server/src/cache.rs:124-131 | a new cache has no entry, no refresh and zero counters |
| `GresCache.Cached.DecideLocked` | crates/server/src/cache.rs:152-165 | the section under the lock answers and changes the state as the concurrent model's decision does |
| `GresCache.Cached.FinishLocked` | crates/server/src/cache.rs:230-237 | after a refresh ends nobody is told to wait: every caller that observed an earlier generation gets this collection's error (Internal if it had none), and the next to observe leads |
| `GresCache.Cached.StoreAndFinish` | crates/server/src/cache.rs:183-193 | an entry replaces the old one, an error leaves it, and the call ends as the concurrent model's leader does |
| `GresCache.Cached.GetOrRefresh` | crates/server/src/cache.rs:133-194 | in any state of the cache: the entry, one hit and nothing else if it is less than the ttl old; else a miss and either a sleep (refresh in flight) or a collection whose result, entry, error, generation and counters are stated field by field; all of it a stretch of a run of the concurrent model |
| `GresCache.Cached.Resume` | crates/server/src/cache.rs:147-170 | a woken call: the entry if it is less than the ttl old by now, else the error the finished refresh left (or Internal), else another sleep or a collection of its own, with the whole state stated |
| `GresCache.Cached.GetLatestOrRefresh` | crates/server/src/cache.rs:196-207 | any entry at all is returned, also while a refresh is in flight; without one the call goes on as get_or_refresh; both are stretches of a run of the concurrent model |
| `GresCache.Cached.RecordCollectLatency` | crates/server/src/cache.rs:61-74 | the samples kept are always the latest 128 of all recorded ones |
| `GresCache.OmitProcessCommands` | crates/server/src/cache.rs:240-247 | the nested loops erase every command and change nothing else |
| `CacheMetrics.PercentileIsNearestRank` | crates/server/src/cache.rs:257-267 | for every sample set and percentile up to 100 the result is the nearest-rank percentile, defined by counting, and no other number is |
| `Snapshots.OmitCommandsFixed` | crates/server/src/cache.rs:240-247 | erasing leaves a snapshot unchanged if and only if it has no command |
| `Frame.FrameTypeOf` | crates/common/src/protocol.rs:61-80 | exactly the codes 1 to 11 are types, each the code of its type |
| `Frame.HeaderRoundTrip` | crates/common/src/protocol.rs:101-143 | an encoded header, whatever follows it, decodes to itself exactly for the current version |
| `Frame.HeaderCanonical` | crates/common/src/protocol.rs:111-143 | every accepted header re-encodes to the bytes it was read from |
| `Frame.HeaderBytes` | crates/common/src/protocol.rs:101-109 | the eighteen bytes of one header |
| `Frame.FrameRoundTrip` | crates/common/src/protocol.rs:757-779 | an encoded frame decodes to its parts if and only if the version is current and the length fits 32 bits |
| `Frame.FrameCanonical` | crates/common/src/protocol.rs:766-779 | every accepted frame is the encoding of what it decodes to |
| `Frame.FramePrefixFree` | crates/common/src/protocol.rs:766-779 | no frame is a proper prefix of another |
| `TcpFrames.StreamRoundTrip` | crates/server/src/main.rs:916-943 | frames written one after another, the last possibly cut anywhere, are read back as exactly those frames; a cut header ends quietly, a cut payload with an error |
| `TcpFrames.ReadsOnlyWhatWasSent` | crates/server/src/main.rs:916-943 | for arbitrary bytes, the frames returned are frames and their concatenation is a prefix of the stream |
| `TcpFrames.Stream.ReadExact` | crates/client-backend/src/tcp_client.rs:178-196 | reading n bytes works across segments of any sizes and takes exactly the first n |
| `TcpFrames.Stream.ReadTcpFrame` | crates/server/src/main.rs:916-943 | one read returns the first frame of the unread bytes and leaves the rest, however the stream is segmented |
| `TcpServer.HandleQueryStream` | crates/server/src/main.rs:871-914 | the loop reads, handles and answers frame by frame; what it writes, a broken write included, and why it stops are those of its specification for every stream, segmentation and cache |
| `TcpServer.AnsweredInOrder` | crates/server/src/main.rs:876-913 | every frame before the stop is answered in order by its own response, and the service stops at the first farewell, frame without an answer or failed write, and only there or at the end of the stream |
| `TcpServer.ClientReadsResponses` | crates/server/src/main.rs:871-943 | a client that writes requests, the last possibly cut, reads back exactly the responses to those before the stop, also when the last write broke off |
| `TcpClient.RunQueries` | crates/client-backend/src/tcp_client.rs:120-165 | the queries of a connection take the frames of the stream one after another, those that give up none |
| `TcpClient.QueryGetsItsOwnAnswer` | crates/client-backend/src/tcp_client.rs:120-138 | a query gets the response to the request whose number is the count of earlier queries that read, and that is its own if and only if no earlier query on the connection gave up |
| `TcpClient.LateAnswerIsTaken` | crates/client-backend/src/tcp_client.rs:130-138 | after a query that gave up, the next one takes the late answer to the first |
| `UdpChunk.ChunkRoundTrip` | crates/common/src/udp.rs:29-95 | a datagram decodes to its header exactly when version, chunk number and length are right |
| `UdpChunk.ChunkCanonical` | crates/common/src/udp.rs:44-95 | every accepted datagram re-encodes to itself |
| `UdpChunk.ChunkHeaderLayout` | crates/common/src/udp.rs:29-42 | where the fields of every chunk header stand, most significant byte first |
| `UdpChunk.PiecesCut` | crates/common/src/udp.rs:136-139 | the pieces rebuild the frame; none is empty or too long |
| `UdpChunk.EncodeUdpChunks` | crates/common/src/udp.rs:116-160 | the loop emits, in order, one datagram per piece with the checksums of its ring neighbours, or the first error that applies |
| `UdpChunk.EncodingDecodable` | crates/common/src/udp.rs:140-158 | all datagrams decode to their headers if and only if the piece size (or a shorter frame) fits 16 bits |
| `UdpChunk.LongPieceDoesNotDecode` | crates/common/src/udp.rs:140-158 | a frame and a piece size of 65536 bytes: encoded without error into a datagram that does not decode |
| `Reassembler.AcceptKeepsValid` | crates/common/src/udp.rs:269-281 | for arbitrary bytes every group keeps one slot per chunk and stands under its own request id |
| `Reassembler.AnswersDecode` | crates/common/src/udp.rs:310-343 | any frame returned, after any series of datagrams, decodes with the type and id of the chunk that completed it and is no longer than claimed |
| `Reassembler.SlotsHoldLatest` | crates/common/src/udp.rs:269-327 | after any series of datagrams each group belongs to the first chunk with its id and holds in every slot the latest chunk that agreed with it |
| `Reassembler.AnswerIsLatest` | crates/common/src/udp.rs:310-343 | after any series of datagrams the answer to a chunk is a metadata mismatch if it differs from the first chunk under its id, and else what the latest chunks of the slots deliver |
| `Reassembler.LatestGenuineDelivers` | crates/common/src/udp.rs:310-343 | as soon as the latest accepted chunk of every slot is genuine the original frame is returned, whatever came before |
| `Reassembler.ReassemblesInAnyOrder` | crates/common/src/udp.rs:116-160 | chunks cut at any size, in any order, repeated, interleaved with other ids: no error, nothing until the last missing chunk, then exactly the frame, if and only if the piece size (or the frame) fits 16 bits |
| `Reassembler.UdpFrameReassembler.VerifyAll` | crates/common/src/udp.rs:350-365 | the loop accepts exactly the rings in which every slot carries its neighbours' checksums |
| `Reassembler.UdpFrameReassembler.Concatenate` | crates/common/src/udp.rs:334-337 | the loop strings the payloads together in slot order |
| `Reassembler.UdpFrameReassembler.Insert` | crates/common/src/udp.rs:269-343 | the object's groups and answer are those of the specification for every datagram and state |
| `ChunkIntegrity.MixDetectedAtSeams` | crates/common/src/udp.rs:350-365 | a complete group mixed from the genuine chunks of two frames passes if and only if both frames' checksums agree on both sides of every seam |
| `ChunkSplice.SpliceDelivered` | crates/common/src/udp.rs:310-343 | a complete group of genuine chunks of any number of frames with equal metadata is delivered as the splice of their pieces if and only if the frames in neighbouring slots have equal checksums at both places, and else refused with a checksum error |
| `ChunkSplice.SplicedIs` | crates/common/src/udp.rs:334-343 | the splice is a given one of those frames if and only if every piece in it is that frame's |
| `ChunkSplice.SpliceGoesUnseen` | crates/common/src/udp.rs:310-343 | two reply frames of 1536 bytes cut at 256 and a group of chunks of both that is delivered, under every checksum, as a third frame |
| `ChunkIntegrity.PayloadsDetected` | crates/common/src/udp.rs:350-365 | with genuine headers a complete group passes if and only if every payload's checksum is the genuine one |
| `ChunkIntegrity.ChangedByteDetected` | crates/common/src/udp.rs:350-365 | one changed byte is always detected by a checksum whose steps lose nothing |
| `Crc32.Crc32IsLossless` | crates/common/src/udp.rs:413-415 | no step of CRC-32 loses information, in the state or in the byte |
| `Crc32.Crc32DetectsChangedByte` | crates/common/src/udp.rs:350-365 | so with CRC-32 one changed byte in one payload is always detected |
| `SingleChunk.FromPartsIsSingle` | crates/common/src/udp.rs:193-229 | building a datagram from parts with a streamed checksum equals framing and wrapping, errors included, if and only if the length fits 32 bits |
| `SingleChunk.ChunksOfSmallFrame` | crates/common/src/udp.rs:162-191 | a frame that fits one piece is chunked into exactly the single-chunk datagram |
| `SingleChunk.SingleAgreesWithReassembler` | crates/common/src/udp.rs:235-250 | for every byte string the shortcut decoder and a fresh reassembler agree, errors included, exactly outside the datagrams that claim too short a frame |
| `SingleChunk.ShortClaimPartsTheDecoders` | crates/common/src/udp.rs:235-250 | a query in a chunk that claims a frame of no bytes: read by the shortcut, refused by a fresh reassembler |
| `SingleChunk.SingleRoundTrip` | crates/common/src/udp.rs:162-250 | a single-chunk datagram decodes to its frame and carries its id |
| `ServerTransport.DirectIsFramed` | crates/server/src/transport.rs:60-74 | a reply built directly is byte for byte the framed one; it is given up exactly when it does not fit |
| `ServerTransport.ReplyRefinesGeneral` | crates/server/src/udp_transport.rs:107-242 | for every frame, capacity and pair of cache answers the datagrams sent are those of the general path on the first answer if its reply fits, else on the second |
| `ServerTransport.SecondAnswerReplies` | crates/server/src/udp_transport.rs:150-182 | a query whose reply rests on the second cache answer and differs from the one on the first |
| `ServerTransport.ResponseAnswers` | crates/server/src/transport.rs:37-202 | every response decodes, unless it exceeds 32 bits, and carries the request's id and the archived half of the cached snapshot or the cache's error |
| `ServerTransport.AnswersExactly` | crates/server/src/transport.rs:37-202 | there is a response exactly to a handshake of the current version and a query without a body or with one of the current version, if the cache failed or the half asked for serializes to at most 65535 bytes |
| `ServerTransport.ResponseIdIs` | crates/server/src/transport.rs:169-176 | a response goes under the frame's id, but under the body's for a query with one |
| `ServerTransport.FramedReplyIsSent` | crates/server/src/udp_transport.rs:195-242 | a frame around a 16-bit payload is sent as exactly its chunks, 1 to 257 of them |
| `ServerTransport.EveryResponseIsSent` | crates/server/src/udp_transport.rs:182-242 | something is sent if and only if the handler has a response, and it is the chunk encoding of that response |
| `ServerTransport.DatagramsFitMtu` | crates/common/src/udp.rs:368-377 | all datagrams of a frame with their IP and UDP headers fit the MTU if and only if it is at least 316 (IPv4) or 336 (IPv6), or the frame is small enough anyway; a full datagram then fills the MTU exactly |
| `UdpServer.ChunkedRequestIsAnswered` | crates/server/src/udp_transport.rs:71-242 | a request in several datagrams from a peer without a reassembler (new, or after a farewell), in any order with repeats and any other requests of the peer in between, within the idle timeout: nothing is sent on a chunk until it is the last missing one, and then exactly the reply |
| `UdpServer.FarewellClears` | crates/server/src/udp_transport.rs:108-117 | a completed farewell is not answered and leaves the peer without a reassembler |
| `UdpServer.LateChunkStartsAnew` | crates/server/src/udp_transport.rs:75-80 | whatever the peer sent before, a chunk after the deadline completes nothing and the reassembler starts again with it alone |
| `UdpServer.OneDatagramIsAnswered` | crates/server/src/udp_transport.rs:118-242 | for every state of a peer, a request in one datagram is answered at once by the chunks of the handler's response on one of the two cache answers, and by nothing exactly if the handler has none |
| `UdpServer.BadDatagramIsIgnored` | crates/server/src/udp_transport.rs:96-104 | a datagram that cannot be read is not answered and changes nothing |
| `UdpServer.RepliesFitTheMtu` | crates/common/src/udp.rs:368-377 | everything sent to a new peer fits the configured MTU, else that of the route, else 1200, if that is at least 316 (IPv4) or 336 (IPv6), and a reply in several datagrams fills it |
| `UdpServer.Server.constructor` | crates/server/src/udp_transport.rs:53-56 | a new server remembers no peer |
| `UdpServer.Server.CapOf` | crates/server/src/udp_transport.rs:195-197 | a peer's capacity is computed once and then kept |
| `UdpServer.Server.Complete` | crates/server/src/udp_transport.rs:71-106 | a datagram completes a frame by itself or through the peer's reassembler, which is replaced when expired; other peers' state stays |
| `UdpServer.Server.Receive` | crates/server/src/udp_transport.rs:58-242 | one turn of the loop sends, up to the first send that fails, and remembers what the peer's own state says, and changes nothing remembered of others |
| `UdpServer.Server.Serve` | crates/server/src/udp_transport.rs:58-243 | over any traffic every peer is served and remembered exactly as if it were alone |
| `UdpClient.RecvFrame` | crates/client-backend/src/udp_client.rs:210-262 | the receive loop with its lazily made reassembler returns what its specification says for every series of arrivals |
| `UdpClient.RecvReturnsTheId` | crates/client-backend/src/udp_client.rs:227-243 | a frame that ends the wait carries the awaited id |
| `UdpClient.SecondDeadlineIdle` | crates/client-backend/src/udp_client.rs:215-221 | with a clock that does not run backwards the reassembler's own deadline never ends a wait |
| `UdpClient.GenuineChunkOutcome` | crates/client-backend/src/udp_client.rs:234-246 | when all chunks under the awaited id belong to one frame, the wait ends with it once they are complete and goes on before |
| `UdpClient.FirstDecisiveTurn` | crates/client-backend/src/udp_client.rs:215-261 | the wait goes on through every datagram that does not decide it and ends with the first that does, by its frame or error, or with the socket's failure or the deadline |
| `UdpSession.HandlingAnswersItsRequest` | crates/server/src/udp_transport.rs:58-242 | what the server sends on a request's datagram is a reply to that request's own frame; a farewell gets none |
| `UdpSession.ReplyCarriesTheId` | crates/server/src/transport.rs:49-90 | every reply datagram that decodes carries the id of the request it answers |
| `UdpSessionSafety.InvStep` | crates/client-backend/src/udp_client.rs:105-262 | drawing ids, asking, greeting, leaving, handling, receiving and giving up all keep the session invariant |
| `UdpSessionSafety.InvRun` | crates/client-backend/src/udp_client.rs:105-262 | the invariant (fresh and unique ids, every reply traceable to its handling) holds in every state of every run |
| `UdpSessionSafety.SingleReplyAnswersItself` | crates/client-backend/src/udp_client.rs:148-158 | in every run a single-datagram reply is accepted if and only if the server made it in handling the awaited request itself, and is that handling's response; any other is passed over |
| `UdpSessionSafety.HandlingFollowsRequest` | crates/client-backend/src/udp_client.rs:106-108 | every handling happened at a step of the run at which its request had already been sent |
| `UdpSessionSafety.EveryChunkAnswersItself` | crates/client-backend/src/udp_client.rs:210-262 | a reply chunk carries the awaited id if and only if it was made in handling the awaited request |
| `UdpSessionSplice.ChunkedReplyOutcome` | crates/client-backend/src/udp_client.rs:234-246 | in every run, however often the request was handled: a chunk under the awaited id ends the wait with a metadata mismatch if it differs from the first one; else the wait goes on while a slot is empty; else every slot holds a chunk made in handling the awaited request, and the wait ends with the splice of those responses if and only if neighbouring ones have equal checksums at both places, and with a checksum error otherwise |
| `UdpSplicedRun.SplicedReplyIsAccepted` | crates/client-backend/src/udp_client.rs:234-246 | for every checksum, a run with a repeated query and a changed cache in which the client accepts a frame that is no handling's response |
| `UdpSessionSafety.ReassembledReplyAnswersItself` | crates/client-backend/src/udp_client.rs:234-246 | if the server had the same response each time the request reached it, a chunked reply, in any order with repeats and strangers, yields nothing until complete and then that response, at any capacity a 16-bit length can carry, and nothing at a larger one |
| `UdpRoundTrip.WholeReplyIsAccepted` | crates/client-backend/src/udp_client.rs:148-158 | in every run: when a request reaches the server once, the server has a response, and its datagrams reach the client one after another, the last of them, and none before, ends the wait with that response |
| `UdpQuery.AcceptedIsResponse` | crates/client-backend/src/udp_client.rs:210-262 | in every run an accepted frame that came in one datagram, or in several when the server had the same response each time, is the server's response in a handling of the awaited request |
| `UdpQuery.QueryReturnsWhatTheServerHad` | crates/client-backend/src/udp_client.rs:148-179 | under the same condition on both frames, whatever is held: the cache's error, or the cached snapshot that very query was answered from, commands erased, if and only if the metadata joined with agrees, the held one or the one the server had for the metadata request |
| `MetadataHash.WriteBytes` | crates/common/src/protocol.rs:431-438 | the loop is the fold of the hash step |
| `MetadataHash.ComputeHash` | crates/common/src/protocol.rs:430-458 | the loops compute the hash of the metadata's byte stream |
| `MetadataHash.StreamInjective` | crates/common/src/protocol.rs:430-458 | two metadata have the same byte stream if and only if they are equal up to absent versus empty text |
| `MetadataHash.AbsentAndEmptyHashAlike` | crates/common/src/protocol.rs:442-446 | metadata with an absent and with an empty driver version are different and hash alike |
| `MetadataHash.StepInjective` | crates/common/src/protocol.rs:431-438 | each hash step is injective in the state and in the byte, modulo 2^64 |
| `MetadataHash.HashOfZeroByte` | crates/common/src/protocol.rs:431-440 | one step from the start on the byte zero gives the published 64-bit FNV-1a value |
| `MetadataHash.OneByteChangesHash` | crates/common/src/protocol.rs:430-458 | streams that differ in exactly one byte always hash differently |
| `MetadataHash.HostnameByteChangesHash` | crates/common/src/protocol.rs:440-441 | one changed byte in the hostname always changes the hash |
| `SnapshotSplit.JoinInvertsSplit` | crates/common/src/protocol.rs:461-530 | split and join give the snapshot with commands erased if and only if static data is a function of the index |
| `SnapshotSplit.ConnectedNode.constructor` | crates/client-backend/src/udp_client.rs:139-145 | a new connection holds the metadata of its handshake |
| `SnapshotSplit.ConnectedNode.QueryConnected` | crates/client-backend/src/udp_client.rs:148-179 | the held metadata and the answer are those of the specification; metadata is replaced only when the hash is nonzero and differs |
| `SnapshotSplit.JoinsWithWhatAgrees` | crates/common/src/protocol.rs:488-530 | joining with any metadata gives the snapshot, commands erased, if and only if the metadata agrees on the host and on the static data at every index of the snapshot |
| `SnapshotSplit.QueryAnswersExactly` | crates/client-backend/src/udp_client.rs:159-178 | for every metadata held, snapshot and reply, the query returns the server's snapshot, commands erased, if and only if the refetched metadata agrees with it (hash nonzero and different) or the held one does (otherwise) |
| `SnapshotSplit.QueryReturnsServerSnapshot` | crates/client-backend/src/tcp_client.rs:139-164 | so it does, from any held metadata without empty text, when static data is unchanged and a function of the index and its hash is nonzero and meets no collision |
| `Collector.ValidateContract` | crates/server/src/collector.rs:672-758 | validation succeeds if and only if the contract holds: dense indices, unique uuids, bounded values, no blank text (the function is compiled for tests and the debug feature only: a release build does not enforce it) |
| `Collector.ContractSurvivesSplit` | crates/server/src/collector.rs:75-109 | a snapshot under the contract survives split and join unchanged and has no empty text in its metadata |
| `Collector.ThereAndBack` | crates/server/src/collector.rs:44-109 | a snapshot turned into the collector's form and back loses exactly its commands |
| `Collector.BackAndThere` | crates/server/src/collector.rs:44-109 | the other way round nothing is lost |
| `Collector.ContractBoundsSnapshot` | crates/server/src/collector.rs:75-109 | under the contract the served snapshot has dense indices, names, and used memory within total memory |
| `WireQuery.ReadBack` | crates/client-backend/src/transport.rs:47-76 | a response read by the client is the half of the cached snapshot that was asked for, or the cache's error |
| `WireQuery.QueryOverTheWire` | crates/client-backend/src/udp_client.rs:148-179 | for every held metadata and every bytes of a metadata reply: the cache's error with the metadata kept, or the server's cached snapshot, commands erased, if and only if what the client joins with is there and agrees |
| `WireQuery.ServerSnapshotArrives` | crates/client-backend/src/udp_client.rs:148-179 | so the snapshot arrives when the static data is safe to be fetched apart and a metadata reply, if one is needed, was made from the same static data |
| `ConnectionPool.InvStep` | crates/client-backend/src/local_api.rs:112-219 | every step of every concurrent connection attempt keeps the pool invariant |
| `ConnectionPool.PoolIsSafe` | crates/client-backend/src/local_api.rs:112-219 | in every run the pool is within its bound, has one connection per hostname, and one connect in progress per address |
| `ConnectionPool.ConnectionsAreConserved` | crates/client-backend/src/local_api.rs:136-219 | every connection ever opened is in exactly one place: pooled, disconnected, or in the hands of a call |
| `ConnectionPool.QuietPool` | crates/client-backend/src/local_api.rs:112-219 | when all calls have returned nothing is marked as connecting, each opened connection is pooled or disconnected, and each pooled address has a row |
| `ConnectionPool.HostsStay` | crates/client-backend/src/local_api.rs:155-195 | a hostname that is connected stays connected, also when its connection is replaced in a full pool |
| `ConnectionPool.UnhinderedCallIsPooled` | crates/client-backend/src/local_api.rs:112-213 | in every run a call that finds its address unpooled and unmarked, room at the check and at admission, and whose connect succeeds, is on its way until its connection is pooled under its address; then it gives the address a row and ends |
| `ConnectionPool.CallsCanGoOn` | crates/client-backend/src/local_api.rs:112-219 | a call that has not ended can always take its next step or is waiting for its connect |
| `QueryRefresh.RefreshLeavesGoodRows` | crates/client-backend/src/local_api.rs:676-784 | after a refresh every row has a snapshot no older than its start minus the ttl, or an error; every pooled address has a row; the pool keeps its bound and one connection per host |
| `QueryHistory.SnapshotsStayPooled` | crates/client-backend/src/local_api.rs:62-219 | in every state of every history of discovery, connecting and QUERY, every row with a snapshot is pooled, every pooled address has a row, and the pool keeps its bound and one connection per host |
| `QueryHistory.AddNodesRows` | crates/client-backend/src/local_api.rs:62-89 | discovery changes no row and adds only rows without a snapshot |
| `QueryHistory.NewRowsShowNodes` | crates/client-backend/src/local_api.rs:71-87 | a row that is new after a discovery shows a node found there, of a host that had none, under the number that follows |
| `QueryHistory.EveryNodeIsShown` | crates/client-backend/src/local_api.rs:71-87 | every node found has a row afterwards, at its address or of its host |
| `QueryHistory.StartAddresses` | crates/client-backend/src/cache.rs:55-77 | at the start there are rows at exactly the addresses found |
| `QueryHistory.StartShowsNodes` | crates/client-backend/src/cache.rs:55-77 | each of them shows the last node found there |
| `QueryHistory.PooledAtTurn` | crates/client-backend/src/local_api.rs:682-703 | an address is pooled when its turn in a refresh comes if and only if it was at the start and no earlier target turned out to be the same host |
| `QueryHistory.SilentTarget` | crates/client-backend/src/local_api.rs:689-781 | a target that no longer answers leaves the pool, and is shown, as stale, if and only if it had a snapshot and was not pooled when its turn came |
| `QueryHistory.SilentNodeVanishes` | crates/client-backend/src/local_api.rs:676-784 | in every history a node with an expired snapshot that has fallen silent is shown stale by a QUERY if and only if an earlier target of it replaced the node's connection, else removed at once, and is gone after every later QUERY |
| `QueryHistory.PooledNodeIsNotShown` | crates/client-backend/src/local_api.rs:753-780 | a pooled node that does not answer: its row is gone after the first QUERY |
| `QueryHistory.ReplacedNodeIsShown` | crates/client-backend/src/local_api.rs:706-732 | a node whose host is met at another address earlier in the same QUERY: it is shown stale |
| `QueryRefresh.LocalApi.constructor` | crates/client-backend/src/local_api.rs:33-60 | a new backend has no connection and the rows given; if discovery made them, every row with a snapshot is pooled |
| `QueryRefresh.LocalApi.AddDiscoveredNodes` | crates/client-backend/src/local_api.rs:62-89 | the loop adds a row for each node whose host and address have none, numbered on from the rows there were |
| `QueryRefresh.LocalApi.EstablishOne` | crates/client-backend/src/local_api.rs:112-219 | the address is pooled afterwards if and only if it was before, or the pool had room and the connect succeeded; every other address keeps connection and row unless it had the same host |
| `QueryRefresh.EstablishConnects` | crates/client-backend/src/local_api.rs:153-213 | what a connect attempt comes to, address by address: the new connection in place of the one with its host, and its row with hostname and number |
| `QueryRefresh.PooledAfterConnecting` | crates/client-backend/src/local_api.rs:113-213 | the address is pooled exactly if it was, or there was room and the connect succeeded, and then has a row with that hostname and number |
| `QueryRefresh.LocalApi.StaleTargets` | crates/client-backend/src/local_api.rs:794-812 | the targets are, each once, exactly the rows without a snapshot or with one older than the ttl, each with its row's number, hostname and address |
| `QueryRefresh.LocalApi.RefreshStaleCacheForQuery` | crates/client-backend/src/local_api.rs:676-784 | the loop handles the targets one after another, leaves a trace of it, and keeps the backend valid |
| `QueryAnswers.RefreshShowsAnswers` | crates/client-backend/src/local_api.rs:682-781 | for every target: if the node answers at its turn it ends up shown (exactly unless a later target is the same host), with exactly its answer, hostname, time and number, without error, and pooled; if not, it is not pooled, and shown with an error exactly if it had a snapshot and could not even be asked |
| `QueryAnswers.UntouchedRowsStay` | crates/client-backend/src/local_api.rs:676-784 | a row that is no target stays, unchanged, exactly unless a target is the same host |
| `QueryRefresh.LocalApi.AskNode` | crates/client-backend/src/local_api.rs:737-781 | an answer stands in the row as it came, with its hostname, the target's number and no error, over an untouched pool; without one the node is neither pooled nor shown; every other connection and row is untouched |
| `QueryRefresh.LocalApi.GiveUpNode` | crates/client-backend/src/local_api.rs:706-732 | the node is shown if and only if it had a snapshot, under its hostname and number, with an error in its place and the present time; the pool and every other row are untouched |
| `Wildcard.WildcardMatch` | crates/client-backend/src/filter.rs:140-167 | the loop over the parts is the specified matcher |
| `Wildcard.ConsumeShortest` | crates/client-backend/src/filter.rs:147-164 | placing each part leftmost uses the shortest prefix that any placement can use |
| `Wildcard.MatchesIsShortestPrefix` | crates/client-backend/src/filter.rs:140-167 | for patterns with a star the matcher says yes exactly when the shortest prefix matching as a glob is the whole text, or exists at all if the pattern ends with a star |
| `Wildcard.MatchesVersusGlob` | crates/client-backend/src/filter.rs:140-167 | a match implies a glob match, and is equivalent to it for patterns that end with a star |
| `Wildcard.PlainPatternIsSubstring` | crates/client-backend/src/filter.rs:141-143 | without a star the matcher is the glob with stars on both sides |
| `Wildcard.LiteralEndIsIncomplete` | crates/client-backend/src/filter.rs:166-166 | the pattern `*a` and the text `aba`: a glob match that the matcher rejects |
| `FilterText.SplitFilterItems` | crates/client-backend/src/filter.rs:52-70 | the loop cuts at exactly the commas at bracket depth zero |
| `FilterText.JoinInvertsSplit` | crates/client-backend/src/filter.rs:52-70 | the items joined by commas are the text |
| `FilterText.ItemsAreWhole` | crates/client-backend/src/filter.rs:52-70 | no item splits again, and all but the last close their brackets |
| `FilterText.SplitInvertsJoin` | crates/client-backend/src/filter.rs:52-70 | a list of items survives join and split if and only if every item is whole and all but the last close their brackets |
| `FilterText.RangeExpandsExactly` | crates/client-backend/src/filter.rs:102-123 | a range gives one pattern per number, all distinct; a text is one of them if and only if it is prefix, a number of the range at the width of the longer bound, suffix |
| `FilterText.BracketRange` | crates/client-backend/src/filter.rs:72-86 | the same for a range written in brackets within a text |
| `FilterText.BracketList` | crates/client-backend/src/filter.rs:88-99 | a list in brackets gives one pattern per item that is not blank, trimmed, in order; only blank items give the text itself |
| `FilterText.KeptMeaning` | crates/client-backend/src/filter.rs:88-93 | kept are exactly the non-empty trimmed items |
| `FilterText.TrimTrims` | crates/client-backend/src/filter.rs:15-15 | trimming takes away only blanks and leaves none at either end |
| `FilterText.TrimIsUnique` | crates/client-backend/src/filter.rs:15-15 | and that determines the trimmed text |
| `FilterText.ItemYieldsExactly` | crates/client-backend/src/filter.rs:72-123 | for every item: nothing if it is blank; its trimmed text if that has no bracket pair, or one with an improper range or only blank items; else each number of the range or each trimmed item in its place |
| `FilterText.ParseFilter` | crates/client-backend/src/filter.rs:10-21 | for every raw text: no pattern twice, and a pattern is there if and only if one of the items between the outer commas yields it, in the sense of the row above |
| `Base64.DecodeBase64` | crates/client-backend/src/adapter.rs:213-241 | the loop with its four-digit buffer is the specified decoder for every text |
| `Base64.GroupRoundTrip` | crates/client-backend/src/adapter.rs:243-259 | one to three bytes written as a group are read back from it |
| `Base64.GroupCanonical` | crates/client-backend/src/adapter.rs:243-259 | a group that is read gives three bytes exactly without padding, and is how its bytes are written if and only if no stray bit is set |
| `Base64.DecodeInvertsEncode` | crates/client-backend/src/adapter.rs:450-472 | for every byte string the padded encoding of section 4 of RFC 4648, with whitespace anywhere, decodes to it |
| `Base64.EncodeInvertsDecode` | crates/client-backend/src/adapter.rs:213-259 | a text that decodes is the encoding of its bytes if and only if padding is at the end and no stray bit is set |
| `Base64.DecodesExactly` | crates/client-backend/src/adapter.rs:213-259 | a text decodes if and only if, whitespace aside, it is groups of four characters of the alphabet padded at most in the last place or the last two |
| `Base64.FullGroupValue` | crates/client-backend/src/adapter.rs:243-259 | the four digits of a full group to the base 64 are its three bytes to the base 256 |
| `Base64.PaddedGroupValue` | crates/client-backend/src/adapter.rs:243-259 | the same for a padded group, the bits left over falling away |
| `Base64.StrayBitsAccepted` | crates/client-backend/src/adapter.rs:243-259 | two different texts that decode to the same byte |
| `Base64.InnerPaddingAccepted` | crates/client-backend/src/adapter.rs:231-259 | padding between two groups is accepted, and is not how the bytes are encoded |

## Left out

- Sockets, multicast discovery and announcements, the Unix socket service, command lines, table output, logging and packaging.
- NVML, `/proc`, `getent` and `ip route`: their results are arbitrary inputs. Port picking and the back-off of query-triggered discovery would only add easy members.
- The archives (rkyv) and JSON texts: arbitrary functions; `WireQuery` assumes that reading undoes writing.
- That crc32fast computes the CRC-32 of `Crc32`, which is written bit by bit: the library is not part of this model.
- Lock poisoning, panics, allocation failure and wrap-around of 64-bit counters (request ids, generations, metrics) are taken not to happen.
- Rates and averages of the cache metrics, and the copying of header bytes into fixed buffers (headers are concatenations).
- Heartbeats, which neither transport switches on, and the disconnect commands of the local API.
- `NodeFilter::matches_target`: address parsing is a library, and the rest is a disjunction of wildcard matches. Whitespace for `trim` is any predicate on characters.
- ConnectionPool.PoolIsSafe: takes the hostname of a connection to stay what it was at connect time; connection ids of the source are not unique, so connections are told apart by an opening number. IPv6 scope and flow are not part of an address. Removal of pool entries by a failed query is in `QueryRefresh` only, one request at a time.
- QueryRefresh.RefreshLeavesGoodRows: rows without their display fields (resource count, latency); the snapshot's content is opaque; the clock is assumed monotone.
- GresCache.Cached.GetOrRefresh: the sequential code up to its answer or its next sleep; interleaving with other calls is in `SingleFlight`.
- UdpSessionSafety.ReassembledReplyAnswersItself: asks that the server had the same response each time the request reached it; without that the property is false (`UdpSplicedRun.SplicedReplyIsAccepted`), and `UdpSessionSplice.ChunkedReplyOutcome` says exactly what is accepted.
- UdpQuery.AcceptedIsResponse: the same condition, for replies in several datagrams.
- UdpQuery.QueryReturnsWhatTheServerHad: the same condition, for replies in several datagrams.
- WireQuery.ServerSnapshotArrives: asks that no empty text is held; `WireQuery.QueryOverTheWire` holds for everything held.
- SnapshotSplit.QueryReturnsServerSnapshot: asks that no empty text is held, since the hash cannot tell it from an absent one; `SnapshotSplit.QueryAnswersExactly` holds for everything held.
- TcpServer.HandleQueryStream: a flush that fails after a complete write is not modelled.
- UdpServer.Server.Receive: the clock is read once per datagram.
- TcpClient.QueryGetsItsOwnAnswer: a query that gives up does so before any byte of a reply has come; a timeout in the middle of a frame, after which the next query reads from within it, is not modelled.
