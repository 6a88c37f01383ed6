# A verified model of the MoChi BitTorrent tracker

MoChi answers BitTorrent clients over HTTP and UDP. A client announces itself for an info hash; the
tracker stores it as a seeder or a leecher of that swarm and answers with other peers. Scrapes ask
only for the sizes of swarms. This project models the parts of the tracker where that can go wrong
and proves what they promise.

| files | part of the tracker |
|---|---|
| `FlatStore` | what a peer store means: (role, swarm, peer) to time of the last announce, and the known swarms |
| `MemoryShard`, `MemoryTable`, `MemoryStore` | the sharded in-memory store, as classes that refine the flat store |
| `RedisKeys`, `RedisProtocol`, `RedisIndex`, `RedisRace`, `RedisPass`, `RedisRefresh` | the Redis store as a state machine: any number of clients and gc passes, interleaved command by command |
| `RedisPeers`, `EntryMap`, `RedisFlat` | peers as fields of Redis hashes, the query for the peers of a swarm, and the flat store that a Redis state is |
| `SwarmHook`, `HookCalls`, `SwarmMirror` | the hook that turns announces into store calls, and runs of announces and gc passes |
| `ResponseHook`, `ResponseProperties`, `MemoryReply` | the hook that fills replies, over any store and over the memory store |
| `Sanitize`, `UdpQuery`, `UdpQueryRoundTrip`, `UdpOptions`, `UdpParser` | what the UDP frontend reads |
| `Blocks`, `UdpWriter`, `Bencode`, `HttpWriter`, `HttpScrape` | what the frontends write, with a client that reads it |
| `ConnectionID`, `Xorshift` | connection IDs and the pseudo-random generators |
| `ByteStrings`, `Words`, `Bittorrent` | bytes, machine words, addresses, info hashes, peers and requests |

`dafny verify dfyconfig.toml` checks everything.

## What is proved

- **Redis counters.** In every interleaving, with failing commands and dying processes, each global
  counter is exactly the number of peers stored in its role, plus the decrements some process still
  owes, plus a drift that is accounted for step by step. So it never undercounts and never goes
  negative (`CounterConservation`).
- **Redis index.** With the WATCH/MULTI/EXEC guard that the comment on gc argues for, every
  reachable state lists every non-empty hash (`GuardedRunsStayListed`). The callback as written
  sends its SREM outside the transaction. Its runs keep the index complete in exactly those runs
  where no such SREM is overtaken by a put into its hash (`UnguardedRunsListedIffRaceFree`,
  `ListedIffNotOvertaken`), and for every swarm there is a run that loses it (`RaceLosesIndexEntry`).
- **Redis gc.** After every run of the guarded protocol, and as written after every run without that
  race, a pass that is not interrupted and ends leaves exactly the peers later than its cutoff and
  exactly the non-empty hashes in the index, whatever order Redis answers in (`EveryPassCollects`,
  `GuardedPassCollects`); it can always end (`PassEnds`). A pass that is interrupted deletes a peer
  later than its cutoff exactly when that peer announced itself after its time was read
  (`FreshDeletedIff`, `FreshPeerLost`).
- **Memory store.** Through every run of announces and gc passes the sharded maps represent the flat
  store, the shard counters equal the sizes of the maps they count, their wrap-around decrement
  never underflows, and announces, scrapes, errors and statistics are those of the flat store
  (`PeerStore`, `Serve`).
- **Hybrid torrents (BEP 52).** On a clock that does not go back, what is stored under a V2 hash is
  stored in the same role, at least as fresh and in the same shard under the truncated hash, all
  along a run, exactly when no announce takes such a mirror and leaves what it mirrors
  (`RunsMirroredIff`, `MirrorSameShard`). This is so in every run of V2 announces whose hashes
  differ in their first 20 bytes (`DistinctPrefixesMirror`). It fails when a peer of a V2 hash stops, or completes
  as a leecher, under the truncated hash or under another hash with that prefix (`MirrorLost`).
- **Replies.** Duplicate-free, split by family, in order, within NumWant (`ReplyIsSound`), and the
  whole swarm when NumWant covers it (`FullReply`), also with the memory store itself
  (`AppendFromMemory`).
- **Two stores, one meaning.** Put, delete, graduate and an uninterrupted gc pass of the Redis store
  are the operations of the flat store that the memory store refines (`PutFlat`, `DeleteFlat`,
  `GraduateFlat`, `GuardedPassIsCollect`), and after every run its query selects from that flat store
  like the memory store from its own (`QuerySelectsFromState`).
- **Codecs.** Round trips for announces, scrapes, replies, queries, options, packed peers and
  bencode, each against an independent reader or writer.
- **Connection IDs.** Exactly when an issued ID is accepted, for every hash function.

Where the program and its comments disagree, the model follows the program:

- The comment on gc describes a guarded removal; the program removes outside of the transaction.
  Both are modelled, told apart by `guarded`.
- A connection ID should be valid for two minutes (BEP 15). The time to live is a number of
  nanoseconds compared with seconds, so the end of a window of 65536 seconds decides instead.
  `TwoMinutesKeptIff` says exactly when the two minutes are kept.
- The minimal interval of an HTTP reply is converted to seconds only if the interval came to one
  second or more; `WrittenInSeconds` says exactly when both are in seconds.
- gc is to delete the peers older than its cutoff. It reads times and deletes with different
  commands; `FreshDeletedIff` says exactly when it deletes a younger one.
- An announcer gets its own address when it is the only peer in a swarm, says a comment. With a
  NumWant of 0 the program does so, and counts it, in any swarm; `AloneIff` is exact.
- In a graduation the result of HDEL is read before EXEC, so the leecher counter is not decremented;
  this is part of the drift.

Clocks, seeds and randomness are parameters. So are the keyed hash, the lower-casing of query keys
and, where a statement is about any store, the store. Maps are read in any order and sorts leave any
sorted permutation.

## Model

| member | source | states |
|---|---|---|
| `MemoryShard.PutExact` | storage/memory/storage.go:293-297 | storing a peer and counting it only when it is new keeps the counters of a shard equal to its numbers of (hash, peer) pairs |
| `MemoryShard.RemoveExact` | storage/memory/storage.go:314-317 | removing a peer and adding 2^64-1 only when it was there keeps them equal, and the counter is positive at that moment |
| `MemoryShard.PeerShard.GetOrCreate` | storage/memory/storage.go:104-118 | the swarm of a hash, created empty if missing; nothing else changes and the counters stay exact |
| `MemoryShard.PeerShard.Put` | storage/memory/storage.go:290-297 | the swarms become the old ones with this peer and time in this role; counters stay exact |
| `MemoryShard.PeerShard.DeletePeer` | storage/memory/storage.go:314-317 | the swarms become the old ones without this peer in this role; counters stay exact, with wrap-around decrements |
| `MemoryShard.PeerShard.Graduate` | storage/memory/storage.go:383-393 | out of the leechers and into the seeders, whatever was there before; counters stay exact |
| `MemoryShard.PeerShard.Expired` | storage/memory/storage.go:540-545 | exactly the peers whose time is not after the cutoff |
| `MemoryShard.PeerShard.Expire` | storage/memory/storage.go:540-553 | exactly the live entries of one role of one swarm are left, each with its time |
| `MemoryShard.PeerShard.CollectSwarm` | storage/memory/storage.go:534-572 | the live entries of both roles, or no swarm at all when none is left |
| `MemoryShard.PeerShard.GC` | storage/memory/storage.go:525-578 | every swarm of the shard is collected, counters stay exact |
| `MemoryShard.CollectStep` | storage/memory/storage.go:533-575 | collecting one more swarm extends the collected part by exactly that swarm |
| `MemoryTable.ShardIndex` | storage/memory/storage.go:268-277 | an index within range, in the second half of the shards exactly for IPv6 |
| `MemoryTable.PutRefines` | storage/memory/storage.go:279-300 | putting into the indexed shard represents putting into the flat store; all other swarms and shards are unaffected |
| `MemoryTable.RemoveRefines` | storage/memory/storage.go:302-323 | removing from the indexed shard represents removing from the flat store |
| `MemoryTable.GraduateRefines` | storage/memory/storage.go:371-396 | graduating in the indexed shard represents graduating in the flat store |
| `MemoryTable.CollectRefines` | storage/memory/storage.go:514-579 | collecting every shard represents keeping exactly the entries later than the cutoff and the swarms that still hold one |
| `MemoryTable.PeersOfSwarm` | storage/memory/storage.go:411-424 | the map of a role in the indexed shard holds exactly the flat store's peers of that swarm |
| `MemoryTable.TrackedSwarm` | storage/memory/storage.go:314-320 | the swarm is in its shard exactly when the flat store knows it |
| `MemoryTable.Totals` | storage/memory/storage.go:250-256 | the sums over all shards are the flat store's numbers of swarms and of entries of each role |
| `MemoryStore.PeerStore.constructor` | storage/memory/storage.go:71-84 | twice the validated number of empty shards, representing the empty store |
| `MemoryStore.PeerStore.Put` | storage/memory/storage.go:279-300 | PutSeeder and PutLeecher are the flat store's Put, in the family of the peer's address |
| `MemoryStore.PeerStore.Delete` | storage/memory/storage.go:302-323 | DeleteSeeder and DeleteLeecher are the flat store's Delete; an error exactly when the swarm is not known |
| `MemoryStore.PeerStore.GraduateLeecher` | storage/memory/storage.go:371-396 | the flat store's Graduate |
| `MemoryStore.PeerStore.RangeKeys` | storage/memory/storage.go:413-417 | reading a map in any order takes min(max(numWant, 1), size) distinct keys and reports whether it was exhausted |
| `MemoryStore.PeerStore.Select` | storage/memory/storage.go:412-424 | leechers only for a seeder; else seeders, and leechers only when those did not fill the request |
| `MemoryStore.PeerStore.AnnouncePeers` | storage/memory/storage.go:398-428 | a selection of the flat store's peers of the swarm, as many as wanted or as there are |
| `MemoryStore.PeerStore.CountPeers` | storage/memory/storage.go:430-437 | the flat store's numbers of leechers and seeders in one family, modulo 2^32 |
| `MemoryStore.PeerStore.ScrapeSwarm` | storage/memory/storage.go:439-454 | the numbers of both families together, modulo 2^32 |
| `MemoryStore.PeerStore.GC` | storage/memory/storage.go:514-579 | the flat store's Collect, and nothing on a closed store |
| `MemoryStore.PeerStore.CollectShards` | storage/memory/storage.go:525-578 | every shard is collected and none is forgotten |
| `MemoryStore.PeerStore.Statistics` | storage/memory/storage.go:250-256 | the reported totals are the real totals of the flat store, modulo 2^64 |
| `SwarmHook.CallStore` | middleware/hooks.go:51-75 | the event and the bytes left choose the store call; the memory store follows the flat store |
| `SwarmHook.CallStoreForPeer` | middleware/hooks.go:76-83 | a V2 hash is followed by the same call for the truncated hash |
| `SwarmHook.HandleAnnounce` | middleware/hooks.go:43-86 | over the memory store: every address of the announce in turn, or nothing when the hook is skipped |
| `HookCalls.StoreFn` | middleware/hooks.go:51-75 | over any store: the calls for one hash and peer, where a missing swarm is no error for Stopped |
| `HookCalls.HandleAnnounce` | middleware/hooks.go:43-86 | over any store: the calls for all addresses in order, up to the first that aborts, whose error is the result |
| `HookCalls.CallsAreStoreOp` | middleware/hooks.go:51-75 | on a flat store these calls are the operation that the memory store follows |
| `SwarmHook.Serve` | middleware/hooks.go:43-86 | through every run of announces and gc passes the memory store represents the flat store of that run |
| `SwarmMirror.StoreOpEffect` | middleware/hooks.go:51-75 | what one store call does to every single entry: only this peer in this swarm changes, and how |
| `SwarmMirror.MirrorEffect` | middleware/hooks.go:76-83 | one peer of an announce keeps the mirror of an entry exactly when it does not take it: Stopped, or Completed of a leecher, under another hash with the same first 20 bytes |
| `SwarmMirror.PeerOpMirrorsIff` | middleware/hooks.go:76-83 | one peer of an announce keeps every V2 entry mirrored exactly when it has no such victim |
| `SwarmMirror.CollectMirrors` | storage/memory/storage.go:514-579 | gc never removes a mirror and leaves what it mirrors |
| `SwarmMirror.RunsMirroredIff` | middleware/hooks.go:49-83 | in every run, each entry under a V2 hash is mirrored after every peer of every announce, in the same role and at least as fresh, exactly when no announce takes a mirror and leaves its entry |
| `SwarmMirror.DistinctPrefixesMirror` | middleware/hooks.go:49-83 | so it is in every run of V2 announces whose hashes differ in their first 20 bytes, and in every run whose Stopped and Completed announces meet no other V2 hash with their prefix |
| `SwarmMirror.MirrorLost` | middleware/hooks.go:52-83 | the runs that fail: for every V2 hash and peer, leeching under it and then stopping or completing under the truncated hash or another one with its prefix |
| `SwarmMirror.MirrorSameShard` | bittorrent/peer.go:92-97 | a hash and its truncated form have the same shard |
| `RedisKeys.ClassifyRender` | storage/redis/storage.go:340-360 | the prefix tests of gc recover exactly the role, family and hash that a key was built from |
| `RedisKeys.RenderClassify` | storage/redis/storage.go:717-724 | every record is the key of what it is recognised as, so nothing is misread |
| `RedisKeys.InfoHashKeyInjective` | storage/redis/storage.go:340-360 | different (hash, role, family) never share a key |
| `RedisProtocol.PutConserves` | storage/redis/storage.go:362-377 | putPeer raises counter minus stored peers by one exactly when the peer was there already |
| `RedisProtocol.GraduateConserves` | storage/redis/storage.go:423-454 | a graduation raises it by one for each role in which the peer was stored |
| `RedisProtocol.HDelManyStored` | storage/redis/storage.go:745-761 | HDEL removes as many stored peers as it reports |
| `RedisProtocol.ClientStepConserves` | storage/redis/storage.go:362-395 | every client command changes counter minus stored minus owed by exactly its drift |
| `RedisProtocol.GCStepConserves` | storage/redis/storage.go:744-789 | no command of gc changes it |
| `RedisProtocol.StepConserves` | storage/redis/storage.go:362-395 | every step of every process, failures and deaths included, changes it by exactly its drift |
| `RedisProtocol.CounterConservation` | storage/redis/storage.go:362-454 | over every interleaved run: counter = stored peers + owed decrements + drift |
| `RedisProtocol.CountersAreUpperBounds` | storage/redis/storage.go:744-776 | in every reachable state a counter is at least the stored peers plus the owed decrements, and not negative |
| `RedisIndex.ClientStepSafe` | storage/redis/storage.go:367-376 | client commands keep every non-empty hash in CHI_I and raise the version of a hash that gains a peer |
| `RedisIndex.GCStepSafe` | storage/redis/storage.go:779-789 | a gc command does so too if its SREM is guarded or its hash is empty |
| `RedisIndex.GuardedRunsStayListed` | storage/redis/storage.go:663-707 | with the guard, every reachable state lists every non-empty hash |
| `RedisIndex.UnguardedRunsListedIffRaceFree` | storage/redis/storage.go:779-789 | as written, the index is complete all along a run exactly when no SREM meets a hash that is not empty |
| `RedisPass.FetchKeeps` | storage/redis/storage.go:714-743 | reading the next key, or skipping a record that is none, keeps the pass on its way |
| `RedisPass.OnlyKeyShrinks` | storage/redis/storage.go:744-777 | deleting expired peers of the current key, all at once or one by one, touches nothing else |
| `RedisPass.CleanupKeeps` | storage/redis/storage.go:769-789 | the commands after the deletions change no peer, and unlist the key exactly when its hash is empty |
| `RedisPass.StepKeeps` | storage/redis/storage.go:708-806 | every command of a pass: keys that are through hold exactly their fresh peers, keys whose turn has not come are untouched |
| `RedisPass.EveryPassCollects` | storage/redis/storage.go:708-806 | every uninterrupted pass that ends, in any order of keys and peers and in either way of deleting, leaves exactly the peers later than the cutoff and exactly the non-empty hashes in CHI_I |
| `RedisPass.PassEnds` | storage/redis/storage.go:714-800 | a pass can end from wherever it stands |
| `RedisPass.PassIsExec` | storage/redis/storage.go:708-806 | a pass is a run of the protocol in which no other process moves |
| `RedisPass.RunsKeyed` | storage/redis/storage.go:362-454 | in every reachable state all fields belong to swarms |
| `RedisPass.GuardedPassCollects` | storage/redis/storage.go:663-707 | after every interleaved run of the guarded protocol, an uninterrupted pass that ends leaves exactly the fresh peers and a complete index |
| `RedisPass.RaceFreePassCollects` | storage/redis/storage.go:708-806 | as written, the same after every run without a race |
| `RedisRefresh.StepOnField` | storage/redis/storage.go:362-454 | a command writes a field with the time of a put or graduation of that very peer, or at most removes it |
| `RedisRefresh.FreshDeletedIff` | storage/redis/storage.go:726-761 | a gc command deletes a peer later than the cutoff exactly when that peer was put again after the step at which the pass read its time |
| `RedisRefresh.FreshDeletedFromStart` | storage/redis/storage.go:726-761 | in every interleaved run from the start there is such a step for every peer a gc command deletes, so the condition is exact for all of them |
| `RedisRefresh.RaceIffOvertaken` | storage/redis/storage.go:779-789 | an SREM meets a hash that is not empty exactly when a peer was put into it after its HLEN and is still there |
| `RedisRefresh.ListedIffNotOvertaken` | storage/redis/storage.go:779-789 | as written, the index is complete all along a run exactly when no SREM is overtaken by such a put |
| `RedisRefresh.FreshPeerLost` | storage/redis/storage.go:726-745 | for every swarm and peer, a run in which that happens |
| `RedisRace.RaceLosesIndexEntry` | storage/redis/storage.go:779-789 | for every swarm, a run in which the program loses a fresh peer from the index and the guard does not |
| `RedisPeers.UnpackPacked` | storage/redis/storage.go:398-405 | a packed peer unpacks to itself with its address unmapped and without zone; without an address it is refused |
| `RedisPeers.RoundTripIff` | storage/redis/storage.go:462-484 | it unpacks to exactly itself if and only if its address is valid, unmapped and without zone |
| `RedisPeers.PackInjective` | storage/redis/storage.go:398-405 | two peers share a field exactly when ID, port and bare address agree |
| `RedisPeers.ParsePeersList` | storage/redis/storage.go:486-499 | the peers of the records that unpack, in order; an error only when the query failed |
| `RedisPeers.GetPeers` | storage/redis/storage.go:507-539 | leechers for a seeder, else seeders and then leechers for what is missing; an error only with no peers |
| `RedisPeers.GatherWithin` | storage/redis/storage.go:519-527 | never more peers than wanted |
| `RedisPeers.QuerySelects` | storage/redis/storage.go:507-539 | for at least one wanted peer, over a store that draws from two sets of peers, the answer is a selection from them |
| `RedisFlat.PutFlat` | storage/redis/storage.go:362-377 | putPeer is the flat store's Put of the peer without the zone of its address |
| `RedisFlat.DeleteFlat` | storage/redis/storage.go:379-395 | HDEL of a packed peer removes exactly its entry |
| `RedisFlat.GraduateFlat` | storage/redis/storage.go:423-454 | GraduateLeecher is the flat store's Graduate |
| `RedisFlat.PassFlat` | storage/redis/storage.go:708-806 | what a gc pass leaves is the flat store's Collect |
| `RedisFlat.RunsWellKept` | storage/redis/storage.go:407-421 | in every run of store calls all fields are packed peers of swarms, so every reachable state is a flat store |
| `RedisFlat.GuardedPassIsCollect` | storage/redis/storage.go:663-707 | after every guarded run an uninterrupted pass that ends collects the flat store of that state |
| `RedisFlat.QuerySelectsFromState` | storage/redis/storage.go:507-549 | after every run, AnnouncePeers over HRANDFIELD answers with a selection from the flat store of that state, as the memory store does |
| `ResponseHook.FetchPeers` | middleware/hooks.go:167-179 | the fetches in order, each for the remaining budget, until it is used up or a store fails |
| `ResponseHook.SplitUnique` | middleware/hooks.go:192-210 | the first occurrences of each family, in order |
| `ResponseHook.Fill` | middleware/hooks.go:183-210 | what was gathered, or the announcer alone, who is then counted once |
| `ResponseHook.AppendPeers` | middleware/hooks.go:141-213 | the reply made of what was gathered, or of the announcer alone; unchanged on an error |
| `ResponseHook.HandleAnnounce` | middleware/hooks.go:121-134 | the counts of the swarm, then its peers; an error exactly when a count or a fetch fails |
| `ResponseHook.HandleScrape` | middleware/hooks.go:215-230 | one answer per hash, in order, behind what the response holds; it stops at the first count that fails |
| `ResponseProperties.KeptSplits` | middleware/hooks.go:198-210 | each list is free of duplicates, holds exactly the peers of its family, in the order of their first occurrence |
| `ResponseProperties.GatherWithinBudget` | middleware/hooks.go:161-179 | gathered peers and remaining budget always add up to NumWant |
| `ResponseProperties.ReplyIsSound` | middleware/hooks.go:141-213 | for every store that keeps to the budget and every pre-filled reply: split, ordered, without duplicates, within NumWant or the announcer's own addresses |
| `ResponseProperties.SelectionComplete` | storage/memory/storage.go:411-424 | a selection of as many as there are is everything that is wanted |
| `ResponseProperties.FullReply` | middleware/hooks.go:141-213 | from a store that answers from a flat store, an announce whose NumWant covers it gets exactly the stored peers it wants, for a V2 hash those of both hashes |
| `ResponseProperties.AloneIff` | middleware/hooks.go:181-190 | an announcer gets itself, and is counted, exactly when nobody it wants is stored or its NumWant is 0 |
| `MemoryReply.StoreReads` | storage/memory/storage.go:398-428 | every flat store can be answered from |
| `MemoryReply.ReadsRespects` | storage/memory/storage.go:411-424 | whoever does keeps to the budget |
| `MemoryReply.FetchFromMemory` | middleware/hooks.go:167-179 | the fetch loop over the memory store: every answer is a selection of what it holds, within the remaining budget |
| `MemoryReply.AppendFromMemory` | middleware/hooks.go:141-213 | appendPeers over the memory store: one family per list, no duplicates, within NumWant, or the announcer alone; both counts; exactly when it is alone; and the whole swarm when NumWant covers it |
| `Sanitize.MergeCopies` | bittorrent/request.go:72-79 | exactly the admissible addresses, each marked provided when some copy was |
| `Sanitize.Sanitize` | bittorrent/request.go:68-88 | for any map order and any sort: exactly the distinct admissible addresses, provided ones first; true exactly when there are some |
| `Sanitize.FirstIsProvided` | bittorrent/request.go:92-98 | the first address is a provided one whenever one survives |
| `Sanitize.ResultIsUnique` | bittorrent/request.go:68-88 | any two results are permutations of each other |
| `Sanitize.SanitizeIsIdempotent` | bittorrent/request.go:68-88 | a second run gives a permutation of the first result |
| `Sanitize.SanitizeAnnounce` | bittorrent/sanitize.go:18-36 | which requests are refused and why; the others keep all fields but cleaned addresses and a NumWant within bounds |
| `UdpQuery.ParseQuery` | frontend/udp/params.go:38-85 | the loop that shrinks the query is the left-to-right fold over its segments, on every byte string |
| `UdpQuery.UnescapeFailsIff` | frontend/udp/params.go:64-79 | unescaping fails exactly when some '%' is not followed by two hexadecimal digits (section 2.1 of RFC 3986) |
| `UdpQuery.ParseFailsIff` | frontend/udp/params.go:38-85 | parsing fails exactly when there is such a '%' behind the first '?', wherever the text is cut into segments, keys and values |
| `UdpQuery.LastValueWins` | frontend/udp/params.go:81-81 | a key has the value of the last segment that names it, and no other key is defined |
| `UdpQueryRoundTrip.UnescapeEscaped` | frontend/udp/params.go:64-72 | every way of percent-encoding a string is undone |
| `UdpQueryRoundTrip.ParseText` | frontend/udp/params.go:38-85 | any path with any encoded parameters parses to what the parameters say |
| `UdpQueryRoundTrip.QueryRoundTrip` | frontend/udp/params.go:38-85 | every encoded form of a map with lower-case keys is parsed back to it |
| `UdpQueryRoundTrip.EncodedMapParses` | frontend/udp/params.go:38-85 | every such map has an encoded form, and it is parsed back |
| `UdpOptions.HandleOptionalParameters` | frontend/udp/parser.go:117-157 | on every byte string: the query of the collected URL data, or which error; nothing is read outside of the packet |
| `UdpOptions.ChunkingIsTransparent` | frontend/udp/parser.go:125-156 | however the URL data is cut into options, padded with NOPs and ended, the result is that of the whole data |
| `UdpParser.ParseAnnounce` | frontend/udp/parser.go:59-113 | which packets are refused and why; the others give the fields at their places, cleaned addresses and the parameters |
| `UdpParser.AnnounceRoundTrip` | frontend/udp/parser.go:84-102 | every encoded announce is read back field by field, in both address widths |
| `UdpParser.ParseScrape` | frontend/udp/parser.go:160-198 | the first hashes of the packet, in order, up to the maximum; which packets are refused |
| `UdpParser.ReadHashes` | frontend/udp/parser.go:178-186 | the packet is consumed as its 20-byte hashes |
| `UdpParser.HashesAt` | frontend/udp/parser.go:178-186 | the n-th of them is at byte 20n, and there are a twentieth of the length |
| `UdpWriter.WriteAnnounceResponse` | frontend/udp/writer.go:35-59 | header, interval, counts and one block for each peer of the family |
| `UdpWriter.WritePeers` | frontend/udp/writer.go:53-56 | one block for each peer, in order, behind what was written |
| `UdpWriter.WriteScrapeResponse` | frontend/udp/writer.go:62-74 | header and one triple for each entry |
| `UdpWriter.KeptOneFamily` | middleware/hooks.go:198-210 | the lists of the response hook are of one family each, as the writers need |
| `UdpWriter.PeersRoundTrip` | frontend/udp/writer.go:53-56 | a client cuts the peers back into blocks of 6 or 18 bytes, each with the address and port of its peer |
| `UdpWriter.AnnounceReplyRoundTrip` | frontend/udp/writer.go:35-59 | an announce reply has 20 + 6k or 20 + 18k bytes and decodes to action, transaction, seconds, counts and peers |
| `UdpWriter.ScrapeReplyInOrder` | frontend/udp/writer.go:62-74 | the n-th triple of a scrape reply answers the n-th hash |
| `Bencode.NumberOfDecimal` | frontend/http/writer.go:43-49 | decimal numbers are read back and have no superfluous zeros |
| `Bencode.RoundTrip` | frontend/http/writer.go:42-69 | every encoded item is parsed back, whatever follows it |
| `Bencode.ParseExact` | frontend/http/writer.go:42-69 | the parser accepts nothing but encodings, so being parsed means being well-formed |
| `Bencode.OrderedIff` | frontend/http/writer.go:113-118 | the keys of a dictionary are in order exactly when each is above the one before |
| `HttpWriter.WrittenInSeconds` | frontend/http/writer.go:35-40 | the minimal interval is written in seconds exactly when the interval is a second or more or there is nothing to convert |
| `HttpWriter.WrittenInNanoseconds` | frontend/http/writer.go:35-40 | an interval and a minimum for which it is not |
| `HttpWriter.WriteAnnounceResponse` | frontend/http/writer.go:31-58 | the whole compact body and the overwritten intervals; a panic exactly on a negative number |
| `HttpWriter.CompactAddresses` | frontend/http/writer.go:74-90 | nothing for no peers, else key, computed length and blocks |
| `HttpWriter.CompactIff` | frontend/http/writer.go:82-88 | the computed length is that of the bytes that follow exactly when they add up to it |
| `HttpWriter.AnnounceRoundTrip` | frontend/http/writer.go:31-58 | a compact body of family-split lists is well-formed, has its keys in order, and gives back both counts, both intervals and both lists |
| `HttpScrape.WriteScrapeResponse` | frontend/http/writer.go:107-133 | the entries are left sorted by hash, any permutation among equals, and the body encodes them in that order |
| `HttpScrape.ScrapeRoundTrip` | frontend/http/writer.go:107-133 | a client reads exactly the sorted entries, a permutation of those asked for |
| `HttpScrape.ScrapeKeysOrderedIff` | frontend/http/writer.go:113-118 | the keys are strictly increasing exactly when no hash was asked for twice |
| `ConnectionID.Generator.constructor` | frontend/udp/connection_id.go:64-74 | buffers of their own, of 8 and 9 bytes |
| `ConnectionID.Generator.Reset` | frontend/udp/connection_id.go:79-92 | an empty scratchpad, and a new seed only when asked for |
| `ConnectionID.Generator.Hash` | frontend/udp/connection_id.go:115-120 | salt and time in the buffer, and the tag over them and the address in the scratchpad |
| `ConnectionID.Generator.Generate` | frontend/udp/connection_id.go:111-129 | the buffer that is handed out holds the ID issued for this salt, address and time |
| `ConnectionID.Generator.Validate` | frontend/udp/connection_id.go:132-154 | whether the ID is accepted; the issued ID and the generator's state stay |
| `ConnectionID.RestoredIssued` | frontend/udp/connection_id.go:139-139 | the restored time is off by exactly 65536 times the difference of the windows |
| `ConnectionID.AcceptedIff` | frontend/udp/connection_id.go:132-154 | for every hash and every address: accepted exactly when the two tags agree and the clock is between the bounds, in wrapping 64-bit numbers |
| `ConnectionID.ValidUntilWindowEnds` | frontend/udp/connection_id.go:139-147 | if the tags of the two times differ, accepted exactly in the window of its time, from the leeway on |
| `ConnectionID.TwoMinutesKeptIff` | frontend/udp/connection_id.go:17-18 | the promised two minutes hold for an age exactly when the window ends on the right side of it |
| `ConnectionID.LongAfterTwoMinutes` | frontend/udp/connection_id.go:145-147 | an ID that is accepted 65535 seconds after it was issued, whatever the hash |
| `ConnectionID.RefusedAfterOneSecond` | frontend/udp/connection_id.go:139-144 | an ID that is refused one second after it was issued |
| `Xorshift.StepInvertible` | pkg/xorshift/prng.go:22-27 | a step of xorshift64* is undone by an explicit inverse |
| `Xorshift.StepOnto` | pkg/xorshift/prng.go:22-27 | every state is reached, so a step is a permutation |
| `Xorshift.OutputDeterminesState` | pkg/xorshift/prng.go:26-26 | the output determines the state, by the inverse of the multiplier modulo 2^64, |
| `Xorshift.OutputOnto` | pkg/xorshift/prng.go:26-26 | and every output is put out, so it is a bijection of the state |
| `Xorshift.RunInvertible` | pkg/xorshift/prng.go:22-27 | a run of any length can be followed back |
| `Xorshift.NeverZero` | pkg/xorshift/prng.go:22-27 | a run reaches the zero state, or puts out zero, exactly when it started at zero |
| `Xorshift.PairInvertible` | pkg/xorshift/prng.go:10-17 | a step of xoroshiro128** is undone by an explicit inverse |
| `Xorshift.PairOnto` | pkg/xorshift/prng.go:10-17 | every pair of words is reached |
| `Xorshift.OutputInvertible` | pkg/xorshift/prng.go:11-12 | the output determines the first word, |
| `Xorshift.OutputOntoWord` | pkg/xorshift/prng.go:11-12 | and every output is put out, so it is a bijection of the first word |
| `Xorshift.PairRunsNeverMeet` | pkg/xorshift/prng.go:10-17 | runs of equal length that end in the same pair started in the same pair |
| `Xorshift.PairNeverZero` | pkg/xorshift/prng.go:10-17 | no run but that of the zero pair reaches it |

## Left out

- Sockets, HTTP serving, routing, timers, shutdown, logging, metrics and configuration: plumbing.
- storage/pg and storage/keydb: their behaviour lies in SQL or in commands of another server.
- middleware/jwt, clientapproval and varinterval: library calls or easy claims.
- The peer dictionary of HTTP replies that are not compact: it writes the port as two raw bytes inside an integer, so it is not bencode.
- The parameters of HTTP requests (frontend/http/parser.go, params.go): easy next to the UDP parser.
- Interleaving inside the memory store at the level of its locks: methods and gc passes run one after the other, swarms and peer maps are values of their shard.
- Exact equality of the Redis counters: the program does not provide it; the drift says by how much they are off.
- Peers with an unreadable time in Redis, and the download counters: they take no part in the properties.
- The hex form of info hashes in NewInfoHash: it only adds a decoder.
- The zone of an IPv6 address is kept by the memory store and dropped by Redis and the wire formats, as in the program; parsing of address text is not modelled.
- Addresses follow the predicates of netip in current Go releases, which unmap before they classify.
- MemoryStore.PeerStore.constructor: requires that the doubled shard count fits 32 bits, because the index is computed modulo a 32-bit number.
- MemoryStore.PeerStore.AnnouncePeers: requires numWant of at least -1, because a smaller one makes the program panic; an open store is required by every call for the same reason.
- ResponseHook.HandleAnnounce: says nothing about the counts in the reply after an error, which is never sent.
- RedisPeers.QuerySelects: is stated, as is RedisFlat.QuerySelectsFromState, for numWant of at least 1; HRANDFIELD gives nothing for 0 and may repeat fields for a negative count.
- UdpQuery.ParseQuery: lower-casing of keys is any function.
- ConnectionID.ValidUntilWindowEnds: requires times and leeway far from the limits of 64 bits; ConnectionID.AcceptedIff has the wrap-around.
- Unsafe conversions between strings and bytes and pooled buffers: all bytes are copied values.
