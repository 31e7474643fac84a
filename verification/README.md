# A verified model of the esp82xx lwIP 2 glue

This project models the stateful parts of the glue between lwIP 2 and the
Espressif ESP8266 firmware, and proves what they promise. It has seven pieces:

- **DHCP server.** `LeasePool` says as functions on a sequence what every pool
  operation does; `DhcpServer` holds the linked list and is proved to compute
  those functions; `PoolProperties` and `PoolRuns` prove what they mean;
  `DhcpMessages` covers the parsing of a message and the decision it leads to;
  `LeaseRange` the range arithmetic; `Addresses` the byte order.
- **TCP send queue.** `SendStream` is a state machine over the steps of the send
  path; `SendQueue` is the linked queue with its cursor `ptail`, the halving
  retry and the acknowledgement loop, every method proved against its steps.
- **Ring buffer and manual receive.** `RingBuffer` refines the circular array to
  a sequence; `ManualReceive` proves the receive path end to end.
- **Packets across the glue.** `GlueErrors` (the four error translations),
  `WrapperPool` (the block-grown free list), `Glue` (reference counts and
  release).
- **Deferred teardown.** `Teardown`.
- **UDP chunking.** `UdpChunks`.
- **Millisecond clock.** `Clock`.

`Machine` has the machine integers, `Lists` the singly linked lists with a ghost
sequence of their nodes, `Chains` the pbuf chains.

`dafny verify dfyconfig.toml` checks everything.

## Conventions

Interrupt-masked sections and callbacks are atomic. Objects the source updates in
place are classes with the same fields; `nodes`, `recs`, `frames` and similar
ghost fields say what a list holds. lwIP, the radio blobs, memory allocation and
the application are environment: parameters (`memory`, `answer`, `net`, `calls`,
`Reaction`) or nondeterministic choices (`TcpPcb.TcpWrite`). Addresses are four
octets; the source's raw `uint32` comparison on the little-endian ESP8266 is
`Addresses.Below`, proved equal to comparing the raw integers.

Where the code and what is said about it differ, the model follows the code:

- A full range is refused only if it ends below .255. When it ends at .255 the
  next address has last octet 0, looks smaller than the end in the raw
  comparison, and is handed out (`PoolRuns.FullPoolRefusedIff`).
- A static addition takes the address `start + n`, with n the size of the pool,
  whether or not somebody holds it (`PoolRuns.AddStaticKeepsOkIff`,
  `PoolRuns.AddStaticCanDoubleBind`).
- A ciaddr outside the range is bound all the same, unless the client is unknown
  and the address looks larger than the end (`PoolProperties.UpdateKeepsOkIff`).
  After one such claim below the range, two ordinary clients get the same address
  (`PoolProperties.OutsideClaimDoubleBinds`).
- A refused sender is acknowledged when it asks for 0.0.0.0, or when it sends the
  broadcast address as its own while the renew flag is still set from an earlier
  message (`DhcpMessages.AckIsBoundIff`, `DhcpMessages.RefusedZeroIsAcked`,
  `DhcpMessages.StaleRenewIsAcked`).
- A RELEASE first binds its ciaddr, then leaves it; with ciaddr 0 it binds a
  fresh address if there is one (`DhcpMessages.ReleaseWithoutAddressBinds`).
- `espconn_sent` returns the error of the write that follows although the payload
  stays queued, so ESPCONN_MEM does not tell whether it was accepted: it is the
  answer both to a payload queued while the write is blocked and to one refused
  for want of memory (`SendQueue.Connection.EspconnSent`).
- When the write is blocked, an acknowledgement of everything written frees the
  entry `ptail` stands on (`SendStream.AckEndangersCursorIff`). This rests on the
  queue length and send buffer of lwIP, which the model leaves open: with lwIP's
  own counters the queue is empty once everything is acknowledged, and the write
  is not blocked.
- `espconn_recv` with a length of 2^31 or more copies nothing and credits the
  window, which then may outgrow the buffer (`ManualReceive.Connection.EspconnRecv`,
  `ManualReceive.BogusCredit`).
- The ring buffer's chunk size is right only below 2^31
  (`RingBuffer.ChunkFitsIff`).
- The terminal callback may leave a freed message on the active list by clearing
  the MANUALRECV option (`Teardown.Espconn.EspconnTask`).
- The macros named `..._disabled` test that an option bit is set; the model speaks
  of the bits.

## Model

| member | source | states |
|---|---|---|
| Addresses.BelowIsRawOrder | glue-lwip/esp-dhcpserver.c:58-96 | the octet-wise comparison of the model is the raw integer comparison of the list code |
| Addresses.RawOrderIsHostOrder | glue-lwip/esp-dhcpserver.c:1175-1189 | inside one /24 the raw network-order comparison agrees with host order, and host addresses differ by their last octets |
| Addresses.NextIsSuccessor | glue-lwip/esp-dhcpserver.c:1170 | the model's successor is htonl(ntohl(a) + 1) with 32-bit wrap, for every address |
| Addresses.NextLooksLargerIff | glue-lwip/esp-dhcpserver.c:1167-1189 | the raw comparison sees the successor as larger, and it stays in the /24, exactly when the last octet is below 255 |
| Addresses.AddrRoundTrip | glue-lwip/esp-dhcpserver.c:143-146 | htonl undoes ntohl for every address |
| Lists.Append | glue-lwip/espconn.c:78-96 | appending keeps a list of distinct nodes and puts the node last; the same loop serves `espconn_pbuf_create` |
| Lists.Delete | glue-lwip/espconn.c:106-130 | unlinks exactly the given node if it is on the list, leaves the list alone otherwise; the same loop serves `espconn_pbuf_delete` |
| DhcpServer.NodeInsert | glue-lwip/esp-dhcpserver.c:58-96 | links the node before the first larger address: the list is the old one with the node at the sorted position |
| DhcpServer.NodeRemove | glue-lwip/esp-dhcpserver.c:98-119 | unlinks exactly the given node and clears its link |
| DhcpServer.Server.ClientUpdate | glue-lwip/esp-dhcpserver.c:1127-1268 | the one-pass search and the re-linking of nodes leave pool, reply address and renew flag as the pool function says, for every argument |
| DhcpServer.Server.ClientLeave | glue-lwip/esp-dhcpserver.c:1090-1125 | the node of the binding is marked offline or unlinked as the pool function says |
| DhcpServer.Server.AddStatic | glue-lwip/esp-dhcpserver.c:127-165 | the new entry gets address start + n for n present entries, or nothing changes |
| DhcpServer.Server.CoarseTimer | glue-lwip/esp-dhcpserver.c:999-1027 | one walk that ages and unlinks nodes, then the eviction, equal one tick of the pool function |
| DhcpServer.Server.AgeNodes | glue-lwip/esp-dhcpserver.c:999-1027 | the walk that unlinks while it goes leaves exactly the survivors, in order, and their 8-bit count |
| DhcpServer.Server.KillOldest | glue-lwip/esp-dhcpserver.c:973-997 | removes the first non-head entry of least timer and marks a surviving tail offline |
| DhcpServer.Server.Stop | glue-lwip/esp-dhcpserver.c:857-876 | unlinks every node from the front and lists every client once, in order |
| DhcpServer.Server.constructor | glue-lwip/esp-dhcpserver.c:31-40 | the server starts with an empty list, no flag up and the default lease time |
| DhcpServer.Server.ParseOptions | glue-lwip/esp-dhcpserver.c:531-621 | the byte loop over the options decides as the meaning of the option list says |
| DhcpServer.Server.ParseMsg | glue-lwip/esp-dhcpserver.c:624-643 | pool, verdict, reply address and renew flag after one message are those of the message function |
| DhcpServer.Server.InitLease | glue-lwip/esp-dhcpserver.c:749-789 | keeps the configured range if it fits the address, else computes one |
| DhcpServer.Server.SetLease | glue-lwip/esp-dhcpserver.c:885-938 | stores a range exactly as the set function says; by `LeaseRange.SetAcceptsIff` exactly when the server is stopped and the range fits the soft-AP address |
| PoolProperties.GapIsLeastFree | glue-lwip/esp-dhcpserver.c:1152-1173 | the gap found while walking a sorted list is the least address nobody holds |
| PoolProperties.AssignsSmallestFree | glue-lwip/esp-dhcpserver.c:1127-1268 | with no address asked for, the client gets the smallest address of the range that no other client holds and the renew flag goes down; it is refused exactly when it is new and every address is taken |
| PoolProperties.UpdateBinds | glue-lwip/esp-dhcpserver.c:1127-1268 | an update keeps the pool sorted, in range and free of double bindings; it binds exactly the replied address to this client, ONLINE, and leaves all others' bindings |
| PoolProperties.ClaimRefusedIff | glue-lwip/esp-dhcpserver.c:1191-1265 | an asked-for address of the range is refused exactly when another client holds it ONLINE; the renew flag is set exactly when the client already holds it |
| PoolProperties.ClaimOutside | glue-lwip/esp-dhcpserver.c:1191-1265 | a claim of an address outside the range is refused exactly for an unknown client and an address that looks larger than the end; else it is bound and the pool is no longer well formed |
| PoolProperties.UpdateKeepsOkIff | glue-lwip/esp-dhcpserver.c:1127-1268 | an update keeps the pool well formed exactly when it names no address, one of the range, or one that is refused that way |
| PoolProperties.OutsideClaimDoubleBinds | glue-lwip/esp-dhcpserver.c:1152-1173 | after a claim of any address below the range on any well-formed pool, any two other clients that ask for any address both get the first address of the range, and both hold it |
| PoolProperties.OutsideClaimExample | glue-lwip/esp-dhcpserver.c:1152-1173 | a concrete range and claim for which that happens |
| PoolRuns.FullPoolRefusedIff | glue-lwip/esp-dhcpserver.c:1166-1189 | a new client of a full range that names no address, or 0.0.0.0, is turned away exactly when the range ends below .255; else it gets an address outside the range |
| PoolRuns.LeaveEffect | glue-lwip/esp-dhcpserver.c:1090-1125 | a forced leave or one of a static lease removes exactly that lease, a soft leave only marks it offline; the pool invariant stays |
| PoolRuns.LeaveOfStranger | glue-lwip/esp-dhcpserver.c:1090-1125 | a leave that names no binding changes nothing |
| PoolRuns.AddStaticKeepsOkIff | glue-lwip/esp-dhcpserver.c:127-165 | succeeds exactly for an unknown client while start + n is in the range, and keeps the invariant exactly when that address is free |
| PoolRuns.AddStaticCanDoubleBind | glue-lwip/esp-dhcpserver.c:143-146 | a concrete pool in which a static addition binds one address twice |
| PoolRuns.StaticAddsPack | glue-lwip/esp-dhcpserver.c:127-165 | on a pool that is exactly start..start+n-1 an addition appends the next address and keeps it so |
| PoolRuns.SurvivorsEffect | glue-lwip/esp-dhcpserver.c:999-1018 | on any pool with one lease per client and running timers, whatever its addresses, a tick removes exactly the dynamic leases whose timer runs out, lowers every other dynamic timer by one and leaves static leases alone; a well-formed pool stays so |
| PoolRuns.ZeroTimers | glue-lwip/esp-dhcpserver.c:1003-1008 | at a timer of 0 the countdown of a dynamic lease wraps to 2^32 - 1, a static lease goes |
| PoolRuns.KillOldestEffect | glue-lwip/esp-dhcpserver.c:973-997 | on any pool with one lease per client an eviction removes exactly one entry of least timer and marks the tail offline if it survives; a well-formed pool stays so |
| PoolRuns.TickEffect | glue-lwip/esp-dhcpserver.c:999-1027 | on any pool with one lease per client: with fewer than 8 survivors, counted modulo 256, a tick leaves just them, else exactly one further non-head entry of least timer goes; a well-formed pool stays so |
| PoolRuns.StepKeepsOkIff | glue-lwip/esp-dhcpserver.c:999-1268 | an update, leave, static addition or tick keeps the pool well formed exactly when its claim does or its slot is free |
| PoolRuns.AlwaysOkIff | glue-lwip/esp-dhcpserver.c:999-1268 | the pool stays well formed all along exactly in the runs made of such steps |
| PoolRuns.RunKeepsOk | glue-lwip/esp-dhcpserver.c:999-1268 | over every such run the pool stays strictly sorted, inside the range, with distinct clients and addresses and live timers |
| PoolRuns.RunKeepsMacs | glue-lwip/esp-dhcpserver.c:999-1268 | over every run with any arguments whatsoever no client has two leases |
| PoolRuns.RunKeepsTimers | glue-lwip/esp-dhcpserver.c:999-1268 | over every run with any arguments and a positive lease time no timer is 0 between two steps, so none wraps |
| PoolRuns.AbandonedLeaseExpires | glue-lwip/esp-dhcpserver.c:999-1027 | a dynamic lease its client does not refresh is gone once as many ticks have passed as its timer said, over every run from any pool, whatever else happens |
| PoolRuns.AssignedLeaseExpires | glue-lwip/esp-dhcpserver.c:1051-1068 | on any pool with one lease per client, what is assigned to a client that named no address, or 0.0.0.0, and then not refreshed is gone within the lease time, over every run |
| DhcpMessages.WalkOfEncoded | glue-lwip/esp-dhcpserver.c:531-580 | parsing inverts encoding: the walk over any well-formed option list, followed by anything, yields the meanings of its options |
| DhcpMessages.AnswerIs | glue-lwip/esp-dhcpserver.c:531-643 | for every option list, by the codes of RFC 2132: DISCOVER draws OFFER, REQUEST draws ACK exactly when it asks for the reply address or, asking for none, renews, and else NAK; DECLINE draws nothing but the update; RELEASE gives the address up |
| DhcpMessages.OtherTypesOnlyCompare | glue-lwip/esp-dhcpserver.c:531-621 | a message of no or another type draws ACK or NAK by its requested address, and nothing without one |
| DhcpMessages.WrongCookie | glue-lwip/esp-dhcpserver.c:624-643 | without the magic cookie nothing changes |
| DhcpMessages.DiscoverIsOffered | glue-lwip/esp-dhcpserver.c:531-643 | a DISCOVER with ciaddr 0 is offered the smallest address no other client holds, which is then bound to it alone, or 0.0.0.0 exactly when it is new and there is none |
| DhcpMessages.RequestIsAnswered | glue-lwip/esp-dhcpserver.c:531-643 | a REQUEST for an address draws ACK exactly when it is the reply address, with ciaddr 0 the smallest free one; one for none, exactly when the sender held its ciaddr before; else NAK |
| DhcpMessages.RefusedIff | glue-lwip/esp-dhcpserver.c:1127-1268 | when the update refuses a sender, as a condition on pool, client and ciaddr known before the call, for every ciaddr |
| DhcpMessages.AckIsBoundIff | glue-lwip/esp-dhcpserver.c:531-643 | whenever the verdict is ACK, the reply address is bound ONLINE to the sender alone, unless the sender is refused and asks for 0.0.0.0 or sends the broadcast address with the renew flag up, and exactly then |
| DhcpMessages.AckIsSafe | glue-lwip/esp-dhcpserver.c:531-643 | with ciaddr 0 or in range and no request for 0.0.0.0, every ACK confirms an address bound to the sender and to no other (RFC 2131 section 4.3.2) |
| DhcpMessages.StaleRenewIsAcked | glue-lwip/esp-dhcpserver.c:590-601 | on any pool a broadcast ciaddr with the renew flag still set is acknowledged with 0.0.0.0 |
| DhcpMessages.RefusedZeroIsAcked | glue-lwip/esp-dhcpserver.c:531-643 | any refused sender whose REQUEST asks for 0.0.0.0, with any other options, is acknowledged although nothing is bound |
| DhcpMessages.ReleaseFrees | glue-lwip/esp-dhcpserver.c:624-643 | after a RELEASE of the bound address neither the client nor the address is in the pool |
| DhcpMessages.ReleaseLeavesIff | glue-lwip/esp-dhcpserver.c:624-643 | after a RELEASE of any address in range the client is still known, or the address still held, exactly when another client holds it ONLINE |
| DhcpMessages.ReleaseOutside | glue-lwip/esp-dhcpserver.c:624-643 | a RELEASE of any address outside the range takes out exactly the lease the sender has, if any; one of the broadcast address changes nothing |
| DhcpMessages.ReleaseWithoutAddressBinds | glue-lwip/esp-dhcpserver.c:624-643 | after a RELEASE with ciaddr 0 the client is known exactly if it was before or some address was left for it, and is then bound to an address of the range |
| DhcpMessages.MessageKeepsOkIff | glue-lwip/esp-dhcpserver.c:624-643 | a message keeps the pool well formed exactly when its update does, it is a RELEASE, or the cookie is wrong |
| LeaseRange.FitsMeans | glue-lwip/esp-dhcpserver.c:749-770 | the code's shift and subtraction tests mean: same /24, ordered, at most 100 apart, not containing the soft-AP |
| LeaseRange.SetAcceptsIff | glue-lwip/esp-dhcpserver.c:885-938 | a lease is accepted exactly when changes are allowed and it disables, or lies in the soft-AP /24 in order over at most 100 with the soft-AP outside; it is stored, or keeps the addresses; a refusal changes nothing |
| LeaseRange.InitIs | glue-lwip/esp-dhcpserver.c:749-789 | the server starts with the configured range if it is enabled and fits, else with the hundred addresses below the soft-AP from octet 128 on, above it before |
| LeaseRange.RangeIsSound | glue-lwip/esp-dhcpserver.c:749-789 | for every soft-AP address and every configured lease the range is ordered, in the AP's /24, excludes the AP and spans at most 100; a default range also avoids octets 0 and 255 |
| LeaseRange.RangeSuitsPoolIff | glue-lwip/esp-dhcpserver.c:749-789 | the resulting range meets the assumptions of the pool theorems exactly unless a configured one ends at .255 or starts at 0.0.0.0 |
| LeaseRange.SetThenInit | glue-lwip/esp-dhcpserver.c:885-938 | a range accepted while the server is stopped is the one it starts with, and a refused one changes nothing |
| SendQueue.Connection.WriteSome | glue-lwip/espconn_tcp.c:487-511 | the lengths offered to lwIP start at the least of send buffer, data and twice the MSS, and after each ERR_MEM go down by the halving rule; it ends at the first other answer, and with ERR_MEM only after lwIP refused a single byte; what is taken is one prefix of the data or nothing |
| SendQueue.Connection.TcpSent | glue-lwip/espconn_tcp.c:467-528 | the step at the cursor writes the next unsent bytes of that payload or reports an error; flag and post follow the copy option |
| SendQueue.Connection.TcpWrite | glue-lwip/espconn_tcp.c:811-836 | the write loop keeps the queue invariant, only writes, and terminates, without an error only when all is written or the send buffer is full; unless blocked it leaves the cursor on a payload that is not wholly acknowledged; its answer is ESPCONN_MEM when blocked, else that of the last call of tcp_write or tcp_output, or ERR_OK if there was none; with room and unsent bytes there is one |
| SendQueue.RoundsEndWellIff | glue-lwip/espconn_tcp.c:487-528 | a run of the write loop ends well exactly if it made no call or its last write was accepted and put out; every accepted write is followed by its output, and an error is the answer of the call that ended the loop |
| SendQueue.Connection.BufCount | glue-lwip/espconn.c:754-765 | the length of the queue modulo 256 |
| SendQueue.Connection.EspconnSent | glue-lwip/espconn.c:373-443 | a payload is refused with ARG, MAXNUM or MEM, each in exactly its case, and nothing changes; else it is queued last, and the answer is ESPCONN_OK exactly when the write is not blocked and made no call or ended in a good tcp_output, MEM when blocked, and else that of the call that ended it; without an error everything queued is written or the send buffer is full |
| SendQueue.Connection.Complete | glue-lwip/espconn_tcp.c:851-868 | frees the head, reports its length to the application, and carries the surplus over |
| SendQueue.Connection.Finish | glue-lwip/espconn_tcp.c:844-872 | the acknowledgement loop, with callbacks that send more, terminates and leaves exactly the payloads not wholly acknowledged |
| SendQueue.Connection.Acknowledged | glue-lwip/espconn_tcp.c:882-894 | after every acknowledgement the callbacks fired are exactly the payloads whose cumulative length is acknowledged, and nothing written is lost; with unsent bytes and room lwIP is offered more |
| SendQueue.Connection.StreamAndShape | glue-lwip/espconn_tcp.c:467-528 | the invariant read out: lwIP got a prefix of the payloads in order, entries before ptail are wholly sent, those after it wholly unsent, only the head has a tot_len, freed lengths plus it are the bytes acknowledged, one post per payload |
| SendQueue.Connection.Step | glue-lwip/espconn_tcp.c:811-894 | each event does what it is for: a send that is not refused appends its payload, a refused one changes nothing, an acknowledgement that can happen credits its bytes and accepts only what the callbacks offer |
| SendQueue.Connection.Traffic | glue-lwip/espconn_tcp.c:811-894 | over every interleaving each event does that, in a trace from the first moment to the last; the bytes lwIP took are a prefix of the payloads in order, and the callbacks are the payloads wholly acknowledged, with their lengths |
| SendStream.WrittenIsPrefix | glue-lwip/espconn_tcp.c:816-836 | the bytes handed to tcp_write are a prefix of the concatenated payloads in acceptance order |
| SendStream.FiredIsCompleted | glue-lwip/espconn_tcp.c:844-872 | between acknowledgements the completed payloads are those that fit whole into the acknowledged bytes |
| SendStream.PostsMatchWritten | glue-lwip/espconn_tcp.c:513-526 | with the copy option SIG_ESPCONN_WRITE was posted once per wholly written payload, and write_flag holds exactly when nothing is unsent |
| SendStream.StepKeeps | glue-lwip/espconn_tcp.c:467-528 | every step of the send path keeps the invariant and never takes back a written byte |
| SendStream.RunIsSafe | glue-lwip/espconn_tcp.c:811-894 | over every interleaving of sends, partial writes and acknowledgements the stream stays a prefix and the callbacks match the acknowledged bytes |
| SendStream.AckLoopFrees | glue-lwip/espconn_tcp.c:851-871 | the acknowledgement loop by itself stops behind exactly the payloads that fit whole into the acknowledged bytes |
| SendStream.AckEndangersCursorIff | glue-lwip/espconn_tcp.c:850-868 | with the write loop blocked the acknowledgement loop frees the entry ptail stands on exactly when everything written is acknowledged while that entry is wholly sent |
| SendStream.CursorCanBeEndangered | glue-lwip/espconn_tcp.c:816-818 | for any payload a state in which that happens when the write loop does not run |
| RingBuffer.Ring.MemcpyInto | glue-lwip/espconn_buf.c:153-177 | for every buffer state and every count below 2^31 the contents become the longest suffix of old contents plus source that fits |
| RingBuffer.Ring.Memset | glue-lwip/espconn_buf.c:126-151 | refines appending len copies and keeping the last capacity bytes; returns the bytes written |
| RingBuffer.Ring.MemcpyFrom | glue-lwip/espconn_buf.c:179-203 | reads and drops exactly the first count bytes, or changes nothing if there are fewer |
| RingBuffer.Ring.FindChr | glue-lwip/espconn_buf.c:109-124 | the search answers the first index of the contents from the offset on that holds the byte the character is converted to, else the number of bytes used |
| RingBuffer.FindFrom | glue-lwip/espconn_buf.c:109-124 | the recursive search past the end of the buffer finds the first index, from the offset on, at which the contents lying round the buffer hold the byte, else their length |
| RingBuffer.WritesCompose | glue-lwip/espconn_buf.c:153-177 | writing xs then ys leaves what writing both at once leaves |
| RingBuffer.ChunkFitsIff | glue-lwip/espconn_buf.c:160-163 | the int comparison picks a chunk inside the segment exactly when the remaining count is below 2^31 |
| RingBuffer.WrapIsModulo | glue-lwip/espconn_buf.c:103-107 | stepping a position round the buffer is arithmetic modulo its size |
| ManualReceive.StoreChain | glue-lwip/espconn_tcp.c:568-586 | storing a pbuf chain segment by segment appends its whole payload when it fits: nothing is overwritten |
| ManualReceive.Connection.TcpRecv | glue-lwip/espconn_tcp.c:559-607 | a delivered chain is stored whole and the total announced; without a chain the connection is closed; without memory for the buffer all stays with lwIP |
| ManualReceive.Connection.EspconnRecv | glue-lwip/espconn.c:445-479 | below 2^31 hands out the oldest min(len, stored) bytes and returns their number, each error code in its case; window plus stored bytes stay within TCP_WND exactly unless a length of 2^31 or more credits more than there is room for |
| ManualReceive.AnswerMeans | glue-lwip/espconn.c:455-470 | the value returned is 0 if nothing is stored, else the number of bytes handed out cut to 16 bits, which is that number below 2^15; for a length of 2^31 or more the length so cut |
| ManualReceive.ReadMoves | glue-lwip/espconn.c:455-470 | for every length: a read below 2^31 moves the oldest bytes out and, while established, gives exactly as many back to the window; a longer one hands out nothing and credits its low 16 bits |
| ManualReceive.BogusCredit | glue-lwip/espconn.c:460-466 | a length, a window and a stored byte for which nothing is read and the window outgrows the buffer |
| ManualReceive.NothingIsStuck | glue-lwip/espconn_tcp.c:568-586 | from any state one delivery and one read that is long enough fetch every byte received |
| ManualReceive.Connection.Handle | glue-lwip/espconn_tcp.c:559-607 | an arrival, delivery, read of any length or state change leaves exactly what the view function says; the window still fits exactly unless it was a read of 2^31 bytes or more that credits more than there is room for (`ReadMoves` says what a read leaves) |
| ManualReceive.Session | glue-lwip/espconn_tcp.c:559-607 | every session in which each read of 2^31 bytes or more is harmless ends in the replay of its events; what the application read is a prefix of what TCP received and the rest is still stored |
| ManualReceive.WindowHoldsIff | glue-lwip/espconn.c:445-479 | window plus stored and waiting bytes stay within TCP_WND at every moment exactly in those sessions |
| ManualReceive.WindowConservedIff | glue-lwip/espconn.c:455-470 | window plus stored and waiting bytes equal TCP_WND at every moment exactly in the sessions whose reads each conserve them |
| ManualReceive.WindowReopens | glue-lwip/espconn.c:455-470 | while the connection stays established and reads stay below 2^31 that sum is TCP_WND, and once all is read the full window is advertised |
| GlueErrors.OnlyOkIsOk | glue-esp/lwip-esp.c:82-133 | success crosses the glue as success and nothing else does, both ways, for every code |
| GlueErrors.NamesCross | glue-esp/lwip-esp.c:82-133 | every code crosses the glue under its own name, both ways; foreign codes and ALREADY become ABRT |
| GlueErrors.EspRoundTrip | glue-lwip/lwip-git.c:90-142 | a blob's error comes back unchanged through all four translations |
| GlueErrors.GitRoundTripIff | glue-lwip/lwip-git.c:90-142 | an lwIP 2 error comes back unchanged except exactly ALREADY and foreign codes |
| WrapperPool.Pool.Block | glue-esp/lwip-esp.c:221-235 | a new block is a list of eight distinct fresh wrappers |
| WrapperPool.Pool.Get | glue-esp/lwip-esp.c:215-244 | fails exactly when the list is empty and no block can be had; hands out a wrapper not yet out; free and out add up to eight per block, and blocks stay within seven of the peak |
| WrapperPool.Pool.Release | glue-esp/lwip-esp.c:246-255 | the wrapper is free again and no longer out |
| Glue.Link.Glue2EspLinkoutput | glue-esp/lwip-esp.c:257-313 | every path returns the stated error, GLUE_ERR_IF without a link and GLUE_ERR_MEM without a wrapper, and unless OK leaves the packets in flight and the caller's extra reference as they were |
| Glue.Link.SendErrorMeans | glue-esp/lwip-esp.c:257-313 | no link is seen as IF, no wrapper as MEM, a refusal under the name of the blob's code, anything else as OK |
| Glue.Link.PbufFree | glue-esp/lwip-esp.c:682-708 | the blob's release drops exactly one reference of the wrapped pbuf and returns the wrapper |
| Glue.Link.Prepare | glue-lwip/lwip-git.c:231-258 | what is sent is one segment holding the whole packet: the packet itself with one more reference, or a copy of whose references lwIP holds none and the glue one |
| Glue.Link.NewLinkoutput | glue-lwip/lwip-git.c:231-281 | a failed clone gives MEM, no link IF, no wrapper MEM, a refusal the code of the blob's name, anything else OK; the counts balance through every path; a packet is in flight afterwards exactly when the blob kept it, and it is the whole packet |
| Glue.Link.InFlightIsAlive | glue-lwip/lwip-git.c:246-252 | a pbuf in flight has a reference beyond lwIP's own |
| Glue.Link.NothingLeaks | glue-lwip/lwip-git.c:283-287 | free plus in-flight wrappers are eight per block, within seven of the peak; once the blobs are done every count is that of the references lwIP holds |
| Glue.Step | glue-esp/lwip-esp.c:257-313 | each allocation, reference, send, blob release and link change leaves exactly what the world function says; a freed packet is neither referenced nor sent |
| Glue.FreedStaysFreed | glue-esp/lwip-esp.c:682-708 | a packet whose last reference is gone stays as it is through every event |
| Glue.Run | glue-esp/lwip-esp.c:206-313 | every run ends in the replay of its events; every packet is counted once for each reference lwIP holds and each of its flights, every copy only for its flights, and no copy survives the last flight |
| Teardown.Espconn.Unlink | glue-lwip/espconn.c:106-130 | after the deletion the message is not active and every other one is as before, whether it was active or not |
| Teardown.Espconn.Terminate | glue-lwip/espconn_tcp.c:230-399 | one terminal callback and one free; the message stays active exactly when its option was set and the callback clears it |
| Teardown.Espconn.EspconnTask | glue-lwip/espconn_tcp.c:407-453 | an event for an inactive message changes nothing; a close or error event tells and frees once; the invariant survives exactly unless the callback clears a set option |
| Teardown.Espconn.OnceEach | glue-lwip/espconn_tcp.c:407-453 | callbacks and frees coincide, none happens twice, and nothing freed is active |
| Teardown.Handle | glue-lwip/espconn_tcp.c:407-453 | each connect or posted event adds, closes, finishes or ignores exactly what the record function says; the invariant survives exactly unless it closes a connection opened with the option set whose callback clears it |
| Teardown.ClosedIff | glue-lwip/espconn_tcp.c:407-453 | in every event sequence a connection is closed exactly when a close or error was posted for it after it was opened, and then once |
| Teardown.Run | glue-lwip/espconn_tcp.c:407-453 | over every sequence of connects and posted events without such a callback, with any duplicates, exactly the connections with a close or error posted for them are freed, each told and freed once |
| UdpChunks.Connection.UdpSent | glue-lwip/espconn_udp.c:86-175 | the mutual recursion terminates, hands lwIP the datagrams of the payload and the copies for the second interface, tells the application at most once and reports the first datagram; `espconn_udp_sendto` has the same shape |
| UdpChunks.BothAlike | glue-lwip/espconn_udp.c:137-158 | where every datagram goes out on both interfaces the copies are the datagrams |
| UdpChunks.CopiesAreDoubled | glue-lwip/espconn_udp.c:137-158 | the copies are exactly the datagrams that go out on both interfaces, in order |
| UdpChunks.Connection.DataSent | glue-lwip/espconn_udp.c:53-72 | goes on with what is left, or tells the application if the last error was 0 |
| UdpChunks.Sizes | glue-lwip/espconn_udp.c:103-109 | at most ceil(n/1472) datagrams, all of 1472 bytes but the last needed; exactly that many when none is lost |
| UdpChunks.StopsAtFirstLoss | glue-lwip/espconn_udp.c:86-175 | the datagrams stop at the first loss and not before |
| UdpChunks.Pieces | glue-lwip/espconn_udp.c:86-175 | the datagrams concatenate to a prefix of the payload, and to all of it exactly when no allocation or copy fails and none but the last loses its reference |
| UdpChunks.TellsIff | glue-lwip/espconn_udp.c:53-72 | the callback runs exactly when every datagram went out and the last was sent without error |
| UdpChunks.ReplyMeans | glue-lwip/espconn_udp.c:86-175 | which loss of the first datagram gives which code |
| UdpChunks.WithoutLoss | glue-lwip/espconn_udp.c:160-175 | without loss the payload goes out whole; the caller sees the first error, the callback the last |
| Clock.DropsAreWrapsIff | glue-lwip/esp-millis.c:46-52 | the wrap count never exceeds the true number of wraps and equals it exactly when ticks are less than 2^32 us apart |
| Clock.TrailsBy | glue-lwip/esp-millis.c:63-65 | the unreduced milliseconds trail T/1000 by exactly (296 c + m)/1000 - m/1000 |
| Clock.Monotone | glue-lwip/esp-millis.c:63-65 | the unreduced milliseconds never run backwards |
| Clock.Counter.OverflowTick | glue-lwip/esp-millis.c:46-52 | the 32-bit count is the number of times a tick saw the counter go down |
| Clock.Counter.Millis | glue-lwip/esp-millis.c:55-66 | whenever the last tick and the call are less than 2^32 us apart, and all ticks before, the result is the trailing milliseconds modulo 2^32 |

## Left out

- DHCP replies: filling OFFER, ACK and NAK options and copying the packets are straight-line byte writes.
- DHCP options running past the buffer: `ReadsInside` demands of the option list what the parser does not check.
- `list_node` and its pool record are one node of the model; `dhcps_start`, the socket and the timers are not part of it.
- Allocation failure inside the DHCP server: a new lease entry is always found memory for.
- SendQueue.Connection.Acknowledged: assumes that the head's credit plus the acknowledgement stays below 65536, as the source's 16-bit `tot_len` does; lwIP's send buffer is what keeps it there.
- SendQueue.Connection.Step: an acknowledgement that would free the entry at ptail, or overflow tot_len, does not happen; the first is what `SendStream.AckEndangersCursorIff` is about.
- SendQueue.TcpPcb.TcpWrite: lwIP takes all of the data or none; which error it returns otherwise is left open.
- Freeing the queued payloads of a closing connection, `espconn_kill_oldest_pcb` and the TIME_WAIT cleanup in `espconn_tcp_disconnect_successful`.
- SendQueue.Connection.EspconnSent: the lookup of the connection and the UDP branch are not part of it.
- Several connections at once: every send queue and receive path is modelled for one connection.
- ManualReceive.Connection.TcpRecv: the error argument is left out, as lwIP delivers data with ERR_OK only; so is freeing the pbuf chain.
- ManualReceive.Session: ends before a read that breaks the window; `ManualReceive.Connection.Handle` says exactly which ones do and what they leave.
- `espconn_recv_hold` and `espconn_recv_unhold`: their window credit has no conservation law beside that of `espconn_recv`.
- Glue.Link.NewLinkoutput: a blob that refuses a packet is taken not to free it, one that accepts it to free it once; the packet capture hook is left out.
- Received packets (`ethernet_input`, `esp2glue_alloc_for_recv`) and the interface up/down propagation, whose meaning rests on lwIP callbacks.
- lwIP 2's own error values and reference width are not part of this model; its codes appear by name.
- Teardown.Espconn.EspconnTask: message identities are not reused after a free.
- UdpChunks.Connection.UdpSent: whether a datagram goes out on both interfaces is a parameter, switching the default interface is left out, and a PBUF_RAM pbuf is one segment.
- Accepting a server connection and its allocation failures.
- Keep-alive and other option setters, callback registration, DNS, IGMP, port choice, ping: easy or foreign.
- Clock.Counter.Millis: arming the 60 s timer on the first call is not modelled; the ticks may come at any time.
