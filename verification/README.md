# Verified models of the Ethernet firmware's protocols and tables

This project models, in Dafny 4.11, the parts of the Ethernet switch firmware and of its remote
clients that keep real state, and proves what they promise over every run:

- the inter-core Ethernet channel of `apps/tap`: a single-producer single-consumer ring of node
  descriptors that carries physical addresses of reference-counted pool buffers
  (`RingIndex`, `SpscQueue`, `IcQueue`, `BufPool`, `TapAddress`, `TapChannel`, `TapChannelProof`,
  `TapChannelTheorems`, `TapChannelQuiet`);
- the command request/response protocol of the remote clients (`ProxyLoop`, `ProxyProtocol`,
  `ProxyTheorems`, `ProxyMisdelivery`);
- the multicast filter with its reserved, shared and exclusive addresses, the switch's address
  table behind it and the bridge callbacks (`McastSpec`, `McastFilter`, `McastRuns`, `McastBridge`);
- the shared-memory ring for audio blocks, with its 32-bit address arithmetic (`ShmRing`,
  `ShmTheorems`);
- the transmit-channel partition (`TxPartition`), the proxy ARP table (`ArpTable`) and the
  two-point clock interpolation (`TimeCoupler`).

`Common` holds the few types and constants that several of them share, `Iteration` the repetition of
one party's steps and lists of steps. `dafny verify dfyconfig.toml` checks everything.

How it is built. Objects that the source updates in place are classes whose methods are proved
against functions on values. Concurrent protocols are state machines: `Apply` performs one load or
store of a shared variable (the receiver's decrement of a reference count that only it holds counts as
one) or one message step of one party, a step that is not enabled changes nothing, and `Run` folds a
sequence of steps. A theorem about `Run` for every sequence of steps is a theorem about every
interleaving. Fields that only record history (frames accepted, requests issued, successful
operations) are part of the states and are never read by the steps. Beside what holds in every run,
lemmas named `Quiet...` say what one party's own steps bring about when nothing disturbs them, and
lemmas named `...Exactly` when an operation succeeds and why it is refused.

Assumptions of the models:

- Queue and channel: each "increment and wrap" of head or tail is one store (the C code has a
  transient value equal to the ring size between the increment and the wrap); stores become visible
  in program order; `2 <= maxSize <= NUM_Q_NODES`; the peer of the transmit task has the shape of
  the receive task. Frames of any length are allowed; the transmitter's length assertion stops it
  on one longer than 1518 bytes.
- Command protocol: a failed send does not deliver the request; the server answers each request at
  most once and echoes its id; messages may be lost and reordered. After a failed wait the id in the
  message buffer is arbitrary.
- Multicast: only this module writes the ALE entries it manages; a refused driver call changes
  nothing; deleting a classifier also deletes the address entry it names. Port masks are sets of bits.
- Where comments and code differ the code is followed: the multicast header asks for fewer addresses
  than the table length, the code accepts as many as the table holds
  (ethremotecfg/server/src/ethfw_mcast.c:417).
- Counters, ids and reference counts are unbounded, except in the shared-memory ring, where the
  arithmetic modulo 2^32 is the point.

Findings. Where a property does not hold as one would like, the exact condition is proved:

- `TapChannelTheorems.EnqueueAssertionExactly`: the transmitter's enqueue assertion holds in every
  run if and only if the pool has at most `maxSize - 1` buffers.
- `ShmTheorems.HonestExactly`: the wrapped-case availability expression serves if and only if twice
  the start address, modulo 2^32, lies in a given interval; the placements used satisfy it.
- `ShmTheorems.HonestIffPaced`: a well placed ring is an honest queue throughout a run if and only if
  the writer stays at most n - 1 blocks ahead, which nothing in the ring checks; `OverrunRun` is a run
  from the start after which n outstanding blocks look like none.
- `ProxyMisdelivery.MisdeliveryExactly`: an accepted response need not answer its request
  (`ProxyTheorems.TwoClientsAndATimeout` is a run in which it does not). A command can go wrong in this
  way if and only if, when it begins, the first message of the mailbox that is not late passes its id
  and length check, or there is none and a request with its id, or a response that would pass, is still
  on the way.
- `McastRuns.LeaksExactly`: an exclusive add that the driver refuses after the lookup keeps its table
  slot. The stored count exceeds the successful adds minus deletes by the number of such adds
  (`ExclusiveCount`), and table and switch agree throughout a run if and only if there is none
  (`ExclusiveAgreement`); `LeakRun` is a run that shows it.
- `McastRuns.AddedIsInSwitch`: a successful exclusive add leaves the address in the switch if and only
  if the address was not in use before or was in the switch already.
- `McastBridge.CountStepExactly`: a shared count stays equal to the number of its mask bits if and only
  if the core's port is added when absent or removed when present; `DoubleAdd` is a run that breaks it.
- `McastBridge.BridgeMatchesSwitchExactly`: the bridge forwards an address that the switch has if and
  only if the mask is empty or the latest successful operation got its forwarding entry;
  `RefusedForwarding` is a run in which it did not.
- `TxPartition.PartitionExactly`: a port that asks for zero channels makes the placing loop copy every
  slot into an empty array. The partition is right after every port if and only if every such port
  follows one that gives its core a channel, or has an unset channel list; `ZeroPortSpoils` is a
  configuration in which it does not.

## Model

| member | source | states |
|---|---|---|
| `RingIndex.OccupiedIsDistance` | apps/tap/tapfirmware.c:102-109 | for fewer than m outstanding positions the index tests decide full, empty and count exactly |
| `RingIndex.SlotDistinct` | apps/tap/tapfirmware.c:135-138 | fewer than m consecutive positions occupy distinct slots, because the index wraps |
| `SpscQueue.StepKeeps` | apps/tap/tapfirmware.c:92-239 | every single load or store of producer or consumer keeps the queue invariant |
| `SpscQueue.FifoInEveryRun` | apps/tap/tapfirmware.c:92-239 | in every interleaving the nodes dequeued, followed by the nodes in the ring, are the nodes enqueued; at most maxSize - 1 are outstanding and the producer never moved tail |
| `SpscQueue.SecondCheckNeverFull` | apps/tap/tapfirmware.c:121-133 | from the first full check on the ring is never full, so the overwrite branch of "move head" is unreachable |
| `SpscQueue.PointerStaysValid` | apps/tap/tapfirmware.c:225-239 | the node behind the pointer a dequeue returned holds the dequeued values until the next dequeue, whatever is enqueued meanwhile |
| `SpscQueue.RefusalsAreHonest` | apps/tap/tapfirmware.c:202-239 | an enqueue is counted as refused exactly when maxSize - 1 nodes are outstanding, a dequeue is counted as empty exactly when none is, at that moment |
| `SpscQueue.OutcomesAreHonest` | apps/tap/tapfirmware.c:202-239 | in every run, by the history alone: a dequeue under way ends with the oldest node unless none is outstanding at that moment, an enqueue under way ends with its node appended, and one that begins gets under way unless maxSize - 1 nodes are outstanding |
| `SpscQueue.ContentsAreOutstanding` | apps/tap/tapfirmware.c:102-109 | what lies between tail and head is exactly what was enqueued and not dequeued |
| `IcQueue.IcQ.IsQFull` | apps/tap/tapfirmware.c:92-110 | true exactly when maxSize - 1 nodes are queued |
| `IcQueue.IcQ.IsQEmpty` | apps/tap/tapfirmware.c:112-118 | true exactly when no node is queued |
| `IcQueue.IcQ.GetQCount` | apps/tap/tapfirmware.c:171-192 | the number of queued nodes, except that a full ring reports maxSize |
| `IcQueue.IcQ.MoveHead` | apps/tap/tapfirmware.c:121-139 | appends the node at head; on a full ring drops the oldest first |
| `IcQueue.IcQ.MoveTail` | apps/tap/tapfirmware.c:141-150 | drops the oldest node; its slot becomes the spare one |
| `IcQueue.IcQ.Enq` | apps/tap/tapfirmware.c:202-223 | appends the node or, exactly when full, refuses and changes nothing; never touches tail or the spare slot |
| `IcQueue.IcQ.Deq` | apps/tap/tapfirmware.c:225-239 | hands out the slot of the oldest node, still holding it, or nothing exactly when empty |
| `IcQueue.IcQ.ResetQ` | apps/tap/tapfirmware.c:162-169 | leaves the queue empty |
| `IcQueue.QuietEnqueueAppends` | apps/tap/tapfirmware.c:202-223 | the atomic steps of an undisturbed enqueue have the effect promised for the queue object |
| `IcQueue.QuietDequeueTakes` | apps/tap/tapfirmware.c:225-239 | the atomic steps of an undisturbed dequeue take the oldest node and hand out its slot, or take nothing exactly when the ring is empty |
| `BufPool.BufPool.constructor` | apps/tap/tapfirmware.c:244-277 | a fresh pool: every buffer free with count zero, its payload and length cleared, statistics zero |
| `BufPool.BufPool.GetBuf` | apps/tap/tapfirmware.c:279-327 | takes the first free buffer in cyclic order from the last allocation; nothing exactly when none is free |
| `BufPool.FreeBuf` | apps/tap/tapfirmware.c:328-353 | drops a reference, frees at zero, and charges the free to the buffer's own pool and no other |
| `BufPool.Pick` | apps/tap/tapfirmware.c:287-321 | the search finds the cyclically first free buffer, and finds none exactly when all are used |
| `BufPool.GetsMinusFrees` | apps/tap/tapfirmware.c:279-353 | in every run gets plus frees of idle buffers equal frees plus buffers in use; gets minus frees is the number in use exactly when no idle buffer was freed |
| `BufPool.EveryCallCounted` | apps/tap/tapfirmware.c:279-353 | in every run every get is counted as a get or an error, and every free as a free |
| `BufPool.GetExactly` | apps/tap/tapfirmware.c:279-327 | a get is refused exactly when every buffer is in use, else it marks the cyclically first free buffer, and the next search starts at that buffer |
| `TapAddress.RoundTripIffBelow4G` | apps/tap/tapif.c:119-128 | virtual to 32-bit physical and back, also into the peer's mapping, returns the same byte exactly when its physical address is below 2^32 |
| `TapAddress.BufAtOffset` | apps/tap/tapfirmware.h:153-200 | a buffer's address in the pool table names that buffer |
| `TapAddress.BuffersDisjoint` | apps/tap/tapfirmware.h:152-200 | buffer objects hold their fields without gaps, lie in their pool and never overlap |
| `TapAddress.NodeAddressExactly` | apps/tap/tapif.c:119-128 | the address in a node is the physical base plus the offset, cut to 32 bits |
| `TapChannelProof.AddressReturns` | apps/tap/tapif.c:225-230 | the address put in a node leads the receiver to the buffer it was made from |
| `TapChannelProof.StepKeeps` | apps/tap/tapif.c:198-313 | every single step of transmit or receive task keeps the channel invariant |
| `TapChannelTheorems.DeliveredInOrder` | apps/tap/tapif.c:198-313 | in every run the frames accepted are the frames delivered, byte for byte and in order, followed by the frames in the buffers on the way; node lengths match; all copies stay in the payload; no receiver pointer is wild |
| `TapChannelTheorems.OneOwnerPerBuffer` | apps/tap/tapif.c:205-309 | in every run a buffer is in use exactly when it is in one place (transmitter, one queue node, receiver), and never in two |
| `TapChannelTheorems.PoolStatistics` | apps/tap/tapfirmware.c:279-353 | in every interleaving gets, with one not yet counted, are frees plus buffers in use plus a free just being charged |
| `TapChannelTheorems.QuietScanPicks` | apps/tap/tapfirmware.c:285-325 | the probes and stores of an undisturbed pool search take the cyclically first free buffer, and give the frame up exactly when all are used; a frame that is too long then stops the transmitter |
| `TapChannelTheorems.EnqueueNeverRefused` | apps/tap/tapif.c:234-237 | with at most maxSize - 1 buffers in the pool the enqueue succeeds in every run |
| `TapChannelTheorems.LargerPoolCanFail` | apps/tap/tapif.c:234-237 | any larger pool has a run in which the enqueue assertion fails |
| `TapChannelTheorems.EnqueueAssertionExactly` | apps/tap/tapif.c:234-237 | the enqueue assertion holds in all runs if and only if the pool has at most maxSize - 1 buffers |
| `TapChannelQuiet.FramesReadAreAccepted` | apps/tap/tapif.c:198-242 | in every run the frames read from the device, without those given up by a search that found no buffer, are the frames accepted followed by the one in the transmitter's hands |
| `TapChannelQuiet.EndToEnd` | apps/tap/tapif.c:198-313 | in every run what was read and not given up is what was delivered, then what lies in the buffers on the way, then what the transmitter holds |
| `TapChannelQuiet.PacketIds` | apps/tap/tapif.c:195-239 | in every run the nodes enqueued since the transmitter last slept carry the packet ids from 0 up |
| `TapChannelQuiet.QuietSend` | apps/tap/tapif.c:198-239 | an idle transmitter left undisturbed after reading a frame gives it up exactly when every buffer is in use; else it uses the cyclically first free buffer, stops on a frame over 1518 bytes or a full ring, and otherwise accepts exactly that frame, with a node holding physical address, length and packet id |
| `TapChannelQuiet.QuietReceive` | apps/tap/tapif.c:280-309 | an idle receiver left undisturbed delivers exactly the oldest frame on the way, frees its buffer and is idle again |
| `TapChannelQuiet.QuietPoll` | apps/tap/tapif.c:280-309 | with nothing on the way a poll changes nothing |
| `TapChannelQuiet.FrameCrosses` | apps/tap/tapif.c:198-313 | through a channel at rest any frame of 1 to 1518 bytes is delivered as it was read, and the channel is at rest again |
| `ProxyLoop.AwaitResponse` | ethremotecfg/client/src/cpsw_proxy.c:1778-1843 | the wait loop and final checks of a command, for any results of its mailbox waits, as `AwaitExactly` characterises them |
| `ProxyLoop.AwaitExactly` | ethremotecfg/client/src/cpsw_proxy.c:1778-1843 | for all wait results: still waiting exactly while every wait, failed or not, showed an id below the request's; else the first that did not ends the loop, with the status of the latest failed wait if there is one, and otherwise with acceptance unless the length differs or the id is above |
| `ProxyLoop.AcceptsExactly` | ethremotecfg/client/src/cpsw_proxy.c:1778-1843 | a response is accepted exactly when no wait failed, all earlier responses were late, and it has the request's id and the expected length |
| `ProxyLoop.FailureSticks` | ethremotecfg/client/src/cpsw_proxy.c:1782-1799 | once a wait failed the command cannot accept, even if the loop goes on and receives |
| `ProxyProtocol.ClientTable.OpenHandle` | ethremotecfg/client/src/cpsw_proxy.c:1524-1560 | takes the first free client object, or none exactly when all are in use, and starts its request ids at zero |
| `ProxyProtocol.ClientTable.CloseHandle` | ethremotecfg/client/src/cpsw_proxy.c:1546-1567 | clears the client object |
| `ProxyTheorems.StepKeeps` | ethremotecfg/client/src/cpsw_proxy.c:1749-1966 | every step of clients, channel, server and handler keeps: ids grow within a session, messages are genuine, the mutex holder's request is the latest |
| `ProxyTheorems.CommandIsAwait` | ethremotecfg/client/src/cpsw_proxy.c:1778-1848 | a command in the system waits, ends and hands out a response exactly as its receive loop says, for all wait results |
| `ProxyTheorems.QuietCommand` | ethremotecfg/client/src/cpsw_proxy.c:1749-1848 | a command whose messages are neither lost nor late accepts exactly its own answer if the length is the expected one, uses up one id and leaves mutex, mailbox and channel as they were |
| `ProxyTheorems.FailedSend` | ethremotecfg/client/src/cpsw_proxy.c:1768-1848 | a request that cannot be sent uses up its id and fails the command, with nothing on the way |
| `ProxyTheorems.ReopenRestarts` | ethremotecfg/client/src/cpsw_proxy.c:1524-1567 | closing and opening gives the first free client object, a new session and request ids from zero |
| `ProxyTheorems.AcceptedIffSameSession` | ethremotecfg/client/src/cpsw_proxy.c:1749-1848 | in every run an accepted response is the answer to that very request exactly when it comes from the same session |
| `ProxyTheorems.SingleSessionMatches` | ethremotecfg/client/src/cpsw_proxy.c:1749-1848 | with one client opened once, under any timeouts and late replies, every accepted response answers its request and no response id above the request id occurs |
| `ProxyTheorems.NoTimeoutMatches` | ethremotecfg/client/src/cpsw_proxy.c:1749-1916 | with any clients and no failed wait: mutex free implies nothing in flight and an empty mailbox, the mailbox holds at most one response, a response in the mailbox is the one the waiting client asked for, and every accepted response answers its request |
| `ProxyTheorems.TwoClientsAndATimeout` | ethremotecfg/client/src/cpsw_proxy.c:1796-1836 | a run with two clients and one timeout in which a client accepts the other's response |
| `ProxyMisdelivery.MisdeliveryExactly` | ethremotecfg/client/src/cpsw_proxy.c:1749-1848 | in any state of any run: a command about to begin can end up accepting a response that is not its answer if and only if the first mailbox message that is not late passes its checks, or there is none and a request with its id or a passing response is in flight |
| `McastFilter.McastObj.Init` | ethremotecfg/server/src/ethfw_mcast.c:202-234 | tables and status after initialisation, whatever they held: the configuration if all addresses are multicast and fit, else empty tables and a failure; all exclusive slots free |
| `McastRuns.InitExactly` | ethremotecfg/server/src/ethfw_mcast.c:202-234 | initialisation succeeds exactly when both tables fit and hold multicast addresses only; what the tables, the port mask and the exclusive slots then hold, and what after a failure |
| `McastFilter.McastObj.LoadShared` | ethremotecfg/server/src/ethfw_mcast.c:409-472 | accepts exactly tables that fit and hold multicast addresses only, with counts zero; else leaves none |
| `McastFilter.McastObj.LoadRsvd` | ethremotecfg/server/src/ethfw_mcast.c:474-531 | accepts exactly tables that fit and hold multicast addresses only; else leaves none |
| `McastFilter.McastObj.IsRsvdMcast` | ethremotecfg/server/src/ethfw_mcast.c:533-553 | whether the address is reserved on the VLAN |
| `McastFilter.McastObj.GetSharedMcastInfo` | ethremotecfg/server/src/ethfw_mcast.c:555-574 | the first shared entry with the address |
| `McastFilter.McastObj.GetExclusiveMcastInfo` | ethremotecfg/server/src/ethfw_mcast.c:576-596 | the first entry in use with the address |
| `McastFilter.McastObj.FilterAddMacShared` | ethremotecfg/server/src/ethfw_mcast.c:598-648 | new tables, switch and bridge of a shared add, with any driver outcome |
| `McastFilter.McastObj.FilterDelMacShared` | ethremotecfg/server/src/ethfw_mcast.c:650-703 | new tables, switch and bridge of a shared delete, with any driver outcome |
| `McastFilter.McastObj.FilterAddMacExcl` | ethremotecfg/server/src/ethfw_mcast.c:705-828 | new tables and switch of an exclusive add; the slot is kept when a driver call fails |
| `McastFilter.McastObj.FilterDelMacExcl` | ethremotecfg/server/src/ethfw_mcast.c:362-386 | new tables and switch of a delete by the owner, the count restored when the driver refuses |
| `McastFilter.McastObj.FilterAddMac` | ethremotecfg/server/src/ethfw_mcast.c:241-316 | new tables, switch, bridge and status of an add, over all classes and failures; the exclusive table stays sound |
| `McastFilter.McastObj.FilterDelMac` | ethremotecfg/server/src/ethfw_mcast.c:318-407 | new tables, switch, bridge and status of a delete, over all classes and failures; the exclusive table stays sound |
| `McastFilter.BridgeApp.FilterAddMacSharedCb` | apps/app_remoteswitchcfg_server/main.c:2044-2091 | sets the core's port in the address's mask and renews its forwarding entry |
| `McastFilter.BridgeApp.FilterDelMacSharedCb` | apps/app_remoteswitchcfg_server/main.c:2095-2145 | clears the core's port and renews the forwarding entry, or removes it when the mask is empty |
| `McastRuns.ExclusiveTableSound` | ethremotecfg/server/src/ethfw_mcast.c:228-393 | in every run with any failures: one entry in use per address, never a shared address, free exactly when the count is zero |
| `McastRuns.OnlyOwnerFrees` | ethremotecfg/server/src/ethfw_mcast.c:280-393 | in every run an entry in use keeps address and owner, only a successful delete by the owner frees it, other ports' operations on it fail and change nothing |
| `McastRuns.ExclusiveAddExactly` | ethremotecfg/server/src/ethfw_mcast.c:241-316 | an add of an exclusive address succeeds exactly when it is not reserved and either the port owns it already, or it is unused, absent from the switch, a slot is free and lookup and both driver calls succeed; each refusal has its own exact condition |
| `McastRuns.FirstAddLeaves` | ethremotecfg/server/src/ethfw_mcast.c:749-866 | after a first add: an entry of the port with count one, the host bit and the MAC port's or all switch ports' bits in the switch, and the classifier on that ingress port or on any |
| `McastRuns.ExclusiveDeleteExactly` | ethremotecfg/server/src/ethfw_mcast.c:318-407 | a delete of an exclusive address succeeds exactly when it is not reserved, the port owns it, and the count is above one or the driver accepts the removal; each refusal has its own exact condition |
| `McastRuns.LeaksExactly` | ethremotecfg/server/src/ethfw_mcast.c:705-828 | an operation fails and still changes the exclusive table exactly when it adds an address that is not reserved, shared, in use or in the switch, a slot is free, the lookup works, and the driver refuses the address or the classifier |
| `McastRuns.ExclusiveCount` | ethremotecfg/server/src/ethfw_mcast.c:280-393 | in every run the stored count is the owner's successful adds minus deletes plus the adds that met the leak condition, so it is adds minus deletes exactly when there was none |
| `McastRuns.AgreementStep` | ethremotecfg/server/src/ethfw_mcast.c:749-866 | a step keeps table, address entry and classifier in agreement exactly when it does not meet the leak condition for the address |
| `McastRuns.ExclusiveAgreement` | ethremotecfg/server/src/ethfw_mcast.c:705-866 | for an address that the switch initially has neither as an entry nor in a classifier: address entry and classifier exist exactly while the entry is in use, throughout a run, if and only if no operation of the run meets the leak condition for the address |
| `McastRuns.LeakRun` | ethremotecfg/server/src/ethfw_mcast.c:770-825 | a run from an initial state in which a refused add leaves a used entry without an address in the switch, the count is off by one, and the owner's next add still reports success |
| `McastRuns.AddedIsInSwitch` | ethremotecfg/server/src/ethfw_mcast.c:280-316 | after a successful exclusive add the switch has the address exactly when it was not in use before or the switch had it already |
| `McastRuns.DeleteUndoesAdd` | ethremotecfg/server/src/ethfw_mcast.c:241-407 | if table and switch agree on the address: after a successful exclusive add an accepted delete by the same port restores the switch and every stored count |
| `McastRuns.SharedCount` | ethremotecfg/server/src/ethfw_mcast.c:598-703 | in every run with any failures a shared count is successful adds minus deletes, and the switch has the entry, with the configured mask, exactly while it is positive |
| `McastRuns.SharedOutcomeExactly` | ethremotecfg/server/src/ethfw_mcast.c:598-703 | an add of a shared address succeeds exactly when its count is positive or the driver accepts the address, a delete exactly when the count is above one, or one and the driver accepts the removal; the status of each refusal |
| `McastRuns.BalancedSharedGone` | ethremotecfg/server/src/ethfw_mcast.c:598-703 | in every run successful deletes equal adds exactly when the count is zero, and exactly then the switch does not have the address |
| `McastBridge.CountStepExactly` | apps/app_remoteswitchcfg_server/main.c:2052-2139 | a successful operation keeps the count equal to the number of mask bits exactly when it adds a port that is absent from the mask or removes one that is present |
| `McastBridge.InStepIffAlternating` | apps/app_remoteswitchcfg_server/main.c:2052-2139 | a successful operation keeps count and mask in step with the cores that hold the address exactly when the core adds what it does not hold or deletes what it holds, whatever the forwarding calls do |
| `McastBridge.CountIsMaskBits` | apps/app_remoteswitchcfg_server/main.c:2044-2145 | in every run in which the cores using an address have distinct ports and alternate adds and deletes of it, the count is the number of mask bits and the mask is the ports of the holders |
| `McastBridge.ForwardingExactly` | apps/app_remoteswitchcfg_server/main.c:2052-2139 | in every run the bridge has a forwarding entry, with the mask, exactly when the mask is not empty and the latest successful operation on the address got its entry |
| `McastBridge.BridgeMatchesSwitchExactly` | apps/app_remoteswitchcfg_server/main.c:2052-2139 | in alternating runs bridge entry and switch entry exist together exactly when the mask is empty or the latest successful operation got its forwarding entry |
| `McastBridge.RefusedForwarding` | apps/app_remoteswitchcfg_server/main.c:2052-2091 | a run of one add, whose forwarding entry is refused, after which the switch has the address and the bridge does not forward it |
| `McastBridge.DoubleAdd` | apps/app_remoteswitchcfg_server/main.c:2052-2091 | a run in which one core adds an address twice: count two and one mask bit, and after one delete the switch still has the address while the bridge no longer forwards it |
| `McastBridge.SharedDeleteUndoesAdd` | apps/app_remoteswitchcfg_server/main.c:2044-2145 | after a successful shared add an accepted delete by the same core succeeds and restores tables and switch, and the mask exactly if the core's port was not in it |
| `McastBridge.BalancedGone` | apps/app_remoteswitchcfg_server/main.c:2044-2145 | after as many successful deletes as adds the switch does not have the address, nor does the bridge unless a bit is left in its mask, which cannot be in an alternating run |
| `McastBridge.PortOfCore` | apps/app_remoteswitchcfg_server/main.c:2052-2070 | a core sets the bit of its configured port, bit zero if it has none |
| `ShmRing.ShmObj.InitShm` | apps/app_remoteswitchcfg_server/sitara/ethfw_avtp.c:269-283 | an empty ring over a cleared area whose size is floored to whole blocks |
| `ShmRing.ShmObj.ShmRead` | apps/app_remoteswitchcfg_server/sitara/shm_cirbuf.c:141-190 | result, address and error counters of a read, with availability and end check modulo 2^32 |
| `ShmRing.ShmObj.ShmWrite` | apps/app_remoteswitchcfg_server/sitara/shm_cirbuf.c:243-272 | data, address and error counter of a write, with the end check modulo 2^32, which never looks at the reader |
| `ShmRing.CopyStaysInside` | apps/app_remoteswitchcfg_server/sitara/shm_cirbuf.c:141-272 | when the end check passes, the bytes copied lie inside the area exactly when the call is not one of those excluded from the model |
| `ShmRing.ReadOutcome` | apps/app_remoteswitchcfg_server/sitara/shm_cirbuf.c:141-190 | which bytes a read gets, when it is refused and what it counts; without the magic number it moves no address |
| `ShmRing.WriteOutcome` | apps/app_remoteswitchcfg_server/sitara/shm_cirbuf.c:243-272 | which bytes a write changes and when it is refused; without the magic number it changes nothing |
| `ShmRing.DataSizeExactly` | apps/app_remoteswitchcfg_server/sitara/ethfw_avtp.c:269-283 | the data area is the largest number of whole blocks beside the control block |
| `ShmTheorems.WrappedReadsExactly` | apps/app_remoteswitchcfg_server/sitara/shm_cirbuf.c:152-162 | a block can be read in every wrapped state exactly when the placement condition holds |
| `ShmTheorems.FirmwarePlacements` | apps/app_remoteswitchcfg_server/sitara/ethfw_avtp.c:185-187 | the rings set up hold 682, 680 and 1364 blocks of 192 bytes and satisfy the condition; one at 0x1000 would not |
| `ShmTheorems.BlocksInOrder` | apps/app_remoteswitchcfg_server/sitara/shm_cirbuf.c:141-272 | well placed, writer at most n - 1 blocks ahead: in every run writes stay inside and count no error, blocks come out in order, a read succeeds exactly when a block is outstanding |
| `ShmTheorems.HonestExactly` | apps/app_remoteswitchcfg_server/sitara/shm_cirbuf.c:141-272 | reads are right in all such runs if and only if the placement condition holds |
| `ShmTheorems.OverrunLooksEmpty` | apps/app_remoteswitchcfg_server/sitara/shm_cirbuf.c:250-263 | a write with n - 1 blocks outstanding makes the ring look empty |
| `ShmTheorems.OverrunRun` | apps/app_remoteswitchcfg_server/sitara/shm_cirbuf.c:243-272 | from the start n blocks written and none read make a run whose next read is refused with n blocks outstanding |
| `ShmTheorems.HonestIffPaced` | apps/app_remoteswitchcfg_server/sitara/shm_cirbuf.c:141-272 | for a well placed ring every look of the reader during a run gets the next block, or nothing exactly when none is outstanding, if and only if the writer stays at most n - 1 blocks ahead |
| `TxPartition.CoreTable.GetCoreDmaResIndex` | ethremotecfg/server/src/ethfw_api.c:793-808 | the first table entry with the core id, or the table length |
| `TxPartition.CoreTable.ResetTxCh` | ethremotecfg/server/src/ethfw_api.c:543-550 | every channel slot of every core is unset, nothing else changes |
| `TxPartition.CoreTable.SetTxChRmInfo` | ethremotecfg/server/src/ethfw_api.c:770-791 | the placing loop on one core's array |
| `TxPartition.CoreTable.UpdateEnetRm` | ethremotecfg/server/src/ethfw_api.c:823-830 | the ports are served in order, each by its own core |
| `TxPartition.CoreTable.ResetCounts` | ethremotecfg/server/src/ethfw_api.c:1212-1218 | the counts of cores that have ports return to zero |
| `TxPartition.SetTxExactly` | ethremotecfg/server/src/ethfw_api.c:776-790 | what the placing loop does for any count: appends, cut off at the end; a zero count leaves an array alone only if its first slot is set, else copies every slot |
| `TxPartition.PartitionExactly` | ethremotecfg/server/src/ethfw_api.c:770-830 | with channel lists that fit, the partition is right after every port exactly when each port without channels comes after one that gives its core a channel or has an unset list |
| `TxPartition.ZeroPortSpoils` | ethremotecfg/server/src/ethfw_api.c:770-830 | one port that asks for no channel but lists one: its core ends with that channel and a count of zero |
| `TxPartition.PartitionIsConcatenation` | ethremotecfg/server/src/ethfw_api.c:770-830 | unless a port without channels does harm, each core's array is the concatenation, in port order, of its ports' channels, with matching channel, flow and address counts |
| `TxPartition.PartitionDisjoint` | ethremotecfg/server/src/ethfw_api.c:770-830 | distinct channels in the configuration never end up in two cores |
| `TxPartition.ReinitialiseSame` | ethremotecfg/server/src/ethfw_api.c:1212-1218 | initialise, de-initialise, initialise with the same ports gives the same partition |
| `ArpTable.Arp.constructor` | ethremotecfg/server/src/ethfw_arp.c:142-165 | the empty map |
| `ArpTable.Arp.GetHwAddr` | ethremotecfg/server/src/ethfw_arp.c:179-207 | the map's value for the key, or none |
| `ArpTable.Arp.AddAddr` | ethremotecfg/server/src/ethfw_arp.c:209-280 | binds the key; group addresses are refused; no room exactly when the key is new and 16 keys are bound |
| `ArpTable.Arp.DelAddr` | ethremotecfg/server/src/ethfw_arp.c:282-314 | unbinds the key; fails exactly when it is not bound |
| `ArpTable.Arp.GetUseCnt` | ethremotecfg/server/src/ethfw_arp.c:316-334 | the size of the map |
| `ArpTable.ModelPut` | ethremotecfg/server/src/ethfw_arp.c:232-267 | storing an entry at the key's slot or a free slot is the map update, keys stay unique |
| `ArpTable.ModelDrop` | ethremotecfg/server/src/ethfw_arp.c:297-304 | freeing an entry removes its key, keys stay unique |
| `ArpTable.ModelSize` | ethremotecfg/server/src/ethfw_arp.c:323-329 | the number of entries in use is the number of keys bound |
| `ArpTable.NoGroupBound` | ethremotecfg/server/src/ethfw_arp.c:218-227 | no multicast MAC and no IPv4 host group address is ever bound |
| `ArpTable.GroupAddresses` | ethremotecfg/server/src/ethfw_arp.c:218-227 | refused are the addresses 224.0.0.0 to 239.255.255.255 and hardware addresses with an odd first byte |
| `TimeCoupler.CalculateRateAndOffset` | ethremotecfg/client/src/ts_coupler_client.c:307-339 | the line through the first two valid tuples, none if there are fewer, undefined if their system times coincide |
| `TimeCoupler.TwoPointLine` | ethremotecfg/client/src/ts_coupler_client.c:318-337 | for increasing tuples the line maps both system times to their PHC times and is strictly increasing |
| `TimeCoupler.RecoversCommonLine` | ethremotecfg/client/src/ts_coupler_client.c:318-337 | if all valid tuples lie on one line, exactly that line is computed |
| `TimeCoupler.UnchangedExactly` | ethremotecfg/client/src/ts_coupler_client.c:307-339 | nothing is computed exactly when there are no two entries with both times taken |
| `TimeCoupler.UndefinedExactly` | ethremotecfg/client/src/ts_coupler_client.c:318-337 | the division is by zero exactly when the system times of the first two such entries coincide |
| `TimeCoupler.SynchronizedTimeMonotone` | ethremotecfg/client/src/ts_coupler_client.c:341-358 | the synchronised time, cast to 64 bits as in the source, equals the PHC time at both tuples, is defined between them and never goes back where it is defined |

## Left out

- The TAP device, memory mapping, threads and error returns of read and write in `apps/tap/tapif.c`: I/O.
- The transmit and receive tasks appear as interleaved steps rather than as Dafny loops, because they run concurrently on shared memory; the per-wakeup frame limit only bounds how many steps come before a sleep.
- The magic-number assertions, the reserved node word and the queue and pool ids: constant during a run.
- The QNX branch, heartbeat and notification tasks and the per-command wrappers of `ethremotecfg/client/src/cpsw_proxy.c`: operating-system plumbing or marshalling; tokens are represented by the client and session.
- ProxyLoop.AwaitResponse: termination of the wait loop is not claimed, because after a failed wait the loop may spin on a stale id; the loop is modelled on a finite list of wait results.
- The multicast table dump, and running without the bridge callbacks: with an empty bridge table the callbacks do nothing.
- The VEPA branches of the multicast code: they rest on code that is not part of this model.
- ShmRing.ShmObj.ShmRead and ShmRing.ShmObj.ShmWrite: exclude only the calls whose address sum wraps past 2^32 and then passes the end check; the copy of the source would leave the area (`ShmRing.CopyStaysInside`).
- Writes of a length other than one block in the runs of the shared-memory ring: the runs are about a producer of whole blocks; `ShmRing.ShmObj.ShmWrite` itself takes any length.
- Cache write-back and concurrent access inside one read or write of the shared-memory ring: each operation is one step.
- The pointer-returning variants of the shared-memory ring: same control flow as read and write.
- The MAC-port masks, VLAN setup and MAC address pool sizing of `ethremotecfg/server/src/ethfw_api.c`: driver configuration.
- TxPartition.CoreTable.UpdateEnetRm and TxPartition.CoreTable.ResetCounts: require every port's core to be in the table; the source would index past its table otherwise.
- The mutex and raw ARP transmission of `ethremotecfg/server/src/ethfw_arp.c`: operations are modelled as atomic, transmission is I/O.
- TimeCoupler.SynchronizedTimeMonotone: where the cast is undefined nothing is promised; exact arithmetic instead of floating point; rounding and the tuple ring's wrap are not modelled.
- Overflow of 32-bit counters, request ids and reference counts.
