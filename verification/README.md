# wsvpn: data path, switches, admission, negotiation and framing, verified

A Dafny model of the parts of wsvpn that carry and protect its state: cutting packets into
datagrams and putting them together again, the learning MAC switch, the admission of
connections with their slots, addresses and per-user limits, the version exchange and closing
of a socket, and the frames of the WebTransport control stream. `dafny verify dfyconfig.toml`
checks all of it.

Objects that the program updates in place are classes here (`Sender`, `WebTransportAdapter`,
`Receiver`, `FragmentsInfo`, `Cache`, `MACSwitch`, `IPSwitch`, `Server`, `NegotiatingSocket`,
`Socket`, `WebTransportStream`). Their methods keep the source's loops and 16-bit arithmetic, and
each is proved equal to a function on values. The `*Runs` and theorem modules then speak about
all sequences of such steps.

| files | part |
|---|---|
| `MachineInts.dfy` | Go's unsigned integers with their wrap-around |
| `Fragmentation.dfy`, `FragmentSender.dfy` | wire format, sending and resending |
| `Reassembly.dfy`, `ReassemblyRuns.dfy`, `ReassemblyFailures.dfy` | receiving, with losses, reordering, repeats and expiry |
| `RoundTrip.dfy`, `Arrivals.dfy`, `Resend.dfy`, `Session.dfy` | both ends together: one packet, one packet sent again, many packets |
| `LruCache.dfy`, `MacSwitch.dfy`, `MacSwitchRuns.dfy`, `MacSwitchUse.dfy` | the MAC switch |
| `VpnNet.dfy`, `IpSwitch.dfy`, `Admission.dfy`, `AdmissionRuns.dfy`, `AdmissionTheorems.dfy` | admission |
| `Negotiation.dfy` | version exchange |
| `SocketLifecycle.dfy` | up, down and close |
| `StreamFraming.dfy` | control stream |

## Where the code does not do what it promises

Each of these has a lemma with the exact condition, a concrete run, or both.

- Packets of 1 to 65535 bytes are promised to be sendable. Whether one comes out at the far end
  is decided by `Fragmentation.Sendable` (`RoundTrip.RoundTripExactly`): 65535 bytes never,
  because the length plus one is 0 in 16 bits; a fragment loop whose end passes 65535 slices
  backwards and panics; a limit of 5 divides by zero and a smaller one wraps around and is refused
  by the adapter; more than 128 fragments are misread, because the index has 7 bits. At the
  starting limit of 1184 the largest packet is 64845 bytes.
- Packet ids are reduced modulo 255, not 256, so two packets can share one: counters 256 and 511
  do (`Fragmentation.WireIdsRepeat`), and fragments of such packets can be mixed
  (`RoundTrip.SharedWireIdMixes`). Two incomplete packets under one id always go wrong when just
  their missing fragments arrive (`ReassemblyFailures.MixedPacketsGoWrong`). Packets under way
  near each other in counter values are never mixed (`ReassemblyRuns.WindowNeverMixes`).
- A fragment repeated after its packet is complete opens a new group, and a packet all of whose
  fragments are repeated is passed up twice (`ReassemblyFailures.RepeatedPacketComesTwice`). When
  the receiver does what it should at every point of a run is the subject of
  `ReassemblyRuns.FollowsThroughoutExactly`: if there is neither mixing nor such a repeat, and, with
  no two fragments arriving at the same time, only then.
- An attempt that has sent its fragment 128 has sent the marker of a whole packet, and a complete
  last attempt can share its wire id with an attempt that was given up before, as when the counter
  wraps (`Resend.WrapIntrudes`). A packet that is sent again comes out at most once, and nothing
  else does, if and only if neither has happened (`Resend.ResendDeliversAtMostOnceExactly`).
- The version message is sent by a goroutine of its own, so the server's init command can overtake
  it. A client that does not know the version yet then lists fragmentation although it should not,
  and the two ends read data messages differently (`NegotiationRuns.OvertakenRunDisagrees`;
  exactly when: `NegotiationRuns.ProcessedAgreesExactly`).
- A connection closed between its admission and its registration registers all the same and is
  never unregistered, as its deferred close does nothing: its address stays in the table after its
  slot is free (`AdmissionTheorems.StaleEntryRun`; exactly when:
  `AdmissionTheorems.StaleEntryExactlyIfRegisteredLate`,
  `SocketLifecycle.StaysRegisteredExactly`).
- One client more is admitted than the client count of the subnet says, and the last one gets the
  broadcast address (`VpnNet.SlotAddresses`).
- A control message cut short by the end of the stream is reported as an orderly end: the `break`
  leaves the switch only, and the next read overwrites the error
  (`StreamFraming.WebTransportStream.ServeStream`).

Two theorems have a condition that the callers meet, as each socket is served once: registering
keeps the MAC switch's tables in agreement exactly if the socket owns no address
(`MacSwitchRuns.RegisterKeepsExactly`), and the event trace is well formed exactly if `Serve` gets
to its end at most once before the first close (`SocketLifecycle.NoticesWellFormedExactly`).

One part rests on an assumption about a library that is not part of the repository: where
golang-lru refuses to create a cache, because no address is allowed per connection, it is taken to
return nil along with the error. The MAC switch stores what is returned without looking at the
error (server/macswitch/packet_handler.go:86). Under that assumption the next configuration update
or clean-up panics, and `MacSwitchRuns.PanicsExactly` says when; with a library that returns an
unusable cache instead, already the close that follows the error panics. Nothing else depends on
it: with positive limits every cache is present (`MacSwitchRuns.PositiveLimitsNeverPanic`).

## Model

| member | source | states |
|---|---|---|
| `Fragmentation.SameWireId` | shared/sockets/data_message.go:191-202 | two 32-bit counters get the same wire id if and only if their four bytes agree pairwise modulo 255 |
| `Fragmentation.ByteSums` | shared/sockets/data_message.go:199-202 | the k-th id byte is the sum of the counter's bytes from k on, modulo 255, as each is taken from the whole shifted counter |
| `Fragmentation.NearbyCountersShareOnlyAtWrap` | shared/sockets/data_message.go:191-202 | fewer than 255 increments apart, counters share a wire id only around the wrap from 2^32 - 1 to 0 |
| `Fragmentation.WireIdsRepeat` | shared/sockets/data_message.go:199-202 | a pair of distinct counters with one wire id |
| `Fragmentation.CutMakesPacket` | shared/sockets/data_message.go:203-221 | the fragment bodies in index order are the packet |
| `Fragmentation.CutInPieces` | shared/sockets/data_message.go:193-226 | a packet that does not fit whole has at least two pieces, none empty, together the packet, however many there are |
| `Fragmentation.FlagReadsBack` | shared/sockets/data_message.go:206-210 | of fragments 0 to 127, index and last bit read back from the first byte, which is never the marker of a whole packet |
| `Fragmentation.FramedReadsBack` | shared/sockets/data_message.go:82-84 | the receiver's parse of a fragment gives the sender's index, last bit, wire id and body |
| `Fragmentation.FragmentedDatagrams` | shared/sockets/data_message.go:193-226 | a fragmented packet becomes 2 to 128 datagrams within the limit, none with an empty body, none marked whole, together the packet |
| `Fragmentation.SendableUpTo` | shared/sockets/data_message.go:181-229 | the sizes sendable under a limit are exactly those up to a threshold given by the 7-bit index and the 16-bit arithmetic |
| `Fragmentation.SendableAtDefaultLimit` | shared/sockets/adapters/webtransport.go:95-100 | under the starting limit, exactly the packets of 1 to 64845 bytes |
| `Fragmentation.IndexFitsFromLimit517` | shared/sockets/data_message.go:193-218 | from a limit of 517 on, absence of 16-bit overflow alone bounds the count by 127 |
| `FragmentSender.SixteenBitBounds` | shared/sockets/data_message.go:216-220 | the 16-bit start of a fragment is the true one, and the end is too, unless it wraps to below the start, which only the last fragment's can |
| `FragmentSender.WebTransportAdapter.RefreshFeatures` | shared/sockets/adapters/webtransport.go:95-100 | the limit is set back to 1184 |
| `FragmentSender.WebTransportAdapter.WriteDataMessage` | shared/sockets/adapters/webtransport.go:254-274 | for each answer of the network: which error, whether the datagram went out, and that the limit changes exactly with the retry error, to the reported size in 16 bits |
| `FragmentSender.Sender.MakeFragment` | shared/sockets/data_message.go:204-221 | one round of the loop makes the intended datagram, or panics exactly if the fragment's true end is above 65535, which only the last can |
| `FragmentSender.Sender.WriteFragment` | shared/sockets/data_message.go:203-226 | one fragment goes out, or the attempt ends, for which reason of the network's or the arithmetic's |
| `FragmentSender.Sender.SendAll` | shared/sockets/data_message.go:203-228 | the wire grows by a prefix of the packet's datagrams, all of them exactly if the answer is success; how the network's answers led to the end (`EndedAs`) |
| `FragmentSender.Sender.WriteWhole` | shared/sockets/data_message.go:184-189 | the same for a packet in one datagram |
| `FragmentSender.Sender.WriteFragments` | shared/sockets/data_message.go:193-228 | the same from the limit on, with the panic of a zero divisor |
| `FragmentSender.Sender.WritePacketFragmented` | shared/sockets/data_message.go:181-229 | one attempt: what it puts on the wire, the counter it takes, how it ends in terms of the network's answers, and for a network that accepts everything exactly when it succeeds and exactly when it panics |
| `FragmentSender.Sender.WriteUntilFinal` | shared/sockets/data_message.go:168-178 | the retry loop ends, the limit being its measure, and only on an attempt that did not reduce the limit, with that attempt's limit and answer; limits fall, counters are consecutive, all earlier attempts were given up; success, with all datagrams under the final limit at the end of the wire, on every network that accepts or names ever lower limits under which the packet is sendable |
| `FragmentSender.Sender.WritePacket` | shared/sockets/data_message.go:147-179 | all branches: ignored before the exchange and after closing; unfragmented, which answer in which case, and what becomes of wire, calls and limit; size error; or the attempts as above, with success on a helpful network; errors that close the socket |
| `FragmentSender.NextAttempt` | shared/sockets/data_message.go:169-177 | an attempt after given-up ones keeps the log's laws and adds its sent datagrams to the wire |
| `FragmentSender.HelpfulStep` | shared/sockets/data_message.go:169-177 | on a helpful network an attempt succeeds, or reduces the limit to one under which the network is still helpful |
| `Reassembly.FragmentsInfo.Add` | shared/sockets/data_message.go:96-102 | a fragment is stored under its index, the time renewed, the last index noted |
| `Reassembly.Receiver.ProcessPacket` | shared/sockets/data_message.go:29-55 | an empty packet is refused, any other is passed up; the answer is the handler's, or the interface's where the handler leaves the packet to it |
| `Reassembly.Receiver.HandleDataMessage` | shared/sockets/data_message.go:57-117 | for every message and state: the new buffer, what is passed up, and the answer |
| `Reassembly.RefusedExactly` | shared/sockets/data_message.go:67-80 | a message is refused, without effect, if and only if it is too short for what its first byte says |
| `Reassembly.Receiver.StoreFragment` | shared/sockets/data_message.go:86-116 | the group is passed up and dropped once its count matches its last index, and kept otherwise |
| `Reassembly.Receiver.PassUpGroup` | shared/sockets/data_message.go:104-113 | the group is dropped and its bodies are passed up, joined |
| `Reassembly.Receiver.Assemble` | shared/sockets/data_message.go:108-112 | bodies are joined in index order |
| `Reassembly.Receiver.CleanupFragments` | shared/sockets/data_message.go:130-145 | exactly the groups not touched for more than 30 seconds are dropped |
| `ReassemblyRuns.CountingDecides` | shared/sockets/data_message.go:104-104 | n distinct indices below n are all of them, so counting decides completion |
| `ReassemblyRuns.ReceiveOne` | shared/sockets/data_message.go:86-116 | a fragment of an incomplete packet completes it exactly if it was the last missing one |
| `ReassemblyRuns.ReceiverFollowsJudgement` | shared/sockets/data_message.go:57-145 | over all runs with loss, reordering, interleaving, repeats before completion, shared wire ids and clean-ups, without late repeats and mixing, the buffer holds exactly the live fragments of the incomplete packets and what was passed up is exactly what was due |
| `ReassemblyRuns.LateRepeatDeparts` | shared/sockets/data_message.go:86-106 | a fragment repeated between completion and expiry, with no incomplete packet under its wire id, leaves a group that should not be there |
| `ReassemblyRuns.MixingDeparts` | shared/sockets/data_message.go:87-106 | a fragment that arrives while another packet under its wire id is incomplete drops that packet's group or renews its time, so that the group is no longer what it should be |
| `ReassemblyRuns.FollowsThroughoutExactly` | shared/sockets/data_message.go:86-106 | the receiver does what is due at every point of a run if neither happens, and only if, where no two fragments arrive at the same time |
| `ReassemblyFailures.MixedPacketsGoWrong` | shared/sockets/data_message.go:86-113 | two incomplete packets of at most 128 pieces under one wire id: when just their missing fragments arrive, each once, deliveries are at some point not what is due |
| `ReassemblyFailures.MixedArrivalLeavesTwo` | shared/sockets/data_message.go:86-102 | a mixed arrival meets or leaves two such packets |
| `ReassemblyFailures.LostAfterwards` | shared/sockets/data_message.go:104-113 | an incomplete packet whose group is gone is lost, though all its fragments arrive |
| `ReassemblyFailures.RepeatedPacketComesTwice` | shared/sockets/data_message.go:87-113 | a packet whose fragments all arrive again before it expires is passed up a second time, though not due |
| `ReassemblyRuns.WindowNeverMixes` | shared/sockets/data_message.go:191-202 | packets are never mixed, however many a run has, if those incomplete at any arrival are fewer than 255 increments modulo 2^32 from the arriving one and not its partner at the wrap |
| `ReassemblyRuns.OwnKeysNeverMix` | shared/sockets/data_message.go:84-94 | nor are packets under pairwise different wire ids |
| `ReassemblyRuns.RunsDeliverOnlyWhatWasSent` | shared/sockets/data_message.go:57-145 | with each fragment arriving at most once and no mixing, what is passed up are fragmented packets all of whose fragments arrived, each at most once, and packets that arrived in one piece |
| `ReassemblyRuns.DeliveredWhenLastMissingArrives` | shared/sockets/data_message.go:104-112 | an arrival passes the packet up exactly if all its fragments are now live |
| `ReassemblyRuns.DeliveredOnce` | shared/sockets/data_message.go:104-112 | no packet is due twice |
| `ReassemblyRuns.DatagramReadsBack` | shared/sockets/data_message.go:72-84 | a fragment's datagram acts on the receiver as that fragment of that packet |
| `ReassemblyRuns.WireRunIsRun` | shared/sockets/data_message.go:57-145 | a run over datagrams is the run over fragments |
| `RoundTrip.AnyOrderDelivers` | shared/sockets/data_message.go:72-117 | all fragments in any order, with any repeats before the last missing one: the packet once, and no entry left |
| `RoundTrip.AnyOrderDeliversPacket` | shared/sockets/data_message.go:181-229 | the same for the sender's own cut of a packet |
| `RoundTrip.NothingDueWhileMissing` | shared/sockets/data_message.go:104-112 | nothing is passed up while one fragment is missing, however often the others come |
| `RoundTrip.ShortDatagramsDeliverShort` | shared/sockets/data_message.go:82-112 | from any datagrams with bodies up to some length, nothing comes out that is longer than 128 such bodies |
| `RoundTrip.TooManyFragmentsMisread` | shared/sockets/data_message.go:206-209 | a packet in more than 128 fragments never comes out, whatever of its datagrams arrives and in whatever order |
| `RoundTrip.RoundTripExactly` | shared/sockets/data_message.go:161-166 | for every size the sender admits and every limit, a loss-free network delivers the packet, once and unchanged, if and only if it is sendable |
| `RoundTrip.SharedWireIdMixes` | shared/sockets/data_message.go:84-102 | two packets under one wire id come out as a third |
| `Arrivals.DatagramActs` | shared/sockets/data_message.go:72-84 | a datagram of an attempt acts on the receiver as that attempt's fragment or whole packet |
| `Arrivals.AfterIsRun` | shared/sockets/data_message.go:57-145 | what arrives of any attempts is a run over fragments, each attempt in pieces a packet of its own |
| `Resend.PiecesWithoutEnd` | shared/sockets/data_message.go:203-226 | no attempt but a complete last one has sent its last fragment |
| `Resend.OnlyWholesComeOut` | shared/sockets/data_message.go:86-116 | without a complete attempt in pieces, nothing comes out but a packet sent whole, once |
| `Resend.OthersDoNotMatter` | shared/sockets/data_message.go:86-116 | attempts that were given up, under other wire ids than the last one's but perhaps sharing theirs, change nothing in what comes out |
| `Resend.ResendDeliversAtMostOnce` | shared/sockets/data_message.go:168-191 | whatever of all attempts' datagrams arrives, in any order and with clean-ups, the packet is passed up at most once and nothing else is |
| `Resend.MarkerMisread` | shared/sockets/data_message.go:72-75 | fragment 128 of an attempt is passed up as a packet that was not sent |
| `Resend.IntruderMixes` | shared/sockets/data_message.go:84-113 | if an earlier attempt sent a fragment under a complete last attempt's wire id, there are arrivals after which a packet comes out that was not sent |
| `Resend.ResendDeliversAtMostOnceExactly` | shared/sockets/data_message.go:168-209 | for the attempts of any call, the packet comes out at most once and nothing else does, for everything that can arrive, if and only if no attempt sent its fragment 128 and no earlier one shares the wire id of a complete last one in pieces |
| `Resend.WrapIntrudes` | shared/sockets/data_message.go:191-202 | attempts at a packet of seven bytes, around the wrap of the counter, for which it does not hold |
| `Resend.FewAttemptsApart` | shared/sockets/data_message.go:168-202 | up to 255 attempts do not share the last one's wire id unless the counter wraps to 0 |
| `Resend.FewAttemptsDeliverAtMostOnce` | shared/sockets/data_message.go:168-202 | so for them the packet comes out at most once and nothing else does |
| `Session.DueOnce` | shared/sockets/data_message.go:104-112 | everything of an attempt whose packet is passed up has arrived, and none is passed up twice |
| `Session.SessionPassesUpWhatWasWritten` | shared/sockets/data_message.go:57-229 | any number of calls with all their attempts, any loss, order and clean-ups: without mixing, what is passed up are packets written, each by a call of its own |
| `Session.SessionWithinWindow` | shared/sockets/data_message.go:57-229 | the same with the window of counter values instead |
| `LruCache.Cache.Add` | server/macswitch/mactable.go:84-103 | insert or renew as newest; over the size, the oldest goes and is handed back |
| `LruCache.Cache.Remove` | server/macswitch/mactable.go:64-64 | the key goes and is handed back if it was there |
| `LruCache.Cache.Resize` | server/macswitch/base.go:65-67 | the newest entries up to the new size stay, the others are handed back |
| `LruCache.Cache.Purge` | server/macswitch/packet_handler.go:110-110 | everything goes and is handed back |
| `MacSwitch.MACSwitch.constructor` | server/macswitch/base.go:37-50 | empty tables, one address per connection, changing allowed, ten minutes timeout |
| `MacSwitch.MACSwitch.OnMACsEvicted` | server/macswitch/packet_handler.go:74-79 | evicted addresses leave the MAC table |
| `MacSwitch.MACSwitch.RegisterSocket` | server/macswitch/packet_handler.go:81-90 | a new empty cache; for a limit that is not positive, a failure and, the library being taken to return nil with it, a missing cache |
| `MacSwitch.MACSwitch.UnregisterSocket` | server/macswitch/packet_handler.go:92-111 | the socket's cache and its addresses go; nothing happens without a cache |
| `MacSwitch.MACSwitch.SetMACFrom` | server/macswitch/mactable.go:68-106 | all branches: not unicast, not registered, known, fixed, collision, learned with eviction |
| `MacSwitch.MACSwitch.ConfigUpdate` | server/macswitch/base.go:57-68 | every cache is resized and the MAC table follows; panics exactly if a cache is missing |
| `MacSwitch.MACSwitch.CleanupAllMACs` | server/macswitch/mactable.go:37-53 | a tick cleans every cache if addresses may change, and does nothing otherwise |
| `MacSwitch.MACSwitch.CleanupMACs` | server/macswitch/mactable.go:58-66 | the loop ends and drops entries from the oldest to the first fresh one, from cache and MAC table |
| `MacSwitchRuns.RegisterKeepsExactly` | server/macswitch/packet_handler.go:81-90 | registering keeps the tables in agreement if and only if the socket owns no address |
| `MacSwitchRuns.EvictionsKeepAgreement` | server/macswitch/packet_handler.go:74-79 | eviction callbacks remove from the MAC table just what the caches forgot |
| `MacSwitchRuns.StepKeeps` | server/macswitch/packet_handler.go:74-111 | every handler keeps agreement, distinct keys, sizes and time order |
| `MacSwitchRuns.RunKeepsInvariant` | server/macswitch/mactable.go:37-106 | after every run an address maps to a socket if and only if it is in that socket's cache; caches are within the limit and in order of time |
| `MacSwitchRuns.OneOwner` | server/macswitch/mactable.go:93-101 | no address is in two caches |
| `MacSwitchUse.AcceptedExactly` | server/macswitch/mactable.go:68-106 | after every run, a frame is accepted if and only if its source is unicast, the socket has a cache, and the address is its own, or nobody's and addresses may change or the socket owns none |
| `MacSwitchUse.AcceptedOwns` | server/macswitch/mactable.go:84-105 | after an accepted frame the address is the socket's, no other socket loses any, and a known address leaves the socket's set as it is; a frame refused without collision changes nothing |
| `MacSwitchUse.LeaveForgets` | server/macswitch/packet_handler.go:92-111 | unregistering takes out the socket and its addresses and nothing else |
| `MacSwitchUse.CachesFollowUse` | server/macswitch/mactable.go:84-103 | after every run, every cache lists its addresses in the order in which the socket last sent from them, with the times of these frames |
| `MacSwitchUse.EntryTimeIsLastUse` | server/macswitch/mactable.go:84-87 | an entry's time is that of the latest unicast frame the socket sent from the address |
| `MacSwitchUse.TickTakesExactlyUnused` | server/macswitch/mactable.go:58-66 | a tick takes exactly the addresses last used longer ago than the timeout |
| `MacSwitchUse.NewAddressEvictsLeastRecentlyUsed` | server/macswitch/mactable.go:100-103 | a new address is added while there is room; otherwise the least recently used one, and no other, makes room |
| `MacSwitchUse.ReloadKeepsLatestUsed` | server/macswitch/base.go:65-67 | a reload keeps as many addresses as the new limit allows, all used later than those it takes |
| `MacSwitchRuns.TableSizesAddUp` | server/macswitch/base.go:30-31 | the MAC table has as many entries as all caches together |
| `MacSwitchRuns.MissingExactly` | server/macswitch/packet_handler.go:81-99 | under the same assumption, after every run a socket's cache is missing if and only if its latest registration was under a limit that allows no address; unregistering does not help |
| `MacSwitchRuns.PanicsExactly` | server/macswitch/base.go:57-68 | under the same assumption, a reload, or a tick while addresses may change, panics if and only if there is such a socket |
| `MacSwitchRuns.PanickingRun` | server/macswitch/packet_handler.go:85-89 | under the same assumption, the shortest run that does |
| `MacSwitchRuns.PositiveLimitsNeverPanic` | server/macswitch/base.go:57-68 | with positive limits no cache is ever missing |
| `MacSwitchRuns.CleanupRemovesExactlyExpired` | server/macswitch/mactable.go:58-66 | in every reachable state, stopping at the first fresh entry removes exactly the entries older than the timeout |
| `MacSwitchRuns.OwnersClaimed` | server/macswitch/mactable.go:84-105 | an address belongs only to a socket that has itself sent a frame from it since it registered |
| `MacSwitchRuns.OthersCannotTake` | server/macswitch/mactable.go:93-98 | other sockets' frames do not touch an address; exactly when a collision occurs, and that the presenter then loses all its own addresses and no others |
| `MacSwitchRuns.AddressFixedStep` | server/macswitch/mactable.go:84-91 | while addresses may not change, each step leaves a socket's address set or adds the first address, by the socket's own frame |
| `MacSwitchRuns.AddressFixedForGood` | server/macswitch/mactable.go:40-42 | in such a run a socket's address stays the same until it unregisters, across resizes and ticks |
| `MacSwitchRuns.ReloadKeepsFixedAddressExactly` | server/macswitch/base.go:65-67 | a resize keeps the address if and only if the new limit is positive |
| `VpnNet.SlotAddresses` | shared/vpn_net.go:19-48 | from four addresses on, exactly the slots up to the bound have an address: inside the subnet, neither base nor server, and broadcast only in the last |
| `VpnNet.SlotAddressesDiffer` | shared/vpn_net.go:24-27 | addresses are injective in the slot |
| `VpnNet.TinySubnetsServeNobody` | shared/vpn_net.go:46-48 | smaller subnets: the wrapped slot counts, and no slot with an address |
| `IpSwitch.IPSwitch.RegisterSocket` | server/ipswitch/packet_handler.go:56-67 | the address is taken over; the connection that had it is to be closed |
| `IpSwitch.IPSwitch.UnregisterSocket` | server/ipswitch/packet_handler.go:69-81 | only the present owner gives an address up |
| `Admission.Server.AllocateSlot` | server/servers/sockets.go:93-105 | the slot loop ends and finds what `Allocate` says; only that slot becomes used |
| `Admission.AllocateIsSmallestFree` | server/servers/sockets.go:93-105 | that is the smallest free slot, at most one more than there are holders, and none exactly if slot 1 and all up to the bound are used |
| `Admission.Server.ReleaseSlot` | server/servers/sockets.go:107-111 | the slot is free again |
| `Admission.Server.AdmitSocket` | server/servers/sockets.go:187-214 | untracked, appended, oldest killed or refused; a refused connection is not recorded |
| `Admission.Server.RemoveSocket` | server/servers/sockets.go:216-241 | the connection leaves both tables; an empty list is removed |
| `AdmissionRuns.SlotsKept` | server/servers/sockets.go:93-111 | every step keeps: used slots are exactly the held ones, holders' slots differ, none is above the peak number of holders |
| `AdmissionRuns.TableKept` | server/ipswitch/packet_handler.go:56-81 | every step keeps: a registered connection owns its address, and every entry belongs to a registered connection of that address |
| `AdmissionRuns.AddressesDiffer` | server/servers/sockets.go:113-117 | two holders have different addresses |
| `AdmissionTheorems.RunKeepsSlotsAndTable` | server/servers/sockets.go:93-111 | both invariants hold after every run |
| `AdmissionTheorems.RunKeepsAddresses` | server/servers/sockets.go:94-117 | in a subnet of at least four addresses no connection ever has a slot without an address |
| `AdmissionTheorems.HoldersHaveDistinctAddresses` | server/servers/sockets.go:93-117 | after every run, for all connections that hold slots: different slots up to the peak, different addresses inside the subnet, neither base nor server |
| `AdmissionTheorems.OnlyStaleEntriesAreDisplaced` | server/ipswitch/packet_handler.go:56-67 | after every run, registering displaces somebody if and only if a connection that registered late has since given back the slot of that address |
| `AdmissionTheorems.RegisteredOwnsAddress` | server/ipswitch/packet_handler.go:56-67 | after every run, a connection that registered and has not unregistered or been displaced since owns its slot's address |
| `AdmissionTheorems.LateCloseSparesSuccessor` | server/ipswitch/packet_handler.go:75-78 | a close of another connection, however late, does not take the address away |
| `AdmissionTheorems.StaleEntryExactlyIfRegisteredLate` | server/servers/sockets.go:185-185 | freeing a slot leaves the address in the table if and only if the connection registered when already closing |
| `AdmissionTheorems.StaleEntryRun` | server/servers/sockets.go:198-265 | a run in which that happens |
| `AdmissionTheorems.ListsKept` | server/servers/sockets.go:187-241 | every step keeps each user's list a suffix of the live connections, within the limit, everything before it closed |
| `AdmissionTheorems.UserListIsSuffix` | server/servers/sockets.go:187-241 | after every run with positive limits: the list is the latest live connections in order of arrival, without repeats; all others have been closed, and under prevent-new there are no others |
| `AdmissionTheorems.EnteringExactly` | server/servers/sockets.go:187-214 | after every run, entering is refused, and the connection closed, if and only if the user is not anonymous, the limit is positive, new connections are prevented and the list has reached the limit; all others get in and stay open; what becomes of every list; and that exactly the oldest is closed exactly if a limited user's list had reached the limit |
| `AdmissionTheorems.LeavingExactly` | server/servers/sockets.go:216-241 | leaving takes just this connection from the tables and closes nobody |
| `AdmissionTheorems.ServingTakesAddress` | server/ipswitch/packet_handler.go:56-67 | serving makes a connection the registered owner of its address; the former owner is closed and unregistered, all others keep theirs |
| `AdmissionTheorems.ClosingUnregisters` | server/ipswitch/packet_handler.go:69-81 | an effective close leaves the connection without its address and touches no other |
| `Negotiation.NegotiatingSocket.RunFeatureCheck` | shared/sockets/base.go:144-175 | the features in use are those both sides have; fragmentation follows the protocol's rule |
| `Negotiation.NegotiatingSocket.HandleInitPacketFragmentation` | shared/sockets/base.go:129-142 | an init changes nothing from protocol 12 on; below, it sets both feature sets, and for each version whether fragmentation is used |
| `Negotiation.NegotiatingSocket.HandleVersion` | shared/sockets/commands.go:54-74 | the peer's version and features are stored and the socket is ready; for each version when fragmentation is used, from protocol 12 on if and only if both sides list it |
| `NegotiationRuns.RunKeepsInvariant` | shared/sockets/commands.go:54-112 | in every interleaving, features, decision, readiness and messages under way fit together |
| `NegotiationRuns.OpenExactly` | shared/sockets/commands.go:61-71 | after every run, a side sends and processes data if and only if it has handled the peer's version and has not begun to close |
| `NegotiationRuns.ProcessedAgreesExactly` | shared/sockets/data_message.go:57-65 | a processed message was framed as its receiver reads it if and only if it is not the case that init overtook the version with only the server listing fragmentation |
| `NegotiationRuns.WelcomeFirstNeverOvertakes` | shared/sockets/base.go:289-293 | if the server sends init after its version, the client knows the version first |
| `NegotiationRuns.BothEndsReadAlike` | shared/sockets/base.go:144-165 | then every processed message was sent with headers, and is read so, exactly if both sides list fragmentation |
| `NegotiationRuns.OvertakenRunDisagrees` | shared/sockets/base.go:129-142 | a run with init first, after which a message is read the wrong way |
| `SocketLifecycle.Socket.CloseWith` | shared/sockets/base.go:238-266 | what an effective close does to all flags, and the down event exactly if up is unanswered |
| `SocketLifecycle.Socket.Close` | shared/sockets/base.go:217-224 | nothing if already closing |
| `SocketLifecycle.Socket.CloseError` | shared/sockets/base.go:194-210 | always closes and unregisters; reports the error only the first time |
| `SocketLifecycle.Socket.ServeAnnounces` | shared/sockets/base.go:295-302 | up is announced only before a close |
| `SocketLifecycle.LifeInClosedForm` | shared/sockets/base.go:189-266 | for every order of calls (`ClosedForm`): channel closed once, by the first close; how often the adapter is closed and the error reported; the event trace; and when up is unanswered |
| `SocketLifecycle.NoticesWellFormedExactly` | shared/sockets/base.go:262-302 | the trace is a prefix of up, down if and only if `Serve` ended at most once before the first close, and then the flag is set exactly if the trace is up alone |
| `SocketLifecycle.ClosedFirstStaysSilent` | shared/sockets/base.go:295-302 | closed before up: no event ever |
| `SocketLifecycle.StaysRegisteredExactly` | shared/sockets/base.go:254-273 | a socket is with the packet handler if and only if it registered and neither the first close nor a close with error came later |
| `SocketLifecycle.LateRegistrationStays` | shared/sockets/base.go:217-224 | registering after a close survives a plain close |
| `StreamFraming.Stream.Write` | shared/sockets/adapters/webtransport.go:242-245 | the stream takes the whole message or a prefix of it and fails |
| `StreamFraming.WebTransportStream.WriteControlMessage` | shared/sockets/adapters/webtransport.go:224-248 | which error in which case; on success the frame and nothing else is sent, on failure a prefix of it |
| `StreamFraming.WebTransportStream.WritePingMessage` | shared/sockets/adapters/webtransport.go:276-283 | a ping frame is sent exactly on success |
| `StreamFraming.WebTransportStream.ReadControl` | shared/sockets/adapters/webtransport.go:162-180 | length and body of a control message, or nothing if any of it is missing |
| `StreamFraming.Reader.ReadFull` | shared/sockets/adapters/webtransport.go:174-178 | so many bytes, or an error and nothing left to read |
| `StreamFraming.WebTransportStream.ServeStream` | shared/sockets/adapters/webtransport.go:139-198 | for all bytes and either way the stream may end: the frames handled, one reply to each ping, and an unexpected end exactly if a reply or the stream fails |
| `StreamFraming.DecodeAfterEncode` | shared/sockets/adapters/webtransport.go:153-193 | decoding an encoding yields the same frames, up to a ping that cannot be answered |
| `StreamFraming.DecodesPrefix` | shared/sockets/adapters/webtransport.go:153-193 | whole frames are decoded as such in front of any other bytes |
| `StreamFraming.DecodeIsAnswered` | shared/sockets/adapters/webtransport.go:182-186 | for all bytes, fewer replies than pings only cut the frames off at the first ping beyond |
| `StreamFraming.UnansweredExactly` | shared/sockets/adapters/webtransport.go:182-186 | the reader gives up on a ping if and only if the bytes hold more pings than replies that go through |
| `StreamFraming.UnknownTypeCostsItself` | shared/sockets/adapters/webtransport.go:160-193 | a byte of no known type between frames costs only itself |
| `StreamFraming.CutYieldsWholeFrames` | shared/sockets/adapters/webtransport.go:162-178 | a stream cut at any byte yields exactly the frames wholly before the cut |
| `StreamFraming.CutNeverAdds` | shared/sockets/adapters/webtransport.go:153-193 | on any bytes, a cut only takes frames away from the end |
| `StreamFraming.EncodeAfterDecode` | shared/sockets/adapters/webtransport.go:160-193 | writing again what was read gives the same bytes if and only if no byte was skipped or dropped |

## Left out

- RoundTrip.AnyOrderDelivers: no clean-up in between; runs with clean-ups are in `ReassemblyRuns`.
- ReassemblyRuns.FollowsThroughoutExactly: the only-if half asks for distinct arrival times; with equal ones a fragment can coincide with the one it replaces.
- Session.SessionPassesUpWhatWasWritten: the calls' attempts follow one another; `WritePacket` running twice at the same time is not modelled.
- MacSwitch.MACSwitch.RegisterSocket: what the library returns along with its error is an assumption, see above.
- FragmentSender.Sender.WritePacket: no other packet is sent and `RefreshFeatures` does not raise the limit during the retry loop; the network never reports a negative maximum size, which the conversion to 16 bits would turn into a large one, so that the loop need not end.
- NegotiationRuns.ProcessedAgreesExactly: both ends announce protocol 12; the compatibility branches for older ones are modelled in `Negotiation` but follow no symmetric rule.
- MacSwitchRuns.RunKeepsInvariant: each handler is one atomic step; between its lock sections (for example mactable.go:101-103 and packet_handler.go:108-110) the tables do not agree.
- AdmissionTheorems.UserListIsSuffix: limits may change but stay positive; while the limit is 0 or less connections are not tracked at all.
- VpnNet.SlotAddresses: addresses are numbers; negative host indices of the library and subnets of more than 2^63 addresses are not modelled.
- StreamFraming.WebTransportStream.ServeStream: the adapter's bookkeeping of the first error over both its loops is not modelled; a stream that has failed keeps failing; the pong handler is installed before serving starts, as `Socket.Serve` does.
- SocketLifecycle.Socket.CloseError: the error message and the adapter's close left to a goroutine are counted when they are scheduled.
- The golang-lru library is modelled by its contract; its removal callbacks are applied within the step.
- Server shutdown, TUN/TAP devices, managed interfaces, system commands and event scripts: input and output.
- HTTP, TLS, authentication, upgraders, connectors, JSON commands and configuration loading: libraries.
- Parsing of packet headers and the forwarding decisions and broadcasts of both switches: single branches on header fields; source address and unicast bit are parameters.
- Timers, goroutine scheduling, condition variables, `WaitReady` and all liveness; the ping loop and its timeout; wait-group counts.
- Wrap-around of the 64-bit slot counter, which is never above the number of holders plus one.
