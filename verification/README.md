# Verification of the distributed RPC facility

A Linux module lets processes register *interfaces*, broadcasts each node's interface list, caches
the lists of its peers and carries calls between nodes: caller, TCP, remote kernel, netlink,
the serving process's callback, and back. This project models that path and proves what it
guarantees. `dafny verify dfyconfig.toml` checks everything.

## Layout

| file | part of the system |
|---|---|
| `Bytes.dfy`, `Codec.dfy` | little-endian integers; what an exact, self-delimiting codec is; repetition |
| `Buffer.dfy` | the growing output buffer, as a value and as a class over an array |
| `RpcPacket.dfy`, `ListPacket.dfy`, `InfoPacket.dfy` | the three packet formats with their serializers and deserializers |
| `Netlink.dfy` | frames between library and kernel (header of RFC 3549, section 2.3.2), handshake packet |
| `Registry.dfy`, `RegistryRuns.dfy`, `RegistryTable.dfy` | the interface registry: operations, whole runs, the pointer array with its objects |
| `Proc.dfy` | the procfs view of the registry |
| `Peers.dfy`, `Discovery.dfy` | the peer table; many nodes over an unreliable datagram network |
| `Kernel.dfy`, `Library.dfy` | what the kernel and a serving process do with one request, frame or reply |
| `Protocol.dfy`, `ProtocolSafety.dfy`, `OneCallAtATime.dfy`, `Answering.dfy` | the call protocol as a transition system over the bytes in flight |
| `EndToEnd.dfy` | from a cached view to the answer |

Code that updates state is modelled by methods over arrays and objects, each proved equal to a
function of the old state; the properties are lemmas about those functions, mostly over whole runs.
Undefined behaviour of the C code (a read or write outside an allocation, a NULL dereference) is an
explicit outcome (`OutOfBounds`, `Overrun`, `Undefined`, `Faulty`, `None`) and not assumed away, with
the exceptions named under "Left out".

## Where the code is not what it seems meant to be

The model follows the code as written; for each gap a lemma says exactly when it is harmless or shows what it does.

- `copy_to_buffer` grows once, by 65536, whatever the source's length (module/packet.c:8-10): `PutFitsExactly`, `PutAllExactly`, and for whole packets `RpcFitsExactly`, `ListFitsExactly`, `ItemsWrittenExactly`.
- The list serializer skips damaged elements, some of them half written, but counts them (module/packet.c:31-48): `ReadableIffNothingSkipped`, `DamagedIsMisread`.
- `serialize_interface_info` writes as many return descriptions as there are arguments (module/packet.c:154): `InfoRoundTripExactly`, `MoreArgsThanRetsIsUndefined`.
- `remove_interface` shifts from the slot before, not the slot after (module/interface.c:72-74): `RefinesMapExactly` over whole runs, `RemoveOrderExactly`, `RemoveRecordsExactly` for one removal, `RemovalLosesInterfaces`.
- `register_interface` does not copy the flag arrays (module/interface.c:13-56), so every interface is announced with zero flags: `FlagsAnnouncedExactly`.
- `ALLOCATED_ID` wraps (module/interface.c:42): `IdsFreshExactly`.
- `add_peer` drops the list it has just decoded but keeps its count (module/network/peer.c:34-39): `LookupIsLastAnnouncement`, `CallFaultsExactly`.
- `handle_netlink_income` counts 16 bytes too many and frames are padded (module/interface.c:98, lib/src/netlink.c:34): `ResultEffect`, with `DecodeOfEncode`, shows the packets still decode.
- `handle_rpc` compares a failed receive's -1 as unsigned (lib/src/interface.c:44-48), so it goes on with a zeroed buffer: `FailedReceiveIsIgnored`, `UserEffect`.
- `ctrl->socket` is one slot per interface (module/interface.c:244): `AnswersAreOwn` is the guarantee while no interface is called with a call to it in service, `ImpatientCallCanMisroute` shows that nothing less will do, `OverlapMisroutes` and `OvertakenCallIsNeverAnswered` what becomes of the call that lost the slot.

## Main results

- **End-to-end safety** (`AnswersAreOwn`, `AnswersComeFromTheCalledInterface`): in every run, with messages lost and reordered and interfaces coming and going, an answer is the callback's result on the called interface; if no interface is called while a call to it is on its way in or being served, on the caller's own arguments (and otherwise some order of delivery gives the caller another call's values: `ImpatientCallCanMisroute`).
- **Exact answering** (`CallIsAnsweredExactly`), **progress** (`ListenActivates`, `ListeningInterfaceAnswers`, `NewInterfaceAnswers`, `TwiceAnnouncedIsCallable`) and **termination** (`DeliveriesEnd`).
- **Stale views are safe** (`StaleCallIsAnswered`, `AnswerFillsCallersSlots`): a call checked against an arbitrarily old view, of a node with or without calls in progress, is never turned down for its arity, and its answer fills the caller's array exactly. The registry inside the protocol runs as the registry proved about on its own (`ProtocolRunsTheRegistry`).
- **Discovery** (`CachedListsArePastSnapshots`, `TableReflectsAnnouncements`): under loss, duplication and reordering nothing cached is invented or mixed; the table is a function of what arrived. Every arrival is handled and a rejected one leaves the table as it was (`ArrivesExactly`, `RejectedIsIgnored`).
- **Registry** (`RefinesMapExactly`: a finite map of the registered and not removed interfaces at every moment, if and only if removals come last registered first; `RunKeepsValid`, `CapacityLaw`, `RemovedIdsNeverReturn`, `ForwardsToLatestHandshake`, `SlotIsLatestForward`, `RecordedUnderRegistrant`, `FilesPartitionRegistry`).
- **Codecs** (`DecodeOfEncode`, `EncodeOfDecode`, `PrefixFree`, `AnnouncementRoundTrip`, `AcceptedIsEncoded`, `InfoRoundTripExactly`, `InfoQueryRoundTrip`).

## Model

| member | source | states |
|---|---|---|
| Bytes.U32AtExact | module/packet.c:60-64 | a 4-byte copy reads n exactly where the four little-endian bytes of n stand |
| Bytes.LittleEndian | module/packet.c:60-64 | integers are stored least significant byte first |
| Codec.DecodeAllOfEncodeAll | module/packet.c:118-126 | a loop over an exact item decoder reads back any encoded run of items from any offset, whatever follows |
| Codec.EncodeAllOfDecodeAll | module/packet.c:118-126 | whatever such a loop accepts is the encoding of what it returns, and the cursor stops at its end |
| Codec.DecodeAllRunsOut | module/packet.c:68-87 | asking for more items than memory holds leaves it |
| Codec.BlockDecodes | module/packet.c:119-125 | a length-prefixed value reads back from wherever its encoding stands |
| Codec.BlockEncodes | module/packet.c:119-125 | a length-prefixed value is read only where its encoding stands |
| Codec.ReadBlock | module/packet.c:119-125 | the cursor code for one value is the block decoder |
| Buffer.PutFitsExactly | module/packet.c:7-14 | an append stays in its allocation if and only if it fits before or after one growth that does not wrap; then it appends, and the capacity law is kept |
| Buffer.PutAllIsConcatenation | module/packet.c:7-14 | any run of appends that never overran holds the concatenation of its sources; length at most capacity, a positive multiple of 65536 less than one increment ahead |
| Buffer.PutAllExactly | module/packet.c:7-14 | a run of appends stays in its allocation if and only if every source in turn ends within the capacity at its length, or one increment more |
| Buffer.SmallChunksFit | module/packet.c:7-14 | sources of at most 65536 bytes never overrun below the 32-bit limit |
| Buffer.PutEachAppends | module/packet.c:100-105 | a loop of appending bodies appends the concatenated encodings of its items |
| Buffer.OverrunPersists | module/packet.c:100-105 | once a prefix of the loop has overrun the loop has |
| Buffer.GrowBuffer.Grow | module/packet.c:9-10 | the reallocation keeps the written bytes and adds one wrapped increment |
| Buffer.GrowBuffer.Append | module/packet.c:7-14 | the in-place append is the abstract one, and says when it would leave the allocation |
| RpcPacket.DecodeOfEncode | module/packet.c:93-130 | round trip and self-delimitation: an RPC packet decodes to the id and values encoded from any place in any memory, the cursor just behind it |
| RpcPacket.EncodeOfDecode | lib/src/packet.c:30-50 | re-encoding a decoded packet gives back exactly the bytes consumed |
| RpcPacket.PrefixFree | module/packet.c:93-109 | no packet is a proper prefix of another; equal packets carry equal calls |
| RpcPacket.RpcLayout | module/packet.c:93-109 | the packet byte for byte: id, number of values, and each value at its offset behind its length |
| RpcPacket.RpcLength | module/packet.c:93-109 | the length is 8 plus, for every value, 4 plus its length |
| RpcPacket.RpcBufIsEncode | module/packet.c:93-109 | a serializer that stayed in its buffer wrote the packet |
| RpcPacket.RpcFitsExactly | module/packet.c:93-109 | exactly which calls are serialized, source by source |
| RpcPacket.SmallRpcFits | module/packet.c:93-109 | values of at most 65536 bytes are always serialized, up to the 32-bit limit |
| RpcPacket.AppendValue | module/packet.c:101-104 | one turn of the serializer's loop |
| RpcPacket.SerializeRpc | lib/src/packet.c:12-28 | both serializers: they succeed exactly when the buffer model does, with the packet as contents |
| RpcPacket.ReadValues | lib/src/packet.c:38-46 | the loop both deserializers share, filling the value array in place |
| RpcPacket.UnserializeRpcLibrary | lib/src/packet.c:30-50 | the library's deserializer is the decoder |
| RpcPacket.UnserializeRpcKernel | module/packet.c:111-130 | the kernel's deserializer returns the decoder's values without the id, so the two interoperate |
| ListPacket.AnnouncementRoundTrip | module/packet.c:21-91 | every list serialized is read back with ids, counts and flags unchanged if it has at most 256 entries and rejected for its count otherwise, whatever follows it in the buffer |
| ListPacket.AcceptedIsEncoded | module/packet.c:56-91 | only an encoded list of at most 256 entries at the start of the buffer is accepted |
| ListPacket.AcceptedExactly | module/packet.c:56-91 | a packet is accepted as a list if and only if the list's encoding, of at most 256 entries, starts the buffer and the length covers the count |
| ListPacket.RejectedExactly | module/packet.c:60-66 | the two errors are returned if and only if the length is below 4, or the count is above 256 |
| ListPacket.AnnouncementLayout | module/packet.c:21-54 | the packet byte for byte: count, and each interface's id, counts and flags at their offsets |
| ListPacket.AnnouncementLength | module/packet.c:21-54 | the length is 4 plus 12 per interface plus its flag bytes |
| ListPacket.ReadableIffNothingSkipped | module/packet.c:28-50 | a packet reads back within its bytes as its whole interfaces if and only if nothing was skipped, by whichever of the three `continue`s; with NULL elements only it cannot be read at all |
| ListPacket.DamagedIsMisread | module/packet.c:36-40 | an element without argument flags can make the receiver accept an interface that does not exist |
| ListPacket.DamagedAreCutShort | module/packet.c:31-48 | each `continue` leaves a whole element up to where its missing part would start |
| ListPacket.EntryDecodes | module/packet.c:69-86 | one entry reads back from wherever its encoding stands |
| ListPacket.EntryEncodes | module/packet.c:69-86 | one entry is read only where its encoding stands |
| ListPacket.ListBufIsEncode | module/packet.c:21-54 | a serializer that stayed in its buffer wrote the packet, with its three early `continue`s |
| ListPacket.ListFitsExactly | module/packet.c:21-54 | exactly which lists are serialized, source by source |
| ListPacket.SmallListFits | module/packet.c:21-54 | lists whose arrays have at most 65536 flags are always serialized, up to the 32-bit limit |
| ListPacket.AppendSlot | module/packet.c:28-50 | one turn of the serializer's loop, NULL parts included |
| ListPacket.SerializeInterfaces | module/packet.c:21-54 | the serializer over the pointer array |
| ListPacket.ReadEntry | module/packet.c:69-86 | the cursor code for one entry is the entry decoder |
| ListPacket.UnserializeInterfaces | module/packet.c:56-91 | the deserializer with its two error returns is the decoder |
| InfoPacket.StrDecodes | module/packet.c:15-20 | a NUL-terminated string reads back from wherever it stands, the cursor behind its NUL |
| InfoPacket.StrEncodes | module/packet.c:15-20 | what is read is a string and its NUL |
| InfoPacket.FullInfoRoundTrip | module/packet.c:165-199 | with every return description written the packet reads back in full, in order, consuming exactly its length |
| InfoPacket.InfoLayout | module/packet.c:135-163 | the packet byte for byte: id, name, description, and both counts with their names and descriptions at their offsets |
| InfoPacket.ShortInfoDecodes | module/packet.c:189-196 | descriptions not written read back as empty from a zero-filled buffer and cannot be read from the packet alone |
| InfoPacket.WrittenIsConcatenation | module/packet.c:135-163 | a serializer that neither failed nor strayed met no NULL string and wrote the concatenation of its items |
| InfoPacket.CompleteInfoPacket | module/packet.c:135-163 | a complete record is serialized, if at all, into the packet with argc return descriptions |
| InfoPacket.ItemsWrittenExactly | module/packet.c:135-163 | a description is serialized if and only if no string is missing, no read strays and every item in turn fits |
| InfoPacket.FailsExactly | module/packet.c:140-158 | the error is returned if and only if a NULL string is reached with everything before it written |
| InfoPacket.SmallInfoIsWritten | module/packet.c:135-163 | a complete record with argc at most retc and no string of 65536 bytes is serialized |
| InfoPacket.MoreArgsThanRetsIsUndefined | module/packet.c:154-159 | with argc above retc the second loop always leaves the return descriptions |
| InfoPacket.InfoRoundTripExactly | module/packet.c:135-199 | round trip within the packet if and only if argc equals retc; from a zero-filled buffer if and only if every dropped description was empty |
| InfoPacket.AppendItem | module/packet.c:140-143 | one NULL check and append |
| InfoPacket.AppendAttrs | module/packet.c:146-159 | the serializer's two loops |
| InfoPacket.SerializeInfo | module/packet.c:135-163 | the serializer, with its error returns and its stray reads |
| InfoPacket.ReadStr | module/packet.c:15-20 | strlen and copy are the string decoder |
| InfoPacket.ReadAttrs | module/packet.c:178-196 | a count and that many name and description pairs |
| InfoPacket.UnserializeInfo | module/packet.c:165-199 | the deserializer is the decoder |
| Netlink.KernelFrameFields | lib/src/netlink.c:34-48 | length, port id, type and packet stand where the kernel reads them; the frame is padded with zeros to the least multiple of 4, which its length counts |
| Netlink.BuildKernelFrame | lib/src/netlink.c:34-48 | the frame built field by field, padding included |
| Netlink.UserFrameFields | module/interface.c:183-195 | type, length and packet stand where the library reads them; the padding is not counted |
| Netlink.ReceivedFromKernel | lib/src/netlink.c:83-89 | a kernel frame yields its packet zero-padded if it fits 512 bytes and a zeroed buffer if not |
| Netlink.ReceivedFromBuffer | lib/src/netlink.c:68-89 | a frame is received alike whatever else the 8192-byte receive buffer holds |
| Netlink.ReceiveUserFrame | lib/src/netlink.c:78-90 | the packet buffer and return value after a receive, failed or not |
| Netlink.IdsDecode | module/interface.c:153-167 | the handshake packet's ids read back in order |
| Netlink.IdsReadableExactly | module/interface.c:167-171 | ids can be read exactly as far as memory goes |
| Netlink.HandshakePacket | lib/src/interface.c:17-22 | the handshake packet is built id by id |
| Registry.RegisterKeeps | module/interface.c:13-56 | registration keeps listing, id order, arities and process grouping, under a fresh id one higher |
| Registry.RegisterGroups | module/proc.c:33-52 | a new interface shares its recorded process's procfs entry and no other (`RegistryRuns.EntriesAreProcesses` ties that to the registering process) |
| Registry.RemoveKeeps | module/interface.c:57-80 | a defined removal keeps the same, lists the id no more and shortens the array by one |
| Registry.RemoveOrderExactly | module/interface.c:72-75 | a removal deletes one entry and keeps the others in order if and only if it is the last one; it is undefined if and only if it is the first of several |
| Registry.RemoveRecordsExactly | module/interface.c:57-80 | all other interfaces stay registered if and only if the removed id is the one at the end |
| Registry.RemovalLosesInterfaces | module/interface.c:72-75 | counterexample: of three interfaces, removing the second loses the third |
| Registry.ShiftedElements | module/interface.c:72-75 | exactly what stood before the removed position is left |
| Registry.ActivateIsOneUpdate | module/interface.c:166-178 | the nested loops are one simultaneous update of the live ids listed; order and duplicates do not matter |
| Registry.ActivateKeeps | module/interface.c:166-178 | activation keeps the registry in order and its array unchanged |
| Registry.BindKeeps | module/interface.c:244 | so does taking the reply slot |
| Registry.ZeroIsNeverLive | module/interface.c:234-236 | the reserved id 0 never shadows an interface |
| Registry.ExecuteRpc | module/interface.c:228-252 | the interface an RPC packet names is the one executed, and its slot takes the request's connection |
| Registry.QueryAsks | module/interface.c:254-281 | a query asks about the id in its first value's first four bytes, whatever else it carries; an unknown id or a description that cannot be serialized gets no reply, and a query without those bytes is undefined |
| Registry.InfoQueryRoundTrip | module/interface.c:254-281 | any query about a registered interface is answered with a packet that reads back as the registered description, if and only if the dropped descriptions were empty |
| RegistryRuns.ApplyKeeps | module/interface.c:13-80 | one operation of a run keeps the registry valid and nothing registered is rewritten |
| RegistryRuns.ApplyDefinedExactly | module/interface.c:72-74 | an operation is undefined if and only if it removes the interface at the front of several |
| RegistryRuns.RemovingUnknownIsNotFound | module/interface.c:67-70 | removing an id that is not registered changes nothing |
| RegistryRuns.RunKeepsValid | module/interface.c:13-80 | every reachable registry is valid, whatever was removed; its next id counts registrations |
| RegistryRuns.RefinesMapExactly | module/interface.c:13-80 | at every moment of a run the registry is defined, holds exactly the ids registered and not removed since with their descriptions, each once and in strictly increasing order, if and only if every live interface removed was the last registered of those live |
| RegistryRuns.ApplyRefinesExactly | module/interface.c:57-80 | one operation keeps the registry that map if and only if it is not a removal of a live interface other than the last registered |
| RegistryRuns.NextIsFresh | module/interface.c:42 | in every reachable state the next id is not in use |
| RegistryRuns.RunEvolves | module/interface.c:42 | between any two moments of a run ids keep their registration and gone ids stay gone |
| RegistryRuns.RemovedIdsNeverReturn | module/interface.c:42-53 | a removed id is never registered again |
| RegistryRuns.CapacityLaw | module/interface.c:45-53 | in every reachable state the count is at most the peak, the peak at most the capacity, and the capacity the peak rounded up to ten |
| RegistryRuns.NextIdCounts | module/interface.c:42 | the id counter is the number of registrations plus one, in 32 bits |
| RegistryRuns.IdsFreshExactly | module/interface.c:42 | a registration's id is non-zero and new if and only if fewer than 2^32 - 1 came before it |
| RegistryRuns.ForwardsToLatestHandshake | module/interface.c:169-178 | a live interface is activated if and only if a handshake named it, and forwards to the port of the latest one, port 0 before any |
| RegistryRuns.SlotIsLatestForward | module/interface.c:244 | a live interface's reply slot holds the latest call forwarded to it, and is empty before any |
| RegistryRuns.RecordedUnderRegistrant | module/interface.c:25 | in every reachable state a live interface is recorded under the process whose registration got its id |
| RegistryRuns.EntriesAreProcesses | module/proc.c:33-52 | two live interfaces share a procfs entry if and only if one process registered both |
| RegistryRuns.EntriesCreatedExactly | module/proc.c:43-50 | a procfs entry is created exactly for each registration by a process that has no live interface |
| RegistryTable.InterfaceTable.Find | module/interface.c:283-293 | the search finds the id's object if and only if the id is live |
| RegistryTable.InterfaceTable.ProcEntry | module/proc.c:33-52 | the entry of the process's first interface, or a new one |
| RegistryTable.InterfaceTable.Register | module/interface.c:42-55 | the array and its objects after registration |
| RegistryTable.InterfaceTable.Position | module/interface.c:61-66 | the removal's search |
| RegistryTable.InterfaceTable.Shift | module/interface.c:72-75 | the shift loop, element by element |
| RegistryTable.InterfaceTable.Remove | module/interface.c:57-80 | the array and its objects after removal, or which error |
| RegistryTable.InterfaceTable.Activate | module/interface.c:169-178 | the nested loops over the array's objects |
| RegistryTable.InterfaceTable.Forward | module/interface.c:238-246 | the slot taken and the port returned |
| Proc.AppendLine | module/proc.c:92-93 | one formatted line, or the write past the formatting array |
| Proc.FormatInterface | module/proc.c:81-103 | the description appended line by line |
| Proc.InterfaceLinesAt | module/proc.c:87-101 | which line stands where: heading, title, each argument's own line, title, each return value's own line |
| Proc.InterfaceLinesText | module/proc.c:81-103 | their text is the heading, each argument in order and each return value in order, between the titles |
| Proc.Read | module/proc.c:54-79 | a read of the file: loop, filter, size check |
| Proc.ReadExactly | module/proc.c:54-103 | a read from the start yields exactly the texts of the entry's interfaces in order if they fit the reader and an error otherwise, from elsewhere nothing; it is defined if and only if every formatted line of every such interface fits the array |
| Proc.FileIsProcess | module/proc.c:33-52 | an entry's interfaces are those its process registered |
| Proc.FilesPartitionRegistry | module/proc.c:33-67 | in every reachable state each file lists exactly the interfaces that the registering process registered, in order, and together the files list every array position once |
| Peers.TableReflectsAnnouncements | module/network/peer.c:17-56 | after any datagrams the table holds the first 256 announcing addresses in order, numbered so, each with what its announcements leave |
| Peers.LookupIsLastAnnouncement | module/network/discovery.c:40-58 | a peer's list is the last one it announced if and only if it announced more than once; ids are positions and at most 256 are used |
| Peers.ReceiveReflects | module/network/discovery.c:40-58 | one datagram adds, updates or changes nothing, and touches no other address |
| Peers.ReceiveDefinedExactly | module/network/discovery.c:44-57 | a datagram is handled if and only if its sender is turned away or its list does not run past the buffer |
| Peers.RejectedIsIgnored | module/network/discovery.c:46-56 | a datagram shorter than its count, with more than 256 interfaces or from a new sender to a full table leaves the whole table untouched, and the loop goes on |
| Peers.AcceptedIsRecorded | module/network/discovery.c:44-57 | every other datagram replaces its sender's list and count or adds its sender's record, and nothing else |
| Peers.FeedDefinedExactly | module/network/discovery.c:40-58 | exactly how long the loop stays defined, told from the datagrams alone |
| Peers.CallFaultsExactly | module/device/peer.c:63 | a call dereferences NULL if and only if its peer has announced once, a non-empty list |
| Peers.PeerTable.GetPeer | module/network/peer.c:17-26 | the position of the address or -1, allocating the table on first use |
| Peers.PeerTable.AddPeer | module/network/peer.c:28-42 | the new record or which error, with nothing else changed |
| Peers.PeerTable.Update | module/network/peer.c:44-56 | the updated record or which error, with nothing else changed |
| Peers.PeerTable.HandleDatagram | module/network/discovery.c:40-58 | one turn of the loop is the abstract step |
| Peers.CheckIoctl | module/device/peer.c:63-76 | the check of a call against the cached view |
| Peers.CheckExactly | module/device/peer.c:63-76 | a call is accepted if and only if the first cached entry with its id has the caller's counts and no array is missing where its count is not zero; refused or not found exactly otherwise |
| Discovery.FlagsAnnouncedExactly | module/interface.c:301-302 | a process's flags are announced if and only if they are all zero |
| Discovery.ArrivalIsFaithful | module/network/discovery.c:41-52 | an arriving announcement is accepted as the very list sent or rejected for its count, never misread |
| Discovery.SnapshotIsHonest | module/network/broadcast.c:51-54 | an announcement lists registered ids with the arities of their registration |
| Discovery.SnapshotInOrder | module/network/broadcast.c:51-54 | a node announces its array in order, with the arities of the records and zero flags |
| Discovery.BroadcastsExactly | module/network/broadcast.c:51-54 | a broadcast sends the whole list, if and only if it can be serialized |
| Discovery.ArrivesExactly | module/network/discovery.c:40-58 | in every reachable world every arrival is handled: ignored, replacing or adding, exactly by its length and the table's room |
| Discovery.NodeRunsItsOps | module/interface.c:13-80 | each node's registry is that of a registry run of its own operations |
| Discovery.StepKeeps | module/network/discovery.c:40-58 | every node's step, broadcast and arrival keeps sent and cached lists true to the registrations |
| Discovery.CachedListsArePastSnapshots | module/network/broadcast.c:51-54 | under loss, duplication and reordering every cached list is the whole interface list of its node at one past moment |
| Discovery.StaleCallMatchesRegistration | module/device/peer.c:63-76 | a call that passes the check against any cached view names a registered id with exactly its argument and return counts |
| Discovery.SecondArrivalIsCached | module/network/discovery.c:40-58 | a list that arrives twice from one address is then cached for it |
| Discovery.TwiceAnnouncedIsCallable | module/device/peer.c:63-76 | progress: once an announcement has arrived twice, every interface of it passes the check with the counts of its registration, with or without an array where there is nothing to pass |
| Kernel.FetchInfo | module/interface.c:254-281 | the information query over the table |
| Kernel.HandleConnection | module/network/service.c:47-60 | one request on a connection: what is sent where, and the table after it |
| Kernel.ServesWholeRequestsOnly | module/network/service.c:47-52 | nothing is served but a packet of positive length behind that length |
| Kernel.ServesPacket | module/network/service.c:59-60 | a whole request is served by what it asks |
| Kernel.ShortRequestStrays | module/packet.c:131-133 | a request too short for an id is read past its end |
| Kernel.QueryIsDescribed | module/network/service.c:47-60 | a length-prefixed information query comes out of its connection as the registered description, if and only if the dropped descriptions were empty, and leaves the registry as it was |
| Kernel.UnknownQueryIsRefused | module/interface.c:262-266 | one about an unknown id is refused |
| Kernel.HandleIncome | module/interface.c:96-119 | one netlink frame: dispatch, the over-counted length, the table after it |
| Kernel.HandshakeTakenExactly | module/interface.c:156-167 | a handshake is dropped if and only if its count claims more ids than the over-counted length, in 32 bits; and taken if and only if otherwise memory holds them |
| Kernel.OtherTypesAreDropped | module/interface.c:116-117 | a frame of any other type is dropped |
| Kernel.Handshake | module/interface.c:153-181 | the handshake with both its length checks |
| Kernel.Result | module/interface.c:120-152 | a result goes to the connection in its interface's slot, or nowhere |
| Kernel.CallStreamIsPacket | module/network/peer.c:128-136 | a call writes the packet behind its length |
| Kernel.SendsExactly | module/network/peer.c:128-136 | a call can be sent if and only if every source of its packet fits in turn |
| Kernel.SendCall | module/network/peer.c:128-136 | the caller's serializing and sending |
| Kernel.CollectReply | module/network/peer.c:137-154 | the caller's receiving and decoding |
| Kernel.RepliesLookedAtExactly | module/network/peer.c:138-154 | a reply is looked at if and only if it is whole and of positive length |
| Protocol.CollectsExactly | module/network/peer.c:138-154 | a caller accepts values if and only if the reply carries an RPC packet of them behind a positive length |
| Kernel.CopyReturnValues | module/device/peer.c:85-88 | the copying loop, with the two ways it leaves its arrays |
| Kernel.CopiesBackExactly | module/device/peer.c:85-88 | copying back is defined if and only if there are no more values than slots, or no result and nothing expected; then it fills the first slots in order and touches no other |
| Library.CallBack | lib/src/interface.c:57-79 | arity check, callback and result packet |
| Library.ServeFrame | lib/src/interface.c:41-79 | one turn of the serving loop from whatever the receive left: the frame sent back, if any |
| Library.TurnFromFrame | lib/src/interface.c:42-79 | the turn depends on the kernel's frame only, not on what else is in the receive buffer |
| Library.FailedReceiveIsIgnored | lib/src/interface.c:44-56 | after a failed receive the zeroed packet is ignored unless the reserved id is managed |
| Library.EmptyPacketIsIgnored | lib/src/interface.c:46-48 | an empty packet is skipped |
| Library.SendHandshake | lib/src/interface.c:17-24 | the frame that announces all managed interfaces in order |
| Protocol.RequestEffect | module/interface.c:228-252 | a call's request is forwarded to its interface's port and takes its slot if and only if the id is live; a query has no effect, and exactly when it strays is undefined |
| Protocol.UserEffect | lib/src/interface.c:41-79 | a serving process answers with the callback's values for exactly the call's id and arguments if and only if the packet fits, the id is managed, the arity matches and the callback succeeds |
| Protocol.ResultEffect | module/interface.c:96-152 | a result reaches exactly the connection in its interface's slot, padding and surplus bytes behind the intact packet |
| Protocol.HandshakeEffect | module/interface.c:153-181 | a handshake frame activates exactly its ids |
| Protocol.ReplyEffect | module/network/peer.c:137-154 | a waiting caller gets exactly the values of the packet its reply carries |
| ProtocolSafety.StepKeeps | module/interface.c:96-252 | every step keeps every message in flight, slot and answer true to some call on the same interface |
| ProtocolSafety.ExecKeeps | module/interface.c:96-252 | so does every run |
| ProtocolSafety.AnswersComeFromTheCalledInterface | module/interface.c:126-150 | reply routing with any number of calls: an answer is the callback's result, of registered length, for the called id and the arguments of some call made to it |
| OneCallAtATime.StepSingle | module/interface.c:228-252 | if no interface is called with a call to it in service, every step keeps a served call's connection in its slot and its result on its way to itself |
| OneCallAtATime.AnswersAreOwn | module/network/peer.c:118-155 | end-to-end safety in such runs, calls refused, failed or lost before included: an answer is the callback's result for the caller's own id and arguments, of registered length |
| Answering.AnswerableCallIsInService | module/network/peer.c:128-136 | every call that would be answered on its own is in service, and will bring a result, once it is made |
| Answering.ImpatientCallCanMisroute | module/interface.c:244 | the converse: in any reachable state, with a call in service that will still bring a result, any further call to its interface has a continuation by deliveries alone in which it gets that call's values |
| Answering.CallIsAnsweredExactly | module/network/peer.c:118-155 | from any reachable state an undisturbed call is answered if and only if its interface is live, managed, of that arity, the packets fit and the callback succeeds; and then with the callback's values |
| Answering.ListenActivates | lib/src/interface.c:17-24 | a process that listens for any registered ids manages exactly those, and once its handshake is delivered each live one is activated with its port and nothing else has changed |
| Answering.ListeningInterfaceAnswers | lib/src/interface.c:17-79 | progress: in any reachable state, each of the live interfaces a process listens for then answers the next call with the callback's values |
| Answering.NewInterfaceAnswers | module/interface.c:153-252 | progress: an interface registered now, and any registered before that is served along with it, answers the next call with the callback's values |
| Answering.OverlapMisroutes | module/interface.c:244 | counterexample for two calls at once: the second caller gets the first one's result and the first has no way left to be answered |
| Answering.DisplacedForever | module/interface.c:137-146 | a connection in no slot and with no message under way is never answered, whatever happens |
| Answering.OvertakenCallIsNeverAnswered | module/interface.c:244 | so a forwarded call whose slot another has taken is lost |
| Answering.DeliveryShrinks | module/interface.c:96-252 | every delivery or loss lowers the number of hops the messages in flight have left |
| Answering.DeliveriesEnd | module/interface.c:96-252 | without new calls or handshakes at most that many deliveries can happen, in any order and whatever is registered or removed |
| EndToEnd.ProtocolRunsTheRegistry | module/interface.c:13-252 | the registry in any protocol run is that of a registry run with as many registrations, forwarding included |
| EndToEnd.RunKeepsFaith | module/interface.c:42 | whatever a node does after any moment, what it had registered then stands |
| EndToEnd.StaleCallIsAnswered | module/device/peer.c:63-84 | a call checked against an arbitrarily old view is answered if and only if its interface is still there and ready, whatever the node had in progress then and did since; arity is never the obstacle |
| EndToEnd.AnswerFillsCallersSlots | module/device/peer.c:84-88 | with any calls in progress the answer to a checked call fills the caller's array exactly |

## Left out

- RegistryTable.InterfaceTable.Register: requires the next id not to be in use, so a wrapped id that still is (after 2^32 registrations) is covered by `IdsFreshExactly` and not by the objects.
- OneCallAtATime.AnswersAreOwn: needs fewer than 2^32 - 1 registrations, beyond which ids repeat (`IdsFreshExactly`); so do the other statements over runs.
- Answering.CallIsAnsweredExactly: 16 readable bytes are taken to follow a netlink frame in memory, as in a socket buffer; without them passing on the over-counted length is undefined.
- EndToEnd.StaleCallIsAnswered: the node's protocol state is any one its registry in the discovery run can evolve to, calls in progress included; the caller and the server are not steps of one transition system.
- Library.CallBack: a callback is a function of id and arguments; one that fills some other number of slots than it was given does not occur and is put with the failures. A callback that leaves a slot unset makes the serializer read through NULL and is undefined.
- Peers.CheckIoctl: the copies of argument values from user memory are value copies.
- Kernel.HandleConnection: a request arrives whole or is refused; a short read, after which the code goes on with a zero-padded buffer, is not modelled.
- Kernel.CollectReply: likewise a reply that arrives in part counts as none.
- Kernel.Result: without the printing between the TEST marks of `handle_interface_result` (module/interface.c:132-135), which decodes the packet and reads outside the array for a result without values.
- Kernel.CopyReturnValues: the room behind each of the caller's addresses.
- Proc.ReadExactly: what `sprintf` makes of a line is a parameter; so is the type of text.
- RegistryTable.InterfaceTable: the pointer array is a sequence field and its reallocation only the capacity; freed objects stay where nothing points to them.
- The handshake's and the library's own copies of an interface: a process is taken to manage only ids that were registered, with the arities they were registered with.
- A call to the reserved id through `execute_remote_interface`, whose description would come back without a length: no cached entry has that id.
- A frame to port 0, for an interface never activated, goes to no process.
- The transport of `fetch_remote_interface_info` (module/network/peer.c:83-116), which sends no length although `handle_connection` reads one; its packet formats and the kernel's answer are modelled.
- Partial writes on TCP connections. Datagrams too large to send count as lost.
- Allocation failure, reclamation, locking between kernel threads.
- Socket, netlink, device and procfs set-up and removal; logging; waiting times.
- `peer_read` (module/device/peer.c:20-38), the broadcast address arithmetic (module/network/broadcast.c:70-82), `get_portid` (lib/src/netlink.c:3-5): isolated, with only easy members.
