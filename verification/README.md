# A verified model of the LON stack

This project models the stateful parts of a C implementation of the ISO/IEC 14908-1 protocol stack and
proves what they keep over whole runs. Each component of the stack is a Dafny module: code that updates
fields and buffers is a class or a method over arrays, and is proved against functions on values; the
properties are lemmas about those functions, over every input or every run.

| module | component |
|---|---|
| `Bytes` | bytes, 32-bit words, memory copy |
| `SlotQueue`, `ByteRing` | the slot queue filled in place through its tail pointer, and the chunked byte ring |
| `Timers` | 32-bit millisecond timers that wrap |
| `TransactionControl` | transaction numbers and the aging table of destinations |
| `Ibol` | the byte-order programs that convert between host and network images, also of unions |
| `SelfIdentification` | the packed self-identification area, and the windows of it that are served |
| `NvScheduler` | groups of network variable updates, one message in flight |
| `NetworkPdu`, `NetworkLayer`, `NetworkReceive` | NPDU encoding, address filter, completion events |
| `LonAddress`, `AddressMapping` | LON addresses as IPv4 addresses, and the mapping cache |
| `LonUdp`, `LonUdpLink` | LON/UDP payloads, and the two conversions on their buffers |
| `LonUdpMembership` | the multicast addresses a node joins, and which messages it hears |
| `Md5`, `ImageHash`, `ImageTransfer` | streaming MD5 (RFC 1321), timer-driven hashing, packet bookkeeping across power loss |
| `Proxy` | source routing by proxy repeaters |

Each class has a `Model()` (or `Table()`, `Contents()`, `Holds`) that gives its abstract value; a method's
contract equates the new value with a function of the old one.

## Where the code and its promises part

The model does what the code does. Where that falls short of what the code's comments or callers expect,
a lemma gives the exact condition under which the expectation holds, or a concrete failing input.

- A queue counts as full at its capacity but refuses a write one slot earlier (`SlotQueue.NotFullIsNotEnough`,
  `NetworkLayer.SuccessIsPlacedIff`, `NvScheduler.GroupCompleteIff`, `NvScheduler.EndMarkLost`).
- An eviction from the transaction table stores the domain length in the wrong slot
  (`TransactionControl.EvictionSwapsLengths`, `TransactionControl.WrongLengthRepeatsNumber`).
- A repeating timer polled exactly one period late stops (`Timers.OnePeriodLateStops`); the time remaining is almost
  the whole tick range when the deadline falls between the two clock readings (`Timers.RemainingIff`).
- SendVar can take an index off its queue and send nothing; the scheduler then never moves again
  (`NvScheduler.LostIffStalled`, `NvScheduler.StallIsForever`).
- AddNV tests the value length after it used up a selector (`SelfIdentification.SelfIdArea.AddNV`).
- A group acknowledgement in a foreign domain keeps its selection bit and is misread (`NetworkPdu.ForeignAckIsMisread`).
- The comment above NetworkLayerReceive says that a wrong protocol version is discarded; the code accepts every version.
- The flag for group responses with an explicit destination goes to a byte that is overwritten, and the test for
  services that want backlog information reads the byte in front of the PDU (`LonUdp.RoundTripIff`, `LonUdp.BacklogRightIff`,
  `LonUdp.BacklogRightForOne`).
- RestoreIpMembership gathers all groups in one variable, so a member of groups 5 and 8 joins groups 5 and 13
  (`LonUdpMembership.AllGroupsHeardIff`, `LonUdpMembership.SecondGroupIsDeaf`).
- A derived address of subnet or node 0 names the zero-length domain, and two prefixes are reserved
  (`LonAddress.DerivedNamesDomainIff`); an announcement in a 1-byte domain is not compared with that domain
  (`AddressMapping.AnnouncementReachesIff`); taking subnets back reaches only the first slot of each
  (`AddressMapping.SubnetsForgottenIff`).
- An announced image transfer is in force at once, but the flags of the one before are erased 500 ms later: packets
  taken in between leave flags that are wrong after a power loss (`ImageTransfer.RunKeepsIff`,
  `ImageTransfer.ServedTooEarly`, `ImageTransfer.WrongFlagComesBack`), and a confirmation can answer success with nothing
  received (`ImageTransfer.ConfirmFooledIff`, `ImageTransfer.ConfirmsNothing`). A count without room for its flags is
  refused after it was stored, and a header write that power cuts short can leave any count
  (`ImageTransfer.BeginCutIff`). Persistent data read twice doubles the packet count (`ImageTransfer.RestoreOnlyOnce`),
  and a packet number that was not announced is counted (`ImageTransfer.CountExactIffAnnounced`).
- A failed VerifyImage is forgotten by the time hashing ends (`ImageHash.ImageHasher.RunEvents`).
- A proxy repeater writes the next header into its input before it looks at the output queue, so a message that has
  to wait is read again from changed bytes (`Proxy.RetryIff`). Its copy for itself as an agent is one byte too long
  (`Proxy.AgentCopyIsLonger`, `Proxy.CopyRequests`), is made again with every attempt, and stops the timer that should
  end the attempts after a second (`Proxy.GivesUpIff`, `Proxy.CopiesUntilThereIsRoom`). The copy takes its service from
  the message, not the unacknowledged one set for it.

## Model

| member | source | states |
|---|---|---|
| `SlotQueue.FifoOverRuns` | lcs/lcs_queue.c:195-348 | over every interleaving of fill, write, drop and flush: what was there plus what was accepted is what left plus what remains, in order; never more than capacity - 1 entries |
| `SlotQueue.NotFullIsNotEnough` | lcs/lcs_queue.c:135-145 | "not full" promises the write except when exactly one slot is left |
| `SlotQueue.FillKeepsRing` | lcs/lcs_queue.c:338-348 | bytes written into the reserved tail slot change no live entry of the ring |
| `SlotQueue.SlotsApart` | lcs/lcs_queue.c:195-228 | slots reached by stepping one entry size at a time do not overlap |
| `SlotQueue.OffsetIsProduct` | lcs/lcs_queue.c:195-228 | stepping pointers agree with index times entry size, so pointers and indices stay in step |
| `SlotQueue.Queue.constructor` | lcs/lcs_queue.c:41-68 | an empty queue of the given capacity, its pointers at the first slot |
| `SlotQueue.Queue.IsFull` | lcs/lcs_queue.c:135-145 | full exactly when the entries reach the capacity |
| `SlotQueue.Queue.Tail` | lcs/lcs_queue.c:338-348 | hands out the slot behind the live entries, or none if the queue is unusable |
| `SlotQueue.Queue.Peek` | lcs/lcs_queue.c:309-328 | hands out the slot of the oldest entry, or none |
| `SlotQueue.Queue.FillTail` | lcs/lcs_queue.c:338-348 | a client filling the tail slot leaves the queue's value alone |
| `SlotQueue.Queue.Write` | lcs/lcs_queue.c:269-299 | appends what was filled in, unless that would leave no reserved slot |
| `SlotQueue.Queue.DropHead` | lcs/lcs_queue.c:195-228 | removes the oldest entry and only that |
| `SlotQueue.Queue.Flush` | lcs/lcs_queue.c:240-255 | empties the queue and keeps its capacity |
| `ByteRing.ChunkAppends` | lcs/lcs_queue.c:415-435 | a chunk copied in behind the stored bytes extends the stored sequence by exactly that chunk |
| `ByteRing.ReadDrops` | lcs/lcs_queue.c:476-485 | moving the read position on removes exactly the oldest bytes |
| `ByteRing.RingBuffer.Init` | lcs/lcs_queue.c:361-372 | an empty ring that can hold the requested number of bytes |
| `ByteRing.RingBuffer.Write` | lcs/lcs_queue.c:415-435 | appends the longest prefix that fits and answers its length |
| `ByteRing.RingBuffer.Peek` | lcs/lcs_queue.c:446-465 | hands out the oldest bytes, as many as are asked for and there, and changes nothing |
| `ByteRing.RingBuffer.Read` | lcs/lcs_queue.c:476-485 | hands out the oldest bytes and removes exactly those |
| `Timers.LonTimer.Set` | lcs/lcs_timer.c:33-50 | starts or stops the timer; durations are capped and a tick of 0 is avoided |
| `Timers.LonTimer.SetRepeat` | lcs/lcs_timer.c:65-75 | starts a repeating timer |
| `Timers.LonTimer.Expired` | lcs/lcs_timer.c:88-108 | answers and re-arms as the specification of a poll says, with two clock readings |
| `Timers.LonTimer.Running` | lcs/lcs_timer.c:123-127 | running exactly while the deadline is ahead |
| `Timers.LonTimer.Remaining` | lcs/lcs_timer.c:137-145 | the answer for its two clock readings, one to see whether the timer runs and one for the difference |
| `Timers.RemainingIff` | lcs/lcs_timer.c:123-145 | the time to the deadline as of the second reading, 0 from the deadline on, exactly unless the deadline falls strictly between the readings; then nearly 2^32 |
| `Timers.SetAwaits` | lcs/lcs_timer.c:33-50 | a started timer waits for start plus duration, moved by 1 ms if that tick reads 0 |
| `Timers.FiresFromDeadline` | lcs/lcs_timer.c:88-108 | within half the tick range a timer fires exactly from its deadline on, across wraps of the counter |
| `Timers.OneShotFiresOnce` | lcs/lcs_timer.c:88-108 | in every run of polls a one-shot timer answers once, at the first poll at or after its deadline, if that comes within 2^31 ms |
| `Timers.RepeatOnePoll` | lcs/lcs_timer.c:88-108 | what one poll does for every lateness: keeps the phase, starts a new one, or stops |
| `Timers.OnePeriodLateStops` | lcs/lcs_timer.c:99-103 | after a poll exactly one period late a repeating timer never fires again |
| `Timers.RepeatKeepsSchedule` | lcs/lcs_timer.c:88-108 | polled less than a period late each time, a timer that fired k times waits for the k-th deadline of a fixed schedule |
| `Timers.RepeatFromStart` | lcs/lcs_timer.c:65-108 | started with two durations and polled promptly, a timer fires after the first and from then on every second one |
| `Timers.ScheduleDrift` | lcs/lcs_timer.c:33-50 | the schedule departs from exact periods by at most 1 ms per wrap of the counter |
| `TransactionControl.SuccessiveNumbersDiffer` | lcs/lcs_tcs.c:109-281 | two successive transactions of one priority to one destination within 24 s get different numbers, whatever other destinations, evictions and software resets intervene |
| `TransactionControl.StillRemembered` | lcs/lcs_tcs.c:109-281 | between them the table remembers the first number |
| `TransactionControl.NewTransRecords` | lcs/lcs_tcs.c:109-281 | a number in 0..15, a table without duplicates, and the number remembered for 24 s |
| `TransactionControl.NewTransKeepsOthers` | lcs/lcs_tcs.c:206-281 | what is remembered of one destination survives transactions to others, evictions included |
| `TransactionControl.NewTransDiffers` | lcs/lcs_tcs.c:141-222 | a remembered destination gets another number |
| `TransactionControl.StartsIff` | lcs/lcs_tcs.c:132-281 | exactly when a call starts a transaction, and what it answers otherwise |
| `TransactionControl.RunKeepsInv` | lcs/lcs_tcs.c:59-330 | over every run numbers stay in 0..15 and each destination is in the table at most once |
| `TransactionControl.ValidatesWhatIsPending` | lcs/lcs_tcs.c:341-357 | ValidateTrans accepts exactly the number last started and neither finished nor reset, over every run |
| `TransactionControl.NumbersGoRound` | lcs/lcs_tcs.c:59-330 | over every run the numbers of a priority go round 1 to 15 from 0 at a reset, one step for every transaction ended and one for every number skipped because the destination had it last |
| `TransactionControl.ResetForgets` | lcs/lcs_tcs.c:59-83 | nothing is remembered after a reset exactly unless it was a software one; the number starts at 0 |
| `TransactionControl.OneLengthIsSound` | lcs/lcs_tcs.c:109-281 | requests for valid domains of one length, on tables of that length, meet the domain and length conditions at every call of a run |
| `TransactionControl.OneLengthNumbersDiffer` | lcs/lcs_tcs.c:109-281 | from empty tables such requests get different numbers for two successive transactions to one destination within 24 s, with no condition on the states between |
| `TransactionControl.NoDuplicateIff` | lcs/lcs_tcs.c:145-281 | a call whose length goes where it belongs, evicting or not, keeps the table free of duplicates exactly when its domain is valid, or it starts nothing, or no entry that stays has its destination |
| `TransactionControl.InvalidDomainIff` | lcs/lcs_tcs.c:145-163 | the same for a call on an invalid domain, which never finds its entry |
| `TransactionControl.EvictionSwapsLengths` | lcs/lcs_tcs.c:235-258 | an eviction leaves both domain lengths right exactly when the evicted entry is the last or the lengths agree |
| `TransactionControl.WrongLengthRepeatsNumber` | lcs/lcs_tcs.c:235-281 | a concrete run in which the misplaced length makes one destination get one number twice |
| `TransactionControl.TransSide.Search` | lcs/lcs_tcs.c:145-204 | the first matching entry, or none |
| `TransactionControl.TransSide.SearchOld` | lcs/lcs_tcs.c:226-244 | the first entry whose time is up, or none |
| `TransactionControl.TransSide.AddEntry` | lcs/lcs_tcs.c:246-280 | the new entry behind the table, the domain length where the searches stopped |
| `TransactionControl.TransSide.NewTrans` | lcs/lcs_tcs.c:109-281 | the new table, counter and answer of one call, its error cases included |
| `TransactionControl.TransSide.TransDone` | lcs/lcs_tcs.c:308-330 | ends the transaction and steps the counter, keeping the table |
| `TransactionControl.TransSide.Reset` | lcs/lcs_tcs.c:59-83 | clears the state, and the table too unless the reset was a software one |
| `Ibol.RoundTripIff` | lcs/lcs_app.c:1771-1873 | decoding after encoding gives back a host image exactly when bytes that share a network position are equal |
| `Ibol.RoundTripForAllIff` | lcs/lcs_app.c:1771-1873 | a program gives back every image exactly when it uses no position twice |
| `Ibol.DisjointIffInjective` | lcs/lcs_app.c:1827-1873 | no position is used twice exactly when the network regions of the instructions are pairwise disjoint |
| `Ibol.DisjointRoundTrip` | lcs/lcs_app.c:1771-1873 | with disjoint regions the pair of conversions is the identity on every host image |
| `Ibol.ProgramReadsBack` | lcs/lcs_app.c:1782-1791 | a program written for a list of offsets, sizes and counts, in the short or the long form, is read as that list |
| `Ibol.HostToNetAt` | lcs/lcs_app.c:1796-1811 | where byte h of element e of instruction k is on the network: elements in order, the bytes of each in the opposite order |
| `Ibol.InstrMapAt` | lcs/lcs_app.c:1796-1811 | the same within one instruction |
| `Ibol.ProgramSwaps` | lcs/lcs_app.c:1771-1815 | the host image that such a program reads, byte by byte |
| `Ibol.RereadAt` | lcs/lcs_app.c:1771-1873 | after a round trip a host byte holds what the last byte of its position held |
| `Ibol.UnionMembersAgree` | lcs/lcs_app.c:1911-1928 | after an update all union members agree with one network image: encoding again, over any buffer, gives that image on every position used |
| `Ibol.UnionNetAt` | lcs/lcs_app.c:1911-1928 | which host byte decides each network position after the two encodings |
| `Ibol.MemberKeepsBytesIff` | lcs/lcs_app.c:1911-1928 | the member just written keeps its bytes exactly when its bytes that share a position agree |
| `Ibol.StopsAtBoundaryIff` | lcs/lcs_app.c:1827-1873 | the second encoding ends at the member's end exactly when that is an instruction boundary |
| `Ibol.WrittenMemberSurvives` | lcs/lcs_app.c:1911-1928 | a member on an instruction boundary whose own regions are disjoint keeps its value |
| `Ibol.SwapByte` | lcs/lcs_app.c:1750-1760 | the bytes reversed into their place, the rest unchanged |
| `Ibol.NdiToHdi` | lcs/lcs_app.c:1771-1815 | every host byte comes from the network position the program names |
| `Ibol.HdiToNdi` | lcs/lcs_app.c:1827-1873 | the network image written over in host order, up to the instruction that reaches the stop offset |
| `Ibol.PrepareNetworkData` | lcs/lcs_app.c:1890-1897 | the copied value with the program's bytes over it |
| `Ibol.UpdateUnion` | lcs/lcs_app.c:1911-1928 | the host image is the decoding of the doubly encoded network image |
| `Ibol.RecomputeLength` | lcs/lcs_app.c:2229-2248 | the length recomputed from a program is the number of host bytes the conversion produces |
| `SelfIdentification.SelfIdArea.constructor` | lcs/lcs_app.c:334-358 | an area with no variables, the node self-documentation and the alias field |
| `SelfIdentification.SelfIdArea.AddNV` | lcs/lcs_app.c:1377-1739 | the area encodes the registered definitions in order, header fields match, nothing passes the buffer end; a rejection leaves the area alone |
| `SelfIdentification.SelfIdArea.Check` | lcs/lcs_app.c:1409-1541 | accepts exactly the definitions that fit the tables and the area |
| `SelfIdentification.FitsIff` | lcs/lcs_app.c:1409-1541 | what is accepted in terms of the longer area, the tables, the strings and a selector for every element |
| `SelfIdentification.ExtFlags` | lcs/lcs_app.c:1643-1711 | which bit of the extension byte announces which field |
| `SelfIdentification.SelfIdArea.TakeSelectors` | lcs/lcs_app.c:1551-1589 | uses selectors for bindable elements, and rejects a long value only after the first |
| `SelfIdentification.SelfIdArea.MakeRoom` | lcs/lcs_app.c:1621-1631 | everything behind the descriptors moves on by one descriptor, unchanged |
| `SelfIdentification.SelfIdArea.WriteExt` | lcs/lcs_app.c:1643-1711 | the extension record of exactly the fields its flags announce |
| `SelfIdentification.SelfIdArea.Insert` | lcs/lcs_app.c:1610-1723 | descriptor in the middle and extension record at the end give the encoding of the longer list |
| `SelfIdentification.SelfIdArea.QueryWindow` | lcs/lcs_netmgmt.c:643-695 | every window is the matching slice of header followed by area |
| `SelfIdentification.AreaSnoc` | lcs/lcs_app.c:1610-1723 | inserting into the packed area is encoding the list with one more definition |
| `SelfIdentification.AreaReadsBack` | lcs/lcs_app.c:1421-1739 | a reader that knows only the number of variables recovers every definition, the self-documentation and the alias field |
| `SelfIdentification.SelfIdReadsBack` | lcs/lcs_app.c:334-358 | a tool that reads length and count from the header recovers everything that was registered |
| `SelfIdentification.ExtsReadBack` | lcs/lcs_app.c:1643-1711 | the extension records of any list can be told apart and read back |
| `SelfIdentification.ExtReadsBack` | lcs/lcs_app.c:1643-1711 | one extension record reads back, whatever follows it |
| `SelfIdentification.StringReadsBack` | lcs/lcs_app.c:1643-1711 | a terminated string reads back, whatever follows it |
| `NvScheduler.RunMatches` | lcs/lcs_app.c:2371-2820 | over every run in which groups fit and no message is lost, the queue is a picture of a line of groups, at most one message is out, and every event names a primary by the base of its first array and the position in it: an error exactly if a message of the group failed, success at once for what is not bound, failure at once for what could not be sent |
| `NvScheduler.PropagateMatches` | lcs/lcs_app.c:2371-2423 | a propagation that fits adds one whole group and its end mark |
| `NvScheduler.SendMatches` | lcs/lcs_app.c:2578-2820 | sending serves the first group only and reports it when it ends with nothing outstanding |
| `NvScheduler.CompleteMatches` | lcs/lcs_app.c:585-607 | a completion is credited to the group in progress |
| `NvScheduler.CompletionIff` | lcs/lcs_app.c:585-607 | in every state: only the end of a group is reported, and only to a running application, as an error exactly if a message failed since the last report |
| `NvScheduler.ImmediateIff` | lcs/lcs_app.c:2371-2423 | for every queue: a propagation is reported at once exactly if nothing was queued, as a success exactly if neither the variable nor an alias has an address |
| `NvScheduler.EligibleIs` | lcs/lcs_app.c:2384-2402 | an update goes to every output variable among the primary and its aliases, once, in table order |
| `NvScheduler.BoundIff` | lcs/lcs_node.c:783-824 | bound exactly if the variable or an alias of it has an address or is for this node |
| `NvScheduler.CompletedNames` | lcs/lcs_app.c:3332-3361 | the index of an event is the start of the first array with the primary, or the primary |
| `NvScheduler.LineIsFifo` | lcs/lcs_app.c:2371-2820 | propagated primaries are finished once each and in order |
| `NvScheduler.GroupCompleteIff` | lcs/lcs_app.c:2371-2423 | a whole group with its end mark is queued exactly when two more slots than indices are free |
| `NvScheduler.EndMarkLost` | lcs/lcs_app.c:2389-2416 | a concrete group whose indices are queued and whose end mark is lost |
| `NvScheduler.LostIffStalled` | lcs/lcs_app.c:2770-2820 | the scheduler can go on, or waits for a message that is under way, exactly when SendVar did not lose the message |
| `NvScheduler.StallIsForever` | lcs/lcs_app.c:2578-2820 | a stalled scheduler never sends or completes anything again; it only reports propagations of which nothing was queued |
| `NvScheduler.TagsRoundTrip` | include/lcs/lcs_app.h:123-135 | the tag of an update names its index and is never taken for an end of group |
| `NvScheduler.Scheduler.IsNVBound` | lcs/lcs_node.c:783-824 | bound exactly if the variable or one of its aliases leads somewhere |
| `NvScheduler.Scheduler.BaseIndex` | lcs/lcs_app.c:3332-3361 | the base index of the array a primary index belongs to; any other index is its own |
| `NvScheduler.Scheduler.QueueGroup` | lcs/lcs_app.c:2389-2416 | the primary and its aliases in order, while more than one slot is free |
| `NvScheduler.Scheduler.PropagateThisPrimary` | lcs/lcs_app.c:2371-2423 | the queue after a propagation, with the immediate completion of unbound variables |
| `NvScheduler.Scheduler.SendVar` | lcs/lcs_app.c:2578-2820 | the scheduler after one turn, with the message handed down or the event of a finished group |
| `NvScheduler.Scheduler.HandleMsgCompletion` | lcs/lcs_app.c:585-607 | the scheduler after a completion: failures are remembered until the group ends |
| `NetworkPdu.DomainLengthsRoundTrip` | lcs/lcs_network.c:848-894 | encoding and decoding are inverse, and lengths other than 0, 1, 3 and 6 have no code |
| `NetworkPdu.FieldsOnWire` | lcs/lcs_network.c:240-417 | where each field of a built NPDU is found by the receiving side, in every address mode |
| `NetworkPdu.BuiltIff` | lcs/lcs_network.c:240-425 | exactly when a packet is built, by the state of the node, the domain and the sum of the sizes |
| `NetworkPdu.AcceptedAsSent` | lcs/lcs_network.c:525-836 | any node that accepts a packet recovers version, type, source, destination, domain and PDU; 6-byte domains are never accepted |
| `NetworkPdu.AcceptedIff` | lcs/lcs_network.c:525-836 | in a common domain the nodes that accept a packet, for every address mode |
| `NetworkPdu.ForeignAcceptedIff` | lcs/lcs_network.c:575-745 | what a node accepts in a domain it does not have |
| `NetworkPdu.DomainIndexIff` | lcs/lcs_network.c:575-645 | which entry of the domain table a packet counts for |
| `NetworkPdu.AcceptedByAddressee` | lcs/lcs_network.c:525-836 | among nodes of one domain a subnet/node packet is accepted exactly by the addressed node other than the sender, unless it is empty |
| `NetworkPdu.ForeignAckIsMisread` | lcs/lcs_network.c:323-417 | a group acknowledgement in a foreign domain is read as a subnet/node message |
| `NetworkLayer.RunIsFaithful` | lcs/lcs_network.c:156-473 | over every run with room in the target queues: one completion per APDU taken, with its tag, successful exactly if its packet was built and queued; none for other PDUs; order kept per priority, nothing lost or doubled |
| `NetworkLayer.StepIsFaithful` | lcs/lcs_network.c:190-473 | one step keeps the same books |
| `NetworkLayer.PriorityFirst` | lcs/lcs_network.c:208-222 | a priority message that can be served keeps the turn from the normal queue, and waits only for room for its completion |
| `NetworkLayer.TakenIff` | lcs/lcs_network.c:190-235 | exactly when a turn takes the first message of which queue |
| `NetworkLayer.EverythingIsServed` | lcs/lcs_network.c:190-473 | given room, as many turns as there are messages serve them all, with all the books of a run |
| `NetworkLayer.SuccessIsPlacedIff` | lcs/lcs_network.c:208-222 | a built message reaches the link queue exactly when that is not down to its reserved slot |
| `NetworkLayer.NetworkSender.Send` | lcs/lcs_network.c:190-473 | one turn of NetworkLayerSend on the five queues |
| `NetworkLayer.NetworkSender.BuildNpdu` | lcs/lcs_network.c:240-425 | the packet bytes in the link queue's tail slot, or exactly the drop cases |
| `NetworkLayer.NetworkSender.Terminate` | lcs/lcs_network.c:156-174 | the message is dropped, with a failed completion if it was an APDU |
| `NetworkLayer.NetworkSender.WriteSourceAndLength` | lcs/lcs_network.c:317-359 | source address with its selection bit, and the length code or an error |
| `NetworkLayer.NetworkSender.WriteDest` | lcs/lcs_network.c:365-403 | the destination bytes of each address mode behind what is written |
| `NetworkLayer.NetworkSender.WriteRest` | lcs/lcs_network.c:365-425 | destination, domain and PDU in place, exactly if the packet fits |
| `NetworkReceive.SendThenReceive` | lcs/lcs_network.c:190-836 | at either priority and in every address mode, from one node's output queue to another's upper layer: one indication with the message's fields, exactly at the nodes it is for and exactly if it fits and is not empty |
| `NetworkReceive.ReceiveIff` | lcs/lcs_network.c:497-839 | every turn takes the first packet and changes one upper queue exactly if it accepts the PDU |
| `NetworkReceive.NetworkReceiver.ReceivePacket` | lcs/lcs_network.c:497-839 | the head packet leaves the input queue and its PDU enters the queue of its type, or neither queue changes |
| `NetworkReceive.NetworkReceiver.Filter` | lcs/lcs_network.c:525-745 | the verdict on every packet, drop rules in order |
| `NetworkReceive.NetworkReceiver.CheckDest` | lcs/lcs_network.c:645-715 | whether a destination is for this node, in each address mode |
| `NetworkReceive.NetworkReceiver.SearchGroup` | lcs/lcs_node.c:166-189 | a member exactly if some group entry names group and domain |
| `LonAddress.DerivedNamesDomainIff` | lon_udp/ipv4_to_lon_udp.c:80-111 | a derived address names its domain exactly for 0, 1 or 3 bytes ending in 0, outside the reserved prefixes, with a real subnet and node |
| `LonAddress.MulticastMeetsIff` | lon_udp/ipv4_to_lon_udp.c:852-872 | broadcast and group addresses are all different, and meet a derived unicast address only in one domain |
| `LonAddress.PrefixNamesDomain` | lon_udp/ipv4_to_lon_udp.c:80-111 | the same for a prefix alone |
| `AddressMapping.RunRefines` | lon_udp/lon_udp_mapping_util.c:84-513 | over every run live keys are distinct, no earlier slot has the key of a later live one, and the table amounts to a memory of names and routes that the same operations make by themselves, knowing no slot states |
| `AddressMapping.StepRefines` | lon_udp/lon_udp_mapping_util.c:342-513 | each operation does to the table what it does to that memory: which slots are in use, which names a subnets message is about and when everything is forgotten follows from names and routes |
| `AddressMapping.InUseIff` | lon_udp/lon_udp_mapping_util.c:84-108 | a slot is live exactly if its name has a route and no slot before it has that name |
| `AddressMapping.LearnRefines` | lon_udp/lon_udp_mapping_util.c:84-164 | learning changes one key, or forgets everything else when 50 others are held |
| `AddressMapping.CacheHas` | lon_udp/lon_udp_mapping_util.c:84-108 | a lookup finds a live slot exactly for the keys of the map, with the mapped route |
| `AddressMapping.CacheSize` | lon_udp/lon_udp_mapping_util.c:143-153 | no slot is free exactly when the map is as large as the table |
| `AddressMapping.SubnetsAt` | lon_udp/lon_udp_mapping_util.c:401-428 | a subnets message changes a slot exactly if its subnet is flagged and no earlier slot has it |
| `AddressMapping.BitmapIsOfSubnets` | lon_udp/lon_udp_mapping_util.c:401-428 | byte k of a bitmap is the number whose digits flag subnets 8 k to 8 k + 7, the first in the highest digit |
| `AddressMapping.SubnetsRefines` | lon_udp/lon_udp_mapping_util.c:401-428 | it sets or removes the named keys and keeps all others |
| `AddressMapping.SubnetsForgottenIff` | lon_udp/lon_udp_mapping_util.c:401-428 | flagged subnets are forgotten exactly if each live slot of theirs was the first of its subnet |
| `AddressMapping.SetReaches` | lon_udp/lon_udp_mapping_util.c:291-384 | after an address is set, messages for it go there |
| `AddressMapping.AnnouncementReachesIff` | lon_udp/lon_udp_mapping_util.c:461-498 | an announcement makes messages go to its sender exactly unless the address was taken for a derived one that it is not |
| `AddressMapping.MappingTable.FindMappingInfo` | lon_udp/lon_udp_mapping_util.c:84-108 | the slot of the key, exactly if the cache has it |
| `AddressMapping.MappingTable.FindAvailMappingInfo` | lon_udp/lon_udp_mapping_util.c:124-164 | the first free slot, a new one, or slot 0 of a table started over |
| `AddressMapping.MappingTable.SetArbitraryAddressMapping` | lon_udp/lon_udp_mapping_util.c:342-356 | the cache maps the address to the given IP address |
| `AddressMapping.MappingTable.SetDerivedAddressMapping` | lon_udp/lon_udp_mapping_util.c:373-384 | the cache maps the address to its derived one |
| `AddressMapping.MappingTable.UpdateMapping` | lon_udp/lon_udp_mapping_util.c:461-498 | the table after an announcement |
| `AddressMapping.MappingTable.SetDerivedSubnetsMapping` | lon_udp/lon_udp_mapping_util.c:401-428 | the table and the cache after a subnets message, bit by bit |
| `AddressMapping.MappingTable.ClearMapping` | lon_udp/lon_udp_mapping_util.c:506-513 | nothing is known, although the slots stay counted |
| `LonUdp.RoundTripIff` | lon_udp/ipv4_to_lon_udp.c:194-765 | at the addressee a message comes back with version, type, priority, source, destination, domain and PDU, in every address mode and whether or not the sender's address is the derived one, exactly if its domain is readable and a group response goes to a node known to use its derived address |
| `LonUdp.SourceRoundTripIff` | lon_udp/lon_udp_mapping_util.c:186-268 | source field and IP source restore source and, exactly if readable, domain |
| `LonUdp.TargetRoundTripIff` | lon_udp/lon_udp_mapping_util.c:291-323 | destination field and receiver restore the destination; group responses only to known derived addresses |
| `LonUdp.ReplyReachesSender` | lon_udp/lon_udp_mapping_util.c:291-384 | after a message arrived, whatever the receiver's cache held, its messages to the sender's subnet and node go to the sender's IP address, known as derived exactly if it is |
| `LonUdp.ResponseArrivesIff` | lon_udp/ipv4_to_lon_udp.c:194-765 | a group response from a node that learned the requester from the request arrives as one exactly if the requester uses its derived address |
| `LonUdp.PayloadLayout` | lon_udp/ipv4_to_lon_udp.c:205-376 | what each byte and bit of a payload says |
| `LonUdp.AnnouncementTaken` | lon_udp/ipv4_to_lon_udp.c:724-751 | what an announcement does to any table, behind learning its sender: subnets set or taken back as its third byte says, or the node's messages sent where it came from |
| `LonUdp.DroppedIff` | lon_udp/ipv4_to_lon_udp.c:211-215 | exactly which messages are not sent, which payloads are dropped, and which are kept as announcements |
| `LonUdp.SourceIsOwn` | lon_udp/lon_udp_mapping_util.c:186-268 | a connected sender always names its own address as the IP source |
| `LonUdp.BacklogRightIff` | lon_udp/ipv4_to_lon_udp.c:231-237 | for which messages backlog goes with the right services: never wrong outside multicasts of TPDUs and SPDUs; of those in 3-byte domains right exactly for acknowledged ones, else exactly if the last domain byte, or in the zero-length domain the subnet or group, looks like the PDU |
| `LonUdp.BacklogRightForOne` | lon_udp/ipv4_to_lon_udp.c:231-237 | under one header, exactly one of an acknowledged and an unacknowledged PDU is treated right |
| `LonUdp.NpduCrosses` | lon_udp/ipv4_to_lon_udp.c:994-1165 | the NPDU that the receiving link layer passes up is byte for byte the one the sending network layer built |
| `LonUdpMembership.RestoreIpMembership` | lon_udp/ipv4_to_lon_udp.c:147-170 | the addresses joined, with the own one, are those the node listens on |
| `LonUdpMembership.HeardIff` | lon_udp/ipv4_to_lon_udp.c:216-313 | a broadcast or a message to a neuron ID is heard exactly by the nodes it may be for, a group message by those that joined its address |
| `LonUdpMembership.JoinedIff` | lon_udp/ipv4_to_lon_udp.c:147-170 | the address of a group is joined exactly if the group has the bits of all groups before it in the table, or was gathered before |
| `LonUdpMembership.AllGroupsHeardIff` | lon_udp/ipv4_to_lon_udp.c:147-170 | a node hears all of its groups exactly if its table lists them in that order |
| `LonUdpMembership.SecondGroupIsDeaf` | lon_udp/ipv4_to_lon_udp.c:147-170 | a concrete node that never hears its second group |
| `LonUdpMembership.AddresseeHearsIff` | lon_udp/lon_udp_mapping_util.c:291-323 | a subnet/node message or group response reaches its node exactly if the sender does not know the address or knows the right one |
| `LonUdpLink.MessageInBytes` | lon_udp/ipv4_to_lon_udp.c:194-382 | the fields the conversion reads from an NPDU are those it was written with |
| `LonUdpLink.LonUdpLink.ConvertLonVxToLonUdp` | lon_udp/ipv4_to_lon_udp.c:194-382 | the buffer holds the payload of the message that was in it, with the addresses to send from and to; nothing for other versions |
| `LonUdpLink.LonUdpLink.ConvertLonUdpToLonVx` | lon_udp/ipv4_to_lon_udp.c:464-765 | the buffer holds the NPDU heard, or nothing for what is dropped or announced, and the mapping table has learned what came with it |
| `LonUdpLink.LonUdpLink.ConvertRest` | lon_udp/ipv4_to_lon_udp.c:574-765 | the same from the destination on |
| `LonUdpLink.LonUdpLink.Rewrite` | lon_udp/ipv4_to_lon_udp.c:325-376 | the PDU moved within its buffer and the header in front of it are the payload, whether they overlap or not |
| `LonUdpLink.LonUdpLink.PlanDest` | lon_udp/ipv4_to_lon_udp.c:216-322 | destination address, format and field of each address format |
| `LonUdpLink.LonUdpLink.GetArbitrarySource` | lon_udp/lon_udp_mapping_util.c:186-268 | the source field and the address used |
| `LonUdpLink.LonUdpLink.GetDestination` | lon_udp/lon_udp_mapping_util.c:291-323 | where the cache sends a message, and whether the destination must be included |
| `LonUdpLink.LonUdpLink.GetDomainLenEncoding` | lon_udp/ipv4_to_lon_udp.c:124-135 | the code of a length, 0 for a length that has none |
| `LonUdpLink.LonUdpLink.ReadSource` | lon_udp/ipv4_to_lon_udp.c:514-572 | source and domain from the payload or the IP source |
| `LonUdpLink.LonUdpLink.ReadTarget` | lon_udp/ipv4_to_lon_udp.c:574-652 | destination bytes of every known format |
| `LonUdpLink.HeaderGrowth` | lon_udp/ipv4_to_lon_udp.c:325-376 | the new header is at most two bytes longer than the old one |
| `Md5.BlocksConcat` | lcs/lcs_iup.c:423-462 | compressing whole blocks of a concatenation is compressing them one part after the other |
| `Md5.PaddedOneBlock` | lcs/lcs_iup.c:472-511 | with fewer than 56 bytes waiting the RFC 1321 padding is one block |
| `Md5.PaddedTwoBlocks` | lcs/lcs_iup.c:472-511 | with 56 or more it is two |
| `Md5.CountBits` | lcs/lcs_iup.c:423-442 | the two words count bits modulo 2^64, the carry taken exactly when the low word wraps |
| `Md5.WaitingBytes` | lcs/lcs_iup.c:423-442 | the low word alone tells how many bytes wait |
| `Md5.LastWords` | lcs/lcs_iup.c:472-511 | the last block as the compression reads it, on hosts of either byte order |
| `Md5.OutputDigest` | lcs/lcs_iup.c:472-511 | the chaining words come out low-order byte first on either host |
| `Md5.ByteReverse` | lcs/lcs_iup.c:288-297 | groups of four bytes become the words RFC 1321 reads, on either host |
| `Md5.Md5Context.Init` | lcs/lcs_iup.c:403-412 | the context of the empty message |
| `Md5.Md5Context.Update` | lcs/lcs_iup.c:423-462 | the context of m becomes that of m followed by the chunk, wherever the cuts are |
| `Md5.Md5Context.LastBlock` | lcs/lcs_iup.c:472-511 | the last padded block, with the 64-bit length, is compressed |
| `Md5.Md5Context.Final` | lcs/lcs_iup.c:472-511 | the digest that RFC 1321 defines for the whole message |
| `Md5.Md5Context.DigestOf` | lcs/lcs_iup.c:403-511 | for every list of chunks below 256 bytes, the RFC 1321 digest of their concatenation |
| `Md5.ConcatSnoc` | lcs/lcs_iup.c:423-462 | one more chunk extends the message by that chunk |
| `ImageHash.ImageHasher.ComputeMD5Digest` | lcs/lcs_iup.c:520-535 | a run starts with the salt hashed and no image byte |
| `ImageHash.ImageHasher.CalculateMD5` | lcs/lcs_iup.c:544-595 | one event uses the next image bytes once and in order, or ends the run with the verdict |
| `ImageHash.ImageHasher.RunEvents` | lcs/lcs_iup.c:520-595 | for every image length the run ends, and the verdict compares against the digest of salt followed by image |
| `ImageTransfer.RunKeepsIff` | lcs/lcs_iup.c:162-974 | over every run of announcements, beginnings, transfers and confirmations, power lost at any action, a set flag means that its packet of the transfer in flash is stored and the counter is the number of set flags, throughout, exactly if no turn does harm |
| `ImageTransfer.TurnKeepsIff` | lcs/lcs_iup.c:162-974 | the same for one handler, whole or cut short and restarted |
| `ImageTransfer.QuietRunKeepsInv` | lcs/lcs_iup.c:162-974 | so it holds over every run of fitting packets in which nothing is served between an announcement and its beginning |
| `ImageTransfer.QuietIsHarmless` | lcs/lcs_iup.c:675-974 | such a turn does no harm, whatever a torn write leaves |
| `ImageTransfer.ServedTooEarly` | lcs/lcs_iup.c:733-798 | a packet taken in between always breaks it, and a power loss does not mend it |
| `ImageTransfer.WrongFlagComesBack` | lcs/lcs_iup.c:733-871 | a concrete run: the old session comes back with a wrong flag |
| `ImageTransfer.TransferDoneIff` | lcs/lcs_iup.c:813-874 | a packet keeps data, counter and flag together exactly if it is one of the transfer in flash and fits it; a failed write exactly if it touched nothing received |
| `ImageTransfer.TransferCutIff` | lcs/lcs_iup.c:845-871 | when a transfer cut at any action leaves flash safe, a torn write included |
| `ImageTransfer.BeginDoneIff` | lcs/lcs_iup.c:208-248 | beginning a transfer is right exactly if no byte behind the flag block reads as a flag of it |
| `ImageTransfer.BeginCutIff` | lcs/lcs_iup.c:208-248 | cut short it leaves flash safe exactly if the header written, or torn to any count, has only blank flags |
| `ImageTransfer.ConfirmDoneIff` | lcs/lcs_iup.c:884-974 | a success is stored rightly exactly if the counter is the count of the transfer in flash |
| `ImageTransfer.ConfirmCutIff` | lcs/lcs_iup.c:884-974 | when a confirmation cut short leaves flash safe |
| `ImageTransfer.InitKeeps` | lcs/lcs_iup.c:675-803 | an announcement, whole or cut, refused or not, keeps what flash says |
| `ImageTransfer.InitOutcome` | lcs/lcs_iup.c:675-803 | the answer to an announcement and what it leaves in RAM |
| `ImageTransfer.AskedCovers` | lcs/lcs_iup.c:729-749 | packets cut down to 240 bytes are as many as the image needs |
| `ImageTransfer.PacketIsReceived` | lcs/lcs_iup.c:813-874 | in a transfer under way a fitting packet is received with its bytes, unless it came before, and no other one is gained or lost |
| `ImageTransfer.PacketsAreReceived` | lcs/lcs_iup.c:813-874 | over any packets in any order: received is what was before or is among them |
| `ImageTransfer.UpdateSucceedsIff` | lcs/lcs_iup.c:208-974 | an update from its beginning is confirmed exactly if each of its packets came, in any order and any number of times |
| `ImageTransfer.RestartIff` | lcs/lcs_iup.c:162-199 | a restart is right exactly if flash is, and brings announcement and flash into step |
| `ImageTransfer.TakenIff` | lcs/lcs_iup.c:845-871 | the three actions of an accepted packet keep the record exactly if it is announced and fits |
| `ImageTransfer.WrittenIff` | lcs/lcs_iup.c:845-871 | the same for the stored packets alone |
| `ImageTransfer.DataWriteIff` | lcs/lcs_iup.c:845-871 | a data write, torn or not, keeps the received packets exactly if it changes no byte of theirs |
| `ImageTransfer.FlagIff` | lcs/lcs_iup.c:862-871 | setting a flag keeps the record exactly if its packet is stored |
| `ImageTransfer.FittingDisturbsNone` | lcs/lcs_iup.c:845-871 | a packet of the layout touches no other one, whatever is written |
| `ImageTransfer.EmptyRecordIff` | lcs/lcs_iup.c:208-248 | after the erase the record is right exactly if no set flag lies behind the block |
| `ImageTransfer.MissingIsLowest` | lcs/lcs_iup.c:912-967 | the list of missing packets is ascending and leaves one out only when full |
| `ImageTransfer.AnswerIff` | lcs/lcs_iup.c:884-974 | success exactly if the counter is the announced count or no flag is missing |
| `ImageTransfer.AnswerInStep` | lcs/lcs_iup.c:884-974 | in step, for every session and state: ignored for another session, not viable below 80 % of the packets received, success exactly if all are, which is then stored |
| `ImageTransfer.AnswerOutOfStep` | lcs/lcs_iup.c:884-974 | out of step the packets of the transfer in flash decide |
| `ImageTransfer.ConfirmIsExact` | lcs/lcs_iup.c:884-974 | in step, at or above the threshold: success exactly when everything announced was received, else the lowest missing packets in order |
| `ImageTransfer.ConfirmFooledIff` | lcs/lcs_iup.c:733-974 | out of step the answer is right exactly if counter and count differ and a flag is missing |
| `ImageTransfer.ConfirmCountIff` | lcs/lcs_iup.c:733-974 | with only a smaller count announced, exactly if it is not the counter alone that makes success |
| `ImageTransfer.ConfirmsNothing` | lcs/lcs_iup.c:733-974 | after a complete transfer a new one of no more packets is confirmed with nothing received |
| `ImageTransfer.CountExactIffAnnounced` | lcs/lcs_iup.c:813-874 | the counter stays exact exactly for packet numbers of the transfer in flash |
| `ImageTransfer.RestoreOnlyOnce` | lcs/lcs_iup.c:162-199 | a second restore in one power-up keeps the counter right exactly if no flag is set |
| `ImageTransfer.Updater.constructor` | lcs/lcs_iup.c:162-199 | an erased device with nothing announced |
| `ImageTransfer.Updater.HandleInit` | lcs/lcs_iup.c:675-803 | the announcement in RAM, refused or not, the timer, and the answer |
| `ImageTransfer.Updater.InitUpdateProcess` | lcs/lcs_iup.c:208-248 | the node after the actions for whatever is announced then, erase failures included |
| `ImageTransfer.Updater.HandleTransfer` | lcs/lcs_iup.c:813-874 | the node after a transfer of any packet number: ignored, failed, or recorded |
| `ImageTransfer.Updater.HandleConfirm` | lcs/lcs_iup.c:884-974 | the answer to a confirm request and the node after it |
| `ImageTransfer.Updater.ReadPersistData` | lcs/lcs_iup.c:162-199 | the flags found in flash are added to the counter, those of a torn count too |
| `ImageTransfer.Updater.Erase` | lcs/lcs_iup.c:216-236 | the block blank, the rest unchanged |
| `ImageTransfer.Updater.WritePart` | lcs/lcs_iup.c:845-860 | the partition with the bytes written over it |
| `Proxy.RepeaterQueues` | lcs/lcs_proxy.c:88-370 | what ProcessLTEP puts on a queue is the message without its first address, for that node, in the queue of its service and priority, exactly if that is not full, has room and the message fits; exactly when it is refused, kept or dropped |
| `Proxy.AgentQueues` | lcs/lcs_proxy.c:184-370 | the same at the agent, for the request that its bytes encode |
| `Proxy.BothQueued` | lcs/lcs_proxy.c:42-370 | a repeater that is an agent as well queues the request and then the message, exactly if there is room for the one and then the other |
| `Proxy.CopiesIff` | lcs/lcs_proxy.c:46-52 | a repeater is an agent as well exactly for messages for all agents in a domain of its own |
| `Proxy.ForwardedIs` | lcs/lcs_proxy.c:88-370 | copied or not, a message that leaves a node is the one without its first address, for that |
| `Proxy.JourneyFollowsRoute` | lcs/lcs_proxy.c:88-370 | n repeaters put messages for the n addresses on their queues in order, each with the message's transmit control, and the agent gets a count-0 header in front of its bytes unchanged |
| `Proxy.RepeaterStep` | lcs/lcs_proxy.c:118-182 | one repeater sends to the first address the message without it; only an empty uniform message is dropped at its last hop |
| `Proxy.SourceSubnetsAlternate` | lcs/lcs_proxy.c:110-120 | with the subnet "of the source", hops alternate between the sender's subnet and the first repeater's |
| `Proxy.TimeoutsShrink` | lcs/lcs_proxy.c:160-175 | the extra time of each hop falls by a fixed amount per repeater left |
| `Proxy.RetryIff` | lcs/lcs_proxy.c:180-182 | a message handled again after a full queue goes to the right target exactly if the header written early changed nothing |
| `Proxy.JourneyRequests` | lcs/lcs_proxy.c:88-370 | from end to end: the request that the source encodes behind any route is what the agent puts on the queue of its service, exactly if that accepts it |
| `Proxy.AgentRequests` | lcs/lcs_proxy.c:183-285 | an agent reads back the request that was encoded, in every address mode |
| `Proxy.AgentCopyIsLonger` | lcs/lcs_proxy.c:42-65 | a repeater's copy for itself is the agent's message plus the byte behind it |
| `Proxy.CopyRequests` | lcs/lcs_proxy.c:42-65 | its request is the agent's with that byte as one more byte of data |
| `Proxy.CopiedAgain` | lcs/lcs_proxy.c:135-182 | the header written early leaves the copy of a later attempt the same |
| `Proxy.GivesUpIff` | lcs/lcs_proxy.c:308-327 | without room a message is given up exactly when the wait has expired; with a copy only if the copy has no room either and the wait expires between the two |
| `Proxy.GivenUpAfterASecond` | lcs/lcs_proxy.c:308-327 | without a copy, over any attempts that find no room, the first one a second after the first gives the message up |
| `Proxy.CopiesUntilThereIsRoom` | lcs/lcs_proxy.c:135-327 | over any number of attempts with the clock standing still within each, a message for all agents is never given up, and its copy is handed over each time there is room for that |
| `Proxy.ProxyRepeater.Strip` | lcs/lcs_proxy.c:118-182 | target and start of the next message, and the changed buffer |
| `Proxy.ProxyRepeater.ReadAgent` | lcs/lcs_proxy.c:184-285 | address, keys, transmit control, service and code of the target's message |
| `Proxy.ProxyRepeater.CopyForAgent` | lcs/lcs_proxy.c:56-62 | the bytes copied, on a stack that held anything |
| `Proxy.ProxyRepeater.ProcessAsAgent` | lcs/lcs_proxy.c:42-65 | queues and timer after the copy was handled as a message of its own |
| `Proxy.ProxyRepeater.ProcessLTEP` | lcs/lcs_proxy.c:88-370 | at a repeater or an agent, after the copy if there is one: queued, refused with a failure response, dropped, or left for later while the wait timer runs; the buffer changed in any case at a repeater |
| `Proxy.ProxyRepeater.Send` | lcs/lcs_proxy.c:329-366 | the queue a message goes to, or the failure response for one that does not fit |

## Left out

- The compression rounds of MD5 (MD5Transform) are a parameter: any function of chaining words and block words.
- The abstraction layer (sockets, files, threads, USB, logging), the application API, link layer drivers, Wi-Fi and the IPv6 and V2 security branches.
- The transaction layer between application and network layer: an environment that returns one completion per message.
- Clock: each NewTrans call sees one clock reading; operations that read it more often (Expired, Remaining, ProcessLTEP) are given as many.
- OverrideTrans, which sets a transaction number from outside.
- Synchronous network variables: the flag is 0 in the source, so only the last value of a variable is sent.
- Polling and ProcessNVPoll.
- The application is taken to run when completions arrive; the alias table does not change during a run of the scheduler.
- Validate, SwitchOver and Commit; of HandleNmeIupInit the request of a wrong size, which changes nothing, the test of the image header bytes, which changes only the result code, and the bytes of the response.
- Flash: data writes, the write of the persistent header and the erase of the partition may tear. The erase of the one block with header and flags and writes of single bytes are taken to be atomic, and a driver that reports success for a write that did not happen is not modelled.
- Write addresses that overflow 32 bits, which only a torn packet length above 240 can make.
- NetworkReceive.NetworkReceiver.ReceivePacket: statistics counters and the log are not kept.
- LonUdpLink.LonUdpLink.ConvertLonUdpToLonVx: a payload that ends inside its own header is excluded, because the code does not check for it; so are buffers without 20 bytes to spare.
- LonUdpLink.LonUdpLink.ConvertLonVxToLonUdp: the NPDU has a whole header and the buffer two bytes to spare, as the network layer and the link layer provide.
- LonUdp.RoundTripIff: announcements are excluded (they are consumed by the mapping layer), and backlog is kept only where the code sends it.
- Multicast memberships changed while the node runs (IzotUpdateDomainConfig, IzotUpdateAddressConfig): RestoreIpMembership is the state after a start.
- The announcement timers and SendLonUdpMessage, whose body is switched off in the source.
- Proxy.ProxyRepeater.ProcessLTEP: the bytes added to the domain keys are part of a request, the addition itself is not; the fields that go on unchanged (authentication, request number) are left out.
- SelfIdentification.SelfIdArea.AddNV: exploded arrays, and the configuration and fixed tables it fills.
- SelfIdentification.SelfIdArea.Check: the size of an exploded array.
- SelfIdentification.SelfIdArea.TakeSelectors: the table entries written along with the selectors.
- SelfIdentification.SelfIdArea.QueryWindow: windows that reach past header and buffer, for which the code makes no test, and so hands out whatever is there.
- NvScheduler.Scheduler.SendVar: the copy of a turnaround update into input variables, and the contents of messages.
- LonUdpLink.LonUdpLink.ConvertRest: as for ConvertLonUdpToLonVx, a payload that ends inside its own header.
- ElapsedTimeToMs, stop watches, and the tables of buffer sizes.
