# SiLayer readout and boot: a verified model

The silicon layer runs on a Zynq board. A readout server aligns the data of up to twelve VATA ASICs by event
id and sends the assembled events to subscribers; a boot loader finds an image in flash. This project models the
parts of both in which several pieces of state have to agree, and proves what they promise.

**The event aligner.** `DataEmitter` reads 19-word records from one FIFO per ASIC into a map of `DataPacket`
objects, sends a packet once every ASIC has contributed, and sends and drops stale packets when the map gets
large. `DataEmitter.dfy` and `DataPackets.dfy` are the two classes over the heap: arrays filled in place, a map of
objects, allocation and deletion, the byte cursor. Their invariant says that the heap represents the value
`Aligner.Run(n, log)`, where `log` is every record read so far with the clock readings taken on the way. Theorems
about all runs are then proved about that function: what every state keeps (`Aligner.dfy`), conservation of
records under eviction (`Conservation.dfy`), the join of the FIFOs on the event id (`Join.dfy`), how the packets of
an event share that join when timeouts split it (`Partition.dfy`), what a repeated id or a burst of events does
(`Limits.dfy`), and the way from arriving frames to sent events (`Rounds.dfy`).
`VataFifo.dfy` is the FIFO below, `Wire.dfy` the message layout, byte by byte and with a decoder.

**The control protocol.** The server thread and the emitter thread share only an in-order channel and each keeps
its own running flag. `Control.dfy` makes every send, receive and assignment a step of its own and proves what every
interleaving keeps. `LayerServer.dfy` has the server's methods, with the emitter's loop body as the other end.

**The boot search.** `BootSearch.dfy` and `Fsbl.dfy` model the search over the masked multiboot register and the
mutual recursion of fallback and handoff, and prove that the recursion is a loop which boots the first image that
can be booted. `FallbackChain.dfy` and `Fsbl.dfy` say on which silicon and devices that loop comes to rest at all;
`Checksum.dfy` says which header corruptions are caught, and `FlashErrors.dfy` what one corrupted word in flash does to
the search.

**Two smaller pieces.** `TriggerMask.dfy` is the trigger enable register as a set of sources, and `MacEnv.dfy` the
line that passes the MAC address to U-Boot.

`Machine.dfy` and `Keys.dfy` hold integers of fixed width, bitwise operators, little-endian bytes and least keys.

## What the main results assume

- The number of ASICs, `N_VATA`, is any n from 1 to 12.
- The hardware behind a FIFO is a queue of non-empty frames of whole words: the length register is nonzero whenever
  the occupancy is, and gives what is left of the front frame. If it could read 0 then, `read_fifo_full_packet` would
  return 0, its success code, without having read anything (src/petalinux/apps/silayer-lib/src/vata_ctrl.cpp:376-378).
- Frames that arrive are separate from the FIFO count stored with a record: the aligner's theorems hold for every
  value of that count, and only the class methods say it is the occupancy after the read.
- `long int` is 32 bits, so the event id is the signed reading of the first word; ids with the top bit set are
  negative, which a packet reads as "not set". The invariants hold for them too.
- Clock readings are arbitrary 64-bit values, one per sweep and one per new packet; where a theorem needs a clock
  that does not go backwards, it says so.
- The theorems of `Join` assume ids distinct in each FIFO and nothing evicted; `Join.NoEvictionIff` turns the latter
  into a condition on the records and clock readings alone. `Partition.PacketsPartitionJoin` allows eviction, and
  `Partition.JoinIsKept`, `Conservation.RecordsConserved` and `Aligner.RunKeepsInv` assume neither.
- Byte order is little-endian.
- `FlashErrors` assumes that header words and checksum do not overlap and lie within the slot of their image.
- For the boot loader: the mask is 2^k - 1, the slot size is positive, and their product stays below 2^32. Header
  length, field offsets, device size and flash contents are arbitrary.

## Where code and documentation differ

- Old packets are looked for once the map has more than `MAX_PACKET_MAP_SIZE` packets, not when it gets to that many
  as src/petalinux/apps/silayer-server/data_emitter.hpp:21 says, and only stale ones are removed, so this is no bound
  on the map: `Limits.OverflowIff` says exactly when it grows beyond.
- A second record of the same ASIC and event replaces the first and is counted again in `nread`
  (`Limits.ReplacedIsLost`, `Limits.NreadCounts`). `Conservation.RecordsConserved` carries the exact difference.
- The comment on `read_fifo` says it reads a single value; it reads a whole frame.

## Model

| member | source | states |
|---|---|---|
| VataFifo.VataCtrl.ReadFifoFullPacket | src/petalinux/apps/silayer-lib/src/vata_ctrl.cpp:368-384 | 0 and the first 19 words of the front frame, which leave the queue; -1 on an empty FIFO; the length of a front frame that is too short, with queue and buffer untouched |
| VataFifo.VataCtrl.ReadFifoRaw | src/petalinux/apps/silayer-lib/src/vata_ctrl.cpp:341-361 | 1 and the whole front frame at the start of the buffer, the rest of the buffer untouched; -1 and the length when the buffer is too small; 0 and no change when empty; nread in each case |
| VataFifo.VataCtrl.ReadFifoVector | src/petalinux/apps/silayer-lib/src/vata_ctrl.cpp:318-337 | the whole front frame over the start of the vector, which grows only if it must and keeps a longer old tail; the words read and the occupancy left |
| VataFifo.VataCtrl.GetNFifo | src/petalinux/apps/silayer-lib/src/vata_ctrl.cpp:307-311 | the number of words queued |
| VataFifo.ClearFifo | src/petalinux/apps/silayer-server/silayer_server.cpp:521-534 | the clear loop ends with the FIFO empty and has read exactly the words that were queued, in order |
| VataFifo.FullReadKeepsStream | src/petalinux/apps/silayer-lib/src/vata_ctrl.cpp:368-384 | a full-packet read neither loses nor reorders words: what it delivers followed by what stays is the old stream |
| DataPackets.DataPacket.constructor | src/petalinux/apps/silayer-server/data_packet.cpp:3-16 | a new packet has every slot missing, flags 0, no event id and the given time |
| DataPackets.DataPacket.SetVataData | src/petalinux/apps/silayer-server/data_packet.cpp:60-75 | accepts exactly when the id is unset or equal to the first word; then slot i holds the record and the FIFO count and all other slots are as before; on refusal nothing changes |
| DataPackets.DataPacket.ReadVataData | src/petalinux/apps/silayer-server/data_packet.cpp:40-54 | reads one frame of at most 19 words straight into slot i, or changes nothing |
| DataPackets.DataPacket.Done | src/petalinux/apps/silayer-server/data_packet.cpp:77-85 | true exactly when every slot is filled |
| DataPackets.DataPacket.SetAsicFlags | src/petalinux/apps/silayer-server/data_packet.cpp:135-139 | the in-place loop over need_data refines the flag function of the slots |
| Packets.FlagBits | src/petalinux/apps/silayer-server/data_packet.cpp:135-139 | bit i of the flags afterwards: it was set before, or ASIC i has no data |
| Packets.FlagsOfUnflagged | src/petalinux/apps/silayer-server/data_packet.cpp:135-139 | from flags 0, bit i is set if and only if ASIC i contributed nothing, for every i |
| Packets.ExactFlagsOfDone | src/petalinux/apps/silayer-server/data_packet.cpp:77-85 | with exact flags, the flag word is 0 if and only if the packet is complete |
| Packets.AcceptsOneEvent | src/petalinux/apps/silayer-server/data_packet.cpp:60-66 | a packet with an id takes exactly the records of that id, one without takes any and gets its id; so a packet of one event stays one |
| DataPackets.DataPacket.GetPacketSize | src/petalinux/apps/silayer-server/data_packet.cpp:97-104 | the 16-bit sum is the true message length: it never wraps |
| DataPackets.DataPacket.ToMsg | src/petalinux/apps/silayer-server/data_packet.cpp:107-133 | the cursor writes each byte of [0, size) and no byte after: the buffer is the encoding of the packet |
| Wire.HeaderBytes | src/petalinux/apps/silayer-server/data_packet.cpp:107-121 | the message byte by byte: its own length in the first two bytes, header size 11, flags, time and number of ASICs, least significant byte first |
| Wire.SizeBytes | src/petalinux/apps/silayer-server/data_packet.cpp:122-124 | the size table: 0 for an ASIC without data, otherwise four bytes a word and two for the count |
| Wire.WordBytes | src/petalinux/apps/silayer-server/data_packet.cpp:125-128 | the words of every ASIC with data, in order, least significant byte first, behind the data of the ASICs before it |
| Wire.CountBytes | src/petalinux/apps/silayer-server/data_packet.cpp:129-131 | and its FIFO count behind its words |
| Wire.SizeBound | src/petalinux/apps/silayer-server/data_packet.cpp:97-104 | no message of up to 12 ASICs is longer than 974 bytes |
| Wire.SizeIs | src/petalinux/apps/silayer-server/data_packet.cpp:97-104 | message length as header, size table and the ndata entries |
| Wire.DecodeOfEncode | src/petalinux/apps/silayer-server/data_packet.cpp:107-133 | a decoder recovers flags, time, per-ASIC sizes, all words and FIFO counts from the bytes |
| Wire.EncodeOfDecode | src/petalinux/apps/silayer-server/data_packet.cpp:107-133 | only encodings of packets decode, each to the packet it encodes |
| Wire.DecodeIff | src/petalinux/apps/silayer-server/data_packet.cpp:107-133 | a byte string decodes to a packet if and only if it is that packet's message |
| Wire.SplitOfConcat | src/petalinux/apps/silayer-server/data_packet.cpp:107-112 | messages sent back to back are separated again by their leading size fields |
| Wire.StreamInjective | src/petalinux/apps/silayer-server/data_packet.cpp:107-133 | two packet sequences with the same byte stream are equal |
| DataEmitters.DataEmitter.constructor | src/petalinux/apps/silayer-server/data_emitter.cpp:3-18 | not running, empty map, nothing sent |
| DataEmitters.DataEmitter.SendData | src/petalinux/apps/silayer-server/data_emitter.cpp:42-48 | flags the packet in place and sends its encoding, once |
| DataEmitters.MessageIs | src/petalinux/apps/silayer-server/data_packet.cpp:107-139 | every message of every run decodes to the slots and the time of the packet that was sent, with a flag set for exactly the ASICs whose slot is missing |
| DataEmitters.DataEmitter.SentIs | src/petalinux/apps/silayer-server/data_emitter.cpp:42-48 | the same of the bytes that the object has sent |
| DataEmitters.DataEmitter.SendThenEraseOldPackets | src/petalinux/apps/silayer-server/data_emitter.cpp:136-149 | the loop over the map, in ascending key order and with deletion, equals the sweep function; packets that stay are the same objects, and those deleted are exactly those that left the map |
| DataEmitters.DataEmitter.FindOrInsert | src/petalinux/apps/silayer-server/data_emitter.cpp:56-69 | lookup, eviction above MAX_PACKET_MAP_SIZE and insertion of a fresh packet, as the aligner admits a record |
| DataEmitters.DataEmitter.Fill | src/petalinux/apps/silayer-server/data_emitter.cpp:69-73 | the record goes into the packet of its id and no other packet object changes |
| DataEmitters.DataEmitter.SendIfDone | src/petalinux/apps/silayer-server/data_emitter.cpp:74-79 | a complete packet is sent, removed and deleted; an incomplete one stays |
| DataEmitters.DataEmitter.ReadFifo | src/petalinux/apps/silayer-server/data_emitter.cpp:50-81 | one turn takes at most one record from that FIFO alone, and the heap of packets again represents the aligner run on every record read so far |
| DataEmitters.DataEmitter.ReadFifos | src/petalinux/apps/silayer-server/data_emitter.cpp:83-88 | one turn for each ASIC in order: queues and log after the pass |
| DataEmitters.DataEmitter.CheckFifos | src/petalinux/apps/silayer-server/data_emitter.cpp:112-120 | the guard on any data is only a shortcut: the outcome is that of a pass in every case |
| DataEmitters.DataEmitter.Iterate | src/petalinux/apps/silayer-server/data_emitter.cpp:153-193 | one loop iteration by its message: exit on halt, the running flag, and no FIFO read or packet sent in an iteration that ends with running false |
| Aligner.RunKeepsInv | src/petalinux/apps/silayer-server/data_emitter.cpp:50-81 | in every reachable state: a resident packet under key k has event id k, flags 0, a filled and a missing slot, and only records of k; a sent one has exact flags |
| Aligner.AfterKeepsInv | src/petalinux/apps/silayer-server/data_emitter.cpp:69-73 | the same for one step, and set_vata_data never refuses a record inside read_fifo |
| Aligner.SweepPartitions | src/petalinux/apps/silayer-server/data_emitter.cpp:136-149 | the sweep sends and removes exactly the stale packets, each once, in ascending id order, and leaves the others as they were |
| Aligner.StaleForward | src/petalinux/apps/silayer-server/data_emitter.cpp:139-142 | the unsigned age test means more than one timeout old, and a packet time ahead of the clock counts as stale too, unless it is ahead by all but one timeout of the 64-bit range |
| Machine.ToLongInjective | src/petalinux/apps/silayer-server/data_emitter.cpp:56 | the signed event id determines the first word: different words never share a packet |
| Conservation.RecordsConserved | src/petalinux/apps/silayer-server/data_emitter.cpp:50-81 | over any run, with any eviction: each record is read as often as it is held by resident packets and messages, plus as often as it was overwritten |
| Conservation.DistinctNeverOverwrites | src/petalinux/apps/silayer-server/data_packet.cpp:67-73 | with ids distinct in each FIFO nothing is ever overwritten |
| Conservation.DistinctConserved | src/petalinux/apps/silayer-server/data_emitter.cpp:50-81 | then records read are exactly records resident plus records sent |
| Conservation.NoRecordSentTwice | src/petalinux/apps/silayer-server/data_emitter.cpp:136-149 | no record is in two messages, even when a timeout splits an event and late ASICs reopen it |
| Conservation.NoRecordSentAndResident | src/petalinux/apps/silayer-server/data_emitter.cpp:136-149 | no record is both sent and resident |
| Limits.NreadCounts | src/petalinux/apps/silayer-server/data_packet.cpp:70-74 | nread is the number of filled slots plus the number of replaced records |
| Limits.DistinctNread | src/petalinux/apps/silayer-server/data_packet.cpp:70-74 | with distinct ids nread is the number of ASICs that contributed |
| Limits.ReplacedIsLost | src/petalinux/apps/silayer-server/data_packet.cpp:67-73 | a record replaced while resident is in no packet and no message any more |
| Limits.RepeatedIdLosesARecord | src/petalinux/apps/silayer-server/data_packet.cpp:67-73 | two different records of one event from one ASIC: conservation fails for the first |
| Limits.AllConservedIff | src/petalinux/apps/silayer-server/data_packet.cpp:60-75 | records read are exactly records resident plus records sent if and only if no record finds its event resident with its own slot already filled |
| Limits.OverflowStep | src/petalinux/apps/silayer-server/data_emitter.cpp:57-68 | a record takes the map over MAX_PACKET_MAP_SIZE + 1 packets if and only if there is more than one ASIC, the map holds that many, the event is new and none of them is stale |
| Limits.OverflowIff | src/petalinux/apps/silayer-server/data_emitter.cpp:57-68 | so over a run: the map is larger at some time if and only if some record meets that condition |
| Limits.MapUnbounded | src/petalinux/apps/silayer-server/data_emitter.cpp:57-68 | such records can go on: a burst of m events makes the map m packets large |
| Join.RunIsJoin | src/petalinux/apps/silayer-server/data_emitter.cpp:50-81 | distinct ids and no eviction: sent, once each, are the ids in all consumed prefixes; resident are those in some but not all; slot i holds ASIC i's record |
| Join.SentBornInLog | src/petalinux/apps/silayer-server/data_packet.cpp:13-15 | the time of every packet sent is the clock reading of some read of its event |
| Partition.JoinIsKept | src/petalinux/apps/silayer-server/data_emitter.cpp:50-81 | for every log, with any ids and any eviction: the last record of an ASIC for an event is in the slot of that ASIC of some packet of the event, sent or resident |
| Partition.JustRead | src/petalinux/apps/silayer-server/data_emitter.cpp:69-79 | a record just read is, with its FIFO count, in the packet of its event that waits or in the one just sent |
| Partition.PacketsPartitionJoin | src/petalinux/apps/silayer-server/data_emitter.cpp:50-81 | with distinct ids the packets of an event partition its join, however timeouts split it: a slot is filled in some packet of the event if and only if the join fills it so, and in one packet only |
| Join.OrderDoesNotMatter | src/petalinux/apps/silayer-server/data_emitter.cpp:83-88 | two interleavings that take the same records from each FIFO, whatever FIFO counts they read, leave the same residents and send the same events with the same words in every slot |
| Join.SameCountsSameSlots | src/petalinux/apps/silayer-server/data_emitter.cpp:83-88 | and with the same FIFO counts where those agree too |
| Join.NoEvictionIff | src/petalinux/apps/silayer-server/data_emitter.cpp:57-68 | with distinct ids nothing is evicted if and only if no record of a new event is read while more than MAX_PACKET_MAP_SIZE events are pending and the first record of one of them is stale: a condition on the log alone |
| Join.PromptNeverEvicts | src/petalinux/apps/silayer-server/data_emitter.cpp:140-142 | in particular when no event is still incomplete one timeout after its first record was read |
| Join.MapOccupancy | src/petalinux/apps/silayer-server/data_emitter.hpp:21-22 | with a monotone clock: at most MAX_PACKET_MAP_SIZE + 1 packets, or every one created within a timeout before the last insertion |
| Rounds.StreamKept | src/petalinux/apps/silayer-lib/src/vata_ctrl.cpp:368-384 | over any interleaving of arrivals and turns, with any frame lengths, each FIFO's words arrive at the aligner in order and none is lost |
| Rounds.CountIsBacklog | src/petalinux/apps/silayer-server/data_packet.cpp:71 | the FIFO count stored with a record is the number of words that had arrived at that FIFO and were not read with or before it, modulo 2^16 |
| Rounds.RecordsKept | src/petalinux/apps/silayer-lib/src/vata_ctrl.cpp:376-383 | with whole 19-word frames each turn takes exactly the front record, so framing is never lost |
| Rounds.PassIsTurns | src/petalinux/apps/silayer-server/data_emitter.cpp:83-88 | a pass of read_fifos, as the emitter makes it, is one turn per ASIC of the interleaving model |
| Rounds.PassesDrainIff | src/petalinux/apps/silayer-server/data_emitter.cpp:83-120 | m passes without arrivals empty all FIFOs if and only if each holds only frames of a multiple of 19 words and at most m records; any other frame blocks its FIFO |
| Rounds.LongestFifoDrains | src/petalinux/apps/silayer-server/data_emitter.cpp:83-120 | when whole records arrived: if and only if m is at least the length of the longest FIFO |
| Rounds.PassesJoin | src/petalinux/apps/silayer-server/data_emitter.cpp:50-120 | from arrivals to messages: after passes for the longest FIFO an event was sent exactly when every ASIC delivered it, and waits exactly when some but not all did |
| Commands.TestsExclusive | src/petalinux/apps/silayer-server/data_emitter.cpp:20-40 | no message passes two of the halt, stop and start tests |
| Commands.TestsByCharacter | src/petalinux/apps/silayer-server/data_emitter.cpp:20-40 | the three tests compare the first four or five characters, and a shorter message passes none |
| Commands.SentIsRecognized | src/petalinux/apps/silayer-server/silayer_server.cpp:48-67 | the five-byte stop, the start and the halt that the server sends are recognized as such |
| Control.RunKeepsInv | src/petalinux/apps/silayer-server/silayer_server.cpp:43-74 | the protocol invariant over every interleaving of the two threads' steps |
| Control.FlagsAgree | src/petalinux/apps/silayer-server/silayer_server.cpp:43-61 | before halt, replaying the pending commands on the emitter's flag gives the server's flag; with nothing pending they are equal, also after a start while running |
| Control.ChannelInOrder | src/petalinux/apps/silayer-server/silayer_server.cpp:43-74 | messages are taken in the order sent, none is lost, and halt is the last |
| Control.ReadsFollowStart | src/petalinux/apps/silayer-server/data_emitter.cpp:174-192 | FIFOs are read only while the last command acted on is a start |
| Control.StartIsFollowedByReads | src/petalinux/apps/silayer-server/data_emitter.cpp:174-193 | and then they are read: whenever the emitter acts on a message other than halt, or on none, with a start the last command, its next act is to read the FIFOs |
| Control.StepIsIteration | src/petalinux/apps/silayer-server/data_emitter.cpp:174-193 | the step on a message exits, sets the flag and goes on to read under the conditions of `DataEmitter.Iterate` |
| Control.StopBeforeRestart | src/petalinux/apps/silayer-server/silayer_server.cpp:43-53 | over every interleaving, each start sent after another message directly follows a stop |
| Control.HaltIsFinal | src/petalinux/apps/silayer-server/silayer_server.cpp:64-74 | when the halt branch returns the emitter has stopped, the channel is empty, and no step is left |
| Control.HaltBoundsReceives | src/petalinux/apps/silayer-server/data_emitter.cpp:175-178 | after halt is queued every receive shrinks the channel and nothing refills it |
| Control.EmitterCanExit | src/petalinux/apps/silayer-server/data_emitter.cpp:151-194 | after halt is queued the emitter is never stuck and its own steps end in its exit within a bound |
| LayerServers.LayerServer.StartPacketEmitter | src/petalinux/apps/silayer-server/silayer_server.cpp:43-53 | start, preceded by a stop if already running; pending commands still give the server's flag |
| LayerServers.LayerServer.StopPacketEmitter | src/petalinux/apps/silayer-server/silayer_server.cpp:55-61 | a stop is queued and the flag cleared |
| LayerServers.LayerServer.ProcessEmitMsg | src/petalinux/apps/silayer-server/silayer_server.cpp:557-606 | reply, return code, queued messages and new flag for status, start, stop and anything else |
| LayerServers.QueuesIffChanges | src/petalinux/apps/silayer-server/silayer_server.cpp:562-605 | a request queues a message, and is answered "ok", if and only if it changes the flag; obeying the message gives the new flag |
| LayerServers.RequestsAlternate | src/petalinux/apps/silayer-server/silayer_server.cpp:562-605 | over any sequence of requests starts and stops go out by turns, and obeying them all gives the flag of the server |
| LayerServers.LayerServer.EmitterTurn | src/petalinux/apps/silayer-server/data_emitter.cpp:153-193 | one emitter iteration on the oldest message of the channel, or on none when a running emitter misses it, keeps the agreement of the flags |
| LayerServers.LayerServer.KillPacketEmitter | src/petalinux/apps/silayer-server/silayer_server.cpp:1135-1143 | halt, join and return of the exit code, however often the emitter misses a message on the way: it has obeyed all pending commands and the channel is empty |
| BootSearch.HeaderChecksum | src/baremetal/zynq_fsbl/main.c:1354-1386 | the 32-bit loop and the inversion accept exactly when words and stored checksum add up to 0xFFFFFFFF modulo 2^32 |
| Checksum.InvertedSumIff | src/baremetal/zynq_fsbl/main.c:1371-1382 | the inverted wrapped sum equals the stored word if and only if the total is all ones |
| Checksum.OneWordDetected | src/baremetal/zynq_fsbl/main.c:1354-1386 | changing exactly one word of an accepted header always makes it rejected |
| Checksum.StoredDetected | src/baremetal/zynq_fsbl/main.c:1377-1382 | so does changing the stored checksum |
| BootSearch.BaseOfRegister | src/baremetal/zynq_fsbl/main.c:1468-1469 | mask and multiply give the start of the register's slot without wrapping |
| BootSearch.SearchEndsIff | src/baremetal/zynq_fsbl/main.c:1475-1508 | from every register value the search ends if and only if the device ends within the mask or an addressable slot holds an image |
| BootSearch.BlankSearchesForEver | src/baremetal/zynq_fsbl/main.c:1475-1508 | a blank device that reaches past the last slot the mask addresses: the search never ends, from any register value |
| BootSearch.SearchIsLeast | src/baremetal/zynq_fsbl/main.c:1475-1510 | success is the lowest valid slot from the start on, on the device, bits above the mask unchanged; failure means there is none |
| BootSearch.SearchByAddress | src/baremetal/zynq_fsbl/main.c:1475-1510 | by address: an image that is found starts on the device, and when none is found no image starts at any slot from the start to the end of the device |
| Fsbl.BootLoader.NextValidImageCheck | src/baremetal/zynq_fsbl/main.c:1434-1511 | the loop ends; it stops at the first slot that is past the end or valid; on success the register holds that slot, on failure it is not written |
| FlashErrors.HeaderWordDetected | src/baremetal/zynq_fsbl/main.c:1354-1386 | a flash that differs from one with an image at exactly one header word has no image there |
| FlashErrors.ChecksumWordDetected | src/baremetal/zynq_fsbl/main.c:1377-1382 | nor has one that differs at the stored checksum |
| FlashErrors.IdentWordDetected | src/baremetal/zynq_fsbl/main.c:1402-1418 | nor has one that differs at the ident |
| FlashErrors.CorruptedIsPassedOver | src/baremetal/zynq_fsbl/main.c:1475-1508 | what a search makes of it: with one checked word of the image it finds corrupted, it finds instead what a search from the next slot on finds |
| BootSearch.NextSlot | src/baremetal/zynq_fsbl/main.c:1062-1070 | below the last slot an incremented register addresses the next slot, with the bits above the mask unchanged |
| BootSearch.TriesAreTheValidSlots | src/baremetal/zynq_fsbl/main.c:616-721 | the slots a chain of failing boots tries are exactly the valid ones from the start to the end of the device, ascending |
| Fsbl.ChainAscends | src/baremetal/zynq_fsbl/main.c:616-815 | on incrementing silicon and a fitting device the images tried have ascending slots, so none is tried twice; none is skipped; there are fewer than the mask can address; and when the last search finds none every valid slot was tried |
| Fsbl.BootLoader.FsblFallback | src/baremetal/zynq_fsbl/main.c:616-721 | on every board and for every behaviour of the code it calls under which it comes to rest: the mutual recursion with the handoff ends, with the outcome, the register and the images loaded that the loop gives |
| Fsbl.BootLoader.BootNextImage | src/baremetal/zynq_fsbl/main.c:656-708 | the inner part of a fallback is one turn of that loop: clean the fabric, search, load, hand off |
| Fsbl.NextImageBootsFirst | src/baremetal/zynq_fsbl/main.c:616-815 | each image tried was found by the search after the one before; the first that boots is entered, with the register at it; the loader hangs only when no further image is found or the fabric cannot be cleaned |
| Fsbl.LoopEnters | src/baremetal/zynq_fsbl/main.c:616-815 | when the search ends in an image, that one was loaded and its hook and handoff succeeded, it is entered at its own address or through JTAG for 0, and no image before it succeeded |
| Fsbl.BootLoader.FsblHandoff | src/baremetal/zynq_fsbl/main.c:736-815 | a failing hook or a handoff that comes back falls back, wherever that comes to rest; otherwise the given address, or JTAG for 0, is entered |
| Fsbl.HandoffIs | src/baremetal/zynq_fsbl/main.c:781-814 | when the hook succeeds and the handoff does not come back, JTAG is entered if and only if the address is 0, otherwise the application at that address, with the register unchanged and no further image loaded; in all other cases it is a fallback |
| Fsbl.FallbackIs | src/baremetal/zynq_fsbl/main.c:616-721 | fallback by its guards: it hangs without a boot mode, resets without the fuse, hangs uninitialized, and otherwise searches on from the incremented register, or from the same one on version 1 |
| Fsbl.AlwaysRestsIff | src/baremetal/zynq_fsbl/main.c:616-815 | the boot loader comes to rest whatever the images, the fabric and the hooks do if and only if the device fits the mask and, on version 1 silicon, no image lies ahead |
| FallbackChain.FindsItself | src/baremetal/zynq_fsbl/main.c:1056 | a search started where the last one stopped finds the same image again, which is what version 1 silicon does |
| FallbackChain.ChainIsTries | src/baremetal/zynq_fsbl/main.c:616-721 | every chain of failing boots on incrementing silicon and a fitting device runs along the ascending tries |
| FallbackChain.ChainBoundedIff | src/baremetal/zynq_fsbl/main.c:616-721 | the number of images tried is bounded if and only if no image lies ahead, or the silicon increments and the device fits the mask |
| FallbackChain.FailingBootsEndIff | src/baremetal/zynq_fsbl/main.c:616-815 | when every boot fails, finitely many images are tried and every search ends if and only if the device fits the mask and, on version 1 silicon, no image lies ahead |
| TriggerMask.BitsInjective | src/petalinux/apps/silayer-lib/src/vata_ctrl.cpp:269-274 | the register is determined by the set of its bits |
| TriggerMask.TriggerRegister.TriggerEnable | src/petalinux/apps/silayer-lib/src/vata_ctrl.cpp:185-192 | adds the bit to the set, or returns 1 and changes nothing outside 0..14 |
| TriggerMask.TriggerRegister.TriggerDisable | src/petalinux/apps/silayer-lib/src/vata_ctrl.cpp:195-202 | removes the bit from the set, or returns 1 and changes nothing above 14 |
| TriggerMask.TriggerRegister.TriggerEnableAll | src/petalinux/apps/silayer-lib/src/vata_ctrl.cpp:204-209 | afterwards all 32 bits are set |
| TriggerMask.TriggerRegister.TriggerDisableAll | src/petalinux/apps/silayer-lib/src/vata_ctrl.cpp:211-216 | afterwards no bit is set |
| TriggerMask.TriggerRegister.TriggerEnableLocalAsic | src/petalinux/apps/silayer-lib/src/vata_ctrl.cpp:218-224 | sets the ASIC's bit, or returns 1 and changes nothing for an illegal number |
| TriggerMask.TriggerRegister.TriggerDisableLocalAsic | src/petalinux/apps/silayer-lib/src/vata_ctrl.cpp:226-232 | clears the ASIC's bit, or returns 1 and changes nothing for an illegal number |
| TriggerMask.TriggerRegister.TriggerEnableAllLocalAsics | src/petalinux/apps/silayer-lib/src/vata_ctrl.cpp:234-238 | the loop sets exactly bits 0..N_VATA-1 |
| TriggerMask.TriggerRegister.TriggerDisableAllLocalAsics | src/petalinux/apps/silayer-lib/src/vata_ctrl.cpp:240-244 | the loop clears exactly bits 0..N_VATA-1 |
| TriggerMask.TriggerRegister.TriggerTmHit | src/petalinux/apps/silayer-lib/src/vata_ctrl.cpp:246-252 | sets or clears bit 12 and no other |
| TriggerMask.TriggerRegister.TriggerTmAck | src/petalinux/apps/silayer-lib/src/vata_ctrl.cpp:254-260 | sets or clears bit 13 and no other |
| TriggerMask.TriggerRegister.TriggerForced | src/petalinux/apps/silayer-lib/src/vata_ctrl.cpp:262-268 | sets or clears bit 14 and no other |
| TriggerMask.TouchedIs | src/petalinux/apps/silayer-lib/src/vata_ctrl.cpp:185-268 | the bits of each operation by number: the one given up to 14, all 32, the ASIC below N_VATA, 0 to N_VATA-1, and 12, 13 and 14 |
| TriggerMask.LocalAsicsIsLoop | src/petalinux/apps/silayer-lib/src/vata_ctrl.cpp:234-244 | the operation on all local ASICs is that on each of them in turn |
| TriggerMask.EncodingOfBits | src/petalinux/apps/silayer-lib/src/vata_ctrl.cpp:269-274 | the register is the encoding of the set of its bits |
| TriggerMask.TriggerRegister.ApplyAll | src/petalinux/apps/silayer-lib/src/vata_ctrl.cpp:185-268 | any sequence of calls leaves the register equal to the encoding of the set operations, and a bit is set if and only if the last call addressing it set it, or none did and it was set at first |
| MacEnv.Uint8ToHex | src/baremetal/zynq_fsbl/te_fsbl_hooks_te0720.c:77-81 | two lower-case hexadecimal digits in place, nothing else changed |
| MacEnv.MacToUbootEnvironment | src/baremetal/zynq_fsbl/te_fsbl_hooks_te0720.c:90-105 | fills exactly 27 bytes with the line for the address and leaves the rest of the buffer alone; parsing the line gives the address back |
| MacEnv.ParseIff | src/baremetal/zynq_fsbl/te_fsbl_hooks_te0720.c:90-105 | a 27-byte string parses to an address if and only if it is that address's line, so the printer is injective |
| MacEnv.LineIs | src/baremetal/zynq_fsbl/te_fsbl_hooks_te0720.c:62-105 | the line character by character: "ethaddr=", two digits of "0123456789abcdef" for each octet, colons between them, a newline and a NUL |

## Left out

- DataEmitters.DataEmitter.SendThenEraseOldPackets: models the intended sweep, every key visited once in ascending order; the source advances an iterator to an element it has just erased (data_emitter.cpp:140-147), whose outcome the language leaves undefined.
- DataEmitters.DataEmitter.ReadFifo: nothing arrives between the read of a record and the reading of the FIFO count stored with it; `Rounds` lets frames arrive between turns only.
- VataFifo.VataCtrl.ReadFifoRaw: the buffer is at least as long as the length passed for it, which the source leaves to its caller.
- VataFifo.ClearFifo: does not model the emitter reading the same hardware FIFO at the same time, or frames arriving during the loop, with which it need not end.
- DataPackets.DataPacket.SetVataData: `nread` is unbounded; a 32-bit wrap would need 2^31 replaced records in one packet.
- LayerServers.LayerServer.ProcessEmitMsg: does not model a message without a second word, for which the source compares a null string, nor the trailing NUL byte of the replies.
- LayerServers.LayerServer.KillPacketEmitter: the join is modelled as the remaining iterations of the emitter, which in the end receive as often as messages are pending; `Control` has the interleaving of the two threads.
- Fsbl.BootLoader.NextValidImageCheck: requires the exact condition under which the loop ends, `BootSearch.SearchEndsIff`.
- Fsbl.BootLoader.FsblFallback: requires that the boot loader comes to rest, which is not more than that the source returns; `Fsbl.AlwaysRestsIff` says when that is certain. `LoadBootImage`, `FabricInit` and the hooks are not part of this model: what they do is an arbitrary function of the number of images loaded before.
- Fsbl.BootLoader.FsblHandoff: likewise. Level shifters, the watchdog and status output are left out.
- BootSearch.HeaderChecksum: a failing flash read is not modelled; the source ignores it too.
- TriggerMask.TriggerRegister.TriggerDisable: bits below 0 are excluded; the source has no lower bound there and would shift by a negative amount.
- TriggerMask.TriggerRegister.TriggerTmHit: one method with a parameter stands for the enabling and the disabling method, as for TM ack and forced triggers.
- `erase_old_packets`, the variant that drops instead of sending, is compiled out by `SEND_PARTIAL_PACKETS`.
- Sockets, logging, memory mapping, sleeping and file reading: sockets are an in-order queue and an output sequence, registers are fields.
- The command dispatchers of the server other than emit and halt: wrappers around single register operations.
- Calibration, DAC, sync and configuration registers and the command-line tools.
- The rest of the boot loader: boot mode selection, exception handlers, PHY setup, PCAP transfers, watchdog timing.
- The VHDL and IP descriptions, board files and Tcl scripts.
