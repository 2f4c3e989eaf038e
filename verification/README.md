# Models of the sic kernel

The sic kernel is written in C. This project models nine of its files in Dafny, those whose
correctness is a property of whole runs, of allocators and index structures over all their histories,
or of exact arithmetic, and the builder of its disk images, and proves what they are for:

- **TCP** (`kernel/net/tcp.c`): `TcpSpec` gives one endpoint as a value with a function per operation,
  `TcpPcb` the in-place code (rings, SACK table, parked queue) proved to compute those functions,
  `TcpInvariant` and `TcpEndpoint` the invariants of one step, `TcpStream` two endpoints over a network
  that drops, duplicates and reorders, with the theorems over every run. `TcpFlow` says how far output goes,
  `TcpSegments` what segments say, `TcpArrival` and `TcpHolds` what an arriving one does, `TcpRead` what readers
  get, `TcpCalls` what timers and calls do, `TcpArmed` that the sender never waits for nothing.
- **Field arithmetic** (`kernel/lib/crypto.c`): `Limbs`, `Montgomery`, `P256`, from limb loops to modular
  exponentiation.
- **AES-128 and key unwrap** (`kernel/lib/crypto.c`): `Gf256`, `AesTables`, `AesBlock`, `Aes`, `KeyWrap`;
  `AesFips` and `KeyWrapRfc` hold the standards' own definitions, which the code is proved to compute.
  The S-box is proved from its generating loop, not by enumeration.
- **Kernel heap** (`kernel/mm/heap.c`): `HeapPages` for address space and mapped pages, `HeapSlabSpec` and
  `HeapSlabs` for slabs, large allocations, `kmalloc` and `kfree` on top of it.
- **Frame allocator** (`kernel/mm/pmm.c`): `Frames`.
- **zaefs** (`kernel/fs/zaefs.c`): `ZaefsBytes`, `ZaefsDirSpec`, `ZaefsDir` for directories down to bytes;
  `ZaefsTree`, `ZaefsBits`, `ZaefsFs` for files, block and inode accounting through the cache;
  `ZaefsNames` for the life of a file over its names; `ZaefsFormat` for the image builder (`scripts/mkzaefs.py`).
- **ext4** (`kernel/fs/ext4.c`): `Ext4Extents`, `Ext4Lookup`, `Ext4Htree`, and `Ext4Dir` for one or two index
  levels. **FAT** (`kernel/fs/fat.c`): `FatChains`, `Fat`.
- **Futex** (`kernel/proc/futex.c`): `Futex`, all interleavings of atomic steps; `FutexWalk`, what a whole
  call does.
- **Path walking** (`kernel/fs/vfs.c`): `Vfs`; `VfsMeaning`, what paths, links and dots mean.

`Division` holds facts about quotients that several of these use. Mutable kernel objects are classes
whose methods carry `modifies` clauses and are proved against functions or ghost state; the theorems are
lemmas about those. Run-time choices outside the modelled code are parameters: whether memory, a device
slot, a block or a mappable page is to be had, which deadlines have passed, and what the hash function is.

Where a promise fails, the code is kept as it is, and the exact condition is part of the contract:

- `Ext4Extents.ExtentTree.Insert`: the comment at kernel/fs/ext4.c:565-568 says that a write into a hole of a full
  leaf fails. The code lets some through; an accepted insertion is right if and only if `Sound`, and
  `UnsoundExamples` shows three that are not.
- `Ext4Dir.HashedDir.AddEntry`: the result of the last `leaf_insert` is ignored at kernel/fs/ext4.c:1172, so an
  addition can report success and store nothing; the name is there if and only if `Stored`, and
  `SplitCanLoseName` gives the leaves where it is not.
- `Ext4Htree.Collect`: the scratch array at kernel/fs/ext4.c:1144 is large enough for entries with names (`FewEntries`)
  and not for entries without (`NamelessEntries`).
- `ZaefsDir.Rename`: it unbinds the old name first, so a rename that needs a block on a full disk
  loses the name; it succeeds if and only if a block can be had or `RenameRoom`, and
  `RenameIntoEmptyNeedsBlock` is a case where it does not.
- `HeapSlabs.Kheap.Kfree`: `bytes_requested` is charged before the object boundary is checked, so the byte
  count stays right if and only if the pointer is live or in no slab; `FreeHeader` makes it wrong. A second
  free of one object is not noticed; the freelists survive if and only if the object is not free, and
  `FreeFree` breaks them.
- `Frames.Pmm.IncRef` and `Frames.Pmm.DecRef`: neither checks that the frame is in use, nor that the 16-bit
  count does not wrap; the books stay right if and only if that is so. `HoldFree`, `DropFree` and
  `HoldTooOften` break them.
- `Vfs.PathResolves`: a printed path leads back to its vnode, except for the root of a filesystem that covers the
  global root, which the mount code at kernel/fs/vfs.c:249-271 allows; its path is empty. `Vfs.UpFromRoot`: from there
  ".." leads out of the covering filesystem. `CoveredRootLost` shows both.
- `TcpCalls.AckDroppedIff`: the comment at kernel/net/tcp.c:191 says that every acknowledgement sent covers what was
  pending, and the flag is cleared before the device takes the segment. If it refuses, what was owed is forgotten; that
  happens if and only if the stated condition holds, and `TcpCalls.DataAcknowledged` says what is left: the refused
  segment is tried again.
- `TcpStream.ZeroExact`: a read of nothing is not always an end of file; `ZeroAfterError` is when it is not.

`dafny verify dfyconfig.toml` checks the whole project.

## Model

| member | source | states |
|---|---|---|
| `TcpStream.StreamSafety` | kernel/net/tcp.c:455-545 | For every run of two established endpoints over a network that drops, duplicates and reorders segments: all bytes either reader has received, in order, are a prefix of all bytes the other side's writes were accepted for. |
| `TcpStream.EofComplete` | kernel/net/tcp.c:903-939 | In every reachable state a read reports end of file only when the peer has closed its side and every byte it wrote was delivered; and once the FIN is in and all bytes are read, end of file is what a read reports. |
| `TcpStream.EofExact` | kernel/net/tcp.c:903-916 | The same two directions, from the invariant of a pair of endpoints instead of from a run. |
| `TcpFlow.FlowControl` | kernel/net/tcp.c:310-343 | Every data segment of an output ends within the smaller of the peer's window and 16 full segments past what is acknowledged, or is the one byte that probes a closed window with nothing in flight; none is longer than the segment size. |
| `TcpFlow.FillsWindow` | kernel/net/tcp.c:286-352 | With nothing selectively acknowledged and no recovery, output sends exactly full segments up to that bound, the end of the data or what the device takes, and the FIN right behind the last byte. |
| `TcpFlow.FillsFar` | kernel/net/tcp.c:313-343 | So the next byte to send ends at the smaller of the bound and what the device takes. |
| `TcpFlow.OutputExact` | kernel/net/tcp.c:313-343 | Exactly the bytes the sender moves past that the peer has not selectively acknowledged are in a segment. |
| `TcpFlow.OutputStops` | kernel/net/tcp.c:313-343 | Output stops only at the end of the data or the window, at the end of a recovery, or when the device refuses, and then another try is scheduled. |
| `TcpFlow.RecoveryHolds` | kernel/net/tcp.c:329-351 | In fast recovery nothing from the recovery point on is sent, and the recovery ends exactly when the sender gets there. |
| `TcpRead.ReadGives` | kernel/net/tcp.c:903-939 | A read, peeking or not, returns the next bytes of the peer's stream, as many as asked for or buffered. |
| `TcpRead.ReadFindsNext` | kernel/net/tcp.c:907-921 | It returns some if and only if the next byte of the stream is held, in order or parked. |
| `TcpRead.PeekKeepsNext` | kernel/net/tcp.c:921-938 | A peek leaves the answer and the effect of every later read the same. |
| `TcpRead.ReadsStream` | kernel/net/tcp.c:903-939 | Both of these in every reachable state. |
| `TcpSegments.OutputAcks` | kernel/net/tcp.c:180-201 | Every segment of an output acknowledges all that arrived in order and offers all the room there is, up to 65535. |
| `TcpSegments.AckAcks` | kernel/net/tcp.c:180-206 | So does an acknowledgement of its own, with the SACK blocks; after it none is owed. |
| `TcpSegments.SackReports` | kernel/net/tcp.c:156-178 | The blocks reported are parked chunks, as many as fit into four, and first the one that holds the newest data, as section 4 of RFC 2018 asks. |
| `TcpSegments.NoteCovers` | kernel/net/tcp.c:416-437 | Noting blocks adds no byte that no useful block names, forgets none, and adds all of them if the table has room for all. |
| `TcpSegments.TrimCovers` | kernel/net/tcp.c:440-450 | Trimming forgets exactly the bytes a cumulative acknowledgement covers. |
| `TcpArrival.AcceptableIff` | kernel/net/tcp.c:647-650 | The acceptance test of section 3.3 of RFC 793: a segment with data passes if and only if one of its bytes is in the window, one without if it is at the left edge or inside. |
| `TcpArrival.RxAcks` | kernel/net/tcp.c:680-723 | Every segment that passes the checks has its acknowledgement taken off the buffer and the table, its blocks noted, duplicates counted, and its window taken over if and only if it is not older than the last that set it. |
| `TcpArrival.ClosesIff` | kernel/net/tcp.c:655-737 | A segment closes the connection if and only if it is an acceptable reset or SYN or acknowledges the FIN in LAST_ACK; only the first two leave an error, and not over one already there. |
| `TcpArrival.RejectedIs` | kernel/net/tcp.c:651-683 | Any other segment changes nothing; from outside the window, or acknowledging what was never sent, it is answered with an acknowledgement unless it is a reset. |
| `TcpArrival.ResetsAnswered` | kernel/net/tcp.c:361-380 | A SYN in the window is answered with a reset; a closed endpoint answers everything but resets with a reset the sender accepts, as section 3.4 of RFC 793 asks. |
| `TcpHolds.ParksGap` | kernel/net/tcp.c:455-483 | Parking adds exactly the bytes of the gap the data falls into, if there is memory and the queue stays within its limit. |
| `TcpHolds.DrainHolds` | kernel/net/tcp.c:521-545 | Draining changes where bytes are held, not which. |
| `TcpHolds.DrainFar` | kernel/net/tcp.c:521-545 | It goes on until the buffer is full or the next byte is missing. |
| `TcpHolds.RxStores` | kernel/net/tcp.c:741-782 | Exactly which bytes are held after a segment with data: those before, the in-order ones that fit, and the rest as far as its gap goes; and the FIN is taken if and only if it is known and everything before it is in. |
| `TcpHolds.RxStoresNone` | kernel/net/tcp.c:741-782 | A segment without data, or in a state that takes none, changes nothing but the FIN. |
| `TcpArmed.NoStall` | kernel/net/tcp.c:285-352 | In every reachable state of a connection that may still send, whatever is not acknowledged has the retransmission timer running or another try scheduled, or the peer has reported holding its first byte. |
| `TcpArmed.OutputArms` | kernel/net/tcp.c:313-351 | Output leaves data in flight with the timer running, or schedules another try. |
| `TcpArmed.EndStepArms` | kernel/net/tcp.c:645-990 | Every operation keeps that. |
| `TcpCalls.DataAcknowledged` | kernel/net/tcp.c:738-791 | Every segment with data that passes the checks is acknowledged: at once unless it simply continues what is there, else at once, by the timer, or with the data segment the device refused. |
| `TcpCalls.ReplyAcks` | kernel/net/tcp.c:203-221 | An acknowledgement put off is sent with the second full segment at the latest. |
| `TcpCalls.AckDroppedIff` | kernel/net/tcp.c:190-200 | With no SACK and no recovery, an owed acknowledgement is neither sent nor owed any more if and only if the device takes nothing and there is data the window allows. |
| `TcpCalls.TimerActs` | kernel/net/tcp.c:796-832 | An expired delayed acknowledgement is sent, TIME_WAIT ends, and the ninth timeout in a row resets the connection; no timer closes it otherwise. |
| `TcpCalls.TimeoutResendsFirst` | kernel/net/tcp.c:814-832 | A timeout resends the first unacknowledged byte unless the peer holds it or the device takes nothing, and starts the timer again. |
| `TcpCalls.SendIs` | kernel/net/tcp.c:886-901 | A write takes as much as there is room for; it fails exactly for a closed stream, a connection that no longer sends, or a full buffer, with the error of each. |
| `TcpCalls.ShutdownIs` | kernel/net/tcp.c:941-954 | The FIN is queued once, exactly in the two states that have the writing half open. |
| `TcpCalls.CloseIs` | kernel/net/tcp.c:957-989 | Closing with unread data resets the connection, else it closes the writing half; in other states it does nothing. |
| `TcpCalls.ReadReopens` | kernel/net/tcp.c:922-937 | A read that makes room after the peer was told there is none tells it so at once. |
| `TcpStream.ZeroExact` | kernel/net/tcp.c:903-916 | A read returns nothing if and only if, after the parked segments are pulled in, nothing is buffered and the FIN is in or the connection is closed with no error left; only the second is no end of file. |
| `TcpStream.ZeroAfterError` | kernel/net/tcp.c:903-916 | After a broken connection one read reports the error and every later one returns nothing, although the stream is not complete. |
| `TcpStream.SackSound` | kernel/net/tcp.c:416-450 | In every reachable state the ranges of the sender's SACK table are pairwise disjoint, and each byte of each of them is held or already delivered at the receiver unless that one is closed. |
| `TcpStream.AdvertisedStaysHeld` | kernel/net/tcp.c:156-178 | Every SACK block in every segment ever sent, however old, still names bytes the open receiver has: nothing advertised is dropped later. |
| `TcpStream.ResendCovers` | kernel/net/tcp.c:313-343 | A sender that has rolled back to its first unacknowledged byte resends every byte it moves past, unless the open receiver holds it. |
| `TcpStream.TimeoutResendsAll` | kernel/net/tcp.c:814-832 | After a retransmission timeout each unacknowledged byte the sender moves past is in an emitted segment or in the open receiver's hands, although the SACK table is kept across the timeout. |
| `TcpStream.FastRetransmitResendsAll` | kernel/net/tcp.c:703-716 | The same for the fast retransmit on the third duplicate ACK, whatever SACK blocks that ACK carries. |
| `TcpStream.SenderInvariant` | kernel/net/tcp.c:683-702 | In every reachable state the send buffer is the written stream from `una` on, `nxt` stays in `[una, una + len]` and one past it only when the FIN was sent, and nothing counts as acknowledged that the peer has not received. |
| `TcpStream.WireTruthful` | kernel/net/tcp.c:313-349 | Every segment ever sent, retransmissions included, carries the stream bytes of its sequence number; a FIN sits exactly at the end of a closed stream; an ACK number never exceeds what was received. |
| `TcpStream.TimeWaitDone` | kernel/net/tcp.c:498-518 | An endpoint in TIME_WAIT, in any reachable state, has had all its data and its FIN acknowledged and has received the peer's FIN. |
| `TcpStream.LastAckClean` | kernel/net/tcp.c:722-737 | Every step that takes an endpoint from LAST_ACK to CLOSED without an error leaves all its data and its FIN acknowledged and the peer's FIN received. |
| `TcpStream.TimerErr` | kernel/net/tcp.c:796-834 | The timer never closes a connection in LAST_ACK without reporting an error. |
| `TcpStream.SeqCompareAgrees` | kernel/net/tcp.c:28-31 | The wrapped 32-bit difference of two sequence numbers is the true one if and only if they are less than 2^31 apart (or exactly 2^31 below). |
| `TcpStream.ReachableInv` | kernel/net/tcp.c:583-793 | The joint invariant of both endpoints and of every segment on the wire holds in every reachable state. |
| `TcpStream.ReachableStep` | kernel/net/tcp.c:583-793 | Reachable states are closed under every operation of either side: write, read, shutdown, close, timer tick, arrival of any segment ever sent. |
| `TcpStream.ReachableSwap` | kernel/net/tcp.c:583-793 | Swapping the two sides of a reachable state gives a reachable state, so each theorem about one side holds of the other. |
| `TcpStream.RunInv` | kernel/net/tcp.c:583-793 | The invariant holds after any sequence of steps from a freshly established connection. |
| `TcpStream.EndStepGood` | kernel/net/tcp.c:583-989 | Any one operation keeps the invariant between two endpoints, emits only truthful segments, forgets nothing received and never retracts written data. |
| `TcpEndpoint.RxGood` | kernel/net/tcp.c:583-793 | Any segment of the peer, late, repeated or reordered, keeps the invariant and draws only truthful answers. |
| `TcpEndpoint.AckStageGood` | kernel/net/tcp.c:683-716 | Handling an ACK keeps the sender's window on the stream and the peer's holdings consistent, in every state. |
| `TcpEndpoint.AckAdvanceOk` | kernel/net/tcp.c:683-702 | Dropping acknowledged bytes, trimming the SACK table and noting new blocks leaves the buffer equal to the stream from the new `una`, the table disjoint and within what the peer holds. |
| `TcpEndpoint.DupAckGood` | kernel/net/tcp.c:703-716 | A duplicate ACK, including the roll-back of the fast retransmit, keeps the invariant. |
| `TcpEndpoint.DataStageGood` | kernel/net/tcp.c:742-782 | Taking a segment's data, in order or parked behind a hole, extends the received prefix by bytes of the peer's stream only. |
| `TcpEndpoint.InOrderOk` | kernel/net/tcp.c:751-759 | Data at `rcv_nxt` that does not fit the ring is parked right behind it; the in-order part stays a prefix of the stream and nothing held is lost. |
| `TcpEndpoint.ParkOk` | kernel/net/tcp.c:763-770 | Parking out-of-order data within the window keeps the queue sorted and truthful. |
| `TcpEndpoint.FinStageGood` | kernel/net/tcp.c:775-782 | A FIN is noted at the end of the peer's stream and takes effect only when everything before it was received. |
| `TcpEndpoint.NothingParked` | kernel/net/tcp.c:498-518 | When the FIN becomes due nothing can still be parked. |
| `TcpEndpoint.SackBlocksHeld` | kernel/net/tcp.c:156-178 | Each of the at most four advertised SACK blocks is data the receiver holds. |
| `TcpEndpoint.RtoFireGood` | kernel/net/tcp.c:814-832 | Rolling back on a timeout keeps the invariant: our FIN cannot have been acknowledged, and the state is one that resends. |
| `TcpEndpoint.TimerGood` | kernel/net/tcp.c:796-834 | Whatever deadlines are due, a timer tick keeps the invariant. |
| `TcpEndpoint.SendGood` | kernel/net/tcp.c:886-901 | A write extends the stream by exactly the bytes it reports as accepted. |
| `TcpEndpoint.RecvGood` | kernel/net/tcp.c:903-939 | A read that is no peek hands over the next bytes of the peer's stream; a peek hands over none. |
| `TcpEndpoint.ShutdownWrGood` | kernel/net/tcp.c:941-954 | Closing the writing side keeps the invariant. |
| `TcpEndpoint.CloseGood` | kernel/net/tcp.c:957-989 | Closing the socket, with unread data or without, keeps the invariant. |
| `TcpInvariant.AbsorbKeeps` | kernel/net/tcp.c:416-437 | Merging a range into the SACK table keeps it disjoint, within its eight entries and within what the peer holds. |
| `TcpInvariant.AbsorbCovers` | kernel/net/tcp.c:416-437 | What the table covers after a merge is what it covered before, and the new range if and only if there was room or an entry it touches. |
| `TcpInvariant.TrimSackedKeeps` | kernel/net/tcp.c:440-450 | Trimming leaves no range below `una` and keeps the table disjoint and truthful. |
| `TcpInvariant.SackedThroughCovers` | kernel/net/tcp.c:223-231 | Where the sender jumps over SACKed data an entry of the table covers the whole jump. |
| `TcpInvariant.OutputOk` | kernel/net/tcp.c:287-352 | Output keeps the sender's invariant and every emitted segment is a slice of the stream at its sequence number. |
| `TcpInvariant.OutputCovers` | kernel/net/tcp.c:313-343 | Every byte `snd_nxt` moves past is in an emitted segment or in the SACK table. |
| `TcpInvariant.OooInsertOk` | kernel/net/tcp.c:455-482 | Parking keeps the queue sorted and non-overlapping, keeps every chunk it had, and stores only bytes of the stream. |
| `TcpInvariant.DrainOk` | kernel/net/tcp.c:521-545 | Draining turns parked bytes into the in-order prefix, in order, and drops none that is not yet received. |
| `TcpSpec.NextMoveAdvances` | kernel/net/tcp.c:313-343 | Every turn of the output loop that does not stop moves `snd_nxt` forward within the buffer, so the loop ends. |
| `TcpPcb.Pcb.constructor` | kernel/net/tcp.c:78-94 | A block as the handshake leaves it: established, nothing buffered, nothing parked. |
| `TcpPcb.Pcb.RcvAppend` | kernel/net/tcp.c:484-496 | Appending to the ring in two pieces adds exactly what fits behind the unread bytes. |
| `TcpPcb.Pcb.OooInsert` | kernel/net/tcp.c:455-482 | The in-place insertion refines the specification and keeps the count of parked bytes exact. |
| `TcpPcb.InsertChunk` | kernel/net/tcp.c:455-482 | Walking the list and cutting the data against both neighbours gives the sorted queue of the specification. |
| `TcpPcb.Pcb.OooDrain` | kernel/net/tcp.c:521-545 | The draining loop refines the specification, ring wrap-around included. |
| `TcpPcb.Pcb.CheckFin` | kernel/net/tcp.c:498-518 | The FIN takes effect exactly when everything before it was received. |
| `TcpPcb.Pcb.SackOptions` | kernel/net/tcp.c:156-178 | The two passes yield up to four blocks, those holding the newest arrival first. |
| `TcpPcb.CollectBlocks` | kernel/net/tcp.c:156-178 | One pass appends the wanted blocks until four are collected. |
| `TcpPcb.Pcb.NoteSacked` | kernel/net/tcp.c:416-437 | The in-place table after a segment's blocks is the specification's. |
| `TcpPcb.Pcb.AbsorbRange` | kernel/net/tcp.c:416-437 | Merge, swap-remove and restart of the scan compute the merged table. |
| `TcpPcb.Pcb.TrimSacked` | kernel/net/tcp.c:440-450 | The in-place trimming refines the specification. |
| `TcpPcb.Pcb.SackedThrough` | kernel/net/tcp.c:223-231 | The scan finds the end of the range covering a sequence number, or none. |
| `TcpPcb.Pcb.NextSackStart` | kernel/net/tcp.c:233-244 | The scan finds the nearest range start inside the next segment. |
| `TcpPcb.Pcb.SendSeg` | kernel/net/tcp.c:180-200 | A segment carries the window and SACK blocks of the moment and clears the pending acknowledgement. |
| `TcpPcb.Pcb.AckLater` | kernel/net/tcp.c:209-221 | Every second full segment is acknowledged at once, others later. |
| `TcpPcb.Pcb.Output` | kernel/net/tcp.c:287-352 | The output loop with its window, SACK jumps, holes and FIN refines the specification. |
| `TcpPcb.Pcb.OutputData` | kernel/net/tcp.c:313-343 | The data loop terminates and emits the specification's segments. |
| `TcpPcb.Pcb.AckAdvance` | kernel/net/tcp.c:683-702 | An advancing ACK in place: buffer moved down, table trimmed, recovery ended when passed. |
| `TcpPcb.Pcb.DupAck` | kernel/net/tcp.c:703-716 | A duplicate ACK in place refines the specification. |
| `TcpPcb.Pcb.AckedState` | kernel/net/tcp.c:717-737 | Window update and the state changes an acknowledged FIN causes. |
| `TcpPcb.Pcb.TakeData` | kernel/net/tcp.c:742-770 | Trimming, appending, parking and draining a segment's data in place. |
| `TcpPcb.Pcb.Rx` | kernel/net/tcp.c:583-793 | The whole receive path refines the specification in every state. |
| `TcpPcb.Pcb.Timer` | kernel/net/tcp.c:796-834 | All timer branches refine the specification. |
| `TcpPcb.Pcb.RtoFire` | kernel/net/tcp.c:814-832 | Timeout: give up after eight tries, else roll back and resend. |
| `TcpPcb.Pcb.Send` | kernel/net/tcp.c:886-901 | A write accepts the prefix that fits, or reports the error of the specification. |
| `TcpPcb.Pcb.Recv` | kernel/net/tcp.c:903-939 | A read from the ring, with draining and window update, refines the specification. |
| `TcpPcb.Pcb.ShutdownWr` | kernel/net/tcp.c:941-954 | Queues the FIN and changes state as specified. |
| `TcpPcb.Pcb.Close` | kernel/net/tcp.c:957-989 | Abort with unread data, orderly shutdown otherwise. |
| `TcpPcb.Pcb.SetClosed` | kernel/net/tcp.c:253-284 | Closing flushes the parked queue and stops the timers. |
| `TcpStream.ReachableWellFormed` | kernel/net/tcp.c:583-793 | In every reachable state both control blocks are within their bounds, so no step of a run is passed over. |
| `TcpCalls.RxSendsOn` | kernel/net/tcp.c:680-791 | After every segment that passes the checks the sender has sent all that the acknowledgement and the window allow, or the device has refused. |
| `TcpCalls.DupAckSends` | kernel/net/tcp.c:703-716 | The third duplicate resends, each later one with new blocks sends on, and all others send nothing. |
| `TcpCalls.RetrySends` | kernel/net/tcp.c:809-812 | When the time for another try has come all that may be sent is sent; it is scheduled again only if the device refuses again. |
| `Limbs.AddLimbs` | kernel/lib/crypto.c:393-398 | Eight-limb addition is exact: sum plus carry times 2^256, carry at most one, also when the result is one of the operands. |
| `Limbs.SubLimbs` | kernel/lib/crypto.c:399-404 | Eight-limb subtraction is exact with its borrow, also in place. |
| `Montgomery.Constants` | kernel/lib/crypto.c:382-382 | The limb constants are the prime 2^256 - 2^224 + 2^192 + 2^96 - 1 and R is 2^256. |
| `Montgomery.MulAddRow` | kernel/lib/crypto.c:438-438 | One multiplication row adds a times a limb exactly; no 64-bit product and carry overflows. |
| `Montgomery.ReduceRow` | kernel/lib/crypto.c:440-443 | One reduction row divides exactly by 2^32 after adding a multiple of p, and the word written back to t[8] loses no carry. |
| `Montgomery.TopWords` | kernel/lib/crypto.c:443-443 | The 32-bit addition of the two top words never overflows. |
| `Montgomery.Row` | kernel/lib/crypto.c:436-444 | One whole round keeps the accumulator below a + p, so nine words hold it between rounds. |
| `Montgomery.FinalSubtract` | kernel/lib/crypto.c:445-448 | The conditional subtraction yields the nine-word value, less p exactly if it is at least p. |
| `Montgomery.MontMul` | kernel/lib/crypto.c:433-449 | For all eight-limb inputs r times 2^256 is congruent to a times b modulo p, and r < p whenever a times b < p times 2^256; `r` may alias either operand. |
| `Montgomery.CancelR` | kernel/lib/crypto.c:431-455 | R can be cancelled modulo p, which makes Montgomery form unique. |
| `P256.FpAdd` | kernel/lib/crypto.c:405-410 | Modular addition of reduced values, including a carry out of 256 bits, also in place. |
| `P256.FpSub` | kernel/lib/crypto.c:411-414 | Modular subtraction of reduced values, also in place. |
| `P256.TwoToTheR` | kernel/lib/crypto.c:473-473 | 2^512 is R squared, so 512 doublings from one give R^2. |
| `P256.Field.constructor` | kernel/lib/crypto.c:468-481 | The 512 modular doublings leave R^2 mod p, and `ONE_M` is R mod p. |
| `P256.Field.ToMont` | kernel/lib/crypto.c:454-454 | Entering Montgomery form gives a times R mod p for every 256-bit a, reduced or not. |
| `P256.Field.FromMont` | kernel/lib/crypto.c:455-455 | Leaving Montgomery form gives the reduced value whose Montgomery form was given. |
| `P256.Field.MontPow` | kernel/lib/crypto.c:456-463 | Square-and-multiply over all 256 exponent bits computes x^e in Montgomery form, reduced, for every base and every 256-bit exponent. |
| `P256.HiLimb` | kernel/lib/crypto.c:459-461 | Reading the exponent bit by bit from the top gives the exponent's value. |
| `P256.MontRoundTrip` | kernel/lib/crypto.c:454-455 | `from_mont` undoes `to_mont` on every reduced value. |
| `P256.MontProduct` | kernel/lib/crypto.c:433-449 | The Montgomery product of two Montgomery forms is the Montgomery form of the product. |
| `P256.MontPowMeaning` | kernel/lib/crypto.c:454-463 | Converting in, raising and converting out is x^e mod p. |
| `P256.PowMod` | kernel/lib/crypto.c:454-463 | The chain of the three routines on limb arrays returns x^e mod p. |
| `Gf256.Gmul` | kernel/lib/crypto.c:128-133 | The shift-and-add loop computes the product in GF(2^8), whose algebra the lemmas below establish. |
| `Gf256.MulXt` | kernel/lib/crypto.c:127-133 | Multiplying either factor by x gives the same product, reduction by x^8 + x^4 + x^3 + x + 1 included. |
| `Gf256.MulLinear` | kernel/lib/crypto.c:128-133 | The product is linear in its first factor. |
| `Gf256.MulLinear2` | kernel/lib/crypto.c:128-133 | The product is linear in its second factor. |
| `AesTables.Times3Div3` | kernel/lib/crypto.c:141-143 | The shift-and-xor sequence that divides by 3 inverts multiplication by 3 on every byte. |
| `AesTables.Order` | kernel/lib/crypto.c:140-146 | The powers of 3 return to 1 after exactly 255 steps, so the loop ends having visited every nonzero byte once. |
| `AesTables.Log` | kernel/lib/crypto.c:140-146 | Every nonzero byte is a power of 3. |
| `AesTables.PowInv` | kernel/lib/crypto.c:141-143 | The two walking values p and q stay multiplicative inverses. |
| `AesTables.SboxIsInverse` | kernel/lib/crypto.c:135-149 | Every entry of the built table is the affine image of the multiplicative inverse of its index, with 0 taken as its own inverse, as section 5.1.1 of FIPS 197 defines it. |
| `AesTables.SboxInjective` | kernel/lib/crypto.c:135-149 | The S-box maps no two bytes to the same byte. |
| `AesTables.Tables` | kernel/lib/crypto.c:136-149 | The loop terminates and leaves the S-box and a table that inverts it at every index. |
| `AesTables.Invert` | kernel/lib/crypto.c:148-148 | Scattering the indices through the S-box yields its inverse table. |
| `AesBlock.UnmixMix` | kernel/lib/crypto.c:177-200 | The inverse column mix undoes the column mix on every column. |
| `AesBlock.MixUnmix` | kernel/lib/crypto.c:177-200 | And the column mix undoes its inverse. |
| `AesBlock.ShiftUnshift` | kernel/lib/crypto.c:175-201 | The index permutation of shift-rows and that of its inverse cancel. |
| `AesBlock.UnroundRound` | kernel/lib/crypto.c:174-203 | A decryption round undoes the encryption round of the same number, for any round key. |
| `AesBlock.DecryptEncrypt` | kernel/lib/crypto.c:169-206 | Decryption undoes encryption and the other way round, for every block, every round-key array and every pair of mutually inverse tables. |
| `Aes.Aes128.constructor` | kernel/lib/crypto.c:151-165 | What is set up for 16 key bytes: the FIPS 197 tables, and those bytes followed by their key expansion, 176 bytes in all. |
| `Aes.Aes128.Schedule` | kernel/lib/crypto.c:154-164 | The expansion loop satisfies the word recurrence at every index, round constants included. |
| `Aes.Aes128.MixTo` | kernel/lib/crypto.c:177-180 | The in-place loop over the four columns computes the column function on all of them at once. |
| `AesBlock.MixIsSum` | kernel/lib/crypto.c:177-180 | The xor form of one output byte is the matrix row 2, 3, 1, 1 of section 5.1.3 of FIPS 197. |
| `Aes.Aes128.UnmixTo` | kernel/lib/crypto.c:194-200 | The in-place inverse mix is the inverse matrix. |
| `Aes.Aes128.SubShiftTo` | kernel/lib/crypto.c:175-175 | Byte substitution through the shift-rows index. |
| `Aes.Aes128.UnsubShiftTo` | kernel/lib/crypto.c:201-201 | The scattering form of the inverse. |
| `Aes.Aes128.Encrypt` | kernel/lib/crypto.c:169-185 | The in-place rounds compute the cipher function; `out` may be `in`. |
| `Aes.Aes128.Decrypt` | kernel/lib/crypto.c:187-206 | The in-place rounds compute the inverse cipher; `out` may be `in`. |
| `Aes.RoundTrip` | kernel/lib/crypto.c:169-206 | For every key and every block decrypting an encryption gives the block, and encrypting a decryption too. |
| `KeyWrap.UpDown` | kernel/lib/crypto.c:216-224 | One unwrap step undoes the wrap step of the same counter, and the other way round. |
| `KeyWrap.DownUp` | kernel/lib/crypto.c:215-224 | Any number of wrap steps followed by as many unwrap steps is the identity. |
| `KeyWrap.UnwrapWrap` | kernel/lib/crypto.c:208-227 | For every n, unwrapping the index-based wrap of section 2.2.1 of RFC 3394 recovers the plaintext and the initial value. |
| `KeyWrap.AcceptedIsWrap` | kernel/lib/crypto.c:225-226 | Conversely every accepted ciphertext is the wrap of the plaintext returned. |
| `KeyWrap.StepDown` | kernel/lib/crypto.c:217-223 | One turn of the loop, in place on block i of the buffer, is one unwrap step. |
| `KeyWrap.Loop` | kernel/lib/crypto.c:215-224 | The two nested loops run the 6n steps in descending order of the counter. |
| `KeyWrap.AesUnwrap` | kernel/lib/crypto.c:208-227 | For everything set up from the same key bytes and for every plaintext p: the ciphertext is the wrap of p if and only if it is accepted and p is left in the buffer. |
| `AesTables.SboxUnique` | kernel/lib/crypto.c:135-149 | Any table meeting the definition is this one, entry for entry. |
| `AesTables.InverseUnique` | kernel/lib/crypto.c:148-148 | And there is one inverse table. |
| `Aes.KeyUnique` | kernel/lib/crypto.c:151-165 | The 16 key bytes determine tables and round keys, so two set-ups of one key encrypt and decrypt alike. |
| `KeyWrap.WrapIff` | kernel/lib/crypto.c:208-227 | Both directions in one: a ciphertext is the wrap of a plaintext exactly if unwrapping yields the initial value and that plaintext. |
| `AesFips.EncIsCipher` | kernel/lib/crypto.c:151-186 | Encryption under a key is the cipher of section 5.1 of FIPS 197 on its 4 by 4 state, with the words of its key expansion. |
| `AesFips.RoundsAreCipher` | kernel/lib/crypto.c:167-186 | The rounds are SubBytes, ShiftRows, MixColumns with the matrix 2, 3, 1, 1, and AddRoundKey, in this order, the last without mixing. |
| `AesFips.ScheduleIsExpansion` | kernel/lib/crypto.c:151-165 | Every word of the schedule is that of section 5.2, with RotWord, SubWord and the constant. |
| `AesFips.RconIs` | kernel/lib/crypto.c:151-165 | The ten round constants are 01, 02, 04, 08, 10, 20, 40, 80, 1b, 36. |
| `AesFips.AffineBits` | kernel/lib/crypto.c:135-149 | Each bit of the affine map is the sum of section 5.1.1. |
| `KeyWrapRfc.WrapIsRfc` | kernel/lib/crypto.c:208-227 | The wrap that unwrapping inverts is the double loop of section 2.2.1 of RFC 3394, with its initial value and step numbers. |
| `KeyWrapRfc.CounterIs` | kernel/lib/crypto.c:208-227 | The step counter is added as eight bytes, most significant first. |
| `HeapPages.QuiescentIsInitial` | kernel/mm/heap.c:77-114 | With nothing live and nothing lost, the free-run table is empty and the bump pointer is zero: the allocator is exactly back in its initial state. |
| `HeapPages.AddRun` | kernel/mm/heap.c:110-111 | A freed run that touches no free run keeps the partition of the pages below the bump pointer into live, free and lost. |
| `HeapPages.Retract` | kernel/mm/heap.c:94-95 | Giving the topmost run back to the bump pointer keeps the partition. |
| `HeapPages.Lose` | kernel/mm/heap.c:112-113 | A run dropped because the table is full moves from live to lost, page for page. |
| `HeapPages.DropAtPages` | kernel/mm/heap.c:66-67 | Moving the last table entry into the freed slot removes exactly that run's pages. |
| `HeapPages.FreeNeighbour` | kernel/mm/heap.c:148-152 | After the mapped front of a failed allocation was freed, the unmapped rest has a free neighbour, so giving it back needs no new table entry. |
| `HeapPages.PageHeap.constructor` | kernel/mm/heap.c:50-75 | The empty heap: bump pointer zero, no runs, nothing mapped. |
| `HeapPages.PageHeap.BestFit` | kernel/mm/heap.c:52-61 | The scan with its early exit finds a smallest run that is large enough, or none exactly if no run is. |
| `HeapPages.PageHeap.Take` | kernel/mm/heap.c:50-75 | Fails exactly if no free run fits and the bump pointer cannot advance; otherwise the pages were in nobody's hands, and fresh pages are used only when no free run fits. |
| `HeapPages.PageHeap.Join` | kernel/mm/heap.c:81-93 | The restarting scan absorbs every adjacent free run: afterwards the joined run touches none, and exactly the freed pages leave the live set. |
| `HeapPages.PageHeap.Shrink` | kernel/mm/heap.c:94-107 | Pulls the bump pointer down until no free run ends at it, keeping the partition. |
| `HeapPages.PageHeap.Give` | kernel/mm/heap.c:77-114 | Frees exactly the given pages; free runs stay pairwise apart, never adjacent and never at the bump pointer; pages are lost exactly if the table is full and the run neither touches a free run nor ends at the bump pointer. |
| `HeapPages.PageHeap.Alloc` | kernel/mm/heap.c:134-159 | Fails exactly for zero pages, no address space, or a mapping failure midway; success hands out pages nobody had; failure leaves the live pages and the owner table as they were, and loses no address space unless the table was full. |
| `HeapPages.PageHeap.UndoAlloc` | kernel/mm/heap.c:146-153 | A failure after i mapped pages unmaps those and gives all the address space back. |
| `HeapPages.PageHeap.UndoMapped` | kernel/mm/heap.c:148-148 | The mapped front is unmapped and given back; unless the table was full nothing is lost and the rest has a free neighbour. |
| `HeapPages.PageHeap.MapPages` | kernel/mm/heap.c:142-157 | Maps page after page until the first failure; the mapped-page counter stays the number of owned pages. |
| `HeapPages.PageHeap.FreePages` | kernel/mm/heap.c:161-186 | Exactly the given pages stop being live and lose their owner; the mapped-page counter stays the number of live pages. |
| `HeapPages.PageHeap.Unmap` | kernel/mm/heap.c:171-184 | The owner entries of exactly the given pages are cleared and the mapped count drops by as many. |
| `HeapSlabSpec.ObjInside` | kernel/mm/heap.c:245-256 | Every object of a slab lies behind the header, inside its four pages and 16-byte aligned, for all eight classes. |
| `HeapSlabSpec.ObjApart` | kernel/mm/heap.c:245-256 | Distinct objects of a slab do not overlap. |
| `HeapSlabSpec.PopThread` | kernel/mm/heap.c:282-284 | Following the first link of a threaded freelist leaves the threaded rest, without the object taken. |
| `HeapSlabSpec.PushThread` | kernel/mm/heap.c:300-301 | Linking an object that is not on the freelist in front keeps the list acyclic and complete. |
| `HeapSlabSpec.PushChain` | kernel/mm/heap.c:221-228 | Pushing a slab keeps the partial list doubly linked. |
| `HeapSlabSpec.RemoveChain` | kernel/mm/heap.c:230-235 | Unlinking any slab, first, last or only, keeps the list doubly linked. |
| `HeapSlabs.Disjoint` | kernel/mm/heap.c:346-359 | No two live allocations, small or large, overlap. |
| `HeapSlabs.InRegion` | kernel/mm/heap.c:346-359 | Every live allocation lies within its own pages, behind the header, 16-byte aligned. |
| `HeapSlabs.Kheap.Quiet` | kernel/mm/heap.c:306-308 | Any valid heap without live allocations holds no large allocation and at most 32 pages. |
| `HeapSlabs.Kheap.LiveApart` | kernel/mm/heap.c:346-359 | In any valid heap two different live allocations do not overlap, and each is 16-byte aligned and ends within the heap's pages. |
| `HeapSlabs.QuietHeap` | kernel/mm/heap.c:306-308 | With nothing allocated, no large allocation remains and the heap keeps at most one slab of each size class: at most 32 pages. |
| `HeapSlabs.SpareAlone` | kernel/mm/heap.c:306-308 | Keeping a wholly free slab only while it is alone on its list leaves no class with two wholly free slabs. |
| `HeapSlabs.FullList` | kernel/mm/heap.c:306-308 | A freelist as long as the slab has objects contains them all, so a slab is destroyed only when none of its objects is live. |
| `HeapSlabs.NoOwner` | kernel/mm/heap.c:394-403 | A pointer outside the heap or into a page without owner is no allocation and in no slab. |
| `HeapSlabs.LargeOwner` | kernel/mm/heap.c:404-409 | In a page owned by a large allocation only its start, 32 bytes into its first page, is an allocation. |
| `HeapSlabs.SlabOwner` | kernel/mm/heap.c:416-422 | Any other owner entry is a slab that exists and contains the pointer; an allocation there is one of its objects. |
| `HeapSlabs.WriteLive` | kernel/mm/heap.c:282-284 | Whatever bytes a holder writes inside its own memory, overlapping words or not, every freelist threaded through free objects stays intact. |
| `HeapSlabSpec.ThreadBytes` | kernel/mm/heap.c:282-284 | Bytes written beside the link words of a freelist leave the freelist as it is. |
| `HeapSlabs.PopStep` | kernel/mm/heap.c:282-288 | Taking the first free object adds exactly one live allocation and keeps lists, counters and owner entries consistent. |
| `HeapSlabs.PushStep` | kernel/mm/heap.c:300-304 | Freeing a live object removes exactly that allocation and keeps everything else consistent. |
| `HeapSlabs.Kheap.constructor` | kernel/mm/heap.c:338-344 | The empty heap is valid. |
| `HeapSlabs.Kheap.PartialPush` | kernel/mm/heap.c:221-228 | The slab becomes first; the old first points back to it. |
| `HeapSlabs.Kheap.PartialRemove` | kernel/mm/heap.c:230-235 | Both neighbours, or the list head, are joined and the slab's links cleared. |
| `HeapSlabs.Kheap.ThreadAll` | kernel/mm/heap.c:250-256 | The new slab's freelist runs through all its objects in address order, and no other slab's freelist is touched. |
| `HeapSlabs.Kheap.TagPages` | kernel/mm/heap.c:258-260 | Exactly the slab's four pages name it as owner. |
| `HeapSlabs.Kheap.SlabCreate` | kernel/mm/heap.c:237-265 | Fails exactly if four pages cannot be had; otherwise all invariants hold with the new slab first on its list. |
| `HeapSlabs.Kheap.SlabAlloc` | kernel/mm/heap.c:276-289 | Fails exactly if the class has no slab with room and no pages; otherwise adds one live object of that class. |
| `HeapSlabs.Kheap.SlabFree` | kernel/mm/heap.c:291-309 | Frees exactly the live object at the pointer if there is one; the invariants survive if and only if the pointer was not a free object of the slab. |
| `HeapSlabs.Kheap.SlabDestroy` | kernel/mm/heap.c:267-274 | The slab leaves its list, wherever it stood, and exactly its four pages and their owner entries are freed. |
| `HeapSlabs.Kheap.LargeAlloc` | kernel/mm/heap.c:323-334 | Fails exactly if the rounded-up page count cannot be had; otherwise adds one live allocation of that size. |
| `HeapSlabs.Kheap.LargeFree` | kernel/mm/heap.c:410-413 | Removes exactly that allocation and frees all its pages. |
| `HeapSlabs.Kheap.CacheFor` | kernel/mm/heap.c:213-219 | The smallest class the size fits in. |
| `HeapSlabs.Kheap.Kmalloc` | kernel/mm/heap.c:346-369 | Adds one live allocation of at least the size asked for; returns nothing exactly for size 0 or when the pages needed cannot be had; `live_objects`, `large_allocs` and `bytes_requested` stay the sums over live allocations. |
| `HeapSlabs.Kheap.Kfree` | kernel/mm/heap.c:392-423 | Whatever the pointer: a live one removes exactly its allocation, any other removes none; the freelists survive if and only if it is not a free object; the byte count too stays right if and only if it is live or in no slab. |
| `HeapSlabs.Kheap.UserWrite` | kernel/mm/heap.c:282-284 | A holder's write of any byte range of its allocation keeps all invariants. |
| `Frames.UsedIsSize` | kernel/mm/pmm.c:34-55 | The counted value is the number of frames whose bit is set. |
| `Frames.Pmm.constructor` | kernel/mm/pmm.c:103-107 | All frames start used and unheld with the hint past them all, a state that satisfies every invariant. |
| `Frames.Pmm.MarkRange` | kernel/mm/pmm.c:34-55 | Claiming rounds outwards and releasing inwards: exactly the frames overlapping, or wholly inside, the byte range change; the used count and the hint stay right. |
| `Frames.Pmm.AllocBelow` | kernel/mm/pmm.c:156-187 | Takes the lowest run of free frames below the limit despite the skipping scan and the hint; with frame 0 in use it returns 0 exactly if no run fits; no frame that had a holder is handed out. |
| `Frames.Pmm.RunLength` | kernel/mm/pmm.c:168-170 | Counts free frames up to the first used one or the run asked for. |
| `Frames.Pmm.Claim` | kernel/mm/pmm.c:175-181 | Marks exactly the run and moves the hint only where every frame below stays used. |
| `Frames.TakenBelow` | kernel/mm/pmm.c:180-181 | The condition under which the hint may move past the run. |
| `Frames.Pmm.FreePages` | kernel/mm/pmm.c:199-219 | Drops one holder of every used frame of the run and frees those that had no other; free or missing frames are left alone. |
| `Frames.Pmm.FreeOne` | kernel/mm/pmm.c:204-214 | A shared frame loses one holder, a sole one becomes free, a free or missing one is left alone, with the used count exact. |
| `Frames.Pmm.IncRef` | kernel/mm/pmm.c:226-234 | The books stay right if and only if the frame is in use and its 16-bit count does not wrap. |
| `Frames.Pmm.DecRef` | kernel/mm/pmm.c:248-267 | Frees the frame with its last holder; the books stay right if and only if the frame was in use. |
| `Futex.SuccessIffMarked` | kernel/proc/futex.c:79-96 | Over all interleavings each wait is marked by at most one wake or requeue, and it returns 0 if and only if it was marked, whatever timeout or signal raced. |
| `Futex.ListedWhileActive` | kernel/proc/futex.c:74-95 | A waiter is on the list exactly from its link until its call is over, and once: its stack frame never ends while listed. |
| `Futex.MarkedNotAsleep` | kernel/proc/futex.c:36-39 | A marked waiter is never left asleep: its task was woken or the marking call is just about to wake it. |
| `Futex.CountsAddUp` | kernel/proc/futex.c:31-43 | When no call is running and all waits have returned, the released waits counted by all wakes and requeues are exactly the waits that returned 0. |
| `Futex.WakeReachesAll` | kernel/proc/futex.c:35-40 | A wake that returns fewer than asked has marked every active wait on its key. |
| `Futex.RequeueReachesAll` | kernel/proc/futex.c:109-113 | A requeue that fell short of a quota leaves no unmarked waiter on its first key. |
| `Futex.LateWaitRefused` | kernel/proc/futex.c:69-73 | A wait for the old value that enters after the word changed is refused. |
| `Futex.NoLostWake` | kernel/proc/futex.c:31-116 | No wake is lost: with the word changed, tests and links of waits in any order with it, a later wake that finds fewer than asked leaves every wait for the old value of its key returned or marked. |
| `Futex.StepKeeps` | kernel/proc/futex.c:31-116 | Every atomic step of every call keeps the invariant. |
| `Futex.ReachableInv` | kernel/proc/futex.c:31-116 | The invariant holds in every reachable state. |
| `HeapSlabSpec.Cycle` | kernel/mm/heap.c:300-301 | Linking in front an object that is on the freelist already makes a cycle: no finite list runs through it any more. |
| `HeapSlabs.Kheap.GiveBack` | kernel/mm/heap.c:300-304 | Giving back a live object removes its allocation and keeps all invariants; giving back a free one leaves a freelist no list runs through. |
| `HeapSlabs.Kheap.Trim` | kernel/mm/heap.c:306-308 | Giving up a slab by its count keeps one spare per class; after a double free it leaves a broken freelist, or a live object without its slab. |
| `HeapSlabs.HeldToo` | kernel/mm/heap.c:306-308 | A slab one short of wholly free has a live object, which a double free would take with the slab. |
| `HeapSlabs.Kheap.HeaderIsStray` | kernel/mm/heap.c:294-298 | The start of a slab is in a slab but is no object, live or free. |
| `HeapSlabs.FreeHeader` | kernel/mm/heap.c:421-422 | For every heap of at least four pages and every small size: one allocation, then freeing the slab's own address, leaves a wrong byte count. |
| `HeapSlabs.FreeFree` | kernel/mm/heap.c:291-304 | In every valid heap, freeing the first free object of any class breaks the invariants while changing no allocation. |
| `Frames.HoldFree` | kernel/mm/pmm.c:226-234 | For every frame of every memory: releasing it and then adding a reference breaks the books. |
| `Frames.DropFree` | kernel/mm/pmm.c:248-267 | Likewise releasing it and then dropping a reference. |
| `Frames.HoldTooOften` | kernel/mm/pmm.c:226-234 | Likewise taking 65536 references of one frame. |
| `FutexWalk.WalkExact` | kernel/proc/futex.c:31-116 | Whatever waits do meanwhile, a finished wake or requeue has marked exactly the first waiters of its key in list order, as many as asked for or there were, moved exactly the next ones, touched no other, and returns those counts. |
| `FutexWalk.MarkedByOwnKey` | kernel/proc/futex.c:35-40 | A wait becomes marked only by a wake or requeue of the key it has at that moment. |
| `FutexWalk.MovedByRequeue` | kernel/proc/futex.c:109-113 | The key of a wait changes only from the first to the second key of a requeue, while it is not marked. |
| `FutexWalk.LeavesFor` | kernel/proc/futex.c:79-90 | A wait gives up exactly for a signal, its own deadline or a mark it sees. |
| `FutexWalk.ReturnsReason` | kernel/proc/futex.c:91-96 | It returns that reason, unless it was marked meanwhile. |
| `FutexWalk.RefusedIff` | kernel/proc/futex.c:68-76 | A wait is refused if and only if the word is not the value it expects. |
| `FutexWalk.BeginsIff` | kernel/proc/futex.c:99-107 | A comparing requeue begins if and only if the word is the value it expects. |
| `FutexWalk.WalkGoesOn` | kernel/proc/futex.c:31-43 | A call that holds the lock always has exactly one step to take. |
| `FutexWalk.WaitGoesOn` | kernel/proc/futex.c:79-96 | So has every wait that neither sleeps unmarked nor waits for the lock. |
| `FutexWalk.LinksFirst` | kernel/proc/futex.c:74-96 | A wait that links itself comes first on the list; nothing else adds a waiter and only its own end removes one. |
| `FutexWalk.SleepsUntilWoken` | kernel/proc/futex.c:79-90 | A wait goes to sleep if and only if no wake is pending for its task, and only a wake of its task gets it up. |
| `HeapSlabSpec.Classes` | kernel/mm/heap.c:207-245 | Object sizes double from 16, and a slab holds as many objects as fit behind its header. |
| `HeapSlabs.FewestPages` | kernel/mm/heap.c:313-330 | A large allocation takes the fewest pages that hold it and its header. |
| `Frames.Pmm.MaxMeans` | kernel/mm/pmm.c:156-165 | A run is allowed if and only if its frames are there and end by the limit. |
| `ZaefsDirSpec.AddRefines` | kernel/fs/zaefs.c:524-570 | Adding an absent name binds exactly that name, keeps every record well formed, and keeps every freed record that still bears a name behind the live one; the records' total length grows by a block exactly if no record has room. |
| `ZaefsDirSpec.RemoveRefines` | kernel/fs/zaefs.c:572-594 | Removal unbinds exactly the name, although it stops at the first record bearing it, live or freed. |
| `ZaefsDirSpec.FreedNamesakesAfter` | kernel/fs/zaefs.c:534-552 | Because insertion is first-fit, every freed record bearing the new name lies at or after the place the entry goes to. |
| `ZaefsDirSpec.AddSplitKeeps` | kernel/fs/zaefs.c:541-548 | Splitting a live record in two keeps only the first record of each name live. |
| `ZaefsDirSpec.ViewHas` | kernel/fs/zaefs.c:505-522 | A name is bound exactly if some live record bears it. |
| `ZaefsDirSpec.ViewAt` | kernel/fs/zaefs.c:516-517 | The first live record bearing a name holds the inode the name is bound to. |
| `ZaefsDirSpec.EmptyView` | kernel/fs/zaefs.c:596-612 | Nothing is bound exactly if no record is live. |
| `ZaefsDir.Splice` | kernel/fs/zaefs.c:538-549 | Rewriting the bytes of one record replaces it in the parse of the block and leaves all others. |
| `ZaefsDir.ParsedOk` | kernel/fs/zaefs.c:534-552 | The records of a tiled block are well formed and their lengths add up to the block. |
| `ZaefsDir.PutAt` | kernel/fs/zaefs.c:537-549 | The byte edit of an insertion keeps the block tiled and replaces one record by the specified one or two. |
| `ZaefsDir.PutBehind` | kernel/fs/zaefs.c:539-548 | Cutting a live record short and writing the entry behind it, byte for byte. |
| `ZaefsDir.PutOver` | kernel/fs/zaefs.c:545-548 | Writing the entry over a freed record keeps its length. |
| `ZaefsDir.FreeAt` | kernel/fs/zaefs.c:584-586 | Clearing the inode number keeps the block tiled and changes only that record. |
| `ZaefsDir.ScanFit` | kernel/fs/zaefs.c:534-552 | Finds the first record with room in a block, or that none has. |
| `ZaefsDir.ScanName` | kernel/fs/zaefs.c:513-519 | Finds the first record bearing a name in a block, or that none does. |
| `ZaefsDir.ScanLive` | kernel/fs/zaefs.c:596-612 | Finds the first live record in a block, or that none is. |
| `ZaefsDir.Directory.constructor` | kernel/fs/zaefs.c:614-634 | A new directory binds nothing. |
| `ZaefsDir.Directory.Lookup` | kernel/fs/zaefs.c:505-522 | On the bytes of all blocks: 0 exactly for an unbound name, else the inode it is bound to. |
| `ZaefsDir.Directory.AddEntry` | kernel/fs/zaefs.c:524-570 | Fails exactly if no block has room and none can be allocated, changing nothing; an absent name is bound and nothing else; the directory remains a map if and only if the name was absent. |
| `ZaefsDir.Directory.NewBlock` | kernel/fs/zaefs.c:558-564 | The appended block holds one record spanning it. |
| `ZaefsDir.Directory.RemoveName` | kernel/fs/zaefs.c:572-594 | Unbinds exactly the name; an absent one changes nothing. |
| `ZaefsDir.Directory.IsEmpty` | kernel/fs/zaefs.c:596-612 | True exactly if nothing is bound. |
| `ZaefsDir.Rename` | kernel/fs/zaefs.c:676-682 | Refuses a long name unchanged; else unbinds the old name and binds the new one, between directories or within one; it succeeds if and only if a block can be had or the target has room; a failed one leaves the old name unbound; the target remains a map if and only if the new name was not bound there. |
| `ZaefsDir.ShorterRenameFits` | kernel/fs/zaefs.c:676-682 | Within one directory a rename to a name needing no more space always succeeds. |
| `ZaefsDir.RenameIntoEmptyNeedsBlock` | kernel/fs/zaefs.c:676-682 | Into an empty directory it always needs a block, so on a full disk the name is lost. |
| `ZaefsTree.Distinct` | kernel/fs/zaefs.c:243-315 | No block is reached from two positions, of one inode or of two. |
| `ZaefsTree.InstallAt` | kernel/fs/zaefs.c:262-315 | Writing a pointer into the inode or an index block changes that position and no other, of any inode. |
| `ZaefsTree.Install` | kernel/fs/zaefs.c:262-315 | Installing a zeroed free block keeps the pointer trees of all inodes well formed and disjoint. |
| `ZaefsTree.InstallBytes` | kernel/fs/zaefs.c:262-315 | Installing a zeroed block changes no byte of any file. |
| `ZaefsTree.StoreDataBytes` | kernel/fs/zaefs.c:422-450 | Storing a data block changes exactly the bytes of that block of that file. |
| `ZaefsTree.InstallCount` | kernel/fs/zaefs.c:243-315 | `nblocks` stays the number of blocks the inode owns. |
| `ZaefsTree.RankInjective` | kernel/fs/zaefs.c:318-343 | The order in which freeing visits positions visits none twice. |
| `ZaefsTree.FreedAll` | kernel/fs/zaefs.c:318-343 | After the walk over the three levels the inode owns nothing and all other inodes own what they did. |
| `ZaefsBits.SetBitAt` | kernel/fs/zaefs.c:97-121 | Setting a bit in its byte of its bitmap block sets that bit and no other. |
| `ZaefsBits.UnsetBitAt` | kernel/fs/zaefs.c:123-136 | Clearing a bit clears that one and no other. |
| `ZaefsFs.FreeIsClear` | kernel/fs/zaefs.c:138-157 | `free_blocks` is the number of clear bits in the bitmap. |
| `ZaefsFs.NoneFree` | kernel/fs/zaefs.c:138-149 | It is zero exactly if every bit is set. |
| `ZaefsFs.Installed` | kernel/fs/zaefs.c:243-315 | Allocating and installing a block leaves trees, counts and all files' contents as required. |
| `ZaefsFs.WroteStore` | kernel/fs/zaefs.c:435-439 | Storing a patched block writes the chunk at its place and nothing else, also when a full-block chunk skips the read. |
| `ZaefsFs.WroteFile` | kernel/fs/zaefs.c:442-449 | Once the size is raised, the file is the old one overwritten at the position, zero in any gap, and zero past its end. |
| `ZaefsFs.GrownFile` | kernel/fs/zaefs.c:452-474 | Growing a file exposes zeros and nothing else. |
| `ZaefsFs.FreedFs` | kernel/fs/zaefs.c:318-343 | Freeing all blocks of an inode changes no other file, and exactly its blocks return to the pool. |
| `ZaefsFs.ReadAfterWrite` | kernel/fs/zaefs.c:397-450 | Reading an overwritten range returns what was written; elsewhere what was there, zeros in the gap. |
| `ZaefsFs.Zaefs.constructor` | kernel/fs/zaefs.c:747-789 | Any disk whose bitmaps, pointer trees, counts and linked inodes fit together is valid once mounted. |
| `ZaefsFs.Zaefs.ReadBlock` | kernel/fs/zaefs.c:50-65 | Through the direct-mapped cache a read always returns the disk's current block. |
| `ZaefsFs.Zaefs.WriteBlock` | kernel/fs/zaefs.c:67-74 | A write changes that block only and leaves no stale cache slot. |
| `ZaefsFs.Zaefs.ScanBits` | kernel/fs/zaefs.c:97-121 | Sets the first clear bit of the range, or finds that none is clear. |
| `ZaefsFs.Zaefs.BitmapAlloc` | kernel/fs/zaefs.c:97-121 | Fails exactly if no bit is clear, wherever the hint stands. |
| `ZaefsFs.Zaefs.BitmapFree` | kernel/fs/zaefs.c:123-136 | Clears the bit and lowers the hint to it. |
| `ZaefsFs.Zaefs.AllocBlock` | kernel/fs/zaefs.c:138-149 | Fails exactly if `free_blocks` is zero; otherwise the block is zeroed, was nobody's, and no owned block changed. |
| `ZaefsFs.Zaefs.FreeBlock` | kernel/fs/zaefs.c:151-157 | Returns exactly that block; a pointer outside the data area is ignored. |
| `ZaefsFs.Zaefs.GrowInInode` | kernel/fs/zaefs.c:243-260 | A missing block is allocated for a pointer in the inode, with accounting and all files' bytes kept. |
| `ZaefsFs.Zaefs.GrowInIndex` | kernel/fs/zaefs.c:262-315 | The same for a pointer in an index block. |
| `ZaefsFs.Zaefs.Bmap` | kernel/fs/zaefs.c:238-260 | Without allocation -1 exactly for a hole or past the last mappable block, and nothing changes; with it, -1 only if that limit or a full disk is hit, and no file's bytes change either way. |
| `ZaefsFs.Zaefs.BmapIndirect` | kernel/fs/zaefs.c:267-278 | Through the indirect block: the same conditions, with the index block allocated, zeroed and counted when missing. |
| `ZaefsFs.Zaefs.BmapDouble` | kernel/fs/zaefs.c:279-314 | Through two index blocks: the same, including when the first is had and the second is not. |
| `ZaefsFs.Zaefs.MidBlock` | kernel/fs/zaefs.c:282-301 | The second-level index block of a slot, allocated when asked; none only on a full disk, and no file's bytes change. |
| `ZaefsFs.Zaefs.Read` | kernel/fs/zaefs.c:397-420 | Returns the file's bytes of the range, cut at its size, zeros for holes, and changes nothing but the cache. |
| `ZaefsFs.Zaefs.Write` | kernel/fs/zaefs.c:422-450 | The file becomes its old bytes overwritten at the position; every other file keeps its bytes; short or failed only on a full disk or past the last mappable block. |
| `ZaefsFs.Zaefs.WriteAll` | kernel/fs/zaefs.c:429-441 | The chunk loop writes a prefix of the data and stops early only for those reasons. |
| `ZaefsFs.Zaefs.Truncate` | kernel/fs/zaefs.c:452-474 | Grows with zeros, cuts to nothing and frees all blocks, or refuses, leaving everything as it was; other files keep their bytes. |
| `ZaefsFs.Zaefs.FreeAllBlocks` | kernel/fs/zaefs.c:318-343 | Exactly the inode's blocks return to the pool, each once. |
| `ZaefsFs.Zaefs.FreeDouble` | kernel/fs/zaefs.c:328-337 | Data blocks, each index block after its data, and the double-indirect block last: all are owned by nobody afterwards. |
| `ZaefsFs.Zaefs.CreateInode` | kernel/fs/zaefs.c:159-166 | Fails exactly if no inode is free; otherwise a new empty inode, all others kept. |
| `ZaefsFs.Zaefs.Get` | kernel/fs/zaefs.c:345-357 | One more reference; the first brings in the stored inode. |
| `ZaefsFs.Zaefs.Put` | kernel/fs/zaefs.c:360-372 | The last reference of an inode without links returns its blocks and itself to the pool, exactly then; every other file keeps its bytes. |
| `ZaefsFs.Zaefs.Destroy` | kernel/fs/zaefs.c:360-372 | The inode is gone, its blocks and its bitmap bit are free, every other file keeps its bytes. |
| `ZaefsFs.Zaefs.Link` | kernel/fs/zaefs.c:636-648 | One name more: the link count grows by one and nothing else of any inode changes. |
| `ZaefsFs.Zaefs.Unlink` | kernel/fs/zaefs.c:650-665 | One name less: the link count drops by one, never below zero, and nothing else of any inode changes; an inode without names lives on while it is held. |
| `ZaefsFs.Zaefs.Flush` | kernel/fs/zaefs.c:212-221 | The stored inode becomes the one in memory. |
| `ZaefsDirSpec.AddTwice` | kernel/fs/zaefs.c:524-570 | Adding a bound name always leaves two live records of it. |
| `ZaefsFs.Zaefs.FreeTree` | kernel/fs/zaefs.c:321-337 | The walk over the three levels frees every block of the inode, and leaves all data blocks' bytes. |
| `ZaefsFormat.Mkfs` | scripts/mkzaefs.py:28-109 | The image of an empty tree, of every size that holds its metadata, is one the driver mounts: bitmaps, counters and the root inode satisfy all invariants. |
| `ZaefsFormat.Bitmaps` | scripts/mkzaefs.py:45-50 | Exactly the metadata blocks and the first two inodes are marked used. |
| `ZaefsFormat.LayoutOk` | scripts/mkzaefs.py:30-38 | The layout is one the driver accepts if and only if the metadata fits and block numbers have 32 bits. |
| `ZaefsFormat.LayoutFits` | scripts/mkzaefs.py:30-38 | It fits if and only if there are at least five blocks. |
| `ZaefsNames.Replay` | kernel/fs/zaefs.c:355-373 | Over every history of names given and taken and vnodes coming and going, a file is there if and only if a name or a vnode is left, with its contents, blocks and link count; else its blocks are free. No other file changes. |
| `ZaefsNames.Step` | kernel/fs/zaefs.c:636-673 | One step of such a history. |
| `ZaefsNames.LinkUnlink` | kernel/fs/zaefs.c:636-665 | A name given and taken again leaves all as it was. |
| `ZaefsDirSpec.AddEntries` | kernel/fs/zaefs.c:524-570 | Adding a name adds exactly its record, with inode and kind, to the live ones, and changes no other. |
| `ZaefsDirSpec.RemoveEntries` | kernel/fs/zaefs.c:572-594 | Removing takes exactly the first record of the name away, if that is live. |
| `Ext4Extents.AppendIsSound` | kernel/fs/ext4.c:565-643 | A block past every extent is always right to add, through merging, pushing the root down and starting a sibling leaf, and leaves the tree well formed. |
| `Ext4Extents.MappedBelow` | kernel/fs/ext4.c:513-540 | In a tree without unwritten extents, past everything mapped is past every extent. |
| `Ext4Extents.UnsoundExamples` | kernel/fs/ext4.c:576-633 | Three accepted insertions that go wrong in 1024-byte blocks: before the first key of a depth-1 tree and inside an unwritten extent the block is not found afterwards, and past the end of a full leaf of 84 extents that is not the last it hides the later leaf. |
| `Ext4Extents.LeafReplaced` | kernel/fs/ext4.c:584-602 | New contents for the chosen leaf that change one lookup there map the block and keep every other mapping of the tree if and only if the block is not before the first key and the leaf finds it. |
| `Ext4Extents.PushedDown` | kernel/fs/ext4.c:603-617 | A full root pushed into a leaf block maps every block as before. |
| `Ext4Extents.SiblingAdded` | kernel/fs/ext4.c:619-634 | A sibling for a block past a full leaf's end is right if and only if nothing in the leaves after that one is written. |
| `Ext4Extents.FindHole` | kernel/fs/ext4.c:524-531 | Lookup reports a hole exactly where no extent lies or the one that does is unwritten. |
| `Ext4Extents.FindInserted` | kernel/fs/ext4.c:596-601 | Inserting an extent for an uncovered block changes the lookup of that block only. |
| `Ext4Extents.FindGrown` | kernel/fs/ext4.c:588-594 | Growing the preceding extent by one changes the lookup of that block only. |
| `Ext4Extents.InsertedOk` | kernel/fs/ext4.c:586-601 | Extents stay sorted and disjoint. |
| `Ext4Extents.BmapInner` | kernel/fs/ext4.c:520-537 | Lookup in a tree of depth 1 is lookup in the leaf of the last key not above the block. |
| `Ext4Extents.ExtentTree.constructor` | kernel/fs/ext4.c:569-575 | An empty tree maps nothing. |
| `Ext4Extents.ExtentTree.Map` | kernel/fs/ext4.c:513-540 | The level loop with its single buffer computes the mapping of the tree, a hole past six levels. |
| `Ext4Extents.ExtentTree.Insert` | kernel/fs/ext4.c:569-643 | A refusal changes nothing; a success maps the block and keeps every other mapping if and only if the stated condition on the block's place holds, and keeps the tree well formed if the place is a real hole, not before the first key, with a sibling only after the last leaf. Trees may hold unwritten extents. |
| `Ext4Extents.ExtentTree.InsertBelow` | kernel/fs/ext4.c:576-640 | The same for a tree of depth 1. |
| `Ext4Extents.ExtentTree.IntoLeaf` | kernel/fs/ext4.c:584-602 | Grow or insert in one leaf, refusing exactly when it is full and nothing lines up. |
| `Ext4Htree.InsertOk` | kernel/fs/ext4.c:1067-1085 | Inserting into a leaf keeps it tiled and adds exactly the entry to its live entries. |
| `Ext4Htree.PackInsert` | kernel/fs/ext4.c:1165-1170 | Filling an emptied leaf one insertion at a time packs the entries in order; an entry fails exactly if the total would exceed the block. |
| `Ext4Htree.SplitHalves` | kernel/fs/ext4.c:1155-1158 | Every entry is in exactly one half, hashes below the key in the lower and at or above it in the upper, so equal hashes stay together; both halves are non-empty and fit. |
| `Ext4Htree.SplitDir` | kernel/fs/ext4.c:1153-1177 | After the split both blocks are tiled, the index is sorted with distinct blocks, every leaf holds only hashes of its range, and the directory has exactly the entries it had. |
| `Ext4Htree.SplitIndexOk` | kernel/fs/ext4.c:1173-1177 | The new index entry behind the one descended through keeps the index strictly sorted. |
| `Ext4Htree.DescendFinds` | kernel/fs/ext4.c:1118-1132 | The descent goes to the leaf whose range holds the hash. |
| `Ext4Htree.Findable` | kernel/fs/ext4.c:1118-1134 | Every entry of a well-formed directory is in the leaf its hash leads to, for any hash function. |
| `Ext4Htree.SortSorts` | kernel/fs/ext4.c:1153-1154 | The sorted list is sorted and a permutation. |
| `Ext4Htree.Sort` | kernel/fs/ext4.c:1153-1154 | The in-place exchange loops compute it. |
| `Ext4Htree.Sink` | kernel/fs/ext4.c:1154-1154 | The exchanging inner loop leaves the prefix sorted by hash with earlier equals first. |
| `Ext4Htree.SplitCanLoseName` | kernel/fs/ext4.c:1172-1172 | For every hash that puts three names of 65 to 68 bytes below three of 253 to 255: they fill a 1024-byte leaf, it can be split, and a fourth long name hashed above is stored nowhere. |
| `Ext4Htree.LeafInsert` | kernel/fs/ext4.c:1067-1085 | Succeeds exactly if some record has room, and uses the first. |
| `Ext4Htree.Collect` | kernel/fs/ext4.c:1146-1152 | Gathers the live entries with their hashes, in order. |
| `Ext4Htree.FindMid` | kernel/fs/ext4.c:1155-1156 | The middle, moved on until the hash changes. |
| `Ext4Htree.Pack` | kernel/fs/ext4.c:1165-1170 | Every insertion of the rebuilding loop finds room, and the half is packed without gaps. |
| `Ext4Dir.HashedDir.constructor` | kernel/fs/ext4.c:1087-1100 | A directory with one empty leaf, with or without an index node above it, holds nothing. |
| `Ext4Dir.HashedDir.DescendTo` | kernel/fs/ext4.c:1123-1132 | Through one index level or two, the entry reached is the one a single descent of the flat index gives. |
| `Ext4Dir.HashedDir.AddEntry` | kernel/fs/ext4.c:1106-1185 | For either number of levels (deeper trees are refused): refusal changes nothing; success loses no entry and keeps all reachable; the new name is stored if and only if its leaf, or its half of the split leaf, has room for it. |
| `Ext4Dir.HashedDir.SplitAndAdd` | kernel/fs/ext4.c:1140-1182 | The split path, with the exact condition under which the name is stored. |
| `FatChains.FreedIsZeroed` | kernel/fs/fat.c:227-235 | Freeing from a chain's first cluster clears exactly the chain's entries. |
| `FatChains.Freed` | kernel/fs/fat.c:227-235 | Following and clearing terminates on every sane table, cyclic ones included, and leaves it sane. |
| `FatChains.Dropped` | kernel/fs/fat.c:227-235 | Freeing one file's chain leaves all others intact, disjoint and acyclic. |
| `FatChains.Marked` | kernel/fs/fat.c:215-216 | Marking a free cluster as an end changes no chain. |
| `FatChains.Linked` | kernel/fs/fat.c:251-253 | Linking it behind a chain's end lengthens that chain and keeps all chains apart. |
| `FatChains.Started` | kernel/fs/fat.c:241-246 | Giving an empty file its first cluster keeps all chains apart. |
| `Fat.DecodeEncode` | kernel/fs/fat.c:173-204 | Reading an entry just written gives the value, an end mark included, for FAT16 and FAT32 with its reserved top bits. |
| `Fat.Reaches` | kernel/fs/fat.c:213-214 | The cyclic scan comes to every cluster from any hint. |
| `Fat.FatFs.constructor` | kernel/fs/fat.c:705-727 | A mounted disk with equal copies of a sane table is valid, bad-cluster marks included. |
| `Fat.FatFs.Store` | kernel/fs/fat.c:134-141 | Every copy gets the cached sector. |
| `Fat.FatFs.Load` | kernel/fs/fat.c:122-132 | Switching sectors, writing a dirty one back first, changes nothing the driver sees. |
| `Fat.FatFs.BatchEnd` | kernel/fs/fat.c:147-151 | All copies on disk equal the logical table. |
| `Fat.FatFs.Get` | kernel/fs/fat.c:154-182 | Always the latest value set, whatever is cached or waiting. |
| `Fat.FatFs.Set` | kernel/fs/fat.c:184-207 | Changes one entry of the logical table; outside a batch it is on disk at once. |
| `Fat.FatFs.AllocCluster` | kernel/fs/fat.c:211-225 | 0 exactly if no cluster is free; else a cluster that was free, now an end. |
| `Fat.FatFs.FreeChain` | kernel/fs/fat.c:227-235 | The loop computes the cleared table and terminates on any sane table. |
| `Fat.FatFs.Truncate` | kernel/fs/fat.c:624-634 | Exactly the file's clusters become free; all other files keep their chains. |
| `Fat.FatFs.ChainWalk` | kernel/fs/fat.c:238-258 | The cluster at the index, extending the chain when asked; 0 then only if no cluster is free; no other chain changes. |
| `Fat.FatFs.NextPlace` | kernel/fs/fat.c:248-255 | The next cluster of the chain; at its end 0, or with allocation a new last cluster, and 0 then only if none is free. |
| `Fat.FatFs.Extend` | kernel/fs/fat.c:251-253 | Fails exactly if no cluster is free, changing nothing; else that chain is one cluster longer and no other changed. |
| `Fat.FatFs.ChainAt` | kernel/fs/fat.c:262-272 | Resuming from the remembered place returns what walking from the first cluster would, and the hint stays right. |
| `Vfs.WalkParent` | kernel/fs/vfs.c:108-133 | Terminates on every vnode graph; the link count only grows and stops a walk beyond 16. |
| `Vfs.Follow` | kernel/fs/vfs.c:96-103 | Terminates on symlink cycles, counting each link followed, and yields a vnode only within the limit. |
| `Vfs.Resolve` | kernel/fs/vfs.c:141-156 | Terminates on every path and graph, by the links left and then the path left. |
| `Vfs.FollowEndsOutside` | kernel/fs/vfs.c:96-103 | Following never ends on a symbolic link. |
| `Vfs.LookupWithinLimit` | kernel/fs/vfs.c:90-156 | A successful lookup followed at most 16 links, and does not end on one unless the path has no last component. |
| `Vfs.FoundInParent` | kernel/fs/vfs.c:71-88 | Looking a visible vnode's name up in its parent finds it, through the mount if it is a mounted root. |
| `Vfs.NamesLeadBack` | kernel/fs/vfs.c:468-480 | Descending from the root of paths by the names the printer collects leads back to the vnode. |
| `Vfs.WalkSpell` | kernel/fs/vfs.c:108-133 | Walking the text of a list of names is descending the list. |
| `Vfs.PathResolves` | kernel/fs/vfs.c:458-485 | For every visible vnode across nested mounts, the printed path resolves back to it if and only if it is not the root of a filesystem covering the global root; that one prints as the empty path. |
| `Vfs.PathResolvesIff` | kernel/fs/vfs.c:458-485 | With the global root not covered, the printed path of any vnode leads back to it if and only if neither it nor a directory above it is covered by a mount. |
| `Vfs.LookupVisible` | kernel/fs/vfs.c:141-156 | With the global root not covered, no path leads to a vnode that a mount covers, through links and parents. |
| `Vfs.StepVisible` | kernel/fs/vfs.c:71-88 | One component leads from a visible vnode to a visible one. |
| `Vfs.UpFromRoot` | kernel/fs/vfs.c:71-78 | Going up from the root path ends at the global root itself, which is the root of paths if and only if nothing covers it. |
| `Vfs.CoveredRootLost` | kernel/fs/vfs.c:249-271 | A filesystem mounted over the global root whose own root prints as a path that leads nowhere, while the directory moved into it is found again. |
| `Vfs.PrintPath` | kernel/fs/vfs.c:458-485 | Writes that path with its end mark, for any vnode, and fails exactly if one of the two buffers is too short. |
| `Vfs.Prepend` | kernel/fs/vfs.c:476-478 | A slash and the name come to stand right before the text already there. |
| `Ext4Extents.UnwrittenInsert` | kernel/fs/ext4.c:524-601 | What the leaf code makes of a block that reads as a hole, by growing or by inserting, keeps all other lookups of the leaf, and is found if and only if no unwritten extent starting before it covers it. |
| `Ext4Htree.FewEntries` | kernel/fs/ext4.c:1144-1152 | Entries with names take at least twelve bytes each, so the scratch array of bs / 12 + 1 holds all of a leaf. |
| `Ext4Htree.NamelessEntries` | kernel/fs/ext4.c:1144-1152 | With empty names it need not: 128 records of eight bytes tile a 1024-byte leaf, more than the array has. |
| `Ext4Dir.TwoDescents` | kernel/fs/ext4.c:1123-1132 | Descending the root and then the node it leads to ends where one descent of the flat index does. |
| `Ext4Dir.FlatSplit` | kernel/fs/ext4.c:1173-1177 | An entry inserted behind another in its node is inserted behind it in the flat index. |
| `Ext4Dir.FoundBelow` | kernel/fs/ext4.c:1118-1134 | Every entry of a directory of one or two index levels is in the leaf its hash leads to. |
| `Ext4Dir.HashedDir.AddBelow` | kernel/fs/ext4.c:1133-1182 | The same for the leaf reached, with the room of the root or of the node deciding whether a split is possible. |
| `Ext4Dir.HashedDir.Halve` | kernel/fs/ext4.c:1143-1170 | Collecting, sorting, choosing the middle and rebuilding give the two packed halves and their key, or nothing if all hashes are one. |
| `Ext4Dir.HashedDir.InsertSlot` | kernel/fs/ext4.c:1173-1177 | The new index entry, in the root or in a node, is one entry more at its place in the flat index. |
| `FatChains.ChainDistinct` | kernel/fs/fat.c:227-258 | A chain that ends has no cluster twice. |
| `FatChains.SanePut` | kernel/fs/fat.c:184-207 | Clearing an entry, ending a chain at it or linking an unmarked cluster leaves no link to a cluster marked bad. |
| `FatChains.Opened` | kernel/fs/fat.c:416-430 | One more file whose chain is in nobody else's keeps all chains acyclic and apart. |
| `Fat.FatFs.Open` | kernel/fs/fat.c:416-430 | A file taken from its directory entry joins the open ones with its chain. |
| `Fat.FatFs.Create` | kernel/fs/fat.c:473-509 | A file without clusters joins the open ones. |
| `Ext4Lookup.BmapExact` | kernel/fs/ext4.c:513-540 | In an ordered tree of up to five index levels a block maps to a disk block if and only if a written extent of a reachable leaf says so. |
| `Ext4Lookup.LookupExact` | kernel/fs/ext4.c:513-540 | The same for every subtree. |
| `Fat.DecodeMeans` | kernel/fs/fat.c:154-180 | Exactly the eight reserved values of each kind end a chain; all other entries are themselves, the top four bits of FAT32 entries aside. |
| `Fat.EncodeKeepsHigh` | kernel/fs/fat.c:184-207 | A new entry fills the low 16 or 28 bits and keeps the top four. |
| `VfsMeaning.ResolveLooks` | kernel/fs/vfs.c:90-156 | The recursive lookup is pathname resolution by substitution: a link gives way to the components of its target, counted from its directory or from the root, at most 16 of them. |
| `VfsMeaning.LinkLeads` | kernel/fs/vfs.c:90-103 | Following the path of a visible link gives what its target gives, a relative one counted from the directory that holds the link, if 16 links are enough for one more. |
| `VfsMeaning.UpLeads` | kernel/fs/vfs.c:71-78 | Two dots from a visible directory below the root lead to the directory it is in, through the mount. |
| `VfsMeaning.PathOn` | kernel/fs/vfs.c:108-133 | A path that begins with that of a visible directory goes on from the directory. |
| `VfsMeaning.LookAppend` | kernel/fs/vfs.c:108-133 | Resolving a path is resolving its first part and going on from there. |
| `VfsMeaning.LookShift` | kernel/fs/vfs.c:90-103 | One link more on the way costs one of the 16 and changes nothing else. |
| `VfsMeaning.DotLeads` | kernel/fs/vfs.c:71-74 | A single dot stays where it is. |

## Left out

TCP

- The handshake (LISTEN, SYN_SENT, SYN_RCVD): runs start in ESTABLISHED with both SYNs acknowledged and any handshake segments still in the network.
- A reader that has shut down (`shut_rd`), listening sockets, wait queues and reference counts.
- Deadlines and the doubling of the timeout: a timer is armed or not, and which have expired is an input; no liveness is claimed.
- Sequence numbers are unbounded; `SeqCompareAgrees` says when the 32-bit comparisons agree with that. Header bytes, options and checksums are not laid out.
- The parked queue is a sequence instead of a linked list; its splices keep their order and cuts, not the nodes' identities.

Crypto

- The point formulas of P-256, the hash functions, random numbers and the constants `PE_INV`, `PE_SQRT`, `PE_LEG`.
- `sbox[0]` as the sign that the tables are built: tables are built once per key.

Memory

- `krealloc`, `kzalloc`, and the `nslabs` counters.
- Pages taken directly through `heap_alloc_pages` next to the slab layer: all live pages belong to slabs and large allocations.
- The magic numbers of slab and large headers: a slab or large allocation exists when it is in its map, so a forged header inside user memory is not represented.
- Sizes near 2^64, where rounding up to pages would wrap.
- Unmapping in batches of 64 with TLB flushes; frames are counted, not named, in the page layer.
- The frame bitmap is an array of booleans, not 64-bit words; the time before reference counts exist.

zaefs

- Device errors, allocation failure of kernel memory, timestamps, `readdir`, the superblock image, and the range check of mapped blocks, which never triggers in a valid state.
- Stored inodes are a map from numbers, not bytes in table blocks; directories are modelled on their own blocks, apart from the file layer that would hold them.
- The 16-bit link count's wrap-around.
- The image builder's copying of a non-empty tree into the image.
- ZaefsDir.Rename: what a lookup finds after a rename onto a bound name, which the path layer rules out; only that two records are then live.

ext4 and FAT

- Indirect-block inodes, trees deeper than one index level for insertion (refused by the code), block allocation bitmaps, checksums, byte layout.
- Ext4Htree.Findable: directories in which names of one hash continue in the next leaf under an odd key, as other systems' splits can leave them.
- The hash of a name is an arbitrary total function; a hash version the code does not know is not represented.
- FAT12, directory entries, the byte packing of FAT16 and FAT32 entries, zeroing of new clusters and file data.

Futex and paths

- Address translation of keys, computing a deadline from a timespec, stopped tasks; the scheduler's wake-up rule is taken as a primitive.
- Lookups that ask a filesystem for entries not in memory.
- Mount, create, unlink and rename in the path layer, drivers, interrupts, modules, pipes, ptys, other protocols: outside the core modelled here.
