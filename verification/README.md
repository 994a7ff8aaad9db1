# A verified model of the SOEM core

SOEM is an EtherCAT master. This project models the parts of its core whose correctness depends on global
invariants, and proves that they do what they are for:

- **Network discovery and clocks** (`Network`, `Topology`, `DistributedClock`, `ClockAttachments`, `DelayMeasurement`,
  `DelayFailures`). The bus is a tree that a frame walks through. The backwards scan over link counts recovers that
  tree, and the latched port times become the true propagation delay of every slave, in every network exactly if each
  clock is accurately attached to a port of the next clock above (section 6.8 of ETG.1000.4).
- **Mailboxes** (`MailboxPool`, `MailboxQueue`, `MailboxSystem`, `MailboxHandler`, `MailboxClient`). A ring of free
  buffers, a ring of queue slots addressed through tickets, the cyclic handlers, and the clients that send and receive.
  The classes refine a state machine of which conservation of buffers, stability of tickets and single delivery are
  proved for every run; a client that returns from sending has no buffer left in its hands.
- **Process data** (`FmmuMapping`, `Segments`, `GroupMapping`, `ProcessData`, `CyclicExchange`). The allocation of
  logical bits to slaves (FMMUs, section 6.6 of ETG.1000.4), the packing into segments, and the cyclic exchange that
  puts every returned byte back where it was sent from.
- **Frames** (`Datagrams`, `Nicdrv`, `FrameDispatch`, `Redundancy`, `FrameCounters`). Building frames of several
  datagrams in place, frame indices and out-of-order dispatch, the reroute decisions that hide broken cables, and what
  is read from a frame that came back.
- **Transfers** (`Eoe`, `Sdo`, `Foe`). Senders, receivers and round trips for Ethernet, parameters and files over
  mailboxes (sections 5.7, 5.6 and 5.8 of ETG.1000.6).
- **EEPROM** (`SiiCache`, `SiiParser`). The byte cache, the search for a section, and the PDO section (section 5.4 of
  ETG.1000.6).

`Basics` holds what they share. Code that changes things step by step is modelled as methods over arrays, fields and
loops, each proved against a function; the theorems are about those functions, and say what the results are in terms
of the inputs: the bytes on the wire, the readings of the ports, the addresses, the buffers. The environment (what
arrives on a socket and when, working counters, replies of a slave, timers) is a parameter that ranges over everything
it can be.

Some expectations about the code turned out not to hold. They are stated with an input that shows it, and with the
condition under which the code does what is expected:

- a clock that passes the end of its range while the frame is behind its slave: a slave behind another clock is given
  its true delay if and only if its own clock does not wrap (`DelayMeasured`); in a measurable network whose first
  clocks do not wrap, all delays are right if and only if no clock wraps (`DelaysMeasured`); if a first clock wraps and
  has one branch, the delay behind it is negated (`WrapNegates`, with a network in `WrapSpoilsDelay`), while with two
  branches it can come out right by chance (`WrapUnnoticed`);
- which port of the clock above a slave is attached to depends on the ports used up before it. In every network in which
  no clock wraps, all delays are right if and only if the frame reaches all clocks without one above at the same time
  (`RootsAt`) and each other clock is accurately attached (`DelaysAccurate`). Attached to the port it hangs on, a clock
  is so if and only if the way home is as long as the way out, or one unit longer (`AccurateAtHome`); attached to the
  port of an earlier branch, under the condition of `AccuratePassed`. Three shapes can go wrong:
  - a slave without a clock that branches between two clocks. With two branches on cables that take time, the first
    clock behind is always wrong (`ForkSpoils`, with a network in `ClocklessBranchSpoilsDelay`);
  - a branch without clocks that branches itself, before one with clocks: it uses up no port, and the next branch is
    attached to the port of the one before (`AskewAccurate`, `PassedOverSpoils`, with a network in
    `UncleanBranchSpoilsDelay`);
  - clocks on two branches of a slave with no clock at or above it: they keep the delay 0, right if and only if the
    frame reaches them at the same time (`RootKeepsDelay`, with a network in `TwoRootsSpoil`).

  If no clock wraps, networks of none of these shapes are measured right (`Measurable`, `OneReference`). That is
  sufficient, not necessary: equal round trips on both sides of a middle branch cancel;
- the byte count is not reset between the FMMUs of a slave: no FMMU exceeds its sync managers if and only if the first
  two cover the slave (`FitExactlyTwo`, three sync managers apart in `ThreeApart`); with no sync manager of non-zero
  length the mapping loop makes no progress (`UnproductiveNeverEnds`);
- the expected working counter is raised once too often for a slave exactly when the open segment is full and the slave
  needs more than one (`AddExtentWkc`, two slaves in `OneOvercount`);
- the expected input working counter counts a slave twice that has a status byte and some bits, but no whole byte, of
  inputs (`InputsWkcCountsSlaves`);
- with separate reads and writes the mailbox status bytes are read if and only if there are none, or there are inputs
  and no segment ends where the inputs end (`SplitReadsStatus`, groups in `StatusUnreadWithoutInputs` and
  `StatusUnreadBehindInputs`);
- `mbxstatuslength` contains the start address of the group, so what mapping leaves is fit for the exchange if and only
  if that address is 0 (`MappedGroupValid`, `MapForExchange`);
- a full transmit queue does not rotate: it moves if and only if its tail is marked for removal (`FullQueueMoves`), so
  one slave that does not answer stops all others (`FullQueueStalls`), and the out-handler sends up to `limit + 1`
  messages (`OutHandler`);
- frames of more than 63 blocks do not survive Ethernet over EtherCAT (`RoundTripExactly`);
- an empty parameter sent expedited arrives as four zero bytes (`Sdo.RoundTrip`); a segment that is not sent is not
  noticed (`SilentLoss`), and whatever the result says, the parameter arrives if and only if every message was sent and
  it is not that empty one (`ParameterArrives`);
- a file transfer to a busy slave can end early with a positive working counter: the comment says that busy before
  the first packet is ignored, the code ends the transfer (`PositiveMeansTaken`, transfers in `BusyAtOnce` and
  `BusyAtTheEnd`);
- two users can be given one index: a frame that cannot be sent frees its index while its user still holds it
  (`TwoHolders`), and while no slot is free the index handed out is one in use (`FullTableShared`, `OneSlotShared`).
  Nobody is ever given an index in use if and only if every request finds a free slot and none is for an index between
  its failed send and its next send or its release (`SharedExactly`);
- a message whose answer is lost is written again although it arrived (`WrittenTwice`): a message that is done was
  acknowledged exactly once, and was written exactly once if and only if no answer to it was lost (`DoneMeansWritten`);
- mapping a group again enters the slaves of its status bytes behind the old entries of the table: it names the right
  slave for every byte if and only if the stored length was 0, or the table did so already and the new entries are all
  behind (`LookedFinds`);
- if a rerouted frame is lost, the caller gets the partly processed one (`LostResend`);
- the section search takes its address forward if and only if four plus twice the length, in sixteen bits, is not zero
  and does not lead to 0x8000 or beyond; it stays where it is exactly for the lengths 0x7ffe and 0xfffe
  (`StepAdvances`), and does so for ever (`SelfLoop`).

## Model

| member | source | states |
|---|---|---|
| Topology.FindParent | src/ec_config.c:311-339 | the parent found for one slave is the result of the backwards scan with the running link count |
| Topology.FindParents | src/ec_config.c:310-339 | every slave gets the parent of its own scan, the first one the master |
| Topology.ScanSkipsSubtree | src/ec_config.c:316-338 | over a complete subtree, however deep, the scan never stops and the count falls by exactly one |
| Topology.ScanStopsAtParent | src/ec_config.c:331-336 | with fewer branches skipped than a slave has, the scan stops at that slave |
| Topology.ScanReachesParent | src/ec_config.c:316-338 | started in front of any branch of a slave, the scan skips the earlier branches and stops at the slave |
| Topology.ScanFindsParents | src/ec_config.c:310-339 | for every tree numbered in preorder the parents found are the true ones, for all slaves |
| Topology.DiscoverTree | src/ec_config.c:310-339 | running the search over the link counts of any tree leaves the true parents in the slave list |
| DistributedClock.ParentPort | src/ec_dc.c:214-242 | the next unconsumed port in the order 3, 1, 2, 0 is returned and taken from that slave only |
| DistributedClock.FindEntryPort | src/ec_dc.c:309-352 | the entry port is an active one; no active port has a lower latched time, and of several with the lowest it is the first in the order 0, 3, 1, 2 |
| DistributedClock.FindDcParent | src/ec_dc.c:354-360 | the climb yields the nearest ancestor with a clock and its child towards the slave |
| DistributedClock.PropagationDelay | src/ec_dc.c:371-402 | the dt1, dt2, dt3 arithmetic in signed 32 bits is the delay formula |
| DistributedClock.DelayPlainly | src/ec_dc.c:371-402 | while nothing leaves the 32-bit range: half of the time of the branch less that of the slave's own branches, rounded towards zero, plus the time of the parent's earlier branches, plus the parent's delay; an own time above that of the branch counts negative, an earlier time positive |
| DistributedClock.MeasureSlave | src/ec_dc.c:275-407 | the turn of a slave with a clock changes its own record and the ports of its parent as specified, nothing else |
| DistributedClock.MeasuredPort | src/ec_dc.c:214-370 | the turn of a slave attaches it to the next unconsumed port of the nearest clock above, in the order 3, 1, 2, 0, or to the entry port of one without any other; that port, and nothing else above, is used up |
| DistributedClock.SkipSlave | src/ec_dc.c:408-424 | the turn of a slave without a clock, with the port it uses up at a branching parent |
| DistributedClock.ConfigDc | src/ec_dc.c:250-429 | the loop over the slave list is the run of these turns in numerical order |
| DistributedClock.Int32Difference | src/ec_dc.c:376-397 | differences of wrapped clock readings are exact while they fit into 31 bits, whatever the clock offsets |
| DistributedClock.EntryPortRecognised | src/ec_dc.c:309-352 | port 0 is taken for the entry port if and only if no reading at the slave wraps below the first |
| DistributedClock.DelayBalanced | src/ec_dc.c:371-402 | with the parent ready and the slave's entry port recognised, the delay computed is the true time since the reference if and only if the way home is as long as the way out, or one longer |
| DistributedClock.SpanReversed | src/ec_dc.c:309-386 | at a slave whose clock wraps while the frame is behind it, what is taken for the time the frame was behind it is negative |
| DistributedClock.DelayMeasured | src/ec_dc.c:371-402 | with the parent ready and symmetric cables, the delay computed is the true time since the reference if and only if the slave's clock does not wrap meanwhile |
| ClockAttachments.AllAttached | src/ec_dc.c:354-360 | every clock that has one above it is attached to it, so all attached clocks are readable if and only if no clock wraps |
| ClockAttachments.AccurateAtHome | src/ec_dc.c:371-402 | attached to the port it hangs on, a clock gets its true delay if and only if the way home is as long as the way out, or one longer |
| ClockAttachments.AccuratePassed | src/ec_dc.c:371-402 | attached to the port of an earlier branch, if and only if the frame spent no time up to it, or half of what it spent on that branch and behind the clock, if the latter is more, is the way out |
| ClockAttachments.ClocklessLeaves | src/ec_dc.c:408-424 | a branch without clocks uses up the port held for it if it is a line, and none if it branches |
| ClockAttachments.PortsInTurn | src/ec_dc.c:214-242 | in a measurable network every branch with clocks finds its own port |
| ClockAttachments.EvenAll | src/ec_dc.c:250-429 | in a measurable network every clock is attached to the port it hangs on, with ways out and home of the same length |
| ClockAttachments.OneReference | src/ec_dc.c:354-370 | if above the first clock no slave has clocks on two branches, the first clock is the only one without another above |
| DelayMeasurement.RunKeepsDelay | src/ec_dc.c:270-425 | delay, parent port, entry port and readings of a slave are written in its own turn and in no other |
| DelayMeasurement.AttachedDelay | src/ec_dc.c:371-402 | in 32-bit arithmetic, for any port of the clock above, the delay computed is the true one if and only if the clock does not wrap and the attachment is accurate |
| DelayMeasurement.NothingHeld | src/ec_dc.c:408-424 | after any whole branch no port is held |
| DelayMeasurement.RunTree | src/ec_dc.c:270-425 | below a slave with a clock, the turns for any subtree give its slaves their true delays and use up the ports as specified if every attachment is good; otherwise some delay in it is wrong |
| DelayMeasurement.RunAbove | src/ec_dc.c:270-425 | for any subtree without clocks above it, the delays since `t0` are right if and only if its first clocks are reached at `t0` and every attachment is good |
| DelayMeasurement.DelaysExact | src/ec_dc.c:250-429 | for every network, with any clock offsets, the clocks without one above not wrapping, nor those attached askew: the computed delay of every slave with a clock is the arrival time of the frame there since `t0`, if and only if the clocks without one above are reached at `t0` and all others are accurately attached and do not wrap |
| DelayMeasurement.DelaysAccurate | src/ec_dc.c:250-429 | for every network in which no clock wraps, if and only if the clocks without one above are reached at `t0` and all others are accurately attached |
| DelayMeasurement.DelaysMeasured | src/ec_dc.c:250-429 | for every measurable network, if and only if the clocks without one above are reached at `t0` and no clock wraps |
| DelayMeasurement.NetworkMeasured | src/ec_dc.c:250-429 | the exact condition for every network from the slaves' own reports, the parents being those of the backwards scan |
| DelayMeasurement.PortsRecorded | src/ec_dc.c:354-370 | for every network in which no clock wraps: after the run each slave with a clock and one above has for its parent port the port of its attachment |
| DelayMeasurement.PortsOwn | src/ec_dc.c:354-370 | in a measurable network that is the port of the clock above whose cable leads to the slave |
| DelayMeasurement.RecordLeft | src/ec_dc.c:275-412 | after the run a slave with a clock has its readings and the entry port they make, one without has zeros |
| DelayFailures.WrapNegates | src/ec_dc.c:309-402 | behind a reference slave with one branch, on whichever port, whose clock wraps, the delay comes out negated |
| DelayFailures.WrapSpoilsDelay | src/ec_dc.c:309-402 | a concrete wrapping clock for which a delay of 5 is computed as -5, and port 0 recorded where it should be 3 |
| DelayFailures.WrapUnnoticed | src/ec_dc.c:309-402 | a concrete wrapping clock with two equal branches for which all delays are right |
| DelayFailures.FirstAttached | src/ec_dc.c:354-370 | the first clock on a branch is attached to the next port that is left, whatever slaves without clocks are between |
| DelayFailures.ForkSpoils | src/ec_dc.c:250-429 | no network is measured right in which the first branch of some clock leads to a slave without clock that has two branches on cables that take time, and straight from there to a clock |
| DelayFailures.AskewAccurate | src/ec_dc.c:371-424 | behind a branch that uses up no port, the exact condition on the times for the first clock of the next branch |
| DelayFailures.PassedOverSpoils | src/ec_dc.c:250-429 | every network that begins so and does not meet that condition is measured wrong |
| DelayFailures.RootKeepsDelay | src/ec_dc.c:354-370 | in any network a slave with a clock and none above keeps the delay it had |
| DelayFailures.TwoRootsSpoil | src/ec_dc.c:354-370 | a concrete network with two such slaves where a delay of 12 stays 0 |
| DelayFailures.ClocklessBranchSpoilsDelay | src/ec_dc.c:408-424 | a concrete network with a branching clockless slave where a delay of 30 is computed as 60 |
| DelayFailures.UncleanBranchSpoilsDelay | src/ec_dc.c:408-424 | a concrete network with a branching branch without clocks before a clock where a delay of 127 is computed as 60 |
| MailboxPool.MbxPool.constructor | src/ec_main.c:320-334 | all buffers are free, in order |
| MailboxPool.MbxPool.Get | src/ec_main.c:272-287 | the first free buffer leaves the free list, or none is returned and nothing changes |
| MailboxPool.MbxPool.Drop | src/ec_main.c:294-309 | a buffer that is not free is appended to the free list; the list cannot be full then |
| MailboxQueue.TicketPigeonhole | src/ec_main.c:369-373 | if all of the first n tickets denote entries there are at least n entries |
| MailboxQueue.TicketFree | src/ec_main.c:366-373 | while the queue is not full the ticket search succeeds, and what it finds no entry holds |
| MailboxQueue.AddHolds | src/ec_main.c:374-382 | adding keeps the one-to-one relation of tickets and live unmarked slots |
| MailboxQueue.MarkHolds | src/ec_main.c:401-406 | marking for removal and freeing the ticket keeps it |
| MailboxQueue.RotateHolds | src/ec_main.c:452-474 | moving the tail slot to the head and redirecting its ticket keeps it |
| MailboxQueue.DropHolds | src/ec_main.c:505-513 | dropping a tail slot marked for removal keeps it |
| MailboxQueue.TailTicket | src/ec_main.c:443-474 | the search for the ticket of the tail finds it exactly if the tail is not marked for removal |
| MailboxQueue.MbxQueue.AddQueue | src/ec_main.c:361-386 | -1 and no change when full; else the smallest free ticket, and behind all other entries one for the slave and the buffer, requested and with that ticket |
| MailboxQueue.MbxQueue.DoneQueue | src/ec_main.c:393-411 | true exactly if the entry of the ticket is done; then the entry is marked and the ticket free |
| MailboxQueue.MbxQueue.ExpireQueue | src/ec_main.c:418-436 | the entry of the ticket is marked and the ticket free, whatever the state of the message |
| MailboxQueue.MbxQueue.RotateQueue | src/ec_main.c:443-477 | an unmarked tail moves to the head unless the queue is full; otherwise nothing changes |
| MailboxQueue.MbxQueue.DropQueue | src/ec_main.c:501-516 | the marked tail leaves the queue and its buffer, if any, is handed over |
| MailboxSystem.StepConserves | src/ec_main.c:272-516 | no step of anybody changes in how many places a buffer is |
| MailboxSystem.BuffersConserved | src/ec_main.c:272-516 | in every reachable state each pool buffer is in exactly one of free list, queue, in-slots and hands, and no other buffer exists; what callers leave in their hands is the matter of `MailboxClient` |
| MailboxSystem.StepInv | src/ec_main.c:361-516 | every step keeps tickets and messages distinct and the record of each entry in step with what was written |
| MailboxSystem.ReachableInv | src/ec_main.c:361-516 | this holds in every reachable state, so no message is ever written again once it was acknowledged |
| MailboxSystem.StepGivesTicket | src/ec_main.c:361-386 | adding yields a ticket below the size that denotes the new message |
| MailboxSystem.RunKeepsHandle | src/ec_main.c:361-516 | until it is given back a ticket denotes the same message, slave and buffer through any run |
| MailboxSystem.WritesInRun | src/ec_main.c:1463-1485 | in any run a message is written once for every acknowledgement and once for every answer lost |
| MailboxSystem.DoneMeansWritten | src/ec_main.c:393-411 | done is reported only for a message acknowledged exactly once, and outside a send exactly for those; all writes of it went to its slave from its buffer, and there was one more for every answer lost |
| MailboxSystem.WrittenTwice | src/ec_main.c:1463-1485 | a run in which the answer to a message is lost: it is written twice and then done |
| MailboxHandler.SendTail | src/ec_main.c:1463-1485 | the send of the tail entry refines the answer and entry steps; with a positive working counter it is done, without buffer, and the buffer is free, otherwise it has failed and keeps its buffer |
| MailboxHandler.CloseTail | src/ec_main.c:1487-1495 | rotation, removal check and drop refine the closing step |
| MailboxHandler.OutTurn | src/ec_main.c:1455-1496 | one turn of the out-handler is one turn of the state machine, and keeps all invariants: the tail entry is written exactly if it is not yet sent and its slave is in PRE_OP or above |
| MailboxHandler.OutHandler | src/ec_main.c:1446-1498 | the handler is a sequence of turns; it counts those with a message to send, ends after limit + 1 of them, and otherwise visits every entry |
| MailboxHandler.TurnsFlush | src/ec_main.c:1446-1498 | if the queue has room or its tail is marked, and all slaves answer, the turns leave only sent messages in their order, marked ones gone |
| MailboxHandler.FullQueueStalls | src/ec_main.c:452-474 | a full queue with an unmarked tail stays as it is behind the tail, however many turns are taken |
| MailboxHandler.FullQueueMoves | src/ec_main.c:452-516 | a full queue moves, and is no longer full from then on, if and only if its tail is marked for removal |
| MailboxHandler.InTurn | src/ec_main.c:1294-1428 | a received mailbox goes into the empty in-slot of its kind, to the hook or back to the pool, as specified; a lost one is to be asked for again |
| MailboxHandler.VisitByKind | src/ec_main.c:1316-1410 | kind by kind: with its in-slot (CoE 0, SoE 1, EoE 2, FoE 3, VoE 4, AoE 5) enabled and empty the mailbox is there and no other slot changes, otherwise it is back in the pool |
| MailboxHandler.VisitWithoutSlot | src/ec_main.c:1294-1428 | errors, emergencies, unknown kinds, fragments taken by the hook, and lost frames: the buffer is back in the pool and no slot changes |
| MailboxClient.AddMessage | src/ec_main.c:361-386 | adding to the queue is the step of the state machine, full or not |
| MailboxClient.FinishMessage | src/ec_main.c:393-411 | looking whether a message is done is the step of the state machine, and reports what the step finds |
| MailboxClient.ExpireMessage | src/ec_main.c:418-436 | giving a message up is the step of the state machine |
| MailboxClient.ReturnBuffer | src/ec_main.c:294-309 | giving a buffer back to the pool is the step of the state machine |
| MailboxClient.Await | src/ec_main.c:1550-1564 | the waiting loop ends done if and only if a look found the message done, whose arrival then was acknowledged exactly once; otherwise the time is up and the message is given up: the ticket is given back either way |
| MailboxClient.MbxSend | src/ec_main.c:1529-1588 | whatever the handler does in between, on return the buffer is out of the caller's hands and no other buffer is, and the caller holds no ticket; the result is 1 if and only if a look found the message done, and then it was acknowledged exactly once and written to its slave once more for every answer lost |
| MailboxClient.MbxReceive | src/ec_main.c:1600-1656 | looking at the four in-slots in their order and waiting in turn, as specified; the buffers stay conserved |
| MailboxClient.WaitsResult | src/ec_main.c:1600-1656 | a mailbox received was in the first full in-slot at the look that ended the waiting, which is empty now, and is in the caller's hands; none is received if and only if no slot was full at any look |
| MailboxClient.ReceivedByKind | src/ec_main.c:1316-1656 | all slots empty, one CoE, SoE, FoE or EoE message arrives: the client is given exactly that buffer, and the slots are empty again; VoE and AoE messages are not looked for |
| MailboxClient.ReceivedInOrder | src/ec_main.c:1608-1640 | of two messages waiting CoE is received before SoE, SoE before FoE, FoE before EoE, whichever came first |
| FmmuMapping.Collect | src/ec_config.c:784-812 | the sync managers taken into one FMMU and the byte count, as specified |
| FmmuMapping.PlaceBits | src/ec_config.c:815-834 | a slave of at most seven bits gets exactly its bits from the cursor on |
| FmmuMapping.PlaceBytes | src/ec_config.c:836-855 | whole bytes start on the next byte boundary |
| FmmuMapping.CreateMappings | src/ec_config.c:756-890 | the loop ends and yields the specified FMMUs; the cursor is behind the last bit |
| FmmuMapping.FmmusTile | src/ec_config.c:781-889 | the FMMUs of a slave cover exactly its bits, without gap or overlap, and their lengths add up |
| FmmuMapping.FmmuStarts | src/ec_config.c:784-793 | the first FMMU starts at the first sync manager of the kind, all others at later ones of the kind, in order |
| FmmuMapping.AllAdjoining | src/ec_config.c:793-812 | sync managers that adjoin or overlap and together are long enough share one FMMU, which starts at the first and is as long as the slave needs |
| FmmuMapping.UnproductiveNeverEnds | src/ec_config.c:781-812 | without a reachable sync manager of non-zero length no pass makes progress: the requirement is exact |
| FmmuMapping.FitExactlyTwo | src/ec_config.c:768-792 | no FMMU exceeds its sync managers if and only if the first two cover the slave |
| FmmuMapping.ThreeApart | src/ec_config.c:768-812 | three equal sync managers apart from one another: the second FMMU is twice as long as its sync manager |
| Segments.AddExtentValid | src/ec_config.c:1108-1123 | everything a slave adds is packed and no segment exceeds its bound while segments are left |
| Segments.AddExtentCuts | src/ec_config.c:1108-1123 | what was packed before is not cut again; a slave that fits into a segment is not cut |
| Segments.AddExtentFills | src/ec_config.c:1108-1123 | a segment is closed only for want of room: a slave that fits is added to the open one, one that fits into a segment begins a new one, a longer one fills the open one and whole ones of 1486 bytes |
| Segments.AddTight | src/ec_config.c:1130-1246 | the rest of a direction closes a full segment, counted once; a status byte closes a segment of 1466 bytes or more, and is dropped if none is left |
| Segments.AddExtentWkc | src/ec_config.c:1117-1126 | the counter rises by the number of segments carrying part of the slave, and by one more exactly when the open segment is full and the slave needs more than one |
| Segments.OneOvercount | src/ec_config.c:1117-1126 | two slaves, two datagrams that carry one each, and an expected counter of three |
| Segments.SmallSlaveUncut | src/ec_config.c:1108-1123 | a slave that fits into the first segment lies in one segment, whatever the other slaves are |
| Segments.WkcCountsMeetings | src/ec_config.c:1117-1126 | for all slaves the counter is the number of meetings of segments with slaves plus the overcounts |
| Segments.WkcCountsSlaves | src/ec_config.c:1117-1126 | if every slave fits into the first segment the counter is the number of slaves taking part |
| GroupMapping.IoGroup.PackSlave | src/ec_config.c:1108-1126 | the segment variables after one slave are those specified |
| GroupMapping.IoGroup.PackRest | src/ec_config.c:1130-1143 | the same for the last, partly used byte |
| GroupMapping.IoGroup.MapOne | src/ec_config.c:1094-1127 | one slave: its FMMUs tile its place and start at its sync managers of type 3 for outputs and 4 for inputs, the cursor and the segments advance |
| GroupMapping.IoGroup.MapDirection | src/ec_config.c:1087-1143 | one direction: every slave's FMMUs tile its place, and the segments are those of the extents |
| GroupMapping.IoGroup.MapStatus | src/ec_config.c:1052-1246 | one status byte for each slave that has one, in order, packed behind the inputs; the table of their slaves is filled from the stored length on |
| GroupMapping.LookedFinds | src/ec_config.c:1052-1053 | the table then names, under the number of slaves with a status byte before it, every slave with one, if and only if the stored length was 0, or it did before and the new entries are all behind |
| GroupMapping.StatusNamed | src/ec_config.c:1052-1053 | the slaves entered are those with a status byte and no others, each at the number of those before it |
| GroupMapping.LookedOnly | src/ec_config.c:1052-1053 | only slaves with a status byte are entered, and all other entries of the table stay |
| GroupMapping.IoGroup.MapGroup | src/ec_config.c:1062-1249 | all fields of the group after mapping, the segments included, for outputs, inputs and status bytes; output FMMUs start at sync managers of type 3, input FMMUs at those of type 4 |
| GroupMapping.PlacesDisjoint | src/ec_config.c:1087-1129 | the bits of a later slave lie behind those of an earlier one |
| GroupMapping.GroupPlaces | src/ec_config.c:1087-1218 | outputs then inputs: all places are increasing, disjoint and inside the group, packed or not |
| GroupMapping.UnpackedExtent | src/ec_config.c:1098-1109 | unpacked, a slave takes as many whole bytes as its bits need |
| GroupMapping.UnpackedBytes | src/ec_config.c:1087-1218 | unpacked, the inputs begin behind the whole bytes of all outputs, and the status bytes behind those of all inputs |
| GroupMapping.SegmentsFit | src/ec_config.c:1071-1246 | with segments left over they add up to outputs, inputs and status bytes; the first leaves room for the clock datagram, all fit into a frame, only the last may be empty |
| GroupMapping.OutputsUncut | src/ec_config.c:1087-1129 | unpacked, outputs that fit into the first segment end up in one segment of the final list |
| GroupMapping.InputsUncut | src/ec_config.c:1156-1200 | the same for inputs, wherever the outputs ended |
| GroupMapping.OutputsWkcCountsSlaves | src/ec_config.c:1117-1126 | unpacked, with outputs that fit, outputsWKC is the number of slaves with outputs |
| GroupMapping.OutputsWkcCountsMeetings | src/ec_config.c:1117-1126 | for outputs of any size, outputsWKC is the number of meetings in the final segmentation plus the overcounts |
| GroupMapping.InputsWkcCountsSlaves | src/ec_config.c:1055-1200 | unpacked, with inputs that fit, inputsWKC is the number of slaves with inputs and one more for every slave with a status byte and no whole byte of inputs, so that a slave with a few bits and a status byte counts twice |
| ProcessData.ChunksComplete | src/ec_main.c:2544-2586 | segments that add up to the length are all sent, an empty last one excepted |
| ProcessData.ChunksStop | src/ec_main.c:2471-2502 | sending stops exactly where a segment ends at the length, and otherwise at the last segment |
| ProcessData.CappedComplete | src/ec_main.c:2512-2540 | the capped loop sends exactly the length |
| ProcessData.Exchange.PushIndex | src/ec_main.c:2358-2368 | an entry goes on the stack, or is silently ignored when the stack is full |
| ProcessData.Exchange.PullIndex | src/ec_main.c:2374-2385 | the entries come back in the order pushed, then -1 |
| ProcessData.Exchange.SendSegments | src/ec_main.c:2471-2585 | the frames sent and the entries pushed are those of the plan |
| ProcessData.Exchange.ClearStatus | src/ec_main.c:1129-1137 | the mailbox status bytes become zero, no others change |
| ProcessData.Exchange.Send | src/ec_main.c:2416-2590 | the whole send, for as many segments as the stack has room for: every output byte is carried to its logical address by exactly one frame with the value it has in the IOmap, reads go out as zeros, the clock travels with the first frame only, and each frame has an entry with its index, place, length and clock offset; of the IOmap only the status bytes are cleared |
| ProcessData.Exchange.SendSplit | src/ec_main.c:2461-2542 | the same without combined accesses |
| ProcessData.SentRight | src/ec_main.c:2416-2590 | the frames of the plan carry every output byte once and unchanged, write nothing else but, with combined accesses, what is behind it, and read with zeros |
| ProcessData.AnsweredByIndex | src/ec_main.c:2613-2620 | each entry is served by the frame that came back with its index |
| ProcessData.Exchange.Receive | src/ec_main.c:2601-2677 | the IOmap and the working counter are those of receiving every entry, and the stack is empty |
| ProcessData.PlanInMap | src/ec_main.c:2416-2590 | everything a mapped group sends lies in its part of the IOmap |
| ProcessData.ReceiveScatters | src/ec_main.c:2613-2670 | each byte read is put at the offset it was sent from, in whatever order frames were sent; lost frames, writes and other bytes leave the IOmap alone |
| ProcessData.StatusLost | src/ec_main.c:2436-2670 | a status byte that no frame brings back is zero, whatever it was before |
| ProcessData.ReceiveCounts | src/ec_main.c:2613-2670 | the working counter is the sum over the process data datagrams that came back, writes twice, the clock datagram's left out; something came back if and only if it is valid |
| ProcessData.CycleComplete | src/ec_main.c:2416-2677 | a full cycle brings every byte of the group to its place in the IOmap exactly once and adds up the counters |
| ProcessData.CombinedTiles | src/ec_main.c:2544-2586 | with combined accesses the whole group is carried exactly once, byte by byte in order |
| ProcessData.SplitWritesOutputs | src/ec_main.c:2505-2541 | without them the writes carry the outputs exactly once, byte by byte in order |
| ProcessData.SplitReadsInputs | src/ec_main.c:2464-2503 | and the reads what is behind them, never less than the inputs |
| ProcessData.SplitReadsStatus | src/ec_main.c:2464-2503 | without combined accesses the status bytes are read if and only if there are none, or there are inputs and no segment ends where the inputs end |
| ProcessData.StatusUnreadWithoutInputs | src/ec_main.c:2464-2503 | a group with outputs and a status byte but no inputs: nothing is read |
| ProcessData.StatusUnreadBehindInputs | src/ec_main.c:2464-2503 | a group whose first segment ends with its inputs: its status byte is not read |
| ProcessData.SplitCycleComplete | src/ec_main.c:2416-2677 | a full split cycle brings the bytes read to their places in the IOmap, leaves all others and adds up the counters |
| CyclicExchange.MappedGroupValid | src/ec_config.c:1145-1249 | whatever the slaves are, the group fields that mapping computes meet all that sending and receiving rely on if and only if the group starts at address 0 |
| CyclicExchange.MapForExchange | src/ec_config.c:1062-1249 | the fields left by mapping a group are those, and fit for the exchange exactly then |
| Datagrams.FrameBuffer.PutDatagram | src/ec_base.c:29-52 | header, data (zero for reads) and a zero working counter are written at the place given, nothing else |
| Datagrams.FrameBuffer.Setup | src/ec_base.c:66-89 | the buffer holds the frame with exactly that datagram, byte by byte: command, index, address, offset, length, data (zeros for reads) and a zero working counter; the Ethernet header is untouched |
| Datagrams.FrameBuffer.Add | src/ec_base.c:104-144 | the frame has one more datagram behind the others, byte by byte; of the others only the flag of the first changes, and the total length; the offset returned is that of its data in the received frame |
| Datagrams.FrameRoundTrip | src/ec_base.c:66-144 | a properly chained frame is taken apart into exactly its datagrams |
| Datagrams.DataPlace | src/ec_base.c:141-143 | the data of each datagram is ten bytes behind the lengths of those before it |
| Datagrams.CounterLocated | src/ec_base.c:75-115 | the total-length field locates the last working counter |
| Datagrams.FprdMulti | src/ec_main.c:875-896 | for up to 64 slaves the frame parses back into one properly chained read for each, in order, of the six bytes at 0x0130 of its configured address, and every recorded offset points at its data |
| Datagrams.CopyStates | src/ec_main.c:897-906 | from the frame that came back every slave's own state is copied |
| Nicdrv.NextIndexFree | oshw/linux/nicdrv.c:229-247 | the index handed out is free if and only if some index is; it is the one behind the last if that is free or none is |
| Nicdrv.Port.GetIndex | oshw/linux/nicdrv.c:223-255 | the first free index behind the last used is allocated on both stacks |
| Nicdrv.Port.SetBufStat | oshw/linux/nicdrv.c:262-267 | the status of the index is set on both stacks when redundant |
| Nicdrv.Port.OutFrame | oshw/linux/nicdrv.c:275-297 | the transmit buffer goes out and its slot waits, or is free again if sending fails |
| Nicdrv.Port.OutFrameRed | oshw/linux/nicdrv.c:304-335 | the frame leaves with the primary address and, if redundant, a dummy with the same index and the secondary address |
| Nicdrv.Port.InFrame | oshw/linux/nicdrv.c:378-468 | one poll: a stored frame is taken, an own one completed, one awaited by others stored for them, any other dropped |
| Nicdrv.Port.WaitInFrameRed | oshw/linux/nicdrv.c:482-579 | waiting and rerouting change the port as specified and return the working counter specified |
| FrameDispatch.StepInv | oshw/linux/nicdrv.c:223-468 | every step, but a request for an index while no slot is free, keeps each index in one of: answer stored, answer on its way to a waiting slot, nothing pending |
| FrameDispatch.RunInv | oshw/linux/nicdrv.c:223-468 | this holds after any run of any users whose requests find free slots |
| FrameDispatch.StartInv | oshw/linux/nicdrv.c:85-134 | it holds when all slots are empty |
| FrameDispatch.DistinctStart | oshw/linux/nicdrv.c:85-134 | and then no index is held, by one user or by two |
| FrameDispatch.AllocatedFree | oshw/linux/nicdrv.c:223-255 | an index handed out had a free slot if and only if there was one, and no other slot changes |
| FrameDispatch.AllocatedFresh | oshw/linux/nicdrv.c:223-297 | an index handed out was held by nobody if and only if a slot was free and its last send did not fail |
| FrameDispatch.DistinctStep | oshw/linux/nicdrv.c:223-468 | every step but handing out a failed index or one in use keeps holders distinct |
| FrameDispatch.ReceiveOwn | oshw/linux/nicdrv.c:378-468 | a poll returns a working counter exactly if the own answer is stored or read, and then the slot holds that answer |
| FrameDispatch.AnswerKept | oshw/linux/nicdrv.c:378-468 | through any steps of others whose requests find free slots an answer is neither lost nor overwritten |
| FrameDispatch.AnyOrder | oshw/linux/nicdrv.c:378-468 | in any order of arrival the waiter gets its own frame, and all frames read before are stored for their waiters |
| FrameDispatch.SharedExactly | oshw/linux/nicdrv.c:223-468 | in a run no index is given to a second user if and only if every request finds a free slot and none is for an index between its failed send and its next send or its release |
| FrameDispatch.TwoHolders | oshw/linux/nicdrv.c:223-297 | whenever all other indices are taken, a failed send and a request for an index leave two users with one index |
| FrameDispatch.FullTableShared | oshw/linux/nicdrv.c:238-247 | whenever all slots are in use, a request for an index leaves two users with one, no send having failed |
| FrameDispatch.OneSlotShared | oshw/linux/nicdrv.c:238-247 | such a run from the start |
| Redundancy.Ring.AlongSplit | oshw/linux/nicdrv.c:551-558 | being processed by slaves i to j and then j to k is being processed by i to k |
| Redundancy.ListenHears | oshw/linux/nicdrv.c:511-528 | whatever else arrives in between, after the first wait each side has its answer if there was one |
| Redundancy.BreakHidden | oshw/linux/nicdrv.c:482-579 | for any broken cables the frame returned was processed once, in order, by exactly the slaves still connected, whose memories are those after that one pass; no frame only if both cards are cut off |
| Redundancy.OneBreakHidden | oshw/linux/nicdrv.c:533-572 | with one broken cable, at either card or anywhere between, that is every slave in order |
| Redundancy.LostResend | oshw/linux/nicdrv.c:554-571 | if the rerouted frame does not come back the frame of the slaves before the break is returned and stays in the transmit buffer |
| FrameCounters.CounterRead | oshw/linux/nicdrv.c:399-438 | of a frame of any datagrams the driver returns the working counter of the last, and takes the index of the first for that of the frame |
| FrameCounters.PollReturns | oshw/linux/nicdrv.c:378-468 | a poll that completes a slot with a frame of datagrams returns the working counter of the last |
| FrameCounters.PollMisses | oshw/linux/nicdrv.c:405-468 | a poll without a frame returns -1, one that reads a frame of somebody else -2; that frame is stored exactly if a slot waits for it |
| FrameCounters.WaitReturns | oshw/linux/nicdrv.c:482-579 | whatever cables are broken, the wait returns the working counter of the last datagram of the frame that all connected slaves processed |
| FrameCounters.PlainWait | oshw/linux/nicdrv.c:482-579 | without redundancy, the one of the own frame, whatever other frames are read in between |
| FrameCounters.ClockFrame | src/ec_main.c:2613-2660 | in a frame with the clock behind, data and counter of the first datagram are where they are read, and the clock 24 bytes behind the length |
| FrameCounters.FramesFit | include/soem/ec_type.h:52-59 | the bounds of the segments are exactly those with which a frame, the first with the clock, keeps to 1518 bytes |
| Eoe.FieldsRoundTrip | include/soem/ec_eoe.h:60-94 | every header field comes back as put in, cut to its width |
| Eoe.Build | src/ec_eoe.c:367-406 | one mailbox is filled with the next fragment: as many whole blocks as fit or the rest, its port, last flag, number, place in blocks (for the first, the size of the frame in blocks) and frame number in their bits |
| Eoe.Send | src/ec_eoe.c:332-421 | what is sent are the fragments of the frame, all of them or up to the first failure |
| Eoe.SendFragments | src/ec_eoe.c:359-416 | the same for the loop |
| Eoe.NoRoomNoProgress | src/ec_eoe.c:367-372 | fragments are empty before the end exactly if there is no room for a block |
| Eoe.Receiver.ReadFragment | src/ec_eoe.c:559-666 | reading a mailbox changes the four working variables, the size and the buffer as specified |
| Eoe.ReadInTurn | src/ec_eoe.c:590-661 | an expected fragment is put behind what is there and completes the frame exactly if it is the last |
| Eoe.ReadFirst | src/ec_eoe.c:590-661 | a first fragment starts a frame whatever the working variables were |
| Eoe.ReadRefuses | src/ec_eoe.c:590-625 | refused are exactly the fragments that are neither the expected nor a first one, and those of another frame or for another place; then the buffer stays and the reception starts anew |
| Eoe.ReadStores | src/ec_eoe.c:606-661 | the data of any other goes behind what is there unless it leads beyond the announced blocks or the buffer, and the last one makes the size known, less a time stamp |
| Eoe.RoundTrip | src/ec_eoe.c:332-665 | for every frame of at most 63 blocks and every mailbox with room for a block, from any working variables the results are zero until the last, then one with exactly the frame |
| Eoe.RoundTripExactly | src/ec_eoe.c:332-665 | and this works if and only if the frame has at most 63 blocks |
| Sdo.SdoWrite | src/ec_coe.c:343-549 | the messages sent are the first of the specified ones, and where and with which result the transfer ends follows from the replies |
| Sdo.Segment | src/ec_coe.c:482-514 | one mailbox is filled with the specified segment |
| Sdo.FirstBytes | src/ec_coe.c:363-460 | the first message byte by byte: command, index, subindex, and the data, behind its length if it is not expedited |
| Sdo.SegmentBytes | src/ec_coe.c:466-514 | every further message byte by byte: the next bytes of the parameter, as many as there is room for, the last-segment bit, the unused bytes and the alternating toggle bit |
| Sdo.Download.SegmentsInOrder | src/ec_coe.c:466-547 | the k-th segment carries the k-th full piece, only the last is shorter, and the toggle bit alternates |
| Sdo.SilentLoss | src/ec_coe.c:517-544 | a concrete transfer that loses a segment, goes on to its end and returns a positive result |
| Sdo.SdoRead | src/ec_coe.c:180-297 | the parameter read is what the rules of the receiver make of the messages, and the commands of the segment requests alternate between 0x60 and 0x70 |
| Sdo.SdoReadSegments | src/ec_coe.c:210-290 | the same for the segment loop |
| Sdo.ReadBegins | src/ec_coe.c:192-212 | a first message with all of the announced bytes is the parameter, one with less begins it |
| Sdo.SegmentTaken | src/ec_coe.c:224-280 | a segment contributes the bytes its length field says, a last one of seven bytes as many as are in use, and the last ends the parameter |
| Sdo.SegmentRefused | src/ec_coe.c:224-290 | anything but an upload segment response ends the reading |
| Sdo.ReadTooLarge | src/ec_coe.c:187-212 | a parameter is refused for its size if and only if it is longer than the buffer |
| Sdo.SegmentRoundTrip | src/ec_coe.c:242-263 | a segment hands over the piece it was filled with, whatever its length and the unused bytes |
| Sdo.SegmentsRoundTrip | src/ec_coe.c:213-280 | the segments give back the rest of the parameter |
| Sdo.RoundTrip | src/ec_coe.c:180-549 | for every mailbox of at least 16 bytes the parameter written is the parameter read, if and only if it is not an empty one sent expedited |
| Sdo.SegmentsArrived | src/ec_coe.c:213-547 | of the segments sent, those that arrive give the rest of the parameter if and only if they are all there are |
| Sdo.ParameterArrives | src/ec_coe.c:180-549 | however a write ends and whatever it returns, what arrived gives the parameter if and only if every message was sent and it is not an empty one sent expedited |
| Foe.FoeWrite | src/ec_foe.c:260-417 | for every sequence of replies the packets sent and the result are those of the specified transfer |
| Foe.Send | src/ec_foe.c:284-315 | one packet is filled with the next chunk, and the variables follow |
| Foe.Source.LastIsShort | src/ec_foe.c:295-300 | every packet but the last is full, the last never is |
| Foe.Source.More | src/ec_foe.c:289-300 | there is something left or a final empty packet is due exactly while packets are left |
| Foe.Source.Undone | src/ec_foe.c:336-346 | a busy reply takes the last packet back, and it is sent again exactly if it is not empty |
| Foe.PacketsAreChunks | src/ec_foe.c:260-417 | every packet sent is the chunk its number says, a repeated one identical, and numbers rise by at most one |
| Foe.PositiveMeansTaken | src/ec_foe.c:260-417 | with a positive result the slave has taken every chunk once and in order, if and only if no busy reply ended the transfer early |
| Foe.BusyAtOnce | src/ec_foe.c:336-346 | a slave that is busy at once: nothing of the file is sent, and the result is positive |
| Foe.BusyAtTheEnd | src/ec_foe.c:336-346 | one that is busy after the empty last packet: that packet is not taken, and the result is positive |
| Foe.FoeRead | src/ec_foe.c:114-196 | the file, the acknowledgements and the result are those of the rules of the receiver |
| Foe.TakeRefuses | src/ec_foe.c:136-185 | a packet out of turn or beyond the buffer ends the reception, and nothing of it is kept |
| Foe.ReceivedInTurn | src/ec_foe.c:114-196 | whatever comes, the file is the data of the packets in turn, each acknowledged by its number, never more than the buffer; the result is positive if and only if the last of them was short and acknowledged, and otherwise says what came instead |
| Foe.ChunksRebuild | src/ec_foe.c:119-190 | the chunks rebuild the file, each is acknowledged, and the reception stops behind the last |
| Foe.RoundTrip | src/ec_foe.c:114-417 | whenever a transfer succeeds without ending in a busy reply, the packets the slave took are read back as the file |
| SiiCache.SiiBuffer.GetByte | src/ec_main.c:526-590 | one read changes buffer, bitmap and slave as specified and returns the byte specified |
| SiiCache.SiiBuffer.Fill | src/ec_main.c:553-583 | four or eight bytes are put into the buffer and exactly their bits set |
| SiiCache.SiiBuffer.Mark | src/ec_main.c:571-583 | the bits of the bytes read are set across words, no others |
| SiiCache.GetCoherent | src/ec_main.c:526-590 | a known byte is always that of the current slave, and so is the byte returned |
| SiiCache.HistoryIrrelevant | src/ec_main.c:526-590 | over any sequence of reads from any slaves each byte equals a direct read, 0xff behind the buffer |
| SiiCache.InsideExactly | src/ec_main.c:552-570 | which reads stay inside the buffer: all but those of an unknown byte among the last six of a slave that answers with eight bytes, or the last two of any other |
| SiiParser.SiiFind | src/ec_main.c:597-629 | on a well-formed list the address of the length word of the first section of the category, or zero; from word 0x40 on the lengths lead there, or to the end mark, past sections of other categories |
| SiiParser.FoundHeld | src/ec_main.c:597-629 | at that address are the length and the body of the section |
| SiiParser.StepInMemory | src/ec_main.c:609-618 | in a well-formed list one turn of the search goes from one section to the next |
| SiiParser.StepAdvances | src/ec_main.c:609-618 | for which length words one turn of the search takes the address forward, and for which it stays |
| SiiParser.SelfLoop | src/ec_main.c:609-618 | in a memory with the length word 0x7ffe at a section of another category the search is back there after any number of turns |
| SiiParser.ReadEntries | src/ec_main.c:844-851 | the bit lengths of all entries are added in sixteen bits and the address is behind the last |
| SiiParser.ReadPdos | src/ec_main.c:828-865 | every object is recorded once and in order up to the table limit, and reading ends behind the last one |
| SiiParser.SiiPDO | src/ec_main.c:806-871 | from the section list to the table: the objects of the right section (50 or 51), one that is not there if it is empty, or an empty table if there is no such section; index, sync manager and bit length of each are what the bytes say |
| SiiParser.TableListed | src/ec_main.c:828-865 | the records are those of the objects that follow one another in memory, read from their bytes, and the bits of a sync manager are the sum of theirs |
| SiiParser.SumsAgree | src/ec_main.c:852-853 | the sum over objects in range is the sum over sync managers |
| SiiParser.SizeIsSum | src/ec_main.c:852-871 | the size returned is the sum of the sizes by sync manager, in sixteen bits |

## Left out

- Overlapped mapping, slaves of other groups than the mapped one, and the size of the FMMU table of a slave.
- The 16-bit width of `ByteCount` and `FMMUsize` in the FMMU mapping: lengths are unbounded numbers.
- GroupMapping.IoGroup.MapGroup: requires that segments are left when the inputs are packed, because the source then writes one entry of `IOsegment` without looking at its size.
- GroupMapping.OutputsWkcCountsSlaves: speaks of unpacked mode; in packed mode a slave that adds no whole byte is not counted.
- GroupMapping.InputsWkcCountsSlaves: speaks of unpacked mode and of inputs that fit into the first segment.
- DelayMeasurement.DelaysExact: says nothing of networks in which a clock without one above wraps, or one that is attached askew; `WrapUnnoticed` shows that the former can come out right.
- DelayMeasurement.PortsRecorded: says nothing of networks in which a clock wraps; `WrapSpoilsDelay` shows that a wrong port can be recorded then, and `MeasuredPort` says which one for any state of the list.
- DelayFailures.ForkSpoils: speaks of the first branch of a clock; for others, and for three branches, `DelaysAccurate` and `AccurateAtHome` give the condition clock by clock.
- `DCtime`: the place its bytes are read from is modelled (`ClockFrame`), the variable is not.
- Processing time inside slaves, the DC register writes, `DCnext` and the system time offset.
- The mailbox status FMMUs as register writes: only their bytes and their order are modelled.
- MailboxHandler.OutHandler: nobody else touches the queue during a turn of the handler; `MailboxSystem` allows steps of others between the parts of a turn, but takes rotation, removal check and drop as one.
- MailboxHandler.InTurn: what the EoE hook answers is a parameter, and of the repeated request after a lost mailbox only the flag that asks for it is modelled.
- MailboxClient.MbxSend: other clients take no steps during the call; `MailboxSystem` covers what they do to the queue.
- The non-cyclic branches of `ecx_mbxsend` and `ecx_mbxreceive`, error reporting, threads, locks and timers: a timer is the length of a list of events.
- Frames returned at another length than they were sent with: the driver copies as many bytes as it sent.
- FrameDispatch.Next: an index is answered at most once per send.
- FrameDispatch.RunInv: says nothing of what happens to the answers of an index once two users hold it.
- Redundancy.BreakHidden: other users do not read the stack during the wait, except that they may have stored the answer before it.
- The retry loop of `ecx_srconfirm`, poll errors, and frames that arrive after their wait is over.
- Nicdrv.Poll: a length field that points outside the frame yields a working counter of zero, where the source reads the bytes behind the frame.
- Time stamps at the end of Ethernet frames are left out of the EoE round trip; the receiver models them.
- The first SDO upload request, and the telling apart of mailbox kinds by their type field: kinds are given.
- Sdo.SdoRead: a slave that stops answering in the middle of a read, and copies beyond the parameter buffer by segments that exceed the announced size.
- Sdo.SdoWrite: the transmit buffer for the first message is there, and the mailbox has at least 16 bytes.
- Mailbox counters, addresses and headers other than length, command and the bytes behind it.
- The file name part of the FoE requests, the FoE progress hook, and packet numbers beyond 31 bits.
- EEPROM reads that fail or are retried, and writes to the EEPROM between cached reads.
- String, FMMU and sync manager sections of the EEPROM: straight reads that would only add easy members.
- Big-endian hosts, the other operating systems' drivers, state polling, printing, and the applications.
