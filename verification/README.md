# Verified model of the network codec: FlexRay bus, PDU network, emitter, ASCII85, PDU reader

This project models the state-changing core of the codec library and proves what it is relied upon
for. Code that updates state in place is written as classes and methods with loops, each proved
against a specification function; what the system promises about whole runs, round trips and
conservation is then proved about those functions.

`dafny verify dfyconfig.toml` checks everything.

## The parts

**FlexRay bus** (`Flexray*.dfy`). A simulation step grants microticks; the engine walks the cycle
slot by slot (static slots, dynamic slots whose width depends on pending payloads, the idle remainder)
and stops when the next slot does not fit. It is a simplification of chapter 5 (Media Access
Control) and chapter 2 (Protocol Operation Control) of the FlexRay Protocol Specification v2.1.
`FlexrayBusModel.BusModel` is the engine as it is: position, budgets, slot map, inform list and node
states updated in place. `FlexrayTiming.Run` says what a grant buys. Proved about it: any splitting of
grants gives the same run, time is conserved to the microtick although a macrotick is a rounded-down
number of microticks, static slots are processed each exactly once per cycle at their place, runs
terminate; `FlexrayTermination` says for which parameters they do. `FlexrayLpdu` says what one slot
does to the LPDUs in it, `FlexraySlotMap` how the slot map follows from the configurations,
`FlexrayRuns` and `FlexrayDelivery` follow LPDUs through whole runs (at most one transmission per
update, delivery from loading to the receivers), `FlexrayConfig` the merging of configurations,
`FlexrayPoc` the node states and the bus condition. `FlexrayLaws` and `FlexrayNodeLaws` say once more
what each operation does, on the fields of LPDUs, configurations and node states alone.

**Paged emitter** (`Emitter.dfy`). A circular doubly linked ring of pages with two cursors, proved to
be a byte deque: fast and slow path, page reuse, trimming, failing allocations, copying out.

**ASCII85** (`Ascii85.dfy`, `Ascii85Laws.dfy`). The codec with its conditional `z` shortcut and tail
padding (compare section 7.4.3 of ISO 32000-1), on buffers, with the round trip for every byte string.

**PDU network** (`Matrix.dfy`, `TxSchedule.dfy`, `DirectTx.dfy`, `Bits.dfy`, `SignalPack.dfy`,
`SignalLaws.dfy`, `Container.dfy`, `PduObjects.dfy`, `ContainerObjects.dfy`, `ContainerLaws.dfy`).
The column layout and its ranges, the schedule with its list of active columns, signal bits in shared
payloads, PDUs sent on change, and container PDUs with short and full headers, sent, parsed, and
followed over runs of steps.

**PDU reader** (`PduReader.dfy`). Stream PDUs, then one step of the bus model, then the PDUs that it
produced.

`Bytes.dfy` and `Arithmetic.dfy` hold what the others share.

## What the proofs turned up

Where the code falls short of what one would expect, the model keeps the code as it is, shows an
input, and states when it does hold.

- *Stale delivery.* A dynamic slot is processed because any of its senders is pending, but the sender
  that owns the slot is the last one whose cycle matches. If that one has already transmitted, the
  receivers get its old payload as a new frame (`FlexrayDelivery.StaleDelivery`). A dynamic slot is safe from
  this in every assignment of statuses exactly if a sender that matches the cycle does not share the
  slot with another sender (`FlexrayLpdu.DynamicIsFreshIff`); a static slot exactly if its owner has a
  status that senders have (`FlexrayLpdu.StaticIsFresh`).
- *Accepted mismatches.* 10 and 5 MBit/s have the same microtick, so configurations that disagree on
  them merge and the later one changes the minislot width (`FlexrayConfig.BitRateMismatchAccepted`); the null
  frame option of the last accepted configuration decides for all nodes
  (`FlexrayConfig.NullOptionMismatchAccepted`). `FlexrayConfig.NothingChangesIff` says exactly what two accepted
  configurations must agree on for the second to change nothing.
- *Endless cycles.* A configuration whose idle time begins behind the cycle, or with a dynamic segment
  but minislots of length 0, is accepted, and the budget loop then does not end
  (`FlexrayTermination.LoopEndsIff` says for which parameters it does).
- *Unknown POC state.* Assigning a number outside the enumeration to a node in FrameSync leaves the
  transceiver in FrameSync; this is the only way to break the rule, and a configuration PDU
  does not reach it (`FlexrayPoc.SetPocSynced`, `FlexrayPoc.ConfigSynced`).
- *Cycle shift.* Adopting a position in the static segment keeps the slot grid exactly if it is a
  slot boundary (`FlexrayTiming.ShiftOnGrid`).
- *Checksum sentinel.* Checksum 0 means "send again". A payload that itself hashes to 0 can lose a
  delayed update (`Container.SentinelLosesUpdate`), and is not sent by a periodic schedule
  (`DirectTx.SendsIff`).
- *Static containers* carry no ids: what is placed in one counts as sent and is never read
  (`Container.MarkedIff`).
- *Phases.* A configured phase of 0.0 is due in step 0, but any other phase that comes to no step, or to
  whole intervals, first an interval later (`TxSchedule.DueAtStartIff`). An interval shorter than a step
  is no schedule at all (`TxSchedule.ShortIntervalIsUnscheduled`).
- *Full header lengths* of 2^31 and more are widened with their sign; with 2^32 - 8 the parse of a
  container reads the same frame for ever, so that it ends for every content exactly if no header fits
  (`Container.FullEndsIff`). Containers built by a sender never meet this (`Container.FramesAreSmall`).
- *Overlapping signals.* A packed signal comes back for all values exactly if no signal packed later
  overlaps its first 64 bits and its shifts are defined (`SignalPack.ReturnsIff`). The checks on a configured signal make it fit its payload, and keep it
  within the 64 bits of a raw value exactly for payloads of at most 8 bytes
  (`SignalPack.AcceptedFitRawIff`).
- *ASCII85.* A `z` inside a group is not noticed, and makes the decoder read behind the padded copy of
  its input, unless their number modulo 5 is 0, or 4, where the last group just takes in the terminator
  (`Ascii85.ReadsInsideIff`).
- *Reading past the end.* Every read that reports the end moves the simulation time on, also when the
  one before it already did (`PduReader.Reader.NextPdu`).
- The loops over the node lists in dse/ncodec/codec/ab/flexray/state.c:367, :376 and :392 initialise their index
  with itself; the model starts them at 0, as they are meant.
- A configuration that is refused for one mismatch still fills every parameter that was 0; the model
  does so too, and the slot timing of a running engine survives it (`FlexrayConfig.TimingIsFixed`).
- The null flag of a slot is never lowered and any matching sender raises it; the model keeps that
  (`FlexrayLpdu.NullFrame`), and the delivery results say when it cannot interfere.

## Model

| member | source | states |
|---|---|---|
| FlexrayTiming.SplitInvariance | dse/ncodec/codec/ab/flexray/engine.c:397-488 | Granting a and then b microticks leaves the same position, slot map, LPDUs, budget and sequence of slots as granting a + b at once |
| FlexrayTiming.ManySteps | dse/ncodec/codec/ab/flexray/flexray.c:135-151 | The same for any sequence of grants: the run does not depend on how time is cut into simulation steps |
| FlexrayTiming.Conservation | dse/ncodec/codec/ab/flexray/engine.c:397-488 | Elapsed bus time plus unspent budget grows by exactly what was granted; the leftover does not pay for the next slot and the position stays inside the cycle |
| FlexrayTiming.CycleTime | dse/ncodec/codec/ab/flexray/engine.c:459-486 | Completed cycles are the quotient of elapsed microticks by the cycle time and position plus leftover is the remainder, despite the rounded macrotick |
| FlexrayTiming.CycleCounter | dse/ncodec/codec/ab/flexray/engine.c:479-483 | After any run the cycle counter has advanced by the number of completed cycles modulo 64 |
| FlexrayTiming.StepOnGrid | dse/ncodec/codec/ab/flexray/engine.c:399-460 | Every step keeps static slots at (slot - 1) times the slot length, dynamic slots numbered above them, and ends inside the cycle |
| FlexrayTiming.ShiftOnGrid | dse/ncodec/codec/ab/flexray/engine.c:522-536 | An adopted static position is on the slot grid exactly if it is a slot boundary |
| FlexrayTiming.StepIsPaid | dse/ncodec/codec/ab/flexray/flexray.c:143-151 | Each step lowers the pair of budget and end-of-cycle flag, so the budget loop ends although the idle remainder may be free |
| FlexrayTermination.LoopEndsIff | dse/ncodec/codec/ab/flexray/engine.c:397-488 | For any parameters whose static slots fit the cycle, the loop ends for every grant and whatever is pending exactly if there is no dynamic segment, or minislots have a length and the idle time begins within the cycle; otherwise it does not end even with nothing pending |
| FlexrayTermination.ConfiguredEndsIff | dse/ncodec/codec/ab/flexray/engine.c:54-89 | The same for a first configuration, which is accepted either way |
| FlexrayTermination.StepMoves | dse/ncodec/codec/ab/flexray/engine.c:397-488 | A running engine moves and pays as that loop does |
| FlexrayTiming.SlotOrder | dse/ncodec/codec/ab/flexray/engine.c:399-460 | The slots of a run are in increasing order within each cycle, do not overlap, do not pass the cycle end, static ones at their place, dynamic ones numbered above |
| FlexrayTiming.NoStaticSlotSkipped | dse/ncodec/codec/ab/flexray/engine.c:399-415 | A run that passes a static slot of a cycle has processed it |
| FlexrayTiming.StaticSlotExactlyOnce | dse/ncodec/codec/ab/flexray/engine.c:399-415 | It has processed it at exactly one place of the log |
| FlexrayTiming.DynamicWidth | dse/ncodec/codec/ab/flexray/engine.c:416-444 | A dynamic slot is never free, and one minislot wide when nothing is pending |
| FlexrayTiming.TxMinislots | dse/ncodec/codec/ab/flexray/engine.c:434-438 | The smallest number of minislots that holds 40 bits and the payload |
| FlexrayLpdu.Delivery | dse/ncodec/codec/ab/flexray/engine.c:292-394 | When a slot sends, each eligible receiver of this node becomes Received with the sender's bytes cut or zero filled to its length and is put on the inform list; everyone else is untouched |
| FlexrayLpdu.NullFrameIsHarmless | dse/ncodec/codec/ab/flexray/engine.c:353-366 | A null frame changes no payload and no status, and informs exactly the receivers that hear null frames |
| FlexrayLpdu.PendingSenderSends | dse/ncodec/codec/ab/flexray/engine.c:253-311 | With one matching sender, a pending transmission owns the slot and is sent |
| FlexrayLpdu.StaticIsFresh | dse/ncodec/codec/ab/flexray/engine.c:253-394 | A frame delivered in the static segment is a fresh transmission exactly if the owner of the slot has a status that senders have |
| FlexrayLpdu.DynamicIsFreshIff | dse/ncodec/codec/ab/flexray/engine.c:253-394 | A dynamic slot, processed because some sender is pending, delivers only fresh frames in every assignment of statuses exactly if a sender matching the cycle shares the slot with no other sender |
| FlexrayDelivery.StaleStep | dse/ncodec/codec/ab/flexray/engine.c:416-457 | Otherwise a step can send nothing, leave the pending sender pending, and make every receiver in the cycle Received with the owner's old payload |
| FlexrayDelivery.StaleDelivery | dse/ncodec/codec/ab/flexray/engine.c:416-457 | An engine position, configuration and two senders of different cycles where a step does this |
| FlexrayLpdu.SlotAfterPending | dse/ncodec/codec/ab/flexray/engine.c:293-301 | Processing a slot makes nothing pending and uses up a single shot |
| FlexrayLaws.NullSlotAfter | dse/ncodec/codec/ab/flexray/engine.c:353-366 | In a null slot an eligible receiver of the cycle takes the slot's cycle and macrotick and the null flag, and is informed, exactly if neither it nor the engine inhibits null frames; every other field and LPDU stays |
| FlexrayLaws.NullFrameStep | dse/ncodec/codec/ab/flexray/engine.c:353-366 | The same for an engine step through a static slot |
| FlexrayLaws.DataSlotAfter | dse/ncodec/codec/ab/flexray/engine.c:314-392 | In a slot with a data frame exactly the eligible receivers of this node become Received, at the place and time of the slot, without null flag, with the owner's bytes cut and zero filled, and are informed |
| FlexrayLaws.OwnerAfter | dse/ncodec/codec/ab/flexray/engine.c:292-311 | The last sender of the cycle is stamped and used up by a single shot exactly if it sends, and informed exactly if it is of this node |
| FlexrayLaws.EmptySlotAfter | dse/ncodec/codec/ab/flexray/engine.c:290-290 | Without a sender of the cycle nothing changes |
| FlexrayLaws.InformedOrder | dse/ncodec/codec/ab/flexray/engine.c:292-395 | The inform list of a slot has the own sender first and then the receivers in the order of the slot, each once |
| FlexrayLaws.PositionAfter | dse/ncodec/codec/ab/flexray/engine.c:397-488 | The position after a step in each segment, with the cycle counter wrapping after 63 |
| FlexrayLaws.LpdusAfter | dse/ncodec/codec/ab/flexray/engine.c:397-458 | A step changes the LPDUs of its slot, always in the static segment and otherwise exactly if a transmission waits there, and of no other slot |
| FlexrayLaws.EntryOf | dse/ncodec/codec/ab/flexray/engine.c:397-458 | What a step logs: counter, slot, start, width up to the next position, whether it processed the slot, and whom it informed |
| FlexrayLaws.InformedPairs | dse/ncodec/codec/ab/flexray/engine.c:309-391 | The inform list of a run is slot and index of everyone informed, step by step |
| FlexrayLaws.SenderIs | dse/ncodec/codec/ab/flexray/engine.c:237-311 | A sender is on the log exactly if it owns a processed slot, is pending, and the slot is not null |
| FlexrayLaws.WidthOfLast | dse/ncodec/codec/ab/flexray/engine.c:416-444 | The last LPDU with a waiting transmission decides on the width of a dynamic slot: the fewest minislots for 40 bits and its payload |
| FlexraySlotMap.AddTableShows | dse/ncodec/codec/ab/flexray/engine.c:91-127 | Adding a frame table appends its entries, in order, to the lists of their slots; slots stay sorted and unique |
| FlexraySlotMap.RemoveEcuShows | dse/ncodec/codec/ab/flexray/state.c:418-442 | Removing an ECU leaves each slot's list as it was without the entries of that ECU |
| FlexraySlotMap.AddConfigShows | dse/ncodec/codec/ab/flexray/engine.c:91-141 | A slot map that shows exactly the tables of the configuration list still does when a table is added to both |
| FlexraySlotMap.RemoveConfigsShows | dse/ncodec/codec/ab/flexray/state.c:424-453 | And when an ECU is removed from both |
| FlexrayLaws.AddTableIs | dse/ncodec/codec/ab/flexray/engine.c:91-127 | Adding a frame table appends to each slot one LPDU for each of its entries, in order, with the entry's configuration and status, without payload, cycle, macrotick and null flag; what was there stays |
| FlexrayLaws.ConfigsAre | dse/ncodec/codec/ab/flexray/engine.c:128-141 | A table with entries joins the configuration list, an empty one does not |
| FlexrayLaws.ConfiguredListens | dse/ncodec/codec/ab/flexray/engine.c:120-127 | An entry configured as NotReceived receiver of this node listens from the start |
| FlexrayLaws.ConfiguredWaits | dse/ncodec/codec/ab/flexray/engine.c:120-127 | An entry configured as NotTransmitted sender is pending from the start |
| FlexrayLaws.RemoveEcuIs | dse/ncodec/codec/ab/flexray/state.c:418-442 | Removing an ECU drops its LPDUs wherever they are in a slot and leaves the others whole and in order |
| FlexrayLaws.UpdateIs | dse/ncodec/codec/ab/flexray/engine.c:556-600 | An update sets the status of the first LPDU that it names, and, for a sender, the payload cut and zero filled to its length; no other field, LPDU or slot changes |
| FlexrayLaws.UnknownUpdateIs | dse/ncodec/codec/ab/flexray/engine.c:556-600 | An update that names no LPDU of the slot changes nothing |
| FlexrayRuns.SlotMapAgrees | dse/ncodec/codec/ab/flexray/engine.c:91-127 | Through any life of configurations, ECU removals, updates and bus time, each slot lists exactly the configured LPDUs minus those removed since, in order, and slots are sorted and unique |
| FlexrayRuns.SingleShotSafety | dse/ncodec/codec/ab/flexray/engine.c:293-301 | Over any run, a sender that is not continuous transmits at most once per update that arms it, plus once if it was pending at first |
| FlexrayRuns.PendingIsSent | dse/ncodec/codec/ab/flexray/engine.c:253-311 | A pending transmission of a slot's only sender, static or dynamic, is on the log once the run has consumed the slot in a cycle that selects it, in that cycle or an earlier one that selects it |
| FlexrayDelivery.SentIsReceived | dse/ncodec/codec/ab/flexray/engine.c:292-394 | Whoever sends in a slot with any number of senders, after the step every receiver in its cycle holds the sender's payload and is informed |
| FlexrayDelivery.RunDelivers | dse/ncodec/codec/ab/flexray/engine.c:292-394 | Once a run has transmitted the LPDU in a cycle that selects a receiver, in either segment, the receiver holds its payload, and the rest of the run does not take it away |
| FlexrayDelivery.OpsDeliver | dse/ncodec/codec/ab/flexray/engine.c:556-597 | The same over any mix of grants and of updates that leave sender and receiver alone |
| FlexrayDelivery.EndToEnd | dse/ncodec/codec/ab/flexray/engine.c:556-597 | From loading a payload into the sender of a static or dynamic slot, over grants and updates of other LPDUs, to each receiver selected in a cycle of the transmission: it ends Received with the payload cut to the smaller length and zero filled to its own |
| FlexrayDelivery.ConsumedEndToEnd | dse/ncodec/codec/ab/flexray/engine.c:397-458 | The payload has been sent and received as soon as the run has consumed the slot in a cycle that selects the sender |
| FlexrayDelivery.StaticEndToEnd | dse/ncodec/codec/ab/flexray/engine.c:399-415 | A static slot has been consumed as soon as the run has passed it |
| FlexrayConfig.AcceptedRuns | dse/ncodec/codec/ab/flexray/engine.c:54-89 | An accepted plausible configuration leaves an engine that can run, on exactly the configured timing |
| FlexrayConfig.AcceptedAgree | dse/ncodec/codec/ab/flexray/engine.c:27-37 | Two accepted configurations describe the same timing |
| FlexrayConfig.TimingIsFixed | dse/ncodec/codec/ab/flexray/engine.c:54-80 | Once the engine runs, no configuration, accepted or refused, changes its slot timing |
| FlexrayLaws.AcceptedIff | dse/ncodec/codec/ab/flexray/engine.c:54-144 | A configuration is accepted exactly if every parameter that was set before agrees with the configured or derived value; bits per minislot and the null option follow the configuration exactly then |
| FlexrayLaws.ParamsAfter | dse/ncodec/codec/ab/flexray/engine.c:54-89 | Every parameter after a configuration, accepted or not: set ones stay, unset ones take the configured or derived value |
| FlexrayLaws.BitTimes | dse/ncodec/interface/pdu.h:185-198 | At 10, 5 and 2.5 Mbit/s a bit lasts 100, 200 and 400 ns, which is 4, 8 and 8 microticks |
| FlexrayConfig.BitRateMismatchAccepted | dse/ncodec/codec/ab/flexray/engine.c:70-89 | A node that disagrees on the bit rate can be accepted and change the minislot width |
| FlexrayConfig.NullOptionMismatchAccepted | dse/ncodec/codec/ab/flexray/engine.c:144-144 | So can a node that disagrees on the null frame option, and the engine takes its option |
| FlexrayConfig.WidthKeptIff | dse/ncodec/codec/ab/flexray/engine.c:70-89 | A second accepted configuration keeps the minislot width exactly if it has the same bit rate |
| FlexrayConfig.NothingChangesIff | dse/ncodec/codec/ab/flexray/engine.c:54-144 | It leaves every parameter as it is exactly if both agree on bit rate, null frame option, minislot count and static payload length; nothing else ever changes, and the last two only if they were left at 0 |
| FlexrayConfig.StaysValidIff | dse/ncodec/codec/ab/flexray/engine.c:87-89 | A running engine stays able to run exactly if an accepted further configuration's bit time fits the minislot |
| FlexrayPoc.FrameSyncMeansActive | dse/ncodec/codec/ab/flexray/state.c:94-143 | In every reachable state a node whose transceiver shows FrameSync is in NormalActive, and virtual coldstart nodes show FrameSync |
| FlexrayPoc.SetPocSynced | dse/ncodec/codec/ab/flexray/state.c:300-314 | Assigning a POC state keeps that rule exactly unless the number is unknown and the node is in FrameSync |
| FlexrayPoc.ConfigSynced | dse/ncodec/codec/ab/flexray/flexray.c:70-92 | A configuration PDU keeps it for every number |
| FlexrayPoc.SingleSourceIsPassive | dse/ncodec/codec/ab/flexray/state.c:389-399 | With exactly one source no node is left in NormalActive or FrameSync |
| FlexrayPoc.NoSelfRecovery | dse/ncodec/codec/ab/flexray/state.c:363-405 | A bus below two sources does not regain FrameSync through simulation steps alone |
| FlexrayPoc.SyncIsStable | dse/ncodec/codec/ab/flexray/state.c:363-405 | Between messages the bus is synchronised in every step or in none, decided by whether there were two sources at first, and if so no node changes |
| FlexrayPoc.ColdstartNodesCount | dse/ncodec/codec/ab/flexray/state.c:316-334 | Through any events virtual coldstart nodes stay, and each counts as a source |
| FlexrayPoc.TwoColdstartNodesSync | dse/ncodec/codec/ab/flexray/state.c:363-405 | Two of them keep the bus synchronised through any events |
| FlexrayPoc.NodesStayOrdered | dse/ncodec/codec/ab/flexray/state.c:259-334 | In every reachable state both node lists are ascending and hold no node twice |
| FlexrayPoc.KeyIsIdentity | dse/ncodec/codec/ab/flexray/state.c:248-256 | Within the widths of its fields the compared key identifies the node |
| FlexrayPoc.FreezeIsFinal | dse/ncodec/codec/ab/flexray/state.c:170-246 | No sequence of commands leads out of Freeze |
| FlexrayNodeLaws.CommandMoves | dse/ncodec/codec/ab/flexray/state.c:170-246 | The pairs of POC state and command that change the state, each with its target, and no others |
| FlexrayNodeLaws.StartsUp | dse/ncodec/codec/ab/flexray/state.c:170-246 | Config, Ready and Run bring a powered node from DefaultConfig to NormalActive, showing FrameSync |
| FlexrayNodeLaws.ShutsDown | dse/ncodec/codec/ab/flexray/state.c:210-232 | Halt and Config lead back to DefaultConfig, and only the second releases the configuration |
| FlexrayNodeLaws.ReleasesIff | dse/ncodec/codec/ab/flexray/state.c:56-74 | A configuration is released exactly by the commands that move a node into DefaultConfig |
| FlexrayNodeLaws.PushedNode | dse/ncodec/codec/ab/flexray/state.c:94-143 | After a status message the transceiver of a powered node shows what belongs to its POC state, an unpowered or unknown one stays, and so does every other node |
| FlexrayNodeLaws.AssignedNode | dse/ncodec/codec/ab/flexray/state.c:300-314 | The same after assigning a POC state |
| FlexrayNodeLaws.SharedState | dse/ncodec/codec/ab/flexray/state.c:259-350 | Nodes of one ECU and controller share one state |
| FlexrayNodeLaws.RegisteredNew | dse/ncodec/codec/ab/flexray/state.c:259-298 | Registering adds exactly one state to those there, in DefaultConfig, unpowered exactly if only power off is asked for |
| FlexrayNodeLaws.RegisteredAgain | dse/ncodec/codec/ab/flexray/state.c:259-298 | Registering a known node forces its transceiver as asked and nothing else |
| FlexrayNodeLaws.RegisteredVcn | dse/ncodec/codec/ab/flexray/state.c:316-334 | A virtual coldstart node is registered once, with its software component, showing FrameSync |
| FlexrayNodeLaws.UnknownNode | dse/ncodec/codec/ab/flexray/state.c:300-350 | Commands, assignments and power changes of an unknown node touch nothing |
| FlexrayNodeLaws.KeyOrder | dse/ncodec/codec/ab/flexray/state.c:248-256 | Lists are ordered by software component, then controller, then ECU |
| FlexrayNodeLaws.PoweredNode | dse/ncodec/codec/ab/flexray/state.c:145-168 | Which states a power change resets to DefaultConfig, and that it keeps all others |
| FlexrayNodeLaws.ConditionIs | dse/ncodec/codec/ab/flexray/state.c:363-405 | The condition by the number of virtual and real nodes that show FrameSync, and what one step makes of each node |
| FlexrayNodeLaws.ConfiguredNode | dse/ncodec/codec/ab/flexray/flexray.c:70-92 | After a configuration message the node is known, in the configured POC state, and shows it |
| FlexrayBusModel.BusModel.CalculateBudget | dse/ncodec/codec/ab/flexray/engine.c:203-235 | The grant is added to what was left, the macrotick budget is its quotient, the inform list is emptied; an unconfigured engine refuses without change |
| FlexrayBusModel.CoveredAfterSlot | dse/ncodec/codec/ab/flexray/engine.c:410-411 | Paying a slot from both budgets does not underflow the macrotick budget and keeps it covering |
| FlexrayBusModel.CoveredAfterIdle | dse/ncodec/codec/ab/flexray/engine.c:477-478 | Paying the idle remainder from the microtick budget alone keeps it covering |
| FlexrayBusModel.BusModel.ProcessSlot | dse/ncodec/codec/ab/flexray/engine.c:237-395 | The in-place search and transfer loops turn the slot into `SlotAfter` and extend the inform list by its entries, other slots unchanged |
| FlexrayBusModel.BusModel.ConsumeSlot | dse/ncodec/codec/ab/flexray/engine.c:397-488 | One call makes exactly the next step if the budget pays for it, adding its inform list entries, and changes nothing otherwise |
| FlexrayBusModel.BusModel.ConsumeAll | dse/ncodec/codec/ab/flexray/flexray.c:143-151 | The budget loop ends in the state, leftover and log of `Run`, with the inform list of its slots in order |
| FlexrayBusModel.BusModel.ShiftCycle | dse/ncodec/codec/ab/flexray/engine.c:522-554 | A static position is adopted and the budgets cleared, a later one only when forced, also on an engine that cannot run; the slot number is that of the slot or minislot holding the position |
| FlexrayBusModel.BusModel.SetLpdu | dse/ncodec/codec/ab/flexray/engine.c:556-600 | The first LPDU of the node with the index takes status and, if it sends, the fitted payload; unknown slots and LPDUs are refused without change |
| FlexrayBusModel.BusModel.ProcessConfig | dse/ncodec/codec/ab/flexray/engine.c:39-200 | Parameters merge, and the table joins slot map and configuration list exactly if every parameter agrees; otherwise only unset parameters are filled |
| FlexrayBusModel.BusModel.ConfigRuns | dse/ncodec/codec/ab/flexray/engine.c:54-89 | The first accepted plausible configuration puts an engine at the start of its cycle on its timing and grid, able to run |
| FlexrayBusModel.BusModel.ConfigKeepsRunning | dse/ncodec/codec/ab/flexray/engine.c:54-89 | A further one keeps it so exactly if, accepted, its bit time fits the minislot |
| FlexrayBusModel.BusModel.EnterDefaultConfig | dse/ncodec/codec/ab/flexray/state.c:418-454 | Deleting backwards in place, from the slots and from the configuration list, is the filter that drops the node's ECU |
| FlexrayBusModel.BusModel.PushNodeState | dse/ncodec/codec/ab/flexray/state.c:336-350 | A command moves the node through the POC machine, and entering DefaultConfig empties its ECU's slots |
| FlexrayBusModel.BusModel.RegisterNodeState | dse/ncodec/codec/ab/flexray/state.c:259-298 | A new node is inserted so that the list stays ascending and free of duplicates, a known one is forced to the given power state |
| FlexrayBusModel.BusModel.SetNodePower | dse/ncodec/codec/ab/flexray/state.c:145-168 | Power changes put a known node back to DefaultConfig, switching on a powered node does nothing |
| FlexrayBusModel.BusModel.CalculateBusCondition | dse/ncodec/codec/ab/flexray/state.c:363-405 | The condition counts the sources, and a single source pushes active nodes to passive |
| FlexrayBusModel.BusModel.ConsumeConfig | dse/ncodec/codec/ab/flexray/flexray.c:70-92 | Node and coldstart nodes are registered and the POC state assigned even when the configuration does not merge; an accepted plausible one makes a new engine run |
| FlexrayBusModel.BusModel.Progress | dse/ncodec/codec/ab/flexray/flexray.c:126-157 | The engine moves only when configured on a synchronised bus, then as far as `Run` of the grant with the inform list of exactly its slots; it stays on timing and grid |
| Emitter.Emitter.Emit | dse/ncodec/schema/abs/flatcc/src/emitter.c:197-241 | A negative offset prepends and any other appends the concatenated parts, on the fast and the slow path alike; after a failed allocation a part of the data that touches the old content has been added |
| Emitter.Emitter.AdvanceFront | dse/ncodec/schema/abs/flatcc/src/emitter.c:6-46 | A free page is reused whenever there is one, otherwise one new page is linked in front or the call fails without a change; content is unchanged |
| Emitter.Emitter.AdvanceBack | dse/ncodec/schema/abs/flatcc/src/emitter.c:48-87 | The same at the back |
| Emitter.Emitter.CopyFront | dse/ncodec/schema/abs/flatcc/src/emitter.c:89-112 | Data copied page by page from its end is prepended as a whole |
| Emitter.Emitter.CopyBack | dse/ncodec/schema/abs/flatcc/src/emitter.c:114-136 | Data copied page by page is appended as a whole |
| Emitter.Emitter.Reset | dse/ncodec/schema/abs/flatcc/src/emitter.c:152-179 | The content is empty, the front page stays, the average becomes three quarters of the old one plus a quarter of the bytes used, and of the other pages just so many go that the capacity does not exceed twice that average |
| Emitter.Emitter.CopyBuffer | dse/ncodec/schema/abs/flatcc/src/emitter.c:243-269 | Exactly the content is written, when it fits and a page exists; otherwise nothing |
| Emitter.DequeLayout | dse/ncodec/schema/abs/flatcc/src/emitter.c:197-241 | After any sequence of emits and resets the deque is the front data, latest first, followed by the back data in order |
| Emitter.Perform | dse/ncodec/schema/abs/flatcc/src/emitter.c:152-241 | A new emitter that is used in any way holds exactly this deque, until an allocation fails |
| Emitter.LayoutWriteFront | dse/ncodec/schema/abs/flatcc/src/emitter.c:206-211 | Writing below the front cursor of a ring of pages prepends to what the ring spells |
| Emitter.LayoutWriteBack | dse/ncodec/schema/abs/flatcc/src/emitter.c:220-225 | Writing at the back cursor appends to it |
| Ascii85.RoundTrip | dse/ncodec/stream/ascii85.c:29-138 | Decoding the encoding gives back every byte string; the encoding has no NUL and no `z` inside a group |
| Ascii85Laws.EncodedGroup | dse/ncodec/stream/ascii85.c:36-57 | Four bytes become `z` exactly if they are zero and at least four more follow, and otherwise the five characters from `!` to `u` that denote their big-endian number in base 85 |
| Ascii85Laws.EncodedTail | dse/ncodec/stream/ascii85.c:59-62 | A tail of n bytes becomes the first n + 1 characters of the group that zeros complete |
| Ascii85Laws.DecodedGroup | dse/ncodec/stream/ascii85.c:110-122 | Any five characters become the bytes of their number modulo 2^32, a leading `z` four zeros |
| Ascii85.PaddedValue | dse/ncodec/stream/ascii85.c:97-105 | Padding a cut group with `u` rounds up by less than one unit of the kept bytes and stays within 32 bits |
| Ascii85.EncodeBuffer | dse/ncodec/stream/ascii85.c:29-64 | The loops fill the allocated buffer with the encoding, then NUL, inside its bounds |
| Ascii85.DecodeBuffer | dse/ncodec/stream/ascii85.c:85-138 | Where the reads stay inside, the loops fill the allocated buffer with the reported bytes, then zeros; without a `z` inside a group these are the decoded string |
| Ascii85.ReadsInsideIff | dse/ncodec/stream/ascii85.c:91-122 | The decoder reads nothing behind the padded copy with its terminator exactly if the number of `z` characters inside groups is 0 or 4 modulo 5 |
| Ascii85.BufferIs | dse/ncodec/stream/ascii85.c:91-108 | Then the computed buffer holds the words exactly, plus 16 bytes for every five such `z` and 12 where the terminator completed the last group |
| Ascii85.PaddedDecode | dse/ncodec/stream/ascii85.c:91-136 | The buffer size computed from the `z` count is exact, and cutting as many bytes as characters were padded is decoding the tail |
| SignalPack.PackSignal | dse/pdunet/network/matrix.c:583-637 | The bits of the signal become the low bits of the raw value, every other payload bit keeps its value |
| SignalPack.UnpackSignal | dse/pdunet/network/matrix.c:664-716 | The 64-bit value has exactly the signal's payload bits, for every signal whose shifts are defined |
| SignalPack.PackAll | dse/pdunet/network/matrix.c:569-638 | Each payload bit is that of the last packed signal that covers it, or unchanged; skipped signals do nothing |
| SignalPack.UnpackAll | dse/pdunet/network/matrix.c:657-718 | The signals of received PDUs take their payload bits, the others keep their raw value; one too long for defined shifts disturbs no other |
| SignalPack.PackThenUnpack | dse/pdunet/network/matrix.c:569-723 | Packing all and unpacking gives the raw value modulo 2^length (at most 2^64) of each signal whose first 64 bits no later one overlaps |
| SignalPack.ReturnsIff | dse/pdunet/network/matrix.c:569-723 | For all 64-bit raw values what is unpacked is what was packed, modulo 2^length (at most 2^64), exactly if the signal's shifts are defined and no signal packed later overlaps its first 64 bits |
| SignalPack.UncoveredBit | dse/pdunet/network/matrix.c:583-637 | Bits outside all packed signals keep their value |
| SignalLaws.FieldIs | dse/pdunet/network/matrix.c:664-716 | An unpacked signal is a quotient and remainder of the payload read as a number, first byte least significant |
| SignalLaws.ShiftsDefinedIff | dse/pdunet/network/matrix.c:664-716 | The shifts of a signal are defined exactly if no piece of it begins at bit 64 or behind |
| SignalLaws.PackedIs | dse/pdunet/network/matrix.c:583-637 | Packing sets these digits of that number to the low digits of the value and keeps the digits below and above |
| SignalPack.AcceptedFieldsFit | dse/pdunet/network/network.c:298-327 | Configured signals pass the checks exactly if each has a start and a length and all can be packed |
| SignalPack.AcceptedFitRawIff | dse/pdunet/network/network.c:305-327 | The checks keep signals within the 64 bits of a raw value exactly for payloads of at most 8 bytes |
| Matrix.SignalMatrix.Transform | dse/pdunet/network/matrix.c:189-353 | The matrix is a permutation of the PDUs sorted by direction; rows tile the columns, index columns name row and signal, and the emitted ranges are those of the directions |
| Matrix.IndexInverts | dse/pdunet/network/matrix.c:270-306 | The index columns invert (row, signal) to offset plus signal |
| Matrix.RowsDoNotMeet | dse/pdunet/network/matrix.c:228-308 | A column belongs to one signal of one row |
| Matrix.SignalMatrix.ColumnOf | dse/pdunet/network/matrix.c:228-308 | In a built matrix the rows adjoin, and each signal's column names its row, its index and itself |
| Matrix.SignalMatrix.RangeOfColumn | dse/pdunet/network/matrix.c:316-350 | A column of a row with a direction lies in the range of that direction, which lists the row; a column of a row without one lies in none |
| Matrix.SignalMatrix.RowsAre | dse/pdunet/network/matrix.c:189-233 | Rows without a direction come first, then those received, then those sent |
| Matrix.RangesCover | dse/pdunet/network/matrix.c:316-350 | An Rx or Tx column is in exactly the range of its direction, other columns are in none |
| Matrix.RangesAdjoin | dse/pdunet/network/matrix.c:316-350 | Ranges are not empty, adjoin, and end at the last column |
| Matrix.EmitRanges | dse/pdunet/network/matrix.c:316-350 | The walk over direction changes emits exactly the ranges of the directions with signals |
| TxSchedule.DueIff | dse/pdunet/network/network.c:97-122 | A PDU with an interval is due exactly at its base and every interval after it, never with a negative base |
| TxSchedule.PhaseIsStored | dse/pdunet/network/matrix.c:249-265 | The stored phase is below two intervals, keeps the residue of the configured one in steps, and is 0 exactly for a configured 0.0 |
| TxSchedule.DueAtStartIff | dse/pdunet/network/matrix.c:249-265 | Without an epoch a scheduled PDU is due in step 0 exactly if its configured phase is 0.0; a phase that makes no step is due an interval later |
| TxSchedule.ShortIntervalIsUnscheduled | dse/pdunet/network/matrix.c:241-248 | An interval is dropped exactly if it is shorter than a step |
| TxSchedule.IntervalIsStored | dse/pdunet/network/matrix.c:241-248 | The stored interval is the number of whole steps in the configured one |
| TxSchedule.DueIsStep | dse/pdunet/network/network.c:78-122 | A PDU is due exactly in every step without an interval, and else at its base and every interval after it |
| TxSchedule.SignalColumns.Schedule | dse/pdunet/network/network.c:67-149 | A Tx PDU that is no container has exactly its valid columns active, and a Tx container ends raised: in every step without an interval, and else exactly at the base and every interval after it; only then does a periodic schedule take the checksum away |
| TxSchedule.SignalColumns.CalculateActive | dse/pdunet/network/matrix.c:356-380 | Following the active list computes exactly the active columns |
| TxSchedule.SignalColumns.CalculateTxRanges | dse/pdunet/network/matrix.c:420-453 | Scanning the Tx ranges computes exactly the active columns |
| TxSchedule.SignalColumns.ScheduleAndEncode | dse/pdunet/network/matrix.c:32-40 | Both ways give the same raw values: exactly the valid columns within bounds of such PDUs are computed from their physical values, in every step without an interval and else when the schedule comes round; the others keep their value |
| TxSchedule.FiredIsInTxRange | dse/pdunet/network/matrix.c:316-350 | What the schedule activates lies in a Tx range of the layout |
| DirectTx.SendsIff | dse/pdunet/pdunet.c:410-444 | A step sends a PDU exactly if its payload hashes unlike that of the step before, or its periodic schedule fires and it does not hash to the sentinel |
| DirectTx.LatestIsSent | dse/pdunet/pdunet.c:420-429 | Without sentinel hashes, what was sent last always hashes like the latest payload |
| Container.ContainerRoundTrip | dse/pdunet/network/network.c:529-721 | Parsing the built container marks exactly the I-PDUs that were placed and gives them the sent bytes; all others keep theirs |
| Container.ParseFrames | dse/pdunet/network/network.c:643-720 | Parsing frames and zero padding delivers exactly the frames, in order |
| Container.BigEndianRoundTrip | dse/pdunet/network/network.c:596-616 | Header fields come back from their bytes |
| ContainerLaws.HeaderBytes | dse/pdunet/network/network.c:592-615 | The bytes of a short and of a full header |
| ContainerLaws.HeaderRead | dse/pdunet/network/network.c:648-677 | What the receiver reads in them, and that a cut header reads as id 0 |
| ContainerLaws.PlacedAt | dse/pdunet/network/network.c:556-618 | Each placed I-PDU lies behind those placed in front of it, its header and then its bytes |
| ContainerLaws.DeliveredTo | dse/pdunet/network/network.c:686-717 | A received frame changes the first I-PDU with its id and no other; the bytes behind the data stay |
| ContainerLaws.ReadsInside | dse/pdunet/network/network.c:698-708 | A parse that the contract of `ContainerObjects.MapFrom` admits copies nothing from behind the payload |
| ContainerLaws.AfterMapping | dse/pdunet/network/network.c:546-623 | Flag and checksum of placed, delayed and idle I-PDUs after the container was built |
| ContainerLaws.StepIs | dse/pdunet/pdunet.c:410-436 | One step for one I-PDU from payload, schedule and room alone: pending, sent payload and checksum |
| Container.PlacedIff | dse/pdunet/network/network.c:549-569 | An I-PDU is placed exactly if it is pending and fits behind the placed ones in front of it |
| Container.Overtaking | dse/pdunet/network/network.c:558-569 | A waiting I-PDU is overtaken only by shorter ones |
| Container.ParseMovesOn | dse/pdunet/network/network.c:669-685 | An accepted frame moves the parse forward exactly if its length field is below 2^31 or within 8 of 2^32 |
| Container.StuckForEver | dse/pdunet/network/network.c:643-720 | A frame with length field 2^32 - 8 is read for ever |
| Container.FullEndsIff | dse/pdunet/network/network.c:643-720 | The parse with full headers ends for every content exactly if the payload is too small for a header |
| Container.ShortEnds | dse/pdunet/network/network.c:643-720 | With short headers it ends for every content |
| Container.SmallIsParsed | dse/pdunet/network/network.c:643-720 | With lengths below 2^31 the parse ends, reads nothing behind the payload, and is the plain one |
| Container.ShortIsSmall | dse/pdunet/network/network.c:652-663 | With short headers the parse of arbitrary bytes never meets such a length |
| Container.FramesAreSmall | dse/pdunet/network/network.c:590-618 | Neither does the parse of a container that a sender built |
| Container.MarkedIff | dse/pdunet/network/network.c:546-721 | The receiver learns of an I-PDU exactly if the sender placed it and the container is not static: what is placed in a static one counts as sent and is never read |
| Container.NoLostUpdate | dse/pdunet/pdunet.c:410-436 | After any run of steps an I-PDU is raised again in the next step or hashes like the payload it last had in a sent container, unless it hashes to the sentinel |
| Container.DelayedIsRaised | dse/pdunet/network/network.c:565-567 | A delayed I-PDU is raised in the next step exactly if it does not hash to the sentinel |
| Container.SentinelLosesUpdate | dse/pdunet/network/network.c:565-567 | With the sentinel a delayed update that would fit the next container is never sent |
| Container.NotStaleIsNotSent | dse/pdunet/pdunet.c:410-436 | While payloads stay as they are, an I-PDU that is not stale is never sent |
| Container.AllSentInTheEnd | dse/pdunet/network/network.c:546-623 | If payloads stay as they are, after as many due steps as there are stale I-PDUs every one has been sent |
| ContainerObjects.MapTo | dse/pdunet/network/network.c:529-626 | The loop builds exactly the container payload, raises the container exactly if something was placed, and leaves each I-PDU's flags as placed or delayed |
| ContainerObjects.StoreHeader | dse/pdunet/network/network.c:590-614 | Shifting and truncating field by field writes the header and nothing else |
| ContainerObjects.MapFrom | dse/pdunet/network/network.c:628-721 | For every payload whose parse ends inside it, the loop with its widened lengths delivers what the payload says to the I-PDUs in place |
| ContainerObjects.SetupContainer | dse/pdunet/network/network.c:478-520 | The container lists exactly the PDUs of its direction with its id, by priority |
| ContainerObjects.VisitNeedsTx | dse/pdunet/pdunet.c:410-444 | A PDU is raised exactly if its payload hashes unlike the checksum; containers keep the schedule's decision and a container's I-PDU keeps its checksum |
| ContainerObjects.Transmit | dse/pdunet/pdunet.c:283-293 | Schedule, packing, comparison and mapping together do on the objects what a step of the run model does |
| PduReader.FirstStageIs | dse/ncodec/codec/ab/pdu_fbs.c:586-604 | Every stream PDU is offered to the model once and in order, and exactly those neither taken nor from this component are delivered |
| PduReader.Cursor.GetStream | dse/ncodec/codec/ab/pdu_fbs.c:475-511 | The next message with the stream identifier is found, empty messages end the stream, the position moves on |
| PduReader.Cursor.GetPdu | dse/ncodec/codec/ab/pdu_fbs.c:529-578 | Each call takes the next of the remaining PDUs across messages, and reports the end exactly when none remains |
| PduReader.DeliversIff | dse/ncodec/codec/ab/pdu_fbs.c:586-604 | A stream PDU that the model does not take is delivered exactly if the component has no id, or the PDU comes from another one, or loopback is on; the model is offered every PDU |
| PduReader.StreamIs | dse/ncodec/codec/ab/pdu_fbs.c:475-571 | The PDUs of a stream message by message: other identifiers are passed over, and what comes behind an empty message is lost |
| PduReader.LastStageIs | dse/ncodec/codec/ab/pdu_fbs.c:620-672 | After the stream the model makes one step, and what it has produced follows |
| PduReader.Reader.NextPdu | dse/ncodec/codec/ab/pdu_fbs.c:581-684 | A read returns the next PDU of what the three stages will deliver and leaves the rest, or reports the end and moves the time on by one step |
| PduReader.Reader.ReadAll | dse/ncodec/codec/ab/pdu_fbs.c:581-684 | Reading to the first end returns all of it, in order, and moves the time on once |
| PduReader.Reader.Truncate | dse/ncodec/codec/ab/pdu_fbs.c:721-740 | The stream is empty and the stages start over |
| PduReader.Reader.Round | dse/ncodec/codec/ab/pdu_fbs.c:581-684 | Between truncates: the kept stream PDUs in order, then what the model produced; the model was offered each stream PDU once and made one step after the last |

## Left out

- Widths of integers: counters, ticks and lengths are unbounded, so wrap-around of the 32-bit microtick and macrotick values is not modelled; the container parse models its 64-bit sums. Payload bytes, header fields, masks and shifts have their widths.
- Floating point: a grant is a natural number of microticks, schedule times are numbers of steps, the linear map of a signal is a function with bounds over the reals, simulation time counts steps; intervals and phases are converted to steps over the reals, without rounding errors.
- FlexrayTiming.Conservation: holds for states on the slot grid, which every run from the start of a cycle keeps; a forced cycle shift, or one to a position inside a slot, leaves the grid.
- FlexrayTermination.LoopEndsIff: the static slots must fit the cycle; behind its end the clamp of a dynamic slot wraps below zero.
- FlexrayDelivery.EndToEnd: slots with one sender, since another sender of the slot may overwrite the receivers later in the run; for several senders `FlexrayDelivery.SentIsReceived` states the delivery right after the step.
- Container.ContainerRoundTrip: for short and full headers with the ids and lengths that fit them; `Container.MarkedIff` says what becomes of static ones.
- ContainerObjects.MapFrom: a payload whose parse does not end, or that copies from behind the payload, has no result to state; `Container.Parses` says which these are.
- ContainerObjects.SetupContainer: the order of equal priorities is that of a stable sort; the contract promises only ascending priorities, as the library sort does.
- ContainerObjects.Transmit: one container and its I-PDUs, none of which is itself a container.
- Ascii85.DecodeBuffer: strings on which the decoder reads behind its padded copy, named exactly by `Ascii85.ReadsInsideIff`; characters above 127 are taken as unsigned, where the platform may sign them.
- SignalPack.UnpackAll: a signal that needs a shift by 64 or more, for which C defines no result, gets no particular value.
- The inform list holds slot id and index of an LPDU instead of a pointer into the slot map; what happens to such pointers when the map is reconfigured is not captured.
- Vectors are sequences: allocation failure of the collection library is not modelled, and its find, sort and push are given by what they promise. Allocation failure in the emitter is modelled.
- Writing the informed LPDUs and the node status as PDUs after progress, frame traces and logging.
- Page recycling and clearing of the emitter, and the pointer returned by copying several pages.
- Lua functions on PDUs and signals, YAML schemas, signal marshalling, message encoding of the flatbuffer library, metadata of CAN, IP and Struct PDUs.
- The bus model as seen by the reader is any deterministic model; errors returned by a stream are not modelled.
- Point-to-point routing and its macrotick estimate.
- Transport of sent PDUs: the transport is taken to send every raised PDU and lower its flag.
