/**
 What the FlexRay operations do, said on the fields of the LPDUs, the configuration and the node
 states alone: a second account of each operation beside the functions that specify it, complete
 enough to tell every branch.
 */
module FlexrayLaws {
  import opened Bytes
  import opened FlexrayLpdu
  import opened FlexraySlotMap
  import opened FlexrayTiming
  import opened FlexrayRuns
  import opened FlexrayDelivery
  import opened FlexrayConfig

  // ---------------------------------------------------------------------------------------------
  // One slot
  // ---------------------------------------------------------------------------------------------

  /** The LPDU is configured for this cycle, before the network idle time. */
  predicate IsOn(x: SlotContext, l: Lpdu) {
    && x.mt < x.offsetNetwork
    && l.config.cycleRepetition != 0
    && x.cycle % l.config.cycleRepetition == l.config.baseCycle
  }

  predicate Transmits(x: SlotContext, l: Lpdu) {
    l.config.direction == DirectionTx && IsOn(x, l)
  }

  /** A sender of the static segment without anything new. */
  predicate IsSilent(x: SlotContext, l: Lpdu) {
    Transmits(x, l) && x.mt < x.offsetDynamic && (l.status == StatusNone || l.status == Transmitted)
  }

  predicate Receives(x: SlotContext, l: Lpdu) {
    && l.config.direction == DirectionRx && IsOn(x, l)
    && (l.status == NotReceived || l.status == Received)
    && l.node == x.node
  }

  predicate SlotIsNull(x: SlotContext, lpdus: seq<Lpdu>) {
    exists k :: 0 <= k < |lpdus| && IsSilent(x, lpdus[k])
  }

  predicate MayHearNull(x: SlotContext, l: Lpdu) {
    !(l.config.inhibitNull || x.inhibitNull)
  }

  /** The last sender of the cycle owns the slot. */
  predicate Owns(x: SlotContext, lpdus: seq<Lpdu>, tx: nat) {
    tx < |lpdus| && Transmits(x, lpdus[tx]) && forall k :: tx < k < |lpdus| ==> !Transmits(x, lpdus[k])
  }

  predicate OwnerSends(x: SlotContext, lpdus: seq<Lpdu>, tx: nat)
    requires tx < |lpdus|
  {
    lpdus[tx].status == NotTransmitted && !SlotIsNull(x, lpdus)
  }

  lemma OwnerIsChosen(x: SlotContext, lpdus: seq<Lpdu>, tx: nat)
    requires Owns(x, lpdus, tx)
    ensures ChosenTx(x, lpdus) == tx
    ensures NullFrame(x, lpdus) <==> SlotIsNull(x, lpdus)
    ensures Sends(x, lpdus) <==> OwnerSends(x, lpdus, tx)
  {
    hide ChosenTx;
    var c := ChosenTx(x, lpdus);
    assert IsTx(x, lpdus[tx]);
    assert c >= tx;
    assert Transmits(x, lpdus[c]);
    forall k | 0 <= k < |lpdus| ensures RaisesNull(x, lpdus[k]) <==> IsSilent(x, lpdus[k]) {
    }
  }

  /** The owner of a slot: used up by a single shot, untouched when it does not send. */
  lemma OwnerAfter(x: SlotContext, lpdus: seq<Lpdu>, tx: nat)
    requires Owns(x, lpdus, tx)
    ensures var l, after := lpdus[tx], SlotAfter(x, lpdus)[tx];
            if OwnerSends(x, lpdus, tx) then
              && after == l.(status := after.status, cycle := x.cycle, macrotick := x.mt)
              && after.status == (if l.config.transmitMode == Continuous then NotTransmitted else Transmitted)
            else
              after == l
    ensures tx in Informed(x, lpdus) <==> OwnerSends(x, lpdus, tx) && lpdus[tx].node == x.node
  {
    OwnerIsChosen(x, lpdus, tx);
    hide ChosenTx, NullFrame;
    assert !IsRx(x, lpdus[tx]);
    assert tx !in InformedRx(x, lpdus, |lpdus|);
  }

  /**
   A null frame. An eligible receiver takes the place and time of the slot and the null flag exactly if
   neither it nor the node inhibits null frames, and is then informed; all else stays, in every LPDU.
   */
  lemma NullSlotAfter(x: SlotContext, lpdus: seq<Lpdu>, i: nat)
    requires SlotIsNull(x, lpdus) && i < |lpdus|
    ensures SlotAfter(x, lpdus)[i] ==
            if Receives(x, lpdus[i]) && MayHearNull(x, lpdus[i])
            then lpdus[i].(cycle := x.cycle, macrotick := x.mt, nullFrame := true)
            else lpdus[i]
    ensures i in Informed(x, lpdus) <==> Receives(x, lpdus[i]) && MayHearNull(x, lpdus[i])
  {
    var tx := LastOwner(x, lpdus);
    OwnerIsChosen(x, lpdus, tx);
    hide ChosenTx, NullFrame, SlotIsNull;
    assert i in InformedRx(x, lpdus, |lpdus|) <==> IsInformed(x, lpdus, i);
  }

  lemma LastOwner(x: SlotContext, lpdus: seq<Lpdu>) returns (tx: nat)
    requires SlotIsNull(x, lpdus)
    ensures Owns(x, lpdus, tx)
  {
    var k :| 0 <= k < |lpdus| && IsSilent(x, lpdus[k]);
    assert IsTx(x, lpdus[k]) && ChosenTx(x, lpdus) >= k;
    tx := ChosenTx(x, lpdus);
    forall j | tx < j < |lpdus| ensures !Transmits(x, lpdus[j]) {
      assert !IsTx(x, lpdus[j]);
    }
  }

  /** What a receiver holds after a data frame; a sender that was never loaded leaves the old bytes, or zeros. */
  predicate HasTaken(l: Lpdu, sent: Option<seq<byte>>, payload: Option<seq<byte>>) {
    payload.Some? &&
    match (sent, l.payload)
    case (Some(bytes), _) =>
      && |payload.value| == l.config.payloadLength
      && forall k :: 0 <= k < |payload.value| ==> payload.value[k] == if k < |bytes| then bytes[k] else 0
    case (None, Some(was)) => payload.value == was
    case (None, None) => payload.value == Zeros(l.config.payloadLength)
  }

  /**
   A data frame. Every eligible receiver of this node, and no other LPDU but the owner, becomes Received
   with the owner's bytes at the place and time of the slot, without null flag, and is informed.
   */
  lemma DataSlotAfter(x: SlotContext, lpdus: seq<Lpdu>, tx: nat, i: nat)
    requires Owns(x, lpdus, tx) && !SlotIsNull(x, lpdus) && i < |lpdus| && i != tx
    ensures var l, after := lpdus[i], SlotAfter(x, lpdus)[i];
            if Receives(x, l) then
              && after == l.(status := Received, payload := after.payload,
                             cycle := x.cycle, macrotick := x.mt, nullFrame := false)
              && HasTaken(l, lpdus[tx].payload, after.payload)
            else
              after == l
    ensures i in Informed(x, lpdus) <==> Receives(x, lpdus[i])
  {
    OwnerIsChosen(x, lpdus, tx);
    hide ChosenTx, NullFrame, SlotIsNull;
    assert i in InformedRx(x, lpdus, |lpdus|) <==> IsInformed(x, lpdus, i);
  }

  /** Without a sender in this cycle nothing happens. */
  lemma EmptySlotAfter(x: SlotContext, lpdus: seq<Lpdu>)
    requires forall k :: 0 <= k < |lpdus| ==> !Transmits(x, lpdus[k])
    ensures SlotAfter(x, lpdus) == lpdus && Informed(x, lpdus) == []
  {
    if ChosenTx(x, lpdus) >= 0 {
      assert Transmits(x, lpdus[ChosenTx(x, lpdus)]);
    }
    NobodyInformed(x, lpdus, |lpdus|);
  }

  lemma {:induction false} NobodyInformed(x: SlotContext, lpdus: seq<Lpdu>, n: nat)
    requires ChosenTx(x, lpdus) < 0 && n <= |lpdus|
    ensures InformedRx(x, lpdus, n) == []
  {
    if n > 0 { NobodyInformed(x, lpdus, n - 1); }
  }

  /** The inform list of a slot: the own sender first, then the receivers in the order of the slot, each once. */
  lemma InformedOrder(x: SlotContext, lpdus: seq<Lpdu>, tx: nat)
    requires Owns(x, lpdus, tx)
    ensures var list := Informed(x, lpdus);
            var first := if OwnerSends(x, lpdus, tx) && lpdus[tx].node == x.node then 1 else 0;
            && (first == 1 ==> list != [] && list[0] == tx)
            && (forall j, k :: first <= j < k < |list| ==> list[j] < list[k])
            && (forall k :: first <= k < |list| ==> list[k] < |lpdus| && list[k] != tx)
  {
    OwnerIsChosen(x, lpdus, tx);
    hide ChosenTx, NullFrame;
    assert !IsRx(x, lpdus[tx]);
    var rx := InformedRx(x, lpdus, |lpdus|);
    assert forall k :: 0 <= k < |rx| ==> rx[k] in rx;
  }

  // ---------------------------------------------------------------------------------------------
  // One step of the engine
  // ---------------------------------------------------------------------------------------------

  predicate IsWaiting(l: Lpdu) {
    l.config.direction == DirectionTx && l.status == NotTransmitted
  }

  predicate SlotWaits(lpdus: seq<Lpdu>) {
    exists k :: 0 <= k < |lpdus| && IsWaiting(lpdus[k])
  }

  lemma PendingIsWaiting(lpdus: seq<Lpdu>)
    ensures HasPending(lpdus) <==> SlotWaits(lpdus)
  {
    if HasPending(lpdus) {
      var k :| 0 <= k < |lpdus| && lpdus[k].PendingTx();
      assert IsWaiting(lpdus[k]);
    }
    if SlotWaits(lpdus) {
      var k :| 0 <= k < |lpdus| && IsWaiting(lpdus[k]);
      assert lpdus[k].PendingTx();
    }
  }

  /** The last LPDU with a transmission waiting decides: the fewest minislots that hold 40 bits and its payload. */
  lemma {:induction false} WidthOfLast(p: Params, lpdus: seq<Lpdu>, k: nat) returns (minislots: nat)
    requires ValidParams(p) && k < |lpdus| && IsWaiting(lpdus[k])
    requires forall j :: k < j < |lpdus| ==> !IsWaiting(lpdus[j])
    ensures DynamicWidth(p, lpdus) == minislots * p.minislotLength
    ensures (minislots - 1) * p.bitsPerMinislot < 40 + 8 * lpdus[k].config.payloadLength
                                               <= minislots * p.bitsPerMinislot
  {
    var n := |lpdus| - 1;
    if k == n {
      minislots := TxMinislots(p, lpdus[n].config.payloadLength);
    } else {
      minislots := WidthOfLast(p, lpdus[..n], k);
    }
  }

  /** The position after a step: slot by slot, cut at the end of the cycle, and round to the next cycle. */
  lemma PositionAfter(p: Params, own: NodeId, s: EngineState)
    requires ValidParams(p) && OnGrid(p, s)
    ensures var next, lpdus := Step(p, own, s), LpdusAt(s.slotMap, s.posSlot);
            if s.posMt < p.offsetDynamic then
              && next.posMt == s.posMt + p.staticSlotLength && next.posSlot == s.posSlot + 1
              && next.posCycle == s.posCycle && next.cycles == s.cycles
            else if s.posMt < p.offsetNetwork then
              && next.posMt == Min(s.posMt + DynamicWidth(p, lpdus), p.macrotickPerCycle)
              && (!SlotWaits(lpdus) ==> next.posMt == Min(s.posMt + p.minislotLength, p.macrotickPerCycle))
              && next.posSlot == s.posSlot + 1 && next.posCycle == s.posCycle && next.cycles == s.cycles
            else
              && next.posMt == 0 && next.posSlot == 1
              && next.posCycle == (if s.posCycle % 64 == 63 then 0 else s.posCycle % 64 + 1)
              && next.cycles == s.cycles + 1
  {
    PendingIsWaiting(LpdusAt(s.slotMap, s.posSlot));
  }

  /** Where the engine is, as a slot sees it. */
  function PlaceOf(p: Params, own: NodeId, s: EngineState): SlotContext {
    SlotContext(own, s.posCycle, s.posMt, p.offsetDynamic, p.offsetNetwork, p.inhibitNullFrames)
  }

  /** The step processes its slot: always a static one, a dynamic one when something in it waits. */
  predicate IsProcessed(p: Params, s: EngineState) {
    s.posMt < p.offsetDynamic || (s.posMt < p.offsetNetwork && SlotWaits(LpdusAt(s.slotMap, s.posSlot)))
  }

  /** A step changes the LPDUs of the slot that it processes, and no others. */
  lemma LpdusAfter(p: Params, own: NodeId, s: EngineState, slot: nat)
    requires ValidParams(p) && Sorted(s.slotMap)
    ensures LpdusAt(Step(p, own, s).slotMap, slot) ==
            if slot == s.posSlot && IsProcessed(p, s) then SlotAfter(PlaceOf(p, own, s), LpdusAt(s.slotMap, slot))
            else LpdusAt(s.slotMap, slot)
  {
    hide SlotAfter, LpdusAt;
    StepAt(p, own, s, slot);
    PendingIsWaiting(LpdusAt(s.slotMap, s.posSlot));
  }

  /** What a step logs. */
  lemma EntryOf(p: Params, own: NodeId, s: EngineState)
    requires ValidParams(p)
    ensures p.offsetDynamic <= s.posMt && p.offsetNetwork <= s.posMt ==> StepLog(p, own, s) == []
    ensures s.posMt < p.offsetDynamic || s.posMt < p.offsetNetwork ==>
              var log, lpdus := StepLog(p, own, s), LpdusAt(s.slotMap, s.posSlot);
              && |log| == 1 && log[0].cycle == s.cycles && log[0].counter == s.posCycle
              && log[0].slot == s.posSlot && log[0].mt == s.posMt
              && log[0].mt + log[0].width == Step(p, own, s).posMt
              && (log[0].processed <==> IsProcessed(p, s))
              && log[0].informed == if IsProcessed(p, s) then Informed(PlaceOf(p, own, s), lpdus) else []
  {
    hide Informed, LpdusAt;
    PendingIsWaiting(LpdusAt(s.slotMap, s.posSlot));
  }

  /** The inform list of a run names slot and index of everyone informed, entry by entry. */
  lemma InformedPairs(log: seq<SlotEntry>, e: SlotEntry)
    ensures var before, after := InformList(log), InformList(log + [e]);
            && |after| == |before| + |e.informed| && after[..|before|] == before
            && forall k :: 0 <= k < |e.informed| ==> after[|before| + k] == (e.slot, e.informed[k])
  {
    InformListConcat(log, [e]);
    assert [e][1..] == [] && InformList([]) == [];
    assert InformList([e]) == Tagged(e.slot, e.informed);
  }

  /** The logged sender is the owner of a processed slot that sends. */
  lemma SenderIs(p: Params, own: NodeId, s: EngineState, tx: nat)
    ensures SenderOf(p, own, s) == Some(tx) <==>
            var x, lpdus := PlaceOf(p, own, s), LpdusAt(s.slotMap, s.posSlot);
            IsProcessed(p, s) && Owns(x, lpdus, tx) && OwnerSends(x, lpdus, tx)
  {
    hide LpdusAt;
    var x, lpdus := PlaceOf(p, own, s), LpdusAt(s.slotMap, s.posSlot);
    PendingIsWaiting(lpdus);
    if Owns(x, lpdus, tx) { OwnerIsChosen(x, lpdus, tx); }
    if ChosenTx(x, lpdus) >= 0 { ChosenOwns(x, lpdus); }
  }

  lemma ChosenOwns(x: SlotContext, lpdus: seq<Lpdu>)
    requires ChosenTx(x, lpdus) >= 0
    ensures Owns(x, lpdus, ChosenTx(x, lpdus))
    ensures Sends(x, lpdus) <==> OwnerSends(x, lpdus, ChosenTx(x, lpdus))
  {
    var tx := ChosenTx(x, lpdus);
    forall k | tx < k < |lpdus| ensures !Transmits(x, lpdus[k]) { assert !IsTx(x, lpdus[k]); }
    OwnerIsChosen(x, lpdus, tx);
  }

  /** In an engine step through a static null slot, receivers are marked exactly if nothing inhibits it. */
  lemma NullFrameStep(p: Params, own: NodeId, s: EngineState, i: nat)
    requires ValidParams(p) && Sorted(s.slotMap) && s.posMt < p.offsetDynamic
    requires var lpdus := LpdusAt(s.slotMap, s.posSlot);
             i < |lpdus| && SlotIsNull(PlaceOf(p, own, s), lpdus)
    ensures var x, l := PlaceOf(p, own, s), LpdusAt(s.slotMap, s.posSlot)[i];
            var after := LpdusAt(Step(p, own, s).slotMap, s.posSlot);
            && i < |after|
            && after[i] == (if Receives(x, l) && !l.config.inhibitNull && !p.inhibitNullFrames
                            then l.(cycle := s.posCycle, macrotick := s.posMt, nullFrame := true) else l)
  {
    hide LpdusAt, SlotAfter, Step;
    LpdusAfter(p, own, s, s.posSlot);
    NullSlotAfter(PlaceOf(p, own, s), LpdusAt(s.slotMap, s.posSlot), i);
  }

  // ---------------------------------------------------------------------------------------------
  // Updates and tables
  // ---------------------------------------------------------------------------------------------

  /** LPDU `i` is the first of the slot that the update names. */
  predicate IsNamed(lpdus: seq<Lpdu>, node: NodeId, frameTable: nat, i: nat) {
    && i < |lpdus| && lpdus[i].node == node && lpdus[i].config.frameTable == frameTable
    && forall k :: 0 <= k < i ==> lpdus[k].node != node || lpdus[k].config.frameTable != frameTable
  }

  /** An update sets the status of the LPDU that it names, and the bytes of a sender; it changes nothing else. */
  lemma UpdateIs(m: SlotMap, node: NodeId, slot: nat, frameTable: nat, status: LpduStatus, payload: seq<byte>,
                 i: nat, other: nat)
    requires Sorted(m) && IsNamed(LpdusAt(m, slot), node, frameTable, i)
    ensures var lpdus := LpdusAt(m, slot);
            var m' := MapAfterSet(m, node, slot, frameTable, status, payload);
            var after := LpdusAt(m', slot);
            && (other != slot ==> LpdusAt(m', other) == LpdusAt(m, other))
            && |after| == |lpdus| && (forall k :: 0 <= k < |lpdus| && k != i ==> after[k] == lpdus[k])
            && after[i] == lpdus[i].(status := status, payload := after[i].payload)
            && (lpdus[i].config.direction != DirectionTx ==> after[i].payload == lpdus[i].payload)
            && (lpdus[i].config.direction == DirectionTx ==>
                  && after[i].payload.Some? && |after[i].payload.value| == lpdus[i].config.payloadLength
                  && forall k :: 0 <= k < |after[i].payload.value| ==>
                       after[i].payload.value[k] == if k < |payload| then payload[k] else 0)
  {
    hide FindLpdu, LpdusAt;
    var lpdus := LpdusAt(m, slot);
    NamedIsFound(lpdus, node, frameTable, i);
    SlotExists(m, slot);
    LpdusAtWithLpdus(m, slot, lpdus[i := UpdateLpdu(lpdus[i], status, payload)], slot);
    LpdusAtWithLpdus(m, slot, lpdus[i := UpdateLpdu(lpdus[i], status, payload)], other);
  }

  lemma SlotExists(m: SlotMap, slot: nat)
    requires LpdusAt(m, slot) != []
    ensures FindSlot(m, slot) >= 0
  {
  }

  lemma NamedIsFound(lpdus: seq<Lpdu>, node: NodeId, frameTable: nat, i: nat)
    requires IsNamed(lpdus, node, frameTable, i)
    ensures FindLpdu(lpdus, node, frameTable) == i
  {
    hide FindLpdu;
    var r := FindLpdu(lpdus, node, frameTable);
    assert lpdus[i].node == node && lpdus[i].config.frameTable == frameTable;
    assert r <= i;
  }

  /** An update that names no LPDU of the slot changes nothing. */
  lemma UnknownUpdateIs(m: SlotMap, node: NodeId, slot: nat, frameTable: nat, status: LpduStatus, payload: seq<byte>)
    requires forall i :: 0 <= i < |LpdusAt(m, slot)| ==>
               LpdusAt(m, slot)[i].node != node || LpdusAt(m, slot)[i].config.frameTable != frameTable
    ensures MapAfterSet(m, node, slot, frameTable, status, payload) == m
  {
  }

  /** The entries of a frame table for one slot. */
  function EntriesFor(table: seq<TableEntry>, slot: nat): seq<TableEntry> {
    if table == [] then []
    else
      var last := table[|table| - 1];
      EntriesFor(table[..|table| - 1], slot) + if last.config.slotId == slot then [last] else []
  }

  /** An LPDU as configured: with the status of its entry, and as yet without payload, place and time. */
  predicate IsFresh(l: Lpdu, node: NodeId, e: TableEntry) {
    && l.node == node && l.config == e.config && l.status == e.status
    && l.payload == None && l.cycle == 0 && l.macrotick == 0 && !l.nullFrame
  }

  /** Adding a table appends to each slot one fresh LPDU for each of its entries, in order. */
  lemma {:induction false} AddTableIs(m: SlotMap, node: NodeId, table: seq<TableEntry>, slot: nat)
    requires Sorted(m)
    ensures Sorted(AddTable(m, node, table))
    ensures var before, entries := LpdusAt(m, slot), EntriesFor(table, slot);
            var after := LpdusAt(AddTable(m, node, table), slot);
            && |after| == |before| + |entries| && after[..|before|] == before
            && forall k :: 0 <= k < |entries| ==> IsFresh(after[|before| + k], node, entries[k])
  {
    hide LpdusAt;
    if table != [] {
      var last := table[|table| - 1];
      AddTableIs(m, node, table[..|table| - 1], slot);
      AddLpduLookup(AddTable(m, node, table[..|table| - 1]), NewLpdu(node, last), slot);
    }
  }

  /** A receiver entry of this node that is configured as not yet received listens from the start. */
  lemma ConfiguredListens(m: SlotMap, own: NodeId, table: seq<TableEntry>, slot: nat, k: nat)
    requires Sorted(m) && k < |EntriesFor(table, slot)|
    requires var e := EntriesFor(table, slot)[k]; e.config.direction == DirectionRx && e.status == NotReceived
    ensures var j := |LpdusAt(m, slot)| + k;
            j < |LpdusAt(AddTable(m, own, table), slot)| && Listens(own, LpdusAt(AddTable(m, own, table), slot)[j])
  {
    AddTableIs(m, own, table, slot);
    assert IsFresh(LpdusAt(AddTable(m, own, table), slot)[|LpdusAt(m, slot)| + k], own, EntriesFor(table, slot)[k]);
  }

  /** And a sender entry that is configured as not yet transmitted waits from the start. */
  lemma ConfiguredWaits(m: SlotMap, node: NodeId, table: seq<TableEntry>, slot: nat, k: nat)
    requires Sorted(m) && k < |EntriesFor(table, slot)|
    requires var e := EntriesFor(table, slot)[k]; e.config.direction == DirectionTx && e.status == NotTransmitted
    ensures var j := |LpdusAt(m, slot)| + k;
            j < |LpdusAt(AddTable(m, node, table), slot)| && LpdusAt(AddTable(m, node, table), slot)[j].PendingTx()
  {
    AddTableIs(m, node, table, slot);
    assert IsFresh(LpdusAt(AddTable(m, node, table), slot)[|LpdusAt(m, slot)| + k], node, EntriesFor(table, slot)[k]);
  }

  /** A table with entries is put behind the configurations so far; an empty one is not kept. */
  lemma ConfigsAre(configs: seq<NodeTable>, node: NodeId, table: seq<TableEntry>, k: nat)
    ensures var r := WithTable(configs, node, table);
            && |r| == |configs| + (if table == [] then 0 else 1)
            && (k < |configs| ==> r[k] == configs[k])
            && (table != [] ==> r[|configs|] == NodeTable(node, table))
  {
  }

  /** Removing an ECU goes through a slot LPDU by LPDU: its own are dropped, the others stay as they are. */
  lemma {:induction false} RemoveEcuIs(m: SlotMap, ecu: nat, slot: nat, a: seq<Lpdu>, l: Lpdu, b: seq<Lpdu>)
    requires Sorted(m) && LpdusAt(m, slot) == a + [l] + b
    ensures LpdusAt(RemoveEcu(m, ecu), slot) ==
            WithoutEcu(a, ecu) + (if l.node.ecu == ecu then [] else [l]) + WithoutEcu(b, ecu)
  {
    FindRemoveEcu(m, ecu, slot);
    WithoutConcat(a, [l] + b, ecu);
    assert ([l] + b)[1..] == b;
    assert a + [l] + b == a + ([l] + b);
  }

  lemma {:induction false} WithoutConcat(a: seq<Lpdu>, b: seq<Lpdu>, ecu: nat)
    ensures WithoutEcu(a + b, ecu) == WithoutEcu(a, ecu) + WithoutEcu(b, ecu)
  {
    if a == [] {
      assert a + b == b;
    } else {
      assert (a + b)[1..] == a[1..] + b;
      WithoutConcat(a[1..], b, ecu);
    }
  }

  // ---------------------------------------------------------------------------------------------
  // Configurations
  // ---------------------------------------------------------------------------------------------

  /** A bit lasts 100, 200 or 400 ns at 10, 5 or 2.5 Mbit/s, and is 4 or 8 microticks long. */
  lemma BitTimes(r: BitRate)
    requires Supported(r)
    ensures r == BitRate10 ==> BitTimeNs(r) * 10 == 1000 && BitTimeNs(r) == 4 * MicrotickNs(r)
    ensures r == BitRate5 ==> BitTimeNs(r) * 5 == 1000 && BitTimeNs(r) == 8 * MicrotickNs(r)
    ensures r == BitRate2_5 ==> BitTimeNs(r) * 5 == 2000 && BitTimeNs(r) == 8 * MicrotickNs(r)
  {
  }

  lemma SupportedRates(r: BitRate)
    ensures Supported(r) <==> r == BitRate10 || r == BitRate5 || r == BitRate2_5
  {
  }

  /** A parameter after a merge, and whether it agreed. */
  predicate IsMerged(before: nat, configured: nat, after: nat) {
    after == if before == 0 then configured else before
  }

  predicate Agrees(before: nat, configured: nat) {
    before == 0 || before == configured
  }

  /** Every parameter after a configuration, refused or not: unset ones take the configured or derived value. */
  lemma ParamsAfter(p: Params, c: NodeConfig)
    requires Supported(c.bitRate) && 0 < Merge(p.macrotickPerCycle, c.macrotickPerCycle)
    ensures var q := Configured(p, c);
            && IsMerged(p.microtickPerCycle, c.microtickPerCycle, q.microtickPerCycle)
            && IsMerged(p.macrotickPerCycle, c.macrotickPerCycle, q.macrotickPerCycle)
            && IsMerged(p.staticSlotLength, c.staticSlotLength, q.staticSlotLength)
            && IsMerged(p.staticSlotCount, c.staticSlotCount, q.staticSlotCount)
            && IsMerged(p.minislotLength, c.minislotLength, q.minislotLength)
            && IsMerged(p.minislotCount, c.minislotCount, q.minislotCount)
            && IsMerged(p.staticSlotPayloadLength, c.staticSlotPayloadLength, q.staticSlotPayloadLength)
            && IsMerged(p.microtickNs, MicrotickNs(c.bitRate), q.microtickNs)
            && 0 < q.macrotickPerCycle
            && IsMerged(p.macro2micro, q.microtickPerCycle / q.macrotickPerCycle, q.macro2micro)
            && IsMerged(p.macrotickNs, q.macro2micro * MicrotickNs(c.bitRate), q.macrotickNs)
            && q.offsetStatic == p.offsetStatic
            && IsMerged(p.offsetDynamic, q.staticSlotLength * q.staticSlotCount, q.offsetDynamic)
            && IsMerged(p.offsetNetwork, c.networkIdleStart, q.offsetNetwork)
  {
    hide Accepted, MicrotickNs, BitTimeNs;
  }

  /** It is accepted exactly if every parameter that was set agrees; only then it decides on the last two. */
  lemma AcceptedIff(p: Params, c: NodeConfig)
    requires Supported(c.bitRate) && 0 < Merge(p.macrotickPerCycle, c.macrotickPerCycle)
    ensures var q := Configured(p, c);
            && (Accepted(p, c) <==>
                  && Agrees(p.microtickPerCycle, c.microtickPerCycle)
                  && Agrees(p.macrotickPerCycle, c.macrotickPerCycle)
                  && Agrees(p.staticSlotLength, c.staticSlotLength)
                  && Agrees(p.staticSlotCount, c.staticSlotCount)
                  && Agrees(p.minislotLength, c.minislotLength)
                  && Agrees(p.minislotCount, c.minislotCount)
                  && Agrees(p.staticSlotPayloadLength, c.staticSlotPayloadLength)
                  && Agrees(p.microtickNs, MicrotickNs(c.bitRate))
                  && 0 < q.macrotickPerCycle
                  && Agrees(p.macro2micro, q.microtickPerCycle / q.macrotickPerCycle)
                  && Agrees(p.macrotickNs, q.macro2micro * MicrotickNs(c.bitRate))
                  && p.offsetStatic == 0
                  && Agrees(p.offsetDynamic, q.staticSlotLength * q.staticSlotCount)
                  && Agrees(p.offsetNetwork, c.networkIdleStart))
            && (!Accepted(p, c) ==>
                  q.bitsPerMinislot == p.bitsPerMinislot && q.inhibitNullFrames == p.inhibitNullFrames)
            && (Accepted(p, c) ==>
                  && q.bitsPerMinislot == q.minislotLength * q.macrotickNs / BitTimeNs(c.bitRate)
                  && q.inhibitNullFrames == c.inhibitNullFrames)
  {
  }
}
