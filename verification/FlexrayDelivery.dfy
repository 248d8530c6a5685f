/**
 End-to-end delivery: from a node loading a payload into its LPDU to the receivers of this node
 holding it, over whole runs of the bus.
 */
module FlexrayDelivery {
  import opened Bytes
  import opened FlexrayLpdu
  import opened FlexraySlotMap
  import opened FlexrayTiming
  import opened FlexrayRuns

  /** An LPDU of the node `own` that is ready to receive. */
  predicate Listens(own: NodeId, l: Lpdu) {
    l.config.direction.DirectionRx? && (l.status.NotReceived? || l.status.Received?) && l.node == own
  }

  /** LPDU `i` alone sends in the slot, its payload is `sent`, and LPDU `j` listens. */
  predicate Link(own: NodeId, lpdus: seq<Lpdu>, i: nat, j: nat, sent: seq<byte>) {
    OnlySender(lpdus, i) && j < |lpdus| && lpdus[i].payload == Some(sent) && Listens(own, lpdus[j])
  }

  /** The receiver has the sent bytes, cut to its own length or zero filled up to it. */
  predicate Holds(l: Lpdu, sent: seq<byte>) {
    l.status == Received && l.payload == Some(Fit(sent, l.config.payloadLength))
  }

  predicate SameIdentity(a: Lpdu, b: Lpdu) {
    a.node == b.node && a.config == b.config
  }

  /** The link between `before` and `after`: it stays, with the same LPDUs, and what was delivered stays delivered. */
  predicate LinkStays(own: NodeId, before: seq<Lpdu>, after: seq<Lpdu>, i: nat, j: nat, sent: seq<byte>) {
    && Link(own, before, i, j, sent) && Link(own, after, i, j, sent)
    && SameIdentity(before[i], after[i]) && SameIdentity(before[j], after[j])
    && (Holds(before[j], sent) ==> Holds(after[j], sent))
  }

  lemma LinkStaysOn(own: NodeId, a: seq<Lpdu>, b: seq<Lpdu>, c: seq<Lpdu>, i: nat, j: nat, sent: seq<byte>)
    requires LinkStays(own, a, b, i, j, sent) && LinkStays(own, b, c, i, j, sent)
    ensures LinkStays(own, a, c, i, j, sent) && b[j].config == a[j].config
    ensures i < |a| && j < |a| && i < |b| && j < |b| && i < |c| && j < |c|
    ensures Holds(b[j], sent) ==> Holds(c[j], sent)
  {
  }

  lemma LinkIs(own: NodeId, lpdus: seq<Lpdu>, i: nat, j: nat, sent: seq<byte>)
    requires Link(own, lpdus, i, j, sent)
    ensures i < |lpdus| && j < |lpdus| && OnlySender(lpdus, i) && LinkStays(own, lpdus, lpdus, i, j, sent)
  {
  }

  /** The log has a transmission of LPDU `i` of the slot in a cycle that selects the receiver. */
  predicate Heard(log: seq<SlotEntry>, slot: nat, i: nat, rx: LpduConfig) {
    exists k :: 0 <= k < |log| && log[k].slot == slot && log[k].sender == Some(i) && Selects(rx, log[k].counter)
  }

  lemma HeardConcat(a: seq<SlotEntry>, b: seq<SlotEntry>, slot: nat, i: nat, rx: LpduConfig)
    ensures Heard(a + b, slot, i, rx) ==> Heard(a, slot, i, rx) || Heard(b, slot, i, rx)
  {
    if Heard(a + b, slot, i, rx) {
      var log := a + b;
      var k :| 0 <= k < |log| && log[k].slot == slot && log[k].sender == Some(i) && Selects(rx, log[k].counter);
      if k < |a| { assert log[k] == a[k]; } else { assert log[k] == b[k - |a|]; }
    }
  }

  /** One slot: the link stays, and a pending transmission is delivered to the receiver if its cycle matches. */
  lemma SlotDelivers(x: SlotContext, lpdus: seq<Lpdu>, i: nat, j: nat, sent: seq<byte>)
    requires Link(x.node, lpdus, i, j, sent)
    ensures var after := SlotAfter(x, lpdus);
            && LinkStays(x.node, lpdus, after, i, j, sent)
            && (Sends(x, lpdus) && Selects(lpdus[j].config, x.cycle) ==> Holds(after[j], sent))
  {
    var after := SlotAfter(x, lpdus);
    if IsTx(x, lpdus[i]) {
      assert ChosenTx(x, lpdus) == i;
    } else {
      assert forall k :: 0 <= k < |lpdus| ==> !IsTx(x, lpdus[k]);
      assert ChosenTx(x, lpdus) < 0;
    }
    SlotAfterKeeps(x, lpdus, i);
    SlotAfterKeeps(x, lpdus, j);
    forall k | 0 <= k < |lpdus| ensures after[k].config == lpdus[k].config {
      SlotAfterKeeps(x, lpdus, k);
    }
  }

  /** One step of the engine, wherever it is. */
  lemma StepDelivers(p: Params, own: NodeId, s: EngineState, slot: nat, i: nat, j: nat, sent: seq<byte>)
    requires ValidParams(p) && Sorted(s.slotMap)
    requires Link(own, LpdusAt(s.slotMap, slot), i, j, sent)
    ensures Sorted(Step(p, own, s).slotMap)
    ensures var before, after := LpdusAt(s.slotMap, slot), LpdusAt(Step(p, own, s).slotMap, slot);
            && LinkStays(own, before, after, i, j, sent)
            && (Heard(StepLog(p, own, s), slot, i, before[j].config) ==> Holds(after[j], sent))
  {
    hide LpdusAt, Link, LinkStays, Holds, ChosenTx, SlotAfter, Sends, Selects, NeedMt, HasPending;
    StepAt(p, own, s, slot);
    var x, lpdus := ContextOf(p, own, s), LpdusAt(s.slotMap, slot);
    SlotDelivers(x, lpdus, i, j, sent);
    LinkIs(own, lpdus, i, j, sent);
  }

  /**
   Over any run, in either segment: the link stays, and once the sender has transmitted in a cycle that
   selects the receiver, the receiver has the payload, and the rest of the run does not take it away.
   */
  lemma {:induction false} RunDelivers(
      p: Params, own: NodeId, s: EngineState, budget: nat, slot: nat, i: nat, j: nat, sent: seq<byte>)
    requires ValidParams(p) && Sorted(s.slotMap)
    requires Link(own, LpdusAt(s.slotMap, slot), i, j, sent)
    ensures var r := Run(p, own, s, budget);
            var before, after := LpdusAt(s.slotMap, slot), LpdusAt(r.state.slotMap, slot);
            && Sorted(r.state.slotMap) && LinkStays(own, before, after, i, j, sent)
            && (Heard(r.log, slot, i, before[j].config) ==> Holds(after[j], sent))
    decreases budget, EndFlag(p, s)
  {
    hide Run, NeedUt, Step, StepLog, LpdusAt, Link, LinkStays, Holds, Heard;
    var before := LpdusAt(s.slotMap, slot);
    LinkIs(own, before, i, j, sent);
    if NeedUt(p, s) > budget {
      RunStops(p, own, s, budget);
      NothingHeard(slot, i, before[j].config);
    } else {
      var next, left := Step(p, own, s), budget - NeedUt(p, s);
      RunSteps(p, own, s, budget);
      StepDelivers(p, own, s, slot, i, j, sent);
      LinkOf(own, before, LpdusAt(next.slotMap, slot), i, j, sent);
      RunDelivers(p, own, next, left, slot, i, j, sent);
      var rest := Run(p, own, next, left);
      LinkStaysOn(own, before, LpdusAt(next.slotMap, slot), LpdusAt(rest.state.slotMap, slot), i, j, sent);
      HeardConcat(StepLog(p, own, s), rest.log, slot, i, before[j].config);
    }
  }

  lemma NothingHeard(slot: nat, i: nat, rx: LpduConfig)
    ensures !Heard([], slot, i, rx)
  {
  }

  lemma LinkOf(own: NodeId, before: seq<Lpdu>, after: seq<Lpdu>, i: nat, j: nat, sent: seq<byte>)
    requires LinkStays(own, before, after, i, j, sent)
    ensures Link(own, after, i, j, sent) && i < |before| && j < |before| && i < |after| && j < |after|
    ensures SameIdentity(before[i], after[i]) && SameIdentity(before[j], after[j])
    ensures Holds(before[j], sent) ==> Holds(after[j], sent)
  {
  }

  // ---------------------------------------------------------------------------------------------
  // Runs with updates in between
  // ---------------------------------------------------------------------------------------------

  /** The update names this LPDU of the slot. */
  predicate Touches(op: Op, slot: nat, l: Lpdu) {
    op.Set? && op.slot == slot && op.node == l.node && op.frameTable == l.config.frameTable
  }

  predicate LeaveAlone(ops: seq<Op>, slot: nat, l: Lpdu) {
    forall k :: 0 <= k < |ops| ==> !Touches(ops[k], slot, l)
  }

  /** An update of another LPDU keeps the link. */
  lemma SetKeepsLink(m: SlotMap, own: NodeId, op: Op, slot: nat, i: nat, j: nat, sent: seq<byte>)
    requires Sorted(m) && op.Set? && Link(own, LpdusAt(m, slot), i, j, sent)
    requires !Touches(op, slot, LpdusAt(m, slot)[i]) && !Touches(op, slot, LpdusAt(m, slot)[j])
    ensures var m' := MapAfterSet(m, op.node, op.slot, op.frameTable, op.status, op.payload);
            Sorted(m') && LinkStays(own, LpdusAt(m, slot), LpdusAt(m', slot), i, j, sent)
  {
    var lpdus := LpdusAt(m, op.slot);
    var k := FindLpdu(lpdus, op.node, op.frameTable);
    if k >= 0 {
      LpdusAtWithLpdus(m, op.slot, lpdus[k := UpdateLpdu(lpdus[k], op.status, op.payload)], slot);
      if op.slot == slot { UpdateKeepsLink(own, lpdus, k, op.status, op.payload, i, j, sent); }
    }
  }

  lemma UpdateKeepsLink(own: NodeId, lpdus: seq<Lpdu>, k: nat, status: LpduStatus, payload: seq<byte>,
                        i: nat, j: nat, sent: seq<byte>)
    requires k < |lpdus| && k != i && k != j && Link(own, lpdus, i, j, sent)
    ensures LinkStays(own, lpdus, lpdus[k := UpdateLpdu(lpdus[k], status, payload)], i, j, sent)
  {
  }

  /** The same over a run of grants and updates, as long as the updates leave sender and receiver alone. */
  lemma {:induction false} OpsDeliver(
      p: Params, own: NodeId, s: EngineState, budget: nat, ops: seq<Op>, slot: nat, i: nat, j: nat, sent: seq<byte>)
    requires ValidParams(p) && Sorted(s.slotMap)
    requires Link(own, LpdusAt(s.slotMap, slot), i, j, sent)
    requires LeaveAlone(ops, slot, LpdusAt(s.slotMap, slot)[i]) && LeaveAlone(ops, slot, LpdusAt(s.slotMap, slot)[j])
    ensures var r := RunOps(p, own, s, budget, ops);
            var before, after := LpdusAt(s.slotMap, slot), LpdusAt(r.state.slotMap, slot);
            && LinkStays(own, before, after, i, j, sent)
            && (Heard(r.log, slot, i, before[j].config) ==> Holds(after[j], sent))
    decreases |ops|
  {
    hide Run, LpdusAt, Link, LinkStays, Holds, Heard, Sorted, MapAfterSet;
    var before := LpdusAt(s.slotMap, slot);
    LinkIs(own, before, i, j, sent);
    if ops == [] {
      NothingHeard(slot, i, before[j].config);
    } else {
      var first := RunOp(p, own, s, budget, ops[0]);
      if ops[0].Grant? {
        RunDelivers(p, own, s, budget + ops[0].microticks, slot, i, j, sent);
      } else {
        SetKeepsLink(s.slotMap, own, ops[0], slot, i, j, sent);
        NothingHeard(slot, i, before[j].config);
      }
      var middle := LpdusAt(first.state.slotMap, slot);
      LinkOf(own, before, middle, i, j, sent);
      OpsDeliver(p, own, first.state, first.budget, ops[1..], slot, i, j, sent);
      var rest := RunOps(p, own, first.state, first.budget, ops[1..]);
      LinkStaysOn(own, before, middle, LpdusAt(rest.state.slotMap, slot), i, j, sent);
      HeardConcat(first.log, rest.log, slot, i, before[j].config);
    }
  }

  // ---------------------------------------------------------------------------------------------
  // End to end
  // ---------------------------------------------------------------------------------------------

  /** The update arms the only sender of its slot, and LPDU `j` of the slot listens. */
  predicate Loads(own: NodeId, m: SlotMap, op: Op, i: nat, j: nat) {
    && Sorted(m) && op.Set? && Arms(m, op, op.slot, i)
    && var lpdus := LpdusAt(m, op.slot);
       OnlySender(lpdus, i) && j < |lpdus| && Listens(own, lpdus[j])
  }

  /** What a receiver with the configuration `rx` gets out of what a sender with the configuration `tx` was given. */
  function Arrives(tx: LpduConfig, rx: LpduConfig, payload: seq<byte>): seq<byte> {
    Fit(payload[..Min(|payload|, Min(tx.payloadLength, rx.payloadLength))], rx.payloadLength)
  }

  /** The receiver `rx` has, at its place `j` in the slot, what the update gave to the sender `tx`. */
  predicate HasArrived(after: seq<Lpdu>, tx: Lpdu, rx: Lpdu, j: nat, payload: seq<byte>) {
    && j < |after| && SameIdentity(rx, after[j]) && after[j].status == Received
    && after[j].payload == Some(Arrives(tx.config, rx.config, payload))
  }

  lemma Loaded(p: Params, own: NodeId, s: EngineState, budget: nat, op: Op, i: nat, j: nat)
    requires ValidParams(p) && Loads(own, s.slotMap, op, i, j)
    ensures op.Set? && i < |LpdusAt(s.slotMap, op.slot)| && j < |LpdusAt(s.slotMap, op.slot)|
    ensures var lpdus := LpdusAt(s.slotMap, op.slot);
            var loaded := RunOp(p, own, s, budget, op).state;
            var now := LpdusAt(loaded.slotMap, op.slot);
            && loaded == s.(slotMap := loaded.slotMap) && Sorted(loaded.slotMap)
            && Link(own, now, i, j, Fit(op.payload, lpdus[i].config.payloadLength))
            && OnlySender(now, i) && now[i].PendingTx()
            && SameIdentity(lpdus[i], now[i]) && SameIdentity(lpdus[j], now[j])
  {
    var lpdus := LpdusAt(s.slotMap, op.slot);
    LpdusAtWithLpdus(s.slotMap, op.slot, lpdus[i := UpdateLpdu(lpdus[i], op.status, op.payload)], op.slot);
  }

  lemma HoldingIsArrival(after: seq<Lpdu>, tx: Lpdu, rx: Lpdu, j: nat, payload: seq<byte>)
    requires j < |after| && SameIdentity(rx, after[j]) && Holds(after[j], Fit(payload, tx.config.payloadLength))
    ensures HasArrived(after, tx, rx, j, payload)
  {
    FitTwice(payload, tx.config.payloadLength, rx.config.payloadLength);
  }

  /**
   End to end. A node loads a payload into the only sender of a slot, static or dynamic. After any run
   of grants and of updates of other LPDUs that has transmitted it in a cycle that selects a receiver
   of this node, the receiver is Received and holds the payload, cut to the smaller configured length
   and zero filled to its own.
   */
  lemma EndToEnd(
      p: Params, own: NodeId, s: EngineState, budget: nat, op: Op, ops: seq<Op>, i: nat, j: nat)
    requires ValidParams(p) && Loads(own, s.slotMap, op, i, j)
    requires var lpdus := LpdusAt(s.slotMap, op.slot);
             LeaveAlone(ops, op.slot, lpdus[i]) && LeaveAlone(ops, op.slot, lpdus[j])
    requires Heard(RunOps(p, own, s, budget, [op] + ops).log, op.slot, i, LpdusAt(s.slotMap, op.slot)[j].config)
    ensures var lpdus := LpdusAt(s.slotMap, op.slot);
            HasArrived(LpdusAt(RunOps(p, own, s, budget, [op] + ops).state.slotMap, op.slot),
                       lpdus[i], lpdus[j], j, op.payload)
  {
    hide Loads, LpdusAt, Link, LinkStays, Holds, Heard, HasArrived, RunOps;
    Loaded(p, own, s, budget, op, i, j);
    var lpdus, loaded := LpdusAt(s.slotMap, op.slot), RunOp(p, own, s, budget, op);
    var sent, now := Fit(op.payload, lpdus[i].config.payloadLength), LpdusAt(loaded.state.slotMap, op.slot);
    FirstOp(p, own, s, budget, op, ops);
    LinkIs(own, now, i, j, sent);
    OpsDeliver(p, own, loaded.state, loaded.budget, ops, op.slot, i, j, sent);
    var after := LpdusAt(RunOps(p, own, s, budget, [op] + ops).state.slotMap, op.slot);
    LinkOf(own, now, after, i, j, sent);
    HoldingIsArrival(after, lpdus[i], lpdus[j], j, op.payload);
  }

  lemma FirstOp(p: Params, own: NodeId, s: EngineState, budget: nat, op: Op, ops: seq<Op>)
    requires ValidParams(p) && op.Set?
    ensures var loaded := RunOp(p, own, s, budget, op);
            RunOps(p, own, s, budget, [op] + ops) == RunOps(p, own, loaded.state, loaded.budget, ops)
  {
    assert ([op] + ops)[1..] == ops;
  }

  /** Up to `n` cycles from now, every cycle that selects the sender selects the receiver. */
  predicate CyclesCover(s: EngineState, slot: nat, i: nat, j: nat, n: nat)
    requires i < |LpdusAt(s.slotMap, slot)| && j < |LpdusAt(s.slotMap, slot)|
  {
    forall m: nat :: m <= n && Selected(s, slot, i, m) ==> Selected(s, slot, j, m)
  }

  /** The transmission that is due is heard. */
  lemma WithinIsHeard(s: EngineState, log: seq<SlotEntry>, slot: nat, i: nat, j: nat, n: nat)
    requires i < |LpdusAt(s.slotMap, slot)| && j < |LpdusAt(s.slotMap, slot)|
    requires SentWithin(s, log, slot, i, n) && CyclesCover(s, slot, i, j, n)
    ensures Heard(log, slot, i, LpdusAt(s.slotMap, slot)[j].config)
  {
    hide LpdusAt, Selects;
    var m: nat :| m <= n && Selected(s, slot, i, m) && SentIn(log, slot, i, s.cycles + m, CounterIn(s, m));
    assert Selected(s, slot, j, m);
  }

  /**
   The run has transmitted the payload, and the receiver has it, when it has consumed the slot in a
   cycle that selects the sender; up to that cycle the receiver must be selected with the sender.
   */
  lemma ConsumedEndToEnd(p: Params, own: NodeId, s: EngineState, budget: nat, op: Op, i: nat, j: nat, n: nat)
    requires ValidParams(p) && s.posCycle < MAX_CYCLE && Loads(own, s.slotMap, op, i, j)
    requires Selected(s, op.slot, i, n) && CyclesCover(s, op.slot, i, j, n)
    requires var loaded := RunOp(p, own, s, budget, op);
             Logged(Run(p, own, loaded.state, loaded.budget).log, s.cycles + n, op.slot)
    ensures var loaded, lpdus := RunOp(p, own, s, budget, op), LpdusAt(s.slotMap, op.slot);
            HasArrived(LpdusAt(Run(p, own, loaded.state, loaded.budget).state.slotMap, op.slot),
                       lpdus[i], lpdus[j], j, op.payload)
  {
    hide Run, Loads, LpdusAt, Link, LinkStays, Holds, Heard, HasArrived, Logged, SentWithin, RunOp;
    Loaded(p, own, s, budget, op, i, j);
    var lpdus, loaded := LpdusAt(s.slotMap, op.slot), RunOp(p, own, s, budget, op);
    var sent, now := Fit(op.payload, lpdus[i].config.payloadLength), LpdusAt(loaded.state.slotMap, op.slot);
    var r := Run(p, own, loaded.state, loaded.budget);
    PendingIsSent(p, own, loaded.state, loaded.budget, op.slot, i, n);
    SameCycles(s, loaded.state, op.slot, i, j, n);
    WithinIsHeard(loaded.state, r.log, op.slot, i, j, n);
    RunDelivers(p, own, loaded.state, loaded.budget, op.slot, i, j, sent);
    LinkOf(own, now, LpdusAt(r.state.slotMap, op.slot), i, j, sent);
    HoldingIsArrival(LpdusAt(r.state.slotMap, op.slot), lpdus[i], lpdus[j], j, op.payload);
  }

  lemma SameCycles(s: EngineState, t: EngineState, slot: nat, i: nat, j: nat, n: nat)
    requires s.posCycle == t.posCycle
    requires i < |LpdusAt(s.slotMap, slot)| && j < |LpdusAt(s.slotMap, slot)|
    requires i < |LpdusAt(t.slotMap, slot)| && j < |LpdusAt(t.slotMap, slot)|
    requires LpdusAt(t.slotMap, slot)[i].config == LpdusAt(s.slotMap, slot)[i].config
    requires LpdusAt(t.slotMap, slot)[j].config == LpdusAt(s.slotMap, slot)[j].config
    ensures CyclesCover(s, slot, i, j, n) ==> CyclesCover(t, slot, i, j, n)
    ensures Selected(s, slot, i, n) ==> Selected(t, slot, i, n)
  {
    hide LpdusAt, Selects;
    forall m: nat ensures Selected(s, slot, i, m) == Selected(t, slot, i, m)
                  ensures Selected(s, slot, j, m) == Selected(t, slot, j, m) {
      assert CounterIn(s, m) == CounterIn(t, m);
    }
  }

  /** A static slot has been consumed when the run has passed it. */
  lemma StaticEndToEnd(p: Params, own: NodeId, s: EngineState, budget: nat, op: Op, i: nat, j: nat, n: nat)
    requires ValidParams(p) && s.posCycle < MAX_CYCLE && Loads(own, s.slotMap, op, i, j)
    requires Selected(s, op.slot, i, n) && CyclesCover(s, op.slot, i, j, n)
    requires OnGrid(p, s) && 1 <= op.slot <= p.staticSlotCount
    requires var loaded := RunOp(p, own, s, budget, op);
             Passed(s, s.cycles + n, op.slot, Run(p, own, loaded.state, loaded.budget).state)
    ensures var loaded, lpdus := RunOp(p, own, s, budget, op), LpdusAt(s.slotMap, op.slot);
            HasArrived(LpdusAt(Run(p, own, loaded.state, loaded.budget).state.slotMap, op.slot),
                       lpdus[i], lpdus[j], j, op.payload)
  {
    hide Run, LpdusAt, Logged, HasArrived, Selected, CyclesCover;
    var loaded := RunOp(p, own, s, budget, op);
    NoStaticSlotSkipped(p, own, loaded.state, loaded.budget, s.cycles + n, op.slot);
    ConsumedEndToEnd(p, own, s, budget, op, i, j, n);
  }

  // ---------------------------------------------------------------------------------------------
  // Slots with several senders
  // ---------------------------------------------------------------------------------------------

  /** Whoever sends in a slot: after the step every receiver in its cycle holds the sender's payload and is informed. */
  lemma SentIsReceived(p: Params, own: NodeId, s: EngineState, i: nat, j: nat, sent: seq<byte>)
    requires ValidParams(p) && Sorted(s.slotMap)
    requires SenderOf(p, own, s) == Some(i)
    requires var lpdus := LpdusAt(s.slotMap, s.posSlot);
             lpdus[i].payload == Some(sent) && j < |lpdus| && IsRx(ContextOf(p, own, s), lpdus[j])
    ensures var after := LpdusAt(Step(p, own, s).slotMap, s.posSlot);
            j < |after| && Holds(after[j], sent) && j in InformedBy(p, own, s)
  {
    hide LpdusAt, SlotAfter;
    StepAt(p, own, s, s.posSlot);
    var x, lpdus := ContextOf(p, own, s), LpdusAt(s.slotMap, s.posSlot);
    Delivery(x, lpdus, j);
    SlotAfterKeeps(x, lpdus, j);
  }

  /**
   When the owner of a dynamic slot is not the pending one, the step sends nothing, leaves the pending
   one pending, and yet makes every receiver in the cycle Received with the owner's old payload.
   */
  lemma StaleStep(p: Params, own: NodeId, s: EngineState, k: nat, j: nat, was: seq<byte>)
    requires ValidParams(p) && Sorted(s.slotMap) && InDynamic(p, s)
    requires var x, lpdus := ContextOf(p, own, s), LpdusAt(s.slotMap, s.posSlot);
             && ChosenTx(x, lpdus) >= 0 && !lpdus[ChosenTx(x, lpdus)].status.NotTransmitted?
             && lpdus[ChosenTx(x, lpdus)].payload == Some(was)
             && k < |lpdus| && lpdus[k].PendingTx() && j < |lpdus| && IsRx(x, lpdus[j])
    ensures var after := LpdusAt(Step(p, own, s).slotMap, s.posSlot);
            && SenderOf(p, own, s) == None
            && k < |after| && after[k].PendingTx()
            && j < |after| && Holds(after[j], was) && j in InformedBy(p, own, s)
  {
    hide LpdusAt;
    StepAt(p, own, s, s.posSlot);
    var x, lpdus := ContextOf(p, own, s), LpdusAt(s.slotMap, s.posSlot);
    assert HasPending(lpdus);
    assert IsInformed(x, lpdus, j);
  }

  const STALE_PARAMS :=
    Params(40, 40, 10, 1, 5, 4, 1, 1, 25, 25, 0, 10, 30, 8, false)

  /** One sender has transmitted [7] in cycle 0, the other waits for cycle 1 with [8]; a receiver listens. */
  function StaleSlot(own: NodeId): seq<Lpdu> {
    [Lpdu(own, LpduConfig(2, 1, 2, 0, 0, DirectionTx, SingleShot, false), Transmitted, Some([7]), 0, 0, false),
     Lpdu(own, LpduConfig(2, 1, 2, 1, 1, DirectionTx, SingleShot, false), NotTransmitted, Some([8]), 0, 0, false),
     Lpdu(own, LpduConfig(2, 1, 1, 0, 2, DirectionRx, ModeNone, false), NotReceived, None, 0, 0, false)]
  }

  lemma StaleOwner(own: NodeId)
    ensures var x := SlotContext(own, 0, 10, 10, 30, false);
            ChosenTx(x, StaleSlot(own)) == 0 && IsRx(x, StaleSlot(own)[2])
  {
    var x, lpdus := SlotContext(own, 0, 10, 10, 30, false), StaleSlot(own);
    assert IsTx(x, lpdus[0]) && !IsTx(x, lpdus[1]) && !IsTx(x, lpdus[2]);
  }

  /** Such a slot: the update of one sender makes it deliver the old payload of the other once more. */
  lemma StaleDelivery()
    ensures exists p: Params, own: NodeId, s: EngineState, k: nat, j: nat, was: seq<byte>, now: seq<byte> ::
              && ValidParams(p) && OnGrid(p, s) && Sorted(s.slotMap)
              && var before := LpdusAt(s.slotMap, s.posSlot);
                 var after := LpdusAt(Step(p, own, s).slotMap, s.posSlot);
                 && k < |before| && before[k].PendingTx() && before[k].payload == Some(now)
                 && SenderOf(p, own, s) == None && was != now
                 && j < |before| && before[j].status == NotReceived
                 && j < |after| && Holds(after[j], was)
  {
    hide Holds, Step, SenderOf, ChosenTx, IsRx;
    var own, p := NodeId(1, 0, 1), STALE_PARAMS;
    var s := EngineState(10, 2, 0, 0, [SlotItem(2, StaleSlot(own))]);
    assert LpdusAt(s.slotMap, 2) == StaleSlot(own);
    assert ContextOf(p, own, s) == SlotContext(own, 0, 10, 10, 30, false);
    StaleOwner(own);
    StaleStep(p, own, s, 1, 2, [7]);
    assert [7] != [8] by { assert [7][0] != [8][0]; }
  }
}
