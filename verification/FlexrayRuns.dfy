/**
 Whole runs of the FlexRay engine: simulation steps interleaved with LPDU updates from the nodes.
 */
module FlexrayRuns {
  import opened Bytes
  import opened Arithmetic
  import opened FlexrayLpdu
  import opened FlexraySlotMap
  import opened FlexrayTiming

  /** The first LPDU of a node with the given frame table index, or -1. */
  function FindLpdu(lpdus: seq<Lpdu>, node: NodeId, frameTable: nat): (r: int)
    ensures -1 <= r < |lpdus|
    ensures r >= 0 ==> lpdus[r].node == node && lpdus[r].config.frameTable == frameTable
    ensures forall i :: 0 <= i < (if r < 0 then |lpdus| else r) ==>
              !(lpdus[i].node == node && lpdus[i].config.frameTable == frameTable)
  {
    if lpdus == [] then -1
    else if lpdus[0].node == node && lpdus[0].config.frameTable == frameTable then 0
    else
      var r := FindLpdu(lpdus[1..], node, frameTable);
      if r < 0 then -1 else r + 1
  }

  /** An update sets the status; a sender also takes the payload, fitted to its length. */
  function UpdateLpdu(l: Lpdu, status: LpduStatus, payload: seq<byte>): Lpdu {
    var l' := l.(status := status);
    if l.config.direction.DirectionTx? then l'.(payload := Some(Fit(payload, l.config.payloadLength))) else l'
  }

  /** The slot map after set_lpdu; unchanged when there is no such slot or LPDU. */
  function MapAfterSet(m: SlotMap, node: NodeId, slot: nat, frameTable: nat, status: LpduStatus, payload: seq<byte>)
    : SlotMap
  {
    var lpdus := LpdusAt(m, slot);
    var i := FindLpdu(lpdus, node, frameTable);
    if i < 0 then m else WithLpdus(m, slot, lpdus[i := UpdateLpdu(lpdus[i], status, payload)])
  }

  datatype Op =
    | Grant(microticks: nat)
    | Set(node: NodeId, slot: nat, frameTable: nat, status: LpduStatus, payload: seq<byte>)

  function RunOps(p: Params, own: NodeId, s: EngineState, budget: nat, ops: seq<Op>): RunResult
    requires ValidParams(p)
    decreases |ops|
  {
    if ops == [] then
      RunResult(s, budget, [])
    else
      var first := RunOp(p, own, s, budget, ops[0]);
      var rest := RunOps(p, own, first.state, first.budget, ops[1..]);
      RunResult(rest.state, rest.budget, first.log + rest.log)
  }

  function RunOp(p: Params, own: NodeId, s: EngineState, budget: nat, op: Op): RunResult
    requires ValidParams(p)
  {
    match op
    case Grant(n) => Run(p, own, s, budget + n)
    case Set(node, slot, frameTable, status, payload) =>
      RunResult(s.(slotMap := MapAfterSet(s.slotMap, node, slot, frameTable, status, payload)), budget, [])
  }

  // ---------------------------------------------------------------------------------------------
  // The slot map shows the same configuration all along
  // ---------------------------------------------------------------------------------------------

  lemma StepShows(p: Params, own: NodeId, s: EngineState, list: seq<Identity>)
    requires ValidParams(p) && Shows(s.slotMap, list)
    ensures Shows(Step(p, own, s).slotMap, list)
  {
    var lpdus := LpdusAt(s.slotMap, s.posSlot);
    var after := SlotAfter(ContextOf(p, own, s), lpdus);
    assert Identities(after) == Identities(lpdus);
    WithLpdusShows(s.slotMap, list, s.posSlot, after);
  }

  lemma SetShows(m: SlotMap, list: seq<Identity>, op: Op)
    requires Shows(m, list) && op.Set?
    ensures Shows(MapAfterSet(m, op.node, op.slot, op.frameTable, op.status, op.payload), list)
  {
    var lpdus := LpdusAt(m, op.slot);
    var i := FindLpdu(lpdus, op.node, op.frameTable);
    if i >= 0 {
      var after := lpdus[i := UpdateLpdu(lpdus[i], op.status, op.payload)];
      assert Identities(after) == Identities(lpdus);
      WithLpdusShows(m, list, op.slot, after);
    }
  }

  lemma {:induction false} RunShows(p: Params, own: NodeId, s: EngineState, budget: nat, list: seq<Identity>)
    requires ValidParams(p) && Shows(s.slotMap, list)
    ensures Shows(Run(p, own, s, budget).state.slotMap, list)
    decreases budget, EndFlag(p, s)
  {
    hide Run, Step, NeedUt, StepLog, Shows;
    if NeedUt(p, s) > budget {
      RunStops(p, own, s, budget);
    } else {
      RunSteps(p, own, s, budget);
      StepShows(p, own, s, list);
      RunShows(p, own, Step(p, own, s), budget - NeedUt(p, s), list);
    }
  }

  /** A life of the slot map: nodes are configured, ECUs fall back to DefaultConfig, the bus runs. */
  datatype Life =
    | Configure(node: NodeId, table: seq<TableEntry>)
    | Remove(ecu: nat)
    | Operate(p: Params, op: Op)

  ghost function LiveOn(own: NodeId, s: EngineState, budget: nat, life: seq<Life>): (EngineState, nat)
    requires forall i :: 0 <= i < |life| && life[i].Operate? ==> ValidParams(life[i].p)
    decreases |life|
  {
    if life == [] then (s, budget)
    else
      var (s', b') := match life[0] {
        case Configure(node, table) => (s.(slotMap := AddTable(s.slotMap, node, table)), budget)
        case Remove(ecu) => (s.(slotMap := RemoveEcu(s.slotMap, ecu)), budget)
        case Operate(p, op) => var r := RunOp(p, own, s, budget, op); (r.state, r.budget)
      };
      LiveOn(own, s', b', life[1..])
  }

  /** The reference: the same life on a list of identities. Operating the bus does not touch it. */
  function Ledger(list: seq<Identity>, life: seq<Life>): seq<Identity>
    decreases |life|
  {
    if life == [] then list
    else
      var list' := match life[0] {
        case Configure(node, table) => list + TableIdentities(node, table)
        case Remove(ecu) => Keep(list, NotOfEcu(ecu))
        case Operate(_, _) => list
      };
      Ledger(list', life[1..])
  }

  /**
   Through any life, the slot map is sorted without duplicate slots and each slot lists, in order,
   exactly the configured LPDUs of the slot minus those of ECUs removed since.
   */
  lemma {:induction false} SlotMapAgrees(own: NodeId, s: EngineState, budget: nat, life: seq<Life>, list: seq<Identity>)
    requires forall i :: 0 <= i < |life| && life[i].Operate? ==> ValidParams(life[i].p)
    requires Shows(s.slotMap, list)
    ensures Shows(LiveOn(own, s, budget, life).0.slotMap, Ledger(list, life))
    decreases |life|
  {
    if life == [] {
    } else {
      match life[0]
      case Configure(node, table) =>
        AddTableShows(s.slotMap, list, node, table);
        SlotMapAgrees(own, s.(slotMap := AddTable(s.slotMap, node, table)), budget, life[1..],
                      list + TableIdentities(node, table));
      case Remove(ecu) =>
        RemoveEcuShows(s.slotMap, list, ecu);
        SlotMapAgrees(own, s.(slotMap := RemoveEcu(s.slotMap, ecu)), budget, life[1..], Keep(list, NotOfEcu(ecu)));
      case Operate(p, op) =>
        if op.Grant? { RunShows(p, own, s, budget + op.microticks, list); } else { SetShows(s.slotMap, list, op); }
        var r := RunOp(p, own, s, budget, op);
        SlotMapAgrees(own, r.state, r.budget, life[1..], list);
    }
  }

  // ---------------------------------------------------------------------------------------------
  // Single-shot transmissions
  // ---------------------------------------------------------------------------------------------

  /** Transmissions of LPDU `i` of slot `slot` on the log. */
  function CountSent(log: seq<SlotEntry>, slot: nat, i: nat): nat {
    if log == [] then 0
    else (if log[0].slot == slot && log[0].sender == Some(i) then 1 else 0) + CountSent(log[1..], slot, i)
  }

  lemma {:induction false} CountSentConcat(a: seq<SlotEntry>, b: seq<SlotEntry>, slot: nat, i: nat)
    ensures CountSent(a + b, slot, i) == CountSent(a, slot, i) + CountSent(b, slot, i)
  {
    if a == [] {
      assert a + b == b;
    } else {
      assert (a + b)[1..] == a[1..] + b;
      CountSentConcat(a[1..], b, slot, i);
    }
  }

  /** The update makes LPDU `i` of slot `slot` pending. */
  predicate Arms(m: SlotMap, op: Op, slot: nat, i: nat) {
    && op.Set? && op.slot == slot && op.status.NotTransmitted?
    && FindLpdu(LpdusAt(m, slot), op.node, op.frameTable) == i
  }

  function CountArms(p: Params, own: NodeId, s: EngineState, budget: nat, ops: seq<Op>, slot: nat, i: nat): nat
    requires ValidParams(p)
    decreases |ops|
  {
    if ops == [] then 0
    else
      var first := RunOp(p, own, s, budget, ops[0]);
      (if Arms(s.slotMap, ops[0], slot, i) then 1 else 0)
      + CountArms(p, own, first.state, first.budget, ops[1..], slot, i)
  }

  /** LPDU `i` of slot `slot` is a sender that transmits once per update. */
  predicate IsSingleShot(m: SlotMap, slot: nat, i: nat) {
    && Sorted(m) && i < |LpdusAt(m, slot)|
    && LpdusAt(m, slot)[i].config.direction.DirectionTx?
    && !LpdusAt(m, slot)[i].config.transmitMode.Continuous?
  }

  function Pending(m: SlotMap, slot: nat, i: nat): nat
    requires i < |LpdusAt(m, slot)|
  {
    if LpdusAt(m, slot)[i].PendingTx() then 1 else 0
  }

  /** What one step of the engine does to the LPDUs of a slot. */
  lemma StepAt(p: Params, own: NodeId, s: EngineState, slot: nat)
    requires ValidParams(p) && Sorted(s.slotMap)
    ensures Sorted(Step(p, own, s).slotMap)
    ensures LpdusAt(Step(p, own, s).slotMap, slot) ==
            if Processes(p, s) && slot == s.posSlot
            then SlotAfter(ContextOf(p, own, s), LpdusAt(s.slotMap, slot))
            else LpdusAt(s.slotMap, slot)
  {
    if Processes(p, s) && FindSlot(s.slotMap, s.posSlot) >= 0 {
      LpdusAtWithLpdus(s.slotMap, s.posSlot,
                       SlotAfter(ContextOf(p, own, s), LpdusAt(s.slotMap, s.posSlot)), slot);
    }
  }

  lemma StepSingleShot(p: Params, own: NodeId, s: EngineState, slot: nat, i: nat)
    requires ValidParams(p) && IsSingleShot(s.slotMap, slot, i)
    ensures var next := Step(p, own, s);
            && IsSingleShot(next.slotMap, slot, i)
            && CountSent(StepLog(p, own, s), slot, i) + Pending(next.slotMap, slot, i) <= Pending(s.slotMap, slot, i)
  {
    StepAt(p, own, s, slot);
    if !AtEnd(p, s) {
      assert StepLog(p, own, s)[1..] == [];
      if slot == s.posSlot {
        SlotAfterPending(ContextOf(p, own, s), LpdusAt(s.slotMap, slot), i);
      }
    }
  }

  lemma {:induction false} RunSingleShot(p: Params, own: NodeId, s: EngineState, budget: nat, slot: nat, i: nat)
    requires ValidParams(p) && IsSingleShot(s.slotMap, slot, i)
    ensures var r := Run(p, own, s, budget);
            && IsSingleShot(r.state.slotMap, slot, i)
            && CountSent(r.log, slot, i) + Pending(r.state.slotMap, slot, i) <= Pending(s.slotMap, slot, i)
    decreases budget, EndFlag(p, s)
  {
    hide Run, Step, NeedUt, StepLog, LpdusAt;
    if NeedUt(p, s) > budget {
      RunStops(p, own, s, budget);
    } else {
      var next, left := Step(p, own, s), budget - NeedUt(p, s);
      RunSteps(p, own, s, budget);
      StepSingleShot(p, own, s, slot, i);
      RunSingleShot(p, own, next, left, slot, i);
      CountSentConcat(StepLog(p, own, s), Run(p, own, next, left).log, slot, i);
    }
  }

  lemma SetSingleShot(m: SlotMap, op: Op, slot: nat, i: nat)
    requires op.Set? && IsSingleShot(m, slot, i)
    ensures var m' := MapAfterSet(m, op.node, op.slot, op.frameTable, op.status, op.payload);
            && IsSingleShot(m', slot, i)
            && Pending(m', slot, i) <= Pending(m, slot, i) + if Arms(m, op, slot, i) then 1 else 0
  {
    var lpdus := LpdusAt(m, op.slot);
    var j := FindLpdu(lpdus, op.node, op.frameTable);
    if j >= 0 {
      LpdusAtWithLpdus(m, op.slot, lpdus[j := UpdateLpdu(lpdus[j], op.status, op.payload)], slot);
    }
  }

  /**
   Single-shot safety. Over any run, a sender that is not continuous transmits at most once per
   update that arms it, plus once if it was pending to begin with.
   */
  lemma {:induction false} SingleShotSafety(
      p: Params, own: NodeId, s: EngineState, budget: nat, ops: seq<Op>, slot: nat, i: nat)
    requires ValidParams(p) && IsSingleShot(s.slotMap, slot, i)
    ensures var r := RunOps(p, own, s, budget, ops);
            && IsSingleShot(r.state.slotMap, slot, i)
            && CountSent(r.log, slot, i) + Pending(r.state.slotMap, slot, i)
               <= CountArms(p, own, s, budget, ops, slot, i) + Pending(s.slotMap, slot, i)
    decreases |ops|
  {
    if ops == [] {
    } else {
      var first := RunOp(p, own, s, budget, ops[0]);
      if ops[0].Grant? {
        RunSingleShot(p, own, s, budget + ops[0].microticks, slot, i);
      } else {
        SetSingleShot(s.slotMap, ops[0], slot, i);
      }
      SingleShotSafety(p, own, first.state, first.budget, ops[1..], slot, i);
      CountSentConcat(first.log, RunOps(p, own, first.state, first.budget, ops[1..]).log, slot, i);
    }
  }

  // ---------------------------------------------------------------------------------------------
  // Pending transmissions are sent
  // ---------------------------------------------------------------------------------------------

  /** LPDU `i` is the only sender of its slot. */
  predicate OnlySender(lpdus: seq<Lpdu>, i: nat) {
    && i < |lpdus| && lpdus[i].config.direction.DirectionTx?
    && forall j :: 0 <= j < |lpdus| && j != i ==> !lpdus[j].config.direction.DirectionTx?
  }

  /** The cycle counter `n` cycles after `s`. */
  function CounterIn(s: EngineState, n: nat): nat {
    (s.posCycle + n) % MAX_CYCLE
  }

  lemma CounterInNext(s: EngineState, t: EngineState, n: nat)
    requires 0 < n && t.posCycle == (s.posCycle + 1) % MAX_CYCLE
    ensures CounterIn(t, n - 1) == CounterIn(s, n)
  {
    var c := s.posCycle + 1;
    assert c == c / MAX_CYCLE * MAX_CYCLE + t.posCycle;
    var d := t.posCycle + (n - 1);
    assert d == d / MAX_CYCLE * MAX_CYCLE + d % MAX_CYCLE;
    DivisionIsUnique(s.posCycle + n, MAX_CYCLE, c / MAX_CYCLE + d / MAX_CYCLE, d % MAX_CYCLE);
  }

  /** A step either sends the pending LPDU or leaves its slot alone. */
  lemma OnlySenderStep(p: Params, own: NodeId, s: EngineState, slot: nat, i: nat)
    requires ValidParams(p) && Sorted(s.slotMap)
    requires OnlySender(LpdusAt(s.slotMap, slot), i) && LpdusAt(s.slotMap, slot)[i].PendingTx()
    ensures LpdusAt(Step(p, own, s).slotMap, slot) == LpdusAt(s.slotMap, slot)
            || (!AtEnd(p, s) && s.posSlot == slot && SenderOf(p, own, s) == Some(i)
                && InCycle(ContextOf(p, own, s), LpdusAt(s.slotMap, slot)[i].config))
    ensures !AtEnd(p, s) && s.posSlot == slot && InCycle(ContextOf(p, own, s), LpdusAt(s.slotMap, slot)[i].config) ==>
              SenderOf(p, own, s) == Some(i)
  {
    var x, lpdus := ContextOf(p, own, s), LpdusAt(s.slotMap, slot);
    StepAt(p, own, s, slot);
    assert HasPending(lpdus);
    if s.posSlot == slot {
      if IsTx(x, lpdus[i]) {
        PendingSenderSends(x, lpdus, i);
      } else {
        assert forall j :: 0 <= j < |lpdus| ==> !IsTx(x, lpdus[j]);
      }
    }
  }

  /** The base cycle and repetition of LPDU `i` select the cycle `n` cycles after `s`. */
  predicate Selected(s: EngineState, slot: nat, i: nat, n: nat)
    requires i < |LpdusAt(s.slotMap, slot)|
  {
    Selects(LpdusAt(s.slotMap, slot)[i].config, CounterIn(s, n))
  }

  /** The base cycle and repetition select the cycles in which the counter shows `counter`. */
  predicate Selects(c: LpduConfig, counter: nat) {
    c.cycleRepetition != 0 && counter % c.cycleRepetition == c.baseCycle
  }

  lemma SelectedNow(p: Params, own: NodeId, s: EngineState, slot: nat, i: nat)
    requires ValidParams(p) && !AtEnd(p, s) && s.posCycle < MAX_CYCLE
    requires i < |LpdusAt(s.slotMap, slot)|
    ensures CounterIn(s, 0) == s.posCycle
    ensures Selected(s, slot, i, 0) <==> InCycle(ContextOf(p, own, s), LpdusAt(s.slotMap, slot)[i].config)
  {
  }

  lemma SelectedNext(p: Params, own: NodeId, s: EngineState, slot: nat, i: nat, n: nat)
    requires ValidParams(p) && i < |LpdusAt(s.slotMap, slot)|
    requires LpdusAt(Step(p, own, s).slotMap, slot) == LpdusAt(s.slotMap, slot)
    requires AtEnd(p, s) ==> 0 < n
    ensures var n' := if AtEnd(p, s) then n - 1 else n;
            && CounterIn(Step(p, own, s), n') == CounterIn(s, n)
            && (Selected(Step(p, own, s), slot, i, n') <==> Selected(s, slot, i, n))
  {
    if AtEnd(p, s) { CounterInNext(s, Step(p, own, s), n); }
  }

  /** The log has a transmission of LPDU `i` of the slot in the cycle, with this counter. */
  predicate SentIn(log: seq<SlotEntry>, slot: nat, i: nat, cycle: nat, counter: nat) {
    exists k :: 0 <= k < |log| && log[k].slot == slot && log[k].sender == Some(i)
                && log[k].cycle == cycle && log[k].counter == counter
  }

  lemma SentInLater(a: seq<SlotEntry>, b: seq<SlotEntry>, slot: nat, i: nat, cycle: nat, counter: nat)
    requires SentIn(b, slot, i, cycle, counter)
    ensures SentIn(a + b, slot, i, cycle, counter)
  {
    var k :| 0 <= k < |b| && b[k].slot == slot && b[k].sender == Some(i)
             && b[k].cycle == cycle && b[k].counter == counter;
    assert (a + b)[|a| + k] == b[k];
  }

  lemma {:induction false} SentInCounts(log: seq<SlotEntry>, slot: nat, i: nat, cycle: nat, counter: nat)
    requires SentIn(log, slot, i, cycle, counter)
    ensures CountSent(log, slot, i) >= 1
  {
    var k :| 0 <= k < |log| && log[k].slot == slot && log[k].sender == Some(i)
             && log[k].cycle == cycle && log[k].counter == counter;
    if k > 0 {
      assert log[1..][k - 1] == log[k];
      SentInCounts(log[1..], slot, i, cycle, counter);
    }
  }

  /** A run logs nothing of earlier cycles. */
  lemma {:induction false} LogIsLater(p: Params, own: NodeId, s: EngineState, budget: nat)
    requires ValidParams(p)
    ensures forall k :: 0 <= k < |Run(p, own, s, budget).log| ==> s.cycles <= Run(p, own, s, budget).log[k].cycle
    decreases budget, EndFlag(p, s)
  {
    hide Run, NeedUt;
    if NeedUt(p, s) > budget {
      RunStops(p, own, s, budget);
    } else {
      RunSteps(p, own, s, budget);
      LogIsLater(p, own, Step(p, own, s), budget - NeedUt(p, s));
    }
  }

  /** What a run logs and its first step does not, the rest of the run logs; that is not over yet. */
  lemma LoggedInRest(p: Params, own: NodeId, s: EngineState, budget: nat, n: nat, slot: nat)
    requires ValidParams(p) && NeedUt(p, s) <= budget && Logged(Run(p, own, s, budget).log, s.cycles + n, slot)
    requires AtEnd(p, s) || n > 0 || s.posSlot != slot
    ensures AtEnd(p, s) ==> 0 < n
    ensures var next := Step(p, own, s);
            Logged(Run(p, own, next, budget - NeedUt(p, s)).log, next.cycles + if AtEnd(p, s) then n - 1 else n, slot)
  {
    hide Run, NeedUt;
    RunSteps(p, own, s, budget);
    var next, left := Step(p, own, s), budget - NeedUt(p, s);
    var first, rest, log := StepLog(p, own, s), Run(p, own, next, left).log, Run(p, own, s, budget).log;
    LogIsLater(p, own, next, left);
    var k :| 0 <= k < |log| && log[k].cycle == s.cycles + n && log[k].slot == slot;
    assert k >= |first| && log[k] == rest[k - |first|];
  }

  /** In one of the next `n` cycles that select the sender, the log has its transmission. */
  predicate SentWithin(s: EngineState, log: seq<SlotEntry>, slot: nat, i: nat, n: nat)
    requires i < |LpdusAt(s.slotMap, slot)|
  {
    exists m: nat :: m <= n && Selected(s, slot, i, m) && SentIn(log, slot, i, s.cycles + m, CounterIn(s, m))
  }

  lemma SentWithinLater(p: Params, own: NodeId, s: EngineState, slot: nat, i: nat, n: nat, log: seq<SlotEntry>)
    requires ValidParams(p) && i < |LpdusAt(s.slotMap, slot)|
    requires LpdusAt(Step(p, own, s).slotMap, slot) == LpdusAt(s.slotMap, slot)
    requires AtEnd(p, s) ==> 0 < n
    requires SentWithin(Step(p, own, s), log, slot, i, if AtEnd(p, s) then n - 1 else n)
    ensures SentWithin(s, StepLog(p, own, s) + log, slot, i, n)
  {
    hide LpdusAt, SentIn, CounterIn, StepLog;
    var next, end := Step(p, own, s), AtEnd(p, s);
    var n' := if end then n - 1 else n;
    var m: nat :| m <= n' && Selected(next, slot, i, m) && SentIn(log, slot, i, next.cycles + m, CounterIn(next, m));
    var m' := if end then m + 1 else m;
    SelectedNext(p, own, s, slot, i, m');
    assert next.cycles + m == s.cycles + m';
    SentInLater(StepLog(p, own, s), log, slot, i, s.cycles + m', CounterIn(s, m'));
  }

  lemma NothingLogged(cycle: nat, slot: nat)
    ensures !Logged([], cycle, slot)
  {
  }

  lemma SentNowWithin(p: Params, own: NodeId, s: EngineState, slot: nat, i: nat, n: nat, rest: seq<SlotEntry>)
    requires ValidParams(p) && !AtEnd(p, s) && s.posCycle < MAX_CYCLE && s.posSlot == slot
    requires i < |LpdusAt(s.slotMap, slot)| && Selected(s, slot, i, 0) && SenderOf(p, own, s) == Some(i)
    ensures SentWithin(s, StepLog(p, own, s) + rest, slot, i, n)
  {
    var log := StepLog(p, own, s) + rest;
    assert log[0] == StepLog(p, own, s)[0] && CounterIn(s, 0) == s.posCycle;
    assert SentIn(log, slot, i, s.cycles + 0, CounterIn(s, 0));
  }

  lemma SentWithinCounts(s: EngineState, log: seq<SlotEntry>, slot: nat, i: nat, n: nat)
    requires i < |LpdusAt(s.slotMap, slot)| && SentWithin(s, log, slot, i, n)
    ensures CountSent(log, slot, i) >= 1
  {
    var m: nat :| m <= n && Selected(s, slot, i, m) && SentIn(log, slot, i, s.cycles + m, CounterIn(s, m));
    SentInCounts(log, slot, i, s.cycles + m, CounterIn(s, m));
  }

  /**
   A transmission pending in the only sender of a slot, static or dynamic, is on the log once the run
   has consumed the slot in a cycle that the sender's base cycle and repetition select, if not before.
   */
  lemma {:induction false} PendingIsSent(
      p: Params, own: NodeId, s: EngineState, budget: nat, slot: nat, i: nat, n: nat)
    requires ValidParams(p) && Sorted(s.slotMap) && s.posCycle < MAX_CYCLE
    requires OnlySender(LpdusAt(s.slotMap, slot), i) && LpdusAt(s.slotMap, slot)[i].PendingTx()
    requires Selected(s, slot, i, n) && Logged(Run(p, own, s, budget).log, s.cycles + n, slot)
    ensures SentWithin(s, Run(p, own, s, budget).log, slot, i, n)
    ensures CountSent(Run(p, own, s, budget).log, slot, i) >= 1
    decreases budget, EndFlag(p, s)
  {
    hide Run, NeedUt, StepLog, LpdusAt, SentWithin, Selected, Logged, InCycle;
    if NeedUt(p, s) > budget {
      RunStops(p, own, s, budget);
      NothingLogged(s.cycles + n, slot);
    } else {
      var next, left := Step(p, own, s), budget - NeedUt(p, s);
      RunSteps(p, own, s, budget);
      OnlySenderStep(p, own, s, slot, i);
      if !AtEnd(p, s) { SelectedNow(p, own, s, slot, i); }
      if !AtEnd(p, s) && s.posSlot == slot && SenderOf(p, own, s) == Some(i) {
        SentNowWithin(p, own, s, slot, i, n, Run(p, own, next, left).log);
      } else {
        StepAt(p, own, s, slot);
        LoggedInRest(p, own, s, budget, n, slot);
        SelectedNext(p, own, s, slot, i, n);
        PendingIsSent(p, own, next, left, slot, i, if AtEnd(p, s) then n - 1 else n);
        SentWithinLater(p, own, s, slot, i, n, Run(p, own, next, left).log);
      }
      SentWithinCounts(s, Run(p, own, s, budget).log, slot, i, n);
    }
  }
}
