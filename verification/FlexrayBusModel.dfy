/**
 The FlexRay bus model: one object, updated in place slot by slot and PDU by PDU.
 Every method is proved against the functions of the other FlexRay modules.
 */
module FlexrayBusModel {
  import opened Bytes
  import opened Arithmetic
  import opened FlexrayLpdu
  import opened FlexraySlotMap
  import opened FlexrayTiming
  import opened FlexrayConfig
  import opened FlexrayPoc
  import opened FlexrayRuns

  /** Every allocated payload in the map has its configured length. */
  ghost predicate AllSized(m: SlotMap) {
    forall i, j :: 0 <= i < |m| && 0 <= j < |m[i].lpdus| ==> m[i].lpdus[j].Sized()
  }

  /** The macrotick budget covers the microtick budget, so it never underflows. */
  predicate Covered(ut: nat, mt: nat, macro2micro: nat) {
    if macro2micro == 0 then ut == 0 && mt == 0 else ut / macro2micro <= mt
  }

  lemma CoveredAfterSlot(ut: nat, mt: nat, m2m: nat, need: nat)
    requires 0 < m2m && Covered(ut, mt, m2m) && need * m2m <= ut
    ensures need <= mt && Covered(ut - need * m2m, mt - need, m2m)
  {
    var q, r := ut / m2m, ut % m2m;
    assert ut == q * m2m + r;
    if q < need { MulLess(q, need, m2m); }
    MulPlus(q, need, m2m);
    DivisionIsUnique(ut - need * m2m, m2m, q - need, r);
  }

  lemma CoveredAfterIdle(ut: nat, mt: nat, m2m: nat, cost: nat)
    requires 0 < m2m && Covered(ut, mt, m2m) && cost <= ut
    ensures Covered(ut - cost, mt, m2m)
  {
    var q, q' := ut / m2m, (ut - cost) / m2m;
    assert ut == q * m2m + ut % m2m;
    assert ut - cost == q' * m2m + (ut - cost) % m2m;
    if q < q' { MulLess(q, q', m2m); }
  }

  /** The engine runs on the timing of `c`, on the slot grid. */
  predicate RunsAt(p: Params, s: EngineState, c: NodeConfig) {
    ValidParams(p) && Plausible(c) && RunsOn(p, c) && OnGrid(p, s)
  }

  class BusModel {
    const nodeIdent: NodeId
    var params: Params
    var posMt: nat
    var posSlot: nat
    var posCycle: nat
    var stepBudgetUt: nat
    var stepBudgetMt: nat
    var slotMap: SlotMap
    var configList: seq<NodeTable>
    var txrxList: seq<(nat, nat)>
    var nodeStates: seq<NodeState>
    var vcsNodes: seq<NodeState>
    var busCondition: TcvrState

    /** Completed cycles and consumed slots since creation. */
    ghost var cycles: nat
    ghost var log: seq<SlotEntry>

    ghost predicate Valid()
      reads this
    {
      && ShowsConfigs(slotMap, configList)
      && Sorted(slotMap)
      && AllSized(slotMap)
      && Covered(stepBudgetUt, stepBudgetMt, params.macro2micro)
    }

    ghost predicate Running(c: NodeConfig)
      reads this
    {
      RunsAt(params, Engine(), c)
    }

    ghost function Engine(): EngineState
      reads this
    {
      EngineState(posMt, posSlot, posCycle, cycles, slotMap)
    }

    constructor (node: NodeId)
      ensures Valid() && nodeIdent == node
      ensures slotMap == [] && configList == [] && nodeStates == [] && vcsNodes == [] && log == []
      ensures posMt == 0 && posSlot == 0
    {
      nodeIdent := node;
      params := Params(0, 0, 0, 0, 0, 0, 0, 0, 0, 0, 0, 0, 0, 0, false);
      posMt, posSlot, posCycle := 0, 0, 0;
      stepBudgetUt, stepBudgetMt := 0, 0;
      slotMap, configList, txrxList, nodeStates, vcsNodes := [], [], [], [], [];
      busCondition := TcvrNone;
      cycles, log := 0, [];
    }

    // -------------------------------------------------------------------------------------------
    // Engine
    // -------------------------------------------------------------------------------------------

    /** `grant` is the step size in microticks. */
    method CalculateBudget(grant: nat) returns (rc: int)
      requires Valid()
      modifies this`stepBudgetUt, this`stepBudgetMt, this`txrxList
      ensures Valid()
      ensures rc == 0 <==> params.macrotickNs != 0 && params.macro2micro != 0
      ensures rc == 0 ==> stepBudgetUt == old(stepBudgetUt) + grant && txrxList == []
      ensures rc == 0 ==> stepBudgetMt == stepBudgetUt / params.macro2micro
      ensures rc != 0 ==> unchanged(this)
    {
      if params.macrotickNs == 0 || params.macro2micro == 0 {
        return -1;
      }
      stepBudgetUt := stepBudgetUt + grant;
      stepBudgetMt := stepBudgetUt / params.macro2micro;
      txrxList := [];
      return 0;
    }

    /** First pass over the slot: who sends, and is it a null frame. */
    static method FindSender(x: SlotContext, lpdus: seq<Lpdu>) returns (tx: int, nullFrame: bool)
      ensures tx == ChosenTx(x, lpdus) && nullFrame == NullFrame(x, lpdus)
    {
      tx, nullFrame := -1, false;
      for i := 0 to |lpdus|
        invariant tx == ChosenTx(x, lpdus[..i]) && nullFrame == NullFrame(x, lpdus[..i])
      {
        var l := lpdus[i];
        assert lpdus[..i + 1][..i] == lpdus[..i];
        PrefixNull(x, lpdus, i);
        if IsTx(x, l) {
          tx := i;
          if x.mt < x.offsetDynamic && (l.status.StatusNone? || l.status.Transmitted?) {
            nullFrame := true;
          }
        }
      }
      assert lpdus[..|lpdus|] == lpdus;
    }

    /** Second pass: serve the receivers of this node. `lpdus` is the slot after the sender has sent. */
    static method ServeReceivers(x: SlotContext, lpdus: seq<Lpdu>, tx: nat, nullFrame: bool, ghost was: seq<Lpdu>)
      returns (served: seq<Lpdu>, informed: seq<nat>)
      requires tx < |was| == |lpdus| && tx == ChosenTx(x, was) && nullFrame == NullFrame(x, was)
      requires lpdus == was[tx := if Sends(x, was) then AfterTx(x, was[tx]) else was[tx]] && was[tx].Sized()
      ensures served == SlotAfter(x, was) && informed == InformedRx(x, was, |was|)
    {
      hide ChosenTx, NullFrame, SlotAfter, InformedRx;
      served, informed := lpdus, [];
      SenderAt(x, was);
      for i := 0 to |lpdus|
        invariant |served| == |was| && served[tx].Sized() && served[tx].payload == was[tx].payload
        invariant forall k :: 0 <= k < |was| ==>
                    served[k] == if k < i || k == tx then SlotAfter(x, was)[k] else was[k]
        invariant informed == InformedRx(x, was, i)
      {
        var l := served[i];
        ServedAt(x, was, i);
        if IsRx(x, l) {
          if nullFrame {
            if !l.config.inhibitNull && !x.inhibitNull {
              served := served[i := l.(cycle := x.cycle, macrotick := x.mt, nullFrame := true)];
              informed := informed + [i];
            }
          } else {
            served := served[i := TakeFrame(x, served[tx], l)];
            informed := informed + [i];
          }
        }
      }
    }

    /** What the first pass has done to the slot. */
    static lemma SenderAt(x: SlotContext, was: seq<Lpdu>)
      requires ChosenTx(x, was) >= 0
      ensures var tx := ChosenTx(x, was);
              SlotAfter(x, was)[tx] == (if Sends(x, was) then AfterTx(x, was[tx]) else was[tx])
              && SlotAfter(x, was)[tx].payload == was[tx].payload && SlotAfter(x, was)[tx].config == was[tx].config
      ensures InformedRx(x, was, 0) == []
    {
    }

    /** What the second pass does to one LPDU. */
    static lemma ServedAt(x: SlotContext, was: seq<Lpdu>, i: nat)
      requires i < |was| && ChosenTx(x, was) >= 0
      ensures i != ChosenTx(x, was) ==>
                SlotAfter(x, was)[i] ==
                if IsRx(x, was[i]) then AfterRx(x, was[ChosenTx(x, was)].payload, was[i], NullFrame(x, was)) else was[i]
      ensures InformedRx(x, was, i + 1) == InformedRx(x, was, i) +
              if IsRx(x, was[i]) && (NullFrame(x, was) ==> HearsNull(x, was[i])) then [i] else []
    {
    }

    /** Process the current slot: find the sender, send, then serve the receivers. */
    method ProcessSlot()
      requires Valid()
      modifies this`slotMap, this`txrxList
      ensures Valid()
      ensures slotMap == MapAfterSlot(params, nodeIdent, old(Engine()))
      ensures txrxList == old(txrxList)
                + Tagged(posSlot, Informed(old(ContextOf(params, nodeIdent, Engine())), LpdusAt(old(slotMap), posSlot)))
    {
      hide ChosenTx, NullFrame, SlotAfter, InformedRx, Shows;
      var at := FindSlot(slotMap, posSlot);
      if at < 0 {
        NoSender(old(ContextOf(params, nodeIdent, Engine())), [], 0);
        return;
      }
      var x := SlotContext(
        nodeIdent, posCycle, posMt, params.offsetDynamic, params.offsetNetwork, params.inhibitNullFrames);
      var lpdus := slotMap[at].lpdus;
      var tx, nullFrame := FindSender(x, lpdus);
      if tx < 0 {
        NoSender(x, lpdus, |lpdus|);
        return;
      }
      ghost var was := lpdus;
      var own := [];
      if lpdus[tx].status.NotTransmitted? && !nullFrame {
        lpdus := lpdus[tx := AfterTx(x, lpdus[tx])];
        if lpdus[tx].node == nodeIdent {
          own := [tx as nat];
        }
      }
      var informed;
      lpdus, informed := ServeReceivers(x, lpdus, tx, nullFrame, was);
      assert own + informed == Informed(x, was);
      txrxList := txrxList + Tagged(posSlot, own + informed);
      SlotAfterSized(x, slotMap, at);
      SlotAfterShows(x, slotMap, posSlot, configList);
      slotMap := slotMap[at := slotMap[at].(lpdus := lpdus)];
    }

    /** Processing a slot keeps what the map shows. */
    static lemma SlotAfterShows(x: SlotContext, m: SlotMap, id: nat, configs: seq<NodeTable>)
      requires ShowsConfigs(m, configs)
      ensures ShowsConfigs(WithLpdus(m, id, SlotAfter(x, LpdusAt(m, id))), configs)
    {
      var lpdus := LpdusAt(m, id);
      assert Identities(SlotAfter(x, lpdus)) == Identities(lpdus);
      WithLpdusShows(m, ConfigIdentities(configs), id, SlotAfter(x, lpdus));
    }

    static lemma SlotAfterSized(x: SlotContext, m: SlotMap, at: nat)
      requires AllSized(m) && at < |m|
      ensures AllSized(m[at := m[at].(lpdus := SlotAfter(x, m[at].lpdus))])
    {
      var lpdus := m[at].lpdus;
      forall j | 0 <= j < |lpdus| ensures SlotAfter(x, lpdus)[j].Sized() {
        SlotAfterKeeps(x, lpdus, j);
      }
    }

    static lemma {:induction false} NoSender(x: SlotContext, lpdus: seq<Lpdu>, n: nat)
      requires ChosenTx(x, lpdus) < 0 && n <= |lpdus|
      ensures InformedRx(x, lpdus, n) == [] && SlotAfter(x, lpdus) == lpdus
    {
      if n > 0 { NoSender(x, lpdus, n - 1); }
    }

    /** Copy a frame into a receiver: the shorter length counts, the rest is zeroed. */
    static function TakeFrame(x: SlotContext, tx: Lpdu, rx: Lpdu): (r: Lpdu)
      requires tx.Sized()
      ensures r == AfterRx(x, tx.payload, rx, false)
    {
      var length := rx.config.payloadLength;
      var before := if rx.payload.None? then Zeros(length) else rx.payload.value;
      var after :=
        if tx.payload.None? then before
        else
          var n := Min(length, tx.config.payloadLength);
          assert tx.payload.value[..n] + Zeros(length - n) == Fit(tx.payload.value, length);
          tx.payload.value[..n] + Zeros(length - n);
      rx.(status := Received, payload := Some(after), cycle := x.cycle, macrotick := x.mt, nullFrame := false)
    }

    static lemma PrefixNull(x: SlotContext, lpdus: seq<Lpdu>, i: nat)
      requires i < |lpdus|
      ensures NullFrame(x, lpdus[..i + 1]) <==> NullFrame(x, lpdus[..i]) || RaisesNull(x, lpdus[i])
    {
      if NullFrame(x, lpdus[..i]) {
        var k :| 0 <= k < i && RaisesNull(x, lpdus[..i][k]);
        assert RaisesNull(x, lpdus[..i + 1][k]);
      }
      if RaisesNull(x, lpdus[i]) {
        assert RaisesNull(x, lpdus[..i + 1][i]);
      }
      if NullFrame(x, lpdus[..i + 1]) && !RaisesNull(x, lpdus[i]) {
        var k :| 0 <= k < i + 1 && RaisesNull(x, lpdus[..i + 1][k]);
        assert RaisesNull(x, lpdus[..i][k]);
      }
    }

    /** Width of the current dynamic slot, and whether a transmission is pending in it. */
    method DynamicNeed() returns (needMt: nat, pendingTx: bool)
      requires Valid() && ValidParams(params)
      ensures needMt == DynamicWidth(params, LpdusAt(slotMap, posSlot))
      ensures pendingTx == HasPending(LpdusAt(slotMap, posSlot))
    {
      hide DynamicWidth, TxMinislots, HasPending, ShowsConfigs, Sorted, AllSized, Covered, FindSlot;
      NothingNeeded(params);
      needMt := params.minislotLength;
      pendingTx := false;
      var at := FindSlot(slotMap, posSlot);
      if at >= 0 {
        var lpdus := slotMap[at].lpdus;
        assert lpdus[..0] == [];
        for i := 0 to |lpdus|
          invariant needMt == DynamicWidth(params, lpdus[..i]) && pendingTx == HasPending(lpdus[..i])
        {
          NeedNext(params, lpdus, i);
          if lpdus[i].config.direction.DirectionTx? && lpdus[i].status.NotTransmitted? {
            pendingTx := true;
            var minislots := CountMinislots(params, lpdus[i].config.payloadLength);
            needMt := minislots * params.minislotLength;
          }
        }
        assert lpdus[..|lpdus|] == lpdus;
      }
    }

    static method CountMinislots(p: Params, payloadLength: byte) returns (minislots: nat)
      requires ValidParams(p)
      ensures minislots == TxMinislots(p, payloadLength)
    {
      minislots := (40 + payloadLength * 8 + p.bitsPerMinislot - 1) / p.bitsPerMinislot;
    }

    static lemma NothingNeeded(p: Params)
      requires ValidParams(p)
      ensures DynamicWidth(p, []) == p.minislotLength && !HasPending([])
    {
    }

    static lemma NeedNext(p: Params, lpdus: seq<Lpdu>, i: nat)
      requires ValidParams(p) && i < |lpdus|
      ensures DynamicWidth(p, lpdus[..i + 1]) ==
              if lpdus[i].PendingTx() then TxMinislots(p, lpdus[i].config.payloadLength) * p.minislotLength
              else DynamicWidth(p, lpdus[..i])
      ensures HasPending(lpdus[..i + 1]) <==> HasPending(lpdus[..i]) || lpdus[i].PendingTx()
    {
      hide HasPending, TxMinislots;
      assert lpdus[..i + 1][..i] == lpdus[..i];
      PrefixPending(lpdus, i);
    }

    static lemma PrefixPending(lpdus: seq<Lpdu>, i: nat)
      requires i < |lpdus|
      ensures HasPending(lpdus[..i + 1]) <==> HasPending(lpdus[..i]) || lpdus[i].PendingTx()
    {
      if HasPending(lpdus[..i]) {
        var k :| 0 <= k < i && lpdus[..i][k].PendingTx();
        assert lpdus[..i + 1][k].PendingTx();
      }
      if lpdus[i].PendingTx() {
        assert lpdus[..i + 1][i].PendingTx();
      }
      if HasPending(lpdus[..i + 1]) && !lpdus[i].PendingTx() {
        var k :| 0 <= k < i + 1 && lpdus[..i + 1][k].PendingTx();
        assert lpdus[..i][k].PendingTx();
      }
    }

    static lemma InformListOne(e: SlotEntry)
      ensures InformList([e]) == Tagged(e.slot, e.informed)
    {
      assert [e][1..] == [];
    }

    /** A slot of the static segment. */
    method ConsumeStatic() returns (rc: int)
      requires Valid() && ValidParams(params)
      requires InStatic(params, Engine())
      modifies this`stepBudgetUt, this`stepBudgetMt, this`posMt, this`posSlot, this`posCycle,
               this`slotMap, this`txrxList, this`cycles, this`log
      ensures Valid()
      ensures rc == if old(NeedUt(params, Engine())) > old(stepBudgetUt) then 1 else 0
      ensures rc == 1 ==> unchanged(this)
      ensures rc == 0 ==>
                && Engine() == Step(params, nodeIdent, old(Engine()))
                && stepBudgetUt == old(stepBudgetUt) - old(NeedUt(params, Engine()))
                && log == old(log) + StepLog(params, nodeIdent, old(Engine()))
                && txrxList == old(txrxList) + InformList(StepLog(params, nodeIdent, old(Engine())))
    {
      hide SlotAfter, Sends, ChosenTx, FindSlot, WithLpdus, DynamicWidth;
      hide ShowsConfigs, AllSized, Covered, InformList, Informed;
      ghost var s := Engine();
      var needMt := params.staticSlotLength;
      var needUt := needMt * params.macro2micro;
      if needUt > stepBudgetUt {
        return 1;
      }
      ProcessSlot();
      CoveredAfterSlot(stepBudgetUt, stepBudgetMt, params.macro2micro, needMt);
      stepBudgetUt := stepBudgetUt - needUt;
      stepBudgetMt := stepBudgetMt - needMt;
      posSlot := posSlot + 1;
      posMt := posMt + needMt;
      ghost var entries := StepLog(params, nodeIdent, s);
      InformListOne(entries[0]);
      log := log + entries;
      return 0;
    }

    /** A slot of the dynamic segment, cut at the end of the cycle. */
    method ConsumeDynamic() returns (rc: int)
      requires Valid() && ValidParams(params)
      requires InDynamic(params, Engine())
      modifies this`stepBudgetUt, this`stepBudgetMt, this`posMt, this`posSlot, this`posCycle,
               this`slotMap, this`txrxList, this`cycles, this`log
      ensures Valid()
      ensures rc == if old(NeedUt(params, Engine())) > old(stepBudgetUt) then 1 else 0
      ensures rc == 1 ==> unchanged(this)
      ensures rc == 0 ==>
                && Engine() == Step(params, nodeIdent, old(Engine()))
                && stepBudgetUt == old(stepBudgetUt) - old(NeedUt(params, Engine()))
                && log == old(log) + StepLog(params, nodeIdent, old(Engine()))
                && txrxList == old(txrxList) + InformList(StepLog(params, nodeIdent, old(Engine())))
    {
      hide SlotAfter, Sends, ChosenTx, FindSlot, WithLpdus, DynamicWidth;
      hide ShowsConfigs, AllSized, Covered, InformList, Informed;
      ghost var s := Engine();
      var needMt, pendingTx := DynamicNeed();
      if needMt + posMt > params.macrotickPerCycle {
        needMt := params.macrotickPerCycle - posMt;
      }
      var needUt := needMt * params.macro2micro;
      if needUt > stepBudgetUt {
        return 1;
      }
      if pendingTx {
        ProcessSlot();
      }
      CoveredAfterSlot(stepBudgetUt, stepBudgetMt, params.macro2micro, needMt);
      stepBudgetUt := stepBudgetUt - needUt;
      stepBudgetMt := stepBudgetMt - needMt;
      posSlot := posSlot + 1;
      posMt := posMt + needMt;
      ghost var entries := StepLog(params, nodeIdent, s);
      InformListOne(entries[0]);
      log := log + entries;
      return 0;
    }

    /** The idle remainder of the cycle. */
    method ConsumeRemainder() returns (rc: int)
      requires Valid() && ValidParams(params)
      requires AtEnd(params, Engine())
      modifies this`stepBudgetUt, this`stepBudgetMt, this`posMt, this`posSlot, this`posCycle,
               this`slotMap, this`txrxList, this`cycles, this`log
      ensures Valid()
      ensures rc == if old(NeedUt(params, Engine())) > old(stepBudgetUt) then 1 else 0
      ensures rc == 1 ==> unchanged(this)
      ensures rc == 0 ==>
                && Engine() == Step(params, nodeIdent, old(Engine()))
                && stepBudgetUt == old(stepBudgetUt) - old(NeedUt(params, Engine()))
                && log == old(log) + StepLog(params, nodeIdent, old(Engine()))
                && txrxList == old(txrxList) + InformList(StepLog(params, nodeIdent, old(Engine())))
    {
      var remainingUt := 0;
      if posMt * params.macro2micro < params.microtickPerCycle {
        remainingUt := params.microtickPerCycle - posMt * params.macro2micro;
      }
      if remainingUt > stepBudgetUt {
        return 1;
      }
      CoveredAfterIdle(stepBudgetUt, stepBudgetMt, params.macro2micro, remainingUt);
      assert log == log + StepLog(params, nodeIdent, Engine());
      stepBudgetUt := stepBudgetUt - remainingUt;
      posSlot := 1;
      posMt := 0;
      posCycle := (posCycle + 1) % MAX_CYCLE;
      cycles := cycles + 1;
      return 0;
    }

    /** Returns 1 when the next slot does not fit the budget, and 0 after consuming it. */
    method ConsumeSlot() returns (rc: int)
      requires Valid() && ValidParams(params)
      modifies this`stepBudgetUt, this`stepBudgetMt, this`posMt, this`posSlot, this`posCycle,
               this`slotMap, this`txrxList, this`cycles, this`log
      ensures Valid()
      ensures rc == if old(NeedUt(params, Engine())) > old(stepBudgetUt) then 1 else 0
      ensures rc == 1 ==> unchanged(this)
      ensures rc == 0 ==>
                && Engine() == Step(params, nodeIdent, old(Engine()))
                && stepBudgetUt == old(stepBudgetUt) - old(NeedUt(params, Engine()))
                && log == old(log) + StepLog(params, nodeIdent, old(Engine()))
                && txrxList == old(txrxList) + InformList(StepLog(params, nodeIdent, old(Engine())))
    {
      if posMt < params.offsetDynamic {
        rc := ConsumeStatic();
      } else if posMt < params.offsetNetwork {
        rc := ConsumeDynamic();
      } else {
        rc := ConsumeRemainder();
      }
    }

    /** The loop of one simulation step: consume slots until one does not fit. */
    method ConsumeAll()
      requires Valid() && ValidParams(params)
      modifies this`stepBudgetUt, this`stepBudgetMt, this`posMt, this`posSlot, this`posCycle,
               this`slotMap, this`txrxList, this`cycles, this`log
      ensures Valid()
      ensures var r := Run(params, nodeIdent, old(Engine()), old(stepBudgetUt));
              && Engine() == r.state && stepBudgetUt == r.budget && log == old(log) + r.log
              && txrxList == old(txrxList) + InformList(r.log)
    {
      ghost var target := Run(params, nodeIdent, Engine(), stepBudgetUt);
      ghost var done: seq<SlotEntry> := [];
      hide Run, Step, NeedUt, StepLog, ShowsConfigs, AllSized;
      var rc := 0;
      while rc == 0
        invariant Valid() && ValidParams(params) && params == old(params)
        invariant rc == 0 || rc == 1
        invariant log == old(log) + done && txrxList == old(txrxList) + InformList(done)
        invariant var r := Run(params, nodeIdent, Engine(), stepBudgetUt);
                  r.state == target.state && r.budget == target.budget && done + r.log == target.log
        invariant rc == 1 ==> NeedUt(params, Engine()) > stepBudgetUt
        decreases 1 - rc, stepBudgetUt, EndFlag(params, Engine())
      {
        ghost var s := Engine();
        ghost var budget := stepBudgetUt;
        rc := ConsumeSlot();
        if rc == 0 {
          RunSteps(params, nodeIdent, s, budget);
          ghost var entry := StepLog(params, nodeIdent, s);
          ConcatAssoc(done, entry, Run(params, nodeIdent, Engine(), stepBudgetUt).log);
          ConcatAssoc(old(log), done, entry);
          InformListConcat(done, entry);
          ConcatAssoc(old(txrxList), InformList(done), InformList(entry));
          done := done + entry;
        }
      }
      RunStops(params, nodeIdent, Engine(), stepBudgetUt);
      assert done + [] == done;
    }

    /** Position `mt` is in the `n`-th slot of this length, counting from 1. */
    static predicate InSlot(mt: nat, n: int, length: nat) {
      1 <= n && (n - 1) * length <= mt < n * length
    }

    static lemma PositionOf(mt: nat, length: nat)
      requires 0 < length
      ensures InSlot(mt, mt / length + 1, length)
    {
      MulPlus(mt / length, 1, length);
    }

    /** The slots around the position have a length to divide by. */
    static predicate HasLength(p: Params, mt: nat) {
      if mt < p.offsetDynamic then 0 < p.staticSlotLength else 0 < p.minislotLength
    }

    /** The slot number that belongs to an adopted position, as if nothing had been sent in the dynamic segment. */
    static function SlotAt(p: Params, mt: nat): nat
      requires HasLength(p, mt)
    {
      if mt < p.offsetDynamic then mt / p.staticSlotLength + 1
      else (mt - p.offsetDynamic) / p.minislotLength + p.staticSlotCount + 1
    }

    static method StaticSlotAt(p: Params, mt: nat) returns (slot: nat)
      requires HasLength(p, mt) && mt < p.offsetDynamic
      ensures slot == SlotAt(p, mt)
    {
      slot := mt / p.staticSlotLength + 1;
    }

    static method DynamicSlotAt(p: Params, mt: nat) returns (slot: nat)
      requires HasLength(p, mt) && p.offsetDynamic <= mt
      ensures slot == SlotAt(p, mt)
    {
      slot := (mt - p.offsetDynamic) / p.minislotLength + p.staticSlotCount + 1;
    }

    /** The position `mt` is in the slot `slot`. */
    static predicate InSlotAt(p: Params, mt: nat, slot: nat) {
      if mt < p.offsetDynamic then InSlot(mt, slot, p.staticSlotLength)
      else InSlot(mt - p.offsetDynamic, slot - p.staticSlotCount, p.minislotLength)
    }

    static lemma AdoptedPosition(p: Params, mt: nat, s: EngineState)
      requires HasLength(p, mt) && s.posMt == mt && s.posSlot == SlotAt(p, mt)
      ensures InSlotAt(p, mt, s.posSlot)
      ensures ValidParams(p) && mt < p.offsetDynamic ==> s.posSlot <= p.staticSlotCount
      ensures ValidParams(p) && mt <= p.macrotickPerCycle ==>
                (OnGrid(p, s) <==> mt >= p.offsetDynamic || mt % p.staticSlotLength == 0)
    {
      if mt < p.offsetDynamic {
        PositionOf(mt, p.staticSlotLength);
        if ValidParams(p) {
          ShiftOnGrid(p, mt, s);
          hide OnGrid;
          if s.posSlot > p.staticSlotCount { MulMono(p.staticSlotCount, s.posSlot - 1, p.staticSlotLength); }
        }
      } else {
        PositionOf(mt - p.offsetDynamic, p.minislotLength);
      }
    }

    static lemma NothingCovered(m2m: nat)
      ensures Covered(0, 0, m2m)
    {
    }

    /** Adopt a cycle position. In the dynamic segment this is possible only by force. */
    method ShiftCycle(mt: nat, cycle: nat, force: bool) returns (rc: int)
      requires Valid() && (mt < params.offsetDynamic || force ==> HasLength(params, mt))
      modifies this`posMt, this`posCycle, this`posSlot, this`stepBudgetUt, this`stepBudgetMt
      ensures Valid()
      ensures rc == 0 <==> mt < params.offsetDynamic || force
      ensures rc != 0 ==> unchanged(this)
      ensures rc == 0 ==> posMt == mt && posCycle == cycle % MAX_CYCLE && stepBudgetUt == 0 && stepBudgetMt == 0
      ensures rc == 0 ==> InSlotAt(params, mt, posSlot)
      ensures rc == 0 && ValidParams(params) && mt < params.offsetDynamic ==> posSlot <= params.staticSlotCount
      ensures rc == 0 && ValidParams(params) && mt <= params.macrotickPerCycle ==>
                (OnGrid(params, Engine()) <==> mt >= params.offsetDynamic || mt % params.staticSlotLength == 0)
    {
      NothingCovered(params.macro2micro);
      hide OnGrid, ShowsConfigs, Sorted, AllSized, InSlotAt, Covered, SlotAt, ValidParams, HasLength;
      if mt < params.offsetDynamic {
        posMt := mt;
        posCycle := cycle % MAX_CYCLE;
        posSlot := StaticSlotAt(params, posMt);
        stepBudgetUt, stepBudgetMt := 0, 0;
        AdoptedPosition(params, mt, Engine());
        return 0;
      } else if force {
        posMt := mt;
        posCycle := cycle % MAX_CYCLE;
        posSlot := DynamicSlotAt(params, posMt);
        stepBudgetUt, stepBudgetMt := 0, 0;
        AdoptedPosition(params, mt, Engine());
        return 0;
      } else {
        return 1;
      }
    }

    /** An LPDU update from a node. */
    method SetLpdu(node: NodeId, slot: nat, frameTable: nat, status: LpduStatus, payload: seq<byte>) returns (rc: int)
      requires Valid()
      modifies this`slotMap
      ensures Valid()
      ensures rc == 0 <==> FindLpdu(LpdusAt(old(slotMap), slot), node, frameTable) >= 0
      ensures slotMap == MapAfterSet(old(slotMap), node, slot, frameTable, status, payload)
    {
      var at := FindSlot(slotMap, slot);
      if at < 0 {
        return -1;
      }
      var lpdus := slotMap[at].lpdus;
      var found := FindLpduIndex(lpdus, node, frameTable);
      if found < 0 {
        return -1;
      }
      hide FindLpdu, UpdateLpdu, Shows;
      var l := Updated(lpdus[found], status, payload);
      UpdateShows(slotMap, slot, found, l, configList);
      slotMap := slotMap[at := slotMap[at].(lpdus := lpdus[found := l])];
      return 0;
    }

    static method FindLpduIndex(lpdus: seq<Lpdu>, node: NodeId, frameTable: nat) returns (found: int)
      ensures found == FindLpdu(lpdus, node, frameTable)
    {
      var i := 0;
      while i < |lpdus|
        invariant 0 <= i <= |lpdus|
        invariant FindLpdu(lpdus, node, frameTable) ==
                  if FindLpdu(lpdus[i..], node, frameTable) < 0 then -1 else i + FindLpdu(lpdus[i..], node, frameTable)
      {
        assert lpdus[i..][1..] == lpdus[i + 1..];
        if lpdus[i].node == node && lpdus[i].config.frameTable == frameTable {
          return i;
        }
        i := i + 1;
      }
      return -1;
    }

    static method Updated(was: Lpdu, status: LpduStatus, payload: seq<byte>) returns (l: Lpdu)
      ensures l == UpdateLpdu(was, status, payload)
      ensures l.node == was.node && l.config == was.config && (was.Sized() ==> l.Sized())
    {
      l := was.(status := status);
      if l.config.direction.DirectionTx? {
        var n := Min(l.config.payloadLength, |payload|);
        l := l.(payload := Some(payload[..n] + Zeros(l.config.payloadLength - n)));
        assert l.payload.value == Fit(payload, l.config.payloadLength);
      }
    }

    static lemma UpdateShows(m: SlotMap, id: nat, i: nat, l: Lpdu, configs: seq<NodeTable>)
      requires ShowsConfigs(m, configs) && i < |LpdusAt(m, id)|
      requires l.node == LpdusAt(m, id)[i].node && l.config == LpdusAt(m, id)[i].config
      ensures ShowsConfigs(WithLpdus(m, id, LpdusAt(m, id)[i := l]), configs)
    {
      var lpdus := LpdusAt(m, id);
      assert Identities(lpdus[i := l]) == Identities(lpdus);
      WithLpdusShows(m, ConfigIdentities(configs), id, lpdus[i := l]);
    }

    // -------------------------------------------------------------------------------------------
    // Configuration
    // -------------------------------------------------------------------------------------------

    static method MergeInto(rc: int, param: nat, v: nat) returns (rc': int, param': nat)
      ensures param' == Merge(param, v)
      ensures rc' == if Mergeable(param, v) then rc else -1
    {
      if param != 0 && param != v {
        return -1, param;
      }
      return rc, v;
    }

    /** Merge the parameters one by one; any mismatch is remembered, but merging goes on. */
    static method MergeParams(p: Params, c: NodeConfig) returns (rc: int, q: Params)
      requires Supported(c.bitRate) && 0 < Merge(p.macrotickPerCycle, c.macrotickPerCycle)
      ensures q == MergeAll(p, c)
      ensures rc == 0 <==> Accepted(p, c)
    {
      rc := 0;
      var micro, macro, slotLength, slotCount, miniLength, miniCount, payloadLength;
      var microNs, m2m, macroNs, staticAt, dynamicAt, networkAt;
      rc, micro := MergeInto(rc, p.microtickPerCycle, c.microtickPerCycle);
      rc, macro := MergeInto(rc, p.macrotickPerCycle, c.macrotickPerCycle);
      rc, slotLength := MergeInto(rc, p.staticSlotLength, c.staticSlotLength);
      rc, slotCount := MergeInto(rc, p.staticSlotCount, c.staticSlotCount);
      rc, miniLength := MergeInto(rc, p.minislotLength, c.minislotLength);
      rc, miniCount := MergeInto(rc, p.minislotCount, c.minislotCount);
      rc, payloadLength := MergeInto(rc, p.staticSlotPayloadLength, c.staticSlotPayloadLength);
      rc, microNs := MergeInto(rc, p.microtickNs, MicrotickNs(c.bitRate));
      rc, m2m := MergeInto(rc, p.macro2micro, micro / macro);
      rc, macroNs := MergeInto(rc, p.macrotickNs, m2m * MicrotickNs(c.bitRate));
      rc, staticAt := MergeInto(rc, p.offsetStatic, 0);
      rc, dynamicAt := MergeInto(rc, p.offsetDynamic, slotLength * slotCount);
      rc, networkAt := MergeInto(rc, p.offsetNetwork, c.networkIdleStart);
      q := Params(micro, macro, slotLength, slotCount, miniLength, miniCount, payloadLength,
                  m2m, microNs, macroNs, staticAt, dynamicAt, networkAt,
                  p.bitsPerMinislot, p.inhibitNullFrames);
    }

    /** Merge, and when everything agrees derive the minislot width and take the null frame option. */
    static method ConfigureParams(p: Params, c: NodeConfig) returns (rc: int, q: Params)
      requires Supported(c.bitRate) && 0 < Merge(p.macrotickPerCycle, c.macrotickPerCycle)
      ensures q == Configured(p, c)
      ensures rc == 0 <==> Accepted(p, c)
    {
      rc, q := MergeParams(p, c);
      if rc == 0 {
        q := q.(bitsPerMinislot := q.minislotLength * q.macrotickNs / BitTimeNs(c.bitRate),
                inhibitNullFrames := c.inhibitNullFrames);
      }
    }

    /** The engine divides by the macroticks per cycle, which the first configuration must set. */
    predicate Configurable(c: NodeConfig)
      reads this`params
    {
      Supported(c.bitRate) ==> 0 < Merge(params.macrotickPerCycle, c.macrotickPerCycle)
    }

    /** A node configuration. */
    method ProcessConfig(c: NodeConfig) returns (rc: int)
      requires Valid() && Configurable(c)
      modifies this`params, this`posSlot, this`slotMap, this`configList
      ensures Valid()
      ensures rc == 0 <==> Supported(c.bitRate) && Accepted(old(params), c)
      ensures params == if Supported(c.bitRate) then Configured(old(params), c) else old(params)
      ensures slotMap == if rc == 0 then AddTable(old(slotMap), c.node, c.table) else old(slotMap)
      ensures configList == if rc == 0 then WithTable(old(configList), c.node, c.table) else old(configList)
      ensures posSlot == if rc == 0 && old(posSlot) == 0 then 1 else old(posSlot)
    {
      if !Supported(c.bitRate) {
        return -1;
      }
      hide Configured, MergeAll, Merge, Accepted, Covered, ShowsConfigs, Sorted, AllSized, AddTable, WithTable;
      CoveredAfterConfig(params, c);
      rc, params := ConfigureParams(params, c);
      if rc != 0 {
        return rc;
      }
      if posSlot == 0 {
        posSlot := 1;
      }
      InstallTable(c.node, c.table);
    }

    /** Push the frame table into the slot map and keep it on the configuration list, unless it is empty. */
    method InstallTable(node: NodeId, table: seq<TableEntry>)
      requires Sorted(slotMap) && AllSized(slotMap) && ShowsConfigs(slotMap, configList)
      modifies this`slotMap, this`configList
      ensures Sorted(slotMap) && AllSized(slotMap) && ShowsConfigs(slotMap, configList)
      ensures slotMap == AddTable(old(slotMap), node, table)
      ensures configList == WithTable(old(configList), node, table)
    {
      hide ShowsConfigs, Sorted, AllSized, AddTable;
      AddConfigShows(slotMap, configList, node, table);
      AddFrames(node, table);
      if table != [] {
        configList := configList + [NodeTable(node, table)];
      }
    }

    /** The first accepted plausible configuration lets the engine run from the start of a cycle. */
    static lemma ConfigRuns(p: Params, s: EngineState, c: NodeConfig)
      requires Plausible(c) && Accepted(p, c) && s.posMt == 0 && s.posSlot == 1
      ensures RunsAt(Configured(p, c), s, c)
    {
      AcceptedRuns(p, c);
      CycleStartOnGrid(Configured(p, c), s);
    }

    /**
     No later configuration, accepted or not, moves a running engine off its timing and grid; but an
     accepted one may leave no bit in a minislot.
     */
    static lemma ConfigKeepsRunning(p: Params, s: EngineState, c: NodeConfig, d: NodeConfig)
      requires Supported(d.bitRate) && RunsAt(p, s, c)
      ensures RunsAt(Configured(p, d), s, c) <==>
              (Accepted(p, d) ==> BitTimeNs(d.bitRate) <= p.minislotLength * MergeAll(p, d).macrotickNs)
    {
      TimingIsFixed(p, c, d);
      StaysValidIff(p, c, d);
    }

    /** Before the first macrotick length is known there is no budget, and afterwards it is fixed. */
    lemma CoveredAfterConfig(p: Params, c: NodeConfig)
      requires Covered(stepBudgetUt, stepBudgetMt, p.macro2micro)
      requires Supported(c.bitRate) && 0 < Merge(p.macrotickPerCycle, c.macrotickPerCycle)
      ensures Covered(stepBudgetUt, stepBudgetMt, Configured(p, c).macro2micro)
    {
    }

    /** Push one LPDU into its slot, creating the slot if needed. */
    method AddFrame(l: Lpdu)
      requires Sorted(slotMap) && AllSized(slotMap) && l.Sized()
      modifies this`slotMap
      ensures Sorted(slotMap) && AllSized(slotMap)
      ensures slotMap == AddLpdu(old(slotMap), l)
    {
      hide InsertSlot, FindSlot;
      var id := l.config.slotId;
      var at := FindSlot(slotMap, id);
      if at < 0 {
        ghost var before := slotMap;
        LpdusAtInsertSlot(slotMap, id, id);
        slotMap := InsertSlot(slotMap, id);
        at := FindSlot(slotMap, id);
        InsertSlotSized(before, id);
      }
      AppendSized(slotMap, at, l);
      slotMap := slotMap[at := slotMap[at].(lpdus := slotMap[at].lpdus + [l])];
    }

    static lemma InsertSlotSized(m: SlotMap, id: nat)
      requires AllSized(m)
      ensures AllSized(InsertSlot(m, id))
    {
      var r := InsertSlot(m, id);
      InsertSlotElements(m, id);
      forall k, j | 0 <= k < |r| && 0 <= j < |r[k].lpdus| ensures r[k].lpdus[j].Sized() {
        assert r[k] in r;
      }
    }

    static lemma AppendSized(m: SlotMap, at: nat, l: Lpdu)
      requires AllSized(m) && at < |m| && l.Sized()
      ensures AllSized(m[at := m[at].(lpdus := m[at].lpdus + [l])])
    {
    }

    /** Push the frame table into the slot map. */
    method AddFrames(node: NodeId, table: seq<TableEntry>)
      requires Sorted(slotMap) && AllSized(slotMap)
      modifies this`slotMap
      ensures Sorted(slotMap) && AllSized(slotMap)
      ensures slotMap == AddTable(old(slotMap), node, table)
    {
      hide AddLpdu, Sorted, AllSized;
      for i := 0 to |table|
        invariant Sorted(slotMap) && AllSized(slotMap)
        invariant slotMap == AddTable(old(slotMap), node, table[..i])
      {
        AddFrame(NewLpdu(node, table[i]));
        assert table[..i + 1][..i] == table[..i];
      }
      assert table[..|table|] == table;
    }

    /** Entering DefaultConfig: delete the LPDUs and the tables of the ECU, last ones first. */
    method EnterDefaultConfig(n: NodeId)
      requires Valid()
      modifies this`slotMap, this`configList
      ensures Valid()
      ensures slotMap == RemoveEcu(old(slotMap), n.ecu)
      ensures configList == WithoutTables(old(configList), n.ecu)
    {
      hide Shows, ConfigIdentities;
      RemoveConfigsShows(slotMap, configList, n.ecu);
      for i := 0 to |slotMap|
        invariant configList == old(configList) && |slotMap| == |old(slotMap)| && AllSized(slotMap)
        invariant forall k :: 0 <= k < |slotMap| ==>
                    slotMap[k] == if k < i then RemoveEcu(old(slotMap), n.ecu)[k] else old(slotMap)[k]
      {
        var lpdus := DeleteLpdus(slotMap[i].lpdus, n.ecu);
        slotMap := slotMap[i := slotMap[i].(lpdus := lpdus)];
      }
      assert slotMap == RemoveEcu(old(slotMap), n.ecu);
      configList := DeleteTables(configList, n.ecu);
    }

    static method DeleteLpdus(was: seq<Lpdu>, ecu: nat) returns (lpdus: seq<Lpdu>)
      ensures lpdus == WithoutEcu(was, ecu)
      ensures (forall k :: 0 <= k < |was| ==> was[k].Sized()) ==> forall k :: 0 <= k < |lpdus| ==> lpdus[k].Sized()
    {
      lpdus := was;
      for j := |lpdus| downto 0
        invariant j <= |lpdus| && lpdus[..j] == was[..j]
        invariant lpdus[j..] == WithoutEcu(was[j..], ecu)
        invariant (forall k :: 0 <= k < |was| ==> was[k].Sized()) ==> forall k :: 0 <= k < |lpdus| ==> lpdus[k].Sized()
      {
        assert was[j..][1..] == was[j + 1..] && lpdus[..j + 1][j] == was[..j + 1][j];
        assert lpdus[..j] == lpdus[..j + 1][..j] && was[..j] == was[..j + 1][..j];
        if lpdus[j].node.ecu == ecu {
          ghost var tail := lpdus[j + 1..];
          lpdus := lpdus[..j] + lpdus[j + 1..];
          assert lpdus[j..] == tail;
        } else {
          assert lpdus[j..] == [lpdus[j]] + lpdus[j + 1..];
        }
      }
      assert lpdus[0..] == lpdus && was[0..] == was;
    }

    static method DeleteTables(was: seq<NodeTable>, ecu: nat) returns (configs: seq<NodeTable>)
      ensures configs == WithoutTables(was, ecu)
    {
      configs := was;
      for j := |configs| downto 0
        invariant j <= |configs| && configs[..j] == was[..j]
        invariant configs[j..] == WithoutTables(was[j..], ecu)
      {
        assert was[j..][1..] == was[j + 1..] && configs[..j + 1][j] == was[..j + 1][j];
        assert configs[..j] == configs[..j + 1][..j] && was[..j] == was[..j + 1][..j];
        if configs[j].node.ecu == ecu {
          ghost var tail := configs[j + 1..];
          configs := configs[..j] + configs[j + 1..];
          assert configs[j..] == tail;
        } else {
          assert configs[j..] == [configs[j]] + configs[j + 1..];
        }
      }
      assert configs[0..] == configs && was[0..] == was;
    }

    // -------------------------------------------------------------------------------------------
    // Node states
    // -------------------------------------------------------------------------------------------

    method RegisterNodeState(n: NodeId, pwrOn: bool, pwrOff: bool)
      modifies this`nodeStates
      ensures nodeStates == Register(old(nodeStates), n, pwrOn, pwrOff)
      ensures old(Ordered(nodeStates)) ==> Ordered(nodeStates) && FindNode(nodeStates, Consolidated(n)) >= 0
    {
      var id := Consolidated(n);
      var i := FindNode(nodeStates, id);
      if Ordered(nodeStates) { RegisterOrdered(nodeStates, n, pwrOn, pwrOff); }
      if i < 0 {
        var tcvr := NoConnection;
        if pwrOn {
          tcvr := NoConnection;
        } else if pwrOff {
          tcvr := NoPower;
        }
        nodeStates := InsertNode(nodeStates, NodeState(id, DefaultConfig, tcvr));
      } else {
        if pwrOn {
          nodeStates := nodeStates[i := nodeStates[i].(tcvr := NoConnection)];
        } else if pwrOff {
          nodeStates := nodeStates[i := nodeStates[i].(tcvr := NoPower)];
        }
      }
    }

    method RegisterVcnNodes(vcns: seq<NodeId>)
      modifies this`vcsNodes
      ensures vcsNodes == RegisterVcns(old(vcsNodes), vcns)
    {
      for i := 0 to |vcns|
        invariant vcsNodes == RegisterVcns(old(vcsNodes), vcns[..i])
      {
        if FindNode(vcsNodes, vcns[i]) < 0 {
          vcsNodes := InsertNode(vcsNodes, NodeState(vcns[i], DefaultConfig, FrameSync));
        }
        assert vcns[..i + 1][..i] == vcns[..i];
      }
      assert vcns[..|vcns|] == vcns;
    }

    method SetPocState(n: NodeId, poc: PocState)
      modifies this`nodeStates
      ensures nodeStates == SetPoc(old(nodeStates), n, poc)
    {
      var i := FindNode(nodeStates, Consolidated(n));
      if i >= 0 {
        nodeStates := nodeStates[i := nodeStates[i].(poc := poc)];
        nodeStates := nodeStates[i := SetTransceiver(nodeStates[i])];
      }
    }

    /** A command from a node. Leaving Halt releases the configuration of its ECU. */
    method PushNodeState(n: NodeId, command: PocCommand)
      requires Valid()
      modifies this`nodeStates, this`slotMap, this`configList
      ensures Valid()
      ensures nodeStates == PushCommand(old(nodeStates), n, command)
      ensures var i := FindNode(old(nodeStates), Consolidated(n));
              if i >= 0 && EntersDefaultConfig(old(nodeStates)[i], command)
              then slotMap == RemoveEcu(old(slotMap), n.ecu) && configList == WithoutTables(old(configList), n.ecu)
              else slotMap == old(slotMap) && configList == old(configList)
    {
      var i := FindNode(nodeStates, Consolidated(n));
      if i < 0 {
        return;
      }
      if !command.CommandNone? {
        var leavesHalt := EntersDefaultConfig(nodeStates[i], command);
        nodeStates := nodeStates[i := nodeStates[i].(poc := PocAfter(nodeStates[i].poc, command))];
        if leavesHalt {
          EnterDefaultConfig(nodeStates[i].node);
        }
        nodeStates := nodeStates[i := SetTransceiver(nodeStates[i])];
      }
      nodeStates := nodeStates[i := SetTransceiver(nodeStates[i])];
    }

    method SetNodePower(n: NodeId, on: bool)
      modifies this`nodeStates
      ensures nodeStates == SetPower(old(nodeStates), n, on)
    {
      var i := FindNode(nodeStates, Consolidated(n));
      if i >= 0 {
        if on && nodeStates[i].tcvr.NoPower? {
          nodeStates := nodeStates[i := nodeStates[i].(tcvr := NoConnection, poc := DefaultConfig)];
        } else if !on {
          nodeStates := nodeStates[i := nodeStates[i].(tcvr := NoPower, poc := DefaultConfig)];
        }
      }
    }

    static method CountFrameSync(nodes: seq<NodeState>) returns (n: nat)
      ensures n == CountSync(nodes)
    {
      n := 0;
      for i := 0 to |nodes|
        invariant n == CountSync(nodes[..i])
      {
        assert nodes[..i + 1][..i] == nodes[..i];
        if nodes[i].tcvr.FrameSync? {
          n := n + 1;
        }
      }
      assert nodes[..|nodes|] == nodes;
    }

    method CalculateBusCondition()
      modifies this`busCondition, this`nodeStates
      ensures busCondition == Condition(old(Sources(BusState(nodeStates, vcsNodes))))
      ensures nodeStates == old(Handle(BusState(nodeStates, vcsNodes), FlexrayPoc.Progress).nodes)
    {
      var vcnCount := CountFrameSync(vcsNodes);
      var nodeCount := CountFrameSync(nodeStates);
      var count := vcnCount + nodeCount;
      if count == 0 {
        busCondition := NoSignal;
      } else if count == 1 {
        busCondition := FrameError;
        for i := 0 to |nodeStates|
          invariant busCondition == FrameError && |nodeStates| == |old(nodeStates)|
          invariant forall k :: 0 <= k < |nodeStates| ==>
                      nodeStates[k] == if k < i then PushPassive(old(nodeStates)[k]) else old(nodeStates)[k]
        {
          if nodeStates[i].poc.NormalActive? {
            nodeStates := nodeStates[i := nodeStates[i].(poc := NormalPassive)];
            nodeStates := nodeStates[i := SetTransceiver(nodeStates[i])];
          }
        }
        assert nodeStates == AfterCondition(old(nodeStates), 1);
      } else {
        busCondition := FrameSync;
      }
    }

    // -------------------------------------------------------------------------------------------
    // Bus model interface
    // -------------------------------------------------------------------------------------------

    static lemma PlausibleSupported(c: NodeConfig)
      requires Plausible(c)
      ensures Supported(c.bitRate) && 0 < c.macrotickPerCycle
    {
    }

    /** A configuration PDU: merge it, then register the node and set its POC state, even if it did not merge. */
    method ConsumeConfig(c: NodeConfig, vcns: seq<NodeId>, initialPoc: PocState)
      requires Valid() && Configurable(c)
      modifies this`params, this`posSlot, this`slotMap, this`configList, this`nodeStates, this`vcsNodes
      ensures Valid()
      ensures Plausible(c) && Accepted(old(params), c) && old(posMt == 0 && posSlot <= 1) ==> Running(c)
      ensures params == if Supported(c.bitRate) then Configured(old(params), c) else old(params)
      ensures if Supported(c.bitRate) && Accepted(old(params), c) then
                && slotMap == AddTable(old(slotMap), c.node, c.table)
                && configList == WithTable(old(configList), c.node, c.table)
                && posSlot == (if old(posSlot) == 0 then 1 else old(posSlot))
              else
                slotMap == old(slotMap) && configList == old(configList) && posSlot == old(posSlot)
      ensures BusState(nodeStates, vcsNodes)
              == Handle(old(BusState(nodeStates, vcsNodes)), ConfigPdu(c.node, vcns, initialPoc))
    {
      hide Configured, Accepted, MergeAll, Merge, ShowsConfigs, Sorted, AllSized, RunsAt, Plausible, Covered;
      hide AddTable, WithTable;
      hide Register, RegisterVcns, SetPoc;
      var _ := ProcessConfig(c);
      if Plausible(c) {
        PlausibleSupported(c);
        if Accepted(old(params), c) && old(posMt == 0 && posSlot <= 1) {
          ConfigRuns(old(params), Engine(), c);
        }
      }
      RegisterVcnNodes(vcns);
      RegisterNodeState(c.node, true, false);
      SetPocState(c.node, initialPoc);
    }

    /**
     One simulation step. The engine moves only on a synchronised bus, and then exactly as far as
     the granted microticks reach.
     */
    method Progress(grant: nat)
      requires Valid() && (params.macrotickNs != 0 && params.macro2micro != 0 ==> ValidParams(params))
      modifies this
      ensures Valid() && params == old(params) && configList == old(configList)
      ensures forall c :: old(Running(c)) ==> Running(c)
      ensures BusState(nodeStates, vcsNodes) == Handle(old(BusState(nodeStates, vcsNodes)), FlexrayPoc.Progress)
      ensures busCondition == Condition(old(Sources(BusState(nodeStates, vcsNodes))))
      ensures if busCondition == FrameSync && params.macrotickNs != 0 && params.macro2micro != 0 then
                var r := Run(params, nodeIdent, old(Engine()), old(stepBudgetUt) + grant);
                && Engine() == r.state && stepBudgetUt == r.budget && log == old(log) + r.log
                && txrxList == InformList(r.log)
              else
                Engine() == old(Engine()) && stepBudgetUt == old(stepBudgetUt) && log == old(log)
                && txrxList == old(txrxList)
    {
      hide Run, Shows, OnGrid, RunsOn, Plausible, ValidParams;
      CalculateBusCondition();
      if busCondition.FrameSync? {
        var rc := CalculateBudget(grant);
        if rc == 0 {
          if OnGrid(params, Engine()) { Conservation(params, nodeIdent, Engine(), stepBudgetUt); }
          ConsumeAll();
        }
      }
    }
  }
}
