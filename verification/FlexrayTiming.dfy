/**
 The FlexRay cycle as a function of time.

 The bus is granted microticks and spends them slot by slot: static slots, dynamic slots whose width
 depends on the pending transmissions, and the idle remainder of the cycle. `Run` is what a grant
 buys; `FlexrayBusModel.BusModel.Progress` is proved to compute it. Everything about whole runs is
 proved here.
 */
module FlexrayTiming {
  import opened Bytes
  import opened Arithmetic
  import opened FlexrayLpdu
  import opened FlexraySlotMap

  const MAX_CYCLE := 64

  datatype Params = Params(
    microtickPerCycle: nat,
    macrotickPerCycle: nat,
    staticSlotLength: nat,
    staticSlotCount: nat,
    minislotLength: nat,
    minislotCount: nat,
    staticSlotPayloadLength: nat,
    macro2micro: nat,
    microtickNs: nat,
    macrotickNs: nat,
    offsetStatic: nat,
    offsetDynamic: nat,
    offsetNetwork: nat,
    bitsPerMinislot: nat,
    inhibitNullFrames: bool)

  /** The segments of a configured cycle lie one behind the other inside the cycle. */
  predicate ValidParams(p: Params) {
    && 0 < p.macrotickPerCycle
    && 0 < p.macro2micro == p.microtickPerCycle / p.macrotickPerCycle
    && 0 < p.staticSlotLength
    && 0 < p.minislotLength
    && 0 < p.bitsPerMinislot
    && p.staticSlotLength * p.staticSlotCount == p.offsetDynamic <= p.offsetNetwork <= p.macrotickPerCycle
  }

  /** `cycles` counts the completed cycles without the wrap of `posCycle`; only the proofs need it. */
  datatype EngineState = EngineState(
    posMt: nat,
    posSlot: nat,
    posCycle: nat,
    cycles: nat,
    slotMap: SlotMap)

  /**
   One consumed static or dynamic slot of the cycle `cycle`, in which the cycle counter shows `counter`;
   `informed` are the LPDUs that it puts on the inform list.
   */
  datatype SlotEntry = SlotEntry(
    cycle: nat,
    counter: nat,
    slot: nat,
    mt: nat,
    width: nat,
    processed: bool,
    sender: Option<nat>,
    informed: seq<nat>)

  /** Inform list entries name an LPDU by slot id and index. */
  function Tagged(slot: nat, indices: seq<nat>): (r: seq<(nat, nat)>)
    ensures |r| == |indices|
  {
    seq(|indices|, i requires 0 <= i < |indices| => (slot, indices[i]))
  }

  /** The inform list that the slots of a log leave behind. */
  function InformList(log: seq<SlotEntry>): seq<(nat, nat)> {
    if log == [] then [] else Tagged(log[0].slot, log[0].informed) + InformList(log[1..])
  }

  lemma {:induction false} InformListConcat(a: seq<SlotEntry>, b: seq<SlotEntry>)
    ensures InformList(a + b) == InformList(a) + InformList(b)
  {
    if a == [] {
      assert a + b == b;
    } else {
      assert (a + b)[1..] == a[1..] + b;
      InformListConcat(a[1..], b);
    }
  }

  predicate InStatic(p: Params, s: EngineState) {
    s.posMt < p.offsetDynamic
  }

  predicate InDynamic(p: Params, s: EngineState) {
    p.offsetDynamic <= s.posMt < p.offsetNetwork
  }

  predicate AtEnd(p: Params, s: EngineState) {
    p.offsetDynamic <= s.posMt && p.offsetNetwork <= s.posMt
  }

  /** Minislots that 40 header bits and the payload occupy, rounded up. */
  function TxMinislots(p: Params, payloadLength: byte): (r: nat)
    requires 0 < p.bitsPerMinislot
    ensures (r - 1) * p.bitsPerMinislot < 40 + 8 * payloadLength <= r * p.bitsPerMinislot
  {
    var bits := 40 + payloadLength * 8 + p.bitsPerMinislot - 1;
    CeilingDivision(40 + 8 * payloadLength, p.bitsPerMinislot);
    bits / p.bitsPerMinislot
  }

  lemma CeilingDivision(a: nat, d: nat)
    requires 0 < a && 0 < d
    ensures var r := (a + d - 1) / d; (r - 1) * d < a <= r * d
  {
    var n := a + d - 1;
    assert n == (n / d) * d + n % d;
    assert (n / d - 1) * d == (n / d) * d - d;
  }

  /** Width of a dynamic slot in macroticks: one minislot, or what its last pending sender needs. */
  function DynamicWidth(p: Params, lpdus: seq<Lpdu>): (r: nat)
    requires ValidParams(p)
    ensures 0 < r
    ensures !HasPending(lpdus) ==> r == p.minislotLength
  {
    if lpdus == [] then
      p.minislotLength
    else
      var last := lpdus[|lpdus| - 1];
      if last.PendingTx() then
        MulPositive(TxMinislots(p, last.config.payloadLength), p.minislotLength);
        TxMinislots(p, last.config.payloadLength) * p.minislotLength
      else
        assert HasPending(lpdus[..|lpdus| - 1]) ==> HasPending(lpdus);
        DynamicWidth(p, lpdus[..|lpdus| - 1])
  }

  /** Macroticks that the next step moves over. */
  function NeedMt(p: Params, s: EngineState): nat
    requires ValidParams(p)
  {
    if InStatic(p, s) then p.staticSlotLength
    else if InDynamic(p, s) then
      var width := DynamicWidth(p, LpdusAt(s.slotMap, s.posSlot));
      if width + s.posMt > p.macrotickPerCycle then p.macrotickPerCycle - s.posMt else width
    else 0
  }

  /** Microticks that the next step costs. */
  function NeedUt(p: Params, s: EngineState): nat
    requires ValidParams(p)
  {
    if !AtEnd(p, s) then NeedMt(p, s) * p.macro2micro
    else if s.posMt * p.macro2micro < p.microtickPerCycle then p.microtickPerCycle - s.posMt * p.macro2micro
    else 0
  }

  function ContextOf(p: Params, node: NodeId, s: EngineState): SlotContext {
    SlotContext(node, s.posCycle, s.posMt, p.offsetDynamic, p.offsetNetwork, p.inhibitNullFrames)
  }

  /** The slot map after process_slot at the current position. */
  function MapAfterSlot(p: Params, node: NodeId, s: EngineState): SlotMap {
    WithLpdus(s.slotMap, s.posSlot, SlotAfter(ContextOf(p, node, s), LpdusAt(s.slotMap, s.posSlot)))
  }

  /** Whether the step runs process_slot: always in a static slot, only when pending in a dynamic one. */
  predicate Processes(p: Params, s: EngineState) {
    InStatic(p, s) || (InDynamic(p, s) && HasPending(LpdusAt(s.slotMap, s.posSlot)))
  }

  /** The state after the next step, paid for. */
  function Step(p: Params, node: NodeId, s: EngineState): EngineState
    requires ValidParams(p)
  {
    if AtEnd(p, s) then
      EngineState(0, 1, (s.posCycle + 1) % MAX_CYCLE, s.cycles + 1, s.slotMap)
    else
      s.(posMt := s.posMt + NeedMt(p, s),
         posSlot := s.posSlot + 1,
         slotMap := if Processes(p, s) then MapAfterSlot(p, node, s) else s.slotMap)
  }

  /** The LPDU index that the step transmits, if any. */
  function SenderOf(p: Params, node: NodeId, s: EngineState): Option<nat> {
    var x, lpdus := ContextOf(p, node, s), LpdusAt(s.slotMap, s.posSlot);
    if Processes(p, s) && Sends(x, lpdus) then Some(ChosenTx(x, lpdus)) else None
  }

  /** The LPDUs that the step puts on the inform list. */
  function InformedBy(p: Params, node: NodeId, s: EngineState): seq<nat> {
    if Processes(p, s) then Informed(ContextOf(p, node, s), LpdusAt(s.slotMap, s.posSlot)) else []
  }

  function StepLog(p: Params, node: NodeId, s: EngineState): seq<SlotEntry>
    requires ValidParams(p)
  {
    if AtEnd(p, s) then []
    else
      [SlotEntry(s.cycles, s.posCycle, s.posSlot, s.posMt, NeedMt(p, s),
                 Processes(p, s), SenderOf(p, node, s), InformedBy(p, node, s))]
  }

  datatype RunResult = RunResult(state: EngineState, budget: nat, log: seq<SlotEntry>)

  lemma WholeCyclePaid(p: Params)
    requires ValidParams(p)
    ensures 0 < p.microtickPerCycle
    ensures p.macrotickPerCycle * p.macro2micro <= p.microtickPerCycle
  {
    assert p.microtickPerCycle ==
      p.macrotickPerCycle * (p.microtickPerCycle / p.macrotickPerCycle) + p.microtickPerCycle % p.macrotickPerCycle;
    MulPositive(p.macrotickPerCycle, p.macro2micro);
  }

  /** Set where the next step may cost nothing. */
  function EndFlag(p: Params, s: EngineState): nat {
    if AtEnd(p, s) && 0 < s.posMt then 1 else 0
  }

  /** Only the step at the end of a cycle can be free, and then it leaves the end. */
  lemma StepIsPaid(p: Params, node: NodeId, s: EngineState)
    requires ValidParams(p)
    ensures 0 < NeedUt(p, s) || EndFlag(p, Step(p, node, s)) < EndFlag(p, s)
    ensures !AtEnd(p, s) ==> 0 < NeedMt(p, s)
  {
    WholeCyclePaid(p);
    if !AtEnd(p, s) {
      MulPositive(NeedMt(p, s), p.macro2micro);
    }
  }

  /**
   What `budget` microticks buy: steps until the next one does not fit. The measure is the budget,
   and then whether the cycle is at its end, since that step may cost nothing.
   A cycle without any slot (network idle from macrotick 0) costs a whole cycle in one step.
   */
  function Run(p: Params, node: NodeId, s: EngineState, budget: nat): RunResult
    requires ValidParams(p)
    decreases budget, EndFlag(p, s)
  {
    if NeedUt(p, s) > budget then
      RunResult(s, budget, [])
    else
      StepIsPaid(p, node, s);
      var rest := Run(p, node, Step(p, node, s), budget - NeedUt(p, s));
      RunResult(rest.state, rest.budget, StepLog(p, node, s) + rest.log)
  }

  lemma RunStops(p: Params, node: NodeId, s: EngineState, budget: nat)
    requires ValidParams(p) && NeedUt(p, s) > budget
    ensures Run(p, node, s, budget) == RunResult(s, budget, [])
  {
  }

  lemma RunSteps(p: Params, node: NodeId, s: EngineState, budget: nat)
    requires ValidParams(p) && NeedUt(p, s) <= budget
    ensures var rest := Run(p, node, Step(p, node, s), budget - NeedUt(p, s));
            Run(p, node, s, budget) == RunResult(rest.state, rest.budget, StepLog(p, node, s) + rest.log)
    ensures 0 < NeedUt(p, s) || EndFlag(p, Step(p, node, s)) < EndFlag(p, s)
  {
    hide Step, NeedUt, StepLog;
    StepIsPaid(p, node, s);
  }

  // ---------------------------------------------------------------------------------------------
  // Splitting time into steps
  // ---------------------------------------------------------------------------------------------

  lemma ConcatAssoc<T>(a: seq<T>, b: seq<T>, c: seq<T>)
    ensures a + (b + c) == (a + b) + c
  {
  }

  /** How a simulation run is cut into steps does not matter: granting a, then b, is granting a + b. */
  lemma {:induction false} SplitInvariance(p: Params, node: NodeId, s: EngineState, a: nat, b: nat)
    requires ValidParams(p)
    ensures var first := Run(p, node, s, a);
            var second := Run(p, node, first.state, first.budget + b);
            Run(p, node, s, a + b) == RunResult(second.state, second.budget, first.log + second.log)
    decreases a, EndFlag(p, s)
  {
    hide Run, Step, NeedUt, StepLog;
    if NeedUt(p, s) > a {
      RunStops(p, node, s, a);
    } else {
      var next, need := Step(p, node, s), NeedUt(p, s);
      RunSteps(p, node, s, a);
      RunSteps(p, node, s, a + b);
      assert a + b - need == a - need + b;
      SplitInvariance(p, node, next, a - need, b);
      var first := Run(p, node, next, a - need);
      ConcatAssoc(StepLog(p, node, s), first.log, Run(p, node, first.state, first.budget + b).log);
    }
  }

  function Sum(grants: seq<nat>): nat {
    if grants == [] then 0 else grants[0] + Sum(grants[1..])
  }

  /** One simulation step after the other, each granting its microticks on top of what is left. */
  function RunGrants(p: Params, node: NodeId, s: EngineState, budget: nat, grants: seq<nat>): RunResult
    requires ValidParams(p)
    decreases |grants|
  {
    if grants == [] then
      RunResult(s, budget, [])
    else
      var first := Run(p, node, s, budget + grants[0]);
      var rest := RunGrants(p, node, first.state, first.budget, grants[1..]);
      RunResult(rest.state, rest.budget, first.log + rest.log)
  }

  /** Any schedule of grants does exactly what a single grant of their sum does. */
  lemma {:induction false} ManySteps(p: Params, node: NodeId, s: EngineState, budget: nat, grants: seq<nat>)
    requires ValidParams(p) && grants != []
    ensures RunGrants(p, node, s, budget, grants) == Run(p, node, s, budget + Sum(grants))
    decreases |grants|
  {
    hide Run;
    var first := Run(p, node, s, budget + grants[0]);
    SplitInvariance(p, node, s, budget + grants[0], Sum(grants[1..]));
    if |grants| == 1 {
      assert Sum(grants[1..]) == 0;
      assert RunGrants(p, node, first.state, first.budget, grants[1..]).log == [];
      assert first.log + [] == first.log;
    } else {
      ManySteps(p, node, first.state, first.budget, grants[1..]);
      assert budget + grants[0] + Sum(grants[1..]) == budget + Sum(grants);
    }
  }

  // ---------------------------------------------------------------------------------------------
  // The slot grid
  // ---------------------------------------------------------------------------------------------

  /** On the slot grid: inside the cycle, static slots at their places, dynamic slots numbered above. */
  predicate OnGrid(p: Params, s: EngineState) {
    && 1 <= s.posSlot
    && s.posMt <= p.macrotickPerCycle
    && (InStatic(p, s) ==> s.posSlot <= p.staticSlotCount && s.posMt == (s.posSlot - 1) * p.staticSlotLength)
    && (!InStatic(p, s) ==> p.staticSlotCount < s.posSlot)
  }

  lemma SlotStart(k: nat, length: nat)
    requires 1 <= k
    ensures (k - 1) * length + length == k * length
  {
  }

  lemma CycleStartOnGrid(p: Params, s: EngineState)
    requires ValidParams(p) && s.posMt == 0 && s.posSlot == 1
    ensures OnGrid(p, s)
  {
    if InStatic(p, s) {
      MulZero(p.staticSlotLength);
    } else {
      if p.staticSlotCount > 0 { MulPositive(p.staticSlotLength, p.staticSlotCount); }
    }
  }

  lemma StepOnGrid(p: Params, node: NodeId, s: EngineState)
    requires ValidParams(p) && OnGrid(p, s)
    ensures OnGrid(p, Step(p, node, s))
    ensures s.posMt + NeedMt(p, s) <= p.macrotickPerCycle
  {
    if AtEnd(p, s) {
      CycleStartOnGrid(p, Step(p, node, s));
    } else if InStatic(p, s) {
      NextStaticSlot(s.posSlot, p.staticSlotCount, p.staticSlotLength);
    }
  }

  lemma NextStaticSlot(slot: nat, count: nat, length: nat)
    requires 1 <= slot <= count && 0 < length
    ensures (slot - 1) * length + length == slot * length <= count * length
    ensures slot * length < count * length <==> slot < count
  {
    SlotStart(slot, length);
    if slot < count { MulLess(slot, count, length); }
  }

  /** An adopted cycle position in the static segment is on the grid exactly when it is a slot boundary. */
  lemma ShiftOnGrid(p: Params, mt: nat, s: EngineState)
    requires ValidParams(p) && mt < p.offsetDynamic
    requires s.posMt == mt && s.posSlot == mt / p.staticSlotLength + 1
    ensures OnGrid(p, s) <==> mt % p.staticSlotLength == 0
  {
    var q := mt / p.staticSlotLength;
    assert mt == q * p.staticSlotLength + mt % p.staticSlotLength;
    assert mt < p.staticSlotCount * p.staticSlotLength;
    MulStrict(q, p.staticSlotCount, p.staticSlotLength);
  }

  // ---------------------------------------------------------------------------------------------
  // Conservation of time
  // ---------------------------------------------------------------------------------------------

  /** Microticks that have passed on the bus. */
  function Elapsed(p: Params, s: EngineState): nat {
    s.cycles * p.microtickPerCycle + s.posMt * p.macro2micro
  }

  lemma PositionInCycle(p: Params, s: EngineState)
    requires ValidParams(p) && OnGrid(p, s)
    ensures s.posMt * p.macro2micro <= p.microtickPerCycle
    ensures s.posMt * p.macro2micro + NeedUt(p, s) <= p.microtickPerCycle
  {
    WholeCyclePaid(p);
    MulMono(s.posMt, p.macrotickPerCycle, p.macro2micro);
    if !AtEnd(p, s) {
      StepOnGrid(p, NodeId(0, 0, 0), s);
      MulMono(s.posMt + NeedMt(p, s), p.macrotickPerCycle, p.macro2micro);
      MulPlus(s.posMt, NeedMt(p, s), p.macro2micro);
    }
  }

  lemma StepConserves(p: Params, node: NodeId, s: EngineState)
    requires ValidParams(p) && OnGrid(p, s)
    ensures Elapsed(p, Step(p, node, s)) == Elapsed(p, s) + NeedUt(p, s)
  {
    PositionInCycle(p, s);
    hide NeedMt, OnGrid, ValidParams, MapAfterSlot;
    MulPlus(s.cycles, 1, p.microtickPerCycle);
    MulPlus(s.posMt, NeedMt(p, s), p.macro2micro);
    MulZero(p.macro2micro);
  }

  /** No microtick is lost or invented, and what is left over does not pay for the next step. */
  lemma {:induction false} Conservation(p: Params, node: NodeId, s: EngineState, budget: nat)
    requires ValidParams(p) && OnGrid(p, s)
    ensures var r := Run(p, node, s, budget);
            && OnGrid(p, r.state)
            && Elapsed(p, r.state) + r.budget == Elapsed(p, s) + budget
            && r.budget < NeedUt(p, r.state)
    decreases budget, EndFlag(p, s)
  {
    hide Run, Step, NeedUt, StepLog, Elapsed, OnGrid;
    if NeedUt(p, s) > budget {
      RunStops(p, node, s, budget);
    } else {
      RunSteps(p, node, s, budget);
      StepOnGrid(p, node, s);
      StepConserves(p, node, s);
      Conservation(p, node, Step(p, node, s), budget - NeedUt(p, s));
    }
  }

  /**
   Every cycle takes exactly `microtickPerCycle`, although a macrotick is a rounded-down number of
   microticks: the completed cycles are the quotient of the elapsed time by the cycle time, and the
   position in the cycle together with the unspent budget is the remainder.
   */
  lemma CycleTime(p: Params, node: NodeId, s: EngineState, budget: nat)
    requires ValidParams(p) && OnGrid(p, s)
    ensures var r := Run(p, node, s, budget);
            var t := Elapsed(p, s) + budget;
            && r.state.cycles == t / p.microtickPerCycle
            && r.state.posMt * p.macro2micro + r.budget == t % p.microtickPerCycle
            && r.budget < p.microtickPerCycle
  {
    hide Run, OnGrid;
    var r := Run(p, node, s, budget);
    WholeCyclePaid(p);
    Conservation(p, node, s, budget);
    PositionInCycle(p, r.state);
    DivisionIsUnique(Elapsed(p, s) + budget, p.microtickPerCycle, r.state.cycles,
                     r.state.posMt * p.macro2micro + r.budget);
  }

  /** Between `s` and `t` the cycle counter has counted the completed cycles, modulo 64. */
  predicate Counted(s: EngineState, t: EngineState) {
    s.cycles <= t.cycles && t.posCycle == (s.posCycle + (t.cycles - s.cycles)) % MAX_CYCLE
  }

  lemma CountedReflexive(s: EngineState)
    requires s.posCycle < MAX_CYCLE
    ensures Counted(s, s)
  {
  }

  lemma CountedTransitive(s: EngineState, t: EngineState, u: EngineState)
    requires Counted(s, t) && Counted(t, u)
    ensures Counted(s, u)
  {
  }

  lemma StepCounted(p: Params, node: NodeId, s: EngineState)
    requires ValidParams(p) && s.posCycle < MAX_CYCLE
    ensures Counted(s, Step(p, node, s)) && Step(p, node, s).posCycle < MAX_CYCLE
  {
  }

  /** The cycle counter on the bus counts the completed cycles, modulo 64. */
  lemma {:induction false} CycleCounter(p: Params, node: NodeId, s: EngineState, budget: nat)
    requires ValidParams(p) && s.posCycle < MAX_CYCLE
    ensures Counted(s, Run(p, node, s, budget).state)
    decreases budget, EndFlag(p, s)
  {
    hide Run, Step, NeedUt, StepLog, Counted;
    if NeedUt(p, s) > budget {
      RunStops(p, node, s, budget);
      CountedReflexive(s);
    } else {
      var next := Step(p, node, s);
      RunSteps(p, node, s, budget);
      StepCounted(p, node, s);
      CycleCounter(p, node, next, budget - NeedUt(p, s));
      CountedTransitive(s, next, Run(p, node, s, budget).state);
    }
  }

  // ---------------------------------------------------------------------------------------------
  // Slot order
  // ---------------------------------------------------------------------------------------------

  /** A log entry is in its segment and inside the cycle. */
  predicate EntryInPlace(p: Params, e: SlotEntry) {
    && 1 <= e.slot && 0 < e.width
    && e.mt + e.width <= p.macrotickPerCycle
    && (e.slot <= p.staticSlotCount ==>
          e.processed && e.width == p.staticSlotLength && e.mt == (e.slot - 1) * p.staticSlotLength)
    && (p.staticSlotCount < e.slot ==> p.offsetDynamic <= e.mt < p.offsetNetwork)
  }

  /** One entry is over before the other one starts, in an earlier cycle or under a smaller slot id. */
  predicate Before(e: SlotEntry, f: SlotEntry) {
    e.cycle < f.cycle || (e.cycle == f.cycle && e.slot < f.slot && e.mt + e.width <= f.mt)
  }

  predicate InOrder(p: Params, log: seq<SlotEntry>) {
    && (forall i :: 0 <= i < |log| ==> EntryInPlace(p, log[i]))
    && (forall i, j :: 0 <= i < j < |log| ==> Before(log[i], log[j]))
  }

  /** Not started before the position of `s`. */
  predicate NotBefore(s: EngineState, e: SlotEntry) {
    s.cycles < e.cycle || (s.cycles == e.cycle && s.posSlot <= e.slot && s.posMt <= e.mt)
  }

  /** A step logs at most one entry, in place, that is over before the position of the next step. */
  lemma StepInOrder(p: Params, node: NodeId, s: EngineState)
    requires ValidParams(p) && OnGrid(p, s)
    ensures var log, next := StepLog(p, node, s), Step(p, node, s);
            && |log| <= 1
            && (forall i :: 0 <= i < |log| ==> EntryInPlace(p, log[i]) && NotBefore(s, log[i]))
            && (forall i, e :: 0 <= i < |log| && NotBefore(next, e) ==> Before(log[i], e))
            && (forall e :: NotBefore(next, e) ==> NotBefore(s, e))
  {
    StepIsPaid(p, node, s);
    StepOnGrid(p, node, s);
    hide ValidParams, NeedMt, NeedUt, MapAfterSlot, SenderOf, InformedBy, HasPending, LpdusAt;
  }

  /**
   Slot order. Slots are consumed in strictly ascending order within a cycle, none overlaps another
   or reaches past the cycle, and every static slot is processed at its place on the grid.
   */
  lemma {:induction false} SlotOrder(p: Params, node: NodeId, s: EngineState, budget: nat)
    requires ValidParams(p) && OnGrid(p, s)
    ensures InOrder(p, Run(p, node, s, budget).log)
    ensures forall i :: 0 <= i < |Run(p, node, s, budget).log| ==> NotBefore(s, Run(p, node, s, budget).log[i])
    decreases budget, EndFlag(p, s)
  {
    hide Run, Step, NeedUt, StepLog, OnGrid;
    if NeedUt(p, s) > budget {
      RunStops(p, node, s, budget);
    } else {
      RunSteps(p, node, s, budget);
      StepOnGrid(p, node, s);
      StepInOrder(p, node, s);
      SlotOrder(p, node, Step(p, node, s), budget - NeedUt(p, s));
    }
  }

  predicate Logged(log: seq<SlotEntry>, cycle: nat, slot: nat) {
    exists i :: 0 <= i < |log| && log[i].cycle == cycle && log[i].slot == slot
  }

  /** Slot `slot` of cycle `cycle` lies between the positions of `s` and `t`. */
  predicate Passed(s: EngineState, cycle: nat, slot: nat, t: EngineState) {
    && (s.cycles < cycle || (s.cycles == cycle && s.posSlot <= slot))
    && (cycle < t.cycles || (cycle == t.cycles && slot < t.posSlot))
  }

  predicate StepLogs(p: Params, node: NodeId, s: EngineState, cycle: nat, slot: nat)
    requires ValidParams(p)
  {
    !AtEnd(p, s) && s.cycles == cycle && s.posSlot == slot
  }

  /** A step that does not log the slot does not move past it either. */
  lemma StepPasses(p: Params, node: NodeId, s: EngineState, cycle: nat, slot: nat)
    requires ValidParams(p) && OnGrid(p, s) && 1 <= slot <= p.staticSlotCount && !StepLogs(p, node, s, cycle, slot)
    ensures s.cycles < cycle || (s.cycles == cycle && s.posSlot <= slot) ==>
              var next := Step(p, node, s);
              next.cycles < cycle || (next.cycles == cycle && next.posSlot <= slot)
  {
  }

  lemma LoggedLater(a: seq<SlotEntry>, b: seq<SlotEntry>, cycle: nat, slot: nat)
    requires Logged(b, cycle, slot)
    ensures Logged(a + b, cycle, slot)
  {
    var i :| 0 <= i < |b| && b[i].cycle == cycle && b[i].slot == slot;
    assert (a + b)[|a| + i] == b[i];
  }

  /** No static slot is skipped: every one that lies between start and end of the run is on the log. */
  lemma {:induction false} NoStaticSlotSkipped(
      p: Params, node: NodeId, s: EngineState, budget: nat, cycle: nat, slot: nat)
    requires ValidParams(p) && OnGrid(p, s) && 1 <= slot <= p.staticSlotCount
    requires Passed(s, cycle, slot, Run(p, node, s, budget).state)
    ensures Logged(Run(p, node, s, budget).log, cycle, slot)
    decreases budget, EndFlag(p, s)
  {
    hide Run, NeedUt, OnGrid;
    if NeedUt(p, s) > budget {
      RunStops(p, node, s, budget);
    } else {
      var next, left := Step(p, node, s), budget - NeedUt(p, s);
      RunSteps(p, node, s, budget);
      if StepLogs(p, node, s, cycle, slot) {
        assert Run(p, node, s, budget).log[0] == StepLog(p, node, s)[0];
      } else {
        StepOnGrid(p, node, s);
        StepPasses(p, node, s, cycle, slot);
        NoStaticSlotSkipped(p, node, next, left, cycle, slot);
        LoggedLater(StepLog(p, node, s), Run(p, node, next, left).log, cycle, slot);
      }
    }
  }

  lemma SameSlotNotBefore(e: SlotEntry, f: SlotEntry)
    requires e.cycle == f.cycle && e.slot == f.slot
    ensures !Before(e, f)
  {
  }

  /** A whole cycle processes each of its static slots exactly once. */
  lemma StaticSlotExactlyOnce(p: Params, node: NodeId, s: EngineState, budget: nat, cycle: nat, slot: nat)
    requires ValidParams(p) && s.posMt == 0 && s.posSlot == 1 && 1 <= slot <= p.staticSlotCount
    requires s.cycles <= cycle < Run(p, node, s, budget).state.cycles
    ensures var log := Run(p, node, s, budget).log;
            exists i :: 0 <= i < |log| && log[i].cycle == cycle && log[i].slot == slot && log[i].processed
              && log[i].mt == (slot - 1) * p.staticSlotLength
              && forall j :: 0 <= j < |log| && log[j].cycle == cycle && log[j].slot == slot ==> j == i
  {
    hide Run, OnGrid, Before;
    var log := Run(p, node, s, budget).log;
    CycleStartOnGrid(p, s);
    NoStaticSlotSkipped(p, node, s, budget, cycle, slot);
    SlotOrder(p, node, s, budget);
    var i :| 0 <= i < |log| && log[i].cycle == cycle && log[i].slot == slot;
    assert EntryInPlace(p, log[i]);
    forall j | 0 <= j < |log| && log[j].cycle == cycle && log[j].slot == slot ensures j == i {
      if i < j { SameSlotNotBefore(log[i], log[j]); }
      if j < i { SameSlotNotBefore(log[j], log[i]); }
    }
  }
}
