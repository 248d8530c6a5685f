/**
 When the budget loop of the engine ends. Merging accepts configurations whose cycle has no end; this
 is about the positions and costs of the loop alone, for any parameters, whatever is pending.
 */
module FlexrayTermination {
  import opened Bytes
  import opened Arithmetic
  import opened FlexrayLpdu
  import opened FlexraySlotMap
  import opened FlexrayTiming
  import opened FlexrayConfig

  /** What is left to the parameters once the budget can be computed and the static slots fit the cycle. */
  predicate Movable(p: Params) {
    && 0 < p.macro2micro && 0 < p.microtickPerCycle
    && p.staticSlotLength * p.staticSlotCount == p.offsetDynamic <= p.macrotickPerCycle
  }

  predicate IsEnd(p: Params, mt: nat) {
    p.offsetDynamic <= mt && p.offsetNetwork <= mt
  }

  /** Macroticks to the next position, if a dynamic slot at `mt` takes this many minislots. */
  function NeedAt(p: Params, mt: nat, minislots: nat): nat {
    if mt < p.offsetDynamic then p.staticSlotLength
    else if IsEnd(p, mt) || p.macrotickPerCycle <= mt then 0
    else if minislots * p.minislotLength + mt > p.macrotickPerCycle then p.macrotickPerCycle - mt
    else minislots * p.minislotLength
  }

  /** Microticks to get there. */
  function CostAt(p: Params, mt: nat, minislots: nat): nat {
    if !IsEnd(p, mt) then NeedAt(p, mt, minislots) * p.macro2micro
    else if mt * p.macro2micro < p.microtickPerCycle then p.microtickPerCycle - mt * p.macro2micro
    else 0
  }

  function NextMt(p: Params, mt: nat, minislots: nat): nat {
    if IsEnd(p, mt) then 0 else mt + NeedAt(p, mt, minislots)
  }

  /** After at most `n` slots the next one does not fit. Slot `t` of the loop takes `minislots(t)` minislots. */
  predicate Ends(p: Params, minislots: nat -> nat, t: nat, mt: nat, budget: nat, n: nat)
    decreases n
  {
    var cost := CostAt(p, mt, minislots(t));
    cost > budget || (n > 0 && Ends(p, minislots, t + 1, NextMt(p, mt, minislots(t)), budget - cost, n - 1))
  }

  ghost predicate EventuallyEnds(p: Params, minislots: nat -> nat, budget: nat) {
    exists n: nat :: Ends(p, minislots, 0, 0, budget, n)
  }

  /** Whatever is pending and whatever is granted, the loop ends from the start of a cycle. */
  ghost predicate AlwaysEnds(p: Params) {
    forall minislots: nat -> nat, budget: nat | forall t: nat :: minislots(t) >= 1 ::
      EventuallyEnds(p, minislots, budget)
  }

  /** Nothing is pending. */
  function Quiet(): nat -> nat {
    (t: nat) => 1
  }

  /** The cycle has no dynamic segment, or one whose minislots lead to its end inside the cycle. */
  predicate HasEnd(p: Params) {
    p.offsetNetwork <= p.offsetDynamic || (0 < p.minislotLength && p.offsetNetwork <= p.macrotickPerCycle)
  }

  /** A step costs something, or leaves the end of the cycle. */
  lemma {:induction false} EndsInTime(p: Params, minislots: nat -> nat, t: nat, mt: nat, budget: nat, n: nat)
    requires Movable(p) && HasEnd(p) && forall t: nat :: minislots(t) >= 1
    requires n >= 2 * budget + if IsEnd(p, mt) && mt > 0 then 1 else 0
    ensures Ends(p, minislots, t, mt, budget, n)
    decreases n
  {
    var cost, next := CostAt(p, mt, minislots(t)), NextMt(p, mt, minislots(t));
    CostIsPaid(p, mt, minislots(t));
    if cost <= budget {
      EndsInTime(p, minislots, t + 1, next, budget - cost, n - 1);
    }
  }

  lemma CostIsPaid(p: Params, mt: nat, minislots: nat)
    requires Movable(p) && HasEnd(p) && 1 <= minislots
    ensures 0 < CostAt(p, mt, minislots) || (IsEnd(p, mt) && 0 < mt && NextMt(p, mt, minislots) == 0)
  {
    if IsEnd(p, mt) {
      if mt == 0 { assert mt * p.macro2micro == 0; }
    } else {
      if mt < p.offsetDynamic {
        assert 0 * p.staticSlotCount == 0;
      } else {
        MulPositive(minislots, p.minislotLength);
      }
      MulPositive(NeedAt(p, mt, minislots), p.macro2micro);
    }
  }

  /** Without an end, a quiet dynamic segment is never left. */
  lemma {:induction false} NeverFromDynamic(p: Params, t: nat, mt: nat, budget: nat, n: nat)
    requires Movable(p) && !HasEnd(p)
    requires p.offsetDynamic <= mt <= p.macrotickPerCycle && mt < p.offsetNetwork
    requires (p.macrotickPerCycle - mt) * p.macro2micro <= budget
    ensures !Ends(p, Quiet(), t, mt, budget, n)
    decreases n
  {
    var need := NeedAt(p, mt, 1);
    assert need <= p.macrotickPerCycle - mt;
    MulMono(need, p.macrotickPerCycle - mt, p.macro2micro);
    MulPlus(p.macrotickPerCycle - mt, need, p.macro2micro);
    if n > 0 {
      NeverFromDynamic(p, t + 1, mt + need, budget - need * p.macro2micro, n - 1);
    }
  }

  lemma {:induction false} NeverFromStatic(p: Params, t: nat, k: nat, budget: nat, n: nat)
    requires Movable(p) && !HasEnd(p) && k <= p.staticSlotCount && k * p.staticSlotLength <= p.offsetDynamic
    requires (p.macrotickPerCycle - k * p.staticSlotLength) * p.macro2micro <= budget
    ensures !Ends(p, Quiet(), t, k * p.staticSlotLength, budget, n)
    decreases n
  {
    var mt := k * p.staticSlotLength;
    if mt == p.offsetDynamic {
      NeverFromDynamic(p, t, mt, budget, n);
    } else {
      MulStrict(k, p.staticSlotCount, p.staticSlotLength);
      MulLess(k, p.staticSlotCount, p.staticSlotLength);
      MulPlus(k, 1, p.staticSlotLength);
      var need, left := p.staticSlotLength, p.macrotickPerCycle - mt;
      MulMono(need, left, p.macro2micro);
      MulPlus(left, need, p.macro2micro);
      if n > 0 {
        NeverFromStatic(p, t + 1, k + 1, budget - need * p.macro2micro, n - 1);
      }
    }
  }

  /**
   The loop ends for every grant and whatever is pending exactly if the cycle has an end; if it has
   none, the loop does not end even with nothing pending, as soon as the grant covers a cycle.
   */
  lemma LoopEndsIff(p: Params)
    requires Movable(p)
    ensures AlwaysEnds(p) <==> HasEnd(p)
    ensures HasEnd(p) <==> EventuallyEnds(p, Quiet(), p.macrotickPerCycle * p.macro2micro)
  {
    if HasEnd(p) {
      forall minislots: nat -> nat, budget: nat | forall t: nat :: minislots(t) >= 1
        ensures EventuallyEnds(p, minislots, budget)
      {
        EndsInTime(p, minislots, 0, 0, budget, 2 * budget + 1);
      }
      assert forall t: nat :: Quiet()(t) >= 1;
    } else {
      forall n: nat ensures !Ends(p, Quiet(), 0, 0, p.macrotickPerCycle * p.macro2micro, n) {
        NeverFromStatic(p, 0, 0, p.macrotickPerCycle * p.macro2micro, n);
      }
      assert !EventuallyEnds(p, Quiet(), p.macrotickPerCycle * p.macro2micro);
      assert forall t: nat :: Quiet()(t) >= 1;
    }
  }

  // ---------------------------------------------------------------------------------------------
  // The loop of the engine, and the configurations
  // ---------------------------------------------------------------------------------------------

  /** Minislots of a dynamic slot: one, or what its last pending sender needs. */
  function MinislotsOf(p: Params, lpdus: seq<Lpdu>): (r: nat)
    requires ValidParams(p)
    ensures 1 <= r
  {
    if lpdus == [] then 1
    else if lpdus[|lpdus| - 1].PendingTx() then
      TxMinislotsPositive(p, lpdus[|lpdus| - 1].config.payloadLength);
      TxMinislots(p, lpdus[|lpdus| - 1].config.payloadLength)
    else MinislotsOf(p, lpdus[..|lpdus| - 1])
  }

  lemma TxMinislotsPositive(p: Params, payloadLength: byte)
    requires 0 < p.bitsPerMinislot
    ensures 1 <= TxMinislots(p, payloadLength)
  {
    assert 0 * p.bitsPerMinislot == 0;
  }

  lemma {:induction false} WidthIsMinislots(p: Params, lpdus: seq<Lpdu>)
    requires ValidParams(p)
    ensures DynamicWidth(p, lpdus) == MinislotsOf(p, lpdus) * p.minislotLength
  {
    if lpdus != [] && !lpdus[|lpdus| - 1].PendingTx() { WidthIsMinislots(p, lpdus[..|lpdus| - 1]); }
  }

  /** A running engine moves and pays like this. */
  lemma StepMoves(p: Params, own: NodeId, s: EngineState)
    requires ValidParams(p) && OnGrid(p, s)
    ensures var k := MinislotsOf(p, LpdusAt(s.slotMap, s.posSlot));
            NeedUt(p, s) == CostAt(p, s.posMt, k) && Step(p, own, s).posMt == NextMt(p, s.posMt, k)
  {
    hide DynamicWidth, MinislotsOf, OnGrid, LpdusAt;
    WidthIsMinislots(p, LpdusAt(s.slotMap, s.posSlot));
  }

  const UNCONFIGURED := Params(0, 0, 0, 0, 0, 0, 0, 0, 0, 0, 0, 0, 0, 0, false)

  /**
   Every supported first configuration is accepted, also if its idle time begins behind the cycle or
   its minislots have no length; this is when the engine's loop ends with it.
   */
  lemma ConfiguredEndsIff(c: NodeConfig)
    requires Supported(c.bitRate) && 0 < c.macrotickPerCycle <= c.microtickPerCycle
    requires c.staticSlotLength * c.staticSlotCount <= c.macrotickPerCycle
    ensures Accepted(UNCONFIGURED, c)
    ensures AlwaysEnds(Configured(UNCONFIGURED, c)) <==>
            c.networkIdleStart <= c.staticSlotLength * c.staticSlotCount
            || (0 < c.minislotLength && c.networkIdleStart <= c.macrotickPerCycle)
  {
    QuotientPositive(c.microtickPerCycle, c.macrotickPerCycle);
    LoopEndsIff(Configured(UNCONFIGURED, c));
  }
}
