/**
 Merging node configurations into the parameters of the engine.

 A parameter that is still 0 takes the configured value; a parameter that is set must agree. What
 the merge guarantees, and exactly which disagreements it does not see, is proved here.
 */
module FlexrayConfig {
  import opened Arithmetic
  import opened FlexrayLpdu
  import opened FlexraySlotMap
  import opened FlexrayTiming

  datatype BitRate = BitRateNone | BitRate10 | BitRate5 | BitRate2_5 | BitRateOther(value: nat)

  datatype NodeConfig = NodeConfig(
    node: NodeId,
    bitRate: BitRate,
    microtickPerCycle: nat,
    macrotickPerCycle: nat,
    networkIdleStart: nat,
    staticSlotLength: nat,
    staticSlotCount: nat,
    minislotLength: nat,
    minislotCount: nat,
    staticSlotPayloadLength: nat,
    inhibitNullFrames: bool,
    table: seq<TableEntry>)

  predicate Supported(r: BitRate) {
    r.BitRate10? || r.BitRate5? || r.BitRate2_5?
  }

  function MicrotickNs(r: BitRate): nat
    requires Supported(r)
  {
    if r.BitRate2_5? then 50 else 25
  }

  function BitTimeNs(r: BitRate): nat
    requires Supported(r)
  {
    match r
    case BitRate10 => 100
    case BitRate5 => 200
    case BitRate2_5 => 400
  }

  function Merge(param: nat, v: nat): nat {
    if param != 0 && param != v then param else v
  }

  predicate Mergeable(param: nat, v: nat) {
    param == 0 || param == v
  }

  /** The parameters before the minislot width is derived. Later lines use values merged by earlier ones. */
  function MergeAll(p: Params, c: NodeConfig): Params
    requires Supported(c.bitRate) && 0 < Merge(p.macrotickPerCycle, c.macrotickPerCycle)
  {
    var micro := Merge(p.microtickPerCycle, c.microtickPerCycle);
    var macro := Merge(p.macrotickPerCycle, c.macrotickPerCycle);
    var slotLength := Merge(p.staticSlotLength, c.staticSlotLength);
    var slotCount := Merge(p.staticSlotCount, c.staticSlotCount);
    var m2m := Merge(p.macro2micro, micro / macro);
    p.(microtickPerCycle := micro,
       macrotickPerCycle := macro,
       staticSlotLength := slotLength,
       staticSlotCount := slotCount,
       minislotLength := Merge(p.minislotLength, c.minislotLength),
       minislotCount := Merge(p.minislotCount, c.minislotCount),
       staticSlotPayloadLength := Merge(p.staticSlotPayloadLength, c.staticSlotPayloadLength),
       microtickNs := Merge(p.microtickNs, MicrotickNs(c.bitRate)),
       macro2micro := m2m,
       macrotickNs := Merge(p.macrotickNs, m2m * MicrotickNs(c.bitRate)),
       offsetStatic := Merge(p.offsetStatic, 0),
       offsetDynamic := Merge(p.offsetDynamic, slotLength * slotCount),
       offsetNetwork := Merge(p.offsetNetwork, c.networkIdleStart))
  }

  /** Every parameter merged without a mismatch. */
  predicate Accepted(p: Params, c: NodeConfig)
    requires Supported(c.bitRate) && 0 < Merge(p.macrotickPerCycle, c.macrotickPerCycle)
  {
    var q := MergeAll(p, c);
    && Mergeable(p.microtickPerCycle, c.microtickPerCycle)
    && Mergeable(p.macrotickPerCycle, c.macrotickPerCycle)
    && Mergeable(p.staticSlotLength, c.staticSlotLength)
    && Mergeable(p.staticSlotCount, c.staticSlotCount)
    && Mergeable(p.minislotLength, c.minislotLength)
    && Mergeable(p.minislotCount, c.minislotCount)
    && Mergeable(p.staticSlotPayloadLength, c.staticSlotPayloadLength)
    && Mergeable(p.microtickNs, MicrotickNs(c.bitRate))
    && Mergeable(p.macro2micro, q.microtickPerCycle / q.macrotickPerCycle)
    && Mergeable(p.macrotickNs, q.macro2micro * MicrotickNs(c.bitRate))
    && Mergeable(p.offsetStatic, 0)
    && Mergeable(p.offsetDynamic, q.staticSlotLength * q.staticSlotCount)
    && Mergeable(p.offsetNetwork, c.networkIdleStart)
  }

  function Configured(p: Params, c: NodeConfig): Params
    requires Supported(c.bitRate) && 0 < Merge(p.macrotickPerCycle, c.macrotickPerCycle)
  {
    var q := MergeAll(p, c);
    if !Accepted(p, c) then q
    else q.(bitsPerMinislot := q.minislotLength * q.macrotickNs / BitTimeNs(c.bitRate),
            inhibitNullFrames := c.inhibitNullFrames)
  }

  /** The timing that a configuration describes, in the documented ranges. */
  predicate Plausible(c: NodeConfig) {
    && Supported(c.bitRate)
    && 0 < c.macrotickPerCycle <= c.microtickPerCycle
    && 0 < c.staticSlotLength && 0 < c.staticSlotCount && 0 < c.minislotLength
    && c.staticSlotLength * c.staticSlotCount <= c.networkIdleStart <= c.macrotickPerCycle
    && BitTimeNs(c.bitRate) <= c.minislotLength * ((c.microtickPerCycle / c.macrotickPerCycle) * MicrotickNs(c.bitRate))
  }

  /** The engine runs on exactly the timing of a configuration. */
  predicate RunsOn(p: Params, c: NodeConfig)
    requires 0 < c.macrotickPerCycle
  {
    && p.microtickPerCycle == c.microtickPerCycle && p.macrotickPerCycle == c.macrotickPerCycle
    && p.staticSlotLength == c.staticSlotLength && p.staticSlotCount == c.staticSlotCount
    && p.minislotLength == c.minislotLength && p.offsetNetwork == c.networkIdleStart
    && p.macro2micro == c.microtickPerCycle / c.macrotickPerCycle
    && p.offsetDynamic == c.staticSlotLength * c.staticSlotCount
  }

  /** An accepted plausible configuration leaves the engine able to run, on the configured timing. */
  lemma AcceptedRuns(p: Params, c: NodeConfig)
    requires Plausible(c) && Accepted(p, c)
    ensures ValidParams(Configured(p, c)) && RunsOn(Configured(p, c), c)
  {
    var q := Configured(p, c);
    MulPositive(c.staticSlotLength, c.staticSlotCount);
    QuotientPositive(c.microtickPerCycle, c.macrotickPerCycle);
    assert q.macrotickNs == q.macro2micro * MicrotickNs(c.bitRate);
    QuotientPositive(q.minislotLength * q.macrotickNs, BitTimeNs(c.bitRate));
  }

  lemma QuotientPositive(a: nat, d: nat)
    requires 0 < d <= a
    ensures 0 < a / d
  {
    DivisionIsUnique(a, d, a / d, a % d);
  }

  /** Two accepted plausible configurations describe the same timing. */
  lemma AcceptedAgree(p: Params, c: NodeConfig, d: NodeConfig)
    requires Plausible(c) && RunsOn(p, c) && Plausible(d) && Accepted(p, d)
    ensures RunsOn(p, d)
  {
    AcceptedRuns(p, d);
  }

  /** Once the engine runs, no configuration, accepted or not, changes its slot timing. */
  lemma TimingIsFixed(p: Params, c: NodeConfig, d: NodeConfig)
    requires Plausible(c) && RunsOn(p, c) && ValidParams(p) && Supported(d.bitRate)
    ensures RunsOn(Configured(p, d), c)
  {
    MulPositive(c.staticSlotLength, c.staticSlotCount);
  }

  /**
   The mismatch that merging does not see: 10 and 5 MBit/s share a microtick, so a second node may
   disagree on the bit rate, be accepted, and change the width of pending dynamic slots.
   */
  lemma BitRateMismatchAccepted()
    ensures exists p, c, d :: Plausible(c) && Plausible(d) && RunsOn(p, c) && ValidParams(p)
              && Accepted(p, d) && c.bitRate != d.bitRate
              && Configured(p, d).bitsPerMinislot != p.bitsPerMinislot
  {
    var c := NodeConfig(NodeId(1, 0, 1), BitRate10, 200000, 3361, 3355, 55, 38, 6, 211, 64, false, []);
    var d := c.(bitRate := BitRate5);
    var zero := Params(0, 0, 0, 0, 0, 0, 0, 0, 0, 0, 0, 0, 0, 0, false);
    var p := Configured(zero, c);
    assert 200000 / 3361 == 59;
    assert p.macrotickNs == 1475 && p.bitsPerMinislot == 88;
    AcceptedRuns(zero, c);
    assert Configured(p, d).bitsPerMinislot == 44;
  }

  /** So may a node that disagrees on the null frame option; the last one accepted decides for all. */
  lemma NullOptionMismatchAccepted(before: Params, c: NodeConfig)
    requires Plausible(c) && Accepted(before, c)
    ensures var d := c.(inhibitNullFrames := !c.inhibitNullFrames);
            && Plausible(d) && Accepted(Configured(before, c), d)
            && Configured(Configured(before, c), d).inhibitNullFrames != Configured(before, c).inhibitNullFrames
  {
    AfterFirst(before, c);
    PlausiblePositive(c);
  }

  /** The values of an engine after its first configuration. */
  lemma AfterFirst(before: Params, c: NodeConfig)
    requires Plausible(c) && Accepted(before, c)
    ensures var p := Configured(before, c);
            && RunsOn(p, c)
            && 0 < p.macro2micro && p.macrotickNs == p.macro2micro * MicrotickNs(c.bitRate) && 0 < p.macrotickNs
            && p.microtickNs == MicrotickNs(c.bitRate)
            && BitTimeNs(c.bitRate) <= p.minislotLength * p.macrotickNs
            && p.bitsPerMinislot == p.minislotLength * p.macrotickNs / BitTimeNs(c.bitRate)
            && p.minislotCount == c.minislotCount && p.staticSlotPayloadLength == c.staticSlotPayloadLength
            && p.offsetStatic == 0 && p.inhibitNullFrames == c.inhibitNullFrames
  {
    AcceptedRuns(before, c);
    var p := Configured(before, c);
    QuotientPositive(c.microtickPerCycle, c.macrotickPerCycle);
    MulPositive(p.macro2micro, MicrotickNs(c.bitRate));
  }

  lemma WidthsDiffer(x: nat)
    requires 200 <= x
    ensures x / 200 < x / 100
  {
  }

  /**
   The minislot width that an accepted configuration leaves is kept by a second accepted one exactly
   if both have the same bit rate.
   */
  lemma WidthKeptIff(before: Params, c: NodeConfig, d: NodeConfig)
    requires Plausible(c) && Accepted(before, c)
    requires Plausible(d) && Accepted(Configured(before, c), d)
    ensures Configured(Configured(before, c), d).bitsPerMinislot == Configured(before, c).bitsPerMinislot
            <==> c.bitRate == d.bitRate
  {
    hide Accepted, Configured;
    var p := Configured(before, c);
    AfterFirst(before, c);
    AfterFirst(p, d);
    SecondKeeps(p, d);
    var x := p.minislotLength * p.macrotickNs;
    if c.bitRate != d.bitRate { WidthsDiffer(x); }
  }

  lemma SecondKeeps(p: Params, d: NodeConfig)
    requires Plausible(d) && Accepted(p, d)
    requires 0 < p.microtickPerCycle && 0 < p.macrotickPerCycle && 0 < p.staticSlotLength && 0 < p.staticSlotCount
    requires 0 < p.minislotLength && 0 < p.macro2micro && 0 < p.macrotickNs && 0 < p.microtickNs
    requires 0 < p.offsetDynamic && 0 < p.offsetNetwork && p.offsetStatic == 0
    ensures var q := Configured(p, d);
            q == p.(minislotCount := q.minislotCount, staticSlotPayloadLength := q.staticSlotPayloadLength,
                    bitsPerMinislot := q.bitsPerMinislot, inhibitNullFrames := q.inhibitNullFrames)
  {
  }

  /** The configurations agree on what merging does not compare. */
  predicate SameOptions(c: NodeConfig, d: NodeConfig) {
    && c.bitRate == d.bitRate
    && c.inhibitNullFrames == d.inhibitNullFrames
    && c.minislotCount == d.minislotCount
    && c.staticSlotPayloadLength == d.staticSlotPayloadLength
  }

  /**
   What acceptance fixes. After one accepted configuration, a second accepted one leaves every
   parameter as it is exactly if the two agree on the bit rate, the null frame option, the minislot
   count and the static payload length; the last two can differ only if they were left at 0 at first.
   No other parameter ever changes.
   */
  lemma NothingChangesIff(before: Params, c: NodeConfig, d: NodeConfig)
    requires Plausible(c) && Accepted(before, c)
    requires Plausible(d) && Accepted(Configured(before, c), d)
    ensures var p, q := Configured(before, c), Configured(Configured(before, c), d);
            && (q == p <==> SameOptions(c, d))
            && (q.bitsPerMinislot == p.bitsPerMinislot <==> c.bitRate == d.bitRate)
            && (q.inhibitNullFrames == p.inhibitNullFrames <==> c.inhibitNullFrames == d.inhibitNullFrames)
            && (c.minislotCount != d.minislotCount ==> c.minislotCount == 0)
            && (c.staticSlotPayloadLength != d.staticSlotPayloadLength ==> c.staticSlotPayloadLength == 0)
            && q == p.(minislotCount := d.minislotCount, staticSlotPayloadLength := d.staticSlotPayloadLength,
                       bitsPerMinislot := q.bitsPerMinislot, inhibitNullFrames := d.inhibitNullFrames)
  {
    hide Configured;
    var p := Configured(before, c);
    AfterFirst(before, c);
    AfterFirst(p, d);
    PlausiblePositive(c);
    SecondKeeps(p, d);
    WidthKeptIff(before, c, d);
  }

  lemma PlausiblePositive(c: NodeConfig)
    requires Plausible(c)
    ensures 0 < c.staticSlotLength * c.staticSlotCount && 0 < c.networkIdleStart && 0 < c.microtickPerCycle
  {
    MulPositive(c.staticSlotLength, c.staticSlotCount);
  }

  /**
   An engine that runs on a plausible configuration stays able to run exactly if an accepted further
   configuration does not have a bit time above the minislot: then the minislot would hold no bit.
   */
  lemma StaysValidIff(p: Params, c: NodeConfig, d: NodeConfig)
    requires Plausible(c) && RunsOn(p, c) && ValidParams(p) && Supported(d.bitRate)
    ensures ValidParams(Configured(p, d)) <==>
            (Accepted(p, d) ==> BitTimeNs(d.bitRate) <= p.minislotLength * MergeAll(p, d).macrotickNs)
  {
    TimingIsFixed(p, c, d);
    var x, t := p.minislotLength * MergeAll(p, d).macrotickNs, BitTimeNs(d.bitRate);
    if t <= x { QuotientPositive(x, t); } else { DivisionIsUnique(x, t, 0, x); }
  }
}
