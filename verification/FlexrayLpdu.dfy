/**
 The frame transfer that happens inside one FlexRay slot.

 A slot holds a list of LPDUs of any number of nodes. `SlotAfter` says, LPDU by LPDU, what the slot
 looks like once the bus has processed it; it is the reference that the in-place loops of
 `FlexrayBusModel.BusModel.ProcessSlot` are proved against.
 */
module FlexrayLpdu {
  import opened Bytes

  /** `swc` is zeroed wherever node states are consolidated per ECU. */
  datatype NodeId = NodeId(ecu: nat, cc: nat, swc: nat)

  datatype Direction = DirectionNone | DirectionRx | DirectionTx

  datatype TransmitMode = ModeNone | Continuous | SingleShot

  datatype LpduStatus = StatusNone | Transmitted | NotTransmitted | Received | NotReceived

  /** The part of an LPDU configuration that no bus operation changes. */
  datatype LpduConfig = LpduConfig(
    slotId: nat,
    payloadLength: byte,
    cycleRepetition: byte,
    baseCycle: byte,
    frameTable: nat,
    direction: Direction,
    transmitMode: TransmitMode,
    inhibitNull: bool)

  datatype Lpdu = Lpdu(
    node: NodeId,
    config: LpduConfig,
    status: LpduStatus,
    payload: Option<seq<byte>>,
    cycle: nat,
    macrotick: nat,
    nullFrame: bool)
  {
    /** A payload, once allocated, has the configured length. */
    predicate Sized() {
      payload.Some? ==> |payload.value| == config.payloadLength
    }

    /** A transmission is waiting in this LPDU. */
    predicate PendingTx() {
      config.direction.DirectionTx? && status.NotTransmitted?
    }
  }

  /** Everything outside the slot that its processing looks at. */
  datatype SlotContext = SlotContext(
    node: NodeId,
    cycle: nat,
    mt: nat,
    offsetDynamic: nat,
    offsetNetwork: nat,
    inhibitNull: bool)

  predicate InCycle(x: SlotContext, c: LpduConfig) {
    x.mt < x.offsetNetwork && c.cycleRepetition != 0 && x.cycle % c.cycleRepetition == c.baseCycle
  }

  predicate IsTx(x: SlotContext, l: Lpdu) {
    l.config.direction.DirectionTx? && InCycle(x, l.config)
  }

  /** A sender of the static segment that has nothing new to send. */
  predicate RaisesNull(x: SlotContext, l: Lpdu) {
    IsTx(x, l) && x.mt < x.offsetDynamic && (l.status.StatusNone? || l.status.Transmitted?)
  }

  /** Only receivers of this node, that were configured to receive. */
  predicate IsRx(x: SlotContext, l: Lpdu) {
    && l.config.direction.DirectionRx?
    && (l.status.NotReceived? || l.status.Received?)
    && l.node == x.node
    && InCycle(x, l.config)
  }

  /** The sender that owns the slot: the last one that matches, or -1. */
  function ChosenTx(x: SlotContext, lpdus: seq<Lpdu>): (r: int)
    ensures -1 <= r < |lpdus|
    ensures r >= 0 ==> IsTx(x, lpdus[r])
    ensures forall i :: r < i < |lpdus| ==> !IsTx(x, lpdus[i])
  {
    if lpdus == [] then -1
    else
      var last := |lpdus| - 1;
      if IsTx(x, lpdus[last]) then last else ChosenTx(x, lpdus[..last])
  }

  /** The null flag belongs to the whole slot: any sender can raise it and nothing lowers it. */
  predicate NullFrame(x: SlotContext, lpdus: seq<Lpdu>) {
    exists i :: 0 <= i < |lpdus| && RaisesNull(x, lpdus[i])
  }

  /** The slot carries a real transmission. */
  predicate Sends(x: SlotContext, lpdus: seq<Lpdu>) {
    var tx := ChosenTx(x, lpdus);
    tx >= 0 && lpdus[tx].status.NotTransmitted? && !NullFrame(x, lpdus)
  }

  function AfterTx(x: SlotContext, l: Lpdu): Lpdu {
    l.(status := if l.config.transmitMode.Continuous? then l.status else Transmitted,
       cycle := x.cycle,
       macrotick := x.mt)
  }

  /** A receiver hears a null frame only if neither it nor its node inhibits them. */
  predicate HearsNull(x: SlotContext, l: Lpdu) {
    !l.config.inhibitNull && !x.inhibitNull
  }

  /** The payload of a receiver after a data frame; `sent` is None for a sender that never had one. */
  function ReceivedPayload(sent: Option<seq<byte>>, l: Lpdu): seq<byte> {
    if sent.Some? then Fit(sent.value, l.config.payloadLength)
    else if l.payload.None? then Zeros(l.config.payloadLength)
    else l.payload.value
  }

  function AfterRx(x: SlotContext, sent: Option<seq<byte>>, l: Lpdu, isNull: bool): Lpdu {
    if isNull then
      if HearsNull(x, l) then l.(cycle := x.cycle, macrotick := x.mt, nullFrame := true) else l
    else
      l.(status := Received,
         payload := Some(ReceivedPayload(sent, l)),
         cycle := x.cycle,
         macrotick := x.mt,
         nullFrame := false)
  }

  /** The slot after processing, LPDU by LPDU. */
  function SlotAfter(x: SlotContext, lpdus: seq<Lpdu>): (r: seq<Lpdu>)
    ensures |r| == |lpdus|
  {
    var tx := ChosenTx(x, lpdus);
    if tx < 0 then
      lpdus
    else
      seq(|lpdus|, i requires 0 <= i < |lpdus| =>
        if i == tx then
          if Sends(x, lpdus) then AfterTx(x, lpdus[i]) else lpdus[i]
        else if IsRx(x, lpdus[i]) then
          AfterRx(x, lpdus[tx].payload, lpdus[i], NullFrame(x, lpdus))
        else
          lpdus[i])
  }

  /** A receiver that is put on the inform list. */
  predicate IsInformed(x: SlotContext, lpdus: seq<Lpdu>, i: nat)
    requires i < |lpdus|
  {
    ChosenTx(x, lpdus) >= 0 && IsRx(x, lpdus[i]) && (NullFrame(x, lpdus) ==> HearsNull(x, lpdus[i]))
  }

  /** Indices below `n` of the receivers put on the inform list, in order. */
  function InformedRx(x: SlotContext, lpdus: seq<Lpdu>, n: nat): (r: seq<nat>)
    requires n <= |lpdus|
    ensures forall k :: 0 <= k < |r| ==> r[k] < n
    ensures forall i :: 0 <= i < n ==> (i in r <==> IsInformed(x, lpdus, i))
    ensures forall j, k :: 0 <= j < k < |r| ==> r[j] < r[k]
  {
    if n == 0 then []
    else
      var before := InformedRx(x, lpdus, n - 1);
      if IsInformed(x, lpdus, n - 1) then before + [n - 1] else before
  }

  /** The inform list entries of one slot: the own sender first, then the receivers. */
  function Informed(x: SlotContext, lpdus: seq<Lpdu>): seq<nat> {
    var tx := ChosenTx(x, lpdus);
    (if Sends(x, lpdus) && lpdus[tx].node == x.node then [tx as nat] else [])
    + InformedRx(x, lpdus, |lpdus|)
  }

  // ---------------------------------------------------------------------------------------------
  // What the transfer means
  // ---------------------------------------------------------------------------------------------

  /** What identifies an LPDU never changes, and payloads keep their configured length. */
  lemma SlotAfterKeeps(x: SlotContext, lpdus: seq<Lpdu>, i: nat)
    requires i < |lpdus|
    ensures SlotAfter(x, lpdus)[i].node == lpdus[i].node
    ensures SlotAfter(x, lpdus)[i].config == lpdus[i].config
    ensures lpdus[i].Sized() ==> SlotAfter(x, lpdus)[i].Sized()
  {
  }

  /** Processing a slot never makes a transmission pending, and uses up a single shot. */
  lemma SlotAfterPending(x: SlotContext, lpdus: seq<Lpdu>, i: nat)
    requires i < |lpdus|
    ensures SlotAfter(x, lpdus)[i].PendingTx() ==> lpdus[i].PendingTx()
    ensures Sends(x, lpdus) && i == ChosenTx(x, lpdus) ==> lpdus[i].PendingTx()
    ensures Sends(x, lpdus) && i == ChosenTx(x, lpdus) && !lpdus[i].config.transmitMode.Continuous? ==>
              !SlotAfter(x, lpdus)[i].PendingTx()
  {
  }

  /** A slot in which at most one sender matches. */
  predicate OneSender(x: SlotContext, lpdus: seq<Lpdu>) {
    forall i, j :: 0 <= i < j < |lpdus| ==> !(IsTx(x, lpdus[i]) && IsTx(x, lpdus[j]))
  }

  /** With one matching sender, a pending transmission is sent: there is no null flag to block it. */
  lemma PendingSenderSends(x: SlotContext, lpdus: seq<Lpdu>, tx: nat)
    requires tx < |lpdus| && IsTx(x, lpdus[tx]) && lpdus[tx].PendingTx() && OneSender(x, lpdus)
    ensures ChosenTx(x, lpdus) == tx && !NullFrame(x, lpdus) && Sends(x, lpdus)
  {
  }

  /**
   Delivery. When the slot sends, every eligible receiver of this node ends as Received with the
   sender's bytes, cut to the receiver's length or zero filled up to it, and is informed.
   Every other LPDU except the sender is untouched.
   */
  lemma Delivery(x: SlotContext, lpdus: seq<Lpdu>, i: nat)
    requires i < |lpdus| && Sends(x, lpdus)
    requires lpdus[ChosenTx(x, lpdus)].payload.Some?
    ensures var sent := lpdus[ChosenTx(x, lpdus)].payload.value;
            var after := SlotAfter(x, lpdus)[i];
            if IsRx(x, lpdus[i]) then
              && after.status == Received && !after.nullFrame
              && after.payload == Some(Fit(sent, lpdus[i].config.payloadLength))
              && after.cycle == x.cycle && after.macrotick == x.mt
              && i in Informed(x, lpdus)
            else
              i != ChosenTx(x, lpdus) ==> after == lpdus[i]
  {
    assert IsRx(x, lpdus[i]) ==> IsInformed(x, lpdus, i);
  }

  /** A null frame changes no payload and no status, and informs exactly the receivers that hear it. */
  lemma NullFrameIsHarmless(x: SlotContext, lpdus: seq<Lpdu>, i: nat)
    requires i < |lpdus| && NullFrame(x, lpdus)
    ensures SlotAfter(x, lpdus)[i].payload == lpdus[i].payload
    ensures SlotAfter(x, lpdus)[i].status == lpdus[i].status
    ensures i in Informed(x, lpdus) <==> IsRx(x, lpdus[i]) && HearsNull(x, lpdus[i])
  {
    var n :| 0 <= n < |lpdus| && RaisesNull(x, lpdus[n]);
    assert IsTx(x, lpdus[n]);
    assert ChosenTx(x, lpdus) >= n;
  }

  /** The status values a sender can have. */
  predicate SenderStatus(s: LpduStatus) {
    s.StatusNone? || s.Transmitted? || s.NotTransmitted?
  }

  /** The eligible receivers of the slot take a data frame out of it. */
  predicate Delivers(x: SlotContext, lpdus: seq<Lpdu>) {
    ChosenTx(x, lpdus) >= 0 && !NullFrame(x, lpdus)
  }

  /**
   A frame delivered in the static segment is a fresh transmission exactly if the sender that owns the
   slot has one of the statuses of a sender.
   */
  lemma StaticIsFresh(x: SlotContext, lpdus: seq<Lpdu>)
    requires Delivers(x, lpdus) && x.mt < x.offsetDynamic
    ensures Sends(x, lpdus) <==> SenderStatus(lpdus[ChosenTx(x, lpdus)].status)
  {
    var tx := ChosenTx(x, lpdus);
    assert !RaisesNull(x, lpdus[tx]);
  }

  /** Some transmission is waiting in the slot, in whatever cycle it is due. */
  predicate HasPending(lpdus: seq<Lpdu>) {
    exists i :: 0 <= i < |lpdus| && lpdus[i].PendingTx()
  }

  /** The slot with other statuses. */
  function WithStatuses(lpdus: seq<Lpdu>, statuses: seq<LpduStatus>): (r: seq<Lpdu>)
    requires |statuses| == |lpdus|
    ensures |r| == |lpdus|
  {
    seq(|lpdus|, i requires 0 <= i < |lpdus| => lpdus[i].(status := statuses[i]))
  }

  /** In every assignment of statuses, a frame delivered because something is pending is a fresh one. */
  ghost predicate AlwaysFresh(x: SlotContext, lpdus: seq<Lpdu>) {
    forall statuses: seq<LpduStatus> :: |statuses| == |lpdus| ==>
      var l := WithStatuses(lpdus, statuses);
      HasPending(l) && Delivers(x, l) ==> Sends(x, l)
  }

  /** A sender that matches the cycle is the only sender in the slot, whatever the cycles of the others. */
  predicate SendersKeepApart(x: SlotContext, lpdus: seq<Lpdu>) {
    forall i, j :: 0 <= i < |lpdus| && 0 <= j < |lpdus| && i != j && IsTx(x, lpdus[i]) ==>
                     !lpdus[j].config.direction.DirectionTx?
  }

  /**
   A dynamic slot is processed because any of its senders is pending. It delivers nothing but fresh
   frames, in every assignment of statuses, exactly if a sender that matches the cycle does not share
   the slot with another sender.
   */
  lemma DynamicIsFreshIff(x: SlotContext, lpdus: seq<Lpdu>)
    requires x.offsetDynamic <= x.mt
    ensures AlwaysFresh(x, lpdus) <==> SendersKeepApart(x, lpdus)
  {
    if SendersKeepApart(x, lpdus) {
      forall statuses: seq<LpduStatus> | |statuses| == |lpdus| &&
        HasPending(WithStatuses(lpdus, statuses)) && Delivers(x, WithStatuses(lpdus, statuses))
        ensures Sends(x, WithStatuses(lpdus, statuses))
      {
        AloneIsPending(x, lpdus, statuses);
      }
    } else {
      SharedIsStale(x, lpdus);
    }
  }

  lemma AloneIsPending(x: SlotContext, lpdus: seq<Lpdu>, statuses: seq<LpduStatus>)
    requires |statuses| == |lpdus| && SendersKeepApart(x, lpdus)
    requires HasPending(WithStatuses(lpdus, statuses)) && Delivers(x, WithStatuses(lpdus, statuses))
    ensures Sends(x, WithStatuses(lpdus, statuses))
  {
    var l := WithStatuses(lpdus, statuses);
    var k :| 0 <= k < |l| && l[k].PendingTx();
    var tx := ChosenTx(x, l);
    assert IsTx(x, l[tx]) && IsTx(x, lpdus[tx]);
    assert lpdus[k].config.direction.DirectionTx?;
  }

  /** The owner of the slot has transmitted, the other senders wait. */
  lemma SharedIsStale(x: SlotContext, lpdus: seq<Lpdu>)
    requires x.offsetDynamic <= x.mt && !SendersKeepApart(x, lpdus)
    ensures !AlwaysFresh(x, lpdus)
  {
    var i, j :| 0 <= i < |lpdus| && 0 <= j < |lpdus| && i != j && IsTx(x, lpdus[i])
                && lpdus[j].config.direction.DirectionTx?;
    var tx := ChosenTx(x, lpdus);
    var statuses := seq(|lpdus|, k => if k == tx then Transmitted else NotTransmitted);
    var l := WithStatuses(lpdus, statuses);
    SameOwner(x, lpdus, statuses);
    hide ChosenTx;
    assert l[if j == tx then i else j].PendingTx();
    assert HasPending(l) && Delivers(x, l) && !Sends(x, l);
  }

  /** The statuses do not matter to who owns the slot. */
  lemma {:induction false} SameOwner(x: SlotContext, lpdus: seq<Lpdu>, statuses: seq<LpduStatus>)
    requires |statuses| == |lpdus|
    ensures ChosenTx(x, WithStatuses(lpdus, statuses)) == ChosenTx(x, lpdus)
  {
    var l := WithStatuses(lpdus, statuses);
    assert forall k :: 0 <= k < |l| ==> IsTx(x, l[k]) == IsTx(x, lpdus[k]);
  }
}
