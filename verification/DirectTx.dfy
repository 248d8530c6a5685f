/**
 Sending the PDUs that travel on their own: what the schedule, the comparison of checksums and the
 transport make together of a sequence of payloads, one for each simulation step.
 */
module DirectTx {
  import opened Bytes
  import opened Container
  import opened Matrix
  import opened PduObjects
  import opened TxSchedule
  import opened ContainerObjects

  /** The stored checksum, and the payload that was sent last. */
  datatype Sender = Sender(checksum: nat, sent: Option<seq<byte>>)

  predicate IsDirect(c: PduConfig) {
    c.dir == DirTx && c.header == HeaderNone && c.containerId == 0
  }

  /** The flags when the transport looks at them: it sends a raised PDU and lowers the flag. */
  function FlagsToSend(c: PduConfig, hash: seq<byte> -> nat, epoch: int, t: nat, checksum: nat, payload: seq<byte>)
    : (bool, nat)
  {
    FlagsVisited(c, hash(payload), FlagsAfter(c, epoch, t, (false, checksum)))
  }

  function Send(c: PduConfig, hash: seq<byte> -> nat, epoch: int, t: nat, s: Sender, payload: seq<byte>): Sender {
    var flags := FlagsToSend(c, hash, epoch, t, s.checksum, payload);
    Sender(flags.1, if flags.0 then Some(payload) else s.sent)
  }

  /** Step `k` of the run is at time `k`; a new object has checksum 0. */
  function SendRun(c: PduConfig, hash: seq<byte> -> nat, epoch: int, payloads: seq<seq<byte>>): Sender {
    if payloads == [] then Sender(0, None)
    else
      var n := |payloads| - 1;
      Send(c, hash, epoch, n, SendRun(c, hash, epoch, payloads[..n]), payloads[n])
  }

  predicate Forced(c: PduConfig, epoch: int, t: nat) {
    c.interval != 0 && c.trigger == Periodic && Due(c.interval, c.phase, epoch, t)
  }

  /** The payload is sent in the last step of the run. */
  predicate SendsLast(c: PduConfig, hash: seq<byte> -> nat, epoch: int, payloads: seq<seq<byte>>)
    requires payloads != []
  {
    var n := |payloads| - 1;
    FlagsToSend(c, hash, epoch, n, SendRun(c, hash, epoch, payloads[..n]).checksum, payloads[n]).0
  }

  /** What the stored checksum is compared with: the previous payload's, or 0 at first. */
  function Reference(hash: seq<byte> -> nat, payloads: seq<seq<byte>>): nat {
    if payloads == [] then 0 else hash(payloads[|payloads| - 1])
  }

  /** The checksum after any run is that of the latest payload, whatever was forced in between. */
  lemma {:induction false} ChecksumIsLatest(c: PduConfig, hash: seq<byte> -> nat, epoch: int, payloads: seq<seq<byte>>)
    requires IsDirect(c)
    ensures SendRun(c, hash, epoch, payloads).checksum == Reference(hash, payloads)
  {
    if payloads != [] {
      ChecksumIsLatest(c, hash, epoch, payloads[..|payloads| - 1]);
    }
  }

  /**
   A step sends exactly if the payload's hash differs from that of the step before, or a periodic
   schedule fires; a forced payload that hashes to the sentinel 0 is not sent.
   */
  lemma SendsIff(c: PduConfig, hash: seq<byte> -> nat, epoch: int, payloads: seq<seq<byte>>)
    requires IsDirect(c) && payloads != []
    ensures var n := |payloads| - 1;
            SendsLast(c, hash, epoch, payloads) <==>
              if Forced(c, epoch, n) then hash(payloads[n]) != 0
              else hash(payloads[n]) != Reference(hash, payloads[..n])
  {
    ChecksumIsLatest(c, hash, epoch, payloads[..|payloads| - 1]);
  }

  /** If no payload hashes to 0, what was sent last always hashes like the latest payload. */
  lemma {:induction false} LatestIsSent(c: PduConfig, hash: seq<byte> -> nat, epoch: int, payloads: seq<seq<byte>>)
    requires IsDirect(c) && payloads != []
    requires forall k :: 0 <= k < |payloads| ==> hash(payloads[k]) != 0
    ensures var sent := SendRun(c, hash, epoch, payloads).sent;
            sent.Some? && hash(sent.value) == hash(payloads[|payloads| - 1])
  {
    var n := |payloads| - 1;
    ChecksumIsLatest(c, hash, epoch, payloads[..n]);
    if n > 0 { LatestIsSent(c, hash, epoch, payloads[..n]); }
  }
}
