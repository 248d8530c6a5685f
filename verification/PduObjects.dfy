/** The PDU objects of a network: what is configured, and the flags and payload that a step changes. */
module PduObjects {
  import opened Bytes
  import opened Container
  import opened Matrix

  datatype Trigger = OnChange | Periodic

  /** `containerId` is the id of the container that carries the PDU; `header` says if it is one itself. */
  datatype PduConfig = PduConfig(
    id: nat,
    dir: Direction,
    header: HeaderFormat,
    containerId: nat,
    priority: nat,
    offset: nat,
    count: nat,
    interval: nat,
    phase: nat,
    trigger: Trigger)

  class PduObject {
    const config: PduConfig
    const payload: array<byte>
    var needsTx: bool
    var updateSignals: bool
    var checksum: nat

    constructor (config: PduConfig, length: nat)
      ensures this.config == config && fresh(payload) && payload.Length == length
      ensures !needsTx && !updateSignals && checksum == 0
    {
      this.config := config;
      payload := new byte[length](_ => 0);
      needsTx, updateSignals, checksum := false, false, 0;
    }

    /** The object as an I-PDU to send. */
    ghost function Tx(): TxItem
      reads this, payload
    {
      TxItem(config.id, payload[..], needsTx, checksum)
    }

    /** The part of it that scheduling and sending change. */
    ghost function Flags(): (bool, nat)
      reads `needsTx, `checksum
    {
      (needsTx, checksum)
    }

    /** The object as an I-PDU to receive. */
    ghost function Rx(): RxItem
      reads this, payload
    {
      RxItem(config.id, payload[..], updateSignals)
    }
  }
}
