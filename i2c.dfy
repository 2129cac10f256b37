/** `i2cSend`: one addressed byte write through the USCI in I2C master
    mode. The hardware's status flags are abstracted: every busy-wait is a
    step that eventually completes, and the addressed device's
    acknowledgement is an input. */
module I2c {
  import opened Bits

  /** A 7-bit slave address. */
  type Addr = a: int | 0 <= a < 128

  /** One byte the firmware puts on the bus for a device. */
  datatype Write = Write(addr: Addr, value: Byte)

  /** What `i2cSend` does to the USCI, in order. */
  datatype Step =
    | SetSlaveAddress(addr: Addr)   // UCB0I2CSA = addr
    | StartTransmit                 // transmitter mode, start condition requested
    | AwaitTxReady                  // busy-wait until the transmit buffer is free
    | LoadTxBuffer(value: Byte)     // UCB0TXBUF = data
    | AwaitStartSent                // busy-wait until the start condition and address went out
    | IssueStop                     // stop condition requested
    | AwaitStopSent                 // busy-wait until the stop condition went out

  /** Result codes of `i2cSend`. */
  const Acked: Byte := 0
  const Nacked: Byte := 1

  /** The steps of one `i2cSend(addr, value)` when the NACK flag reads
      `nack` once the start condition has gone out. */
  function Transaction(addr: Addr, value: Byte, nack: bool): (steps: seq<Step>)
    ensures |steps| >= 7
    ensures steps[0] == SetSlaveAddress(addr) && steps[1] == StartTransmit && steps[2] == AwaitTxReady
    ensures steps[3] == LoadTxBuffer(value) && steps[4] == AwaitStartSent
    ensures steps[|steps| - 2] == IssueStop && steps[|steps| - 1] == AwaitStopSent
    ensures forall k :: 0 <= k < |steps| - 2 ==> steps[k] != IssueStop
    ensures !nack <==> |steps| == 8 && steps[5] == AwaitTxReady
    ensures nack ==> |steps| == 7
  {
    [SetSlaveAddress(addr), StartTransmit, AwaitTxReady, LoadTxBuffer(value), AwaitStartSent]
    + (if nack then [] else [AwaitTxReady])
    + [IssueStop, AwaitStopSent]
  }

  /** The I2C bus as the firmware sees it: the writes issued so far, in
      order. `nackAt(k)` is the addressed device's answer to the `k`-th
      transaction: whether the NACK flag is up once its start condition has
      gone out. */
  class Bus {
    const nackAt: nat -> bool
    var writes: seq<Write>

    constructor (nackAt: nat -> bool)
      ensures this.nackAt == nackAt && writes == []
    {
      this.nackAt := nackAt;
      writes := [];
    }

    /** `i2cSend(addr, value)`: returns 1 when the device did not
        acknowledge and 0 otherwise, with the steps it took. The byte is
        loaded into the transmit buffer before the acknowledgement is
        known, so the write is recorded on both paths. */
    method Send(addr: Addr, value: Byte) returns (code: Byte, steps: seq<Step>)
      modifies this
      ensures writes == old(writes) + [Write(addr, value)]
      ensures code == (if nackAt(|old(writes)|) then Nacked else Acked)
      ensures steps == Transaction(addr, value, nackAt(|old(writes)|))
    {
      var nack := nackAt(|writes|);
      steps := [SetSlaveAddress(addr), StartTransmit];
      steps := steps + [AwaitTxReady];
      steps := steps + [LoadTxBuffer(value)];
      writes := writes + [Write(addr, value)];
      steps := steps + [AwaitStartSent];
      if nack {
        steps := steps + [IssueStop, AwaitStopSent];
        return Nacked, steps;
      }
      steps := steps + [AwaitTxReady];
      steps := steps + [IssueStop, AwaitStopSent];
      code := Acked;
    }
  }
}
