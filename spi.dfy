/** The SPI link of the scientific module: `SPIManager` over the DMA SPI
    slave driver. The driver is a library whose code is not part of this
    model; it is represented by the few observable quantities the manager
    relies on. */
module Spi {
  import opened Bytes
  import opened Packets
  import opened Commands

  /** The DMA SPI slave as `SPIManager` sees it. */
  class DmaSlave {
    /** Transactions queued and not yet completed by the master (`remained()`). */
    var remained: nat
    /** The received frames of completed transactions, oldest first
        (`available()` is their number, `pop()` drops the oldest). */
    var results: seq<Frame>
    /** The transmit buffer handed to the most recent `queue`. The driver
        keeps the pointer, not a copy: what a transaction sends is what this
        buffer holds when the master clocks it out. */
    var queuedTx: array<Byte>
    /** The frames the master has clocked out of the slave, oldest first. */
    var sent: seq<seq<Byte>>

    constructor ()
      ensures remained == 0 && results == [] && sent == []
      ensures fresh(queuedTx) && queuedTx.Length == 0
    {
      remained, results, sent := 0, [], [];
      queuedTx := new Byte[0];
    }

    method Remained() returns (n: nat)
      ensures n == remained
    {
      n := remained;
    }

    /** `queue(rx, tx, size)`: one more transaction of `tx.Length` bytes each way. */
    method Queue(tx: array<Byte>)
      modifies this
      ensures remained == old(remained) + 1
      ensures queuedTx == tx
      ensures results == old(results) && sent == old(sent)
    {
      remained := remained + 1;
      queuedTx := tx;
    }

    method Available() returns (n: nat)
      ensures n == |results|
    {
      n := |results|;
    }

    /** The receive buffer as it stands for the oldest completed transaction. */
    method Received() returns (rx: Frame)
      requires results != []
      ensures rx == results[0]
    {
      rx := results[0];
    }

    /** `pop()`: discard the oldest completed transaction. */
    method Pop()
      requires results != []
      modifies this
      ensures results == old(results)[1..]
      ensures remained == old(remained) && queuedTx == old(queuedTx) && sent == old(sent)
    {
      results := results[1..];
    }

    /** The master clocks out one queued transaction: it receives what the
        queued transmit buffer holds at that moment and delivers `rx`.
        This is the hardware's step, not the program's: it lets callers of
        the model describe what happens between two calls of `Update`. */
    method Complete(rx: Frame)
      requires remained > 0
      modifies this
      ensures remained == old(remained) - 1
      ensures results == old(results) + [rx]
      ensures sent == old(sent) + [queuedTx[..]]
      ensures queuedTx == old(queuedTx)
    {
      remained := remained - 1;
      results := results + [rx];
      sent := sent + [queuedTx[..]];
    }
  }

  /** `SPIManager`: sends telemetry and latches the last decoded command. */
  class SpiManager {
    var latestCommand: Command
    const slave: DmaSlave
    /** The DMA transmit buffer (`spi_slave_tx_buf`). */
    const txBuf: array<Byte>

    ghost predicate Valid()
      reads this
    {
      txBuf.Length == FrameSize
    }

    /** The latch starts as the empty string; configuring the slave is left out. */
    constructor (slave: DmaSlave)
      ensures Valid() && fresh(txBuf)
      ensures this.slave == slave && latestCommand == Empty
    {
      this.slave := slave;
      txBuf := new Byte[FrameSize];
      latestCommand := Empty;
    }

    /** `update`: encode the packet into the transmit buffer, queue a
        transaction over that buffer if none is outstanding, then decode
        every completed transaction in arrival order into the latch. An
        outstanding transaction is left as it was: one this manager queued
        still points at `txBuf`, so it sends the frame just written. */
    method Update(dataPacket: ScientificDataPacket)
      requires Valid()
      modifies this, slave, txBuf
      ensures Valid()
      ensures txBuf[..] == ScientificFrame(dataPacket)
      ensures old(slave.remained) == 0 ==>
        slave.remained == 1 && slave.queuedTx == txBuf
      ensures old(slave.remained) != 0 ==>
        slave.remained == old(slave.remained) && slave.queuedTx == old(slave.queuedTx)
      ensures slave.sent == old(slave.sent)
      ensures slave.results == []
      ensures latestCommand == Replay(old(latestCommand), old(slave.results))
    {
      DumpScientificPacket(dataPacket, txBuf);
      var outstanding := slave.Remained();
      if outstanding == 0 {
        slave.Queue(txBuf);
      }
      ghost var arrived := slave.results;
      ghost var consumed := 0;
      var n := slave.Available();
      while n != 0
        invariant 0 <= consumed <= |arrived|
        invariant slave.results == arrived[consumed..]
        invariant n == |slave.results|
        invariant Replay(latestCommand, slave.results) == Replay(old(latestCommand), old(slave.results))
        invariant txBuf[..] == ScientificFrame(dataPacket)
        invariant old(slave.remained) == 0 ==>
          slave.remained == 1 && slave.queuedTx == txBuf
        invariant old(slave.remained) != 0 ==>
          slave.remained == old(slave.remained) && slave.queuedTx == old(slave.queuedTx)
        invariant slave.sent == old(slave.sent)
        decreases n
      {
        var rx := slave.Received();
        latestCommand := ParseCommandPacket(rx);
        slave.Pop();
        consumed := consumed + 1;
        n := slave.Available();
      }
    }

    /** `getCommand`: hand out the latch and reset it to "null", so a
        command is delivered at most once. */
    method GetCommand() returns (command: Command)
      modifies this
      ensures command == old(latestCommand)
      ensures latestCommand == Null
    {
      command := latestCommand;
      latestCommand := Null;
    }
  }

  /** One completed transaction whose frame decodes to "fire" is handed
      out once; the next read of the latch gives "null". */
  method FireIsDeliveredOnce(telemetry: ScientificDataPacket, fire: Frame)
    requires ParseCommandPacket(fire) == Fire
  {
    var slave := new DmaSlave();
    var manager := new SpiManager(slave);
    manager.Update(telemetry);
    assert slave.remained == 1 && slave.results == [];
    slave.Complete(fire);
    assert slave.results == [fire];
    manager.Update(telemetry);
    var first := manager.GetCommand();
    assert first == Fire;
    var second := manager.GetCommand();
    assert second == Null;
  }

  /** Frames decoding to "purge" and then "abort" arrive before the latch
      is read: only "abort" is handed out. */
  method LastCommandWins(telemetry: ScientificDataPacket, purge: Frame, abort: Frame)
    requires ParseCommandPacket(purge) == Purge && ParseCommandPacket(abort) == Abort
  {
    var slave := new DmaSlave();
    var manager := new SpiManager(slave);
    manager.Update(telemetry);
    slave.Complete(purge);
    assert slave.results == [purge];
    manager.Update(telemetry);
    slave.Complete(abort);
    assert slave.results == [abort];
    manager.Update(telemetry);
    var command := manager.GetCommand();
    assert command == Abort;
  }

  /** A pending "fire" is lost when a frame carrying no command completes
      before the latch is read. */
  method PendingCommandLost(telemetry: ScientificDataPacket, fire: Frame, noise: Frame)
    requires ParseCommandPacket(fire) == Fire && ParseCommandPacket(noise) == Null
  {
    var slave := new DmaSlave();
    var manager := new SpiManager(slave);
    manager.Update(telemetry);
    slave.Complete(fire);
    assert slave.results == [fire];
    manager.Update(telemetry);
    assert manager.latestCommand == Fire;
    slave.Complete(noise);
    assert slave.results == [noise];
    manager.Update(telemetry);
    var command := manager.GetCommand();
    assert command == Null;
  }

  /** A second `update` before the master clocks out the outstanding
      transaction queues nothing, but rewrites the buffer that transaction
      points at: the master receives the newer telemetry frame. */
  method LatestTelemetryIsSent(older: ScientificDataPacket, newer: ScientificDataPacket, rx: Frame)
  {
    var slave := new DmaSlave();
    var manager := new SpiManager(slave);
    manager.Update(older);
    assert slave.remained == 1 && slave.queuedTx == manager.txBuf;
    manager.Update(newer);
    assert slave.remained == 1 && slave.queuedTx == manager.txBuf;
    slave.Complete(rx);
    assert slave.sent == [ScientificFrame(newer)];
  }
}
