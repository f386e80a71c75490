/**
 One channel of the DMA driver: the `valid` and `busy` flags the driver keeps, and the
 channel registers of the controller it programs.
 */
module Dma {
  import opened Words

  /**
   `armed`: a transfer is programmed and has not ended. `done`: the terminal-count status bit.
   `residual` is the transfer-size register, counted in bytes.
   */
  datatype Channel = Channel(
    valid: bool,
    busy: bool,
    armed: bool,
    enabled: bool,
    done: bool,
    dst: nat,
    size: u32,
    residual: u32)

  datatype Direction = MemoryToMemory | MemoryToPeripheral | PeripheralToMemory | PeripheralToPeripheral | OtherDirection

  const IDLE := Channel(false, false, false, false, false, 0, 0, 0)

  /** What the driver reports as not yet transferred. */
  function Pending(c: Channel): u32 {
    if c.busy then c.residual else 0
  }

  /** A transfer of `size` bytes to `dst` that has just been started. */
  function Running(dst: nat, size: u32): Channel {
    Channel(true, true, true, true, false, dst, size, size)
  }

  /** The channel after `dma_stop`: a busy one is aborted and its status cleared. */
  function Stopped(c: Channel): Channel {
    if c.busy then c.(valid := false, busy := false, armed := false, enabled := false, done := false)
    else c.(valid := false)
  }

  lemma StoppedIsIdle(c: Channel)
    ensures !Stopped(c).busy && !Stopped(c).valid
  {
  }

  class DmaChannel {
    var valid: bool
    var busy: bool
    var armed: bool
    var enabled: bool
    var done: bool
    var dst: nat
    var size: u32
    var residual: u32
    // system memory, as the controller writes it
    var mem: map<nat, byte>
    // how often `irq_lock` has been called and not undone
    var irqLocks: nat
    // number of requests and of channels, from the device tree
    const requests: nat
    const channels: nat
    const index: nat

    ghost function View(): Channel
      reads this
    {
      Channel(valid, busy, armed, enabled, done, dst, size, residual)
    }

    constructor (requests: nat, channels: nat, index: nat)
      ensures View() == IDLE && mem == map[] && irqLocks == 0
      ensures this.requests == requests && this.channels == channels && this.index == index
    {
      valid, busy, armed, enabled, done := false, false, false, false, false;
      dst, size, residual := 0, 0, 0;
      mem, irqLocks := map[], 0;
      this.requests, this.channels, this.index := requests, channels, index;
    }

    /** The SDK's abort and status clear. */
    method Abort()
      modifies this`armed, this`enabled, this`done
      ensures !armed && !enabled && !done
    {
      armed, enabled, done := false, false, false;
    }

    /**
     `setupOk` is the SDK's verdict on the channel settings. The checks on the widths and on the
     burst length compare an unsigned value with 0, so they never reject. An unsupported direction returns
     with interrupts still locked.
     */
    method Configure(slot: nat, direction: Direction, dst: nat, size: u32, setupOk: bool) returns (ret: Errno)
      modifies this
      ensures mem == old(mem)
      ensures irqLocks == old(irqLocks)
                + if slot <= requests && index <= channels && direction == OtherDirection then 1 else 0
      ensures slot > requests ==> ret == ENOTSUP && View() == old(View())
      ensures slot <= requests && index > channels ==> ret == EINVAL && View() == old(View())
      ensures slot <= requests && index <= channels && direction == OtherDirection ==>
                && ret == EINVAL
                && View() == (if old(busy) then Stopped(old(View())).(busy := true) else Stopped(old(View())))
      ensures slot <= requests && index <= channels && direction != OtherDirection && setupOk ==>
                && ret == Success
                && View() == Running(dst, size).(busy := false, enabled := false)
      ensures slot <= requests && index <= channels && direction != OtherDirection && !setupOk ==>
                && ret == EFAULT
                && View() == Stopped(old(View())).(valid := true)
    {
      hide Stopped;
      StoppedIsIdle(View());
      if slot > requests {
        return ENOTSUP;
      }
      if index > channels {
        return EINVAL;
      }
      irqLocks := irqLocks + 1;
      Invalidate();
      if direction == OtherDirection {
        return EINVAL;
      }
      ret := SetUp(dst, size, setupOk);
      irqLocks := irqLocks - 1;
    }

    /** A busy channel is aborted, but stays marked busy. */
    method Invalidate()
      modifies this`valid, this`armed, this`enabled, this`done
      ensures View() == Stopped(old(View())).(busy := old(busy))
    {
      valid := false;
      if busy {
        Abort();
      }
    }

    /** The SDK programs a transfer, or refuses it; either way the channel is valid and not busy. */
    method SetUp(dst: nat, size: u32, setupOk: bool) returns (ret: Errno)
      modifies this`valid, this`busy, this`dst, this`size, this`residual, this`armed, this`enabled, this`done
      ensures setupOk ==> ret == Success && View() == Running(dst, size).(busy := false, enabled := false)
      ensures !setupOk ==> ret == EFAULT && View() == old(View()).(valid := true, busy := false)
    {
      valid := true;
      if setupOk {
        this.dst, this.size, residual := dst, size, size;
        armed, enabled, done := true, false, false;
        ret := Success;
      } else {
        ret := EFAULT;
      }
      busy := false;
    }

    method Start() returns (ret: Errno)
      modifies this`busy, this`enabled
      ensures old(valid) ==> ret == Success && View() == old(View()).(busy := true, enabled := old(armed))
      ensures !old(valid) ==> ret == EFAULT && View() == old(View())
    {
      if valid {
        busy := true;
        enabled := armed;
        ret := Success;
      } else {
        ret := EFAULT;
      }
    }

    method Stop() returns (ret: Errno)
      modifies this`valid, this`busy, this`armed, this`enabled, this`done
      ensures ret == Success && View() == Stopped(old(View()))
      ensures !valid && !busy && (old(busy) ==> !armed && !enabled && !done)
    {
      valid := false;
      if !busy {
        return Success;
      }
      Abort();
      busy := false;
      ret := Success;
    }

    method Suspend() returns (ret: Errno)
      modifies this`enabled
      ensures old(busy) ==> ret == Success && View() == old(View()).(enabled := false)
      ensures !old(busy) ==> ret == EINVAL && View() == old(View())
    {
      if !busy {
        return EINVAL;
      }
      enabled := false;
      ret := Success;
    }

    /** Enabling a channel whose transfer has ended starts nothing. */
    method Resume() returns (ret: Errno)
      modifies this`enabled
      ensures old(busy) ==> ret == Success && View() == old(View()).(enabled := old(armed))
      ensures !old(busy) ==> ret == EINVAL && View() == old(View())
    {
      if !busy {
        return EINVAL;
      }
      enabled := armed;
      ret := Success;
    }

    method Reload(dst: nat, size: u32, setupOk: bool) returns (ret: Errno)
      modifies this`dst, this`size, this`residual, this`armed, this`enabled, this`done
      ensures !old(valid) ==> ret == EFAULT && View() == old(View())
      ensures old(valid) && !setupOk ==> ret == EFAULT && View() == old(View())
      ensures old(valid) && setupOk ==>
                ret == Success && View() == Running(dst, size).(busy := old(busy), enabled := false)
    {
      if !valid {
        return EFAULT;
      }
      if !setupOk {
        return EFAULT;
      }
      this.dst, this.size, residual := dst, size, size;
      armed, enabled, done := true, false, false;
      ret := Success;
    }

    method GetStatus() returns (pending: u32, isBusy: bool)
      ensures pending == Pending(View()) && isBusy == busy
    {
      if busy {
        isBusy, pending := true, residual;
      } else {
        isBusy, pending := false, 0;
      }
    }

    /** The interrupt handler's reading of the status, then the first half of the channel callback. */
    method TransferEnded() returns (success: bool)
      modifies this`busy, this`done
      ensures View() == old(View()).(busy := false, done := false)
      ensures success == old(done)
    {
      success := done;
      done := false;
      busy := false;
    }

    /** The controller moves one byte from the peripheral to memory. */
    method HardwareByte(b: byte)
      requires armed && enabled && residual > 0 && residual <= size
      modifies this`mem, this`residual
      ensures mem == old(mem)[dst + size - old(residual) := b]
      ensures View() == old(View()).(residual := old(residual) - 1)
    {
      mem := mem[dst + size - residual := b];
      residual := residual - 1;
    }

    /** The controller reaches terminal count. */
    method HardwareTerminal()
      requires armed && enabled && residual == 0
      modifies this`armed, this`enabled, this`done
      ensures View() == old(View()).(armed := false, enabled := false, done := true)
    {
      armed, enabled, done := false, false, true;
    }
  }

  /** One call of the driver's interface, or the end of a transfer. */
  datatype Call =
    | Configure(direction: Direction, dst: nat, size: u32)
    | Start
    | Stop
    | Suspend
    | Resume
    | Reload(newDst: nat, newSize: u32)
    | Ended

  /** The effect of one call on a channel, for an existing slot and channel and settings the SDK takes. */
  function After(c: Channel, call: Call): Channel {
    match call
    case Configure(direction, dst, size) =>
      if direction == OtherDirection then
        if c.busy then Stopped(c).(busy := true) else Stopped(c)
      else Running(dst, size).(busy := false, enabled := false)
    case Start => if c.valid then c.(busy := true, enabled := c.armed) else c
    case Stop => Stopped(c)
    case Suspend => if c.busy then c.(enabled := false) else c
    case Resume => if c.busy then c.(enabled := c.armed) else c
    case Reload(dst, size) => if c.valid then Running(dst, size).(busy := c.busy, enabled := false) else c
    case Ended => c.(busy := false, done := false)
  }

  function AfterAll(c: Channel, calls: seq<Call>): (r: Channel) {
    if calls == [] then c else After(AfterAll(c, calls[..|calls| - 1]), calls[|calls| - 1])
  }

  /** A call that breaks "busy implies valid": an unsupported direction on a busy channel. */
  predicate Breaks(c: Channel, call: Call) {
    call.Configure? && call.direction == OtherDirection && c.busy
  }

  /** From a channel where busy implies valid, a call keeps it so exactly when it is not such a configure. */
  lemma BusyImpliesValidIff(c: Channel, call: Call)
    requires c.busy ==> c.valid
    ensures (After(c, call).busy ==> After(c, call).valid) <==> !Breaks(c, call)
  {
  }

  /** Over any history of calls none of which is such a configure, a busy channel is a configured one. */
  lemma {:induction false} BusyImpliesValid(calls: seq<Call>)
    requires forall k :: 0 <= k < |calls| ==> !Breaks(AfterAll(IDLE, calls[..k]), calls[k])
    ensures AfterAll(IDLE, calls).busy ==> AfterAll(IDLE, calls).valid
  {
    if calls != [] {
      var n := |calls| - 1;
      forall k | 0 <= k < n
        ensures !Breaks(AfterAll(IDLE, calls[..n][..k]), calls[..n][k])
      {
        assert calls[..n][..k] == calls[..k];
      }
      BusyImpliesValid(calls[..n]);
      BusyImpliesValidIff(AfterAll(IDLE, calls[..n]), calls[n]);
    }
  }
}
