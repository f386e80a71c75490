/** Master write transfers of the I2C driver, against a controller with a FIFO of any depth. */
module I2cMaster {
  import opened Words

  datatype Msg = Msg(buf: seq<byte>, restart: bool)

  datatype Status = Idle | AddrHit | NotAddrHit

  /** Where the calling thread stands with the completion semaphore. */
  datatype Waiter = NotYet | Waiting | Returned

  /** The completion semaphore's count, the calling thread, and the gives since the transfer began. */
  datatype Signal = Signal(sem: nat, waiter: Waiter, given: nat)

  /** `k_sem_give`: it wakes the waiting thread, or counts, up to the limit of 1. */
  function Give(g: Signal): Signal {
    if g.waiter == Waiting then g.(waiter := Returned, given := g.given + 1)
    else g.(sem := if g.sem < 1 then g.sem + 1 else g.sem, given := g.given + 1)
  }

  /** `k_sem_take`: it returns at once if a give was counted. */
  function Taken(g: Signal): Signal {
    if g.sem > 0 then g.(sem := g.sem - 1, waiter := Returned) else g.(waiter := Waiting)
  }

  /** FIFO depth and the largest count one transaction can have. */
  datatype Hardware = Hardware(depth: nat, max: nat) {
    predicate Real() {
      depth > 0 && max > 0
    }
  }

  /**
   The driver's transfer (`cur` counts `msgs++`, `idx` is the index in the current buffer, `nr` the number of
   messages left), and the controller: its FIFO, the count left in the running transaction, whether it is
   still sending the address, its two event flags and the four interrupt enables. `wire`, `starts` and `lost`
   log, since the transfer began, the data bytes sent, the messages at which the controller was told to send a
   start and the address, and those whose address was not acknowledged.
   */
  datatype I2c = I2c(
    msgs: seq<Msg>,
    cur: nat,
    idx: nat,
    nr: nat,
    status: Status,
    fifo: seq<byte>,
    left: nat,
    active: bool,
    addressing: bool,
    hit: bool,
    cmpl: bool,
    onHit: bool,
    onCmpl: bool,
    onEmpty: bool,
    onFull: bool,
    wire: seq<byte>,
    starts: seq<nat>,
    lost: set<nat>,
    done: Signal)

  predicate HasMsg(s: I2c) {
    s.cur < |s.msgs|
  }

  function Buf(s: I2c): seq<byte>
    requires HasMsg(s)
  {
    s.msgs[s.cur].buf
  }

  /** The controller starts a transaction. */
  function Issue(s: I2c, addressing: bool, count: nat): I2c {
    s.(fifo := [], cmpl := false, left := count, active := true, addressing := addressing,
       starts := if addressing then s.starts + [s.cur] else s.starts)
  }

  /** `hpmicro_i2c_transfer` up to its wait, for at least one message, with a semaphore that is not reset. */
  function Begun(msgs: seq<Msg>, sem: nat): I2c
    requires msgs != []
  {
    I2c(msgs, 0, 0, |msgs|, Idle, [], |msgs[0].buf|, true, true, false, false, true, true, false, false, [], [0], {},
        Signal(sem, NotYet, 0))
  }

  /**
   The same on a controller in any state, which may still run a transfer whose call returned early: what the
   driver had stored of it and the bytes in the FIFO are given up, but a pending address hit and the enabled
   FIFO interrupts stay.
   */
  function BegunOver(s: I2c, msgs: seq<Msg>): I2c
    requires msgs != []
  {
    Begun(msgs, s.done.sem).(hit := s.hit, onEmpty := s.onEmpty, onFull := s.onFull)
  }

  /** `hpmicro_restart_i2c`: a count that does not fit is refused, and nothing happens. */
  function Restarted(s: I2c, hw: Hardware): I2c
    requires HasMsg(s)
  {
    if |Buf(s)| > hw.max then s
    else
      var t := Issue(s, s.msgs[s.cur].restart, |Buf(s)|).(onCmpl := true);
      if s.msgs[s.cur].restart then t.(onHit := true) else t.(onEmpty := true)
  }

  /** Fill the FIFO, or put the rest of the message in it. */
  function Pushed(s: I2c, hw: Hardware): I2c
    requires HasMsg(s) && |s.fifo| < hw.depth && s.idx < |Buf(s)|
  {
    var n := Min(hw.depth - |s.fifo|, |Buf(s)| - s.idx);
    s.(fifo := s.fifo + Buf(s)[s.idx..s.idx + n], idx := s.idx + n, onEmpty := s.onEmpty && s.idx + n != |Buf(s)|)
  }

  function AddressPart(s: I2c): I2c {
    if s.hit && s.onHit then s.(status := AddrHit, hit := false, onEmpty := true)
    else if s.status != AddrHit then
      s.(left := 0, active := true, addressing := false, status := NotAddrHit, onFull := false, onEmpty := false,
         done := Give(s.done))
    else s
  }

  function TransmitPart(s: I2c, hw: Hardware): I2c
    requires HasMsg(s) && |s.fifo| < hw.depth
    requires |Buf(s)| > 0 && s.status != NotAddrHit ==> s.idx < |Buf(s)|
  {
    if |Buf(s)| > 0 && s.status != NotAddrHit then Pushed(s, hw) else s
  }

  function CompletePart(s: I2c, hw: Hardware): I2c {
    var t := s.(onCmpl := false, onFull := false, onEmpty := false, cmpl := false);
    if t.nr == 0 then t.(done := Give(s.done))
    else if t.nr > 1 && t.status == AddrHit && t.cur + 1 < |t.msgs| then
      Restarted(t.(nr := t.nr - 1, cur := t.cur + 1, idx := 0), hw)
    else t.(nr := t.nr - 1, done := Give(s.done))
  }

  /** The FIFO can raise its interrupt. */
  predicate WantsData(s: I2c) {
    s.fifo == [] && s.onEmpty
  }

  /** What the handler relies on: no read data waits, and a buffer it will read from is not at its end. */
  predicate Safe(s: I2c, hw: Hardware) {
    && hw.Real() && HasMsg(s) && s.nr == |s.msgs| - s.cur && |s.fifo| < hw.depth
    && (WantsData(s) && |Buf(s)| > 0 ==> s.idx < |Buf(s)|)
  }

  /** `hpmicro_i2c_isr`; the flags are those read at its start. */
  function AfterIsr(s: I2c, hw: Hardware): I2c
    requires Safe(s, hw)
  {
    var a := AddressPart(s);
    var b := if WantsData(s) then TransmitPart(a, hw) else a;
    if s.cmpl then CompletePart(b, hw) else b
  }

  lemma SliceMore(buf: seq<byte>, i: nat, j: nat)
    requires i <= j < |buf|
    ensures buf[i..j + 1] == buf[i..j] + [buf[j]]
  {
  }

  /** The controller's part of the state, as the driver's methods see it. */
  datatype Regs = Regs(
    left: nat,
    active: bool,
    addressing: bool,
    hit: bool,
    cmpl: bool,
    onHit: bool,
    onCmpl: bool,
    onEmpty: bool,
    onFull: bool)

  class Driver {
    const hw: Hardware
    // the transfer
    var msgs: seq<Msg>
    var cur: nat
    var idx: nat
    var nr: nat
    var status: Status
    // the controller
    var fifo: seq<byte>
    var regs: Regs
    ghost var wire: seq<byte>
    ghost var starts: seq<nat>
    ghost var lost: set<nat>
    // the completion semaphore, and the thread in `hpmicro_i2c_transfer`
    var completion: Signal

    ghost function View(): I2c
      reads this
    {
      I2c(msgs, cur, idx, nr, status, fifo, regs.left, regs.active, regs.addressing, regs.hit, regs.cmpl,
          regs.onHit, regs.onCmpl, regs.onEmpty, regs.onFull, wire, starts, lost, completion)
    }

    constructor (hw: Hardware)
      ensures this.hw == hw
    {
      this.hw := hw;
      msgs, cur, idx, nr, status := [], 0, 0, 0, Idle;
      fifo, regs := [], Regs(0, false, false, false, false, false, false, false, false);
      wire, starts, lost, completion := [], [], {}, Signal(0, NotYet, 0);
    }

    /** The wait of `hpmicro_i2c_transfer`. */
    method TakeCompletion()
      modifies `completion
      ensures completion.given == old(completion).given
      ensures old(completion).sem > 0 ==> completion.waiter == Returned && completion.sem == old(completion).sem - 1
      ensures old(completion).sem == 0 ==> completion.waiter == Waiting && completion.sem == 0
    {
      if completion.sem > 0 {
        completion := completion.(sem := completion.sem - 1);
        completion := completion.(waiter := Returned);
      } else {
        completion := completion.(waiter := Waiting);
      }
    }

    /** The return value of `hpmicro_i2c_transfer`, once its wait is over. */
    method ReturnValue() returns (ret: Errno)
      requires completion.waiter == Returned
      ensures ret == if status == NotAddrHit then ENXIO else Success
    {
      ret := Success;
      if status == NotAddrHit {
        ret := ENXIO;
      }
    }

    /** Program the control register and issue the transmission; the FIFO and the completion flag are cleared before. */
    method IssueTransmission(address: bool, count: nat)
      modifies `fifo, `regs, `starts
      ensures fifo == [] && regs == old(regs).(cmpl := false, left := count, active := true, addressing := address)
      ensures starts == if address then old(starts) + [cur] else old(starts)
    {
      if address {
        starts := starts + [cur];
      }
      regs := regs.(cmpl := false);
      fifo := [];
      regs := regs.(left := count, active := true, addressing := address);
    }

    /** The part of `hpmicro_i2c_transfer` before the wait. */
    method Transfer(msgs: seq<Msg>) returns (err: Errno, waits: bool)
      modifies this
      ensures waits <==> msgs != [] && |msgs[0].buf| <= hw.max
      ensures waits ==> View() == BegunOver(old(View()), msgs) && err == Success
      ensures !waits ==> View() == old(View()) && err == if msgs == [] then Success else EINVAL
    {
      if msgs == [] {
        return Success, false;
      }
      if |msgs[0].buf| > hw.max {
        return EINVAL, false;
      }
      Begin(msgs);
      return Success, true;
    }

    method Begin(msgs: seq<Msg>)
      requires msgs != []
      modifies this
      ensures View() == BegunOver(old(View()), msgs)
    {
      StoreTransfer(msgs);
      IssueTransmission(true, |msgs[0].buf|);
      regs := regs.(onHit := true, onCmpl := true);
    }

    method StoreTransfer(msgs: seq<Msg>)
      modifies this
      ensures View() == old(View()).(msgs := msgs, cur := 0, idx := 0, nr := |msgs|, status := Idle,
                                     wire := [], starts := [], lost := {}, done := Signal(old(completion).sem, NotYet, 0))
      ensures regs == old(regs) && cur == 0
    {
      this.msgs, cur, idx, nr, status := msgs, 0, 0, |msgs|, Idle;
      StartLogs();
    }

    method StartLogs()
      modifies `wire, `starts, `lost, `completion
      ensures View() == old(View()).(wire := [], starts := [], lost := {}, done := Signal(old(completion).sem, NotYet, 0))
    {
      wire, starts, lost, completion := [], [], {}, Signal(completion.sem, NotYet, 0);
    }

    method Restart(size: nat) returns (err: Errno)
      requires cur < |msgs| && size == |msgs[cur].buf|
      modifies `fifo, `regs, `starts
      ensures View() == Restarted(old(View()), hw)
      ensures err == if size > hw.max then EINVAL else Success
      ensures err == Success ==>
                && regs.active && regs.left == size && regs.addressing == msgs[cur].restart && regs.onCmpl
                && (if msgs[cur].restart then regs.onHit else regs.onEmpty)
    {
      if size > hw.max {
        return EINVAL;
      }
      IssueTransmission(msgs[cur].restart, size);
      if msgs[cur].restart {
        regs := regs.(onHit := true, onCmpl := true);
      } else {
        regs := regs.(onEmpty := true, onCmpl := true);
      }
      err := Success;
    }

    /** Write bytes while the FIFO has room and the message is not at its end. */
    method WriteBytes()
      requires cur < |msgs| && |fifo| < hw.depth && idx < |msgs[cur].buf|
      modifies `fifo, `regs, `idx
      ensures idx == old(idx) + Min(hw.depth - |old(fifo)|, |msgs[cur].buf| - old(idx))
      ensures fifo == old(fifo) + msgs[cur].buf[old(idx)..idx]
      ensures regs == if idx == |msgs[cur].buf| then old(regs).(onEmpty := false) else old(regs)
    {
      ghost var buf, start := msgs[cur].buf, idx;
      while |fifo| < hw.depth
        invariant start <= idx < |buf| && |old(fifo)| + (idx - start) == |fifo| <= hw.depth
        invariant fifo == old(fifo) + buf[start..idx] && regs == old(regs)
        decreases hw.depth - |fifo|
      {
        SliceMore(buf, start, idx);
        fifo := fifo + [msgs[cur].buf[idx]];
        idx := idx + 1;
        if idx == |msgs[cur].buf| {
          regs := regs.(onEmpty := false);
          break;
        }
      }
    }

    method TransmitEvent()
      requires cur < |msgs| && |fifo| < hw.depth
      requires |msgs[cur].buf| > 0 && status != NotAddrHit ==> idx < |msgs[cur].buf|
      modifies `fifo, `regs, `idx
      ensures View() == TransmitPart(old(View()), hw)
    {
      if |msgs[cur].buf| > 0 && status != NotAddrHit {
        WriteBytes();
      }
    }

    method AddressEvent()
      modifies `status, `regs, `completion
      ensures View() == AddressPart(old(View()))
    {
      hide Give;
      if regs.hit && regs.onHit {
        AddressHit();
      } else {
        if status != AddrHit {
          AddressMissed();
        }
      }
    }

    method AddressHit()
      modifies `status, `regs
      ensures View() == old(View()).(status := AddrHit, hit := false, onEmpty := true)
    {
      status := AddrHit;
      regs := regs.(hit := false);
      regs := regs.(onEmpty := true);
    }

    /** The address was not acknowledged: disable the FIFO interrupts, issue a stop, and give completion. */
    method AddressMissed()
      modifies `status, `regs, `completion
      ensures View() == old(View()).(left := 0, active := true, addressing := false, status := NotAddrHit,
                                     onFull := false, onEmpty := false, done := Give(old(View()).done))
    {
      hide Give;
      status := NotAddrHit;
      regs := regs.(onFull := false, onEmpty := false);
      regs := regs.(left := 0, active := true, addressing := false);
      completion := Give(completion);
    }

    method NextMessage()
      requires cur + 1 < |msgs|
      modifies `cur, `idx, `fifo, `regs, `starts
      ensures View() == Restarted(old(View()).(cur := old(cur) + 1, idx := 0), hw)
    {
      hide Restarted;
      cur := cur + 1;
      idx := 0;
      var err := Restart(|msgs[cur].buf|);
    }

    method ClearCompletion()
      modifies `regs
      ensures View() == old(View()).(onCmpl := false, onFull := false, onEmpty := false, cmpl := false)
    {
      regs := regs.(onCmpl := false, onFull := false, onEmpty := false);
      regs := regs.(cmpl := false);
    }

    method CompletionEvent()
      requires cur < |msgs| && nr <= |msgs| - cur
      modifies `cur, `idx, `nr, `fifo, `regs, `starts, `completion
      ensures View() == CompletePart(old(View()), hw)
    {
      hide Give, Issue, Restarted;
      ClearCompletion();
      if nr == 0 {
        completion := Give(completion);
      } else {
        MessageDone();
      }
    }

    method MessageDone()
      requires cur < |msgs| && 0 < nr <= |msgs| - cur
      modifies `cur, `idx, `nr, `fifo, `regs, `starts, `completion
      ensures var t := old(View()).(nr := old(nr) - 1);
              View() == if t.nr > 0 && t.status == AddrHit then Restarted(t.(cur := t.cur + 1, idx := 0), hw)
                        else t.(done := Give(t.done))
    {
      hide Give, Issue, Restarted;
      nr := nr - 1;
      if nr > 0 && status == AddrHit {
        NextMessage();
      } else {
        completion := Give(completion);
      }
    }

    method Isr()
      requires Safe(View(), hw)
      modifies this
      ensures View() == AfterIsr(old(View()), hw)
    {
      hide CompletePart, TransmitPart;
      var wants, complete := fifo == [] && regs.onEmpty, regs.cmpl;
      AddressEvent();
      if wants {
        TransmitEvent();
      }
      if complete {
        CompletionEvent();
      }
    }
  }
}
