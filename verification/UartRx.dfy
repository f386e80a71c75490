/**
 The asynchronous receive path of the UART driver on top of one DMA channel: its state, the effect of
 each entry point, and a byte-queue monitor that says which event logs are right.
 */
module UartRx {
  import opened Words
  import Dma

  const NULL: nat := 0

  /**
   What an observer of the driver sees, in order. `Loaded` is the moment a buffer is given to DMA and
   `Byte` a byte DMA wrote. An `RxRdy` carries the bytes the slice holds when the event is raised.
   */
  datatype Event =
    | Enabled(buf: nat, len: u32)
    | Supplied(buf: nat, len: u32)
    | Loaded(buf: nat, len: u32)
    | Byte(b: byte)
    | BufRequest
    | RxRdy(buf: nat, offset: u32, data: seq<byte>)
    | Released(buf: nat)
    | RxDisabled

  /** The application's answer from inside the buffer-request callback. */
  datatype Reply = NoReply | Reply(buf: nat, len: u32)

  datatype Rx = Rx(
    ch: Dma.Channel,
    mem: map<nat, byte>,
    buf: nat,
    total: u32,
    offset: u32,
    size: u32,
    next: nat,
    nextSize: u32,
    loaded: bool,
    log: seq<Event>)

  const INITIAL := Rx(Dma.IDLE, map[], NULL, 0, 0, 0, NULL, 0, false, [])

  function ByteAt(mem: map<nat, byte>, a: nat): byte {
    if a in mem then mem[a] else 0
  }

  function Read(mem: map<nat, byte>, a: nat, n: nat): (r: seq<byte>)
    ensures |r| == n
    ensures forall k :: 0 <= k < n ==> r[k] == ByteAt(mem, a + k)
  {
    seq<byte>(n, k requires 0 <= k < n => ByteAt(mem, a + k))
  }

  /** `current_total_size - current_offset - pending_length`, in unsigned arithmetic. */
  function Fresh(s: Rx): u32 {
    Sub32(Sub32(s.total, s.offset), Dma.Pending(s.ch))
  }

  function Flushed(s: Rx): Rx {
    var n := Fresh(s);
    if n == 0 then s.(size := 0)
    else s.(size := n, offset := Add32(s.offset, n),
            log := s.log + [RxRdy(s.buf, s.offset, Read(s.mem, s.buf + s.offset, n))])
  }

  function Answered(s: Rx, reply: Reply): Rx {
    match reply
    case NoReply => s
    case Reply(buf, len) => s.(next := buf, nextSize := len, log := s.log + [Supplied(buf, len)])
  }

  /** A buffer starts to receive: the next one is requested, then DMA is started. */
  function Begun(s: Rx, buf: nat, len: u32, reply: Reply): Rx {
    var r := Answered(s.(next := NULL, nextSize := 0, log := s.log + [BufRequest]), reply);
    r.(ch := Dma.Running(buf, len), buf := buf, total := len, offset := 0, size := 0, loaded := true,
       log := r.log + [Loaded(buf, len)])
  }

  function AfterDisable(s: Rx): Rx {
    var f := Flushed(s);
    f.(ch := Dma.Stopped(s.ch), buf := NULL, total := 0, offset := 0, size := 0,
       next := NULL, nextSize := 0, loaded := false, log := f.log + [Released(s.buf), RxDisabled])
  }

  function AfterTimeout(s: Rx): Rx {
    Flushed(s).(ch := if s.ch.busy then s.ch.(enabled := s.ch.armed) else s.ch)
  }

  /** After a flush that handed something over the buffer is released. */
  function ReleasedIfSliced(s: Rx): Rx {
    if s.size > 0 then s.(log := s.log + [Released(s.buf)]) else s
  }

  /** The completion interrupt of a transfer that ended with terminal count. */
  function AfterCompletion(s: Rx, reply: Reply): Rx {
    var r := ReleasedIfSliced(Flushed(s.(ch := s.ch.(busy := false, done := false))));
    if r.next == NULL then AfterDisable(r) else Begun(r, r.next, r.nextSize, reply)
  }

  datatype Step =
    | Enable(buf: nat, len: u32, reply: Reply)
    | Supply(buf: nat, len: u32)
    | HardwareByte(b: byte)
    | HardwareTerminal
    | Timeout
    | Completion(reply: Reply)
    | Disable

  /** An answer carries a real buffer. */
  predicate Sensible(reply: Reply) {
    reply.Reply? ==> reply.buf != NULL
  }

  /** When a step can happen: the hardware's conditions, and what the driver asserts of its callers. */
  predicate CanStep(s: Rx, step: Step) {
    match step
    case Enable(buf, _, reply) => buf != NULL && Sensible(reply)
    case Supply(buf, _) => buf != NULL && s.next == NULL && s.nextSize == 0
    case HardwareByte(_) => s.ch.armed && s.ch.enabled && 0 < s.ch.residual <= s.ch.size
    case HardwareTerminal => s.ch.armed && s.ch.enabled && s.ch.residual == 0
    case Timeout => true
    case Completion(reply) => s.ch.done && Sensible(reply)
    case Disable => true
  }

  function Next(s: Rx, step: Step): Rx
    requires CanStep(s, step)
  {
    match step
    case Enable(buf, len, reply) => Begun(s.(log := s.log + [Enabled(buf, len)]), buf, len, reply)
    case Supply(buf, len) => Answered(s, Reply(buf, len))
    case HardwareByte(b) =>
      s.(ch := s.ch.(residual := s.ch.residual - 1),
         mem := s.mem[s.ch.dst + s.ch.size - s.ch.residual := b],
         log := s.log + [Byte(b)])
    case HardwareTerminal => s.(ch := s.ch.(armed := false, enabled := false, done := true))
    case Timeout => AfterTimeout(s)
    case Completion(reply) => AfterCompletion(s, reply)
    case Disable => AfterDisable(s)
  }

  /** A run: every state follows from the one before by a step that could happen. */
  predicate IsRun(states: seq<Rx>, steps: seq<Step>) {
    && |states| == |steps| + 1
    && states[0] == INITIAL
    && forall k :: 0 <= k < |steps| ==> CanStep(states[k], steps[k]) && states[k + 1] == Next(states[k], steps[k])
  }

  // ----- What a right log is, told without the driver's state

  /** The bytes DMA wrote. */
  function Written(log: seq<Event>): seq<byte> {
    if log == [] then [] else AddWritten(Written(log[..|log| - 1]), log[|log| - 1])
  }

  function AddWritten(w: seq<byte>, e: Event): seq<byte> {
    match e
    case Byte(b) => w + [b]
    case _ => w
  }

  /** The bytes handed to the application. */
  function Delivered(log: seq<Event>): seq<byte> {
    if log == [] then [] else AddDelivered(Delivered(log[..|log| - 1]), log[|log| - 1])
  }

  function AddDelivered(d: seq<byte>, e: Event): seq<byte> {
    match e
    case RxRdy(_, _, data) => d + data
    case _ => d
  }

  /**
   The monitor's memory: the buffer in use (if `active`), whether it has been released, the position
   its slices have reached, the buffers offered and not yet loaded, the bytes written and not delivered.
   Enabling gives up on the undelivered bytes of a buffer still in use; `dropped` counts them.
   */
  datatype Mon = Mon(
    ok: bool,
    active: bool,
    released: bool,
    buf: nat,
    len: u32,
    pos: nat,
    offers: seq<(nat, u32)>,
    queue: seq<byte>,
    dropped: nat)

  function Observe(m: Mon, e: Event): Mon {
    match e
    case Enabled(buf, len) => m.(active := false, offers := [(buf, len)], queue := [], dropped := m.dropped + |m.queue|)
    case Supplied(buf, len) => m.(offers := m.offers + [(buf, len)])
    case Loaded(buf, len) =>
      m.(ok := m.ok && m.offers != [] && m.offers[0] == (buf, len) && m.queue == [],
         active := true, released := false, buf := buf, len := len, pos := 0,
         offers := if m.offers == [] then [] else m.offers[1..])
    case Byte(b) => m.(ok := m.ok && m.active && m.pos + |m.queue| < m.len, queue := m.queue + [b])
    case BufRequest => m
    case RxRdy(buf, offset, data) =>
      m.(ok := m.ok && m.active && !m.released && buf == m.buf && offset == m.pos && data != []
               && m.pos + |data| <= m.len && data <= m.queue,
         pos := m.pos + |data|,
         queue := if data <= m.queue then m.queue[|data|..] else [])
    case Released(buf) => m.(ok := m.ok && (m.active ==> buf == m.buf), released := true)
    case RxDisabled => m.(ok := m.ok && m.queue == [], active := false, offers := [])
  }

  function Watch(log: seq<Event>): Mon {
    if log == [] then Mon(true, false, false, NULL, 0, 0, [], [], 0)
    else Observe(Watch(log[..|log| - 1]), log[|log| - 1])
  }

  // ----- The driver

  /** Disabling or stopping the channel does not change what a flush does, as long as it stays busy. */
  lemma FlushSuspended(s: Rx, c: Dma.Channel)
    requires c == if s.ch.busy then s.ch.(enabled := false) else s.ch
    ensures Flushed(s.(ch := c)) == Flushed(s).(ch := c)
    ensures Dma.Stopped(c) == Dma.Stopped(s.ch)
  {
  }

  lemma BegunStopped(s: Rx, c: Dma.Channel, buf: nat, len: u32, reply: Reply)
    ensures Begun(s.(ch := c), buf, len, reply) == Begun(s, buf, len, reply)
  {
  }

  class UartRxDriver {
    const dma: Dma.DmaChannel
    var buf: nat
    var total: u32
    var offset: u32
    var size: u32
    var next: nat
    var nextSize: u32
    var loaded: bool
    // the device-tree facts dma_config is called with
    const slot: nat
    ghost var log: seq<Event>

    ghost predicate Valid() {
      slot <= dma.requests && dma.index <= dma.channels
    }

    ghost function View(): Rx
      reads this, dma
    {
      Rx(dma.View(), dma.mem, buf, total, offset, size, next, nextSize, loaded, log)
    }

    constructor (dma: Dma.DmaChannel, slot: nat)
      requires slot <= dma.requests && dma.index <= dma.channels
      requires dma.View() == Dma.IDLE && dma.mem == map[]
      ensures Valid() && View() == INITIAL && this.dma == dma
    {
      this.dma, this.slot := dma, slot;
      buf, total, offset, size, next, nextSize, loaded := NULL, 0, 0, 0, NULL, 0, false;
      log := [];
    }

    ghost method Raise(e: Event)
      modifies this`log
      ensures log == old(log) + [e]
    {
      log := log + [e];
    }

    method RaiseRxRdy()
      modifies this`offset, this`log
      ensures View() == old(View()).(
                offset := Add32(old(offset), size),
                log := if size > 0 then old(log) + [RxRdy(buf, old(offset), Read(dma.mem, buf + old(offset), size))]
                       else old(log))
    {
      ghost var event := RxRdy(buf, offset, Read(dma.mem, buf + offset, size));
      offset := Add32(offset, size);
      if size > 0 {
        Raise(event);
      }
    }

    /** The request event; the application may answer from inside the callback. */
    method RequestBuffer(reply: Reply)
      modifies this`next, this`nextSize, this`log
      ensures View() == Answered(old(View()).(log := old(log) + [BufRequest]), reply)
    {
      Raise(BufRequest);
      if reply.Reply? {
        next, nextSize := reply.buf, reply.len;
        Raise(Supplied(reply.buf, reply.len));
      }
    }

    method Flush()
      modifies this`offset, this`size, this`log
      ensures View() == Flushed(old(View()))
    {
      var pending, _ := dma.GetStatus();
      var received := Sub32(Sub32(total, offset), pending);
      if received > 0 {
        size := received;
        RaiseRxRdy();
      } else {
        size := 0;
      }
    }

    method DmaLoad(buf: nat, len: u32)
      requires Valid() && buf != NULL
      modifies dma
      ensures View() == old(View()).(ch := Dma.Running(buf, len).(busy := false, enabled := false))
    {
      var _ := dma.Configure(slot, Dma.PeripheralToMemory, buf, len, true);
    }

    /** Give the current buffer to DMA and start it. */
    method StartDma()
      requires Valid() && buf != NULL
      modifies this`loaded, this`log, dma
      ensures View() == old(View()).(ch := Dma.Running(buf, total), loaded := true, log := old(log) + [Loaded(buf, total)])
    {
      DmaLoad(buf, total);
      var _ := dma.Start();
      Raise(Loaded(buf, total));
      loaded := true;
    }

    method ClearInfo()
      modifies this`buf, this`total, this`offset, this`size, this`next, this`nextSize, this`loaded
      ensures View() == old(View()).(buf := NULL, total := 0, offset := 0, size := 0, next := NULL, nextSize := 0, loaded := false)
    {
      next, nextSize, loaded := NULL, 0, false;
      offset, buf, total, size := 0, NULL, 0, 0;
    }

    /** Stop the channel and forget the buffer. */
    method StopAndClear()
      requires Valid()
      modifies this, dma
      ensures View() == old(View()).(ch := Dma.Stopped(old(dma.View())), buf := NULL, total := 0, offset := 0, size := 0,
                                     next := NULL, nextSize := 0, loaded := false, log := old(log) + [RxDisabled])
    {
      var _ := dma.Stop();
      ClearInfo();
      Raise(RxDisabled);
    }

    method RxDisable() returns (ret: Errno)
      requires Valid()
      modifies this, dma
      ensures ret == Success && View() == AfterDisable(old(View()))
    {
      hide Read, Flushed;
      var _ := dma.Suspend();
      FlushSuspended(old(View()), dma.View());
      Flush();
      Raise(Released(buf));
      StopAndClear();
      assert log == Flushed(old(View())).log + [Released(old(buf)), RxDisabled];
      ret := Success;
    }

    /** A buffer starts to receive, from the driver's fields on. */
    method Begin(buf: nat, len: u32, reply: Reply)
      requires Valid() && buf != NULL
      modifies this, dma
      ensures View() == Begun(old(View()), buf, len, reply)
    {
      next, nextSize, loaded, offset := NULL, 0, false, 0;
      this.buf, total, size := buf, len, 0;
      RequestBuffer(reply);
      StartDma();
    }

    method ReplaceRxBuffer(reply: Reply) returns (ret: Errno)
      requires Valid()
      modifies this, dma
      ensures old(next) == NULL ==> ret == EFAULT && View() == old(View())
      ensures old(next) != NULL ==> ret == Success && View() == Begun(old(View()), old(next), old(nextSize), reply)
    {
      hide Begun;
      if next != NULL {
        var _ := dma.Stop();
        BegunStopped(old(View()), dma.View(), next, nextSize, reply);
        Begin(next, nextSize, reply);
        ret := Success;
      } else {
        ret := EFAULT;
      }
    }

    method RxEnable(buf: nat, len: u32, reply: Reply) returns (ret: Errno)
      requires Valid() && buf != NULL
      modifies this, dma
      ensures ret == Success
      ensures View() == Begun(old(View()).(log := old(log) + [Enabled(buf, len)]), buf, len, reply)
    {
      hide Begun;
      Raise(Enabled(buf, len));
      Begin(buf, len, reply);
      ret := Success;
    }

    method RxBufRsp(buf: nat, len: u32) returns (ret: Errno)
      requires next == NULL && nextSize == 0
      modifies this`next, this`nextSize, this`log
      ensures ret == Success && View() == Answered(old(View()), Reply(buf, len))
    {
      next, nextSize := buf, len;
      Raise(Supplied(buf, len));
      ret := Success;
    }

    method FlushAndRelease()
      requires Valid()
      modifies this`offset, this`size, this`log
      ensures View() == ReleasedIfSliced(Flushed(old(View())))
    {
      hide Flushed;
      Flush();
      if size > 0 {
        Raise(Released(buf));
      }
    }

    /** The receive channel's interrupt, through the DMA driver's callback into the UART's. */
    method DmaInterrupt(reply: Reply)
      requires Valid()
      modifies this, dma
      ensures old(dma.done) ==> View() == AfterCompletion(old(View()), reply)
      ensures !old(dma.done) ==> View() == old(View()).(ch := old(dma.View()).(busy := false, done := false))
    {
      hide Flushed, Begun, AfterDisable;
      var success := dma.TransferEnded();
      if success {
        FlushAndRelease();
        var ret := ReplaceRxBuffer(reply);
        if ret != Success {
          var _ := RxDisable();
        }
      }
    }

    /** The receive-timeout branch of the UART interrupt. */
    method TimeoutInterrupt()
      requires Valid()
      modifies this, dma
      ensures View() == AfterTimeout(old(View()))
    {
      var _ := dma.Suspend();
      Flush();
      var _ := dma.Resume();
    }
  }
}
