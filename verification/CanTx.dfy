/**
 The CAN transmit protocol: any number of concurrent sends, the controller's secondary transmit buffer,
 and the interrupt that completes a request. Each step is the code between two scheduling points.
 */
module CanTx {
  import opened Words
  import opened CanFrame

  type CallId = nat

  /** A completion callback and its user data; a send without one waits instead. */
  datatype Callback = NoCallback | Callback(fn: nat, arg: nat)

  datatype Request = Request(frames: seq<Frame>, batch: bool, cb: Callback)

  /** Where a call stands in `hpm_can_send` or `hpm_can_send_batch`. */
  datatype Pc =
    | NotStarted
    | WaitToken
    | WaitMutex
    | Locked
    | SlotSet
    | Loading(count: nat)
    | Refused(err: Errno)
    | GiveBack(err: Errno)
    | Accepted
    | WaitFinish
    | Done(result: Errno)

  datatype Call = Call(req: Request, pc: Pc)

  /** An accepted request and the call it came from. */
  datatype Entry = Entry(c: CallId, req: Request)

  /**
   `txSem`, `finSem`, `mutex` and `slot` are the driver's; `stb` is the secondary buffer, `inFlight` the
   request the controller works on and `event` the interrupt flag it raises once all frames are sent.
   The last four fields are logs.
   */
  datatype Can = Can(
    txSem: nat,
    finSem: nat,
    mutex: Option<CallId>,
    slot: Callback,
    stb: seq<Wire>,
    inFlight: Option<Entry>,
    event: bool,
    calls: map<CallId, Call>,
    accepted: seq<Entry>,
    completed: seq<Entry>,
    called: seq<Callback>,
    bus: seq<Wire>)

  const INITIAL := Can(1, 0, None, NoCallback, [], None, false, map[], [], [], [], [])

  /** What the checks before the first wait look at. */
  datatype Device = Device(fd: bool, started: bool, busOff: bool)

  function PcOf(s: Can, c: CallId): Pc {
    if c in s.calls then s.calls[c].pc else NotStarted
  }

  function Wires(frames: seq<Frame>): (w: seq<Wire>)
    requires forall f :: f in frames ==> |f.data| == PAYLOAD
    ensures |w| == |frames|
  {
    seq(|frames|, k requires 0 <= k < |frames| => OnWire(frames[k]))
  }

  /** What a caller can hand over: the frames' data arrays are full size, and a single send has one frame. */
  predicate WellTyped(req: Request) {
    && (forall f :: f in req.frames ==> |f.data| == PAYLOAD)
    && (!req.batch ==> |req.frames| == 1)
  }

  function FirstRefusal(fd: bool, frames: seq<Frame>): Errno {
    if frames == [] then Success
    else if BatchCheck(fd, frames[0]) != Success then BatchCheck(fd, frames[0])
    else FirstRefusal(fd, frames[1..])
  }

  function Precheck(d: Device, req: Request): Errno
    requires WellTyped(req)
  {
    if req.batch && (|req.frames| == 0 || |req.frames| > 4) then EINVAL
    else if req.batch && FirstRefusal(d.fd, req.frames) != Success then FirstRefusal(d.fd, req.frames)
    else if !req.batch && SendCheck(d.fd, req.frames[0]) != Success then SendCheck(d.fd, req.frames[0])
    else if !d.started then ENETDOWN
    else if d.busOff then ENETUNREACH
    else Success
  }

  /** Giving a semaphore whose limit is 1. */
  function Give(count: nat): nat {
    if count < 1 then count + 1 else count
  }

  datatype Step =
    | Submit(c: CallId, req: Request, device: Device)
    | TakeToken(c: CallId)
    | TokenTimeout(c: CallId)
    | LockMutex(c: CallId)
    | MutexTimeout(c: CallId)
    | SetSlot(c: CallId)
    | LoadFrame(c: CallId)
    | StartAll(c: CallId)
    | SendAccepted(c: CallId)
    | SendRefused(c: CallId, fifoFull: bool)
    | Unlock(c: CallId)
    | GiveToken(c: CallId)
    | WakeUp(c: CallId)
    | FramesSent
    | Interrupt

  predicate CanStep(s: Can, step: Step) {
    match step
    case Submit(c, req, _) => c !in s.calls && WellTyped(req)
    case TakeToken(c) => PcOf(s, c) == WaitToken && s.txSem > 0
    case TokenTimeout(c) => PcOf(s, c) == WaitToken
    case LockMutex(c) => PcOf(s, c) == WaitMutex && s.mutex == None
    case MutexTimeout(c) => PcOf(s, c) == WaitMutex
    case SetSlot(c) => PcOf(s, c) == Locked
    case LoadFrame(c) => PcOf(s, c).Loading? && PcOf(s, c).count < |s.calls[c].req.frames| && WellTyped(s.calls[c].req)
    case StartAll(c) => PcOf(s, c).Loading? && PcOf(s, c).count == |s.calls[c].req.frames|
    case SendAccepted(c) => PcOf(s, c) == SlotSet && WellTyped(s.calls[c].req)
    case SendRefused(c, _) => PcOf(s, c) == SlotSet
    case Unlock(c) => PcOf(s, c) == Accepted || PcOf(s, c).Refused?
    case GiveToken(c) => PcOf(s, c).GiveBack?
    case WakeUp(c) => PcOf(s, c) == WaitFinish && s.finSem > 0
    case FramesSent => s.inFlight.Some? && !s.event
    case Interrupt => s.event
  }

  function Goto(s: Can, c: CallId, pc: Pc): Can
    requires c in s.calls
  {
    s.(calls := s.calls[c := s.calls[c].(pc := pc)])
  }

  /** The controller takes the request of call `c`, whose frames are then in the buffer. */
  function Accept(s: Can, c: CallId, stb: seq<Wire>): Can
    requires c in s.calls
  {
    var e := Entry(c, s.calls[c].req);
    s.(stb := stb, inFlight := Some(e), event := false, accepted := s.accepted + [e])
  }

  /** The transmit-complete handler. */
  function Complete(s: Can): Can {
    s.(slot := NoCallback, event := false, inFlight := None,
       txSem := Give(s.txSem),
       finSem := if s.slot == NoCallback then Give(s.finSem) else s.finSem,
       called := if s.slot == NoCallback then s.called else s.called + [s.slot],
       completed := if s.inFlight.Some? then s.completed + [s.inFlight.value] else s.completed)
  }

  /** A step of a call, not of the controller. */
  predicate Moves(step: Step) {
    step != FramesSent && step != Interrupt
  }

  /** Where a step takes the call it moves. */
  function PcAfter(s: Can, step: Step): Pc
    requires CanStep(s, step) && Moves(step)
  {
    match step
    case Submit(_, req, d) => if Precheck(d, req) == Success then WaitToken else Done(Precheck(d, req))
    case TakeToken(_) => WaitMutex
    case TokenTimeout(_) => Done(EAGAIN)
    case LockMutex(_) => Locked
    case MutexTimeout(_) => GiveBack(EAGAIN)
    case SetSlot(c) => if !s.calls[c].req.batch then SlotSet else if s.stb != [] then Refused(EAGAIN) else Loading(0)
    case LoadFrame(c) => Loading(PcOf(s, c).count + 1)
    case StartAll(_) => Accepted
    case SendAccepted(_) => Accepted
    case SendRefused(_, fifoFull) => Refused(if fifoFull then EAGAIN else EIO)
    case Unlock(c) =>
      var pc := PcOf(s, c);
      if pc.Refused? then GiveBack(pc.err) else if s.calls[c].req.cb == NoCallback then WaitFinish else Done(Success)
    case GiveToken(c) => Done(PcOf(s, c).err)
    case WakeUp(_) => Done(Success)
  }

  function CallAfter(s: Can, step: Step): Call
    requires CanStep(s, step) && Moves(step)
  {
    Call(if step.Submit? then step.req else s.calls[step.c].req, PcAfter(s, step))
  }

  /** What a step does to the driver, the controller and the logs. */
  function SharedAfter(s: Can, step: Step): Can
    requires CanStep(s, step)
  {
    match step
    case Submit(_, _, _) => s
    case TakeToken(_) => s.(txSem := s.txSem - 1)
    case TokenTimeout(_) => s
    case LockMutex(c) => s.(mutex := Some(c))
    case MutexTimeout(_) => s
    case SetSlot(c) => if s.calls[c].req.batch && s.stb != [] then s else s.(slot := s.calls[c].req.cb)
    case LoadFrame(c) => s.(stb := s.stb + [OnWire(s.calls[c].req.frames[PcOf(s, c).count])])
    case StartAll(c) => Accept(s, c, s.stb)
    case SendAccepted(c) => Accept(s, c, s.stb + Wires(s.calls[c].req.frames))
    case SendRefused(_, _) => s.(slot := NoCallback)
    case Unlock(_) => s.(mutex := None)
    case GiveToken(_) => s.(txSem := Give(s.txSem))
    case WakeUp(_) => s.(finSem := s.finSem - 1)
    case FramesSent => s.(bus := s.bus + s.stb, stb := [], event := true)
    case Interrupt => Complete(s)
  }

  function Next(s: Can, step: Step): Can
    requires CanStep(s, step)
  {
    if Moves(step) then SharedAfter(s, step).(calls := s.calls[step.c := CallAfter(s, step)]) else SharedAfter(s, step)
  }

  predicate IsRun(states: seq<Can>, steps: seq<Step>) {
    && |states| == |steps| + 1
    && states[0] == INITIAL
    && forall k :: 0 <= k < |steps| ==> CanStep(states[k], steps[k]) && states[k + 1] == Next(states[k], steps[k])
  }

  /** The steps of a script can be taken one after the other, and lead here. */
  predicate CanRun(s: Can, script: seq<Step>)
    decreases |script|, 0
  {
    script == [] || (CanRun(s, script[..|script| - 1]) && CanStep(Exec(s, script[..|script| - 1]), script[|script| - 1]))
  }

  function Exec(s: Can, script: seq<Step>): Can
    requires CanRun(s, script)
    decreases |script|, 1
  {
    if script == [] then s else Next(Exec(s, script[..|script| - 1]), script[|script| - 1])
  }

  lemma ExecSnoc(s: Can, script: seq<Step>, step: Step)
    requires CanRun(s, script) && CanStep(Exec(s, script), step)
    ensures CanRun(s, script + [step]) && Exec(s, script + [step]) == Next(Exec(s, script), step)
  {
    assert (script + [step])[..|script|] == script;
  }

  /** Scripts taken one after the other. */
  lemma {:induction false} ExecAppend(s: Can, a: seq<Step>, b: seq<Step>)
    requires CanRun(s, a) && CanRun(Exec(s, a), b)
    ensures CanRun(s, a + b) && Exec(s, a + b) == Exec(Exec(s, a), b)
    decreases |b|
  {
    hide CanStep, Next;
    if b == [] {
      assert a + b == a;
    } else {
      var n := |b| - 1;
      var front, last := b[..n], b[n];
      assert b == front + [last];
      ExecAppend(s, a, front);
      Chain(s, a + front, Exec(Exec(s, a), front), last, Exec(Exec(s, a), b));
      assert a + front + [last] == a + b;
    }
  }

  lemma Chain(s: Can, script: seq<Step>, m: Can, step: Step, t: Can)
    requires CanRun(s, script) && Exec(s, script) == m && CanStep(m, step) && Next(m, step) == t
    ensures CanRun(s, script + [step]) && Exec(s, script + [step]) == t
  {
    ExecSnoc(s, script, step);
  }

  lemma ChainFirst(s: Can, step: Step, t: Can)
    requires CanStep(s, step) && Next(s, step) == t
    ensures CanRun(s, [step]) && Exec(s, [step]) == t
  {
    assert [] + [step] == [step];
    Chain(s, [], s, step, t);
  }

  // ----- What the logs should hold

  /** The callbacks of the requests that carry one, in order. */
  function CallbacksOf(entries: seq<Entry>): seq<Callback> {
    if entries == [] then []
    else
      var rest, e := CallbacksOf(entries[..|entries| - 1]), entries[|entries| - 1];
      if e.req.cb == NoCallback then rest else rest + [e.req.cb]
  }

  /** All the frames of the requests, in order. */
  function FramesOf(entries: seq<Entry>): seq<Wire>
    requires forall e :: e in entries ==> WellTyped(e.req)
  {
    if entries == [] then []
    else
      var e := entries[|entries| - 1];
      assert WellTyped(e.req) by { assert e in entries; }
      FramesOf(entries[..|entries| - 1]) + Wires(e.req.frames)
  }
}
