/** The transmit functions of the CAN driver, cut where they can wait, and its transmit-complete interrupt. */
module CanTxDriver {
  import opened Words
  import opened CanFrame
  import opened CanTx

  /** How the SDK answers a request to send one message. */
  datatype SendStatus = Sent | FifoFull | Failed

  /** The steps of a batch from holding the mutex to giving it back. */
  function BatchScript(c: CallId, frames: nat): seq<Step> {
    LoadScript(c, frames) + [StartAll(c)] + [Unlock(c)]
  }

  function LoadScript(c: CallId, k: nat): seq<Step> {
    if k == 0 then [SetSlot(c)] else LoadScript(c, k - 1) + [LoadFrame(c)]
  }

  /** The steps of a single send from holding the mutex on. */
  function OneScript(c: CallId, status: SendStatus): seq<Step> {
    [SetSlot(c)] + [RequestStep(c, status)] + [Unlock(c)] + if status == Sent then [] else [GiveToken(c)]
  }

  /** The controller takes the one message, or not. */
  function RequestStep(c: CallId, status: SendStatus): Step {
    if status == Sent then SendAccepted(c) else SendRefused(c, status == FifoFull)
  }

  function ReturnOf(status: SendStatus): (ret: Errno)
    ensures ret == Success <==> status == Sent
    ensures ret == EAGAIN <==> status == FifoFull
    ensures ret == EIO <==> status == Failed
  {
    match status
    case Sent => Success
    case FifoFull => EAGAIN
    case Failed => EIO
  }

  /** The buffer holds these frames, in order. */
  ghost predicate Holding(stb: seq<Wire>, frames: seq<Frame>) {
    |stb| == |frames| && forall k :: 0 <= k < |frames| ==> |frames[k].data| == PAYLOAD && stb[k] == OnWire(frames[k])
  }

  /** The steps of a batch that finds the buffer not empty. */
  function TurnAwayScript(c: CallId): seq<Step> {
    [SetSlot(c)] + [Unlock(c)] + [GiveToken(c)]
  }

  class Driver {
    var txSem: nat
    var finSem: nat
    var mutex: Option<CallId>
    var slot: Callback
    // the controller
    var stb: seq<Wire>
    var inFlight: Option<Entry>
    var event: bool
    // where each call stands, and the logs
    ghost var calls: map<CallId, Call>
    ghost var accepted: seq<Entry>
    ghost var completed: seq<Entry>
    ghost var called: seq<Callback>
    ghost var bus: seq<Wire>

    ghost function View(): Can
      reads this
    {
      Can(txSem, finSem, mutex, slot, stb, inFlight, event, calls, accepted, completed, called, bus)
    }

    constructor ()
      ensures View() == INITIAL
    {
      txSem, finSem, mutex, slot := 1, 0, None, NoCallback;
      stb, inFlight, event := [], None, false;
      calls, accepted, completed, called, bus := map[], [], [], [], [];
    }

    /** A call that passed its checks goes on to wait, and any other one returns. */
    ghost method Enter(c: CallId, req: Request, device: Device, checked: Errno)
      requires CanStep(View(), Submit(c, req, device)) && checked == Precheck(device, req)
      modifies this`calls
      ensures View() == Next(old(View()), Submit(c, req, device))
    {
      hide Precheck;
      calls := calls[c := Call(req, if checked == Success then WaitToken else Done(checked))];
    }

    /** The checks of a single send, before it waits. */
    method CheckSend(c: CallId, frame: Frame, cb: Callback, device: Device) returns (ret: Errno)
      requires CanStep(View(), Submit(c, Request([frame], false, cb), device))
      modifies this`calls
      ensures View() == Next(old(View()), Submit(c, Request([frame], false, cb), device))
      ensures ret == Precheck(device, Request([frame], false, cb))
    {
      hide Next;
      ret := SendCheck(device.fd, frame);
      if ret == Success && !device.started {
        ret := ENETDOWN;
      } else if ret == Success && device.busOff {
        ret := ENETUNREACH;
      }
      Enter(c, Request([frame], false, cb), device, ret);
    }

    /** The checks of a batch: its size, then every frame, then the device. */
    method CheckBatch(c: CallId, frames: seq<Frame>, cb: Callback, device: Device) returns (ret: Errno)
      requires CanStep(View(), Submit(c, Request(frames, true, cb), device))
      modifies this`calls
      ensures View() == Next(old(View()), Submit(c, Request(frames, true, cb), device))
      ensures ret == Precheck(device, Request(frames, true, cb))
    {
      hide Next;
      ret := EINVAL;
      if 0 < |frames| <= 4 {
        ret := Success;
        var i := 0;
        while i < |frames| && ret == Success
          invariant 0 <= i <= |frames|
          invariant FirstRefusal(device.fd, frames) == (if ret == Success then FirstRefusal(device.fd, frames[i..]) else ret)
        {
          ret := BatchCheck(device.fd, frames[i]);
          i := i + 1;
        }
        if ret == Success && !device.started {
          ret := ENETDOWN;
        } else if ret == Success && device.busOff {
          ret := ENETUNREACH;
        }
      }
      Enter(c, Request(frames, true, cb), device, ret);
    }

    ghost method Move(c: CallId, pc: Pc)
      requires c in calls
      modifies this`calls
      ensures View() == Goto(old(View()), c, pc)
    {
      calls := calls[c := calls[c].(pc := pc)];
    }

    /** `k_sem_take(&tx_sem, timeout)`: it fails only if the token stays away. */
    method TakeToken(c: CallId) returns (ok: bool)
      requires PcOf(View(), c) == WaitToken
      modifies this`txSem, this`calls
      ensures ok <==> old(txSem) > 0
      ensures View() == Next(old(View()), if ok then CanTx.Step.TakeToken(c) else TokenTimeout(c))
    {
      if txSem > 0 {
        txSem := txSem - 1;
        Move(c, WaitMutex);
        ok := true;
      } else {
        Move(c, Done(EAGAIN));
        ok := false;
      }
    }

    /** `k_mutex_lock(&tx_mutex, timeout)`; on a timeout the token goes back. */
    method LockMutex(c: CallId) returns (ok: bool)
      requires PcOf(View(), c) == WaitMutex
      modifies this`mutex, this`txSem, this`calls
      ensures ok <==> old(mutex) == None
      ensures ok ==> View() == Next(old(View()), CanTx.Step.LockMutex(c))
      ensures !ok ==> View() == Next(Next(old(View()), MutexTimeout(c)), CanTx.Step.GiveToken(c))
    {
      hide Next;
      if mutex == None {
        Own(c);
        ok := true;
      } else {
        GiveUp(c);
        GiveToken(c);
        ok := false;
      }
    }

    method Own(c: CallId)
      requires PcOf(View(), c) == WaitMutex && mutex == None
      modifies this`mutex, this`calls
      ensures View() == Next(old(View()), CanTx.Step.LockMutex(c))
    {
      mutex := Some(c);
      Move(c, Locked);
    }

    ghost method GiveUp(c: CallId)
      requires PcOf(View(), c) == WaitMutex
      modifies this`calls
      ensures View() == Next(old(View()), MutexTimeout(c)) && PcOf(View(), c).GiveBack?
    {
      Move(c, CanTx.GiveBack(EAGAIN));
    }

    method GiveToken(c: CallId)
      requires PcOf(View(), c).GiveBack?
      modifies this`txSem, this`calls
      ensures CanStep(old(View()), CanTx.Step.GiveToken(c)) && View() == Next(old(View()), CanTx.Step.GiveToken(c))
      ensures txSem == Give(old(txSem)) && PcOf(View(), c) == Done(old(PcOf(View(), c)).err)
    {
      hide Precheck;
      txSem := Give(txSem);
      Move(c, Done(PcOf(View(), c).err));
    }

    ghost method Accepted(c: CallId)
      requires c in calls
      modifies this`calls, this`accepted
      ensures View() == Goto(old(View()), c, CanTx.Pc.Accepted).(accepted := old(accepted) + [Entry(c, old(calls)[c].req)])
    {
      accepted := accepted + [Entry(c, calls[c].req)];
      Move(c, CanTx.Pc.Accepted);
    }

    method Unlock(c: CallId)
      requires PcOf(View(), c) == CanTx.Pc.Accepted || PcOf(View(), c).Refused?
      modifies this`mutex, this`calls
      ensures CanStep(old(View()), CanTx.Step.Unlock(c))
      ensures View() == Next(old(View()), CanTx.Step.Unlock(c))
      ensures mutex == None
      ensures PcOf(View(), c) == if old(PcOf(View(), c)).Refused? then CanTx.GiveBack(old(PcOf(View(), c)).err)
                                 else if old(calls)[c].req.cb == NoCallback then WaitFinish
                                 else Done(Success)
    {
      mutex := None;
      ghost var pc := PcOf(View(), c);
      Move(c, if pc.Refused? then CanTx.GiveBack(pc.err)
              else if calls[c].req.cb == NoCallback then WaitFinish
              else Done(Success));
    }

    method StoreSlot(c: CallId, cb: Callback)
      requires PcOf(View(), c) == Locked && calls[c].req.cb == cb && (calls[c].req.batch ==> stb == [])
      modifies this`slot, this`calls
      ensures CanStep(old(View()), SetSlot(c)) && View() == Next(old(View()), SetSlot(c))
      ensures slot == cb
      ensures c in calls && calls[c] == Call(old(calls)[c].req, if calls[c].req.batch then Loading(0) else SlotSet)
    {
      slot := cb;
      Move(c, if calls[c].req.batch then Loading(0) else SlotSet);
    }

    /** The SDK takes one message: it fills one slot of the buffer and requests its transmission. */
    method SendOne(c: CallId, frame: Frame, cb: Callback)
      requires PcOf(View(), c) == SlotSet && calls[c].req == Request([frame], false, cb) && WellTyped(calls[c].req)
      modifies this`stb, this`inFlight, this`event, this`calls, this`accepted
      ensures CanStep(old(View()), SendAccepted(c)) && View() == Next(old(View()), SendAccepted(c))
      ensures stb == old(stb) + [OnWire(frame)] && inFlight == Some(Entry(c, old(calls)[c].req)) && !event
      ensures c in calls && calls[c] == Call(old(calls)[c].req, CanTx.Pc.Accepted)
    {
      hide OnWire, Precheck;
      assert frame in calls[c].req.frames;
      assert Wires(calls[c].req.frames) == [OnWire(frame)];
      stb, inFlight, event := stb + [OnWire(frame)], Some(Entry(c, Request([frame], false, cb))), false;
      Accepted(c);
    }

    method ClearSlot(c: CallId, fifoFull: bool)
      requires PcOf(View(), c) == SlotSet
      modifies this`slot, this`calls
      ensures CanStep(old(View()), SendRefused(c, fifoFull)) && View() == Next(old(View()), SendRefused(c, fifoFull))
      ensures slot == NoCallback
      ensures c in calls && calls[c] == Call(old(calls)[c].req, Refused(if fifoFull then EAGAIN else EIO))
    {
      slot := NoCallback;
      Move(c, Refused(if fifoFull then EAGAIN else EIO));
    }

    /** `can_send_message_nonblocking`, and what the driver makes of its answer; the slot is cleared on a refusal. */
    method RequestSend(c: CallId, frame: Frame, cb: Callback, status: SendStatus) returns (ret: Errno)
      requires PcOf(View(), c) == SlotSet && calls[c].req == Request([frame], false, cb) && WellTyped(calls[c].req)
      modifies this`slot, this`stb, this`inFlight, this`event, this`calls, this`accepted
      ensures ret == ReturnOf(status)
      ensures CanStep(old(View()), RequestStep(c, status)) && View() == Next(old(View()), RequestStep(c, status))
      ensures c in calls && calls[c].req == old(calls)[c].req
      ensures status == Sent ==>
                && slot == old(slot) && stb == old(stb) + [OnWire(frame)]
                && inFlight == Some(Entry(c, old(calls)[c].req)) && !event && calls[c].pc == CanTx.Pc.Accepted
      ensures status != Sent ==>
                && slot == NoCallback && stb == old(stb) && inFlight == old(inFlight) && event == old(event)
                && calls[c].pc == Refused(ret)
    {
      hide Next, CanStep, WellTyped;
      if status == Sent {
        SendOne(c, frame, cb);
        ret := Success;
      } else {
        ClearSlot(c, status == FifoFull);
        ret := if status == FifoFull then EAGAIN else EIO;
      }
    }

    /** A single send from holding token and mutex to giving the mutex, and after a refusal the token, back. */
    method SendLocked(c: CallId, frame: Frame, cb: Callback, status: SendStatus) returns (ret: Errno)
      requires PcOf(View(), c) == Locked
      requires calls[c].req == Request([frame], false, cb) && WellTyped(calls[c].req)
      modifies this
      ensures ret == ReturnOf(status)
      ensures CanRun(old(View()), OneScript(c, status)) && View() == Exec(old(View()), OneScript(c, status))
      ensures mutex == None
      ensures status == Sent ==>
                && txSem == old(txSem) && slot == cb && stb == old(stb) + [OnWire(frame)]
                && inFlight == Some(Entry(c, old(calls)[c].req)) && !event
                && PcOf(View(), c) == if cb == NoCallback then WaitFinish else Done(Success)
      ensures status != Sent ==>
                && txSem == Give(old(txSem)) && slot == NoCallback && stb == old(stb)
                && inFlight == old(inFlight) && event == old(event) && PcOf(View(), c) == Done(ret)
    {
      hide CanRun, Exec, CanStep, Next, WellTyped, RequestStep;
      ghost var s0, request := View(), RequestStep(c, status);
      ret := SendAndUnlock(c, frame, cb, status);
      ghost var script := [SetSlot(c)] + [request] + [CanTx.Step.Unlock(c)];
      if ret != Success {
        ghost var s3 := View();
        GiveToken(c);
        Chain(s0, script, s3, CanTx.Step.GiveToken(c), View());
      } else {
        assert script + [] == script;
      }
    }

    method SendAndUnlock(c: CallId, frame: Frame, cb: Callback, status: SendStatus) returns (ret: Errno)
      requires PcOf(View(), c) == Locked
      requires calls[c].req == Request([frame], false, cb) && WellTyped(calls[c].req)
      modifies this
      ensures ret == ReturnOf(status) && mutex == None && txSem == old(txSem)
      ensures status == Sent ==>
                && slot == cb && stb == old(stb) + [OnWire(frame)]
                && inFlight == Some(Entry(c, old(calls)[c].req)) && !event
                && PcOf(View(), c) == if cb == NoCallback then WaitFinish else Done(Success)
      ensures status != Sent ==>
                && slot == NoCallback && stb == old(stb) && inFlight == old(inFlight) && event == old(event)
                && PcOf(View(), c) == CanTx.GiveBack(ret)
      ensures var script := [SetSlot(c)] + [RequestStep(c, status)] + [CanTx.Step.Unlock(c)];
              CanRun(old(View()), script) && View() == Exec(old(View()), script)
    {
      hide CanRun, Exec, CanStep, Next, WellTyped, RequestStep;
      ghost var s0, request := View(), RequestStep(c, status);
      ret := RequestInSlot(c, frame, cb, status);
      ghost var s2 := View();
      Unlock(c);
      Chain(s0, [SetSlot(c)] + [request], s2, CanTx.Step.Unlock(c), View());
    }

    method RequestInSlot(c: CallId, frame: Frame, cb: Callback, status: SendStatus) returns (ret: Errno)
      requires PcOf(View(), c) == Locked
      requires calls[c].req == Request([frame], false, cb) && WellTyped(calls[c].req)
      modifies this`slot, this`stb, this`inFlight, this`event, this`calls, this`accepted
      ensures ret == ReturnOf(status) && c in calls && calls[c].req == old(calls)[c].req
      ensures status == Sent ==>
                && slot == cb && stb == old(stb) + [OnWire(frame)]
                && inFlight == Some(Entry(c, old(calls)[c].req)) && !event && calls[c].pc == CanTx.Pc.Accepted
      ensures status != Sent ==>
                && slot == NoCallback && stb == old(stb) && inFlight == old(inFlight) && event == old(event)
                && calls[c].pc == Refused(ret)
      ensures var script := [SetSlot(c)] + [RequestStep(c, status)];
              CanRun(old(View()), script) && View() == Exec(old(View()), script)
    {
      hide CanRun, Exec, CanStep, Next, WellTyped, RequestStep;
      ghost var s0 := View();
      StoreSlot(c, cb);
      ghost var s1 := View();
      ChainFirst(s0, SetSlot(c), s1);
      ret := RequestSend(c, frame, cb, status);
      Chain(s0, [SetSlot(c)], s1, RequestStep(c, status), View());
    }

    method RefuseBatch(c: CallId)
      requires PcOf(View(), c) == Locked && calls[c].req.batch && stb != []
      modifies this`calls
      ensures CanStep(old(View()), SetSlot(c)) && View() == Next(old(View()), SetSlot(c))
      ensures PcOf(View(), c) == Refused(EAGAIN)
    {
      Move(c, Refused(EAGAIN));
    }

    /** A batch whose buffer is not empty backs out. */
    method TurnAway(c: CallId)
      requires PcOf(View(), c) == Locked && calls[c].req.batch && stb != []
      modifies this`mutex, this`txSem, this`calls
      ensures CanRun(old(View()), TurnAwayScript(c)) && View() == Exec(old(View()), TurnAwayScript(c))
      ensures mutex == None && txSem == Give(old(txSem)) && PcOf(View(), c) == Done(EAGAIN)
    {
      hide CanRun, Exec, CanStep, Next;
      ghost var s0 := View();
      RefuseBatch(c);
      ghost var s1 := View();
      ChainFirst(s0, SetSlot(c), s1);
      Unlock(c);
      ghost var s2 := View();
      Chain(s0, [SetSlot(c)], s1, CanTx.Step.Unlock(c), s2);
      GiveToken(c);
      Chain(s0, [SetSlot(c)] + [CanTx.Step.Unlock(c)], s2, CanTx.Step.GiveToken(c), View());
    }

    /** `can_start_all_message_transmit`. */
    method StartBatch(c: CallId, req: Request)
      requires c in calls && calls[c] == Call(req, Loading(|req.frames|))
      modifies this`inFlight, this`event, this`calls, this`accepted
      ensures CanStep(old(View()), StartAll(c)) && View() == Next(old(View()), StartAll(c))
      ensures inFlight == Some(Entry(c, req)) && !event
      ensures c in calls && calls[c] == Call(req, CanTx.Pc.Accepted)
    {
      inFlight, event := Some(Entry(c, req)), false;
      Accepted(c);
    }

    /** A batch from holding token and mutex on: it loads every frame, then starts them together. */
    method BatchLocked(c: CallId, req: Request) returns (ret: Errno)
      requires PcOf(View(), c) == Locked && calls[c].req == req && req.batch && WellTyped(req)
      modifies this
      ensures ret == if old(stb) == [] then Success else EAGAIN
      ensures var script := if old(stb) == [] then BatchScript(c, |req.frames|) else TurnAwayScript(c);
              CanRun(old(View()), script) && View() == Exec(old(View()), script)
      ensures mutex == None
      ensures old(stb) == [] ==>
                && txSem == old(txSem) && slot == req.cb && inFlight == Some(Entry(c, req)) && !event
                && Holding(stb, req.frames)
                && PcOf(View(), c) == if req.cb == NoCallback then WaitFinish else Done(Success)
      ensures old(stb) != [] ==>
                && txSem == Give(old(txSem)) && slot == old(slot) && stb == old(stb)
                && inFlight == old(inFlight) && event == old(event) && PcOf(View(), c) == Done(EAGAIN)
    {
      hide CanRun, Exec, CanStep, Next, WellTyped, LoadScript, TurnAwayScript, Holding;
      if stb != [] {
        TurnAway(c);
        return EAGAIN;
      }
      LoadAndStart(c, req);
      ghost var s2 := View();
      Unlock(c);
      Chain(old(View()), LoadScript(c, |req.frames|) + [StartAll(c)], s2, CanTx.Step.Unlock(c), View());
      ret := Success;
    }

    method LoadAndStart(c: CallId, req: Request)
      requires PcOf(View(), c) == Locked && calls[c].req == req && req.batch && WellTyped(req) && stb == []
      modifies this`slot, this`stb, this`inFlight, this`event, this`calls, this`accepted
      ensures slot == req.cb && inFlight == Some(Entry(c, req)) && !event && Holding(stb, req.frames)
      ensures c in calls && calls[c] == Call(req, CanTx.Pc.Accepted)
      ensures var script := LoadScript(c, |req.frames|) + [StartAll(c)];
              CanRun(old(View()), script) && View() == Exec(old(View()), script)
    {
      hide CanRun, Exec, CanStep, Next, WellTyped, LoadScript, Holding;
      LoadFrames(c, req);
      ghost var s1 := View();
      StartBatch(c, req);
      Chain(old(View()), LoadScript(c, |req.frames|), s1, StartAll(c), View());
    }

    method LoadFrames(c: CallId, req: Request)
      requires PcOf(View(), c) == Locked && calls[c].req == req && req.batch && WellTyped(req) && stb == []
      modifies this`slot, this`stb, this`calls
      ensures CanRun(old(View()), LoadScript(c, |req.frames|)) && View() == Exec(old(View()), LoadScript(c, |req.frames|))
      ensures PcOf(View(), c) == Loading(|req.frames|) && calls[c].req == req
      ensures slot == req.cb && Holding(stb, req.frames)
    {
      hide CanRun, Exec, CanStep, Next, WellTyped, OnWire;
      ghost var s0 := View();
      StoreSlot(c, req.cb);
      ChainFirst(s0, SetSlot(c), View());
      for i := 0 to |req.frames|
        invariant PcOf(View(), c) == Loading(i) && calls[c].req == req
        invariant slot == req.cb && |stb| == i
        invariant forall k :: 0 <= k < i ==> |req.frames[k].data| == PAYLOAD && stb[k] == OnWire(req.frames[k])
        invariant CanRun(s0, LoadScript(c, i)) && Exec(s0, LoadScript(c, i)) == View()
      {
        ghost var now := View();
        LoadOne(c, req, i);
        Chain(s0, LoadScript(c, i), now, LoadFrame(c), View());
      }
    }

    /** Convert a frame and copy it into the current slot of the buffer. */
    method FillSlot(frame: Frame) returns (w: Wire)
      requires |frame.data| == PAYLOAD
      ensures w == OnWire(frame)
    {
      var message := new TxSlot();
      var hardware := new TxSlot();
      message.Convert(frame);
      hardware.FillFrom(message);
      var n := DlcToBytes(hardware.header.dlc);
      w := Wire(hardware.header, hardware.payload[..n]);
    }

    /** One frame goes into the current slot of the buffer, which moves on to the next one. */
    method LoadOne(c: CallId, req: Request, k: nat)
      requires PcOf(View(), c) == Loading(k) && calls[c].req == req && WellTyped(req) && k < |req.frames|
      modifies this`stb, this`calls
      ensures CanStep(old(View()), LoadFrame(c)) && View() == Next(old(View()), LoadFrame(c))
      ensures PcOf(View(), c) == Loading(k + 1) && calls[c].req == req
      ensures |req.frames[k].data| == PAYLOAD && stb == old(stb) + [OnWire(req.frames[k])]
    {
      hide OnWire, Precheck;
      var w := FillSlot(req.frames[k]);
      stb := stb + [w];
      Move(c, Loading(k + 1));
    }

    /** `k_sem_take(&tx_fin_sem, K_FOREVER)` returning. */
    method WakeUp(c: CallId)
      requires CanStep(View(), CanTx.Step.WakeUp(c))
      modifies this`finSem, this`calls
      ensures View() == Next(old(View()), CanTx.Step.WakeUp(c))
    {
      finSem := finSem - 1;
      Move(c, Done(Success));
    }

    /** The callback, or the finish semaphore for the caller that waits. */
    method Finish(cb: Callback)
      modifies this`finSem, this`called
      ensures View() == old(View()).(finSem := if cb == NoCallback then Give(old(finSem)) else old(finSem),
                                     called := if cb == NoCallback then old(called) else old(called) + [cb])
    {
      if cb == NoCallback {
        finSem := Give(finSem);
      } else {
        called := called + [cb];
      }
    }

    method TcEventHandler()
      modifies this
      ensures View() == Complete(old(View()))
    {
      var cb := slot;
      slot := NoCallback;
      txSem := Give(txSem);
      completed := if inFlight.Some? then completed + [inFlight.value] else completed;
      inFlight, event := None, false;
      Finish(cb);
    }
  }
}
