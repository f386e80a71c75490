/** What every run of the CAN transmit protocol keeps, for any number of concurrent sends. */
module CanTxProofs {
  import opened Words
  import opened CanFrame
  import opened CanTx

  /** The call has taken `tx_sem` and neither given it back nor passed it on with an accepted request. */
  predicate Holds(pc: Pc) {
    pc == WaitMutex || pc == Locked || pc == SlotSet || pc.Loading? || pc.Refused? || pc.GiveBack?
  }

  predicate HasMutex(pc: Pc) {
    pc == Locked || pc == SlotSet || pc.Loading? || pc.Refused? || pc == Accepted
  }

  /** The controller has taken the call's request. */
  predicate Taken(pc: Pc) {
    pc == Accepted || pc == WaitFinish || pc == Done(Success)
  }

  ghost predicate TokenInv(s: Can) {
    && s.txSem <= 1
    && (forall c: CallId, d: CallId :: Holds(PcOf(s, c)) && Holds(PcOf(s, d)) ==> c == d)
    && (s.txSem == 1 || s.inFlight.Some? ==> forall c: CallId :: !Holds(PcOf(s, c)))
    && !(s.txSem == 1 && s.inFlight.Some?)
    && (s.txSem == 0 && s.inFlight == None ==> exists c: CallId :: Holds(PcOf(s, c)))
    && (s.event ==> s.inFlight.Some?)
  }

  ghost predicate MutexInv(s: Can) {
    forall c: CallId :: HasMutex(PcOf(s, c)) <==> s.mutex == Some(c)
  }

  /** What a call's place says about its request. */
  ghost predicate CallInv(call: Call) {
    && WellTyped(call.req)
    && (call.pc.Refused? || call.pc.GiveBack? ==> call.pc.err != Success)
    && (call.req.batch && (!call.pc.Done? || call.pc == Done(Success)) ==> 1 <= |call.req.frames| <= 4)
    && (call.pc.Loading? ==> call.req.batch && call.pc.count <= |call.req.frames|)
    && (call.pc == SlotSet ==> !call.req.batch)
    && (call.pc == WaitFinish ==> call.req.cb == NoCallback)
    && call.pc != NotStarted
  }

  ghost predicate CallsInv(s: Can) {
    forall c: CallId :: c in s.calls ==> CallInv(s.calls[c])
  }

  /** The slot and the buffer as the token's holder left them: empty until it sets the slot. */
  ghost predicate HolderBuffer(s: Can, c: CallId)
    requires c in s.calls && CallInv(s.calls[c])
  {
    var call := s.calls[c];
    match call.pc
    case SlotSet => s.slot == call.req.cb && s.stb == []
    case Loading(count) => s.slot == call.req.cb && s.stb == Wires(call.req.frames)[..count]
    case _ => s.slot == NoCallback && s.stb == []
  }

  /** The slot and the buffer hold the request being loaded or in flight, and otherwise nothing. */
  ghost predicate BufferInv(s: Can)
    requires CallsInv(s)
  {
    && (forall c: CallId :: Holds(PcOf(s, c)) ==> HolderBuffer(s, c))
    && (s.txSem > 0 ==> s.slot == NoCallback && s.stb == [])
    && (s.inFlight.Some? ==> FlightBuffer(s, s.inFlight.value.req))
  }

  ghost predicate FlightBuffer(s: Can, req: Request) {
    && WellTyped(req)
    && s.slot == req.cb
    && s.stb == (if s.event then [] else Wires(req.frames))
  }

  ghost predicate EntryOf(s: Can, e: Entry) {
    e.c in s.calls && s.calls[e.c].req == e.req
  }

  ghost predicate OutcomeInv(s: Can) {
    && (forall e :: e in s.accepted ==> EntryOf(s, e) && Taken(PcOf(s, e.c)))
    && (forall c: CallId :: Taken(PcOf(s, c)) ==> Entry(c, s.calls[c].req) in s.accepted)
    && (forall i, j :: 0 <= i < j < |s.accepted| ==> s.accepted[i].c != s.accepted[j].c)
  }

  function InFlight(s: Can): seq<Entry> {
    if s.inFlight.Some? then [s.inFlight.value] else []
  }

  ghost predicate LogInv(s: Can) {
    && s.accepted == s.completed + InFlight(s)
    && (forall e :: e in s.accepted ==> WellTyped(e.req))
    && s.called == CallbacksOf(s.completed)
    && s.bus == (if s.event then FramesOf(s.accepted) else FramesOf(s.completed))
  }

  ghost predicate Inv(s: Can) {
    && TokenInv(s)
    && MutexInv(s)
    && CallsInv(s)
    && BufferInv(s)
    && OutcomeInv(s)
    && LogInv(s)
  }

  // ----- One step

  /** A step moves at most the call it names. */
  lemma OthersStay(s: Can, step: Step)
    requires CanStep(s, step)
    ensures forall d: CallId {:trigger PcOf(Next(s, step), d)} ::
              !(Moves(step) && d == step.c) ==> PcOf(Next(s, step), d) == PcOf(s, d)
    ensures Moves(step) ==> step.c in Next(s, step).calls && PcOf(Next(s, step), step.c) == PcAfter(s, step)
  {
    hide CanStep, SharedAfter, PcAfter;
    CallsAfterStep(s, step);
  }

  lemma CallsAfterStep(s: Can, step: Step)
    requires CanStep(s, step)
    ensures Next(s, step).calls == if Moves(step) then s.calls[step.c := CallAfter(s, step)] else s.calls
  {
    hide CanStep, PcAfter;
  }

  /** A call that a step moves was there before, unless it is submitted. */
  lemma MoverIsThere(s: Can, step: Step)
    requires CanStep(s, step) && Moves(step)
    ensures step.Submit? <==> step.c !in s.calls
  {
  }

  lemma RequestsStay(s: Can, step: Step)
    requires CanStep(s, step)
    ensures forall d: CallId :: d in s.calls ==> d in Next(s, step).calls && Next(s, step).calls[d].req == s.calls[d].req
  {
    hide CanStep, Next, PcAfter;
    CallsAfterStep(s, step);
    if Moves(step) {
      MoverIsThere(s, step);
    }
  }

  /** The steps that touch the semaphores and the mutex. */
  lemma SemaphoresStay(s: Can, step: Step)
    requires CanStep(s, step)
    ensures var t := Next(s, step);
            && (!step.TakeToken? && !step.GiveToken? && step != Interrupt ==> t.txSem == s.txSem)
            && (!step.WakeUp? && step != Interrupt ==> t.finSem == s.finSem)
            && (!step.LockMutex? && !step.Unlock? ==> t.mutex == s.mutex)
  {
    hide CallAfter, Wires, OnWire, Precheck;
  }

  /** The steps that touch the slot and the buffer. */
  predicate Loads(step: Step) {
    step.SetSlot? || step.LoadFrame? || step.StartAll? || step.SendAccepted? || step.SendRefused?
  }

  predicate Accepts(step: Step) {
    step.StartAll? || step.SendAccepted?
  }

  lemma BufferStays(s: Can, step: Step)
    requires CanStep(s, step) && Moves(step) && !Loads(step)
    ensures Next(s, step).slot == s.slot && Next(s, step).stb == s.stb
  {
    hide CallAfter, Wires, OnWire, Precheck;
  }

  /** Only an acceptance puts a request in flight, and only the controller and its interrupt touch the other logs. */
  lemma LogsStay(s: Can, step: Step)
    requires CanStep(s, step)
    ensures var t := Next(s, step);
            && (!Accepts(step) && step != Interrupt ==> t.inFlight == s.inFlight)
            && (!Accepts(step) ==> t.accepted == s.accepted)
            && (step != Interrupt ==> t.completed == s.completed && t.called == s.called)
            && (Moves(step) ==> t.bus == s.bus)
            && (Moves(step) && !Accepts(step) ==> t.event == s.event)
  {
    hide CallAfter, Wires, OnWire, Precheck;
  }

  /** The steps by which a call comes to hold the token, and by which it ceases to. */
  lemma HoldingMoves(s: Can, step: Step)
    requires CanStep(s, step) && Moves(step)
    ensures Holds(PcAfter(s, step)) <==> step.TakeToken? || (Holds(PcOf(s, step.c)) && !step.GiveToken? && !Accepts(step))
    ensures Accepts(step) || step.GiveToken? ==> Holds(PcOf(s, step.c))
    ensures step.TakeToken? ==> !Holds(PcOf(s, step.c))
  {
    hide Precheck;
  }

  lemma MutexMoves(s: Can, step: Step)
    requires CanStep(s, step) && Moves(step)
    ensures HasMutex(PcAfter(s, step)) <==> step.LockMutex? || (HasMutex(PcOf(s, step.c)) && !step.Unlock?)
    ensures step.Unlock? ==> HasMutex(PcOf(s, step.c))
  {
    hide Precheck;
  }

  /** A request is taken by its acceptance, and stays so. */
  lemma TakenMoves(s: Can, step: Step)
    requires CallsInv(s) && CanStep(s, step) && Moves(step)
    ensures Taken(PcAfter(s, step)) <==> Accepts(step) || Taken(PcOf(s, step.c))
    ensures Accepts(step) ==> !Taken(PcOf(s, step.c))
  {
    hide Precheck;
    if step.GiveToken? || step.Submit? || step.TokenTimeout? {
      ErrorsStay(s, step);
    }
  }

  /** A call that gives up has an error to return. */
  lemma ErrorsStay(s: Can, step: Step)
    requires CallsInv(s) && CanStep(s, step) && (step.GiveToken? || step.Submit? || step.TokenTimeout?)
    ensures PcAfter(s, step) != Done(Success)
  {
  }

  lemma CallsKept(s: Can, step: Step)
    requires CallsInv(s) && CanStep(s, step)
    ensures CallsInv(Next(s, step))
  {
    hide CanStep, Next, CallAfter, CallInv;
    CallsAfterStep(s, step);
    if Moves(step) {
      MoverKeepsCall(s, step);
    }
  }

  lemma MoverKeepsCall(s: Can, step: Step)
    requires CallsInv(s) && CanStep(s, step) && Moves(step)
    ensures CallInv(CallAfter(s, step))
  {
    hide FirstRefusal, SendCheck;
    if !step.Submit? {
      assert CallInv(s.calls[step.c]);
    }
  }

  lemma MutexKept(s: Can, step: Step)
    requires MutexInv(s) && CanStep(s, step)
    ensures MutexInv(Next(s, step))
  {
    hide Next, PcAfter, HasMutex;
    OthersStay(s, step);
    SemaphoresStay(s, step);
    if Moves(step) {
      MutexMoves(s, step);
      MutexChanges(s, step);
    }
  }

  lemma MutexChanges(s: Can, step: Step)
    requires CanStep(s, step)
    ensures step.LockMutex? ==> s.mutex == None && Next(s, step).mutex == Some(step.c)
    ensures step.Unlock? ==> Next(s, step).mutex == None
  {
    hide CallAfter;
  }

  /** The steps by which the token passes on. */
  predicate PassesToken(step: Step) {
    step.TakeToken? || step.GiveToken? || Accepts(step) || step == Interrupt
  }

  lemma TokenPasses(s: Can, step: Step)
    requires TokenInv(s) && CanStep(s, step) && PassesToken(step)
    ensures TokenInv(Next(s, step))
  {
    hide PcAfter, Holds, Wires;
    OthersStay(s, step);
    var t := Next(s, step);
    if step == Interrupt {
      assert forall c: CallId :: PcOf(t, c) == PcOf(s, c);
    } else {
      HoldingMoves(s, step);
      assert step.TakeToken? ==> Holds(PcOf(t, step.c));
    }
  }

  /** The token stays where it is. */
  lemma TokenView(s: Can, t: Can)
    requires TokenInv(s) && t.txSem == s.txSem && t.inFlight == s.inFlight && (t.event ==> t.inFlight.Some?)
    requires forall c: CallId :: Holds(PcOf(t, c)) <==> Holds(PcOf(s, c))
    ensures TokenInv(t)
  {
    hide Holds;
    if t.txSem == 0 && t.inFlight == None {
      var h: CallId :| Holds(PcOf(s, h));
      assert Holds(PcOf(t, h));
    }
  }

  lemma TokenKept(s: Can, step: Step)
    requires TokenInv(s) && CanStep(s, step)
    ensures TokenInv(Next(s, step))
  {
    hide Next, PcAfter, Holds, TokenInv;
    if PassesToken(step) {
      TokenPasses(s, step);
    } else {
      OthersStay(s, step);
      SemaphoresStay(s, step);
      LogsStay(s, step);
      if Moves(step) {
        HoldingMoves(s, step);
      }
      EventInFlight(s);
      TokenView(s, Next(s, step));
    }
  }

  lemma EventInFlight(s: Can)
    requires TokenInv(s)
    ensures s.event ==> s.inFlight.Some?
  {
  }

  lemma HolderLoading(s: Can, step: Step)
    requires CanStep(s, step) && Loads(step)
    ensures Holds(PcOf(s, step.c))
  {
  }

  /** While a call loads, no other one holds the token, none is free and none in flight. */
  lemma HolderIsAlone(s: Can, step: Step)
    requires TokenInv(s) && CanStep(s, step) && Loads(step)
    ensures s.txSem == 0 && s.inFlight == None
    ensures forall d: CallId {:trigger PcOf(Next(s, step), d)} :: d != step.c ==> !Holds(PcOf(Next(s, step), d))
  {
    hide Next, CanStep, Holds, PcAfter;
    HolderLoading(s, step);
    OthersStay(s, step);
  }

  /** The slot and the buffer as the holder finds them at a step. */
  lemma HolderFinds(s: Can, step: Step)
    requires CallsInv(s) && BufferInv(s) && CanStep(s, step) && Loads(step)
    ensures step.c in s.calls && WellTyped(s.calls[step.c].req)
    ensures s.slot == if step.SetSlot? then NoCallback else s.calls[step.c].req.cb
    ensures s.stb == if PcOf(s, step.c).Loading? then Wires(s.calls[step.c].req.frames)[..PcOf(s, step.c).count] else []
  {
    hide Wires, FlightBuffer;
    HolderLoading(s, step);
    assert HolderBuffer(s, step.c) && CallInv(s.calls[step.c]);
  }

  /** And as it leaves them. */
  lemma HolderLeaves(s: Can, step: Step)
    requires CallsInv(s) && BufferInv(s) && CanStep(s, step) && Loads(step) && !Accepts(step)
    requires CallsInv(Next(s, step))
    ensures step.c in Next(s, step).calls && HolderBuffer(Next(s, step), step.c)
  {
    hide CallsInv, BufferInv, CallInv;
    HolderFinds(s, step);
    if step.LoadFrame? {
      var w, k := Wires(s.calls[step.c].req.frames), PcOf(s, step.c).count;
      assert w[..k] + [w[k]] == w[..k + 1];
    }
  }

  /** What the acceptance of a request does. */
  lemma Acceptance(s: Can, step: Step)
    requires CanStep(s, step) && Accepts(step)
    ensures step.c in s.calls
    ensures var t, e := Next(s, step), Entry(step.c, s.calls[step.c].req);
            && t.inFlight == Some(e) && !t.event && t.slot == s.slot && t.accepted == s.accepted + [e]
            && (s.stb == [] || step.StartAll? ==> WellTyped(e.req) ==>
                  t.stb == if step.StartAll? then s.stb else Wires(e.req.frames))
  {
    hide CallAfter, Wires;
  }

  lemma AcceptKeepsBuffer(s: Can, step: Step)
    requires TokenInv(s) && CallsInv(s) && BufferInv(s) && CanStep(s, step) && Accepts(step)
    requires CallsInv(Next(s, step))
    ensures BufferInv(Next(s, step))
  {
    hide TokenInv, CallInv, CallsInv, Next, Wires, HolderBuffer;
    HolderFinds(s, step);
    var t, w := Next(s, step), Wires(s.calls[step.c].req.frames);
    HolderIsAlone(s, step);
    Acceptance(s, step);
    OthersStay(s, step);
    SemaphoresStay(s, step);
    if step.StartAll? {
      assert w[..|w|] == w;
    }
    assert forall d: CallId :: !Holds(PcOf(t, d));
    assert FlightBuffer(t, s.calls[step.c].req);
  }

  lemma LoadKeepsBuffer(s: Can, step: Step)
    requires TokenInv(s) && CallsInv(s) && BufferInv(s) && CanStep(s, step) && Loads(step) && !Accepts(step)
    requires CallsInv(Next(s, step))
    ensures BufferInv(Next(s, step))
  {
    hide TokenInv, CallInv, CallsInv, Next, CanStep, HolderBuffer, Holds;
    HolderIsAlone(s, step);
    HolderLeaves(s, step);
    SemaphoresStay(s, step);
    LogsStay(s, step);
  }

  lemma BufferKept(s: Can, step: Step)
    requires TokenInv(s) && CallsInv(s) && BufferInv(s) && CanStep(s, step)
    requires CallsInv(Next(s, step))
    ensures BufferInv(Next(s, step))
  {
    if Accepts(step) {
      AcceptKeepsBuffer(s, step);
    } else if Loads(step) {
      LoadKeepsBuffer(s, step);
    } else if step == FramesSent || step == Interrupt {
      assert Next(s, step).calls == s.calls;
      assert forall d: CallId :: PcOf(Next(s, step), d) == PcOf(s, d);
    } else {
      MoveKeepsBuffer(s, step);
    }
  }

  /** The steps that touch neither the slot nor the buffer. */
  lemma MoveKeepsBuffer(s: Can, step: Step)
    requires TokenInv(s) && CallsInv(s) && BufferInv(s) && CanStep(s, step)
    requires !Loads(step) && step != FramesSent && step != Interrupt
    requires CallsInv(Next(s, step))
    ensures BufferInv(Next(s, step))
  {
    hide Next, Wires, CanStep, PcAfter;
    OthersStay(s, step);
    CallsAfterStep(s, step);
    BufferStays(s, step);
    SemaphoresStay(s, step);
    LogsStay(s, step);
    HoldingMoves(s, step);
    NotLoading(s, step);
    var t := Next(s, step);
    forall d: CallId | Holds(PcOf(t, d))
      ensures HolderBuffer(t, d)
    {
      if d != step.c || !step.TakeToken? {
        assert Holds(PcOf(s, d)) && HolderBuffer(s, d);
      }
    }
  }

  lemma NotLoading(s: Can, step: Step)
    requires CanStep(s, step) && Moves(step) && !Loads(step)
    ensures PcOf(s, step.c) != SlotSet && !PcOf(s, step.c).Loading?
    ensures PcAfter(s, step) != SlotSet && !PcAfter(s, step).Loading?
    ensures step.TakeToken? ==> s.txSem > 0
  {
    hide Precheck;
  }

  lemma AcceptKeepsOutcome(s: Can, t: Can, e: Entry)
    requires OutcomeInv(s) && t.accepted == s.accepted + [e]
    requires e.c in s.calls && s.calls[e.c].req == e.req && !Taken(PcOf(s, e.c))
    requires forall d: CallId :: d in s.calls ==> d in t.calls && t.calls[d].req == s.calls[d].req
    requires forall d: CallId :: Taken(PcOf(t, d)) <==> d == e.c || Taken(PcOf(s, d))
    ensures OutcomeInv(t)
  {
    hide Taken;
    forall i, j | 0 <= i < j < |t.accepted|
      ensures t.accepted[i].c != t.accepted[j].c
    {
      assert s.accepted[i] in s.accepted;
    }
    forall d: CallId | Taken(PcOf(t, d))
      ensures Entry(d, t.calls[d].req) in t.accepted
    {
      assert e in t.accepted;
    }
    forall g | g in t.accepted
      ensures EntryOf(t, g) && Taken(PcOf(t, g.c))
    {
      assert g == e || EntryOf(s, g);
    }
  }

  lemma OutcomeView(s: Can, t: Can)
    requires OutcomeInv(s) && t.accepted == s.accepted
    requires forall d: CallId :: d in s.calls ==> d in t.calls && t.calls[d].req == s.calls[d].req
    requires forall d: CallId :: Taken(PcOf(t, d)) <==> Taken(PcOf(s, d))
    ensures OutcomeInv(t)
  {
    forall e | e in t.accepted
      ensures EntryOf(t, e) && Taken(PcOf(t, e.c))
    {
      assert EntryOf(s, e) && Taken(PcOf(s, e.c));
    }
  }

  lemma OutcomeKept(s: Can, step: Step)
    requires CallsInv(s) && OutcomeInv(s) && CanStep(s, step)
    ensures OutcomeInv(Next(s, step))
  {
    hide OutcomeInv, Next, CanStep, CallsInv, PcAfter, Taken, Wires;
    RequestsStay(s, step);
    OthersStay(s, step);
    LogsStay(s, step);
    if Moves(step) {
      TakenMoves(s, step);
    }
    if Accepts(step) {
      Acceptance(s, step);
      AcceptKeepsOutcome(s, Next(s, step), Entry(step.c, s.calls[step.c].req));
    } else {
      OutcomeView(s, Next(s, step));
    }
  }

  lemma AcceptKeepsLog(s: Can, step: Step)
    requires Inv(s) && CanStep(s, step) && Accepts(step)
    ensures LogInv(Next(s, step))
  {
    hide Next, CanStep, MutexInv, BufferInv, OutcomeInv, FramesOf, CallbacksOf;
    HolderIsAlone(s, step);
    HolderFinds(s, step);
    Acceptance(s, step);
    LogsStay(s, step);
    var t := Next(s, step);
    assert t.accepted == t.completed + InFlight(t);
  }

  lemma CompleteKeepsLog(s: Can)
    requires Inv(s) && s.event
    ensures LogInv(Complete(s))
  {
    var t, e := Complete(s), s.inFlight.value;
    assert t.completed == s.accepted == t.accepted;
    assert t.completed[..|t.completed| - 1] == s.completed;
  }

  lemma SentKeepsLog(s: Can)
    requires Inv(s) && CanStep(s, FramesSent)
    ensures LogInv(Next(s, FramesSent))
  {
    assert s.accepted[..|s.accepted| - 1] == s.completed;
  }

  lemma LogKept(s: Can, step: Step)
    requires Inv(s) && CanStep(s, step)
    ensures LogInv(Next(s, step))
  {
    hide CanStep, SharedAfter, CallAfter, Inv, CallbacksOf, FramesOf;
    if Accepts(step) {
      AcceptKeepsLog(s, step);
    } else if step == Interrupt {
      InterruptCompletes(s);
      CompleteKeepsLog(s);
    } else if step == FramesSent {
      SentKeepsLog(s);
    } else {
      LogsStay(s, step);
      LogOf(s);
    }
  }

  lemma InterruptCompletes(s: Can)
    requires CanStep(s, Interrupt)
    ensures s.event && Next(s, Interrupt) == Complete(s)
  {
  }

  lemma LogOf(s: Can)
    requires Inv(s)
    ensures LogInv(s)
  {
  }

  lemma StepKeepsInv(s: Can, step: Step)
    requires Inv(s) && CanStep(s, step)
    ensures Inv(Next(s, step))
  {
    CallsKept(s, step);
    MutexKept(s, step);
    TokenKept(s, step);
    BufferKept(s, step);
    OutcomeKept(s, step);
    LogKept(s, step);
  }

  lemma InitialInv()
    ensures Inv(INITIAL)
  {
  }

  lemma {:induction false} RunKeepsInv(states: seq<Can>, steps: seq<Step>)
    requires IsRun(states, steps)
    ensures forall k :: 0 <= k < |states| ==> Inv(states[k])
  {
    hide Inv, Next, CanStep;
    if steps == [] {
      InitialInv();
    } else {
      var n := |steps| - 1;
      RunKeepsInv(states[..n + 1], steps[..n]);
      assert Inv(states[n]) by { assert states[..n + 1][n] == states[n]; }
      StepKeepsInv(states[n], steps[n]);
      forall k | 0 <= k < |states|
        ensures Inv(states[k])
      {
        if k <= n {
          assert states[..n + 1][k] == states[k];
        } else {
          assert states[k] == Next(states[n], steps[n]);
        }
      }
    }
  }

  lemma EndKeepsInv(states: seq<Can>, steps: seq<Step>)
    requires IsRun(states, steps)
    ensures Inv(states[|steps|])
  {
    RunKeepsInv(states, steps);
  }

  // ----- The results, for every run

  function Holders(s: Can): set<CallId> {
    set c | c in s.calls && Holds(PcOf(s, c))
  }

  /** The one token is free, held by one call, or travelling with the one request in flight. */
  lemma TokenConservation(states: seq<Can>, steps: seq<Step>)
    requires IsRun(states, steps)
    ensures var s := states[|steps|];
            s.txSem + |Holders(s)| + (if s.inFlight.Some? then 1 else 0) == 1
  {
    EndKeepsInv(states, steps);
    var s := states[|steps|];
    if s.txSem == 0 && s.inFlight == None {
      var h: CallId :| Holds(PcOf(s, h));
      assert Holders(s) == {h};
    } else {
      assert Holders(s) == {};
    }
  }

  lemma {:induction false} CallbacksExtend(a: seq<Entry>, e: Entry)
    ensures CallbacksOf(a) <= CallbacksOf(a + [e])
  {
    assert (a + [e])[..|a|] == a;
  }

  lemma CompletedIsPrefix(s: Can)
    requires Inv(s)
    ensures s.completed <= s.accepted && |s.accepted| <= |s.completed| + 1
    ensures CallbacksOf(s.completed) <= CallbacksOf(s.accepted)
  {
    if s.inFlight.Some? {
      CallbacksExtend(s.completed, s.inFlight.value);
    } else {
      assert s.accepted == s.completed;
    }
  }

  /**
   Completion is exactly once and in order: the callbacks made are those of the completed requests, which
   are the accepted ones but for at most the newest; no call is accepted twice; the frames sent are theirs.
   */
  lemma CompletionInOrder(states: seq<Can>, steps: seq<Step>)
    requires IsRun(states, steps)
    ensures var s := states[|steps|];
            && s.completed <= s.accepted && |s.accepted| <= |s.completed| + 1
            && s.called == CallbacksOf(s.completed) <= CallbacksOf(s.accepted)
            && (forall i, j :: 0 <= i < j < |s.accepted| ==> s.accepted[i].c != s.accepted[j].c)
            && (forall e :: e in s.accepted ==> WellTyped(e.req))
            && (s.bus == FramesOf(s.completed) || s.bus == FramesOf(s.accepted))
  {
    EndKeepsInv(states, steps);
    CompletedIsPrefix(states[|steps|]);
  }

  /** A call is accepted exactly when it returned 0 or still will: one that returned an error never calls back. */
  lemma ErrorNeverCallsBack(states: seq<Can>, steps: seq<Step>, c: CallId)
    requires IsRun(states, steps)
    ensures var s := states[|steps|];
            (exists e :: e in s.accepted && e.c == c) <==> Taken(PcOf(s, c))
  {
    EndKeepsInv(states, steps);
    var s := states[|steps|];
    if Taken(PcOf(s, c)) {
      assert Entry(c, s.calls[c].req) in s.accepted;
    }
  }

  lemma LockedBuffer(s: Can, c: CallId)
    requires CallsInv(s) && BufferInv(s) && PcOf(s, c) == Locked
    ensures s.stb == [] && s.slot == NoCallback && !PcOf(Next(s, SetSlot(c)), c).Refused?
  {
    assert Holds(PcOf(s, c)) && HolderBuffer(s, c);
  }

  lemma LoadedBuffer(s: Can, c: CallId)
    requires CallsInv(s) && BufferInv(s) && CanStep(s, StartAll(c))
    ensures WellTyped(s.calls[c].req) && 1 <= |s.calls[c].req.frames| <= 4
    ensures s.stb == Wires(s.calls[c].req.frames) && s.slot == s.calls[c].req.cb
  {
    assert Holds(PcOf(s, c)) && HolderBuffer(s, c);
    assert CallInv(s.calls[c]);
    var w := Wires(s.calls[c].req.frames);
    assert w[..|w|] == w;
  }

  /** A call that holds token and mutex finds the buffer empty and the slot clear, so no batch is turned away there. */
  lemma BatchFindsBufferEmpty(states: seq<Can>, steps: seq<Step>, c: CallId)
    requires IsRun(states, steps) && PcOf(states[|steps|], c) == Locked
    ensures var s := states[|steps|];
            s.stb == [] && s.slot == NoCallback && !PcOf(Next(s, SetSlot(c)), c).Refused?
  {
    EndKeepsInv(states, steps);
    LockedBuffer(states[|steps|], c);
  }

  /** When a batch is started the buffer holds exactly its one to four frames, in order. */
  lemma BatchIsWhole(states: seq<Can>, steps: seq<Step>, c: CallId)
    requires IsRun(states, steps) && CanStep(states[|steps|], StartAll(c))
    ensures var s := states[|steps|];
            && WellTyped(s.calls[c].req) && 1 <= |s.calls[c].req.frames| <= 4
            && s.slot == s.calls[c].req.cb && |s.stb| == |s.calls[c].req.frames|
            && forall k :: 0 <= k < |s.stb| ==> Carries(s.stb[k], s.calls[c].req.frames[k])
  {
    hide Carries, OnWire, Inv;
    EndKeepsInv(states, steps);
    var s := states[|steps|];
    BuffersOf(s);
    LoadedBuffer(s, c);
    forall k | 0 <= k < |s.stb|
      ensures Carries(s.stb[k], s.calls[c].req.frames[k])
    {
      WireCarries(s.calls[c].req.frames[k]);
    }
  }

  lemma BuffersOf(s: Can)
    requires Inv(s)
    ensures CallsInv(s) && BufferInv(s)
  {
  }

  /** A batch passes the frame checks exactly when each frame does; otherwise the first bad frame decides. */
  lemma {:induction false} FirstRefusalMeaning(fd: bool, frames: seq<Frame>)
    ensures FirstRefusal(fd, frames) == Success <==> forall k :: 0 <= k < |frames| ==> BatchCheck(fd, frames[k]) == Success
    ensures FirstRefusal(fd, frames) != Success ==>
              exists k :: 0 <= k < |frames| && BatchCheck(fd, frames[k]) == FirstRefusal(fd, frames)
                          && forall j :: 0 <= j < k ==> BatchCheck(fd, frames[j]) == Success
  {
    if frames != [] && BatchCheck(fd, frames[0]) == Success {
      FirstRefusalMeaning(fd, frames[1..]);
      if FirstRefusal(fd, frames) != Success {
        var k :| 0 <= k < |frames[1..]| && BatchCheck(fd, frames[1..][k]) == FirstRefusal(fd, frames[1..])
                 && forall j :: 0 <= j < k ==> BatchCheck(fd, frames[1..][j]) == Success;
        assert BatchCheck(fd, frames[k + 1]) == FirstRefusal(fd, frames);
        forall j | 0 <= j < k + 1
          ensures BatchCheck(fd, frames[j]) == Success
        {
          if j > 0 {
            assert frames[j] == frames[1..][j - 1];
          }
        }
      }
    }
  }

  /** The size and the frames of a request are right for the controller's mode. */
  predicate GoodFrames(fd: bool, req: Request) {
    && (if req.batch then 1 <= |req.frames| <= 4 else |req.frames| == 1)
    && forall k :: 0 <= k < |req.frames| ==> GoodFrame(fd, req.batch, req.frames[k])
  }

  predicate GoodFrame(fd: bool, batch: bool, f: Frame) {
    FitsMode(fd, f) && (f.esi ==> if batch then f.fdf else f.brs)
  }

  /** Exactly which submissions pass, and that the frames are looked at before the device. */
  lemma PrecheckMeaning(d: Device, req: Request)
    requires WellTyped(req)
    ensures Precheck(d, req) == Success <==> GoodFrames(d.fd, req) && d.started && !d.busOff
    ensures Precheck(d, req) == ENETDOWN <==> GoodFrames(d.fd, req) && !d.started
    ensures Precheck(d, req) == ENETUNREACH <==> GoodFrames(d.fd, req) && d.started && d.busOff
    ensures req.batch && !(1 <= |req.frames| <= 4) ==> Precheck(d, req) == EINVAL
    ensures !GoodFrames(d.fd, req) ==> Precheck(d, req) == EINVAL || Precheck(d, req) == ENOTSUP
  {
    if req.batch {
      FirstRefusalMeaning(d.fd, req.frames);
    }
    forall k | 0 <= k < |req.frames|
      ensures (if req.batch then BatchCheck(d.fd, req.frames[k]) else SendCheck(d.fd, req.frames[k])) == Success
              <==> GoodFrame(d.fd, req.batch, req.frames[k])
    {
      ChecksMeaning(d.fd, req.frames[k]);
    }
  }

  /** The submission a call came by; one that did not pass has returned at once. */
  ghost predicate CameBy(step: Step, c: CallId, call: Call) {
    && step.Submit? && step.c == c && step.req == call.req && WellTyped(call.req)
    && (Precheck(step.device, call.req) == Success || call.pc == Done(Precheck(step.device, call.req)))
  }

  lemma StepKeepsCameBy(s: Can, step: Step, c: CallId, origin: Step)
    requires CanStep(s, step) && c in s.calls && CameBy(origin, c, s.calls[c])
    ensures c in Next(s, step).calls && CameBy(origin, c, Next(s, step).calls[c])
  {
    hide Next, CanStep, Precheck;
    RequestsStay(s, step);
    if s.calls[c].pc.Done? {
      DoneStays(s, step, c);
    }
  }

  lemma SubmitsCameBy(s: Can, step: Step)
    requires CanStep(s, step) && step.Submit?
    ensures Next(s, step).calls.Keys == s.calls.Keys + {step.c} && CameBy(step, step.c, Next(s, step).calls[step.c])
  {
    hide Precheck;
  }

  lemma NoNewCalls(s: Can, step: Step)
    requires CanStep(s, step) && !step.Submit?
    ensures Next(s, step).calls.Keys == s.calls.Keys
  {
    hide CanStep, Next, PcAfter;
    CallsAfterStep(s, step);
    if Moves(step) {
      MoverIsThere(s, step);
    }
  }

  lemma {:induction false} EveryCallCame(states: seq<Can>, steps: seq<Step>, c: CallId)
    requires IsRun(states, steps) && c in states[|steps|].calls
    ensures exists k :: 0 <= k < |steps| && CameBy(steps[k], c, states[|steps|].calls[c])
  {
    hide Next, CanStep, CameBy;
    if steps != [] {
      var n := |steps| - 1;
      var front := states[..n + 1];
      assert forall k :: 0 <= k <= n ==> front[k] == states[k];
      var s, t := states[n], states[n + 1];
      if c in s.calls {
        EveryCallCame(front, steps[..n], c);
        var k :| 0 <= k < n && CameBy(steps[..n][k], c, s.calls[c]);
        StepKeepsCameBy(s, steps[n], c, steps[k]);
      } else if steps[n].Submit? {
        SubmitsCameBy(s, steps[n]);
      } else {
        NoNewCalls(s, steps[n]);
      }
    }
  }

  /**
   Over every run each accepted request was submitted to a device that was started and not bus-off, with
   frames whose number, flags and DLC fit the controller's mode.
   */
  lemma AcceptedWasGood(states: seq<Can>, steps: seq<Step>, e: Entry)
    requires IsRun(states, steps) && e in states[|steps|].accepted
    ensures exists k :: 0 <= k < |steps| && GoodSubmission(steps[k], e)
  {
    hide Next, CanStep, Precheck, GoodFrames;
    EndKeepsInv(states, steps);
    var s := states[|steps|];
    EveryCallCame(states, steps, e.c);
    var k :| 0 <= k < |steps| && CameBy(steps[k], e.c, s.calls[e.c]);
    PrecheckMeaning(steps[k].device, e.req);
    assert GoodSubmission(steps[k], e);
  }

  ghost predicate GoodSubmission(step: Step, e: Entry) {
    && step.Submit? && step.c == e.c && step.req == e.req
    && step.device.started && !step.device.busOff && GoodFrames(step.device.fd, e.req)
  }

  // ----- Why a call fails

  /** The error a call returns or will return. */
  function ErrorOf(pc: Pc): Errno {
    match pc
    case Refused(err) => err
    case GiveBack(err) => err
    case Done(result) => result
    case _ => Success
  }

  /** A step that makes its call fail, and the error it causes. */
  predicate Causes(step: Step, c: CallId, err: Errno) {
    match step
    case Submit(d, req, device) => d == c && WellTyped(req) && err == Precheck(device, req)
    case TokenTimeout(d) => d == c && err == EAGAIN
    case MutexTimeout(d) => d == c && err == EAGAIN
    case SendRefused(d, fifoFull) => d == c && err == if fifoFull then EAGAIN else EIO
    case _ => false
  }

  lemma ErrorComesFrom(s: Can, step: Step, c: CallId)
    requires CanStep(s, step) && ErrorOf(PcOf(Next(s, step), c)) != Success
    requires step.SetSlot? ==> s.stb == []
    ensures ErrorOf(PcOf(s, c)) == ErrorOf(PcOf(Next(s, step), c)) || Causes(step, c, ErrorOf(PcOf(Next(s, step), c)))
  {
    hide Next, Precheck;
    OthersStay(s, step);
  }

  /** Over every run a call that fails does so with the error of a step of its own that failed. */
  lemma {:induction false} ErrorHasItsCause(states: seq<Can>, steps: seq<Step>, c: CallId)
    requires IsRun(states, steps) && ErrorOf(PcOf(states[|steps|], c)) != Success
    ensures exists k :: 0 <= k < |steps| && Causes(steps[k], c, ErrorOf(PcOf(states[|steps|], c)))
  {
    hide Next, CanStep, Causes, ErrorOf, Inv;
    if steps == [] {
      NoErrorYet(c);
    } else {
      var n := |steps| - 1;
      var front := states[..n + 1];
      assert forall k :: 0 <= k <= n ==> front[k] == states[k];
      var s, t := states[n], states[n + 1];
      EndKeepsInv(front, steps[..n]);
      if steps[n].SetSlot? {
        LockedAtSlot(s, steps[n].c);
      }
      ErrorComesFrom(s, steps[n], c);
      if ErrorOf(PcOf(s, c)) == ErrorOf(PcOf(t, c)) {
        ErrorHasItsCause(front, steps[..n], c);
        var k :| 0 <= k < n && Causes(steps[..n][k], c, ErrorOf(PcOf(s, c)));
        assert Causes(steps[k], c, ErrorOf(PcOf(t, c)));
      }
    }
  }

  lemma NoErrorYet(c: CallId)
    ensures ErrorOf(PcOf(INITIAL, c)) == Success
  {
  }

  lemma LockedAtSlot(s: Can, c: CallId)
    requires Inv(s) && CanStep(s, SetSlot(c))
    ensures s.stb == []
  {
    HolderFinds(s, SetSlot(c));
  }

  // ----- From frame to frame

  /** The frames of the requests, one after the other. */
  function Frames(entries: seq<Entry>): seq<Frame> {
    if entries == [] then [] else Frames(entries[..|entries| - 1]) + entries[|entries| - 1].req.frames
  }

  lemma {:induction false} FramesAreWired(entries: seq<Entry>)
    requires forall e :: e in entries ==> WellTyped(e.req)
    ensures |FramesOf(entries)| == |Frames(entries)|
    ensures forall k :: 0 <= k < |Frames(entries)| ==>
              |Frames(entries)[k].data| == PAYLOAD && FramesOf(entries)[k] == OnWire(Frames(entries)[k])
  {
    hide OnWire;
    if entries != [] {
      FramesAreWired(entries[..|entries| - 1]);
      assert entries[|entries| - 1] in entries;
    }
  }

  /** A wire is the message of a frame: it arrives as that, and as nothing else. */
  ghost predicate Carries(w: Wire, f: Frame) {
    |f.data| == PAYLOAD && forall m: Message :: Arrives(w, m) <==> m == MessageOf(f)
  }

  lemma WireCarries(f: Frame)
    requires |f.data| == PAYLOAD
    ensures Carries(OnWire(f), f)
  {
    hide OnWire, Arrives, MessageOf;
    forall m: Message
      ensures Arrives(OnWire(f), m) <==> m == MessageOf(f)
    {
      WireDeterminesFrame(f, m);
    }
  }

  /** Over every run what has been on the bus arrives as exactly the frames of the requests sent, in order. */
  lemma BusCarriesFrames(states: seq<Can>, steps: seq<Step>)
    requires IsRun(states, steps)
    ensures var s := states[|steps|];
            var sent := Frames(if s.event then s.accepted else s.completed);
            |s.bus| == |sent| && forall k :: 0 <= k < |sent| ==> Carries(s.bus[k], sent[k])
  {
    hide Carries, OnWire, TokenInv, MutexInv, CallsInv, BufferInv, OutcomeInv;
    EndKeepsInv(states, steps);
    var s := states[|steps|];
    var entries := if s.event then s.accepted else s.completed;
    assert forall e :: e in s.completed ==> e in s.accepted;
    FramesAreWired(entries);
    forall k | 0 <= k < |Frames(entries)|
      ensures Carries(s.bus[k], Frames(entries)[k])
    {
      WireCarries(Frames(entries)[k]);
    }
  }

  /** A call that has returned stays where it is. */
  lemma DoneStays(s: Can, step: Step, c: CallId)
    requires CanStep(s, step) && PcOf(s, c).Done?
    ensures PcOf(Next(s, step), c) == PcOf(s, c)
  {
    hide Wires, Precheck, OnWire;
    OthersStay(s, step);
  }

  lemma {:induction false} StaysDone(states: seq<Can>, steps: seq<Step>, i: nat, j: nat, c: CallId)
    requires IsRun(states, steps) && i <= j <= |steps| && PcOf(states[i], c).Done?
    ensures PcOf(states[j], c) == PcOf(states[i], c)
  {
    hide Next, CanStep;
    if i < j {
      StaysDone(states, steps, i, j - 1, c);
      DoneStays(states[j - 1], steps[j - 1], c);
    }
  }

  /**
   A request that fails its checks changes nothing the calls share, and for good: in every later state the
   call has returned that error, holds neither token nor mutex, and none of the requests is its own.
   */
  lemma RejectedForGood(states: seq<Can>, steps: seq<Step>, k: nat, c: CallId, req: Request, device: Device, j: nat)
    requires IsRun(states, steps) && k < j <= |steps|
    requires steps[k] == Submit(c, req, device) && WellTyped(req) && Precheck(device, req) != Success
    ensures states[k + 1] == states[k].(calls := states[k + 1].calls)
    ensures PcOf(states[j], c) == Done(Precheck(device, req))
    ensures !Holds(PcOf(states[j], c)) && states[j].mutex != Some(c)
    ensures forall e :: e in states[j].accepted ==> e.c != c
  {
    hide IsRun, Next, CanStep, TokenInv, CallsInv, BufferInv, LogInv, Precheck;
    StepOf(states, steps, k);
    RejectedAtOnce(states[k], c, req, device);
    StaysDone(states, steps, k + 1, j, c);
    RunKeepsInv(states, steps);
    assert Inv(states[j]);
  }

  lemma StepOf(states: seq<Can>, steps: seq<Step>, k: nat)
    requires IsRun(states, steps) && k < |steps|
    ensures |states| == |steps| + 1 && CanStep(states[k], steps[k]) && states[k + 1] == Next(states[k], steps[k])
  {
  }

  lemma RejectedAtOnce(s: Can, c: CallId, req: Request, device: Device)
    requires CanStep(s, Submit(c, req, device)) && Precheck(device, req) != Success
    ensures Next(s, Submit(c, req, device)) == s.(calls := s.calls[c := Call(req, Done(Precheck(device, req)))])
  {
    hide Precheck;
  }

  // ----- Sends without a callback

  predicate Blocked(call: Call) {
    call.req.cb == NoCallback && (call.pc == Accepted || call.pc == WaitFinish)
  }

  predicate Returned(call: Call) {
    call.req.cb == NoCallback && call.pc == Done(Success)
  }

  /** The calls without a callback between submission and wake-up. */
  predicate Blocking(s: Can, c: CallId) {
    c in s.calls && Blocked(s.calls[c])
  }

  ghost predicate AtMostOneBlocking(s: Can) {
    forall c: CallId, d: CallId :: Blocking(s, c) && Blocking(s, d) ==> c == d
  }

  ghost predicate Completed(s: Can, c: CallId) {
    exists e :: e in s.completed && e.c == c
  }

  /** `tx_fin_sem` is 1 exactly when the one blocking call's request has completed. */
  ghost predicate FinishInv(s: Can) {
    && s.finSem <= 1
    && (s.finSem == 1 ==> exists c: CallId :: Blocking(s, c) && Completed(s, c))
    && (s.finSem == 0 ==> forall c: CallId :: Blocking(s, c) ==> !Completed(s, c))
    && (forall c: CallId :: Finished(s, c) ==> Completed(s, c))
  }

  /** The calls without a callback that have returned 0. */
  predicate Finished(s: Can, c: CallId) {
    c in s.calls && Returned(s.calls[c])
  }

  lemma SameView(s: Can, t: Can)
    requires FinishInv(s)
    requires t.finSem == s.finSem && t.completed == s.completed
    requires forall c: CallId :: Blocking(s, c) ==> Blocking(t, c)
    requires forall c: CallId :: Blocking(t, c) ==> Blocking(s, c) || !Completed(s, c)
    requires forall c: CallId :: Finished(t, c) ==> Finished(s, c)
    ensures FinishInv(t)
  {
    assert forall c: CallId :: Completed(t, c) <==> Completed(s, c);
  }

  lemma InFlightIsNotCompleted(s: Can)
    requires Inv(s) && s.inFlight.Some?
    ensures !Completed(s, s.inFlight.value.c)
    ensures EntryOf(s, s.inFlight.value) && Taken(PcOf(s, s.inFlight.value.c))
  {
    var n := |s.completed|;
    assert s.accepted[n] == s.inFlight.value;
    forall e | e in s.completed
      ensures e.c != s.inFlight.value.c
    {
      var k :| 0 <= k < n && s.completed[k] == e;
      assert s.accepted[k] == e;
    }
  }

  lemma CompletedIsTaken(s: Can, c: CallId)
    requires Inv(s) && Completed(s, c)
    ensures Taken(PcOf(s, c))
  {
    var e :| e in s.completed && e.c == c;
    assert e in s.accepted;
  }

  lemma CompleteKeepsFinish(s: Can, r: Entry)
    requires FinishInv(s) && AtMostOneBlocking(s)
    requires s.inFlight == Some(r) && s.slot == r.req.cb
    requires EntryOf(s, r) && Taken(PcOf(s, r.c)) && !Completed(s, r.c)
    ensures FinishInv(Complete(s))
  {
    var t := Complete(s);
    assert r in t.completed && Completed(t, r.c);
    assert forall c: CallId :: Completed(s, c) ==> Completed(t, c);
    assert forall c: CallId :: Completed(t, c) ==> c == r.c || Completed(s, c);
    assert forall c: CallId :: Blocking(t, c) <==> Blocking(s, c);
    assert forall c: CallId :: Finished(t, c) ==> Finished(s, c);
    assert !Finished(s, r.c);
    if r.req.cb == NoCallback {
      assert Blocking(t, r.c);
    }
  }

  lemma InterruptKeepsFinish(s: Can)
    requires Inv(s) && FinishInv(s) && AtMostOneBlocking(s) && s.event
    ensures FinishInv(Complete(s))
  {
    InFlightIsNotCompleted(s);
    CompleteKeepsFinish(s, s.inFlight.value);
  }

  lemma WakeUpKeepsFinish(s: Can, c: CallId)
    requires Inv(s) && FinishInv(s) && AtMostOneBlocking(s) && CanStep(s, WakeUp(c))
    ensures FinishInv(Next(s, WakeUp(c)))
  {
    hide Wires, TokenInv, MutexInv, BufferInv, OutcomeInv, LogInv;
    var t := Next(s, WakeUp(c));
    assert CallInv(s.calls[c]) && Blocking(s, c) && Completed(s, c);
    assert t.calls == s.calls[c := Call(s.calls[c].req, Done(Success))] && t.finSem == 0;
    WokenKeepsFinish(s, t, c);
  }

  lemma WokenKeepsFinish(s: Can, t: Can, c: CallId)
    requires FinishInv(s) && AtMostOneBlocking(s) && Blocking(s, c) && Completed(s, c)
    requires t.calls == s.calls[c := Call(s.calls[c].req, Done(Success))] && t.finSem == 0 && t.completed == s.completed
    ensures FinishInv(t)
  {
    assert forall d: CallId :: Completed(t, d) <==> Completed(s, d);
    assert forall d: CallId :: Blocking(t, d) ==> Blocking(s, d) && d != c;
    assert forall d: CallId :: Finished(t, d) ==> Finished(s, d) || d == c;
  }

  /** How a step changes whether its call blocks or has returned; only the wake-up makes a blocking call return. */
  lemma BlockedMoves(s: Can, step: Step)
    requires CallsInv(s) && CanStep(s, step) && Moves(step)
    ensures Blocked(CallAfter(s, step)) ==> Accepts(step) || (step.c in s.calls && Blocked(s.calls[step.c]))
    ensures !step.WakeUp? && Blocking(s, step.c) ==> Blocked(CallAfter(s, step))
    ensures !step.WakeUp? ==> !Returned(CallAfter(s, step))
  {
    hide Precheck;
    if step.GiveToken? || step.Submit? || step.TokenTimeout? {
      ErrorsStay(s, step);
    }
  }

  /** Every step but the wake-up and the interrupt leaves alone what the invariant looks at. */
  lemma OtherKeepsFinish(s: Can, step: Step)
    requires Inv(s) && FinishInv(s) && CanStep(s, step) && !step.WakeUp? && step != Interrupt
    ensures FinishInv(Next(s, step))
  {
    hide Next, CanStep, CallAfter, Blocked, Returned, Completed, FinishInv, Inv;
    InvParts(s);
    CallsAfterStep(s, step);
    SemaphoresStay(s, step);
    LogsStay(s, step);
    if Moves(step) {
      BlockedMoves(s, step);
      if Accepts(step) {
        AcceptedIsNew(s, step);
      }
    }
    SameView(s, Next(s, step));
  }

  lemma InvParts(s: Can)
    requires Inv(s)
    ensures CallsInv(s) && MutexInv(s)
  {
  }

  /** At an acceptance nothing is in flight, and the request accepted is a new one. */
  lemma AcceptedIsNew(s: Can, step: Step)
    requires Inv(s) && CanStep(s, step) && Accepts(step)
    ensures s.inFlight == None && !Completed(s, step.c)
    ensures Next(s, step).finSem == s.finSem && Next(s, step).completed == s.completed
  {
    hide Next, CanStep, Completed, Taken, MutexInv, BufferInv, OutcomeInv, LogInv;
    HolderIsAlone(s, step);
    TakenMoves(s, step);
    SemaphoresStay(s, step);
    LogsStay(s, step);
    if Completed(s, step.c) {
      CompletedIsTaken(s, step.c);
    }
  }

  lemma FinishKept(s: Can, step: Step)
    requires Inv(s) && FinishInv(s) && AtMostOneBlocking(s) && CanStep(s, step)
    ensures FinishInv(Next(s, step))
  {
    hide Inv, FinishInv, AtMostOneBlocking, Complete;
    if step.WakeUp? {
      WakeUpKeepsFinish(s, step.c);
    } else if step == Interrupt {
      InterruptKeepsFinish(s);
    } else {
      OtherKeepsFinish(s, step);
    }
  }

  lemma {:induction false} RunKeepsFinish(states: seq<Can>, steps: seq<Step>)
    requires IsRun(states, steps)
    requires forall k :: 0 <= k < |steps| ==> AtMostOneBlocking(states[k])
    ensures FinishInv(states[|steps|])
  {
    if steps != [] {
      var n := |steps| - 1;
      var front := states[..n + 1];
      assert forall k :: 0 <= k <= n ==> front[k] == states[k];
      RunKeepsFinish(front, steps[..n]);
      EndKeepsInv(front, steps[..n]);
      FinishKept(states[n], steps[n]);
    }
  }

  /**
   If at most one call without a callback is between submission and wake-up at a time, each such call
   returns 0 only after its own request completed, whatever sends with callbacks interleave.
   */
  lemma BlockingSendWaits(states: seq<Can>, steps: seq<Step>, c: CallId)
    requires IsRun(states, steps)
    requires forall k :: 0 <= k < |steps| ==> AtMostOneBlocking(states[k])
    requires c in states[|steps|].calls && states[|steps|].calls[c].req.cb == NoCallback
    requires PcOf(states[|steps|], c) == Done(Success)
    ensures Completed(states[|steps|], c)
  {
    RunKeepsFinish(states, steps);
  }

  /**
   Under the same condition the wait can end: a call that waits for a request that has completed finds the
   semaphore given.
   */
  lemma CompletedCanWakeUp(states: seq<Can>, steps: seq<Step>, c: CallId)
    requires IsRun(states, steps)
    requires forall k :: 0 <= k < |steps| ==> AtMostOneBlocking(states[k])
    requires PcOf(states[|steps|], c) == WaitFinish && Completed(states[|steps|], c)
    ensures CanStep(states[|steps|], WakeUp(c))
  {
    RunKeepsFinish(states, steps);
    EndKeepsInv(states, steps);
    var s := states[|steps|];
    assert CallInv(s.calls[c]) && Blocking(s, c);
  }

  /** A call without a callback whose request has not completed would find the finish semaphore given. */
  ghost predicate CanWakeEarly(s: Can, c: CallId) {
    Blocking(s, c) && !Completed(s, c) && s.finSem > 0
  }

  /** Such a call returns 0 in its own next steps, while its request is in flight. */
  lemma WakesEarly(s: Can, c: CallId) returns (script: seq<Step>)
    requires Inv(s) && CanWakeEarly(s, c)
    ensures CanRun(s, script) && PcOf(Exec(s, script), c) == Done(Success) && !Completed(Exec(s, script), c)
  {
    hide CanRun, Exec, Inv;
    if PcOf(s, c) == Accepted {
      var t := Goto(s, c, WaitFinish).(mutex := None);
      ChainFirst(s, Unlock(c), t);
      var u := WokenUp(t, c);
      Chain(s, [Unlock(c)], t, WakeUp(c), u);
      script := [Unlock(c)] + [WakeUp(c)];
    } else {
      var u := WokenUp(s, c);
      ChainFirst(s, WakeUp(c), u);
      script := [WakeUp(c)];
    }
  }

  lemma WokenUp(s: Can, c: CallId) returns (t: Can)
    requires PcOf(s, c) == WaitFinish && s.finSem > 0
    ensures CanStep(s, WakeUp(c)) && t == Next(s, WakeUp(c))
    ensures PcOf(t, c) == Done(Success) && t.completed == s.completed
  {
    t := Next(s, WakeUp(c));
  }

  /** Only the acceptance of its own request makes a call block. */
  lemma OnlyAcceptanceBlocks(s: Can, step: Step, d: CallId)
    requires CallsInv(s) && CanStep(s, step) && Blocking(Next(s, step), d)
    ensures Blocking(s, d) || (Accepts(step) && d == step.c)
  {
    hide CanStep, Next, CallAfter, Blocked, CallsInv;
    CallsAfterStep(s, step);
    if Moves(step) {
      BlockedMoves(s, step);
    }
  }

  /** The first time two calls block at once, the later one can wake on the earlier one's signal. */
  lemma SecondBlockerCanWakeEarly(s: Can, step: Step)
    requires Inv(s) && FinishInv(s) && AtMostOneBlocking(s) && CanStep(s, step) && !AtMostOneBlocking(Next(s, step))
    ensures Accepts(step) && CanWakeEarly(Next(s, step), step.c)
  {
    var t := Next(s, step);
    var c: CallId, d: CallId :| Blocking(t, c) && Blocking(t, d) && c != d;
    OnlyAcceptanceBlocks(s, step, c);
    OnlyAcceptanceBlocks(s, step, d);
    var w, b := step.c, if c == step.c then d else c;
    AcceptedIsNew(s, step);
    BlockedHasCompleted(s, b);
  }

  /** With nothing in flight the request of a blocking call has completed, and its signal is still there. */
  lemma BlockedHasCompleted(s: Can, b: CallId)
    requires Inv(s) && FinishInv(s) && Blocking(s, b) && s.inFlight == None
    ensures Completed(s, b) && s.finSem == 1
  {
    assert Taken(PcOf(s, b));
    assert s.accepted == s.completed + [];
    assert Entry(b, s.calls[b].req) in s.completed;
  }

  ghost predicate NeverTwoBlocking(states: seq<Can>) {
    forall k :: 0 <= k < |states| ==> AtMostOneBlocking(states[k])
  }

  ghost predicate NoEarlyWake(s: Can) {
    forall c: CallId :: !CanWakeEarly(s, c)
  }

  ghost predicate NoneCanWakeEarly(states: seq<Can>) {
    forall k :: 0 <= k < |states| ==> NoEarlyWake(states[k])
  }

  /**
   The condition is exact, over every run: a call that blocks can return 0 before its own request has
   completed in some state of the run exactly if two calls block at once in some state of it.
   */
  lemma {:induction false} NoneCanWakeEarlyIff(states: seq<Can>, steps: seq<Step>)
    requires IsRun(states, steps)
    ensures NoneCanWakeEarly(states) <==> NeverTwoBlocking(states)
  {
    hide Inv, FinishInv, CanStep, Next, Blocking, Completed;
    if steps == [] {
      NothingBlocks(states[0]);
    } else {
      var n := |steps| - 1;
      var front, s, t := states[..n + 1], states[n], states[n + 1];
      assert forall k :: 0 <= k <= n ==> front[k] == states[k];
      NoneCanWakeEarlyIff(front, steps[..n]);
      if NeverTwoBlocking(front) {
        RunKeepsFinish(front, steps[..n]);
        EndKeepsInv(front, steps[..n]);
        FinishKept(s, steps[n]);
        if AtMostOneBlocking(t) {
          AloneCannotWakeEarly(t);
        } else {
          SecondBlockerCanWakeEarly(s, steps[n]);
        }
      }
      WithLast(states, front);
    }
  }

  /** What holds of all states holds of those before the last and of the last. */
  lemma WithLast(states: seq<Can>, front: seq<Can>)
    requires |states| > 0 && front == states[..|states| - 1]
    ensures NeverTwoBlocking(states) <==> NeverTwoBlocking(front) && AtMostOneBlocking(states[|states| - 1])
    ensures NoneCanWakeEarly(states) <==> NoneCanWakeEarly(front) && NoEarlyWake(states[|states| - 1])
  {
    hide AtMostOneBlocking, NoEarlyWake;
    assert forall k :: 0 <= k < |front| ==> front[k] == states[k];
  }

  lemma NothingBlocks(s: Can)
    requires s == INITIAL
    ensures AtMostOneBlocking(s) && NoEarlyWake(s)
  {
  }

  lemma AloneCannotWakeEarly(s: Can)
    requires FinishInv(s) && AtMostOneBlocking(s)
    ensures NoEarlyWake(s)
  {
  }

  // ----- Two sends without a callback at once

  /** What a script reaches is reached by a run. */
  lemma {:induction false} RunOfScript(script: seq<Step>) returns (states: seq<Can>)
    requires CanRun(INITIAL, script)
    ensures IsRun(states, script) && states[|script|] == Exec(INITIAL, script)
  {
    if script == [] {
      states := [INITIAL];
    } else {
      var n := |script| - 1;
      var front := RunOfScript(script[..n]);
      states := front + [Exec(INITIAL, script)];
      forall k | 0 <= k < |script|
        ensures CanStep(states[k], script[k]) && states[k + 1] == Next(states[k], script[k])
      {
        if k < n {
          assert script[..n][k] == script[k];
        }
      }
    }
  }

  function Zeros(n: nat): (r: seq<byte>)
    ensures |r| == n
  {
    if n == 0 then [] else Zeros(n - 1) + [0]
  }

  const PLAIN_FRAME := Frame(1, 0, false, false, false, false, false, Zeros(PAYLOAD))
  const PLAIN_SEND := Request([PLAIN_FRAME], false, NoCallback)
  const READY := Device(false, true, false)

  lemma PlainSendPasses()
    ensures Blocks(PLAIN_SEND)
  {
    assert PLAIN_SEND.frames[0] == PLAIN_FRAME;
  }

  /** A single send without a callback that passes its checks on a started device. */
  predicate Blocks(req: Request) {
    WellTyped(req) && !req.batch && req.cb == NoCallback && Precheck(READY, req) == Success
  }

  /** One send without a callback, up to its wait for completion. */
  function SendScript(c: CallId, req: Request): seq<Step> {
    EntryScript(c, req) + ExitScript(c)
  }

  function EntryScript(c: CallId, req: Request): seq<Step> {
    [Submit(c, req, READY)] + [TakeToken(c)] + [LockMutex(c)]
  }

  function ExitScript(c: CallId): seq<Step> {
    [SetSlot(c)] + [SendAccepted(c)] + [Unlock(c)]
  }

  lemma SubmitEffect(s: Can, c: CallId, req: Request)
    requires c !in s.calls && Blocks(req)
    ensures CanStep(s, Submit(c, req, READY))
    ensures Next(s, Submit(c, req, READY)) == s.(calls := s.calls[c := Call(req, WaitToken)])
  {
    hide Precheck;
  }

  lemma TakeTokenEffect(s: Can, c: CallId, req: Request)
    requires s.txSem == 1 && c in s.calls && s.calls[c] == Call(req, WaitToken)
    ensures CanStep(s, TakeToken(c))
    ensures Next(s, TakeToken(c)) == s.(txSem := 0, calls := s.calls[c := Call(req, WaitMutex)])
  {
  }

  lemma LockMutexEffect(s: Can, c: CallId, req: Request)
    requires s.mutex == None && c in s.calls && s.calls[c] == Call(req, WaitMutex)
    ensures CanStep(s, LockMutex(c))
    ensures Next(s, LockMutex(c)) == s.(mutex := Some(c), calls := s.calls[c := Call(req, Locked)])
  {
  }

  lemma EntryEffect(s: Can, c: CallId, req: Request)
    requires s.txSem == 1 && s.mutex == None && c !in s.calls && Blocks(req)
    ensures CanRun(s, EntryScript(c, req))
    ensures Exec(s, EntryScript(c, req)) == s.(txSem := 0, mutex := Some(c), calls := s.calls[c := Call(req, Locked)])
  {
    hide CanRun, Exec, CanStep, Next, Blocks;
    var s1 := s.(calls := s.calls[c := Call(req, WaitToken)]);
    var s2 := s1.(txSem := 0, calls := s1.calls[c := Call(req, WaitMutex)]);
    var s3 := s2.(mutex := Some(c), calls := s2.calls[c := Call(req, Locked)]);
    SubmitEffect(s, c, req);
    TakeTokenEffect(s1, c, req);
    LockMutexEffect(s2, c, req);
    ChainFirst(s, Submit(c, req, READY), s1);
    Chain(s, [Submit(c, req, READY)], s1, TakeToken(c), s2);
    Chain(s, [Submit(c, req, READY)] + [TakeToken(c)], s2, LockMutex(c), s3);
    assert s3.calls == s.calls[c := Call(req, Locked)];
  }

  lemma ExitEffect(s: Can, c: CallId, req: Request)
    requires c in s.calls && s.calls[c] == Call(req, Locked) && Blocks(req)
    ensures CanRun(s, ExitScript(c))
    ensures Exec(s, ExitScript(c)) ==
              s.(mutex := None, slot := NoCallback, stb := s.stb + Wires(req.frames), inFlight := Some(Entry(c, req)),
                 event := false, calls := s.calls[c := Call(req, WaitFinish)], accepted := s.accepted + [Entry(c, req)])
  {
    hide CanRun, Exec, Next, CanStep, Accept, Wires, Precheck;
    var s1 := s.(slot := NoCallback, calls := s.calls[c := Call(req, SlotSet)]);
    var s2 := s1.(stb := s.stb + Wires(req.frames), inFlight := Some(Entry(c, req)), event := false,
                  calls := s1.calls[c := Call(req, Accepted)], accepted := s.accepted + [Entry(c, req)]);
    var s3 := s2.(mutex := None, calls := s2.calls[c := Call(req, WaitFinish)]);
    SetSlotEffect(s, s1, c, req);
    AcceptEffect(s1, s2, c, req);
    UnlockEffect(s2, s3, c, req);
    ChainFirst(s, SetSlot(c), s1);
    Chain(s, [SetSlot(c)], s1, SendAccepted(c), s2);
    Chain(s, [SetSlot(c)] + [SendAccepted(c)], s2, Unlock(c), s3);
    assert s3.calls == s.calls[c := Call(req, WaitFinish)];
  }

  lemma SetSlotEffect(s: Can, t: Can, c: CallId, req: Request)
    requires c in s.calls && s.calls[c] == Call(req, Locked) && Blocks(req)
    requires t == s.(slot := NoCallback, calls := s.calls[c := Call(req, SlotSet)])
    ensures CanStep(s, SetSlot(c)) && Next(s, SetSlot(c)) == t
  {
    hide Precheck;
  }

  lemma AcceptEffect(s: Can, t: Can, c: CallId, req: Request)
    requires c in s.calls && s.calls[c] == Call(req, SlotSet) && Blocks(req)
    requires t == s.(stb := s.stb + Wires(req.frames), inFlight := Some(Entry(c, req)), event := false,
                     calls := s.calls[c := Call(req, Accepted)], accepted := s.accepted + [Entry(c, req)])
    ensures CanStep(s, SendAccepted(c)) && Next(s, SendAccepted(c)) == t
  {
    hide Precheck, Wires;
  }

  lemma UnlockEffect(s: Can, t: Can, c: CallId, req: Request)
    requires c in s.calls && s.calls[c] == Call(req, Accepted) && req.cb == NoCallback
    requires t == s.(mutex := None, calls := s.calls[c := Call(req, WaitFinish)])
    ensures CanStep(s, Unlock(c)) && Next(s, Unlock(c)) == t
  {
  }

  lemma SendEffect(s: Can, c: CallId, req: Request)
    requires s.txSem == 1 && s.mutex == None && c !in s.calls && Blocks(req)
    ensures CanRun(s, SendScript(c, req))
    ensures Exec(s, SendScript(c, req)) ==
              s.(txSem := 0, slot := NoCallback, stb := s.stb + Wires(req.frames), inFlight := Some(Entry(c, req)),
                 event := false, calls := s.calls[c := Call(req, WaitFinish)], accepted := s.accepted + [Entry(c, req)])
  {
    hide CanRun, Exec;
    EntryEffect(s, c, req);
    ExitEffect(Exec(s, EntryScript(c, req)), c, req);
    ExecAppend(s, EntryScript(c, req), ExitScript(c));
  }

  lemma CompletionEffect(s: Can, e: Entry)
    requires s.inFlight == Some(e) && !s.event && s.slot == NoCallback && s.txSem == 0
    ensures CanRun(s, [FramesSent] + [Interrupt])
    ensures Exec(s, [FramesSent] + [Interrupt]) ==
              s.(bus := s.bus + s.stb, stb := [], txSem := 1, finSem := Give(s.finSem), inFlight := None,
                 completed := s.completed + [e])
  {
    hide CanRun, Exec;
    var s1 := s.(bus := s.bus + s.stb, stb := [], event := true);
    ChainFirst(s, FramesSent, s1);
    Chain(s, [FramesSent], s1, Interrupt, Complete(s1));
  }

  /** Two sends without a callback, the second one submitted after the first one's completion. */
  lemma TwoSends() returns (script: seq<Step>)
    ensures CanRun(INITIAL, script)
    ensures var s, r := Exec(INITIAL, script), PLAIN_SEND;
            && s == INITIAL.(txSem := 0, finSem := 1, stb := s.stb, inFlight := Some(Entry(1, r)), bus := s.bus,
                             calls := map[0 := Call(r, WaitFinish), 1 := Call(r, WaitFinish)],
                             accepted := [Entry(0, r), Entry(1, r)], completed := [Entry(0, r)])
  {
    hide CanRun, Exec, Blocks, SendScript;
    PlainSendPasses();
    var r := PLAIN_SEND;
    SendEffect(INITIAL, 0, r);
    var s1 := Exec(INITIAL, SendScript(0, r));
    CompletionEffect(s1, Entry(0, r));
    var s2 := Exec(s1, [FramesSent] + [Interrupt]);
    ExecAppend(INITIAL, SendScript(0, r), [FramesSent] + [Interrupt]);
    SendEffect(s2, 1, r);
    var q := SendScript(0, r) + ([FramesSent] + [Interrupt]);
    ExecAppend(INITIAL, q, SendScript(1, r));
    script := q + SendScript(1, r);
  }

  /**
   Two calls at once, first case: the second one takes the first one's signal and returns 0 while its own
   request is in flight.
   */
  lemma SecondBlockingSendWakesEarly() returns (states: seq<Can>, script: seq<Step>)
    ensures IsRun(states, script)
    ensures var s := states[|script|];
            && PcOf(s, 1) == Done(Success) && s.calls[1].req.cb == NoCallback
            && s.inFlight == Some(Entry(1, s.calls[1].req)) && !Completed(s, 1)
  {
    hide CanRun, Exec, CanStep, Next;
    var q := TwoSends();
    var s := Exec(INITIAL, q);
    WakeUpEffect(s, 1, PLAIN_SEND);
    Chain(INITIAL, q, s, WakeUp(1), Next(s, WakeUp(1)));
    script := q + [WakeUp(1)];
    states := RunOfScript(script);
  }

  /**
   Second case, which is worse: both complete before either wakes. The semaphore saturates, one call takes the
   one signal, and the other waits for a request that has completed, in a state where no call and no
   completion is under way: only a new send could ever wake it.
   */
  lemma SecondSignalIsLost() returns (states: seq<Can>, script: seq<Step>)
    ensures IsRun(states, script)
    ensures var s := states[|script|];
            && PcOf(s, 1) == WaitFinish && Completed(s, 1) && s.finSem == 0
            && forall step :: CanStep(s, step) ==> step.Submit?
  {
    hide CanRun, Exec, CanStep, Next;
    var q := TwoSends();
    var s, r := Exec(INITIAL, q), PLAIN_SEND;
    CompletionEffect(s, Entry(1, r));
    ExecAppend(INITIAL, q, [FramesSent] + [Interrupt]);
    var t := Exec(s, [FramesSent] + [Interrupt]);
    WakeUpEffect(t, 0, r);
    var u := Next(t, WakeUp(0));
    Chain(INITIAL, q + ([FramesSent] + [Interrupt]), t, WakeUp(0), u);
    script := q + ([FramesSent] + [Interrupt]) + [WakeUp(0)];
    states := RunOfScript(script);
    assert u.completed == [Entry(0, r)] + [Entry(1, r)];
    assert Entry(1, r) in u.completed;
    OnlySubmitLeft(u, r);
  }

  lemma WakeUpEffect(s: Can, c: CallId, req: Request)
    requires s.finSem == 1 && c in s.calls && s.calls[c] == Call(req, WaitFinish)
    ensures CanStep(s, WakeUp(c))
    ensures Next(s, WakeUp(c)) == s.(finSem := 0, calls := s.calls[c := Call(req, Done(Success))])
  {
  }

  lemma OnlySubmitLeft(s: Can, r: Request)
    requires s.calls == map[0 := Call(r, Done(Success)), 1 := Call(r, WaitFinish)]
    requires s.finSem == 0 && s.inFlight == None && !s.event
    ensures forall step :: CanStep(s, step) ==> step.Submit?
  {
    hide Wires, Precheck, OnWire;
  }

  // ----- A wait that has nothing to wait for

  /** The call waits, its request has completed, and the signal for it is gone. */
  ghost predicate Stranded(s: Can, c: CallId) {
    PcOf(s, c) == WaitFinish && Completed(s, c) && s.finSem == 0
  }

  /** A request without a callback completes. */
  predicate Signals(s: Can, step: Step) {
    step == Interrupt && s.inFlight.Some? && s.inFlight.value.req.cb == NoCallback
  }

  /** A signal comes with the completion of a request without a callback, and with nothing else. */
  lemma SignalIff(s: Can, step: Step)
    requires Inv(s) && CanStep(s, step) && s.finSem == 0
    ensures Next(s, step).finSem > 0 <==> Signals(s, step)
  {
    hide Wires, Precheck, OnWire, MutexInv, CallsInv, OutcomeInv;
  }

  lemma WaitStays(s: Can, step: Step, c: CallId)
    requires CanStep(s, step) && PcOf(s, c) == WaitFinish && s.finSem == 0
    ensures PcOf(Next(s, step), c) == WaitFinish && s.completed <= Next(s, step).completed
  {
    hide Next, PcAfter;
    OthersStay(s, step);
    CompletedExtends(s, step);
  }

  lemma CompletedExtends(s: Can, step: Step)
    requires CanStep(s, step)
    ensures s.completed <= Next(s, step).completed
  {
    if step != Interrupt {
      LogsStay(s, step);
    }
  }

  /** A stranded call stays so, whatever else happens, until another request without a callback completes. */
  lemma {:induction false} StaysStranded(states: seq<Can>, steps: seq<Step>, i: nat, j: nat, c: CallId)
    requires IsRun(states, steps) && i <= j <= |steps| && Stranded(states[i], c)
    requires forall k :: i <= k < j ==> !Signals(states[k], steps[k])
    ensures Stranded(states[j], c) && !CanStep(states[j], WakeUp(c))
  {
    hide Next, Inv, Signals, Completed;
    if i < j {
      StaysStranded(states, steps, i, j - 1, c);
      RunKeepsInv(states, steps);
      SignalIff(states[j - 1], steps[j - 1]);
      WaitStays(states[j - 1], steps[j - 1], c);
      CompletedGrows(states[j - 1], states[j], c);
    }
  }

  lemma CompletedGrows(s: Can, t: Can, c: CallId)
    requires s.completed <= t.completed && Completed(s, c)
    ensures Completed(t, c)
  {
    var e :| e in s.completed && e.c == c;
    assert e in t.completed;
  }

  predicate NoneAccepts(script: seq<Step>) {
    forall k :: 0 <= k < |script| ==> !Accepts(script[k])
  }

  ghost predicate Strands(s: Can, script: seq<Step>, c: CallId) {
    CanRun(s, script) && NoneAccepts(script) && Stranded(Exec(s, script), c)
  }

  /** With the requests accepted so far, and no further one, a call can come to be stranded. */
  ghost predicate CanStrand(s: Can) {
    exists script: seq<Step>, c: CallId :: Strands(s, script, c)
  }

  ghost predicate NoneCanStrand(states: seq<Can>) {
    forall k :: 0 <= k < |states| ==> !CanStrand(states[k])
  }

  /** What the invariants and the condition say of a state, and what every step but an acceptance keeps. */
  ghost predicate Alone(s: Can) {
    Inv(s) && FinishInv(s) && AtMostOneBlocking(s)
  }

  lemma AloneKept(s: Can, step: Step)
    requires Alone(s) && CanStep(s, step) && !Accepts(step)
    ensures Alone(Next(s, step))
  {
    hide Inv, FinishInv, CanStep, Next, Blocking;
    StepKeepsInv(s, step);
    FinishKept(s, step);
    assert CallsInv(s) by { InvParts(s); }
    forall c: CallId, d: CallId | Blocking(Next(s, step), c) && Blocking(Next(s, step), d)
      ensures c == d
    {
      OnlyAcceptanceBlocks(s, step, c);
      OnlyAcceptanceBlocks(s, step, d);
    }
  }

  lemma {:induction false} AloneLater(s: Can, script: seq<Step>)
    requires Alone(s) && CanRun(s, script) && NoneAccepts(script)
    ensures Alone(Exec(s, script))
  {
    hide Alone, CanStep, Next, Accepts;
    if script != [] {
      var n := |script| - 1;
      assert forall k :: 0 <= k < n ==> script[..n][k] == script[k];
      AloneLater(s, script[..n]);
      AloneKept(Exec(s, script[..n]), script[n]);
    }
  }

  lemma AloneNotStranded(s: Can, c: CallId)
    requires Alone(s)
    ensures !Stranded(s, c)
  {
    hide TokenInv, MutexInv, BufferInv, OutcomeInv, LogInv;
    if PcOf(s, c) == WaitFinish && s.finSem == 0 {
      assert CallInv(s.calls[c]) && Blocking(s, c);
    }
  }

  lemma AloneCannotStrand(s: Can)
    requires Alone(s)
    ensures !CanStrand(s)
  {
    hide Alone, CanRun, Exec, NoneAccepts, Stranded;
    forall script: seq<Step>, c: CallId | CanRun(s, script) && NoneAccepts(script)
      ensures !Stranded(Exec(s, script), c)
    {
      AloneLater(s, script);
      AloneNotStranded(Exec(s, script), c);
    }
  }

  /** The second call of a pair: accepted last, with its request in flight, while the first has its signal unused. */
  ghost predicate Pair(s: Can, w: CallId, b: CallId) {
    && w != b && PcOf(s, w) == Accepted && PcOf(s, b) == WaitFinish && Completed(s, b)
    && s.inFlight == Some(Entry(w, s.calls[w].req)) && s.calls[w].req.cb == NoCallback
    && !s.event && s.slot == NoCallback && s.txSem == 0 && s.finSem == 1
  }

  lemma SecondBlockerPairs(s: Can, step: Step) returns (b: CallId)
    requires Alone(s) && CanStep(s, step) && !AtMostOneBlocking(Next(s, step))
    ensures Accepts(step) && Pair(Next(s, step), step.c, b)
  {
    hide Inv, FinishInv, CanStep, Next, Completed, Wires, Precheck, OnWire;
    var t := Next(s, step);
    SecondBlockerCanWakeEarly(s, step);
    StepKeepsInv(s, step);
    b := SecondBlocker(t, step.c);
    InvParts(s);
    OnlyAcceptanceBlocks(s, step, b);
    AcceptedIsNew(s, step);
    BlockedHasCompleted(s, b);
    CompletedGrows(s, t, b);
    Acceptance(s, step);
    RequestsStay(s, step);
    FlightOf(t);
    InvParts(t);
    OthersStay(s, step);
    OnlyOneAccepted(t, step.c, b);
  }

  lemma OnlyOneAccepted(s: Can, c: CallId, d: CallId)
    requires MutexInv(s) && PcOf(s, c) == Accepted && Blocking(s, d) && c != d
    ensures PcOf(s, d) == WaitFinish
  {
    assert HasMutex(PcOf(s, c)) && (HasMutex(PcOf(s, d)) ==> s.mutex == Some(d));
  }

  lemma SecondBlocker(s: Can, w: CallId) returns (b: CallId)
    requires Blocking(s, w) && !AtMostOneBlocking(s)
    ensures Blocking(s, b) && b != w
  {
    var c: CallId, d: CallId :| Blocking(s, c) && Blocking(s, d) && c != d;
    b := if c == w then d else c;
  }

  /** While a request is in flight the token is gone, and the slot holds its callback. */
  lemma FlightOf(s: Can)
    requires Inv(s) && s.inFlight.Some?
    ensures s.txSem == 0 && s.slot == s.inFlight.value.req.cb
  {
    hide MutexInv, OutcomeInv, LogInv;
  }

  /** Both complete and the limit of 1 loses a signal; the later call takes the one there is. */
  lemma PairStrands(s: Can, w: CallId, b: CallId)
    requires Pair(s, w, b)
    ensures CanStrand(s)
  {
    hide CanRun, Exec, Next, CanStep, Completed;
    CompletionEffect(s, s.inFlight.value);
    var first := [FramesSent] + [Interrupt];
    var t := Exec(s, first);
    var u, v := LaterWakes(t, w, b);
    Chain(s, first, t, Unlock(w), u);
    Chain(s, first + [Unlock(w)], u, WakeUp(w), v);
    CompletedGrows(s, v, b);
    var script := first + [Unlock(w)] + [WakeUp(w)];
    assert NoneAccepts(script);
    assert Strands(s, script, b);
  }

  /** The call accepted last unlocks and takes the one signal. */
  lemma LaterWakes(s: Can, w: CallId, b: CallId) returns (t: Can, u: Can)
    requires w != b && PcOf(s, w) == Accepted && PcOf(s, b) == WaitFinish && s.calls[w].req.cb == NoCallback && s.finSem == 1
    ensures CanStep(s, Unlock(w)) && t == Next(s, Unlock(w))
    ensures CanStep(t, WakeUp(w)) && u == Next(t, WakeUp(w))
    ensures PcOf(u, b) == WaitFinish && u.finSem == 0 && u.completed == s.completed
  {
    t := Next(s, Unlock(w));
    assert t == s.(mutex := None, calls := s.calls[w := Call(s.calls[w].req, WaitFinish)]);
    u := Next(t, WakeUp(w));
  }

  /**
   The condition is exact for this failure too, over every run: from some state of the run a completed call can
   be left waiting with no signal to come, and no further request accepted, exactly if two calls block at once
   in some state of it.
   */
  lemma {:induction false} NoneCanStrandIff(states: seq<Can>, steps: seq<Step>)
    requires IsRun(states, steps)
    ensures NoneCanStrand(states) <==> NeverTwoBlocking(states)
  {
    hide Inv, FinishInv, CanStep, Next, Blocking, Completed, CanStrand, Pair;
    if steps == [] {
      FirstAlone(states[0]);
      AloneCannotStrand(states[0]);
    } else {
      var n := |steps| - 1;
      var front, s, t := states[..n + 1], states[n], states[n + 1];
      assert forall k :: 0 <= k <= n ==> front[k] == states[k];
      NoneCanStrandIff(front, steps[..n]);
      if NeverTwoBlocking(front) {
        RunKeepsFinish(front, steps[..n]);
        EndKeepsInv(front, steps[..n]);
        if AtMostOneBlocking(t) {
          StepKeepsInv(s, steps[n]);
          FinishKept(s, steps[n]);
          AloneCannotStrand(t);
        } else {
          var b := SecondBlockerPairs(s, steps[n]);
          PairStrands(t, steps[n].c, b);
        }
      }
      LastStrands(states, front);
      WithLast(states, front);
    }
  }

  lemma LastStrands(states: seq<Can>, front: seq<Can>)
    requires |states| > 0 && front == states[..|states| - 1]
    ensures NoneCanStrand(states) <==> NoneCanStrand(front) && !CanStrand(states[|states| - 1])
  {
    hide CanStrand;
    assert forall k :: 0 <= k < |front| ==> front[k] == states[k];
  }

  lemma FirstAlone(s: Can)
    requires s == INITIAL
    ensures Alone(s)
  {
  }
}
