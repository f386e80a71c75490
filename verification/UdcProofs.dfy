/**
 What every run of an endpoint keeps, whatever the controller answers: order of reports, one transfer at a
 time, work conservation, zero-length packets.
 */
module UdcProofs {
  import opened Words
  import opened Udc

  /**
   Nothing is dequeued. `ok` and `zltOk` are the controller's answers, should it be asked; `Fail` is the
   interrupt of a transfer one of whose descriptors failed.
   */
  datatype Step =
    | Enqueue(b: Buf, ok: bool)
    | Done(moved: seq<byte>, zltOk: bool, ok: bool)
    | Fail
    | Halt
    | ClearHalt(ok: bool)

  /** What a buffer's own transfer moved, and the answer to the zero-length one, should there be one. */
  datatype Outcome = Outcome(moved: seq<byte>, zltOk: bool)

  /** An endpoint, all buffers ever enqueued on it, their outcomes, and whether its last feed was refused. */
  datatype Run = Run(e: Ep, enqueued: seq<Buf>, outcomes: seq<Outcome>, refused: bool)

  function Fresh(inward: bool): Run {
    Run(Ep(inward, [], false, false, [], [], [], []), [], [], false)
  }

  /** What the controller may move for a transfer: not more than it was given. */
  predicate Fits(x: Xfer, m: seq<byte>) {
    match x
    case DataIn(_, data) => m <= data
    case DataOut(_, room) => |m| <= room
    case Zlt(_) => m == []
  }

  predicate CanStep(r: Run, step: Step) {
    match step
    case Enqueue(b, _) => WellFormed(b)
    case Done(m, _, _) => r.e.flight != [] && Fits(r.e.flight[0], m) && |m| <= MAX_LEN
    case Fail => r.e.flight != []
    case Halt => true
    case ClearHalt(_) => true
  }

  function AfterDone(e: Ep, m: seq<byte>, zltOk: bool, ok: bool): Ep
    requires e.flight != [] && |m| <= MAX_LEN
  {
    var f := e.(flight := e.flight[1..]);
    if f.inward then AfterIn(f, |m|, zltOk, ok).0 else AfterOut(f, m, ok).0
  }

  /** A feed of a non-empty endpoint that is not busy is granted or refused. */
  function Refusal(before: bool, queue: seq<Buf>, busy: bool, ok: bool): bool {
    if queue != [] && !busy then !ok else before
  }

  function Next(r: Run, step: Step): Run
    requires CanStep(r, step)
  {
    match step
    case Enqueue(b, ok) =>
      r.(e := AfterEnqueue(r.e, b, ok).0, enqueued := r.enqueued + [b],
         refused := if r.e.halted then r.refused else Refusal(r.refused, r.e.queue + [b], r.e.busy, ok))
    case Done(m, zltOk, ok) =>
      var t := AfterDone(r.e, m, zltOk, ok);
      r.(e := t,
         outcomes := if r.e.flight[0].Zlt? then r.outcomes else r.outcomes + [Outcome(m, zltOk)],
         refused := if |t.reports| == |r.e.reports| then r.refused else Refusal(r.refused, t.queue, false, ok))
    case Fail => r.(e := r.e.(flight := r.e.flight[1..]))
    case Halt => r.(e := r.e.(halted := true))
    case ClearHalt(ok) =>
      r.(e := TryFeed(r.e.(halted := false), ok).0, refused := Refusal(r.refused, r.e.queue, r.e.busy, ok))
  }

  predicate IsRun(runs: seq<Run>, steps: seq<Step>, inward: bool) {
    && |runs| == |steps| + 1
    && runs[0] == Fresh(inward)
    && forall k :: 0 <= k < |steps| ==> CanStep(runs[k], steps[k]) && runs[k + 1] == Next(runs[k], steps[k])
  }

  // ----- What should happen to one buffer

  /** A zero-length transfer is called for exactly after a flagged buffer that was sent whole. */
  predicate Terminates(inward: bool, b: Buf, o: Outcome) {
    inward && WantsZlt(b, |o.moved|)
  }

  /** One transfer, and one of length zero after it if it is called for and the controller takes it. */
  function Transfers(inward: bool, b: Buf, o: Outcome): seq<Xfer> {
    [XferOf(inward, b)] + if Terminates(inward, b, o) && o.zltOk then [Zlt(b.id)] else []
  }

  /** How a buffer comes back. */
  function Returned(inward: bool, b: Buf, o: Outcome): Buf {
    if !inward then Filled(b, o.moved)
    else if !WantsZlt(b, |o.moved|) then Drained(b, |o.moved|)
    else if o.zltOk then b.(zlp := false)
    else Drained(b.(zlp := false), |o.moved|)
  }

  function ErrorsOf(inward: bool, b: Buf, o: Outcome): seq<Errno> {
    if Terminates(inward, b, o) && !o.zltOk then [EIO] else []
  }

  function AllTransfers(inward: bool, bufs: seq<Buf>, outcomes: seq<Outcome>, n: nat): seq<Xfer>
    requires n <= |bufs| && n <= |outcomes|
  {
    if n == 0 then [] else AllTransfers(inward, bufs, outcomes, n - 1) + Transfers(inward, bufs[n - 1], outcomes[n - 1])
  }

  function AllErrors(inward: bool, bufs: seq<Buf>, outcomes: seq<Outcome>, n: nat): seq<Errno>
    requires n <= |bufs| && n <= |outcomes|
  {
    if n == 0 then [] else AllErrors(inward, bufs, outcomes, n - 1) + ErrorsOf(inward, bufs[n - 1], outcomes[n - 1])
  }

  lemma {:induction false} MoreToCome(inward: bool, bufs: seq<Buf>, outcomes: seq<Outcome>, n: nat, b: seq<Buf>, o: seq<Outcome>)
    requires n <= |bufs| && n <= |outcomes|
    ensures AllTransfers(inward, bufs + b, outcomes + o, n) == AllTransfers(inward, bufs, outcomes, n)
    ensures AllErrors(inward, bufs + b, outcomes + o, n) == AllErrors(inward, bufs, outcomes, n)
  {
    if n > 0 {
      MoreToCome(inward, bufs, outcomes, n - 1, b, o);
    }
  }

  lemma OneMore(inward: bool, bufs: seq<Buf>, outcomes: seq<Outcome>, n: nat)
    requires n < |bufs| && n < |outcomes|
    ensures AllTransfers(inward, bufs, outcomes, n + 1)
         == AllTransfers(inward, bufs, outcomes, n) + Transfers(inward, bufs[n], outcomes[n])
    ensures AllErrors(inward, bufs, outcomes, n + 1)
         == AllErrors(inward, bufs, outcomes, n) + ErrorsOf(inward, bufs[n], outcomes[n])
  {
  }

  // ----- The invariant

  ghost predicate Reported(r: Run) {
    && |r.e.reports| <= |r.enqueued| && |r.e.reports| <= |r.outcomes|
    && (forall k :: 0 <= k < |r.enqueued| ==> WellFormed(r.enqueued[k]))
    && (forall k :: 0 <= k < |r.e.reports| ==>
          r.e.reports[k] == Finished(Returned(r.e.inward, r.enqueued[k], r.outcomes[k])))
    && r.e.errors == AllErrors(r.e.inward, r.enqueued, r.outcomes, |r.e.reports|)
  }

  /** No transfer runs, and those started are those of the reported buffers. */
  ghost predicate AtRest(r: Run)
    requires Reported(r)
  {
    var n := |r.e.reports|;
    && !r.e.busy && r.e.flight == [] && |r.outcomes| == n
    && r.e.queue == r.enqueued[n..]
    && r.e.started == AllTransfers(r.e.inward, r.enqueued, r.outcomes, n)
  }

  ghost predicate Idle(r: Run)
    requires Reported(r)
  {
    AtRest(r) && (r.e.queue == [] || r.e.halted || r.refused)
  }

  /** The head's own transfer was started, and those before are over. */
  ghost predicate HeadStarted(r: Run)
    requires Reported(r)
  {
    var n := |r.e.reports|;
    && r.e.busy && n < |r.enqueued| && |r.outcomes| == n
    && r.e.queue == r.enqueued[n..]
    && r.e.started == AllTransfers(r.e.inward, r.enqueued, r.outcomes, n) + [XferOf(r.e.inward, r.enqueued[n])]
  }

  /** The zero-length transfer after the head was started, and those before are over. */
  ghost predicate ZltStarted(r: Run)
    requires Reported(r)
  {
    var n := |r.e.reports|;
    && r.e.busy && n < |r.enqueued| && |r.outcomes| == n + 1
    && Terminates(r.e.inward, r.enqueued[n], r.outcomes[n]) && r.outcomes[n].zltOk
    && r.e.queue == [r.enqueued[n].(zlp := false)] + r.enqueued[n + 1..]
    && r.e.started == AllTransfers(r.e.inward, r.enqueued, r.outcomes, n + 1)
  }

  ghost predicate Transferring(r: Run)
    requires Reported(r)
  {
    HeadStarted(r) && r.e.flight == [XferOf(r.e.inward, r.enqueued[|r.e.reports|])]
  }

  ghost predicate Terminating(r: Run)
    requires Reported(r)
  {
    ZltStarted(r) && r.e.flight == [Zlt(r.enqueued[|r.e.reports|].id)]
  }

  /** Busy for a transfer the controller has given up: nothing will ever complete it. */
  ghost predicate Wedged(r: Run)
    requires Reported(r)
  {
    (HeadStarted(r) || ZltStarted(r)) && r.e.flight == []
  }

  ghost predicate Inv(r: Run) {
    Reported(r) && (Idle(r) || Transferring(r) || Terminating(r) || Wedged(r))
  }

  /** Feeding an endpoint at rest starts the next buffer's transfer, if there is one and the controller takes it. */
  lemma FeedKeeps(r: Run, ok: bool)
    requires Reported(r) && AtRest(r)
    ensures Inv(r.(e := TryFeed(r.e, ok).0, refused := Refusal(r.refused, r.e.queue, false, ok)))
  {
    hide AllTransfers, AllErrors;
    var t := r.(e := TryFeed(r.e, ok).0, refused := Refusal(r.refused, r.e.queue, false, ok));
    assert Reported(t);
    if r.e.queue == [] || !ok {
      assert Idle(t);
    } else {
      assert [] + [XferOf(r.e.inward, r.e.queue[0])] == [XferOf(r.e.inward, r.e.queue[0])];
      assert Transferring(t);
    }
  }

  /** A feed of a busy endpoint changes nothing, and a feed that starts something puts it in flight. */
  lemma FeedRuns(e: Ep, ok: bool)
    requires e.flight == [] || e.busy
    ensures var f := TryFeed(e, ok).0; (e.busy ==> f == e) && (!e.busy && f.busy ==> f.flight != [])
  {
  }

  /** The buffer is in the queue, and nothing has been fed. */
  function Put(r: Run, b: Buf): Run {
    r.(e := r.e.(queue := r.e.queue + [b]), enqueued := r.enqueued + [b])
  }

  lemma LogsPut(r: Run, b: Buf, n: nat)
    requires n <= |r.enqueued| && n <= |r.outcomes|
    ensures AllTransfers(r.e.inward, Put(r, b).enqueued, r.outcomes, n) == AllTransfers(r.e.inward, r.enqueued, r.outcomes, n)
    ensures AllErrors(r.e.inward, Put(r, b).enqueued, r.outcomes, n) == AllErrors(r.e.inward, r.enqueued, r.outcomes, n)
    ensures Put(r, b).enqueued[n..] == r.enqueued[n..] + [b]
  {
    hide AllTransfers, AllErrors;
    var none: seq<Outcome> := [];
    assert r.outcomes + none == r.outcomes;
    MoreToCome(r.e.inward, r.enqueued, r.outcomes, n, [b], none);
  }

  lemma PutKeepsReports(r: Run, b: Buf)
    requires Reported(r) && WellFormed(b)
    ensures Reported(Put(r, b))
  {
    hide AllTransfers, AllErrors, Returned;
    LogsPut(r, b, |r.e.reports|);
  }

  /** A busy endpoint takes the buffer into its queue and goes on. */
  lemma PutKeepsStarted(r: Run, b: Buf)
    requires Reported(r) && WellFormed(b) && (HeadStarted(r) || ZltStarted(r))
    ensures Reported(Put(r, b)) && (HeadStarted(r) ==> HeadStarted(Put(r, b))) && (ZltStarted(r) ==> ZltStarted(Put(r, b)))
    ensures |r.e.reports| < |r.enqueued|
  {
    hide AllTransfers, AllErrors, Returned, Terminates, Reported;
    var n := |r.e.reports|;
    PutKeepsReports(r, b);
    assert n <= |r.enqueued| && n <= |r.outcomes|;
    LogsPut(r, b, n);
    if ZltStarted(r) {
      LogsPut(r, b, n + 1);
    }
  }

  lemma PutKeepsRest(r: Run, b: Buf)
    requires Reported(r) && WellFormed(b) && AtRest(r)
    ensures Reported(Put(r, b)) && AtRest(Put(r, b))
  {
    hide AllTransfers, AllErrors, Returned;
    PutKeepsReports(r, b);
    LogsPut(r, b, |r.e.reports|);
  }

  lemma BusyFor(r: Run)
    requires Inv(r)
    ensures |r.e.flight| <= 1 && (r.e.flight != [] ==> r.e.busy && r.e.queue != [])
    ensures !Idle(r) ==> r.e.busy
  {
    hide AllTransfers, AllErrors, Terminates;
  }

  lemma EnqueueKeeps(r: Run, b: Buf, ok: bool)
    requires Inv(r) && WellFormed(b)
    ensures Inv(Next(r, Enqueue(b, ok)))
  {
    hide AllTransfers, AllErrors, TryFeed, Reported, HeadStarted, ZltStarted;
    var t := Put(r, b);
    BusyFor(r);
    FeedRuns(t.e, ok);
    if Idle(r) {
      PutKeepsRest(r, b);
      if !r.e.halted {
        FeedKeeps(t, ok);
      }
    } else {
      PutKeepsStarted(r, b);
    }
  }

  /** The head's own transfer is done, and no zero-length one follows: the buffer goes back. */
  lemma LastDoneKeeps(r: Run, m: seq<byte>, zltOk: bool, ok: bool)
    requires Inv(r) && Transferring(r) && CanStep(r, Done(m, zltOk, ok))
    requires !(Terminates(r.e.inward, r.enqueued[|r.e.reports|], Outcome(m, zltOk)) && zltOk)
    ensures Inv(Next(r, Done(m, zltOk, ok)))
  {
    hide AllTransfers, AllErrors, AfterDone, TryFeed, Returned, Terminates;
    var n, o := |r.e.reports|, Outcome(m, zltOk);
    var b, outcomes := r.enqueued[n], r.outcomes + [o];
    Appended(r, o);
    OneMore(r.e.inward, r.enqueued, outcomes, n);
    assert r.enqueued[n..][1..] == r.enqueued[n + 1..];
    var t := Run(r.e.(flight := [], queue := r.e.queue[1..], busy := false,
                      errors := r.e.errors + ErrorsOf(r.e.inward, b, o),
                      reports := r.e.reports + [Finished(Returned(r.e.inward, b, o))]), r.enqueued, outcomes, r.refused);
    assert Reported(t) && AtRest(t);
    FeedKeeps(t, ok);
    GivenBack(r, m, zltOk, ok);
  }

  lemma GivenBack(r: Run, m: seq<byte>, zltOk: bool, ok: bool)
    requires r.e.queue != [] && |r.e.flight| == 1 && |m| <= MAX_LEN
    requires !(Terminates(r.e.inward, r.e.queue[0], Outcome(m, zltOk)) && zltOk)
    ensures var b, o := r.e.queue[0], Outcome(m, zltOk);
            var t := r.e.(flight := [], queue := r.e.queue[1..], busy := false,
                          errors := r.e.errors + ErrorsOf(r.e.inward, b, o),
                          reports := r.e.reports + [Finished(Returned(r.e.inward, b, o))]);
            && AfterDone(r.e, m, zltOk, ok) == TryFeed(t, ok).0
            && TryFeed(t, ok).0.queue == t.queue && TryFeed(t, ok).0.reports == t.reports
  {
    assert r.e.flight[1..] == [];
    assert r.e.errors + [] == r.e.errors;
  }

  /** One more outcome changes nothing about those before. */
  lemma Appended(r: Run, o: Outcome)
    requires Reported(r) && |r.outcomes| == |r.e.reports|
    ensures var n := |r.e.reports|;
            && AllTransfers(r.e.inward, r.enqueued, r.outcomes + [o], n) == AllTransfers(r.e.inward, r.enqueued, r.outcomes, n)
            && AllErrors(r.e.inward, r.enqueued, r.outcomes + [o], n) == AllErrors(r.e.inward, r.enqueued, r.outcomes, n)
  {
    var none: seq<Buf> := [];
    assert r.enqueued + none == r.enqueued;
    MoreToCome(r.e.inward, r.enqueued, r.outcomes, |r.e.reports|, none, [o]);
  }

  lemma ZltEffect(r: Run, m: seq<byte>, ok: bool)
    requires |r.e.flight| == 1 && r.e.flight[0].DataIn? && CanStep(r, Done(m, true, ok))
    requires r.e.inward && r.e.queue != [] && WantsZlt(r.e.queue[0], |m|)
    ensures var b, t := r.e.queue[0], Next(r, Done(m, true, ok));
            && t.e == r.e.(queue := r.e.queue[0 := b.(zlp := false)], flight := [Zlt(b.id)],
                           started := r.e.started + [Zlt(b.id)])
            && t == r.(e := t.e, outcomes := r.outcomes + [Outcome(m, true)])
  {
    hide GiveBack, WantsZlt;
    assert r.e.flight[1..] == [] && [] + [Zlt(r.e.queue[0].id)] == [Zlt(r.e.queue[0].id)];
  }

  /** The head's own transfer is done, and the zero-length one follows. */
  lemma ZltStarts(r: Run, m: seq<byte>, ok: bool)
    requires Inv(r) && Transferring(r) && CanStep(r, Done(m, true, ok))
    requires Terminates(r.e.inward, r.enqueued[|r.e.reports|], Outcome(m, true))
    ensures Inv(Next(r, Done(m, true, ok)))
  {
    hide AllTransfers, AllErrors, Next, Returned;
    var n := |r.e.reports|;
    var b, t := r.enqueued[n], Next(r, Done(m, true, ok));
    ZltEffect(r, m, ok);
    Appended(r, Outcome(m, true));
    OneMore(r.e.inward, r.enqueued, t.outcomes, n);
    assert r.enqueued[n..][0 := b.(zlp := false)] == [b.(zlp := false)] + r.enqueued[n + 1..];
    assert Reported(t) && Terminating(t);
  }

  /** The zero-length transfer is done: the buffer goes back with its data as it was. */
  lemma ZltDoneKeeps(r: Run, zltOk: bool, ok: bool)
    requires Inv(r) && Terminating(r)
    ensures CanStep(r, Done([], zltOk, ok)) && Inv(Next(r, Done([], zltOk, ok)))
  {
    hide AllTransfers, AllErrors, AfterDone, TryFeed;
    var n := |r.e.reports|;
    var b := r.enqueued[n];
    assert Drained(b.(zlp := false), 0) == b.(zlp := false) == Returned(true, b, r.outcomes[n]);
    OneMore(r.e.inward, r.enqueued, r.outcomes, n);
    var t := r.(e := r.e.(flight := [], queue := r.e.queue[1..], busy := false,
                          reports := r.e.reports + [Finished(b.(zlp := false))]));
    assert r.e.queue[1..] == r.enqueued[n + 1..];
    assert Reported(t) && AtRest(t);
    FeedKeeps(t, ok);
    GivenBack(r, [], zltOk, ok);
    assert r.e.errors + [] == r.e.errors;
  }

  lemma ClearHaltKeeps(r: Run, ok: bool)
    requires Inv(r)
    ensures Inv(Next(r, ClearHalt(ok)))
  {
    hide AllTransfers, AllErrors, TryFeed, Returned, Terminates;
    var t := r.(e := r.e.(halted := false));
    assert Reported(t);
    FeedRuns(t.e, ok);
    if Idle(r) {
      FeedKeeps(t, ok);
    } else if HeadStarted(r) {
      assert HeadStarted(Next(r, ClearHalt(ok)));
    } else {
      assert ZltStarted(Next(r, ClearHalt(ok)));
    }
  }

  lemma FailWedges(r: Run)
    requires Inv(r) && CanStep(r, Fail)
    ensures Inv(Next(r, Fail)) && Wedged(Next(r, Fail))
  {
    hide AllTransfers, AllErrors;
    var t := Next(r, Fail);
    assert Reported(t) && t.e.flight == [];
    assert if Transferring(r) then HeadStarted(t) else ZltStarted(t);
  }

  lemma HaltKeeps(r: Run)
    requires Inv(r)
    ensures Inv(Next(r, Halt))
  {
    hide AllTransfers, AllErrors;
    var t := Next(r, Halt);
    assert Reported(t);
    if Idle(r) {
      assert Idle(t);
    } else {
      assert if HeadStarted(r) then HeadStarted(t) else ZltStarted(t);
    }
  }

  lemma StepKeepsInv(r: Run, step: Step)
    requires Inv(r) && CanStep(r, step)
    ensures Inv(Next(r, step))
  {
    hide AllTransfers, AllErrors, Next;
    match step
    case Enqueue(b, ok) => EnqueueKeeps(r, b, ok);
    case Fail => FailWedges(r);
    case Halt => HaltKeeps(r);
    case ClearHalt(ok) => ClearHaltKeeps(r, ok);
    case Done(m, zltOk, ok) =>
      if !Transferring(r) {
        ZltDoneKeeps(r, zltOk, ok);
      } else if Terminates(r.e.inward, r.enqueued[|r.e.reports|], Outcome(m, zltOk)) && zltOk {
        ZltStarts(r, m, ok);
      } else {
        LastDoneKeeps(r, m, zltOk, ok);
      }
  }

  lemma SameDirection(r: Run, step: Step)
    requires CanStep(r, step)
    ensures Next(r, step).e.inward == r.e.inward
  {
    hide AfterDone, AfterEnqueue, TryFeed, Refusal;
    match step
    case Enqueue(b, ok) => EnqueueDirection(r.e, b, ok);
    case Done(m, zltOk, ok) => DoneDirection(r.e, m, zltOk, ok);
    case Fail =>
    case Halt =>
    case ClearHalt(ok) => FeedDirection(r.e.(halted := false), ok);
  }

  lemma FeedDirection(e: Ep, ok: bool)
    ensures TryFeed(e, ok).0.inward == e.inward
  {
  }

  lemma EnqueueDirection(e: Ep, b: Buf, ok: bool)
    ensures AfterEnqueue(e, b, ok).0.inward == e.inward
  {
    hide TryFeed;
    FeedDirection(e.(queue := e.queue + [b]), ok);
  }

  lemma DoneDirection(e: Ep, m: seq<byte>, zltOk: bool, ok: bool)
    requires e.flight != [] && |m| <= MAX_LEN
    ensures AfterDone(e, m, zltOk, ok).inward == e.inward
  {
    hide Drained, Filled, WantsZlt;
  }

  lemma FreshInv(inward: bool)
    ensures Inv(Fresh(inward))
  {
    assert Idle(Fresh(inward));
  }

  lemma {:induction false} RunKeepsInv(runs: seq<Run>, steps: seq<Step>, inward: bool)
    requires IsRun(runs, steps, inward)
    ensures Inv(runs[|steps|]) && runs[|steps|].e.inward == inward
  {
    hide Inv, Next, CanStep;
    if steps == [] {
      FreshInv(inward);
    } else {
      var n := |steps| - 1;
      var front := runs[..n + 1];
      assert forall k :: 0 <= k <= n ==> front[k] == runs[k];
      RunKeepsInv(front, steps[..n], inward);
      StepKeepsInv(runs[n], steps[n]);
      SameDirection(runs[n], steps[n]);
    }
  }

  // ----- What it says

  /**
   Over every run buffers are reported in the order they were enqueued, each with what its own transfer moved,
   and the queue holds the others; an error is raised exactly for each zero-length transfer refused.
   */
  lemma {:induction false} ReportsInOrder(runs: seq<Run>, steps: seq<Step>, inward: bool)
    requires IsRun(runs, steps, inward)
    ensures var r := runs[|steps|];
            && |r.e.reports| <= |r.enqueued| && |r.e.reports| <= |r.outcomes| <= |r.e.reports| + 1
            && (forall k :: 0 <= k < |r.e.reports| ==>
                  r.e.reports[k] == Finished(Returned(inward, r.enqueued[k], r.outcomes[k])))
            && (forall k :: 0 <= k < |r.e.queue| ==>
                  |r.e.reports| + k < |r.enqueued| && r.e.queue[k].id == r.enqueued[|r.e.reports| + k].id)
            && |r.e.queue| == |r.enqueued| - |r.e.reports|
            && r.e.errors == AllErrors(inward, r.enqueued, r.outcomes, |r.e.reports|)
  {
    hide AllTransfers, AllErrors;
    RunKeepsInv(runs, steps, inward);
  }

  /**
   One transfer at a time, always the queue head's; and an endpoint with work that is not halted is busy,
   unless the controller refused its last feed. It is busy with nothing in flight exactly if a transfer failed.
   */
  lemma {:induction false} OneTransferForTheHead(runs: seq<Run>, steps: seq<Step>, inward: bool)
    requires IsRun(runs, steps, inward)
    ensures var r := runs[|steps|];
            && |r.e.flight| <= 1 && (r.e.flight != [] ==> r.e.busy && r.e.queue != [] && r.e.flight[0].id == r.e.queue[0].id)
            && (r.e.queue != [] && !r.e.halted && !r.refused ==> r.e.busy)
            && (r.e.busy && r.e.flight == [] <==> Fail in steps)
  {
    hide AllTransfers, AllErrors;
    RunKeepsInv(runs, steps, inward);
    WedgedByFailure(runs, steps, inward);
  }

  /** Nothing is in flight on a busy endpoint from the first failure on, and not before. */
  lemma {:induction false} WedgedByFailure(runs: seq<Run>, steps: seq<Step>, inward: bool)
    requires IsRun(runs, steps, inward)
    ensures runs[|steps|].e.busy && runs[|steps|].e.flight == [] <==> Fail in steps
  {
    hide Inv, Next, CanStep;
    if steps != [] {
      var n := |steps| - 1;
      var front := runs[..n + 1];
      assert forall k :: 0 <= k <= n ==> front[k] == runs[k];
      WedgedByFailure(front, steps[..n], inward);
      RunKeepsInv(front, steps[..n], inward);
      StepWedges(runs[n], steps[n]);
      assert steps == steps[..n] + [steps[n]];
    }
  }

  lemma StepWedges(r: Run, step: Step)
    requires Inv(r) && CanStep(r, step)
    ensures var e, f := r.e, Next(r, step).e;
            f.busy && f.flight == [] <==> step == Fail || (e.busy && e.flight == [])
  {
    hide AfterDone, AfterEnqueue, TryFeed;
    BusyFor(r);
    match step
    case Enqueue(b, ok) => EnqueueRuns(r.e, b, ok);
    case Done(m, zltOk, ok) => DoneRuns(r.e, m, zltOk, ok);
    case Fail =>
    case Halt =>
    case ClearHalt(ok) => FeedRuns(r.e.(halted := false), ok);
  }

  lemma EnqueueRuns(e: Ep, b: Buf, ok: bool)
    requires e.flight == [] || e.busy
    ensures var f := AfterEnqueue(e, b, ok).0; f.busy && f.flight == [] <==> e.busy && e.flight == []
  {
    hide TryFeed;
    FeedRuns(e.(queue := e.queue + [b]), ok);
  }

  lemma DoneRuns(e: Ep, m: seq<byte>, zltOk: bool, ok: bool)
    requires |e.flight| == 1 && e.queue != [] && |m| <= MAX_LEN
    ensures var f := AfterDone(e, m, zltOk, ok); f.busy ==> f.flight != []
  {
    hide Drained, Filled;
  }

  /**
   A failed transfer is neither reported nor tried again: whatever is enqueued and however often the halt is
   cleared, the endpoint starts nothing and reports nothing any more.
   */
  lemma {:induction false} WedgedForGood(runs: seq<Run>, steps: seq<Step>, inward: bool, i: nat, j: nat)
    requires IsRun(runs, steps, inward) && i <= j <= |steps|
    requires runs[i].e.busy && runs[i].e.flight == []
    ensures var e, f := runs[i].e, runs[j].e;
            && f.busy && f.flight == [] && e.queue <= f.queue
            && f.started == e.started && f.reports == e.reports && f.errors == e.errors
  {
    hide Next, CanStep;
    if i < j {
      WedgedForGood(runs, steps, inward, i, j - 1);
      StaysWedged(runs[j - 1], steps[j - 1]);
    }
  }

  lemma StaysWedged(r: Run, step: Step)
    requires CanStep(r, step) && r.e.busy && r.e.flight == []
    ensures var e, f := r.e, Next(r, step).e;
            && f.busy && f.flight == [] && e.queue <= f.queue
            && f.started == e.started && f.reports == e.reports && f.errors == e.errors
  {
  }

  /**
   A dequeue frees it: all buffers are given back, if there are any, and but for its logs the endpoint is a fresh
   one. A transfer that is still in flight stays so.
   */
  lemma DequeueFrees(e: Ep)
    ensures AfterDequeue(e) ==
              Fresh(e.inward).e.(flight := e.flight, started := e.started, errors := e.errors,
                                 reports := if e.queue == [] then e.reports else e.reports + [Aborted(e.queue)])
  {
  }

  /** A completion that comes after a dequeue finds no buffer: it reports nothing and raises an error. */
  lemma LateCompletion(e: Ep, m: seq<byte>, zltOk: bool, ok: bool)
    requires e.flight != [] && |m| <= MAX_LEN
    ensures var f := AfterDone(AfterDequeue(e), m, zltOk, ok);
            && f.reports == AfterDequeue(e).reports && f.errors == e.errors + [ENOBUFS]
            && !f.busy && f.flight == e.flight[1..] && f.started == e.started
  {
  }

  /** The controller takes every transfer it is asked for, and completes it. */
  predicate Willing(steps: seq<Step>) {
    forall k :: 0 <= k < |steps| ==>
      match steps[k]
      case Enqueue(_, ok) => ok
      case Done(_, zltOk, ok) => zltOk && ok
      case Fail => false
      case ClearHalt(ok) => ok
      case Halt => true
  }

  lemma {:induction false} NeverRefused(runs: seq<Run>, steps: seq<Step>, inward: bool)
    requires IsRun(runs, steps, inward) && Willing(steps)
    ensures !runs[|steps|].refused
  {
    if steps != [] {
      var n := |steps| - 1;
      var front := runs[..n + 1];
      assert forall k :: 0 <= k <= n ==> front[k] == runs[k];
      assert forall k :: 0 <= k < n ==> steps[..n][k] == steps[k];
      NeverRefused(front, steps[..n], inward);
    }
  }

  /** With a willing controller an endpoint with work that is not halted always has a transfer in flight. */
  lemma {:induction false} WorkConserving(runs: seq<Run>, steps: seq<Step>, inward: bool)
    requires IsRun(runs, steps, inward) && Willing(steps)
    ensures var e := runs[|steps|].e; e.queue != [] && !e.halted ==> |e.flight| == 1
  {
    OneTransferForTheHead(runs, steps, inward);
    NeverRefused(runs, steps, inward);
  }

  /** Once everything is reported, exactly the transfers each buffer calls for were started, in order. */
  lemma {:induction false} TransfersAreExact(runs: seq<Run>, steps: seq<Step>, inward: bool)
    requires IsRun(runs, steps, inward) && runs[|steps|].e.queue == []
    ensures var r := runs[|steps|];
            && |r.enqueued| == |r.outcomes|
            && r.e.started == AllTransfers(inward, r.enqueued, r.outcomes, |r.enqueued|)
  {
    hide AllTransfers, AllErrors;
    RunKeepsInv(runs, steps, inward);
  }

  /** A buffer sent whole comes back drained exactly if no zero-length transfer followed, or it was empty. */
  lemma SentWholeDrainedIff(b: Buf, zltOk: bool)
    ensures Returned(true, b, Outcome(b.data, zltOk)).data == [] <==> !(b.zlp && zltOk) || b.data == []
    ensures Transfers(true, b, Outcome(b.data, zltOk)) == [DataIn(b.id, b.data)] + if b.zlp && zltOk then [Zlt(b.id)] else []
  {
  }

  // ----- Byte for byte

  /** What was moved for each buffer is not more than it had, or had room for. */
  ghost predicate WithinBounds(r: Run) {
    && |r.outcomes| <= |r.enqueued|
    && forall k :: 0 <= k < |r.outcomes| ==>
         if r.e.inward then r.outcomes[k].moved <= r.enqueued[k].data else |r.outcomes[k].moved| <= r.enqueued[k].room
  }

  /** A completion adds the outcome of the head's own transfer, unless it is that of a zero-length one. */
  lemma OutcomeOfHead(r: Run, m: seq<byte>, zltOk: bool, ok: bool)
    requires Inv(r) && CanStep(r, Done(m, zltOk, ok))
    ensures var t, n := Next(r, Done(m, zltOk, ok)), |r.outcomes|;
            if r.e.flight[0].Zlt? then t.outcomes == r.outcomes && m == []
            else
              && t.outcomes == r.outcomes + [Outcome(m, zltOk)] && n < |r.enqueued|
              && if r.e.inward then m <= r.enqueued[n].data else |m| <= r.enqueued[n].room
  {
    hide AllTransfers, AllErrors, AfterDone, Terminates;
  }

  lemma StepKeepsBounds(r: Run, step: Step)
    requires Inv(r) && WithinBounds(r) && CanStep(r, step)
    ensures WithinBounds(Next(r, step))
  {
    hide Inv, AfterDone, AfterEnqueue, TryFeed;
    SameDirection(r, step);
    if step.Done? {
      OutcomeOfHead(r, step.moved, step.zltOk, step.ok);
    }
  }

  lemma {:induction false} RunKeepsBounds(runs: seq<Run>, steps: seq<Step>, inward: bool)
    requires IsRun(runs, steps, inward)
    ensures WithinBounds(runs[|steps|])
  {
    hide Inv, Next, CanStep, WithinBounds;
    if steps == [] {
      FreshBounds(inward);
    } else {
      var n := |steps| - 1;
      var front := runs[..n + 1];
      assert forall k :: 0 <= k <= n ==> front[k] == runs[k];
      RunKeepsBounds(front, steps[..n], inward);
      RunKeepsInv(front, steps[..n], inward);
      StepKeepsBounds(runs[n], steps[n]);
    }
  }

  lemma FreshBounds(inward: bool)
    ensures WithinBounds(Fresh(inward))
  {
  }

  /**
   Over every run, byte for byte. An OUT buffer comes back with the bytes its transfer received behind those it
   had, and with so much less room. An IN buffer comes back without the bytes sent, which were its first ones;
   but one that was sent whole and followed by a zero-length packet comes back with its data. The flag is gone
   once the buffer has been sent whole.
   */
  lemma {:induction false} ReportedBytes(runs: seq<Run>, steps: seq<Step>, inward: bool, k: nat)
    requires IsRun(runs, steps, inward) && k < |runs[|steps|].e.reports|
    ensures var r := runs[|steps|];
            && k < |r.enqueued| && k < |r.outcomes|
            && var b, m := r.enqueued[k], r.outcomes[k].moved;
            && (!inward ==>
                  && |m| <= b.room
                  && r.e.reports[k] == Finished(Buf(b.id, b.data + m, b.room - |m|, b.zlp)))
            && (inward ==>
                  && m <= b.data
                  && var whole := |m| == |b.data|;
                     r.e.reports[k] ==
                       Finished(Buf(b.id, if whole && b.zlp && r.outcomes[k].zltOk then b.data else b.data[|m|..],
                                    b.room, b.zlp && !whole)))
  {
    hide AllTransfers, AllErrors, Inv, WithinBounds;
    ReportsInOrder(runs, steps, inward);
    RunKeepsBounds(runs, steps, inward);
    RunKeepsInv(runs, steps, inward);
    var r := runs[|steps|];
    BoundsOf(r, k);
    ReturnedBytes(inward, r.enqueued[k], r.outcomes[k]);
  }

  lemma BoundsOf(r: Run, k: nat)
    requires WithinBounds(r) && k < |r.outcomes|
    ensures k < |r.enqueued|
    ensures if r.e.inward then r.outcomes[k].moved <= r.enqueued[k].data else |r.outcomes[k].moved| <= r.enqueued[k].room
  {
  }

  lemma ReturnedBytes(inward: bool, b: Buf, o: Outcome)
    requires if inward then o.moved <= b.data else |o.moved| <= b.room
    ensures var m := o.moved;
            && (!inward ==> Returned(inward, b, o) == Buf(b.id, b.data + m, b.room - |m|, b.zlp))
            && (inward ==>
                  var whole := |m| == |b.data|;
                  Returned(inward, b, o) == Buf(b.id, if whole && b.zlp && o.zltOk then b.data else b.data[|m|..],
                                                b.room, b.zlp && !whole))
  {
    if !inward {
      assert o.moved[..|o.moved|] == o.moved;
    }
  }

  /** The bytes the controller moved in all completions, one after the other. */
  function MovedBytes(steps: seq<Step>): seq<byte> {
    if steps == [] then []
    else MovedBytes(steps[..|steps| - 1]) + if steps[|steps| - 1].Done? then steps[|steps| - 1].moved else []
  }

  function OutcomeBytes(outcomes: seq<Outcome>): seq<byte> {
    if outcomes == [] then [] else OutcomeBytes(outcomes[..|outcomes| - 1]) + outcomes[|outcomes| - 1].moved
  }

  lemma OutcomeSnoc(outcomes: seq<Outcome>, o: Outcome)
    ensures OutcomeBytes(outcomes + [o]) == OutcomeBytes(outcomes) + o.moved
  {
    assert (outcomes + [o])[..|outcomes|] == outcomes;
  }

  lemma OnlyCompletionsMove(r: Run, step: Step)
    requires CanStep(r, step) && !step.Done?
    ensures Next(r, step).outcomes == r.outcomes
  {
    hide AfterEnqueue, TryFeed, Refusal;
  }

  lemma {:induction false} MovedAreOutcomes(runs: seq<Run>, steps: seq<Step>, inward: bool)
    requires IsRun(runs, steps, inward)
    ensures MovedBytes(steps) == OutcomeBytes(runs[|steps|].outcomes)
  {
    hide Inv, Next, CanStep, OutcomeBytes;
    if steps == [] {
      NoBytesYet(inward);
    } else {
      var n := |steps| - 1;
      var front, r := runs[..n + 1], runs[n];
      assert forall k :: 0 <= k <= n ==> front[k] == runs[k];
      MovedAreOutcomes(front, steps[..n], inward);
      RunKeepsInv(front, steps[..n], inward);
      assert MovedBytes(steps[..n]) + [] == MovedBytes(steps[..n]);
      if steps[n].Done? {
        OutcomeOfHead(r, steps[n].moved, steps[n].zltOk, steps[n].ok);
        OutcomeSnoc(r.outcomes, Outcome(steps[n].moved, steps[n].zltOk));
      } else {
        OnlyCompletionsMove(r, steps[n]);
      }
    }
  }

  lemma NoBytesYet(inward: bool)
    ensures OutcomeBytes(Fresh(inward).outcomes) == []
  {
  }

  /** What the first `n` buffers reported hold beyond what they held when they were enqueued. */
  function Gained(reports: seq<Report>, enqueued: seq<Buf>, n: nat): seq<byte>
    requires n <= |reports| && n <= |enqueued|
    requires forall k :: 0 <= k < n ==> reports[k].Finished? && |enqueued[k].data| <= |reports[k].buf.data|
  {
    if n == 0 then [] else Gained(reports, enqueued, n - 1) + reports[n - 1].buf.data[|enqueued[n - 1].data|..]
  }

  lemma {:induction false} GainedIsMoved(reports: seq<Report>, enqueued: seq<Buf>, outcomes: seq<Outcome>, n: nat)
    requires n <= |reports| && n <= |enqueued| && n <= |outcomes|
    requires forall k :: 0 <= k < n ==> reports[k].Finished? && reports[k].buf.data == enqueued[k].data + outcomes[k].moved
    ensures Gained(reports, enqueued, n) == OutcomeBytes(outcomes[..n])
  {
    hide OutcomeBytes;
    if n == 0 {
      assert outcomes[..0] == [];
      NoBytesYet(false);
    } else {
      GainedIsMoved(reports, enqueued, outcomes, n - 1);
      assert outcomes[..n] == outcomes[..n - 1] + [outcomes[n - 1]];
      OutcomeSnoc(outcomes[..n - 1], outcomes[n - 1]);
      assert reports[n - 1].buf.data[|enqueued[n - 1].data|..] == outcomes[n - 1].moved;
    }
  }

  /** An OUT endpoint has reported every buffer whose transfer is done. */
  lemma OutReportsAtOnce(r: Run)
    requires Inv(r) && !r.e.inward
    ensures |r.outcomes| == |r.e.reports|
  {
    hide AllTransfers, AllErrors;
  }

  /**
   Conservation over every run of an OUT endpoint: the bytes the reported buffers have gained, one after the
   other, are the bytes the controller delivered.
   */
  lemma {:induction false} OutBytesArrive(runs: seq<Run>, steps: seq<Step>)
    requires IsRun(runs, steps, false)
    ensures var r := runs[|steps|];
            && |r.e.reports| <= |r.enqueued|
            && (forall k :: 0 <= k < |r.e.reports| ==>
                  r.e.reports[k].Finished? && |r.enqueued[k].data| <= |r.e.reports[k].buf.data|)
            && Gained(r.e.reports, r.enqueued, |r.e.reports|) == MovedBytes(steps)
  {
    hide Inv, Next, CanStep, MovedBytes, OutcomeBytes, Gained;
    var r := runs[|steps|];
    RunKeepsInv(runs, steps, false);
    OutReportsAtOnce(r);
    forall k | 0 <= k < |r.e.reports|
      ensures k < |r.enqueued| && k < |r.outcomes| && r.e.reports[k].Finished?
      ensures r.e.reports[k].buf.data == r.enqueued[k].data + r.outcomes[k].moved
    {
      ReportedBytes(runs, steps, false, k);
    }
    ReportsInOrder(runs, steps, false);
    GainedIsMoved(r.e.reports, r.enqueued, r.outcomes, |r.e.reports|);
    MovedAreOutcomes(runs, steps, false);
    assert r.outcomes[..|r.outcomes|] == r.outcomes;
  }

  /**
   What is started for a buffer, as the controller sees it: its data or its room, and after data that were
   sent whole, if the buffer is flagged and the controller takes it, a transfer of length zero.
   */
  lemma TransfersOfOne(inward: bool, b: Buf, o: Outcome)
    requires if inward then o.moved <= b.data else |o.moved| <= b.room
    ensures !inward ==> Transfers(inward, b, o) == [DataOut(b.id, b.room)]
    ensures inward ==>
              Transfers(inward, b, o) ==
                if b.zlp && o.zltOk && o.moved == b.data then [DataIn(b.id, b.data), Zlt(b.id)] else [DataIn(b.id, b.data)]
    ensures ErrorsOf(inward, b, o) == if inward && b.zlp && !o.zltOk && o.moved == b.data then [EIO] else []
  {
  }

  /** An enqueue starts something exactly on an endpoint that is neither halted nor busy, and then the head. */
  lemma EnqueueStartsIff(r: Run, b: Buf, ok: bool)
    requires Inv(r) && WellFormed(b)
    ensures var e, f := r.e, Next(r, Enqueue(b, ok)).e;
            && f.queue == e.queue + [b]
            && (f.started != e.started <==> !e.halted && !e.busy && ok)
            && (f.started != e.started ==>
                  && f.busy && f.flight == e.flight + [XferOf(e.inward, f.queue[0])]
                  && f.started == e.started + [XferOf(e.inward, f.queue[0])])
            && (f.started == e.started ==> f.busy == e.busy && f.flight == e.flight)
  {
    hide AllTransfers, AllErrors, Inv;
    var head := XferOf(r.e.inward, (r.e.queue + [b])[0]);
    assert |r.e.started + [head]| == |r.e.started| + 1;
  }

  /** A completion that gives the head back feeds the next buffer, halted or not, and is busy exactly if that is taken. */
  lemma DoneFeedsNext(r: Run, m: seq<byte>, zltOk: bool, ok: bool)
    requires Inv(r) && CanStep(r, Done(m, zltOk, ok))
    requires |Next(r, Done(m, zltOk, ok)).e.reports| > |r.e.reports|
    ensures var f := Next(r, Done(m, zltOk, ok)).e;
            f.busy <==> f.queue != [] && ok
  {
    hide AllTransfers, AllErrors, Drained, Filled;
  }

  /**
   A dequeue clears the busy flag without stopping the controller. One transfer at a time survives it, for
   the next buffer enqueued, exactly if the endpoint was not busy or its transfer had failed.
   */
  lemma DequeueKeepsOneTransferIff(r: Run, b: Buf)
    requires Inv(r)
    ensures |AfterEnqueue(AfterDequeue(r.e), b, true).0.flight| <= 1 <==> !r.e.busy || Wedged(r)
  {
    hide AllTransfers, AllErrors;
  }

  /**
   The interrupt's view: a retired chain that covers the transfer in flight completes it, and the 16-bit
   length the handler gets is the number of bytes moved.
   */
  lemma {:induction false} InterruptCompletes(r: Run, s: Status)
    requires Inv(r) && Sound(r.e, s) && AllRetired(s.chain)
    requires forall k :: 0 <= k < |s.chain| ==> s.chain[k].remaining <= s.chain[k].expected
    requires Expected(s.chain) == XferLength(r.e.flight[0])
    ensures var m := if r.e.flight[0].DataOut? then s.memory[..Length(s.chain)]
                     else if r.e.flight[0].DataIn? then r.e.flight[0].data[..Min(Length(s.chain), |r.e.flight[0].data|)]
                     else [];
            && |m| == Moved(s.chain)
            && CanStep(r, Done(m, s.zltOk, s.ok)) && Handled(r.e, s) == Next(r, Done(m, s.zltOk, s.ok)).e
  {
    hide AllTransfers, AllErrors, AfterIn, AfterOut, Moved, Expected, Terminates;
    MovedBounds(s.chain);
    assert XferLength(r.e.flight[0]) <= MAX_LEN;
  }

  /** A chain with a failed descriptor is a failure, whatever its other descriptors say. */
  lemma InterruptFails(r: Run, s: Status)
    requires Inv(r) && Sound(r.e, s) && AnyBroken(s.chain)
    ensures CanStep(r, Fail) && Handled(r.e, s) == Next(r, Fail).e
    ensures Handled(r.e, s) == r.e.(flight := [])
  {
    hide AllTransfers, AllErrors;
  }

  function XferLength(x: Xfer): nat {
    match x
    case DataIn(_, data) => |data|
    case DataOut(_, room) => room
    case Zlt(_) => 0
  }
}
