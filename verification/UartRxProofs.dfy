/** What every run of the UART receive path keeps: no byte is lost, repeated or reordered. */
module UartRxProofs {
  import opened Words
  import Dma
  import opened UartRx

  /** The invariant: the driver's counters, the channel and the monitor agree. */
  ghost predicate Inv(s: Rx) {
    var m, c := Watch(s.log), s.ch;
    && m.ok
    && (m.active <==> c.busy)
    && (s.loaded <==> c.busy)
    && (s.next == NULL ==> s.nextSize == 0)
    && m.offers == (if s.next == NULL then [] else [(s.next, s.nextSize)])
    && (c.busy ==> Receiving(s))
    && (!c.busy ==> !c.armed && !c.enabled && !c.done && s.total == 0 && s.offset == 0 && m.queue == [])
  }

  ghost predicate Receiving(s: Rx) {
    var m, c := Watch(s.log), s.ch;
    && c.valid
    && s.buf != NULL
    && c.dst == s.buf == m.buf
    && c.size == s.total == m.len
    && s.offset == m.pos
    && !m.released
    && s.offset + c.residual <= s.total
    && (c.armed <==> c.enabled)
    && (c.armed <==> !c.done)
    && (c.done ==> c.residual == 0)
    && m.queue == Read(s.mem, s.buf + s.offset, s.total - c.residual - s.offset)
  }

  /** The bytes given up so far by enabling reception that was already on. */
  function Dropped(s: Rx): nat {
    Watch(s.log).dropped
  }

  lemma WatchSnoc(log: seq<Event>, e: Event)
    ensures Watch(log + [e]) == Observe(Watch(log), e)
    ensures |log + [e]| == |log| + 1
  {
    assert (log + [e])[..|log|] == log;
  }

  /** `offset + pending` never exceeds the total, so the subtraction is exact. */
  lemma FreshIsExact(s: Rx)
    requires Inv(s)
    ensures s.offset + Dma.Pending(s.ch) <= s.total
    ensures Fresh(s) == s.total - s.offset - Dma.Pending(s.ch)
    ensures Fresh(s) == |Watch(s.log).queue|
  {
  }

  /** A flush hands over exactly the bytes of the queue, and nothing else changes. */
  lemma FlushDrains(s: Rx)
    requires Inv(s)
    ensures var f, m := Flushed(s), Watch(s.log);
            && f == s.(size := Fresh(s), offset := s.total - Dma.Pending(s.ch), log := f.log)
            && Watch(f.log) == m.(pos := m.pos + Fresh(s), queue := [])
  {
    FreshIsExact(s);
    var n := Fresh(s);
    if n > 0 {
      WatchSnoc(s.log, RxRdy(s.buf, s.offset, Read(s.mem, s.buf + s.offset, n)));
    }
  }

  /** At a terminal count `busy` is already cleared, so the flush inside reads no bytes as pending. */
  lemma CompletionFlush(s: Rx)
    requires Inv(s) && s.ch.done
    ensures var c := s.(ch := s.ch.(busy := false, done := false));
            Flushed(c) == Flushed(s).(ch := c.ch)
  {
  }

  lemma AnsweredKeeps(s: Rx, reply: Reply)
    requires Sensible(reply) && s.next == NULL && s.nextSize == 0
    ensures var r, m := Answered(s, reply), Watch(s.log);
            && r == s.(next := r.next, nextSize := r.nextSize, log := r.log)
            && (r.next == NULL ==> r.nextSize == 0)
            && Watch(r.log) == m.(offers := if r.next == NULL then m.offers else m.offers + [(r.next, r.nextSize)])
  {
    if reply.Reply? {
      WatchSnoc(s.log, Supplied(reply.buf, reply.len));
    }
  }

  /** Starting an offered buffer, with nothing left undelivered, puts the driver in a receiving state. */
  lemma BegunKeeps(s: Rx, buf: nat, len: u32, reply: Reply)
    requires buf != NULL && Sensible(reply)
    requires Watch(s.log).ok && Watch(s.log).queue == [] && Watch(s.log).offers == [(buf, len)]
    ensures Inv(Begun(s, buf, len, reply))
    ensures Dropped(Begun(s, buf, len, reply)) == Dropped(s)
  {
    hide Watch, Answered;
    var q := s.(next := NULL, nextSize := 0, log := s.log + [BufRequest]);
    WatchSnoc(s.log, BufRequest);
    AnsweredKeeps(q, reply);
    var r := Answered(q, reply);
    WatchSnoc(r.log, Loaded(buf, len));
  }

  lemma DisableKeeps(s: Rx)
    requires Watch(s.log).ok && Watch(Flushed(s).log).ok && Watch(Flushed(s).log).queue == []
    requires Watch(s.log).active ==> Watch(Flushed(s).log).buf == s.buf
    requires Watch(Flushed(s).log).active == Watch(s.log).active
    requires !Dma.Stopped(s.ch).armed && !Dma.Stopped(s.ch).enabled && !Dma.Stopped(s.ch).done
    ensures Inv(AfterDisable(s)) && Dropped(AfterDisable(s)) == Watch(Flushed(s).log).dropped
  {
    hide Watch, Flushed;
    var f := Flushed(s);
    WatchSnoc(f.log, Released(s.buf));
    WatchSnoc(f.log + [Released(s.buf)], RxDisabled);
    assert f.log + [Released(s.buf), RxDisabled] == f.log + [Released(s.buf)] + [RxDisabled];
  }

  lemma CompletionKeeps(s: Rx, reply: Reply)
    requires Inv(s) && s.ch.done && Sensible(reply)
    ensures Inv(AfterCompletion(s, reply)) && Dropped(AfterCompletion(s, reply)) == Dropped(s)
  {
    hide Watch, Begun, AfterDisable;
    var r := SlicedAndReleased(s);
    if r.next == NULL {
      DisableKeeps(r);
    } else {
      BegunKeeps(r, r.next, r.nextSize, reply);
    }
  }

  /** A completion up to its release: nothing is undelivered, and a second flush would hand over nothing. */
  lemma SlicedAndReleased(s: Rx) returns (r: Rx)
    requires Inv(s) && s.ch.done
    ensures r == ReleasedIfSliced(Flushed(s.(ch := s.ch.(busy := false, done := false))))
    ensures Flushed(r) == r.(size := 0) && r.next == s.next && r.nextSize == s.nextSize && r.buf == s.buf
    ensures !r.ch.busy && !r.ch.armed && !r.ch.enabled && !r.ch.done
    ensures var m, w := Watch(s.log), Watch(r.log);
            w.ok && w.queue == [] && w.offers == m.offers && w.dropped == m.dropped && w.active && w.buf == s.buf
  {
    hide Watch, Read;
    FlushDrains(s);
    CompletionFlush(s);
    var f := Flushed(s.(ch := s.ch.(busy := false, done := false)));
    r := ReleasedIfSliced(f);
    WatchSnoc(f.log, Released(f.buf));
  }

  lemma ByteKeeps(s: Rx, b: byte)
    requires Inv(s) && CanStep(s, HardwareByte(b))
    ensures Inv(Next(s, HardwareByte(b))) && Dropped(Next(s, HardwareByte(b))) == Dropped(s)
  {
    hide Watch;
    WatchSnoc(s.log, Byte(b));
    var t := Next(s, HardwareByte(b));
    var n := s.total - s.ch.residual - s.offset;
    assert Read(t.mem, s.buf + s.offset, n + 1) == Read(s.mem, s.buf + s.offset, n) + [b];
  }

  lemma EnableKeeps(s: Rx, buf: nat, len: u32, reply: Reply)
    requires Inv(s) && CanStep(s, Enable(buf, len, reply))
    ensures Inv(Next(s, Enable(buf, len, reply)))
    ensures Dropped(Next(s, Enable(buf, len, reply))) == Dropped(s) + Fresh(s)
  {
    FreshIsExact(s);
    WatchSnoc(s.log, Enabled(buf, len));
    BegunKeeps(s.(log := s.log + [Enabled(buf, len)]), buf, len, reply);
  }

  lemma SupplyKeeps(s: Rx, buf: nat, len: u32)
    requires Inv(s) && CanStep(s, Supply(buf, len))
    ensures Inv(Next(s, Supply(buf, len))) && Dropped(Next(s, Supply(buf, len))) == Dropped(s)
  {
    hide Watch, Read;
    AnsweredKeeps(s, Reply(buf, len));
    assert Watch(Answered(s, Reply(buf, len)).log) == Watch(s.log).(offers := [(buf, len)]);
  }

  lemma TimeoutKeeps(s: Rx)
    requires Inv(s)
    ensures Inv(AfterTimeout(s)) && Dropped(AfterTimeout(s)) == Dropped(s)
  {
    FlushDrains(s);
  }

  lemma StopKeeps(s: Rx)
    requires Inv(s)
    ensures Inv(AfterDisable(s)) && Dropped(AfterDisable(s)) == Dropped(s)
  {
    FlushDrains(s);
    DisableKeeps(s);
  }

  lemma TerminalKeeps(s: Rx)
    requires Inv(s) && CanStep(s, HardwareTerminal)
    ensures Inv(Next(s, HardwareTerminal)) && Dropped(Next(s, HardwareTerminal)) == Dropped(s)
  {
  }

  lemma StepKeepsInv(s: Rx, step: Step)
    requires Inv(s) && CanStep(s, step)
    ensures Inv(Next(s, step))
    ensures Dropped(Next(s, step)) == Dropped(s) + if step.Enable? then Fresh(s) else 0
  {
    match step
    case Enable(buf, len, reply) => EnableKeeps(s, buf, len, reply);
    case Supply(buf, len) => SupplyKeeps(s, buf, len);
    case HardwareByte(b) => ByteKeeps(s, b);
    case HardwareTerminal => TerminalKeeps(s);
    case Timeout => TimeoutKeeps(s);
    case Completion(reply) => CompletionKeeps(s, reply);
    case Disable => StopKeeps(s);
  }

  lemma {:induction false} RunKeepsInv(states: seq<Rx>, steps: seq<Step>)
    requires IsRun(states, steps)
    ensures forall k :: 0 <= k < |states| ==> Inv(states[k])
  {
    if steps != [] {
      var n := |steps| - 1;
      RunKeepsInv(states[..n + 1], steps[..n]);
      assert states[..n + 1][n] == states[n];
      StepKeepsInv(states[n], steps[n]);
      assert states[n + 1] == Next(states[n], steps[n]);
      forall k | 0 <= k < |states|
        ensures Inv(states[k])
      {
        if k <= n {
          assert states[..n + 1][k] == states[k];
        }
      }
    }
  }

  // ----- From the monitor to the streams

  lemma StreamsSnoc(log: seq<Event>, e: Event)
    ensures Written(log + [e]) == AddWritten(Written(log), e)
    ensures Delivered(log + [e]) == AddDelivered(Delivered(log), e)
  {
    assert (log + [e])[..|log|] == log;
  }

  /** One event, seen by the monitor and by the streams since some earlier moment. */
  lemma GapStep(m: Mon, e: Event, before: seq<byte>, w: seq<byte>, d: seq<byte>)
    requires before + w == d + m.queue && Observe(m, e).ok && Observe(m, e).dropped == m.dropped
    ensures before + AddWritten(w, e) == AddDelivered(d, e) + Observe(m, e).queue
  {
    if e.Byte? {
      assert before + (w + [e.b]) == (before + w) + [e.b];
    }
    if e.RxRdy? {
      assert m.queue == e.data + m.queue[|e.data|..];
    }
  }

  lemma {:induction false} DroppedGrows(log: seq<Event>, k: nat)
    requires k <= |log|
    ensures Watch(log[..k]).dropped <= Watch(log).dropped
  {
    if k < |log| {
      DroppedGrows(log[..|log| - 1], k);
      assert log[..|log| - 1][..k] == log[..k];
    } else {
      assert log[..k] == log;
    }
  }

  /**
   In a right log, from any moment on from which nothing is dropped: the bytes then undelivered and those
   written since are the bytes delivered since and those still undelivered.
   */
  lemma {:induction false} QueueIsTheGap(log: seq<Event>, from: nat)
    requires Watch(log).ok && from <= |log| && Watch(log[..from]).dropped == Watch(log).dropped
    ensures Watch(log[..from]).queue + Written(log[from..]) == Delivered(log[from..]) + Watch(log).queue
    decreases |log|
  {
    hide Watch, Observe, Written, Delivered, AddWritten, AddDelivered;
    if from == |log| {
      assert log[..from] == log && log[from..] == [];
      EmptyStreams(Watch(log).queue);
    } else {
      var n := |log| - 1;
      var front, e := log[..n], log[n];
      assert log == front + [e] && front[..from] == log[..from] && log[from..] == front[from..] + [e];
      WatchSnoc(front, e);
      StreamsSnoc(front[from..], e);
      OkIsSticky(Watch(front), e);
      DroppedGrows(front, from);
      assert log[..n] == front;
      DroppedGrows(log, n);
      QueueIsTheGap(front, from);
      GapStep(Watch(front), e, Watch(log[..from]).queue, Written(front[from..]), Delivered(front[from..]));
    }
  }

  lemma EmptyStreams(queue: seq<byte>)
    ensures queue + Written([]) == Delivered([]) + queue
  {
  }

  /** The delivered stream misses as many bytes of the written one as are undelivered or were dropped. */
  lemma {:induction false} MissingBytes(log: seq<Event>)
    requires Watch(log).ok
    ensures |Written(log)| == |Delivered(log)| + |Watch(log).queue| + Watch(log).dropped
  {
    if log != [] {
      var n := |log| - 1;
      OkIsSticky(Watch(log[..n]), log[n]);
      MissingBytes(log[..n]);
    }
  }

  /** So a right log gives the whole written stream exactly if nothing was dropped. */
  lemma WholeStreamIff(log: seq<Event>)
    requires Watch(log).ok
    ensures Written(log) == Delivered(log) + Watch(log).queue <==> Watch(log).dropped == 0
  {
    MissingBytes(log);
    if Watch(log).dropped == 0 {
      assert log[..0] == [] && log[0..] == log;
      QueueIsTheGap(log, 0);
    }
  }

  /** In a right log nothing is undelivered when reception is reported disabled. */
  lemma NothingLeftAtDisabled(log: seq<Event>, k: nat)
    requires Watch(log).ok && k < |log| && log[k] == RxDisabled
    ensures Watch(log[..k]).ok && Watch(log[..k]).queue == []
  {
    hide Watch;
    WatchAt(log, k);
  }

  /** Every entry of a right log is right where it stands. */
  lemma WatchAt(log: seq<Event>, k: nat)
    requires Watch(log).ok && k < |log|
    ensures Watch(log[..k]).ok && Observe(Watch(log[..k]), log[k]).ok
    ensures Watch(log[..k + 1]) == Observe(Watch(log[..k]), log[k])
  {
    hide Watch, Observe;
    assert log[..k + 1] == log[..k] + [log[k]];
    WatchSnoc(log[..k], log[k]);
    OkBefore(log, k);
    OkBefore(log, k + 1);
  }

  lemma OkIsSticky(m: Mon, e: Event)
    ensures Observe(m, e).ok ==> m.ok
  {
  }

  lemma {:induction false} OkBefore(log: seq<Event>, k: nat)
    requires Watch(log).ok && k <= |log|
    ensures Watch(log[..k]).ok
  {
    if k < |log| {
      OkIsSticky(Watch(log[..|log| - 1]), log[|log| - 1]);
      OkBefore(log[..|log| - 1], k);
      assert log[..|log| - 1][..k] == log[..k];
    } else {
      assert log[..k] == log;
    }
  }

  /** No step of the run enables reception while bytes are undelivered. */
  predicate EnablesOnlyDelivered(states: seq<Rx>, steps: seq<Step>)
    requires |states| == |steps| + 1
  {
    forall k :: 0 <= k < |steps| && steps[k].Enable? ==> Fresh(states[k]) == 0
  }

  lemma {:induction false} DroppedIff(states: seq<Rx>, steps: seq<Step>)
    requires IsRun(states, steps)
    ensures Dropped(states[|steps|]) == 0 <==> EnablesOnlyDelivered(states, steps)
  {
    hide Inv, Next, CanStep, Fresh, Watch;
    if steps == [] {
      NothingYet();
    } else {
      var n := |steps| - 1;
      var front := states[..n + 1];
      assert forall k :: 0 <= k <= n ==> front[k] == states[k];
      DroppedIff(front, steps[..n]);
      RunKeepsInv(front, steps[..n]);
      StepKeepsInv(states[n], steps[n]);
      assert forall k :: 0 <= k < n ==> steps[..n][k] == steps[k];
      assert EnablesOnlyDelivered(states, steps) <==>
               EnablesOnlyDelivered(front, steps[..n]) && (steps[n].Enable? ==> Fresh(states[n]) == 0);
    }
  }

  lemma NothingYet()
    ensures Dropped(INITIAL) == 0
  {
  }

  /**
   Conservation over every run: the bytes written are those delivered followed by those in memory from the
   current offset on, exactly if reception was never enabled while bytes were undelivered. The same holds at
   every disabled event, where nothing is left in memory. The number of bytes missing is the number dropped.
   */
  lemma {:induction false} StreamConservation(states: seq<Rx>, steps: seq<Step>)
    requires IsRun(states, steps)
    ensures var s := states[|steps|];
            && (EnablesOnlyDelivered(states, steps) <==>
                  (Written(s.log) == Delivered(s.log) + Read(s.mem, s.buf + s.offset, Fresh(s))))
            && |Written(s.log)| == |Delivered(s.log)| + Fresh(s) + Dropped(s)
            && forall k :: 0 <= k < |s.log| && s.log[k] == RxDisabled ==>
                 (Delivered(s.log[..k]) == Written(s.log[..k]) <==> Watch(s.log[..k]).dropped == 0)
  {
    hide Next, CanStep, Written, Delivered, Inv, Read, Fresh, Watch;
    var s := states[|steps|];
    EndIsRight(states, steps);
    PendingIsQueue(s);
    DroppedIff(states, steps);
    WholeStreamIff(s.log);
    MissingBytes(s.log);
    forall k | 0 <= k < |s.log| && s.log[k] == RxDisabled
      ensures Delivered(s.log[..k]) == Written(s.log[..k]) <==> Watch(s.log[..k]).dropped == 0
    {
      NothingLeftAtDisabled(s.log, k);
      WholeStreamIff(s.log[..k]);
      assert Delivered(s.log[..k]) + [] == Delivered(s.log[..k]);
    }
  }

  lemma PendingIsQueue(s: Rx)
    requires Inv(s)
    ensures Watch(s.log).queue == Read(s.mem, s.buf + s.offset, Fresh(s))
  {
    FreshIsExact(s);
  }

  /**
   Whatever was dropped before: since reception was last enabled the bytes written are those delivered
   followed by those in memory from the current offset on.
   */
  lemma {:induction false} ConservationSinceEnabled(states: seq<Rx>, steps: seq<Step>, at: nat)
    requires IsRun(states, steps)
    requires at < |states[|steps|].log| && states[|steps|].log[at].Enabled?
    requires forall k :: at < k < |states[|steps|].log| ==> !states[|steps|].log[k].Enabled?
    ensures var s := states[|steps|];
            Written(s.log[at + 1..]) == Delivered(s.log[at + 1..]) + Read(s.mem, s.buf + s.offset, Fresh(s))
  {
    hide IsRun, Inv, Watch, Written, Delivered, Read, Fresh;
    EndIsRight(states, steps);
    var s := states[|steps|];
    PendingIsQueue(s);
    NoDropWithoutEnable(s.log, at + 1);
    EnabledQueueIsEmpty(s.log, at);
    QueueIsTheGap(s.log, at + 1);
    assert [] + Written(s.log[at + 1..]) == Written(s.log[at + 1..]);
  }

  lemma EndIsRight(states: seq<Rx>, steps: seq<Step>)
    requires IsRun(states, steps)
    ensures |states| == |steps| + 1 && Inv(states[|steps|]) && Watch(states[|steps|].log).ok
  {
    hide Watch, Receiving;
    RunKeepsInv(states, steps);
    assert Inv(states[|steps|]);
  }

  lemma EnabledQueueIsEmpty(log: seq<Event>, at: nat)
    requires at < |log| && log[at].Enabled?
    ensures Watch(log[..at + 1]).queue == []
  {
    WatchSnoc(log[..at], log[at]);
    assert log[..at + 1] == log[..at] + [log[at]];
  }

  lemma {:induction false} NoDropWithoutEnable(log: seq<Event>, from: nat)
    requires from <= |log| && forall k :: from <= k < |log| ==> !log[k].Enabled?
    ensures Watch(log[..from]).dropped == Watch(log).dropped
  {
    if from < |log| {
      NoDropWithoutEnable(log[..|log| - 1], from);
      assert log[..|log| - 1][..from] == log[..from];
    } else {
      assert log[..from] == log;
    }
  }

  // ----- What is delivered, and when

  /** The receive timeout, the completion of a buffer and the disabling of reception hand over what there is. */
  predicate HandsOver(step: Step) {
    step == Timeout || step.Completion? || step == Disable
  }

  predicate Silent(e: Event) {
    !e.Byte? && !e.RxRdy?
  }

  /** Events that neither write nor deliver leave the streams alone. */
  lemma {:induction false} SilentTail(log: seq<Event>, tail: seq<Event>)
    requires forall e :: e in tail ==> Silent(e)
    ensures Written(log + tail) == Written(log) && Delivered(log + tail) == Delivered(log)
  {
    hide Written, Delivered;
    if tail == [] {
      assert log + tail == log;
    } else {
      var n := |tail| - 1;
      assert tail[n] in tail;
      SilentTail(log, tail[..n]);
      assert log + tail == log + tail[..n] + [tail[n]];
      StreamsSnoc(log + tail[..n], tail[n]);
    }
  }

  /** A flush delivers all bytes that were not delivered, and writes none. */
  lemma FlushDelivers(s: Rx)
    requires Inv(s)
    ensures Written(Flushed(s).log) == Written(s.log)
    ensures Delivered(Flushed(s).log) == Delivered(s.log) + Watch(s.log).queue
  {
    hide Written, Delivered, Watch, Read;
    FreshIsExact(s);
    PendingIsQueue(s);
    if Fresh(s) > 0 {
      StreamsSnoc(s.log, RxRdy(s.buf, s.offset, Read(s.mem, s.buf + s.offset, Fresh(s))));
    } else {
      assert Delivered(s.log) + [] == Delivered(s.log);
    }
  }

  /** After the step's flush only silent events come. */
  lemma TailOf(s: Rx, step: Step) returns (tail: seq<Event>)
    requires Inv(s) && CanStep(s, step) && HandsOver(step)
    ensures Next(s, step).log == Flushed(s).log + tail && forall e :: e in tail ==> Silent(e)
  {
    hide Flushed, Inv, Watch, AfterCompletion;
    match step
    case Timeout =>
      tail := [];
    case Disable =>
      tail := [Released(s.buf), RxDisabled];
    case Completion(reply) =>
      DoneIsReceiving(s);
      var log := Flushed(s).log;
      var some := if s.offset < s.total then [Released(s.buf)] else [];
      if s.next == NULL {
        CompletionWithoutNext(s, reply);
        tail := some + [Released(s.buf), RxDisabled];
        assert log + some + [Released(s.buf), RxDisabled] == log + tail;
      } else {
        CompletionWithNext(s, reply);
        var answer := if reply.Reply? then [Supplied(reply.buf, reply.len)] else [];
        tail := some + [BufRequest] + answer + [Loaded(s.next, s.nextSize)];
        assert log + some + [BufRequest] + answer + [Loaded(s.next, s.nextSize)] == log + tail;
      }
  }

  lemma DoneIsReceiving(s: Rx)
    requires Inv(s) && s.ch.done
    ensures s.ch.busy
  {
    hide Watch;
  }

  lemma NothingIsLeft(s: Rx, step: Step)
    requires Inv(s) && CanStep(s, step) && HandsOver(step)
    ensures Fresh(Next(s, step)) == 0
  {
    hide Watch, Read;
    match step
    case Timeout => FlushDrains(s); FreshIsExact(s);
    case Disable =>
    case Completion(reply) => SlicedAgain(s, reply);
  }

  lemma SlicedAgain(s: Rx, reply: Reply)
    requires Inv(s) && s.ch.done
    ensures Fresh(AfterCompletion(s, reply)) == 0
  {
    hide Watch, Read;
    var r := SlicedAndReleased(s);
  }

  /**
   Over every run each receive timeout, completion and disabling delivers all bytes that were not delivered,
   and nothing is left. So just then everything written has been delivered, exactly if reception was never
   enabled while bytes were undelivered.
   */
  lemma {:induction false} EverythingHandedOver(states: seq<Rx>, steps: seq<Step>, k: nat)
    requires IsRun(states, steps) && k < |steps| && HandsOver(steps[k])
    ensures var s, t := states[k], states[k + 1];
            && Delivered(t.log) == Delivered(s.log) + Watch(s.log).queue
            && Written(t.log) == Written(s.log) && Fresh(t) == 0
            && (Delivered(t.log) == Written(t.log) <==> EnablesOnlyDelivered(states[..k + 2], steps[..k + 1]))
  {
    hide Inv, Next, CanStep, Written, Delivered, Watch, Flushed, Fresh, Read, HandsOver, EnablesOnlyDelivered;
    var s, t := states[k], states[k + 1];
    RunKeepsInv(states, steps);
    assert Inv(s);
    var tail := TailOf(s, steps[k]);
    FlushDelivers(s);
    SilentTail(Flushed(s).log, tail);
    NothingIsLeft(s, steps[k]);
    var front, first := states[..k + 2], steps[..k + 1];
    assert IsRun(front, first) && front[|first|] == t;
    StreamConservation(front, first);
    assert Read(t.mem, t.buf + t.offset, 0) == [];
    assert Delivered(t.log) + [] == Delivered(t.log);
  }

  /**
   Enabling a second buffer with one byte of the first undelivered: the byte is neither delivered nor in
   what the driver still counts, and the first buffer is not released.
   */
  lemma EnableDropsExample() returns (states: seq<Rx>, steps: seq<Step>)
    ensures IsRun(states, steps)
    ensures var s := states[|steps|];
            && Written(s.log) == [7] && Delivered(s.log) == [] && Fresh(s) == 0 && Dropped(s) == 1
            && forall k :: 0 <= k < |s.log| ==> !s.log[k].RxRdy? && !s.log[k].Released?
  {
    steps := [Enable(16, 4, NoReply), HardwareByte(7), Enable(32, 4, NoReply)];
    var first, second := [Enabled(16, 4), BufRequest, Loaded(16, 4)], [Enabled(32, 4), BufRequest, Loaded(32, 4)];
    hide Next, CanStep, Watch, Written, Delivered, Inv, Fresh;
    var s1 := EnableEffect(INITIAL, 16);
    var s2 := ByteEffect(s1, 16);
    var s3 := EnableEffect(s2, 32);
    states := [INITIAL, s1, s2, s3];
    assert [] + first == first;
    assert s3.log == first + [Byte(7)] + second;
    assert IsRun(states, steps);
    hide IsRun;
    StreamsOfExample(first, second);
    StreamConservation(states, steps);
  }

  lemma EnableEffect(s: Rx, buf: nat) returns (t: Rx)
    requires buf != NULL
    ensures CanStep(s, Enable(buf, 4, NoReply)) && t == Next(s, Enable(buf, 4, NoReply))
    ensures t.ch == Dma.Running(buf, 4) && t.log == s.log + [Enabled(buf, 4), BufRequest, Loaded(buf, 4)] && Fresh(t) == 0
  {
    t := Next(s, Enable(buf, 4, NoReply));
  }

  lemma ByteEffect(s: Rx, buf: nat) returns (t: Rx)
    requires s.ch == Dma.Running(buf, 4)
    ensures CanStep(s, HardwareByte(7)) && t == Next(s, HardwareByte(7)) && t.log == s.log + [Byte(7)]
  {
    t := Next(s, HardwareByte(7));
  }

  lemma StreamsOfExample(first: seq<Event>, second: seq<Event>)
    requires first == [Enabled(16, 4), BufRequest, Loaded(16, 4)] && second == [Enabled(32, 4), BufRequest, Loaded(32, 4)]
    ensures Written(first + [Byte(7)] + second) == [7] && Delivered(first + [Byte(7)] + second) == []
  {
    var none: seq<Event> := [];
    StreamsSnoc(none, Enabled(16, 4));
    StreamsSnoc(none + [Enabled(16, 4)], BufRequest);
    StreamsSnoc(none + [Enabled(16, 4)] + [BufRequest], Loaded(16, 4));
    assert first == none + [Enabled(16, 4)] + [BufRequest] + [Loaded(16, 4)];
    StreamsSnoc(first, Byte(7));
    var l := first + [Byte(7)];
    StreamsSnoc(l, Enabled(32, 4));
    StreamsSnoc(l + [Enabled(32, 4)], BufRequest);
    StreamsSnoc(l + [Enabled(32, 4)] + [BufRequest], Loaded(32, 4));
    assert l + second == l + [Enabled(32, 4)] + [BufRequest] + [Loaded(32, 4)];
  }

  /** The last `Loaded` of a log, if reception is on. */
  function LastLoaded(log: seq<Event>): (r: Option<nat>)
    ensures r.Some? ==> r.value < |log|
  {
    if log == [] then None
    else match log[|log| - 1]
      case Loaded(_, _) => Some(|log| - 1)
      case Enabled(_, _) => None
      case RxDisabled => None
      case _ => LastLoaded(log[..|log| - 1])
  }

  /** The length of the slices raised since the buffer in use was loaded. */
  function Sliced(log: seq<Event>): nat {
    if log == [] then 0
    else match log[|log| - 1]
      case Loaded(_, _) => 0
      case RxRdy(_, _, data) => Sliced(log[..|log| - 1]) + |data|
      case _ => Sliced(log[..|log| - 1])
  }

  /** The monitor's registers are what a reader of the log would compute. */
  lemma {:induction false} MonitorMeaning(log: seq<Event>)
    requires Watch(log).ok
    ensures Meaning(log, Watch(log))
  {
    if log != [] {
      var n := |log| - 1;
      OkIsSticky(Watch(log[..n]), log[n]);
      MonitorMeaning(log[..n]);
      assert forall k :: 0 <= k < n ==> log[..n][k] == log[k];
      MeaningStep(log, Watch(log[..n]));
    }
  }

  ghost predicate Meaning(log: seq<Event>, m: Mon) {
    var at := LastLoaded(log);
    && (m.active <==> at.Some?)
    && (at.Some? ==>
          && at.value < |log|
          && log[at.value] == Loaded(m.buf, m.len)
          && m.pos == Sliced(log)
          && (!m.released ==> forall k :: at.value < k < |log| ==> !log[k].Released?))
  }

  lemma MeaningStep(log: seq<Event>, m: Mon)
    requires log != [] && Meaning(log[..|log| - 1], m)
    ensures Meaning(log, Observe(m, log[|log| - 1]))
  {
    var n := |log| - 1;
    assert forall k :: 0 <= k < n ==> log[..n][k] == log[k];
  }

  /**
   Entry `k` of the log is a right slice: it names the buffer loaded last, not released since; its offset
   is where the slices before it ended, so slices are contiguous from 0; and it stays in bounds.
   */
  ghost predicate RightSlice(log: seq<Event>, k: nat)
    requires k < |log| && log[k].RxRdy?
  {
    var e, at := log[k], LastLoaded(log[..k]);
    && at.Some? && log[at.value].Loaded? && log[at.value].buf == e.buf
    && (forall j :: at.value < j < k ==> !log[j].Released?)
    && e.offset == Sliced(log[..k])
    && 0 < |e.data| <= log[at.value].len - e.offset
  }

  lemma RightLogRightSlice(log: seq<Event>, k: nat)
    requires k < |log| && log[k].RxRdy? && Watch(log).ok
    ensures RightSlice(log, k)
  {
    hide Watch, LastLoaded, Sliced;
    WatchAt(log, k);
    MonitorMeaning(log[..k]);
    assert forall j :: 0 <= j < k ==> log[..k][j] == log[j];
  }

  /** Entry `k` loads a buffer the application offered, by enabling or by supplying it, and still had on offer. */
  ghost predicate RightLoad(log: seq<Event>, k: nat)
    requires k < |log| && log[k].Loaded?
  {
    exists j :: 0 <= j < k && Offers(log[j], log[k].buf, log[k].len) && forall i :: j < i < k ==> log[i] != RxDisabled
  }

  predicate Offers(e: Event, buf: nat, len: u32) {
    e == Enabled(buf, len) || e == Supplied(buf, len)
  }

  lemma {:induction false} OffersWereMade(log: seq<Event>, o: (nat, u32))
    requires o in Watch(log).offers
    ensures exists j :: 0 <= j < |log| && Offers(log[j], o.0, o.1) && forall i :: j < i < |log| ==> log[i] != RxDisabled
  {
    var n := |log| - 1;
    OffersStep(Watch(log[..n]), log[n], o);
    if Offers(log[n], o.0, o.1) {
      return;
    }
    OffersWereMade(log[..n], o);
    var j :| 0 <= j < n && Offers(log[..n][j], o.0, o.1) && forall i :: j < i < n ==> log[..n][i] != RxDisabled;
    assert forall i :: 0 <= i < n ==> log[..n][i] == log[i];
    assert Offers(log[j], o.0, o.1);
  }

  lemma OffersStep(m: Mon, e: Event, o: (nat, u32))
    requires o in Observe(m, e).offers
    ensures Offers(e, o.0, o.1) || (o in m.offers && e != RxDisabled)
  {
  }

  lemma RightLogRightLoad(log: seq<Event>, k: nat)
    requires k < |log| && log[k].Loaded? && Watch(log).ok
    ensures RightLoad(log, k)
  {
    hide Watch, Offers;
    WatchAt(log, k);
    OffersWereMade(log[..k], Watch(log[..k]).offers[0]);
    var j :| 0 <= j < k && Offers(log[..k][j], log[k].buf, log[k].len) && forall i :: j < i < k ==> log[..k][i] != RxDisabled;
    assert Offers(log[j], log[k].buf, log[k].len);
    assert forall i :: 0 <= i < k ==> log[..k][i] == log[i];
  }

  /** Over every run, every slice is right and every loaded buffer was on offer. */
  lemma SliceDiscipline(states: seq<Rx>, steps: seq<Step>)
    requires IsRun(states, steps)
    ensures var log := states[|steps|].log;
            && (forall k :: 0 <= k < |log| && log[k].RxRdy? ==> RightSlice(log, k))
            && (forall k :: 0 <= k < |log| && log[k].Loaded? ==> RightLoad(log, k))
  {
    RunKeepsInv(states, steps);
    var log := states[|steps|].log;
    assert Inv(states[|steps|]);
    forall k | 0 <= k < |log| && log[k].RxRdy?
      ensures RightSlice(log, k)
    {
      RightLogRightSlice(log, k);
    }
    forall k | 0 <= k < |log| && log[k].Loaded?
      ensures RightLoad(log, k)
    {
      RightLogRightLoad(log, k);
    }
  }

  /** Over every run the DMA channel is busy only if valid, and whenever a transfer is armed it is enabled. */
  lemma ChannelDiscipline(states: seq<Rx>, steps: seq<Step>)
    requires IsRun(states, steps)
    ensures forall k :: 0 <= k < |states| ==>
              && (states[k].ch.busy ==> states[k].ch.valid)
              && (states[k].ch.armed <==> states[k].ch.enabled)
              && states[k].offset + Dma.Pending(states[k].ch) <= states[k].total
  {
    RunKeepsInv(states, steps);
    forall k | 0 <= k < |states|
      ensures
        && (states[k].ch.busy ==> states[k].ch.valid)
        && (states[k].ch.armed <==> states[k].ch.enabled)
        && states[k].offset + Dma.Pending(states[k].ch) <= states[k].total
    {
      assert Inv(states[k]);
    }
  }

  // ----- A transfer that ends with an error

  /** The channel's interrupt when the transfer ended with an error or an abort. */
  function AfterError(s: Rx): Rx {
    s.(ch := s.ch.(busy := false, armed := false, enabled := false, done := false))
  }

  /**
   After an error `pending` reads as 0: the next flush reports the residual bytes too, although they
   were never written. It reports the written bytes exactly when the residual is 0.
   */
  lemma ErrorOverReports(s: Rx)
    requires Inv(s) && s.ch.busy
    ensures Fresh(AfterError(s)) == |Watch(s.log).queue| + s.ch.residual
    ensures Fresh(AfterError(s)) == |Watch(s.log).queue| <==> s.ch.residual == 0
  {
    FreshIsExact(s);
  }

  /** So after an error the log stays right over the next flush exactly when the residual was 0. */
  lemma ErrorThenFlushIff(s: Rx)
    requires Inv(s) && s.ch.busy
    ensures Watch(Flushed(AfterError(s)).log).ok <==> s.ch.residual == 0
  {
    hide Watch, Observe;
    ErrorOverReports(s);
    FreshIsExact(s);
    var n, m := Fresh(AfterError(s)), Watch(s.log);
    if n > 0 {
      var slice := RxRdy(s.buf, s.offset, Read(s.mem, s.buf + s.offset, n));
      WatchSnoc(s.log, slice);
      SliceIsRightIff(m, slice);
      if s.ch.residual == 0 {
        PendingIsQueue(s);
      }
    }
  }

  /** A slice at the right place is right exactly if its bytes come next in the queue. */
  lemma SliceIsRightIff(m: Mon, e: Event)
    requires m.ok && m.active && !m.released && m.pos + |m.queue| <= m.len
    requires e.RxRdy? && e.buf == m.buf && e.offset == m.pos && e.data != []
    ensures Observe(m, e).ok <==> e.data <= m.queue
  {
  }

  /** A buffer of four bytes, one byte received, then an error: the next flush reports four. */
  lemma ErrorExample()
    ensures CanStep(INITIAL, Enable(16, 4, NoReply))
    ensures var s := Next(INITIAL, Enable(16, 4, NoReply));
            && CanStep(s, HardwareByte(7))
            && var t := Next(s, HardwareByte(7));
               && Written(t.log) == [7]
               && exists data :: Flushed(AfterError(t)).log == t.log + [RxRdy(16, 0, data)] && |data| == 4
  {
    var s := Next(INITIAL, Enable(16, 4, NoReply));
    var t := Next(s, HardwareByte(7));
    assert s.log == [Enabled(16, 4)] + [BufRequest] + [Loaded(16, 4)];
    assert t.log == s.log + [Byte(7)];
    StreamsSnoc([], Enabled(16, 4));
    StreamsSnoc([Enabled(16, 4)], BufRequest);
    StreamsSnoc([Enabled(16, 4)] + [BufRequest], Loaded(16, 4));
    StreamsSnoc(s.log, Byte(7));
    assert [] + [Enabled(16, 4)] == [Enabled(16, 4)];
    assert Flushed(AfterError(t)).log == t.log + [RxRdy(16, 0, Read(t.mem, 16, 4))];
  }

  // ----- How often a buffer is released

  /** How often a buffer is released in a log. */
  function Releases(log: seq<Event>, buf: nat): nat {
    if log == [] then 0
    else Releases(log[..|log| - 1], buf) + if log[|log| - 1] == Released(buf) then 1 else 0
  }

  lemma ReleasesSnoc(log: seq<Event>, e: Event, buf: nat)
    ensures Releases(log + [e], buf) == Releases(log, buf) + if e == Released(buf) then 1 else 0
  {
    assert (log + [e])[..|log|] == log;
  }

  /** A completion with no buffer supplied: a release if bytes were undelivered, and another one for disabling. */
  lemma CompletionWithoutNext(s: Rx, reply: Reply)
    requires Inv(s) && s.ch.done && s.next == NULL
    ensures AfterCompletion(s, reply).log
         == Flushed(s).log + (if s.offset < s.total then [Released(s.buf)] else []) + [Released(s.buf), RxDisabled]
  {
    FlushDrains(s);
    CompletionFlush(s);
    var f := Flushed(s.(ch := s.ch.(busy := false, done := false)));
    var r := ReleasedIfSliced(f);
    assert Flushed(r) == r.(size := 0);
    assert f.log + [] == f.log;
  }

  /** A completion with a buffer supplied: a release if bytes were undelivered, and the next buffer starts. */
  lemma CompletionWithNext(s: Rx, reply: Reply)
    requires Inv(s) && s.ch.done && s.next != NULL
    ensures AfterCompletion(s, reply).log
         == Flushed(s).log + (if s.offset < s.total then [Released(s.buf)] else []) + [BufRequest]
            + (if reply.Reply? then [Supplied(reply.buf, reply.len)] else []) + [Loaded(s.next, s.nextSize)]
  {
    FlushDrains(s);
    CompletionFlush(s);
    var f := Flushed(s.(ch := s.ch.(busy := false, done := false)));
    assert f.log + [] == f.log;
  }

  lemma FlushReleasesNothing(s: Rx, buf: nat)
    ensures Releases(Flushed(s).log, buf) == Releases(s.log, buf)
  {
    if Fresh(s) > 0 {
      ReleasesSnoc(s.log, RxRdy(s.buf, s.offset, Read(s.mem, s.buf + s.offset, Fresh(s))), buf);
    }
  }

  /**
   A completion releases the buffer once for undelivered bytes and once for the want of a next buffer. So it
   releases it exactly once exactly if one of the two is the case and not the other: twice when it was being
   filled with no successor, and never when it had been delivered whole and has one.
   */
  lemma ReleasedOnceIff(s: Rx, reply: Reply)
    requires Inv(s) && s.ch.done
    ensures var n := Releases(AfterCompletion(s, reply).log, s.buf) - Releases(s.log, s.buf);
            && n == (if s.offset < s.total then 1 else 0) + (if s.next == NULL then 1 else 0)
            && (n == 1 <==> (s.offset < s.total <==> s.next != NULL))
  {
    hide Inv, AfterCompletion, Flushed, Releases;
    FlushReleasesNothing(s, s.buf);
    var log := Flushed(s).log;
    var some := if s.offset < s.total then [Released(s.buf)] else [];
    ReleasesSnoc(log, Released(s.buf), s.buf);
    assert log + [] == log;
    if s.next == NULL {
      CompletionWithoutNext(s, reply);
      ReleasesSnoc(log + some, Released(s.buf), s.buf);
      ReleasesSnoc(log + some + [Released(s.buf)], RxDisabled, s.buf);
      assert log + some + [Released(s.buf), RxDisabled] == log + some + [Released(s.buf)] + [RxDisabled];
    } else {
      CompletionWithNext(s, reply);
      var asked := log + some + [BufRequest];
      ReleasesSnoc(log + some, BufRequest, s.buf);
      if reply.Reply? {
        ReleasesSnoc(asked, Supplied(reply.buf, reply.len), s.buf);
        ReleasesSnoc(asked + [Supplied(reply.buf, reply.len)], Loaded(s.next, s.nextSize), s.buf);
      } else {
        assert asked + [] == asked;
        ReleasesSnoc(asked, Loaded(s.next, s.nextSize), s.buf);
      }
    }
  }
}
