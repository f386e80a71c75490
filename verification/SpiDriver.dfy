/** The SPI driver's two ways to run a transfer, over the context that walks the buffers. */
module SpiDriver {
  import opened Words
  import opened SpiChunks
  import opened SpiContext

  /** What the bus and the caller see. */
  datatype Event =
    | SelectOn
    | Transferred(tx: nat, rx: nat)
    | SelectOff
    | Completed

  /** What can happen to one DMA chunk; when the wait fails some of its bytes may have been moved. */
  datatype Outcome =
    | Moved
    | LoadError(err: Errno)
    | StartError(err: Errno)
    | SetupError
    | WaitError(err: Errno, sent: nat, received: nat)

  /** The bytes of a chunk that does not go well which are moved all the same. */
  function Part(o: Outcome, c: (nat, nat)): (r: (nat, nat))
    ensures r.0 <= c.0 && r.1 <= c.1
    ensures o.WaitError? && o.sent <= c.0 && o.received <= c.1 ==> r == (o.sent, o.received)
    ensures !o.WaitError? ==> r == (0, 0)
  {
    if o.WaitError? then (Min(o.sent, c.0), Min(o.received, c.1)) else (0, 0)
  }

  predicate Sensible(o: Outcome) {
    o.LoadError? || o.StartError? || o.WaitError? ==> o.err != Success
  }

  /** What the call returns after a chunk; `spi_setup_dma_transfer` refusing it leaves the 0 of the start before. */
  function Result(o: Outcome): Errno {
    match o
    case Moved => Success
    case SetupError => Success
    case LoadError(err) => err
    case StartError(err) => err
    case WaitError(err, _, _) => err
  }

  /** Of the chunks that do not go well only one refused by the set-up returns 0. */
  lemma ResultIff(o: Outcome)
    requires Sensible(o) && !o.Moved?
    ensures Result(o) == Success <==> o.SetupError?
    ensures !o.SetupError? ==> Result(o) == o.err
  {
  }

  function Transfers(chunks: seq<(nat, nat)>): (r: seq<Event>)
    ensures |r| == |chunks|
  {
    seq(|chunks|, i requires 0 <= i < |chunks| => Transferred(chunks[i].0, chunks[i].1))
  }

  lemma TransfersSnoc(plan: seq<(nat, nat)>, k: nat, before: seq<Event>)
    requires k < |plan|
    ensures before + Transfers(plan[..k]) + [Transferred(plan[k].0, plan[k].1)] == before + Transfers(plan[..k + 1])
  {
    assert plan[..k + 1] == plan[..k] + [plan[k]];
  }

  /** How many chunks go well before the first that does not. */
  function Leading(ok: nat -> bool, k: nat, n: nat): nat
    decreases n - k
  {
    if k < n && ok(k) then 1 + Leading(ok, k + 1, n) else 0
  }

  lemma {:induction false} LeadingIs(ok: nat -> bool, k: nat, m: nat, n: nat)
    requires k <= m <= n && (m == n || !ok(m))
    requires forall j: nat :: k <= j < m ==> ok(j)
    ensures Leading(ok, k, n) == m - k
    decreases m - k
  {
    if k < m {
      LeadingIs(ok, k + 1, m, n);
    }
  }

  /** How many DMA chunks are moved before the first that is not. */
  function MovedChunks(outcome: nat -> Outcome, n: nat): nat {
    Leading((k: nat) => outcome(k).Moved?, 0, n)
  }

  /** What a transfer that asserts the select line leaves on the bus when `m` of its chunks were moved. */
  function Trace(plan: seq<(nat, nat)>, m: nat, ending: seq<Event>): seq<Event>
    requires m <= |plan|
  {
    [SelectOn] + Transfers(plan[..m]) + if m == |plan| then ending else []
  }

  lemma TraceOf(before: seq<Event>, plan: seq<(nat, nat)>, m: nat, ending: seq<Event>)
    requires m <= |plan|
    ensures before + [SelectOn] + Transfers(plan[..m]) + (if m == |plan| then ending else [])
         == before + Trace(plan, m, ending)
  {
  }

  class Driver {
    const max: nat
    var tx: Cursor
    var rx: Cursor
    var transferLen: nat
    // the receive buffers as they are in memory
    var memory: seq<Buf>
    // the controller: the chunk it was told to move, the clocks it gave, the bytes it drove
    var programmed: Option<(nat, nat)>
    var clocks: nat
    ghost var driven: seq<byte>
    ghost var events: seq<Event>

    ghost function View(): Transfer
      reads this
    {
      Transfer(tx, rx, clocks, driven, memory)
    }

    constructor (max: nat)
      ensures this.max == max && events == []
    {
      this.max := max;
      tx, rx, transferLen, memory := Cursor([], 0, 0, 0), Cursor([], 0, 0, 0), 0, [];
      programmed, clocks, driven, events := None, 0, [], [];
    }

    /** `spi_context_buffers_setup`. */
    method SetUp(txBufs: seq<Buf>, rxBufs: seq<Buf>)
      modifies this`tx, this`rx, this`memory, this`clocks, this`driven
      ensures View() == Begun(txBufs, rxBufs)
    {
      hide Start, SkipEmpty, Valid, Pieces;
      tx, rx, memory := Start(txBufs), Start(rxBufs), rxBufs;
      clocks, driven := 0, [];
    }

    /** The controller gives the clocks of one chunk: bytes go out from one cursor's place and in at the other's. */
    method Move(c: (nat, nat), miso: nat -> byte)
      requires Fits(View(), c)
      modifies this`memory, this`clocks, this`driven, this`events
      ensures View() == Clocked(old(View()), c, miso)
      ensures events == old(events) + [Transferred(c.0, c.1)]
    {
      driven := driven + Sent(tx.bufs, tx.at, tx.off, c.0);
      memory := Stored(memory, rx.at, rx.off, Slice(miso, clocks, c.1));
      clocks := clocks + Max(c.0, c.1);
      events := events + [Transferred(c.0, c.1)];
    }

    /** A transfer breaks off in a chunk; the clocks of the chunks moved before are those that count. */
    method MovePart(c: (nat, nat), miso: nat -> byte)
      requires Fits(View(), c)
      modifies this`memory, this`driven
      ensures driven == Clocked(old(View()), c, miso).driven && memory == Clocked(old(View()), c, miso).memory
    {
      driven := driven + Sent(tx.bufs, tx.at, tx.off, c.0);
      memory := Stored(memory, rx.at, rx.off, Slice(miso, clocks, c.1));
    }

    /** The interrupt path waits for the chunk the rules for sizes give, or has ended. */
    ghost predicate Waiting(starts: bool)
      reads this
    {
      if AtEnd(View()) then programmed == None
      else
        && transferLen == Max(NextChunk(View(), max).0, NextChunk(View(), max).1)
        && programmed == if starts then Some(NextChunk(View(), max)) else None
    }

    /** `spi_hpm_transfer_next_packet`; the SDK may refuse to start the chunk. */
    method TransferNextPacket(starts: bool)
      requires max > 0
      modifies this`transferLen, this`programmed, this`events
      ensures Waiting(starts)
      ensures events == old(events) + if AtEnd(View()) then [SelectOff, Completed] else []
    {
      programmed := None;
      if tx.len == 0 && rx.len == 0 {
        events := events + [SelectOff, Completed];
        return;
      }
      var txSize: nat, rxSize: nat := Min(tx.len, max), Min(rx.len, max);
      if txSize == 0 {
        // receive only
      } else if rxSize == 0 {
        // send only
      } else if txSize == rxSize {
        // both, of one length
      } else if txSize > rxSize {
        txSize := rxSize;
      } else {
        rxSize := txSize;
      }
      transferLen := Max(rxSize, txSize);
      if !starts {
        return;
      }
      programmed := Some((txSize, rxSize));
    }

    /** `spi_hpm_master_transfer_callback`, which gives both contexts the one length. */
    method TransferCallback(starts: bool)
      requires max > 0 && Valid(tx) && Valid(rx)
      modifies this`tx, this`rx, this`transferLen, this`programmed, this`events
      ensures View() == old(View()).(tx := Updated(old(tx), old(transferLen)), rx := Updated(old(rx), old(transferLen)))
      ensures Waiting(starts)
      ensures events == old(events) + if AtEnd(View()) then [SelectOff, Completed] else []
    {
      hide Updated, Chunk;
      tx := Updated(tx, transferLen);
      rx := Updated(rx, transferLen);
      TransferNextPacket(starts);
    }

    /** The interrupts of one `transceive`, from the select line being asserted; `m` chunks are moved. */
    method Interrupts(txBufs: seq<Buf>, rxBufs: seq<Buf>, starts: nat -> bool, miso: nat -> byte,
                      ghost plan: seq<(nat, nat)>)
      returns (ghost m: nat)
      requires max > 0 && OnCourse(View(), txBufs, rxBufs, miso, max, plan, 0)
      modifies this
      ensures m <= |plan| && OnCourse(View(), txBufs, rxBufs, miso, max, plan, m)
      ensures forall j: nat :: j < m ==> starts(j)
      ensures m < |plan| ==> !starts(m)
      ensures events == old(events) + Transfers(plan[..m]) + if m == |plan| then [SelectOff, Completed] else []
    {
      hide Stream, Fill, Total, Before, Pieces, Plan, Leading, Rest, Position, FullDuplex, Updated, OnCourse, Chunk,
        Clocked, Fits, Begun, NextChunk, Start, SkipEmpty, Valid, InStep, Sides, Clocks;
      var k := 0;
      TransferNextPacket(starts(0));
      CourseEnd(View(), txBufs, rxBufs, miso, max, plan, k);
      assert Transfers(plan[..0]) == [];
      while programmed.Some?
        invariant k <= |plan| && OnCourse(View(), txBufs, rxBufs, miso, max, plan, k)
        invariant AtEnd(View()) <==> k == |plan|
        invariant events == old(events) + Transfers(plan[..k]) + if k == |plan| then [SelectOff, Completed] else []
        invariant Waiting(starts(k))
        invariant forall j: nat :: j < k ==> starts(j)
        decreases |plan| - k
      {
        assert starts(k) && k < |plan|;
        OneChunk(txBufs, rxBufs, starts(k + 1), miso, plan, k);
        TransfersSnoc(plan, k, old(events));
        k := k + 1;
      }
      m := k;
    }

    /** The controller moves the chunk it was told to, and the interrupt at its end asks for the next one. */
    method OneChunk(txBufs: seq<Buf>, rxBufs: seq<Buf>, nextStarts: bool, miso: nat -> byte,
                    ghost plan: seq<(nat, nat)>, ghost k: nat)
      requires max > 0 && k < |plan| && OnCourse(View(), txBufs, rxBufs, miso, max, plan, k)
      requires !AtEnd(View()) && Waiting(true)
      modifies this
      ensures OnCourse(View(), txBufs, rxBufs, miso, max, plan, k + 1) && Waiting(nextStarts)
      ensures AtEnd(View()) <==> k + 1 == |plan|
      ensures events == old(events) + [Transferred(plan[k].0, plan[k].1)]
                        + if k + 1 == |plan| then [SelectOff, Completed] else []
    {
      hide Stream, Fill, Total, Before, Pieces, Plan, Leading, Rest, Position, FullDuplex, Updated, OnCourse, Chunk,
        Clocked, Fits, Begun, NextChunk, Start, SkipEmpty, Valid, InStep, Sides, Clocks;
      CourseStep(View(), txBufs, rxBufs, miso, max, plan, k);
      Move(programmed.value, miso);
      TransferCallback(nextStarts);
      CourseEnd(View(), txBufs, rxBufs, miso, max, plan, k + 1);
    }

    /**
     `transceive` with the interrupts that drive it: `starts(k)` says whether the SDK starts chunk `k`. The
     chunks are those of the plan; if all start, every byte is moved, the select line is dropped after the
     last chunk and the completion is given once, after that. Otherwise the wait runs into its timeout with
     the select line still asserted.
     */
    method Transceive(configured: Errno, txBufs: seq<Buf>, rxBufs: seq<Buf>, starts: nat -> bool, miso: nat -> byte)
      returns (ret: Errno)
      requires max > 0
      modifies this
      ensures configured != Success ==> ret == configured && events == old(events) && memory == old(memory)
      ensures configured == Success ==>
                var plan := Plan(Pieces(txBufs), Pieces(rxBufs), max);
                var m := Leading(starts, 0, |plan|);
                && m <= |plan|
                && events == old(events) + Trace(plan, m, [SelectOff, Completed])
                && clocks == Clocks(plan[..m])
                && FullDuplex(txBufs, rxBufs, miso, clocks, driven, memory)
                && (m == |plan| ==> clocks == Max(Total(txBufs), Total(rxBufs)))
                && ret == if m == |plan| then Success else ETIMEDOUT
    {
      hide Stream, Fill, Total, Before, Pieces, Plan, Leading, Rest, Position, FullDuplex, Updated, OnCourse, Chunk,
        Clocked, Fits, Begun, NextChunk, Start, SkipEmpty, Valid, InStep, Sides, Clocks;
      if configured != Success {
        return configured;
      }
      SetUp(txBufs, rxBufs);
      CourseStart(txBufs, rxBufs, miso, max);
      ghost var plan := Plan(Pieces(txBufs), Pieces(rxBufs), max);
      events := events + [SelectOn];
      ghost var m := Interrupts(txBufs, rxBufs, starts, miso, plan);
      TraceOf(old(events), plan, m, [SelectOff, Completed]);
      LeadingIs(starts, 0, m, |plan|);
      CourseEnd(View(), txBufs, rxBufs, miso, max, plan, m);
      ret := if tx.len == 0 && rx.len == 0 then Success else ETIMEDOUT;
    }

    /** One turn of the DMA loop before the wait: the sizes, and how far the chunk gets. */
    method StartDma(o: Outcome) returns (ret: Errno, stop: bool, txSize: nat, rxSize: nat)
      requires max > 0 && !AtEnd(View()) && Sensible(o)
      ensures (txSize, rxSize) == NextChunk(View(), max)
      ensures stop <==> !(o.Moved? || o.WaitError?)
      ensures !o.WaitError? ==> ret == Result(o)
    {
      txSize, rxSize := Min(tx.len, max), Min(rx.len, max);
      ret, stop := Success, false;
      if txSize == 0 {
        // receive only
      } else if rxSize == 0 {
        // send only
      } else if txSize == rxSize {
        // both, of one length
      } else if txSize > rxSize {
        txSize := rxSize;
      } else {
        rxSize := txSize;
      }
      if o.LoadError? || o.StartError? {
        return o.err, true, txSize, rxSize;
      }
      if o.SetupError? {
        stop := true;
      }
    }

    /** The loop of `transceive_dma`, from the select line being asserted; `m` chunks are moved. */
    method DmaLoop(txBufs: seq<Buf>, rxBufs: seq<Buf>, outcome: nat -> Outcome, miso: nat -> byte,
                   ghost plan: seq<(nat, nat)>)
      returns (ret: Errno, ghost m: nat)
      requires max > 0 && OnCourse(View(), txBufs, rxBufs, miso, max, plan, 0)
      requires forall k: nat :: Sensible(outcome(k))
      modifies this
      ensures m <= |plan| && clocks == Clocks(plan[..m])
      ensures var part := if m < |plan| then Part(outcome(m), plan[m]) else (0, 0);
              Sides(txBufs, rxBufs, miso, Min(clocks, Total(txBufs)) + part.0, Min(clocks, Total(rxBufs)) + part.1,
                    driven, memory)
      ensures m == |plan| ==> clocks == Max(Total(txBufs), Total(rxBufs))
      ensures forall j: nat :: j < m ==> outcome(j).Moved?
      ensures m < |plan| ==> !outcome(m).Moved? && ret == Result(outcome(m))
      ensures m == |plan| ==> ret == Success
      ensures events == old(events) + Transfers(plan[..m]) + if m == |plan| then [SelectOff] else []
    {
      hide Stream, Fill, Total, Before, Pieces, Plan, Leading, Rest, Position, FullDuplex, Updated, OnCourse, Chunk,
        Clocked, Fits, Begun, NextChunk, Start, SkipEmpty, Valid, InStep, Sides, Clocks;
      var k := 0;
      ret := Success;
      assert Transfers(plan[..0]) == [];
      CourseEnd(View(), txBufs, rxBufs, miso, max, plan, k);
      while rx.len > 0 || tx.len > 0
        invariant k <= |plan| && OnCourse(View(), txBufs, rxBufs, miso, max, plan, k)
        invariant AtEnd(View()) <==> k == |plan|
        invariant events == old(events) + Transfers(plan[..k])
        invariant ret == Success
        invariant forall j: nat :: j < k ==> outcome(j).Moved?
        decreases |plan| - k
      {
        CourseEnd(View(), txBufs, rxBufs, miso, max, plan, k);
        CourseStep(View(), txBufs, rxBufs, miso, max, plan, k);
        var stop, txSize, rxSize;
        ret, stop, txSize, rxSize := StartDma(outcome(k));
        if stop {
          SidesOf(txBufs, rxBufs, miso, clocks, driven, memory);
          return ret, k;
        }
        if outcome(k).WaitError? {
          var part := Part(outcome(k), (txSize, rxSize));
          CoursePart(View(), txBufs, rxBufs, miso, max, plan, k, part.0, part.1);
          MovePart(part, miso);
          return outcome(k).err, k;
        }
        Move((txSize, rxSize), miso);
        TransfersSnoc(plan, k, old(events));
        tx := Updated(tx, txSize);
        rx := Updated(rx, rxSize);
        k := k + 1;
        CourseEnd(View(), txBufs, rxBufs, miso, max, plan, k);
      }
      events := events + [SelectOff];
      CourseEnd(View(), txBufs, rxBufs, miso, max, plan, k);
      SidesOf(txBufs, rxBufs, miso, clocks, driven, memory);
      m := k;
    }

    /** `transceive_dma` once the controller is configured. */
    method RunDma(txBufs: seq<Buf>, rxBufs: seq<Buf>, outcome: nat -> Outcome, miso: nat -> byte)
      returns (ret: Errno, ghost m: nat)
      requires max > 0 && forall k: nat :: Sensible(outcome(k))
      modifies this
      ensures var plan := Plan(Pieces(txBufs), Pieces(rxBufs), max);
              && m == MovedChunks(outcome, |plan|) <= |plan|
              && clocks == Clocks(plan[..m])
              && events == old(events) + Trace(plan, m, [SelectOff])
              && (m == |plan| ==> clocks == Max(Total(txBufs), Total(rxBufs)) && ret == Success)
              && (m < |plan| ==> !outcome(m).Moved? && ret == Result(outcome(m)))
              && var part := if m < |plan| then Part(outcome(m), plan[m]) else (0, 0);
                 Sides(txBufs, rxBufs, miso, Min(clocks, Total(txBufs)) + part.0, Min(clocks, Total(rxBufs)) + part.1,
                       driven, memory)
    {
      hide Stream, Fill, Total, Before, Pieces, Plan, Leading, Rest, Position, FullDuplex, Updated, OnCourse, Chunk, Min,
        Clocked, Fits, Begun, NextChunk, Start, SkipEmpty, Valid, InStep, Sides, Clocks, Part, Trace, Transfers, Result, Sensible;
      SetUp(txBufs, rxBufs);
      CourseStart(txBufs, rxBufs, miso, max);
      ghost var plan := Plan(Pieces(txBufs), Pieces(rxBufs), max);
      events := events + [SelectOn];
      ret, m := DmaLoop(txBufs, rxBufs, outcome, miso, plan);
      LeadingIs((k: nat) => outcome(k).Moved?, 0, m, |plan|);
      TraceOf(old(events), plan, m, [SelectOff]);
    }

    /**
     `transceive_dma`: the same chunks, one by one, up to the first that fails. A chunk that fails ends the
     call with the select line still asserted, and no byte beyond it is moved; the error is returned, except
     that a refusal by `spi_setup_dma_transfer` leaves the return value at 0.
     */
    method TransceiveDma(configured: Errno, txBufs: seq<Buf>, rxBufs: seq<Buf>, outcome: nat -> Outcome, miso: nat -> byte)
      returns (ret: Errno)
      requires max > 0 && forall k: nat :: Sensible(outcome(k))
      modifies this
      ensures configured != Success ==> ret == configured && events == old(events) && memory == old(memory)
      ensures configured == Success ==>
                var plan := Plan(Pieces(txBufs), Pieces(rxBufs), max);
                var m := MovedChunks(outcome, |plan|);
                && m <= |plan|
                && var part := if m < |plan| then Part(outcome(m), plan[m]) else (0, 0);
                && events == old(events) + Trace(plan, m, [SelectOff])
                && clocks == Clocks(plan[..m])
                && Sides(txBufs, rxBufs, miso, Min(clocks, Total(txBufs)) + part.0, Min(clocks, Total(rxBufs)) + part.1,
                         driven, memory)
                && (m == |plan| ==> clocks == Max(Total(txBufs), Total(rxBufs)))
                && ret == (if m == |plan| then Success else Result(outcome(m)))
                && (ret == Success <==> m == |plan| || outcome(m).SetupError?)
    {
      hide Total, Pieces, Plan, Sides, Clocks, Part, Trace, Result, Sensible, MovedChunks, Min, Max;
      if configured != Success {
        return configured;
      }
      ghost var m;
      ret, m := RunDma(txBufs, rxBufs, outcome, miso);
      if !outcome(m).Moved? {
        ResultIff(outcome(m));
      }
    }
  }

  /** Full duplex is both sides at the same number of clocks. */
  lemma SidesOf(tx: seq<Buf>, rx: seq<Buf>, miso: nat -> byte, n: nat, driven: seq<byte>, memory: seq<Buf>)
    requires FullDuplex(tx, rx, miso, n, driven, memory)
    ensures Sides(tx, rx, miso, Min(n, Total(tx)) + 0, Min(n, Total(rx)) + 0, driven, memory)
  {
    hide Sides, Total;
  }

  // ----- Reading a log

  /** The chunks moved in a log. */
  function ChunksOf(log: seq<Event>): seq<(nat, nat)> {
    if log == [] then []
    else
      var rest := ChunksOf(log[..|log| - 1]);
      match log[|log| - 1]
      case Transferred(tx, rx) => rest + [(tx, rx)]
      case _ => rest
  }

  function Count(log: seq<Event>, e: Event): nat {
    if log == [] then 0 else Count(log[..|log| - 1], e) + if log[|log| - 1] == e then 1 else 0
  }

  lemma ReadSnoc(log: seq<Event>, e: Event)
    ensures ChunksOf(log + [e]) == ChunksOf(log) + if e.Transferred? then [(e.tx, e.rx)] else []
    ensures forall f :: Count(log + [e], f) == Count(log, f) + if e == f then 1 else 0
  {
    assert (log + [e])[..|log|] == log;
  }

  lemma {:induction false} ReadTransfers(plan: seq<(nat, nat)>, k: nat)
    requires k <= |plan|
    ensures var log := [SelectOn] + Transfers(plan[..k]);
            ChunksOf(log) == plan[..k] && Count(log, SelectOff) == 0 && Count(log, Completed) == 0
  {
    if k == 0 {
      var none: seq<Event> := [];
      assert none + [SelectOn] == [SelectOn] == [SelectOn] + Transfers(plan[..0]);
      ReadSnoc(none, SelectOn);
    } else {
      ReadTransfers(plan, k - 1);
      TransfersSnoc(plan, k - 1, [SelectOn]);
      ReadSnoc([SelectOn] + Transfers(plan[..k - 1]), Transferred(plan[k - 1].0, plan[k - 1].1));
      assert plan[..k] == plan[..k - 1] + [plan[k - 1]];
    }
  }

  /**
   The two paths leave logs from which a reader finds the same chunks, those of the plan; select-off and
   completion come once exactly if these are all of them, and otherwise not at all.
   */
  lemma PathsAgree(plan: seq<(nat, nat)>, m: nat)
    requires m <= |plan|
    ensures var irq, dma := Trace(plan, m, [SelectOff, Completed]), Trace(plan, m, [SelectOff]);
            && ChunksOf(irq) == ChunksOf(dma) == plan[..m]
            && Count(irq, SelectOff) == Count(dma, SelectOff) == Count(irq, Completed) == if m == |plan| then 1 else 0
  {
    hide ChunksOf, Count;
    ReadTransfers(plan, m);
    var log := [SelectOn] + Transfers(plan[..m]);
    if m == |plan| {
      ReadSnoc(log, SelectOff);
      ReadSnoc(log + [SelectOff], Completed);
      assert log + [SelectOff, Completed] == log + [SelectOff] + [Completed];
    } else {
      assert log + [] == log;
    }
  }

  /** The select line after a log, if the line and the transfers in it are in order: chunks move only while it is asserted. */
  function Selected(log: seq<Event>): Option<bool> {
    if log == [] then Some(false)
    else
      var before := Selected(log[..|log| - 1]);
      if before == None then None
      else match log[|log| - 1]
        case SelectOn => if before.value then None else Some(true)
        case Transferred(_, _) => if before.value then Some(true) else None
        case SelectOff => if before.value then Some(false) else None
        case Completed => if before.value then None else Some(false)
  }

  lemma SelectedSnoc(log: seq<Event>, e: Event)
    ensures Selected(log + [e]) == if Selected(log) == None then None
                                   else match e
                                     case SelectOn => if Selected(log).value then None else Some(true)
                                     case Transferred(_, _) => if Selected(log).value then Some(true) else None
                                     case SelectOff => if Selected(log).value then Some(false) else None
                                     case Completed => if Selected(log).value then None else Some(false)
  {
    assert (log + [e])[..|log|] == log;
  }

  lemma {:induction false} SelectedDuring(plan: seq<(nat, nat)>, k: nat)
    requires k <= |plan|
    ensures Selected([SelectOn] + Transfers(plan[..k])) == Some(true)
  {
    hide Selected;
    if k == 0 {
      var none: seq<Event> := [];
      assert none + [SelectOn] == [SelectOn] == [SelectOn] + Transfers(plan[..0]);
      NotSelected();
      SelectedSnoc(none, SelectOn);
    } else {
      SelectedDuring(plan, k - 1);
      TransfersSnoc(plan, k - 1, [SelectOn]);
      SelectedSnoc([SelectOn] + Transfers(plan[..k - 1]), Transferred(plan[k - 1].0, plan[k - 1].1));
    }
  }

  lemma NotSelected()
    ensures Selected([]) == Some(false)
  {
  }

  /**
   On both paths chunks move only between select-on and select-off, completion comes after select-off, and the
   line is left asserted exactly if a chunk was not moved.
   */
  lemma SelectBrackets(plan: seq<(nat, nat)>, m: nat)
    requires m <= |plan|
    ensures Selected(Trace(plan, m, [SelectOff, Completed])) == Some(m < |plan|)
    ensures Selected(Trace(plan, m, [SelectOff])) == Some(m < |plan|)
  {
    hide Selected;
    SelectedDuring(plan, m);
    var log := [SelectOn] + Transfers(plan[..m]);
    if m == |plan| {
      SelectedSnoc(log, SelectOff);
      SelectedSnoc(log + [SelectOff], Completed);
      assert log + [SelectOff, Completed] == log + [SelectOff] + [Completed];
    } else {
      assert log + [] == log;
    }
  }
}
