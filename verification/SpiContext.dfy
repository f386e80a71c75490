/** The SPI context that walks the buffers of a transfer, and the full-duplex specification. */
module SpiContext {
  import opened Words
  import opened SpiChunks

  /**
   One direction: the current buffer, the offset in it and the length left of it. The current buffer is
   never an empty one, so the length is 0 only at the end.
   */
  datatype Cursor = Cursor(bufs: seq<Buf>, at: nat, off: nat, len: nat)

  ghost predicate Valid(c: Cursor) {
    && c.at <= |c.bufs|
    && (c.at == |c.bufs| ==> c.off == 0 && c.len == 0)
    && (c.at < |c.bufs| ==> c.off + c.len == Len(c.bufs[c.at]) && c.len > 0)
  }

  /** How many bytes the walk has passed. */
  function Position(c: Cursor): nat
    requires Valid(c)
  {
    Before(c.bufs, c.at) + c.off
  }

  function Rest(c: Cursor): (r: seq<nat>)
    requires Valid(c)
    ensures Positive(r) && Head(r) == c.len
  {
    if c.at == |c.bufs| then [] else [c.len] + Pieces(c.bufs[c.at + 1..])
  }

  /** The cursor at the first buffer from `at` on that is not empty. */
  function SkipEmpty(bufs: seq<Buf>, at: nat): (c: Cursor)
    requires at <= |bufs|
    ensures Valid(c) && c.bufs == bufs && c.off == 0
    ensures Position(c) == Before(bufs, at)
    ensures Rest(c) == Pieces(bufs[at..])
    decreases |bufs| - at
  {
    if at == |bufs| then Cursor(bufs, at, 0, 0)
    else
      assert bufs[at..][1..] == bufs[at + 1..];
      if Len(bufs[at]) == 0 then
        BeforeNext(bufs, at);
        SkipEmpty(bufs, at + 1)
      else Cursor(bufs, at, 0, Len(bufs[at]))
  }

  /** `spi_context_buffers_setup`, for one direction. */
  function Start(bufs: seq<Buf>): (c: Cursor)
    ensures Valid(c) && c.bufs == bufs && Position(c) == 0 && Rest(c) == Pieces(bufs)
  {
    SkipEmpty(bufs, 0)
  }

  /** The cursor past the rest of the current buffer. */
  function NextBuffer(c: Cursor): (r: Cursor)
    requires Valid(c) && c.len > 0
    ensures Valid(r) && r.bufs == c.bufs
    ensures Position(r) == Position(c) + c.len && Rest(r) == Rest(c)[1..]
  {
    BeforeNext(c.bufs, c.at);
    assert Rest(c)[1..] == Pieces(c.bufs[c.at + 1..]);
    SkipEmpty(c.bufs, c.at + 1)
  }

  /** The cursor further on in the current buffer. */
  function Within(c: Cursor, n: nat): (r: Cursor)
    requires Valid(c) && 0 < n < c.len
    ensures Valid(r) && r.bufs == c.bufs
    ensures Position(r) == Position(c) + n && Rest(r) == [c.len - n] + Rest(c)[1..]
  {
    assert Rest(c)[1..] == Pieces(c.bufs[c.at + 1..]);
    c.(off := c.off + n, len := c.len - n)
  }

  /** `spi_context_update_tx` and `_rx`: nothing at the end, and nothing beyond the current buffer. */
  function Updated(c: Cursor, n: nat): (r: Cursor)
    requires Valid(c)
    ensures Valid(r) && r.bufs == c.bufs
    ensures n <= c.len ==> Position(r) == Position(c) + n && Rest(r) == Drop(Rest(c), n)
    ensures n > c.len ==> r == c
  {
    if c.len == 0 || n > c.len || n == 0 then c
    else if n == c.len then NextBuffer(c)
    else Within(c, n)
  }

  lemma Bounds(c: Cursor)
    requires Valid(c)
    ensures Position(c) + c.len <= Total(c.bufs)
    ensures c.len == 0 <==> Position(c) == Total(c.bufs)
  {
    if c.at == |c.bufs| {
      BeforeEnd(c.bufs);
    } else {
      BeforeNext(c.bufs, c.at);
    }
  }

  /** The bytes the slave answers from clock `from` on. */
  function Slice(miso: nat -> byte, from: nat, n: nat): (r: seq<byte>)
    ensures |r| == n
    ensures forall k :: 0 <= k < n ==> r[k] == miso(from + k)
  {
    seq<byte>(n, k requires 0 <= k < n => miso(from + k))
  }

  function Received(miso: nat -> byte, n: nat): (r: seq<byte>)
    ensures |r| == n
  {
    Slice(miso, 0, n)
  }

  lemma ReceivedMore(miso: nat -> byte, n: nat, m: nat)
    ensures Received(miso, n + m) == Received(miso, n) + Slice(miso, n, m)
  {
  }

  /** The first `a` bytes of the buffers to send have been driven, and the first `b` answers are in the others. */
  ghost predicate Sides(tx: seq<Buf>, rx: seq<Buf>, miso: nat -> byte, a: nat, b: nat, driven: seq<byte>, memory: seq<Buf>) {
    && |Stream(tx)| == Total(tx)
    && a <= Total(tx) && b <= Total(rx)
    && driven <= Stream(tx) && |driven| == a
    && memory == Fill(rx, Received(miso, b))
  }

  /**
   The specification of a transfer after `n` clocks: the first `n` bytes of the buffers to send have been
   driven, or all of them, and the first `n` bytes the slave answered are in the receive buffers.
   */
  ghost predicate FullDuplex(tx: seq<Buf>, rx: seq<Buf>, miso: nat -> byte, n: nat, driven: seq<byte>, memory: seq<Buf>) {
    && n <= Max(Total(tx), Total(rx))
    && Sides(tx, rx, miso, Min(n, Total(tx)), Min(n, Total(rx)), driven, memory)
  }

  lemma DuplexStart(tx: seq<Buf>, rx: seq<Buf>, miso: nat -> byte)
    ensures FullDuplex(tx, rx, miso, 0, [], rx)
  {
    StreamLength(tx);
    FillNothing(rx);
  }

  /** The next `n` bytes from the cursor's place. */
  function Sent(tx: seq<Buf>, at: nat, off: nat, n: nat): seq<byte>
    requires n > 0 ==> at < |tx| && off + n <= Len(tx[at])
  {
    if n == 0 then [] else Sends(tx[at])[off..off + n]
  }

  lemma DriveMore(tx: seq<Buf>, at: nat, off: nat, n: nat, driven: seq<byte>)
    requires at <= |tx| && (n > 0 ==> at < |tx| && off + n <= Len(tx[at]))
    requires driven <= Stream(tx) && |driven| == Before(tx, at) + off
    ensures driven + Sent(tx, at, off, n) <= Stream(tx) && |driven + Sent(tx, at, off, n)| == |driven| + n
  {
    if n > 0 {
      var head, tail := StreamAround(tx, at);
      PrefixMore(driven, head, Sends(tx[at]), tail, off, n);
    } else {
      assert driven + Sent(tx, at, off, n) == driven;
    }
  }

  lemma PrefixMore(s: seq<byte>, head: seq<byte>, here: seq<byte>, tail: seq<byte>, off: nat, n: nat)
    requires s <= head + here + tail && |s| == |head| + off && off + n <= |here|
    ensures s + here[off..off + n] <= head + here + tail
  {
  }

  /** Memory after bytes arrived at the cursor's place. */
  function Stored(memory: seq<Buf>, at: nat, off: nat, bytes: seq<byte>): seq<Buf>
    requires bytes != [] ==> at < |memory| && off + |bytes| <= Len(memory[at])
  {
    if bytes == [] then memory else memory[at := Write(memory[at], off, bytes)]
  }

  lemma StoreMoreAt(rx: seq<Buf>, miso: nat -> byte, at: nat, off: nat, n: nat)
    requires at <= |rx| && (n > 0 ==> at < |rx| && off + n <= Len(rx[at]))
    requires Before(rx, at) + off <= Total(rx)
    ensures var p, memory := Before(rx, at) + off, Fill(rx, Received(miso, Before(rx, at) + off));
            && p + n <= Total(rx)
            && (n > 0 ==> at < |memory| && off + n <= Len(memory[at]))
            && Stored(memory, at, off, Slice(miso, p, n)) == Fill(rx, Received(miso, p + n))
  {
    if n > 0 {
      BeforeNext(rx, at);
      ReceivedMore(miso, Before(rx, at) + off, n);
      FillAt(rx, Received(miso, Before(rx, at) + off), at, off, Slice(miso, Before(rx, at) + off, n));
    }
  }

  /** A chunk takes both sides from where `n` clocks put them to where the chunk's clocks later put them. */
  lemma ChunkKeepsStep(n: nat, txTotal: nat, rxTotal: nat, txLen: nat, rxLen: nat, max: nat)
    requires max > 0 && (txLen > 0 || rxLen > 0)
    requires Min(n, txTotal) + txLen <= txTotal && (txLen == 0 <==> Min(n, txTotal) == txTotal)
    requires Min(n, rxTotal) + rxLen <= rxTotal && (rxLen == 0 <==> Min(n, rxTotal) == rxTotal)
    ensures var c := Chunk(txLen, rxLen, max);
            var m := n + Max(c.0, c.1);
            && c.0 <= txLen && c.1 <= rxLen && m > n
            && Min(n, txTotal) + c.0 == Min(m, txTotal)
            && Min(n, rxTotal) + c.1 == Min(m, rxTotal)
            && m <= Max(txTotal, rxTotal)
            && (c.1 > 0 ==> Min(n, rxTotal) == n)
  {
  }

  /** The cursors stand where `n` clocks take them. */
  ghost predicate InStep(tx: Cursor, rx: Cursor, n: nat) {
    && Valid(tx) && Valid(rx)
    && Position(tx) == Min(n, Total(tx.bufs))
    && Position(rx) == Min(n, Total(rx.bufs))
  }

  /** The sizes of a chunk and the cursors after their updates, whichever size the updates are given. */
  lemma ChunkCursors(tx: Cursor, rx: Cursor, n: nat, max: nat)
    requires max > 0 && InStep(tx, rx, n) && (tx.len > 0 || rx.len > 0)
    ensures var c := Chunk(tx.len, rx.len, max);
            var m := n + Max(c.0, c.1);
            && c.0 <= tx.len && c.1 <= rx.len && n < m <= Max(Total(tx.bufs), Total(rx.bufs))
            && InStep(Updated(tx, c.0), Updated(rx, c.1), m)
            && Updated(tx, Max(c.0, c.1)) == Updated(tx, c.0)
            && Updated(rx, Max(c.0, c.1)) == Updated(rx, c.1)
  {
    Bounds(tx);
    Bounds(rx);
    ChunkKeepsStep(n, Total(tx.bufs), Total(rx.bufs), tx.len, rx.len, max);
  }

  /** Some bytes of a chunk, or all of them, are the next ones of each side. */
  lemma PartMoves(tx: Cursor, rx: Cursor, miso: nat -> byte, n: nat, driven: seq<byte>, memory: seq<Buf>, max: nat,
                  a: nat, b: nat)
    requires max > 0 && InStep(tx, rx, n) && (tx.len > 0 || rx.len > 0)
    requires FullDuplex(tx.bufs, rx.bufs, miso, n, driven, memory)
    requires a <= Chunk(tx.len, rx.len, max).0 && b <= Chunk(tx.len, rx.len, max).1
    ensures (a > 0 ==> tx.at < |tx.bufs| && tx.off + a <= Len(tx.bufs[tx.at]))
    ensures (b > 0 ==> rx.at < |memory| && rx.off + b <= Len(memory[rx.at]))
    ensures Sides(tx.bufs, rx.bufs, miso, Min(n, Total(tx.bufs)) + a, Min(n, Total(rx.bufs)) + b,
                  driven + Sent(tx.bufs, tx.at, tx.off, a), Stored(memory, rx.at, rx.off, Slice(miso, n, b)))
  {
    hide Stream, Fill, Total, Before;
    Bounds(tx);
    Bounds(rx);
    ChunkKeepsStep(n, Total(tx.bufs), Total(rx.bufs), tx.len, rx.len, max);
    DriveMore(tx.bufs, tx.at, tx.off, a, driven);
    StoreMoreAt(rx.bufs, miso, rx.at, rx.off, b);
    if b == 0 {
      assert Slice(miso, n, 0) == Slice(miso, Position(rx), 0);
    }
  }

  /** The bytes one chunk moves take a full-duplex transfer from `n` clocks to its end. */
  lemma ChunkMoves(tx: Cursor, rx: Cursor, miso: nat -> byte, n: nat, driven: seq<byte>, memory: seq<Buf>, max: nat)
    requires max > 0 && InStep(tx, rx, n) && (tx.len > 0 || rx.len > 0)
    requires FullDuplex(tx.bufs, rx.bufs, miso, n, driven, memory)
    ensures var c := Chunk(tx.len, rx.len, max);
            && (c.0 > 0 ==> tx.at < |tx.bufs| && tx.off + c.0 <= Len(tx.bufs[tx.at]))
            && (c.1 > 0 ==> rx.at < |memory| && rx.off + c.1 <= Len(memory[rx.at]))
            && FullDuplex(tx.bufs, rx.bufs, miso, n + Max(c.0, c.1),
                          driven + Sent(tx.bufs, tx.at, tx.off, c.0),
                          Stored(memory, rx.at, rx.off, Slice(miso, n, c.1)))
  {
    hide Stream, Fill, Total, Before, Sides;
    var c := Chunk(tx.len, rx.len, max);
    Bounds(tx);
    Bounds(rx);
    ChunkKeepsStep(n, Total(tx.bufs), Total(rx.bufs), tx.len, rx.len, max);
    PartMoves(tx, rx, miso, n, driven, memory, max, c.0, c.1);
  }

  // ----- A transfer on its way

  /** A transfer: where the cursors stand, and what the wires and the receive buffers saw. */
  datatype Transfer = Transfer(tx: Cursor, rx: Cursor, clocks: nat, driven: seq<byte>, memory: seq<Buf>)

  function Begun(txBufs: seq<Buf>, rxBufs: seq<Buf>): Transfer {
    Transfer(Start(txBufs), Start(rxBufs), 0, [], rxBufs)
  }

  predicate AtEnd(t: Transfer) {
    t.tx.len == 0 && t.rx.len == 0
  }

  /** The sizes the driver chooses next. */
  function NextChunk(t: Transfer, max: nat): (nat, nat) {
    Chunk(t.tx.len, t.rx.len, max)
  }

  predicate Fits(t: Transfer, c: (nat, nat)) {
    && (c.0 > 0 ==> t.tx.at < |t.tx.bufs| && t.tx.off + c.0 <= Len(t.tx.bufs[t.tx.at]))
    && (c.1 > 0 ==> t.rx.at < |t.memory| && t.rx.off + c.1 <= Len(t.memory[t.rx.at]))
  }

  /** The controller moved a chunk; the cursors are not updated yet. */
  function Clocked(t: Transfer, c: (nat, nat), miso: nat -> byte): Transfer
    requires Fits(t, c)
  {
    t.(clocks := t.clocks + Max(c.0, c.1),
       driven := t.driven + Sent(t.tx.bufs, t.tx.at, t.tx.off, c.0),
       memory := Stored(t.memory, t.rx.at, t.rx.off, Slice(miso, t.clocks, c.1)))
  }

  /** After `k` chunks of the plan for these buffers, as full duplex wants it. */
  ghost predicate OnCourse(t: Transfer, txBufs: seq<Buf>, rxBufs: seq<Buf>, miso: nat -> byte, max: nat,
                           plan: seq<(nat, nat)>, k: nat) {
    && max > 0 && k <= |plan|
    && t.tx.bufs == txBufs && t.rx.bufs == rxBufs
    && InStep(t.tx, t.rx, t.clocks)
    && FullDuplex(txBufs, rxBufs, miso, t.clocks, t.driven, t.memory)
    && t.clocks == Clocks(plan[..k])
    && Plan(Rest(t.tx), Rest(t.rx), max) == plan[k..]
  }

  lemma CourseStart(txBufs: seq<Buf>, rxBufs: seq<Buf>, miso: nat -> byte, max: nat)
    requires max > 0
    ensures OnCourse(Begun(txBufs, rxBufs), txBufs, rxBufs, miso, max, Plan(Pieces(txBufs), Pieces(rxBufs), max), 0)
  {
    hide Stream, Fill, Before, Pieces, Plan, Rest, Total;
    DuplexStart(txBufs, rxBufs, miso);
    var plan := Plan(Pieces(txBufs), Pieces(rxBufs), max);
    assert plan[0..] == plan && plan[..0] == [];
  }

  lemma CourseEnd(t: Transfer, txBufs: seq<Buf>, rxBufs: seq<Buf>, miso: nat -> byte, max: nat,
                  plan: seq<(nat, nat)>, k: nat)
    requires OnCourse(t, txBufs, rxBufs, miso, max, plan, k)
    ensures AtEnd(t) <==> k == |plan|
    ensures AtEnd(t) ==> t.clocks == Max(Total(txBufs), Total(rxBufs))
    ensures t.clocks == Clocks(plan[..k])
    ensures FullDuplex(txBufs, rxBufs, miso, t.clocks, t.driven, t.memory)
  {
    hide Stream, Fill, Before, Total;
    Bounds(t.tx);
    Bounds(t.rx);
  }

  /** The next chunk is the plan's, it fits the current buffers, and it keeps the transfer on course. */
  lemma CourseStep(t: Transfer, txBufs: seq<Buf>, rxBufs: seq<Buf>, miso: nat -> byte, max: nat,
                   plan: seq<(nat, nat)>, k: nat)
    requires OnCourse(t, txBufs, rxBufs, miso, max, plan, k) && k < |plan|
    ensures var c := NextChunk(t, max);
            && c == plan[k] && Fits(t, c) && Valid(t.tx) && Valid(t.rx)
            && Updated(t.tx, Max(c.0, c.1)) == Updated(t.tx, c.0)
            && Updated(t.rx, Max(c.0, c.1)) == Updated(t.rx, c.1)
            && OnCourse(Clocked(t, c, miso).(tx := Updated(t.tx, c.0), rx := Updated(t.rx, c.1)),
                        txBufs, rxBufs, miso, max, plan, k + 1)
  {
    hide Stream, Fill, Before, Total, Plan, Rest, Position, Updated, Clocks, FullDuplex, Chunk, Sent, Stored, Slice;
    ClocksSnoc(plan, k);
    PlanStep(t.tx, t.rx, max, plan[k..]);
    ChunkCursors(t.tx, t.rx, t.clocks, max);
    ChunkMoves(t.tx, t.rx, miso, t.clocks, t.driven, t.memory, max);
    assert plan[k..][1..] == plan[k + 1..];
  }

  /** Part of the next chunk, without the rest: each side is so many bytes further. */
  lemma CoursePart(t: Transfer, txBufs: seq<Buf>, rxBufs: seq<Buf>, miso: nat -> byte, max: nat,
                   plan: seq<(nat, nat)>, k: nat, a: nat, b: nat)
    requires OnCourse(t, txBufs, rxBufs, miso, max, plan, k) && k < |plan|
    requires a <= plan[k].0 && b <= plan[k].1
    ensures Fits(t, (a, b))
    ensures Sides(txBufs, rxBufs, miso, Min(t.clocks, Total(txBufs)) + a, Min(t.clocks, Total(rxBufs)) + b,
                  Clocked(t, (a, b), miso).driven, Clocked(t, (a, b), miso).memory)
  {
    hide Stream, Fill, Before, Total, Plan, Rest, Position, Clocks, Sides, FullDuplex, Chunk, Updated;
    InStepValid(t.tx, t.rx, t.clocks);
    PlanStep(t.tx, t.rx, max, plan[k..]);
    PartMoves(t.tx, t.rx, miso, t.clocks, t.driven, t.memory, max, a, b);
  }

  lemma InStepValid(tx: Cursor, rx: Cursor, n: nat)
    requires InStep(tx, rx, n)
    ensures Valid(tx) && Valid(rx)
  {
  }

  lemma PlanStep(tx: Cursor, rx: Cursor, max: nat, rest: seq<(nat, nat)>)
    requires max > 0 && Valid(tx) && Valid(rx) && rest != []
    requires rest == Plan(Rest(tx), Rest(rx), max)
    ensures var c := Chunk(tx.len, rx.len, max);
            && (tx.len > 0 || rx.len > 0) && c.0 <= tx.len && c.1 <= rx.len
            && rest[0] == c
            && rest[1..] == Plan(Rest(Updated(tx, c.0)), Rest(Updated(rx, c.1)), max)
  {
  }

  /**
   A complete transfer is full duplex: every byte of the buffers to send was driven, in order, and position
   `i` of the receive buffers holds the slave's answer to clock `i`.
   */
  lemma CompleteTransfer(tx: seq<Buf>, rx: seq<Buf>, miso: nat -> byte, driven: seq<byte>, memory: seq<Buf>)
    requires FullDuplex(tx, rx, miso, Max(Total(tx), Total(rx)), driven, memory)
    ensures driven == Stream(tx)
    ensures NoNulls(rx) ==> Stream(memory) == Received(miso, Total(rx))
  {
    if NoNulls(rx) {
      FillMeaning(rx, Received(miso, Total(rx)));
      assert Stream(rx)[Total(rx)..] == [];
    }
  }
}
