/** Scattered SPI buffers: the cursor that walks them, how two walks are cut into chunks, and full duplex. */
module SpiChunks {
  import opened Words

  /** A buffer of a transfer; a null one sends dummy bytes, or drops what is received. */
  datatype Buf = Data(bytes: seq<byte>) | Null(len: nat)

  const DUMMY: byte := 0

  function Len(b: Buf): nat {
    match b
    case Data(bytes) => |bytes|
    case Null(len) => len
  }

  function Total(bufs: seq<Buf>): nat {
    if bufs == [] then 0 else Len(bufs[0]) + Total(bufs[1..])
  }

  /** The number of bytes in the buffers before index `at`. */
  function Before(bufs: seq<Buf>, at: nat): (n: nat)
    requires at <= |bufs|
    ensures n <= Total(bufs)
  {
    if at == 0 then 0 else Len(bufs[0]) + Before(bufs[1..], at - 1)
  }

  lemma {:induction false} BeforeNext(bufs: seq<Buf>, at: nat)
    requires at < |bufs|
    ensures Before(bufs, at + 1) == Before(bufs, at) + Len(bufs[at])
  {
    if at > 0 {
      BeforeNext(bufs[1..], at - 1);
    }
  }

  lemma {:induction false} BeforeEnd(bufs: seq<Buf>)
    ensures Before(bufs, |bufs|) == Total(bufs)
  {
    if bufs != [] {
      BeforeEnd(bufs[1..]);
    }
  }

  function Dummies(n: nat): (r: seq<byte>)
    ensures |r| == n
    ensures forall k :: 0 <= k < n ==> r[k] == DUMMY
  {
    if n == 0 then [] else Dummies(n - 1) + [DUMMY]
  }

  /** What a buffer sends. */
  function Sends(b: Buf): (r: seq<byte>)
    ensures |r| == Len(b)
    ensures b.Null? ==> forall k :: 0 <= k < |r| ==> r[k] == DUMMY
  {
    match b
    case Data(bytes) => bytes
    case Null(len) => Dummies(len)
  }

  function Stream(bufs: seq<Buf>): seq<byte> {
    if bufs == [] then [] else Sends(bufs[0]) + Stream(bufs[1..])
  }

  function Sum(lens: seq<nat>): nat {
    if lens == [] then 0 else lens[0] + Sum(lens[1..])
  }

  /** A buffer whose first bytes have been received. */
  function Store(b: Buf, received: seq<byte>): Buf
    requires |received| <= Len(b)
  {
    match b
    case Data(bytes) => Data(received + bytes[|received|..])
    case Null(_) => b
  }

  /** The buffers after `received` arrived, in order. */
  function Fill(bufs: seq<Buf>, received: seq<byte>): seq<Buf>
    requires |received| <= Total(bufs)
  {
    if bufs == [] then []
    else
      var n := Min(|received|, Len(bufs[0]));
      [Store(bufs[0], received[..n])] + Fill(bufs[1..], received[n..])
  }

  predicate NoNulls(bufs: seq<Buf>) {
    bufs == [] || (bufs[0].Data? && NoNulls(bufs[1..]))
  }

  lemma Glue(first: seq<byte>, rest: seq<byte>, received: seq<byte>, n: nat)
    requires n == Min(|received|, |first|) && |received| <= |first| + |rest|
    ensures received[..n] + first[n..] + (received[n..] + rest[|received| - n..]) == received + (first + rest)[|received|..]
  {
    if n == |first| {
      assert (first + rest)[|received|..] == rest[|received| - n..];
    } else {
      assert (first + rest)[|received|..] == first[n..] + rest;
    }
  }

  /** With no null buffer, position `i` of the buffers holds received byte `i`, and the rest is as it was. */
  lemma {:induction false} FillMeaning(bufs: seq<Buf>, received: seq<byte>)
    requires |received| <= Total(bufs) && NoNulls(bufs)
    ensures |Stream(bufs)| == Total(bufs)
    ensures Stream(Fill(bufs, received)) == received + Stream(bufs)[|received|..]
  {
    StreamLength(bufs);
    if bufs != [] {
      var n := Min(|received|, Len(bufs[0]));
      FillMeaning(bufs[1..], received[n..]);
      var stored, rest := Store(bufs[0], received[..n]), Fill(bufs[1..], received[n..]);
      assert ([stored] + rest)[1..] == rest;
      Glue(bufs[0].bytes, Stream(bufs[1..]), received, n);
    }
  }

  lemma {:induction false} StreamLength(bufs: seq<Buf>)
    ensures |Stream(bufs)| == Total(bufs)
  {
    if bufs != [] {
      StreamLength(bufs[1..]);
    }
  }

  /** The stream around one buffer. */
  lemma {:induction false} StreamAround(bufs: seq<Buf>, at: nat) returns (head: seq<byte>, tail: seq<byte>)
    requires at < |bufs|
    ensures Stream(bufs) == head + Sends(bufs[at]) + tail && |head| == Before(bufs, at)
    decreases at
  {
    if at == 0 {
      head, tail := [], Stream(bufs[1..]);
      assert [] + Sends(bufs[0]) == Sends(bufs[0]);
    } else {
      var h, t := StreamAround(bufs[1..], at - 1);
      head, tail := Sends(bufs[0]) + h, t;
      Regroup(Sends(bufs[0]), h, Sends(bufs[at]), t);
    }
  }

  lemma Regroup(a: seq<byte>, b: seq<byte>, c: seq<byte>, d: seq<byte>)
    ensures a + (b + c + d) == a + b + c + d
  {
  }

  lemma FillAtFirst(bufs: seq<Buf>, received: seq<byte>, more: seq<byte>)
    requires bufs != [] && |received| + |more| <= Len(bufs[0])
    ensures |received + more| <= Total(bufs)
    ensures |Fill(bufs, received)| == |bufs| && Len(Fill(bufs, received)[0]) == Len(bufs[0])
    ensures Fill(bufs, received + more) == Fill(bufs, received)[0 := Write(Fill(bufs, received)[0], |received|, more)]
  {
    FillFirst(bufs, received);
    FillFirst(bufs, received + more);
    StoreMore(bufs[0], received, more);
  }

  /** Storing further bytes at the cursor is filling with them appended. */
  lemma {:induction false} FillAt(bufs: seq<Buf>, received: seq<byte>, at: nat, off: nat, more: seq<byte>)
    requires at < |bufs| && off + |more| <= Len(bufs[at])
    requires |received| == Before(bufs, at) + off
    ensures |received + more| <= Total(bufs)
    ensures |Fill(bufs, received)| == |bufs| && Len(Fill(bufs, received)[at]) == Len(bufs[at])
    ensures Fill(bufs, received + more) == Fill(bufs, received)[at := Write(Fill(bufs, received)[at], off, more)]
    decreases at
  {
    if at == 0 {
      FillAtFirst(bufs, received, more);
    } else {
      var first := Len(bufs[0]);
      var r := received[first..];
      SplitAppended(received, more, first);
      FillAt(bufs[1..], r, at - 1, off, more);
      FillBeyond(bufs, received);
      FillBeyond(bufs, received + more);
      var kept, rest := Store(bufs[0], received[..first]), Fill(bufs[1..], r);
      UpdateBehind(kept, rest, at - 1, Write(rest[at - 1], off, more));
    }
  }

  lemma SplitAppended(received: seq<byte>, more: seq<byte>, n: nat)
    requires n <= |received|
    ensures (received + more)[..n] == received[..n] && (received + more)[n..] == received[n..] + more
  {
  }

  lemma UpdateBehind(a: Buf, x: seq<Buf>, i: nat, w: Buf)
    requires i < |x|
    ensures ([a] + x)[i + 1 := w] == [a] + x[i := w]
  {
  }

  /** Filling past the first buffer. */
  lemma FillBeyond(bufs: seq<Buf>, received: seq<byte>)
    requires bufs != [] && Len(bufs[0]) <= |received| <= Total(bufs)
    ensures |received| - Len(bufs[0]) <= Total(bufs[1..])
    ensures Fill(bufs, received) == [Store(bufs[0], received[..Len(bufs[0])])] + Fill(bufs[1..], received[Len(bufs[0])..])
  {
  }

  lemma FillFirst(bufs: seq<Buf>, received: seq<byte>)
    requires bufs != [] && |received| <= Len(bufs[0]) && |received| <= Total(bufs)
    ensures Fill(bufs, received) == bufs[0 := Store(bufs[0], received)]
  {
    assert received[..|received|] == received && received[|received|..] == [];
    FillNothing(bufs[1..]);
  }

  lemma StoreMore(b: Buf, received: seq<byte>, more: seq<byte>)
    requires |received| + |more| <= Len(b)
    ensures Len(Store(b, received)) == Len(b)
    ensures Write(Store(b, received), |received|, more) == Store(b, received + more)
  {
    if b.Data? {
      var stored := received + b.bytes[|received|..];
      assert stored[..|received|] == received;
      assert stored[|received| + |more|..] == b.bytes[|received| + |more|..];
    }
  }

  lemma {:induction false} FillNothing(bufs: seq<Buf>)
    ensures Fill(bufs, []) == bufs
  {
    if bufs != [] {
      var none: seq<byte> := [];
      assert none[..0] == none && none[0..] == none;
      assert Store(bufs[0], none) == bufs[0] by {
        if bufs[0].Data? {
          assert none + bufs[0].bytes[0..] == bufs[0].bytes;
        }
      }
      FillNothing(bufs[1..]);
    }
  }

  /** Writing into a buffer at an offset; a null buffer takes nothing. */
  function Write(b: Buf, off: nat, bytes: seq<byte>): (r: Buf)
    requires off + |bytes| <= Len(b)
    ensures Len(r) == Len(b)
  {
    match b
    case Data(old_) => Data(old_[..off] + bytes + old_[off + |bytes|..])
    case Null(_) => b
  }

  // ----- Cutting two walks into chunks

  /** What is left of a walk: the lengths of the non-empty pieces to come. */
  function Pieces(bufs: seq<Buf>): (r: seq<nat>)
    ensures forall k :: 0 <= k < |r| ==> r[k] > 0
    ensures Sum(r) == Total(bufs)
  {
    if bufs == [] then []
    else if Len(bufs[0]) == 0 then Pieces(bufs[1..])
    else
      var r := [Len(bufs[0])] + Pieces(bufs[1..]);
      assert r[1..] == Pieces(bufs[1..]);
      r
  }

  predicate Positive(rest: seq<nat>) {
    forall k :: 0 <= k < |rest| ==> rest[k] > 0
  }

  function Head(rest: seq<nat>): nat {
    if rest == [] then 0 else rest[0]
  }

  /** A walk after `n` bytes of its first piece. */
  function Drop(rest: seq<nat>, n: nat): (r: seq<nat>)
    requires Positive(rest) && n <= Head(rest)
    ensures Positive(r) && Sum(r) == Sum(rest) - n
  {
    if n == 0 then rest
    else if n == rest[0] then rest[1..]
    else
      var r := [rest[0] - n] + rest[1..];
      assert r[1..] == rest[1..];
      r
  }

  /**
   The sizes of one chunk, from the lengths of the two current pieces: as much as both have, or as the one
   that is left has, and never more than the hardware maximum.
   */
  function Chunk(tx: nat, rx: nat, max: nat): (nat, nat) {
    if tx == 0 then (0, Min(rx, max))
    else if rx == 0 then (Min(tx, max), 0)
    else (Min(Min(tx, rx), max), Min(Min(tx, rx), max))
  }

  /** The chunks of two walks. */
  function Plan(tx: seq<nat>, rx: seq<nat>, max: nat): seq<(nat, nat)>
    requires Positive(tx) && Positive(rx) && max > 0
    decreases Sum(tx) + Sum(rx)
  {
    if tx == [] && rx == [] then []
    else
      var c := Chunk(Head(tx), Head(rx), max);
      [c] + Plan(Drop(tx, c.0), Drop(rx, c.1), max)
  }

  function Clocks(chunks: seq<(nat, nat)>): nat {
    if chunks == [] then 0 else Max(chunks[0].0, chunks[0].1) + Clocks(chunks[1..])
  }

  lemma {:induction false} ClocksSnoc(chunks: seq<(nat, nat)>, k: nat)
    requires k < |chunks|
    ensures Clocks(chunks[..k + 1]) == Clocks(chunks[..k]) + Max(chunks[k].0, chunks[k].1)
  {
    var front := chunks[..k + 1];
    if k == 0 {
      assert chunks[..1] == [chunks[0]] && chunks[..0] == [];
    } else {
      ClocksSnoc(chunks[1..], k - 1);
      assert front[1..] == chunks[1..][..k] && chunks[..k][1..] == chunks[1..][..k - 1];
    }
  }

  /** A chunk sends and receives in step, or only one side is left. */
  predicate RightChunk(c: (nat, nat), max: nat) {
    0 < Max(c.0, c.1) <= max && (c.0 == c.1 || c.0 == 0 || c.1 == 0)
  }

  /** Every chunk fits the hardware, and together they take as many clocks as the longer side has bytes. */
  lemma {:induction false} PlanMeaning(tx: seq<nat>, rx: seq<nat>, max: nat)
    requires Positive(tx) && Positive(rx) && max > 0
    ensures forall k :: 0 <= k < |Plan(tx, rx, max)| ==> RightChunk(Plan(tx, rx, max)[k], max)
    ensures Clocks(Plan(tx, rx, max)) == Max(Sum(tx), Sum(rx))
    decreases Sum(tx) + Sum(rx)
  {
    if tx != [] || rx != [] {
      var c := Chunk(Head(tx), Head(rx), max);
      var later := Plan(Drop(tx, c.0), Drop(rx, c.1), max);
      PlanMeaning(Drop(tx, c.0), Drop(rx, c.1), max);
      assert Plan(tx, rx, max) == [c] + later && ([c] + later)[1..] == later;
      hide Plan, Chunk, Sum, Head;
      HeadOfSum(tx);
      HeadOfSum(rx);
      ChunkClocks(Head(tx), Head(rx), Sum(tx), Sum(rx), max);
    }
  }

  lemma HeadOfSum(rest: seq<nat>)
    requires Positive(rest)
    ensures Head(rest) <= Sum(rest) && (Head(rest) == 0 <==> rest == []) && (rest == [] ==> Sum(rest) == 0)
  {
  }

  /** A chunk of the first pieces of two walks of `a` and `b` bytes takes its clocks off the longer one. */
  lemma ChunkClocks(tx: nat, rx: nat, a: nat, b: nat, max: nat)
    requires max > 0 && tx <= a && rx <= b && (tx == 0 ==> a == 0) && (rx == 0 ==> b == 0) && (tx > 0 || rx > 0)
    ensures var c := Chunk(tx, rx, max);
            RightChunk(c, max) && Max(c.0, c.1) + Max(a - c.0, b - c.1) == Max(a, b)
  {
  }

  /** So many bytes end a piece of the walk, or are none. */
  predicate Boundary(rest: seq<nat>, n: nat) {
    n == 0 || (rest != [] && n >= rest[0] && Boundary(rest[1..], n - rest[0]))
  }

  lemma NoBoundaryInside(rest: seq<nat>, n: nat)
    requires 0 < n && (rest != [] ==> n < rest[0])
    ensures !Boundary(rest, n)
  {
  }

  lemma HeadIsBoundary(rest: seq<nat>)
    requires rest != []
    ensures Boundary(rest, rest[0])
  {
  }

  lemma BoundaryBehind(rest: seq<nat>, d: nat, n: nat)
    requires Positive(rest) && d <= Head(rest) && n > 0
    ensures Boundary(Drop(rest, d), n) <==> Boundary(rest, d + n)
  {
    if 0 < d < Head(rest) {
      assert Drop(rest, d)[1..] == rest[1..];
    }
  }

  /** A chunk takes its clocks off each side that has bytes left. */
  lemma ChunkSides(tx: seq<nat>, rx: seq<nat>, max: nat)
    requires Positive(tx) && Positive(rx) && max > 0 && (tx != [] || rx != [])
    ensures var c := Chunk(Head(tx), Head(rx), max);
            && 0 < Max(c.0, c.1) <= max
            && c.0 == (if tx == [] then 0 else Max(c.0, c.1)) && c.0 <= Head(tx)
            && c.1 == (if rx == [] then 0 else Max(c.0, c.1)) && c.1 <= Head(rx)
            && (Max(c.0, c.1) == max || (tx != [] && c.0 == Head(tx)) || (rx != [] && c.1 == Head(rx)))
  {
  }

  /** One side of a plan behind its first chunk of `clocks`, `d` of them with bytes of this side. */
  lemma SideBehind(rest: seq<nat>, d: nat, clocks: nat)
    requires Positive(rest) && d <= Head(rest) && d == (if rest == [] then 0 else clocks)
    ensures rest == [] ==> Sum(rest) == 0 && Sum(Drop(rest, d)) == 0
    ensures rest != [] ==> Sum(Drop(rest, d)) == Sum(rest) - clocks
    ensures forall n: nat :: n > 0 ==> (Boundary(Drop(rest, d), n) <==> Boundary(rest, clocks + n))
  {
    HeadOfSum(rest);
    forall n: nat | n > 0
      ensures Boundary(Drop(rest, d), n) <==> Boundary(rest, clocks + n)
    {
      BoundaryBehind(rest, d, n);
    }
  }

  lemma FirstIsLargest(tx: seq<nat>, rx: seq<nat>, max: nat)
    requires Positive(tx) && Positive(rx) && max > 0 && (tx != [] || rx != [])
    ensures var c := Chunk(Head(tx), Head(rx), max);
            var m := Max(c.0, c.1);
            && c.0 == (if 0 < Sum(tx) then m else 0) && c.1 == (if 0 < Sum(rx) then m else 0)
            && 0 < m <= max
            && (m == max || Boundary(tx, m) || Boundary(rx, m))
            && forall i: nat :: 0 < i < m ==> !Boundary(tx, i) && !Boundary(rx, i)
  {
    hide Chunk, Boundary, Sum;
    ChunkSides(tx, rx, max);
    HeadOfSum(tx);
    HeadOfSum(rx);
    var c := Chunk(Head(tx), Head(rx), max);
    if tx != [] {
      HeadIsBoundary(tx);
    }
    if rx != [] {
      HeadIsBoundary(rx);
    }
    forall i: nat | 0 < i < Max(c.0, c.1)
      ensures !Boundary(tx, i) && !Boundary(rx, i)
    {
      NoBoundaryInside(tx, i);
      NoBoundaryInside(rx, i);
    }
  }

  /**
   The chunks of a plan are the largest there can be. A chunk from `n` to `m` clocks moves that many bytes on each
   side that has bytes left; no buffer ends inside it; and at its end a buffer does, or it has the maximum.
   */
  lemma {:induction false} ChunksAreLargest(tx: seq<nat>, rx: seq<nat>, max: nat, k: nat)
    requires Positive(tx) && Positive(rx) && max > 0 && k < |Plan(tx, rx, max)|
    ensures var c, n := Plan(tx, rx, max)[k], Clocks(Plan(tx, rx, max)[..k]);
            var m := n + Max(c.0, c.1);
            && c.0 == (if n < Sum(tx) then m - n else 0) && c.1 == (if n < Sum(rx) then m - n else 0)
            && n < m <= n + max
            && (m == n + max || Boundary(tx, m) || Boundary(rx, m))
            && forall i: nat :: n < i < m ==> !Boundary(tx, i) && !Boundary(rx, i)
    decreases k
  {
    hide Clocks, Drop, Chunk, Boundary, Plan, Sum, Head;
    PlanUnfolds(tx, rx, max);
    ChunkSides(tx, rx, max);
    var c := Chunk(Head(tx), Head(rx), max);
    var later := Plan(Drop(tx, c.0), Drop(rx, c.1), max);
    if k == 0 {
      assert Plan(tx, rx, max)[..0] == [];
      NoClocks();
      FirstIsLargest(tx, rx, max);
    } else {
      ChunksAreLargest(Drop(tx, c.0), Drop(rx, c.1), max, k - 1);
      assert ([c] + later)[..k] == [c] + later[..k - 1];
      ClocksCons(c, later[..k - 1]);
      SideBehind(tx, c.0, Max(c.0, c.1));
      SideBehind(rx, c.1, Max(c.0, c.1));
      var first, n := Max(c.0, c.1), Clocks(later[..k - 1]);
      var m := n + Max(later[k - 1].0, later[k - 1].1);
      forall i: nat | first + n < i < first + m
        ensures !Boundary(tx, i) && !Boundary(rx, i)
      {
        var j := i - first;
        assert !Boundary(Drop(tx, c.0), j) && !Boundary(Drop(rx, c.1), j);
        assert i == first + j;
      }
    }
  }

  lemma PlanUnfolds(tx: seq<nat>, rx: seq<nat>, max: nat)
    requires Positive(tx) && Positive(rx) && max > 0 && Plan(tx, rx, max) != []
    ensures tx != [] || rx != []
    ensures var c := Chunk(Head(tx), Head(rx), max);
            && c.0 <= Head(tx) && c.1 <= Head(rx)
            && Plan(tx, rx, max) == [c] + Plan(Drop(tx, c.0), Drop(rx, c.1), max)
  {
  }

  lemma NoClocks()
    ensures Clocks([]) == 0
  {
  }

  lemma ClocksCons(c: (nat, nat), later: seq<(nat, nat)>)
    ensures Clocks([c] + later) == Max(c.0, c.1) + Clocks(later)
  {
    assert ([c] + later)[1..] == later;
  }
}
