/** Writing a rectangle to the frame buffer, the cache lines written back, and the buffer's alignment. */
module Display {
  import opened Words

  /** The size of a cache line, which is also the alignment of the frame buffer. */
  const LINE: nat := 64

  function RoundUp(n: nat): (r: nat)
    ensures n <= r < n + LINE && r % LINE == 0
  {
    (n + LINE - 1) / LINE * LINE
  }

  function RoundDown(n: nat): (r: nat)
    ensures n - LINE < r <= n && r % LINE == 0 && n == r + n % LINE
  {
    n / LINE * LINE
  }

  /** Lines of `stride` bytes: `rows` pieces of `width` bytes, at one place in each line, lie inside. */
  predicate Room(at: nat, stride: nat, width: nat, rows: nat, length: nat)
    decreases rows
  {
    rows == 0 || (at + width <= length && Room(at + stride, stride, width, rows - 1, length))
  }

  /** Memory after a copy of `bytes` to an offset. */
  function Copied(mem: seq<byte>, at: nat, bytes: seq<byte>): (r: seq<byte>)
    requires at + |bytes| <= |mem|
    ensures |r| == |mem|
  {
    mem[..at] + bytes + mem[at + |bytes|..]
  }

  /** Memory after `rows` copies of `width` bytes, from source lines of `pitch` to frame lines of `stride` bytes. */
  function Rows(mem: seq<byte>, src: seq<byte>, at: nat, from: nat, stride: nat, pitch: nat, width: nat, rows: nat)
    : (r: seq<byte>)
    requires Room(at, stride, width, rows, |mem|) && Room(from, pitch, width, rows, |src|)
    ensures |r| == |mem|
    decreases rows
  {
    if rows == 0 then mem
    else Rows(Copied(mem, at, src[from..from + width]), src, at + stride, from + pitch, stride, pitch, width, rows - 1)
  }

  class Panel {
    // the frame buffer, and where it starts in memory
    const frame: array<byte>
    var buf: nat
    var alignedBuf: nat
    var strideInByte: nat
    const bits: nat
    const hactive: u16
    const vactive: u16

    constructor (frame: array<byte>, bits: nat, hactive: u16, vactive: u16)
      ensures this.frame == frame && this.bits == bits && this.hactive == hactive && this.vactive == vactive
    {
      this.frame, this.bits, this.hactive, this.vactive := frame, bits, hactive, vactive;
      buf, alignedBuf, strideInByte := 0, 0, 0;
    }

    /**
     `hpm_display_lcdc_fb_alloc`: `block` is what the allocator answers for `size` bytes. The aligned frame
     lies inside the block, with the rounded range that is cleared, wherever the block is.
     */
    method FbAlloc(block: Option<nat>) returns (ok: bool, size: nat)
      modifies `buf, `alignedBuf, `strideInByte
      ensures ok <==> block.Some?
      ensures ok ==> strideInByte == hactive * bits / 8 && buf == block.value
      ensures ok ==> alignedBuf % LINE == 0 && buf <= alignedBuf
      ensures ok ==> strideInByte * vactive <= RoundUp(strideInByte * vactive)
      ensures ok ==> alignedBuf + RoundUp(strideInByte * vactive) <= buf + size
      ensures ok ==> size == RoundUp(strideInByte * vactive) + LINE - 1
      ensures ok && buf % LINE == 1 ==> alignedBuf + RoundUp(strideInByte * vactive) == buf + size
      ensures !ok ==> buf == old(buf) && alignedBuf == old(alignedBuf) && strideInByte == old(strideInByte)
    {
      var stride := hactive * bits / 8;
      NonNegative(stride, vactive);
      var fbBufSize := RoundUp(stride * vactive);
      size := fbBufSize + LINE - 1;
      if block == None {
        return false, size;
      }
      buf := block.value;
      alignedBuf := RoundUp(buf);
      strideInByte := stride;
      ok := true;
    }

    method MemCopy(at: nat, src: seq<byte>, from: nat, n: nat)
      requires at + n <= frame.Length && from + n <= |src|
      modifies frame
      ensures frame[..] == Copied(old(frame[..]), at, src[from..from + n])
    {
      for i := 0 to n
        invariant forall k :: at <= k < at + i ==> frame[k] == src[from + (k - at)]
        invariant forall k :: 0 <= k < frame.Length && !(at <= k < at + i) ==> frame[k] == old(frame[k])
      {
        frame[at + i] := src[from + i];
      }
      assert frame[..] == Copied(old(frame[..]), at, src[from..from + n]);
    }

    ghost function Offset(x: u16, y: u16): nat
      reads this
    {
      NonNegative(y, strideInByte);
      NonNegative(x, bits);
      y * strideInByte + x * bits / 8
    }

    /** The bytes copied for each row: a source line or a frame line, whichever is shorter. */
    ghost function Width(pitch: u16): (w: nat)
      reads this
      ensures w <= strideInByte && w <= pitch * bits / 8
      ensures w == strideInByte || w == pitch * bits / 8
    {
      NonNegative(pitch, bits);
      Min(pitch * bits / 8, strideInByte)
    }

    /**
     `hpm_display_write`. The rows are as wide as the source's pitch, whatever the descriptor's width; `start`
     and `length` are the range written back from the cache.
     */
    method Write(x: u16, y: u16, height: u16, pitch: u16, src: seq<byte>) returns (start: nat, length: nat)
      requires Room(Offset(x, y), strideInByte, Width(pitch), height, frame.Length)
      requires Room(0, pitch * bits / 8, Width(pitch), height, |src|)
      modifies frame
      ensures frame[..] == Rows(old(frame[..]), src, Offset(x, y), 0, strideInByte, pitch * bits / 8, Width(pitch), height)
      ensures bits % 8 == 0 ==> PixelsHold(frame[..], src, strideInByte, bits / 8, pitch, height, x, y)
      ensures start == RoundDown(alignedBuf + Offset(x, y))
      ensures length == RoundUp(height * strideInByte)
    {
      hide Rows, Room, Copied, PixelsHold;
      NonNegative(y, strideInByte);
      NonNegative(x, bits);
      NonNegative(pitch, bits);
      var dst: nat := y * strideInByte + x * bits / 8;
      start := RoundDown(alignedBuf + dst);
      length := 0;
      var from: nat, srcStride: nat := 0, pitch * bits / 8;
      var stride := if srcStride < strideInByte then srcStride else strideInByte;
      ghost var now, done := frame[..], Rows(frame[..], src, dst, 0, strideInByte, srcStride, stride, height);
      for i := 0 to height
        invariant length == i * strideInByte && |now| == frame.Length && frame[..] == now
        invariant Room(dst, strideInByte, stride, height - i, |now|) && Room(from, srcStride, stride, height - i, |src|)
        invariant Rows(now, src, dst, from, strideInByte, srcStride, stride, height - i) == done
      {
        RowsStep(now, src, dst, from, strideInByte, srcStride, stride, height - i);
        MemCopy(dst, src, from, stride);
        now := frame[..];
        dst := dst + strideInByte;
        from := from + srcStride;
        length := length + strideInByte;
      }
      RowsEnd(now, src, dst, from, strideInByte, srcStride, stride);
      if bits % 8 == 0 {
        WholePixels(x, y, pitch, bits, strideInByte);
        RowsArePixels(old(frame[..]), src, strideInByte, bits / 8, pitch, height, x, y);
      }
      length := RoundUp(length);
    }
  }

  lemma RowsStep(mem: seq<byte>, src: seq<byte>, at: nat, from: nat, stride: nat, pitch: nat, width: nat, rows: nat)
    requires rows > 0 && Room(at, stride, width, rows, |mem|) && Room(from, pitch, width, rows, |src|)
    ensures at + width <= |mem| && from + width <= |src|
    ensures Room(at + stride, stride, width, rows - 1, |mem|) && Room(from + pitch, pitch, width, rows - 1, |src|)
    ensures Rows(mem, src, at, from, stride, pitch, width, rows)
         == Rows(Copied(mem, at, src[from..from + width]), src, at + stride, from + pitch, stride, pitch, width, rows - 1)
  {
  }

  lemma RowsEnd(mem: seq<byte>, src: seq<byte>, at: nat, from: nat, stride: nat, pitch: nat, width: nat)
    ensures Room(at, stride, width, 0, |mem|) && Room(from, pitch, width, 0, |src|)
    ensures Rows(mem, src, at, from, stride, pitch, width, 0) == mem
  {
  }

  lemma NonNegative(a: nat, b: nat)
    ensures a * b >= 0
  {
  }

  // ----- What the rows are

  /** Byte `j` of row `i`. */
  function Pos(at: nat, stride: nat, i: nat, j: nat): nat {
    NonNegative(i, stride);
    at + i * stride + j
  }

  lemma PosStep(at: nat, stride: nat, i: nat, j: nat)
    ensures Pos(at, stride, i + 1, j) == Pos(at + stride, stride, i, j)
  {
  }

  lemma {:induction false} RoomMeans(at: nat, stride: nat, width: nat, rows: nat, length: nat, i: nat)
    requires Room(at, stride, width, rows, length) && i < rows
    ensures Pos(at, stride, i, width) <= length
    decreases rows
  {
    if i > 0 {
      PosStep(at, stride, i - 1, width);
      RoomMeans(at + stride, stride, width, rows - 1, length, i - 1);
    }
  }

  /** All rows lie inside exactly if the last one does. */
  lemma {:induction false} RoomIff(at: nat, stride: nat, width: nat, rows: nat, length: nat)
    requires rows > 0
    ensures Room(at, stride, width, rows, length) <==> Pos(at, stride, rows - 1, width) <= length
    decreases rows
  {
    if rows > 1 {
      PosStep(at, stride, rows - 2, width);
      RoomIff(at + stride, stride, width, rows - 1, length);
      NonNegative(rows - 2, stride);
    }
  }

  /** A write of at least one row stays in the frame exactly if the end of its last row does. */
  lemma WriteFitsIff(x: nat, y: nat, height: nat, pitch: nat, bits: nat, stride: nat, length: nat)
    requires height > 0
    ensures x * bits / 8 >= 0 && y * stride >= 0 && pitch * bits / 8 >= 0
    ensures Room(y * stride + x * bits / 8, stride, Min(pitch * bits / 8, stride), height, length) <==>
              (y + height - 1) * stride + x * bits / 8 + Min(pitch * bits / 8, stride) <= length
  {
    NonNegative(x, bits);
    NonNegative(y, stride);
    NonNegative(pitch, bits);
    RoomIff(y * stride + x * bits / 8, stride, Min(pitch * bits / 8, stride), height, length);
    assert (y + height - 1) * stride == y * stride + (height - 1) * stride;
  }

  /** Row `i` holds row `i` of the source. */
  lemma {:induction false} RowsHold(mem: seq<byte>, src: seq<byte>, at: nat, from: nat, stride: nat, pitch: nat,
                                    width: nat, rows: nat, i: nat, j: nat)
    requires Room(at, stride, width, rows, |mem|) && Room(from, pitch, width, rows, |src|)
    requires i < rows && j < width <= stride
    ensures Pos(at, stride, i, j) < |mem| && Pos(from, pitch, i, j) < |src|
    ensures Rows(mem, src, at, from, stride, pitch, width, rows)[Pos(at, stride, i, j)] == src[Pos(from, pitch, i, j)]
    decreases rows
  {
    RoomMeans(at, stride, width, rows, |mem|, i);
    RoomMeans(from, pitch, width, rows, |src|, i);
    var next := Copied(mem, at, src[from..from + width]);
    if i > 0 {
      PosStep(at, stride, i - 1, j);
      PosStep(from, pitch, i - 1, j);
      RowsHold(next, src, at + stride, from + pitch, stride, pitch, width, rows - 1, i - 1, j);
    } else {
      RowsLeave(next, src, at + stride, from + pitch, stride, pitch, width, rows - 1, at + j);
    }
  }

  /** A byte that is in no row. */
  predicate Outside(at: nat, stride: nat, width: nat, rows: nat, p: nat) {
    forall i: nat, j: nat :: i < rows && j < width ==> Pos(at, stride, i, j) != p
  }

  lemma BehindIsOutside(at: nat, stride: nat, width: nat, rows: nat, p: nat)
    requires p < at
    ensures Outside(at, stride, width, rows, p)
  {
    forall i: nat, j: nat | i < rows && j < width
      ensures Pos(at, stride, i, j) != p
    {
      NonNegative(i, stride);
    }
  }

  lemma OutsideRest(at: nat, stride: nat, width: nat, rows: nat, p: nat)
    requires rows > 0 && Outside(at, stride, width, rows, p)
    ensures !(at <= p < at + width) && Outside(at + stride, stride, width, rows - 1, p)
  {
    if at <= p {
      var j: nat := p - at;
      assert j < width ==> Pos(at, stride, 0, j) != p;
    }
    var next := at + stride;
    forall i: nat, j: nat | i < rows - 1 && j < width
      ensures Pos(next, stride, i, j) != p
    {
      PosStep(at, stride, i, j);
    }
  }

  lemma {:induction false} RowsKeep(mem: seq<byte>, src: seq<byte>, at: nat, from: nat, stride: nat, pitch: nat,
                                    width: nat, rows: nat, p: nat)
    requires Room(at, stride, width, rows, |mem|) && Room(from, pitch, width, rows, |src|)
    requires p < |mem| && Outside(at, stride, width, rows, p)
    ensures Rows(mem, src, at, from, stride, pitch, width, rows)[p] == mem[p]
    decreases rows
  {
    if rows > 0 {
      OutsideRest(at, stride, width, rows, p);
      RowsKeep(Copied(mem, at, src[from..from + width]), src, at + stride, from + pitch, stride, pitch, width, rows - 1, p);
    }
  }

  lemma RowsLeave(mem: seq<byte>, src: seq<byte>, at: nat, from: nat, stride: nat, pitch: nat, width: nat, rows: nat, p: nat)
    requires Room(at, stride, width, rows, |mem|) && Room(from, pitch, width, rows, |src|)
    requires p < at && p < |mem|
    ensures Rows(mem, src, at, from, stride, pitch, width, rows)[p] == mem[p]
  {
    BehindIsOutside(at, stride, width, rows, p);
    RowsKeep(mem, src, at, from, stride, pitch, width, rows, p);
  }

  /** Byte `b` of the pixel in a column and a line. */
  function PixelAt(stride: nat, bytes: nat, column: nat, line: nat, b: nat): nat {
    NonNegative(line, stride);
    NonNegative(column, bytes);
    line * stride + column * bytes + b
  }

  /**
   Pixel column `x + c` in line `y + r` of the frame holds pixel column `c` in line `r` of the source, byte for
   byte, as far as a frame line reaches.
   */
  ghost predicate PixelsHold(frame: seq<byte>, src: seq<byte>, stride: nat, bytes: nat, pitch: nat, height: nat,
                             x: nat, y: nat) {
    forall r: nat, c: nat, b: nat :: r < height && c < pitch && b < bytes && PixelAt(0, bytes, c, 0, b) < stride ==>
      PixelHolds(frame, src, stride, bytes, pitch, x, y, r, c, b)
  }

  ghost predicate PixelHolds(frame: seq<byte>, src: seq<byte>, stride: nat, bytes: nat, pitch: nat, x: nat, y: nat,
                             r: nat, c: nat, b: nat) {
    NonNegative(pitch, bytes);
    var to, from := PixelAt(stride, bytes, x + c, y + r, b), PixelAt(pitch * bytes, bytes, c, r, b);
    to < |frame| && from < |src| && frame[to] == src[from]
  }

  /** Pixels of whole bytes begin where the driver's arithmetic says. */
  lemma WholePixels(x: nat, y: nat, pitch: nat, bits: nat, stride: nat)
    requires bits % 8 == 0
    ensures x * bits / 8 == x * (bits / 8) && pitch * bits / 8 == pitch * (bits / 8)
    ensures y * stride + x * bits / 8 == PixelAt(stride, bits / 8, x, y, 0)
  {
    var bytes := bits / 8;
    assert bits == 8 * bytes;
    assert x * bits == 8 * (x * bytes) && pitch * bits == 8 * (pitch * bytes);
  }

  lemma ColumnInPitch(pitch: nat, bytes: nat, c: nat, b: nat)
    requires c < pitch && b < bytes
    ensures c * bytes + b < pitch * bytes
  {
    var gap := pitch - c - 1;
    NonNegative(gap, bytes);
    assert pitch * bytes == c * bytes + bytes + gap * bytes;
  }

  lemma PixelPlace(stride: nat, bytes: nat, x: nat, y: nat, r: nat, c: nat, b: nat)
    ensures Pos(PixelAt(stride, bytes, x, y, 0), stride, r, PixelAt(0, bytes, c, 0, b)) == PixelAt(stride, bytes, x + c, y + r, b)
  {
    assert (y + r) * stride == y * stride + r * stride;
    assert (x + c) * bytes == x * bytes + c * bytes;
  }

  /** The rows written from a pixel's place on are the source's pixels. */
  lemma RowsArePixels(mem: seq<byte>, src: seq<byte>, stride: nat, bytes: nat, pitch: nat, height: nat, x: nat, y: nat)
    requires pitch * bytes >= 0
    requires Room(PixelAt(stride, bytes, x, y, 0), stride, Min(pitch * bytes, stride), height, |mem|)
    requires Room(0, pitch * bytes, Min(pitch * bytes, stride), height, |src|)
    ensures PixelsHold(Rows(mem, src, PixelAt(stride, bytes, x, y, 0), 0, stride, pitch * bytes, Min(pitch * bytes, stride), height),
                       src, stride, bytes, pitch, height, x, y)
  {
    hide Rows, Room, Pos;
    var at, width := PixelAt(stride, bytes, x, y, 0), Min(pitch * bytes, stride);
    var after := Rows(mem, src, at, 0, stride, pitch * bytes, width, height);
    forall r: nat, c: nat, b: nat | r < height && c < pitch && b < bytes && PixelAt(0, bytes, c, 0, b) < stride
      ensures PixelHolds(after, src, stride, bytes, pitch, x, y, r, c, b)
    {
      ColumnInPitch(pitch, bytes, c, b);
      var j := PixelAt(0, bytes, c, 0, b);
      RowsHold(mem, src, at, 0, stride, pitch * bytes, width, height, r, j);
      PixelPlace(stride, bytes, x, y, r, c, b);
      SourcePlace(pitch * bytes, bytes, r, c, b);
    }
  }

  lemma SourcePlace(stride: nat, bytes: nat, r: nat, c: nat, b: nat)
    ensures Pos(0, stride, r, PixelAt(0, bytes, c, 0, b)) == PixelAt(stride, bytes, c, r, b)
  {
  }

  /**
   Seen as lines and columns, the rows are the rectangle at line `y` and byte column `x`, and no other byte
   of any line changes, if the rectangle's columns lie in the line.
   */
  lemma RectangleOnly(mem: seq<byte>, src: seq<byte>, stride: nat, pitch: nat, width: nat, rows: nat, y: nat, x: nat,
                      line: nat, column: nat)
    requires x + width <= stride && column < stride && Pos(0, stride, line, column) < |mem|
    requires Room(Pos(0, stride, y, x), stride, width, rows, |mem|) && Room(0, pitch, width, rows, |src|)
    ensures var p, after := Pos(0, stride, line, column), Rows(mem, src, Pos(0, stride, y, x), 0, stride, pitch, width, rows);
            if y <= line < y + rows && x <= column < x + width
            then Pos(0, pitch, line - y, column - x) < |src| && after[p] == src[Pos(0, pitch, line - y, column - x)]
            else after[p] == mem[p]
  {
    hide Rows, Room, Pos;
    var at, p := Pos(0, stride, y, x), Pos(0, stride, line, column);
    if y <= line < y + rows && x <= column < x + width {
      SameByte(stride, y, x, line - y, column - x);
      RowsHold(mem, src, at, 0, stride, pitch, width, rows, line - y, column - x);
    } else {
      forall i: nat, j: nat | i < rows && j < width
        ensures Pos(at, stride, i, j) != p
      {
        SameByte(stride, y, x, i, j);
        if Pos(at, stride, i, j) == p {
          LineAndColumn(stride, y + i, x + j, line, column);
        }
      }
      RowsKeep(mem, src, at, 0, stride, pitch, width, rows, p);
    }
  }

  lemma SameByte(stride: nat, y: nat, x: nat, i: nat, j: nat)
    ensures Pos(Pos(0, stride, y, x), stride, i, j) == Pos(0, stride, y + i, x + j)
  {
    assert (y + i) * stride == y * stride + i * stride;
  }

  /** A byte has one line and one column. */
  lemma LineAndColumn(stride: nat, line: nat, column: nat, other: nat, place: nat)
    requires column < stride && place < stride && Pos(0, stride, line, column) == Pos(0, stride, other, place)
    ensures line == other && column == place
  {
    if line < other {
      LaterLine(stride, line, other);
    } else if line > other {
      LaterLine(stride, other, line);
    }
  }

  lemma LaterLine(stride: nat, line: nat, later: nat)
    requires line < later
    ensures later * stride >= line * stride + stride
  {
    var gap := later - line - 1;
    NonNegative(gap, stride);
    assert later * stride == (line + 1 + gap) * stride == line * stride + stride + gap * stride;
  }

  /** With columns beyond the end of the line the write goes on into the next one. */
  lemma WrapsIff(stride: nat, width: nat, y: nat, x: nat)
    requires width > 0 && x < stride
    ensures (forall c: nat :: x <= c < x + width ==> Pos(0, stride, y, c) < Pos(0, stride, y + 1, 0)) <==> x + width <= stride
  {
    assert Pos(0, stride, y + 1, 0) == y * stride + stride;
    if x + width > stride {
      var c: nat := x + width - 1;
      assert Pos(0, stride, y, c) >= Pos(0, stride, y + 1, 0);
    }
  }

  // ----- The cache

  /** Every byte of the rows is in the range written back. */
  ghost predicate WrittenBack(addr: nat, stride: nat, width: nat, rows: nat) {
    forall i: nat, j: nat :: i < rows && j < width ==>
      RoundDown(addr) <= Pos(addr, stride, i, j) < RoundDown(addr) + RoundUp(rows * stride)
  }

  /** Exactly when the range written back, which starts earlier but is not longer, covers every byte written. */
  lemma WrittenBackIff(addr: nat, stride: nat, width: nat, rows: nat)
    requires rows > 0 && width > 0
    ensures WrittenBack(addr, stride, width, rows)
       <==> addr % LINE + (rows - 1) * stride + width <= RoundUp(rows * stride)
  {
    NonNegative(rows, stride);
    var end := RoundDown(addr) + RoundUp(rows * stride);
    assert Pos(addr, stride, rows - 1, width - 1) == addr + (rows - 1) * stride + width - 1;
    forall i: nat, j: nat | i < rows && j < width
      ensures addr <= Pos(addr, stride, i, j) <= Pos(addr, stride, rows - 1, width - 1)
    {
      NonNegative(i, stride);
      NonNegative(rows - 1 - i, stride);
      assert (rows - 1) * stride == i * stride + (rows - 1 - i) * stride;
    }
  }

  /** A frame whose lines are whole cache lines is always written back. */
  lemma WholeLinesAreWrittenBack(frame: nat, stride: nat, width: nat, rows: nat, y: nat, x: nat)
    requires frame % LINE == 0 && stride % LINE == 0 && x + width <= stride && rows > 0 && width > 0
    ensures WrittenBack(Pos(frame, stride, y, x), stride, width, rows)
  {
    var lines := stride / LINE;
    assert y * stride == y * lines * LINE;
    InLine(frame / LINE + y * lines, x);
    assert Pos(frame, stride, y, x) == (frame / LINE + y * lines) * LINE + x;
    assert rows * stride == (rows - 1) * stride + stride;
    WrittenBackIff(Pos(frame, stride, y, x), stride, width, rows);
  }

  lemma InLine(k: nat, x: nat)
    ensures (k * LINE + x) % LINE <= x
  {
    assert (k * LINE + x) % LINE == x % LINE;
  }

  /** Lines that are not can leave bytes behind. */
  lemma BytesLeftBehind()
    ensures !WrittenBack(Pos(0, 100, 1, 27), 100, 73, 1)
  {
    WrittenBackIff(127, 100, 73, 1);
  }
}
