/** The USB device controller driver: endpoint queues, the busy flag, zero-length packets and the QTD walk. */
module Udc {
  import opened Words

  /** A buffer of an endpoint: data to send or received so far, room left to receive, and the ZLP flag. */
  datatype Buf = Buf(id: nat, data: seq<byte>, room: nat, zlp: bool)

  /** A transfer handed to the controller, labelled with the buffer it is for. */
  datatype Xfer = DataIn(id: nat, data: seq<byte>) | DataOut(id: nat, room: nat) | Zlt(id: nat)

  datatype Report = Finished(buf: Buf) | Aborted(bufs: seq<Buf>)

  /**
   A non-control endpoint. `flight` is what the controller works on; `started`, `reports` and `errors` are
   logs of the transfers started, the buffers given back and the error events raised.
   */
  datatype Ep = Ep(
    inward: bool,
    queue: seq<Buf>,
    busy: bool,
    halted: bool,
    flight: seq<Xfer>,
    started: seq<Xfer>,
    reports: seq<Report>,
    errors: seq<Errno>)

  const MAX_LEN := 0xffff

  /** What a `net_buf` can hold: its lengths are 16-bit. */
  predicate WellFormed(b: Buf) {
    |b.data| <= MAX_LEN && b.room <= MAX_LEN
  }

  function XferOf(inward: bool, b: Buf): Xfer {
    if inward then DataIn(b.id, b.data) else DataOut(b.id, b.room)
  }

  function Start(e: Ep, x: Xfer): Ep {
    e.(flight := e.flight + [x], started := e.started + [x])
  }

  /** `udc_hpm_ep_feed`; `ok` is the controller's answer. */
  function Feed(e: Ep, ok: bool): (Ep, Errno)
    requires e.queue != []
  {
    if e.busy then (e, EBUSY)
    else if ok then (Start(e, XferOf(e.inward, e.queue[0])).(busy := true), Success)
    else (e, EIO)
  }

  function TryFeed(e: Ep, ok: bool): (Ep, Errno) {
    if e.queue == [] then (e, Success)
    else
      var (f, err) := Feed(e, ok);
      (f, if err == EBUSY || err == Success then Success else EIO)
  }

  function AfterEnqueue(e: Ep, b: Buf, ok: bool): (Ep, Errno) {
    var f := e.(queue := e.queue + [b]);
    if f.halted then (f, Success) else TryFeed(f, ok)
  }

  function AfterDequeue(e: Ep): Ep {
    var f := e.(halted := false, queue := [], busy := false);
    if e.queue == [] then f else f.(reports := f.reports + [Aborted(e.queue)])
  }

  /** The head is done and is given back as `b`; the next one is fed. */
  function GiveBack(e: Ep, b: Buf, ok: bool): Ep
    requires e.queue != []
  {
    TryFeed(e.(queue := e.queue[1..], busy := false, reports := e.reports + [Finished(b)]), ok).0
  }

  function Drained(b: Buf, n: nat): Buf {
    b.(data := b.data[Min(|b.data|, n)..])
  }

  function Filled(b: Buf, received: seq<byte>): Buf {
    var n := Min(b.room, |received|);
    b.(data := b.data + received[..n], room := b.room - n)
  }

  predicate WantsZlt(b: Buf, n: nat) {
    n >= |b.data| && b.zlp
  }

  /** `udc_hpm_handler_in`, after the controller moved `n` bytes. */
  function AfterIn(e: Ep, n: u16, zltOk: bool, ok: bool): (Ep, Errno) {
    if e.queue == [] then (e.(errors := e.errors + [ENOBUFS]), ENOBUFS)
    else
      var b := e.queue[0];
      if WantsZlt(b, n) then
        var f := e.(queue := e.queue[0 := b.(zlp := false)]);
        if zltOk then (Start(f, Zlt(b.id)), Success)
        else (GiveBack(f.(errors := f.errors + [EIO]), Drained(b.(zlp := false), n), ok), Success)
      else (GiveBack(e, Drained(b, n), ok), Success)
  }

  /** `udc_hpm_handler_out`, after the controller received these bytes. */
  function AfterOut(e: Ep, received: seq<byte>, ok: bool): (Ep, Errno) {
    if e.queue == [] then (e.(busy := false, errors := e.errors + [ENOBUFS]), ENOBUFS)
    else (GiveBack(e, Filled(e.queue[0], received), ok), Success)
  }

  // ----- The chain of transfer descriptors

  datatype Qtd = Qtd(halted: bool, xactErr: bool, bufferErr: bool, active: bool, expected: u16, remaining: u16)

  predicate Retired(q: Qtd) {
    !q.halted && !q.xactErr && !q.bufferErr && !q.active
  }

  predicate AllRetired(chain: seq<Qtd>) {
    forall k :: 0 <= k < |chain| ==> Retired(chain[k])
  }

  predicate Broken(q: Qtd) {
    q.halted || q.xactErr || q.bufferErr
  }

  /** A descriptor failed: the controller gives the transfer up, and sets the completion bit all the same. */
  predicate AnyBroken(chain: seq<Qtd>) {
    exists k :: 0 <= k < |chain| && Broken(chain[k])
  }

  function Moved(chain: seq<Qtd>): int {
    if chain == [] then 0
    else Moved(chain[..|chain| - 1]) + chain[|chain| - 1].expected - chain[|chain| - 1].remaining
  }

  lemma MovedMore(chain: seq<Qtd>, k: nat)
    requires k < |chain|
    ensures (Moved(chain[..k]) % WORD32 + (chain[k].expected - chain[k].remaining) % WORD32) % WORD32
         == Moved(chain[..k + 1]) % WORD32
  {
    assert chain[..k + 1][..k] == chain[..k];
    ModSum(Moved(chain[..k]), chain[k].expected - chain[k].remaining);
  }

  lemma ModSum(a: int, b: int)
    ensures (a % WORD32 + b % WORD32) % WORD32 == (a + b) % WORD32
  {
  }

  function Expected(chain: seq<Qtd>): nat {
    if chain == [] then 0 else Expected(chain[..|chain| - 1]) + chain[|chain| - 1].expected
  }

  /** A chain that covers a transfer of at most 65535 bytes reports a 16-bit length without loss. */
  lemma {:induction false} MovedBounds(chain: seq<Qtd>)
    requires forall k :: 0 <= k < |chain| ==> chain[k].remaining <= chain[k].expected
    ensures 0 <= Moved(chain) <= Expected(chain)
  {
    if chain != [] {
      MovedBounds(chain[..|chain| - 1]);
    }
  }

  /** The bit of an endpoint in the completion register: OUT endpoints below 16, IN endpoints from 16 on. */
  function BitOf(index: nat): nat {
    index / 2 + if index % 2 == 1 then 16 else 0
  }

  /** Endpoint `n` has bit `n` for OUT and bit `n + 16` for IN. */
  lemma BitOfEndpoint(n: nat)
    ensures BitOf(2 * n) == n && BitOf(2 * n + 1) == n + 16
  {
  }

  lemma BitsDistinct(i: nat, j: nat)
    requires i < 32 && j < 32 && BitOf(i) == BitOf(j)
    ensures i == j
  {
  }

  /** What the controller shows of one endpoint at an interrupt, and how it will answer. */
  datatype Status = Status(chain: seq<Qtd>, memory: seq<byte>, zltOk: bool, ok: bool)

  /** The length the handlers are given: a 32-bit sum, cut to 16 bits. */
  function Length(chain: seq<Qtd>): u16 {
    Moved(chain) % WORD32 % 0x1_0000
  }

  predicate Sound(e: Ep, s: Status) {
    e.flight != [] && s.chain != [] && (!e.inward ==> Length(s.chain) <= |s.memory|)
  }

  /**
   What becomes of one endpoint whose completion bit is set. Of a chain with a failed descriptor or one that is
   still active the driver does nothing; after a failure the controller has given the transfer up.
   */
  function Handled(e: Ep, s: Status): Ep
    requires Sound(e, s)
  {
    if AnyBroken(s.chain) then e.(flight := e.flight[1..])
    else if !AllRetired(s.chain) then e
    else
      var n, f := Length(s.chain), e.(flight := e.flight[1..]);
      if f.inward then AfterIn(f, n, s.zltOk, s.ok).0 else AfterOut(f, s.memory[..n], s.ok).0
  }

  class Driver {
    // even indexes are OUT endpoints, odd ones IN; 0 and 1 are the control endpoint
    var eps: seq<Ep>

    constructor (eps: seq<Ep>)
      ensures this.eps == eps
    {
      this.eps := eps;
    }

    method SetBusy(i: nat, value: bool)
      requires i < |eps|
      modifies this
      ensures eps == old(eps)[i := old(eps)[i].(busy := value)]
    {
      eps := eps[i := eps[i].(busy := value)];
    }

    /** `usb_device_edpt_xfer`. */
    method Xfer(i: nat, x: Xfer, ok: bool) returns (status: bool)
      requires i < |eps|
      modifies this
      ensures status == ok
      ensures eps == if ok then old(eps)[i := Start(old(eps)[i], x)] else old(eps)
    {
      status := ok;
      if ok {
        eps := eps[i := Start(eps[i], x)];
      }
    }

    method EpFeed(i: nat, buf: Buf, ok: bool) returns (ret: Errno)
      requires i < |eps| && eps[i].queue != [] && buf == eps[i].queue[0]
      modifies this
      ensures eps == old(eps)[i := Feed(old(eps)[i], ok).0]
      ensures ret == if old(eps)[i].busy then EBUSY else if ok then Success else EIO
    {
      var status := true;
      if !eps[i].busy {
        SetBusy(i, true);
        if !eps[i].inward {
          status := Xfer(i, DataOut(buf.id, buf.room), ok);
        } else {
          status := Xfer(i, DataIn(buf.id, buf.data), ok);
        }
        if !status {
          SetBusy(i, false);
        }
      } else {
        return EBUSY;
      }
      ret := if status then Success else EIO;
    }

    method EpTryFeed(i: nat, ok: bool) returns (ret: Errno)
      requires i < |eps|
      modifies this
      ensures eps == old(eps)[i := TryFeed(old(eps)[i], ok).0]
      ensures ret == if old(eps)[i].queue == [] || old(eps)[i].busy || ok then Success else EIO
    {
      if eps[i].queue != [] {
        ret := EpFeed(i, eps[i].queue[0], ok);
        ret := if ret == EBUSY || ret == Success then Success else EIO;
      } else {
        ret := Success;
      }
    }

    method EpEnqueue(i: nat, buf: Buf, ok: bool) returns (ret: Errno)
      requires i < |eps|
      modifies this
      ensures eps == old(eps)[i := AfterEnqueue(old(eps)[i], buf, ok).0]
      ensures ret == if old(eps)[i].halted || old(eps)[i].busy || ok then Success else EIO
    {
      eps := eps[i := eps[i].(queue := eps[i].queue + [buf])];
      if eps[i].halted {
        return Success;
      }
      ret := EpTryFeed(i, ok);
    }

    method EpDequeue(i: nat) returns (ret: Errno)
      requires i < |eps|
      modifies this
      ensures eps == old(eps)[i := AfterDequeue(old(eps)[i])] && ret == Success
    {
      eps := eps[i := eps[i].(halted := false)];
      var bufs := eps[i].queue;
      eps := eps[i := eps[i].(queue := [])];
      if bufs != [] {
        eps := eps[i := eps[i].(reports := eps[i].reports + [Aborted(bufs)])];
      }
      SetBusy(i, false);
      ret := Success;
    }

    /** `udc_buf_get`: take the head. */
    method BufGet(i: nat) returns (buf: Option<Buf>)
      requires i < |eps|
      modifies this
      ensures var q := old(eps)[i].queue;
              && buf == (if q == [] then None else Some(q[0]))
              && eps == if q == [] then old(eps) else old(eps)[i := old(eps)[i].(queue := q[1..])]
    {
      if eps[i].queue == [] {
        return None;
      }
      buf := Some(eps[i].queue[0]);
      eps := eps[i := eps[i].(queue := eps[i].queue[1..])];
    }

    method SubmitError(i: nat, err: Errno)
      requires i < |eps|
      modifies this
      ensures eps == old(eps)[i := old(eps)[i].(errors := old(eps)[i].errors + [err])]
    {
      eps := eps[i := eps[i].(errors := eps[i].errors + [err])];
    }

    method SubmitBuf(i: nat, buf: Buf)
      requires i < |eps|
      modifies this
      ensures eps == old(eps)[i := old(eps)[i].(reports := old(eps)[i].reports + [Finished(buf)])]
    {
      eps := eps[i := eps[i].(reports := eps[i].reports + [Finished(buf)])];
    }

    /** The flag is cleared before the controller is asked. */
    method HandlerZlt(i: nat, n: u16, zltOk: bool) returns (fed: bool)
      requires i < |eps| && eps[i].queue != []
      modifies this
      ensures fed == (WantsZlt(old(eps)[i].queue[0], n) && zltOk)
      ensures var e := old(eps)[i];
              var f := e.(queue := e.queue[0 := e.queue[0].(zlp := false)]);
              eps == if !WantsZlt(e.queue[0], n) then old(eps)
                     else if zltOk then old(eps)[i := Start(f, Zlt(e.queue[0].id))]
                     else old(eps)[i := f.(errors := f.errors + [EIO])]
    {
      var buf := eps[i].queue[0];
      if n >= |buf.data| {
        if buf.zlp {
          eps := eps[i := eps[i].(queue := eps[i].queue[0 := buf.(zlp := false)])];
          var status := Xfer(i, Zlt(buf.id), zltOk);
          if !status {
            SubmitError(i, EIO);
            return false;
          }
          return true;
        }
      }
      fed := false;
    }

    method HandlerIn(i: nat, n: u16, zltOk: bool, ok: bool) returns (err: Errno)
      requires i < |eps|
      modifies this
      ensures eps == old(eps)[i := AfterIn(old(eps)[i], n, zltOk, ok).0]
      ensures err == if old(eps)[i].queue == [] then ENOBUFS else Success
    {
      if eps[i].queue == [] {
        SubmitError(i, ENOBUFS);
        return ENOBUFS;
      }
      var fed := HandlerZlt(i, n, zltOk);
      if fed {
        return Success;
      }
      var got := BufGet(i);
      SetBusy(i, false);
      var buf := got.value;
      var len := Min(|buf.data|, n);
      buf := buf.(data := buf.data[len..]);
      SubmitBuf(i, buf);
      err := EpTryFeed(i, ok);
      err := Success;
    }

    method HandlerOut(i: nat, hpmBuf: seq<byte>, n: u16, ok: bool) returns (err: Errno)
      requires i < |eps| && n <= |hpmBuf|
      modifies this
      ensures eps == old(eps)[i := AfterOut(old(eps)[i], hpmBuf[..n], ok).0]
      ensures err == if old(eps)[i].queue == [] then ENOBUFS else Success
    {
      var got := BufGet(i);
      SetBusy(i, false);
      if got == None {
        SubmitError(i, ENOBUFS);
        return ENOBUFS;
      }
      var buf := got.value;
      var len := Min(buf.room, n);
      assert hpmBuf[..n][..len] == hpmBuf[..len];
      buf := buf.(data := buf.data + hpmBuf[..len], room := buf.room - len);
      SubmitBuf(i, buf);
      err := EpTryFeed(i, ok);
      err := Success;
    }

    /** Follow the descriptors: the bytes of all, or nothing as soon as one failed or is still active. */
    method WalkChain(chain: seq<Qtd>) returns (done: bool, length: u32)
      requires chain != []
      ensures done <==> AllRetired(chain)
      ensures done ==> length == Moved(chain) % WORD32
    {
      length, done := 0, true;
      var k := 0;
      while true
        invariant 0 <= k < |chain| && done
        invariant forall j :: 0 <= j < k ==> Retired(chain[j])
        invariant length == Moved(chain[..k]) % WORD32
        decreases |chain| - k
      {
        var q := chain[k];
        if q.halted || q.xactErr || q.bufferErr {
          done := false;
          break;
        } else if q.active {
          done := false;
          break;
        } else {
          MovedMore(chain, k);
          length := (length + (q.expected - q.remaining) % WORD32) % WORD32;
        }
        if k == |chain| - 1 {
          assert chain[..k + 1] == chain;
          break;
        } else {
          k := k + 1;
        }
      }
    }

    /** The completion part of the interrupt: every endpoint whose bit is set, once, and no other. */
    method Isr(complete: set<nat>, status: nat -> Status)
      requires |eps| <= 32
      requires forall i: nat :: 2 <= i < |eps| && BitOf(i) in complete ==> Sound(eps[i], status(i))
      modifies this
      ensures |eps| == |old(eps)|
      ensures forall i: nat :: 2 <= i < |eps| && BitOf(i) in complete ==>
                Sound(old(eps)[i], status(i)) && eps[i] == Handled(old(eps)[i], status(i))
      ensures forall i: nat :: i < |eps| && (i < 2 || BitOf(i) !in complete) ==> eps[i] == old(eps)[i]
    {
      hide Length, Handled;
      // the control endpoint's completions belong to the layer above
      for i := 0 to |eps|
        invariant |eps| == |old(eps)|
        invariant forall j: nat :: 2 <= j < i && j < |eps| && BitOf(j) in complete ==>
                    Sound(old(eps)[j], status(j)) && eps[j] == Handled(old(eps)[j], status(j))
        invariant forall j: nat :: j < |eps| && (j < 2 || BitOf(j) !in complete || i <= j) ==> eps[j] == old(eps)[j]
      {
        if i >= 2 && BitOf(i) in complete {
          HandleEndpoint(i, status(i));
        }
      }
    }

    /** The controller's side of a completion bit: it is done with the transfer, or has given it up. */
    method ControllerDone(i: nat, chain: seq<Qtd>)
      requires i < |eps| && eps[i].flight != []
      modifies this
      ensures eps == if AnyBroken(chain) || AllRetired(chain) then old(eps)[i := old(eps)[i].(flight := old(eps)[i].flight[1..])]
                     else old(eps)
    {
      if AnyBroken(chain) || AllRetired(chain) {
        eps := eps[i := eps[i].(flight := eps[i].flight[1..])];
      }
    }

    method HandleEndpoint(i: nat, s: Status)
      requires i < |eps| && Sound(eps[i], s)
      modifies this
      ensures eps == old(eps)[i := Handled(old(eps)[i], s)]
    {
      ControllerDone(i, s.chain);
      var done, length := WalkChain(s.chain);
      if done {
        assert !AnyBroken(s.chain);
        var err;
        if eps[i].inward {
          err := HandlerIn(i, length % 0x1_0000, s.zltOk, s.ok);
        } else {
          err := HandlerOut(i, s.memory, length % 0x1_0000, s.ok);
        }
      }
    }
  }
}
