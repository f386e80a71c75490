/** What every run of a master write keeps, whichever addresses are acknowledged. */
module I2cProofs {
  import opened Words
  import opened I2cMaster

  datatype Step = Hit | Nack | SendByte | Complete | Interrupt | Wait

  /** An interrupt comes only while an enabled event is there; completion only after the transaction's count. */
  predicate CanStep(s: I2c, step: Step) {
    match step
    case Hit => s.addressing
    case Nack => s.addressing
    case SendByte => s.active && !s.addressing && s.left > 0 && s.fifo != []
    case Complete => s.active && !s.addressing && s.left == 0
    case Interrupt => (s.hit && s.onHit) || (s.cmpl && s.onCmpl) || WantsData(s)
    case Wait => s.done.waiter == NotYet
  }

  function Next(s: I2c, step: Step, hw: Hardware): I2c
    requires CanStep(s, step) && (step == Interrupt ==> Safe(s, hw))
  {
    match step
    case Hit => s.(addressing := false, hit := true)
    case Nack => s.(addressing := false, active := false, left := 0, cmpl := true, lost := s.lost + {s.cur})
    case SendByte => s.(wire := s.wire + [s.fifo[0]], fifo := s.fifo[1..], left := s.left - 1)
    case Complete => s.(active := false, cmpl := true)
    case Interrupt => AfterIsr(s, hw)
    case Wait => s.(done := Taken(s.done))
  }

  /**
   A run from the beginning of a transfer, with `sem` gives left over from before. That interrupts are safe
   does not restrict the runs: see `InterruptsAreSafe`.
   */
  predicate IsRun(states: seq<I2c>, steps: seq<Step>, msgs: seq<Msg>, hw: Hardware, sem: nat) {
    && msgs != [] && |msgs[0].buf| <= hw.max && hw.Real() && sem <= 1
    && |states| == |steps| + 1
    && states[0] == Begun(msgs, sem)
    && forall k :: 0 <= k < |steps| ==>
         && CanStep(states[k], steps[k]) && (steps[k] == Interrupt ==> Safe(states[k], hw))
         && states[k + 1] == Next(states[k], steps[k], hw)
  }

  /** The first `n` messages, one after the other, without the lost ones. */
  function Bytes(msgs: seq<Msg>, n: nat, lost: set<nat>): seq<byte>
    requires n <= |msgs|
  {
    if n == 0 then [] else Bytes(msgs, n - 1, lost) + if n - 1 in lost then [] else msgs[n - 1].buf
  }

  lemma NextBytes(msgs: seq<Msg>, n: nat, lost: set<nat>)
    requires n < |msgs|
    ensures Bytes(msgs, n + 1, lost) == Bytes(msgs, n, lost) + if n in lost then [] else msgs[n].buf
  {
  }

  lemma {:induction false} LostLater(msgs: seq<Msg>, n: nat, lost: set<nat>, k: nat)
    requires n <= k && n <= |msgs|
    ensures Bytes(msgs, n, lost + {k}) == Bytes(msgs, n, lost)
  {
    if n > 0 {
      LostLater(msgs, n - 1, lost, k);
    }
  }

  // ----- The invariant

  /** The current message is with the controller, up to and including its completion event. */
  ghost predicate Running(s: I2c, hw: Hardware)
    requires HasMsg(s)
  {
    && s.idx <= |Buf(s)| <= hw.max && |s.fifo| <= hw.depth && |s.fifo| <= s.idx
    && s.cur !in s.lost
    && s.wire + s.fifo == Bytes(s.msgs, s.cur, s.lost) + Buf(s)[..s.idx]
    && s.left == |Buf(s)| - (s.idx - |s.fifo|)
    && s.active != s.cmpl && (s.cmpl ==> s.left == 0 && !s.addressing)
    && (s.addressing || s.hit ==> s.idx == 0 && !s.onEmpty && s.onHit)
    && (s.addressing ==> !s.hit)
    && (s.status == AddrHit || (s.status == Idle && s.cur == 0 && (s.addressing || s.hit)))
    && (s.cur == 0 && (s.addressing || s.hit) ==> s.status == Idle)
    && s.onCmpl
    && (s.onEmpty ==> s.idx < |Buf(s)| || |Buf(s)| == 0)
    && (!s.addressing && !s.hit && s.idx < |Buf(s)| ==> s.onEmpty)
  }

  /** The current message's address was not acknowledged, and the driver has not been told yet. */
  ghost predicate Refused(s: I2c, hw: Hardware)
    requires HasMsg(s)
  {
    && s.cur in s.lost && |Buf(s)| <= hw.max
    && s.idx == 0 && s.left == 0 && s.fifo == [] && s.wire == Bytes(s.msgs, s.cur, s.lost)
    && s.cmpl && s.onCmpl && !s.active && !s.addressing && !s.hit && !s.onEmpty
    && s.status == if s.cur == 0 then Idle else AddrHit
  }

  ghost predicate Quiet(s: I2c) {
    !s.addressing && !s.hit && !s.onEmpty && !s.onCmpl && s.fifo == [] && s.left == 0
  }

  /** The controller refused the current message's length: nothing will ever happen again. */
  ghost predicate Stalled(s: I2c, hw: Hardware)
    requires HasMsg(s)
  {
    && Quiet(s) && !s.active && !s.cmpl && s.status == AddrHit
    && s.cur !in s.lost
    && s.idx == 0 && |Buf(s)| > hw.max && s.wire == Bytes(s.msgs, s.cur, s.lost)
  }

  /** Completion was given after the last message. */
  ghost predicate Ended(s: I2c, hw: Hardware)
    requires HasMsg(s)
  {
    && Quiet(s) && !s.active && !s.cmpl && s.status == AddrHit && 0 !in s.lost
    && s.idx <= |Buf(s)| <= hw.max
    && s.cur == |s.msgs| - 1 && s.wire == Bytes(s.msgs, |s.msgs|, s.lost)
  }

  /** Completion was given twice, because of the first address. */
  ghost predicate Failed(s: I2c)
    requires HasMsg(s)
  {
    Quiet(s) && s.cur == 0 && s.idx == 0 && s.status == NotAddrHit && s.lost == {0} && s.wire == []
  }

  ghost predicate Underway(s: I2c, hw: Hardware)
    requires HasMsg(s)
  {
    s.nr == |s.msgs| - s.cur && (s.cur > 0 ==> 0 !in s.lost) && (Running(s, hw) || Refused(s, hw) || Stalled(s, hw))
  }

  ghost predicate Inv(s: I2c, hw: Hardware) {
    && HasMsg(s)
    && (forall k :: k in s.lost ==> k <= s.cur)
    && (forall k :: 0 <= k < s.cur ==> |s.msgs[k].buf| <= hw.max)
    && (match s.done.given
        case 0 => Underway(s, hw)
        case 1 => Ended(s, hw)
        case _ => s.done.given == 2 && Failed(s))
  }

  // ----- One step

  lemma {:induction false} BusKeeps(s: I2c, step: Step, hw: Hardware)
    requires hw.Real() && Inv(s, hw) && CanStep(s, step) && step != Nack && step != Interrupt && step != Wait
    ensures Inv(Next(s, step, hw), hw)
  {
    hide Bytes;
    var t := Next(s, step, hw);
    if step == SendByte {
      assert t.wire + t.fifo == s.wire + s.fifo;
    }
  }

  /** The semaphore plays no part in the invariant. */
  lemma {:induction false} WaitKeeps(s: I2c, hw: Hardware, done: Signal)
    requires Inv(s, hw) && done.given == s.done.given
    ensures Inv(s.(done := done), hw)
  {
    hide Bytes;
  }

  lemma NackKeeps(s: I2c, hw: Hardware)
    requires hw.Real() && Inv(s, hw) && CanStep(s, Nack)
    ensures Inv(Next(s, Nack, hw), hw)
  {
    hide Bytes;
    LostLater(s.msgs, s.cur, s.lost, s.cur);
    assert Running(s, hw);
    assert s.wire + [] == s.wire;
    assert Bytes(s.msgs, s.cur, s.lost) + Buf(s)[..0] == Bytes(s.msgs, s.cur, s.lost);
  }

  /** An enabled interrupt never reads past a message, and no read data waits for it. */
  lemma InterruptSafe(s: I2c, hw: Hardware)
    requires hw.Real() && Inv(s, hw) && CanStep(s, Interrupt)
    ensures Safe(s, hw)
  {
    hide Bytes;
  }

  /** Bytes pushed are the next ones of the message. */
  lemma PushKeeps(s: I2c, hw: Hardware)
    requires hw.Real() && HasMsg(s) && Running(s, hw) && !s.cmpl && !s.addressing && !s.hit
    requires s.fifo == [] && s.onEmpty && s.idx < |Buf(s)|
    ensures Running(Pushed(s, hw), hw)
  {
    hide Bytes;
    var t, whole := Pushed(s, hw), Buf(s);
    assert whole[..s.idx] + whole[s.idx..t.idx] == whole[..t.idx];
    assert s.wire + t.fifo == s.wire + s.fifo + whole[s.idx..t.idx];
  }

  /** An interrupt without a completion event. */
  lemma EventKeeps(s: I2c, hw: Hardware)
    requires hw.Real() && Inv(s, hw) && CanStep(s, Interrupt) && Safe(s, hw) && !s.cmpl
    ensures Inv(AfterIsr(s, hw), hw)
  {
    hide Bytes, Pushed;
    if WantsData(s) && |Buf(s)| > 0 {
      PushKeeps(s, hw);
      PushedKeeps(s, hw);
    }
  }

  lemma {:induction false} PushedKeeps(s: I2c, hw: Hardware)
    requires HasMsg(s) && |s.fifo| < hw.depth && s.idx < |Buf(s)|
    ensures var t := Pushed(s, hw);
            t == s.(fifo := t.fifo, idx := t.idx, onEmpty := t.onEmpty)
  {
  }

  /** The current message is over for the controller, and the driver takes it as acknowledged. */
  ghost predicate Over(s: I2c, hw: Hardware) {
    && HasMsg(s) && s.nr == |s.msgs| - s.cur && s.done.given == 0 && s.status == AddrHit
    && s.fifo == [] && s.left == 0 && s.idx <= |Buf(s)| <= hw.max
    && s.wire == Bytes(s.msgs, s.cur + 1, s.lost)
    && !s.active && !s.addressing && !s.hit
    && 0 !in s.lost
    && (forall k :: k in s.lost ==> k <= s.cur)
    && (forall k :: 0 <= k < s.cur ==> |s.msgs[k].buf| <= hw.max)
  }

  lemma SentIsOver(s: I2c, hw: Hardware)
    requires hw.Real() && Inv(s, hw) && CanStep(s, Interrupt) && Safe(s, hw) && s.cmpl && s.done.given == 0
    requires Running(s, hw)
    ensures Over(AddressPart(s), hw) && AfterIsr(s, hw) == CompletePart(AddressPart(s), hw)
  {
    hide Bytes, Pushed;
    assert s.fifo == [] && s.idx == |Buf(s)| && Buf(s)[..s.idx] == Buf(s);
    assert s.wire + s.fifo == s.wire;
    NextBytes(s.msgs, s.cur, s.lost);
  }

  lemma RefusedIsOver(s: I2c, hw: Hardware)
    requires hw.Real() && Inv(s, hw) && CanStep(s, Interrupt) && Safe(s, hw) && s.cmpl && s.done.given == 0
    requires Refused(s, hw) && s.cur > 0
    ensures Over(AddressPart(s), hw) && AfterIsr(s, hw) == CompletePart(AddressPart(s), hw)
  {
    hide Bytes, Pushed;
    NextBytes(s.msgs, s.cur, s.lost);
    assert Bytes(s.msgs, s.cur, s.lost) + [] == Bytes(s.msgs, s.cur, s.lost);
  }

  lemma OverKeeps(s: I2c, hw: Hardware)
    requires hw.Real() && Over(s, hw)
    ensures Inv(CompletePart(s, hw), hw)
  {
    hide Bytes;
    var t := CompletePart(s, hw);
    if s.nr > 1 && |s.msgs[s.cur + 1].buf| <= hw.max {
      assert t.wire + t.fifo == t.wire && Buf(t)[..0] == [];
      assert Bytes(s.msgs, t.cur, s.lost) + [] == Bytes(s.msgs, t.cur, s.lost);
      assert Running(t, hw);
    }
  }

  lemma FirstRefusedFails(s: I2c, hw: Hardware)
    requires hw.Real() && Inv(s, hw) && CanStep(s, Interrupt) && Safe(s, hw) && s.cmpl && s.done.given == 0
    requires Refused(s, hw) && s.cur == 0
    ensures Inv(AfterIsr(s, hw), hw) && AfterIsr(s, hw).done.given == 2
  {
    hide Pushed;
    assert s.wire == [];
  }

  /** An interrupt with a completion event. */
  lemma CompletionKeeps(s: I2c, hw: Hardware)
    requires hw.Real() && Inv(s, hw) && CanStep(s, Interrupt) && Safe(s, hw) && s.cmpl
    ensures Inv(AfterIsr(s, hw), hw)
  {
    hide Bytes, AfterIsr;
    if Running(s, hw) {
      SentIsOver(s, hw);
      OverKeeps(AddressPart(s), hw);
    } else if s.cur > 0 {
      RefusedIsOver(s, hw);
      OverKeeps(AddressPart(s), hw);
    } else {
      FirstRefusedFails(s, hw);
    }
  }

  /** Every step keeps the invariant, and an interrupt that can come is safe. */
  lemma StepKeepsInv(s: I2c, step: Step, hw: Hardware)
    requires hw.Real() && Inv(s, hw) && CanStep(s, step)
    ensures step == Interrupt ==> Safe(s, hw)
    ensures Inv(Next(s, step, hw), hw)
  {
    hide Inv;
    if step == Interrupt {
      InterruptSafe(s, hw);
      if s.cmpl {
        CompletionKeeps(s, hw);
      } else {
        EventKeeps(s, hw);
      }
    } else if step == Nack {
      NackKeeps(s, hw);
    } else if step == Wait {
      WaitKeeps(s, hw, Taken(s.done));
    } else {
      BusKeeps(s, step, hw);
    }
  }

  /** No step changes the messages, and only a missing acknowledgement the lost ones. */
  lemma {:induction false} LogsStay(s: I2c, step: Step, hw: Hardware)
    requires CanStep(s, step) && (step == Interrupt ==> Safe(s, hw))
    ensures Next(s, step, hw).msgs == s.msgs
    ensures step != Nack ==> Next(s, step, hw).lost == s.lost
  {
    hide AfterIsr;
    if step == Interrupt {
      IsrKeeps(s, hw);
    }
  }

  lemma {:induction false} IsrKeeps(s: I2c, hw: Hardware)
    requires Safe(s, hw)
    ensures AfterIsr(s, hw).msgs == s.msgs && AfterIsr(s, hw).lost == s.lost
  {
    hide AddressPart, TransmitPart, CompletePart;
    var a := AddressPart(s);
    AddressKeeps(s);
    if WantsData(s) {
      TransmitKeeps(a, hw);
      CompleteKeeps(TransmitPart(a, hw), hw);
    } else {
      CompleteKeeps(a, hw);
    }
  }

  /** Where the address part leaves the transfer alone. */
  lemma {:induction false} AddressKeeps(s: I2c)
    ensures var a := AddressPart(s);
            a.msgs == s.msgs && a.lost == s.lost && a.cur == s.cur && a.idx == s.idx && a.fifo == s.fifo
  {
    hide Give;
  }

  lemma {:induction false} TransmitKeeps(s: I2c, hw: Hardware)
    requires HasMsg(s) && |s.fifo| < hw.depth
    requires |Buf(s)| > 0 && s.status != NotAddrHit ==> s.idx < |Buf(s)|
    ensures var t := TransmitPart(s, hw);
            t.msgs == s.msgs && t.lost == s.lost && t.done == s.done
  {
    hide Pushed;
    if |Buf(s)| > 0 && s.status != NotAddrHit {
      PushedKeeps(s, hw);
    }
  }

  lemma {:induction false} CompleteKeeps(s: I2c, hw: Hardware)
    ensures CompletePart(s, hw).msgs == s.msgs && CompletePart(s, hw).lost == s.lost
  {
    hide Restarted, Give;
    var t := s.(onCmpl := false, onFull := false, onEmpty := false, cmpl := false);
    if t.nr > 1 && t.cur + 1 < |t.msgs| {
      RestartedKeeps(t.(nr := t.nr - 1, cur := t.cur + 1, idx := 0), hw);
    }
  }

  lemma {:induction false} RestartedKeeps(s: I2c, hw: Hardware)
    requires HasMsg(s)
    ensures var t := Restarted(s, hw); t.msgs == s.msgs && t.lost == s.lost && t.done == s.done
  {
    hide Buf;
    if |Buf(s)| <= hw.max {
      var t := Issue(s, s.msgs[s.cur].restart, |Buf(s)|);
      assert t.msgs == s.msgs && t.lost == s.lost && t.done == s.done;
    }
  }

  lemma BegunInv(msgs: seq<Msg>, hw: Hardware, sem: nat)
    requires msgs != [] && |msgs[0].buf| <= hw.max && hw.Real()
    ensures Inv(Begun(msgs, sem), hw)
  {
    assert msgs[0].buf[..0] == [];
    assert Running(Begun(msgs, sem), hw);
  }

  lemma {:induction false} RunKeepsInv(states: seq<I2c>, steps: seq<Step>, msgs: seq<Msg>, hw: Hardware, sem: nat)
    requires IsRun(states, steps, msgs, hw, sem)
    ensures Inv(states[|steps|], hw) && states[|steps|].msgs == msgs
  {
    hide Inv, Next, CanStep, Safe;
    if steps == [] {
      BegunInv(msgs, hw, sem);
    } else {
      var n := |steps| - 1;
      var front := states[..n + 1];
      assert forall k :: 0 <= k <= n ==> front[k] == states[k];
      RunKeepsInv(front, steps[..n], msgs, hw, sem);
      StepKeepsInv(states[n], steps[n], hw);
      LogsStay(states[n], steps[n], hw);
    }
  }

  // ----- What it says

  /** Every interrupt that can come in a run is safe: it reads no buffer past its end and finds no data to receive. */
  lemma InterruptsAreSafe(states: seq<I2c>, steps: seq<Step>, msgs: seq<Msg>, hw: Hardware, sem: nat)
    requires IsRun(states, steps, msgs, hw, sem) && CanStep(states[|steps|], Interrupt)
    ensures Safe(states[|steps|], hw)
  {
    hide Inv, Next, CanStep, Safe;
    RunKeepsInv(states, steps, msgs, hw, sem);
    InterruptSafe(states[|steps|], hw);
  }

  lemma {:induction false} BytesPrefix(msgs: seq<Msg>, n: nat, m: nat, lost: set<nat>)
    requires n <= m <= |msgs|
    ensures Bytes(msgs, n, lost) <= Bytes(msgs, m, lost)
  {
    if n < m {
      BytesPrefix(msgs, n, m - 1, lost);
    }
  }

  lemma WirePrefix(wire: seq<byte>, fifo: seq<byte>, sent: seq<byte>, buf: seq<byte>, idx: nat)
    requires idx <= |buf| && wire + fifo == sent + buf[..idx]
    ensures wire <= sent + buf
  {
    assert wire == (wire + fifo)[..|wire|];
    assert sent + buf[..idx] == (sent + buf)[..|sent| + idx];
  }

  /**
   Over every run, for any FIFO depth: the wire carries a prefix of the acknowledged messages one after the
   other and no index passes its message's length; completion is given at most once, at the last message and
   with all acknowledged messages sent, or else twice, exactly if the first address was not acknowledged.
   */
  lemma WritesArrive(states: seq<I2c>, steps: seq<Step>, msgs: seq<Msg>, hw: Hardware, sem: nat)
    requires IsRun(states, steps, msgs, hw, sem)
    ensures var s := states[|steps|];
            && s.cur < |msgs| && s.idx <= |msgs[s.cur].buf| && |s.fifo| <= hw.depth
            && s.wire <= Bytes(msgs, |msgs|, s.lost)
            && s.done.given <= 2
            && (s.done.given == 1 ==> s.wire == Bytes(msgs, |msgs|, s.lost) && s.cur == |msgs| - 1)
            && (s.done.given > 0 ==> (s.done.given == 2 <==> 0 in s.lost) && (s.status == NotAddrHit <==> 0 in s.lost))
  {
    hide Bytes, Next, CanStep, Safe;
    RunKeepsInv(states, steps, msgs, hw, sem);
    var s := states[|steps|];
    BytesPrefix(msgs, s.cur, |msgs|, s.lost);
    if s.done.given == 0 && Running(s, hw) {
      BytesPrefix(msgs, s.cur + 1, |msgs|, s.lost);
      NextBytes(msgs, s.cur, s.lost);
      WirePrefix(s.wire, s.fifo, Bytes(msgs, s.cur, s.lost), Buf(s), s.idx);
    }
  }

  /** With every address acknowledged these are all messages, and completion is given at most once. */
  lemma AcknowledgedWritesArrive(states: seq<I2c>, steps: seq<Step>, msgs: seq<Msg>, hw: Hardware, sem: nat)
    requires IsRun(states, steps, msgs, hw, sem) && Nack !in steps
    ensures var s := states[|steps|];
            && s.wire <= Bytes(msgs, |msgs|, {}) && s.done.given <= 1
            && (s.done.given == 1 ==> s.wire == Bytes(msgs, |msgs|, {}) && s.status == AddrHit)
  {
    hide Bytes, Next, CanStep, Safe;
    WritesArrive(states, steps, msgs, hw, sem);
    RunKeepsInv(states, steps, msgs, hw, sem);
    NothingLost(states, steps, msgs, hw, sem);
  }

  lemma {:induction false} NothingLost(states: seq<I2c>, steps: seq<Step>, msgs: seq<Msg>, hw: Hardware, sem: nat)
    requires IsRun(states, steps, msgs, hw, sem) && Nack !in steps
    ensures states[|steps|].lost == {}
  {
    hide Bytes, Next, CanStep, Safe;
    if steps != [] {
      var n := |steps| - 1;
      var front := states[..n + 1];
      assert forall k :: 0 <= k <= n ==> front[k] == states[k];
      assert steps[n] in steps;
      NothingLost(front, steps[..n], msgs, hw, sem);
      LogsStay(states[n], steps[n], hw);
    }
  }

  lemma {:induction false} LostShortens(msgs: seq<Msg>, n: nat, lost: set<nat>)
    requires n <= |msgs|
    ensures |Bytes(msgs, n, lost)| <= |Bytes(msgs, n, {})|
    ensures (forall k: nat :: k < n && k in lost ==> msgs[k].buf == []) ==> Bytes(msgs, n, lost) == Bytes(msgs, n, {})
    ensures (exists k: nat :: k < n && k in lost && msgs[k].buf != []) ==> |Bytes(msgs, n, lost)| < |Bytes(msgs, n, {})|
  {
    if n > 0 {
      LostShortens(msgs, n - 1, lost);
    }
  }

  /**
   A transfer that reports success has sent every message exactly if those whose address was not acknowledged
   were empty: after the first message the driver does not notice.
   */
  lemma {:induction false} SuccessIsCompleteIff(states: seq<I2c>, steps: seq<Step>, msgs: seq<Msg>, hw: Hardware, sem: nat)
    requires IsRun(states, steps, msgs, hw, sem)
    requires states[|steps|].done.given > 0 && states[|steps|].status != NotAddrHit
    ensures var s := states[|steps|];
            && (forall k :: k in s.lost ==> 0 < k < |msgs|)
            && (s.wire == Bytes(msgs, |msgs|, {}) <==> forall k :: k in s.lost ==> msgs[k].buf == [])
  {
    hide Bytes, Next, CanStep, Safe;
    RunKeepsInv(states, steps, msgs, hw, sem);
    var s := states[|steps|];
    LostShortens(msgs, |msgs|, s.lost);
    if exists k :: k in s.lost && msgs[k].buf != [] {
      var k: nat :| k in s.lost && msgs[k].buf != [];
      assert k < |msgs|;
    }
  }

  /**
   Before completion the transfer can go on exactly if the controller accepts the current message's length:
   only the first message's length is checked before the transfer, and the refusal of a later one is ignored.
   */
  lemma StuckIffTooLong(states: seq<I2c>, steps: seq<Step>, msgs: seq<Msg>, hw: Hardware, sem: nat)
    requires IsRun(states, steps, msgs, hw, sem) && states[|steps|].done.given == 0
    ensures var s := states[|steps|];
            s.cur < |msgs| && ((forall step :: step != Wait ==> !CanStep(s, step)) <==> |msgs[s.cur].buf| > hw.max)
  {
    hide Bytes, Next, Safe;
    RunKeepsInv(states, steps, msgs, hw, sem);
    var s := states[|steps|];
    if Running(s, hw) {
      assert CanStep(s, Hit) || CanStep(s, Interrupt) || CanStep(s, SendByte) || CanStep(s, Complete);
    } else if Refused(s, hw) {
      assert CanStep(s, Interrupt);
    }
  }

  /** After completion no interrupt comes, so nothing gives it again; and on success every message was accepted. */
  lemma NothingAfterCompletion(states: seq<I2c>, steps: seq<Step>, msgs: seq<Msg>, hw: Hardware, sem: nat)
    requires IsRun(states, steps, msgs, hw, sem) && states[|steps|].done.given > 0
    ensures !CanStep(states[|steps|], Interrupt)
    ensures states[|steps|].done.given == 1 ==> forall k :: 0 <= k < |msgs| ==> |msgs[k].buf| <= hw.max
  {
    hide Bytes, Next, Safe;
    RunKeepsInv(states, steps, msgs, hw, sem);
  }

  // ----- Where the controller sends a start and the address

  /** The first message and, of the first `n`, those flagged for a restart. */
  function Flagged(msgs: seq<Msg>, n: nat): seq<nat>
    requires n <= |msgs|
  {
    if n == 0 then [] else Flagged(msgs, n - 1) + if n == 1 || msgs[n - 1].restart then [n - 1] else []
  }

  /** The messages up to the current one have been started; one that is too long is not. */
  ghost predicate StartsInv(s: I2c, hw: Hardware) {
    && HasMsg(s)
    && s.starts == Flagged(s.msgs, if |Buf(s)| <= hw.max then s.cur + 1 else s.cur)
    && (s.addressing || s.hit ==> s.cur == 0 || s.msgs[s.cur].restart)
  }

  /** What the invariant looks at stays, but for the address phase, which can end. */
  lemma StartsView(s: I2c, t: I2c, hw: Hardware)
    requires StartsInv(s, hw) && t.msgs == s.msgs && t.cur == s.cur && t.starts == s.starts
    requires t.addressing || t.hit ==> s.addressing || s.hit
    ensures StartsInv(t, hw)
  {
  }

  /** A step of the bus or of the caller changes no place, no log of starts, and begins no address phase. */
  lemma {:induction false} BusStarts(s: I2c, step: Step, hw: Hardware)
    requires CanStep(s, step) && step != Interrupt
    ensures var t := Next(s, step, hw); t.msgs == s.msgs && t.cur == s.cur && t.starts == s.starts
    ensures var t := Next(s, step, hw); t.addressing || t.hit ==> s.addressing || s.hit
  {
    hide Taken, AfterIsr, Safe;
    match step
    case Hit =>
    case Nack =>
    case SendByte =>
    case Complete =>
    case Wait =>
  }

  lemma {:induction false} AddressStarts(s: I2c)
    ensures var a := AddressPart(s);
            && a.msgs == s.msgs && a.cur == s.cur && a.starts == s.starts
            && (a.addressing || a.hit ==> s.addressing || s.hit)
  {
    hide Give;
  }

  lemma {:induction false} TransmitStarts(s: I2c, hw: Hardware)
    requires HasMsg(s) && |s.fifo| < hw.depth
    requires |Buf(s)| > 0 && s.status != NotAddrHit ==> s.idx < |Buf(s)|
    ensures var t := TransmitPart(s, hw);
            && t.msgs == s.msgs && t.cur == s.cur && t.starts == s.starts && t.addressing == s.addressing && t.hit == s.hit
  {
    hide Pushed;
    if |Buf(s)| > 0 && s.status != NotAddrHit {
      PushedKeeps(s, hw);
    }
  }

  /** The next message is started, if it is flagged, or goes on without a start. */
  lemma {:induction false} RestartStarts(s: I2c, hw: Hardware)
    requires HasMsg(s) && !s.addressing && !s.hit && s.cur > 0 && s.starts == Flagged(s.msgs, s.cur)
    ensures StartsInv(Restarted(s, hw), hw)
  {
    hide Flagged;
    NextFlagged(s.msgs, s.cur);
    assert s.starts + [] == s.starts;
  }

  lemma NextFlagged(msgs: seq<Msg>, n: nat)
    requires 0 < n < |msgs|
    ensures Flagged(msgs, n + 1) == Flagged(msgs, n) + if msgs[n].restart then [n] else []
  {
  }

  lemma {:induction false} CompleteStarts(s: I2c, hw: Hardware)
    requires StartsInv(s, hw) && |Buf(s)| <= hw.max && !s.addressing && !s.hit
    ensures StartsInv(CompletePart(s, hw), hw)
  {
    hide Restarted, Give, Flagged, StartsInv;
    StartedUpTo(s, hw);
    var t := s.(onCmpl := false, onFull := false, onEmpty := false, cmpl := false);
    if t.nr > 1 && t.status == AddrHit && t.cur + 1 < |t.msgs| {
      RestartStarts(t.(nr := t.nr - 1, cur := t.cur + 1, idx := 0), hw);
    } else {
      StartsView(s, CompletePart(s, hw), hw);
    }
  }

  lemma StartedUpTo(s: I2c, hw: Hardware)
    requires StartsInv(s, hw) && |Buf(s)| <= hw.max
    ensures s.starts == Flagged(s.msgs, s.cur + 1)
  {
  }

  /** When an interrupt comes the current message is with the controller; at its completion the address phase is over. */
  lemma {:induction false} AtInterrupt(s: I2c, hw: Hardware)
    requires Inv(s, hw) && CanStep(s, Interrupt)
    ensures |Buf(s)| <= hw.max && (s.cmpl ==> !s.addressing)
    ensures AddressPart(s).hit ==> !s.cmpl
  {
    hide Bytes;
  }

  lemma {:induction false} IsrStarts(s: I2c, hw: Hardware)
    requires hw.Real() && Inv(s, hw) && StartsInv(s, hw) && CanStep(s, Interrupt) && Safe(s, hw)
    ensures StartsInv(AfterIsr(s, hw), hw)
  {
    hide Inv, CanStep, AddressPart, TransmitPart, CompletePart, StartsInv, Flagged;
    AtInterrupt(s, hw);
    AddressStarts(s);
    AddressKeeps(s);
    var a := AddressPart(s);
    StartsView(s, a, hw);
    var b := if WantsData(s) then TransmitPart(a, hw) else a;
    if WantsData(s) {
      TransmitStarts(a, hw);
      StartsView(a, b, hw);
    }
    if s.cmpl {
      NotAddressing(s);
      CompleteStarts(b, hw);
    }
  }

  lemma NotAddressing(s: I2c)
    requires !s.addressing
    ensures !AddressPart(s).addressing
  {
  }

  lemma {:induction false} RunKeepsStarts(states: seq<I2c>, steps: seq<Step>, msgs: seq<Msg>, hw: Hardware, sem: nat)
    requires IsRun(states, steps, msgs, hw, sem)
    ensures StartsInv(states[|steps|], hw)
  {
    hide Inv, Next, CanStep, Safe, StartsInv;
    if steps == [] {
      BegunStarts(msgs, hw, sem);
    } else {
      var n := |steps| - 1;
      var front := states[..n + 1];
      assert forall k :: 0 <= k <= n ==> front[k] == states[k];
      RunKeepsStarts(front, steps[..n], msgs, hw, sem);
      RunKeepsInv(front, steps[..n], msgs, hw, sem);
      if steps[n] == Interrupt {
        IsrStarts(states[n], hw);
        InterruptIs(states[n], hw);
      } else {
        BusStarts(states[n], steps[n], hw);
        StartsView(states[n], states[n + 1], hw);
      }
    }
  }

  lemma InterruptIs(s: I2c, hw: Hardware)
    requires CanStep(s, Interrupt) && Safe(s, hw)
    ensures Next(s, Interrupt, hw) == AfterIsr(s, hw)
  {
  }

  lemma BegunStarts(msgs: seq<Msg>, hw: Hardware, sem: nat)
    requires msgs != [] && |msgs[0].buf| <= hw.max
    ensures StartsInv(Begun(msgs, sem), hw)
  {
    assert Flagged(msgs, 1) == Flagged(msgs, 0) + [0];
  }

  /**
   Over every run the controller sends a start and the address at the first message and at exactly those flagged
   for a restart, in order, up to the current one. An address is answered, or not, only there, and until the
   driver has seen the answer no byte of that message is on the wire.
   */
  lemma StartsAreFlagged(states: seq<I2c>, steps: seq<Step>, msgs: seq<Msg>, hw: Hardware, sem: nat)
    requires IsRun(states, steps, msgs, hw, sem)
    ensures var s := states[|steps|];
            && s.cur < |msgs|
            && s.starts == Flagged(msgs, if |msgs[s.cur].buf| <= hw.max then s.cur + 1 else s.cur)
            && (s.addressing || s.hit ==>
                  (s.cur == 0 || msgs[s.cur].restart) && s.idx == 0 && s.fifo == [] && s.wire == Bytes(msgs, s.cur, s.lost))
            && (CanStep(s, Hit) || CanStep(s, Nack) ==> s.cur == 0 || msgs[s.cur].restart)
  {
    hide Bytes, Next, Safe, Flagged;
    RunKeepsInv(states, steps, msgs, hw, sem);
    RunKeepsStarts(states, steps, msgs, hw, sem);
    var s := states[|steps|];
    if s.addressing || s.hit {
      assert Running(s, hw);
      assert s.wire + [] == s.wire;
      assert Bytes(msgs, s.cur, s.lost) + Buf(s)[..0] == Bytes(msgs, s.cur, s.lost);
    }
  }

  // ----- The completion semaphore over several transfers

  /** The caller came to wait before completion was given. */
  ghost predicate WaitedFirst(states: seq<I2c>, steps: seq<Step>)
    requires |states| == |steps| + 1
  {
    exists k :: 0 <= k < |steps| && WaitsAt(states[k], steps[k])
  }

  predicate WaitsAt(s: I2c, step: Step) {
    step == Wait && s.done.given == 0
  }

  lemma WaitedSnoc(states: seq<I2c>, steps: seq<Step>, front: seq<I2c>)
    requires |states| == |steps| + 1 && steps != [] && front == states[..|steps|]
    ensures WaitedFirst(states, steps) <==>
              WaitedFirst(front, steps[..|steps| - 1]) || WaitsAt(states[|steps| - 1], steps[|steps| - 1])
  {
    hide WaitsAt;
    var n := |steps| - 1;
    assert forall k :: 0 <= k < n ==> front[k] == states[k] && steps[..n][k] == steps[k];
    if WaitedFirst(states, steps) && !WaitsAt(states[n], steps[n]) {
      var k :| 0 <= k < |steps| && WaitsAt(states[k], steps[k]);
      assert WaitsAt(front[k], steps[..n][k]);
    } else if WaitedFirst(front, steps[..n]) {
      var k :| 0 <= k < n && WaitsAt(front[k], steps[..n][k]);
      assert WaitsAt(states[k], steps[k]);
    }
  }

  /**
   The count, by where the caller stands: `sem` is what was left over when the transfer began, and `first`
   says whether the caller came to wait before completion was given.
   */
  ghost predicate SemInv(g: Signal, sem: nat, first: bool) {
    match g.waiter
    case NotYet => !first && g.sem == Min(1, sem + g.given)
    case Waiting => first && sem == 0 && g.given == 0 && g.sem == 0
    case Returned =>
      if first then sem + g.given > 0 && g.sem == Min(1, sem + g.given - 1) else g.given > 0 && g.sem == 0
  }

  lemma GiveKeepsSem(g: Signal, sem: nat, first: bool)
    requires sem <= 1 && SemInv(g, sem, first) && (g.waiter == Returned ==> first)
    ensures SemInv(Give(g), sem, first) && (Give(g).waiter == Returned ==> first)
  {
  }

  /** The wait takes the semaphore once, an interrupt gives it at most twice, and no other step touches it. */
  lemma {:induction false} SignalSteps(s: I2c, step: Step, hw: Hardware)
    requires CanStep(s, step) && (step == Interrupt ==> Safe(s, hw))
    ensures var g := Next(s, step, hw).done;
            if step == Wait then g == Taken(s.done)
            else g == s.done || (step == Interrupt && (g == Give(s.done) || g == Give(Give(s.done))))
  {
    hide AfterIsr, Give, Taken;
    if step == Interrupt {
      IsrSignal(s, hw);
    }
  }

  lemma {:induction false} IsrSignal(s: I2c, hw: Hardware)
    requires Safe(s, hw)
    ensures var g := AfterIsr(s, hw).done; g == s.done || g == Give(s.done) || g == Give(Give(s.done))
  {
    hide Give, AddressPart, TransmitPart, CompletePart;
    var a := AddressPart(s);
    AddressSignal(s);
    AddressKeeps(s);
    if WantsData(s) {
      TransmitKeeps(a, hw);
      CompletionSignal(TransmitPart(a, hw), hw);
    } else {
      CompletionSignal(a, hw);
    }
  }

  lemma {:induction false} AddressSignal(s: I2c)
    ensures AddressPart(s).done == s.done || AddressPart(s).done == Give(s.done)
  {
    hide Give;
  }

  lemma {:induction false} CompletionSignal(s: I2c, hw: Hardware)
    ensures var t := CompletePart(s, hw); t.done == s.done || t.done == Give(s.done)
  {
    hide Restarted, Give;
    var t := s.(onCmpl := false, onFull := false, onEmpty := false, cmpl := false);
    if t.nr > 1 && t.cur + 1 < |t.msgs| {
      RestartedKeeps(t.(nr := t.nr - 1, cur := t.cur + 1, idx := 0), hw);
    }
  }

  /** No give comes after completion, so a caller that came late is not given one. */
  lemma StepKeepsSem(s: I2c, step: Step, hw: Hardware, sem: nat, first: bool)
    requires sem <= 1 && hw.Real() && Inv(s, hw) && SemInv(s.done, sem, first)
    requires CanStep(s, step) && (step == Interrupt ==> Safe(s, hw))
    ensures SemInv(Next(s, step, hw).done, sem, first || WaitsAt(s, step))
  {
    hide Next, Safe, Inv, CanStep, Give, Taken, SemInv;
    SignalSteps(s, step, hw);
    if step == Wait {
      TakesAtWait(s, hw);
      TakeKeepsSem(s.done, sem, first);
    } else if step == Interrupt {
      GivenOnce(s, hw);
      ReturnedFirst(s.done, sem, first);
      if s.done.waiter != Returned || first {
        GiveKeepsSem(s.done, sem, first);
        GiveKeepsSem(Give(s.done), sem, first);
      }
    }
  }

  lemma TakeKeepsSem(g: Signal, sem: nat, first: bool)
    requires sem <= 1 && SemInv(g, sem, first) && g.waiter == NotYet
    ensures SemInv(Taken(g), sem, first || g.given == 0)
  {
  }

  lemma {:induction false} TakesAtWait(s: I2c, hw: Hardware)
    requires CanStep(s, Wait)
    ensures s.done.waiter == NotYet && Next(s, Wait, hw).done == Taken(s.done)
  {
    hide Taken;
  }

  lemma ReturnedFirst(g: Signal, sem: nat, first: bool)
    requires SemInv(g, sem, first) && g.given == 0
    ensures g.waiter == Returned ==> first
  {
  }

  lemma GivenOnce(s: I2c, hw: Hardware)
    requires Inv(s, hw) && CanStep(s, Interrupt)
    ensures s.done.given == 0
  {
    hide Running, Refused, Stalled;
  }

  lemma {:induction false} RunKeepsSem(states: seq<I2c>, steps: seq<Step>, msgs: seq<Msg>, hw: Hardware, sem: nat)
    requires IsRun(states, steps, msgs, hw, sem)
    ensures SemInv(states[|steps|].done, sem, WaitedFirst(states, steps))
  {
    hide Next, CanStep, Safe, Inv, WaitedFirst, WaitsAt, SemInv;
    if steps == [] {
      BegunSem(states, steps, msgs, sem);
    } else {
      var n := |steps| - 1;
      var front := states[..n + 1];
      assert forall k :: 0 <= k <= n ==> front[k] == states[k];
      RunKeepsSem(front, steps[..n], msgs, hw, sem);
      RunKeepsInv(front, steps[..n], msgs, hw, sem);
      StepKeepsSem(states[n], steps[n], hw, sem, WaitedFirst(front, steps[..n]));
      WaitedSnoc(states, steps, front);
    }
  }

  lemma BegunSem(states: seq<I2c>, steps: seq<Step>, msgs: seq<Msg>, sem: nat)
    requires |states| == 1 && steps == [] && msgs != [] && sem <= 1 && states[0] == Begun(msgs, sem)
    ensures SemInv(states[0].done, sem, WaitedFirst(states, steps))
  {
  }

  /** In every run the transfer has returned only after a give of its own. */
  ghost predicate WaitsForItsOwn(msgs: seq<Msg>, hw: Hardware, sem: nat) {
    forall states: seq<I2c>, steps: seq<Step> ::
      IsRun(states, steps, msgs, hw, sem) && states[|steps|].done.waiter == Returned ==> states[|steps|].done.given > 0
  }

  /** A transfer waits for its own completion exactly if none was left over when it began. */
  lemma WaitsForItsOwnIff(msgs: seq<Msg>, hw: Hardware, sem: nat)
    requires msgs != [] && |msgs[0].buf| <= hw.max && hw.Real() && sem <= 1
    ensures WaitsForItsOwn(msgs, hw, sem) <==> sem == 0
  {
    if sem == 0 {
      forall states: seq<I2c>, steps: seq<Step> | IsRun(states, steps, msgs, hw, sem) && states[|steps|].done.waiter == Returned
        ensures states[|steps|].done.given > 0
      {
        RunKeepsSem(states, steps, msgs, hw, sem);
      }
    } else {
      var s := Begun(msgs, sem);
      var states, steps := [s, Next(s, Wait, hw)], [Wait];
      assert IsRun(states, steps, msgs, hw, sem);
      assert states[|steps|].done.waiter == Returned && states[|steps|].done.given == 0;
    }
  }

  /**
   What a transfer leaves over for the next one, once it has returned and been completed: a give is left over
   exactly if the caller came to wait before completion, and the first address was not acknowledged or a give
   had been left over before. A caller that comes later takes what the limit of 1 has kept.
   */
  lemma {:induction false} LeftOverIff(states: seq<I2c>, steps: seq<Step>, msgs: seq<Msg>, hw: Hardware, sem: nat)
    requires IsRun(states, steps, msgs, hw, sem)
    requires states[|steps|].done.waiter == Returned && states[|steps|].done.given > 0
    ensures var s := states[|steps|];
            s.done.sem > 0 <==> WaitedFirst(states, steps) && (0 in s.lost || sem == 1)
  {
    hide Next, CanStep, Safe, WaitedFirst;
    RunKeepsSem(states, steps, msgs, hw, sem);
    WritesArrive(states, steps, msgs, hw, sem);
  }

  /**
   A first address that is not acknowledged gives completion twice: one give wakes the caller, the other one
   is left over, and the next transfer returns at once, with nothing sent.
   */
  lemma NackGivesTwice(msgs: seq<Msg>, more: seq<Msg>, hw: Hardware)
    requires msgs != [] && |msgs[0].buf| <= hw.max && hw.Real() && more != []
    ensures var s := Next(Next(Begun(msgs, 0), Wait, hw), Nack, hw);
            && s.done.waiter == Waiting && CanStep(s, Interrupt) && Safe(s, hw)
            && var t := Next(s, Interrupt, hw);
               && t.done.given == 2 && t.status == NotAddrHit && t.wire == [] && t.done.waiter == Returned && t.done.sem == 1
               && var u := Next(Begun(more, t.done.sem), Wait, hw);
                  u.done.waiter == Returned && u.done.given == 0 && u.wire == []
  {
  }

  /** On a controller at rest a transfer begins as the runs do. */
  lemma {:induction false} BegunAtRest(s: I2c, msgs: seq<Msg>)
    requires msgs != []
    ensures BegunOver(s, msgs) == Begun(msgs, s.done.sem) <==> !s.hit && !s.onEmpty && !s.onFull
  {
  }

  /**
   A transfer begun while one whose call returned early still runs: an interrupt can come before the new
   address was sent exactly if an address hit is pending or the FIFO interrupt is enabled. In the second case
   it is taken for a missing acknowledgement: the new transfer fails, though no address was refused.
   */
  lemma {:induction false} OvertakingFails(s: I2c, msgs: seq<Msg>, hw: Hardware)
    requires msgs != [] && |msgs[0].buf| <= hw.max && hw.Real()
    ensures var t := BegunOver(s, msgs);
            && t.addressing && (CanStep(t, Interrupt) <==> s.hit || s.onEmpty)
            && (s.onEmpty && !s.hit ==>
                  && Safe(t, hw)
                  && var u := Next(t, Interrupt, hw);
                     u.status == NotAddrHit && u.done.given == 1 && u.lost == {} && u.wire == [] && !u.onEmpty)
            && (s.hit ==> Safe(t, hw) && Next(t, Interrupt, hw).status == AddrHit)
  {
    hide Pushed;
    var t := BegunOver(s, msgs);
    var a := AddressPart(t);
    if s.hit && s.onEmpty && |msgs[0].buf| > 0 {
      PushedKeeps(a, hw);
    }
  }

  /** The way there: a first give left over, the next call returns at once, and its address is acknowledged. */
  lemma EarlyReturnEnablesFifo(msgs: seq<Msg>, hw: Hardware)
    requires msgs != [] && |msgs[0].buf| <= hw.max && hw.Real()
    ensures var s := Next(Next(Begun(msgs, 1), Wait, hw), Hit, hw);
            && s.done.waiter == Returned && CanStep(s, Interrupt) && Safe(s, hw)
            && var t := Next(s, Interrupt, hw);
               t.done.waiter == Returned && t.onEmpty && !t.hit && t.wire == []
  {
  }

  /** The first of two messages of a byte each, up to the second one's start. */
  lemma FirstByteSent(msgs: seq<Msg>, hw: Hardware) returns (states: seq<I2c>, steps: seq<Step>)
    requires msgs == [Msg([1], false), Msg([2], true)] && hw == Hardware(4, 256)
    ensures IsRun(states, steps, msgs, hw, 0)
    ensures var s := states[|steps|];
            && s.msgs == msgs && s.cur == 1 && s.nr == 1 && s.status == AddrHit && s.wire == [1] && s.fifo == []
            && s.addressing && !s.hit && s.onCmpl && !s.onEmpty && s.done == Signal(0, NotYet, 0)
  {
    var s0 := Begun(msgs, 0);
    var s1 := Next(s0, Hit, hw);
    var s2 := Next(s1, Interrupt, hw);
    var s3 := Next(s2, Interrupt, hw);
    var s4 := Next(s3, SendByte, hw);
    var s5 := Next(s4, Complete, hw);
    var s6 := Next(s5, Interrupt, hw);
    assert s6.msgs == msgs && s6.cur == 1 && s6.nr == 1 && s6.status == AddrHit && s6.wire == [1] && s6.fifo == [];
    assert s6.addressing && !s6.hit && s6.onCmpl && !s6.onEmpty && s6.done == s0.done;
    hide Next, CanStep, Safe;
    states := [s0, s1, s2, s3, s4, s5, s6];
    steps := [Hit, Interrupt, Interrupt, SendByte, Complete, Interrupt];
  }

  /** Two messages of a byte each, the second one's address not acknowledged: success, with one byte sent. */
  lemma LaterNackUnnoticed() returns (states: seq<I2c>, steps: seq<Step>)
    ensures var msgs, hw := [Msg([1], false), Msg([2], true)], Hardware(4, 256);
            && IsRun(states, steps, msgs, hw, 0)
            && states[|steps|].done.given == 1 && states[|steps|].status == AddrHit && states[|steps|].wire == [1]
  {
    var msgs, hw := [Msg([1], false), Msg([2], true)], Hardware(4, 256);
    var front, first := FirstByteSent(msgs, hw);
    var s := front[|first|];
    var t := Next(s, Nack, hw);
    var u := Next(t, Interrupt, hw);
    assert u.done.given == 1 && u.status == AddrHit && u.wire == [1];
    hide Next, CanStep, Safe;
    states := front + [t, u];
    steps := first + [Nack, Interrupt];
  }
}
