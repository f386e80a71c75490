/** The camera driver's buffer queues and the rotating searches of its interrupt handler. */
module Camera {
  import opened Words

  /** A video buffer: `id` stands for the pointer to it, `addr` for its memory. */
  datatype VBuf = VBuf(id: nat, addr: u32)

  /**
   `internal` is the buffer the driver allocates for itself until the first frame, `second` the index that
   selects the register the next start of frame updates, `fb1` and `fb2` the frame registers.
   */
  datatype Cam = Cam(
    fifoIn: seq<VBuf>,
    fifoOut: seq<VBuf>,
    internal: Option<u32>,
    second: bool,
    fb1: u32,
    fb2: u32)

  predicate Distinct(q: seq<VBuf>) {
    forall i, j :: 0 <= i < j < |q| ==> q[i].id != q[j].id
  }

  /** The position of the first entry whose address is, or is not, the given one; past the end if none. */
  function FirstAt(q: seq<VBuf>, addr: u32, same: bool): (k: nat)
    ensures k <= |q|
    ensures forall j :: 0 <= j < k ==> (q[j].addr == addr) != same
    ensures k < |q| ==> (q[k].addr == addr) == same
  {
    if q == [] then 0
    else if (q[0].addr == addr) == same then 0
    else 1 + FirstAt(q[1..], addr, same)
  }

  lemma FirstAtIs(q: seq<VBuf>, addr: u32, same: bool, k: nat)
    requires k <= |q| && (k < |q| ==> (q[k].addr == addr) == same)
    requires forall j :: 0 <= j < k ==> (q[j].addr == addr) != same
    ensures FirstAt(q, addr, same) == k
  {
  }

  function Rotated(q: seq<VBuf>, k: nat): (r: seq<VBuf>)
    requires k <= |q|
    ensures |r| == |q|
  {
    q[k..] + q[..k]
  }

  /** A fruitless search leaves the queue turned by one. */
  function Turned(q: seq<VBuf>): seq<VBuf> {
    if q == [] then [] else Rotated(q, 1)
  }

  /** Taking the head of a turned queue, and putting it back. */
  lemma TakeHead(q: seq<VBuf>, k: nat)
    requires k <= |q|
    ensures Rotated(q, 0) == q && (q == [] ==> Turned(q) == q)
    ensures q != [] ==>
              var r := Rotated(q, k);
              && r != [] && r[0] == q[if k < |q| then k else 0]
              && r[1..] + [r[0]] == (if k < |q| then Rotated(q, k + 1) else Turned(q))
              && (k < |q| ==> r[1..] == q[k + 1..] + q[..k])
  {
  }

  /** The search for a finished frame: what it takes out, and the queue it leaves. */
  function Search(q: seq<VBuf>, addr: u32): (Option<VBuf>, seq<VBuf>) {
    var k := FirstAt(q, addr, true);
    if k < |q| then (Some(q[k]), q[k + 1..] + q[..k]) else (None, Turned(q))
  }

  function Active(c: Cam): u32 {
    if c.second then c.fb2 else c.fb1
  }

  /** A start of frame. */
  function AfterSof(c: Cam): Cam {
    if c.internal.Some? then c
    else
      var k := FirstAt(c.fifoIn, Active(c), false);
      if k == |c.fifoIn| then c.(fifoIn := Turned(c.fifoIn))
      else
        var d := c.(fifoIn := Rotated(c.fifoIn, k + 1));
        if c.second then d.(fb2 := c.fifoIn[k].addr) else d.(fb1 := c.fifoIn[k].addr)
  }

  /** The frame at an address is finished. */
  function AfterDone(c: Cam, addr: u32): Cam {
    var (found, rest) := Search(c.fifoIn, addr);
    c.(fifoIn := rest, fifoOut := if found.Some? then c.fifoOut + [found.value] else c.fifoOut)
  }

  /** The interrupt; an interrupt for a start of frame alone searches for address 0. */
  function AfterIsr(c: Cam, sof: bool, done1: bool, done2: bool): Cam {
    var a := if sof then AfterSof(c) else c;
    if done1 then
      if a.internal == Some(a.fb1) then a.(internal := None) else AfterDone(a.(second := false), a.fb1)
    else if done2 then
      if a.internal == Some(a.fb2) then a.(internal := None) else AfterDone(a.(second := true), a.fb2)
    else AfterDone(a, 0)
  }

  class Driver {
    var fifoIn: seq<VBuf>
    var fifoOut: seq<VBuf>
    var internal: Option<u32>
    var second: bool
    var fb1: u32
    var fb2: u32
    // how often a search took an entry from the queue
    ghost var gets: nat

    ghost function View(): Cam
      reads this
    {
      Cam(fifoIn, fifoOut, internal, second, fb1, fb2)
    }

    constructor (fb1: u32, fb2: u32)
      ensures View() == Cam([], [], None, false, fb1, fb2)
    {
      fifoIn, fifoOut, internal, second := [], [], None, false;
      this.fb1, this.fb2, gets := fb1, fb2, 0;
    }

    method Get() returns (vbuf: VBuf)
      requires fifoIn != []
      modifies `fifoIn, `gets
      ensures vbuf == old(fifoIn)[0] && fifoIn == old(fifoIn)[1..] && gets == old(gets) + 1
    {
      vbuf, fifoIn := fifoIn[0], fifoIn[1..];
      gets := gets + 1;
    }

    method Put(vbuf: VBuf)
      modifies `fifoIn
      ensures fifoIn == old(fifoIn) + [vbuf]
    {
      fifoIn := fifoIn + [vbuf];
    }

    /** The register that is due gets an address it does not hold. */
    method LoadIfNew(addr: u32) returns (loaded: bool)
      modifies `fb1, `fb2
      ensures loaded <==> addr != old(Active(View()))
      ensures fb1 == if loaded && !second then addr else old(fb1)
      ensures fb2 == if loaded && second then addr else old(fb2)
    {
      loaded := false;
      if addr != fb1 && !second {
        fb1, loaded := addr, true;
      } else if addr != fb2 && second {
        fb2, loaded := addr, true;
      }
    }

    /** The search of the start-of-frame branch, while the driver has no buffer of its own. */
    method StartOfFrame()
      requires Distinct(fifoIn) && internal == None
      modifies `fifoIn, `fb1, `fb2, `gets
      ensures View() == AfterSof(old(View()))
      ensures gets <= old(gets) + |old(fifoIn)| + 1
    {
      hide Rotated, Turned;
      LoadNext(Active(View()));
    }

    method LoadNext(ghost active: u32)
      requires Distinct(fifoIn) && active == Active(View())
      modifies `fifoIn, `fb1, `fb2, `gets
      ensures var q := old(fifoIn);
              var k := FirstAt(q, active, false);
              && fifoIn == (if k < |q| then Rotated(q, k + 1) else Turned(q))
              && fb1 == (if k < |q| && !second then q[k].addr else old(fb1))
              && fb2 == (if k < |q| && second then q[k].addr else old(fb2))
      ensures gets <= old(gets) + |old(fifoIn)| + 1
    {
      hide Rotated, FirstAt, Turned;
      ghost var q, k := fifoIn, 0;
      TakeHead(q, 0);
      var fifoIndex, first := 0, None;
      while fifoIn != []
        invariant 0 <= k <= |q| && fifoIn == Rotated(q, k) && fifoIndex == k
        invariant first == if k == 0 then None else Some(q[0])
        invariant forall j :: 0 <= j < k ==> q[j].addr == active
        invariant fb1 == old(fb1) && fb2 == old(fb2) && gets == old(gets) + k
        decreases |q| - k
      {
        TakeHead(q, k);
        var vbuf := Get();
        var loaded := LoadIfNew(vbuf.addr);
        Put(vbuf);
        if loaded {
          FirstAtIs(q, active, false, k);
          return;
        }
        fifoIndex := fifoIndex + 1;
        if fifoIndex == 1 {
          first := Some(vbuf);
        } else if first == Some(vbuf) {
          FirstAtIs(q, active, false, |q|);
          return;
        }
        k := k + 1;
      }
      FirstAtIs(q, active, false, |q|);
    }

    /** The search for a finished frame. */
    method FindDone(addr: u32) returns (found: Option<VBuf>)
      requires Distinct(fifoIn)
      modifies `fifoIn, `gets
      ensures (found, fifoIn) == Search(old(fifoIn), addr)
      ensures gets <= old(gets) + |old(fifoIn)| + 1
    {
      hide Rotated, FirstAt, Turned;
      ghost var q, k := fifoIn, 0;
      TakeHead(q, 0);
      var first := None;
      while fifoIn != []
        invariant 0 <= k <= |q| && fifoIn == Rotated(q, k)
        invariant first == if k == 0 then None else Some(q[0])
        invariant forall j :: 0 <= j < k ==> q[j].addr != addr
        invariant gets == old(gets) + k
        decreases |q| - k
      {
        TakeHead(q, k);
        var vbuf := Get();
        if vbuf.addr == addr {
          FirstAtIs(q, addr, true, k);
          return Some(vbuf);
        }
        Put(vbuf);
        if first == None {
          first := Some(vbuf);
        } else if first == Some(vbuf) {
          FirstAtIs(q, addr, true, |q|);
          return None;
        }
        k := k + 1;
      }
      found := None;
    }

    method FrameDone(addr: u32)
      requires Distinct(fifoIn)
      modifies `fifoIn, `fifoOut, `gets
      ensures View() == AfterDone(old(View()), addr)
      ensures gets <= old(gets) + |old(fifoIn)| + 1
    {
      var found := FindDone(addr);
      if found != None {
        fifoOut := fifoOut + [found.value];
      }
    }

    /** `hpmicro_cam_isr`. The test against the driver's own buffer reads as false when there is none. */
    method Isr(sof: bool, done1: bool, done2: bool)
      requires Distinct(fifoIn)
      modifies this
      ensures View() == AfterIsr(old(View()), sof, done1, done2)
      ensures gets <= old(gets) + 2 * (|old(fifoIn)| + 1)
    {
      var addr: u32 := 0;
      if sof {
        if internal == None {
          SofKeeps(View());
          StartOfFrame();
        }
      }
      if done1 {
        addr := fb1;
        if internal == Some(addr) {
          internal := None;
          return;
        }
        second := false;
      } else if done2 {
        addr := fb2;
        if internal == Some(addr) {
          internal := None;
          return;
        }
        second := true;
      }
      FrameDone(addr);
    }

    /** `hpmicro_cam_enqueue`. */
    method Enqueue(outEndpoint: bool, vbuf: VBuf) returns (err: Errno)
      modifies `fifoIn
      ensures err == if outEndpoint then Success else EINVAL
      ensures fifoIn == if outEndpoint then old(fifoIn) + [vbuf] else old(fifoIn)
    {
      if !outEndpoint {
        return EINVAL;
      }
      Put(vbuf);
      err := Success;
    }

    /** `hpmicro_cam_dequeue`, after its wait. */
    method Dequeue(outEndpoint: bool) returns (err: Errno, vbuf: Option<VBuf>)
      modifies `fifoOut
      ensures !outEndpoint ==> err == EINVAL && fifoOut == old(fifoOut)
      ensures outEndpoint && old(fifoOut) == [] ==> err == EAGAIN && vbuf == None && fifoOut == []
      ensures outEndpoint && old(fifoOut) != [] ==>
                err == Success && vbuf == Some(old(fifoOut)[0]) && fifoOut == old(fifoOut)[1..]
    {
      if !outEndpoint {
        return EINVAL, None;
      }
      if fifoOut == [] {
        return EAGAIN, None;
      }
      vbuf := Some(fifoOut[0]);
      fifoOut := fifoOut[1..];
      err := Success;
    }

    /** `hpmicro_cam_flush` with cancellation: what waits is given back in order. */
    method Cancel()
      modifies `fifoIn, `fifoOut, `gets
      ensures fifoIn == [] && fifoOut == old(fifoOut) + old(fifoIn)
    {
      while fifoIn != []
        invariant fifoOut + fifoIn == old(fifoOut) + old(fifoIn)
        decreases |fifoIn|
      {
        var vbuf := Get();
        fifoOut := fifoOut + [vbuf];
      }
    }
  }

  // ----- What the searches keep

  lemma RotationKeeps(q: seq<VBuf>, k: nat)
    requires k <= |q|
    ensures multiset(Rotated(q, k)) == multiset(q)
    ensures Distinct(q) ==> Distinct(Rotated(q, k))
  {
    assert q == q[..k] + q[k..];
  }

  lemma SofKeeps(c: Cam)
    ensures multiset(AfterSof(c).fifoIn) == multiset(c.fifoIn)
    ensures Distinct(c.fifoIn) ==> Distinct(AfterSof(c).fifoIn)
    ensures |AfterSof(c).fifoIn| == |c.fifoIn|
    ensures AfterSof(c).fifoOut == c.fifoOut
  {
    hide FirstAt, Distinct, Rotated;
    var k := FirstAt(c.fifoIn, Active(c), false);
    if k < |c.fifoIn| {
      RotationKeeps(c.fifoIn, k + 1);
    } else if c.fifoIn != [] {
      RotationKeeps(c.fifoIn, 1);
    }
  }

  /** A queue turned so that the entries up to `k` come last. */
  predicate TurnedBehind(q: seq<VBuf>, k: nat, r: seq<VBuf>) {
    k < |q| && r == q[k + 1..] + q[..k + 1]
  }

  /**
   The order a search leaves: the first entry with the address is taken out, and those before it come last; a
   fruitless search puts the head last.
   */
  lemma SearchOrder(q: seq<VBuf>, addr: u32)
    ensures var (found, rest) := Search(q, addr);
            && (found.Some? ==>
                  exists k :: 0 <= k < |q| && q[k] == found.value && rest == q[k + 1..] + q[..k]
                              && forall j :: 0 <= j < k ==> q[j].addr != addr)
            && (found == None ==> if q == [] then rest == [] else TurnedBehind(q, 0, rest))
  {
    var k := FirstAt(q, addr, true);
    if k < |q| {
      assert q[k].addr == addr;
    }
  }

  /** A start of frame puts the entries up to the one it loads last, or the head, if it loads none. */
  lemma SofOrder(c: Cam)
    requires c.internal == None
    ensures var t := AfterSof(c);
            && (Active(t) == Active(c) ==> if c.fifoIn == [] then t.fifoIn == [] else TurnedBehind(c.fifoIn, 0, t.fifoIn))
            && (Active(t) != Active(c) ==>
                  exists k :: 0 <= k < |c.fifoIn| && c.fifoIn[k].addr == Active(t) && TurnedBehind(c.fifoIn, k, t.fifoIn)
                              && forall j :: 0 <= j < k ==> c.fifoIn[j].addr == Active(c))
  {
    var k := FirstAt(c.fifoIn, Active(c), false);
    if k < |c.fifoIn| {
      assert TurnedBehind(c.fifoIn, k, AfterSof(c).fifoIn);
    }
  }

  /** What a search takes out has the address, and the rest stays; it takes nothing only if nothing has it. */
  lemma SearchMeaning(q: seq<VBuf>, addr: u32)
    ensures var (found, rest) := Search(q, addr);
            && (found.Some? <==> exists v :: v in q && v.addr == addr)
            && (found.Some? ==> found.value.addr == addr && found.value in q)
            && multiset(rest) == multiset(q) - (if found.Some? then multiset{found.value} else multiset{})
  {
    var k := FirstAt(q, addr, true);
    if k < |q| {
      assert q[k] in q;
      assert q == q[..k] + [q[k]] + q[k + 1..];
    } else if q != [] {
      RotationKeeps(q, 1);
    }
  }

  /** From `c` to `t` at most one buffer was given back, which was queued, and the others stayed. */
  ghost predicate MovesOne(c: Cam, t: Cam) {
    || (t.fifoOut == c.fifoOut && multiset(t.fifoIn) == multiset(c.fifoIn))
    || (exists v :: v in c.fifoIn && t.fifoOut == c.fifoOut + [v] && multiset(t.fifoIn) == multiset(c.fifoIn) - multiset{v})
  }

  lemma DoneMovesOne(c: Cam, a: Cam, addr: u32)
    requires multiset(a.fifoIn) == multiset(c.fifoIn) && a.fifoOut == c.fifoOut
    ensures MovesOne(c, AfterDone(a, addr))
  {
    hide Search;
    SameMembers(a.fifoIn, c.fifoIn);
    SearchMeaning(a.fifoIn, addr);
  }

  /** An interrupt gives back at most one buffer, which was queued, and the others stay. */
  lemma IsrMovesOne(c: Cam, sof: bool, done1: bool, done2: bool)
    ensures MovesOne(c, AfterIsr(c, sof, done1, done2))
  {
    hide AfterSof, AfterDone;
    SofKeeps(c);
    var a := if sof then AfterSof(c) else c;
    if done1 {
      DoneMovesOne(c, a.(second := false), a.fb1);
    } else if done2 {
      DoneMovesOne(c, a.(second := true), a.fb2);
    } else {
      DoneMovesOne(c, a, 0);
    }
  }

  lemma SameMembers(a: seq<VBuf>, b: seq<VBuf>)
    requires multiset(a) == multiset(b)
    ensures forall v :: v in a <==> v in b
  {
    forall v
      ensures v in a <==> v in b
    {
      assert v in multiset(a) <==> v in multiset(b);
    }
  }

  predicate Queued(c: Cam, addr: u32) {
    exists v :: v in c.fifoIn && v.addr == addr
  }

  /** A start of frame alone gives a buffer back exactly if one lies at address 0; if not, it turns the queue. */
  lemma SofAlone(c: Cam)
    ensures var t := AfterIsr(c, true, false, false);
            && (t.fifoOut != c.fifoOut <==> Queued(c, 0))
            && (!Queued(c, 0) ==> t == AfterSof(c).(fifoIn := Turned(AfterSof(c).fifoIn)))
  {
    hide AfterSof, FirstAt, Turned, Rotated;
    SofKeeps(c);
    var a := AfterSof(c);
    SameMembers(a.fifoIn, c.fifoIn);
    SearchMeaning(a.fifoIn, 0);
  }

  /**
   A start of frame loads the register that is due with the first queued buffer it does not hold yet, and
   leaves it alone exactly if it holds them all.
   */
  lemma SofLoads(c: Cam)
    requires c.internal == None
    ensures var t := AfterSof(c);
            && t.second == c.second && (c.second ==> t.fb1 == c.fb1) && (!c.second ==> t.fb2 == c.fb2)
            && (Active(t) == Active(c) <==> forall v :: v in c.fifoIn ==> v.addr == Active(c))
            && (Active(t) != Active(c) ==> exists k :: 0 <= k < |c.fifoIn| && c.fifoIn[k].addr == Active(t)
                                                       && forall j :: 0 <= j < k ==> c.fifoIn[j].addr == Active(c))
  {
    var k := FirstAt(c.fifoIn, Active(c), false);
    if k < |c.fifoIn| {
      assert c.fifoIn[k] in c.fifoIn;
    }
  }

  /** The register whose frame is finished, as it stands when the interrupt comes. */
  function Finished(c: Cam, done1: bool): u32 {
    if done1 then c.fb1 else c.fb2
  }

  /** The start of frame loads the very register whose frame is finished: it is due, and a buffer is there to load. */
  predicate Reloads(c: Cam, sof: bool, done1: bool) {
    && sof && c.internal == None && c.second == !done1
    && exists v :: v in c.fifoIn && v.addr != Finished(c, done1)
  }

  /** What the start of frame leaves in the register whose frame is finished. */
  lemma ReloadMeaning(c: Cam, sof: bool, done1: bool)
    ensures var a := if sof then AfterSof(c) else c;
            && (Reloads(c, sof, done1) <==> Finished(a, done1) != Finished(c, done1))
            && (Reloads(c, sof, done1) ==> Queued(a, Finished(a, done1)))
            && (forall v :: v in a.fifoIn <==> v in c.fifoIn)
            && a.fifoOut == c.fifoOut && a.internal == c.internal
  {
    hide FirstAt;
    SofKeeps(c);
    if c.internal == None {
      SofLoads(c);
    }
    var a := if sof then AfterSof(c) else c;
    SameMembers(a.fifoIn, c.fifoIn);
    if Active(a) != Active(c) {
      var k :| 0 <= k < |c.fifoIn| && c.fifoIn[k].addr == Active(a);
      assert c.fifoIn[k] in a.fifoIn;
    }
  }

  /**
   A finished frame, by the register as it stood when the interrupt came. If the start of frame in the same
   interrupt does not reload that register, a buffer is given back exactly if the frame was not the driver's
   own and its buffer is queued, and it is that buffer. If it does reload it, a buffer is given back that does
   not hold the finished frame.
   */
  lemma FinishedIsGivenBackIff(c: Cam, sof: bool, done1: bool, done2: bool)
    requires done1 || done2
    ensures var t, f := AfterIsr(c, sof, done1, done2), Finished(c, done1);
            && (!Reloads(c, sof, done1) ==>
                  && (t.fifoOut != c.fifoOut <==> c.internal != Some(f) && Queued(c, f))
                  && (t.fifoOut != c.fifoOut ==> exists v :: v in c.fifoIn && v.addr == f && t.fifoOut == c.fifoOut + [v]))
            && (Reloads(c, sof, done1) ==>
                  exists v :: v in c.fifoIn && v.addr != f && t.fifoOut == c.fifoOut + [v])
  {
    hide AfterSof, FirstAt, Search, Reloads;
    ReloadMeaning(c, sof, done1);
    var a := if sof then AfterSof(c) else c;
    SearchMeaning(a.fifoIn, Finished(a, done1));
    var found := Search(a.fifoIn, Finished(a, done1)).0;
    if Reloads(c, sof, done1) {
      assert c.internal == None by { LoadsOnlyWithoutOwn(c, sof, done1); }
      assert found.value.addr != Finished(c, done1);
    } else if found.Some? {
      assert found.value.addr == Finished(c, done1);
    }
  }

  lemma LoadsOnlyWithoutOwn(c: Cam, sof: bool, done1: bool)
    requires Reloads(c, sof, done1)
    ensures c.internal == None
  {
  }

  /**
   Two buffers, the first one's frame finished as the next frame starts: the second buffer, which was loaded
   just then, is given back, and the finished one stays queued.
   */
  lemma WrongBufferGivenBack()
    ensures var c := Cam([VBuf(1, 10), VBuf(2, 20)], [], None, false, 10, 30);
            var t := AfterIsr(c, true, true, false);
            && t.fifoOut == [VBuf(2, 20)] && t.fifoIn == [VBuf(1, 10)] && t.fb1 == 20
  {
    var q := [VBuf(1, 10), VBuf(2, 20)];
    FirstAtIs(q, 10, false, 1);
    var r := Rotated(q, 2);
    assert r == q;
    FirstAtIs(r, 20, true, 1);
    assert r[2..] + r[..1] == [VBuf(1, 10)];
  }

  // ----- Which register comes next

  /** The register whose frame is not the finished one. */
  function Other(c: Cam, done1: bool): u32 {
    if done1 then c.fb2 else c.fb1
  }

  /**
   Over two interrupts: after an interrupt for a finished frame that is not the driver's own, the next start of
   frame leaves the other register alone, and loads the finished one, with the first queued buffer that it does
   not hold, exactly if there is one and the driver has no buffer of its own.
   */
  lemma NextSofReloadsFinished(c: Cam, sof: bool, done1: bool, done2: bool, next1: bool, next2: bool)
    requires (done1 || done2) && c.internal != Some(Finished(c, done1))
    ensures var t := AfterIsr(c, sof, done1, done2);
            var u := AfterIsr(t, true, next1, next2);
            && Other(u, done1) == Other(t, done1)
            && (Finished(u, done1) != Finished(t, done1) <==>
                  t.internal == None && exists v :: v in t.fifoIn && v.addr != Finished(t, done1))
            && (Finished(u, done1) != Finished(t, done1) ==>
                  exists k :: 0 <= k < |t.fifoIn| && t.fifoIn[k].addr == Finished(u, done1)
                              && forall j :: 0 <= j < k ==> t.fifoIn[j].addr == Finished(t, done1))
  {
    hide AfterSof, AfterDone, FirstAt;
    var t := AfterIsr(c, sof, done1, done2);
    assert AfterIsr(t, true, next1, next2) == AfterIsr(AfterSof(t), false, next1, next2);
    DueAfter(c, sof, done1, done2);
    if t.internal == None {
      SofLoads(t);
      if Active(AfterSof(t)) != Active(t) {
        var k :| 0 <= k < |t.fifoIn| && t.fifoIn[k].addr == Active(AfterSof(t));
        assert t.fifoIn[k] in t.fifoIn;
      }
    } else {
      SofWithOwn(t);
    }
    RegistersStay(AfterSof(t), next1, next2);
  }

  /** The register due after a finished frame is the finished one, whatever the start of frame before it did. */
  lemma DueAfter(c: Cam, sof: bool, done1: bool, done2: bool)
    requires (done1 || done2) && c.internal != Some(Finished(c, done1))
    ensures AfterIsr(c, sof, done1, done2).second == !done1
  {
    hide FirstAt, Search;
  }

  lemma SofWithOwn(c: Cam)
    requires c.internal.Some?
    ensures AfterSof(c) == c
  {
  }

  /** Without a start of frame an interrupt leaves the registers alone. */
  lemma RegistersStay(c: Cam, done1: bool, done2: bool)
    ensures var t := AfterIsr(c, false, done1, done2); t.fb1 == c.fb1 && t.fb2 == c.fb2
    ensures c.internal == None ==> AfterIsr(c, false, done1, done2).internal == None
  {
    hide Search;
  }

  /**
   The driver's own buffer is released by the interrupt for its frame, which changes nothing else, and by no
   other interrupt.
   */
  lemma OwnIsReleasedIff(c: Cam, sof: bool, done1: bool, done2: bool)
    requires c.internal.Some?
    ensures var t := AfterIsr(c, sof, done1, done2);
            && (t.internal == None <==> (done1 || done2) && c.internal == Some(Finished(c, done1)))
            && (t.internal == None ==> t == c.(internal := None))
            && (t.internal != None ==> t.internal == c.internal)
  {
    hide Search, FirstAt;
    SofWithOwn(c);
  }

  // ----- Runs

  datatype Step =
    | Enqueue(v: VBuf)
    | Dequeue
    | Cancel
    | Isr(sof: bool, done1: bool, done2: bool)
    | SetFormat(alloc: u32, fb2: u32)

  /** The camera, and the buffers it was given and has not given back. */
  datatype Run = Run(c: Cam, held: multiset<VBuf>)

  predicate CanStep(r: Run, step: Step) {
    match step
    case Enqueue(v) => forall u :: u in r.held ==> u.id != v.id
    case _ => true
  }

  function Next(r: Run, step: Step): Run
    requires CanStep(r, step)
  {
    match step
    case Enqueue(v) => Run(r.c.(fifoIn := r.c.fifoIn + [v]), r.held + multiset{v})
    case Dequeue =>
      if r.c.fifoOut == [] then r else Run(r.c.(fifoOut := r.c.fifoOut[1..]), r.held - multiset{r.c.fifoOut[0]})
    case Cancel => r.(c := r.c.(fifoIn := [], fifoOut := r.c.fifoOut + r.c.fifoIn))
    case Isr(sof, done1, done2) => r.(c := AfterIsr(r.c, sof, done1, done2))
    case SetFormat(alloc, fb2) =>
      var own := if r.c.internal.Some? then r.c.internal.value else alloc;
      r.(c := r.c.(internal := Some(own), fb1 := own, fb2 := fb2))
  }

  predicate IsRun(runs: seq<Run>, steps: seq<Step>) {
    && |runs| == |steps| + 1
    && runs[0].c.fifoIn == [] && runs[0].c.fifoOut == [] && runs[0].held == multiset{}
    && forall k :: 0 <= k < |steps| ==> CanStep(runs[k], steps[k]) && runs[k + 1] == Next(runs[k], steps[k])
  }

  /** Everything held is in one of the queues, once, and no two entries are the same buffer. */
  ghost predicate Inv(r: Run) {
    && r.held == multiset(r.c.fifoIn + r.c.fifoOut)
    && Distinct(r.c.fifoIn + r.c.fifoOut)
  }

  /** Distinctness depends only on the contents. */
  lemma DistinctByContents(a: seq<VBuf>, b: seq<VBuf>)
    requires Distinct(a) && multiset(a) == multiset(b)
    ensures Distinct(b)
  {
    forall i, j | 0 <= i < j < |b|
      ensures b[i].id != b[j].id
    {
      if b[i].id == b[j].id {
        SameMembers(a, b);
        assert b[i] in b && b[j] in b;
        if b[i] == b[j] {
          var rest := b[..i] + b[i + 1..];
          assert b == b[..i] + [b[i]] + b[i + 1..] && rest[j - 1] == b[i];
          assert multiset(b)[b[i]] >= 2;
          Twice(a, b[i]);
        }
        assert false;
      }
    }
  }

  lemma Twice(a: seq<VBuf>, v: VBuf)
    requires multiset(a)[v] >= 2
    ensures !Distinct(a)
  {
    assert v in multiset(a);
    var i :| 0 <= i < |a| && a[i] == v;
    var rest := a[..i] + a[i + 1..];
    assert a == a[..i] + [a[i]] + a[i + 1..];
    assert multiset(a) == multiset(rest) + multiset{v};
    assert v in multiset(rest);
    var j :| 0 <= j < |rest| && rest[j] == v;
    assert a[if j < i then j else j + 1] == v;
  }

  lemma IsrKeeps(c: Cam, sof: bool, done1: bool, done2: bool)
    ensures var t := AfterIsr(c, sof, done1, done2);
            multiset(t.fifoIn + t.fifoOut) == multiset(c.fifoIn + c.fifoOut)
  {
    hide AfterIsr;
    IsrMovesOne(c, sof, done1, done2);
    var t := AfterIsr(c, sof, done1, done2);
    if t.fifoOut != c.fifoOut {
      var v :| v in c.fifoIn && t.fifoOut == c.fifoOut + [v] && multiset(t.fifoIn) == multiset(c.fifoIn) - multiset{v};
      MovedAcross(c.fifoIn, c.fifoOut, t.fifoIn, v);
    }
  }

  lemma MovedAcross(a: seq<VBuf>, b: seq<VBuf>, rest: seq<VBuf>, v: VBuf)
    requires v in a && multiset(rest) == multiset(a) - multiset{v}
    ensures multiset(rest + (b + [v])) == multiset(a + b)
  {
    assert v in multiset(a);
  }

  lemma StepKeepsInv(r: Run, step: Step)
    requires Inv(r) && CanStep(r, step)
    ensures Inv(Next(r, step))
  {
    var t := Next(r, step);
    var before, after := r.c.fifoIn + r.c.fifoOut, t.c.fifoIn + t.c.fifoOut;
    match step
    case Enqueue(v) =>
      EnqueueKeeps(r, v);
    case Dequeue =>
      if r.c.fifoOut != [] {
        DequeueKeeps(r);
      }
    case Cancel =>
      assert multiset(after) == multiset(before);
      DistinctByContents(before, after);
    case Isr(sof, done1, done2) =>
      IsrKeeps(r.c, sof, done1, done2);
      DistinctByContents(before, after);
    case SetFormat(_, _) =>
  }

  lemma EnqueueKeeps(r: Run, v: VBuf)
    requires Inv(r) && CanStep(r, Enqueue(v))
    ensures Inv(Next(r, Enqueue(v)))
  {
    var before, t := r.c.fifoIn + r.c.fifoOut, Next(r, Enqueue(v));
    assert forall k :: 0 <= k < |before| ==> before[k] in r.held;
    assert Distinct(before + [v]);
    assert multiset(before + [v]) == multiset(t.c.fifoIn + t.c.fifoOut);
    DistinctByContents(before + [v], t.c.fifoIn + t.c.fifoOut);
  }

  lemma DequeueKeeps(r: Run)
    requires Inv(r) && r.c.fifoOut != []
    ensures Inv(Next(r, Dequeue))
  {
    hide Distinct;
    var v, rest := r.c.fifoOut[0], r.c.fifoIn + r.c.fifoOut[1..];
    assert r.c.fifoOut == [v] + r.c.fifoOut[1..];
    assert multiset(r.c.fifoIn + r.c.fifoOut) == multiset(rest) + multiset{v};
    DistinctByContents(r.c.fifoIn + r.c.fifoOut, rest + [v]);
    DistinctFront(rest, v);
  }

  lemma DistinctFront(a: seq<VBuf>, v: VBuf)
    requires Distinct(a + [v])
    ensures Distinct(a)
  {
    assert forall i :: 0 <= i < |a| ==> (a + [v])[i] == a[i];
  }

  lemma {:induction false} RunKeepsInv(runs: seq<Run>, steps: seq<Step>)
    requires IsRun(runs, steps)
    ensures Inv(runs[|steps|])
  {
    if steps != [] {
      var n := |steps| - 1;
      var front := runs[..n + 1];
      assert forall k :: 0 <= k <= n ==> front[k] == runs[k];
      RunKeepsInv(front, steps[..n]);
      StepKeepsInv(runs[n], steps[n]);
    }
  }

  /** Every buffer enqueued and not dequeued is in exactly one of the two queues, and nothing else is. */
  lemma BufferConservation(runs: seq<Run>, steps: seq<Step>, v: VBuf)
    requires IsRun(runs, steps)
    ensures var r := runs[|steps|];
            && (v in r.held <==> (v in r.c.fifoIn) != (v in r.c.fifoOut))
            && !(v in r.c.fifoIn && v in r.c.fifoOut)
            && |r.held| == |r.c.fifoIn| + |r.c.fifoOut|
            && Distinct(r.c.fifoIn)
  {
    hide Distinct;
    RunKeepsInv(runs, steps);
    InOneQueue(runs[|steps|].c.fifoIn, runs[|steps|].c.fifoOut, v);
  }

  lemma InOneQueue(a: seq<VBuf>, b: seq<VBuf>, v: VBuf)
    requires Distinct(a + b)
    ensures v in multiset(a + b) <==> (v in a) != (v in b)
    ensures !(v in a && v in b)
    ensures |multiset(a + b)| == |a| + |b|
    ensures Distinct(a)
  {
    assert v in multiset(a + b) <==> v in a + b;
    assert forall i :: 0 <= i < |a| ==> (a + b)[i] == a[i];
    assert forall i :: 0 <= i < |b| ==> (a + b)[|a| + i] == b[i];
  }
}
