/** The receive filter table of the CAN driver: append, removal, lookup, and dispatch of received frames. */
module CanFilter {
  import opened Words
  import opened FilterRows

  const CAPACITY: nat := 16

  /** A filter as the application specifies it. */
  datatype Filter = Filter(id: Bits, mask: Bits, ide: bool, rtr: bool)

  datatype RxCallback = RxCallback(fn: nat, arg: nat)

  /** One filter installed with its callback. */
  datatype Registration = Registration(filter: Filter, cb: RxCallback)

  datatype Row = Row(index: nat, extended: bool, enable: bool, code: Bits, mask: Bits)

  /** What the driver looks at of a received frame. */
  datatype RxFrame = RxFrame(id: Bits, ide: bool, rtr: bool)

  /** The filters in use, and by slot the callbacks and the bits of `filter_rtr` and `filter_rtr_mask`. */
  datatype Table = Table(rows: seq<Row>, cbs: seq<Option<RxCallback>>, rtr: seq<bool>, rtrMask: seq<bool>)

  predicate WellFormed(t: Table) {
    |t.rows| <= CAPACITY && |t.cbs| == |t.rtr| == |t.rtrMask| == CAPACITY
  }

  predicate RowMatches(r: Row, frame: RxFrame) {
    r.extended == frame.ide && MatchesStored(frame.id, r.code, r.mask)
  }

  predicate FilterMatches(f: Filter, frame: RxFrame) {
    f.ide == frame.ide && MatchesSpecified(frame.id, f.id, f.mask)
  }

  function RowOf(f: Filter, index: nat): Row {
    Row(index, f.ide, true, f.id, Complement(f.mask))
  }

  /** The least slot from `i` on whose row matches. */
  function FirstMatch(rows: seq<Row>, frame: RxFrame, i: nat): (r: Option<nat>)
    requires i <= |rows|
    ensures r.Some? ==> i <= r.value < |rows| && RowMatches(rows[r.value], frame)
    ensures r.Some? ==> forall j :: i <= j < r.value ==> !RowMatches(rows[j], frame)
    ensures r.None? ==> forall j :: i <= j < |rows| ==> !RowMatches(rows[j], frame)
    decreases |rows| - i
  {
    if i == |rows| then None
    else if RowMatches(rows[i], frame) then Some(i)
    else FirstMatch(rows, frame, i + 1)
  }

  /** The callback the driver invokes for a frame. */
  function Dispatch(t: Table, frame: RxFrame): Option<RxCallback>
    requires WellFormed(t)
  {
    var at := FirstMatch(t.rows, frame, 0);
    if at == None then None
    else if t.rtrMask[at.value] != frame.rtr || t.rtr[at.value] != frame.rtr then None
    else t.cbs[at.value]
  }

  /** What should be invoked: the callback of the first registered filter that matches, if its RTR setting agrees. */
  function Wanted(regs: seq<Registration>, frame: RxFrame): Option<RxCallback> {
    if regs == [] then None
    else if FilterMatches(regs[0].filter, frame) then
      if regs[0].filter.rtr == frame.rtr then Some(regs[0].cb) else None
    else Wanted(regs[1..], frame)
  }

  /** Slot by slot the table holds these registrations: filter, RTR bits and callback. */
  ghost predicate Aligned(t: Table, regs: seq<Registration>) {
    && WellFormed(t)
    && |t.rows| == |regs|
    && forall k :: 0 <= k < |regs| ==> AlignedAt(t, regs[k], k)
  }

  ghost predicate AlignedAt(t: Table, reg: Registration, k: nat)
    requires WellFormed(t) && k < |t.rows|
  {
    && t.rows[k] == RowOf(reg.filter, t.rows[k].index)
    && t.cbs[k] == Some(reg.cb)
    && t.rtr[k] == t.rtrMask[k] == reg.filter.rtr
  }

  ghost predicate Numbered(rows: seq<Row>) {
    forall k :: 0 <= k < |rows| ==> rows[k].index == k
  }

  ghost predicate Distinct(rows: seq<Row>) {
    forall j, k :: 0 <= j < k < |rows| ==> rows[j].index != rows[k].index
  }

  // ----- The operations

  function Added(t: Table, reg: Registration): Table
    requires WellFormed(t) && |t.rows| < CAPACITY
  {
    var k := |t.rows|;
    Table(t.rows + [RowOf(reg.filter, k)], t.cbs[k := Some(reg.cb)],
          t.rtr[k := reg.filter.rtr], t.rtrMask[k := reg.filter.rtr])
  }

  /** The removal loop from slot `i` on: it goes on after a removal, and always copies the row that was last at first. */
  function Sweep(rows: seq<Row>, last: Row, i: nat, id: nat): (r: seq<Row>)
    requires i <= |rows|
    ensures |r| <= |rows|
    decreases |rows| - i
  {
    if i == |rows| then rows
    else if rows[i].index == id then
      if i == |rows| - 1 then rows[..i] else Sweep(rows[i := last][..|rows| - 1], last, i + 1, id)
    else Sweep(rows, last, i + 1, id)
  }

  function Removed(t: Table, id: nat): Table {
    if t.rows == [] then t else t.(rows := Sweep(t.rows, t.rows[|t.rows| - 1], 0, id))
  }

  lemma {:induction false} SweepFinds(rows: seq<Row>, i: nat, j: nat, id: nat)
    requires Distinct(rows) && j <= i < |rows| && rows[i].index == id
    ensures Sweep(rows, rows[|rows| - 1], j, id) == SwapRemove(rows, i)
    decreases i - j
  {
    var last := rows[|rows| - 1];
    if j < i {
      assert rows[j].index != rows[i].index;
      SweepFinds(rows, i, j + 1, id);
    } else if i < |rows| - 1 {
      var rest := SwapRemove(rows, i);
      forall k | i < k < |rest|
        ensures rest[k].index != id
      {
        assert rows[i].index != rows[k].index;
      }
      SweepMisses(rest, last, i + 1, id);
    }
  }

  lemma {:induction false} SweepMisses(rows: seq<Row>, last: Row, j: nat, id: nat)
    requires j <= |rows| && forall k :: j <= k < |rows| ==> rows[k].index != id
    ensures Sweep(rows, last, j, id) == rows
    decreases |rows| - j
  {
    if j < |rows| {
      SweepMisses(rows, last, j + 1, id);
    }
  }

  /**
   Removal from a table with distinct indexes, wherever the row stands: exactly the row with that index goes,
   the indexes stay distinct, and what is accepted afterwards is the union over the remaining rows.
   */
  lemma RemoveKeepsOthers(t: Table, id: nat, i: nat)
    requires Distinct(t.rows) && i < |t.rows| && t.rows[i].index == id
    ensures var r := Removed(t, id).rows;
            && multiset(r) == multiset(t.rows) - multiset{t.rows[i]}
            && Distinct(r)
            && (forall row :: row in r <==> row in t.rows && row.index != id)
            && forall frame: RxFrame ::
                 FirstMatch(r, frame, 0).Some? <==> exists row :: row in t.rows && row.index != id && RowMatches(row, frame)
  {
    SweepFinds(t.rows, i, 0, id);
    SwapRemoveKeepsOthers(t.rows, i);
    RemainingRows(t.rows, i);
    var r := Removed(t, id).rows;
    forall frame: RxFrame
      ensures FirstMatch(r, frame, 0).Some? <==> exists row :: row in t.rows && row.index != id && RowMatches(row, frame)
    {
      if FirstMatch(r, frame, 0).Some? {
        assert r[FirstMatch(r, frame, 0).value] in r;
      }
    }
  }

  /**
   The number of rows is the next index, so the indexes stay distinct exactly if no row has that one; after the
   removal of a filter before the last one has it.
   */
  lemma AddKeepsDistinctIff(t: Table, reg: Registration)
    requires WellFormed(t) && |t.rows| < CAPACITY && Distinct(t.rows)
    ensures Distinct(Added(t, reg).rows) <==> forall k :: 0 <= k < |t.rows| ==> t.rows[k].index != |t.rows|
  {
    var r, n := Added(t, reg).rows, |t.rows|;
    forall k | 0 <= k < n && Distinct(r)
      ensures t.rows[k].index != n
    {
      assert r[k].index != r[n].index;
    }
  }

  /** Add, add, remove the first, add: two filters are then numbered 1, and removing 1 leaves the later one. */
  lemma NumberedTwice(a: Registration, b: Registration, c: Registration)
    ensures var t := Added(Removed(Added(Added(EmptyTable(), a), b), 0), c);
            && t.rows == [RowOf(b.filter, 1), RowOf(c.filter, 1)]
            && Removed(t, 1).rows == [RowOf(c.filter, 1)]
  {
    var u := Added(Added(EmptyTable(), a), b);
    SweepFinds(u.rows, 0, 0, 0);
    assert Removed(u, 0).rows == [RowOf(b.filter, 1)];
    var t := Added(Removed(u, 0), c);
    var rest := t.rows[0 := t.rows[1]][..1];
    assert rest == [RowOf(c.filter, 1)] && Sweep(rest, t.rows[1], 1, 1) == rest;
  }

  /** With one more filter behind them a removal of 1 takes both: the loop goes on after the first. */
  lemma RemovalGoesOn(b: Registration, c: Registration, d: Registration, t: Table)
    requires WellFormed(t) && t.rows == [RowOf(b.filter, 1), RowOf(c.filter, 1)]
    ensures Added(t, d).rows == [RowOf(b.filter, 1), RowOf(c.filter, 1), RowOf(d.filter, 2)]
    ensures Removed(Added(t, d), 1).rows == [RowOf(d.filter, 2)]
  {
    hide Complement;
    var rows, last := Added(t, d).rows, RowOf(d.filter, 2);
    var once := rows[0 := last][..2];
    assert once == [last, RowOf(c.filter, 1)];
    assert Sweep(once, last, 1, 1) == once[..1] == [last];
  }

  lemma RemainingRows(rows: seq<Row>, i: nat)
    requires Distinct(rows) && i < |rows|
    ensures Distinct(SwapRemove(rows, i))
    ensures forall row :: row in SwapRemove(rows, i) <==> row in rows && row.index != rows[i].index
  {
    var r, n := SwapRemove(rows, i), |rows| - 1;
    forall row | row in rows && row.index != rows[i].index
      ensures row in r
    {
      var k :| 0 <= k < |rows| && rows[k] == row;
      assert r[if k == n then i else k] == row;
    }
  }

  /** An index the table does not hold removes nothing. */
  lemma RemoveOfAbsent(t: Table, id: nat)
    requires forall k :: 0 <= k < |t.rows| ==> t.rows[k].index != id
    ensures Removed(t, id) == t
  {
    if t.rows != [] {
      SweepMisses(t.rows, t.rows[|t.rows| - 1], 0, id);
    }
  }

  // ----- Dispatch over histories

  datatype Op = Add(reg: Registration) | RemoveNewest

  function EmptyTable(): Table {
    Table([], seq(CAPACITY, _ => None), seq(CAPACITY, _ => false), seq(CAPACITY, _ => false))
  }

  /** The table after a history; adding to a full table and removing from an empty one change nothing. */
  function TableAfter(ops: seq<Op>): (t: Table)
    ensures WellFormed(t)
  {
    if ops == [] then EmptyTable()
    else
      var t, op := TableAfter(ops[..|ops| - 1]), ops[|ops| - 1];
      match op
      case Add(reg) => if |t.rows| < CAPACITY then Added(t, reg) else t
      case RemoveNewest => if t.rows == [] then t else Removed(t, |t.rows| - 1)
  }

  function RegsAfter(ops: seq<Op>): seq<Registration> {
    if ops == [] then []
    else
      var regs, op := RegsAfter(ops[..|ops| - 1]), ops[|ops| - 1];
      match op
      case Add(reg) => if |regs| < CAPACITY then regs + [reg] else regs
      case RemoveNewest => if regs == [] then regs else regs[..|regs| - 1]
  }

  lemma {:induction false} HistoryAligned(ops: seq<Op>)
    ensures Aligned(TableAfter(ops), RegsAfter(ops)) && Numbered(TableAfter(ops).rows)
  {
    hide Added, Removed, Numbered, AlignedAt;
    if ops == [] {
      EmptyAligned();
    } else {
      HistoryAligned(ops[..|ops| - 1]);
      var t, regs := TableAfter(ops[..|ops| - 1]), RegsAfter(ops[..|ops| - 1]);
      match ops[|ops| - 1]
      case Add(reg) =>
        if |t.rows| < CAPACITY {
          AddedAligned(t, regs, reg);
        }
      case RemoveNewest =>
        if t.rows != [] {
          NewestRemovedAligned(t, regs);
        }
    }
  }

  lemma EmptyAligned()
    ensures Aligned(EmptyTable(), []) && Numbered(EmptyTable().rows)
  {
  }

  lemma AddedAligned(t: Table, regs: seq<Registration>, reg: Registration)
    requires Aligned(t, regs) && Numbered(t.rows) && |t.rows| < CAPACITY
    ensures Aligned(Added(t, reg), regs + [reg]) && Numbered(Added(t, reg).rows)
  {
    forall k | 0 <= k < |regs|
      ensures AlignedAt(Added(t, reg), regs[k], k)
    {
      assert AlignedAt(t, regs[k], k);
    }
  }

  lemma NewestRemovedAligned(t: Table, regs: seq<Registration>)
    requires Aligned(t, regs) && Numbered(t.rows) && t.rows != []
    ensures var n := |t.rows| - 1;
            Aligned(Removed(t, n), regs[..n]) && Numbered(Removed(t, n).rows)
  {
    hide Sweep;
    var n := |t.rows| - 1;
    SweepFinds(t.rows, n, 0, n);
    var r := Removed(t, n);
    assert r.rows == t.rows[..n];
    forall k | 0 <= k < n
      ensures AlignedAt(r, regs[..n][k], k)
    {
      assert AlignedAt(t, regs[k], k);
    }
  }

  /** Over every history all rows in use are enabled. */
  lemma {:induction false} RowsEnabled(ops: seq<Op>)
    ensures forall row :: row in TableAfter(ops).rows ==> row.enable
  {
    hide Sweep, Complement;
    if ops != [] {
      RowsEnabled(ops[..|ops| - 1]);
      var t := TableAfter(ops[..|ops| - 1]);
      if ops[|ops| - 1] == RemoveNewest && t.rows != [] {
        HistoryAligned(ops[..|ops| - 1]);
        SweepFinds(t.rows, |t.rows| - 1, 0, |t.rows| - 1);
      }
    }
  }

  /** In an aligned table the driver invokes what the registrations want. */
  lemma AlignedDispatch(t: Table, regs: seq<Registration>, frame: RxFrame)
    requires Aligned(t, regs)
    ensures Dispatch(t, frame) == Wanted(regs, frame)
  {
    DispatchFrom(t, regs, frame, 0);
  }

  lemma {:induction false} DispatchFrom(t: Table, regs: seq<Registration>, frame: RxFrame, i: nat)
    requires Aligned(t, regs) && i <= |regs|
    ensures var at := FirstMatch(t.rows, frame, i);
            Wanted(regs[i..], frame) ==
              if at == None || t.rtrMask[at.value] != frame.rtr || t.rtr[at.value] != frame.rtr then None
              else t.cbs[at.value]
    decreases |regs| - i
  {
    if i < |regs| {
      assert AlignedAt(t, regs[i], i);
      StoredIsSpecified(frame.id, regs[i].filter.id, regs[i].filter.mask);
      assert regs[i..][1..] == regs[i + 1..];
      DispatchFrom(t, regs, frame, i + 1);
    }
  }

  /** Over every history of adds and removals of the newest filter, each frame goes where the registrations say. */
  lemma DispatchOverHistories(ops: seq<Op>, frame: RxFrame)
    ensures Dispatch(TableAfter(ops), frame) == Wanted(RegsAfter(ops), frame)
  {
    HistoryAligned(ops);
    AlignedDispatch(TableAfter(ops), RegsAfter(ops), frame);
  }

  /**
   Removing another filter moves its row but not the callbacks: the table stays aligned with the
   registrations, moved the same way, exactly when the removed one and the last share callback and RTR.
   */
  lemma RemoveKeepsAlignedIff(t: Table, regs: seq<Registration>, i: nat)
    requires Aligned(t, regs) && Distinct(t.rows) && i < |regs|
    ensures var last := regs[|regs| - 1];
            Aligned(Removed(t, t.rows[i].index), SwapRemove(regs, i)) <==>
              (i == |regs| - 1 || (regs[i].cb == last.cb && regs[i].filter.rtr == last.filter.rtr))
  {
    hide Sweep, Complement;
    var n := |regs| - 1;
    SweepFinds(t.rows, i, 0, t.rows[i].index);
    var r, moved := Removed(t, t.rows[i].index), SwapRemove(regs, i);
    assert AlignedAt(t, regs[i], i) && AlignedAt(t, regs[n], n);
    if i < n {
      assert moved[i] == regs[n] && r.rows[i] == t.rows[n];
      forall k | 0 <= k < n && k != i
        ensures AlignedAt(r, moved[k], k)
      {
        assert AlignedAt(t, regs[k], k);
      }
    } else {
      forall k | 0 <= k < n
        ensures AlignedAt(r, moved[k], k)
      {
        assert AlignedAt(t, regs[k], k);
      }
    }
  }

  /** So a frame can reach the callback of a filter that was removed. */
  lemma RemoveMisdirects()
    ensures var a := Registration(Filter({0}, Positions(32), false, false), RxCallback(1, 0));
            var b := Registration(Filter({1}, Positions(32), false, false), RxCallback(2, 0));
            var t := Removed(Added(Added(EmptyTable(), a), b), 0);
            && Dispatch(t, RxFrame({1}, false, false)) == Some(RxCallback(1, 0))
            && Wanted([b], RxFrame({1}, false, false)) == Some(RxCallback(2, 0))
  {
    hide Positions, Complement, Sweep;
    var a := Registration(Filter({0}, Positions(32), false, false), RxCallback(1, 0));
    var b := Registration(Filter({1}, Positions(32), false, false), RxCallback(2, 0));
    var u := Added(Added(EmptyTable(), a), b);
    SweepFinds(u.rows, 0, 0, 0);
    assert Removed(u, 0).rows == [RowOf(b.filter, 1)];
  }

  // ----- The driver

  class FilterTable {
    const list: array<Row>
    const cbs: array<Option<RxCallback>>
    const rtr: array<bool>
    const rtrMask: array<bool>
    var count: nat
    // how often `inst_mutex` has been locked and not unlocked
    var locks: nat

    ghost predicate Valid()
      reads this
    {
      && count <= CAPACITY
      && list.Length == cbs.Length == rtr.Length == rtrMask.Length == CAPACITY
      && rtr != rtrMask
    }

    ghost function View(): (t: Table)
      requires Valid()
      reads this, list, cbs, rtr, rtrMask
      ensures WellFormed(t)
    {
      Table(list[..count], cbs[..], rtr[..], rtrMask[..])
    }

    constructor ()
      ensures Valid() && View() == EmptyTable() && locks == 0
      ensures fresh(list) && fresh(cbs) && fresh(rtr) && fresh(rtrMask)
    {
      list := new Row[CAPACITY](_ => Row(0, false, false, {}, {}));
      cbs := new Option<RxCallback>[CAPACITY](_ => None);
      rtr := new bool[CAPACITY](_ => false);
      rtrMask := new bool[CAPACITY](_ => false);
      count, locks := 0, 0;
    }

    method FirstFilterIndex(frame: RxFrame) returns (at: Option<nat>)
      requires Valid()
      ensures at == FirstMatch(list[..count], frame, 0)
    {
      var i := 0;
      at := None;
      while i < count
        invariant i <= count && at == None
        invariant FirstMatch(list[..count], frame, 0) == FirstMatch(list[..count], frame, i)
      {
        if (frame.ide && list[i].extended) || (!frame.ide && !list[i].extended) {
          if frame.id + list[i].mask == list[i].code + list[i].mask {
            at := Some(i);
            break;
          }
        }
        i := i + 1;
      }
    }

    /** The callback a received frame is handed to, if any. */
    method GetMessage(frame: RxFrame) returns (cb: Option<RxCallback>)
      requires Valid()
      ensures cb == Dispatch(View(), frame)
    {
      var at := FirstFilterIndex(frame);
      if at == None {
        return None;
      }
      if rtrMask[at.value] != frame.rtr || rtr[at.value] != frame.rtr {
        return None;
      }
      cb := cbs[at.value];
    }

    /** On a full table the mutex stays locked. */
    method AddRxFilter(filter: Filter, callback: Option<RxCallback>) returns (ret: Errno, id: nat)
      requires Valid()
      modifies this, list, cbs, rtr, rtrMask
      ensures Valid()
      ensures callback == None ==> ret == EINVAL && View() == old(View()) && locks == old(locks)
      ensures callback.Some? && old(count) == CAPACITY ==> ret == ENOSPC && View() == old(View()) && locks == old(locks) + 1
      ensures callback.Some? && old(count) < CAPACITY ==>
                && ret == Success && id == old(count)
                && View() == Added(old(View()), Registration(filter, callback.value))
                && locks == old(locks)
    {
      id := 0;
      if callback == None {
        return EINVAL, id;
      }
      locks := locks + 1;
      if count < CAPACITY {
        id := count;
        Append(Registration(filter, callback.value));
      } else {
        return ENOSPC, id;
      }
      locks := locks - 1;
      ret := Success;
    }

    method Append(reg: Registration)
      requires Valid() && count < CAPACITY
      modifies `count, list, cbs, rtr, rtrMask
      ensures Valid() && count == old(count) + 1 && View() == Added(old(View()), reg)
      ensures list[old(count)] == Row(old(count), reg.filter.ide, true, reg.filter.id, Complement(reg.filter.mask))
    {
      var id := count;
      count := count + 1;
      list[id] := Row(id, reg.filter.ide, true, reg.filter.id, Complement(reg.filter.mask));
      rtr[id] := reg.filter.rtr;
      rtrMask[id] := reg.filter.rtr;
      cbs[id] := Some(reg.cb);
      assert list[..count] == old(list[..count]) + [RowOf(reg.filter, id)];
    }

    /** Overwrite a row, unless it is the last one in use, and drop the last one in use. */
    method DropRow(i: nat, lastSlot: nat)
      requires Valid() && i < count <= lastSlot + 1 <= CAPACITY
      modifies this`count, list
      ensures Valid() && count == old(count) - 1 && list[lastSlot] == old(list[lastSlot])
      ensures list[..count] == if i == count then old(list[..count])[..i]
                               else old(list[..count])[i := old(list[lastSlot])][..count]
    {
      if i != count - 1 {
        list[i] := list[lastSlot];
      }
      count := count - 1;
    }

    method RemoveRxFilter(id: nat)
      requires Valid()
      modifies this`count, this`locks, list
      ensures Valid() && View() == Removed(old(View()), id) && locks == old(locks)
    {
      hide Sweep;
      locks := locks + 1;
      if count > 0 {
        RemoveRows(id);
      }
      locks := locks - 1;
    }

    /** The loop over the rows; what was the last one at first is copied each time. */
    method RemoveRows(id: nat)
      requires Valid() && count > 0
      modifies this`count, list
      ensures Valid() && list[..count] == Sweep(old(list[..count]), old(list[count - 1]), 0, id)
    {
      ghost var rows, last := list[..count], list[count - 1];
      var lastSlot := count - 1;
      var i := 0;
      while i < count
        invariant count <= lastSlot + 1 <= CAPACITY
        invariant i <= count || i == count + 1
        invariant list[lastSlot] == last
        invariant i <= count ==> Sweep(rows, last, 0, id) == Sweep(list[..count], last, i, id)
        invariant i == count + 1 ==> Sweep(rows, last, 0, id) == list[..count]
        decreases CAPACITY - i
      {
        if list[i].index == id {
          DropRow(i, lastSlot);
        }
        i := i + 1;
      }
    }
  }
}
