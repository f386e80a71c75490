/** The two receive filter tables of the MCAN driver. */
module McanFilter {
  import opened Words
  import opened FilterRows

  datatype Elem = Elem(id: Bits, mask: Bits)

  /** A filter element and the number it was given. */
  datatype Row = Row(index: nat, elem: Elem)

  predicate ElemMatches(e: Elem, id: Bits) {
    MatchesStored(id, e.id, e.mask)
  }

  /** The least slot from `i` on whose element matches. */
  function FirstMatch(rows: seq<Row>, id: Bits, i: nat): (r: Option<nat>)
    requires i <= |rows|
    ensures r.Some? ==> i <= r.value < |rows| && ElemMatches(rows[r.value].elem, id)
    ensures r.Some? ==> forall j :: i <= j < r.value ==> !ElemMatches(rows[j].elem, id)
    ensures r.None? ==> forall j :: i <= j < |rows| ==> !ElemMatches(rows[j].elem, id)
    decreases |rows| - i
  {
    if i == |rows| then None
    else if ElemMatches(rows[i].elem, id) then Some(i)
    else FirstMatch(rows, id, i + 1)
  }

  /** An element stored with its mask complemented takes exactly the identifiers that match as specified. */
  lemma TakesAsSpecified(rows: seq<Row>, row: Row, id: Bits, mask: Bits, frame: Bits)
    requires row in rows && row.elem == Elem(id, Complement(mask))
    ensures ElemMatches(row.elem, frame) <==> MatchesSpecified(frame, id, mask)
    ensures MatchesSpecified(frame, id, mask) ==> FirstMatch(rows, frame, 0).Some?
  {
    StoredIsSpecified(frame, id, mask);
  }

  ghost predicate Distinct(rows: seq<Row>) {
    forall j, k :: 0 <= j < k < |rows| ==> rows[j].index != rows[k].index
  }

  ghost predicate Holds(rows: seq<Row>, index: nat) {
    exists k :: 0 <= k < |rows| && rows[k].index == index
  }

  /** The first row with that number is overwritten by the last row, if there is one. */
  function RemovedFrom(rows: seq<Row>, index: nat, i: nat): seq<Row>
    requires i <= |rows|
    decreases |rows| - i
  {
    if i == |rows| then rows
    else if rows[i].index == index then SwapRemove(rows, i)
    else RemovedFrom(rows, index, i + 1)
  }

  lemma {:induction false} RemovedAt(rows: seq<Row>, i: nat, j: nat)
    requires Distinct(rows) && j <= i < |rows|
    ensures RemovedFrom(rows, rows[i].index, j) == SwapRemove(rows, i)
    decreases i - j
  {
    if j < i {
      assert rows[j].index != rows[i].index;
      RemovedAt(rows, i, j + 1);
    }
  }

  /**
   Removal from either table, wherever the row stands: exactly the row with that number goes, numbers stay
   distinct, and an identifier is accepted afterwards exactly when one of the remaining elements matches it.
   */
  lemma RemoveKeepsOthers(rows: seq<Row>, i: nat)
    requires Distinct(rows) && i < |rows|
    ensures var r := RemovedFrom(rows, rows[i].index, 0);
            && multiset(r) == multiset(rows) - multiset{rows[i]}
            && Distinct(r)
            && forall id: Bits ::
                 FirstMatch(r, id, 0).Some? <==> exists row :: row in rows && row.index != rows[i].index && ElemMatches(row.elem, id)
  {
    hide Distinct, ElemMatches, SwapRemove;
    RemovedAt(rows, i, 0);
    SwapRemoveKeepsOthers(rows, i);
    RemainingRows(rows, i);
    var r := SwapRemove(rows, i);
    forall id: Bits
      ensures FirstMatch(r, id, 0).Some? <==> exists row :: row in rows && row.index != rows[i].index && ElemMatches(row.elem, id)
    {
      if FirstMatch(r, id, 0).Some? {
        assert r[FirstMatch(r, id, 0).value] in r;
      }
    }
  }

  lemma RemainingRows(rows: seq<Row>, i: nat)
    requires Distinct(rows) && i < |rows|
    ensures Distinct(SwapRemove(rows, i))
    ensures forall row :: row in SwapRemove(rows, i) <==> row in rows && row.index != rows[i].index
  {
    var r, n := SwapRemove(rows, i), |rows| - 1;
    forall row | row in rows && row.index != rows[i].index
      ensures row in r
    {
      var k :| 0 <= k < |rows| && rows[k] == row;
      assert r[if k == n then i else k] == row;
    }
  }

  /** The number of rows is the next number: numbers stay distinct exactly if no row has that one. */
  lemma AddKeepsDistinctIff(rows: seq<Row>, e: Elem)
    requires Distinct(rows)
    ensures Distinct(rows + [Row(|rows|, e)]) <==> !Holds(rows, |rows|)
  {
    var r, n := rows + [Row(|rows|, e)], |rows|;
    forall k | 0 <= k < n && Distinct(r)
      ensures rows[k].index != n
    {
      assert r[k].index != r[n].index;
    }
  }

  /** Add, add, remove the first, add: two filters are then numbered 1, and removing 1 leaves the later one. */
  lemma NumberedTwice(a: Elem, b: Elem, c: Elem)
    ensures var rows := RemovedFrom([Row(0, a), Row(1, b)], 0, 0) + [Row(1, c)];
            rows == [Row(1, b), Row(1, c)] && RemovedFrom(rows, 1, 0) == [Row(1, c)]
  {
  }

  /** With one more element behind them too: the loop stops after the first. */
  lemma RemovalStops(b: Elem, c: Elem, d: Elem)
    ensures RemovedFrom([Row(1, b), Row(1, c), Row(2, d)], 1, 0) == [Row(2, d), Row(1, c)]
  {
  }

  /** The number is not in the table: then, and only then, removing it changes nothing. */
  lemma {:induction false} RemovalUnchangedIff(rows: seq<Row>, index: nat, i: nat)
    requires i <= |rows|
    ensures RemovedFrom(rows, index, i) == rows <==> forall k :: i <= k < |rows| ==> rows[k].index != index
    decreases |rows| - i
  {
    if i < |rows| {
      if rows[i].index == index {
        assert |RemovedFrom(rows, index, i)| == |rows| - 1;
      } else {
        RemovalUnchangedIff(rows, index, i + 1);
      }
    }
  }

  /**
   A removal is meant for the filter of one table, and is made in both: each table keeps all its rows exactly
   if it does not hold the number, so the other table is spared exactly if the number is not in use there.
   */
  lemma RemovalSparesIff(meant: seq<Row>, other: seq<Row>, index: nat)
    requires Holds(meant, index)
    ensures RemovedFrom(meant, index, 0) != meant
    ensures RemovedFrom(other, index, 0) == other <==> !Holds(other, index)
  {
    RemovalUnchangedIff(meant, index, 0);
    RemovalUnchangedIff(other, index, 0);
  }

  /** Numbers count up from 0 in each table, so the first filter of one table takes that of the other with it. */
  lemma RemovalTakesBoth(e: Elem, s: Elem)
    ensures RemovedFrom([Row(0, e)], 0, 0) == [] == RemovedFrom([Row(0, s)], 0, 0)
  {
  }

  /** `inst_mutex`, which both tables share. */
  class Mutex {
    // how often it has been locked and not unlocked
    var locks: nat

    constructor ()
      ensures locks == 0
    {
      locks := 0;
    }
  }

  /** One of the two tables: the filter elements, their numbers, and how many are in use. */
  class Bank {
    const elems: array<Elem>
    const indexes: array<nat>
    const mutex: Mutex
    var count: nat

    ghost predicate Valid()
      reads this
    {
      elems.Length == indexes.Length && count <= elems.Length
    }

    ghost function Rows(): (r: seq<Row>)
      requires Valid()
      reads this, elems, indexes
      ensures |r| == count
    {
      seq(count, k requires 0 <= k < count reads this, elems, indexes requires Valid() => Row(indexes[k], elems[k]))
    }

    constructor (capacity: nat, mutex: Mutex)
      ensures Valid() && Rows() == [] && elems.Length == capacity && fresh(elems) && fresh(indexes)
      ensures this.mutex == mutex
    {
      this.mutex := mutex;
      elems := new Elem[capacity](_ => Elem({}, {}));
      indexes := new nat[capacity](_ => 0);
      count := 0;
    }

    method FirstFilterIndex(id: Bits) returns (at: Option<nat>)
      requires Valid()
      ensures at == FirstMatch(Rows(), id, 0)
    {
      var i := 0;
      at := None;
      while i < count
        invariant i <= count && at == None
        invariant FirstMatch(Rows(), id, 0) == FirstMatch(Rows(), id, i)
      {
        if id + elems[i].mask == elems[i].id + elems[i].mask {
          at := Some(i);
          break;
        }
        i := i + 1;
      }
    }

    method Append(elem: Elem)
      requires Valid() && count < elems.Length
      modifies this`count, elems, indexes
      ensures Valid() && Rows() == old(Rows()) + [Row(old(count), elem)]
    {
      indexes[count] := count;
      elems[count] := elem;
      count := count + 1;
    }

    /** A full table is left with the mutex locked. */
    method Add(id: Bits, mask: Bits) returns (ret: Errno, index: nat)
      requires Valid()
      modifies this`count, elems, indexes, mutex
      ensures Valid()
      ensures mutex.locks == old(mutex.locks) + if ret == ENOSPC then 1 else 0
      ensures old(count) == elems.Length ==> ret == ENOSPC && Rows() == old(Rows())
      ensures old(count) < elems.Length ==>
                && ret == Success && index == old(count)
                && Rows() == old(Rows()) + [Row(index, Elem(id, Complement(mask)))]
    {
      index := 0;
      mutex.locks := mutex.locks + 1;
      if count < elems.Length {
        index := count;
        Append(Elem(id, Complement(mask)));
      } else {
        return ENOSPC, index;
      }
      mutex.locks := mutex.locks - 1;
      ret := Success;
    }

    method Remove(index: nat)
      requires Valid()
      modifies this`count, elems, indexes
      ensures Valid() && Rows() == RemovedFrom(old(Rows()), index, 0)
    {
      if count > 0 {
        var lastIndex, lastElem := indexes[count - 1], elems[count - 1];
        var i := 0;
        while i < count
          invariant i <= count == old(count)
          invariant Rows() == old(Rows())
          invariant RemovedFrom(Rows(), index, 0) == RemovedFrom(Rows(), index, i)
        {
          if indexes[i] == index {
            if i != count - 1 {
              indexes[i] := lastIndex;
              elems[i] := lastElem;
            }
            count := count - 1;
            break;
          }
          i := i + 1;
        }
      }
    }
  }

  /** The tables for extended and for standard identifiers. */
  class Tables {
    const ext: Bank
    const std: Bank
    const mutex: Mutex

    ghost predicate Valid()
      reads ext, std
    {
      && ext.Valid() && std.Valid() && ext.mutex == std.mutex == mutex
      && {ext, ext.elems, ext.indexes} !! {std, std.elems, std.indexes}
    }

    constructor ()
      ensures Valid() && ext.Rows() == [] && std.Rows() == []
    {
      var m := new Mutex();
      var e := new Bank(64, m);
      var s := new Bank(128, m);
      ext, std, mutex := e, s, m;
    }

    method FirstFilterIndex(extended: bool, id: Bits) returns (at: Option<nat>)
      requires Valid()
      ensures at == FirstMatch(if extended then ext.Rows() else std.Rows(), id, 0)
    {
      if extended {
        at := ext.FirstFilterIndex(id);
      } else {
        at := std.FirstFilterIndex(id);
      }
    }

    /** Only the extended-identifier flag is supported, and it picks the table. */
    method AddRxFilter(otherFlags: bool, extended: bool, hasCallback: bool, id: Bits, mask: Bits)
      returns (ret: Errno, index: nat)
      requires Valid()
      modifies ext`count, ext.elems, ext.indexes, std`count, std.elems, std.indexes, mutex
      ensures Valid()
      ensures mutex.locks == old(mutex.locks) + if ret == ENOSPC then 1 else 0
      ensures otherFlags ==> ret == ENOTSUP
      ensures !otherFlags && !hasCallback ==> ret == EINVAL
      ensures ret != Success ==> ext.Rows() == old(ext.Rows()) && std.Rows() == old(std.Rows())
      ensures ret == Success ==> !otherFlags && hasCallback
      ensures ret == Success && extended ==>
                && index == |old(ext.Rows())| && std.Rows() == old(std.Rows())
                && ext.Rows() == old(ext.Rows()) + [Row(index, Elem(id, Complement(mask)))]
      ensures ret == Success && !extended ==>
                && index == |old(std.Rows())| && ext.Rows() == old(ext.Rows())
                && std.Rows() == old(std.Rows()) + [Row(index, Elem(id, Complement(mask)))]
      ensures !otherFlags && hasCallback ==>
                (ret == Success <==> if extended then old(ext.count) < ext.elems.Length else old(std.count) < std.elems.Length)
    {
      index := 0;
      if otherFlags {
        return ENOTSUP, index;
      }
      if !hasCallback {
        return EINVAL, index;
      }
      if extended {
        ret, index := ext.Add(id, mask);
      } else {
        ret, index := std.Add(id, mask);
      }
    }

    /** The two tables number their filters separately, and a removal takes the number out of both. */
    method RemoveRxFilter(index: nat)
      requires Valid()
      modifies ext`count, ext.elems, ext.indexes, std`count, std.elems, std.indexes, mutex
      ensures Valid() && mutex.locks == old(mutex.locks)
      ensures ext.Rows() == RemovedFrom(old(ext.Rows()), index, 0)
      ensures std.Rows() == RemovedFrom(old(std.Rows()), index, 0)
    {
      mutex.locks := mutex.locks + 1;
      ext.Remove(index);
      std.Remove(index);
      mutex.locks := mutex.locks - 1;
    }
  }
}
