/** What the receive filter tables of the CAN and MCAN drivers share: masked matching and swap-with-last removal. */
module FilterRows {
  import opened Words

  /** A 32-bit word as the set of its one bits: `|` is union, `&` intersection. */
  type Bits = s: set<nat> | forall b :: b in s ==> b < 32

  function Positions(n: nat): (r: set<nat>)
    ensures forall b: nat :: b in r <==> b < n
  {
    if n == 0 then {} else Positions(n - 1) + {n - 1}
  }

  function Complement(m: Bits): Bits {
    Positions(32) - m
  }

  /** Matching as the controller's registers put it: in a stored mask a 1 means "don't care". */
  predicate MatchesStored(id: Bits, code: Bits, mask: Bits) {
    id + mask == code + mask
  }

  /** Matching as the filter was specified: in a specified mask a 1 means "must be equal". */
  predicate MatchesSpecified(id: Bits, code: Bits, mask: Bits) {
    id * mask == code * mask
  }

  /** Storing the complement of the mask and comparing with OR is matching as specified. */
  lemma StoredIsSpecified(id: Bits, code: Bits, mask: Bits)
    ensures MatchesStored(id, code, Complement(mask)) <==> MatchesSpecified(id, code, mask)
  {
    var stored := Complement(mask);
    if MatchesStored(id, code, stored) {
      forall b
        ensures b in id * mask <==> b in code * mask
      {
        assert b in id + stored <==> b in code + stored;
      }
    }
    if MatchesSpecified(id, code, mask) {
      forall b
        ensures b in id + stored <==> b in code + stored
      {
        assert b in id * mask <==> b in code * mask;
      }
    }
  }

  /** The table with row `i` overwritten by the last one, and the last one dropped. */
  function SwapRemove<T>(rows: seq<T>, i: nat): seq<T>
    requires i < |rows|
  {
    rows[i := rows[|rows| - 1]][..|rows| - 1]
  }

  /** Swap-with-last removal drops exactly the row removed. */
  lemma SwapRemoveKeepsOthers<T>(rows: seq<T>, i: nat)
    requires i < |rows|
    ensures multiset(SwapRemove(rows, i)) == multiset(rows) - multiset{rows[i]}
  {
    var n := |rows| - 1;
    assert rows == rows[..n] + [rows[n]];
    if i < n {
      var r := rows[..n];
      assert r == r[..i] + [r[i]] + r[i + 1..];
      assert SwapRemove(rows, i) == r[..i] + [rows[n]] + r[i + 1..];
    }
  }
}
