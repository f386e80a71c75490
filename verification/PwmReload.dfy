/** The PWM driver's search for a reload value with a multiplier, and for the matching compare value. */
module PwmReload {
  import opened Words

  /** The counter and compare registers hold 24 bits; a multiplier counts the rounds beyond the first. */
  const MAX_COUNT := 0xffffff
  const LAST: nat := 16

  datatype Setting = NotSupported | Setting(rld: u32, xrld: nat, rldCmp: u32, xrldCmp: nat)

  /** The counts of one round. */
  function Share(cycles: u32, multiplier: nat): u32 {
    var d := multiplier + 1;
    assert cycles / d <= cycles;
    cycles / d
  }

  predicate Fits(cycles: u32, multiplier: nat) {
    Share(cycles, multiplier) <= MAX_COUNT
  }

  predicate IsFirstFit(cycles: u32, from: nat, m: nat) {
    from <= m <= LAST && Fits(cycles, m) && forall k: nat :: from <= k < m ==> !Fits(cycles, k)
  }

  predicate NoneFits(cycles: u32, from: nat) {
    forall k: nat :: from <= k <= LAST ==> !Fits(cycles, k)
  }

  /** The part of `hpmicro_pwm_v1_set_cycles` that chooses the register values. */
  method ChooseReload(period: u32, pulse: u32) returns (s: Setting)
    ensures period <= MAX_COUNT ==> s == Setting(period, 0, Sub32(period, pulse), 0)
    ensures period > MAX_COUNT ==> (s.NotSupported? <==> NoneFits(period, 1) || NoneFits(Sub32(period, pulse), 0))
    ensures period > MAX_COUNT && s.Setting? ==>
              && IsFirstFit(period, 1, s.xrld) && s.rld == Share(period, s.xrld)
              && IsFirstFit(Sub32(period, pulse), 0, s.xrldCmp) && s.rldCmp == Share(Sub32(period, pulse), s.xrldCmp)
  {
    if period > MAX_COUNT {
      for i: nat := 1 to LAST + 1
        invariant i <= LAST
        invariant forall k: nat :: 1 <= k < i ==> !Fits(period, k)
      {
        if Share(period, i) <= MAX_COUNT {
          var rld, xrld := Share(period, i), i;
          for j: nat := 0 to LAST + 1
            invariant j <= LAST
            invariant forall k: nat :: 0 <= k < j ==> !Fits(Sub32(period, pulse), k)
          {
            if Share(Sub32(period, pulse), j) <= MAX_COUNT {
              assert Fits(period, i) && Fits(Sub32(period, pulse), j);
              return Setting(rld, xrld, Share(Sub32(period, pulse), j), j);
            } else if j >= 16 {
              assert !Fits(Sub32(period, pulse), j);
              return NotSupported;
            }
          }
        } else if i >= 16 {
          assert !Fits(period, i);
          return NotSupported;
        }
      }
      assert false;
    }
    s := Setting(period, 0, Sub32(period, pulse), 0);
  }

  // ----- What the choice means

  lemma Quotient(n: nat, a: nat, q: nat)
    requires a > 0 && q * a <= n
    ensures q <= n / a
  {
    assert q * a < (n / a + 1) * a;
    LessByFactor(q, n / a + 1, a);
  }

  lemma LessByFactor(x: nat, y: nat, a: nat)
    requires x * a < y * a
    ensures x < y
  {
  }

  /** More cycles, or fewer rounds, leave no less for a round. */
  lemma ShareGrows(a: u32, b: u32, k: nat, l: nat)
    requires a <= b && l <= k
    ensures Share(a, k) <= Share(b, l)
  {
    var q := Share(a, k);
    assert q * (k + 1) <= a;
    assert q * (l + 1) <= q * (k + 1);
    Quotient(b, l + 1, q);
  }

  /** The search finds nothing exactly if the last multiplier still leaves too much. */
  lemma NoneFitsIff(cycles: u32, from: nat)
    requires from <= LAST
    ensures NoneFits(cycles, from) <==> cycles / 17 > MAX_COUNT
  {
    assert Fits(cycles, LAST) <==> cycles / 17 <= MAX_COUNT;
    forall k: nat | from <= k <= LAST
      ensures Fits(cycles, k) ==> Fits(cycles, LAST)
    {
      ShareGrows(cycles, cycles, LAST, k);
    }
  }

  /**
   For every period and every pulse that is not longer, the search fails exactly if even the largest
   multiplier leaves too much; the compare search never does.
   */
  lemma RejectIff(period: u32, pulse: u32)
    requires pulse <= period && period > MAX_COUNT
    ensures NoneFits(period, 1) || NoneFits(Sub32(period, pulse), 0) <==> period / 17 > MAX_COUNT
    ensures !NoneFits(period, 1) ==> !NoneFits(Sub32(period, pulse), 0)
  {
    NoneFitsIff(period, 1);
    NoneFitsIff(Sub32(period, pulse), 0);
    ShareGrows(period - pulse, period, LAST, LAST);
  }

  /** The reload value uses the upper half of the register's range, and misses at most one count a round. */
  lemma ReloadIsTight(period: u32, xrld: nat)
    requires period > MAX_COUNT && IsFirstFit(period, 1, xrld)
    ensures 0x800000 <= Share(period, xrld) <= MAX_COUNT
    ensures 0 <= period - (xrld + 1) * Share(period, xrld) <= xrld
  {
    hide Share;
    ShareBounds(period, xrld);
    EnoughCycles(period, xrld);
    if Share(period, xrld) < 0x800000 {
      Scaled(xrld + 1, Share(period, xrld), 0x7fffff);
      assert false;
    }
  }

  lemma ShareBounds(cycles: u32, k: nat)
    ensures 0 <= cycles - (k + 1) * Share(cycles, k) <= k
  {
    Remainder(cycles, k + 1);
  }

  lemma Remainder(n: nat, d: nat)
    requires d > 0
    ensures 0 <= n - d * (n / d) < d
  {
  }

  lemma EnoughCycles(period: u32, xrld: nat)
    requires period > MAX_COUNT && IsFirstFit(period, 1, xrld)
    ensures period >= xrld * 0x1000000
  {
    hide Share;
    if xrld > 1 {
      assert !Fits(period, xrld - 1);
      ShareBounds(period, xrld - 1);
      Scaled(xrld, 0x1000000, Share(period, xrld - 1));
    }
  }

  lemma Scaled(x: nat, a: nat, b: nat)
    requires a <= b
    ensures x * a <= x * b
  {
  }

  /** The compare value never needs a larger multiplier than the reload value. */
  lemma CompareWithinReload(period: u32, pulse: u32, xrld: nat, xrldCmp: nat)
    requires pulse <= period && period > MAX_COUNT
    requires IsFirstFit(period, 1, xrld) && IsFirstFit(Sub32(period, pulse), 0, xrldCmp)
    ensures xrldCmp <= xrld
  {
    ShareGrows(period - pulse, period, xrld, xrld);
    assert Fits(Sub32(period, pulse), xrld);
  }
}
