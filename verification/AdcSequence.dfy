/** The ADC driver's sampling: which sample belongs to which channel, and where it is written. */
module AdcSequence {
  import opened Words

  type Sample = u16

  /** The lowest set bit of a mask; a mask is the set of its bit positions. */
  function Lowest(mask: set<nat>): (b: nat)
    requires mask != {}
    ensures b in mask && forall c :: c in mask ==> b <= c
  {
    HasLowest(mask);
    var b: nat :| b in mask && forall c :: c in mask ==> b <= c;
    b
  }

  lemma {:induction false} HasLowest(mask: set<nat>)
    requires mask != {}
    ensures exists b: nat :: b in mask && forall c :: c in mask ==> b <= c
    decreases |mask|
  {
    var x :| x in mask;
    if exists y :: y in mask && y != x {
      var rest := mask - {x};
      var y :| y in mask && y != x;
      assert y in rest;
      HasLowest(rest);
      var b: nat :| b in rest && forall c :: c in rest ==> b <= c;
      var low := if x < b then x else b;
      assert forall c :: c in mask ==> c == x || c in rest;
      assert low in mask && forall c :: c in mask ==> low <= c;
    } else {
      assert x in mask && forall c :: c in mask ==> x <= c;
    }
  }

  /** The channels of a mask, lowest first. */
  function Ascending(mask: set<nat>): (q: seq<nat>)
    decreases |mask|
  {
    if mask == {} then [] else [Lowest(mask)] + Ascending(mask - {Lowest(mask)})
  }

  lemma NextChannel(mask: set<nat>)
    requires mask != {}
    ensures Ascending(mask) == [Lowest(mask)] + Ascending(mask - {Lowest(mask)})
  {
  }

  lemma NoChannel()
    ensures Ascending({}) == []
  {
  }

  lemma {:induction false} AscendingMeaning(mask: set<nat>)
    ensures |Ascending(mask)| == |mask|
    ensures forall b :: b in Ascending(mask) <==> b in mask
    ensures forall i, j :: 0 <= i < j < |Ascending(mask)| ==> Ascending(mask)[i] < Ascending(mask)[j]
    decreases |mask|
  {
    hide Ascending, Lowest;
    if mask == {} {
      NoChannel();
    } else {
      var low, rest := Lowest(mask), mask - {Lowest(mask)};
      NextChannel(mask);
      AscendingMeaning(rest);
      var q := Ascending(rest);
      forall j | 0 <= j < |q|
        ensures low < q[j]
      {
        assert q[j] in q;
      }
    }
  }

  /** The channels of a mask below one. */
  function Below(mask: set<nat>, c: nat): set<nat> {
    set b | b in mask && b < c
  }

  /** A channel's place in the order is the number of channels below it. */
  lemma {:induction false} PlaceOfChannel(mask: set<nat>, c: nat)
    requires c in mask
    ensures |Below(mask, c)| < |Ascending(mask)| && Ascending(mask)[|Below(mask, c)|] == c
    decreases |mask|
  {
    hide Ascending, Lowest;
    NextChannel(mask);
    var low := Lowest(mask);
    var rest := mask - {low};
    if c == low {
      assert Below(mask, c) == {};
    } else {
      PlaceOfChannel(rest, c);
      assert Below(mask, c) == Below(rest, c) + {low};
    }
  }

  /** A 12-bit conversion result, cut to the resolution. */
  function Scaled(result: u16, resolution: nat): (r: Sample)
    requires resolution in {6, 8, 10, 12}
    ensures r < Pow2(resolution)
  {
    result / 16 / Pow2(12 - resolution)
  }

  /** A sample is the high bits of the conversion result, as many as the resolution says. */
  lemma ScaledIsTop(result: u16, resolution: nat)
    requires resolution in {6, 8, 10, 12}
    ensures var r, unit := Scaled(result, resolution), Pow2(12 - resolution);
            r * unit <= result / 16 < (r + 1) * unit
  {
    hide Pow2;
    DividedBy(result / 16, Pow2(12 - resolution));
  }

  lemma DividedBy(n: nat, d: nat)
    requires d > 0
    ensures n / d * d <= n < (n / d + 1) * d
  {
  }

  function Pow2(n: nat): (p: nat)
    ensures p > 0
  {
    if n == 0 then 1 else 2 * Pow2(n - 1)
  }

  function Samples(mask: set<nat>, result: nat -> u16, resolution: nat): (r: seq<Sample>)
    requires resolution in {6, 8, 10, 12}
    ensures |r| == |Ascending(mask)|
    ensures forall k :: 0 <= k < |r| ==> r[k] == Scaled(result(Ascending(mask)[k]), resolution)
  {
    seq<Sample>(|Ascending(mask)|, k requires 0 <= k < |Ascending(mask)| => Scaled(result(Ascending(mask)[k]), resolution))
  }

  /** Channel by channel: a sampling's sample of a channel stands behind those of the channels below it. */
  lemma SampleOfChannel(mask: set<nat>, result: nat -> u16, resolution: nat, c: nat)
    requires resolution in {6, 8, 10, 12} && c in mask
    ensures |Samples(mask, result, resolution)| == |mask| && |Below(mask, c)| < |mask|
    ensures Samples(mask, result, resolution)[|Below(mask, c)|] == Scaled(result(c), resolution)
  {
    hide Scaled, Ascending, Below;
    AscendingMeaning(mask);
    PlaceOfChannel(mask, c);
  }

  class Driver {
    const buffer: array<Sample>
    var pos: nat
    var repeatPos: nat
    var channels: set<nat>
    var resolution: nat
    // the sequence the hardware was given
    var queue: seq<nat>

    constructor (buffer: array<Sample>)
      ensures this.buffer == buffer && pos == 0
    {
      this.buffer := buffer;
      pos, repeatPos, channels, resolution, queue := 0, 0, {}, 12, [];
    }

    /** `hpmicro_adc12_start_read`, up to the first sampling. */
    method StartRead(oversampling: nat, resolution: nat) returns (err: Errno)
      modifies `pos, `resolution
      ensures err == if oversampling == 0 && resolution in {6, 8, 10, 12} then Success else ENOTSUP
      ensures err == Success ==> pos == 0 && this.resolution == resolution
      ensures err != Success ==> pos == old(pos) && this.resolution == old(this.resolution)
    {
      if oversampling != 0 {
        return ENOTSUP;
      }
      match resolution {
        case 6 | 8 | 10 | 12 =>
        case _ => return ENOTSUP;
      }
      this.resolution := resolution;
      pos := 0;
      err := Success;
    }

    method StartChannel()
      modifies `queue
      ensures queue == Ascending(channels)
    {
      var left, num := channels, 0;
      queue := [];
      while left != {}
        invariant queue + Ascending(left) == Ascending(channels) && num == |queue|
        decreases |left|
      {
        var id := Lowest(left);
        left := left - {id};
        queue := queue + [id];
        num := num + 1;
      }
    }

    /** `adc_context_start_sampling`: remember where this sampling goes, in case it is repeated. */
    method StartSampling(mask: set<nat>)
      modifies `channels, `repeatPos, `queue
      ensures channels == mask && repeatPos == pos && queue == Ascending(mask)
    {
      channels := mask;
      repeatPos := pos;
      StartChannel();
    }

    /** `hpmicro_adc12_isr`, up to the call into the context: the results go to consecutive places. */
    method Isr(result: nat -> u16)
      requires resolution in {6, 8, 10, 12} && pos + |Ascending(channels)| <= buffer.Length
      modifies `pos, `channels, buffer
      ensures pos == old(pos) + |Ascending(old(channels))| && channels == {}
      ensures buffer[old(pos)..pos] == Samples(old(channels), result, resolution)
      ensures forall k :: 0 <= k < buffer.Length && !(old(pos) <= k < pos) ==> buffer[k] == old(buffer[k])
    {
      hide Ascending, Scaled;
      ghost var order := Ascending(channels);
      ghost var n := 0;
      var left := channels;
      while left != {}
        invariant n <= |order| && Ascending(left) == order[n..] && pos == old(pos) + n
        invariant forall k :: 0 <= k < n ==> buffer[old(pos) + k] == Scaled(result(order[k]), resolution)
        invariant forall k :: 0 <= k < buffer.Length && !(old(pos) <= k < pos) ==> buffer[k] == old(buffer[k])
        decreases |left|
      {
        NextChannel(left);
        var id := Lowest(left);
        left := left - {id};
        buffer[pos] := Scaled(result(id), resolution);
        pos := pos + 1;
        n := n + 1;
      }
      NoChannel();
      channels := {};
    }

    /** `adc_context_update_buffer_pointer`. */
    method UpdateBufferPointer(repeatSampling: bool)
      modifies `pos
      ensures pos == if repeatSampling then repeatPos else old(pos)
    {
      if repeatSampling {
        pos := repeatPos;
      }
    }

    /** One sampling and the context's decision about it. */
    method Sampling(mask: set<nat>, result: nat -> u16, repeat: bool)
      requires resolution in {6, 8, 10, 12} && pos + |mask| <= buffer.Length
      modifies `pos, `repeatPos, `channels, `queue, buffer
      ensures pos == old(pos) + if repeat then 0 else |mask|
      ensures Stands(buffer[..], old(pos), Samples(mask, result, resolution))
      ensures forall k :: 0 <= k < old(pos) ==> buffer[k] == old(buffer[k])
    {
      AscendingMeaning(mask);
      StartSampling(mask);
      ghost var at := pos;
      Isr(result);
      assert buffer[at..pos] == buffer[..][at..pos];
      UpdateBufferPointer(repeat);
    }

    /**
     A whole read: for each decision of the context, a sampling that is kept or taken again at the same
     place. At the end the kept samplings stand one behind the other, and the pointer behind them; the last
     sampling stands at its place, kept or not.
     */
    method Read(mask: set<nat>, repeats: seq<bool>, results: nat -> nat -> u16)
      requires resolution in {6, 8, 10, 12} && pos <= buffer.Length && RoomFor(pos, |mask|, repeats, buffer.Length)
      modifies `pos, `repeatPos, `channels, `queue, buffer
      ensures pos == old(pos) + |mask| * Kept(repeats)
      ensures forall m: nat :: m < Kept(repeats) ==>
                Stands(buffer[..], old(pos) + |mask| * m, Samples(mask, results(KeptIndex(repeats, m)), resolution))
      ensures repeats != [] ==>
                Stands(buffer[..], Place(old(pos), |mask|, repeats, |repeats| - 1),
                       Samples(mask, results(|repeats| - 1), resolution))
      ensures forall k :: 0 <= k < old(pos) ==> buffer[k] == old(buffer[k])
    {
      hide Kept, Place, Samples, Ascending, Stands, KeptIndex, KeptStand;
      ghost var start := pos;
      PlaceStart(start, |mask|, repeats);
      NoneStand(buffer[..], start, mask, repeats, results, resolution);
      for i := 0 to |repeats|
        invariant start <= pos == Place(start, |mask|, repeats, i)
        invariant KeptStand(buffer[..], start, mask, repeats, i, results, resolution)
        invariant i > 0 ==>
                    Stands(buffer[..], Place(start, |mask|, repeats, i - 1), Samples(mask, results(i - 1), resolution))
        invariant forall k :: 0 <= k < start ==> buffer[k] == old(buffer[k])
      {
        ghost var before, at := buffer[..], pos;
        PlaceStep(start, |mask|, repeats, i);
        Sampling(mask, results(i), repeats[i]);
        OneMoreStands(before, buffer[..], start, mask, repeats, i, results, resolution);
      }
      PlaceEnd(start, |mask|, repeats);
      KeptInOrder(buffer[..], start, mask, repeats, results, resolution);
    }
  }

  /** The kept ones of the first `i` samplings stand at their places. */
  ghost predicate KeptStand(buffer: seq<Sample>, start: nat, mask: set<nat>, repeats: seq<bool>, i: nat,
                            results: nat -> nat -> u16, resolution: nat)
    requires i <= |repeats| && resolution in {6, 8, 10, 12}
  {
    forall j :: 0 <= j < i && !repeats[j] ==>
      && Place(start, |mask|, repeats, j) + |mask| <= Place(start, |mask|, repeats, i)
      && Stands(buffer, Place(start, |mask|, repeats, j), Samples(mask, results(j), resolution))
  }

  lemma NoneStand(buffer: seq<Sample>, start: nat, mask: set<nat>, repeats: seq<bool>,
                  results: nat -> nat -> u16, resolution: nat)
    requires resolution in {6, 8, 10, 12}
    ensures KeptStand(buffer, start, mask, repeats, 0, results, resolution)
  {
  }

  lemma OneMoreStands(before: seq<Sample>, after: seq<Sample>, start: nat, mask: set<nat>, repeats: seq<bool>, i: nat,
                      results: nat -> nat -> u16, resolution: nat)
    requires i < |repeats| && resolution in {6, 8, 10, 12} && KeptStand(before, start, mask, repeats, i, results, resolution)
    requires Place(start, |mask|, repeats, i) <= |before| == |after|
    requires forall k :: 0 <= k < Place(start, |mask|, repeats, i) ==> after[k] == before[k]
    requires Stands(after, Place(start, |mask|, repeats, i), Samples(mask, results(i), resolution))
    ensures KeptStand(after, start, mask, repeats, i + 1, results, resolution)
  {
    hide Kept, Place, Ascending, Stands, Samples;
    AscendingMeaning(mask);
    PlaceStep(start, |mask|, repeats, i);
    forall j | 0 <= j < i && !repeats[j]
      ensures Stands(after, Place(start, |mask|, repeats, j), Samples(mask, results(j), resolution))
    {
      StandsOn(before, after, Place(start, |mask|, repeats, j), Samples(mask, results(j), resolution),
               Place(start, |mask|, repeats, i));
    }
  }

  lemma KeptInOrder(buffer: seq<Sample>, start: nat, mask: set<nat>, repeats: seq<bool>,
                    results: nat -> nat -> u16, resolution: nat)
    requires resolution in {6, 8, 10, 12} && KeptStand(buffer, start, mask, repeats, |repeats|, results, resolution)
    ensures forall m: nat :: m < Kept(repeats) ==>
              Stands(buffer, start + |mask| * m, Samples(mask, results(KeptIndex(repeats, m)), resolution))
  {
    hide Kept, Place, Ascending, Stands, Samples, KeptIndex;
    forall m: nat | m < Kept(repeats)
      ensures Stands(buffer, start + |mask| * m, Samples(mask, results(KeptIndex(repeats, m)), resolution))
    {
      PlaceOfKept(start, |mask|, repeats, m);
    }
  }

  /** A sampling's data at a place of the buffer. */
  ghost predicate Stands(buffer: seq<Sample>, at: nat, data: seq<Sample>) {
    at + |data| <= |buffer| && buffer[at..at + |data|] == data
  }

  /** Data below a position stands on while only what is at the position or behind it changes. */
  lemma StandsOn(before: seq<Sample>, after: seq<Sample>, at: nat, data: seq<Sample>, from: nat)
    requires Stands(before, at, data) && at + |data| <= from <= |before| == |after|
    requires forall k :: 0 <= k < from ==> after[k] == before[k]
    ensures Stands(after, at, data)
  {
  }

  /** How many of the samplings were kept. */
  function Kept(repeats: seq<bool>): nat {
    if repeats == [] then 0 else Kept(repeats[..|repeats| - 1]) + if repeats[|repeats| - 1] then 0 else 1
  }

  /** The sampling that is the `m`-th kept one. */
  function KeptIndex(repeats: seq<bool>, m: nat): (i: nat)
    requires m < Kept(repeats)
    ensures i < |repeats| && !repeats[i] && Kept(repeats[..i]) == m
  {
    var n := |repeats| - 1;
    if m == Kept(repeats[..n]) then n
    else
      assert forall i :: 0 <= i <= n ==> repeats[..n][..i] == repeats[..i];
      KeptIndex(repeats[..n], m)
  }

  lemma PlaceOfKept(start: nat, n: nat, repeats: seq<bool>, m: nat)
    requires m < Kept(repeats)
    ensures Place(start, n, repeats, KeptIndex(repeats, m)) == start + n * m
  {
  }

  /** Where sampling `i` of a read of `n` channels goes. */
  function Place(start: nat, n: nat, repeats: seq<bool>, i: nat): nat
    requires i <= |repeats|
  {
    start + n * Kept(repeats[..i])
  }

  /** Every sampling of the read finds room; the driver does not check it. */
  ghost predicate RoomFor(start: nat, n: nat, repeats: seq<bool>, length: nat) {
    forall i :: 0 <= i < |repeats| ==> Place(start, n, repeats, i) + n <= length
  }

  lemma PlaceStart(start: nat, n: nat, repeats: seq<bool>)
    ensures Place(start, n, repeats, 0) == start
  {
    assert repeats[..0] == [];
  }

  lemma PlaceStep(start: nat, n: nat, repeats: seq<bool>, i: nat)
    requires i < |repeats|
    ensures Place(start, n, repeats, i + 1) == Place(start, n, repeats, i) + if repeats[i] then 0 else n
  {
    assert repeats[..i + 1][..i] == repeats[..i];
    assert n * (Kept(repeats[..i]) + 1) == n * Kept(repeats[..i]) + n;
  }

  lemma PlaceEnd(start: nat, n: nat, repeats: seq<bool>)
    ensures Place(start, n, repeats, |repeats|) == start + n * Kept(repeats)
  {
    assert repeats[..|repeats|] == repeats;
  }

  lemma {:induction false} PlaceGrows(start: nat, n: nat, repeats: seq<bool>, i: nat, j: nat)
    requires i <= j <= |repeats|
    ensures Place(start, n, repeats, i) <= Place(start, n, repeats, j)
    decreases j
  {
    if i < j {
      PlaceGrows(start, n, repeats, i, j - 1);
      PlaceStep(start, n, repeats, j - 1);
    }
  }

  /** There is room for all samplings exactly if there is for one more than were kept before the last. */
  lemma RoomForIff(start: nat, n: nat, repeats: seq<bool>, length: nat)
    requires repeats != []
    ensures RoomFor(start, n, repeats, length) <==> Place(start, n, repeats, |repeats| - 1) + n <= length
  {
    var last := |repeats| - 1;
    forall i | 0 <= i < |repeats|
      ensures Place(start, n, repeats, i) <= Place(start, n, repeats, last)
    {
      PlaceGrows(start, n, repeats, i, last);
    }
  }
}
