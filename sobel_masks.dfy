/** Gradient masks of the adaptive embedder: which pixels carry payload
    bits, how many bits they hold, and how the threshold is relaxed when
    they are too few. */
module SobelMasks {
  import opened BitCodec
  import opened Images

  /** `create_embedding_mask`: a pixel is selected (mask value 1) exactly
      when its gradient is strictly above the threshold. */
  function CreateMask(gradient: seq<int>, threshold: int): (mask: seq<bool>)
    ensures |mask| == |gradient|
    ensures forall q :: 0 <= q < |gradient| ==> (mask[q] <==> gradient[q] > threshold)
  {
    seq(|gradient|, q requires 0 <= q < |gradient| => gradient[q] > threshold)
  }

  /** `np.sum` of the mask restricted to its first `p` pixels. */
  function Ones(mask: seq<bool>, p: nat): (r: nat)
    requires p <= |mask|
    ensures r <= p
  {
    if p == 0 then 0 else Ones(mask, p - 1) + (if mask[p - 1] then 1 else 0)
  }

  /** A mask that selects at least the pixels another one selects has at
      least as many ones. */
  lemma {:induction false} OnesMonotone(small: seq<bool>, large: seq<bool>, p: nat)
    requires p <= |small| && p <= |large|
    requires forall q :: 0 <= q < p && small[q] ==> large[q]
    ensures Ones(small, p) <= Ones(large, p)
  {
    if p > 0 {
      OnesMonotone(small, large, p - 1);
    }
  }

  /** Lowering the threshold never removes a pixel from the mask. */
  lemma MaskMonotone(gradient: seq<int>, lower: int, higher: int, q: nat)
    requires lower <= higher && q < |gradient|
    ensures CreateMask(gradient, higher)[q] ==> CreateMask(gradient, lower)[q]
  {
  }

  /** `available_capacity`: payload bits the mask at `threshold` offers,
      one per channel of each selected pixel. */
  function BitCapacity(gradient: seq<int>, c: ChannelCount, threshold: int): (r: nat)
    ensures r <= FirstSample(c, |gradient|)
  {
    FirstSample(c, Ones(CreateMask(gradient, threshold), |gradient|))
  }

  /** Capacity never decreases as the threshold falls. */
  lemma CapacityMonotone(gradient: seq<int>, c: ChannelCount, lower: int, higher: int)
    requires lower <= higher
    ensures BitCapacity(gradient, c, higher) <= BitCapacity(gradient, c, lower)
  {
    OnesMonotone(CreateMask(gradient, higher), CreateMask(gradient, lower), |gradient|);
  }

  /** The threshold `embed` settles on: lowered by 5 while the mask offers
      fewer than `need` bits and the threshold is still positive. It moves
      in steps of 5 and ends above -5. */
  function Relax(gradient: seq<int>, c: ChannelCount, need: nat, t: int): (r: int)
    ensures r <= t && (t - r) % 5 == 0
    ensures t <= 0 ==> r == t
    ensures t > 0 ==> -5 < r
    decreases if t > 0 then t else 0
  {
    if BitCapacity(gradient, c, t) >= need || t <= 0 then t
    else Relax(gradient, c, need, t - 5)
  }

  /** Relaxation stops at a threshold whose mask offers enough bits, or at
      one that is not positive. */
  lemma {:induction false} RelaxStops(gradient: seq<int>, c: ChannelCount, need: nat, t: int)
    ensures var r := Relax(gradient, c, need, t);
      BitCapacity(gradient, c, r) >= need || r <= 0
    decreases if t > 0 then t else 0
  {
    if !(BitCapacity(gradient, c, t) >= need || t <= 0) {
      RelaxStops(gradient, c, need, t - 5);
    }
  }

  /** Relaxation stops at the first such threshold: every threshold it
      passed over, going down from `t` in steps of 5, was positive and fell
      short. */
  lemma {:induction false} RelaxPassesShort(gradient: seq<int>, c: ChannelCount, need: nat, t: int, u: int)
    requires Relax(gradient, c, need, t) < u <= t && (t - u) % 5 == 0
    ensures u > 0 && BitCapacity(gradient, c, u) < need
    decreases if t > 0 then t else 0
  {
    if u != t {
      StepDown(t, u);
      RelaxPassesShort(gradient, c, need, t - 5, u);
    }
  }

  /** Two thresholds a multiple of 5 apart: the lower is also a multiple
      of 5 below the next step down from the higher. */
  lemma StepDown(t: int, u: int)
    requires u < t && (t - u) % 5 == 0
    ensures u <= t - 5 && (t - 5 - u) % 5 == 0
  {
  }

  /** The lowest threshold relaxation can reach from `t`. */
  function LowestThreshold(t: int): (r: int)
    ensures t > 0 ==> -5 < r <= 0 && (t - r) % 5 == 0
  {
    if t <= 0 then t else t - 5 * ((t + 4) / 5)
  }

  /** Since capacity grows as the threshold falls, relaxation falls short
      exactly when even the lowest reachable threshold falls short. */
  lemma RelaxFallsShortIff(gradient: seq<int>, c: ChannelCount, need: nat, t: int)
    ensures BitCapacity(gradient, c, Relax(gradient, c, need, t)) < need
      <==> BitCapacity(gradient, c, LowestThreshold(t)) < need
  {
    var r := Relax(gradient, c, need, t);
    var low := LowestThreshold(t);
    RelaxStops(gradient, c, need, t);
    if BitCapacity(gradient, c, r) < need {
      assert r <= 0;
      assert r == low by {
        if t > 0 {
          assert (r - low) % 5 == 0 && -5 < r - low < 5;
        }
      }
    } else {
      assert low <= r;
      CapacityMonotone(gradient, c, low, r);
    }
  }

  /** The final threshold can be negative: from 3, one step reaches -2. */
  lemma RelaxBelowZero(gradient: seq<int>, c: ChannelCount, need: nat)
    requires BitCapacity(gradient, c, 3) < need
    ensures Relax(gradient, c, need, 3) == -2
  {
  }

  /** The sample indices of pixel `q`, channel by channel. */
  function PixelSamples(c: ChannelCount, q: nat): (r: seq<nat>)
    ensures |r| == c
    ensures forall k :: 0 <= k < c ==> r[k] == FirstSample(c, q) + k
  {
    if c == 1 then [q] else [3 * q, 3 * q + 1, 3 * q + 2]
  }

  /** The samples of the selected pixels among the first `p`, in the order
      the raster loops visit them. */
  function Selected(mask: seq<bool>, c: ChannelCount, p: nat): (r: seq<nat>)
    requires p <= |mask|
    ensures |r| <= FirstSample(c, p)
  {
    if p == 0 then [] else Selected(mask, c, p - 1) + (if mask[p - 1] then PixelSamples(c, p - 1) else [])
  }

  /** The pixel a sample index belongs to. */
  function PixelOf(c: ChannelCount, sample: nat): nat
  {
    if c == 1 then sample else sample / 3
  }

  predicate Increasing(slots: seq<nat>)
  {
    forall k1, k2 :: 0 <= k1 < k2 < |slots| ==> slots[k1] < slots[k2]
  }

  predicate Below(slots: seq<nat>, n: nat)
  {
    forall k :: 0 <= k < |slots| ==> slots[k] < n
  }

  /** The selected samples are as many as the selected pixels times the
      channels, increasing, and inside the first `p` pixels. */
  lemma {:induction false} SelectedShape(mask: seq<bool>, c: ChannelCount, p: nat)
    requires p <= |mask|
    ensures |Selected(mask, c, p)| == FirstSample(c, Ones(mask, p))
    ensures Increasing(Selected(mask, c, p))
    ensures Below(Selected(mask, c, p), FirstSample(c, p))
    ensures forall k :: 0 <= k < |Selected(mask, c, p)| ==> mask[PixelOf(c, Selected(mask, c, p)[k])]
  {
    if p > 0 {
      SelectedShape(mask, c, p - 1);
    }
  }

  /** The selection among fewer pixels is a prefix of the selection among
      more. */
  lemma {:induction false} SelectedPrefix(mask: seq<bool>, c: ChannelCount, p: nat, n: nat)
    requires p <= n <= |mask|
    ensures |Selected(mask, c, p)| <= |Selected(mask, c, n)|
    ensures Selected(mask, c, p) == Selected(mask, c, n)[.. |Selected(mask, c, p)|]
    decreases n
  {
    if p < n {
      SelectedPrefix(mask, c, p, n - 1);
    }
  }

  /** The samples at the given indices, in order. */
  function Gather(samples: seq<bv8>, slots: seq<nat>): (r: seq<bv8>)
    requires Below(slots, |samples|)
    ensures |r| == |slots|
  {
    seq(|slots|, k requires 0 <= k < |slots| => samples[slots[k]])
  }

  /** Slots that run through consecutive samples gather those samples. */
  lemma GatherRun(samples: seq<bv8>, slots: seq<nat>, read: nat, first: nat, c: nat)
    requires Below(slots, |samples|) && 0 < c && read + c <= |slots|
    requires forall s :: read <= s < read + c ==> slots[s] == first + (s - read)
    ensures first + c <= |samples|
    ensures Lsbs(Gather(samples, slots))[read .. read + c] == Lsbs(samples[first .. first + c])
  {
    assert slots[read + c - 1] == first + c - 1;
    var stream, pixel := Lsbs(Gather(samples, slots)), Lsbs(samples[first .. first + c]);
    forall k | 0 <= k < c
      ensures stream[read + k] == pixel[k]
    {
      assert slots[read + k] == first + k;
      assert stream[read + k] == Lsb(samples[first + k]);
    }
  }

  /** The samples with `bits` written, one each, into the LSBs of the first
      `|bits|` slots. */
  function WriteAt(samples: seq<bv8>, slots: seq<nat>, bits: seq<bool>): (r: seq<bv8>)
    requires |bits| <= |slots| && Below(slots, |samples|)
    ensures |r| == |samples|
    decreases |bits|
  {
    if bits == [] then samples
    else
      var d := |bits| - 1;
      WriteAt(samples, slots, bits[..d])[slots[d] := SetLsb(samples[slots[d]], bits[d])]
  }

  /** Writing into distinct slots: each written slot carries its bit in its
      LSB and keeps its upper seven bits; every other sample is unchanged. */
  lemma {:induction false} WriteAtEffect(samples: seq<bv8>, slots: seq<nat>, bits: seq<bool>)
    requires |bits| <= |slots| && Below(slots, |samples|) && Increasing(slots)
    ensures forall k :: 0 <= k < |bits| ==> WriteAt(samples, slots, bits)[slots[k]] == SetLsb(samples[slots[k]], bits[k])
    ensures forall i :: 0 <= i < |samples| && (forall k :: 0 <= k < |bits| ==> slots[k] != i) ==>
      WriteAt(samples, slots, bits)[i] == samples[i]
    decreases |bits|
  {
    if bits != [] {
      var d := |bits| - 1;
      WriteAtEffect(samples, slots, bits[..d]);
    }
  }

  /** Reading back the slots just written gives the written bits. */
  lemma GatherWriteAt(samples: seq<bv8>, slots: seq<nat>, bits: seq<bool>)
    requires |bits| <= |slots| && Below(slots, |samples|) && Increasing(slots)
    ensures |bits| <= |Lsbs(Gather(WriteAt(samples, slots, bits), slots))|
    ensures Lsbs(Gather(WriteAt(samples, slots, bits), slots))[.. |bits|] == bits
  {
    WriteAtEffect(samples, slots, bits);
    var written := WriteAt(samples, slots, bits);
    var stream := Lsbs(Gather(written, slots));
    forall k | 0 <= k < |bits|
      ensures stream[k] == bits[k]
    {
      assert stream[k] == Lsb(written[slots[k]]);
    }
  }

  /** A sample index lies in one of the first `n` pixels when it lies
      before their samples end. */
  lemma PixelOfBelow(c: ChannelCount, n: nat, i: nat)
    requires i < FirstSample(c, n)
    ensures PixelOf(c, i) < n
  {
  }

  /** Writing through the mask's selected samples: every sample keeps its
      upper seven bits and moves by at most one, and every sample of an
      unselected pixel is unchanged. */
  lemma WriteThroughMask(samples: seq<bv8>, mask: seq<bool>, c: ChannelCount, bits: seq<bool>)
    requires |samples| == FirstSample(c, |mask|) && |bits| <= |Selected(mask, c, |mask|)|
    ensures Below(Selected(mask, c, |mask|), |samples|)
    ensures forall i :: 0 <= i < |samples| ==> PixelOf(c, i) < |mask|
    ensures forall i :: 0 <= i < |samples| ==>
      WriteAt(samples, Selected(mask, c, |mask|), bits)[i] >> 1 == samples[i] >> 1 &&
      -1 <= WriteAt(samples, Selected(mask, c, |mask|), bits)[i] as int - samples[i] as int <= 1
    ensures forall i :: 0 <= i < |samples| && !mask[PixelOf(c, i)] ==>
      WriteAt(samples, Selected(mask, c, |mask|), bits)[i] == samples[i]
  {
    var slots := Selected(mask, c, |mask|);
    SelectedShape(mask, c, |mask|);
    WriteAtEffect(samples, slots, bits);
    var written := WriteAt(samples, slots, bits);
    forall i | 0 <= i < |samples|
      ensures PixelOf(c, i) < |mask|
      ensures written[i] >> 1 == samples[i] >> 1
      ensures -1 <= written[i] as int - samples[i] as int <= 1
      ensures !mask[PixelOf(c, i)] ==> written[i] == samples[i]
    {
      PixelOfBelow(c, |mask|, i);
      if k :| 0 <= k < |bits| && slots[k] == i {
        SetLsbWithinOne(samples[i], bits[k]);
      }
    }
  }

  /** Writing one more bit sets one more slot, which still held its cover
      value. */
  lemma WriteAtStep(samples: seq<bv8>, slots: seq<nat>, bits: seq<bool>, d: nat)
    requires d < |bits| <= |slots| && Below(slots, |samples|) && Increasing(slots)
    ensures WriteAt(samples, slots, bits[..d])[slots[d]] == samples[slots[d]]
    ensures WriteAt(samples, slots, bits[.. d + 1])
         == WriteAt(samples, slots, bits[..d])[slots[d] := SetLsb(samples[slots[d]], bits[d])]
  {
    WriteAtEffect(samples, slots, bits[..d]);
    assert bits[.. d + 1][..d] == bits[..d];
  }

  /** A selected pixel contributes its `c` samples right after those of
      the selected pixels before it. */
  lemma SelectedNext(mask: seq<bool>, c: ChannelCount, p: nat)
    requires p < |mask| && mask[p]
    ensures |Selected(mask, c, p + 1)| == |Selected(mask, c, p)| + c <= |Selected(mask, c, |mask|)|
    ensures forall s :: |Selected(mask, c, p)| <= s < |Selected(mask, c, p)| + c ==>
      Selected(mask, c, |mask|)[s] == FirstSample(c, p) + (s - |Selected(mask, c, p)|)
  {
    SelectedPrefix(mask, c, p + 1, |mask|);
    var before, after := Selected(mask, c, p), Selected(mask, c, p + 1);
    assert after == before + PixelSamples(c, p);
    forall s | |before| <= s < |before| + c
      ensures Selected(mask, c, |mask|)[s] == FirstSample(c, p) + (s - |before|)
    {
      assert after[s] == PixelSamples(c, p)[s - |before|];
    }
  }
}
