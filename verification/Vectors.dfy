/** Interrupt vectors handed to the devices, and the dispatch that finds the device again.

    A device's vector is 64 plus its slot times the stride, 192 over the number of slots. Dispatch
    divides by the stride (the source divides by the device count, see DispatchAsWritten). */
module Vectors {
  import opened PageTypes

  const FIRST: nat := 64
  const WAKE: nat := 255

  function Stride(slots: nat): nat
    requires slots > 0
  {
    (256 - FIRST) / slots
  }

  function VectorOf(p: nat, slots: nat): nat
    requires slots > 0
  {
    FIRST + p * Stride(slots)
  }

  function Dispatch(vector: nat, slots: nat): nat
    requires slots > 0 && Stride(slots) > 0 && vector >= FIRST
  {
    (vector - FIRST) / Stride(slots)
  }

  /** `assign_vectors`: the loop over the slots of the device directory; a vacant slot gets no vector
      but uses one up. */
  method AssignVectors(occupied: seq<bool>) returns (vectors: seq<Option<nat>>)
    ensures |vectors| == |occupied|
    ensures forall p | 0 <= p < |occupied| :: vectors[p] == if occupied[p] then Some(VectorOf(p, |occupied|)) else None
  {
    var vector := FIRST;
    vectors := [];
    for p := 0 to |occupied|
      invariant |vectors| == p && (|occupied| > 0 ==> vector == VectorOf(p, |occupied|))
      invariant forall k | 0 <= k < p :: vectors[k] == if occupied[k] then Some(VectorOf(k, |occupied|)) else None
    {
      vectors := vectors + [if occupied[p] then Some(vector) else None];
      vector := vector + (256 - 64) / |occupied|;
    }
  }

  lemma Quotient(p: nat, stride: nat, rest: nat)
    requires rest < stride
    ensures (p * stride + rest) / stride == p
  {
    var x := p * stride + rest;
    var q := x / stride;
    assert x == q * stride + x % stride && 0 <= x % stride < stride;
    if q < p {
      Ordered(q, p, stride);
    } else if p < q {
      Ordered(p, q, stride);
    }
  }

  lemma Ordered(p: nat, q: nat, stride: nat)
    requires p < q
    ensures p * stride + stride <= q * stride
  {
    assert q * stride == p * stride + (q - p) * stride && (q - p) * stride >= stride by {
      Grows(q - p, stride);
    }
  }

  lemma Grows(n: nat, stride: nat)
    requires n > 0
    ensures n * stride >= stride
  {
  }

  /** What a device directory of that many slots needs of its vectors. */
  ghost predicate Sound(slots: nat)
    requires slots > 0
  {
    && (forall p | 0 <= p < slots :: FIRST <= VectorOf(p, slots) < WAKE)
    && (forall p, q | 0 <= p < q < slots :: VectorOf(p, slots) != VectorOf(q, slots))
    && Stride(slots) > 0
  }

  lemma InRange(p: nat, slots: nat)
    requires p < slots <= 191
    ensures FIRST <= VectorOf(p, slots) < WAKE && Stride(slots) > 0
  {
    Ordered(p, slots, Stride(slots));
    if Stride(slots) == 1 {
      assert p * Stride(slots) == p;
    }
  }

  /** The vectors are distinct, at least 64 and below the wake vector exactly for up to 191 slots. */
  lemma SoundUpTo191(slots: nat)
    requires slots > 0
    ensures Sound(slots) <==> slots <= 191
  {
    if slots <= 191 {
      forall p | 0 <= p < slots ensures FIRST <= VectorOf(p, slots) < WAKE {
        InRange(p, slots);
      }
      InRange(0, slots);
      forall p, q | 0 <= p < q < slots ensures VectorOf(p, slots) != VectorOf(q, slots) {
        Ordered(p, q, Stride(slots));
      }
    } else {
      if slots == 192 {
        assert VectorOf(191, slots) == 255;
      }
    }
  }

  /** Dispatch inverts assignment: the vector of every device, and of no other, leads to its slot. */
  lemma DispatchInvertsAssignment(slots: nat, vector: nat, p: nat)
    requires 0 < slots <= 191 && p < slots && vector >= FIRST
    ensures Dispatch(VectorOf(p, slots), slots) == p
    ensures Dispatch(vector, slots) == p <==> VectorOf(p, slots) <= vector < VectorOf(p + 1, slots)
  {
    InRange(p, slots);
    var stride, offset := Stride(slots), vector - FIRST;
    Quotient(p, stride, 0);
    if VectorOf(p, slots) <= vector < VectorOf(p + 1, slots) {
      Quotient(p, stride, offset - p * stride);
    } else {
      assert offset == offset / stride * stride + offset % stride;
    }
  }

  /** Division by the number of devices. */
  function DispatchAsWritten(vector: nat, devices: nat): nat
    requires devices > 0 && vector >= FIRST
  {
    (vector - FIRST) / devices
  }

  function Count(occupied: seq<bool>): nat {
    if occupied == [] then 0 else Count(occupied[..|occupied| - 1]) + if occupied[|occupied| - 1] then 1 else 0
  }

  /** Every device of the directory is found in its slot. */
  ghost predicate AsWrittenFindsAll(occupied: seq<bool>)
    requires Count(occupied) > 0
  {
    forall p | 0 <= p < |occupied| && occupied[p] ::
      DispatchAsWritten(VectorOf(p, |occupied|), Count(occupied)) == p
  }

  /** The stride is at least the number of devices, and so little above it that the difference does not
      add up to a whole run of `devices` by slot p. */
  predicate InRun(p: nat, stride: nat, devices: nat) {
    p == 0 || (devices <= stride && p * (stride - devices) < devices)
  }

  /** As written the device in slot p is found exactly when its vector, p strides on, lies in the p-th
      run of `devices` vectors. */
  lemma AsWrittenFinds(p: nat, slots: nat, devices: nat)
    requires slots > 0 && devices > 0
    ensures DispatchAsWritten(VectorOf(p, slots), devices) == p <==> InRun(p, Stride(slots), devices)
  {
    InExcess(p, Stride(slots), devices);
    var offset := p * Stride(slots);
    if p * devices <= offset < p * devices + devices {
      Quotient(p, devices, offset - p * devices);
    } else {
      assert offset == offset / devices * devices + offset % devices;
    }
  }

  /** The last slot with a device. */
  function Last(occupied: seq<bool>): (p: nat)
    requires Count(occupied) > 0
    ensures p < |occupied| && occupied[p] && forall q | p < q < |occupied| :: !occupied[q]
  {
    if occupied[|occupied| - 1] then |occupied| - 1 else Last(occupied[..|occupied| - 1])
  }

  /** That is so for the last device; or the only one is in slot 0. */
  predicate CountServes(occupied: seq<bool>)
    requires Count(occupied) > 0
  {
    InRun(Last(occupied), Stride(|occupied|), Count(occupied))
  }

  /** Dispatch as written finds every device exactly then. */
  lemma AsWrittenFindsExactly(occupied: seq<bool>)
    requires Count(occupied) > 0
    ensures AsWrittenFindsAll(occupied) <==> CountServes(occupied)
  {
    var slots, last, devices := |occupied|, Last(occupied), Count(occupied);
    forall p | 0 <= p < slots && occupied[p]
      ensures DispatchAsWritten(VectorOf(p, slots), devices) == p <==> InRun(p, Stride(slots), devices)
      ensures InRun(last, Stride(slots), devices) ==> InRun(p, Stride(slots), devices)
    {
      AsWrittenFinds(p, slots, devices);
      if InRun(last, Stride(slots), devices) {
        EarlierInRun(p, last, Stride(slots), devices);
      }
    }
  }

  lemma EarlierInRun(p: nat, last: nat, stride: nat, devices: nat)
    requires p <= last && InRun(last, stride, devices)
    ensures InRun(p, stride, devices)
  {
    if p > 0 {
      AtMost(p, last, stride - devices);
    }
  }

  lemma InExcess(p: nat, stride: nat, devices: nat)
    requires devices > 0
    ensures p * devices <= p * stride < p * devices + devices <==> InRun(p, stride, devices)
  {
    assert p * (stride - devices) == p * stride - p * devices;
    if devices > stride && p > 0 {
      Grows(p, devices - stride);
      assert p * (devices - stride) == p * devices - p * stride;
    } else if devices <= stride {
      AtMost(0, p, stride - devices);
    }
  }

  lemma AtMost(p: nat, q: nat, d: nat)
    requires p <= q
    ensures p * d <= q * d
  {
    assert q * d == p * d + (q - p) * d;
  }

  /** With as many devices as a stride has vectors it finds every one, whichever slots they are in. */
  lemma StrideManyAreFound(occupied: seq<bool>)
    requires Count(occupied) > 0 && Count(occupied) == Stride(|occupied|)
    ensures AsWrittenFindsAll(occupied)
  {
    AsWrittenFindsExactly(occupied);
    assert Last(occupied) * (Stride(|occupied|) - Count(occupied)) == 0;
  }

  /** One device in slot 5 of 20: its interrupt goes to slot 45, that is not there. */
  lemma LoneDeviceIsMissed()
    ensures var occupied := seq(20, p => p == 5);
            Count(occupied) == 1 && DispatchAsWritten(VectorOf(5, |occupied|), Count(occupied)) == 45
  {
    var occupied := seq(20, p => p == 5);
    assert occupied == NoDevice(5) + [true] + NoDevice(14);
    CountNone(5);
    assert (NoDevice(5) + [true])[..5] == NoDevice(5);
    CountAppend(NoDevice(5) + [true], 14);
  }

  function NoDevice(n: nat): (r: seq<bool>)
    ensures |r| == n && forall p | 0 <= p < n :: !r[p]
  {
    seq(n, _ => false)
  }

  lemma CountNone(n: nat)
    ensures Count(NoDevice(n)) == 0
  {
    CountAppend([], n);
    assert [] + NoDevice(n) == NoDevice(n);
  }

  lemma {:induction false} CountAppend(occupied: seq<bool>, n: nat)
    ensures Count(occupied + NoDevice(n)) == Count(occupied)
  {
    if n == 0 {
      assert occupied + NoDevice(0) == occupied;
    } else {
      assert (occupied + NoDevice(n))[..|occupied| + n - 1] == occupied + NoDevice(n - 1);
      CountAppend(occupied, n - 1);
    }
  }

  function Full(n: nat): (r: seq<bool>)
    ensures |r| == n && forall p | 0 <= p < n :: r[p]
  {
    seq(n, _ => true)
  }

  lemma {:induction false} CountFull(n: nat)
    ensures Count(Full(n)) == n
  {
    if n > 0 {
      assert Full(n)[..n - 1] == Full(n - 1);
      CountFull(n - 1);
    }
  }

  /** So with every slot occupied each device is found exactly when there are 1 or 13. */
  lemma AsWrittenFor1Or13(devices: nat)
    requires devices > 0 && Count(Full(devices)) > 0
    ensures AsWrittenFindsAll(Full(devices)) <==> devices == 1 || devices == 13
  {
    CountFull(devices);
    AsWrittenFindsExactly(Full(devices));
    if 2 <= devices <= 12 {
      FewExceed(devices);
    }
  }

  lemma FewExceed(n: nat)
    requires 2 <= n <= 12
    ensures Stride(n) >= n && (n - 1) * (Stride(n) - n) >= n
  {
    assert n == 2 || n == 3 || n == 4 || n == 5 || n == 6 || n == 7 || n == 8 || n == 9 || n == 10 || n == 11
        || n == 12;
  }
}
