/** What a delay line is meant to compute (include/coredelay.h:143-231): the input, some
    time ago, read off the piecewise-linear curve through every sample ever taken and
    the live point. Sequences of samples run from newest to oldest. */
module Interpolation {

  /** Eight times the double precision machine epsilon. */
  const TIME_RELATIVE_TOLERANCE: real := 1.0 / 562949953421312.0

  ghost predicate Decreasing(times: seq<real>)
  {
    forall i, j :: 0 <= i < j < |times| ==> times[j] < times[i]
  }

  /** The line through (t0, v0) and (t1, v1), measured from the newer point. */
  function Line(t0: real, v0: real, t1: real, v1: real, t: real): real
    requires t1 < t0
  {
    v0 + (v1 - v0) * ((t0 - t) / (t0 - t1))
  }

  /** The curve through the samples: clamped before the oldest one, walked segment by
      segment from the newest one. */
  ghost function Curve(times: seq<real>, values: seq<real>, t: real): real
    requires |times| == |values| > 0 && Decreasing(times)
  {
    if |times| == 1 then values[0]
    else if times[1] < t then Line(times[0], values[0], times[1], values[1], t)
    else Curve(times[1..], values[1..], t)
  }

  /** The input signal at time `t`, the live value being the signal's value at `now`. When
      the live point and the newest sample share a time, the live value wins there. */
  ghost function Signal(times: seq<real>, values: seq<real>, live: real, now: real, t: real): real
    requires |times| == |values| && Decreasing(times)
    requires times != [] ==> times[0] <= now
  {
    if times != [] && now == times[0] then
      if now <= t then live else Curve(times, values, t)
    else
      Curve([now] + times, [live] + values, t)
  }

  /** How much the signal moves per unit of the live value. */
  ghost function LiveWeight(times: seq<real>, now: real, t: real): real
    requires Decreasing(times)
    requires times != [] ==> times[0] <= now
  {
    Signal(times, Zeros(|times|), 1.0, now, t)
  }

  ghost function Zeros(n: nat): (s: seq<real>)
    ensures |s| == n && forall k :: 0 <= k < n ==> s[k] == 0.0
  {
    seq(n, _ => 0.0)
  }

  function Clip(delay: real, maxDelay: real): real
  {
    if delay < 0.0 then 0.0 else if delay > maxDelay then maxDelay else delay
  }

  /** Delays too short against the present time are not applied at all. */
  predicate PassesThrough(delay: real, maxDelay: real, now: real)
  {
    Clip(delay, maxDelay) < now * TIME_RELATIVE_TOLERANCE
  }

  ghost function DelayedValue(times: seq<real>, values: seq<real>, live: real, now: real,
                              delay: real, maxDelay: real): real
    requires |times| == |values| && Decreasing(times)
    requires times != [] ==> times[0] <= now
  {
    if PassesThrough(delay, maxDelay, now) then live
    else Signal(times, values, live, now, now - Clip(delay, maxDelay))
  }

  ghost function DelayedWeight(times: seq<real>, now: real, delay: real, maxDelay: real): real
    requires Decreasing(times)
    requires times != [] ==> times[0] <= now
  {
    if PassesThrough(delay, maxDelay, now) then 1.0
    else LiveWeight(times, now, now - Clip(delay, maxDelay))
  }

  // ------------------------------------------------------------ arithmetic

  lemma Convex(a: real, d: real, f: real, lo: real, hi: real)
    requires lo <= a <= hi && lo <= a + d <= hi && 0.0 <= f <= 1.0
    ensures lo <= a + d * f <= hi
  {
    var part := Fraction(d, f);
    Inside(a, d, part, lo, hi);
  }

  lemma Inside(a: real, d: real, part: real, lo: real, hi: real)
    requires lo <= a <= hi && lo <= a + d <= hi && PartOf(part, d)
    ensures lo <= a + part <= hi
  {
  }

  predicate PartOf(part: real, d: real)
  {
    if 0.0 <= d then 0.0 <= part <= d else d <= part <= 0.0
  }

  /** A fraction of a step stays within the step. */
  lemma Fraction(d: real, f: real) returns (part: real)
    requires 0.0 <= f <= 1.0
    ensures part == d * f && PartOf(part, d)
  {
    part := d * f;
    if 0.0 <= d {
      ScaledOrder(0.0, d, f);
      ScaledOrder(f, 1.0, d);
    } else {
      ScaledOrder(d, 0.0, f);
      ScaledOrder(f, 1.0, -d);
      assert f * -d == -(d * f);
    }
  }

  lemma ScaledOrder(x: real, y: real, f: real)
    requires x <= y && 0.0 <= f
    ensures x * f <= y * f
  {
    assert (y - x) * f >= 0.0;
  }

  lemma Ratio(x: real, y: real)
    requires 0.0 < y && 0.0 <= x <= y
    ensures 0.0 <= x / y <= 1.0
  {
    var q := x / y;
    assert q * y == x;
  }

  /** On a line through two points of an affine signal every point is on the signal. */
  lemma LineIsAffine(t0: real, t1: real, t: real, a: real, b: real)
    requires t1 < t0
    ensures Line(t0, a * t0 + b, t1, a * t1 + b, t) == a * t + b
  {
    var f := (t0 - t) / (t0 - t1);
    assert f * (t0 - t1) == t0 - t;
    calc {
      (a * t1 + b - (a * t0 + b)) * f;
      a * (t1 - t0) * f;
      -a * (f * (t0 - t1));
      -a * (t0 - t);
    }
  }

  lemma LineEnds(t0: real, v0: real, t1: real, v1: real)
    requires t1 < t0
    ensures Line(t0, v0, t1, v1, t0) == v0
    ensures Line(t0, v0, t1, v1, t1) == v1
  {
    assert (t0 - t1) / (t0 - t1) == 1.0;
  }

  // ------------------------------------------------------------- the curve

  /** Between two neighbouring samples, ends included, the curve is their line. */
  lemma {:induction false} CurveOnSegment(times: seq<real>, values: seq<real>, t: real, k: nat)
    requires |times| == |values| && Decreasing(times) && k + 1 < |times|
    requires times[k + 1] <= t && (k == 0 || t <= times[k])
    ensures Curve(times, values, t) == Line(times[k], values[k], times[k + 1], values[k + 1], t)
  {
    if times[1] < t {
    } else if k > 0 {
      CurveOnSegment(times[1..], values[1..], t, k - 1);
    } else if |times| > 2 {
      assert t == times[1];
      CurveOnSegment(times[1..], values[1..], t, 0);
      LineEnds(times[1], values[1], times[2], values[2]);
      LineEnds(times[0], values[0], times[1], values[1]);
    } else {
      LineEnds(times[0], values[0], times[1], values[1]);
    }
  }

  lemma {:induction false} CurveBeforeOldest(times: seq<real>, values: seq<real>, t: real)
    requires |times| == |values| > 0 && Decreasing(times)
    requires t <= times[|times| - 1]
    ensures Curve(times, values, t) == values[|times| - 1]
  {
    if |times| > 1 {
      CurveBeforeOldest(times[1..], values[1..], t);
    }
  }

  /** The curve goes through every sample. */
  lemma CurveThroughSample(times: seq<real>, values: seq<real>, k: nat)
    requires |times| == |values| && Decreasing(times) && k < |times|
    ensures Curve(times, values, times[k]) == values[k]
  {
    if k + 1 < |times| {
      CurveOnSegment(times, values, times[k], k);
      LineEnds(times[k], values[k], times[k + 1], values[k + 1]);
    } else {
      CurveBeforeOldest(times, values, times[k]);
    }
  }

  /** Dropping samples from the old end leaves the curve alone after the ones kept. */
  lemma {:induction false} CurveOfNewestPart(times: seq<real>, values: seq<real>, n: nat, t: real)
    requires |times| == |values| && Decreasing(times) && 2 <= n <= |times|
    requires times[n - 1] < t
    ensures Curve(times[..n], values[..n], t) == Curve(times, values, t)
  {
    if t <= times[1] {
      assert n > 2;
      assert times[..n][1..] == times[1..][..n - 1];
      assert values[..n][1..] == values[1..][..n - 1];
      CurveOfNewestPart(times[1..], values[1..], n - 1, t);
    }
  }

  /** The curve never leaves the range of its samples. */
  lemma {:induction false} CurveWithinRange(times: seq<real>, values: seq<real>, t: real, lo: real, hi: real)
    requires |times| == |values| > 0 && Decreasing(times) && t <= times[0]
    requires forall k :: 0 <= k < |values| ==> lo <= values[k] <= hi
    ensures lo <= Curve(times, values, t) <= hi
  {
    if |times| > 1 {
      if times[1] < t {
        Ratio(times[0] - t, times[0] - times[1]);
        Convex(values[0], values[1] - values[0], (times[0] - t) / (times[0] - times[1]), lo, hi);
      } else {
        CurveWithinRange(times[1..], values[1..], t, lo, hi);
      }
    }
  }

  ghost predicate IsAffine(times: seq<real>, values: seq<real>, a: real, b: real)
  {
    |times| == |values| && forall k :: 0 <= k < |times| ==> values[k] == a * times[k] + b
  }

  /** Samples of an affine signal give the signal back. */
  lemma {:induction false} CurveOfAffine(times: seq<real>, values: seq<real>, t: real, a: real, b: real)
    requires |times| == |values| > 0 && Decreasing(times)
    requires times[|times| - 1] <= t <= times[0]
    requires IsAffine(times, values, a, b)
    ensures Curve(times, values, t) == a * t + b
  {
    if |times| > 1 {
      if times[1] < t {
        LineIsAffine(times[0], times[1], t, a, b);
      } else {
        CurveOfAffine(times[1..], values[1..], t, a, b);
      }
    }
  }

  // ------------------------------------------------------- the delayed value

  /** Only the first segment depends on the live value, and it does so affinely. */
  lemma SignalSlope(times: seq<real>, values: seq<real>, live: real, other: real, now: real, t: real)
    requires |times| == |values| && Decreasing(times)
    requires times != [] ==> times[0] <= now
    ensures Signal(times, values, other, now, t)
         == Signal(times, values, live, now, t) + (other - live) * LiveWeight(times, now, t)
  {
    var zeros := Zeros(|times|);
    if times == [] {
    } else if now == times[0] {
      if t < now {
        CurveOfZeros(times, t);
      }
    } else {
      var ts := [now] + times;
      if times[0] < t {
        var f := (now - t) / (now - times[0]);
        assert Curve(ts, [live] + values, t) == live + (values[0] - live) * f;
        assert Curve(ts, [other] + values, t) == other + (values[0] - other) * f;
        assert Curve(ts, [1.0] + zeros, t) == 1.0 + (0.0 - 1.0) * f;
        assert (other - live) * (1.0 - f) == (other - live) - (other - live) * f;
      } else {
        assert ts[1..] == times;
        assert ([live] + values)[1..] == values == ([other] + values)[1..];
        assert ([1.0] + zeros)[1..] == zeros;
        CurveOfZeros(times, t);
      }
    }
  }

  lemma {:induction false} CurveOfZeros(times: seq<real>, t: real)
    requires |times| > 0 && Decreasing(times)
    ensures Curve(times, Zeros(|times|), t) == 0.0
  {
    if |times| > 1 && t <= times[1] {
      assert Zeros(|times|)[1..] == Zeros(|times| - 1);
      CurveOfZeros(times[1..], t);
    }
  }

  /** The reported derivative is the exact slope of the result in the live input. */
  lemma DelayedSlope(times: seq<real>, values: seq<real>, live: real, other: real, now: real,
                     delay: real, maxDelay: real)
    requires |times| == |values| && Decreasing(times)
    requires times != [] ==> times[0] <= now
    ensures DelayedValue(times, values, other, now, delay, maxDelay)
         == DelayedValue(times, values, live, now, delay, maxDelay)
            + (other - live) * DelayedWeight(times, now, delay, maxDelay)
  {
    if !PassesThrough(delay, maxDelay, now) {
      SignalSlope(times, values, live, other, now, now - Clip(delay, maxDelay));
    }
  }

  /** The result lies between the smallest and the largest of the live value and the
      samples, and its derivative between 0 and 1. */
  lemma DelayedWithinRange(times: seq<real>, values: seq<real>, live: real, now: real,
                           delay: real, maxDelay: real, lo: real, hi: real)
    requires |times| == |values| && Decreasing(times)
    requires times != [] ==> times[0] <= now
    requires 0.0 <= maxDelay
    requires lo <= live <= hi && forall k :: 0 <= k < |values| ==> lo <= values[k] <= hi
    ensures lo <= DelayedValue(times, values, live, now, delay, maxDelay) <= hi
    ensures 0.0 <= DelayedWeight(times, now, delay, maxDelay) <= 1.0
  {
    if !PassesThrough(delay, maxDelay, now) {
      var t := now - Clip(delay, maxDelay);
      SignalWithinRange(times, values, live, now, t, lo, hi);
      SignalWithinRange(times, Zeros(|times|), 1.0, now, t, 0.0, 1.0);
    }
  }

  lemma SignalWithinRange(times: seq<real>, values: seq<real>, live: real, now: real, t: real,
                          lo: real, hi: real)
    requires |times| == |values| && Decreasing(times) && t <= now
    requires times != [] ==> times[0] <= now
    requires lo <= live <= hi && forall k :: 0 <= k < |values| ==> lo <= values[k] <= hi
    ensures lo <= Signal(times, values, live, now, t) <= hi
  {
    if times != [] && now == times[0] {
      if t < now {
        CurveWithinRange(times, values, t, lo, hi);
      }
    } else {
      CurveWithinRange([now] + times, [live] + values, t, lo, hi);
    }
  }

  /** A delay that reaches back exactly to a sample returns that sample. */
  lemma DelayedReproducesSample(times: seq<real>, values: seq<real>, live: real, now: real,
                                delay: real, maxDelay: real, k: nat)
    requires |times| == |values| && Decreasing(times) && k < |times| && times[0] <= now
    requires !PassesThrough(delay, maxDelay, now)
    requires now - Clip(delay, maxDelay) == times[k] < now
    ensures DelayedValue(times, values, live, now, delay, maxDelay) == values[k]
    ensures DelayedWeight(times, now, delay, maxDelay) == 0.0
  {
    SignalThroughSample(times, values, live, now, k);
    SignalThroughSample(times, Zeros(|times|), 1.0, now, k);
  }

  lemma SignalThroughSample(times: seq<real>, values: seq<real>, live: real, now: real, k: nat)
    requires |times| == |values| && Decreasing(times) && k < |times| && times[0] <= now
    requires times[k] < now
    ensures Signal(times, values, live, now, times[k]) == values[k]
  {
    if now == times[0] {
      CurveThroughSample(times, values, k);
    } else {
      CurveThroughSample([now] + times, [live] + values, k + 1);
    }
  }

  /** A delay line fed with an affine signal returns the signal exactly one (clipped)
      delay ago, as soon as the history reaches back that far. */
  lemma DelayedAffine(times: seq<real>, values: seq<real>, now: real, delay: real, maxDelay: real,
                      a: real, b: real)
    requires |times| == |values| > 0 && Decreasing(times) && times[0] <= now && 0.0 <= maxDelay
    requires IsAffine(times, values, a, b)
    requires !PassesThrough(delay, maxDelay, now)
    requires times[|times| - 1] <= now - Clip(delay, maxDelay)
    ensures DelayedValue(times, values, a * now + b, now, delay, maxDelay)
         == a * (now - Clip(delay, maxDelay)) + b
  {
    SignalOfAffine(times, values, now, now - Clip(delay, maxDelay), a, b);
  }

  lemma SignalOfAffine(times: seq<real>, values: seq<real>, now: real, t: real, a: real, b: real)
    requires |times| == |values| > 0 && Decreasing(times) && times[|times| - 1] <= t <= now
    requires times[0] <= now
    requires IsAffine(times, values, a, b)
    ensures Signal(times, values, a * now + b, now, t) == a * t + b
  {
    if now == times[0] {
      if t < now {
        CurveOfAffine(times, values, t, a, b);
      }
    } else {
      var ts, vs := [now] + times, [a * now + b] + values;
      assert ts[|ts| - 1] == times[|times| - 1];
      CurveOfAffine(ts, vs, t, a, b);
    }
  }

  // ---------------------------------------- the delayed value in plain arithmetic

  /** A delay of at least 2^-49 times the present time, and not above the longest, is applied
      as it is: between two samples the result is on the line through them. */
  lemma DelayedOnSegment(times: seq<real>, values: seq<real>, live: real, now: real,
                         delay: real, maxDelay: real, k: nat)
    requires |times| == |values| && Decreasing(times) && k + 1 < |times| && times[0] <= now
    requires 0.0 < delay <= maxDelay && now / 562949953421312.0 <= delay
    requires times[k + 1] <= now - delay <= times[k]
    ensures DelayedValue(times, values, live, now, delay, maxDelay)
         == values[k] + (values[k + 1] - values[k]) * ((times[k] - (now - delay)) / (times[k] - times[k + 1]))
    ensures DelayedWeight(times, now, delay, maxDelay) == 0.0
  {
    SignalOnSegment(times, values, live, now, now - delay, k);
    SignalOnSegment(times, Zeros(|times|), 1.0, now, now - delay, k);
  }

  lemma SignalOnSegment(times: seq<real>, values: seq<real>, live: real, now: real, t: real, k: nat)
    requires |times| == |values| && Decreasing(times) && k + 1 < |times| && times[0] <= now
    requires t < now && times[k + 1] <= t <= times[k]
    ensures Signal(times, values, live, now, t) == Line(times[k], values[k], times[k + 1], values[k + 1], t)
  {
    if now == times[0] {
      CurveOnSegment(times, values, t, k);
    } else {
      CurveOnSegment([now] + times, [live] + values, t, k + 1);
    }
  }

  /** Between the newest sample and the present it is on the line to the live point. */
  lemma DelayedOnLiveSegment(times: seq<real>, values: seq<real>, live: real, now: real,
                             delay: real, maxDelay: real)
    requires |times| == |values| > 0 && Decreasing(times) && times[0] < now
    requires 0.0 <= delay <= maxDelay && now / 562949953421312.0 <= delay
    requires times[0] <= now - delay
    ensures DelayedValue(times, values, live, now, delay, maxDelay)
         == live + (values[0] - live) * (delay / (now - times[0]))
    ensures DelayedWeight(times, now, delay, maxDelay) == 1.0 - delay / (now - times[0])
  {
    CurveOnSegment([now] + times, [live] + values, now - delay, 0);
    CurveOnSegment([now] + times, [1.0] + Zeros(|times|), now - delay, 0);
  }

  /** Further back than the oldest sample it is the oldest sample. */
  lemma DelayedBeforeOldest(times: seq<real>, values: seq<real>, live: real, now: real,
                            delay: real, maxDelay: real)
    requires |times| == |values| > 0 && Decreasing(times) && times[0] <= now
    requires 0.0 < delay <= maxDelay && now / 562949953421312.0 <= delay
    requires now - delay <= times[|times| - 1]
    ensures DelayedValue(times, values, live, now, delay, maxDelay) == values[|times| - 1]
    ensures DelayedWeight(times, now, delay, maxDelay) == 0.0
  {
    SignalBeforeOldest(times, values, live, now, now - delay);
    SignalBeforeOldest(times, Zeros(|times|), 1.0, now, now - delay);
  }

  lemma SignalBeforeOldest(times: seq<real>, values: seq<real>, live: real, now: real, t: real)
    requires |times| == |values| > 0 && Decreasing(times) && times[0] <= now
    requires t < now && t <= times[|times| - 1]
    ensures Signal(times, values, live, now, t) == values[|times| - 1]
  {
    if now == times[0] {
      CurveBeforeOldest(times, values, t);
    } else {
      CurveBeforeOldest([now] + times, [live] + values, t);
    }
  }

  /** A delay that reaches a sample returns it. */
  lemma DelayedToSample(times: seq<real>, values: seq<real>, live: real, now: real,
                        delay: real, maxDelay: real, k: nat)
    requires |times| == |values| && Decreasing(times) && k < |times| && times[0] <= now
    requires 0.0 < delay <= maxDelay && now / 562949953421312.0 <= delay
    requires now - delay == times[k]
    ensures DelayedValue(times, values, live, now, delay, maxDelay) == values[k]
    ensures DelayedWeight(times, now, delay, maxDelay) == 0.0
  {
    DelayedReproducesSample(times, values, live, now, delay, maxDelay, k);
  }

  /** An affine signal comes back one delay late. */
  lemma DelayedAffineByDelay(times: seq<real>, values: seq<real>, now: real, delay: real, maxDelay: real,
                             a: real, b: real)
    requires |times| == |values| > 0 && Decreasing(times) && times[0] <= now
    requires IsAffine(times, values, a, b)
    requires 0.0 <= delay <= maxDelay && now / 562949953421312.0 <= delay
    requires times[|times| - 1] <= now - delay
    ensures DelayedValue(times, values, a * now + b, now, delay, maxDelay) == a * (now - delay) + b
  {
    DelayedAffine(times, values, now, delay, maxDelay, a, b);
  }

  /** Delays outside the allowed range count as its ends. */
  lemma DelaysAreClipped(times: seq<real>, values: seq<real>, live: real, now: real, delay: real, maxDelay: real)
    requires |times| == |values| && Decreasing(times) && (times != [] ==> times[0] <= now) && 0.0 <= maxDelay
    ensures delay > maxDelay ==>
              && DelayedValue(times, values, live, now, delay, maxDelay)
                 == DelayedValue(times, values, live, now, maxDelay, maxDelay)
              && DelayedWeight(times, now, delay, maxDelay) == DelayedWeight(times, now, maxDelay, maxDelay)
    ensures delay < 0.0 ==>
              && DelayedValue(times, values, live, now, delay, maxDelay)
                 == DelayedValue(times, values, live, now, 0.0, maxDelay)
              && DelayedWeight(times, now, delay, maxDelay) == DelayedWeight(times, now, 0.0, maxDelay)
  {
  }

  /** The live value itself is returned for shorter delays, for no delay, without any history,
      and when the longest delay is negative. */
  lemma DelayedIsLive(times: seq<real>, values: seq<real>, live: real, now: real, delay: real, maxDelay: real)
    requires |times| == |values| && Decreasing(times) && (times != [] ==> times[0] <= now)
    requires
      || (0.0 <= delay <= maxDelay && delay < now / 562949953421312.0)
      || delay == 0.0 <= maxDelay
      || times == []
      || maxDelay < 0.0 <= now
    ensures DelayedValue(times, values, live, now, delay, maxDelay) == live
    ensures DelayedWeight(times, now, delay, maxDelay) == 1.0
  {
    if !PassesThrough(delay, maxDelay, now) && times != [] {
      SignalAtPresent(times, values, live, now);
      SignalAtPresent(times, Zeros(|times|), 1.0, now);
    }
  }

  lemma SignalAtPresent(times: seq<real>, values: seq<real>, live: real, now: real)
    requires |times| == |values| && Decreasing(times) && (times != [] ==> times[0] <= now)
    ensures Signal(times, values, live, now, now) == live
  {
    if times == [] || now != times[0] {
      CurveThroughSample([now] + times, [live] + values, 0);
    }
  }
}
