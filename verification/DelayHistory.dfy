/** What `DelayLines::addSample` does to the rings of a whole transient run
    (include/coredelay.h:97-139), as a function on their contents, and what holds in
    every state such a run can reach. Events run from newest to oldest. */
module DelayHistories {
  import opened Basics
  import opened CircularBuffers
  import opened Interpolation

  const INITIAL_HISTORY_SIZE: nat := 32
  const HISTORY_GROWTH_FACTOR: nat := 2

  /** One ring per delay line, the shared ring of timepoints, the longest ring so far. */
  datatype History = History(slots: seq<Ring<real>>, times: Ring<real>, longest: nat)

  /** What one accepted timepoint delivers: its time and the input of every delay line. */
  datatype Event = Event(time: real, inputs: seq<real>)

  // ------------------------------------------------------------- one sample

  function NewSize(capacity: nat): nat
  {
    if capacity < INITIAL_HISTORY_SIZE then INITIAL_HISTORY_SIZE else capacity * HISTORY_GROWTH_FACTOR
  }

  /** A full ring may lose its oldest sample only if its second-oldest one is already
      further back than the longest delay. */
  predicate NeedsUpsize(slot: Ring<real>, times: Ring<real>, time: real, maxDelay: real)
    requires |slot.past| <= |times.past|
  {
    && |slot.past| == slot.capacity
    && (|slot.past| >= 2 ==> time - times.past[|slot.past| - 2] <= maxDelay)
  }

  function Recorded(slot: Ring<real>, times: Ring<real>, time: real, maxDelay: real, input: real): (r: Ring<real>)
    requires |slot.past| <= |times.past| && slot.Fits()
    ensures r.Fits() && r.capacity >= Max(1, slot.capacity)
  {
    if NeedsUpsize(slot, times, time, maxDelay) then slot.Grow(NewSize(slot.capacity)).Push(input)
    else slot.Push(input)
  }

  /** The longest ring after the first `k` slots were served. */
  function Longest(h: History, maxDelay: seq<real>, time: real, k: nat): (longest: nat)
    requires k <= |h.slots| == |maxDelay| && Consistent(h)
    ensures longest >= h.longest
  {
    if k == 0 then h.longest
    else
      var before := Longest(h, maxDelay, time, k - 1);
      if NeedsUpsize(h.slots[k - 1], h.times, time, maxDelay[k - 1])
      then Max(before, NewSize(h.slots[k - 1].capacity))
      else before
  }

  /** The shape every state keeps: no ring is fuller than the timepoint ring. */
  ghost predicate Consistent(h: History)
  {
    && h.times.Fits()
    && forall s :: 0 <= s < |h.slots| ==>
         && h.slots[s].Fits()
         && h.slots[s].capacity <= h.longest
         && |h.slots[s].past| <= |h.times.past|
  }

  /** There will be room for the next time: a delay line makes some if there is none. */
  predicate TakesTime(h: History)
  {
    h.slots != [] || h.longest > 0 || h.times.capacity > 0
  }

  function AddSample(h: History, maxDelay: seq<real>, time: real, inputs: seq<real>): (r: History)
    requires Consistent(h) && TakesTime(h) && |h.slots| == |maxDelay| == |inputs|
    ensures |r.slots| == |h.slots| && r.times.capacity >= 1
  {
    var longest := Longest(h, maxDelay, time, |h.slots|);
    LongestStarts(h, maxDelay, time);
    History(
      seq(|h.slots|, s requires 0 <= s < |h.slots| => Recorded(h.slots[s], h.times, time, maxDelay[s], inputs[s])),
      h.times.Grow(longest).Push(time),
      longest)
  }

  lemma {:induction false} LongestCovers(h: History, maxDelay: seq<real>, time: real, k: nat, s: nat, input: real)
    requires s < k <= |h.slots| == |maxDelay| && Consistent(h)
    ensures Recorded(h.slots[s], h.times, time, maxDelay[s], input).capacity <= Longest(h, maxDelay, time, k)
  {
    if s < k - 1 {
      LongestCovers(h, maxDelay, time, k - 1, s, input);
    }
  }

  ghost predicate GrowsTo(h: History, maxDelay: seq<real>, time: real, s: nat, capacity: nat)
    requires s < |h.slots| == |maxDelay| && Consistent(h)
  {
    Recorded(h.slots[s], h.times, time, maxDelay[s], 0.0).capacity == capacity > h.slots[s].capacity
  }

  /** Nor is it longer than that: it is the size of some ring that grew, or what it was. */
  lemma {:induction false} LongestAttained(h: History, maxDelay: seq<real>, time: real, k: nat)
    requires k <= |h.slots| == |maxDelay| && Consistent(h)
    ensures var longest := Longest(h, maxDelay, time, k);
            longest == h.longest || exists s :: 0 <= s < k && GrowsTo(h, maxDelay, time, s, longest)
  {
    if k > 0 && Longest(h, maxDelay, time, k) != Longest(h, maxDelay, time, k - 1) {
      assert GrowsTo(h, maxDelay, time, k - 1, Longest(h, maxDelay, time, k));
    } else if k > 0 {
      LongestAttained(h, maxDelay, time, k - 1);
    }
  }

  /** Any delay line makes the longest ring one that holds something. */
  lemma LongestStarts(h: History, maxDelay: seq<real>, time: real)
    requires |h.slots| == |maxDelay| && Consistent(h)
    ensures h.slots != [] ==> Longest(h, maxDelay, time, |h.slots|) >= 1
  {
    if h.slots != [] {
      LongestCovers(h, maxDelay, time, |h.slots|, 0, 0.0);
    }
  }

  lemma StepKeepsConsistent(h: History, maxDelay: seq<real>, time: real, inputs: seq<real>)
    requires Consistent(h) && TakesTime(h) && |h.slots| == |maxDelay| == |inputs|
    ensures Consistent(AddSample(h, maxDelay, time, inputs))
    ensures AddSample(h, maxDelay, time, inputs).times.capacity >= AddSample(h, maxDelay, time, inputs).longest
  {
    var r := AddSample(h, maxDelay, time, inputs);
    forall s | 0 <= s < |r.slots|
      ensures r.slots[s].capacity <= r.longest && |r.slots[s].past| <= |r.times.past|
    {
      LongestCovers(h, maxDelay, time, |h.slots|, s, inputs[s]);
    }
  }

  /** Every slot's newest value is its own input, and the newest time is the given one. */
  lemma NewestRecorded(h: History, maxDelay: seq<real>, time: real, inputs: seq<real>)
    requires Consistent(h) && TakesTime(h) && |h.slots| == |maxDelay| == |inputs|
    ensures var r := AddSample(h, maxDelay, time, inputs);
            && (forall s :: 0 <= s < |r.slots| ==> r.slots[s].past != [] && r.slots[s].past[0] == inputs[s])
            && r.times.past != [] && r.times.past[0] == time
  {
  }

  // ---------------------------------------------------------------- whole runs

  ghost function Times(events: seq<Event>): (ts: seq<real>)
    ensures |ts| == |events|
  {
    seq(|events|, i requires 0 <= i < |events| => events[i].time)
  }

  /** Every value slot `s` was ever given. */
  ghost function Inputs(events: seq<Event>, s: nat): (vs: seq<real>)
    requires forall i :: 0 <= i < |events| ==> s < |events[i].inputs|
    ensures |vs| == |events|
  {
    seq(|events|, i requires 0 <= i < |events| => events[i].inputs[s])
  }

  /** Times strictly increase from one accepted timepoint to the next. */
  ghost predicate Admissible(events: seq<Event>, slots: nat)
  {
    && (forall i :: 0 <= i < |events| ==> |events[i].inputs| == slots)
    && Decreasing(Times(events))
  }

  /** After `prepareHistory`: every ring empty, of whatever size an earlier run left; the
      timepoint ring may still hold times of an earlier run. */
  ghost predicate Prepared(h: History)
  {
    Consistent(h) && TakesTime(h) && forall s :: 0 <= s < |h.slots| ==> h.slots[s].past == []
  }

  ghost function Run(h: History, maxDelay: seq<real>, events: seq<Event>): (r: History)
    requires Prepared(h) && |maxDelay| == |h.slots|
    requires forall i :: 0 <= i < |events| ==> |events[i].inputs| == |h.slots|
    ensures Consistent(r) && TakesTime(r) && |r.slots| == |h.slots|
  {
    if events == [] then h
    else
      var before := Run(h, maxDelay, events[1..]);
      StepKeepsConsistent(before, maxDelay, events[0].time, events[0].inputs);
      AddSample(before, maxDelay, events[0].time, events[0].inputs)
  }

  /** What the rings hold of all samples ever taken: the newest part, paired with its
      times, and either all of it or enough to reach further back than the longest delay. */
  ghost predicate Remembers(h: History, stale: seq<real>, maxDelay: seq<real>, events: seq<Event>)
    requires |h.slots| == |maxDelay| && Admissible(events, |h.slots|)
  {
    && h.times.past <= Times(events) + stale
    && (events != [] ==> h.times.capacity >= h.longest)
    && forall s :: 0 <= s < |h.slots| ==>
         SlotRemembers(h.slots[s].past, h.times.past, maxDelay[s], Times(events), Inputs(events, s))
  }

  ghost predicate SlotRemembers(past: seq<real>, kept: seq<real>, maxDelay: real, times: seq<real>, values: seq<real>)
    requires |times| == |values|
  {
    && past <= values
    && |past| <= |kept|
    && kept[..|past|] == times[..|past|]
    && (|past| == |times| || (|past| >= 2 && times[0] - times[|past| - 1] > maxDelay))
  }

  /** A ring that lost nothing, or lost only what the longest delay cannot reach, still does
      so after one more sample. */
  lemma SlotStep(slot: Ring<real>, kept: Ring<real>, maxDelay: real, times: seq<real>, values: seq<real>,
                 time: real, input: real, longest: nat)
    requires slot.Fits() && kept.Fits() && |times| == |values| && Decreasing([time] + times)
    requires SlotRemembers(slot.past, kept.past, maxDelay, times, values)
    requires Recorded(slot, kept, time, maxDelay, input).capacity <= longest
    ensures SlotRemembers(Recorded(slot, kept, time, maxDelay, input).past, kept.Grow(longest).Push(time).past,
                          maxDelay, [time] + times, [input] + values)
  {
    var n, times' := |slot.past|, [time] + times;
    var past' := Recorded(slot, kept, time, maxDelay, input).past;
    var kept' := kept.Grow(longest).Push(time).past;
    PushedPrefix(slot.past, values, input, |past'|);
    PushedPairs(kept.past, times, time, n, |kept'|, |past'|);
    if |past'| == n {
      assert kept.past[n - 2] == kept.past[..n][n - 2] == times[..n][n - 2];
    } else if n < |times| {
      assert times'[0] > times'[1];
    }
  }

  lemma PushedPrefix(past: seq<real>, all: seq<real>, v: real, n: nat)
    requires past <= all && n <= |past| + 1
    ensures ([v] + past)[..n] <= [v] + all
  {
  }

  lemma PushedPairs(kept: seq<real>, times: seq<real>, time: real, n: nat, m': nat, n': nat)
    requires n <= |kept| && n <= |times| && kept[..n] == times[..n]
    requires n' <= m' <= |kept| + 1 && n' <= n + 1
    ensures ([time] + kept)[..m'][..n'] == ([time] + times)[..n']
  {
    assert ([time] + kept)[..m'][..n'] == ([time] + kept[..n])[..n'];
    assert ([time] + times)[..n'] == ([time] + times[..n])[..n'];
  }

  /** The history invariant holds in every reachable state. */
  lemma {:induction false} RunRemembers(h: History, maxDelay: seq<real>, events: seq<Event>)
    requires Prepared(h) && |maxDelay| == |h.slots| && Admissible(events, |h.slots|)
    ensures Remembers(Run(h, maxDelay, events), h.times.past, maxDelay, events)
  {
    if events == [] {
      assert Times(events) + h.times.past == h.times.past;
    } else {
      TailAdmissible(events, |h.slots|);
      RunRemembers(h, maxDelay, events[1..]);
      StepRemembers(Run(h, maxDelay, events[1..]), h.times.past, maxDelay, events);
    }
  }

  lemma StepRemembers(h: History, stale: seq<real>, maxDelay: seq<real>, events: seq<Event>)
    requires Consistent(h) && TakesTime(h) && |h.slots| == |maxDelay| && events != []
    requires Admissible(events, |h.slots|) && Admissible(events[1..], |h.slots|)
    requires Remembers(h, stale, maxDelay, events[1..])
    ensures Remembers(AddSample(h, maxDelay, events[0].time, events[0].inputs), stale, maxDelay, events)
  {
    var e := events[0];
    var after := AddSample(h, maxDelay, e.time, e.inputs);
    StepKeepsConsistent(h, maxDelay, e.time, e.inputs);
    TimesOfTail(events);
    PushedPrefix(h.times.past, Times(events[1..]) + stale, e.time, |after.times.past|);
    assert [e.time] + (Times(events[1..]) + stale) == Times(events) + stale;
    forall s | 0 <= s < |h.slots|
      ensures SlotRemembers(after.slots[s].past, after.times.past, maxDelay[s], Times(events), Inputs(events, s))
    {
      InputsOfTail(events, s);
      LongestCovers(h, maxDelay, e.time, |h.slots|, s, e.inputs[s]);
      SlotStep(h.slots[s], h.times, maxDelay[s], Times(events[1..]), Inputs(events[1..], s),
               e.time, e.inputs[s], after.longest);
    }
  }

  lemma TimesOfTail(events: seq<Event>)
    requires events != []
    ensures Times(events) == [events[0].time] + Times(events[1..])
  {
  }

  lemma InputsOfTail(events: seq<Event>, s: nat)
    requires events != [] && forall i :: 0 <= i < |events| ==> s < |events[i].inputs|
    ensures Inputs(events, s) == [events[0].inputs[s]] + Inputs(events[1..], s)
  {
  }

  lemma TailAdmissible(events: seq<Event>, slots: nat)
    requires events != [] && Admissible(events, slots)
    ensures Admissible(events[1..], slots)
  {
    assert Times(events[1..]) == Times(events)[1..];
  }

  // -------------------------------------------------- bounded against unbounded

  /** A target the ring still covers reads the same off the newest part and off the
      complete history. */
  lemma SignalOfNewestPart(times: seq<real>, values: seq<real>, n: nat, live: real, now: real, t: real)
    requires |times| == |values| && Decreasing(times) && 1 <= n <= |times|
    requires times[0] <= now && times[n - 1] < t
    requires n >= 2 || t < times[0] || times[0] < now
    ensures Signal(times[..n], values[..n], live, now, t) == Signal(times, values, live, now, t)
  {
    if now == times[0] {
      if t < now {
        CurveOfNewestPart(times, values, n, t);
      }
    } else {
      assert [now] + times[..n] == ([now] + times)[..n + 1];
      assert [live] + values[..n] == ([live] + values)[..n + 1];
      CurveOfNewestPart([now] + times, [live] + values, n + 1, t);
    }
  }

  /** In every reachable state, for every delay line, every delay asked for and every time
      from the last sample on, the bounded rings give the value and the derivative that the
      complete, never-evicted history gives. */
  lemma BoundedRefinesUnbounded(h: History, maxDelay: seq<real>, events: seq<Event>, s: nat,
                                live: real, now: real, delay: real)
    requires Prepared(h) && |maxDelay| == |h.slots| && Admissible(events, |h.slots|)
    requires s < |h.slots| && (events != [] ==> events[0].time <= now)
    ensures var r := Run(h, maxDelay, events);
            var past := r.slots[s].past;
            var kept := r.times.past[..|past|];
            && DelayedReady(r, s, now)
            && DelayedValue(kept, past, live, now, delay, maxDelay[s])
               == DelayedValue(Times(events), Inputs(events, s), live, now, delay, maxDelay[s])
            && DelayedWeight(kept, now, delay, maxDelay[s])
               == DelayedWeight(Times(events), now, delay, maxDelay[s])
            // the clamp to the oldest stored sample can only be the clamp to the first one
            && (|past| < |events| ==> past != [] && kept[|past| - 1] < now - Clip(delay, maxDelay[s]))
  {
    RunRemembers(h, maxDelay, events);
    var r := Run(h, maxDelay, events);
    RememberedSuffices(r.slots[s].past, r.times.past, maxDelay[s], Times(events), Inputs(events, s), live, now, delay);
  }

  lemma RememberedSuffices(past: seq<real>, kept: seq<real>, maxDelay: real, times: seq<real>, values: seq<real>,
                           live: real, now: real, delay: real)
    requires |times| == |values| && Decreasing(times) && SlotRemembers(past, kept, maxDelay, times, values)
    requires times != [] ==> times[0] <= now
    ensures var ts := kept[..|past|];
            && Decreasing(ts) && (ts != [] ==> ts[0] <= now)
            && DelayedValue(ts, past, live, now, delay, maxDelay)
               == DelayedValue(times, values, live, now, delay, maxDelay)
            && DelayedWeight(ts, now, delay, maxDelay) == DelayedWeight(times, now, delay, maxDelay)
            && (|past| < |times| ==> past != [] && ts[|past| - 1] < now - Clip(delay, maxDelay))
  {
    var n := |past|;
    assert past == values[..n] && kept[..n] == times[..n];
    if n == |times| {
      assert times[..n] == times && values[..n] == values;
    } else {
      var t := now - Clip(delay, maxDelay);
      assert times[n - 1] < times[0];
      assert times[n - 1] < t;
      SignalOfNewestPart(times, values, n, live, now, t);
      SignalOfNewestPart(times, Zeros(|times|), n, 1.0, now, t);
      assert Zeros(|times|)[..n] == Zeros(n);
    }
  }

  /** A delay line whose input has been affine all along returns the input one clipped
      delay ago, whatever its ring has evicted. */
  lemma RememberedAffine(past: seq<real>, kept: seq<real>, maxDelay: real, times: seq<real>, values: seq<real>,
                         now: real, delay: real, a: real, b: real)
    requires times != [] && Decreasing(times) && times[0] <= now && 0.0 <= maxDelay
    requires |times| == |values| && SlotRemembers(past, kept, maxDelay, times, values)
    requires IsAffine(times, values, a, b) && !PassesThrough(delay, maxDelay, now)
    requires times[|times| - 1] <= now - Clip(delay, maxDelay)
    ensures var ts := kept[..|past|];
            && Decreasing(ts) && (ts != [] ==> ts[0] <= now)
            && DelayedValue(ts, past, a * now + b, now, delay, maxDelay) == a * (now - Clip(delay, maxDelay)) + b
  {
    var live := a * now + b;
    RememberedSuffices(past, kept, maxDelay, times, values, live, now, delay);
    DelayedAffine(times, values, now, delay, maxDelay, a, b);
  }

  /** What reading a slot relies on. */
  ghost predicate DelayedReady(h: History, s: nat, now: real)
  {
    && s < |h.slots| && |h.slots[s].past| <= |h.times.past|
    && Decreasing(h.times.past[..|h.slots[s].past|])
    && (h.slots[s].past != [] ==> h.times.past[0] <= now)
  }

  // ------------------------------------------------------------ capacity bound

  /** How many samples, newest first, lie within `span` of the newest one. */
  ghost function Window(times: seq<real>, from: real, span: real): (w: nat)
    ensures w <= |times|
  {
    if times == [] || from - times[0] > span then 0 else 1 + Window(times[1..], from, span)
  }

  /** The most samples that ever lay within `span` before a sample time. */
  ghost function Busiest(times: seq<real>, span: real): nat
  {
    if times == [] then 0 else Max(Window(times, times[0], span), Busiest(times[1..], span))
  }

  /** The window is exactly the newest samples within `span`. */
  lemma {:induction false} WindowIsExact(times: seq<real>, from: real, span: real)
    requires Decreasing(times)
    ensures var w := Window(times, from, span);
            forall i :: 0 <= i < |times| ==> (i < w <==> from - times[i] <= span)
  {
    if times != [] && from - times[0] <= span {
      WindowIsExact(times[1..], from, span);
      assert forall i :: 1 <= i < |times| ==> times[i] == times[1..][i - 1];
    }
  }

  /** The window that starts at the k-th sample. */
  ghost function WindowAt(times: seq<real>, k: nat, span: real): nat
    requires k < |times|
  {
    Window(times[k..], times[k], span)
  }

  lemma WindowAtTail(times: seq<real>, k: nat, span: real)
    requires k + 1 < |times|
    ensures WindowAt(times, k + 1, span) == WindowAt(times[1..], k, span)
  {
    assert times[1..][k..] == times[k + 1..];
  }

  /** The busiest window is the largest one that starts at a sample. */
  lemma {:induction false} BusiestIsLargest(times: seq<real>, span: real, k: nat)
    requires k < |times|
    ensures WindowAt(times, k, span) <= Busiest(times, span)
  {
    if k == 0 {
      assert times[0..] == times;
    } else {
      WindowAtTail(times, k - 1, span);
      BusiestIsLargest(times[1..], span, k - 1);
    }
  }

  lemma {:induction false} BusiestIsAttained(times: seq<real>, span: real) returns (k: nat)
    requires times != []
    ensures k < |times| && WindowAt(times, k, span) == Busiest(times, span)
  {
    assert times[0..] == times;
    k := 0;
    if |times| > 1 && Window(times, times[0], span) < Busiest(times[1..], span) {
      var j := BusiestIsAttained(times[1..], span);
      WindowAtTail(times, j, span);
      k := j + 1;
    }
  }

  lemma {:induction false} WindowReaches(times: seq<real>, from: real, span: real, n: nat)
    requires Decreasing(times) && 1 <= n <= |times| && from - times[n - 1] <= span
    ensures Window(times, from, span) >= n
  {
    if n > 1 {
      WindowReaches(times[1..], from, span, n - 1);
    }
  }

  /** Reached from the initial size, or from the size at the start of the run, by doubling. */
  ghost predicate Doubled(capacity: nat, initial: nat)
  {
    || capacity == initial
    || capacity == 32
    || (capacity >= 2 && capacity % 2 == 0 && Doubled(capacity / 2, initial))
  }

  ghost predicate CapacityJustified(capacity: nat, initial: nat, times: seq<real>, maxDelay: real)
  {
    && Doubled(capacity, initial)
    && capacity <= Max(Max(32, initial), 2 * Busiest(times, maxDelay))
  }

  /** Every ring starts as it was, jumps to the initial size, and then only doubles; it
      never gets larger than twice the busiest window of its delay line. */
  lemma {:induction false} CapacityBound(h: History, maxDelay: seq<real>, events: seq<Event>, s: nat)
    requires Prepared(h) && |maxDelay| == |h.slots| && Admissible(events, |h.slots|) && s < |h.slots|
    ensures var capacity := Run(h, maxDelay, events).slots[s].capacity;
            CapacityJustified(capacity, h.slots[s].capacity, Times(events), maxDelay[s])
  {
    if events != [] {
      TailAdmissible(events, |h.slots|);
      TimesOfTail(events);
      CapacityBound(h, maxDelay, events[1..], s);
      RunRemembers(h, maxDelay, events[1..]);
      var before := Run(h, maxDelay, events[1..]);
      CapacityStep(before.slots[s], before.times, maxDelay[s], Times(events[1..]), Inputs(events[1..], s),
                   events[0].time, events[0].inputs[s], h.slots[s].capacity);
    }
  }

  lemma CapacityStep(slot: Ring<real>, kept: Ring<real>, maxDelay: real, times: seq<real>, values: seq<real>,
                     time: real, input: real, initial: nat)
    requires |times| == |values| && Decreasing([time] + times) && slot.Fits()
    requires SlotRemembers(slot.past, kept.past, maxDelay, times, values)
    requires CapacityJustified(slot.capacity, initial, times, maxDelay)
    ensures CapacityJustified(Recorded(slot, kept, time, maxDelay, input).capacity, initial, [time] + times, maxDelay)
  {
    var n, times' := slot.capacity, [time] + times;
    assert times'[1..] == times;
    if NeedsUpsize(slot, kept, time, maxDelay) && n >= 32 {
      assert kept.past[n - 2] == kept.past[..n][n - 2] == times[..n][n - 2];
      WindowReaches(times', time, maxDelay, n);
    }
  }

  lemma {:induction false} PowersAreDoubled(k: nat)
    ensures Doubled(32 * Power2(k), 0)
  {
    if k > 0 {
      var half := 32 * Power2(k - 1);
      PowersAreDoubled(k - 1);
      assert 32 * Power2(k) == 2 * half;
    }
  }

  lemma {:induction false} DoubledIsPower(capacity: nat) returns (k: nat)
    requires Doubled(capacity, 0) && capacity != 0
    ensures capacity == 32 * Power2(k)
  {
    if capacity == 32 {
      k := 0;
    } else {
      var half := DoubledIsPower(capacity / 2);
      k := half + 1;
    }
  }

  /** From an empty ring the capacity is 0 or 32 times a power of two. */
  lemma DoubledFromEmpty(capacity: nat)
    ensures Doubled(capacity, 0) <==> capacity == 0 || exists k: nat :: capacity == 32 * Power2(k)
  {
    if Doubled(capacity, 0) && capacity != 0 {
      var k := DoubledIsPower(capacity);
      assert capacity == 32 * Power2(k);
    }
    forall k: nat | capacity == 32 * Power2(k)
      ensures Doubled(capacity, 0)
    {
      PowersAreDoubled(k);
    }
  }

  ghost function Steps(k: nat, h: real): real
  {
    if k == 0 then 0.0 else Steps(k - 1, h) + h
  }

  lemma {:induction false} StepsIsProduct(k: nat, h: real)
    ensures Steps(k, h) == k as real * h
  {
    if k > 0 {
      StepsIsProduct(k - 1, h);
      var j := (k - 1) as real;
      assert (j + 1.0) * h == j * h + h;
    }
  }

  /** With steps of at least `hmin`, a window of span `d` holds at most d / hmin + 1 samples. */
  lemma {:induction false} WindowUnderMinimumStep(times: seq<real>, from: real, span: real, hmin: real)
    requires 0.0 < hmin && times != [] && Decreasing(times) && times[0] <= from && 0.0 <= span
    requires forall i :: 0 <= i < |times| - 1 ==> times[i] - times[i + 1] >= hmin
    ensures var w := Window(times, from, span);
            w == 0 || Steps(w - 1, hmin) <= span - (from - times[0])
  {
    if |times| > 1 && from - times[0] <= span {
      WindowUnderMinimumStep(times[1..], from, span, hmin);
    }
  }

  lemma {:induction false} BusiestUnderMinimumStep(times: seq<real>, span: real, hmin: real)
    requires 0.0 < hmin && Decreasing(times) && 0.0 <= span
    requires forall i :: 0 <= i < |times| - 1 ==> times[i] - times[i + 1] >= hmin
    ensures Busiest(times, span) <= (span / hmin).Floor + 1
  {
    if times != [] {
      BusiestUnderMinimumStep(times[1..], span, hmin);
      WindowUnderMinimumStep(times, times[0], span, hmin);
      var w := Window(times, times[0], span);
      if w >= 1 {
        QuotientAtLeast(w - 1, span, hmin);
      }
    } else {
      QuotientAtLeast(0, span, hmin);
    }
  }

  lemma QuotientAtLeast(k: nat, span: real, hmin: real)
    requires 0.0 < hmin && Steps(k, hmin) <= span
    ensures k <= (span / hmin).Floor
  {
    StepsIsProduct(k, hmin);
    DivideAtLeast(k as real, span, hmin);
  }

  lemma DivideAtLeast(x: real, y: real, h: real)
    requires 0.0 < h && x * h <= y
    ensures x <= y / h
  {
    assert (y / h) * h == y;
    assert (x - y / h) * h <= 0.0;
  }

  lemma CapacityUnderMinimumStep(h: History, maxDelay: seq<real>, events: seq<Event>, s: nat, hmin: real)
    requires Prepared(h) && |maxDelay| == |h.slots| && Admissible(events, |h.slots|) && s < |h.slots|
    requires 0.0 < hmin && 0.0 <= maxDelay[s]
    requires forall i :: 0 <= i < |events| - 1 ==> events[i].time - events[i + 1].time >= hmin
    ensures Run(h, maxDelay, events).slots[s].capacity
         <= Max(Max(32, h.slots[s].capacity), 2 * ((maxDelay[s] / hmin).Floor + 1))
  {
    CapacityBound(h, maxDelay, events, s);
    BusiestUnderMinimumStep(Times(events), maxDelay[s], hmin);
  }
}
