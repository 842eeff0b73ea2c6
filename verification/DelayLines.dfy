/** Delay lines of a transient analysis (include/coredelay.h). Each keeps the recent past of
    one unknown in a ring of its own; the times are in one ring shared by all of them, owned
    by the analysis and handed in with every call. */
module DelayLineHistory {
  import opened Basics
  import opened CircularBuffers
  import opened Interpolation
  import opened DelayHistories

  class DelayLines {
    var locked: bool
    var changed: bool
    var history: seq<CircularBuffer<real>>
    var inputUnknown: seq<nat>
    var outputUnknown: seq<nat>
    var delay: seq<real>
    var maxDelay: seq<real>
    var longestBuffer: nat

    ghost predicate Valid()
      reads this, history
    {
      && |inputUnknown| == |outputUnknown| == |delay| == |maxDelay|
      && (forall i, j :: 0 <= i < j < |history| ==> history[i] != history[j])
      && (forall i :: 0 <= i < |history| ==> history[i].Valid() && history[i].size <= longestBuffer)
    }

    ghost function Models(): (rings: seq<Ring<real>>)
      reads this, history
      requires Valid()
      ensures |rings| == |history|
      ensures forall i :: 0 <= i < |history| ==> rings[i] == history[i].Model()
    {
      seq(|history|, i requires 0 <= i < |history| reads this, history requires Valid() => history[i].Model())
    }

    /** The contents of all rings, the given timepoint ring included. */
    ghost function State(timepoints: CircularBuffer<real>): (h: History)
      reads this, history, timepoints
      requires Valid() && timepoints.Valid()
    {
      History(Models(), timepoints.Model(), longestBuffer)
    }

    constructor ()
      ensures Valid() && history == [] && longestBuffer == 0 && !locked && !changed && |delay| == 0
    {
      locked, changed, longestBuffer := false, false, 0;
      history, inputUnknown, outputUnknown, delay, maxDelay := [], [], [], [], [];
    }

    /** Makes room for `n` delay lines; the settings of those that stay are kept. */
    method Scale(n: nat)
      requires Valid()
      modifies this`inputUnknown, this`outputUnknown, this`delay, this`maxDelay
      ensures Valid() && |delay| == n
      ensures forall i :: 0 <= i < n && i < old(|delay|) ==>
                inputUnknown[i] == old(inputUnknown[i]) && outputUnknown[i] == old(outputUnknown[i])
                && delay[i] == old(delay[i]) && maxDelay[i] == old(maxDelay[i])
      ensures forall i :: old(|delay|) <= i < n ==>
                inputUnknown[i] == outputUnknown[i] == 0 && delay[i] == maxDelay[i] == 0.0
    {
      inputUnknown := Resize(inputUnknown, n, 0);
      outputUnknown := Resize(outputUnknown, n, 0);
      delay := Resize(delay, n, 0.0);
      maxDelay := Resize(maxDelay, n, 0.0);
    }

    /** One empty ring per delay line. Rings that stay keep their size, so the next run
        starts from whatever sizes the last one needed. */
    method PrepareHistory(timepoints: CircularBuffer<real>)
      requires Valid() && timepoints.Valid() && timepoints !in history
      modifies this`history, history
      ensures Valid() && |history| == |delay| && timepoints !in history && timepoints.Valid()
      ensures forall i :: 0 <= i < |history| ==> history[i] in old(history) || fresh(history[i])
      ensures TakesTime(State(timepoints)) ==> Prepared(State(timepoints))
      ensures forall i :: 0 <= i < |history| ==>
                history[i].size == if i < old(|history|) then old(history[i].size) else 0
    {
      var n := |delay|;
      if n <= |history| {
        history := history[..n];
      } else {
        var more := FreshRings(n - |history|);
        history := history + more;
      }
      ClearAll();
    }

    static method FreshRings(count: nat) returns (rings: seq<CircularBuffer<real>>)
      ensures |rings| == count
      ensures forall i, j :: 0 <= i < j < count ==> rings[i] != rings[j]
      ensures forall i :: 0 <= i < count ==> fresh(rings[i]) && rings[i].Valid() && rings[i].size == 0
    {
      rings := [];
      while |rings| < count
        invariant |rings| <= count
        invariant forall i, j :: 0 <= i < j < |rings| ==> rings[i] != rings[j]
        invariant forall i :: 0 <= i < |rings| ==> fresh(rings[i]) && rings[i].Valid() && rings[i].size == 0
      {
        var ring := new CircularBuffer<real>(0, 0.0);
        rings := rings + [ring];
      }
    }

    method ClearAll()
      requires Valid()
      modifies history
      ensures Valid()
      ensures forall i :: 0 <= i < |history| ==> history[i].size == old(history[i].size)
      ensures forall i :: 0 <= i < |history| ==> history[i].Model().past == []
    {
      for k := 0 to |history|
        invariant Valid()
        invariant forall i :: 0 <= i < |history| ==> history[i].size == old(history[i].size)
        invariant forall i :: 0 <= i < k ==> history[i].Model().past == []
      {
        history[k].Clear();
      }
    }

    method Lock(f: bool)
      modifies this`locked
      ensures locked == f
    {
      locked := f;
    }

    method ClearChanged()
      modifies this`changed
      ensures !changed
    {
      changed := false;
    }

    /** Sets a delay. While delays are locked, a change is remembered and reported by false. */
    method SetDelay(slot: nat, d: real) returns (ok: bool)
      requires Valid() && slot < |delay|
      modifies this`delay, this`changed
      ensures Valid() && delay == old(delay[slot := d])
      ensures ok <==> !locked || old(delay[slot]) == d
      ensures changed <==> old(changed) || !ok
    {
      if locked && delay[slot] != d {
        delay := delay[slot := d];
        changed := true;
        return false;
      }
      delay := delay[slot := d];
      return true;
    }

    // ------------------------------------------------------------- recording

    /** Makes room in a full ring unless its oldest sample can go, which it can when the
        second-oldest one is further back than the longest delay; returns the longest ring
        size so far. */
    static method MakeRoom(h: CircularBuffer<real>, maxDelay: real, time: real,
                           timepoints: CircularBuffer<real>, longestBuffer: nat)
      returns (longest: nat)
      requires h.Valid() && timepoints.Valid() && timepoints != h
      requires h.valueCount <= timepoints.valueCount && h.size <= longestBuffer
      modifies h
      ensures h.Valid() && 0 < h.size <= longest
      ensures h.valueCount == old(h.valueCount) && old(h.slots) <= h.slots
      ensures h.size ==
                if old(h.valueCount) < old(h.size) then old(h.size)
                else if old(h.valueCount) >= 2 && time - timepoints.slots[old(h.valueCount) - 2] > maxDelay
                then old(h.size)
                else if old(h.size) < 32 then 32
                else 2 * old(h.size)
      ensures longest == if h.size > old(h.size) then Max(longestBuffer, h.size) else longestBuffer
    {
      longest := longestBuffer;
      var n := h.valueCount;
      if n == h.size {
        var needUpsize := true;
        if n >= 2 {
          var secondOldestTime := timepoints.At(n - 2);
          var distance := time - secondOldestTime.value;
          needUpsize := distance <= maxDelay;
        }
        if needUpsize {
          var newSize := if h.size < INITIAL_HISTORY_SIZE then INITIAL_HISTORY_SIZE else h.size * HISTORY_GROWTH_FACTOR;
          h.Upsize(newSize);
          if newSize > longestBuffer {
            longest := newSize;
          }
        }
      }
    }

    /** One slot's share of a new timepoint. */
    static method RecordInput(h: CircularBuffer<real>, maxDelay: real, value: real, time: real,
                              timepoints: CircularBuffer<real>, longestBuffer: nat)
      returns (longest: nat)
      requires h.Valid() && timepoints.Valid() && timepoints != h
      requires h.valueCount <= timepoints.valueCount && h.size <= longestBuffer
      modifies h
      ensures h.Valid() && h.size <= longest
      ensures h.Model() == Recorded(old(h.Model()), timepoints.Model(), time, maxDelay, value)
      ensures longest ==
                if NeedsUpsize(old(h.Model()), timepoints.Model(), time, maxDelay)
                then Max(longestBuffer, NewSize(old(h.size))) else longestBuffer
    {
      ghost var before := h.Model();
      longest := MakeRoom(h, maxDelay, time, timepoints, longestBuffer);
      assert h.Model().past == before.past;
      h.Add(value);
    }

    /** Slots before `k` have their new sample, the others are as they were. */
    ghost predicate Served(before: seq<Ring<real>>, after: seq<Ring<real>>, k: nat)
      reads this, history
    {
      && Valid()
      && k <= |history| == |maxDelay| == |before| == |after|
      && (forall i :: 0 <= i < k ==> history[i].Model() == after[i])
      && (forall i :: k <= i < |history| ==> history[i].Model() == before[i])
    }

    lemma AllServed(before: seq<Ring<real>>, after: seq<Ring<real>>)
      requires Served(before, after, |history|)
      ensures Models() == after
    {
    }

    /** In the middle of the step from `before` to `next`, `k` slots being served; `longest`
        lists the longest ring after every number of slots. */
    ghost predicate Recording(unknowns: seq<real>, time: real, timepoints: CircularBuffer<real>,
                              before: History, next: History, longest: seq<nat>, k: nat)
      reads this, history, timepoints
    {
      && Consistent(before) && TakesTime(before)
      && Served(before.slots, next.slots, k)
      && timepoints.Valid() && timepoints !in history && timepoints.Model() == before.times
      && |inputUnknown| == |history| && Feeds(unknowns, inputUnknown)
      && next == DelayHistories.AddSample(before, maxDelay, time, InputsOf(inputUnknown, unknowns))
      && Lists(longest, before, maxDelay, time) && longestBuffer == longest[k]
    }

    method RecordSlot(k: nat, unknowns: seq<real>, time: real, timepoints: CircularBuffer<real>,
                      ghost before: History, ghost next: History, ghost longest: seq<nat>)
      requires k < |history| && Recording(unknowns, time, timepoints, before, next, longest, k)
      modifies this`longestBuffer, history
      ensures Recording(unknowns, time, timepoints, before, next, longest, k + 1)
    {
      var h := history[k];
      assert h.Model() == before.slots[k];
      assert forall i :: 0 <= i < |history| && i != k ==> history[i] != h;
      assert IsEntry(k) && IsEntry(k + 1);
      var reached := RecordInput(h, maxDelay[k], unknowns[inputUnknown[k]], time, timepoints, longestBuffer);
      longestBuffer := reached;
    }

    method RecordSlots(unknowns: seq<real>, time: real, timepoints: CircularBuffer<real>,
                       ghost before: History, ghost next: History, ghost longest: seq<nat>)
      requires Recording(unknowns, time, timepoints, before, next, longest, 0)
      modifies this`longestBuffer, history
      ensures Recording(unknowns, time, timepoints, before, next, longest, |history|)
    {
      for k := 0 to |history|
        invariant Recording(unknowns, time, timepoints, before, next, longest, k)
      {
        RecordSlot(k, unknowns, time, timepoints, before, next, longest);
      }
    }

    /** Records an accepted timepoint in every ring: exactly the step of `DelayHistories`. */
    method AddSample(unknowns: seq<real>, time: real, timepoints: CircularBuffer<real>)
      requires Valid() && timepoints.Valid() && timepoints !in history
      requires |history| == |delay| && TakesTime(State(timepoints))
      requires Consistent(State(timepoints))
      requires forall i :: 0 <= i < |inputUnknown| ==> inputUnknown[i] < |unknowns|
      modifies this`longestBuffer, history, timepoints
      ensures Valid() && timepoints.Valid()
      ensures State(timepoints) ==
                DelayHistories.AddSample(old(State(timepoints)), maxDelay, time, InputsOf(inputUnknown, unknowns))
      ensures forall i :: 0 <= i < |history| ==>
                history[i].Model().past != [] && history[i].Model().past[0] == unknowns[inputUnknown[i]]
      ensures timepoints.Model().past != [] && timepoints.Model().past[0] == time
    {
      ghost var before := State(timepoints);
      RecordStep(unknowns, time, timepoints);
      NewestRecorded(before, maxDelay, time, InputsOf(inputUnknown, unknowns));
      assert forall i :: 0 <= i < |history| ==> history[i].Model() == Models()[i];
    }

    method RecordStep(unknowns: seq<real>, time: real, timepoints: CircularBuffer<real>)
      requires Valid() && timepoints.Valid() && timepoints !in history
      requires |history| == |delay| && TakesTime(State(timepoints)) && Consistent(State(timepoints))
      requires Feeds(unknowns, inputUnknown)
      modifies this`longestBuffer, history, timepoints
      ensures Valid() && timepoints.Valid()
      ensures State(timepoints) ==
                DelayHistories.AddSample(old(State(timepoints)), maxDelay, time, InputsOf(inputUnknown, unknowns))
    {
      ghost var before, inputs := State(timepoints), InputsOf(inputUnknown, unknowns);
      ghost var after := DelayHistories.AddSample(before, maxDelay, time, inputs);
      ghost var longest := LongestList(before, maxDelay, time);
      assert IsEntry(0) && IsEntry(|history|);
      RecordSlots(unknowns, time, timepoints, before, after, longest);
      AllServed(before.slots, after.slots);
      StoreTime(time, timepoints);
      assert State(timepoints) == after;
    }

    method StoreTime(time: real, timepoints: CircularBuffer<real>)
      requires Valid() && timepoints.Valid() && timepoints !in history
      requires 0 < Max(longestBuffer, timepoints.size)
      modifies timepoints
      ensures Valid() && Models() == old(Models())
      ensures timepoints.Valid() && timepoints.Model() == old(timepoints.Model().Grow(longestBuffer).Push(time))
    {
      if longestBuffer > timepoints.size {
        timepoints.Upsize(longestBuffer);
      }
      timepoints.Add(time);
    }

    // -------------------------------------------------------------- reading

    /** The delayed input of a slot and its derivative in the live input. On the times and
        values the rings hold this is the piecewise-linear delayed signal; the segment is
        found in at most ceil(log2 n) rounds. */
    method GetSample(slot: nat, now: real, unknowns: seq<real>, timepoints: CircularBuffer<real>)
      returns (value: real, deriv: real, ghost rounds: nat)
      requires Valid() && timepoints.Valid() && slot < |history| == |delay| && inputUnknown[slot] < |unknowns|
      requires DelayedReady(State(timepoints), slot, now)
      ensures var past := history[slot].Model().past;
              var times := timepoints.Model().past[..|past|];
              && value == DelayedValue(times, past, unknowns[inputUnknown[slot]], now, delay[slot], maxDelay[slot])
              && deriv == DelayedWeight(times, now, delay[slot], maxDelay[slot])
      ensures rounds <= CeilLog2(|history[slot].Model().past|)
    {
      rounds := 0;
      var clippedDelay := delay[slot];
      if clippedDelay < 0.0 {
        clippedDelay := 0.0;
      } else if clippedDelay > maxDelay[slot] {
        clippedDelay := maxDelay[slot];
      }
      var liveValue := unknowns[inputUnknown[slot]];
      if clippedDelay < now * TIME_RELATIVE_TOLERANCE {
        return liveValue, 1.0, 0;
      }
      var targetTime := now - clippedDelay;
      var h := history[slot];
      var n := h.valueCount;
      if n == 0 {
        return liveValue, 1.0, 0;
      }
      ghost var past, times := h.Model().past, timepoints.Model().past[..n];
      var newestHistoryTime := timepoints.At(0);
      assert newestHistoryTime.value == times[0];
      if targetTime >= newestHistoryTime.value {
        if now == newestHistoryTime.value {
          return liveValue, 1.0, 0;
        }
        var frac := (now - targetTime) / (now - newestHistoryTime.value);
        SignalInLiveSegment(times, past, liveValue, now, targetTime);
        var newest := h.At(0);
        return Line(now, liveValue, newestHistoryTime.value, newest.value, targetTime), 1.0 - frac, 0;
      }
      value, rounds := Interpolate(h, n, targetTime, timepoints);
      deriv := 0.0;
      SignalInHistory(times, past, liveValue, now, targetTime);
    }

    /** A target before the newest stored sample: the stored curve at that time. */
    method Interpolate(h: CircularBuffer<real>, n: nat, targetTime: real, timepoints: CircularBuffer<real>)
      returns (value: real, ghost rounds: nat)
      requires h.Valid() && timepoints.Valid() && 1 <= n == h.valueCount <= timepoints.valueCount
      requires Decreasing(timepoints.Model().past[..n])
      requires targetTime <= timepoints.Model().past[0]
      ensures value == Curve(timepoints.Model().past[..n], h.Model().past, targetTime)
      ensures rounds <= CeilLog2(n)
    {
      ghost var past, times := h.Model().past, timepoints.Model().past[..n];
      var lo: nat;
      lo, rounds := Straddle(n, targetTime, timepoints);
      var atNewer := h.At(lo);
      var vNewer := atNewer.value;
      if lo == n - 1 {
        CurveBeforeOldest(times, past, targetTime);
        return vNewer, rounds;
      }
      var tNewer := timepoints.At(lo);
      var tOlder := timepoints.At(lo + 1);
      var vOlder := h.At(lo + 1);
      assert times[lo + 1] == timepoints.Model().past[lo + 1] < targetTime;
      CurveOnSegment(times, past, targetTime, lo);
      assert tNewer.value == times[lo] && tOlder.value == times[lo + 1];
      assert vNewer == past[lo] && vOlder.value == past[lo + 1];
      if tNewer.value == tOlder.value {
        value := vNewer;
      } else {
        value := Line(tNewer.value, vNewer, tOlder.value, vOlder.value, targetTime);
      }
    }

    /** A depth among the `n` newest times with the target on its older side. */
    method Straddle(n: nat, targetTime: real, timepoints: CircularBuffer<real>) returns (lo: nat, ghost rounds: nat)
      requires timepoints.Valid() && 1 <= n <= timepoints.valueCount
      requires targetTime <= timepoints.slots[0]
      ensures lo < n && targetTime <= timepoints.slots[lo]
      ensures lo + 1 < n ==> timepoints.slots[lo + 1] < targetTime
      ensures rounds <= CeilLog2(n)
    {
      rounds := 0;
      lo := 0;
      var hi := n - 1;
      while lo < hi
        invariant 0 <= lo <= hi < n
        invariant targetTime <= timepoints.slots[lo]
        invariant hi + 1 < n ==> timepoints.slots[hi + 1] < targetTime
        invariant rounds + CeilLog2(hi - lo + 1) <= CeilLog2(n)
        decreases hi - lo
      {
        var mid := lo + (hi - lo + 1) / 2;
        HalvingCosts(hi - lo + 1, hi - mid + 1);
        HalvingCosts(hi - lo + 1, mid - lo);
        var midTime := timepoints.At(mid);
        if midTime.value >= targetTime {
          lo := mid;
        } else {
          hi := mid - 1;
        }
        rounds := rounds + 1;
      }
    }
  }

  /** In a decreasing sequence the straddling index is the largest one at or after the target. */
  lemma StraddleIsLargest(times: seq<real>, t: real, lo: nat)
    requires Decreasing(times) && lo < |times| && t <= times[lo]
    requires lo + 1 < |times| ==> times[lo + 1] < t
    ensures forall k :: 0 <= k < |times| ==> (t <= times[k] <==> k <= lo)
  {
    forall k | 0 <= k < |times|
      ensures t <= times[k] <==> k <= lo
    {
      assert k < lo ==> times[lo] < times[k];
      assert k > lo + 1 ==> times[k] < times[lo + 1];
    }
  }

  ghost predicate Lists(longest: seq<nat>, h: History, maxDelay: seq<real>, time: real)
  {
    && |h.slots| == |maxDelay| && Consistent(h) && |longest| == |h.slots| + 1
    && forall k: nat {:trigger IsEntry(k)} ::
        IsEntry(k) && k <= |h.slots| ==> longest[k] == Longest(h, maxDelay, time, k)
  }

  ghost predicate IsEntry(k: nat) { k >= 0 }

  ghost function LongestList(h: History, maxDelay: seq<real>, time: real): (longest: seq<nat>)
    requires |h.slots| == |maxDelay| && Consistent(h)
    ensures Lists(longest, h, maxDelay, time)
  {
    seq(|h.slots| + 1, k requires 0 <= k <= |h.slots| => Longest(h, maxDelay, time, k))
  }

  // -------------------------------------------------------------- whole analyses

  /** A timepoint the analysis accepted: its time and the solution there. */
  datatype Accepted = Accepted(time: real, unknowns: seq<real>)

  /** Every delay line finds its input in this solution. */
  predicate Feeds(unknowns: seq<real>, inputUnknown: seq<nat>)
  {
    forall i :: 0 <= i < |inputUnknown| ==> inputUnknown[i] < |unknowns|
  }

  ghost predicate InOrder(points: seq<Accepted>, inputUnknown: seq<nat>)
  {
    && (forall k :: 0 <= k < |points| ==> Feeds(points[k].unknowns, inputUnknown))
    && (forall i, j :: 0 <= i < j < |points| ==> points[i].time < points[j].time)
  }

  /** The first `k` timepoints as the delay lines see them, newest first. */
  ghost function Events(points: seq<Accepted>, inputUnknown: seq<nat>, k: nat): (events: seq<Event>)
    requires k <= |points| && InOrder(points, inputUnknown)
    ensures |events| == k
    ensures forall i :: 0 <= i < k ==> events[i].time == points[k - 1 - i].time && |events[i].inputs| == |inputUnknown|
    ensures forall i, s :: 0 <= i < k && 0 <= s < |inputUnknown| ==>
              events[i].inputs[s] == points[k - 1 - i].unknowns[inputUnknown[s]]
  {
    if k == 0 then []
    else
      var p := points[k - 1];
      [Event(p.time, InputsOf(inputUnknown, p.unknowns))] + Events(points, inputUnknown, k - 1)
  }

  /** The complete history of a line: times and input values of all timepoints, newest first. */
  ghost predicate IsHistory(points: seq<Accepted>, input: nat, slot: nat, events: seq<Event>)
  {
    && |events| == |points| && (forall i :: 0 <= i < |events| ==> slot < |events[i].inputs|)
    && (forall i :: 0 <= i < |points| ==> Times(events)[i] == points[|points| - 1 - i].time)
    && (forall i :: 0 <= i < |points| ==> input < |points[i].unknowns|)
    && (forall i :: 0 <= i < |points| ==> Inputs(events, slot)[i] == points[|points| - 1 - i].unknowns[input])
  }

  lemma EventsAreHistory(points: seq<Accepted>, inputUnknown: seq<nat>, slot: nat)
    requires InOrder(points, inputUnknown) && slot < |inputUnknown|
    ensures IsHistory(points, inputUnknown[slot], slot, Events(points, inputUnknown, |points|))
  {
  }

  lemma EventsAdmissible(points: seq<Accepted>, inputUnknown: seq<nat>, k: nat)
    requires k <= |points| && InOrder(points, inputUnknown)
    ensures Admissible(Events(points, inputUnknown, k), |inputUnknown|)
  {
    var events := Events(points, inputUnknown, k);
    forall i, j | 0 <= i < j < k
      ensures Times(events)[j] < Times(events)[i]
    {
      assert points[k - 1 - j].time < points[k - 1 - i].time;
    }
  }

  /** One more accepted timepoint is one more event of the run. */
  method RecordNext(lines: DelayLines, timepoints: CircularBuffer<real>, points: seq<Accepted>, k: nat,
                    ghost start: History)
    requires lines.Valid() && timepoints.Valid() && timepoints !in lines.history && k < |points|
    requires InOrder(points, lines.inputUnknown) && |lines.history| == |lines.delay| == |start.slots|
    requires Prepared(start) && lines.State(timepoints) == RunTo(start, lines.maxDelay, points, lines.inputUnknown, k)
    modifies lines`longestBuffer, lines.history, timepoints
    ensures lines.Valid() && timepoints.Valid()
    ensures lines.State(timepoints) == RunTo(start, lines.maxDelay, points, lines.inputUnknown, k + 1)
  {
    var p := points[k];
    RunNext(start, lines.maxDelay, points, lines.inputUnknown, k);
    lines.AddSample(p.unknowns, p.time, timepoints);
  }

  /** The history after the first `k` timepoints. */
  ghost function RunTo(start: History, maxDelay: seq<real>, points: seq<Accepted>, inputUnknown: seq<nat>,
                       k: nat): History
    requires Prepared(start) && |maxDelay| == |start.slots| == |inputUnknown|
    requires k <= |points| && InOrder(points, inputUnknown)
  {
    DelayHistories.Run(start, maxDelay, Events(points, inputUnknown, k))
  }

  lemma RunNext(start: History, maxDelay: seq<real>, points: seq<Accepted>, inputUnknown: seq<nat>, k: nat)
    requires Prepared(start) && |maxDelay| == |start.slots| == |inputUnknown|
    requires k < |points| && InOrder(points, inputUnknown)
    ensures var before, p := RunTo(start, maxDelay, points, inputUnknown, k), points[k];
            && Consistent(before) && TakesTime(before) && |before.slots| == |maxDelay|
            && RunTo(start, maxDelay, points, inputUnknown, k + 1)
               == DelayHistories.AddSample(before, maxDelay, p.time, InputsOf(inputUnknown, p.unknowns))
  {
    assert Events(points, inputUnknown, k + 1)[1..] == Events(points, inputUnknown, k);
  }

  /** Records every accepted timepoint: a run of the history model. */
  method RecordAll(lines: DelayLines, timepoints: CircularBuffer<real>, points: seq<Accepted>, ghost start: History)
    requires lines.Valid() && timepoints.Valid() && timepoints !in lines.history
    requires InOrder(points, lines.inputUnknown) && |lines.history| == |lines.delay| == |start.slots|
    requires Prepared(start) && lines.State(timepoints) == start
    modifies lines`longestBuffer, lines.history, timepoints
    ensures lines.Valid() && timepoints.Valid()
    ensures lines.State(timepoints) == RunTo(start, lines.maxDelay, points, lines.inputUnknown, |points|)
  {
    for k := 0 to |points|
      invariant lines.Valid() && timepoints.Valid()
      invariant lines.State(timepoints) == RunTo(start, lines.maxDelay, points, lines.inputUnknown, k)
    {
      RecordNext(lines, timepoints, points, k, start);
    }
  }

  method Start(lines: DelayLines, timepoints: CircularBuffer<real>) returns (ghost start: History)
    requires lines.Valid() && timepoints.Valid() && timepoints !in lines.history && lines.delay != []
    modifies lines`history, lines.history, timepoints
    ensures lines.Valid() && timepoints.Valid() && timepoints !in lines.history
    ensures forall i :: 0 <= i < |lines.history| ==> lines.history[i] in old(lines.history) || fresh(lines.history[i])
    ensures |lines.history| == |lines.delay| == |start.slots|
    ensures Prepared(start) && lines.State(timepoints) == start
  {
    timepoints.Clear();
    lines.PrepareHistory(timepoints);
    start := lines.State(timepoints);
  }

  /** What a transient analysis does with its delay lines: it empties the rings, records every
      accepted timepoint and reads a line at the present time. Whatever the rings had to
      evict, the answer is that of the complete history of all accepted timepoints. */
  method Transient(lines: DelayLines, timepoints: CircularBuffer<real>, points: seq<Accepted>,
                   slot: nat, now: real, unknowns: seq<real>)
    returns (value: real, deriv: real)
    requires lines.Valid() && timepoints.Valid() && timepoints !in lines.history && slot < |lines.delay|
    requires InOrder(points, lines.inputUnknown) && Feeds(unknowns, lines.inputUnknown)
    requires points != [] ==> points[|points| - 1].time <= now
    modifies lines`history, lines`longestBuffer, lines.history, timepoints
    ensures IsHistory(points, lines.inputUnknown[slot], slot, Events(points, lines.inputUnknown, |points|))
    ensures var events := Events(points, lines.inputUnknown, |points|);
            && Decreasing(Times(events)) && (events != [] ==> Times(events)[0] <= now)
            && value == DelayedValue(Times(events), Inputs(events, slot), unknowns[lines.inputUnknown[slot]], now,
                                     lines.delay[slot], lines.maxDelay[slot])
            && deriv == DelayedWeight(Times(events), now, lines.delay[slot], lines.maxDelay[slot])
  {
    ghost var start := Start(lines, timepoints);
    RecordAll(lines, timepoints, points, start);
    EventsAdmissible(points, lines.inputUnknown, |points|);
    EventsAreHistory(points, lines.inputUnknown, slot);
    BoundedRefinesUnbounded(start, lines.maxDelay, Events(points, lines.inputUnknown, |points|), slot,
                            unknowns[lines.inputUnknown[slot]], now, lines.delay[slot]);
    ghost var rounds;
    value, deriv, rounds := lines.GetSample(slot, now, unknowns, timepoints);
  }

  /** The input of every delay line, out of the vector of unknowns. */
  ghost function InputsOf(inputUnknown: seq<nat>, unknowns: seq<real>): (r: seq<real>)
    requires forall i :: 0 <= i < |inputUnknown| ==> inputUnknown[i] < |unknowns|
    ensures |r| == |inputUnknown| && forall i :: 0 <= i < |r| ==> r[i] == unknowns[inputUnknown[i]]
  {
    seq(|inputUnknown|, i requires 0 <= i < |inputUnknown| && inputUnknown[i] < |unknowns| => unknowns[inputUnknown[i]])
  }

  function Resize<T>(s: seq<T>, n: nat, fill: T): (r: seq<T>)
    ensures |r| == n && forall i :: 0 <= i < n ==> r[i] == if i < |s| then s[i] else fill
  {
    if n <= |s| then s[..n] else s + seq(n - |s|, _ => fill)
  }

  function CeilLog2(n: nat): nat { if n <= 1 then 0 else 1 + CeilLog2((n + 1) / 2) }

  /** The smallest power of two that is not below `n`. */
  lemma {:induction false} CeilLog2IsLogarithm(n: nat)
    ensures n <= Power2(CeilLog2(n))
    ensures n >= 2 ==> Power2(CeilLog2(n) - 1) < n
  {
    if n > 1 {
      CeilLog2IsLogarithm((n + 1) / 2);
    }
  }

  lemma {:induction false} CeilLog2Monotone(a: nat, b: nat)
    requires a <= b
    ensures CeilLog2(a) <= CeilLog2(b)
  {
    if a > 1 {
      CeilLog2Monotone((a + 1) / 2, (b + 1) / 2);
    }
  }

  lemma HalvingCosts(width: nat, rest: nat)
    requires 1 < width && rest <= (width + 1) / 2
    ensures 1 + CeilLog2(rest) <= CeilLog2(width)
  {
    CeilLog2Monotone(rest, (width + 1) / 2);
  }

  /** A target older than the newest sample never sees the live point. */
  lemma SignalInHistory(times: seq<real>, values: seq<real>, live: real, now: real, t: real)
    requires |times| == |values| > 0 && Decreasing(times) && times[0] <= now && t < times[0]
    ensures Signal(times, values, live, now, t) == Curve(times, values, t)
    ensures LiveWeight(times, now, t) == 0.0
  {
    CurveOfZeros(times, t);
    var ts := [now] + times;
    if now != times[0] {
      assert ts[1..] == times && ([live] + values)[1..] == values;
      assert ([1.0] + Zeros(|times|))[1..] == Zeros(|times|);
    }
  }

  /** Between the newest sample and now the signal is the line to the live point. */
  lemma SignalInLiveSegment(times: seq<real>, values: seq<real>, live: real, now: real, t: real)
    requires |times| == |values| > 0 && Decreasing(times) && times[0] < now && times[0] <= t
    ensures Signal(times, values, live, now, t) == Line(now, live, times[0], values[0], t)
    ensures LiveWeight(times, now, t) == 1.0 - (now - t) / (now - times[0])
  {
    CurveOnSegment([now] + times, [live] + values, t, 0);
    CurveOnSegment([now] + times, [1.0] + Zeros(|times|), t, 0);
  }
}
