/** Circular sample buffer (include/ansupport.h:30-202).

    A ring is seen in two ways. `Ring` is the list it stands for: a capacity and the
    values that have not been evicted, newest first. `CircularBuffer` is the object:
    a write position inside a buffer whose contents are moved in place when it grows. */
module CircularBuffers {
  import opened Basics

  // ---------------------------------------------------------------- the list

  datatype Ring<T> = Ring(capacity: nat, past: seq<T>)
  {
    predicate Fits() { |past| <= capacity }

    /** The newest value goes in front; the oldest one is lost when there is no room. */
    function Push(v: T): (r: Ring<T>)
      ensures r.Fits() && r.capacity == capacity
    {
      Ring(capacity, ([v] + past)[..Min(|past| + 1, capacity)])
    }

    /** Never shrinks. */
    function Grow(newSize: nat): (r: Ring<T>)
      ensures r.capacity == Max(newSize, capacity) && r.past == past
    {
      Ring(Max(newSize, capacity), past)
    }

    function Cleared(): Ring<T> { Ring(capacity, []) }
  }

  datatype RingOp<T> = AddOp(v: T) | UpsizeOp(newSize: nat) | ClearOp

  /** The ring after `ops`, oldest operation first. */
  function Run<T>(initial: Ring<T>, ops: seq<RingOp<T>>): (r: Ring<T>)
    requires initial.Fits()
    ensures r.Fits()
  {
    if ops == [] then initial
    else
      var r := Run(initial, ops[..|ops| - 1]);
      match ops[|ops| - 1]
      case AddOp(v) => r.Push(v)
      case UpsizeOp(n) => r.Grow(n)
      case ClearOp => r.Cleared()
  }

  /** Everything added since the last clear, newest first, nothing ever evicted. */
  function Added<T>(initial: seq<T>, ops: seq<RingOp<T>>): seq<T>
  {
    if ops == [] then initial
    else
      var all := Added(initial, ops[..|ops| - 1]);
      match ops[|ops| - 1]
      case AddOp(v) => [v] + all
      case UpsizeOp(_) => all
      case ClearOp => []
  }

  /** Whatever the interleaving, the ring holds the newest part of the full list: at least as
      much of it as the first capacity has room for, and all of it while it fits in there. */
  lemma {:induction false} RunIsNewestPart<T>(initial: Ring<T>, ops: seq<RingOp<T>>)
    requires initial.Fits()
    ensures initial.capacity <= Run(initial, ops).capacity
    ensures Run(initial, ops).past <= Added(initial.past, ops)
    ensures |Run(initial, ops).past| >= Min(|Added(initial.past, ops)|, initial.capacity)
    ensures |Added(initial.past, ops)| <= initial.capacity ==> Run(initial, ops).past == Added(initial.past, ops)
  {
    if ops != [] {
      RunIsNewestPart(initial, ops[..|ops| - 1]);
    }
  }

  /** The capacity is the largest one ever asked for. */
  lemma {:induction false} RunCapacity<T>(initial: Ring<T>, ops: seq<RingOp<T>>)
    requires initial.Fits()
    ensures initial.capacity <= Run(initial, ops).capacity
    ensures forall k :: 0 <= k < |ops| && ops[k].UpsizeOp? ==> ops[k].newSize <= Run(initial, ops).capacity
    ensures Run(initial, ops).capacity == initial.capacity
         || exists k :: 0 <= k < |ops| && ops[k].UpsizeOp? && ops[k].newSize == Run(initial, ops).capacity
  {
    if ops != [] {
      var front := ops[..|ops| - 1];
      RunCapacity(initial, front);
      assert forall k :: 0 <= k < |front| ==> front[k] == ops[k];
    }
  }

  lemma {:induction false} RunInParts<T>(initial: Ring<T>, early: seq<RingOp<T>>, late: seq<RingOp<T>>)
    requires initial.Fits()
    ensures Run(initial, early + late) == Run(Run(initial, early), late)
    ensures Added(initial.past, early + late) == Added(Added(initial.past, early), late)
  {
    if late == [] {
      assert early + late == early;
    } else {
      var front := late[..|late| - 1];
      RunInParts(initial, early, front);
      assert (early + late)[..|early + late| - 1] == early + front;
    }
  }

  /** Room made at any time is there from then on: of what the ring then held and was given
      since it keeps as much as the capacity of that time allows. */
  lemma RunUsesRoom<T>(initial: Ring<T>, early: seq<RingOp<T>>, late: seq<RingOp<T>>)
    requires initial.Fits()
    ensures var mid := Run(initial, early);
            |Run(initial, early + late).past| >= Min(|Added(mid.past, late)|, mid.capacity)
  {
    RunInParts(initial, early, late);
    RunIsNewestPart(Run(initial, early), late);
  }

  // ------------------------------------------------------------- the positions

  /** Depths a ring of this size can address. */
  predicate InRange(size: nat, which: int) { which < size && -which < size }

  /** Buffer position of the value `which` steps back (negative: forward) from `at`. */
  function Position(size: nat, at: nat, which: int): (p: nat)
    requires at < size && InRange(size, which)
    ensures p < size
  {
    if which >= 0 then
      if which > at then size + at - which else at - which
    else
      if at - which >= size then at - which - size else at - which
  }

  /** The three-way position rule is arithmetic modulo the size. */
  lemma PositionIsModular(size: nat, at: nat, which: int)
    requires at < size && InRange(size, which)
    ensures Position(size, at, which) == (at - which) % size
  {
  }

  /** `slots` lists a buffer last written at `at` by depth. */
  ghost predicate ByDepth<T>(slots: seq<T>, buffer: seq<T>, at: nat)
    requires buffer != [] ==> at < |buffer|
  {
    && |slots| == |buffer|
    && forall k {:trigger Position(|buffer|, at, k)} ::
        0 <= k < |buffer| ==> slots[k] == buffer[Position(|buffer|, at, k)]
  }

  ghost function Depths<T>(buffer: seq<T>, at: nat): (slots: seq<T>)
    requires buffer != [] ==> at < |buffer|
    ensures ByDepth(slots, buffer, at)
  {
    seq(|buffer|, k requires 0 <= k < |buffer| => buffer[Position(|buffer|, at, k)])
  }

  /** What growing has to achieve: the front stays, the tail moves to the new end. */
  ghost predicate TailMoved<T>(before: seq<T>, after: seq<T>, at: nat)
  {
    && |before| <= |after|
    && (forall k :: 0 <= k <= at && k < |before| ==> after[k] == before[k])
    && (forall k :: at + |after| - |before| < k < |after| ==> after[k] == before[k - (|after| - |before|)])
  }

  lemma MovedTailKeepsDepths<T>(before: seq<T>, after: seq<T>, at: nat, old': seq<T>, new': seq<T>)
    requires TailMoved(before, after, at)
    requires before == [] || at < |before|
    requires after != [] ==> at < |after|
    requires ByDepth(old', before, at) && ByDepth(new', after, at)
    ensures old' <= new'
  {
    forall k | 0 <= k < |before|
      ensures old'[k] == new'[k]
    {
      var p, q := Position(|before|, at, k), Position(|after|, at, k);
      if k > at {
        assert q - (|after| - |before|) == p;
      }
    }
  }

  /** Writing at the next position pushes every depth back by one. */
  lemma WrittenDepths<T>(buffer: seq<T>, at: nat, v: T, slots: seq<T>)
    requires at < |buffer| && ByDepth(slots, buffer, at)
    ensures var next := if at + 1 >= |buffer| then 0 else at + 1;
            ByDepth([v] + slots[..|buffer| - 1], buffer[next := v], next)
  {
    var n := |buffer|;
    var next := if at + 1 >= n then 0 else at + 1;
    forall k | 0 <= k < n
      ensures ([v] + slots[..n - 1])[k] == buffer[next := v][Position(n, next, k)]
    {
      if k > 0 {
        assert Position(n, next, k) == Position(n, at, k - 1) != next;
      }
    }
  }

  /** Stepping back over the newest slot removes depth 0. */
  lemma WithdrawnDepths<T>(buffer: seq<T>, at: nat, old': seq<T>, new': seq<T>)
    requires 0 < at < |buffer| && ByDepth(old', buffer, at) && ByDepth(new', buffer, at - 1)
    ensures old'[1..] == new'[..|buffer| - 1]
  {
    forall k | 0 <= k < |buffer| - 1
      ensures old'[1..][k] == new'[..|buffer| - 1][k]
    {
      assert Position(|buffer|, at - 1, k) == Position(|buffer|, at, k + 1);
    }
  }

  /** Seen from the last position, depth 0 is what was depth 1 seen from position 0. */
  lemma DisplacedDepths<T>(buffer: seq<T>, old': seq<T>, new': seq<T>)
    requires buffer != [] && ByDepth(old', buffer, 0) && ByDepth(new', buffer, |buffer| - 1)
    ensures old'[1..] == new'[..|buffer| - 1]
  {
    forall k | 0 <= k < |buffer| - 1
      ensures old'[1..][k] == new'[..|buffer| - 1][k]
    {
      assert Position(|buffer|, |buffer| - 1, k) == Position(|buffer|, 0, k + 1);
    }
  }

  lemma PushedPast<T>(slots: seq<T>, count: nat, v: T)
    requires count <= |slots| && slots != []
    ensures ([v] + slots[..|slots| - 1])[..Min(count + 1, |slots|)] == Ring(|slots|, slots[..count]).Push(v).past
  {
  }

  /** All depths after the write position moved `which` steps forward. */
  function Shifted<T>(slots: seq<T>, which: int): (s: seq<T>)
    requires InRange(|slots|, which)
    ensures |s| == |slots|
  {
    seq(|slots|, k requires 0 <= k < |slots| =>
      var j := k - which;
      slots[if j < 0 then j + |slots| else if j >= |slots| then j - |slots| else j])
  }

  /** Depth 0 swapped with depth `which`. */
  function Exchanged<T>(slots: seq<T>, which: int): (s: seq<T>)
    requires InRange(|slots|, which)
    ensures |s| == |slots|
  {
    var j := if which >= 0 then which else |slots| + which;
    slots[0 := slots[j]][j := slots[0]]
  }

  lemma ShiftedDepths<T>(buffer: seq<T>, at: nat, which: int, slots: seq<T>)
    requires at < |buffer| && InRange(|buffer|, which) && ByDepth(slots, buffer, at)
    ensures ByDepth(Shifted(slots, which), buffer, Position(|buffer|, at, -which))
  {
    var n := |buffer|;
    var at' := Position(n, at, -which);
    forall k | 0 <= k < n
      ensures Shifted(slots, which)[k] == buffer[Position(n, at', k)]
    {
      var j := k - which;
      assert Position(n, at', k) == Position(n, at, if j < 0 then j + n else if j >= n then j - n else j);
    }
  }

  lemma ExchangedDepths<T>(buffer: seq<T>, at: nat, which: int, slots: seq<T>)
    requires at < |buffer| && InRange(|buffer|, which) && ByDepth(slots, buffer, at)
    ensures var other := Position(|buffer|, at, which);
            ByDepth(Exchanged(slots, which), buffer[other := buffer[at]][at := buffer[other]], at)
  {
    var n, other := |buffer|, Position(|buffer|, at, which);
    var swapped := buffer[other := buffer[at]][at := buffer[other]];
    var j := if which >= 0 then which else n + which;
    assert Position(n, at, j) == other && Position(n, at, 0) == at;
    forall k | 0 <= k < n
      ensures Exchanged(slots, which)[k] == swapped[Position(n, at, k)]
    {
      if k != 0 && k != j {
        assert Position(n, at, k) != at && Position(n, at, k) != other;
      }
    }
  }

  lemma OverwrittenDepth<T>(buffer: seq<T>, at: nat, depth: nat, v: T, slots: seq<T>)
    requires at < |buffer| && depth < |buffer| && ByDepth(slots, buffer, at)
    ensures ByDepth(slots[depth := v], buffer[Position(|buffer|, at, depth) := v], at)
  {
    var n := |buffer|;
    forall k | 0 <= k < n
      ensures slots[depth := v][k] == buffer[Position(n, at, depth) := v][Position(n, at, k)]
    {
      if k != depth {
        assert Position(n, at, k) != Position(n, at, depth);
      }
    }
  }

  /** Moving the write position forward puts every value that much further back, around the
      end of the ring; moving it back brings every value that much closer. */
  lemma ShiftMovesBack<T>(slots: seq<T>, which: int, depth: nat)
    requires InRange(|slots|, which) && depth < |slots|
    ensures Shifted(slots, which)[(depth + which) % |slots|] == slots[depth]
  {
    var n, to := |slots|, depth + which;
    if to < 0 {
      Wrapped(to, n, -1);
    } else if to < n {
      Wrapped(to, n, 0);
    } else {
      Wrapped(to, n, 1);
    }
  }

  lemma Wrapped(x: int, n: nat, turns: int)
    requires n > 0 && -1 <= turns <= 1 && 0 <= x - turns * n < n
    ensures x % n == x - turns * n
  {
  }

  /** Depth 0 and the given depth change places, no other one does. */
  lemma ExchangeIsSwap<T>(slots: seq<T>, which: int, depth: nat)
    requires InRange(|slots|, which) && depth < |slots|
    ensures var other := if which >= 0 then which else |slots| + which;
            Exchanged(slots, which)[depth] ==
              if depth == 0 then slots[other] else if depth == other then slots[0] else slots[depth]
  {
  }

  lemma ShiftBack<T>(slots: seq<T>, which: int)
    requires InRange(|slots|, which)
    ensures Shifted(Shifted(slots, which), -which) == slots
  {
  }

  lemma ExchangeTwice<T>(slots: seq<T>, which: int)
    requires InRange(|slots|, which)
    ensures Exchanged(Exchanged(slots, which), which) == slots
  {
  }

  // ---------------------------------------------------------------- the object

  /** A moved-from `T` is left arbitrary, and so is a slot that growing adds, so what is
      proved holds whatever a move leaves behind. */
  class CircularBuffer<T(0)> {
    var size: nat
    var valueCount: nat
    var at: nat
    var buffer: seq<T>

    /** Every slot, by depth, whether or not a value was ever added there. */
    ghost var slots: seq<T>

    ghost predicate Valid()
      reads this
    {
      && |buffer| == size == |slots|
      && valueCount <= size
      && (if size == 0 then at == 0 else at < size)
      && ByDepth(slots, buffer, at)
    }

    ghost function Model(): (r: Ring<T>)
      reads this
      requires Valid()
      ensures r.Fits()
    {
      Ring(size, slots[..valueCount])
    }

    /** One past the last slot, where removing at position 0 leaves the write position; the
        depths are still counted from position 0, whose value is the one removed. */
    ghost predicate Displaced()
      reads this
    {
      && |buffer| == size == |slots|
      && valueCount < size == at
      && ByDepth(slots, buffer, 0)
    }

    /** What should be left after such a removal. */
    ghost function Left(): (r: Ring<T>)
      reads this
      requires Displaced()
      ensures r.Fits()
    {
      Ring(size, slots[1..valueCount + 1])
    }

    /** Every slot starts as the default value of the element type. */
    constructor (size: nat, initial: T)
      ensures Valid() && this.size == size && valueCount == 0 && at == 0
      ensures Model() == Ring(size, []) && forall k :: 0 <= k < size ==> slots[k] == initial
    {
      this.size, valueCount, at := size, 0, 0;
      buffer := seq(size, _ => initial);
      slots := Depths(seq(size, _ => initial), 0);
    }

    /** Grows the buffer and moves the values behind the write position to its end. The
        ranges overlap, and each move leaves its source in an unspecified state. */
    method Upsize(newSize: nat)
      requires Valid()
      modifies this
      ensures Valid() && at == old(at) && valueCount == old(valueCount)
      ensures size == Max(newSize, old(size))
      ensures Model() == old(Model().Grow(newSize))
      ensures slots[..old(size)] == old(slots)
    {
      if newSize <= size {
        return;
      }
      var fill: T := *;
      var grown := buffer + seq(newSize - size, _ => fill);
      if size > 0 {
        grown := MoveTail(grown, size, at);
      }
      ghost var after := Depths(grown, at);
      MovedTailKeepsDepths(buffer, grown, at, slots, after);
      buffer, size, slots := grown, newSize, after;
    }

    /** The move loop of `Upsize`, from the old and the new end downwards. */
    static method MoveTail(before: seq<T>, size: nat, at: nat) returns (slots: seq<T>)
      requires at < size < |before|
      ensures TailMoved(before[..size], slots, at) && |slots| == |before|
    {
      slots := before;
      var newSize, nToMove := |before|, size - at - 1;
      for i := 0 to nToMove
        invariant |slots| == newSize
        invariant forall k :: 0 <= k < size - i ==> slots[k] == before[k]
        invariant forall k :: newSize - i <= k < newSize ==> slots[k] == before[k - (newSize - size)]
      {
        var husk: T := *;
        slots := slots[newSize - 1 - i := slots[size - 1 - i]][size - 1 - i := husk];
      }
    }

    method Clear()
      requires Valid() || Displaced()
      modifies this
      ensures Valid() && size == old(size) && buffer == old(buffer)
      ensures Model() == Ring(size, [])
    {
      at := 0;
      valueCount := 0;
      slots := Depths(buffer, 0);
    }

    /** The first value added after a removal at position 0 goes to position 0, in the place
        of the one removed, and the ring is whole again. */
    method Add(value: T)
      requires (Valid() || Displaced()) && size > 0
      modifies this
      ensures Valid() && size == old(size)
      ensures Model() == old(if Valid() then Model() else Left()).Push(value)
      ensures slots == if old(Valid()) then [value] + old(slots)[..size - 1] else old(slots)[0 := value]
      ensures at == if old(at) + 1 < size then old(at) + 1 else 0
    {
      if at < size {
        WrittenDepths(buffer, at, value, slots);
        PushedPast(slots, valueCount, value);
        slots := [value] + slots[..size - 1];
      } else {
        OverwrittenDepth(buffer, 0, 0, value, slots);
        slots := slots[0 := value];
      }
      at := at + 1;
      if at >= size {
        at := 0;
      }
      if valueCount < size {
        valueCount := valueCount + 1;
      }
      buffer := buffer[at := value];
    }

    /** Withdraws the newest value; false stands for the exception on an empty buffer.
        At position 0 the write position is set to `size` itself, one past the last
        slot, so the ring survives exactly when the position was not 0. Withdrawing once
        more from there drops the oldest value in place of the newest. */
    method Remove() returns (ok: bool)
      requires Valid() || Displaced()
      modifies this
      ensures ok == (old(valueCount) > 0)
      ensures size == old(size) && buffer == old(buffer)
      ensures !ok ==> at == old(at) && valueCount == old(valueCount)
      ensures ok ==> at == (if old(at) == 0 then size else old(at) - 1) && valueCount == old(valueCount) - 1
      ensures ok ==> (Valid() <==> old(at) != 0) && (Displaced() <==> old(at) == 0)
      ensures ok && old(Valid()) ==>
                (if old(at) != 0 then Model() else Left()) == Ring(size, old(Model().past[1..]))
      ensures ok && old(Displaced()) ==> Model() == Ring(size, old(Left().past[..valueCount - 1]))
    {
      if valueCount < 1 {
        return false;
      }
      if at == 0 {
        at := size;
      } else {
        ghost var after := Depths(buffer, at - 1);
        if at < size {
          WithdrawnDepths(buffer, at, slots, after);
        } else {
          DisplacedDepths(buffer, slots, after);
        }
        at := at - 1;
        slots := after;
      }
      valueCount := valueCount - 1;
      return true;
    }

    /** Read by depth; `None` stands for the exception on a depth outside the buffer. */
    method At(which: int) returns (r: Option<T>)
      requires Valid()
      ensures r.Some? <==> InRange(size, which)
      ensures InRange(size, which) ==> r.value == slots[if which >= 0 then which else size + which]
    {
      if which >= size || -which >= size {
        return None;
      }
      assert Position(size, at, which) == Position(size, at, if which >= 0 then which else size + which);
      return Some(buffer[Position(size, at, which)]);
    }

    /** Writes through the reference that the non-const `at` hands out. */
    method Put(which: int, value: T) returns (ok: bool)
      requires Valid()
      modifies this`buffer, this`slots
      ensures ok == InRange(size, which)
      ensures Valid()
      ensures !ok ==> buffer == old(buffer) && slots == old(slots)
      ensures ok ==> slots == old(slots)[(if which >= 0 then which else size + which) := value]
    {
      if which >= size || -which >= size {
        return false;
      }
      ghost var depth := if which >= 0 then which else size + which;
      OverwrittenDepth(buffer, at, depth, value, slots);
      assert Position(size, at, depth) == Position(size, at, which);
      buffer := buffer[Position(size, at, which) := value];
      slots := slots[depth := value];
      return true;
    }

    /** Moves the write position; false stands for the exception. */
    method Advance(which: int) returns (ok: bool)
      requires Valid()
      modifies this`at, this`slots
      ensures ok == InRange(size, which)
      ensures Valid()
      ensures !ok ==> at == old(at) && slots == old(slots)
      ensures ok ==> slots == Shifted(old(slots), which) && at == (old(at) + which) % size
    {
      if which >= size || -which >= size {
        return false;
      }
      ShiftedDepths(buffer, at, which, slots);
      if which <= 0 {
        if -which > at {
          at := size + at + which;
        } else {
          at := at + which;
        }
      } else {
        if at + which >= size {
          at := at + which - size;
        } else {
          at := at + which;
        }
      }
      slots := Shifted(slots, which);
      PositionIsModular(size, old(at), -which);
      return true;
    }

    /** Exchanges the current value with another depth; false stands for the exception. */
    method Rotate(which: int) returns (ok: bool)
      requires Valid()
      modifies this`buffer, this`slots
      ensures ok == InRange(size, which)
      ensures Valid()
      ensures !ok ==> buffer == old(buffer) && slots == old(slots)
      ensures ok ==> slots == Exchanged(old(slots), which)
    {
      if which >= size || -which >= size {
        return false;
      }
      ExchangedDepths(buffer, at, which, slots);
      var atWhich := Position(size, at, which);
      var tmp := buffer[atWhich];
      var husk: T := *;
      buffer := buffer[atWhich := husk];
      buffer := buffer[atWhich := buffer[at]];
      buffer := buffer[at := tmp];
      assert buffer == old(buffer)[atWhich := old(buffer)[at]][at := old(buffer)[atWhich]];
      slots := Exchanged(slots, which);
      return true;
    }
  }

  /** A ring that a removal leaves broken: one slot, filled and emptied again. */
  method RemovalBreaksRing<T(0)>(value: T) returns (r: CircularBuffer<T>)
    ensures fresh(r) && r.Displaced() && !r.Valid()
  {
    r := new CircularBuffer(1, value);
    r.Add(value);
    var ok := r.Remove();
    assert ok;
  }
}
