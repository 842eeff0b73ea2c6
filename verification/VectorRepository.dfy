/** A ring of equally long solution vectors (include/ansupport.h:204-308): the current one,
    past ones at positive depths, future ones at negative depths. */
module VectorRepositories {
  import opened Basics
  import opened CircularBuffers

  /** `std::vector::resize`: a prefix stays, new elements are zero. */
  function Resized(v: seq<real>, n: nat): (r: seq<real>)
    ensures |r| == n
    ensures r[..Min(n, |v|)] == v[..Min(n, |v|)]
    ensures forall i :: |v| <= i < n ==> r[i] == 0.0
  {
    if n <= |v| then v[..n] else v + seq(n - |v|, _ => 0.0)
  }

  class VectorRepository {
    const ring: CircularBuffer<seq<real>>
    var length: nat

    ghost predicate Valid()
      reads this, ring
    {
      && ring.Valid()
      && forall k :: 0 <= k < ring.size ==> |ring.slots[k]| == length
    }

    constructor (size: nat, length: nat)
      ensures Valid() && fresh(ring) && ring.size == size && this.length == length
      ensures forall k :: 0 <= k < size ==> ring.slots[k] == seq(length, _ => 0.0)
    {
      var empty := new CircularBuffer<seq<real>>(size, []);
      ring := empty;
      this.length := length;
      new;
      ResizeAll(length);
    }

    /** Resizes every vector, in buffer order. */
    method ResizeAll(newLength: nat)
      requires ring.Valid()
      modifies this`length, ring`buffer, ring`slots
      ensures Valid() && length == newLength
      ensures |ring.slots| == old(|ring.slots|)
      ensures forall k :: 0 <= k < ring.size ==> ring.slots[k] == Resized(old(ring.slots[k]), newLength)
    {
      ghost var before, slots := ring.buffer, ring.slots;
      for i := 0 to ring.size
        invariant |ring.buffer| == ring.size && ring.slots == slots
        invariant forall k :: 0 <= k < i ==> ring.buffer[k] == Resized(before[k], newLength)
        invariant forall k :: i <= k < ring.size ==> ring.buffer[k] == before[k]
      {
        ring.buffer := ring.buffer[i := Resized(ring.buffer[i], newLength)];
      }
      length := newLength;
      ring.slots := Depths(ring.buffer, ring.at);
      forall k | 0 <= k < ring.size
        ensures ring.slots[k] == Resized(slots[k], newLength)
      {
        assert slots[k] == before[Position(ring.size, ring.at, k)];
      }
    }

    /** Adds past slots. The new depths are exactly those a move emptied or the growth
        created, and each gets the common length. */
    method Upsize(newSize: nat)
      requires Valid()
      modifies ring
      ensures Valid()
      ensures ring.size == Max(newSize, old(ring.size))
      ensures ring.slots[..old(ring.size)] == old(ring.slots)
    {
      if newSize <= ring.size {
        return;
      }
      var oldSize := ring.size;
      ring.Upsize(newSize);
      var delta := newSize - oldSize;
      for i := 0 to delta
        invariant ring.Valid() && ring.size == newSize
        invariant ring.slots[..oldSize] == old(ring.slots)
        invariant forall k :: newSize - i <= k < newSize ==> |ring.slots[k]| == length
      {
        var v := ring.At(newSize - 1 - i);
        var ok := ring.Put(newSize - 1 - i, Resized(v.value, length));
      }
      forall k | 0 <= k < newSize
        ensures |ring.slots[k]| == length
      {
        if k < oldSize {
          assert ring.slots[k] == ring.slots[..oldSize][k] == old(ring.slots)[k];
        }
      }
    }

    /** Adds slots and changes the common length. */
    method UpsizeTo(newSize: nat, newLength: nat)
      requires Valid()
      modifies this`length, ring
      ensures Valid() && length == newLength
      ensures ring.size == Max(newSize, old(ring.size))
      ensures forall k :: 0 <= k < old(ring.size) ==> ring.slots[k] == Resized(old(ring.slots[k]), newLength)
    {
      ResizeAll(newLength);
      ghost var resized := ring.slots;
      Upsize(newSize);
      forall k | 0 <= k < |resized|
        ensures ring.slots[k] == resized[k]
      {
        assert ring.slots[..|resized|][k] == resized[k];
      }
    }

    /** Zeroes one vector; false stands for the exception on a depth outside the buffer,
        which cannot occur while the vectors have no elements. */
    method Zero(which: int) returns (ok: bool)
      requires Valid()
      modifies ring`buffer, ring`slots
      ensures Valid()
      ensures ok <==> length == 0 || InRange(ring.size, which)
      ensures ring.slots == if ok && length > 0
        then old(ring.slots)[(if which >= 0 then which else ring.size + which) := seq(length, _ => 0.0)]
        else old(ring.slots)
    {
      if length > 0 {
        ok := ring.Put(which, seq(length, _ => 0.0));
        return ok;
      }
      return true;
    }

    method Advance(which: int) returns (ok: bool)
      requires Valid()
      modifies ring`at, ring`slots
      ensures Valid()
      ensures ok == InRange(ring.size, which)
      ensures ring.slots == if ok then Moved(old(ring.slots), Step(which)) else old(ring.slots)
    {
      ok := ring.Advance(which);
    }

    method Rotate(which: int) returns (ok: bool)
      requires Valid()
      modifies ring`buffer, ring`slots
      ensures Valid()
      ensures ok == InRange(ring.size, which)
      ensures ring.slots == if ok then Moved(old(ring.slots), Swap(which)) else old(ring.slots)
    {
      ok := ring.Rotate(which);
    }
  }

  // ---------------------------------------------------------------- motions

  datatype Motion = Step(steps: int) | Swap(which: int)
  {
    function Undo(): Motion
    {
      match this
      case Step(steps) => Step(-steps)
      case Swap(which) => Swap(which)
    }

    function Distance(): int
    {
      match this
      case Step(steps) => steps
      case Swap(which) => which
    }
  }

  /** A motion outside the buffer throws and leaves everything in place. */
  function Moved<T>(slots: seq<T>, m: Motion): (r: seq<T>)
    ensures |r| == |slots|
  {
    if !InRange(|slots|, m.Distance()) then slots
    else
      match m
      case Step(steps) => Shifted(slots, steps)
      case Swap(which) => Exchanged(slots, which)
  }

  lemma MovedMeans<T>(slots: seq<T>, distance: int)
    ensures Moved(slots, Step(distance)) == if InRange(|slots|, distance) then Shifted(slots, distance) else slots
    ensures Moved(slots, Swap(distance)) == if InRange(|slots|, distance) then Exchanged(slots, distance) else slots
  {
  }

  function MovedBy<T>(slots: seq<T>, ms: seq<Motion>): (r: seq<T>)
    ensures |r| == |slots|
    decreases ms
  {
    if ms == [] then slots else MovedBy(Moved(slots, ms[0]), ms[1..])
  }

  /** The motions that take `ms` back, last one first. */
  function Undone(ms: seq<Motion>): seq<Motion>
  {
    if ms == [] then [] else Undone(ms[1..]) + [ms[0].Undo()]
  }

  lemma MovedBack<T>(slots: seq<T>, m: Motion)
    ensures Moved(Moved(slots, m), m.Undo()) == slots
  {
    if InRange(|slots|, m.Distance()) {
      match m {
        case Step(steps) =>
          assert Moved(slots, m) == Shifted(slots, steps);
          ShiftBack(slots, steps);
        case Swap(which) =>
          assert Moved(slots, m) == Exchanged(slots, which);
          ExchangeTwice(slots, which);
      }
    }
  }

  lemma {:induction false} MovedByConcat<T>(slots: seq<T>, a: seq<Motion>, b: seq<Motion>)
    ensures MovedBy(slots, a + b) == MovedBy(MovedBy(slots, a), b)
    decreases a
  {
    if a == [] {
      assert a + b == b;
    } else {
      assert (a + b)[1..] == a[1..] + b;
      MovedByConcat(Moved(slots, a[0]), a[1..], b);
    }
  }

  /** Any sequence of advances and rotations is taken back by undoing it in reverse order. */
  lemma {:induction false} MotionsAreUndone<T>(slots: seq<T>, ms: seq<Motion>)
    ensures MovedBy(MovedBy(slots, ms), Undone(ms)) == slots
    decreases ms
  {
    if ms != [] {
      var first := Moved(slots, ms[0]);
      var after := MovedBy(slots, ms);
      MotionsAreUndone(first, ms[1..]);
      MovedByConcat(after, Undone(ms[1..]), [ms[0].Undo()]);
      assert MovedBy(first, [ms[0].Undo()]) == Moved(first, ms[0].Undo());
      MovedBack(slots, ms[0]);
    }
  }

  /** Motions only rearrange: no vector is lost or duplicated. */
  lemma {:induction false} MotionsRearrange<T>(slots: seq<T>, ms: seq<Motion>)
    ensures multiset(MovedBy(slots, ms)) == multiset(slots)
    decreases ms
  {
    if ms != [] {
      MotionRearranges(slots, ms[0]);
      MotionsRearrange(Moved(slots, ms[0]), ms[1..]);
    }
  }

  lemma MotionRearranges<T>(slots: seq<T>, m: Motion)
    ensures multiset(Moved(slots, m)) == multiset(slots)
  {
    if InRange(|slots|, m.Distance()) && m.Step? {
      var cut := if m.steps > 0 then |slots| - m.steps else -m.steps;
      ShiftIsCut(slots, m.steps, cut);
      CutRearranges(slots, cut);
    }
  }

  lemma ShiftIsCut<T>(slots: seq<T>, steps: int, cut: nat)
    requires InRange(|slots|, steps) && cut == if steps > 0 then |slots| - steps else -steps
    ensures Shifted(slots, steps) == slots[cut..] + slots[..cut]
  {
  }

  lemma CutRearranges<T>(slots: seq<T>, cut: nat)
    requires cut <= |slots|
    ensures multiset(slots[cut..] + slots[..cut]) == multiset(slots)
  {
    assert slots == slots[..cut] + slots[cut..];
  }
}
