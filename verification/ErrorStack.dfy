/** A stack of errors of any registered type in one buffer of equal slots
    (include/errorstack.h:41-248). */
module ErrorStacks {
  import opened Basics
  import opened DenseMatrices

  // ------------------------------------------------------------------ the registry

  /** An error type: its identity, size and alignment. */
  datatype ErrorType = ErrorType(name: nat, size: nat, align: nat)

  class ErrorRegistry {
    var infos: seq<ErrorType>
    var codes: map<ErrorType, nat>
    var maxSize: nat
    var maxAlign: nat

    constructor ()
      ensures Valid() && infos == []
    {
      infos, codes, maxSize, maxAlign := [], map[], 0, 0;
    }

    ghost predicate Valid()
      reads this
    {
      && (forall t :: t in codes ==> codes[t] < |infos| && infos[codes[t]] == t)
      && (forall k :: 0 <= k < |infos| ==> infos[k] in codes && codes[infos[k]] == k)
      && (forall k :: 0 <= k < |infos| ==> infos[k].size <= maxSize && infos[k].align <= maxAlign)
      && Attained(infos, maxSize, maxAlign)
    }

    /** Registering again changes nothing. */
    method Register(t: ErrorType) returns (code: nat)
      requires Valid()
      modifies this
      ensures Valid()
      ensures t in codes && code == codes[t]
      ensures infos == if t in old(codes) then old(infos) else old(infos) + [t]
    {
      if t in codes {
        return codes[t];
      }
      AttainedNext(infos, t, maxSize, maxAlign);
      code := |infos|;
      infos := infos + [t];
      codes := codes[t := code];
      if t.size > maxSize {
        maxSize := t.size;
      }
      if t.align > maxAlign {
        maxAlign := t.align;
      }
    }
  }

  /** The maxima are those of registered types, not just bounds. */
  ghost predicate Attained(infos: seq<ErrorType>, size: nat, align: nat)
  {
    if infos == [] then size == align == 0
    else
      && (exists k :: 0 <= k < |infos| && infos[k].size == size)
      && (exists k :: 0 <= k < |infos| && infos[k].align == align)
  }

  lemma AttainedNext(infos: seq<ErrorType>, t: ErrorType, size: nat, align: nat)
    requires Attained(infos, size, align)
    ensures Attained(infos + [t], Max(size, t.size), Max(align, t.align))
  {
    var next := infos + [t];
    assert next[|infos|] == t;
    if infos != [] {
      var k :| 0 <= k < |infos| && infos[k].size == size;
      var k' :| 0 <= k' < |infos| && infos[k'].align == align;
      assert next[k] == infos[k] && next[k'] == infos[k'];
    }
  }

  // ------------------------------------------------------------------ slot geometry

  /** The largest size rounded up to a multiple of the largest alignment. */
  function SlotSize(maxSize: nat, maxAlign: nat): nat
    requires maxAlign > 0
  {
    (maxSize + maxAlign - 1) / maxAlign * maxAlign
  }

  /** The slot holds the largest type and is the smallest multiple that does. */
  lemma SlotSizeIsRoundedUp(maxSize: nat, maxAlign: nat)
    requires maxAlign > 0
    ensures maxSize <= SlotSize(maxSize, maxAlign) < maxSize + maxAlign
    ensures Divides(maxAlign, SlotSize(maxSize, maxAlign))
  {
  }

  ghost predicate Divides(d: nat, x: nat)
  {
    exists q: nat :: x == q * d
  }

  lemma DividesTimes(d: nat, x: nat, i: nat)
    requires Divides(d, x)
    ensures Divides(d, i * x)
  {
    var q: nat :| x == q * d;
    assert i * (q * d) == (i * q) * d;
    assert i * q >= 0;
  }

  lemma DividesSum(d: nat, x: nat, y: nat)
    requires Divides(d, x) && Divides(d, y)
    ensures Divides(d, x + y)
  {
    var q: nat :| x == q * d;
    var q': nat :| y == q' * d;
    assert x + y == (q + q') * d;
  }

  lemma DividesThrough(d: nat, e: nat, x: nat)
    requires Divides(d, e) && Divides(e, x)
    ensures Divides(d, x)
  {
    var q: nat :| x == q * e;
    DividesTimes(d, e, q);
  }

  lemma DividesIsNoRemainder(d: nat, x: nat)
    requires d > 0
    ensures Divides(d, x) <==> x % d == 0
  {
    var q0, r := x / d, x % d;
    assert x == q0 * d + r;
    if Divides(d, x) {
      var q: nat :| x == q * d;
      DigitsUnique(q, 0, q0, r, d);
    }
  }

  lemma {:induction false} PowersDivide(j: nat, k: nat)
    requires Power2(j) <= Power2(k)
    ensures Divides(Power2(j), Power2(k))
  {
    if j == k {
      assert Power2(k) == 1 * Power2(j);
    } else if k < j {
      PowersGrow(k, j);
      assert false;
    } else {
      PowersGrow(j, k - 1);
      PowersDivide(j, k - 1);
      DividesTimes(Power2(j), Power2(k - 1), 2);
    }
  }

  lemma {:induction false} PowersGrow(j: nat, k: nat)
    requires j <= k
    ensures Power2(j) <= Power2(k)
    ensures j < k ==> Power2(j) < Power2(k)
  {
    if j < k {
      PowersGrow(j, k - 1);
    }
  }

  /** In a buffer aligned for the strictest type every slot suits every type that is no
      stricter and no larger than a slot. */
  lemma SlotsFit(base: nat, maxSize: nat, j: nat, k: nat, size: nat, i: nat)
    requires base % Power2(k) == 0 && Power2(j) <= Power2(k)
    requires size <= SlotSize(maxSize, Power2(k))
    ensures (base + i * SlotSize(maxSize, Power2(k))) % Power2(j) == 0
    ensures i * SlotSize(maxSize, Power2(k)) + size <= (i + 1) * SlotSize(maxSize, Power2(k))
  {
    var slot := SlotSize(maxSize, Power2(k));
    PowersDivide(j, k);
    SlotSizeIsRoundedUp(maxSize, Power2(k));
    SlotsAligned(base, slot, Power2(k), Power2(j), i);
    assert (i + 1) * slot == i * slot + slot;
  }

  lemma SlotsAligned(base: nat, slot: nat, big: nat, small: nat, i: nat)
    requires small > 0 && big > 0 && base % big == 0 && Divides(big, slot) && Divides(small, big)
    ensures (base + i * slot) % small == 0
  {
    DividesIsNoRemainder(big, base);
    DividesThrough(small, big, base);
    DividesThrough(small, big, slot);
    DividesTimes(small, slot, i);
    DividesSum(small, base, i * slot);
    DividesIsNoRemainder(small, base + i * slot);
  }

  // --------------------------------------------------------------- the stack's meaning

  /** An error object, tagged with the registry code of its type. */
  datatype Error = Error(code: nat, payload: int)

  const INITIAL_CAPACITY: nat := 8

  datatype StackState = StackState(contents: seq<Error>, capacity: nat, destroyed: seq<Error>, relocations: nat)
  {
    /** Room for one more: a first buffer, or twice the old one with all errors moved over. */
    function Grown(): StackState
    {
      if capacity == 0 then this.(capacity := INITIAL_CAPACITY, relocations := relocations + |contents|)
      else if |contents| == capacity then this.(capacity := 2 * capacity, relocations := relocations + |contents|)
      else this
    }

    function Push(e: Error): StackState { Grown().(contents := contents + [e]) }

    function Clear(): StackState { this.(contents := [], destroyed := destroyed + contents) }

    function Reset(): StackState { Clear().(capacity := 0) }
  }

  const EMPTY: StackState := StackState([], 0, [], 0)

  datatype StackOp = PushOp(error: Error) | ClearOp | ResetOp

  function Run(ops: seq<StackOp>): StackState
  {
    if ops == [] then EMPTY
    else
      var s := Run(ops[..|ops| - 1]);
      match ops[|ops| - 1]
      case PushOp(e) => s.Push(e)
      case ClearOp => s.Clear()
      case ResetOp => s.Reset()
  }

  /** All errors pushed, and those pushed since the stack was last emptied. */
  function PushedBy(ops: seq<StackOp>): seq<Error>
  {
    if ops == [] then []
    else
      var pushed := PushedBy(ops[..|ops| - 1]);
      match ops[|ops| - 1]
      case PushOp(e) => pushed + [e]
      case _ => pushed
  }

  function SinceEmptied(ops: seq<StackOp>): seq<Error>
  {
    if ops == [] then []
    else
      match ops[|ops| - 1]
      case PushOp(e) => SinceEmptied(ops[..|ops| - 1]) + [e]
      case _ => []
  }

  /** Over any run every pushed error is either still on the stack or has been destroyed,
      never both and never twice, in the order of the pushes. */
  lemma {:induction false} DestroyedExactlyOnce(ops: seq<StackOp>)
    ensures Run(ops).destroyed + Run(ops).contents == PushedBy(ops)
    ensures Run(ops).contents == SinceEmptied(ops)
  {
    if ops != [] {
      DestroyedExactlyOnce(ops[..|ops| - 1]);
      var s := Run(ops[..|ops| - 1]);
      if ops[|ops| - 1].PushOp? {
        var e := ops[|ops| - 1].error;
        assert s.destroyed + (s.contents + [e]) == (s.destroyed + s.contents) + [e];
      }
    }
  }

  /** Moving errors to larger buffers costs fewer than two moves per push, over any run. */
  lemma RelocationsBounded(ops: seq<StackOp>)
    ensures PushedBy(ops) == [] ==> Run(ops).relocations == 0
    ensures PushedBy(ops) != [] ==> Run(ops).relocations < 2 * |PushedBy(ops)|
  {
    RelocationsPaid(ops);
  }

  /** The part of the stack above half of the capacity has paid for the next move. */
  function Saved(s: StackState): nat
  {
    if 2 * |s.contents| > s.capacity then 2 * |s.contents| - s.capacity else 0
  }

  lemma {:induction false} RelocationsPaid(ops: seq<StackOp>)
    ensures var s := Run(ops);
      && |s.contents| <= s.capacity && (s.capacity == 0 || s.capacity >= INITIAL_CAPACITY)
      && (PushedBy(ops) == [] ==> s.relocations == 0 && s.contents == [])
      && (PushedBy(ops) != [] ==> s.relocations + Saved(s) < 2 * |PushedBy(ops)|)
  {
    if ops != [] {
      RelocationsPaid(ops[..|ops| - 1]);
    }
  }

  // ------------------------------------------------------------------ the buffer

  /** Raw memory, or a living object. */
  datatype Slot = Raw | Live(error: Error)

  datatype PushResult = Pushed | NotRegistered | RegisteredTooLate

  /** Exactly the slots lo..hi are alive, and hold the errors of the same number. */
  ghost predicate Holds(slots: seq<Slot>, errors: seq<Error>, lo: nat, hi: nat)
    requires hi <= |errors|
  {
    forall i :: 0 <= i < |slots| ==> slots[i] == if lo <= i < hi then Live(errors[i]) else Raw
  }

  /** Constructs an object in raw memory; no living object is overwritten. */
  method Construct(slots: array<Slot>, i: nat, e: Error)
    requires i < slots.Length && slots[i].Raw?
    modifies slots
    ensures slots[..] == old(slots[..])[i := Live(e)]
  {
    slots[i] := Live(e);
  }

  /** Ends the life of an object, with the destructor its code names. */
  method Destruct(slots: array<Slot>, i: nat, code: nat) returns (e: Error)
    requires i < slots.Length && slots[i].Live? && slots[i].error.code == code
    modifies slots
    ensures Live(e) == old(slots[i]) && slots[..] == old(slots[..])[i := Raw]
  {
    e := slots[i].error;
    slots[i] := Raw;
  }

  /** Returns memory; nothing may live there any more. */
  method Release(slots: array<Slot>)
    requires forall i :: 0 <= i < slots.Length ==> slots[i].Raw?
  {
  }

  class ErrorStack {
    const slotAlign: nat
    const slotSize: nat
    var buffer: array?<Slot>
    var capacity: nat
    var codes: seq<nat>
    ghost var contents: seq<Error>
    ghost var destroyed: seq<Error>
    ghost var relocations: nat

    constructor (registry: ErrorRegistry)
      requires registry.Valid() && registry.maxAlign > 0
      ensures Valid() && State() == EMPTY && buffer == null
      ensures slotAlign == registry.maxAlign && slotSize == SlotSize(registry.maxSize, registry.maxAlign)
    {
      slotAlign, slotSize := registry.maxAlign, SlotSize(registry.maxSize, registry.maxAlign);
      buffer, capacity, codes := null, 0, [];
      contents, destroyed, relocations := [], [], 0;
    }

    /** The first slots hold the stack, with matching codes; the others are raw memory. */
    ghost predicate Valid()
      reads this, buffer
    {
      && (buffer == null <==> capacity == 0)
      && (buffer != null ==> buffer.Length == capacity && Holds(buffer[..], contents, 0, |contents|))
      && |codes| == |contents| <= capacity
      && (forall i :: 0 <= i < |codes| ==> codes[i] == contents[i].code)
    }

    ghost function State(): StackState
      reads this
    {
      StackState(contents, capacity, destroyed, relocations)
    }

    /** Allocates a larger buffer and moves every error into it. */
    method Grow(newCapacity: nat)
      requires Valid() && newCapacity > capacity
      modifies this`buffer, this`capacity, this`relocations, buffer
      ensures Valid() && fresh(buffer) && capacity == newCapacity
      ensures relocations == old(relocations) + |contents|
    {
      var nb := new Slot[newCapacity](_ => Raw);
      for i := 0 to |codes|
        invariant buffer == old(buffer) && capacity == old(capacity) && relocations == old(relocations) + i
        invariant buffer != null ==> buffer != nb && Holds(buffer[..], contents, i, |contents|)
        invariant Holds(nb[..], contents, 0, i)
      {
        var e := Destruct(buffer, i, codes[i]);
        Construct(nb, i, e);
        relocations := relocations + 1;
      }
      if buffer != null {
        Release(buffer);
      }
      buffer := nb;
      capacity := newCapacity;
    }

    /** Finds the next free slot, growing the buffer if needed. */
    method AcquireSlot() returns (i: nat)
      requires Valid()
      modifies this`buffer, this`capacity, this`relocations, buffer
      ensures Valid() && State() == old(State()).Grown()
      ensures i == |codes| < capacity
      ensures capacity ==
                if old(capacity) == 0 then 8 else if |codes| == old(capacity) then 2 * old(capacity) else old(capacity)
      ensures buffer == old(buffer) || fresh(buffer)
    {
      if buffer == null {
        Grow(INITIAL_CAPACITY);
      } else if |codes| == capacity {
        Grow(capacity * 2);
      }
      i := |codes|;
    }

    /** Moves an error onto the stack, unless its type is unknown or does not fit a slot. */
    method Push(registry: ErrorRegistry, t: ErrorType, payload: int) returns (result: PushResult)
      requires Valid() && registry.Valid()
      modifies this, buffer
      ensures Valid() && (buffer == old(buffer) || fresh(buffer))
      ensures result == if t !in registry.codes then NotRegistered
                        else if t.size > slotSize || t.align > slotAlign then RegisteredTooLate
                        else Pushed
      ensures State() == if result.Pushed? then old(State()).Push(Error(registry.codes[t], payload)) else old(State())
    {
      if t !in registry.codes {
        return NotRegistered;
      }
      var code := registry.codes[t];
      if t.size > slotSize || t.align > slotAlign {
        return RegisteredTooLate;
      }
      var dst := AcquireSlot();
      Construct(buffer, dst, Error(code, payload));
      codes := codes + [code];
      contents := contents + [Error(code, payload)];
      result := Pushed;
    }

    /** Destroys all errors and keeps the buffer. */
    method Clear()
      requires Valid()
      modifies this`codes, this`contents, this`destroyed, buffer
      ensures Valid() && State() == old(State()).Clear()
    {
      for i := 0 to |codes|
        invariant codes == old(codes) && contents == old(contents)
        invariant destroyed == old(destroyed) + contents[..i]
        invariant buffer != null ==> Holds(buffer[..], contents, i, |contents|)
      {
        var e := Destruct(buffer, i, codes[i]);
        destroyed := destroyed + [e];
      }
      codes, contents := [], [];
    }

    /** Destroys all errors and gives the buffer back. */
    method Reset()
      requires Valid()
      modifies this, buffer
      ensures Valid() && State() == old(State()).Reset() && buffer == null
    {
      Clear();
      if buffer != null {
        Release(buffer);
      }
      buffer, capacity := null, 0;
    }
  }

  /** A type registered before the stack was built is never turned away. */
  lemma RegisteredTypesFit(registry: ErrorRegistry, t: ErrorType)
    requires registry.Valid() && t in registry.codes && registry.maxAlign > 0
    ensures t.size <= SlotSize(registry.maxSize, registry.maxAlign) && t.align <= registry.maxAlign
  {
    SlotSizeIsRoundedUp(registry.maxSize, registry.maxAlign);
  }
}
