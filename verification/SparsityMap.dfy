/** The sparsity map: which matrix positions exist, and their place in column-major order
    (include/cscmatrix.h:37-134, lib/cscmatrix.cpp:9-46). */
module SparsityMaps {
  import opened Basics

  /** Equation (row) and unknown (column), counted from 1; 0 is the reference node. */
  datatype Position = Position(row: nat, col: nat)

  datatype Entry = Entry(index: nat, flags: bv8)

  /** Column first, then row. */
  predicate Before(l: Position, r: Position)
  {
    l.col < r.col || (l.col == r.col && l.row < r.row)
  }

  ghost predicate Ordered(s: seq<Position>)
  {
    forall i, j :: 0 <= i < j < |s| ==> Before(s[i], s[j])
  }

  ghost predicate Lists(s: seq<Position>, keys: set<Position>)
  {
    forall p :: p in s <==> p in keys
  }

  /** There is only one ordered listing: the order in which a hash table yields its keys
      leaves no trace. */
  lemma {:induction false} OrderedListingUnique(s: seq<Position>, t: seq<Position>)
    requires Ordered(s) && Ordered(t)
    requires forall p :: p in s <==> p in t
    ensures s == t
  {
    assert |s| > 0 ==> s[0] in t;
    assert |t| > 0 ==> t[0] in s;
    if s != [] {
      SameFirst(s, t);
      forall p
        ensures p in s[1..] <==> p in t[1..]
      {
        TailMembers(s, p);
        TailMembers(t, p);
      }
      OrderedListingUnique(s[1..], t[1..]);
      assert s == [s[0]] + s[1..] && t == [t[0]] + t[1..];
    }
  }

  lemma SameFirst(s: seq<Position>, t: seq<Position>)
    requires s != [] && t != [] && Ordered(s) && Ordered(t)
    requires forall p :: p in s <==> p in t
    ensures s[0] == t[0]
  {
    assert s[0] in t && t[0] in s;
    var i :| 0 <= i < |t| && t[i] == s[0];
    var j :| 0 <= j < |s| && s[j] == t[0];
  }

  lemma TailMembers(s: seq<Position>, p: Position)
    requires s != [] && Ordered(s)
    ensures p in s[1..] <==> p in s && p != s[0]
  {
    if p in s[1..] {
      var i :| 0 <= i < |s[1..]| && s[1..][i] == p;
      assert Before(s[0], s[i + 1]);
    }
    if p in s && p != s[0] {
      var i :| 0 <= i < |s| && s[i] == p;
      assert s[1..][i - 1] == p;
    }
  }

  /** A key put between the smaller and the larger ones. */
  function Between(s: seq<Position>, k: nat, p: Position): (r: seq<Position>)
    requires k <= |s|
    ensures |r| == |s| + 1
    ensures forall i :: 0 <= i < |r| ==> r[i] == if i < k then s[i] else if i == k then p else s[i - 1]
  {
    s[..k] + [p] + s[k..]
  }

  lemma BetweenOrdered(s: seq<Position>, k: nat, p: Position)
    requires Ordered(s) && k <= |s|
    requires (forall i :: 0 <= i < k ==> Before(s[i], p)) && (k < |s| ==> Before(p, s[k]))
    ensures Ordered(Between(s, k, p))
  {
    forall i | k <= i < |s|
      ensures Before(p, s[i])
    {
      assert k < i ==> Before(s[k], s[i]);
    }
  }

  lemma BetweenMembers(s: seq<Position>, k: nat, p: Position, q: Position)
    requires k <= |s|
    ensures q in Between(s, k, p) <==> q in s || q == p
  {
    var r := Between(s, k, p);
    if q in s {
      var i :| 0 <= i < |s| && s[i] == q;
      assert r[if i < k then i else i + 1] == q;
    }
    assert r[k] == p;
  }

  /** Puts one more key into its place. */
  method InsertOrdered(s: seq<Position>, p: Position) returns (r: seq<Position>)
    requires Ordered(s) && p !in s
    ensures Ordered(r) && |r| == |s| + 1
    ensures forall q :: q in r <==> q in s || q == p
  {
    var k := 0;
    while k < |s| && Before(s[k], p)
      invariant 0 <= k <= |s|
      invariant forall i :: 0 <= i < k ==> Before(s[i], p)
    {
      k := k + 1;
    }
    r := Between(s, k, p);
    BetweenOrdered(s, k, p);
    forall q
      ensures q in r <==> q in s || q == p
    {
      BetweenMembers(s, k, p, q);
    }
  }

  /** Lists a set of keys in order; stands for the library sort of the collected keys. */
  method OrderedKeys(keys: set<Position>) returns (s: seq<Position>)
    ensures Ordered(s) && Lists(s, keys) && |s| == |keys|
  {
    s := [];
    var left := keys;
    while left != {}
      invariant left <= keys && Ordered(s) && Lists(s, keys - left)
      invariant |s| + |left| == |keys|
      decreases left
    {
      var p :| p in left;
      s := InsertOrdered(s, p);
      left := left - {p};
    }
  }

  class SparsityMap {
    var smap: map<Position, Entry>
    var ordering: seq<(Position, bv8)>

    constructor ()
      ensures smap == map[] && ordering == []
    {
      smap := map[];
      ordering := [];
    }

    method Clear()
      modifies this
      ensures smap == map[] && ordering == []
    {
      smap := map[];
      ordering := [];
    }

    /** Adds a position, or adds flags to one that exists. */
    method Insert(e: nat, u: nat, f: bv8) returns (inserted: bool, ok: bool)
      modifies this`smap
      ensures ok && inserted == (Position(e, u) !in old(smap))
      ensures smap == Inserted(old(smap), Position(e, u), f)
      ensures smap.Keys == old(smap).Keys + {Position(e, u)}
      ensures smap[Position(e, u)] == if inserted then Entry(0, f)
                else Entry(old(smap)[Position(e, u)].index, old(smap)[Position(e, u)].flags | f)
      ensures forall p :: p in old(smap) && p != Position(e, u) ==> smap[p] == old(smap)[p]
    {
      var p := Position(e, u);
      inserted, ok := p !in smap, true;
      if inserted {
        smap := smap[p := Entry(0, f)];
      } else {
        smap := smap[p := smap[p].(flags := smap[p].flags | f)];
      }
    }

    function Find(p: Position): (e: Option<Entry>)
      reads this
      ensures e.Some? <==> p in smap
      ensures e.Some? ==> (p, e.value) in smap.Items
    {
      if p in smap then Some(smap[p]) else None
    }

    /** Lists the positions in column-major order and gives each its place in the list. */
    method Enumerate()
      modifies this
      ensures Enumerated()
      ensures smap.Keys == old(smap).Keys
      ensures forall p :: p in smap ==> smap[p].flags == old(smap)[p].flags
      ensures |ordering| == |smap|
      ensures forall k :: 0 <= k < |ordering| ==>
                ordering[k].0 in smap && ordering[k].1 == smap[ordering[k].0].flags
    {
      var keys := OrderedKeys(smap.Keys);
      assert |smap.Keys| == |smap|;
      ordering := WithFlags(keys, smap);
      Number(keys);
      assert Positions() == keys;
      assert |smap.Keys| == |smap|;
      forall p | p in smap
        ensures smap[p].index < |keys| && keys[smap[p].index] == p
      {
        assert p in keys;
        var k :| 0 <= k < |keys| && keys[k] == p;
      }
    }

    /** Gives every listed position its place. */
    method Number(keys: seq<Position>)
      requires Ordered(keys) && forall k :: 0 <= k < |keys| ==> keys[k] in smap
      modifies this`smap
      ensures smap.Keys == old(smap).Keys
      ensures forall p :: p in smap ==> smap[p].flags == old(smap)[p].flags
      ensures forall k :: 0 <= k < |keys| ==> smap[keys[k]].index == k
    {
      ghost var before := smap;
      for num := 0 to |keys|
        invariant smap.Keys == before.Keys
        invariant forall p :: p in smap ==> smap[p].flags == before[p].flags
        invariant forall k :: 0 <= k < num ==> smap[keys[k]].index == k
      {
        var p := keys[num];
        assert forall k :: 0 <= k < num ==> Before(keys[k], p);
        smap := smap[p := smap[p].(index := num)];
      }
    }

    function Positions(): (s: seq<Position>)
      reads this
    {
      PositionsOf(ordering)
    }

    /** The list is in order and complete, and every entry knows its place in it. */
    ghost predicate Enumerated()
      reads this
    {
      && Ordered(Positions())
      && (forall k :: 0 <= k < |ordering| ==> Positions()[k] in smap && smap[Positions()[k]].index == k)
      && (forall p :: p in smap ==> smap[p].index < |ordering| && Positions()[smap[p].index] == p)
    }
  }

  function PositionsOf(listed: seq<(Position, bv8)>): (s: seq<Position>)
    ensures |s| == |listed| && forall k :: 0 <= k < |s| ==> s[k] == listed[k].0
  {
    seq(|listed|, k requires 0 <= k < |listed| => listed[k].0)
  }

  function WithFlags(keys: seq<Position>, m: map<Position, Entry>): (s: seq<(Position, bv8)>)
    requires forall k :: 0 <= k < |keys| ==> keys[k] in m
    ensures |s| == |keys| && forall k :: 0 <= k < |keys| ==> s[k] == (keys[k], m[keys[k]].flags)
  {
    seq(|keys|, k requires 0 <= k < |keys| => (keys[k], m[keys[k]].flags))
  }

  ghost function Inserted(m: map<Position, Entry>, p: Position, f: bv8): map<Position, Entry>
  {
    m[p := if p in m then Entry(m[p].index, m[p].flags | f) else Entry(0, f)]
  }

  // ------------------------------------------------------------------ whole runs

  /** A map built from a list of insertions, oldest first. */
  ghost function Built(inserts: seq<(Position, bv8)>): map<Position, Entry>
  {
    if inserts == [] then map[]
    else
      var last := inserts[|inserts| - 1];
      Inserted(Built(inserts[..|inserts| - 1]), last.0, last.1)
  }

  ghost function FlagsFor(inserts: seq<(Position, bv8)>, p: Position): bv8
  {
    if inserts == [] then 0
    else
      var last := inserts[|inserts| - 1];
      var before := FlagsFor(inserts[..|inserts| - 1], p);
      if last.0 == p then before | last.1 else before
  }

  /** A position exists exactly when it was inserted, with the union of all flags given. */
  lemma {:induction false} BuiltFromInserts(inserts: seq<(Position, bv8)>, p: Position)
    ensures p in Built(inserts) <==> exists i :: 0 <= i < |inserts| && inserts[i].0 == p
    ensures p in Built(inserts) ==> Built(inserts)[p] == Entry(0, FlagsFor(inserts, p))
    ensures p !in Built(inserts) ==> FlagsFor(inserts, p) == 0
  {
    if inserts != [] {
      var front, last := inserts[..|inserts| - 1], inserts[|inserts| - 1];
      BuiltFromInserts(front, p);
      assert last.0 == p ==> inserts[|inserts| - 1].0 == p;
      assert forall i :: 0 <= i < |front| ==> front[i] == inserts[i];
    }
  }

  ghost predicate Gives(insert: (Position, bv8), p: Position, flag: bv8)
  {
    insert.0 == p && insert.1 & flag != 0
  }

  ghost predicate SomeGives(inserts: seq<(Position, bv8)>, p: Position, flag: bv8)
  {
    exists i :: 0 <= i < |inserts| && Gives(inserts[i], p, flag)
  }

  lemma LastMayGive(inserts: seq<(Position, bv8)>, p: Position, flag: bv8)
    requires inserts != []
    ensures SomeGives(inserts, p, flag) <==>
              SomeGives(inserts[..|inserts| - 1], p, flag) || Gives(inserts[|inserts| - 1], p, flag)
  {
    var front := inserts[..|inserts| - 1];
    assert forall i :: 0 <= i < |front| ==> front[i] == inserts[i];
  }

  /** A flag is set exactly when some insertion of the position gave it. */
  lemma {:induction false} FlagsAreUnion(inserts: seq<(Position, bv8)>, p: Position, flag: bv8)
    ensures FlagsFor(inserts, p) & flag != 0 <==> SomeGives(inserts, p, flag)
  {
    if inserts != [] {
      var front, last := inserts[..|inserts| - 1], inserts[|inserts| - 1];
      FlagsAreUnion(front, p, flag);
      LastMayGive(inserts, p, flag);
      UnionOfBits(FlagsFor(front, p), last.1, flag);
    }
  }

  lemma UnionOfBits(x: bv8, y: bv8, flag: bv8)
    ensures (x | y) & flag != 0 <==> x & flag != 0 || y & flag != 0
  {
  }
}
