/** The table of classes by name: open addressing with linear probing, no deletion, a fixed capacity. */
module ClassMap {

  import opened Wrappers

  type Class = nat

  datatype Entry = Entry(name: string, cls: Class)

  const CAPACITY: nat := 4096
  const UINT64: nat := 0x1_0000_0000_0000_0000

  type Slots = s: seq<Option<Entry>> | |s| == CAPACITY witness seq(CAPACITY, _ => None)

  /** The slot of the `i`th probe; the sum is taken in 64 bits. */
  function Index(hash: nat, i: nat): (r: nat)
    ensures r < CAPACITY
  {
    (hash + i) % UINT64 % CAPACITY
  }

  lemma IndexIs(hash: nat, i: nat)
    ensures Index(hash, i) == (hash + i) % CAPACITY
  {
    var n := hash + i;
    var q := n / UINT64;
    assert n == q * UINT64 + n % UINT64;
    Multiple(n % UINT64, q * (UINT64 / CAPACITY));
  }

  lemma Multiple(a: nat, k: nat)
    ensures (a + k * CAPACITY) % CAPACITY == a % CAPACITY
  {
  }

  /** The probes reach every slot. */
  lemma Reaches(hash: nat, idx: nat) returns (i: nat)
    requires idx < CAPACITY
    ensures i < CAPACITY && Index(hash, i) == idx
  {
    var h := hash % CAPACITY;
    i := (idx + CAPACITY - h) % CAPACITY;
    IndexIs(hash, i);
    var q := hash / CAPACITY;
    assert hash == q * CAPACITY + h;
    if idx >= h {
      assert i == idx - h;
      Multiple(idx, q);
    } else {
      assert i == idx + CAPACITY - h;
      Multiple(idx, q + 1);
    }
  }

  predicate Stops(slots: Slots, hash: nat, name: string, i: nat) {
    var s := slots[Index(hash, i)];
    s.None? || s.value.name == name
  }

  /** The first probe that meets an empty slot or the name. */
  function Find(slots: Slots, hash: nat, name: string, i: nat): (k: nat)
    requires i <= CAPACITY
    ensures i <= k <= CAPACITY && (k < CAPACITY ==> Stops(slots, hash, name, k))
    ensures forall j :: i <= j < k ==> !Stops(slots, hash, name, j)
    decreases CAPACITY - i
  {
    if i == CAPACITY || Stops(slots, hash, name, i) then i else Find(slots, hash, name, i + 1)
  }

  lemma {:induction false} FindIs(slots: Slots, hash: nat, name: string, i: nat, k: nat)
    requires i <= k <= CAPACITY && (k < CAPACITY ==> Stops(slots, hash, name, k))
    requires forall j :: i <= j < k ==> !Stops(slots, hash, name, j)
    ensures Find(slots, hash, name, i) == k
    decreases k - i
  {
    if i < k {
      assert !Stops(slots, hash, name, i);
      FindIs(slots, hash, name, i + 1, k);
    }
  }

  /** The class a name is bound to. */
  function Bound(slots: Slots, hash: string -> nat, name: string): Option<Class> {
    var k := Find(slots, hash(name), name, 0);
    if k < CAPACITY && slots[Index(hash(name), k)].Some? then Some(slots[Index(hash(name), k)].value.cls) else None
  }

  predicate Full(slots: Slots) {
    forall i :: 0 <= i < CAPACITY ==> slots[i].Some?
  }

  /** Probing for a stored name leads to where it is stored. */
  predicate Settled(slots: Slots, hash: string -> nat, idx: nat)
    requires idx < CAPACITY
  {
    slots[idx].Some? ==>
      var name := slots[idx].value.name;
      var k := Find(slots, hash(name), name, 0);
      k < CAPACITY && Index(hash(name), k) == idx
  }

  predicate Valid(slots: Slots, hash: string -> nat) {
    forall idx :: 0 <= idx < CAPACITY ==> Settled(slots, hash, idx)
  }

  lemma StoredIsBound(slots: Slots, hash: string -> nat, idx: nat)
    requires Valid(slots, hash) && idx < CAPACITY && slots[idx].Some?
    ensures Bound(slots, hash, slots[idx].value.name) == Some(slots[idx].value.cls)
  {
    assert Settled(slots, hash, idx);
  }

  lemma StoredOnce(slots: Slots, hash: string -> nat, i: nat, j: nat)
    requires Valid(slots, hash) && i < CAPACITY && j < CAPACITY && i != j && slots[i].Some? && slots[j].Some?
    ensures slots[i].value.name != slots[j].value.name
  {
    assert Settled(slots, hash, i) && Settled(slots, hash, j);
  }

  /** Filling the slot where the probe for `name` stopped disturbs no other name's probe. */
  lemma OtherFind(slots: Slots, hash: string -> nat, name: string, cls: Class, other: string)
    requires other != name && Find(slots, hash(name), name, 0) < CAPACITY
    requires Bound(slots, hash, other).Some?
    ensures var idx := Index(hash(name), Find(slots, hash(name), name, 0));
            && Find(slots[idx := Some(Entry(name, cls))], hash(other), other, 0) == Find(slots, hash(other), other, 0)
            && Index(hash(other), Find(slots, hash(other), other, 0)) != idx
  {
    var idx := Index(hash(name), Find(slots, hash(name), name, 0));
    var slots1 := slots[idx := Some(Entry(name, cls))];
    var k := Find(slots, hash(other), other, 0);
    forall j | 0 <= j < k ensures !Stops(slots1, hash(other), other, j) {
      assert !Stops(slots, hash(other), other, j);
    }
    FindIs(slots1, hash(other), other, 0, k);
  }

  /** What one insertion does to the whole binding, when its probe finds a place. */
  lemma Inserted(slots: Slots, hash: string -> nat, name: string, cls: Class)
    requires Valid(slots, hash) && Find(slots, hash(name), name, 0) < CAPACITY
    ensures var slots1 := slots[Index(hash(name), Find(slots, hash(name), name, 0)) := Some(Entry(name, cls))];
            && Valid(slots1, hash) && Bound(slots1, hash, name) == Some(cls)
            && forall m :: m != name ==> Bound(slots1, hash, m) == Bound(slots, hash, m)
  {
    var k := Find(slots, hash(name), name, 0);
    var idx := Index(hash(name), k);
    var slots1 := slots[idx := Some(Entry(name, cls))];
    StillFound(slots, hash, name, cls);
    forall i | 0 <= i < CAPACITY ensures Settled(slots1, hash, i) {
      if i != idx && slots[i].Some? {
        assert Settled(slots, hash, i);
        var m := slots[i].value.name;
        if m != name { OtherFind(slots, hash, name, cls, m); }
      }
    }
    forall m | m != name ensures Bound(slots1, hash, m) == Bound(slots, hash, m) {
      if Bound(slots, hash, m).Some? {
        OtherFind(slots, hash, name, cls, m);
      } else {
        Unbound(slots1, hash, m);
        var j := Index(hash(m), Find(slots1, hash(m), m, 0));
        if slots[j].Some? && slots[j].value.name == m { StoredIsBound(slots, hash, j); }
      }
    }
  }

  lemma StillFound(slots: Slots, hash: string -> nat, name: string, cls: Class)
    requires Find(slots, hash(name), name, 0) < CAPACITY
    ensures var k := Find(slots, hash(name), name, 0);
            Find(slots[Index(hash(name), k) := Some(Entry(name, cls))], hash(name), name, 0) == k
  {
    var k := Find(slots, hash(name), name, 0);
    var slots1 := slots[Index(hash(name), k) := Some(Entry(name, cls))];
    forall j | 0 <= j < k ensures !Stops(slots1, hash(name), name, j) {
      assert !Stops(slots, hash(name), name, j);
    }
    FindIs(slots1, hash(name), name, 0, k);
  }

  lemma {:induction false} Unbound(slots: Slots, hash: string -> nat, name: string)
    ensures Bound(slots, hash, name).Some? ==>
              slots[Index(hash(name), Find(slots, hash(name), name, 0))].value.name == name
  {
  }

  /** A new name finds no place exactly when the table is full. */
  lemma {:induction false} NoPlace(slots: Slots, hash: string -> nat, name: string)
    requires Bound(slots, hash, name).None?
    ensures Find(slots, hash(name), name, 0) == CAPACITY <==> Full(slots)
  {
    var k := Find(slots, hash(name), name, 0);
    if k == CAPACITY {
      forall i | 0 <= i < CAPACITY ensures slots[i].Some? {
        var j := Reaches(hash(name), i);
        assert !Stops(slots, hash(name), name, j);
      }
    }
  }

  /** The bindings after one more insertion: a new name is dropped when the table is full. */
  ghost predicate Extends(before: Slots, after: Slots, hash: string -> nat, name: string, cls: Class) {
    if Full(before) && Bound(before, hash, name).None? then after == before
    else Bound(after, hash, name) == Some(cls) && forall m :: m != name ==>
      Bound(after, hash, m) == Bound(before, hash, m)
  }

  class Table {
    const hash: string -> nat
    const slots: array<Option<Entry>>

    ghost predicate Ok()
      reads this, slots
    {
      slots.Length == CAPACITY && Valid(slots[..], hash)
    }

    constructor (hash: string -> nat)
      ensures Ok() && this.hash == hash && fresh(slots)
      ensures forall name :: Bound(slots[..], hash, name) == None
    {
      this.hash := hash;
      slots := new Option<Entry>[CAPACITY](_ => None);
    }

    /** class_map_insert_unlocked. */
    method Insert(name: string, cls: Class)
      requires Ok()
      modifies slots
      ensures Ok() && Extends(old(slots[..]), slots[..], hash, name, cls)
    {
      ghost var before: Slots := slots[..];
      ghost var k := Find(before, hash(name), name, 0);
      if Bound(before, hash, name).None? { NoPlace(before, hash, name); }
      for i := 0 to CAPACITY
        invariant slots[..] == before && Find(before, hash(name), name, i) == k
      {
        var idx := Index(hash(name), i);
        if slots[idx].None? || slots[idx].value.name == name {
          assert Stops(before, hash(name), name, i);
          slots[idx] := Some(Entry(name, cls));
          Inserted(before, hash, name, cls);
          assert slots[..] == before[idx := Some(Entry(name, cls))];
          return;
        }
      }
    }

    /** sf_loader_class_lookup_unlocked. */
    method Lookup(name: string) returns (r: Option<Class>)
      requires Ok()
      ensures r == Bound(slots[..], hash, name)
    {
      ghost var now: Slots := slots[..];
      for i := 0 to CAPACITY
        invariant Find(now, hash(name), name, i) == Find(now, hash(name), name, 0)
      {
        var idx := Index(hash(name), i);
        if slots[idx].None? {
          return None;
        }
        if slots[idx].value.name == name {
          return Some(slots[idx].value.cls);
        }
      }
      return None;
    }
  }

  // ---------------------------------------------------------------- runs

  /** The last class bound to a name by a run of insertions. */
  function LastBinding(ops: seq<Entry>, name: string): Option<Class> {
    if ops == [] then None
    else if ops[|ops| - 1].name == name then Some(ops[|ops| - 1].cls)
    else LastBinding(ops[..|ops| - 1], name)
  }

  function Names(ops: seq<Entry>): set<string> {
    set k | 0 <= k < |ops| :: ops[k].name
  }

  /** As many different names as there are slots fill the table. */
  lemma {:induction false} FullHasManyNames(slots: Slots,
                                            hash: string -> nat, names: set<string>, n: nat, used: set<string>)
    requires Valid(slots, hash) && Full(slots) && n <= CAPACITY
    requires forall i :: 0 <= i < CAPACITY ==> slots[i].value.name in names
    requires used <= names && |used| == n && forall m :: m in used ==>
             exists i :: 0 <= i < n && slots[i].value.name == m
    ensures |names| >= CAPACITY
    decreases CAPACITY - n
  {
    if n < CAPACITY {
      var m := slots[n].value.name;
      forall i | 0 <= i < n ensures slots[i].value.name != m { StoredOnce(slots, hash, i, n); }
      FullHasManyNames(slots, hash, names, n + 1, used + {m});
    } else {
      SubsetSize(used, names);
    }
  }

  lemma {:induction false} SubsetSize(a: set<string>, b: set<string>)
    requires a <= b
    ensures |a| <= |b|
  {
    assert b == a + (b - a);
    assert a !! (b - a);
  }

  /** After any insertions and re-insertions of at most as many names as the table holds, every name is
      bound to the last class given for it, whatever the hash function. */
  method InsertAll(table: Table, ops: seq<Entry>)
    requires table.Ok() && forall name :: Bound(table.slots[..], table.hash, name) == None
    requires |Names(ops)| <= CAPACITY
    modifies table.slots
    ensures table.Ok() && forall name :: Bound(table.slots[..], table.hash, name) == LastBinding(ops, name)
  {
    var i := 0;
    while i < |ops|
      invariant i <= |ops| && table.Ok()
      invariant forall name :: Bound(table.slots[..], table.hash, name) == LastBinding(ops[..i], name)
    {
      ghost var before: Slots := table.slots[..];
      assert ops[..i + 1][..i] == ops[..i];
      if Full(before) && Bound(before, table.hash, ops[i].name).None? {
        FullIsComplete(before, table.hash, ops, i);
      }
      table.Insert(ops[i].name, ops[i].cls);
      i := i + 1;
    }
    assert ops[..i] == ops;
  }

  lemma {:induction false} BoundIsNamed(ops: seq<Entry>, name: string)
    ensures LastBinding(ops, name).Some? <==> name in Names(ops)
  {
    if ops != [] {
      var rest := ops[..|ops| - 1];
      BoundIsNamed(rest, name);
      assert forall k :: 0 <= k < |rest| ==> rest[k] == ops[k];
      if name in Names(ops) && ops[|ops| - 1].name != name {
        var k :| 0 <= k < |ops| && ops[k].name == name;
        assert rest[k].name == name;
      }
    }
  }

  lemma FullIsComplete(slots: Slots, hash: string -> nat, ops: seq<Entry>, n: nat)
    requires n < |ops| && Valid(slots, hash) && Full(slots) && |Names(ops)| <= CAPACITY
    requires forall name :: Bound(slots, hash, name) == LastBinding(ops[..n], name)
    ensures Bound(slots, hash, ops[n].name).Some?
  {
    var seen := Names(ops[..n]);
    forall i | 0 <= i < CAPACITY ensures slots[i].value.name in seen {
      assert Settled(slots, hash, i);
      BoundIsNamed(ops[..n], slots[i].value.name);
    }
    FullHasManyNames(slots, hash, seen, 0, {});
    BoundIsNamed(ops[..n], ops[n].name);
    if ops[n].name !in seen {
      assert seen + {ops[n].name} <= Names(ops) by {
        forall m | m in seen ensures m in Names(ops) {
          var k :| 0 <= k < n && ops[..n][k].name == m;
          assert ops[k].name == m;
        }
      }
      SubsetSize(seen + {ops[n].name}, Names(ops));
    }
  }
}
