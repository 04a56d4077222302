/** The selector table: names interned in hash buckets, and the dense slots they are frozen to. */
module Selectors {

  import opened Wrappers

  /** `slot` is there once the selector is frozen. */
  datatype Entry = Entry(name: string, types: Option<string>, slot: Option<nat>)

  const BUCKETS: nat := 256

  // ---------------------------------------------------------------- buckets as values

  predicate Distinct(list: seq<Entry>) {
    forall i, j :: 0 <= i < j < |list| ==> list[i].name != list[j].name
  }

  /** Where a name is in a bucket. */
  function Position(list: seq<Entry>, name: string): (r: Option<nat>)
    ensures r.Some? ==> r.value < |list| && list[r.value].name == name
    ensures r.None? ==> forall i :: 0 <= i < |list| ==> list[i].name != name
  {
    if list == [] then None
    else if list[0].name == name then Some(0)
    else
      var r := Position(list[1..], name);
      assert forall i :: 0 < i < |list| ==> list[i] == list[1..][i - 1];
      if r.None? then None else Some(r.value + 1)
  }

  lemma {:induction false} PositionIs(list: seq<Entry>, i: nat)
    requires Distinct(list) && i < |list|
    ensures Position(list, list[i].name) == Some(i)
  {
    var r := Position(list, list[i].name);
    assert r.Some?;
  }

  datatype Interned = Interned(hash: string -> nat, buckets: seq<seq<Entry>>, names: seq<string>) {
    function Bucket(name: string): seq<Entry>
      requires |buckets| == BUCKETS
    {
      buckets[hash(name) % BUCKETS]
    }

    function Find(name: string): (r: Option<Entry>)
      requires |buckets| == BUCKETS
      ensures r.Some? ==> r.value.name == name
    {
      var p := Position(Bucket(name), name);
      if p.None? then None else Some(Bucket(name)[p.value])
    }

    /** sf_selector_slot, with nothing for the selector that has none. */
    function Slot(name: string): Option<nat>
      requires |buckets| == BUCKETS
    {
      if Find(name).Some? then Find(name).value.slot else None
    }

    /** Each name is in its own bucket once, and a slot leads back to its name. */
    predicate Valid() {
      && |buckets| == BUCKETS
      && forall b :: 0 <= b < BUCKETS ==> GoodBucket(b)
    }

    predicate GoodBucket(b: nat)
      requires |buckets| == BUCKETS && b < BUCKETS
    {
      && Distinct(buckets[b])
      && forall i :: 0 <= i < |buckets[b]| ==> GoodEntry(b, buckets[b][i])
    }

    predicate GoodEntry(b: nat, e: Entry) {
      && e.name != "" && hash(e.name) % BUCKETS == b
      && (e.slot.Some? ==> e.slot.value < |names| && names[e.slot.value] == e.name)
    }

    /** Every slot is taken: names and slots correspond one to one. */
    predicate Frozen() {
      |buckets| == BUCKETS && forall k :: 0 <= k < |names| ==> Slot(names[k]) == Some(k)
    }

    lemma SlotIsNamed(name: string)
      requires Valid() && Slot(name).Some?
      ensures Slot(name).value < |names| && names[Slot(name).value] == name
    {
      var b := hash(name) % BUCKETS;
      assert GoodBucket(b);
      var p := Position(buckets[b], name);
      assert GoodEntry(b, buckets[b][p.value]);
    }

    lemma StoredIsFound(b: nat, i: nat)
      requires Valid() && b < BUCKETS && i < |buckets[b]|
      ensures Find(buckets[b][i].name) == Some(buckets[b][i])
    {
      assert GoodBucket(b) && GoodEntry(b, buckets[b][i]);
      PositionIs(buckets[b], i);
    }
  }

  /** Two selectors have the same slot only if they have the same name. */
  lemma SlotsAreOneToOne(t: Interned, a: string, b: string)
    requires t.Valid() && t.Slot(a).Some? && t.Slot(b).Some?
    ensures t.Slot(a) == t.Slot(b) <==> a == b
  {
    t.SlotIsNamed(a);
    t.SlotIsNamed(b);
  }

  // ---------------------------------------------------------------- freezing

  /** The names of the first `n` entries of a bucket whose frozen copy could be made. */
  function FrozenNames(list: seq<Entry>, fits: string -> bool, n: nat): seq<string>
    requires n <= |list|
  {
    if n == 0 then []
    else FrozenNames(list, fits, n - 1) + if fits(list[n - 1].name) then [list[n - 1].name] else []
  }

  /** One bucket frozen: slots are given in list order to those entries, from `first` on. */
  function FreezeEntry(list: seq<Entry>, fits: string -> bool, first: nat, i: nat): Entry
    requires i < |list|
  {
    list[i].(slot := if fits(list[i].name) then Some(first + |FrozenNames(list, fits, i)|) else None)
  }

  function FreezeBucket(list: seq<Entry>, fits: string -> bool, first: nat): seq<Entry> {
    seq(|list|, i requires 0 <= i < |list| => FreezeEntry(list, fits, first, i))
  }

  lemma {:induction false} FrozenNamesGrow(list: seq<Entry>, fits: string -> bool, i: nat, n: nat)
    requires i <= n <= |list|
    ensures FrozenNames(list, fits, i) <= FrozenNames(list, fits, n)
    decreases n
  {
    if i < n { FrozenNamesGrow(list, fits, i, n - 1); }
  }

  /** What freezing makes of an entry: its slot leads to its name among all of the bucket's. */
  lemma {:induction false} FreezeBucketIs(list: seq<Entry>, fits: string -> bool, before: seq<string>, i: nat)
    requires i < |list| && fits(list[i].name)
    ensures var (k, all) := (|before| + |FrozenNames(list, fits, i)|, before + FrozenNames(list, fits, |list|));
            k < |all| && all[k] == list[i].name
  {
    FrozenNamesGrow(list, fits, i + 1, |list|);
    assert FrozenNames(list, fits, i + 1)[|FrozenNames(list, fits, i)|] == list[i].name;
  }

  /** And back: each name frozen in the bucket belongs to an entry with that slot. */
  lemma {:induction false} FrozenNameIs(list: seq<Entry>, fits: string -> bool, n: nat, k: nat) returns (i: nat)
    requires n <= |list| && k < |FrozenNames(list, fits, n)|
    ensures i < n && list[i].name == FrozenNames(list, fits, n)[k] && fits(list[i].name)
    ensures |FrozenNames(list, fits, i)| == k
    decreases n
  {
    if k < |FrozenNames(list, fits, n - 1)| {
      i := FrozenNameIs(list, fits, n - 1, k);
    } else {
      i := n - 1;
    }
  }

  /** The names frozen in the first `b` buckets, in slot order. */
  function AllNames(buckets: seq<seq<Entry>>, fits: string -> bool, b: nat): seq<string>
    requires b <= |buckets|
  {
    if b == 0 then [] else AllNames(buckets, fits, b - 1) + FrozenNames(buckets[b - 1], fits, |buckets[b - 1]|)
  }

  lemma {:induction false} AllNamesGrow(buckets: seq<seq<Entry>>, fits: string -> bool, b: nat, c: nat)
    requires b <= c <= |buckets|
    ensures AllNames(buckets, fits, b) <= AllNames(buckets, fits, c)
    decreases c
  {
    if b < c { AllNamesGrow(buckets, fits, b, c - 1); }
  }

  function FreezeAll(t: Interned, fits: string -> bool): Interned
    requires |t.buckets| == BUCKETS
  {
    Interned(t.hash, seq(BUCKETS, b requires 0 <= b < BUCKETS => FrozenBucket(t, fits, b)),
      AllNames(t.buckets, fits, BUCKETS))
  }

  lemma FreezeAllIs(t: Interned, fits: string -> bool, buckets: seq<seq<Entry>>)
    requires |t.buckets| == |buckets| == BUCKETS && forall b :: 0 <= b < BUCKETS ==>
             buckets[b] == FrozenBucket(t, fits, b)
    ensures FreezeAll(t, fits) == Interned(t.hash, buckets, AllNames(t.buckets, fits, BUCKETS))
  {
    hide FrozenBucket, AllNames;
  }

  function FrozenBucket(t: Interned, fits: string -> bool, b: nat): seq<Entry>
    requires |t.buckets| == BUCKETS && b < BUCKETS
  {
    FreezeBucket(t.buckets[b], fits, |AllNames(t.buckets, fits, b)|)
  }

  /** An entry of a frozen bucket. */
  lemma FrozenEntry(t: Interned, fits: string -> bool, b: nat, i: nat)
    requires t.Valid() && b < BUCKETS && i < |t.buckets[b]|
    ensures var (f, e) := (FreezeAll(t, fits), t.buckets[b][i]);
            && i < |f.buckets[b]| && f.buckets[b][i].name == e.name && f.buckets[b][i].types == e.types
            && (f.buckets[b][i].slot.Some? <==> fits(e.name)) && f.GoodEntry(b, f.buckets[b][i])
  {
    var e, before := t.buckets[b][i], AllNames(t.buckets, fits, b);
    assert t.GoodBucket(b) && t.GoodEntry(b, e);
    var f := FreezeAll(t, fits);
    assert f.buckets[b] == FrozenBucket(t, fits, b) && f.buckets[b][i] == FreezeEntry(t.buckets[b], fits, |before|, i);
    hide FreezeBucket, FreezeAll;
    SlotWithin(t, fits, b, i);
  }

  lemma {:induction false} SlotWithin(t: Interned, fits: string -> bool, b: nat, i: nat)
    requires |t.buckets| == BUCKETS && b < BUCKETS && i < |t.buckets[b]|
    ensures fits(t.buckets[b][i].name) ==>
              var (k, all) := (|AllNames(t.buckets, fits, b)| + |FrozenNames(t.buckets[b], fits, i)|,
                AllNames(t.buckets, fits, BUCKETS));
              k < |all| && all[k] == t.buckets[b][i].name
  {
    if fits(t.buckets[b][i].name) {
      var before := AllNames(t.buckets, fits, b);
      FreezeBucketIs(t.buckets[b], fits, before, i);
      AllNamesGrow(t.buckets, fits, b + 1, BUCKETS);
      assert AllNames(t.buckets, fits, b + 1) == before + FrozenNames(t.buckets[b], fits, |t.buckets[b]|);
      hide FrozenNames;
    }
  }

  lemma FreezeIsValid(t: Interned, fits: string -> bool)
    requires t.Valid()
    ensures FreezeAll(t, fits).Valid()
  {
    var f := FreezeAll(t, fits);
    forall b | 0 <= b < BUCKETS ensures f.GoodBucket(b) {
      assert t.GoodBucket(b);
      forall i | 0 <= i < |f.buckets[b]| ensures f.GoodEntry(b, f.buckets[b][i]) { FrozenEntry(t, fits, b, i); }
    }
  }

  /** Freezing keeps every name and its types, and gives a slot to exactly those that fit. */
  lemma FreezeKeepsNames(t: Interned, fits: string -> bool, name: string)
    requires t.Valid()
    ensures var f := FreezeAll(t, fits);
            && f.Find(name).Some? == t.Find(name).Some?
            && (t.Find(name).Some? ==> f.Find(name).value.types == t.Find(name).value.types)
            && (f.Slot(name).Some? <==> t.Find(name).Some? && fits(name))
  {
    var f := FreezeAll(t, fits);
    var b := t.hash(name) % BUCKETS;
    FreezeIsValid(t, fits);
    var p, q := Position(t.buckets[b], name), Position(f.buckets[b], name);
    if p.Some? {
      FrozenEntry(t, fits, b, p.value);
      assert f.GoodBucket(b);
      PositionIs(f.buckets[b], p.value);
    } else if q.Some? {
      FrozenEntry(t, fits, b, q.value);
    }
  }

  lemma {:induction false} SlotOfName(t: Interned, fits: string -> bool, c: nat, k: nat) returns (b: nat, i: nat)
    requires |t.buckets| == BUCKETS && c <= BUCKETS && k < |AllNames(t.buckets, fits, c)|
    ensures b < BUCKETS && i < |t.buckets[b]| && t.buckets[b][i].name == AllNames(t.buckets, fits, c)[k]
    ensures FrozenBucket(t, fits, b)[i].slot == Some(k)
    decreases c
  {
    var before := AllNames(t.buckets, fits, c - 1);
    if k < |before| {
      b, i := SlotOfName(t, fits, c - 1, k);
    } else {
      b := c - 1;
      i := FrozenNameIs(t.buckets[b], fits, |t.buckets[b]|, k - |before|);
    }
  }

  /** Slots are dense: the frozen names are numbered from zero without a gap, each with its own slot. */
  lemma FreezeIsDense(t: Interned, fits: string -> bool)
    requires t.Valid()
    ensures FreezeAll(t, fits).Frozen()
  {
    var f := FreezeAll(t, fits);
    FreezeIsValid(t, fits);
    forall k | 0 <= k < |f.names| ensures f.Slot(f.names[k]) == Some(k) {
      var b, i := SlotOfName(t, fits, BUCKETS, k);
      FrozenEntry(t, fits, b, i);
      f.StoredIsFound(b, i);
    }
  }

  /** Nothing frozen: what is left when the slot array itself cannot be allocated. */
  function Thaw(t: Interned): Interned
    requires |t.buckets| == BUCKETS
  {
    t.(buckets := seq(BUCKETS, b requires 0 <= b < BUCKETS => ThawBucket(t.buckets[b])))
  }

  function ThawBucket(list: seq<Entry>): seq<Entry> {
    seq(|list|, i requires 0 <= i < |list| => list[i].(slot := None))
  }

  lemma ThawIsValid(t: Interned)
    requires t.Valid()
    ensures Thaw(t).Valid()
    ensures forall b, i :: 0 <= b < BUCKETS && 0 <= i < |t.buckets[b]| ==> Thaw(t).buckets[b][i].slot.None?
  {
    var f := Thaw(t);
    forall b | 0 <= b < BUCKETS ensures f.GoodBucket(b) {
      assert t.GoodBucket(b);
      forall i | 0 <= i < |f.buckets[b]| ensures f.GoodEntry(b,
        f.buckets[b][i]) { assert t.GoodEntry(b, t.buckets[b][i]); }
    }
  }

  predicate SameNames(a: seq<Entry>, b: seq<Entry>) {
    |a| == |b| && forall i :: 0 <= i < |a| ==> SameName(a, b, i)
  }

  predicate SameName(a: seq<Entry>, b: seq<Entry>, i: nat)
    requires i < |a| == |b|
  {
    a[i].name == b[i].name && a[i].types == b[i].types
  }

  lemma {:induction false} NamesSame(a: seq<Entry>, b: seq<Entry>, fits: string -> bool, n: nat)
    requires SameNames(a, b) && n <= |a|
    ensures FrozenNames(a, fits, n) == FrozenNames(b, fits, n)
    decreases n
  {
    if n > 0 {
      NamesSame(a, b, fits, n - 1);
      assert SameName(a, b, n - 1);
    }
  }

  lemma {:induction false} FreezeSame(a: seq<Entry>, b: seq<Entry>, fits: string -> bool, first: nat)
    requires SameNames(a, b)
    ensures FreezeBucket(a, fits, first) == FreezeBucket(b, fits, first)
    ensures FrozenNames(a, fits, |a|) == FrozenNames(b, fits, |b|)
  {
    NamesSame(a, b, fits, |a|);
    forall i | 0 <= i < |a| ensures FreezeEntry(a, fits, first, i) == FreezeEntry(b, fits, first, i) {
      assert SameName(a, b, i);
      NamesSame(a, b, fits, i);
    }
    hide FreezeEntry, FrozenNames, SameNames;
  }

  lemma ThawedIsSame(list: seq<Entry>)
    ensures SameNames(ThawBucket(list), list)
  {
    forall i | 0 <= i < |list| ensures SameName(ThawBucket(list), list, i) {
    }
  }

  class Table {
    const hash: string -> nat
    const buckets: array<seq<Entry>>
    var names: seq<string>

    function View(): Interned
      reads this, buckets
    {
      Interned(hash, buckets[..], names)
    }

    ghost predicate Valid()
      reads this, buckets
    {
      View().Valid()
    }

    constructor (hash: string -> nat)
      ensures Valid() && fresh(buckets) && this.hash == hash
      ensures forall name :: View().Find(name) == None
    {
      this.hash := hash;
      buckets := new seq<Entry>[BUCKETS](_ => []);
      names := [];
    }

    /** sf_selector_entry_for_name_unlocked. */
    method Find(name: string) returns (r: Option<Entry>)
      requires Valid()
      ensures r == View().Find(name)
    {
      var list := buckets[hash(name) % BUCKETS];
      if name == "" {
        assert View().GoodBucket(hash(name) % BUCKETS);
        NoEmptyName(View(), hash(name) % BUCKETS);
        return None;
      }
      var i := 0;
      while i < |list|
        invariant i <= |list| && forall j :: 0 <= j < i ==> list[j].name != name
      {
        if list[i].name == name {
          assert View().GoodBucket(hash(name) % BUCKETS);
          PositionIs(list, i);
          return Some(list[i]);
        }
        i := i + 1;
      }
      return None;
    }

    /** sf_selector_entry_insert_unlocked: a known name may gain its types; a new one goes in front of
        its bucket, if there is room for it. */
    method Insert(name: string, types: Option<string>, room: bool)
      requires Valid()
      modifies buckets
      ensures Valid()
      ensures name == "" ==> View() == old(View())
      ensures forall m :: m != name ==> View().Find(m) == old(View()).Find(m)
      ensures name != "" ==>
                var was := old(View()).Find(name);
                View().Find(name) ==
                  if was.Some? then Some(was.value.(types := if was.value.types.None? && room then types
                    else was.value.types))
                  else if room then Some(Entry(name, types, None))
                  else None
    {
      if name == "" {
        return;
      }
      ghost var was := View();
      var b := hash(name) % BUCKETS;
      var list := buckets[b];
      assert was.GoodBucket(b);
      var i := 0;
      while i < |list|
        invariant i <= |list| && forall j :: 0 <= j < i ==> list[j].name != name
      {
        if list[i].name == name {
          PositionIs(list, i);
          if list[i].types.None? && types.Some? && room {
            Retyped(was, b, i, types);
            buckets[b] := list[i := list[i].(types := types)];
            assert View() == was.(buckets := was.buckets[b := list[i := list[i].(types := types)]]);
          }
          return;
        }
        i := i + 1;
      }
      if !room {
        return;
      }
      Prepended(was, b, Entry(name, types, None));
      buckets[b] := [Entry(name, types, None)] + list;
      assert View() == was.(buckets := was.buckets[b := [Entry(name, types, None)] + list]);
    }

    /** sf_rebuild_frozen_selectors_unlocked, after collection: all frozen copies are dropped and slots
        are handed out again in bucket order. `room` says whether the slot array can be allocated, `fits`
        which frozen copies can. */
    method Freeze(room: bool, fits: string -> bool)
      requires Valid()
      modifies this, buckets
      ensures Valid()
      ensures View() == if room then FreezeAll(old(View()), fits) else Thaw(old(View()))
      ensures room ==> View().Frozen()
    {
      ghost var was := View();
      FreezeIsValid(was, fits);
      FreezeIsDense(was, fits);
      ThawIsValid(was);
      DropAll();
      if !room {
        return;
      }
      FreezeBuckets(fits, was);
    }

    method DropAll()
      modifies buckets
      requires Valid()
      ensures View() == Thaw(old(View()))
    {
      ghost var was := buckets[..];
      for b := 0 to BUCKETS
        invariant forall c :: 0 <= c < BUCKETS ==> buckets[c] == if c < b then ThawBucket(was[c]) else was[c]
      {
        buckets[b] := DropFrozen(buckets[b]);
      }
      assert buckets[..] == Thaw(old(View())).buckets;
    }

    method FreezeBuckets(fits: string -> bool, ghost was: Interned)
      requires was.Valid() && View() == Thaw(was)
      modifies this, buckets
      ensures View() == FreezeAll(was, fits)
    {
      hide FreezeBucket, ThawBucket, FrozenNames, FreezeAll;
      var dense: seq<string> := [];
      for b := 0 to BUCKETS
        invariant forall c :: 0 <= c < BUCKETS ==>
                    buckets[c] == if c < b then FrozenBucket(was, fits, c) else ThawBucket(was.buckets[c])
        invariant dense == AllNames(was.buckets, fits, b)
      {
        ThawedIsSame(was.buckets[b]);
        FreezeSame(buckets[b], was.buckets[b], fits, |dense|);
        var list, more := FreezeEntries(buckets[b], fits, |dense|);
        buckets[b] := list;
        dense := dense + more;
      }
      names := dense;
      FreezeAllIs(was, fits, buckets[..]);
    }

    method DropFrozen(list: seq<Entry>) returns (r: seq<Entry>)
      ensures r == ThawBucket(list)
    {
      r := list;
      for i := 0 to |list|
        invariant |r| == |list| && forall j :: 0 <= j < |list| ==> r[j] == if j < i then list[j].(slot := None)
                  else list[j]
      {
        r := r[i := r[i].(slot := None)];
      }
    }

    /** The freezing loop over one bucket. */
    method FreezeEntries(list: seq<Entry>, fits: string -> bool, first: nat) returns (r: seq<Entry>, more: seq<string>)
      ensures r == FreezeBucket(list, fits, first) && more == FrozenNames(list, fits, |list|)
    {
      r, more := list, [];
      for i := 0 to |list|
        invariant |r| == |list| && more == FrozenNames(list, fits, i)
        invariant forall j :: 0 <= j < |list| ==> r[j] == if j < i then FreezeEntry(list, fits, first, j) else list[j]
      {
        if fits(list[i].name) {
          r := r[i := r[i].(slot := Some(first + |more|))];
          more := more + [list[i].name];
        } else {
          r := r[i := r[i].(slot := None)];
        }
      }
    }
  }

  lemma UpdatedPositions(list: seq<Entry>, i: nat, e: Entry, name: string)
    requires Distinct(list) && i < |list| && e.name == list[i].name
    ensures Position(list[i := e], name) == Position(list, name)
  {
    var p, q := Position(list, name), Position(list[i := e], name);
    if p.Some? { PositionIs(list[i := e], p.value); }
    if q.Some? { PositionIs(list, q.value); }
  }

  lemma Retyped(was: Interned, b: nat, i: nat, types: Option<string>)
    requires was.Valid() && b < BUCKETS && i < |was.buckets[b]|
    ensures var e := was.buckets[b][i].(types := types);
            var now := was.(buckets := was.buckets[b := was.buckets[b][i := e]]);
            && now.Valid() && now.Find(e.name) == Some(e)
            && forall m :: m != e.name ==> now.Find(m) == was.Find(m)
  {
    var list := was.buckets[b];
    var e := list[i].(types := types);
    var now := was.(buckets := was.buckets[b := list[i := e]]);
    assert was.GoodBucket(b) && was.GoodEntry(b, list[i]);
    assert now.GoodBucket(b) by {
      forall j | 0 <= j < |list| ensures now.GoodEntry(b, now.buckets[b][j]) { assert was.GoodEntry(b, list[j]); }
    }
    OthersGood(was, now, b);
    forall m | m != e.name ensures now.Find(m) == was.Find(m) { UpdatedPositions(list, i, e, m); }
    PositionIs(now.buckets[b], i);
  }

  lemma Prepended(was: Interned, b: nat, e: Entry)
    requires was.Valid() && b < BUCKETS && e.name != "" && was.hash(e.name) % BUCKETS == b && e.slot.None?
    requires forall j :: 0 <= j < |was.buckets[b]| ==> was.buckets[b][j].name != e.name
    ensures var now := was.(buckets := was.buckets[b := [e] + was.buckets[b]]);
            && now.Valid() && was.Find(e.name) == None && now.Find(e.name) == Some(e)
            && forall m :: m != e.name ==> now.Find(m) == was.Find(m)
  {
    var list := was.buckets[b];
    var now := was.(buckets := was.buckets[b := [e] + list]);
    assert was.GoodBucket(b);
    assert now.GoodBucket(b) by {
      forall j | 0 <= j < |now.buckets[b]| ensures now.GoodEntry(b, now.buckets[b][j]) {
        if j > 0 { assert was.GoodEntry(b, list[j - 1]); }
      }
    }
    OthersGood(was, now, b);
    assert ([e] + list)[1..] == list;
    PositionIs(now.buckets[b], 0);
  }

  lemma OthersGood(was: Interned, now: Interned, b: nat)
    requires was.Valid() && b < BUCKETS && now.hash == was.hash && now.names == was.names && |now.buckets| == BUCKETS
    requires now.GoodBucket(b) && forall c :: 0 <= c < BUCKETS && c != b ==> now.buckets[c] == was.buckets[c]
    ensures now.Valid()
  {
    forall c | 0 <= c < BUCKETS ensures now.GoodBucket(c) {
      if c != b {
        assert was.GoodBucket(c);
        forall i | 0 <= i < |now.buckets[c]| ensures now.GoodEntry(c, now.buckets[c][i]) {
          assert was.GoodEntry(c, was.buckets[c][i]);
        }
      }
    }
  }

  lemma NoEmptyName(t: Interned, b: nat)
    requires t.Valid() && b < BUCKETS
    ensures Position(t.buckets[b], "") == None
  {
    assert t.GoodBucket(b);
    var p := Position(t.buckets[b], "");
    if p.Some? { NoEmptyEntry(t, b, p.value); }
  }

  lemma NoEmptyEntry(t: Interned, b: nat, i: nat)
    requires t.Valid() && b < BUCKETS && i < |t.buckets[b]|
    ensures t.buckets[b][i].name != ""
  {
    assert t.GoodBucket(b) && t.GoodEntry(b, t.buckets[b][i]);
  }
}
