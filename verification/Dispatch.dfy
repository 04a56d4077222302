/** Per-class dispatch tables against the superclass walk. */
module Dispatch {

  import opened Wrappers
  import opened Selectors

  type ClassId = nat

  /** An implementation's address; zero is none. */
  type Imp = nat

  type Receiver = nat

  /** A method whose selector could not be canonicalised has none. */
  datatype Method = Method(selector: Option<string>, imp: Imp)

  /** The root's superclass is nil or the root itself. */
  datatype Class = Class(superclass: Option<ClassId>, lists: seq<seq<Method>>)

  // ---------------------------------------------------------------- the superclass walk

  /** The method lists in the order both readers go through them. */
  function Flat(lists: seq<seq<Method>>): seq<Method> {
    if lists == [] then [] else Flat(lists[..|lists| - 1]) + lists[|lists| - 1]
  }

  /** The first and the last of a class's methods for a selector. */
  function First(ms: seq<Method>, name: string): Option<Method> {
    if ms == [] then None
    else if First(ms[..|ms| - 1], name).Some? then First(ms[..|ms| - 1], name)
    else if ms[|ms| - 1].selector == Some(name) then Some(ms[|ms| - 1])
    else None
  }

  function Last(ms: seq<Method>, name: string): Option<Method> {
    if ms == [] then None
    else if ms[|ms| - 1].selector == Some(name) then Some(ms[|ms| - 1])
    else Last(ms[..|ms| - 1], name)
  }

  /** The next class up, if there is one. */
  function Up(classes: seq<Class>, c: ClassId): Option<ClassId>
    requires c < |classes|
  {
    if classes[c].superclass == Some(c) then None else classes[c].superclass
  }

  /** `height` shows that no superclass chain is endless. */
  predicate Hierarchy(classes: seq<Class>, height: seq<nat>) {
    && |height| == |classes|
    && forall c :: 0 <= c < |classes| ==> Lower(classes, height, c)
  }

  predicate Lower(classes: seq<Class>, height: seq<nat>, c: ClassId)
    requires c < |classes| == |height|
  {
    var up := Up(classes, c);
    up.Some? ==> up.value < |classes| && height[up.value] < height[c]
  }

  /** The method a class or its nearest ancestor has first for a selector. */
  function Walk(classes: seq<Class>, height: seq<nat>, c: ClassId, name: string): Option<Method>
    requires Hierarchy(classes, height) && c < |classes|
    decreases height[c]
  {
    assert Lower(classes, height, c);
    var own := First(Flat(classes[c].lists), name);
    if own.Some? then own
    else if Up(classes, c).None? then None
    else Walk(classes, height, Up(classes, c).value, name)
  }

  function WalkImp(classes: seq<Class>, height: seq<nat>, c: ClassId, name: string): Imp
    requires Hierarchy(classes, height) && c < |classes|
  {
    var m := Walk(classes, height, c, name);
    if m.Some? then m.value.imp else 0
  }

  // ---------------------------------------------------------------- the tables

  type Tables = seq<Option<seq<Imp>>>

  /** What the table of a class holds in a slot whose selector the class itself implements, and what in
      any other: nothing, or what the superclass's table holds. */
  predicate GoodSlot(classes: seq<Class>, tables: Tables, t: Interned, c: ClassId, k: nat)
    requires c < |classes| == |tables| && tables[c].Some? && k < |t.names| == |tables[c].value|
  {
    var own := Last(Flat(classes[c].lists), t.names[k]);
    if own.Some? then tables[c].value[k] == own.value.imp
    else
      tables[c].value[k] != 0 ==>
        var up := Up(classes, c);
        && up.Some? && up.value < |tables| && tables[up.value].Some? && k < |tables[up.value].value|
        && tables[up.value].value[k] == tables[c].value[k]
  }

  predicate GoodTable(classes: seq<Class>, tables: Tables, t: Interned, c: ClassId)
    requires c < |classes| == |tables| && |t.buckets| == BUCKETS
  {
    tables[c].Some? ==>
      |tables[c].value| == |t.names|
      && forall k :: 0 <= k < |t.names| && t.Slot(t.names[k]) == Some(k) ==> GoodSlot(classes, tables, t, c, k)
  }

  predicate GoodTables(classes: seq<Class>, tables: Tables, t: Interned) {
    && |tables| == |classes| && t.Valid()
    && forall c :: 0 <= c < |classes| ==> GoodTable(classes, tables, t, c)
  }

  /** sf_lookup_dtable_imp as a function of the tables. */
  function TableImp(tables: Tables, t: Interned, c: ClassId, name: string): Imp
    requires c < |tables| && t.Valid()
  {
    if tables[c].None? || t.Slot(name).None? || t.Slot(name).value >= |tables[c].value| then 0
    else tables[c].value[t.Slot(name).value]
  }

  /** sf_lookup_imp_in_class: the table first, the walk when it has nothing. */
  function Resolved(classes: seq<Class>, height: seq<nat>, tables: Tables, t: Interned, c: ClassId, name: string): Imp
    requires Hierarchy(classes, height) && c < |classes| == |tables| && t.Valid()
  {
    if TableImp(tables, t, c, name) != 0 then TableImp(tables, t, c, name) else WalkImp(classes, height, c, name)
  }

  /** The table keeps a class's last method for a selector, the walk finds its first: they must be the
      same implementation, or the last one none. */
  predicate Fair(cls: Class, name: string) {
    var first, last := First(Flat(cls.lists), name), Last(Flat(cls.lists), name);
    first.Some? && last.Some? ==> last.value.imp == 0 || last.value.imp == first.value.imp
  }

  lemma {:induction false} FirstAndLast(ms: seq<Method>, name: string)
    ensures First(ms, name).Some? <==> Last(ms, name).Some?
    decreases |ms|
  {
    if ms != [] { FirstAndLast(ms[..|ms| - 1], name); }
  }

  /** A non-null entry is what the walk finds, as long as every class with a table above is fair. */
  lemma {:induction false} EntryIsWalk(classes: seq<Class>, height: seq<nat>, tables: Tables, t: Interned, c: ClassId,
                                       name: string)
    requires Hierarchy(classes, height) && GoodTables(classes, tables, t) && c < |classes|
    requires forall d :: 0 <= d < |classes| && tables[d].Some? ==> Fair(classes[d], name)
    requires TableImp(tables, t, c, name) != 0
    ensures TableImp(tables, t, c, name) == WalkImp(classes, height, c, name)
    decreases height[c]
  {
    t.SlotIsNamed(name);
    var k := t.Slot(name).value;
    assert Lower(classes, height, c) && GoodTable(classes, tables, t, c) && GoodSlot(classes, tables, t, c, k);
    FirstAndLast(Flat(classes[c].lists), name);
    assert Fair(classes[c], name);
    if First(Flat(classes[c].lists), name).None? {
      var up := Up(classes, c).value;
      assert GoodTable(classes, tables, t, up);
      EntryIsWalk(classes, height, tables, t, up, name);
    }
  }

  /** Tables and walk agree on a selector for every class exactly when each class that has a table is
      fair in it. Missing tables do no harm. */
  lemma LookupIsWalk(classes: seq<Class>, height: seq<nat>, tables: Tables, t: Interned, name: string)
    requires Hierarchy(classes, height) && GoodTables(classes, tables, t) && t.Slot(name).Some?
    ensures (forall c :: 0 <= c < |classes| ==>
            Resolved(classes, height, tables, t, c, name) == WalkImp(classes, height, c, name))
            <==> (forall c :: 0 <= c < |classes| && tables[c].Some? ==> Fair(classes[c], name))
  {
    if forall c :: 0 <= c < |classes| && tables[c].Some? ==> Fair(classes[c], name) {
      forall c | 0 <= c < |classes| ensures Resolved(classes, height, tables, t, c, name) == WalkImp(classes, height,
        c, name) {
        if TableImp(tables, t, c, name) != 0 { EntryIsWalk(classes, height, tables, t, c, name); }
      }
    }
    if forall c :: 0 <= c < |classes| ==>
      Resolved(classes, height, tables, t, c, name) == WalkImp(classes, height, c, name) {
      forall c | 0 <= c < |classes| && tables[c].Some? ensures Fair(classes[c], name) {
        t.SlotIsNamed(name);
        assert GoodTable(classes, tables, t, c) && GoodSlot(classes, tables, t, c, t.Slot(name).value);
        assert Resolved(classes, height, tables, t, c, name) == WalkImp(classes, height, c, name);
        FirstAndLast(Flat(classes[c].lists), name);
      }
    }
  }

  /** A frozen table with the selector "m" in slot 0 and no other, whatever the hash function. */
  function OneSelector(hash: string -> nat): Interned {
    Interned(hash, seq(BUCKETS, b => if b == hash("m") % BUCKETS then [Entry("m", None, Some(0))] else []), ["m"])
  }

  lemma OneSelectorIsValid(hash: string -> nat)
    ensures OneSelector(hash).Valid() && OneSelector(hash).Slot("m") == Some(0)
  {
    var t := OneSelector(hash);
    forall b | 0 <= b < BUCKETS ensures t.GoodBucket(b) {}
  }

  const TWO_METHODS: seq<Class> := [Class(None, [[Method(Some("m"), 1), Method(Some("m"), 2)]])]

  lemma FirstAndSecond()
    ensures var ms := Flat(TWO_METHODS[0].lists);
            First(ms, "m") == Some(Method(Some("m"), 1)) && Last(ms, "m") == Some(Method(Some("m"), 2))
  {
    var ms := [Method(Some("m"), 1), Method(Some("m"), 2)];
    FlatStep([ms], 0);
    assert [ms][..1] == [ms] && Flat([ms]) == ms;
    FirstStep([], ms[0], "m");
    FirstStep([ms[0]], ms[1], "m");
    assert ms == [ms[0]] + [ms[1]] && [] + [ms[0]] == [ms[0]];
  }

  /** One class with two methods for a selector: its table has the second, the walk finds the first. */
  lemma TwoMethodsDiffer(hash: string -> nat)
    ensures var classes, tables, t := TWO_METHODS, [Some([2])], OneSelector(hash);
            && Hierarchy(classes, [0]) && GoodTables(classes, tables, t) && !Fair(classes[0], "m")
            && Resolved(classes, [0], tables, t, 0, "m") == 2 && WalkImp(classes, [0], 0, "m") == 1
  {
    var classes, tables, t := TWO_METHODS, [Some([2])], OneSelector(hash);
    FirstAndSecond();
    OneSelectorIsValid(hash);
    hide Flat, First, Last, Interned.Valid, Interned.Slot;
    assert Lower(classes, [0], 0);
    assert t.names == ["m"] && |t.buckets| == BUCKETS;
    assert GoodSlot(classes, tables, t, 0, 0);
    assert GoodTable(classes, tables, t, 0);
  }

  /** At most one method for each selector. */
  predicate OneEach(ms: seq<Method>) {
    forall i, j :: 0 <= i < j < |ms| && ms[i].selector.Some? ==> ms[i].selector != ms[j].selector
  }

  lemma {:induction false} OneEachIsFair(ms: seq<Method>, name: string)
    requires OneEach(ms)
    ensures First(ms, name) == Last(ms, name)
    decreases |ms|
  {
    if ms != [] {
      var rest := ms[..|ms| - 1];
      OneEachIsFair(rest, name);
      if ms[|ms| - 1].selector == Some(name) { NotEarlier(rest, name); }
    }
  }

  lemma {:induction false} NotEarlier(ms: seq<Method>, name: string)
    requires forall i :: 0 <= i < |ms| ==> ms[i].selector != Some(name)
    ensures First(ms, name).None?
    decreases |ms|
  {
    if ms != [] { NotEarlier(ms[..|ms| - 1], name); }
  }

  /** The usual case: with one method per selector in every class, lookup is the walk, for every class
      and every selector, frozen or not, whichever tables could be allocated. */
  lemma UsualLookupIsWalk(classes: seq<Class>, height: seq<nat>, tables: Tables, t: Interned, c: ClassId, name: string)
    requires Hierarchy(classes, height) && GoodTables(classes, tables, t) && c < |classes|
    requires forall d :: 0 <= d < |classes| ==> OneEach(Flat(classes[d].lists))
    ensures Resolved(classes, height, tables, t, c, name) == WalkImp(classes, height, c, name)
  {
    forall d | 0 <= d < |classes| ensures Fair(classes[d], name) { OneEachIsFair(Flat(classes[d].lists), name); }
    if t.Slot(name).Some? { LookupIsWalk(classes, height, tables, t, name); }
  }

  // ---------------------------------------------------------------- the runtime

  lemma FlatStep(lists: seq<seq<Method>>, i: nat)
    requires i < |lists|
    ensures Flat(lists[..i + 1]) == Flat(lists[..i]) + lists[i]
  {
    assert lists[..i + 1][..i] == lists[..i];
  }

  lemma {:induction false} FirstStep(ms: seq<Method>, m: Method, name: string)
    ensures First(ms + [m], name) == if First(ms, name).Some? then First(ms, name)
            else if m.selector == Some(name) then Some(m) else None
    ensures Last(ms + [m], name) == if m.selector == Some(name) then Some(m) else Last(ms, name)
  {
    assert (ms + [m])[..|ms|] == ms;
  }

  lemma {:induction false} FirstOfMore(ms: seq<Method>, more: seq<Method>, name: string)
    requires First(ms, name).Some?
    ensures First(ms + more, name) == First(ms, name)
    decreases |more|
  {
    if more == [] {
      assert ms + more == ms;
    } else {
      FirstOfMore(ms, more[..|more| - 1], name);
      assert ms + more == ms + more[..|more| - 1] + [more[|more| - 1]];
      FirstStep(ms + more[..|more| - 1], more[|more| - 1], name);
    }
  }

  lemma {:induction false} FlatPrefix(lists: seq<seq<Method>>, i: nat, j: nat, name: string)
    requires i < |lists| && j <= |lists[i]| && First(Flat(lists[..i]) + lists[i][..j], name).Some?
    ensures First(Flat(lists), name) == First(Flat(lists[..i]) + lists[i][..j], name)
    decreases |lists|
  {
    var n := |lists| - 1;
    if i == n {
      assert lists[..n] == lists[..i];
      FirstOfMore(Flat(lists[..i]) + lists[i][..j], lists[i][j..], name);
      assert Flat(lists[..i]) + lists[i][..j] + lists[i][j..] == Flat(lists[..i]) + lists[i];
    } else {
      assert lists[..n][..i] == lists[..i];
      FlatPrefix(lists[..n], i, j, name);
      FirstOfMore(Flat(lists[..n]), lists[n], name);
    }
  }

  lemma {:induction false} FlatEnds(lists: seq<seq<Method>>, name: string)
    ensures First(Flat(lists[..0]), name) == None && lists[..|lists|] == lists
  {
  }

  lemma {:induction false} FlatOpen(lists: seq<seq<Method>>, i: nat)
    requires i < |lists|
    ensures Flat(lists[..i]) + lists[i][..0] == Flat(lists[..i]) && lists[i][..|lists[i]|] == lists[i]
  {
  }

  lemma {:induction false} FlatMore(lists: seq<seq<Method>>, i: nat, j: nat, name: string)
    requires i < |lists| && j < |lists[i]| && First(Flat(lists[..i]) + lists[i][..j], name) == None
    ensures First(Flat(lists[..i]) + lists[i][..j + 1], name) ==
            if lists[i][j].selector == Some(name) then Some(lists[i][j]) else None
  {
    FirstStep(Flat(lists[..i]) + lists[i][..j], lists[i][j], name);
    assert Flat(lists[..i]) + lists[i][..j + 1] == Flat(lists[..i]) + lists[i][..j] + [lists[i][j]];
  }

  /** A class's method for a selector, in list `l` at `k`. */
  predicate Defines(cls: Class, l: nat, k: nat, name: string) {
    l < |cls.lists| && k < |cls.lists[l]| && cls.lists[l][k].selector == Some(name)
  }

  ghost predicate DefinesNone(cls: Class, name: string) {
    forall l: nat, k: nat :: !Defines(cls, l, k, name)
  }

  /** No earlier list has one, and neither has the same list before it. */
  ghost predicate DefinesFirst(cls: Class, l: nat, k: nat, name: string) {
    Defines(cls, l, k, name) && forall i: nat, j: nat :: Defines(cls, i, j, name) ==> l < i || (l == i && k <= j)
  }

  lemma {:induction false} NoneEarlier(cls: Class, l: nat, k: nat, name: string)
    requires l < |cls.lists| && k <= |cls.lists[l]|
    requires forall i: nat, j: nat :: Defines(cls, i, j, name) ==> l < i || (l == i && k <= j)
    ensures First(Flat(cls.lists[..l]) + cls.lists[l][..k], name) == None
    decreases l, k
  {
    if k > 0 {
      assert !Defines(cls, l, k - 1, name);
      NoneEarlier(cls, l, k - 1, name);
      FlatMore(cls.lists, l, k - 1, name);
    } else {
      FlatOpen(cls.lists, l);
      if l > 0 {
        NoneEarlier(cls, l - 1, |cls.lists[l - 1]|, name);
        FlatOpen(cls.lists, l - 1);
        FlatStep(cls.lists, l - 1);
      }
    }
  }

  lemma {:induction false} OwnIsFirst(cls: Class, l: nat, k: nat, name: string)
    requires DefinesFirst(cls, l, k, name)
    ensures First(Flat(cls.lists), name) == Some(cls.lists[l][k])
  {
    NoneEarlier(cls, l, k, name);
    FlatMore(cls.lists, l, k, name);
    FlatPrefix(cls.lists, l, k + 1, name);
  }

  lemma {:induction false} OwnIsNone(cls: Class, name: string)
    requires DefinesNone(cls, name)
    ensures First(Flat(cls.lists), name) == None
  {
    var n := |cls.lists|;
    if n > 0 {
      NoneEarlier(cls, n - 1, |cls.lists[n - 1]|, name);
      FlatOpen(cls.lists, n - 1);
      FlatStep(cls.lists, n - 1);
      assert cls.lists[..n] == cls.lists;
    }
  }

  /** Each class is the superclass of the one before it. */
  predicate Ancestry(classes: seq<Class>, path: seq<ClassId>)
    decreases |path|
  {
    && path != [] && path[0] < |classes|
    && (|path| > 1 ==>
          classes[path[0]].superclass == Some(path[1]) && path[1] != path[0] && Ancestry(classes, path[1..]))
  }

  ghost predicate PassedOver(classes: seq<Class>, path: seq<ClassId>, n: nat, name: string) {
    forall i :: 0 <= i < |path| && i < n ==> path[i] < |classes| && DefinesNone(classes[path[i]], name)
  }

  /** The walk answers the first method of the nearest class up the superclass chain that has one. */
  lemma {:induction false} WalkIsNearest(classes: seq<Class>, height: seq<nat>, path: seq<ClassId>, name: string,
                                         l: nat, k: nat)
    requires Hierarchy(classes, height) && Ancestry(classes, path) && PassedOver(classes, path, |path| - 1, name)
    requires path[|path| - 1] < |classes| && DefinesFirst(classes[path[|path| - 1]], l, k, name)
    ensures Walk(classes, height, path[0], name) == Some(classes[path[|path| - 1]].lists[l][k])
    ensures WalkImp(classes, height, path[0], name) == classes[path[|path| - 1]].lists[l][k].imp
    decreases |path|
  {
    hide DefinesNone, DefinesFirst;
    if |path| == 1 {
      OwnIsFirst(classes[path[0]], l, k, name);
    } else {
      OwnIsNone(classes[path[0]], name);
      assert forall i :: 0 <= i < |path[1..]| ==> path[1..][i] == path[i + 1];
      WalkIsNearest(classes, height, path[1..], name, l, k);
    }
  }

  /** It finds nothing when no class up to the root, whose superclass is nil or itself, has one. */
  lemma {:induction false} WalkFindsNone(classes: seq<Class>, height: seq<nat>, path: seq<ClassId>, name: string)
    requires Hierarchy(classes, height) && Ancestry(classes, path) && PassedOver(classes, path, |path|, name)
    requires path[|path| - 1] < |classes|
    requires classes[path[|path| - 1]].superclass in {None, Some(path[|path| - 1])}
    ensures Walk(classes, height, path[0], name) == None && WalkImp(classes, height, path[0], name) == 0
    decreases |path|
  {
    hide DefinesNone;
    OwnIsNone(classes[path[0]], name);
    if |path| > 1 {
      assert forall i :: 0 <= i < |path[1..]| ==> path[1..][i] == path[i + 1];
      WalkFindsNone(classes, height, path[1..], name);
    }
  }

  class Dispatcher {
    const classes: seq<Class>
    ghost const height: seq<nat>
    const selectors: Table
    var tables: Tables

    ghost predicate Valid()
      reads this, selectors, selectors.buckets
    {
      Hierarchy(classes, height) && selectors.Valid() && GoodTables(classes, tables, selectors.View())
    }

    constructor (classes: seq<Class>, ghost height: seq<nat>, selectors: Table)
      requires Hierarchy(classes, height) && selectors.Valid()
      ensures Valid() && this.classes == classes && this.height == height && this.selectors == selectors
      ensures forall c :: 0 <= c < |tables| ==> tables[c].None?
    {
      this.classes := classes;
      this.height := height;
      this.selectors := selectors;
      tables := seq(|classes|, _ => None);
    }

    /** sf_selector_slot. */
    method Slot(name: string) returns (r: Option<nat>)
      requires Valid()
      ensures r == selectors.View().Slot(name)
    {
      var e := selectors.Find(name);
      r := if e.Some? then e.value.slot else None;
    }

    /** selector_slots_match: by slot when both have one, else by name. */
    method SlotsMatch(a: Option<string>, b: string) returns (r: bool)
      requires Valid()
      ensures r == (a == Some(b))
    {
      if a.None? {
        return false;
      }
      var i := Slot(a.value);
      var j := Slot(b);
      if i.Some? && j.Some? {
        SlotsAreOneToOne(selectors.View(), a.value, b);
        return i == j;
      }
      return a.value == b;
    }

    /** lookup_method_in_class_local. */
    method LookupMethod(c: ClassId, name: string) returns (r: Option<Method>)
      requires Valid() && c < |classes|
      ensures r == Walk(classes, height, c, name)
    {
      var cursor: Option<ClassId> := Some(c);
      while cursor.Some?
        invariant cursor.Some? ==>
                  cursor.value < |classes|
                  && Walk(classes, height, cursor.value, name) == Walk(classes, height, c, name)
        invariant cursor.None? ==> Walk(classes, height, c, name) == None
        decreases if cursor.Some? then 1 + height[cursor.value] else 0
      {
        r := LookupOwn(cursor.value, name);
        if r.Some? {
          return;
        }
        assert Lower(classes, height, cursor.value);
        cursor := if classes[cursor.value].superclass == Some(cursor.value) then None
          else classes[cursor.value].superclass;
      }
      return None;
    }

    /** The two inner loops of the walk, over one class's lists. */
    method LookupOwn(c: ClassId, name: string) returns (r: Option<Method>)
      requires Valid() && c < |classes|
      ensures r == First(Flat(classes[c].lists), name)
    {
      hide Hierarchy, GoodTables, Flat, First;
      var lists := classes[c].lists;
      FlatEnds(lists, name);
      for i := 0 to |lists|
        invariant First(Flat(lists[..i]), name) == None
      {
        FlatOpen(lists, i);
        for j := 0 to |lists[i]|
          invariant First(Flat(lists[..i]) + lists[i][..j], name) == None
        {
          var m := lists[i][j];
          FlatMore(lists, i, j, name);
          var match_ := SlotsMatch(m.selector, name);
          if match_ {
            FlatPrefix(lists, i, j + 1, name);
            return Some(m);
          }
        }
        FlatStep(lists, i);
      }
      return None;
    }

    /** sf_lookup_dtable_imp. */
    method LookupTable(c: ClassId, name: string) returns (imp: Imp)
      requires Valid() && c < |classes|
      ensures imp == TableImp(tables, selectors.View(), c, name)
    {
      if tables[c].None? {
        return 0;
      }
      var slot := Slot(name);
      if slot.None? || slot.value >= |selectors.names| {
        assert GoodTable(classes, tables, selectors.View(), c);
        return 0;
      }
      assert GoodTable(classes, tables, selectors.View(), c);
      return tables[c].value[slot.value];
    }

    /** sf_lookup_imp_in_class. */
    method LookupImp(c: ClassId, name: string) returns (imp: Imp)
      requires Valid() && c < |classes|
      ensures imp == Resolved(classes, height, tables, selectors.View(), c, name)
    {
      imp := LookupTable(c, name);
      if imp != 0 {
        return;
      }
      var m := LookupMethod(c, name);
      imp := if m.Some? then m.value.imp else 0;
    }

    /** sf_build_class_dtable_unlocked: superclasses first; `room` says whose table can be allocated. */
    method BuildTable(c: ClassId, room: set<ClassId>)
      requires Valid() && c < |classes|
      modifies this`tables
      ensures Valid()
      ensures forall d :: 0 <= d < |tables| && old(tables[d]).Some? ==> tables[d] == old(tables[d])
      ensures forall d :: 0 <= d < |tables| && height[d] > height[c] ==> tables[d] == old(tables[d])
      ensures c in room && |selectors.names| > 0 ==> tables[c].Some?
      decreases height[c]
    {
      if tables[c].Some? || |selectors.names| == 0 {
        return;
      }
      assert Lower(classes, height, c);
      var up := Up(classes, c);
      if up.Some? {
        BuildTable(up.value, room);
      }
      if tables[c].Some? {
        return;
      }
      if c !in room {
        return;
      }
      FillTable(c, up);
    }

    /** The methods of one list are written over the table. */
    method WriteList(list: seq<Method>, before: seq<Imp>, ghost base: seq<Imp>,
                     ghost ms: seq<Method>) returns (table: seq<Imp>)
      requires Valid() && Overlaid(before, base, ms, selectors.View())
      ensures Overlaid(table, base, ms + list, selectors.View())
    {
      hide Overlaid, Hierarchy, GoodTables;
      table := before;
      assert ms + list[..0] == ms;
      for j := 0 to |list|
        invariant Overlaid(table, base, ms + list[..j], selectors.View())
      {
        var m := list[j];
        assert ms + list[..j + 1] == ms + list[..j] + [m];
        OverlayStep(table, base, ms + list[..j], m, selectors.View());
        if m.selector.None? {
          continue;
        }
        var slot := Slot(m.selector.value);
        if slot.Some? && slot.value < |table| {
          table := table[slot.value := m.imp];
        }
      }
      assert list[..|list|] == list;
    }

    /** The superclass's table is copied and the class's own methods are written over it. */
    method FillTable(c: ClassId, up: Option<ClassId>)
      requires Valid() && c < |classes| && tables[c].None? && up == Up(classes, c)
      modifies this`tables
      ensures Valid() && tables[c].Some? && tables == old(tables)[c := tables[c]]
    {
      ghost var t := selectors.View();
      assert Lower(classes, height, c);
      var base: seq<Imp> := seq(|selectors.names|, _ => 0);
      if up.Some? && tables[up.value].Some? {
        assert GoodTable(classes, tables, t, up.value);
        base := tables[up.value].value;
      }
      var table: seq<Imp> := base;
      var lists := classes[c].lists;
      for i := 0 to |lists|
        invariant tables == old(tables) && Overlaid(table, base, Flat(lists[..i]), t)
      {
        FlatStep(lists, i);
        table := WriteList(lists[i], table, base, Flat(lists[..i]));
      }
      assert lists[..|lists|] == lists;
      Installed(classes, tables, t, c, table, base);
      tables := tables[c := Some(table)];
    }
  }

  // ---------------------------------------------------------------- forwarding

  const MAX_HOPS: nat := 8

  /** The objects of a program: their classes, and what an object's forwarding method answers. */
  datatype Objects = Objects(classOf: Receiver -> Option<ClassId>, target: (Receiver, string) -> Receiver)

  function ImpOf(classes: seq<Class>, height: seq<nat>, tables: Tables, t: Interned, o: Objects, r: Receiver,
                 name: string): Imp
    requires Hierarchy(classes, height) && |tables| == |classes| && t.Valid()
  {
    var c := o.classOf(r);
    if c.Some? && c.value < |classes| then Resolved(classes, height, tables, t, c.value, name) else 0
  }

  /** A message can be passed on: the class implements forwarding, the selector is not that of
      forwarding itself, and the target is another object. */
  predicate CanHop(classes: seq<Class>, height: seq<nat>, o: Objects, r: Receiver, name: string,
                   forwarding: Option<string>)
    requires Hierarchy(classes, height)
  {
    && forwarding.Some? && forwarding.value != name
    && var c := o.classOf(r);
       && c.Some? && c.value < |classes|
       && WalkImp(classes, height, c.value, forwarding.value) != 0
       && o.target(r, name) != 0 && o.target(r, name) != r
  }

  /** The receiver the message ends at: the first with an implementation, or the last that can be
      reached in the hops left. */
  function Final(classes: seq<Class>, height: seq<nat>, tables: Tables, t: Interned, o: Objects, r: Receiver,
                 name: string,
                 forwarding: Option<string>, hops: nat): Receiver
    requires Hierarchy(classes, height) && |tables| == |classes| && t.Valid()
    decreases hops
  {
    if ImpOf(classes, height, tables, t, o, r, name) != 0 || hops == 0
      || !CanHop(classes, height, o, r, name, forwarding) then r
    else Final(classes, height, tables, t, o, o.target(r, name), name, forwarding, hops - 1)
  }

  /** sf_resolve_message_dispatch: at most eight hops, then one last lookup. */
  method ResolveDispatch(d: Dispatcher, o: Objects, receiver: Receiver, name: string, forwarding: Option<string>)
      returns (last: Receiver, imp: Imp)
    requires d.Valid() && forall r: Receiver :: o.classOf(r).Some? ==> o.classOf(r).value < |d.classes|
    ensures last == Final(d.classes, d.height, d.tables, d.selectors.View(), o, receiver, name, forwarding, MAX_HOPS)
    ensures imp == ImpOf(d.classes, d.height, d.tables, d.selectors.View(), o, last, name)
  {
    hide Resolved, Walk, GoodTable, Lower;
    last := receiver;
    var hops := MAX_HOPS;
    while true
      invariant 0 < hops <= MAX_HOPS
      invariant Final(d.classes, d.height, d.tables, d.selectors.View(), o, last, name, forwarding, hops) ==
                Final(d.classes, d.height, d.tables, d.selectors.View(), o, receiver, name, forwarding, MAX_HOPS)
      decreases hops
    {
      imp := LookupFor(d, o, last, name);
      if imp != 0 {
        return;
      }
      if forwarding.None? || name == forwarding.value {
        break;
      }
      var c := o.classOf(last);
      if c.None? {
        break;
      }
      var m := d.LookupMethod(c.value, forwarding.value);
      if m.None? || m.value.imp == 0 {
        break;
      }
      var target := o.target(last, name);
      if target == 0 || target == last {
        break;
      }
      last := target;
      hops := hops - 1;
      if hops == 0 {
        break;
      }
    }
    imp := LookupFor(d, o, last, name);
  }

  /** sf_lookup_imp. */
  method LookupFor(d: Dispatcher, o: Objects, r: Receiver, name: string) returns (imp: Imp)
    requires d.Valid() && (o.classOf(r).Some? ==> o.classOf(r).value < |d.classes|)
    ensures imp == ImpOf(d.classes, d.height, d.tables, d.selectors.View(), o, r, name)
  {
    var c := o.classOf(r);
    if c.None? {
      return 0;
    }
    imp := d.LookupImp(c.value, name);
  }

  /** A receiver that is passed over has no implementation, and the one answered has one unless the
      message cannot go further. */
  lemma {:induction false} FinalAnswers(classes: seq<Class>, height: seq<nat>, tables: Tables, t: Interned,
                                        o: Objects, r: Receiver,
                                        name: string, forwarding: Option<string>,
                                          hops: nat) returns (path: seq<Receiver>)
    requires Hierarchy(classes, height) && |tables| == |classes| && t.Valid()
    ensures 0 < |path| <= hops + 1 && path[0] == r
    ensures path[|path| - 1] == Final(classes, height, tables, t, o, r, name, forwarding, hops)
    ensures forall i :: 0 <= i < |path| - 1 ==>
              ImpOf(classes, height, tables, t, o, path[i], name) == 0
                && CanHop(classes, height, o, path[i], name, forwarding)
    ensures forall i :: 0 < i < |path| ==> path[i] == o.target(path[i - 1], name)
    ensures ImpOf(classes, height, tables, t, o, path[|path| - 1], name) == 0 ==>
              |path| == hops + 1 || !CanHop(classes, height, o, path[|path| - 1], name, forwarding)
    decreases hops
  {
    hide ImpOf, CanHop;
    path := [r];
    if ImpOf(classes, height, tables, t, o, r, name) == 0 && hops > 0
      && CanHop(classes, height, o, r, name, forwarding) {
      var rest := FinalAnswers(classes, height, tables, t, o, o.target(r, name), name, forwarding, hops - 1);
      path := [r] + rest;
      assert forall i :: 0 < i < |path| ==> path[i] == rest[i - 1];
    }
  }

  /** What the walk from a receiver's own class finds, or none for a receiver without a class. */
  function WalkAt(classes: seq<Class>, height: seq<nat>, o: Objects, r: Receiver, name: string): Imp
    requires Hierarchy(classes, height)
  {
    var c := o.classOf(r);
    if c.Some? && c.value < |classes| then WalkImp(classes, height, c.value, name) else 0
  }

  lemma {:induction false} ImpIsWalk(classes: seq<Class>, height: seq<nat>, tables: Tables, t: Interned, o: Objects,
                                     r: Receiver, name: string)
    requires Hierarchy(classes, height) && GoodTables(classes, tables, t)
    requires forall d :: 0 <= d < |classes| ==> OneEach(Flat(classes[d].lists))
    ensures ImpOf(classes, height, tables, t, o, r, name) == WalkAt(classes, height, o, r, name)
  {
    var c := o.classOf(r);
    if c.Some? && c.value < |classes| {
      UsualLookupIsWalk(classes, height, tables, t, c.value, name);
    }
  }

  /** The object at `i` has no implementation and forwards to the next. */
  predicate Passes(classes: seq<Class>, height: seq<nat>, o: Objects, path: seq<Receiver>, i: nat, name: string,
                   forwarding: Option<string>)
    requires Hierarchy(classes, height) && i + 1 < |path|
  {
    && WalkAt(classes, height, o, path[i], name) == 0
    && forwarding.Some? && forwarding.value != name && WalkAt(classes, height, o, path[i], forwarding.value) != 0
    && path[i + 1] == o.target(path[i], name) && path[i + 1] != 0 && path[i + 1] != path[i]
  }

  /** With one method per selector in every class, a message goes from object to object, each the forwarding target of
      the one before and none with an implementation of its own, for at most eight hops, and is answered by what
      the walk finds from the last one's own class. If that is nothing, eight hops were made, or the last one does
      not forward, or forwards nowhere or to itself, or the message is the forwarding message. */
  lemma {:induction false} AnswerIsWalk(classes: seq<Class>, height: seq<nat>, tables: Tables, t: Interned, o: Objects,
                                        r: Receiver, name: string,
                                        forwarding: Option<string>) returns (path: seq<Receiver>)
    requires Hierarchy(classes, height) && GoodTables(classes, tables, t)
    requires forall d :: 0 <= d < |classes| ==> OneEach(Flat(classes[d].lists))
    ensures 0 < |path| <= 9 && path[0] == r
    ensures var last := path[|path| - 1];
            && last == Final(classes, height, tables, t, o, r, name, forwarding, MAX_HOPS)
            && ImpOf(classes, height, tables, t, o, last, name) == WalkAt(classes, height, o, last, name)
            && (WalkAt(classes, height, o, last, name) == 0 ==>
                  |path| == 9 || forwarding.None? || forwarding.value == name
                  || WalkAt(classes, height, o, last, forwarding.value) == 0
                  || o.target(last, name) == 0 || o.target(last, name) == last)
    ensures forall i :: 0 <= i < |path| - 1 ==> Passes(classes, height, o, path, i, name, forwarding)
  {
    hide GoodTable, Lower, OneEach;
    path := FinalAnswers(classes, height, tables, t, o, r, name, forwarding, MAX_HOPS);
    forall i | 0 <= i < |path|
      ensures ImpOf(classes, height, tables, t, o, path[i], name) == WalkAt(classes, height, o, path[i], name)
    {
      ImpIsWalk(classes, height, tables, t, o, path[i], name);
    }
    forall i | 0 <= i < |path| - 1 ensures Passes(classes, height, o, path, i, name, forwarding) {
      assert path[i + 1] == o.target(path[i + 1 - 1], name);
    }
  }

  /** A table after the methods so far: the last one for each slot, elsewhere the base. */
  predicate Overlaid(table: seq<Imp>, base: seq<Imp>, ms: seq<Method>, t: Interned)
    requires |t.buckets| == BUCKETS
  {
    && |table| == |base| == |t.names|
    && forall k :: 0 <= k < |t.names| && t.Slot(t.names[k]) == Some(k) ==>
         table[k] == if Last(ms, t.names[k]).Some? then Last(ms, t.names[k]).value.imp else base[k]
  }

  lemma OverlayStep(table: seq<Imp>, base: seq<Imp>, ms: seq<Method>, m: Method, t: Interned)
    requires t.Valid() && Overlaid(table, base, ms, t)
    ensures var slot := if m.selector.Some? then t.Slot(m.selector.value) else None;
            Overlaid(if slot.Some? && slot.value < |table| then table[slot.value := m.imp]
              else table, base, ms + [m], t)
  {
    var slot := if m.selector.Some? then t.Slot(m.selector.value) else None;
    if slot.Some? { t.SlotIsNamed(m.selector.value); }
    forall k | 0 <= k < |t.names| && t.Slot(t.names[k]) == Some(k)
      ensures Last(ms + [m], t.names[k]) == if m.selector == Some(t.names[k]) then Some(m) else Last(ms, t.names[k])
    {
      FirstStep(ms, m, t.names[k]);
    }
  }

  lemma Installed(classes: seq<Class>, tables: Tables, t: Interned, c: ClassId, table: seq<Imp>, base: seq<Imp>)
    requires GoodTables(classes, tables, t) && c < |classes| && tables[c].None?
    requires Overlaid(table, base, Flat(classes[c].lists), t)
    requires var up := Up(classes, c);
             if up.Some? && up.value < |tables| && tables[up.value].Some?
               then up.value != c && base == tables[up.value].value
             else forall k :: 0 <= k < |base| ==> base[k] == 0
    ensures GoodTables(classes, tables[c := Some(table)], t)
  {
    var tables1 := tables[c := Some(table)];
    forall d | 0 <= d < |classes| ensures GoodTable(classes, tables1, t, d) {
      assert GoodTable(classes, tables, t, d);
      if tables1[d].Some? {
        forall k | 0 <= k < |t.names| && t.Slot(t.names[k]) == Some(k) ensures GoodSlot(classes, tables1, t, d, k) {
          if d != c { assert GoodSlot(classes, tables, t, d, k); }
        }
      }
    }
  }
}
