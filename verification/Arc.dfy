/** Reference counting as a function on heap values: what retain, release, strong stores and the
    recursive destruction of an object do to the headers and the strong ivar slots.

    An address is an index into the heap, because the runtime reuses the address of a freed block
    for an unrelated object; address 0 is nil. */
module Arc {

  type Addr = nat

  const NIL: Addr := 0

  /** How an object is stored. An embedded value object lives in hidden storage of `parent` and is
      owned by the parent's ivar slot `owner`; an immortal object is built in caller storage. */
  datatype Kind = Ordinary | Embedded(parent: Addr, owner: nat) | Immortal

  /** The part of a header fixed at allocation. `trivial` is the class flag that lets release skip
      dealloc and ivar clearing. */
  datatype Shape = Shape(kind: Kind, trivial: bool)

  datatype Cell = Cell(live: bool, rc: nat, slots: seq<Addr>)

  /** `finalized` records, oldest first, every object whose destruction has begun, and `strays` the embedded objects
      that were still live when the object they lie in was disposed. */
  datatype Heap = Heap(cells: seq<Cell>, finalized: seq<Addr>, strays: set<Addr>)

  type Shapes = seq<Shape>

  // ---------------------------------------------------------------- references held by ivar slots

  /** All slot values of all cells, nil included. */
  function Refs(cells: seq<Cell>): multiset<Addr> {
    if cells == [] then multiset{} else Refs(cells[..|cells| - 1]) + multiset(cells[|cells| - 1].slots)
  }

  /** The number of slots that are not nil: the termination measure of a release cascade. */
  function Held(cells: seq<Cell>): nat {
    if cells == [] then 0 else Held(cells[..|cells| - 1]) + HeldIn(cells[|cells| - 1].slots)
  }

  function HeldIn(slots: seq<Addr>): nat {
    if slots == [] then 0 else HeldIn(slots[..|slots| - 1]) + (if slots[|slots| - 1] == NIL then 0 else 1)
  }

  lemma {:induction false} HeldInUpdate(slots: seq<Addr>, j: nat, v: Addr)
    requires j < |slots|
    ensures HeldIn(slots[j := v]) + (if slots[j] == NIL then 0 else 1) == HeldIn(slots) + (if v == NIL then 0 else 1)
  {
    var n := |slots| - 1;
    if j < n {
      HeldInUpdate(slots[..n], j, v);
      assert slots[j := v][..n] == slots[..n][j := v];
    } else {
      assert slots[j := v][..n] == slots[..n];
    }
  }

  lemma {:induction false} HeldUpdate(cells: seq<Cell>, i: nat, c: Cell)
    requires i < |cells|
    ensures Held(cells[i := c]) + HeldIn(cells[i].slots) == Held(cells) + HeldIn(c.slots)
  {
    var n := |cells| - 1;
    if i < n {
      HeldUpdate(cells[..n], i, c);
      assert cells[i := c][..n] == cells[..n][i := c];
    } else {
      assert cells[i := c][..n] == cells[..n];
    }
  }

  lemma {:induction false} RefsUpdate(cells: seq<Cell>, i: nat, c: Cell)
    requires i < |cells|
    ensures Refs(cells[i := c]) + multiset(cells[i].slots) == Refs(cells) + multiset(c.slots)
  {
    var n := |cells| - 1;
    if i < n {
      RefsUpdate(cells[..n], i, c);
      assert cells[i := c][..n] == cells[..n][i := c];
      var last := multiset(cells[n].slots);
      var before, after := Refs(cells[..n]), Refs(cells[..n][i := c]);
      assert (after + last) + multiset(cells[i].slots) == (after + multiset(cells[i].slots)) + last;
      assert (before + last) + multiset(c.slots) == (before + multiset(c.slots)) + last;
    } else {
      assert cells[i := c][..n] == cells[..n];
    }
  }

  lemma {:induction false} RefsMember(cells: seq<Cell>, x: Addr)
    ensures x in Refs(cells) <==> exists y :: 0 <= y < |cells| && x in cells[y].slots
  {
    if cells != [] {
      var n := |cells| - 1;
      RefsMember(cells[..n], x);
      if x in Refs(cells) && x !in cells[n].slots {
        var y :| 0 <= y < n && x in cells[..n][y].slots;
        assert x in cells[y].slots;
      }
      if y :| 0 <= y < |cells| && x in cells[y].slots {
        if y < n { assert x in cells[..n][y].slots; }
      }
    }
  }

  // ---------------------------------------------------------------- the operations

  /** Cells keep their number and slot counts, counts only go down, and slots only ever become nil. */
  ghost predicate Shrinks(before: Heap, after: Heap) {
    && |after.cells| == |before.cells|
    && (forall y :: 0 <= y < |before.cells| ==>
          && |after.cells[y].slots| == |before.cells[y].slots|
          && (after.cells[y].live ==> before.cells[y].live)
          && after.cells[y].rc <= before.cells[y].rc
          && forall j :: 0 <= j < |before.cells[y].slots| ==>
               after.cells[y].slots[j] == before.cells[y].slots[j] || after.cells[y].slots[j] == NIL)
    && Held(after.cells) <= Held(before.cells)
  }

  function SetRc(h: Heap, o: Addr, rc: nat): (r: Heap)
    requires o < |h.cells|
    ensures |r.cells| == |h.cells| && Held(r.cells) == Held(h.cells)
    ensures rc <= h.cells[o].rc ==> Shrinks(h, r)
  {
    HeldUpdate(h.cells, o, h.cells[o].(rc := rc));
    h.(cells := h.cells[o := h.cells[o].(rc := rc)])
  }

  function SetSlot(h: Heap, p: Addr, i: nat, v: Addr): (r: Heap)
    requires p < |h.cells| && i < |h.cells[p].slots|
    ensures |r.cells| == |h.cells|
    ensures v == NIL ==> Shrinks(h, r) && (h.cells[p].slots[i] != NIL ==> Held(r.cells) < Held(h.cells))
  {
    var c := h.cells[p].(slots := h.cells[p].slots[i := v]);
    HeldUpdate(h.cells, p, c);
    HeldInUpdate(h.cells[p].slots, i, v);
    h.(cells := h.cells[p := c])
  }

  predicate IsLive(h: Heap, o: Addr) {
    o < |h.cells| && h.cells[o].live
  }

  /** The parent's owner slot holds the embedded object `o`. */
  predicate OwnerHolds(sh: Shapes, h: Heap, o: Addr)
    requires |sh| == |h.cells|
  {
    && o != NIL && o < |sh| && sh[o].kind.Embedded?
    && var p, k := sh[o].kind.parent, sh[o].kind.owner;
    p < |h.cells| && k < |h.cells[p].slots| && h.cells[p].slots[k] == o
  }

  /** Retain and release leave the object alone. */
  predicate Unmanaged(sh: Shapes, h: Heap, o: Addr)
    requires |sh| == |h.cells|
  {
    !IsLive(h, o) || sh[o].kind.Immortal? || OwnerHolds(sh, h, o)
  }

  function Retain(sh: Shapes, h: Heap, o: Addr): (r: Heap)
    requires |sh| == |h.cells|
    ensures |r.cells| == |h.cells|
  {
    if Unmanaged(sh, h, o) then h else SetRc(h, o, h.cells[o].rc + 1)
  }

  function Release(sh: Shapes, h: Heap, o: Addr): (r: Heap)
    requires |sh| == |h.cells|
    ensures Shrinks(h, r)
    decreases Held(h.cells), 2, 0
  {
    if Unmanaged(sh, h, o) then h
    else if h.cells[o].rc > 1 then SetRc(h, o, h.cells[o].rc - 1)
    else if h.cells[o].rc == 0 then h
    else
      var h1 := SetRc(h, o, 0);
      ShrinksTransitive(h, h1, Destroy(sh, h1, o));
      Destroy(sh, h1, o)
  }

  /** dealloc, then the strong ivars are cleared, then the header is disposed. */
  function Destroy(sh: Shapes, h: Heap, o: Addr): (r: Heap)
    requires |sh| == |h.cells| && IsLive(h, o)
    ensures Shrinks(h, r)
    decreases Held(h.cells), 1, 0
  {
    var h0 := h.(finalized := h.finalized + [o]);
    var h1 := if sh[o].trivial then h0 else ClearFrom(sh, h0, o, 0);
    ShrinksTransitive(h, h0, h1);
    ShrinksTransitive(h, h1, Dispose(sh, h1, o));
    Dispose(sh, h1, o)
  }

  /** The loop over the strong ivars of `o`, from slot `i` on. Each slot becomes nil before the value
      it held is released, so the cascade terminates. */
  function ClearFrom(sh: Shapes, h: Heap, o: Addr, i: nat): (r: Heap)
    requires |sh| == |h.cells| && o < |h.cells| && i <= |h.cells[o].slots|
    ensures Shrinks(h, r)
    decreases Held(h.cells), 0, |h.cells[o].slots| - i
  {
    if i == |h.cells[o].slots| then h
    else
      var was := h.cells[o].slots[i];
      if was == NIL then ClearFrom(sh, h, o, i + 1)
      else
        var h1 := SetSlot(h, o, i, NIL);
        var h2 := Drop(sh, h1, was);
        ShrinksTransitive(h, h1, h2);
        ShrinksTransitive(h, h2, ClearFrom(sh, h2, o, i + 1));
        ClearFrom(sh, h2, o, i + 1)
  }

  /** What the clearing loop does with the value it took out of a slot: a live embedded object is
      destroyed outright, anything else is released. */
  function Drop(sh: Shapes, h: Heap, x: Addr): (r: Heap)
    requires |sh| == |h.cells|
    ensures Shrinks(h, r)
    decreases Held(h.cells), 3, 0
  {
    if IsLive(h, x) && sh[x].kind.Embedded? then Destroy(sh, h, x) else Release(sh, h, x)
  }

  /** The live objects that lie in `o`. */
  function Inside(sh: Shapes, h: Heap, o: Addr): set<Addr>
    requires |sh| == |h.cells|
  {
    set x | 0 <= x < |sh| && h.cells[x].live && sh[x].kind.Embedded? && sh[x].kind.parent == o
  }

  function Dispose(sh: Shapes, h: Heap, o: Addr): (r: Heap)
    requires |sh| == |h.cells| && o < |h.cells|
    ensures Shrinks(h, r)
  {
    if !h.cells[o].live || sh[o].kind.Immortal? then h
    else
      var h1 := if OwnerHolds(sh, h, o) then SetSlot(h, sh[o].kind.parent, sh[o].kind.owner, NIL) else h;
      var c := h1.cells[o].(live := false);
      HeldUpdate(h1.cells, o, c);
      h1.(cells := h1.cells[o := c], strays := h1.strays + Inside(sh, h1, o))
  }

  function StoreStrong(sh: Shapes, h: Heap, p: Addr, i: nat, v: Addr): (r: Heap)
    requires |sh| == |h.cells| && p < |h.cells| && i < |h.cells[p].slots|
  {
    var was := h.cells[p].slots[i];
    if was == v then h
    else
      var h1 := if v == NIL then h else Retain(sh, h, v);
      var h2 := SetSlot(h1, p, i, v);
      if was == NIL then h2 else Release(sh, h2, was)
  }

  lemma ShrinksTransitive(a: Heap, b: Heap, c: Heap)
    requires Shrinks(a, b) && Shrinks(b, c)
    ensures Shrinks(a, c)
  {
    forall y, j | 0 <= y < |a.cells| && 0 <= j < |a.cells[y].slots|
      ensures c.cells[y].slots[j] == a.cells[y].slots[j] || c.cells[y].slots[j] == NIL
    {
      assert c.cells[y].slots[j] == b.cells[y].slots[j] || c.cells[y].slots[j] == NIL;
    }
  }
}
