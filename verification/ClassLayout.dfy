/** Class layout: where inherited and own instance variables go, and the hidden storage for embedded
    value objects behind them. */
module ClassLayout {

  import opened Wrappers

  type ClassId = nat

  const WORD: nat := 8
  const INT32_MAX: int := 0x7FFF_FFFF
  const UINT32: nat := 0x1_0000_0000
  const CAPACITY: nat := 4096

  /** `offset` is the content of the ivar's offset cell, if it has one; `size` zero stands for a pointer;
      `value` is the class its type names when that is a value class that can be embedded. */
  datatype Ivar = Ivar(offset: Option<int>, size: nat, value: Option<ClassId>)

  /** The last two say whether the two allocations its layout may need succeed. */
  datatype ClassDef = ClassDef(superclass: Option<ClassId>, ivars: seq<Ivar>, slotRoom: bool, mergeRoom: bool)

  /** Hidden storage for the value object of the ivar at `owner`. */
  datatype Slot = Slot(declared: ClassId, owner: int, size: nat, offset: nat)

  datatype Layout = Layout(size: nat, offsets: seq<Option<int>>, slots: seq<Slot>)

  function AlignUp(v: nat): (r: nat)
    ensures v <= r < v + WORD && r % WORD == 0
  {
    (v + (WORD - 1)) / WORD * WORD
  }

  function Max(a: int, b: int): int {
    if a < b then b else a
  }

  // ---------------------------------------------------------------- one class, given those it depends on

  /** Offsets are relative to the superclass's end and kept in 32 bits. */
  function Adjusted(offset: int, superSize: nat): (r: int)
    ensures 0 <= r <= INT32_MAX
  {
    var off := offset + superSize;
    if off < 0 then 0 else if off > INT32_MAX then INT32_MAX else off
  }

  /** No 32-bit offset is nearer to the moved one. */
  lemma {:induction false} AdjustedIsNearest(offset: int, superSize: nat, v: int)
    requires 0 <= v <= 0x7FFF_FFFF
    ensures var (off, r) := (offset + superSize, Adjusted(offset, superSize));
            0 <= r <= 0x7FFF_FFFF && Max(off - r, r - off) <= Max(off - v, v - off)
  {
  }

  function AdjustedCell(i: Ivar, superSize: nat): Option<int> {
    if i.offset.None? then None else Some(Adjusted(i.offset.value, superSize))
  }

  function SizeOf(i: Ivar): (r: nat)
    ensures r > 0
  {
    if i.size == 0 then WORD else i.size
  }

  /** The end of an ivar; one clamped to the largest offset does not count. */
  function EndOf(i: Ivar, superSize: nat): nat {
    if i.offset.None? then SizeOf(i)
    else if Adjusted(i.offset.value, superSize) == INT32_MAX then 0
    else Adjusted(i.offset.value, superSize) + SizeOf(i)
  }

  function MaxEnd(ivars: seq<Ivar>, superSize: nat, n: nat): (r: nat)
    requires n <= |ivars|
    ensures r >= superSize
  {
    if n == 0 then superSize else Max(MaxEnd(ivars, superSize, n - 1), EndOf(ivars[n - 1], superSize))
  }

  predicate Embeds(i: Ivar, superSize: nat) {
    i.value.Some? && i.offset.Some? && Adjusted(i.offset.value, superSize) != INT32_MAX
  }

  function StorageSize(header: nat, valueSize: nat): nat {
    AlignUp(header + valueSize)
  }

  /** The slots in storage order, one behind the other from `cursor` on. */
  function PlaceSlots(slots: seq<Slot>, cursor: nat): (r: seq<Slot>)
    ensures |r| == |slots|
  {
    if slots == [] then []
    else
      var at := AlignUp(cursor);
      [slots[0].(offset := at % UINT32)] + PlaceSlots(slots[1..], at + slots[0].size)
  }

  function SlotsEnd(slots: seq<Slot>, cursor: nat): (r: nat)
    ensures r >= cursor && r % WORD == 0
  {
    if slots == [] then AlignUp(cursor) else SlotsEnd(slots[1..], AlignUp(cursor) + slots[0].size)
  }

  /** The layout of a class from its superclass's layout and its own slots before they are placed. */
  function Combine(def: ClassDef, superSize: nat, superSlots: seq<Slot>, local: seq<Slot>): Layout {
    var visible := AlignUp(MaxEnd(def.ivars, superSize, |def.ivars|));
    var offsets := seq(|def.ivars|, k requires 0 <= k < |def.ivars| => AdjustedCell(def.ivars[k], superSize));
    if local == [] then Layout(Max(visible, WORD), offsets, superSlots)
    else if superSlots != [] && !def.mergeRoom then Layout(Max(visible, WORD), offsets, superSlots)
    else Layout(Max(SlotsEnd(local, visible), WORD), offsets, superSlots + PlaceSlots(local, visible))
  }

  // ---------------------------------------------------------------- the pure definition

  /** The superclass a layout builds on: a root names none, or itself. */
  function Super(defs: seq<ClassDef>, c: ClassId): Option<ClassId>
    requires c < |defs|
  {
    if defs[c].superclass == Some(c) then None else defs[c].superclass
  }

  /** Superclasses and embedded classes come lower, so there is no cycle of either. */
  predicate Acyclic(defs: seq<ClassDef>, rank: seq<nat>) {
    |rank| == |defs| && forall c :: 0 <= c < |defs| ==> Above(defs, rank, c)
  }

  predicate Above(defs: seq<ClassDef>, rank: seq<nat>, c: ClassId)
    requires c < |defs| == |rank|
  {
    && (Super(defs, c).Some? ==> Super(defs, c).value < |defs| && rank[Super(defs, c).value] < rank[c])
    && forall k :: 0 <= k < |defs[c].ivars| ==> Below(rank, defs[c].ivars[k], c)
  }

  predicate Below(rank: seq<nat>, i: Ivar, c: ClassId)
    requires c < |rank|
  {
    i.value.Some? ==> i.value.value < |rank| && rank[i.value.value] < rank[c]
  }

  function LayoutOf(defs: seq<ClassDef>, rank: seq<nat>, header: nat, c: ClassId): (l: Layout)
    requires Acyclic(defs, rank) && c < |defs|
    decreases rank[c], |defs[c].ivars| + 1
  {
    assert Above(defs, rank, c);
    var up := Super(defs, c);
    var superSize := if up.Some? then Max(LayoutOf(defs, rank, header, up.value).size, WORD) else WORD;
    var superSlots := if up.Some? then LayoutOf(defs, rank, header, up.value).slots else [];
    Combine(defs[c], superSize, superSlots, if defs[c].slotRoom
      then LocalSlots(defs, rank, header, c, superSize, |defs[c].ivars|) else [])
  }

  /** A slot for each of the first `n` ivars that embed a value, in ivar order. */
  function LocalSlots(defs: seq<ClassDef>, rank: seq<nat>, header: nat, c: ClassId, superSize: nat, n: nat): seq<Slot>
    requires Acyclic(defs, rank) && c < |defs| && n <= |defs[c].ivars|
    decreases rank[c], n
  {
    if n == 0 then []
    else
      var i := defs[c].ivars[n - 1];
      var before := LocalSlots(defs, rank, header, c, superSize, n - 1);
      if !Embeds(i, superSize) then before
      else
        assert Above(defs, rank, c) && Below(rank, i, c);
        var size := StorageSize(header, LayoutOf(defs, rank, header, i.value.value).size);
        if size >= UINT32 then before
        else before + [Slot(i.value.value, Adjusted(i.offset.value, superSize), size, 0)]
  }

  function SuperSize(defs: seq<ClassDef>, rank: seq<nat>, header: nat, c: ClassId): (r: nat)
    requires Acyclic(defs, rank) && c < |defs|
    ensures r >= WORD
  {
    assert Above(defs, rank, c);
    if Super(defs, c).Some? then Max(LayoutOf(defs, rank, header, Super(defs, c).value).size, WORD) else WORD
  }

  function SuperSlots(defs: seq<ClassDef>, rank: seq<nat>, header: nat, c: ClassId): seq<Slot>
    requires Acyclic(defs, rank) && c < |defs|
  {
    assert Above(defs, rank, c);
    if Super(defs, c).Some? then LayoutOf(defs, rank, header, Super(defs, c).value).slots else []
  }

  /** The local slots the class really tries to place. */
  function OwnSlots(defs: seq<ClassDef>, rank: seq<nat>, header: nat, c: ClassId): seq<Slot>
    requires Acyclic(defs, rank) && c < |defs|
  {
    if defs[c].slotRoom then LocalSlots(defs, rank, header, c, SuperSize(defs, rank, header, c), |defs[c].ivars|)
      else []
  }

  lemma {:induction false} LayoutIs(defs: seq<ClassDef>, rank: seq<nat>, header: nat, c: ClassId)
    requires Acyclic(defs, rank) && c < |defs|
    ensures LayoutOf(defs, rank, header, c) ==
            Combine(defs[c], SuperSize(defs, rank, header, c), SuperSlots(defs, rank, header, c),
              OwnSlots(defs, rank, header, c))
  {
    hide Combine, LocalSlots;
  }

  // ---------------------------------------------------------------- regions

  /** A stretch of an instance, from `lo` up to but not including `hi`. */
  datatype Region = Region(lo: int, hi: int)

  predicate Apart(a: Region, b: Region) {
    a.hi <= b.lo || b.hi <= a.lo
  }

  predicate Disjoint(rs: seq<Region>) {
    forall i, j :: 0 <= i < j < |rs| ==> Apart(rs[i], rs[j])
  }

  predicate Within(rs: seq<Region>, lo: int, hi: int) {
    forall i :: 0 <= i < |rs| ==> lo <= rs[i].lo <= rs[i].hi <= hi
  }

  lemma DisjointJoin(a: seq<Region>, b: seq<Region>, lo: int, mid: int, hi: int)
    requires Disjoint(a) && Disjoint(b) && Within(a, lo, mid) && Within(b, mid, hi) && lo <= mid <= hi
    ensures Disjoint(a + b) && Within(a + b, lo, hi)
  {
    var c := a + b;
    forall i, j | 0 <= i < j < |c| ensures Apart(c[i], c[j]) {
      if i < |a| && j >= |a| { assert c[i] == a[i] && c[j] == b[j - |a|]; }
      else if i >= |a| { assert c[i] == b[i - |a|] && c[j] == b[j - |a|]; }
      else { assert c[i] == a[i] && c[j] == a[j]; }
    }
    forall i | 0 <= i < |c| ensures lo <= c[i].lo <= c[i].hi <= hi {
      if i >= |a| { assert c[i] == b[i - |a|]; } else { assert c[i] == a[i]; }
    }
  }

  /** The bytes an ivar takes; one without a size is a pointer. */
  function Bytes(i: Ivar): nat {
    if i.size == 0 then 8 else i.size
  }

  function RawRegion(i: Ivar): Region
    requires i.offset.Some?
  {
    Region(i.offset.value, i.offset.value + Bytes(i))
  }

  /** What the compiler promises of a class's own ivars: each has an offset cell, they start at zero or
      later, they do not overlap, and none reaches the offsets that are clamped. */
  predicate WellLaid(def: ClassDef, superSize: nat) {
    && (forall k :: 0 <= k < |def.ivars| ==> GoodIvar(def.ivars[k], superSize))
    && forall i, j :: 0 <= i < j < |def.ivars| ==> Apart(RawRegion(def.ivars[i]), RawRegion(def.ivars[j]))
  }

  predicate GoodIvar(i: Ivar, superSize: nat) {
    i.offset.Some? && 0 <= i.offset.value && i.offset.value + superSize < INT32_MAX
  }

  /** The whole superclass chain of a class is well laid out and its instances are below 4 GiB. */
  predicate ChainOk(defs: seq<ClassDef>, rank: seq<nat>, header: nat, c: ClassId)
    requires Acyclic(defs, rank) && c < |defs|
    decreases rank[c]
  {
    assert Above(defs, rank, c);
    && WellLaid(defs[c], SuperSize(defs, rank, header, c)) && LayoutOf(defs, rank, header, c).size < UINT32
    && (Super(defs, c).Some? ==> ChainOk(defs, rank, header, Super(defs, c).value))
  }

  function IvarRegions(ivars: seq<Ivar>, superSize: nat): seq<Region>
    requires forall k :: 0 <= k < |ivars| ==> ivars[k].offset.Some?
  {
    seq(|ivars|, k requires 0 <= k < |ivars| =>
      Region(Adjusted(ivars[k].offset.value, superSize), Adjusted(ivars[k].offset.value, superSize) + SizeOf(ivars[k])))
  }

  /** Where the offset cells say the ivars are. */
  function CellRegions(ivars: seq<Ivar>, cells: seq<Option<int>>): seq<Region>
    requires |cells| == |ivars| && forall k :: 0 <= k < |cells| ==> cells[k].Some?
  {
    seq(|ivars|, k requires 0 <= k < |ivars| => Region(cells[k].value, cells[k].value + Bytes(ivars[k])))
  }

  /** Every cell holds the compiler's offset and the size of the superclass. */
  predicate MovedCells(ivars: seq<Ivar>, cells: seq<Option<int>>, superSize: nat) {
    |cells| == |ivars| && forall k :: 0 <= k < |cells| ==>
      ivars[k].offset.Some? && cells[k] == Some(ivars[k].offset.value + superSize)
  }

  /** The cells of a well-laid class hold the compiler's offsets moved behind the superclass. */
  lemma {:induction false} CellsMove(def: ClassDef, superSize: nat, superSlots: seq<Slot>, local: seq<Slot>)
    requires WellLaid(def, superSize)
    ensures var cells := Combine(def, superSize, superSlots, local).offsets;
            && MovedCells(def.ivars, cells, superSize)
            && CellRegions(def.ivars, cells) == IvarRegions(def.ivars, superSize)
  {
    var cells := Combine(def, superSize, superSlots, local).offsets;
    forall k | 0 <= k < |def.ivars|
      ensures def.ivars[k].offset.Some? && cells[k] == Some(def.ivars[k].offset.value + superSize)
    {
      assert GoodIvar(def.ivars[k], superSize);
    }
  }

  /** The cells of a class after layout, and the superclass's instance size they start from. */
  lemma {:induction false} CellsOf(defs: seq<ClassDef>, rank: seq<nat>, header: nat, c: ClassId)
    requires Acyclic(defs, rank) && c < |defs| && ChainOk(defs, rank, header, c)
    ensures MovedCells(defs[c].ivars, LayoutOf(defs, rank, header, c).offsets, SuperSize(defs, rank, header, c))
    ensures var up := defs[c].superclass;
            if up.None? || up == Some(c) then SuperSize(defs, rank, header, c) == 8
            else up.value < |defs| && SuperSize(defs, rank, header, c) == LayoutOf(defs, rank, header, up.value).size
  {
    hide LayoutOf, Combine, LocalSlots;
    assert Above(defs, rank, c);
    LayoutIs(defs, rank, header, c);
    CellsMove(defs[c], SuperSize(defs, rank, header, c), SuperSlots(defs, rank, header, c),
      OwnSlots(defs, rank, header, c));
    if Super(defs, c).Some? {
      SizeIsPositive(defs, rank, header, Super(defs, c).value);
    }
  }

  lemma {:induction false} SizeIsPositive(defs: seq<ClassDef>, rank: seq<nat>, header: nat, c: ClassId)
    requires Acyclic(defs, rank) && c < |defs|
    ensures LayoutOf(defs, rank, header, c).size >= WORD
  {
    hide LocalSlots, LayoutOf;
    LayoutIs(defs, rank, header, c);
  }

  function SlotRegions(slots: seq<Slot>): (r: seq<Region>)
    ensures |r| == |slots|
  {
    seq(|slots|, k requires 0 <= k < |slots| => Region(slots[k].offset, slots[k].offset + slots[k].size))
  }

  /** Inherited and own ivars, as their cells say, and slots, superclass first. */
  function Regions(defs: seq<ClassDef>, rank: seq<nat>, header: nat, c: ClassId): seq<Region>
    requires Acyclic(defs, rank) && c < |defs| && ChainOk(defs, rank, header, c)
    decreases rank[c]
  {
    assert Above(defs, rank, c);
    CellsOf(defs, rank, header, c);
    var l := LayoutOf(defs, rank, header, c);
    var own := l.slots[|SuperSlots(defs, rank, header, c)|..];
    (if Super(defs, c).Some? then Regions(defs, rank, header, Super(defs, c).value) else [])
    + (CellRegions(defs[c].ivars, l.offsets) + SlotRegions(own))
  }

  lemma {:induction false} MaxEndCovers(ivars: seq<Ivar>, superSize: nat, n: nat, k: nat)
    requires k < n <= |ivars|
    ensures EndOf(ivars[k], superSize) <= MaxEnd(ivars, superSize, n)
    decreases n
  {
    if k < n - 1 { MaxEndCovers(ivars, superSize, n - 1, k); }
  }

  lemma {:induction false} IvarsArePlaced(def: ClassDef, superSize: nat)
    requires WellLaid(def, superSize)
    ensures forall k :: 0 <= k < |def.ivars| ==> def.ivars[k].offset.Some?
    ensures Disjoint(IvarRegions(def.ivars, superSize))
    ensures Within(IvarRegions(def.ivars, superSize), superSize, MaxEnd(def.ivars, superSize, |def.ivars|))
  {
    var ivars := def.ivars;
    forall k | 0 <= k < |ivars| ensures ivars[k].offset.Some? { assert GoodIvar(ivars[k], superSize); }
    var rs := IvarRegions(ivars, superSize);
    forall k | 0 <= k < |ivars| ensures superSize <= rs[k].lo <= rs[k].hi <= MaxEnd(ivars, superSize, |ivars|) {
      assert GoodIvar(ivars[k], superSize);
      MaxEndCovers(ivars, superSize, |ivars|, k);
    }
    forall i, j | 0 <= i < j < |ivars| ensures Apart(rs[i], rs[j]) {
      assert GoodIvar(ivars[i], superSize) && GoodIvar(ivars[j], superSize);
      assert Apart(RawRegion(ivars[i]), RawRegion(ivars[j]));
    }
  }

  predicate Sized(slots: seq<Slot>) {
    forall k :: 0 <= k < |slots| ==> slots[k].size % WORD == 0
  }

  /** A slot where the cursor was rounded up to. */
  predicate SlotAt(was: Slot, now: Slot) {
    now.offset % WORD == 0 && now == was.(offset := now.offset)
  }

  lemma {:induction false} SlotsArePlaced(slots: seq<Slot>, cursor: nat)
    requires Sized(slots) && SlotsEnd(slots, cursor) < UINT32
    ensures Disjoint(SlotRegions(PlaceSlots(slots, cursor)))
    ensures Within(SlotRegions(PlaceSlots(slots, cursor)), cursor, SlotsEnd(slots, cursor))
    ensures forall k :: 0 <= k < |slots| ==> SlotAt(slots[k], PlaceSlots(slots, cursor)[k])
    decreases |slots|
  {
    hide Sized, SlotRegions, Disjoint, Within, AlignUp;
    if slots != [] {
      var rest, first, next := PlaceFirst(slots, cursor);
      SlotsArePlaced(rest, next);
      var others := PlaceSlots(rest, next);
      SlotRegionsJoin(first, others);
      DisjointJoin([Region(first.offset, next)], SlotRegions(others), cursor, next, SlotsEnd(slots, cursor));
      forall k | 0 <= k < |slots| ensures SlotAt(slots[k], PlaceSlots(slots, cursor)[k]) {
        if k > 0 { assert SlotAt(rest[k - 1], others[k - 1]); }
      }
    } else {
      NoRegions(cursor);
    }
  }

  lemma {:induction false} NoRegions(cursor: nat)
    ensures Disjoint(SlotRegions([])) && Within(SlotRegions([]), cursor, SlotsEnd([], cursor))
  {
  }

  lemma SlotRegionsJoin(first: Slot, others: seq<Slot>)
    ensures SlotRegions([first] + others) == [Region(first.offset, first.offset + first.size)] + SlotRegions(others)
    ensures Disjoint([Region(first.offset, first.offset + first.size)])
  {
  }

  /** The first slot goes to the rounded cursor, and the others behind it. */
  lemma PlaceFirst(slots: seq<Slot>, cursor: nat) returns (rest: seq<Slot>, first: Slot, next: nat)
    requires slots != [] && Sized(slots) && SlotsEnd(slots, cursor) < UINT32
    ensures rest == slots[1..] && Sized(rest) && SlotAt(slots[0], first)
    ensures PlaceSlots(slots, cursor) == [first] + PlaceSlots(rest, next)
    ensures SlotsEnd(slots, cursor) == SlotsEnd(rest, next) && cursor <= first.offset
    ensures first.offset + first.size == next <= SlotsEnd(rest, next)
    ensures Within([Region(first.offset, next)], cursor, next)
  {
    var at := AlignUp(cursor);
    rest := slots[1..];
    next := at + slots[0].size;
    first := slots[0].(offset := at % UINT32);
    assert forall k :: 0 <= k < |rest| ==> rest[k] == slots[k + 1];
    hide AlignUp;
  }

  lemma {:induction false} LocalSlotsAreSized(defs: seq<ClassDef>, rank: seq<nat>, header: nat, c: ClassId,
                                              superSize: nat, n: nat)
    requires Acyclic(defs, rank) && c < |defs| && n <= |defs[c].ivars|
    ensures Sized(LocalSlots(defs, rank, header, c, superSize, n))
    decreases n
  {
    hide LayoutOf;
    if n > 0 {
      LocalSlotsAreSized(defs, rank, header, c, superSize, n - 1);
      var i := defs[c].ivars[n - 1];
      assert Above(defs, rank, c) && Below(rank, i, c);
    }
  }

  /** The slots a layout adds to its superclass's. */
  function Added(def: ClassDef, superSize: nat, superSlots: seq<Slot>, local: seq<Slot>): seq<Slot> {
    if local == [] || (superSlots != [] && !def.mergeRoom) then []
    else PlaceSlots(local, AlignUp(MaxEnd(def.ivars, superSize, |def.ivars|)))
  }

  /** One class's own part: ivars first, then the added slots, all behind the superclass. */
  lemma OwnPartIsPlaced(def: ClassDef, superSize: nat, superSlots: seq<Slot>, local: seq<Slot>)
    requires WellLaid(def, superSize) && Sized(local) && Combine(def, superSize, superSlots, local).size < UINT32
    ensures forall k :: 0 <= k < |def.ivars| ==> def.ivars[k].offset.Some?
    ensures var (l, added) := (Combine(def, superSize, superSlots, local), Added(def, superSize, superSlots, local));
            && l.slots == superSlots + added && superSize <= l.size
            && Disjoint(IvarRegions(def.ivars, superSize) + SlotRegions(added))
            && Within(IvarRegions(def.ivars, superSize) + SlotRegions(added), superSize, l.size)
            && forall k :: 0 <= k < |added| ==> added[k].offset % WORD == 0
  {
    hide PlaceSlots, SlotsEnd, WellLaid, Sized;
    IvarsArePlaced(def, superSize);
    var end := MaxEnd(def.ivars, superSize, |def.ivars|);
    var visible, added := AlignUp(end), Added(def, superSize, superSlots, local);
    var l := Combine(def, superSize, superSlots, local);
    if added != [] || local != [] {
      if !(superSlots != [] && !def.mergeRoom) {
        SlotsArePlaced(local, visible);
        forall k | 0 <= k < |added| ensures added[k].offset % WORD == 0 { assert SlotAt(local[k], added[k]); }
      }
    }
    assert Within(SlotRegions(added), end, l.size);
    DisjointJoin(IvarRegions(def.ivars, superSize), SlotRegions(added), superSize, end, l.size);
  }

  predicate SlotsInside(l: Layout) {
    forall k :: 0 <= k < |l.slots| ==>
      l.slots[k].offset % WORD == 0 && WORD <= l.slots[k].offset && l.slots[k].offset + l.slots[k].size <= l.size
  }

  /** In every class whose chain is well laid out, everything an instance holds lies apart: inherited and
      own ivars and hidden slots, behind the isa pointer and inside the instance size. */
  lemma {:induction false} InstancesArePlaced(defs: seq<ClassDef>, rank: seq<nat>, header: nat, c: ClassId)
    requires Acyclic(defs, rank) && c < |defs| && ChainOk(defs, rank, header, c)
    ensures Disjoint(Regions(defs, rank, header, c))
    ensures Within(Regions(defs, rank, header, c), WORD, LayoutOf(defs, rank, header, c).size)
    decreases rank[c]
  {
    hide LayoutOf, Combine, Added, IvarRegions, CellRegions, SlotRegions, WellLaid, LocalSlots, SuperSize, SuperSlots;
    assert Above(defs, rank, c);
    LayoutIs(defs, rank, header, c);
    var superSize, superSlots := SuperSize(defs, rank, header, c), SuperSlots(defs, rank, header, c);
    var local := OwnSlots(defs, rank, header, c);
    var added := Added(defs[c], superSize, superSlots, local);
    LocalSlotsAreSized(defs, rank, header, c, superSize, |defs[c].ivars|);
    OwnPartIsPlaced(defs[c], superSize, superSlots, local);
    CellsMove(defs[c], superSize, superSlots, local);
    CellsOf(defs, rank, header, c);
    var l := LayoutOf(defs, rank, header, c);
    assert l.slots[|superSlots|..] == added;
    var own := IvarRegions(defs[c].ivars, superSize) + SlotRegions(added);
    SuperIs(defs, rank, header, c);
    if Super(defs, c).Some? {
      var up := Super(defs, c).value;
      InstancesArePlaced(defs, rank, header, up);
      DisjointJoin(Regions(defs, rank, header, up), own, WORD, superSize, l.size);
      assert Regions(defs, rank, header, c) == Regions(defs, rank, header, up) + own;
    } else {
      assert Regions(defs, rank, header, c) == [] + own;
      assert [] + own == own;
    }
  }

  /** A subclass has all its superclass's regions, where they are in the superclass's instances. */
  lemma {:induction false} RegionsAreInherited(defs: seq<ClassDef>, rank: seq<nat>, header: nat, c: ClassId,
                                               up: ClassId)
    requires Acyclic(defs, rank) && c < |defs| && ChainOk(defs, rank, header, c)
    requires defs[c].superclass == Some(up) && up != c
    ensures up < |defs| && ChainOk(defs, rank, header, up)
    ensures Regions(defs, rank, header, up) <= Regions(defs, rank, header, c)
    ensures |Regions(defs, rank, header, c)| >= |Regions(defs, rank, header, up)| + |defs[c].ivars|
  {
    hide LayoutOf, WellLaid, SuperSize, SuperSlots, SlotRegions;
    assert Above(defs, rank, c);
    CellsOf(defs, rank, header, c);
  }

  /** Some region, or the superclass, ends in the last word. */
  predicate Reached(rs: seq<Region>, superSize: int, size: int) {
    size < superSize + 8 || exists k :: 0 <= k < |rs| && size < rs[k].hi + 8
  }

  lemma {:induction false} MaxEndReached(ivars: seq<Ivar>, superSize: nat, n: nat)
    requires n <= |ivars|
    ensures MaxEnd(ivars, superSize, n) == superSize ||
            exists k :: 0 <= k < n && EndOf(ivars[k], superSize) == MaxEnd(ivars, superSize, n)
  {
    if n > 0 { MaxEndReached(ivars, superSize, n - 1); }
  }

  lemma {:induction false} SlotsEndWithLast(slots: seq<Slot>, cursor: nat)
    requires slots != [] && Sized(slots) && SlotsEnd(slots, cursor) < UINT32
    ensures var last := PlaceSlots(slots, cursor)[|slots| - 1];
            SlotsEnd(slots, cursor) == last.offset + last.size
    decreases |slots|
  {
    hide AlignUp, Sized;
    var rest, first, next := PlaceFirst(slots, cursor);
    if rest != [] {
      SlotsEndWithLast(rest, next);
    } else {
      assert SlotsEnd([], next) == AlignUp(next);
      WholeWords(slots, first, next);
    }
  }

  lemma WholeWords(slots: seq<Slot>, first: Slot, next: nat)
    requires slots != [] && Sized(slots) && SlotAt(slots[0], first) && next == first.offset + first.size
    ensures AlignUp(next) == next
  {
  }

  lemma {:induction false} OwnPartIsTight(def: ClassDef, superSize: nat, superSlots: seq<Slot>, local: seq<Slot>)
    requires WellLaid(def, superSize) && Sized(local) && Combine(def, superSize, superSlots, local).size < UINT32
    requires superSize >= WORD && forall k :: 0 <= k < |def.ivars| ==> def.ivars[k].offset.Some?
    ensures var (l, added) := (Combine(def, superSize, superSlots, local), Added(def, superSize, superSlots, local));
            l.size % 8 == 0 && Reached(IvarRegions(def.ivars, superSize) + SlotRegions(added), superSize, l.size)
  {
    hide PlaceSlots, SlotsEnd, WellLaid, Sized;
    var end := MaxEnd(def.ivars, superSize, |def.ivars|);
    var (ivars, added) := (IvarRegions(def.ivars, superSize), Added(def, superSize, superSlots, local));
    var rs, l := ivars + SlotRegions(added), Combine(def, superSize, superSlots, local);
    if added == [] {
      MaxEndReached(def.ivars, superSize, |def.ivars|);
      if end != superSize {
        var k :| 0 <= k < |def.ivars| && EndOf(def.ivars[k], superSize) == end;
        assert rs[k] == ivars[k];
      }
    } else {
      SlotsEndWithLast(local, AlignUp(end));
      var k := |added| - 1;
      assert rs[|ivars| + k] == SlotRegions(added)[k];
    }
  }

  /** Instances are no larger than whole words need. */
  lemma {:induction false} SizeIsTight(defs: seq<ClassDef>, rank: seq<nat>, header: nat, c: ClassId)
    requires Acyclic(defs, rank) && c < |defs| && ChainOk(defs, rank, header, c)
    ensures LayoutOf(defs, rank, header, c).size % 8 == 0
    ensures Reached(Regions(defs, rank, header, c), SuperSize(defs, rank, header, c),
                    LayoutOf(defs, rank, header, c).size)
  {
    hide LayoutOf, Combine, Added, IvarRegions, CellRegions, SlotRegions, WellLaid, LocalSlots, SuperSize, SuperSlots;
    assert Above(defs, rank, c);
    LayoutIs(defs, rank, header, c);
    var superSize, superSlots := SuperSize(defs, rank, header, c), SuperSlots(defs, rank, header, c);
    var local := OwnSlots(defs, rank, header, c);
    LocalSlotsAreSized(defs, rank, header, c, superSize, |defs[c].ivars|);
    OwnPartIsPlaced(defs[c], superSize, superSlots, local);
    OwnPartIsTight(defs[c], superSize, superSlots, local);
    CellsMove(defs[c], superSize, superSlots, local);
    CellsOf(defs, rank, header, c);
    var l := LayoutOf(defs, rank, header, c);
    var own := IvarRegions(defs[c].ivars, superSize) + SlotRegions(Added(defs[c], superSize, superSlots, local));
    assert l.slots[|superSlots|..] == Added(defs[c], superSize, superSlots, local);
    var all := Regions(defs, rank, header, c);
    assert own == CellRegions(defs[c].ivars, l.offsets) + SlotRegions(l.slots[|superSlots|..]);
    ReachedBehind(all[..|all| - |own|], own, superSize, l.size);
    assert all == all[..|all| - |own|] + own;
  }

  lemma ReachedBehind(front: seq<Region>, own: seq<Region>, superSize: int, size: int)
    requires Reached(own, superSize, size)
    ensures Reached(front + own, superSize, size)
  {
    if k :| 0 <= k < |own| && size < own[k].hi + 8 {
      assert (front + own)[|front| + k] == own[k];
    }
  }

  lemma {:induction false} SuperIs(defs: seq<ClassDef>, rank: seq<nat>, header: nat, c: ClassId)
    requires Acyclic(defs, rank) && c < |defs|
    ensures Above(defs, rank, c)
    ensures Super(defs, c).Some? ==>
              LayoutOf(defs, rank, header, Super(defs, c).value).size <= SuperSize(defs, rank, header, c)
              && SuperSlots(defs, rank, header, c) == LayoutOf(defs, rank, header, Super(defs, c).value).slots
    ensures Super(defs, c).None? ==> SuperSlots(defs, rank, header, c) == [] && SuperSize(defs, rank, header, c) == WORD
  {
    hide LayoutOf;
  }

  /** Slots are pointer-aligned and inside the instance, and a subclass's slots continue its superclass's. */
  lemma {:induction false} SlotsAreInside(defs: seq<ClassDef>, rank: seq<nat>, header: nat, c: ClassId)
    requires Acyclic(defs, rank) && c < |defs| && ChainOk(defs, rank, header, c)
    ensures SlotsInside(LayoutOf(defs, rank, header, c))
    ensures SuperSlots(defs, rank, header, c) <= LayoutOf(defs, rank, header, c).slots
    ensures SuperSize(defs, rank, header, c) <= LayoutOf(defs, rank, header, c).size
    decreases rank[c]
  {
    hide LayoutOf, Combine, Added, IvarRegions, WellLaid, LocalSlots, SuperSize, SuperSlots;
    assert Above(defs, rank, c);
    LayoutIs(defs, rank, header, c);
    var superSize, superSlots := SuperSize(defs, rank, header, c), SuperSlots(defs, rank, header, c);
    var local := OwnSlots(defs, rank, header, c);
    var added := Added(defs[c], superSize, superSlots, local);
    LocalSlotsAreSized(defs, rank, header, c, superSize, |defs[c].ivars|);
    OwnPartIsPlaced(defs[c], superSize, superSlots, local);
    SuperIs(defs, rank, header, c);
    var l := LayoutOf(defs, rank, header, c);
    if Super(defs, c).Some? { SlotsAreInside(defs, rank, header, Super(defs, c).value); }
    var ivars, slots := IvarRegions(defs[c].ivars, superSize), SlotRegions(added);
    forall k | 0 <= k < |l.slots|
      ensures l.slots[k].offset % WORD == 0 && WORD <= l.slots[k].offset
      ensures l.slots[k].offset + l.slots[k].size <= l.size
    {
      if k >= |superSlots| {
        var j := k - |superSlots|;
        assert l.slots[k] == added[j];
        assert (ivars + slots)[|ivars| + j] == slots[j];
        SlotRegionAt(added, j);
      } else {
        assert l.slots[k] == superSlots[k];
      }
    }
  }

  /** The slot keeps room for a header and an instance of the class the ivar names, and knows where the ivar is. */
  predicate Serves(defs: seq<ClassDef>, rank: seq<nat>, header: nat, i: Ivar, cell: Option<int>, slot: Slot)
    requires Acyclic(defs, rank)
  {
    && i.value == Some(slot.declared) && cell == Some(slot.owner) && slot.declared < |defs|
    && var need := header + LayoutOf(defs, rank, header, slot.declared).size;
       need <= slot.size < need + 8 && slot.size < 0x1_0000_0000 && slot.size % 8 == 0
  }

  /** `owners` are the ivars the slots are for, in order, and no ivar that embeds a value is left out unless its
      storage would not fit 32 bits. */
  ghost predicate Assigned(defs: seq<ClassDef>, rank: seq<nat>, header: nat, c: ClassId, cells: seq<Option<int>>,
                           slots: seq<Slot>, owners: seq<nat>, n: nat)
    requires Acyclic(defs, rank) && c < |defs| && n <= |defs[c].ivars| == |cells|
  {
    && |owners| == |slots|
    && (forall j :: 0 <= j < |owners| ==> owners[j] < n)
    && (forall j :: 0 <= j < |owners| && owners[j] < n ==>
          Serves(defs, rank, header, defs[c].ivars[owners[j]], cells[owners[j]], slots[j]))
    && (forall i, j :: 0 <= i < j < |owners| ==> owners[i] < owners[j])
    && forall k :: 0 <= k < n && k !in owners ==> Unserved(defs, rank, header, defs[c].ivars[k], cells[k])
  }

  predicate Unserved(defs: seq<ClassDef>, rank: seq<nat>, header: nat, i: Ivar, cell: Option<int>)
    requires Acyclic(defs, rank)
  {
    i.value.None? || cell.None? || cell.value == 0x7FFF_FFFF || i.value.value >= |defs|
    || header + LayoutOf(defs, rank, header, i.value.value).size + 8 > 0x1_0000_0000
  }

  lemma {:induction false} AssignedMore(defs: seq<ClassDef>, rank: seq<nat>, header: nat, c: ClassId,
                                        cells: seq<Option<int>>, slots: seq<Slot>, owners: seq<nat>, n: nat, slot: Slot)
    requires Acyclic(defs, rank) && c < |defs| && n < |defs[c].ivars| == |cells|
    requires Assigned(defs, rank, header, c, cells, slots, owners, n)
    requires Serves(defs, rank, header, defs[c].ivars[n], cells[n], slot)
    ensures Assigned(defs, rank, header, c, cells, slots + [slot], owners + [n], n + 1)
  {
    hide Serves, Unserved;
    var more := owners + [n];
    assert more[|owners|] == n;
    forall k | 0 <= k < n + 1 && k !in more ensures Unserved(defs, rank, header, defs[c].ivars[k], cells[k]) {
      assert k != n && k !in owners;
    }
  }

  lemma {:induction false} AssignedSame(defs: seq<ClassDef>, rank: seq<nat>, header: nat, c: ClassId,
                                        cells: seq<Option<int>>, slots: seq<Slot>, owners: seq<nat>, n: nat)
    requires Acyclic(defs, rank) && c < |defs| && n < |defs[c].ivars| == |cells|
    requires Assigned(defs, rank, header, c, cells, slots, owners, n)
    requires Unserved(defs, rank, header, defs[c].ivars[n], cells[n])
    ensures Assigned(defs, rank, header, c, cells, slots, owners, n + 1)
  {
    hide Serves, Unserved;
  }

  /** The storage an ivar gets, if it gets any. */
  lemma {:induction false} StepServes(defs: seq<ClassDef>, rank: seq<nat>, header: nat, i: Ivar, superSize: nat)
    requires Acyclic(defs, rank) && (i.value.Some? ==> i.value.value < |defs|)
    ensures !Embeds(i, superSize) ==> Unserved(defs, rank, header, i, AdjustedCell(i, superSize))
    ensures Embeds(i, superSize) ==>
              var size := StorageSize(header, LayoutOf(defs, rank, header, i.value.value).size);
              if size >= UINT32 then Unserved(defs, rank, header, i, AdjustedCell(i, superSize))
              else Serves(defs, rank, header, i, AdjustedCell(i, superSize),
                          Slot(i.value.value, Adjusted(i.offset.value, superSize), size, 0))
  {
    hide LayoutOf;
  }

  lemma {:induction false} AssignedStep(defs: seq<ClassDef>, rank: seq<nat>, header: nat, c: ClassId, superSize: nat,
                                        n: nat, cells: seq<Option<int>>, owners: seq<nat>) returns (more: seq<nat>)
    requires Acyclic(defs, rank) && c < |defs| && n < |defs[c].ivars| == |cells|
    requires cells[n] == AdjustedCell(defs[c].ivars[n], superSize)
    requires Assigned(defs, rank, header, c, cells, LocalSlots(defs, rank, header, c, superSize, n), owners, n)
    ensures Assigned(defs, rank, header, c, cells, LocalSlots(defs, rank, header, c, superSize, n + 1), more, n + 1)
  {
    hide LayoutOf, Acyclic, AdjustedCell, Adjusted, StorageSize, Assigned, Serves, Unserved;
    var slots := LocalSlots(defs, rank, header, c, superSize, n);
    LocalStep(defs, rank, header, c, superSize, n);
    hide LocalSlots;
    var i := defs[c].ivars[n];
    StepServes(defs, rank, header, i, superSize);
    if Embeds(i, superSize) && StorageSize(header, LayoutOf(defs, rank, header, i.value.value).size) < UINT32 {
      var size := StorageSize(header, LayoutOf(defs, rank, header, i.value.value).size);
      var slot := Slot(i.value.value, Adjusted(i.offset.value, superSize), size, 0);
      AssignedMore(defs, rank, header, c, cells, slots, owners, n, slot);
      more := owners + [n];
    } else {
      AssignedSame(defs, rank, header, c, cells, slots, owners, n);
      more := owners;
    }
  }

  lemma {:induction false} LocalSlotsServe(defs: seq<ClassDef>, rank: seq<nat>, header: nat, c: ClassId, superSize: nat,
                                           n: nat, cells: seq<Option<int>>) returns (owners: seq<nat>)
    requires Acyclic(defs, rank) && c < |defs| && n <= |defs[c].ivars| == |cells|
    requires forall k :: 0 <= k < |cells| ==> cells[k] == AdjustedCell(defs[c].ivars[k], superSize)
    ensures Assigned(defs, rank, header, c, cells, LocalSlots(defs, rank, header, c, superSize, n), owners, n)
    decreases n
  {
    hide LayoutOf, Acyclic, AdjustedCell;
    if n == 0 {
      owners := [];
    } else {
      owners := LocalSlotsServe(defs, rank, header, c, superSize, n - 1, cells);
      owners := AssignedStep(defs, rank, header, c, superSize, n - 1, cells, owners);
    }
  }

  lemma {:induction false} AssignedPlaced(defs: seq<ClassDef>, rank: seq<nat>, header: nat, c: ClassId,
                                          cells: seq<Option<int>>, slots: seq<Slot>, cursor: nat, owners: seq<nat>)
    requires Acyclic(defs, rank) && c < |defs| && |defs[c].ivars| == |cells|
    requires Assigned(defs, rank, header, c, cells, slots, owners, |cells|)
    ensures Assigned(defs, rank, header, c, cells, PlaceSlots(slots, cursor), owners, |cells|)
  {
    hide LayoutOf, Acyclic, Unserved, PlaceSlots;
    OnlyPlaced(slots, cursor);
    var placed := PlaceSlots(slots, cursor);
    forall j | 0 <= j < |owners| && owners[j] < |cells|
      ensures Serves(defs, rank, header, defs[c].ivars[owners[j]], cells[owners[j]], placed[j])
    {
      assert Serves(defs, rank, header, defs[c].ivars[owners[j]], cells[owners[j]], slots[j]);
    }
  }

  lemma {:induction false} AddedIs(def: ClassDef, superSize: nat, superSlots: seq<Slot>, local: seq<Slot>)
    requires superSlots != [] ==> def.mergeRoom
    ensures var l := Combine(def, superSize, superSlots, local);
            && l.slots == superSlots + PlaceSlots(local, AlignUp(MaxEnd(def.ivars, superSize, |def.ivars|)))
            && |l.offsets| == |def.ivars|
            && forall k :: 0 <= k < |l.offsets| ==> l.offsets[k] == AdjustedCell(def.ivars[k], superSize)
  {
    hide MaxEnd, AlignUp;
  }

  /** The hidden slots a class adds, one for each ivar that embeds a value. */
  lemma {:induction false} SlotsServe(defs: seq<ClassDef>, rank: seq<nat>, header: nat, c: ClassId)
      returns (owners: seq<nat>)
    requires Acyclic(defs, rank) && c < |defs| && ChainOk(defs, rank, header, c)
    requires defs[c].slotRoom && (SuperSlots(defs, rank, header, c) != [] ==> defs[c].mergeRoom)
    ensures var l := LayoutOf(defs, rank, header, c);
            && |l.offsets| == |defs[c].ivars|
            && SuperSlots(defs, rank, header, c) <= l.slots
            && Assigned(defs, rank, header, c, l.offsets, l.slots[|SuperSlots(defs, rank, header, c)|..], owners,
                        |defs[c].ivars|)
  {
    hide LayoutOf, LocalSlots, SuperSize, SuperSlots, Assigned, Combine, PlaceSlots, Acyclic, ChainOk;
    hide AdjustedCell, MaxEnd;
    var superSize, superSlots := SuperSize(defs, rank, header, c), SuperSlots(defs, rank, header, c);
    var local := OwnSlots(defs, rank, header, c);
    LayoutIs(defs, rank, header, c);
    AddedIs(defs[c], superSize, superSlots, local);
    var l := LayoutOf(defs, rank, header, c);
    owners := LocalSlotsServe(defs, rank, header, c, superSize, |defs[c].ivars|, l.offsets);
    AssignedPlaced(defs, rank, header, c, l.offsets, local, AlignUp(MaxEnd(defs[c].ivars, superSize, |defs[c].ivars|)),
      owners);
    assert l.slots[|superSlots|..] == PlaceSlots(local, AlignUp(MaxEnd(defs[c].ivars, superSize, |defs[c].ivars|)));
  }

  /** Placing slots changes nothing but where they are. */
  lemma {:induction false} OnlyPlaced(slots: seq<Slot>, cursor: nat)
    ensures forall k :: 0 <= k < |slots| ==>
              PlaceSlots(slots, cursor)[k] == slots[k].(offset := PlaceSlots(slots, cursor)[k].offset)
    decreases |slots|
  {
    if slots != [] {
      OnlyPlaced(slots[1..], AlignUp(cursor) + slots[0].size);
    }
  }

  lemma SlotRegionAt(slots: seq<Slot>, k: nat)
    requires k < |slots|
    ensures SlotRegions(slots)[k] == Region(slots[k].offset, slots[k].offset + slots[k].size)
  {
  }

  // ---------------------------------------------------------------- the loader

  /** Distinct small numbers are few. */
  lemma {:induction false} FewDistinct(s: seq<nat>, n: nat)
    requires (forall i :: 0 <= i < |s| ==> s[i] < n) && forall i, j :: 0 <= i < j < |s| ==> s[i] != s[j]
    ensures |s| <= n
  {
    var all: set<nat> := set i | 0 <= i < |s| :: s[i];
    CountDistinct(s, all);
    SmallSet(all, n);
  }

  lemma {:induction false} CountDistinct(s: seq<nat>, all: set<nat>)
    requires all == set i | 0 <= i < |s| :: s[i]
    requires forall i, j :: 0 <= i < j < |s| ==> s[i] != s[j]
    ensures |all| == |s|
    decreases |s|
  {
    if s != [] {
      var n := |s| - 1;
      var rest: set<nat> := set i | 0 <= i < n :: s[..n][i];
      CountDistinct(s[..n], rest);
      assert all == rest + {s[n]};
      assert s[n] !in rest;
    }
  }

  lemma {:induction false} SmallSet(all: set<nat>, n: nat)
    requires forall x :: x in all ==> x < n
    ensures |all| <= n
    decreases n
  {
    if n == 0 {
      assert all == {};
    } else {
      SmallSet(all - {n - 1}, n - 1);
      assert all <= (all - {n - 1}) + {n - 1};
    }
  }

  /** The memo: the cells of a class that was not laid out hold the compiler's offsets; of one that was,
      what the pure definition says. */
  datatype Memo = Memo(offsets: seq<seq<Option<int>>>, sizes: seq<nat>, slots: seq<seq<Slot>>,
    fixedClasses: set<ClassId>, active: seq<ClassId>)

  predicate Shaped(defs: seq<ClassDef>, rank: seq<nat>, m: Memo) {
    Acyclic(defs, rank) && |defs| == |m.offsets| == |m.sizes| == |m.slots|
  }

  predicate Settled(defs: seq<ClassDef>, rank: seq<nat>, header: nat, m: Memo, c: ClassId)
    requires Shaped(defs, rank, m) && c < |defs|
  {
    if c in m.fixedClasses then LayoutOf(defs, rank, header, c) == Layout(m.sizes[c], m.offsets[c], m.slots[c])
    else c !in m.active ==> Raw(m.offsets[c], defs[c])
  }

  predicate AllSettled(defs: seq<ClassDef>, rank: seq<nat>, header: nat, m: Memo)
    requires Shaped(defs, rank, m)
  {
    forall c :: 0 <= c < |defs| ==> Settled(defs, rank, header, m, c)
  }

  /** The classes being laid out come lower and lower. */
  predicate Descending(active: seq<ClassId>, rank: seq<nat>) {
    && (forall i :: 0 <= i < |active| ==> active[i] < |rank|)
    && forall i, j :: 0 <= i < j < |active| ==>
      active[i] < |rank| && active[j] < |rank| && rank[active[i]] > rank[active[j]]
  }

  predicate Over(active: seq<ClassId>, rank: seq<nat>, c: ClassId)
    requires c < |rank|
  {
    forall i :: 0 <= i < |active| ==> active[i] < |rank| && rank[active[i]] > rank[c]
  }

  lemma DescendingPush(active: seq<ClassId>, rank: seq<nat>, c: ClassId)
    requires Descending(active, rank) && c < |rank| && Over(active, rank, c)
    ensures Descending(active + [c], rank) && c !in active && |active| < |rank|
    ensures forall d: ClassId :: d < |rank| && rank[d] < rank[c] ==> Over(active + [c], rank, d)
  {
    var all := active + [c];
    forall i, j | 0 <= i < j < |all| ensures all[i] < |rank| && all[j] < |rank| && rank[all[i]] > rank[all[j]] {
      assert all[i] == active[i];
    }
    FewDistinct(all, |rank|);
  }

  lemma SettledPush(defs: seq<ClassDef>, rank: seq<nat>, header: nat, m: Memo, c: ClassId)
    requires Shaped(defs, rank, m) && AllSettled(defs, rank, header, m)
    ensures AllSettled(defs, rank, header, m.(active := m.active + [c]))
  {
    hide LayoutOf, Raw;
    var m1 := m.(active := m.active + [c]);
    forall d | 0 <= d < |defs| ensures Settled(defs, rank, header, m1, d) { assert Settled(defs, rank, header, m, d); }
  }

  lemma SettledCell(defs: seq<ClassDef>, rank: seq<nat>, header: nat, m: Memo, c: ClassId, cells: seq<Option<int>>)
    requires Shaped(defs, rank, m) && AllSettled(defs, rank, header, m) && c < |defs| && c !in m.fixedClasses
    requires c in m.active
    ensures AllSettled(defs, rank, header, m.(offsets := m.offsets[c := cells]))
  {
    hide LayoutOf, Raw;
    var m1 := m.(offsets := m.offsets[c := cells]);
    forall d | 0 <= d < |defs| ensures Settled(defs, rank, header, m1, d) { assert Settled(defs, rank, header, m, d); }
  }

  /** The class on top of the stack is finished. */
  lemma {:induction false} SettledPop(defs: seq<ClassDef>, rank: seq<nat>, header: nat, m: Memo, c: ClassId, l: Layout)
    requires Shaped(defs, rank, m) && AllSettled(defs, rank, header, m) && c < |defs| && |m.active| > 0
    requires m.active[|m.active| - 1] == c
    requires l == LayoutOf(defs, rank, header, c) && m.offsets[c] == l.offsets
    ensures AllSettled(defs, rank, header,
                       Memo(m.offsets, m.sizes[c := l.size], m.slots[c := l.slots], m.fixedClasses + {c},
                         m.active[..|m.active| - 1]))
  {
    hide LayoutOf, Raw;
    var m1 := Memo(m.offsets, m.sizes[c := l.size], m.slots[c := l.slots], m.fixedClasses + {c},
      m.active[..|m.active| - 1]);
    forall d | 0 <= d < |defs| ensures Settled(defs, rank, header, m1, d) { assert Settled(defs, rank, header, m, d); }
  }

  class Loader {
    const defs: seq<ClassDef>
    const header: nat
    ghost const rank: seq<nat>
    var offsets: seq<seq<Option<int>>>
    var sizes: seq<nat>
    var slots: seq<seq<Slot>>
    var fixedClasses: set<ClassId>
    var active: seq<ClassId>

    function View(): Memo
      reads this
    {
      Memo(offsets, sizes, slots, fixedClasses, active)
    }

    ghost predicate Valid()
      reads this
    {
      Shaped(defs, rank, View()) && |defs| <= CAPACITY && AllSettled(defs, rank, header, View())
        && Descending(active, rank)
    }

    constructor (defs: seq<ClassDef>, ghost rank: seq<nat>, header: nat)
      requires Acyclic(defs, rank) && |defs| <= CAPACITY
      ensures Valid() && active == [] && fixedClasses == {} && this.defs == defs && this.rank == rank
              && this.header == header
    {
      this.defs := defs;
      this.rank := rank;
      this.header := header;
      offsets := seq(|defs|, c requires 0 <= c < |defs| =>
        seq(|defs[c].ivars|, k requires 0 <= k < |defs[c].ivars| => defs[c].ivars[k].offset));
      sizes := seq(|defs|, _ => 0);
      slots := seq(|defs|, _ => []);
      fixedClasses := {};
      active := [];
    }

    /** sf_fix_class_layout: memoised and recursive, into the superclass and into every value class an
        ivar embeds. The stack of classes being laid out neither meets a class again nor runs full. */
    method FixLayout(c: ClassId) returns (size: nat)
      requires Valid() && c < |defs| && Over(active, rank, c)
      modifies this
      ensures Valid() && active == old(active) && c in fixedClasses && old(fixedClasses) <= fixedClasses
      ensures size == LayoutOf(defs, rank, header, c).size
      ensures Untouched(old(offsets), old(fixedClasses), c)
      decreases rank[c], 2
    {
      hide LayoutOf, Combine, Raw;
      assert Settled(defs, rank, header, View(), c);
      if c in fixedClasses {
        return sizes[c];
      }
      DescendingPush(active, rank, c);
      if c in active || |active| >= CAPACITY {
        assert false;
      }
      SettledPush(defs, rank, header, View(), c);
      active := active + [c];
      ghost var cells := offsets[c];
      var superSize, superSlots := FixSuper(c);
      assert offsets[c] == cells;
      var maxEnd, local := FixIvars(c, superSize);
      ghost var m, l := View(), LayoutOf(defs, rank, header, c);
      CombineOffsets(defs, rank, header, c, offsets[c]);
      SettledPop(defs, rank, header, m, c, l);
      LayoutIs(defs, rank, header, c);
      size := PlaceOwn(c, superSize, superSlots, maxEnd, local);
      fixedClasses := fixedClasses + {c};
      active := active[..|active| - 1];
      assert active == old(active);
    }

    /** The superclass is laid out first; its slots are inherited. */
    method FixSuper(c: ClassId) returns (superSize: nat, superSlots: seq<Slot>)
      requires Valid() && c < |defs| && |active| > 0 && active[|active| - 1] == c && c !in fixedClasses
      modifies this
      ensures Valid() && active == old(active) && c !in fixedClasses && old(fixedClasses) <= fixedClasses
      ensures Untouched(old(offsets), old(fixedClasses), c) && offsets[c] == old(offsets)[c]
      ensures superSize == SuperSize(defs, rank, header, c) && superSlots == SuperSlots(defs, rank, header, c)
      decreases rank[c], 1
    {
      hide LayoutOf, AllSettled, Descending;
      SuperIs(defs, rank, header, c);
      SuperSizeIs(defs, rank, header, c);
      superSize, superSlots := WORD, [];
      var up := if defs[c].superclass == Some(c) then None else defs[c].superclass;
      if up.Some? {
        DescendingTop(active, rank, c, up.value);
        superSize := FixLayout(up.value);
        FixedIs(defs, rank, header, View(), up.value);
        superSlots := slots[up.value];
      }
      if superSize < WORD {
        superSize := WORD;
      }
    }

    /** The loop over the class's own ivars: cells are adjusted, the end is tracked, and an ivar that
        embeds a value has that class laid out and a slot noted. */
    method FixIvars(c: ClassId, superSize: nat) returns (maxEnd: nat, local: seq<Slot>)
      requires Valid() && c < |defs| && c !in fixedClasses && |active| > 0 && active[|active| - 1] == c
      requires Raw(offsets[c], defs[c]) && superSize == SuperSize(defs, rank, header, c)
      modifies this
      ensures Valid() && active == old(active) && c !in fixedClasses && old(fixedClasses) <= fixedClasses
      ensures Untouched(old(offsets), old(fixedClasses), c)
      ensures |offsets[c]| == |defs[c].ivars| && forall k :: 0 <= k < |defs[c].ivars| ==>
              offsets[c][k] == AdjustedCell(defs[c].ivars[k], superSize)
      ensures maxEnd == MaxEnd(defs[c].ivars, superSize, |defs[c].ivars|) && local == OwnSlots(defs, rank, header, c)
      decreases rank[c], 1
    {
      hide LayoutOf, Settled, AllSettled, Descending;
      var ivars := defs[c].ivars;
      maxEnd, local := superSize, [];
      var made, disabled := false, false;
      for n := 0 to |ivars|
        invariant Valid() && active == old(active) && c !in fixedClasses && old(fixedClasses) <= fixedClasses
        invariant Untouched(old(offsets), old(fixedClasses), c)
        invariant |offsets[c]| == |ivars|
        invariant forall k :: 0 <= k < |ivars| ==> offsets[c][k] == if k < n then AdjustedCell(ivars[k], superSize)
                  else ivars[k].offset
        invariant maxEnd == MaxEnd(ivars, superSize, n)
        invariant local == if defs[c].slotRoom then LocalSlots(defs, rank, header, c, superSize, n) else []
        invariant (disabled ==> !defs[c].slotRoom) && (made ==> defs[c].slotRoom)
      {
        var i := ivars[n];
        var adjusted, skip := FixCell(c, n, superSize);
        if !skip {
          var end := adjusted + SizeOf(i);
          if end > maxEnd {
            maxEnd := end;
          }
        }
        LocalStep(defs, rank, header, c, superSize, n);
        if !disabled && i.offset.Some? && adjusted != INT32_MAX && i.value.Some? {
          if !made {
            if !defs[c].slotRoom {
              disabled := true;
              continue;
            }
            made := true;
          }
          var slotSize := FixValue(c, i.value.value);
          if slotSize < UINT32 {
            local := local + [Slot(i.value.value, adjusted, slotSize, 0)];
          }
        }
      }
    }

    /** One offset cell, moved behind the superclass and clamped. */
    method FixCell(c: ClassId, n: nat, superSize: nat) returns (adjusted: int, skip: bool)
      requires Valid() && c < |defs| && c !in fixedClasses && |active| > 0 && active[|active| - 1] == c
      requires n < |offsets[c]| == |defs[c].ivars| && offsets[c][n] == defs[c].ivars[n].offset
      modifies this`offsets
      ensures Valid() && Untouched(old(offsets), fixedClasses, c) && |offsets[c]| == |old(offsets)[c]|
      ensures forall k :: 0 <= k < |offsets[c]| ==>
                offsets[c][k] == if k == n then AdjustedCell(defs[c].ivars[n], superSize) else old(offsets)[c][k]
      ensures var i := defs[c].ivars[n];
              if i.offset.None? then adjusted == 0 && !skip
              else adjusted == Adjusted(i.offset.value, superSize) && skip == (adjusted == INT32_MAX)
    {
      hide LayoutOf, Settled, AllSettled, Descending;
      adjusted, skip := 0, false;
      if offsets[c][n].Some? {
        var off := offsets[c][n].value + superSize;
        if off < 0 {
          off := 0;
        } else if off > INT32_MAX {
          off := INT32_MAX;
        }
        adjusted := off;
        SettledCell(defs, rank, header, View(), c, offsets[c][n := Some(adjusted)]);
        offsets := offsets[c := offsets[c][n := Some(adjusted)]];
        skip := adjusted == INT32_MAX;
      }
    }

    /** The storage an embedded value of a class needs. */
    method FixValue(c: ClassId, v: ClassId) returns (size: nat)
      requires Valid() && c < |defs| && |active| > 0 && active[|active| - 1] == c
      requires v < |defs| && rank[v] < rank[c]
      modifies this
      ensures Valid() && active == old(active) && old(fixedClasses) <= fixedClasses
              && (c in fixedClasses <==> c in old(fixedClasses))
      ensures Untouched(old(offsets), old(fixedClasses), c) && offsets[c] == old(offsets)[c]
      ensures size == StorageSize(header, LayoutOf(defs, rank, header, v).size)
      decreases rank[c], 0
    {
      hide LayoutOf, AllSettled;
      DescendingTop(active, rank, c, v);
      var valueSize := FixLayout(v);
      size := AlignUp(header + valueSize);
    }

    /** The end of the layout: hidden slots go behind the visible part, after the superclass's slots. */
    method PlaceOwn(c: ClassId, superSize: nat, superSlots: seq<Slot>, maxEnd: nat,
                    local: seq<Slot>) returns (size: nat)
      requires c < |defs| == |sizes| == |slots|
      requires maxEnd == MaxEnd(defs[c].ivars, superSize, |defs[c].ivars|)
      modifies this`sizes, this`slots
      ensures var l := Combine(defs[c], superSize, superSlots, local);
              size == l.size && sizes == old(sizes)[c := l.size] && slots == old(slots)[c := l.slots]
    {
      var visible := AlignUp(maxEnd);
      var final, end := superSlots, visible;
      if local != [] {
        var placed, cursor := PlaceLoop(local, visible);
        if superSlots != [] {
          if defs[c].mergeRoom {
            final, end := superSlots + placed, cursor;
          }
        } else {
          final, end := placed, cursor;
          assert superSlots + placed == placed;
        }
      }
      if end < WORD {
        end := WORD;
      }
      sizes := sizes[c := end];
      slots := slots[c := final];
      size := end;
    }

    method PlaceLoop(local: seq<Slot>, visible: nat) returns (placed: seq<Slot>, cursor: nat)
      ensures placed == PlaceSlots(local, visible) && cursor == SlotsEnd(local, visible)
    {
      hide PlaceSlots, SlotsEnd;
      placed, cursor := [], visible;
      assert local[0..] == local && [] + PlaceSlots(local, visible) == PlaceSlots(local, visible);
      for i := 0 to |local|
        invariant placed + PlaceSlots(local[i..], cursor) == PlaceSlots(local, visible)
        invariant SlotsEnd(local[i..], cursor) == SlotsEnd(local, visible)
      {
        PlaceStep(placed, local, i, cursor);
        cursor := AlignUp(cursor);
        placed := placed + [local[i].(offset := cursor % UINT32)];
        cursor := cursor + local[i].size;
      }
      PlaceDone(local, cursor);
      cursor := AlignUp(cursor);
    }

    /** What a call for a class may change: nothing of the classes that come higher. */
    ghost predicate Untouched(oldOffsets: seq<seq<Option<int>>>, oldFixed: set<ClassId>, c: ClassId)
      requires c < |defs| == |oldOffsets| == |offsets| == |rank|
      reads this
    {
      forall d :: 0 <= d < |defs| && rank[d] > rank[c] ==>
        offsets[d] == oldOffsets[d] && (d in fixedClasses <==> d in oldFixed)
    }
  }

  lemma {:induction false} PlaceStep(placed: seq<Slot>, local: seq<Slot>, i: nat, cursor: nat)
    requires i < |local|
    ensures var at := AlignUp(cursor);
            && placed + PlaceSlots(local[i..], cursor) ==
               placed + [local[i].(offset := at % UINT32)] + PlaceSlots(local[i + 1..], at + local[i].size)
            && SlotsEnd(local[i..], cursor) == SlotsEnd(local[i + 1..], at + local[i].size)
  {
    var rest := local[i..];
    assert rest[0] == local[i] && rest[1..] == local[i + 1..];
  }

  lemma {:induction false} PlaceDone(local: seq<Slot>, cursor: nat)
    ensures local[|local|..] == [] && PlaceSlots(local[|local|..], cursor) == []
    ensures SlotsEnd(local[|local|..], cursor) == AlignUp(cursor)
  {
  }

  lemma {:induction false} FixedIs(defs: seq<ClassDef>, rank: seq<nat>, header: nat, m: Memo, c: ClassId)
    requires Shaped(defs, rank, m) && AllSettled(defs, rank, header, m) && c < |defs| && c in m.fixedClasses
    ensures LayoutOf(defs, rank, header, c) == Layout(m.sizes[c], m.offsets[c], m.slots[c])
  {
    hide LayoutOf;
    assert Settled(defs, rank, header, m, c);
  }

  lemma DescendingTop(active: seq<ClassId>, rank: seq<nat>, c: ClassId, v: ClassId)
    requires Descending(active, rank) && |active| > 0 && active[|active| - 1] == c && c < |rank| && v < |rank|
    requires rank[v] < rank[c]
    ensures Over(active, rank, v)
  {
  }

  lemma {:induction false} CombineOffsets(defs: seq<ClassDef>, rank: seq<nat>, header: nat, c: ClassId,
                                          cells: seq<Option<int>>)
    requires Acyclic(defs, rank) && c < |defs| && |cells| == |defs[c].ivars|
    requires forall k :: 0 <= k < |cells| ==>
             cells[k] == AdjustedCell(defs[c].ivars[k], SuperSize(defs, rank, header, c))
    ensures LayoutOf(defs, rank, header, c).offsets == cells
  {
    LayoutIs(defs, rank, header, c);
    hide LayoutOf, SuperSize;
  }

  lemma {:induction false} SuperSizeIs(defs: seq<ClassDef>, rank: seq<nat>, header: nat, c: ClassId)
    requires Acyclic(defs, rank) && c < |defs|
    ensures Above(defs, rank, c)
    ensures SuperSize(defs, rank, header, c) ==
            if Super(defs, c).Some? then Max(LayoutOf(defs, rank, header, Super(defs, c).value).size, WORD) else WORD
  {
    hide LayoutOf;
  }

  lemma LocalStep(defs: seq<ClassDef>, rank: seq<nat>, header: nat, c: ClassId, superSize: nat, n: nat)
    requires Acyclic(defs, rank) && c < |defs| && n < |defs[c].ivars|
    ensures var (i, before) := (defs[c].ivars[n], LocalSlots(defs, rank, header, c, superSize, n));
            && (i.value.Some? ==> i.value.value < |defs| && rank[i.value.value] < rank[c])
            && LocalSlots(defs, rank, header, c, superSize, n + 1) ==
               if !Embeds(i, superSize) then before
               else
                 var size := StorageSize(header, LayoutOf(defs, rank, header, i.value.value).size);
                 if size >= UINT32 then before
                   else before + [Slot(i.value.value, Adjusted(i.offset.value, superSize), size, 0)]
  {
    hide LayoutOf;
    assert Above(defs, rank, c) && Below(rank, defs[c].ivars[n], c);
  }

  /** One finalize pass: whatever the order and whatever was laid out on the way, every class visited ends
      with the layout of the pure definition. */
  method FixAll(loader: Loader, order: seq<ClassId>)
    requires loader.Valid() && loader.active == [] && forall i :: 0 <= i < |order| ==> order[i] < |loader.defs|
    modifies loader
    ensures loader.Valid() && loader.active == []
    ensures forall i :: 0 <= i < |order| ==>
              order[i] in loader.fixedClasses
              && Layout(loader.sizes[order[i]], loader.offsets[order[i]], loader.slots[order[i]]) ==
                 LayoutOf(loader.defs, loader.rank, loader.header, order[i])
    ensures forall i :: 0 <= i < |order| && ChainOk(loader.defs, loader.rank, loader.header, order[i]) ==>
              MovedCells(loader.defs[order[i]].ivars, loader.offsets[order[i]],
                         SuperSize(loader.defs, loader.rank, loader.header, order[i]))
  {
    for i := 0 to |order|
      invariant loader.Valid() && loader.active == [] && forall k :: 0 <= k < i ==> order[k] in loader.fixedClasses
    {
      var size := loader.FixLayout(order[i]);
    }
    forall i | 0 <= i < |order|
      ensures Layout(loader.sizes[order[i]], loader.offsets[order[i]], loader.slots[order[i]]) ==
              LayoutOf(loader.defs, loader.rank, loader.header, order[i])
    {
      assert Settled(loader.defs, loader.rank, loader.header, loader.View(), order[i]);
    }
    forall i | 0 <= i < |order| && ChainOk(loader.defs, loader.rank, loader.header, order[i])
      ensures MovedCells(loader.defs[order[i]].ivars, loader.offsets[order[i]],
                         SuperSize(loader.defs, loader.rank, loader.header, order[i]))
    {
      CellsOf(loader.defs, loader.rank, loader.header, order[i]);
    }
  }

  /** The offset cells as the compiler left them. */
  predicate Raw(cells: seq<Option<int>>, def: ClassDef) {
    |cells| == |def.ivars| && forall k :: 0 <= k < |cells| ==> cells[k] == def.ivars[k].offset
  }
}
