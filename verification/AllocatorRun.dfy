/** Whole runs of the small-block allocator: whatever a client asks for, gives back and writes, the blocks it
    holds behave like separate pieces of memory that were zero when they were handed out. */
module AllocatorRun {
  import opened Wrappers
  import opened Allocator

  /** What a client does next. It knows its blocks by their order; `base` is where a slab would be mapped if there
      is room for one, and otherwise where calloc's region would be. */
  datatype Request =
    | Get(size: nat, align: nat, page: nat, base: Addr, room: bool)
    | Give(i: nat)
    | Set(i: nat, k: nat, v: nat)

  /** A block as a client thinks of it: the size it asked for and a memory of its own. */
  datatype Piece = Piece(a: Addr, size: nat, words: seq<nat>)

  /** The client's pieces after a request, given the block it was answered with, if any. */
  function Next(pieces: seq<Piece>, r: Request, answer: Option<Addr>): seq<Piece> {
    match r
    case Get(size, _, _, _, _) =>
      if answer.Some? && BinOf(size).Some? then
        pieces + [Piece(answer.value, size, seq(BinWords(BinOf(size).value), _ => 0))]
      else pieces
    case Give(i) => if i < |pieces| then pieces[..i] + pieces[i + 1..] else pieces
    case Set(i, k, v) =>
      if i < |pieces| && k < |pieces[i].words| then
        pieces[i := pieces[i].(words := pieces[i].words[k := v])]
      else pieces
  }

  function Replay(requests: seq<Request>, answers: seq<Option<Addr>>): seq<Piece>
    requires |requests| == |answers|
  {
    if requests == [] then []
    else
      var n := |requests| - 1;
      Next(Replay(requests[..n], answers[..n]), requests[n], answers[n])
  }

  /** The memory has the piece: a block handed out, of the right bin, with its words. */
  ghost predicate Kept(h: Heap, p: Piece) {
    && BinOf(p.size).Some? && p.a in h.handed && p.a in h.blocks && h.blocks[p.a] == BinOf(p.size).value
    && |p.words| == BinWords(BinOf(p.size).value)
    && forall k :: 0 <= k < |p.words| ==> WordIs(h.mem, p.a + k, p.words[k])
  }

  ghost predicate WordIs(mem: Memory, w: Addr, v: nat) {
    w in mem && mem[w] == v
  }

  /** The pieces are exactly the blocks handed out, each once. */
  ghost predicate Agrees(h: Heap, pieces: seq<Piece>) {
    && Inv(h)
    && (forall i :: 0 <= i < |pieces| ==> Kept(h, pieces[i]))
    && (forall i, j :: 0 <= i < j < |pieces| ==> pieces[i].a != pieces[j].a)
    && forall a :: a in h.handed ==> exists i :: 0 <= i < |pieces| && pieces[i].a == a
  }

  /** What agreement means for a client: its pieces are aligned, large enough, and share no word. */
  lemma {:induction false} PiecesAreApart(h: Heap, pieces: seq<Piece>, i: nat, j: nat, k: nat, l: nat)
    requires Agrees(h, pieces) && i < |pieces| && j < |pieces| && k < |pieces[i].words| && l < |pieces[j].words|
    ensures pieces[i].a % 2 == 0 && pieces[i].size <= |pieces[i].words| * WORD < pieces[i].size + GRANULE
    ensures i != j ==> pieces[i].a + k != pieces[j].a + l
  {
    hide Inv;
    assert Kept(h, pieces[i]) && Kept(h, pieces[j]);
    BlocksArePartitioned(h, pieces[i].a, pieces[j].a);
    if i < j {
      assert pieces[i].a != pieces[j].a;
    } else if j < i {
      assert pieces[j].a != pieces[i].a;
    }
  }

  lemma {:induction false} KeptSame(h: Heap, h1: Heap, p: Piece)
    requires Kept(h, p) && p.a in h1.handed && p.a in h1.blocks && h1.blocks[p.a] == h.blocks[p.a]
    requires SameWords(h.mem, h1.mem, p.a, h.blocks[p.a])
    ensures Kept(h1, p)
  {
    forall k | 0 <= k < |p.words| ensures WordIs(h1.mem, p.a + k, p.words[k]) {
      assert WordIs(h.mem, p.a + k, p.words[k]);
    }
  }

  lemma {:induction false} NewIsKept(h: Heap, a: Addr, size: nat)
    requires BinOf(size).Some? && a in h.handed && a in h.blocks && h.blocks[a] == BinOf(size).value
    requires ZeroFrom(h.mem, a, 0, h.blocks[a])
    ensures Kept(h, Piece(a, size, seq(BinWords(BinOf(size).value), _ => 0)))
  {
  }

  lemma {:induction false} SameAgrees(h: Heap, h1: Heap, pieces: seq<Piece>)
    requires Agrees(h, pieces) && Inv(h1) && h1.handed == h.handed
    requires forall b :: b in h.handed ==>
               && b in h.blocks && b in h1.blocks && h1.blocks[b] == h.blocks[b]
               && SameWords(h.mem, h1.mem, b, h1.blocks[b])
    ensures Agrees(h1, pieces)
  {
    hide Inv, SameWords;
    forall i | 0 <= i < |pieces| ensures Kept(h1, pieces[i]) {
      assert Kept(h, pieces[i]);
      KeptSame(h, h1, pieces[i]);
    }
  }

  /** A new block, apart from those handed out before, is a new piece. */
  lemma {:induction false} GetAgrees(h: Heap, h1: Heap, pieces: seq<Piece>, a: Addr, size: nat)
    requires Agrees(h, pieces) && Inv(h1) && BinOf(size).Some?
    requires a !in h.handed && h1.handed == h.handed + {a} && a in h1.blocks && h1.blocks[a] == BinOf(size).value
    requires ZeroFrom(h1.mem, a, 0, h1.blocks[a])
    requires forall b :: b in h.handed ==>
               && b in h.blocks && b in h1.blocks && h1.blocks[b] == h.blocks[b]
               && SameWords(h.mem, h1.mem, b, h1.blocks[b])
    ensures Agrees(h1, pieces + [Piece(a, size, seq(BinWords(BinOf(size).value), _ => 0))])
  {
    hide Inv, ZeroFrom, SameWords;
    var p := Piece(a, size, seq(BinWords(BinOf(size).value), _ => 0));
    var more := pieces + [p];
    NewIsKept(h1, a, size);
    forall i | 0 <= i < |more| ensures Kept(h1, more[i]) {
      if i < |pieces| {
        assert Kept(h, pieces[i]);
        KeptSame(h, h1, pieces[i]);
      }
    }
    forall i, j | 0 <= i < j < |more| ensures more[i].a != more[j].a {
      assert Kept(h, pieces[i]);
    }
    forall b | b in h1.handed ensures exists i :: 0 <= i < |more| && more[i].a == b {
      if b == a {
        assert more[|pieces|].a == b;
      } else {
        var i :| 0 <= i < |pieces| && pieces[i].a == b;
        assert more[i].a == b;
      }
    }
  }

  /** Giving a block back changes no word of another. */
  lemma {:induction false} PutElsewhere(h: Heap, a: Addr, b: Addr)
    requires Inv(h) && a in h.handed && a in h.blocks && h.blocks[a] < BINS && b in h.blocks && a != b
    ensures SameWords(h.mem, Put(h, a).mem, b, h.blocks[b])
  {
    Elsewhere(h, a, b);
  }

  lemma {:induction false} OthersKept(h: Heap, pieces: seq<Piece>, i: nat, k: nat)
    requires Agrees(h, pieces) && i < |pieces| && k < |pieces| && i != k
    requires pieces[i].a in h.blocks && h.blocks[pieces[i].a] < BINS && Shaped(h)
    ensures pieces[k].a != pieces[i].a && Kept(Put(h, pieces[i].a), pieces[k])
  {
    hide Inv, SameWords;
    assert Kept(h, pieces[i]) && Kept(h, pieces[k]);
    if i < k {
      assert pieces[i].a != pieces[k].a;
    } else {
      assert pieces[k].a != pieces[i].a;
    }
    PutElsewhere(h, pieces[i].a, pieces[k].a);
    KeptSame(h, Put(h, pieces[i].a), pieces[k]);
  }

  lemma {:induction false} GiveAgrees(h: Heap, pieces: seq<Piece>, i: nat)
    requires Agrees(h, pieces) && i < |pieces|
    requires pieces[i].a in h.blocks && h.blocks[pieces[i].a] < BINS && Shaped(h) && Inv(Put(h, pieces[i].a))
    ensures Agrees(Put(h, pieces[i].a), pieces[..i] + pieces[i + 1..])
  {
    hide Inv, Kept;
    var h1, fewer := Put(h, pieces[i].a), pieces[..i] + pieces[i + 1..];
    forall j | 0 <= j < |fewer| ensures Kept(h1, fewer[j]) {
      var k := if j < i then j else j + 1;
      assert fewer[j] == pieces[k];
      OthersKept(h, pieces, i, k);
    }
    forall j, k | 0 <= j < k < |fewer| ensures fewer[j].a != fewer[k].a {
      assert fewer[j] == pieces[if j < i then j else j + 1] && fewer[k] == pieces[if k < i then k else k + 1];
    }
    forall b | b in h1.handed ensures exists j :: 0 <= j < |fewer| && fewer[j].a == b {
      var k :| 0 <= k < |pieces| && pieces[k].a == b;
      assert fewer[if k < i then k else k - 1] == pieces[k];
    }
  }

  lemma {:induction false} SetAgrees(h: Heap, pieces: seq<Piece>, i: nat, k: nat, v: nat)
    requires Agrees(h, pieces) && i < |pieces| && k < |pieces[i].words|
    requires Inv(h.(mem := h.mem[pieces[i].a + k := v]))
    ensures Agrees(h.(mem := h.mem[pieces[i].a + k := v]), Next(pieces, Set(i, k, v), None))
  {
    hide Inv;
    var h1, set1 := h.(mem := h.mem[pieces[i].a + k := v]), Next(pieces, Set(i, k, v), None);
    assert Kept(h, pieces[i]);
    forall j | 0 <= j < |set1| ensures Kept(h1, set1[j]) {
      assert Kept(h, pieces[j]);
      forall l | 0 <= l < |set1[j].words| ensures WordIs(h1.mem, set1[j].a + l, set1[j].words[l]) {
        assert WordIs(h.mem, pieces[j].a + l, pieces[j].words[l]);
        PiecesAreApart(h, pieces, i, j, k, l);
      }
    }
    forall b | b in h1.handed ensures exists j :: 0 <= j < |set1| && set1[j].a == b {
      var j :| 0 <= j < |pieces| && pieces[j].a == b;
      assert set1[j].a == b;
    }
  }

  /** The system can answer with memory where the request says. */
  predicate CanMap(mem: Memory, r: Request) {
    && r.Get? && r.page > 0 && r.page % GRANULE == 0 && r.base > 0 && r.base % 2 == 0
    && (BinOf(r.size).Some? ==> Unmapped(mem, r.base, Wanted(r.size, r.page, r.room)))
  }

  /** One request. A block is given back with the size it was asked for; a request about a block the client does
      not hold, or a slab where memory is mapped already, is none. */
  method Serve(b: Bins, pieces: seq<Piece>, r: Request) returns (answer: Option<Addr>)
    requires b.Valid() && Agrees(b.View(), pieces)
    modifies b
    ensures b.Valid() && Agrees(b.View(), Next(pieces, r, answer))
    ensures answer.Some? ==> CanMap(old(b.mem), r) && r.align <= WORD && BinOf(r.size).Some?
    ensures CanMap(old(b.mem), r) && r.align <= WORD && BinOf(r.size).Some? && answer.None? ==>
              !r.room && RegionWords(r.size) < BinWords(BinOf(r.size).value)
  {
    hide Inv, Next, ZeroFrom, SameWords, Unmapped;
    answer := None;
    match r
    case Get(size, align, page, base, room) =>
      NextGet(pieces, r, answer);
      if CanMap(b.mem, r) {
        ghost var h := b.View();
        var got := b.Alloc(size, align, page, base, room);
        if got.Short? {
          SameAgrees(h, b.View(), pieces);
        } else if got.Block? {
          answer := Some(got.a);
          GetAgrees(h, b.View(), pieces, got.a, size);
          NextGet(pieces, r, answer);
        }
      }
    case Give(i) =>
      NextGive(pieces, i);
      if i < |pieces| {
        assert Kept(b.View(), pieces[i]);
        ghost var h := b.View();
        AddressIsNotNull(h, pieces[i].a);
        PutKeeps(h, pieces[i].a);
        GiveAgrees(h, pieces, i);
        var library := b.Free(pieces[i].a, pieces[i].size, WORD);
      }
    case Set(i, k, v) =>
      NextSet(pieces, i, k, v);
      if i < |pieces| && k < |pieces[i].words| {
        assert Kept(b.View(), pieces[i]);
        WriteKeeps(b.View(), pieces[i].a, k, v);
        SetAgrees(b.View(), pieces, i, k, v);
        b.Write(pieces[i].a, k, v);
      }
  }

  lemma {:induction false} AddressIsNotNull(h: Heap, a: Addr)
    requires Inv(h) && a in h.blocks
    ensures a != 0 && Shaped(h) && h.blocks[a] < BINS
  {
    assert GoodBlock(h, a);
  }

  lemma {:induction false} NextGet(pieces: seq<Piece>, r: Request, answer: Option<Addr>)
    requires r.Get?
    ensures Next(pieces, r, answer) ==
            if answer.Some? && BinOf(r.size).Some? then
              pieces + [Piece(answer.value, r.size, seq(BinWords(BinOf(r.size).value), _ => 0))]
            else pieces
  {
  }

  lemma {:induction false} NextGive(pieces: seq<Piece>, i: nat)
    ensures Next(pieces, Give(i), None) == if i < |pieces| then pieces[..i] + pieces[i + 1..] else pieces
  {
  }

  lemma {:induction false} NextSet(pieces: seq<Piece>, i: nat, k: nat, v: nat)
    ensures !(i < |pieces| && k < |pieces[i].words|) ==> Next(pieces, Set(i, k, v), None) == pieces
  {
  }

  /** After any requests to an allocator that has mapped nothing yet, the client's pieces are what its own
      requests made of them: each a block of its own, zero but for what was written into it since. */
  method ServeAll(requests: seq<Request>) returns (b: Bins, answers: seq<Option<Addr>>)
    ensures |answers| == |requests| && b.Valid() && Agrees(b.View(), Replay(requests, answers))
  {
    hide Inv, Next;
    b := new Bins();
    answers := [];
    var pieces: seq<Piece> := [];
    var i := 0;
    assert requests[..0] == [];
    while i < |requests|
      invariant i <= |requests| && |answers| == i && fresh(b)
      invariant b.Valid() && Agrees(b.View(), pieces) && pieces == Replay(requests[..i], answers)
    {
      var answer := Serve(b, pieces, requests[i]);
      pieces := Next(pieces, requests[i], answer);
      ReplayStep(requests, answers, i, answer);
      answers := answers + [answer];
      i := i + 1;
    }
    assert requests[..i] == requests;
  }

  lemma {:induction false} ReplayStep(requests: seq<Request>, answers: seq<Option<Addr>>, i: nat, answer: Option<Addr>)
    requires i < |requests| && |answers| == i
    ensures Replay(requests[..i + 1], answers + [answer]) ==
            Next(Replay(requests[..i], answers), requests[i], answer)
  {
    assert requests[..i + 1][..i] == requests[..i] && (answers + [answer])[..i] == answers;
  }
}
