// What becomes of a freed block: it is handed out again if the index took it, and
// otherwise neither handed out nor joined, whatever the client does.

module HeapOverflow {
  import opened Common
  import opened FreeIndex
  import opened HeapInvariant
  import opened HeapModel
  import opened HeapProperties
  import opened HeapRefinement
  import opened HeapRuns
  import M = HeapMachine

  // Block b is unused and no entry names it.
  predicate Lost(h: Heap, b: Block) {
    b in h.blocks && !b.used && b !in h.index
  }

  // What free leaves of block p: one block with the unused neighbours it joined.
  function Freed(h: Heap, p: nat): Block
    requires p < |h.blocks|
  {
    FreedRange(h, p);
    Span(h.blocks, FreedFrom(h, p), FreedTo(h, p))
  }

  // The index has a slot for it.
  predicate HasSlot(h: Heap, p: nat)
    requires p < |h.blocks|
  {
    |h.index| < M.CAPACITY || FreedFrom(h, p) < p || p + 1 < FreedTo(h, p)
  }

  lemma JoinedCount(h: Heap, p: nat)
    requires Sound(h) && p < |h.blocks| && h.blocks[p].used
    ensures |Joined(h, p).0.index| == |h.index| - (FreedTo(h, p) - FreedFrom(h, p) - 1)
  {
    hide Sound, Merged, AbsorbNext;
    if IndexedAt(h, p + 1) {
      NextGoes(h, p);
      if LinkRight(h, p) && IndexedAt(h, p - 1) {
        MergedIs(h, p);
      }
    }
  }

  lemma NextGoes(h: Heap, p: nat)
    requires Sound(h) && p < |h.blocks| && h.blocks[p].used && IndexedAt(h, p + 1)
    ensures |AbsorbNext(Release(h, p), p).index| == |h.index| - (JoinEnd(h, p) - p - 1)
  {
    AbsorbNextIs(h, p);
  }

  // free leaves the block in the index exactly when it succeeds and finds a slot;
  // otherwise the block is lost.
  lemma FreedIsKeptIff(h: Heap, p: nat, looksUsed: bool)
    requires Sound(h) && p < |h.blocks| && h.blocks[p].used
    ensures var g := TryFree(h, p, looksUsed);
            && (Freed(h, p) in g.index <==> Succeeds(h, p, looksUsed) && HasSlot(h, p))
            && (Freed(h, p) in g.index || Lost(g, Freed(h, p)))
  {
    hide Sound, Joined, Spliced, AddFree, Succeeds, FreedFrom, FreedTo, Span;
    FreedRange(h, p);
    JoinedIsSpliced(h, p);
    JoinedCount(h, p);
    var (g, q) := Joined(h, p);
    SplicedIsSound(h, g, q, FreedTo(h, p));
    SplicedAt(h, g, q, FreedTo(h, p));
    SoundFits(h);
    Inserted(g, q);
    assert g.blocks[q] in g.blocks;
  }

  lemma SoundFits(h: Heap)
    requires Sound(h)
    ensures |h.index| <= M.CAPACITY
  {
  }

  lemma Inserted(g: Heap, q: nat)
    requires Sound(g) && q < |g.blocks| && forall c :: c in g.index ==> c.addr != g.blocks[q].addr
    ensures g.blocks[q] in AddFree(g.index, g.blocks[q]) <==> |g.index| < M.CAPACITY
  {
    if |g.index| < M.CAPACITY {
      InsertSortedKeepsOrder(g.index, g.blocks[q]);
    }
  }

  lemma SplicedKeepsLost(h: Heap, g: Heap, lo: nat, hi: nat, b: Block)
    requires Sound(h) && Spliced(h, g, lo, hi) && Lost(h, b)
    requires forall i :: lo <= i < hi ==> h.blocks[i] != b
    ensures Lost(g, b) && b.addr != h.blocks[lo].addr
  {
    var i :| 0 <= i < |h.blocks| && h.blocks[i] == b;
    HeadersApart(h.blocks, h.base, h.end, i, lo);
    SpanMembers(h.blocks, h.base, h.end, lo, hi, b);
  }

  lemma AddFreeKeepsLost(g: Heap, q: nat, b: Block)
    requires Sound(g) && q < |g.blocks| && Lost(g, b) && b.addr != g.blocks[q].addr
    requires forall c :: c in g.index ==> c.addr != g.blocks[q].addr
    ensures Lost(g.(index := AddFree(g.index, g.blocks[q])), b)
  {
    if |g.index| < M.CAPACITY {
      InsertSortedKeepsOrder(g.index, g.blocks[q]);
    }
  }

  lemma TryFreeKeepsLost(h: Heap, p: nat, looksUsed: bool, b: Block)
    requires Sound(h) && p < |h.blocks| && h.blocks[p].used && Lost(h, b)
    ensures Lost(TryFree(h, p, looksUsed), b)
  {
    hide Sound, Spliced, Joined, AddFree, Succeeds;
    JoinedIsSpliced(h, p);
    var (g, q) := Joined(h, p);
    SplicedIsSound(h, g, q, FreedTo(h, p));
    SplicedKeepsLost(h, g, q, FreedTo(h, p), b);
    SplicedAt(h, g, q, FreedTo(h, p));
    if Succeeds(h, p, looksUsed) {
      AddFreeKeepsLost(g, q, b);
    }
  }

  lemma SplicedAt(h: Heap, g: Heap, lo: nat, hi: nat)
    requires Spliced(h, g, lo, hi)
    ensures lo < |g.blocks| && g.blocks[lo] == Span(h.blocks, lo, hi)
  {
  }

  lemma TakeKeepsLost(h: Heap, k: nat, p: nat, b: Block)
    requires Sound(h) && k < |h.index| && p < |h.blocks| && h.blocks[p] == h.index[k] && Lost(h, b)
    ensures Lost(Take(h, k, p), b)
  {
    var i :| 0 <= i < |h.blocks| && h.blocks[i] == b;
    assert Take(h, k, p).blocks[i] == b;
    RemoveAtKeepsOrder(h.index, k);
  }

  lemma CutKeepsLost(h: Heap, p: nat, padded: int, linksBack: bool, b: Block)
    requires Sound(h) && CanCut(h, p, padded) && Lost(h, b)
    ensures Lost(Cut(h, p, padded, linksBack), b) && b.addr != Rest(h.blocks[p], padded).addr
  {
    var i :| 0 <= i < |h.blocks| && h.blocks[i] == b;
    assert Cut(h, p, padded, linksBack).blocks[if i < p then i else i + 1] == b;
    HeadersApart(h.blocks, h.base, h.end, i, p);
  }

  lemma AllocateKeepsLost(h: Heap, k: nat, p: nat, padded: int, linksBack: bool, b: Block)
    requires Sound(h) && k < |h.index| && p < |h.blocks| && h.blocks[p] == h.index[k] && Lost(h, b)
    requires 0 <= padded && padded % 4 == 0
    ensures Lost(Allocate(h, k, p, padded, linksBack), b)
  {
    hide Sound, Cut, AddFree, Lost;
    TakeKeepsSound(h, k, p);
    TakeKeepsLost(h, k, p, b);
    if Splits(h.blocks[p], padded) {
      var g := Take(h, k, p);
      CutKeepsSound(g, p, padded, linksBack);
      CutKeepsLost(g, p, padded, linksBack, b);
      CutPieces(g, p, padded, linksBack);
      AddFreeKeepsLost(Cut(g, p, padded, linksBack), p + 1, b);
    }
  }

  lemma StepKeepsLost(m: M.Machine, h: Heap, op: Op, linksBack: bool, b: Block)
    requires Sound(h) && Proper(h, op) && Lost(h, b)
    ensures Lost(StepHeap(m, h, op, linksBack), b)
  {
    hide Sound, Allocate, TryFree, Lost, Chosen, LooksUsed;
    match op
    case CallMalloc(size) =>
      var k := FindFirstGte(SizesOf(h.index), Padded(size));
      if size != 0 && k < |h.index| {
        ChosenIsEntry(h, k);
        AllocateKeepsLost(h, k, Chosen(h, k), Padded(size), linksBack, b);
      }
    case CallFree(payload) =>
      if LivePayload(h, payload) {
        TryFreeKeepsLost(h, Position(h.blocks, payload - M.HEADER), LooksUsed(m.mem, payload - M.HEADER), b);
      }
    case Store(_, _) =>
  }

  // A lost block stays lost over every run that never frees across blocks.
  lemma {:induction false} LostForever(m: M.Machine, h: Heap, ops: seq<Op>, linksBack: bool, b: Block)
    requires Sound(h) && Lost(h, b)
    requires ProperRun(m, h, ops, linksBack) && NeverFreesFar(m, h, ops, linksBack)
    ensures Lost(RunHeap(m, h, ops, linksBack), b)
    decreases |ops|
  {
    hide Sound, Lost, Proper, FreesFar, Step, StepHeap;
    if ops != [] {
      StepKeepsSound(m, h, ops[0], linksBack);
      StepKeepsLost(m, h, ops[0], linksBack, b);
      LostForever(Step(m, ops[0], linksBack), StepHeap(m, h, ops[0], linksBack), ops[1..], linksBack, b);
    }
  }

  // ----- Freed memory is handed out again -----

  predicate Contains(b: Block, c: Block) { b.addr <= c.addr && c.End() <= b.End() }

  // The calls hand out a block that contains b.
  ghost predicate HandsOut(m: M.Machine, h: Heap, ops: seq<Op>, linksBack: bool, b: Block) {
    && ProperRun(m, h, ops, linksBack) && NeverFreesFar(m, h, ops, linksBack)
    && exists c :: c in RunHeap(m, h, ops, linksBack).blocks && c.used && Contains(c, b)
  }

  // A request that entry e serves without a cut.
  function Request(e: Block): int {
    var r := e.size - e.size % 4;
    if r == 0 then U32 - 1 else r
  }

  lemma RequestPads(e: Block)
    requires 0 <= e.size < U32
    ensures 0 < Request(e) < U32 && Padded(Request(e)) == e.size - e.size % 4
  {
    PaddedBounds(Request(e));
    assert e.size % 4 == 0 ==> (e.size - e.size % 4) % 4 == 0;
  }

  lemma EntrySize(h: Heap, e: Block)
    requires Sound(h) && e in h.index
    ensures 0 <= e.size < U32
  {
    var i :| 0 <= i < |h.blocks| && h.blocks[i] == e;
    HeadersApart(h.blocks, h.base, h.end, i, i);
  }

  // The search for that request finds e, or another entry that serves it whole.
  lemma RequestFinds(h: Heap, e: Block)
    requires Sound(h) && e in h.index
    ensures var k := FindFirstGte(SizesOf(h.index), e.size - e.size % 4);
            k < |h.index| && e.size - e.size % 4 <= h.index[k].size <= e.size
  {
    var sizes := SizesOf(h.index);
    var j :| 0 <= j < |h.index| && h.index[j] == e;
    FindFirstGteIsLowerBound(sizes, e.size - e.size % 4);
    var k := FindFirstGte(sizes, e.size - e.size % 4);
    assert sizes[j] == e.size;
    assert k < |sizes| ==> sizes[k] == h.index[k].size;
    assert k < j ==> sizes[k] <= sizes[j];
  }

  lemma RequestTakes(h: Heap, e: Block, linksBack: bool)
    requires Sound(h) && e in h.index
    ensures var k := FindFirstGte(SizesOf(h.index), e.size - e.size % 4);
            var g := Malloc(h, Request(e), linksBack);
            && k < |h.index| && g.index == RemoveAt(h.index, k) && Sound(g)
            && h.index[k].(used := true) in g.blocks
  {
    hide Sound, Padded, Chosen;
    EntrySize(h, e);
    RequestPads(e);
    RequestFinds(h, e);
    MallocKeepsSound(h, Request(e), linksBack);
    var k := FindFirstGte(SizesOf(h.index), e.size - e.size % 4);
    ChosenIsEntry(h, k);
    var p, g := Chosen(h, k), Malloc(h, Request(e), linksBack);
    assert g == Take(h, k, p);
    assert g.blocks[p] == h.index[k].(used := true);
  }

  // Repeating the request of an entry hands it out.
  lemma {:induction false} EntryIsHandedOut(m: M.Machine, h: Heap, e: Block, linksBack: bool) returns (ops: seq<Op>)
    requires Sound(h) && e in h.index
    ensures ProperRun(m, h, ops, linksBack) && NeverFreesFar(m, h, ops, linksBack)
    ensures e.(used := true) in RunHeap(m, h, ops, linksBack).blocks
    decreases |h.index|
  {
    hide Sound, Malloc, Step, Request;
    EntrySize(h, e);
    RequestPads(e);
    RequestTakes(h, e, linksBack);
    var k := FindFirstGte(SizesOf(h.index), e.size - e.size % 4);
    var op := CallMalloc(Request(e));
    var m1, g := Step(m, op, linksBack), Malloc(h, Request(e), linksBack);
    if h.index[k] == e {
      ops := [op];
      assert RunHeap(m1, g, [], linksBack) == g && ProperRun(m1, g, [], linksBack) && NeverFreesFar(m1, g, [], linksBack);
      assert ops[1..] == [];
    } else {
      var rest := EntryIsHandedOut(m1, g, e, linksBack);
      ops := [op] + rest;
      assert ops[1..] == rest;
    }
  }

  lemma NotBoth(h: Heap, b: Block, c: Block, d: Block)
    requires Sound(h) && b in h.blocks && c in h.blocks && Contains(b, d) && Contains(c, d) && 0 <= d.size
    ensures b == c
  {
    var i :| 0 <= i < |h.blocks| && h.blocks[i] == b;
    var j :| 0 <= j < |h.blocks| && h.blocks[j] == c;
    HeadersApart(h.blocks, h.base, h.end, i, j);
  }

  lemma FreedContains(h: Heap, p: nat)
    requires Sound(h) && p < |h.blocks|
    ensures Contains(Freed(h, p), h.blocks[p]) && 0 <= h.blocks[p].size
  {
    hide FreedFrom, FreedTo;
    FreedRange(h, p);
    HeadersApart(h.blocks, h.base, h.end, FreedFrom(h, p), p);
    HeadersApart(h.blocks, h.base, h.end, p, FreedTo(h, p) - 1);
  }

  lemma {:induction false} RunKeepsSound(m: M.Machine, h: Heap, ops: seq<Op>, linksBack: bool)
    requires Sound(h) && ProperRun(m, h, ops, linksBack) && NeverFreesFar(m, h, ops, linksBack)
    ensures Sound(RunHeap(m, h, ops, linksBack))
    decreases |ops|
  {
    hide Sound, Proper, FreesFar, Step, StepHeap;
    if ops != [] {
      StepKeepsSound(m, h, ops[0], linksBack);
      RunKeepsSound(Step(m, ops[0], linksBack), StepHeap(m, h, ops[0], linksBack), ops[1..], linksBack);
    }
  }

  lemma LostIsNotHandedOut(m: M.Machine, h: Heap, ops: seq<Op>, linksBack: bool, b: Block, d: Block)
    requires Sound(h) && Lost(h, b) && Contains(b, d) && 0 <= d.size
    ensures !HandsOut(m, h, ops, linksBack, d)
  {
    hide Sound, ProperRun, NeverFreesFar, RunHeap, Contains;
    if HandsOut(m, h, ops, linksBack, d) {
      LostForever(m, h, ops, linksBack, b);
      RunKeepsSound(m, h, ops, linksBack);
      var g := RunHeap(m, h, ops, linksBack);
      var c :| c in g.blocks && c.used && Contains(c, d);
      NotBoth(g, b, c, d);
    }
  }

  // Some further calls hand out the memory of a freed block again exactly when the
  // free succeeded and the index had a slot for the block.
  lemma HandedOutAgainIff(m: M.Machine, h: Heap, p: nat, linksBack: bool)
    requires Represents(m, h) && Sound(h) && p < |h.blocks| && h.blocks[p].used && !JoinsFar(h, p)
    ensures var m1, looksUsed := M.Free(m, h.blocks[p].Payload()).0, LooksUsed(m.mem, h.blocks[p].addr);
            (exists ops :: HandsOut(m1, TryFree(h, p, looksUsed), ops, linksBack, h.blocks[p]))
            <==> Succeeds(h, p, looksUsed) && HasSlot(h, p)
  {
    hide M.Free, Sound, TryFree, Succeeds, HasSlot, LooksUsed, Lost, Freed, Contains, Represents, JoinsFar;
    var m1, looksUsed := M.Free(m, h.blocks[p].Payload()).0, LooksUsed(m.mem, h.blocks[p].addr);
    var g, b, e := TryFree(h, p, looksUsed), h.blocks[p], Freed(h, p);
    TryFreeKeepsSound(h, p, looksUsed);
    FreedIsKeptIff(h, p, looksUsed);
    FreedContains(h, p);
    if Succeeds(h, p, looksUsed) && HasSlot(h, p) {
      var ops := EntryIsHandedOut(m1, g, e, linksBack);
      SameRange(e, b);
      assert HandsOut(m1, g, ops, linksBack, b);
    } else {
      forall ops
        ensures !HandsOut(m1, g, ops, linksBack, b)
      {
        LostIsNotHandedOut(m1, g, ops, linksBack, e, b);
      }
    }
  }

  // In a valid heap, with a right prev link, that is room in the index.
  lemma RoomIsSlot(h: Heap, p: nat, looksUsed: bool)
    requires Valid(h) && p < |h.blocks| && h.blocks[p].used && LinkRight(h, p)
    ensures !JoinsFar(h, p) && (Succeeds(h, p, looksUsed) && HasSlot(h, p) <==> Room(h, p))
  {
  }

  lemma SameRange(e: Block, b: Block)
    requires Contains(e, b)
    ensures Contains(e.(used := true), b)
  {
  }
}
