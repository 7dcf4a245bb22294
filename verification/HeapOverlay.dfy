// When the code as written can put a block that the client holds inside free
// memory: exactly after malloc cut a block that another block follows.

module HeapOverlay {
  import opened Common
  import opened HeapInvariant
  import opened HeapLinks
  import opened HeapLoss
  import opened HeapModel
  import opened HeapRefinement
  import opened HeapRuns
  import opened HeapTheorems
  import M = HeapMachine

  // Some block that the client holds lies inside memory offered for allocation.
  ghost predicate OverlaysHeld(m: M.Machine, h: Heap) {
    exists b :: b in h.blocks && b.used && Overlaid(m, b)
  }

  lemma EntryIsApart(m: M.Machine, h: Heap, b: Block, j: nat)
    requires Represents(m, h) && Sound(h) && b in h.blocks && b.used && j < |m.free|
    ensures var a := m.free[j];
            !(a + M.HEADER <= b.addr && b.End() <= a + M.HEADER + M.GetBlockSize(m, a))
  {
    hide M.GetBlockSize, Links;
    var c := h.index[j];
    assert c in h.index;
    var i :| 0 <= i < |h.blocks| && h.blocks[i] == c;
    var k :| 0 <= k < |h.blocks| && h.blocks[k] == b;
    SizeOfBlock(m, h, i);
    HeadersApart(h.blocks, h.base, h.end, i, k);
  }

  // In a sound heap no live block lies in free memory.
  lemma NotOverlaid(m: M.Machine, h: Heap)
    requires Represents(m, h) && Sound(h)
    ensures !OverlaysHeld(m, h)
  {
    hide Represents, Sound, M.GetBlockSize;
    forall b, j | b in h.blocks && b.used && 0 <= j < |m.free|
      ensures var a := m.free[j];
              !(a + M.HEADER <= b.addr && b.End() <= a + M.HEADER + M.GetBlockSize(m, a))
    {
      EntryIsApart(m, h, b, j);
    }
  }

  // A run of the code as written without such a cut, whether or not the index
  // overflows in it, overlays no block that the client holds.
  lemma {:induction false} UncutRunOverlaysNothing(m: M.Machine, h: Heap, ops: seq<Op>)
    requires Represents(m, h) && Sound(h) && h.stale == map[]
    requires ProperRun(m, h, ops, false) && NeverCutsBeforeAnother(m, h, ops)
    ensures !OverlaysHeld(Run(m, ops, false), RunHeap(m, h, ops, false))
    decreases |ops|
  {
    hide Represents, Sound, Proper, Step, StepHeap, CutsBeforeAnother, OverlaysHeld, FreesFar;
    if ops == [] {
      NotOverlaid(m, h);
    } else {
      RightLinksNeverMislead(m, h, ops[0]);
      StepRefines(m, h, ops[0], false);
      StepNotStale(m, h, ops[0], false);
      UncutRunOverlaysNothing(Step(m, ops[0], false), StepHeap(m, h, ops[0], false), ops[1..]);
    }
  }

  // ----- Exactly which free overlays -----

  // The entry that a wrong link names lies before a live block that lies before p.
  lemma NamedFarBlock(m: M.Machine, h: Heap, p: nat) returns (q: nat)
    requires Represents(m, h) && Valid(h) && p < |h.blocks| && h.blocks[p].used && JoinsFar(h, p)
    ensures q + 1 < p && !h.blocks[q].used && h.blocks[q + 1].used
    ensures M.PrevOf(m.mem, h.blocks[p].addr) == h.blocks[q].addr
  {
    var b :| b in h.index && b.addr == StoredPrev(h.blocks, h.stale, p);
    q :| 0 <= q < |h.blocks| && h.blocks[q] == b;
    assert LinkAt(m.mem, h.blocks, h.stale, p);
    HeadersApart(h.blocks, h.base, h.end, q, p);
    assert Separated(h.blocks, q + 1);
  }

  // From a valid heap, freeing a block puts one that is still held inside free
  // memory exactly when its stored prev link is wrong and names an index entry.
  lemma FreeOverlaysIff(m: M.Machine, h: Heap, p: nat)
    requires Represents(m, h) && Valid(h) && p < |h.blocks| && h.blocks[p].used
    ensures (exists b :: b in h.blocks && b.used && b != h.blocks[p] && Overlaid(M.Free(m, h.blocks[p].Payload()).0, b))
            <==> JoinsFar(h, p)
  {
    hide M.Free, Represents, Valid, Sound, JoinsFar, Overlaid, TryFree, LooksUsed, Succeeds;
    ValidIsSound(h, p);
    var m' := M.Free(m, h.blocks[p].Payload()).0;
    if JoinsFar(h, p) {
      var q := NamedFarBlock(m, h, p);
      StaleFreeOverlays(m, h, q, p);
      DifferentBlocks(h, q + 1, p);
    } else {
      var looksUsed := LooksUsed(m.mem, h.blocks[p].addr);
      TryFreeRefines(m, h, p);
      TryFreeKeepsSound(h, p, looksUsed);
      NotOverlaid(m', TryFree(h, p, looksUsed));
      forall b | b in h.blocks && b.used && b != h.blocks[p]
        ensures !Overlaid(m', b)
      {
        FreeLiveMembers(h, p, looksUsed, b);
      }
    }
  }

  lemma DifferentBlocks(h: Heap, i: nat, j: nat)
    requires Valid(h) && i < j < |h.blocks|
    ensures h.blocks[i] != h.blocks[j] && h.blocks[i] in h.blocks
  {
    HeadersApart(h.blocks, h.base, h.end, i, j);
  }

  // ----- Exactly which malloc opens the way -----

  // A client's calls, none of them cutting a block that another block follows,
  // after which a block it holds lies in free memory.
  ghost predicate LeadsToOverlay(m: M.Machine, h: Heap, ops: seq<Op>) {
    && ProperRun(m, h, ops, false) && NeverCutsBeforeAnother(m, h, ops)
    && OverlaysHeld(Run(m, ops, false), RunHeap(m, h, ops, false))
  }

  function CallsAfterCut(h: Heap, size: int): seq<Op>
    requires SplitsBeforeAnother(h, size)
  {
    var p := Chopped(h, size);
    [CallMalloc(Remainder(h, size).size), CallFree(h.blocks[p].Payload()), CallFree(h.blocks[p + 1].Payload())]
  }

  lemma HeldIsLive(h: Heap, i: nat)
    requires Sound(h) && i < |h.blocks| && h.blocks[i].used
    ensures LivePayload(h, h.blocks[i].Payload()) && 0 < h.blocks[i].addr
  {
    HeadersApart(h.blocks, h.base, h.end, i, Position(h.blocks, h.blocks[i].addr));
    HeadersApart(h.blocks, h.base, h.end, i, i);
  }

  // Block c stays held when another block b is freed.
  lemma FreeKeepsHeld(m: M.Machine, h: Heap, b: Block, c: Block)
    requires Sound(h) && b in h.blocks && b.used && c in h.blocks && c.used && b.addr != c.addr
    ensures Proper(h, CallFree(b.Payload()))
    ensures var g := StepHeap(m, h, CallFree(b.Payload()), false); Sound(g) && c in g.blocks
  {
    hide Sound, StepHeap;
    var i :| 0 <= i < |h.blocks| && h.blocks[i] == b;
    HeldIsLive(h, i);
    StepKeepsSound(m, h, CallFree(b.Payload()), false);
    StepKeepsLive(m, h, CallFree(b.Payload()), false, c);
  }

  lemma PiecesHeld(h: Heap, size: int, g: Heap)
    requires SplitsBeforeAnother(h, size) && BothPieces(h, size, g) && Valid(g)
    ensures var p := Chopped(h, size);
            var b, rest, c := Block(h.blocks[p].addr, Padded(size), true), Remainder(h, size).(used := true), h.blocks[p + 1];
            && b in g.blocks && rest in g.blocks && c in g.blocks && c.used
            && b.addr < rest.addr < c.addr && Sound(g)
  {
    var p := Chopped(h, size);
    ValidIsSound(g, p);
    ApartWhenValid(g, p, p + 1);
    ApartWhenValid(g, p + 1, p + 2);
    HeadersApart(g.blocks, g.base, g.end, p, p + 1);
  }

  lemma AfterRemainderTaken(m: M.Machine, h: Heap, size: int)
    requires Represents(m, h) && Valid(h) && h.stale == map[] && 0 < size < U32 && SplitsBeforeAnother(h, size)
    ensures var g, op := Malloc(h, size, false), CallMalloc(Remainder(h, size).size);
            && Proper(g, op) && !CutsBeforeAnother(g, op)
            && var g2 := Malloc(g, op.size, false);
               Valid(g2) && BothPieces(h, size, g2)
  {
    hide M.Malloc, Malloc, Valid, Represents, BothPieces, Remainder, SplitsBeforeAnother, Sound;
    ValidIsSound(h, 0);
    MallocRefines(m, h, size, false);
    RemainderSize(h, size);
    ExactAfterCut(M.Malloc(m, size, false).0, h, size);
  }

  lemma ThreeSteps(m: M.Machine, h: Heap, a: Op, b: Op, c: Op)
    ensures var m1, h1 := Step(m, a, false), StepHeap(m, h, a, false);
            var m2, h2 := Step(m1, b, false), StepHeap(m1, h1, b, false);
            && Run(m, [a, b, c], false) == Step(m2, c, false)
            && RunHeap(m, h, [a, b, c], false) == StepHeap(m2, h2, c, false)
            && (Proper(h, a) && Proper(h1, b) && Proper(h2, c) ==> ProperRun(m, h, [a, b, c], false))
            && (!CutsBeforeAnother(h, a) && !CutsBeforeAnother(h1, b) && !CutsBeforeAnother(h2, c)
                ==> NeverCutsBeforeAnother(m, h, [a, b, c]))
  {
    hide Step, StepHeap, Proper, CutsBeforeAnother, FreesFar;
    assert [a, b, c][1..] == [b, c] && [b, c][1..] == [c] && [c][1..] == [];
    var m1, h1 := Step(m, a, false), StepHeap(m, h, a, false);
    var m2, h2 := Step(m1, b, false), StepHeap(m1, h1, b, false);
    var m3, h3 := Step(m2, c, false), StepHeap(m2, h2, c, false);
    assert RunHeap(m2, h2, [c], false) == RunHeap(m3, h3, [c][1..], false);
    assert Run(m2, [c], false) == m3 && RunHeap(m2, h2, [c], false) == h3;
    assert Run(m1, [b, c], false) == m3 && RunHeap(m1, h1, [b, c], false) == h3;
    assert Proper(h2, c) ==> ProperRun(m2, h2, [c], false);
    assert Proper(h1, b) && Proper(h2, c) ==> ProperRun(m1, h1, [b, c], false);
    assert !CutsBeforeAnother(h2, c) ==> NeverCutsBeforeAnother(m2, h2, [c]);
    assert !CutsBeforeAnother(h1, b) && !CutsBeforeAnother(h2, c) ==> NeverCutsBeforeAnother(m1, h1, [b, c]);
  }

  lemma CutLeadsToOverlay(m: M.Machine, h: Heap, size: int)
    requires Represents(m, h) && Valid(h) && h.stale == map[] && 0 < size < U32 && SplitsBeforeAnother(h, size)
    ensures LeadsToOverlay(M.Malloc(m, size, false).0, Malloc(h, size, false), CallsAfterCut(h, size))
  {
    hide M.Malloc, M.Free, Overlaid, Valid, Represents, Malloc, Free, BothPieces, SplitsBeforeAnother, Sound, Padded;
    hide Remainder, Proper, LooksUsed;
    var p, rest, g := Chopped(h, size), Remainder(h, size).(used := true), Malloc(h, size, false);
    var b, c := Block(h.blocks[p].addr, Padded(size), true), h.blocks[p + 1];
    var ops := CallsAfterCut(h, size);
    var m1 := M.Malloc(m, size, false).0;
    var m2 := Step(m1, ops[0], false);
    CutBeforeAnotherOverlays(m, h, size);
    AfterRemainderTaken(m, h, size);
    var g2 := Malloc(g, rest.size, false);
    PiecesHeld(h, size, g2);
    FreeKeepsHeld(m2, g2, b, rest);
    FreeKeepsHeld(m2, g2, b, c);
    FreeKeepsHeld(Step(m2, ops[1], false), StepHeap(m2, g2, ops[1], false), c, rest);
    ThreeSteps(m1, g, ops[0], ops[1], ops[2]);
  }

  // Once malloc as written has returned, some continuation without another such
  // cut brings a held block into free memory exactly when this malloc cut a block
  // that another block follows.
  lemma OverlayPossibleIff(m: M.Machine, h: Heap, size: int)
    requires Represents(m, h) && Valid(h) && h.stale == map[] && 0 <= size < U32
    ensures (exists ops :: LeadsToOverlay(M.Malloc(m, size, false).0, Malloc(h, size, false), ops))
            <==> SplitsBeforeAnother(h, size)
  {
    hide M.Malloc, Malloc, Valid, Represents, Sound, SplitsBeforeAnother, OverlaysHeld;
    var m1, g := M.Malloc(m, size, false).0, Malloc(h, size, false);
    if SplitsBeforeAnother(h, size) {
      assert size != 0 by { EmptyRequestCutsNothing(h); }
      CutLeadsToOverlay(m, h, size);
    } else {
      var op := CallMalloc(size);
      ValidIsSound(h, 0);
      RightLinksNeverMislead(m, h, op);
      StepRefines(m, h, op, false);
      StepNotStale(m, h, op, false);
      forall ops | ProperRun(m1, g, ops, false) && NeverCutsBeforeAnother(m1, g, ops)
        ensures !LeadsToOverlay(m1, g, ops)
      {
        UncutRunOverlaysNothing(m1, g, ops);
      }
    }
  }

  lemma EmptyRequestCutsNothing(h: Heap)
    ensures !SplitsBeforeAnother(h, 0)
  {
  }
}
