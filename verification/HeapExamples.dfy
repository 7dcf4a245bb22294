// Concrete runs of the code as written, in a heap of 4096 bytes at address 4096,
// that show what a wrong prev link leads to.

module HeapExamples {
  import opened Common
  import opened FreeIndex
  import opened HeapFreeAll
  import opened HeapInvariant
  import opened HeapLinks
  import opened HeapLoss
  import opened HeapModel
  import opened HeapOverlay
  import opened HeapProperties
  import opened HeapRefinement
  import opened HeapRuns
  import opened HeapTheorems
  import M = HeapMachine

  // ----- Computing steps -----

  lemma SearchInOne(b: Block, key: int)
    ensures FindFirstGte(SizesOf([b]), key) == if key <= b.size then 0 else 1
  {
  }

  lemma PositionIs(bs: seq<Block>, i: nat)
    requires i < |bs| && forall j :: 0 <= j < i ==> bs[j].addr != bs[i].addr
    ensures Position(bs, bs[i].addr) == i
  {
  }

  // malloc that takes the only, or the first, entry that is large enough.
  lemma MallocTakes(h: Heap, k: nat, p: nat, size: int)
    requires k < |h.index| && p < |h.blocks| && h.blocks[p] == h.index[k]
    requires forall j :: 0 <= j < p ==> h.blocks[j].addr != h.blocks[p].addr
    requires 0 < size && size % 4 == 0 && FindFirstGte(SizesOf(h.index), size) == k
    ensures Malloc(h, size, false) == Allocate(h, k, p, size, false)
  {
    PositionIs(h.blocks, p);
  }

  // ----- Up to the cut -----

  const FIRST := Block(4096, 100, true)
  const SECOND := Block(4208, 100, true)
  const TAIL := Block(4320, 3860, false)

  const ONE_LIVE := Heap([FIRST, Block(4208, 3972, false)], [Block(4208, 3972, false)], map[], 4096, 8192)
  const TWO_LIVE := Heap([FIRST, SECOND, TAIL], [TAIL], map[], 4096, 8192)

  // After a = malloc(100), b = malloc(100), free(a).
  const BEFORE_CUT := Heap(
    [FIRST.(used := false), SECOND, TAIL], [FIRST.(used := false), TAIL], map[], 4096, 8192)

  // After malloc(24) and malloc(64), with b's prev link wrong.
  const HEAD := Block(4096, 24, true)
  const PIECE := Block(4132, 64, true)
  const CUT := Heap(
    [HEAD, PIECE.(used := false), SECOND, TAIL], [PIECE.(used := false), TAIL], map[4208 := 4096], 4096, 8192)
  const THREE_LIVE := Heap([HEAD, PIECE, SECOND, TAIL], [TAIL], map[4208 := 4096], 4096, 8192)

  lemma FirstMalloc()
    ensures Malloc(Initial(4096, 8192), 100, false) == ONE_LIVE
  {
    var h := Initial(4096, 8192);
    SearchInOne(h.index[0], 100);
    MallocTakes(h, 0, 0, 100);
    assert RemoveAt(h.index, 0) == [];
  }

  lemma SecondMalloc()
    ensures Malloc(ONE_LIVE, 100, false) == TWO_LIVE
  {
    SearchInOne(ONE_LIVE.index[0], 100);
    MallocTakes(ONE_LIVE, 0, 1, 100);
    assert RemoveAt(ONE_LIVE.index, 0) == [];
    AllocatedBlocks(ONE_LIVE, 0, 1, 100, false);
  }

  lemma FirstFree(looksUsed: bool)
    ensures LivePayload(TWO_LIVE, 4108) && Room(TWO_LIVE, 0) && Position(TWO_LIVE.blocks, 4096) == 0
    ensures Free(TWO_LIVE, 4108, looksUsed) == BEFORE_CUT
  {
    PositionIs(TWO_LIVE.blocks, 0);
    assert Release(TWO_LIVE, 0).blocks == BEFORE_CUT.blocks;
    SearchInOne(TAIL, 100);
    assert InsertSorted([TAIL], FIRST.(used := false)) == [FIRST.(used := false), TAIL];
  }

  lemma ThirdMalloc()
    ensures Malloc(BEFORE_CUT, 24, false) == CUT && SplitsBeforeAnother(BEFORE_CUT, 24)
    ensures Chopped(BEFORE_CUT, 24) == 0 && Remainder(BEFORE_CUT, 24) == PIECE.(used := false)
  {
    var h := BEFORE_CUT;
    PositionIs(h.blocks, 0);
    MallocTakes(h, 0, 0, 24);
    assert RemoveAt(h.index, 0) == [TAIL];
    SearchInOne(TAIL, 64);
    assert InsertSorted([TAIL], PIECE.(used := false)) == CUT.index;
    AllocatedBlocks(h, 0, 0, 24, false);
    assert CUT.blocks == [HEAD, PIECE.(used := false)] + h.blocks[1..];
  }

  lemma FourthMalloc()
    ensures Malloc(CUT, 64, false) == THREE_LIVE && !SplitsBeforeAnother(CUT, 64)
  {
    PositionIs(CUT.blocks, 1);
    MallocTakes(CUT, 0, 1, 64);
    assert RemoveAt(CUT.index, 0) == [TAIL];
  }

  // The five calls before b and the two pieces are live.
  const PROLOGUE := [CallMalloc(100), CallMalloc(100), CallFree(4108), CallMalloc(24), CallMalloc(64)]

  function Start(mem: map<int, int>): M.Machine { M.Initialized(mem, 4096, 8192) }

  lemma KeepsBoth(m: M.Machine, h: Heap, op: Op)
    requires Represents(m, h) && Valid(h) && Proper(h, op) && !Overflows(h, op) && !Misled(m, h, op)
    ensures Represents(Step(m, op, false), StepHeap(m, h, op, false)) && Valid(StepHeap(m, h, op, false))
  {
    hide Represents, Valid, Sound, Step, StepHeap, Proper, Overflows, Misled, FreesFar;
    ValidIsSound(h, 0);
    if FreesFar(h, op) {
      FarIsMisled(m, h, op);
    }
    StepRefines(m, h, op, false);
    StepKeepsValidIff(m, h, op, false);
  }

  lemma ReachBeforeCut(mem: map<int, int>)
    ensures var m := Run(Start(mem), [CallMalloc(100), CallMalloc(100), CallFree(4108)], false);
            Represents(m, BEFORE_CUT) && Valid(BEFORE_CUT)
  {
    hide M.Malloc, M.Free, Malloc, Free, Represents, Valid, Sound, LivePayload, Room, SplitsBeforeAnother, LooksUsed, M.Initialized;
    var a, f := CallMalloc(100), CallFree(4108);
    var m0, h0 := Start(mem), Initial(4096, 8192);
    InitializeIsWellFormedIff(mem, 4096, 8192);
    FirstMalloc();
    SecondMalloc();
    var m1 := Step(m0, a, false);
    var m2 := Step(m1, a, false);
    FirstFree(LooksUsed(m2.mem, 4096));
    ThreeSteps(m0, h0, a, a, f);
    RightLinksNeverMislead(m0, h0, a);
    KeepsBoth(m0, h0, a);
    RightLinksNeverMislead(m1, ONE_LIVE, a);
    KeepsBoth(m1, ONE_LIVE, a);
    RightLinksNeverMislead(m2, TWO_LIVE, f);
    KeepsBoth(m2, TWO_LIVE, f);
  }

  lemma RunTwo(m: M.Machine, ops: seq<Op>, a: Op, b: Op)
    ensures Run(m, ops + [a, b], false) == Step(Step(Run(m, ops, false), a, false), b, false)
    decreases |ops|
  {
    hide Step;
    if ops == [] {
      assert [] + [a, b] == [a, b] && [a, b][1..] == [b] && [b][1..] == [];
      assert Run(Step(m, a, false), [b], false) == Step(Step(m, a, false), b, false);
    } else {
      assert (ops + [a, b])[1..] == ops[1..] + [a, b];
      RunTwo(Step(m, ops[0], false), ops[1..], a, b);
    }
  }

  lemma ReachThreeLive(mem: map<int, int>)
    ensures var m := Run(Start(mem), PROLOGUE, false);
            Represents(m, THREE_LIVE) && Valid(THREE_LIVE)
  {
    hide M.Malloc, M.Free, Malloc, Free, Represents, Valid, Sound, Run, M.Initialized;
    var ops := [CallMalloc(100), CallMalloc(100), CallFree(4108)];
    ReachBeforeCut(mem);
    var m0 := Run(Start(mem), ops, false);
    assert PROLOGUE == ops + [CallMalloc(24), CallMalloc(64)];
    RunTwo(Start(mem), ops, CallMalloc(24), CallMalloc(64));
    ThirdMalloc();
    KeepsBoth(m0, BEFORE_CUT, CallMalloc(24));
    FourthMalloc();
    KeepsBoth(M.Malloc(m0, 24, false).0, CUT, CallMalloc(64));
  }

  // ----- Every free succeeds, and two unused blocks never join -----

  const PIECE_FREE := Heap(
    [HEAD, PIECE.(used := false), SECOND, TAIL], [PIECE.(used := false), TAIL], map[4208 := 4096], 4096, 8192)
  const WIDE := Block(4208, 3972, false)
  const APART := Heap(
    [HEAD, PIECE.(used := false), WIDE], [PIECE.(used := false), WIDE], map[4208 := 4096], 4096, 8192)
  const TWO_UNUSED := Heap(
    [FIRST.(used := false), WIDE], [FIRST.(used := false), WIDE], map[], 4096, 8192)

  lemma FreePiece(looksUsed: bool)
    ensures Free(THREE_LIVE, 4144, looksUsed) == PIECE_FREE
    ensures LivePayload(THREE_LIVE, 4144) && Position(THREE_LIVE.blocks, 4132) == 1
    ensures LinkRight(THREE_LIVE, 1) && Room(THREE_LIVE, 1)
  {
    PositionIs(THREE_LIVE.blocks, 1);
    assert Release(THREE_LIVE, 1).blocks == PIECE_FREE.blocks;
    SearchInOne(TAIL, 64);
    assert InsertSorted([TAIL], PIECE.(used := false)) == PIECE_FREE.index;
  }

  // b's prev link names the block at 4096, which is in use, so free does not see
  // the unused block in front of b.
  lemma FreeSecond(looksUsed: bool)
    ensures Free(PIECE_FREE, 4220, looksUsed) == APART
    ensures LivePayload(PIECE_FREE, 4220) && Position(PIECE_FREE.blocks, 4208) == 2 && Room(PIECE_FREE, 2)
    ensures !JoinsFar(PIECE_FREE, 2) && Succeeds(PIECE_FREE, 2, looksUsed)
  {
    var h := PIECE_FREE;
    PositionIs(h.blocks, 2);
    PositionIs(h.blocks, 0);
    assert h.index[1] == TAIL && TAIL in h.index;
    var g := AbsorbNext(Release(h, 2), 2);
    assert Position(h.index, TAIL.addr) == 1;
    assert g.index == [PIECE.(used := false)];
    assert g.blocks == APART.blocks && g.stale == APART.stale;
    SearchInOne(PIECE.(used := false), 3972);
    assert InsertSorted(g.index, WIDE) == APART.index;
  }

  lemma FreeHead(looksUsed: bool)
    ensures Free(APART, 4108, looksUsed) == TWO_UNUSED
    ensures LivePayload(APART, 4108) && Position(APART.blocks, 4096) == 0 && Room(APART, 0)
    ensures !JoinsFar(APART, 0) && Succeeds(APART, 0, looksUsed)
  {
    var h := APART;
    PositionIs(h.blocks, 0);
    assert h.index[0] == PIECE.(used := false) && h.index[0] in h.index;
    var g := AbsorbNext(Release(h, 0), 0);
    assert g.index == [WIDE];
    assert g.blocks == TWO_UNUSED.blocks && g.stale == TWO_UNUSED.stale;
    SearchInOne(WIDE, 100);
    assert InsertSorted(g.index, FIRST.(used := false)) == TWO_UNUSED.index;
  }

  // With three live blocks the index never overflows and all three frees succeed,
  // but two unused blocks side by side remain.
  lemma TwoNeverJoin(mem: map<int, int>)
    ensures var m := Run(Start(mem), PROLOGUE, false);
            var (m1, r1) := M.Free(m, 4144);
            var (m2, r2) := M.Free(m1, 4220);
            var (m3, r3) := M.Free(m2, 4108);
            && Represents(m, THREE_LIVE) && Valid(THREE_LIVE)
            && EachOnce(THREE_LIVE, [PIECE, SECOND, HEAD]) && AllLive(THREE_LIVE, [PIECE, SECOND, HEAD])
            && r1 == r2 == r3 == Value(())
            && !Overflows(THREE_LIVE, CallFree(4144)) && !Overflows(PIECE_FREE, CallFree(4220)) && !Overflows(APART, CallFree(4108))
            && Represents(m3, TWO_UNUSED) && !Represents(m3, Initial(4096, 8192))
  {
    hide M.Malloc, M.Free, Malloc, Free, Represents, Valid, Sound, Run, Room, JoinsFar, Succeeds, LooksUsed, TryFree;
    ReachThreeLive(mem);
    var m := Run(Start(mem), PROLOGUE, false);
    var m1 := M.Free(m, 4144).0;
    var m2 := M.Free(m1, 4220).0;
    var m3 := M.Free(m2, 4108).0;
    ValidIsSound(THREE_LIVE, 1);
    FreePiece(LooksUsed(m.mem, 4132));
    RightIsClean(THREE_LIVE, 1, LooksUsed(m.mem, 4132));
    FreeReaches(m, THREE_LIVE, 1);
    FreeSecond(LooksUsed(m1.mem, 4208));
    FreeReaches(m1, PIECE_FREE, 2);
    FreeHead(LooksUsed(m2.mem, 4096));
    FreeReaches(m2, APART, 0);
    TwoIsNotInitial(m3);
  }

  lemma RightIsClean(h: Heap, p: nat, looksUsed: bool)
    requires Valid(h) && p < |h.blocks| && LinkRight(h, p)
    ensures !JoinsFar(h, p) && Succeeds(h, p, looksUsed)
  {
  }

  lemma FreeReaches(m: M.Machine, h: Heap, p: nat)
    requires Represents(m, h) && Sound(h) && p < |h.blocks| && h.blocks[p].used && !JoinsFar(h, p)
    requires Position(h.blocks, h.blocks[p].addr) == p && Succeeds(h, p, LooksUsed(m.mem, h.blocks[p].addr))
    ensures var (m', r) := M.Free(m, h.blocks[p].Payload());
            var g := Free(h, h.blocks[p].Payload(), LooksUsed(m.mem, h.blocks[p].addr));
            r == Value(()) && Represents(m', g) && Sound(g)
  {
    hide M.Free, Represents, Sound, JoinsFar, Succeeds, TryFree, LooksUsed;
    TryFreeRefines(m, h, p);
    TryFreeKeepsSound(h, p, LooksUsed(m.mem, h.blocks[p].addr));
  }

  lemma TwoIsNotInitial(m: M.Machine)
    requires Represents(m, TWO_UNUSED)
    ensures !Represents(m, Initial(4096, 8192))
  {
    assert Addrs(TWO_UNUSED.index) == [4096, 4208];
    NotInitial(m, 4096, 8192, 4208);
  }

  // ----- A held block in free memory, and granted again -----

  const HEAD_FREE := Heap(
    [HEAD.(used := false), PIECE, SECOND, TAIL], [HEAD.(used := false), TAIL], map[4208 := 4096], 4096, 8192)
  const GONE_NEXT := Heap(
    [HEAD.(used := false), PIECE, WIDE], [HEAD.(used := false)], map[4208 := 4096], 4096, 8192)

  lemma FreeHeadFirst(looksUsed: bool)
    ensures Free(THREE_LIVE, 4108, looksUsed) == HEAD_FREE
    ensures Position(THREE_LIVE.blocks, 4096) == 0 && LinkRight(THREE_LIVE, 0)
  {
    PositionIs(THREE_LIVE.blocks, 0);
    assert Release(THREE_LIVE, 0).blocks == HEAD_FREE.blocks;
    SearchInOne(TAIL, 24);
    assert InsertSorted([TAIL], HEAD.(used := false)) == HEAD_FREE.index;
  }

  lemma BeforeFarJoin()
    ensures AbsorbNext(Release(HEAD_FREE, 2), 2) == GONE_NEXT
    ensures IndexedAt(HEAD_FREE, 3)
  {
    var h := HEAD_FREE;
    assert h.index[1] == TAIL && TAIL in h.index;
    assert Position(h.index, TAIL.addr) == 1;
    assert AbsorbNext(Release(h, 2), 2).blocks == GONE_NEXT.blocks;
  }

  // The second merge of free(4220): the block at 4096 is extended over the held one.
  lemma FarJoin(m: M.Machine)
    requires Represents(m, GONE_NEXT) && Sound(GONE_NEXT)
    ensures var (m', r) := M.MergePrev(m, 4208);
            r == Value(4096) && m' == m.(free := [], mem := m.mem[4100 := 0])
  {
    hide M.RemoveFreeBlock;
    var b := HEAD.(used := false);
    assert GONE_NEXT.index[0] == b && b in GONE_NEXT.index;
    RemoveFreeRefines(m, GONE_NEXT, b);
    assert Without(GONE_NEXT.index, 4096) == [];
    assert LinkAt(m.mem, GONE_NEXT.blocks, GONE_NEXT.stale, 0);
    assert LinkAt(m.mem, GONE_NEXT.blocks, GONE_NEXT.stale, 2);
  }

  // What the frees of the head and of b leave: to the allocator it is the initial
  // heap, while the block at 4132 is still held.
  ghost predicate Swallowed(m: M.Machine) {
    && Represents(m, Initial(4096, 8192))
    && M.UsedOf(m.mem, 4132) && M.NextOf(m.mem, 4132) == 4208 && !M.UsedOf(m.mem, 4208)
  }

  lemma FreeSwallows(m: M.Machine)
    requires Represents(m, HEAD_FREE) && Sound(HEAD_FREE)
    ensures var (m', r) := M.Free(m, 4220);
            r == Value(()) && Swallowed(m')
  {
    hide M.MergeNext, M.MergePrev, AbsorbNext, Sound;
    var m1 := m.(mem := m.mem[4208 + 8 := 0]);
    BeforeFarJoin();
    AbsorbNextRefines(m, HEAD_FREE, 2);
    var m2 := M.MergeNext(m1, 4208).0;
    FarJoin(m2);
    assert LinkAt(m.mem, HEAD_FREE.blocks, HEAD_FREE.stale, 2);
    assert LinkAt(m2.mem, GONE_NEXT.blocks, GONE_NEXT.stale, 0);
    assert LinkAt(m2.mem, GONE_NEXT.blocks, GONE_NEXT.stale, 1);
    assert LinkAt(m2.mem, GONE_NEXT.blocks, GONE_NEXT.stale, 2);
    var m3 := M.MergePrev(m2, 4208).0;
    var m4 := M.AddFreeBlock(m3, 4096);
    assert M.Free(m, 4220) == (m4, Value(()));
    var f := Initial(4096, 8192);
    assert Addrs(f.index) == [4096];
    assert LinkAt(m4.mem, f.blocks, f.stale, 0);
  }

  lemma SwallowedIsOverlaid(m: M.Machine)
    requires Swallowed(m)
    ensures Overlaid(m, PIECE)
  {
    hide M.GetBlockSize;
    var h := Initial(4096, 8192);
    assert Addrs(h.index) == [4096] && m.free[0] == 4096;
    SizeOfBlock(m, h, 0);
  }

  lemma SwallowedIsGranted(m: M.Machine)
    requires Swallowed(m)
    ensures M.Malloc(m, 100, false).1 == Value(4108)
  {
    hide M.Malloc, Represents;
    var h := Initial(4096, 8192);
    SearchInOne(h.index[0], 100);
    MallocRefines(m, h, 100, false);
  }

  // Its own free fails although the heap looks as if all had been freed.
  lemma SwallowedIsStranded(m: M.Machine)
    requires Swallowed(m)
    ensures M.Free(m, 4144).1 == Failure(IndexOutOfRange)
    ensures Represents(M.Free(m, 4144).0, Initial(4096, 8192))
  {
    hide M.GetBlockSize, M.RemoveFreeBlock, M.MergePrev, M.AddFreeBlock;
    var h := Initial(4096, 8192);
    assert LinkAt(m.mem, h.blocks, h.stale, 0);
    assert Addrs(h.index) == [4096];
    var m1 := m.(mem := m.mem[4132 + 8 := 0]);
    RemoveMissing(m1, 4208);
    assert M.Free(m, 4144) == (m1, Failure(IndexOutOfRange));
    assert LinkAt(m1.mem, h.blocks, h.stale, 0);
  }

  // After seven calls a held block lies in free memory; an eighth grants the memory
  // at 4108 for 100 bytes, in which the held block's 64 bytes at 4144 lie.
  lemma SevenCallsOverlay(mem: map<int, int>)
    ensures var m := Run(Start(mem), PROLOGUE, false);
            var (m1, r1) := M.Free(m, 4108);
            var (m2, r2) := M.Free(m1, 4220);
            && Represents(m, THREE_LIVE) && r1 == r2 == Value(())
            && Overlaid(m2, PIECE)
            && M.Malloc(m2, 100, false).1 == Value(4108)
            && M.Free(m2, 4144).1 == Failure(IndexOutOfRange)
            && Represents(M.Free(m2, 4144).0, Initial(4096, 8192))
  {
    hide M.Malloc, M.Free, Malloc, Free, Represents, Valid, Sound, Run, JoinsFar, Succeeds, LooksUsed, TryFree, Overlaid, Swallowed;
    ReachThreeLive(mem);
    var m := Run(Start(mem), PROLOGUE, false);
    ValidIsSound(THREE_LIVE, 0);
    FreeHeadFirst(LooksUsed(m.mem, 4096));
    RightIsClean(THREE_LIVE, 0, LooksUsed(m.mem, 4096));
    FreeReaches(m, THREE_LIVE, 0);
    FreeSwallows(M.Free(m, 4108).0);
    var m2 := M.Free(M.Free(m, 4108).0, 4220).0;
    SwallowedIsOverlaid(m2);
    SwallowedIsGranted(m2);
    SwallowedIsStranded(m2);
  }
}
