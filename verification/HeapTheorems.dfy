// The main results about whole runs of the kernel heap.

module HeapTheorems {
  import opened Common
  import opened FreeIndex
  import opened HeapFrame
  import opened HeapInvariant
  import opened HeapLayout
  import opened HeapLinks
  import opened HeapModel
  import opened HeapProperties
  import opened HeapRefinement
  import opened HeapRuns
  import M = HeapMachine

  // ----- What a client stores survives -----

  lemma FreeLiveMembers(h: Heap, p: nat, looksUsed: bool, b: Block)
    requires Sound(h) && p < |h.blocks| && h.blocks[p].used
    ensures b in TryFree(h, p, looksUsed).blocks && b.used <==> b in h.blocks && b.used && b != h.blocks[p]
  {
    FreeDropsOneLive(h, p, looksUsed);
    LiveAround(h.blocks, p);
    LiveMembers(TryFree(h, p, looksUsed).blocks, b);
    LiveMembers(h.blocks, b);
    LiveMembers(h.blocks[..p], h.blocks[p]);
    LiveMembers(h.blocks[p + 1..], h.blocks[p]);
    hide TryFree, Live;
    if h.blocks[p] in h.blocks[..p] || h.blocks[p] in h.blocks[p + 1..] {
      var i :| 0 <= i < |h.blocks| && i != p && h.blocks[i] == h.blocks[p];
      HeadersApart(h.blocks, h.base, h.end, i, p);
    }
  }

  // A step that does not free b keeps it live.
  lemma StepKeepsLive(m: M.Machine, h: Heap, op: Op, linksBack: bool, b: Block)
    requires Sound(h) && Proper(h, op) && b in h.blocks && b.used && op != CallFree(b.Payload())
    ensures b in StepHeap(m, h, op, linksBack).blocks
  {
    hide Malloc, TryFree, Live, Granted, Sound, LooksUsed;
    match op
    case CallMalloc(size) =>
      MallocKeepsLive(h, size, linksBack, b);
    case CallFree(payload) =>
      if LivePayload(h, payload) {
        FreeLiveMembers(h, Position(h.blocks, payload - M.HEADER), LooksUsed(m.mem, payload - M.HEADER), b);
      }
    case Store(_, _) =>
  }

  lemma MallocKeepsLive(h: Heap, size: int, linksBack: bool, b: Block)
    requires Sound(h) && 0 <= size < U32 && b in h.blocks && b.used
    ensures b in Malloc(h, size, linksBack).blocks
  {
    if size != 0 && FindFirstGte(SizesOf(h.index), Padded(size)) < |h.index| {
      MallocAddsOneLive(h, size, linksBack);
      LiveMembers(h.blocks, b);
      LiveMembers(Malloc(h, size, linksBack).blocks, b);
    }
  }

  lemma StepKeepsWord(m: M.Machine, h: Heap, op: Op, linksBack: bool, b: Block, w: int)
    requires Represents(m, h) && Sound(h) && Proper(h, op)
    requires b in h.blocks && b.used && b.InPayload(w)
    requires !(op.Store? && op.w == w)
    ensures M.Word(Step(m, op, linksBack).mem, w) == M.Word(m.mem, w)
  {
    hide M.Malloc, M.MergeNext, M.MergePrev, M.AddFreeBlock, Represents, Sound;
    var i :| 0 <= i < |h.blocks| && h.blocks[i] == b;
    match op
    case CallMalloc(size) =>
      MallocKeepsPayloads(m, h, size, linksBack, i, w);
    case CallFree(payload) =>
      if payload != 0 {
        FreeKeepsPayloads(m, h, Position(h.blocks, payload - M.HEADER), i, w);
      }
    case Store(_, _) =>
  }

  // What a client stored in a live block stays there through any run of other
  // calls and stores that never frees across blocks, until that block is freed,
  // whether or not the index overflows.
  lemma {:induction false} DataSurvives(m: M.Machine, h: Heap, ops: seq<Op>, linksBack: bool, b: Block, w: int)
    requires Represents(m, h) && Sound(h)
    requires ProperRun(m, h, ops, linksBack) && NeverFreesFar(m, h, ops, linksBack)
    requires b in h.blocks && b.used && b.InPayload(w)
    requires forall op :: op in ops ==> op != CallFree(b.Payload()) && !(op.Store? && op.w == w)
    ensures b in RunHeap(m, h, ops, linksBack).blocks
    ensures M.Word(Run(m, ops, linksBack).mem, w) == M.Word(m.mem, w)
    decreases |ops|
  {
    hide Represents, Sound, Proper, FreesFar, Step, StepHeap, M.Word;
    if ops != [] {
      assert ops[0] in ops && forall op :: op in ops[1..] ==> op in ops;
      StepRefines(m, h, ops[0], linksBack);
      StepKeepsLive(m, h, ops[0], linksBack, b);
      StepKeepsWord(m, h, ops[0], linksBack, b, w);
      DataSurvives(Step(m, ops[0], linksBack), StepHeap(m, h, ops[0], linksBack), ops[1..], linksBack, b, w);
    }
  }

  // With the missing store added it stays through every run a client may make.
  lemma RepairedDataSurvives(m: M.Machine, h: Heap, ops: seq<Op>, b: Block, w: int)
    requires Represents(m, h) && Sound(h) && h.stale == map[] && ProperRun(m, h, ops, true)
    requires b in h.blocks && b.used && b.InPayload(w)
    requires forall op :: op in ops ==> op != CallFree(b.Payload()) && !(op.Store? && op.w == w)
    ensures b in RunHeap(m, h, ops, true).blocks
    ensures M.Word(Run(m, ops, true).mem, w) == M.Word(m.mem, w)
  {
    RepairedRunNotStale(m, h, ops);
    DataSurvives(m, h, ops, true, b, w);
  }

  // ----- What each call answers -----

  // malloc refuses size 0 and a request that no entry fits, and otherwise returns the
  // payload of a block, not live before, that is large enough.
  ghost predicate MallocAnswers(m: M.Machine, h: Heap, size: int, linksBack: bool) {
    var r := M.Malloc(m, size, linksBack).1;
    if size == 0 then r == Failure(InvalidArgument)
    else if forall b :: b in h.index ==> b.size < Padded(size) then r == Failure(NoFreeBlocks)
    else
      exists b :: b in Malloc(h, size, linksBack).blocks && b.used && b !in h.blocks &&
        Padded(size) <= b.size && r == Value(b.Payload())
  }

  // free accepts null, and a live payload exactly when no neighbour or named block
  // that it takes for unused lacks an entry.
  ghost predicate FreeAnswers(m: M.Machine, h: Heap, payload: int) {
    var r := M.Free(m, payload).1;
    if payload == 0 then r == Value(())
    else
      var p := Position(h.blocks, payload - M.HEADER);
      p < |h.blocks| &&
      r == if Succeeds(h, p, LooksUsed(m.mem, payload - M.HEADER)) || JoinsFar(h, p) then Value(())
           else Failure(IndexOutOfRange)
  }

  ghost predicate Answers(m: M.Machine, h: Heap, op: Op, linksBack: bool) {
    match op
    case CallMalloc(size) => MallocAnswers(m, h, size, linksBack)
    case CallFree(payload) => FreeAnswers(m, h, payload)
    case Store(_, _) => true
  }

  lemma NoneFits(h: Heap, padded: int)
    requires Sound(h)
    ensures (forall b :: b in h.index ==> b.size < padded) <==> FindFirstGte(SizesOf(h.index), padded) == |h.index|
  {
    var sizes := SizesOf(h.index);
    FindFirstGteIsLowerBound(sizes, padded);
    var k := FindFirstGte(sizes, padded);
    if k < |h.index| {
      assert padded <= sizes[k] == h.index[k].size && h.index[k] in h.index;
    } else {
      forall b | b in h.index
        ensures b.size < padded
      {
        var j :| 0 <= j < |h.index| && h.index[j] == b;
        assert sizes[j] == b.size;
      }
    }
  }

  lemma MallocIsAnswered(m: M.Machine, h: Heap, size: int, linksBack: bool)
    requires Represents(m, h) && Sound(h) && 0 <= size < U32
    ensures MallocAnswers(m, h, size, linksBack)
  {
    hide M.Malloc, Sound, Represents, Malloc, Padded, Live, SizesOf;
    MallocRefines(m, h, size, linksBack);
    NoneFits(h, Padded(size));
    var k := FindFirstGte(SizesOf(h.index), Padded(size));
    EntriesCounted(h);
    if size != 0 && k < |h.index| {
      var b := Granted(h, size);
      MallocAddsOneLive(h, size, linksBack);
      GrantedSize(h, size);
      GrantedIsNew(h, size);
      var g := Malloc(h, size, linksBack);
      var i :| 0 <= i <= |Live(h.blocks)| && Live(g.blocks) == InsertAt(Live(h.blocks), i, b);
      assert Live(g.blocks)[i] == b;
      LiveMembers(g.blocks, b);
    }
  }

  lemma EntriesCounted(h: Heap)
    ensures |SizesOf(h.index)| == |h.index|
  {
  }

  lemma GrantedIsNew(h: Heap, size: int)
    requires Sound(h) && FindFirstGte(SizesOf(h.index), Padded(size)) < |h.index|
    ensures var b := Granted(h, size);
            b.used && b !in h.blocks && b.Payload() == h.index[FindFirstGte(SizesOf(h.index), Padded(size))].Payload()
  {
    hide Padded;
    var e, b := h.index[FindFirstGte(SizesOf(h.index), Padded(size))], Granted(h, size);
    assert e in h.index;
    if b in h.blocks {
      var i :| 0 <= i < |h.blocks| && h.blocks[i] == b;
      OtherEntry(h, e, i);
    }
  }

  lemma FreeIsAnswered(m: M.Machine, h: Heap, payload: int)
    requires Represents(m, h) && Sound(h) && (payload == 0 || LivePayload(h, payload))
    ensures FreeAnswers(m, h, payload)
  {
    hide M.MergeNext, M.MergePrev, M.AddFreeBlock, Sound, Represents, Succeeds, JoinsFar, LooksUsed, TryFree;
    if payload != 0 {
      var p := Position(h.blocks, payload - M.HEADER);
      if JoinsFar(h, p) {
        FreeJoinsFar(m, h, p);
      } else {
        TryFreeRefines(m, h, p);
      }
    }
  }

  ghost predicate AlwaysAnswers(m: M.Machine, h: Heap, ops: seq<Op>, linksBack: bool)
    decreases |ops|
  {
    ops == [] ||
    (Answers(m, h, ops[0], linksBack) &&
     (FreesFar(h, ops[0]) ||
      AlwaysAnswers(Step(m, ops[0], linksBack), StepHeap(m, h, ops[0], linksBack), ops[1..], linksBack)))
  }

  // Every call of a client's run is answered so, up to and including the first free
  // across blocks.
  lemma {:induction false} RunIsAnswered(m: M.Machine, h: Heap, ops: seq<Op>, linksBack: bool)
    requires Represents(m, h) && Sound(h) && ProperRun(m, h, ops, linksBack)
    ensures AlwaysAnswers(m, h, ops, linksBack)
    decreases |ops|
  {
    hide Represents, Sound, FreesFar, Step, StepHeap, MallocAnswers, FreeAnswers;
    if ops != [] {
      match ops[0] {
        case CallMalloc(size) => MallocIsAnswered(m, h, size, linksBack);
        case CallFree(payload) => FreeIsAnswered(m, h, payload);
        case Store(_, _) =>
      }
      if !FreesFar(h, ops[0]) {
        StepRefines(m, h, ops[0], linksBack);
        RunIsAnswered(Step(m, ops[0], linksBack), StepHeap(m, h, ops[0], linksBack), ops[1..], linksBack);
      }
    }
  }

  // ----- Well-formed at every step -----

  ghost predicate AlwaysWellFormed(m: M.Machine, ops: seq<Op>, linksBack: bool)
    decreases |ops|
  {
    WellFormed(m) && (ops == [] || AlwaysWellFormed(Step(m, ops[0], linksBack), ops[1..], linksBack))
  }

  // malloc as written cuts a block that another block follows.
  predicate CutsBeforeAnother(h: Heap, op: Op) {
    op.CallMalloc? && SplitsBeforeAnother(h, op.size)
  }

  predicate NeverCutsBeforeAnother(m: M.Machine, h: Heap, ops: seq<Op>)
    decreases |ops|
  {
    ops == [] ||
    (!CutsBeforeAnother(h, ops[0]) &&
     NeverCutsBeforeAnother(Step(m, ops[0], false), StepHeap(m, h, ops[0], false), ops[1..]))
  }

  lemma StepNotStale(m: M.Machine, h: Heap, op: Op, linksBack: bool)
    requires Sound(h) && Proper(h, op) && h.stale == map[] && (linksBack || !CutsBeforeAnother(h, op))
    ensures StepHeap(m, h, op, linksBack).stale == map[]
  {
    hide Sound, TryFree, LooksUsed;
    if op.CallFree? {
      FreeNotStale(h, op.payload, LooksUsed(m.mem, op.payload - M.HEADER));
    }
  }

  // One call keeps the heap well formed exactly when it neither overflows the
  // index nor, in the code as written, cuts a block that another block follows.
  lemma StepWellFormedIff(m: M.Machine, h: Heap, op: Op, linksBack: bool)
    requires Represents(m, h) && Valid(h) && h.stale == map[] && Proper(h, op)
    ensures var fine := !Overflows(h, op) && (linksBack || !CutsBeforeAnother(h, op));
            var g := StepHeap(m, h, op, linksBack);
            && (WellFormed(Step(m, op, linksBack)) <==> fine)
            && (fine ==> Represents(Step(m, op, linksBack), g) && Valid(g) && g.stale == map[])
  {
    hide Valid, Represents, Sound, M.Malloc, M.Free, SplitsBeforeAnother, Room, StepHeap, FreesFar, Misled;
    ValidIsSound(h, 0);
    RightLinksNeverMislead(m, h, op);
    StepRefines(m, h, op, linksBack);
    StepKeepsValidIff(m, h, op, linksBack);
    if Overflows(h, op) {
      FreeKeepsWellFormedIff(m, h, Position(h.blocks, op.payload - M.HEADER));
    } else if !linksBack && CutsBeforeAnother(h, op) {
      MallocKeepsWellFormedIff(m, h, op.size);
    } else {
      StepNotStale(m, h, op, linksBack);
    }
  }

  // A client's run keeps the heap well formed at every step exactly when no free
  // in it overflows the index and, in the code as written, no malloc in it cuts
  // a block that another block follows.
  lemma {:induction false} RunWellFormedIff(m: M.Machine, h: Heap, ops: seq<Op>, linksBack: bool)
    requires Represents(m, h) && Valid(h) && h.stale == map[] && ProperRun(m, h, ops, linksBack)
    ensures AlwaysWellFormed(m, ops, linksBack)
            <==> NeverOverflows(m, h, ops, linksBack) && (linksBack || NeverCutsBeforeAnother(m, h, ops))
    decreases |ops|
  {
    hide Valid, Represents, Proper, Step, StepHeap, Overflows, CutsBeforeAnother, FreesFar;
    if ops != [] {
      StepWellFormedIff(m, h, ops[0], linksBack);
      RightLinksNeverMislead(m, h, ops[0]);
      if !Overflows(h, ops[0]) && (linksBack || !CutsBeforeAnother(h, ops[0])) {
        RunWellFormedIff(Step(m, ops[0], linksBack), StepHeap(m, h, ops[0], linksBack), ops[1..], linksBack);
      }
    }
  }

  // ----- Sizes stay positive -----

  ghost predicate PositiveSizes(h: Heap) {
    forall b :: b in h.blocks ==> 0 < b.size
  }

  // The request is so large that padding wraps to 0, and a block is cut for it.
  predicate CutsToNothing(h: Heap, op: Op) {
    op.CallMalloc? && U32 - 4 < op.size &&
    var k := FindFirstGte(SizesOf(h.index), Padded(op.size));
    k < |h.index| && M.HEADER < h.index[k].size
  }

  lemma PiecesPositive(h: Heap, g: Heap, p: nat, padded: int)
    requires PositiveSizes(h) && p < |h.blocks| && 0 <= padded
    requires g.blocks == h.blocks[..p] + Pieces(h.blocks[p], padded) + h.blocks[p + 1..]
    ensures PositiveSizes(g) <==> padded != 0 || !Splits(h.blocks[p], padded)
  {
    assert h.blocks[p] in h.blocks && g.blocks[p] in g.blocks;
  }

  lemma MallocKeepsPositiveIff(h: Heap, size: int, linksBack: bool)
    requires Sound(h) && PositiveSizes(h) && 0 <= size < U32
    ensures PositiveSizes(Malloc(h, size, linksBack)) <==> !CutsToNothing(h, CallMalloc(size))
  {
    hide Sound, Allocate, Padded, Chosen, Pieces, PositiveSizes;
    var k := FindFirstGte(SizesOf(h.index), Padded(size));
    if size != 0 {
      PaddedBounds(size);
      if k < |h.index| {
        ChosenFits(h, Padded(size));
        AllocatedBlocks(h, k, Chosen(h, k), Padded(size), linksBack);
        PiecesPositive(h, Malloc(h, size, linksBack), Chosen(h, k), Padded(size));
      }
    }
  }

  lemma SplicedKeepsPositive(h: Heap, g: Heap, lo: nat, hi: nat)
    requires Sound(h) && PositiveSizes(h) && Spliced(h, g, lo, hi)
    ensures PositiveSizes(g)
  {
    HeadersApart(h.blocks, h.base, h.end, lo, hi - 1);
    assert h.blocks[lo] in h.blocks && h.blocks[hi - 1] in h.blocks;
    forall b | b in g.blocks
      ensures 0 < b.size
    {
      SpanMembers(h.blocks, h.base, h.end, lo, hi, b);
    }
  }

  lemma TryFreeKeepsPositive(h: Heap, p: nat, looksUsed: bool)
    requires Sound(h) && PositiveSizes(h) && p < |h.blocks| && h.blocks[p].used
    ensures PositiveSizes(TryFree(h, p, looksUsed))
  {
    hide Sound, Spliced, Joined, Succeeds, AddFree;
    JoinedIsSpliced(h, p);
    SplicedKeepsPositive(h, Joined(h, p).0, FreedFrom(h, p), FreedTo(h, p));
  }

  lemma StepKeepsPositiveIff(m: M.Machine, h: Heap, op: Op, linksBack: bool)
    requires Sound(h) && Proper(h, op) && PositiveSizes(h)
    ensures PositiveSizes(StepHeap(m, h, op, linksBack)) <==> !CutsToNothing(h, op)
  {
    hide Sound, Malloc, TryFree, PositiveSizes, LooksUsed;
    match op
    case CallMalloc(size) =>
      MallocKeepsPositiveIff(h, size, linksBack);
    case CallFree(payload) =>
      if LivePayload(h, payload) {
        TryFreeKeepsPositive(h, Position(h.blocks, payload - M.HEADER), LooksUsed(m.mem, payload - M.HEADER));
      }
    case Store(_, _) =>
  }

  ghost predicate AlwaysPositive(m: M.Machine, h: Heap, ops: seq<Op>, linksBack: bool)
    decreases |ops|
  {
    PositiveSizes(h) &&
    (ops == [] ||
     AlwaysPositive(Step(m, ops[0], linksBack), StepHeap(m, h, ops[0], linksBack), ops[1..], linksBack))
  }

  predicate NeverCutsToNothing(m: M.Machine, h: Heap, ops: seq<Op>, linksBack: bool)
    decreases |ops|
  {
    ops == [] ||
    (!CutsToNothing(h, ops[0]) &&
     NeverCutsToNothing(Step(m, ops[0], linksBack), StepHeap(m, h, ops[0], linksBack), ops[1..], linksBack))
  }

  // In every state of a run that never frees across blocks every block, split
  // remainders included, has a positive size, exactly when no request for which
  // padding wraps cuts a block.
  lemma {:induction false} RunPositiveIff(m: M.Machine, h: Heap, ops: seq<Op>, linksBack: bool)
    requires Sound(h) && PositiveSizes(h)
    requires ProperRun(m, h, ops, linksBack) && NeverFreesFar(m, h, ops, linksBack)
    ensures AlwaysPositive(m, h, ops, linksBack) <==> NeverCutsToNothing(m, h, ops, linksBack)
    decreases |ops|
  {
    hide Sound, PositiveSizes, Proper, FreesFar, Step, StepHeap, CutsToNothing;
    if ops != [] {
      StepKeepsSound(m, h, ops[0], linksBack);
      StepKeepsPositiveIff(m, h, ops[0], linksBack);
      if !CutsToNothing(h, ops[0]) {
        RunPositiveIff(Step(m, ops[0], linksBack), StepHeap(m, h, ops[0], linksBack), ops[1..], linksBack);
      }
    }
  }

  // ----- initialize -----

  lemma WellFormedHoldsHeader(m: M.Machine)
    requires WellFormed(m)
    ensures m.base + M.HEADER <= m.end
  {
    var f :| Valid(f) && f.stale == map[] && Represents(m, f);
    HeadersApart(f.blocks, f.base, f.end, 0, 0);
  }

  // initialize leaves a well-formed heap exactly when the region holds a header.
  lemma InitializeIsWellFormedIff(mem: map<int, int>, base: int, end: int)
    requires 0 < base && base % 4 == 0 && end < U32
    ensures base + M.HEADER <= end ==>
              Valid(Initial(base, end)) && Represents(M.Initialized(mem, base, end), Initial(base, end))
    ensures WellFormed(M.Initialized(mem, base, end)) <==> base + M.HEADER <= end
  {
    var m, h := M.Initialized(mem, base, end), Initial(base, end);
    if base + M.HEADER <= end {
      assert LinkAt(m.mem, h.blocks, h.stale, 0);
    }
    if WellFormed(m) {
      WellFormedHoldsHeader(m);
    }
  }
}
