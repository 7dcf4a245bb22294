// Whole runs of malloc, free and client stores.

module HeapRuns {
  import opened Common
  import opened HeapInvariant
  import opened HeapLayout
  import opened HeapModel
  import opened HeapProperties
  import opened HeapRefinement
  import M = HeapMachine

  // Store is a client writing one aligned word of memory.
  datatype Op = CallMalloc(size: int) | CallFree(payload: int) | Store(w: int, v: int)

  function Step(m: M.Machine, op: Op, linksBack: bool): M.Machine {
    match op
    case CallMalloc(size) => M.Malloc(m, size, linksBack).0
    case CallFree(payload) => M.Free(m, payload).0
    case Store(w, v) => m.(mem := m.mem[w := v])
  }

  // The block-level step.  Memory only tells it what a prev link that names no
  // block leads to.
  function StepHeap(m: M.Machine, h: Heap, op: Op, linksBack: bool): Heap {
    match op
    case CallMalloc(size) => Malloc(h, size, linksBack)
    case CallFree(payload) => Free(h, payload, LooksUsed(m.mem, payload - M.HEADER))
    case Store(_, _) => h
  }

  function Run(m: M.Machine, ops: seq<Op>, linksBack: bool): M.Machine
    decreases |ops|
  {
    if ops == [] then m else Run(Step(m, ops[0], linksBack), ops[1..], linksBack)
  }

  function RunHeap(m: M.Machine, h: Heap, ops: seq<Op>, linksBack: bool): Heap
    decreases |ops|
  {
    if ops == [] then h
    else RunHeap(Step(m, ops[0], linksBack), StepHeap(m, h, ops[0], linksBack), ops[1..], linksBack)
  }

  // ----- What a client may do -----

  // The payload address of a live block.
  predicate LivePayload(h: Heap, payload: int) {
    var p := Position(h.blocks, payload - M.HEADER);
    p < |h.blocks| && h.blocks[p].used
  }

  // A client asks for any 32-bit size, frees null or what it holds, and stores
  // into what it holds.
  ghost predicate Proper(h: Heap, op: Op) {
    match op
    case CallMalloc(size) => 0 <= size < U32
    case CallFree(payload) => payload == 0 || LivePayload(h, payload)
    case Store(w, _) => w % 4 == 0 && exists b :: b in h.blocks && b.used && b.InPayload(w)
  }

  // ----- Frees that go wrong -----

  // Frees a block whose prev link is wrong and names an index entry.
  predicate FreesFar(h: Heap, op: Op) {
    op.CallFree? && LivePayload(h, op.payload) && JoinsFar(h, Position(h.blocks, op.payload - M.HEADER))
  }

  // Needs an index slot and there is none: the block is dropped.
  predicate Overflows(h: Heap, op: Op) {
    op.CallFree? && LivePayload(h, op.payload) && !Room(h, Position(h.blocks, op.payload - M.HEADER))
  }

  // Frees a block whose prev link is wrong while the block before it, or what the
  // link names, is not in use.
  predicate Misled(m: M.Machine, h: Heap, op: Op) {
    op.CallFree? && LivePayload(h, op.payload) &&
    var p := Position(h.blocks, op.payload - M.HEADER);
    !LinkRight(h, p) && (UnusedAt(h, p - 1) || !LinkInUse(h, p, LooksUsed(m.mem, op.payload - M.HEADER)))
  }

  // ----- Runs of calls -----

  // What a client may do, for as long as the block-level heap tells what it holds.
  ghost predicate ProperRun(m: M.Machine, h: Heap, ops: seq<Op>, linksBack: bool)
    decreases |ops|
  {
    ops == [] ||
    (Proper(h, ops[0]) &&
     (FreesFar(h, ops[0]) ||
      ProperRun(Step(m, ops[0], linksBack), StepHeap(m, h, ops[0], linksBack), ops[1..], linksBack)))
  }

  predicate NeverFreesFar(m: M.Machine, h: Heap, ops: seq<Op>, linksBack: bool)
    decreases |ops|
  {
    ops == [] ||
    (!FreesFar(h, ops[0]) &&
     NeverFreesFar(Step(m, ops[0], linksBack), StepHeap(m, h, ops[0], linksBack), ops[1..], linksBack))
  }

  predicate NeverOverflows(m: M.Machine, h: Heap, ops: seq<Op>, linksBack: bool)
    decreases |ops|
  {
    ops == [] ||
    (!Overflows(h, ops[0]) &&
     NeverOverflows(Step(m, ops[0], linksBack), StepHeap(m, h, ops[0], linksBack), ops[1..], linksBack))
  }

  predicate NeverMisled(m: M.Machine, h: Heap, ops: seq<Op>, linksBack: bool)
    decreases |ops|
  {
    ops == [] ||
    (!Misled(m, h, ops[0]) &&
     NeverMisled(Step(m, ops[0], linksBack), StepHeap(m, h, ops[0], linksBack), ops[1..], linksBack))
  }

  // ----- Room in the index -----

  // The unused blocks, in address order.
  function Unused(bs: seq<Block>): seq<Block> {
    if bs == [] then []
    else (if bs[0].used then [] else [bs[0]]) + Unused(bs[1..])
  }

  lemma {:induction false} UnusedAtMostOneMore(bs: seq<Block>)
    requires NoAdjacentUnused(bs)
    ensures |Unused(bs)| <= |Live(bs)| + 1
    ensures bs != [] && bs[0].used ==> |Unused(bs)| <= |Live(bs)|
  {
    if bs != [] {
      var r := bs[1..];
      assert NoAdjacentUnused(r) by {
        forall i | 0 < i < |r|
          ensures Separated(r, i)
        {
          assert Separated(bs, i + 1);
        }
      }
      UnusedAtMostOneMore(r);
      assert 1 < |bs| ==> Separated(bs, 1);
    }
  }

  lemma UnusedMembers(bs: seq<Block>, b: Block)
    ensures b in Unused(bs) <==> b in bs && !b.used
  {
  }

  lemma {:induction false} DistinctFits(idx: seq<Block>, s: seq<Block>)
    requires Distinct(idx) && forall b :: b in idx ==> b in s
    ensures |idx| <= |s|
  {
    if idx != [] {
      var b := idx[|idx| - 1];
      assert b in idx;
      var j :| 0 <= j < |s| && s[j] == b;
      forall c | c in idx[..|idx| - 1]
        ensures c in RemoveAt(s, j)
      {
        var i :| 0 <= i < |idx| - 1 && idx[i] == c;
        assert c in idx && c != b;
        var k :| 0 <= k < |s| && s[k] == c;
        assert RemoveAt(s, j)[if k < j then k else k - 1] == c;
      }
      DistinctFits(idx[..|idx| - 1], RemoveAt(s, j));
    }
  }

  // Every entry and the block without one are unused blocks of their own.
  lemma EntriesAreUnused(g: Heap, q: nat)
    requires MissingOne(g, q)
    ensures |g.index| <= |Live(g.blocks)|
  {
    UnusedAtMostOneMore(g.blocks);
    var all := g.index + [g.blocks[q]];
    forall b | b in all
      ensures b in Unused(g.blocks)
    {
      UnusedMembers(g.blocks, b);
    }
    DistinctFits(all, Unused(g.blocks));
  }

  // With at most 2048 live blocks a free never meets a full index.
  lemma FewLiveLeaveRoom(h: Heap, p: nat)
    requires Valid(h) && p < |h.blocks| && h.blocks[p].used && |Live(h.blocks)| <= M.CAPACITY
    ensures Room(h, p)
  {
    hide Merged, Valid, Sound, MissingOne, Live, AddFree, Spliced;
    var (g, q) := Merged(h, p);
    ValidIsSound(h, p);
    MergedMissesOne(h, p);
    EntriesAreUnused(g, q);
    MergedIsSpliced(h, p);
    LiveSpliced(h, g, p, JoinStart(h, p), JoinEnd(h, p));
    LiveAround(h.blocks, p);
  }

  // ----- One step -----

  lemma StoreKeepsLinks(m: M.Machine, h: Heap, i: nat, w: int, v: int)
    requires Represents(m, h) && Sound(h) && i < |h.blocks| && h.blocks[i].InPayload(w)
    ensures Represents(m.(mem := m.mem[w := v]), h)
  {
    var mem := m.mem[w := v];
    forall j | 0 <= j < |h.blocks|
      ensures LinkAt(mem, h.blocks, h.stale, j)
    {
      assert LinkAt(m.mem, h.blocks, h.stale, j);
      HeadersApart(h.blocks, h.base, h.end, i, j);
    }
  }

  lemma NullIsNoPayload(h: Heap, looksUsed: bool)
    requires Sound(h)
    ensures Free(h, 0, looksUsed) == h && !LivePayload(h, 0)
  {
    var p := Position(h.blocks, 0 - M.HEADER);
    if p < |h.blocks| {
      HeadersApart(h.blocks, h.base, h.end, p, p);
    }
  }

  lemma StepKeepsSound(m: M.Machine, h: Heap, op: Op, linksBack: bool)
    requires Sound(h) && Proper(h, op)
    ensures Sound(StepHeap(m, h, op, linksBack))
  {
    hide Malloc, TryFree, Sound, LooksUsed;
    match op
    case CallMalloc(size) =>
      MallocKeepsSound(h, size, linksBack);
    case CallFree(payload) =>
      if LivePayload(h, payload) {
        TryFreeKeepsSound(h, Position(h.blocks, payload - M.HEADER), LooksUsed(m.mem, payload - M.HEADER));
      }
    case Store(_, _) =>
  }

  // Every call of a client reaches the block-level heap, the calls that fail
  // included, unless it frees across blocks.
  lemma StepRefines(m: M.Machine, h: Heap, op: Op, linksBack: bool)
    requires Represents(m, h) && Sound(h) && Proper(h, op) && !FreesFar(h, op)
    ensures var g := StepHeap(m, h, op, linksBack);
            Represents(Step(m, op, linksBack), g) && Sound(g)
  {
    hide M.Malloc, Malloc, TryFree, Represents, Sound, Succeeds, JoinsFar, LooksUsed;
    hide M.MergeNext, M.MergePrev, M.AddFreeBlock;
    StepKeepsSound(m, h, op, linksBack);
    match op
    case CallMalloc(size) =>
      MallocRefines(m, h, size, linksBack);
    case CallFree(payload) =>
      if payload == 0 {
        NullIsNoPayload(h, LooksUsed(m.mem, 0 - M.HEADER));
        assert M.Free(m, 0) == (m, Value(()));
      } else {
        TryFreeRefines(m, h, Position(h.blocks, payload - M.HEADER));
      }
    case Store(w, v) =>
      var b :| b in h.blocks && b.used && b.InPayload(w);
      var i :| 0 <= i < |h.blocks| && h.blocks[i] == b;
      StoreKeepsLinks(m, h, i, w, v);
  }

  // A call keeps the whole invariant exactly when it neither overflows the index
  // nor is misled by a prev link.
  lemma StepKeepsValidIff(m: M.Machine, h: Heap, op: Op, linksBack: bool)
    requires Valid(h) && Proper(h, op)
    ensures Valid(StepHeap(m, h, op, linksBack)) <==> !Overflows(h, op) && !Misled(m, h, op)
  {
    hide Malloc, FreeAt, Valid, TryFree, Room, LinkRight, LinkInUse, LooksUsed;
    match op
    case CallMalloc(size) =>
      MallocKeepsValid(h, size, linksBack);
    case CallFree(payload) =>
      var p := Position(h.blocks, payload - M.HEADER);
      ValidIsSound(h, p);
      if payload != 0 {
        TryFreeKeepsValidIff(h, p, LooksUsed(m.mem, payload - M.HEADER));
      } else {
        NullIsNoPayload(h, LooksUsed(m.mem, payload - M.HEADER));
      }
    case Store(w, v) =>
  }

  // Without stale links no free is misled.
  lemma RightLinksNeverMislead(m: M.Machine, h: Heap, op: Op)
    requires h.stale == map[]
    ensures !Misled(m, h, op) && !FreesFar(h, op)
  {
  }

  // A free across blocks is misled.
  lemma FarIsMisled(m: M.Machine, h: Heap, op: Op)
    requires Sound(h) && FreesFar(h, op)
    ensures Misled(m, h, op)
  {
    hide Sound, LooksUsed, LinkInUse, JoinsFar;
    FarIsNotInUse(h, Position(h.blocks, op.payload - M.HEADER), LooksUsed(m.mem, op.payload - M.HEADER));
  }

  // ----- Runs -----

  // Over every run that never frees across blocks, the memory holds the heap of
  // the block-level run: the blocks tile it and the entries are unused blocks in
  // order of size.  With no overflow and no misled free the whole invariant holds.
  lemma {:induction false} RunRefines(m: M.Machine, h: Heap, ops: seq<Op>, linksBack: bool)
    requires Represents(m, h) && Sound(h)
    requires ProperRun(m, h, ops, linksBack) && NeverFreesFar(m, h, ops, linksBack)
    ensures var g := RunHeap(m, h, ops, linksBack);
            && Represents(Run(m, ops, linksBack), g) && Sound(g)
            && (Valid(h) && NeverOverflows(m, h, ops, linksBack) && NeverMisled(m, h, ops, linksBack) ==> Valid(g))
    decreases |ops|
  {
    hide Represents, Valid, Sound, Proper, FreesFar, Overflows, Misled, Step, StepHeap;
    if ops != [] {
      StepRefines(m, h, ops[0], linksBack);
      if Valid(h) {
        StepKeepsValidIff(m, h, ops[0], linksBack);
      }
      RunRefines(Step(m, ops[0], linksBack), StepHeap(m, h, ops[0], linksBack), ops[1..], linksBack);
    }
  }

  // No step makes a prev link stale once the missing store is there.
  lemma RepairedStepNotStale(m: M.Machine, h: Heap, op: Op)
    requires Sound(h) && Proper(h, op) && h.stale == map[]
    ensures StepHeap(m, h, op, true).stale == map[]
  {
    hide Sound, TryFree, LooksUsed;
    if op.CallFree? {
      FreeNotStale(h, op.payload, LooksUsed(m.mem, op.payload - M.HEADER));
    }
  }

  lemma FreeNotStale(h: Heap, payload: int, looksUsed: bool)
    requires Sound(h) && h.stale == map[]
    ensures Free(h, payload, looksUsed).stale == map[]
  {
    hide Sound, TryFree;
    var p := Position(h.blocks, payload - M.HEADER);
    if p < |h.blocks| && h.blocks[p].used {
      TryFreeFrame(h, p, looksUsed);
      assert forall x :: x in TryFree(h, p, looksUsed).stale ==> x in h.stale;
    }
  }

  lemma {:induction false} RepairedRunNotStale(m: M.Machine, h: Heap, ops: seq<Op>)
    requires Sound(h) && h.stale == map[] && ProperRun(m, h, ops, true)
    ensures NeverFreesFar(m, h, ops, true) && RunHeap(m, h, ops, true).stale == map[]
    decreases |ops|
  {
    if ops != [] {
      RightLinksNeverMislead(m, h, ops[0]);
      StepKeepsSound(m, h, ops[0], true);
      RepairedStepNotStale(m, h, ops[0]);
      hide Sound, Proper, FreesFar, Step, StepHeap;
      RepairedRunNotStale(Step(m, ops[0], true), StepHeap(m, h, ops[0], true), ops[1..]);
    }
  }

  // With the missing store added, every run a client may make is safe, whether
  // or not the index overflows.
  lemma RepairedRunsAreSafe(m: M.Machine, h: Heap, ops: seq<Op>)
    requires Represents(m, h) && Sound(h) && h.stale == map[] && ProperRun(m, h, ops, true)
    ensures var g := RunHeap(m, h, ops, true);
            Represents(Run(m, ops, true), g) && Sound(g) && g.stale == map[]
  {
    RepairedRunNotStale(m, h, ops);
    RunRefines(m, h, ops, true);
  }

  // ----- Few live blocks -----

  predicate NeverManyLive(m: M.Machine, h: Heap, ops: seq<Op>, linksBack: bool)
    decreases |ops|
  {
    ops == [] ||
    ((ops[0].CallFree? ==> |Live(h.blocks)| <= M.CAPACITY) &&
     NeverManyLive(Step(m, ops[0], linksBack), StepHeap(m, h, ops[0], linksBack), ops[1..], linksBack))
  }

  // A run that is never misled and frees only while at most 2048 blocks are live
  // never overflows.
  lemma {:induction false} FewLiveNeverOverflow(m: M.Machine, h: Heap, ops: seq<Op>, linksBack: bool)
    requires Valid(h) && ProperRun(m, h, ops, linksBack) && NeverMisled(m, h, ops, linksBack)
    requires NeverManyLive(m, h, ops, linksBack)
    ensures NeverOverflows(m, h, ops, linksBack)
    decreases |ops|
  {
    hide Valid, Sound, Proper, FreesFar, Misled, Step, StepHeap, Room, Live;
    if ops != [] {
      ValidIsSound(h, 0);
      if FreesFar(h, ops[0]) {
        FarIsMisled(m, h, ops[0]);
      }
      if ops[0].CallFree? && LivePayload(h, ops[0].payload) {
        FewLiveLeaveRoom(h, Position(h.blocks, ops[0].payload - M.HEADER));
      }
      StepKeepsValidIff(m, h, ops[0], linksBack);
      FewLiveNeverOverflow(Step(m, ops[0], linksBack), StepHeap(m, h, ops[0], linksBack), ops[1..], linksBack);
    }
  }
}
