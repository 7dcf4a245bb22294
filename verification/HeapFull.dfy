// A client's run, in any heap of more than 65600 bytes, after which the index is
// full and the next free drops its block.

module HeapFull {
  import opened Common
  import opened HeapExamples
  import opened HeapFreeAll
  import opened HeapInvariant
  import opened HeapLinks
  import opened HeapModel
  import opened HeapProperties
  import opened HeapRefinement
  import opened HeapRuns
  import opened HeapTheorems
  import M = HeapMachine

  const BLOCKS := 4097
  const FREED := 2047

  // ----- The heaps of the run -----

  // A range that holds the run.
  predicate Roomy(base: int, end: int) {
    0 < base && base % 4 == 0 && base + 16 * 4100 < end < U32
  }

  function Small(base: int, i: nat, used: bool): Block { Block(base + 16 * i, 4, used) }

  function Tail(base: int, end: int, n: nat): Block { Block(base + 16 * n, end - base - 16 * n - 12, false) }

  // n blocks of 4 bytes, of which the first j at even positions are free again.
  function Comb(base: int, end: int, n: nat, j: nat): Heap {
    Heap(seq(n, i requires 0 <= i => Small(base, i, i % 2 == 1 || j <= i / 2)) + [Tail(base, end, n)],
         seq(j, i requires 0 <= i < j => Small(base, 2 * (j - 1 - i), false)) + [Tail(base, end, n)],
         map[], base, end)
  }

  function Payload(base: int, i: nat): int { base + 16 * i + 12 }

  lemma CombPlace(base: int, end: int, n: nat, j: nat, i: nat)
    requires i <= n
    ensures Position(Comb(base, end, n, j).blocks, base + 16 * i) == i
  {
    PositionIs(Comb(base, end, n, j).blocks, i);
  }

  lemma CombStarts(base: int, end: int)
    ensures Comb(base, end, 0, 0) == Initial(base, end)
  {
  }

  lemma CombMalloc(base: int, end: int, n: nat)
    requires Roomy(base, end) && n < BLOCKS
    ensures Malloc(Comb(base, end, n, 0), 4, false) == Comb(base, end, n + 1, 0)
    ensures !SplitsBeforeAnother(Comb(base, end, n, 0), 4)
  {
    hide Position, Malloc;
    var h, t := Comb(base, end, n, 0), Tail(base, end, n);
    assert h.index == [t];
    SearchInOne(t, 4);
    CombPlace(base, end, n, 0, n);
    CombDistinct(base, end, n);
    MallocTakes(h, 0, n, 4);
    CombCut(base, end, n);
  }

  lemma CombDistinct(base: int, end: int, n: nat)
    ensures var bs := Comb(base, end, n, 0).blocks;
            |bs| == n + 1 && bs[n] == Tail(base, end, n) && forall i :: 0 <= i < n ==> bs[i].addr != bs[n].addr
  {
  }

  // Cutting the tail adds one more block of 4 bytes.
  lemma CombCut(base: int, end: int, n: nat)
    requires Roomy(base, end) && n < BLOCKS
    ensures Allocate(Comb(base, end, n, 0), 0, n, 4, false) == Comb(base, end, n + 1, 0)
  {
    var h, t := Comb(base, end, n, 0), Tail(base, end, n);
    assert RemoveAt(h.index, 0) == [];
    AllocatedBlocks(h, 0, n, 4, false);
    assert h.blocks[..n] + Pieces(t, 4) == Comb(base, end, n + 1, 0).blocks;
  }

  lemma CombAt(base: int, end: int, n: nat, j: nat, i: nat)
    requires i < n
    ensures Comb(base, end, n, j).blocks[i] == Small(base, i, i % 2 == 1 || j <= i / 2)
  {
  }

  // The entry of the next freed block comes first.
  lemma CombIndex(base: int, end: int, n: nat, j: nat)
    requires Roomy(base, end) && n <= BLOCKS
    ensures InsertSorted(Comb(base, end, n, j).index, Small(base, 2 * j, false)) == Comb(base, end, n, j + 1).index
  {
    var h, b := Comb(base, end, n, j), Small(base, 2 * j, false);
    assert h.index[0] == if j == 0 then Tail(base, end, n) else Small(base, 2 * (j - 1), false);
    assert SizesOf(h.index)[0] == h.index[0].size;
    assert InsertSorted(h.index, b) == [b] + h.index;
    assert [b] + h.index == Comb(base, end, n, j + 1).index;
  }

  lemma CombBlocks(base: int, end: int, n: nat, j: nat)
    requires 2 * j < n
    ensures Release(Comb(base, end, n, j), 2 * j).blocks == Comb(base, end, n, j + 1).blocks
  {
    var l, r := Release(Comb(base, end, n, j), 2 * j).blocks, Comb(base, end, n, j + 1).blocks;
    forall i | 0 <= i < n
      ensures l[i] == r[i]
    {
      CombAt(base, end, n, j, i);
      CombAt(base, end, n, j + 1, i);
    }
    assert l[n] == r[n];
  }

  lemma LoneTryFree(h: Heap, p: nat, looksUsed: bool)
    requires p < |h.blocks| && h.blocks[p].used && !UnusedAt(h, p + 1) && !UnusedAt(h, p - 1) && LinkRight(h, p)
    ensures TryFree(h, p, looksUsed) == h.(blocks := Release(h, p).blocks, index := AddFree(h.index, h.blocks[p].(used := false)))
    ensures Room(h, p) <==> |h.index| < M.CAPACITY
  {
    hide AddFree;
    assert Merged(h, p) == (Release(h, p), p);
  }

  lemma CombFree(base: int, end: int, n: nat, j: nat, looksUsed: bool)
    requires Roomy(base, end) && 2 * j + 1 < n <= BLOCKS
    ensures var h, op := Comb(base, end, n, j), CallFree(Payload(base, 2 * j));
            && LivePayload(h, Payload(base, 2 * j))
            && (j < FREED ==> Free(h, Payload(base, 2 * j), looksUsed) == Comb(base, end, n, j + 1))
            && (Overflows(h, op) <==> FREED <= j)
  {
    hide TryFree, Room, InsertSorted;
    var h, p := Comb(base, end, n, j), 2 * j;
    CombAt(base, end, n, j, p);
    LoneTryFree(h, p, looksUsed);
    if j < FREED {
      CombIndex(base, end, n, j);
      CombBlocks(base, end, n, j);
    }
  }

  // ----- The runs -----

  function Mallocs(n: nat): seq<Op> { seq(n, _ => CallMalloc(4)) }

  // The frees of the blocks 2 j to 2 (k - 1).
  function EvenFrees(base: int, j: nat, k: nat): seq<Op>
    requires j <= k
  {
    seq(k - j, i requires 0 <= i < k - j => CallFree(Payload(base, 2 * (j + i))))
  }

  // A client's run that keeps all links right and the index complete.
  ghost predicate Orderly(m: M.Machine, h: Heap, ops: seq<Op>) {
    ProperRun(m, h, ops, false) && NeverCutsBeforeAnother(m, h, ops) && NeverOverflows(m, h, ops, false)
  }

  lemma OrderlyStep(m: M.Machine, h: Heap, op: Op, rest: seq<Op>)
    requires Proper(h, op) && !CutsBeforeAnother(h, op) && !Overflows(h, op)
    requires Orderly(Step(m, op, false), StepHeap(m, h, op, false), rest)
    ensures Orderly(m, h, [op] + rest)
    ensures RunHeap(m, h, [op] + rest, false) == RunHeap(Step(m, op, false), StepHeap(m, h, op, false), rest, false)
    ensures Run(m, [op] + rest, false) == Run(Step(m, op, false), rest, false)
  {
    hide Step, StepHeap, Proper, CutsBeforeAnother, Overflows, FreesFar;
    assert ([op] + rest)[1..] == rest;
  }

  lemma {:induction false} FreesAreOrderly(m: M.Machine, base: int, end: int, j: nat)
    requires Roomy(base, end) && j <= FREED
    ensures var h := Comb(base, end, BLOCKS, j);
            && Orderly(m, h, EvenFrees(base, j, FREED))
            && RunHeap(m, h, EvenFrees(base, j, FREED), false) == Comb(base, end, BLOCKS, FREED)
    decreases FREED - j
  {
    hide Comb, Free, LooksUsed, LivePayload, Overflows, M.Free;
    var h := Comb(base, end, BLOCKS, j);
    if j < FREED {
      var op := CallFree(Payload(base, 2 * j));
      CombFree(base, end, BLOCKS, j, LooksUsed(m.mem, op.payload - M.HEADER));
      FreesAreOrderly(Step(m, op, false), base, end, j + 1);
      assert EvenFrees(base, j, FREED) == [op] + EvenFrees(base, j + 1, FREED);
      OrderlyStep(m, h, op, EvenFrees(base, j + 1, FREED));
    }
  }

  // Whatever follows, n more mallocs come first.
  lemma {:induction false} MallocsAreOrderly(m: M.Machine, base: int, end: int, k: nat, n: nat, rest: seq<Op>)
    requires Roomy(base, end) && k + n <= BLOCKS
    requires Orderly(Run(m, Mallocs(n), false), Comb(base, end, k + n, 0), rest)
    ensures var h := Comb(base, end, k, 0);
            && Orderly(m, h, Mallocs(n) + rest)
            && RunHeap(m, h, Mallocs(n) + rest, false)
               == RunHeap(Run(m, Mallocs(n), false), Comb(base, end, k + n, 0), rest, false)
    decreases n
  {
    hide Comb, Malloc, M.Malloc, SplitsBeforeAnother, Orderly;
    if n == 0 {
      assert Mallocs(0) + rest == rest;
    } else {
      var op := CallMalloc(4);
      CombMalloc(base, end, k);
      assert Mallocs(n) == [op] + Mallocs(n - 1) && Mallocs(n)[1..] == Mallocs(n - 1);
      assert Mallocs(n) + rest == [op] + (Mallocs(n - 1) + rest);
      MallocsAreOrderly(Step(m, op, false), base, end, k + 1, n - 1, rest);
      OrderlyStep(m, Comb(base, end, k, 0), op, Mallocs(n - 1) + rest);
    }
  }

  // From a heap without stale links an orderly run keeps the whole invariant.
  lemma {:induction false} OrderlyKeeps(m: M.Machine, h: Heap, ops: seq<Op>)
    requires Represents(m, h) && Valid(h) && h.stale == map[] && Orderly(m, h, ops)
    ensures var g := RunHeap(m, h, ops, false);
            Represents(Run(m, ops, false), g) && Valid(g) && g.stale == map[]
    decreases |ops|
  {
    hide Represents, Valid, Proper, Step, StepHeap, CutsBeforeAnother, Overflows, FreesFar;
    if ops != [] {
      StepWellFormedIff(m, h, ops[0], false);
      RightLinksNeverMislead(m, h, ops[0]);
      OrderlyKeeps(Step(m, ops[0], false), StepHeap(m, h, ops[0], false), ops[1..]);
    }
  }

  function FillingRun(base: int): seq<Op> { Mallocs(BLOCKS) + EvenFrees(base, 0, FREED) }

  // 4097 mallocs of 4 bytes and 2047 frees lead to a valid heap in which one more
  // free finds the index full and drops its block.
  lemma OverflowIsReachable(m: M.Machine, base: int, end: int)
    requires Roomy(base, end) && Represents(m, Initial(base, end))
    ensures Orderly(m, Initial(base, end), FillingRun(base))
    ensures var h := RunHeap(m, Initial(base, end), FillingRun(base), false);
            var op := CallFree(Payload(base, 2 * FREED));
            && Represents(Run(m, FillingRun(base), false), h) && Valid(h) && h.stale == map[]
            && Proper(h, op) && Overflows(h, op)
  {
    hide Comb, Represents, Valid, LivePayload, Overflows, Orderly, Free, M.Malloc;
    CombStarts(base, end);
    FreesAreOrderly(Run(m, Mallocs(BLOCKS), false), base, end, 0);
    MallocsAreOrderly(m, base, end, 0, BLOCKS, EvenFrees(base, 0, FREED));
    InitialIsValid(base, end);
    OrderlyKeeps(m, Initial(base, end), FillingRun(base));
    CombFree(base, end, BLOCKS, FREED, false);
  }

  lemma InitialIsValid(base: int, end: int)
    requires Roomy(base, end)
    ensures Valid(Initial(base, end)) && Initial(base, end).stale == map[]
  {
  }

  // ----- An order of frees that does not restore the heap -----

  // The blocks at even positions first, then those at odd positions.
  function Nth(i: nat): nat { if i <= FREED + 1 then 2 * i else 2 * (i - FREED - 2) + 1 }

  function EvensFirst(base: int): (order: seq<Block>)
    ensures |order| == BLOCKS
  {
    seq(BLOCKS, i requires 0 <= i < BLOCKS => Small(base, Nth(i), true))
  }

  lemma NthHits(i: nat)
    requires i < BLOCKS
    ensures var k := if i % 2 == 0 then i / 2 else i / 2 + FREED + 2; k < BLOCKS && Nth(k) == i
    ensures Nth(i) < BLOCKS
  {
  }

  lemma EvensFirstIsAll(base: int, end: int)
    ensures EachOnce(Comb(base, end, BLOCKS, 0), EvensFirst(base)) && AllLive(Comb(base, end, BLOCKS, 0), EvensFirst(base))
  {
    var h, order := Comb(base, end, BLOCKS, 0), EvensFirst(base);
    forall b | b in order
      ensures b in h.blocks && b.used
    {
      var i :| 0 <= i < BLOCKS && order[i] == b;
      NthHits(i);
      CombAt(base, end, BLOCKS, 0, Nth(i));
    }
    forall b | b in h.blocks && b.used
      ensures b in order
    {
      var i :| 0 <= i <= BLOCKS && h.blocks[i] == b;
      NthHits(i);
      CombAt(base, end, BLOCKS, 0, i);
      assert order[if i % 2 == 0 then i / 2 else i / 2 + FREED + 2] == b;
    }
    forall i, j | 0 <= i < j < BLOCKS
      ensures order[i] != order[j]
    {
      assert Nth(i) != Nth(j);
    }
  }

  lemma {:induction false} OverflowsLater(m: M.Machine, h: Heap, a: seq<Op>, op: Op, rest: seq<Op>)
    requires Overflows(RunHeap(m, h, a, false), op)
    ensures !NeverOverflows(m, h, a + [op] + rest, false)
    decreases |a|
  {
    hide Step, StepHeap, Overflows;
    if a == [] {
      assert (a + [op] + rest)[0] == op;
    } else {
      assert (a + [op] + rest)[0] == a[0] && (a + [op] + rest)[1..] == a[1..] + [op] + rest;
      OverflowsLater(Step(m, a[0], false), StepHeap(m, h, a[0], false), a[1..], op, rest);
    }
  }

  lemma EvensAreFreedFirst(base: int)
    ensures Frees(EvensFirst(base))
         == EvenFrees(base, 0, FREED) + [CallFree(Payload(base, 2 * FREED))] + Frees(EvensFirst(base))[FREED + 1..]
  {
    var all, evens := Frees(EvensFirst(base)), EvenFrees(base, 0, FREED);
    forall i | 0 <= i < FREED
      ensures all[i] == evens[i]
    {
      assert EvensFirst(base)[i] == Small(base, 2 * i, true);
      assert all[i] == CallFree(EvensFirst(base)[i].Payload());
      assert evens[i] == CallFree(Payload(base, 2 * (0 + i)));
    }
    assert all[..FREED] == evens;
    assert EvensFirst(base)[FREED] == Small(base, 2 * FREED, true);
  }

  lemma LiveAfterMallocs(m: M.Machine, base: int, end: int)
    requires Roomy(base, end) && Represents(m, Initial(base, end))
    ensures var m1, h1 := Run(m, Mallocs(BLOCKS), false), Comb(base, end, BLOCKS, 0);
            RunHeap(m, Initial(base, end), Mallocs(BLOCKS), false) == h1 && Represents(m1, h1) && Valid(h1) && h1.stale == map[]
  {
    hide Comb, Represents, Valid, M.Malloc, Orderly, Initial;
    var m1, h1 := Run(m, Mallocs(BLOCKS), false), Comb(base, end, BLOCKS, 0);
    CombStarts(base, end);
    NothingIsOrderly(m1, h1);
    MallocsAreOrderly(m, base, end, 0, BLOCKS, []);
    assert Mallocs(BLOCKS) + [] == Mallocs(BLOCKS);
    InitialIsValid(base, end);
    OrderlyKeeps(m, Initial(base, end), Mallocs(BLOCKS));
  }

  lemma NothingIsOrderly(m: M.Machine, h: Heap)
    ensures Orderly(m, h, []) && RunHeap(m, h, [], false) == h
  {
  }

  lemma EvensFirstOverflows(m: M.Machine, base: int, end: int)
    requires Roomy(base, end)
    ensures !NeverOverflows(m, Comb(base, end, BLOCKS, 0), Frees(EvensFirst(base)), false)
  {
    hide Comb, LivePayload, Overflows, Free, Frees, EvensFirst, EvenFrees, Orderly;
    FreesAreOrderly(m, base, end, 0);
    CombFree(base, end, BLOCKS, FREED, false);
    EvensAreFreedFirst(base);
    OverflowsLater(m, Comb(base, end, BLOCKS, 0), EvenFrees(base, 0, FREED), CallFree(Payload(base, 2 * FREED)),
                   Frees(EvensFirst(base))[FREED + 1..]);
  }

  // In that order the frees of the 4097 live blocks do not restore the heap.
  lemma EvensFirstDoesNotRestore(m: M.Machine, base: int, end: int)
    requires Roomy(base, end) && Represents(m, Initial(base, end))
    ensures var m1 := Run(m, Mallocs(BLOCKS), false);
            var h1 := RunHeap(m, Initial(base, end), Mallocs(BLOCKS), false);
            && Represents(m1, h1) && Valid(h1) && EachOnce(h1, EvensFirst(base)) && AllLive(h1, EvensFirst(base))
            && !Represents(Run(m1, Frees(EvensFirst(base)), false), Initial(base, end))
  {
    hide Comb, Represents, Valid, NeverOverflows, Frees, EachOnce, AllLive, EvensFirst, Initial, Run, RunHeap;
    LiveAfterMallocs(m, base, end);
    EvensFirstOverflows(Run(m, Mallocs(BLOCKS), false), base, end);
    EvensFirstIsAll(base, end);
    FreeAllRestoresIff(Run(m, Mallocs(BLOCKS), false), Comb(base, end, BLOCKS, 0), EvensFirst(base));
    CombRange(base, end);
  }

  lemma CombRange(base: int, end: int)
    ensures Comb(base, end, BLOCKS, 0).base == base && Comb(base, end, BLOCKS, 0).end == end
  {
  }
}
