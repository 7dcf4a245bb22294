// What the missing prev store of malloc leads to.  Whenever malloc as written
// cuts a block that another block follows, three further ordinary calls put a
// live block inside free memory.

module HeapLoss {
  import opened Common
  import opened FreeIndex
  import opened HeapInvariant
  import opened HeapLinks
  import opened HeapModel
  import opened HeapProperties
  import opened HeapRefinement
  import M = HeapMachine

  // The live block b lies inside memory the index offers for allocation.
  ghost predicate Overlaid(m: M.Machine, b: Block) {
    && M.UsedOf(m.mem, b.addr)
    && exists a :: a in m.free && a + M.HEADER <= b.addr && b.End() <= a + M.HEADER + M.GetBlockSize(m, a)
  }

  // Joining block p into the unused block q that its stored prev link names.
  lemma MergeIntoStale(m: M.Machine, h: Heap, q: nat, p: nat)
    requires Represents(m, h) && Sound(h) && q + 1 < p < |h.blocks|
    requires !h.blocks[q].used && h.blocks[q] in h.index && h.blocks[q + 1].used
    requires M.PrevOf(m.mem, h.blocks[p].addr) == h.blocks[q].addr
    ensures var (m', r) := M.MergePrev(m, h.blocks[p].addr);
            && r == Value(h.blocks[q].addr) && |m'.free| < M.CAPACITY && m'.end == h.end
            && M.NextOf(m'.mem, h.blocks[q].addr) == NextAddr(h.blocks, p)
            && M.UsedOf(m'.mem, h.blocks[q + 1].addr)
  {
    hide M.GetBlockSize, M.Sizes, Without;
    var bs := h.blocks;
    RemoveFreeRefines(m, h, bs[q]);
    WithoutMembers(h.index, bs[q]);
    assert LinkAt(m.mem, bs, h.stale, q) && LinkAt(m.mem, bs, h.stale, q + 1) && LinkAt(m.mem, bs, h.stale, p);
    HeadersApart(bs, h.base, h.end, q, q + 1);
    HeadersApart(bs, h.base, h.end, q, p);
    HeadersApart(bs, h.base, h.end, q + 1, p);
    if p + 1 < |bs| {
      HeadersApart(bs, h.base, h.end, q, p + 1);
      HeadersApart(bs, h.base, h.end, q + 1, p + 1);
      HeadersApart(bs, h.base, h.end, p, p + 1);
    }
  }

  lemma AddedCovers(m: M.Machine, h: Heap, q: nat, p: nat)
    requires Tiled(h.blocks, h.base, h.end) && 0 < h.base && h.end < U32 && q + 1 < p < |h.blocks|
    requires |m.free| < M.CAPACITY && m.end == h.end
    requires M.NextOf(m.mem, h.blocks[q].addr) == NextAddr(h.blocks, p)
    requires M.UsedOf(m.mem, h.blocks[q + 1].addr)
    ensures Overlaid(M.AddFreeBlock(m, h.blocks[q].addr), h.blocks[q + 1])
  {
    hide M.GetBlockSize, M.Sizes, FindFirstGte;
    var a := h.blocks[q].addr;
    var m' := M.AddFreeBlock(m, a);
    HeadersApart(h.blocks, h.base, h.end, q, q + 1);
    HeadersApart(h.blocks, h.base, h.end, q + 1, p);
    WideSize(m', h, q, p);
    assert |M.Sizes(m)| == |m.free| by { SizesLength(m); }
    assert m'.free[FindFirstGte(M.Sizes(m), M.GetBlockSize(m, a))] == a;
  }

  // The size that the links give a block whose next link jumps to the end of p.
  lemma WideSize(m: M.Machine, h: Heap, q: nat, p: nat)
    requires Tiled(h.blocks, h.base, h.end) && 0 < h.base && h.end < U32 && q < p < |h.blocks| && m.end == h.end
    requires M.NextOf(m.mem, h.blocks[q].addr) == NextAddr(h.blocks, p)
    ensures M.GetBlockSize(m, h.blocks[q].addr) == h.blocks[p].End() - h.blocks[q].Payload()
  {
    HeadersApart(h.blocks, h.base, h.end, q, p);
    if p + 1 < |h.blocks| {
      assert Abuts(h.blocks, p + 1);
      HeadersApart(h.blocks, h.base, h.end, p, p + 1);
    }
  }

  lemma StaleAfterAbsorb(h: Heap, q: nat, p: nat)
    requires Valid(h) && q + 1 < p < |h.blocks| && h.blocks[p].used && !h.blocks[q].used
    ensures var h2 := AbsorbNext(Release(h, p), p);
            && p < |h2.blocks| && h2.blocks[p].addr == h.blocks[p].addr
            && h2.blocks[q] == h.blocks[q] && h2.blocks[q + 1] == h.blocks[q + 1]
            && h2.blocks[q] in h2.index && h2.blocks[q + 1].used && h2.base == h.base && h2.end == h.end
  {
    hide AbsorbNext, Release, Ordered, JoinEnd;
    UnusedBefore(h, q, p);
    AbsorbNextIs(h, p);
  }

  // Block q has an entry, its successor is live, and neither is joined with p.
  lemma UnusedBefore(h: Heap, q: nat, p: nat)
    requires Valid(h) && q + 1 < p < |h.blocks| && h.blocks[p].used && !h.blocks[q].used
    ensures h.blocks[q] in h.index && h.blocks[q + 1].used && h.blocks[q] != h.blocks[JoinEnd(h, p) - 1]
    ensures Ordered(h.index) && h.blocks[p] !in h.index && IndexedAt(h, p + 1)
  {
    assert Separated(h.blocks, q + 1);
    HeadersApart(h.blocks, h.base, h.end, q, JoinEnd(h, p) - 1);
  }

  lemma AbsorbKeepsPrev(mem: map<int, int>, h: Heap, p: nat)
    requires Tiled(h.blocks, h.base, h.end) && 0 < h.base && p < |h.blocks|
    ensures M.PrevOf(AbsorbedMem(mem[h.blocks[p].addr + 8 := 0], Release(h, p), p + 1), h.blocks[p].addr)
         == M.PrevOf(mem, h.blocks[p].addr)
  {
    HeadersApart(h.blocks, h.base, h.end, p, p);
    if p + 2 < |h.blocks| {
      HeadersApart(h.blocks, h.base, h.end, p, p + 2);
    }
  }

  // Freeing block p when its stored prev link names the unused block q, with
  // the live block q + 1 between them.
  lemma StaleFreeOverlays(m: M.Machine, h: Heap, q: nat, p: nat)
    requires Represents(m, h) && Valid(h) && q + 1 < p < |h.blocks| && h.blocks[p].used && !h.blocks[q].used
    requires M.PrevOf(m.mem, h.blocks[p].addr) == h.blocks[q].addr
    ensures var (m', r) := M.Free(m, h.blocks[p].Payload());
            r == Value(()) && Overlaid(m', h.blocks[q + 1])
  {
    hide M.MergeNext, M.MergePrev, M.AddFreeBlock, AbsorbNext, AbsorbedMem, Overlaid;
    var a := h.blocks[p].addr;
    AbsorbNextRefines(m, h, p);
    StaleAfterAbsorb(h, q, p);
    AbsorbKeepsPrev(m.mem, h, p);
    assert M.UsedOf(m.mem, a) && 0 < a by {
      assert LinkAt(m.mem, h.blocks, h.stale, p);
      HeadersApart(h.blocks, h.base, h.end, p, p);
    }
    var (m2, r2) := M.MergeNext(m.(mem := m.mem[a + 8 := 0]), a);
    var h2 := AbsorbNext(Release(h, p), p);
    MergeIntoStale(m2, h2, q, p);
    var (m3, r3) := M.MergePrev(m2, a);
    AddedCovers(m3, h2, q, p);
  }

  // ----- Three calls after the cut -----

  // The entry just inserted is the first that fits its own size.
  lemma FreshEntryIsFirst(idx: seq<Block>, b: Block)
    requires Sorted(SizesOf(idx))
    ensures var r := InsertSorted(idx, b);
            var k := FindFirstGte(SizesOf(r), b.size);
            k < |r| && r[k] == b && RemoveAt(r, k) == idx
  {
    var s, j := SizesOf(idx), FindFirstGte(SizesOf(idx), b.size);
    var r := InsertSorted(idx, b);
    InsertKeepsSorted(s, b.size);
    assert SizesOf(r) == InsertAt(s, j, b.size);
    FindFirstGteIsLowerBound(s, b.size);
    FindFirstGteIsLowerBound(SizesOf(r), b.size);
    var k := FindFirstGte(SizesOf(r), b.size);
    assert forall i :: 0 <= i < j ==> SizesOf(r)[i] == s[i];
    assert SizesOf(r)[j] == b.size;
    assert k < |r| ==> b.size <= SizesOf(r)[k];
    assert k == j;
  }

  // malloc of exactly the size of the unused block behind the search result
  // marks it and changes nothing else.
  lemma ExactMalloc(m: M.Machine, h: Heap, p: nat, size: int)
    requires Represents(m, h) && Valid(h) && p < |h.blocks| && 0 < size < U32 && size % 4 == 0
    requires var k := FindFirstGte(SizesOf(h.index), size); k < |h.index| && h.index[k] == h.blocks[p]
    requires size == h.blocks[p].size
    ensures var (m', r) := M.Malloc(m, size, false);
            var g := Take(h, FindFirstGte(SizesOf(h.index), size), p);
            && r == Value(h.blocks[p].Payload()) && Represents(m', g) && Valid(g)
            && g == Malloc(h, size, false) && !SplitsBeforeAnother(h, size)
            && m'.mem == m.mem[h.blocks[p].addr + 8 := 1]
  {
    hide M.Malloc, Represents, SizesOf;
    var k := FindFirstGte(SizesOf(h.index), size);
    MallocRefines(m, h, size, false);
    ChosenIs(h, k);
    HeadersApart(h.blocks, h.base, h.end, p, Chosen(h, k));
    TakeKeepsValid(h, k, p);
    hide Valid, Take;
  }

  // free of a block between two live ones only marks and indexes it.
  lemma LoneFree(m: M.Machine, h: Heap, p: nat)
    requires Represents(m, h) && Valid(h) && p < |h.blocks| && h.blocks[p].used && |h.index| < M.CAPACITY
    requires LinkRight(h, p) && !UnusedAt(h, p - 1) && !UnusedAt(h, p + 1)
    ensures var (m', r) := M.Free(m, h.blocks[p].Payload());
            && r == Value(()) && Represents(m', FreeAt(h, p)) && Valid(FreeAt(h, p))
            && FreeAt(h, p).blocks == Release(h, p).blocks
            && m'.mem == m.mem[h.blocks[p].addr + 8 := 0]
  {
    hide M.Free, Valid, Represents, AddFree;
    ValidIsSound(h, p);
    FreeRefines(m, h, p);
    FreeKeepsValidIff(h, p);
    assert Merged(h, p) == (Release(h, p), p);
  }

  // The piece that the next malloc of this size cuts off the chosen block.
  function Chopped(h: Heap, size: int): (p: nat)
    requires SplitsBeforeAnother(h, size)
    ensures p + 1 < |h.blocks|
  {
    Chosen(h, FindFirstGte(SizesOf(h.index), Padded(size)))
  }

  function Remainder(h: Heap, size: int): Block
    requires SplitsBeforeAnother(h, size)
  {
    Rest(h.blocks[Chopped(h, size)], Padded(size))
  }

  lemma ApartWhenValid(h: Heap, i: nat, j: nat)
    requires Valid(h) && i < j < |h.blocks|
    ensures h.blocks[i].End() <= h.blocks[j].addr && 0 < h.blocks[i].addr && h.blocks[j].End() < U32
  {
    HeadersApart(h.blocks, h.base, h.end, i, j);
    HeadersApart(h.blocks, h.base, h.end, j, j);
  }

  lemma RemainderSize(h: Heap, size: int)
    requires Valid(h) && 0 < size < U32 && SplitsBeforeAnother(h, size)
    ensures var rest := Remainder(h, size);
            && 0 < rest.size < U32 && rest.size % 4 == 0
            && rest.End() == h.blocks[Chopped(h, size) + 1].addr
  {
    PaddedBounds(size);
    var p := Chopped(h, size);
    assert Abuts(h.blocks, p + 1) && h.blocks[p].addr % 4 == 0 && h.blocks[p + 1].addr % 4 == 0;
    ApartWhenValid(h, p, p + 1);
    hide *;
    RestIsAligned(h.blocks[p].addr, Padded(size), h.blocks[p + 1].addr);
  }

  lemma RestIsAligned(a: int, padded: int, next: int)
    requires a % 4 == 0 && padded % 4 == 0 && next % 4 == 0
    ensures (next - (a + M.HEADER + padded) - M.HEADER) % 4 == 0
  {
  }

  // The heap after the cut: the two pieces, then the follower.
  lemma AfterCut(h: Heap, size: int)
    requires Valid(h) && h.stale == map[] && 0 < size < U32 && SplitsBeforeAnother(h, size)
    ensures var g := Malloc(h, size, false);
            var k := FindFirstGte(SizesOf(h.index), Padded(size));
            var p := Chopped(h, size);
            && g.blocks == h.blocks[..p] + [Block(h.blocks[p].addr, Padded(size), true), Remainder(h, size)] + h.blocks[p + 1..]
            && g.index == InsertSorted(RemoveAt(h.index, k), Remainder(h, size))
            && LinkRight(g, p) && h.blocks[p + 1].used && (0 < p ==> h.blocks[p - 1].used)
  {
    hide Valid, Tiled, Ordered, InsertSorted, Padded, SizesOf, Chosen;
    var padded := Padded(size);
    var k := FindFirstGte(SizesOf(h.index), padded);
    PaddedBounds(size);
    ValidIsSound(h, 0);
    ChosenFits(h, padded);
    ChosenIs(h, k);
    PrevOfChosenUsed(h, k);
    AllocatedBlocks(h, k, Chosen(h, k), padded, false);
    AllocatedAt(h, k, Chosen(h, k), padded, false);
  }

  // g is h with both pieces of the cut in use.
  ghost predicate BothPieces(h: Heap, size: int, g: Heap)
    requires SplitsBeforeAnother(h, size)
  {
    var p := Chopped(h, size);
    && p + 2 < |g.blocks| && |g.index| < M.CAPACITY
    && g.blocks[p] == Block(h.blocks[p].addr, Padded(size), true)
    && g.blocks[p + 1] == Remainder(h, size).(used := true)
    && g.blocks[p + 2] == h.blocks[p + 1] && h.blocks[p + 1].used
    && (0 < p ==> g.blocks[p - 1].used)
    && LinkRight(g, p)
  }

  // The remainder is the first entry that fits its own size; taking it leaves
  // both pieces in use.
  lemma RemainderIsNext(h: Heap, size: int)
    requires Valid(h) && h.stale == map[] && 0 < size < U32 && SplitsBeforeAnother(h, size)
    ensures var g, p, rest := Malloc(h, size, false), Chopped(h, size), Remainder(h, size);
            var k := FindFirstGte(SizesOf(g.index), rest.size);
            && k < |g.index| && p + 1 < |g.blocks| && g.index[k] == rest == g.blocks[p + 1]
            && BothPieces(h, size, Take(g, k, p + 1))
  {
    var k, p, rest := FindFirstGte(SizesOf(h.index), Padded(size)), Chopped(h, size), Remainder(h, size);
    var g := Malloc(h, size, false);
    AfterCut(h, size);
    RemoveAtKeepsOrder(h.index, k);
    assert |RemoveAt(h.index, k)| < M.CAPACITY;
    hide Valid, Malloc, InsertSorted, RemoveAt, Chosen, Padded;
    FreshEntryIsFirst(RemoveAt(h.index, k), rest);
  }

  // malloc of exactly the remainder, right after the cut.
  lemma ExactAfterCut(m: M.Machine, h: Heap, size: int)
    requires Valid(h) && h.stale == map[] && 0 < size < U32 && SplitsBeforeAnother(h, size)
    requires Represents(m, Malloc(h, size, false))
    ensures var rest := Remainder(h, size);
            var (m', r) := M.Malloc(m, rest.size, false);
            && r == Value(rest.Payload()) && m'.mem == m.mem[rest.addr + 8 := 1]
            && !SplitsBeforeAnother(Malloc(h, size, false), rest.size)
    ensures var m' := M.Malloc(m, Remainder(h, size).size, false).0;
            var g := Malloc(Malloc(h, size, false), Remainder(h, size).size, false);
            Represents(m', g) && Valid(g) && BothPieces(h, size, g)
  {
    hide M.Malloc, Represents, Padded, Valid, Malloc, BothPieces, Take, Rest, SizesOf, FindFirstGte, Sound, Remainder;
    var p, rest, g := Chopped(h, size), Remainder(h, size), Malloc(h, size, false);
    RemainderSize(h, size);
    MallocKeepsValid(h, size, false);
    RemainderIsNext(h, size);
    ExactMalloc(m, g, p + 1, rest.size);
  }

  // After the cut and a malloc of the remainder both pieces are in use, and the
  // follower's prev link still names the first of them.
  lemma BothPiecesTaken(m: M.Machine, h: Heap, size: int)
    requires Represents(m, h) && Valid(h) && h.stale == map[] && 0 < size < U32
    requires SplitsBeforeAnother(h, size)
    ensures var p, rest := Chopped(h, size), Remainder(h, size);
            var (m1, r1) := M.Malloc(m, size, false);
            var (m2, r2) := M.Malloc(m1, rest.size, false);
            var g := Malloc(Malloc(h, size, false), rest.size, false);
            && r1 == Value(h.blocks[p].Payload()) && r2 == Value(rest.Payload())
            && Represents(m2, g) && Valid(g) && BothPieces(h, size, g)
            && M.PrevOf(m2.mem, h.blocks[p + 1].addr) == h.blocks[p].addr
  {
    hide M.Malloc, Valid, Represents, Malloc, MallocMem, BothPieces, Remainder;
    var p := Chopped(h, size);
    ValidIsSound(h, p);
    MallocRefines(m, h, size, false);
    CutLeavesStale(m, h, size);
    AfterCut(h, size);
    RemainderSize(h, size);
    ExactAfterCut(M.Malloc(m, size, false).0, h, size);
  }

  // Whenever malloc as written cuts a block that another block follows, these
  // calls all succeed and leave a live block inside memory the index offers:
  // malloc of the remainder, free of the first piece, free of the follower.
  lemma CutBeforeAnotherOverlays(m: M.Machine, h: Heap, size: int)
    requires Represents(m, h) && Valid(h) && h.stale == map[] && 0 < size < U32
    requires SplitsBeforeAnother(h, size)
    ensures var p, rest := Chopped(h, size), Remainder(h, size);
            var (m1, r1) := M.Malloc(m, size, false);
            var (m2, r2) := M.Malloc(m1, rest.size, false);
            var (m3, r3) := M.Free(m2, h.blocks[p].Payload());
            var (m4, r4) := M.Free(m3, h.blocks[p + 1].Payload());
            && r1 == Value(h.blocks[p].Payload()) && r2 == Value(rest.Payload())
            && r3 == r4 == Value(()) && Overlaid(m4, rest.(used := true))
  {
    hide M.Malloc, M.Free, Overlaid, Valid, Represents, Malloc, SplitsBeforeAnother, Remainder, FreeAt;
    var p, rest := Chopped(h, size), Remainder(h, size);
    BothPiecesTaken(m, h, size);
    var m2 := M.Malloc(M.Malloc(m, size, false).0, rest.size, false).0;
    var g2 := Malloc(Malloc(h, size, false), rest.size, false);
    LoneFree(m2, g2, p);
    PaddedBounds(size);
    ApartWhenValid(g2, p, p + 2);
    StaleFreeOverlays(M.Free(m2, h.blocks[p].Payload()).0, FreeAt(g2, p), p, p + 2);
  }
}
