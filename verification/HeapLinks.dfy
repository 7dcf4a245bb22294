// Exactly when malloc and free keep the heap well formed, and what the missing
// prev store of malloc leads to.

module HeapLinks {
  import opened Common
  import opened FreeIndex
  import opened HeapInvariant
  import opened HeapModel
  import opened HeapProperties
  import opened HeapRefinement
  import M = HeapMachine

  // The memory holds a heap with all its invariants, prev links included.
  ghost predicate WellFormed(m: M.Machine) {
    exists h :: Valid(h) && h.stale == map[] && Represents(m, h)
  }

  ghost predicate Walkable(m: M.Machine, h: Heap) {
    Represents(m, h) && 0 < h.base && h.end < U32 && Tiled(h.blocks, h.base, h.end)
  }

  lemma NextOfBlock(m: M.Machine, h: Heap, i: nat)
    requires Walkable(m, h) && i < |h.blocks|
    ensures var b, n := h.blocks[i], M.NextOf(m.mem, h.blocks[i].addr);
            && b.used == M.UsedOf(m.mem, b.addr)
            && b.End() == (if n == 0 then m.end else n)
            && (n == 0 <==> i + 1 == |h.blocks|)
            && (n != 0 ==> h.blocks[i + 1].addr == n)
  {
    assert LinkAt(m.mem, h.blocks, h.stale, i);
    if i + 1 < |h.blocks| {
      assert Abuts(h.blocks, i + 1);
      HeadersApart(h.blocks, h.base, h.end, i + 1, i + 1);
    }
  }

  // The walk along the next links determines the blocks.
  lemma {:induction false} SameWalk(m: M.Machine, g: Heap, h: Heap, i: nat)
    requires Walkable(m, g) && Walkable(m, h) && i < |g.blocks|
    ensures i < |h.blocks| && g.blocks[i] == h.blocks[i]
  {
    if 0 < i {
      SameWalk(m, g, h, i - 1);
      NextOfBlock(m, g, i - 1);
      NextOfBlock(m, h, i - 1);
    }
    NextOfBlock(m, g, i);
    NextOfBlock(m, h, i);
  }

  // malloc cuts a block that another block follows.
  predicate SplitsBeforeAnother(h: Heap, size: int) {
    var k := FindFirstGte(SizesOf(h.index), Padded(size));
    size != 0 && k < |h.index| && Chosen(h, k) + 1 < |h.blocks| && Splits(h.blocks[Chosen(h, k)], Padded(size))
  }

  // After such a cut the block behind the remainder points back too far.
  lemma CutLeavesStale(m: M.Machine, h: Heap, size: int)
    requires Represents(m, h) && Valid(h) && h.stale == map[] && 0 <= size < U32
    requires SplitsBeforeAnother(h, size)
    ensures var m' := M.Malloc(m, size, false).0;
            var g := Malloc(h, size, false);
            var p := Chosen(h, FindFirstGte(SizesOf(h.index), Padded(size)));
            && p + 2 < |g.blocks|
            && M.PrevOf(m'.mem, g.blocks[p + 2].addr) == h.blocks[p].addr != g.blocks[p + 1].addr
  {
    hide M.Malloc, Valid, Sound, Padded, Chosen, MallocMem;
    ValidIsSound(h, 0);
    assert size != 0;
    PaddedBounds(size);
    MallocRefines(m, h, size, false);
    ChosenFits(h, Padded(size));
    var k := FindFirstGte(SizesOf(h.index), Padded(size));
    var g := Malloc(h, size, false);
    assert LinkAt(M.Malloc(m, size, false).0.mem, g.blocks, g.stale, Chosen(h, k) + 2);
  }

  // One wrong prev link is enough.
  lemma WrongPrevIsIllFormed(m: M.Machine, g: Heap, i: nat)
    requires Walkable(m, g) && 0 < i < |g.blocks|
    requires M.PrevOf(m.mem, g.blocks[i].addr) != g.blocks[i - 1].addr
    ensures !WellFormed(m)
  {
    forall f | Valid(f) && f.stale == map[] && Represents(m, f)
      ensures i < |f.blocks| && !LinkAt(m.mem, f.blocks, f.stale, i)
    {
      SameWalk(m, g, f, i - 1);
      SameWalk(m, g, f, i);
    }
  }

  // malloc as written keeps the heap well formed exactly when it does not cut
  // a block that another block follows.
  lemma MallocKeepsWellFormedIff(m: M.Machine, h: Heap, size: int)
    requires Represents(m, h) && Valid(h) && h.stale == map[] && 0 <= size < U32
    ensures WellFormed(M.Malloc(m, size, false).0) <==> !SplitsBeforeAnother(h, size)
  {
    hide M.Malloc, Represents;
    MallocRefines(m, h, size, false);
    MallocKeepsValid(h, size, false);
    var m', g := M.Malloc(m, size, false).0, Malloc(h, size, false);
    if SplitsBeforeAnother(h, size) {
      CutLeavesStale(m, h, size);
      WrongPrevIsIllFormed(m', g, Chosen(h, FindFirstGte(SizesOf(h.index), Padded(size))) + 2);
    } else {
      assert g.stale == map[];
    }
  }

  // With the missing store malloc always keeps it.
  lemma RepairedMallocKeepsWellFormed(m: M.Machine, size: int)
    requires WellFormed(m) && 0 <= size < U32
    ensures WellFormed(M.Malloc(m, size, true).0)
  {
    hide M.Malloc, Represents, Valid;
    var h :| Valid(h) && h.stale == map[] && Represents(m, h);
    ValidIsSound(h, 0);
    MallocRefines(m, h, size, true);
    MallocKeepsValid(h, size, true);
    assert Malloc(h, size, true).stale == map[];
  }

  lemma UnusedIsIndexed(m: M.Machine, f: Heap, q: nat)
    requires Represents(m, f) && Valid(f) && q < |f.blocks| && !f.blocks[q].used
    ensures f.blocks[q].addr in m.free
  {
    assert f.blocks[q] in f.index;
    var j :| 0 <= j < |f.index| && f.index[j] == f.blocks[q];
    assert m.free[j] == f.blocks[q].addr;
  }

  // free keeps the heap well formed exactly when the index has room.
  lemma FreeKeepsWellFormedIff(m: M.Machine, h: Heap, p: nat)
    requires Represents(m, h) && Valid(h) && h.stale == map[] && p < |h.blocks| && h.blocks[p].used
    ensures WellFormed(M.Free(m, h.blocks[p].Payload()).0) <==> Room(h, p)
  {
    var m', g := M.Free(m, h.blocks[p].Payload()).0, FreeAt(h, p);
    var (f, q) := Merged(h, p);
    hide M.Free;
    FreeRefines(m, h, p);
    FreeKeepsValidIff(h, p);
    MergedIs(h, p);
    MergedIndex(h, p);
    hide Merged;
    if !Room(h, p) {
      assert g.blocks[q].addr !in m'.free by {
        forall j | 0 <= j < |m'.free|
          ensures m'.free[j] != g.blocks[q].addr
        {
          assert m'.free[j] == g.index[j].addr && g.index[j] in g.index;
        }
      }
      forall f' | Valid(f') && f'.stale == map[] && Represents(m', f')
        ensures false
      {
        SameWalk(m', g, f', q);
        UnusedIsIndexed(m', f', q);
      }
    }
  }
}
