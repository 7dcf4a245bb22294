// What malloc and free leave untouched in memory: every live payload.

module HeapFrame {
  import opened Common
  import opened FreeIndex
  import opened HeapHeaders
  import opened HeapInvariant
  import opened HeapLayout
  import opened HeapModel
  import opened HeapRefinement
  import M = HeapMachine

  // free of a live block writes no word outside the headers, so no payload at all,
  // whether it succeeds or not and whatever its prev link names.
  lemma FreeKeepsPayloads(m: M.Machine, h: Heap, p: nat, i: nat, w: int)
    requires Represents(m, h) && Sound(h) && p < |h.blocks| && h.blocks[p].used
    requires i < |h.blocks| && h.blocks[i].InPayload(w)
    ensures M.Word(M.Free(m, h.blocks[p].Payload()).0.mem, w) == M.Word(m.mem, w)
  {
    hide M.Free, InHeader, InSome, Starts;
    LiveIsUsed(m, h, p);
    PayloadMissesHeaders(h.blocks, h.base, h.end, i, w);
    OutsideHeaders(h, w);
    hide Sound, Represents;
    HeapIsLinked(m, h);
    StartsAre(h, h.blocks[p].addr);
    FreeWrites(m, Starts(h), h.blocks[p].addr);
  }

  lemma LiveIsUsed(m: M.Machine, h: Heap, p: nat)
    requires Represents(m, h) && p < |h.blocks|
    ensures M.UsedOf(m.mem, h.blocks[p].addr) == h.blocks[p].used
  {
    assert LinkAt(m.mem, h.blocks, h.stale, p);
  }

  // Freeing the same payload again at once is refused and changes nothing,
  // whatever the first call met.
  lemma FreeTwiceFails(m: M.Machine, h: Heap, p: nat)
    requires Represents(m, h) && Sound(h) && p < |h.blocks| && h.blocks[p].used
    ensures var m1 := M.Free(m, h.blocks[p].Payload()).0;
            M.Free(m1, h.blocks[p].Payload()) == (m1, Failure(InvalidArgument))
  {
    hide M.MergeNext, M.MergePrev, M.AddFreeBlock, Starts, InSome;
    LiveIsUsed(m, h, p);
    HeadersApart(h.blocks, h.base, h.end, p, p);
    HeapIsLinked(m, h);
    StartsAre(h, h.blocks[p].addr);
    FreeWrites(m, Starts(h), h.blocks[p].addr);
  }

  lemma AllocateKeepsWord(m: M.Machine, h: Heap, p: nat, padded: int, linksBack: bool, i: nat, w: int)
    requires Represents(m, h) && Sound(h) && p < |h.blocks| && 0 <= padded
    requires i < |h.blocks| && i != p && h.blocks[i].InPayload(w)
    ensures M.Word(AllocatedMem(m.mem, h, p, padded, linksBack), w) == M.Word(m.mem, w)
  {
    var a := h.blocks[p].addr;
    assert LinkAt(m.mem, h.blocks, h.stale, p);
    HeadersApart(h.blocks, h.base, h.end, i, p);
    if p + 1 < |h.blocks| {
      HeadersApart(h.blocks, h.base, h.end, i, p + 1);
    }
    hide Sound, Links, Tiled;
  }

  // malloc writes no word of a live payload.
  lemma MallocKeepsPayloads(m: M.Machine, h: Heap, size: int, linksBack: bool, i: nat, w: int)
    requires Represents(m, h) && Sound(h) && 0 <= size < U32
    requires i < |h.blocks| && h.blocks[i].used && h.blocks[i].InPayload(w)
    ensures M.Word(M.Malloc(m, size, linksBack).0.mem, w) == M.Word(m.mem, w)
  {
    hide M.Malloc, AllocatedMem, M.Word, Represents;
    MallocRefines(m, h, size, linksBack);
    var padded := Padded(size);
    if FindFirstGte(SizesOf(h.index), padded) < |h.index| {
      ChosenFits(h, padded);
      AllocateKeepsWord(m, h, Chosen(h, FindFirstGte(SizesOf(h.index), padded)), padded, linksBack, i, w);
    }
  }
}
