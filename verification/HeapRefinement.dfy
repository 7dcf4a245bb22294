// The word-level heap of HeapMachine refines the block-level heap of HeapModel:
// from related states the two malloc's, and the two free's, reach related
// states.

module HeapRefinement {
  import opened Common
  import opened FreeIndex
  import opened HeapInvariant
  import opened HeapModel
  import M = HeapMachine

  // ----- The relation -----

  // The header words of block i.
  ghost predicate LinkAt(mem: map<int, int>, bs: seq<Block>, stale: map<int, int>, i: nat)
    requires i < |bs|
  {
    var a := bs[i].addr;
    && M.NextOf(mem, a) == NextAddr(bs, i)
    && M.UsedOf(mem, a) == bs[i].used
    && M.PrevOf(mem, a) == StoredPrev(bs, stale, i)
  }

  ghost predicate Links(mem: map<int, int>, bs: seq<Block>, stale: map<int, int>) {
    forall i :: 0 <= i < |bs| ==> LinkAt(mem, bs, stale, i)
  }

  function Addrs(idx: seq<Block>): seq<int> {
    seq(|idx|, i requires 0 <= i < |idx| => idx[i].addr)
  }

  ghost predicate Represents(m: M.Machine, h: Heap) {
    m.base == h.base && m.end == h.end && m.free == Addrs(h.index) && Links(m.mem, h.blocks, h.stale)
  }

  // ----- Derived sizes agree with block sizes -----

  lemma SizeOfBlock(m: M.Machine, h: Heap, i: nat)
    requires Represents(m, h) && Sound(h) && i < |h.blocks|
    ensures M.GetBlockSize(m, h.blocks[i].addr) == h.blocks[i].size
  {
    HeadersApart(h.blocks, h.base, h.end, i, i);
    assert LinkAt(m.mem, h.blocks, h.stale, i);
    if i + 1 < |h.blocks| {
      assert Abuts(h.blocks, i + 1);
      HeadersApart(h.blocks, h.base, h.end, i, i + 1);
    }
  }

  lemma SizesLength(m: M.Machine)
    ensures |M.Sizes(m)| == |m.free|
  {
  }

  lemma SizesAgree(m: M.Machine, h: Heap)
    requires Represents(m, h) && Sound(h)
    ensures M.Sizes(m) == SizesOf(h.index)
  {
    forall j | 0 <= j < |h.index|
      ensures M.Sizes(m)[j] == h.index[j].size
    {
      assert h.index[j] in h.index;
      var i :| 0 <= i < |h.blocks| && h.blocks[i] == h.index[j];
      SizeOfBlock(m, h, i);
    }
  }

  // ----- Index operations -----

  lemma AddrsInsert(idx: seq<Block>, k: nat, b: Block)
    requires k <= |idx|
    ensures Addrs(InsertAt(idx, k, b)) == InsertAt(Addrs(idx), k, b.addr)
  {
  }

  lemma AddFreeRefines(m: M.Machine, h: Heap, p: nat)
    requires Represents(m, h) && Sound(h) && p < |h.blocks|
    ensures M.AddFreeBlock(m, h.blocks[p].addr)
         == m.(free := Addrs(AddFree(h.index, h.blocks[p])))
  {
    SizesAgree(m, h);
    SizeOfBlock(m, h, p);
    hide M.Sizes, M.GetBlockSize, Links, Sound, InsertAt;
    var b := h.blocks[p];
    AddrsInsert(h.index, FindFirstGte(SizesOf(h.index), b.size), b);
  }

  lemma {:induction false} ScanFinds(m: M.Machine, h: Heap, j: nat, i: nat)
    requires Represents(m, h) && Sound(h) && i <= j < |h.index|
    requires forall k :: i <= k < j ==> h.index[k].size == h.index[j].size
    ensures M.ScanFor(m, h.index[j].addr, i) == j
    decreases j - i
  {
    SizesAgree(m, h);
    assert M.Sizes(m)[i] == h.index[i].size && M.Sizes(m)[j] == h.index[j].size;
    if i < j {
      assert h.index[i].addr != h.index[j].addr;
      ScanFinds(m, h, j, i + 1);
    }
  }

  lemma BoundReachesEntry(idx: seq<Block>, j: nat)
    requires Sorted(SizesOf(idx)) && j < |idx|
    ensures var i := FindFirstGte(SizesOf(idx), idx[j].size);
            i <= j && forall k :: i <= k < j ==> idx[k].size == idx[j].size
  {
    var sizes := SizesOf(idx);
    FindFirstGteIsLowerBound(sizes, idx[j].size);
    assert sizes[j] == idx[j].size;
    forall k | 0 <= k < j
      ensures idx[k].size == sizes[k] <= idx[j].size
    {
      assert sizes[k] <= sizes[j];
    }
  }

  lemma AddrsRemove(idx: seq<Block>, k: nat)
    requires k < |idx|
    ensures Addrs(RemoveAt(idx, k)) == RemoveAt(Addrs(idx), k)
  {
  }

  // The entries before j from the search result on have the size of entry j.
  lemma SearchReaches(m: M.Machine, h: Heap, j: nat)
    requires Represents(m, h) && Sound(h) && j < |h.index|
    ensures var i := FindFirstGte(M.Sizes(m), M.GetBlockSize(m, h.index[j].addr));
            i <= j && forall k :: i <= k < j ==> h.index[k].size == h.index[j].size
  {
    SizesAgree(m, h);
    assert M.Sizes(m)[j] == h.index[j].size;
    BoundReachesEntry(h.index, j);
  }

  // Removing an indexed block by address finds exactly that block, however
  // many entries share its size.
  lemma RemoveFreeRefines(m: M.Machine, h: Heap, b: Block)
    requires Represents(m, h) && Sound(h) && b in h.index
    ensures M.RemoveFreeBlock(m, b.addr) == (m.(free := Addrs(Without(h.index, b.addr))), Value(()))
  {
    hide M.Sizes, M.GetBlockSize, RemoveAt, Links, Tiled, Sorted;
    var j := Position(h.index, b.addr);
    SearchReaches(m, h, j);
    ScanFinds(m, h, j, FindFirstGte(M.Sizes(m), M.GetBlockSize(m, b.addr)));
    AddrsRemove(h.index, j);
  }

  // ----- free, step by step -----

  lemma ReleaseRefines(m: M.Machine, h: Heap, p: nat)
    requires Represents(m, h) && Sound(h) && p < |h.blocks| && h.blocks[p].used
    ensures var a := h.blocks[p].addr;
            Represents(m.(mem := m.mem[a + 8 := 0]), Release(h, p)) && Sound(Release(h, p))
  {
    var a, bs := h.blocks[p].addr, Release(h, p).blocks;
    var mem := m.mem[a + 8 := 0];
    forall i | 0 <= i < |bs|
      ensures LinkAt(mem, bs, h.stale, i)
    {
      assert LinkAt(m.mem, h.blocks, h.stale, i);
      HeadersApart(h.blocks, h.base, h.end, i, p);
    }
    forall i | 0 < i < |bs|
      ensures Abuts(bs, i)
    {
      assert Abuts(h.blocks, i);
    }
    forall b | b in h.index
      ensures b in bs
    {
      var i :| 0 <= i < |h.blocks| && h.blocks[i] == b;
      assert bs[i] == b;
    }
  }

  // The stores that join blocks p and p + 1.
  function JoinedMem(mem: map<int, int>, bs: seq<Block>, p: nat): map<int, int>
    requires p + 1 < |bs|
  {
    var after := NextAddr(bs, p + 1);
    var mem' := mem[bs[p].addr + 4 := after];
    if after != 0 then mem'[after := bs[p].addr] else mem'
  }

  lemma JoinLinkAt(mem: map<int, int>, h: Heap, p: nat, gone: int, o: nat)
    requires Links(mem, h.blocks, h.stale) && 0 < h.base && Tiled(h.blocks, h.base, h.end)
    requires p + 1 < |h.blocks| && o < |h.blocks| && o != p + 1
    ensures var h' := Join(h, p, gone);
            LinkAt(JoinedMem(mem, h.blocks, p), h'.blocks, h'.stale, if o <= p then o else o - 1)
  {
    hide Without;
    var bs, a := h.blocks, h.blocks[o].addr;
    assert LinkAt(mem, bs, h.stale, o) && LinkAt(mem, bs, h.stale, p + 1);
    HeadersApart(bs, h.base, h.end, o, p);
    HeadersApart(bs, h.base, h.end, o, p + 1);
    if p + 2 < |bs| {
      HeadersApart(bs, h.base, h.end, p + 2, o);
      HeadersApart(bs, h.base, h.end, p + 2, p);
    }
    hide Tiled, Links;
  }

  lemma JoinLinks(mem: map<int, int>, h: Heap, p: nat, gone: int)
    requires Links(mem, h.blocks, h.stale) && 0 < h.base && Tiled(h.blocks, h.base, h.end)
    requires p + 1 < |h.blocks|
    ensures var h' := Join(h, p, gone);
            Links(JoinedMem(mem, h.blocks, p), h'.blocks, h'.stale)
  {
    hide Without, LinkAt;
    var h', mem' := Join(h, p, gone), JoinedMem(mem, h.blocks, p);
    var bs := h'.blocks;
    forall i | 0 <= i < |bs|
      ensures LinkAt(mem', bs, h'.stale, i)
    {
      JoinLinkAt(mem, h, p, gone, if i <= p then i else i + 1);
    }
  }

  lemma JoinTiled(bs: seq<Block>, base: int, end: int, p: nat)
    requires Tiled(bs, base, end) && p + 1 < |bs|
    ensures Tiled(JoinedBlocks(bs, p), base, end)
  {
    var r := JoinedBlocks(bs, p);
    assert Abuts(bs, p + 1);
    assert forall i :: 0 <= i < |r| && i != p ==> r[i] == bs[if i < p then i else i + 1];
    forall i | 0 < i < |r|
      ensures Abuts(r, i)
    {
      assert Abuts(bs, if i <= p then i else i + 1);
    }
  }

  lemma JoinKeepsBlock(bs: seq<Block>, p: nat, i: nat)
    requires p + 1 < |bs| && i < |bs| && i != p && i != p + 1
    ensures bs[i] in JoinedBlocks(bs, p)
  {
    assert JoinedBlocks(bs, p)[if i < p then i else i - 1] == bs[i];
  }

  // Of the two unused blocks exactly the one at address gone is indexed.
  lemma JoinIndexes(h: Heap, p: nat, g: nat)
    requires Sound(h) && p + 1 < |h.blocks| && p <= g <= p + 1
    requires h.blocks[g] in h.index && h.blocks[2 * p + 1 - g] !in h.index
    ensures var h' := Join(h, p, h.blocks[g].addr);
            Indexes(h'.index, h'.blocks) && |h'.index| == |h.index| - 1
  {
    WithoutMembers(h.index, h.blocks[g]);
    var idx := Without(h.index, h.blocks[g].addr);
    hide Without, Tiled, JoinedBlocks;
    forall b | b in idx
      ensures b in JoinedBlocks(h.blocks, p)
    {
      var i :| 0 <= i < |h.blocks| && h.blocks[i] == b;
      JoinKeepsBlock(h.blocks, p, i);
    }
  }

  lemma MergeNextStores(m: M.Machine, h: Heap, p: nat)
    requires Represents(m, h) && Sound(h) && p + 1 < |h.blocks| && !h.blocks[p + 1].used && h.blocks[p + 1] in h.index
    ensures M.MergeNext(m, h.blocks[p].addr)
         == (m.(free := Addrs(Without(h.index, h.blocks[p + 1].addr)), mem := JoinedMem(m.mem, h.blocks, p)), Value(()))
  {
    hide M.GetBlockSize, M.RemoveFreeBlock, Without;
    HeadersApart(h.blocks, h.base, h.end, p, p + 1);
    if p + 2 < |h.blocks| {
      HeadersApart(h.blocks, h.base, h.end, p, p + 2);
    }
    RemoveFreeRefines(m, h, h.blocks[p + 1]);
    assert LinkAt(m.mem, h.blocks, h.stale, p) && LinkAt(m.mem, h.blocks, h.stale, p + 1);
  }

  // Joining keeps the heap represented and sound.
  lemma JoinRefines(m: M.Machine, h: Heap, p: nat, g: nat)
    requires Represents(m, h) && Sound(h) && p + 1 < |h.blocks| && p <= g <= p + 1
    requires h.blocks[g] in h.index && h.blocks[2 * p + 1 - g] !in h.index
    ensures var h' := Join(h, p, h.blocks[g].addr);
            && Represents(m.(free := Addrs(Without(h.index, h.blocks[g].addr)), mem := JoinedMem(m.mem, h.blocks, p)), h')
            && Sound(h')
  {
    hide Without, JoinedMem, JoinedBlocks, Links, Tiled, Indexes;
    JoinLinks(m.mem, h, p, h.blocks[g].addr);
    JoinTiled(h.blocks, h.base, h.end, p);
    JoinIndexes(h, p, g);
  }

  lemma MergeNextRefines(m: M.Machine, h: Heap, p: nat)
    requires Represents(m, h) && Sound(h) && p + 1 < |h.blocks|
    requires !h.blocks[p].used && h.blocks[p] !in h.index && !h.blocks[p + 1].used && h.blocks[p + 1] in h.index
    ensures var (m', r) := M.MergeNext(m, h.blocks[p].addr);
            var h' := Join(h, p, h.blocks[p + 1].addr);
            r == Value(()) && Represents(m', h') && Sound(h') && m'.mem == JoinedMem(m.mem, h.blocks, p)
  {
    hide M.MergeNext, Represents, Sound, Without, JoinedMem;
    MergeNextStores(m, h, p);
    JoinRefines(m, h, p, p + 1);
  }

  lemma MergePrevStores(m: M.Machine, h: Heap, p: nat)
    requires Represents(m, h) && Sound(h) && p + 1 < |h.blocks| && !h.blocks[p].used && h.blocks[p] in h.index
    requires LinkRight(h, p + 1)
    ensures M.MergePrev(m, h.blocks[p + 1].addr)
         == (m.(free := Addrs(Without(h.index, h.blocks[p].addr)), mem := JoinedMem(m.mem, h.blocks, p)), Value(h.blocks[p].addr))
  {
    hide M.GetBlockSize, M.RemoveFreeBlock, Without;
    HeadersApart(h.blocks, h.base, h.end, p, p + 1);
    if p + 2 < |h.blocks| {
      HeadersApart(h.blocks, h.base, h.end, p + 1, p + 2);
    }
    RemoveFreeRefines(m, h, h.blocks[p]);
    assert LinkAt(m.mem, h.blocks, h.stale, p) && LinkAt(m.mem, h.blocks, h.stale, p + 1);
  }

  lemma MergePrevRefines(m: M.Machine, h: Heap, p: nat)
    requires Represents(m, h) && Sound(h) && p + 1 < |h.blocks|
    requires !h.blocks[p + 1].used && h.blocks[p + 1] !in h.index && !h.blocks[p].used && h.blocks[p] in h.index
    requires LinkRight(h, p + 1)
    ensures var (m', r) := M.MergePrev(m, h.blocks[p + 1].addr);
            var h' := Join(h, p, h.blocks[p].addr);
            && r == Value(h.blocks[p].addr) && Represents(m', h') && Sound(h')
            && m'.mem == JoinedMem(m.mem, h.blocks, p)
  {
    hide M.MergePrev, Represents, Sound, Without, JoinedMem, LinkRight;
    MergePrevStores(m, h, p);
    JoinRefines(m, h, p, p);
  }

  // The memory after joining block i - 1 with block i, if that is unused.
  function AbsorbedMem(mem: map<int, int>, h: Heap, i: nat): map<int, int>
    requires 0 < i <= |h.blocks|
  {
    if UnusedAt(h, i) then JoinedMem(mem, h.blocks, i - 1) else mem
  }

  // The memory after freeing block p.
  function FreedMem(mem: map<int, int>, h: Heap, p: nat): map<int, int>
    requires p < |h.blocks|
  {
    var h1 := Release(h, p);
    var mem1 := AbsorbedMem(mem[h.blocks[p].addr + 8 := 0], h1, p + 1);
    var h2 := AbsorbNext(h1, p);
    if UnusedAt(h2, p - 1) && p < |h2.blocks| then JoinedMem(mem1, h2.blocks, p - 1) else mem1
  }

  // What the merge steps keep until the merged block is reinserted.
  lemma AbsorbNextRefines(m: M.Machine, h: Heap, p: nat)
    requires Represents(m, h) && Sound(h) && p < |h.blocks| && h.blocks[p].used && IndexedAt(h, p + 1)
    ensures var h1 := Release(h, p);
            var (m', r) := M.MergeNext(m.(mem := m.mem[h.blocks[p].addr + 8 := 0]), h.blocks[p].addr);
            && r == Value(()) && Represents(m', AbsorbNext(h1, p)) && Sound(AbsorbNext(h1, p))
            && m'.mem == AbsorbedMem(m.mem[h.blocks[p].addr + 8 := 0], h1, p + 1)
  {
    var a, h1 := h.blocks[p].addr, Release(h, p);
    var m1 := m.(mem := m.mem[a + 8 := 0]);
    ReleaseRefines(m, h, p);
    assert LinkAt(m1.mem, h1.blocks, h1.stale, p);
    NotIndexed(h, p, h1.blocks[p]);
    if p + 1 < |h.blocks| {
      assert LinkAt(m1.mem, h1.blocks, h1.stale, p + 1);
      HeadersApart(h.blocks, h.base, h.end, p, p + 1);
      if UnusedAt(h1, p + 1) {
        MergeNextRefines(m1, h1, p);
      }
    }
  }

  lemma AbsorbPrevRefines(m: M.Machine, h: Heap, p: nat)
    requires Represents(m, h) && Sound(h) && p < |h.blocks|
    requires !h.blocks[p].used && h.blocks[p] !in h.index && LinkRight(h, p)
    requires UnusedAt(h, p - 1) ==> h.blocks[p - 1] in h.index
    ensures var (g, q) := AbsorbPrev(h, p);
            var (m', r) := M.MergePrev(m, h.blocks[p].addr);
            && Represents(m', g) && Sound(g)
            && q < |g.blocks| && r == Value(g.blocks[q].addr)
            && m'.mem == if UnusedAt(h, p - 1) then JoinedMem(m.mem, h.blocks, p - 1) else m.mem
  {
    assert LinkAt(m.mem, h.blocks, h.stale, p);
    if 0 < p {
      assert LinkAt(m.mem, h.blocks, h.stale, p - 1);
      HeadersApart(h.blocks, h.base, h.end, p - 1, p);
      if UnusedAt(h, p - 1) {
        MergePrevRefines(m, h, p - 1);
      }
    }
  }

  lemma AbsorbNextKeepsLink(h: Heap, p: nat)
    requires Tiled(h.blocks, h.base, h.end) && p < |h.blocks|
    ensures var g := AbsorbNext(Release(h, p), p);
            h.blocks[p].addr in g.stale <==> h.blocks[p].addr in h.stale
  {
    if p + 1 < |h.blocks| { HeadersApart(h.blocks, h.base, h.end, p, p + 1); }
    if p + 2 < |h.blocks| { HeadersApart(h.blocks, h.base, h.end, p, p + 2); }
  }

  // The state between the two merges of a free.
  lemma BetweenMerges(h: Heap, p: nat)
    requires Sound(h) && p < |h.blocks| && h.blocks[p].used && IndexedAt(h, p + 1)
    ensures var g := AbsorbNext(Release(h, p), p);
            && p < |g.blocks| && !g.blocks[p].used && g.blocks[p].addr == h.blocks[p].addr
            && g.blocks[p] !in g.index && SubMap(g.stale, h.stale)
            && StoredPrev(g.blocks, g.stale, p) == StoredPrev(h.blocks, h.stale, p) && LinkRight(g, p) == LinkRight(h, p)
            && UnusedAt(g, p - 1) == UnusedAt(h, p - 1) && IndexedAt(g, p - 1) == IndexedAt(h, p - 1)
            && (0 < p ==> g.blocks[p - 1].addr == h.blocks[p - 1].addr)
  {
    var g := AbsorbNext(Release(h, p), p);
    AbsorbNextIs(h, p);
    NotIndexed(h, p, g.blocks[p]);
    AbsorbNextKeepsLink(h, p);
    if 0 < p {
      assert g.blocks[p - 1] == h.blocks[p - 1];
      HeadersApart(h.blocks, h.base, h.end, p - 1, JoinEnd(h, p) - 1);
    }
  }

  // Freeing a live block whose prev link is right, between indexed neighbours,
  // never fails and has exactly the block-level effect.
  lemma FreeRefines(m: M.Machine, h: Heap, p: nat)
    requires Represents(m, h) && Sound(h) && p < |h.blocks| && h.blocks[p].used
    requires NeighboursIndexed(h, p) && LinkRight(h, p)
    ensures var (m', r) := M.Free(m, h.blocks[p].Payload());
            r == Value(()) && Represents(m', FreeAt(h, p)) && m'.mem == FreedMem(m.mem, h, p)
  {
    hide M.GetBlockSize, M.MergeNext, M.MergePrev, M.AddFreeBlock, AbsorbNext, AbsorbPrev, AddFree;
    var a := h.blocks[p].addr;
    var m1 := m.(mem := m.mem[a + 8 := 0]);
    AbsorbNextRefines(m, h, p);
    var (m2, r2) := M.MergeNext(m1, a);
    BetweenMerges(h, p);
    AbsorbPrevRefines(m2, AbsorbNext(Release(h, p), p), p);
    var (m3, r3) := M.MergePrev(m2, a);
    var (g, q) := Merged(h, p);
    AddFreeRefines(m3, g, q);
    assert M.UsedOf(m.mem, a) && 0 < a by {
      HeadersApart(h.blocks, h.base, h.end, p, p);
      assert LinkAt(m.mem, h.blocks, h.stale, p);
    }
    assert M.Free(m, h.blocks[p].Payload()) == (M.AddFreeBlock(m3, r3.value), Value(()));
  }

  // ----- free where it does not join the block before -----

  // A block without an entry is not found, and the index stays.
  lemma RemoveMissing(m: M.Machine, a: int)
    requires a !in m.free
    ensures M.RemoveFreeBlock(m, a) == (m, Failure(IndexOutOfRange))
  {
  }

  lemma FreeBeforeDropped(m: M.Machine, h: Heap, p: nat)
    requires Represents(m, h) && Sound(h) && p < |h.blocks| && h.blocks[p].used && !IndexedAt(h, p + 1)
    ensures M.Free(m, h.blocks[p].Payload()) == (m.(mem := m.mem[h.blocks[p].addr + 8 := 0]), Failure(IndexOutOfRange))
    ensures Represents(m.(mem := m.mem[h.blocks[p].addr + 8 := 0]), Release(h, p))
  {
    hide M.GetBlockSize, M.MergePrev, M.RemoveFreeBlock;
    var a := h.blocks[p].addr;
    var m1, h1 := m.(mem := m.mem[a + 8 := 0]), Release(h, p);
    ReleaseRefines(m, h, p);
    assert LinkAt(m.mem, h.blocks, h.stale, p);
    assert LinkAt(m1.mem, h1.blocks, h1.stale, p) && LinkAt(m1.mem, h1.blocks, h1.stale, p + 1);
    HeadersApart(h.blocks, h.base, h.end, p, p + 1);
    forall b | b in h.index
      ensures b.addr != h.blocks[p + 1].addr
    {
      OtherEntry(h, b, p + 1);
    }
    RemoveMissing(m1, h.blocks[p + 1].addr);
  }

  // What MergePrev does when no entry has the address that the prev link names.
  lemma PrevStays(m: M.Machine, g: Heap, p: nat)
    requires Represents(m, g) && p < |g.blocks|
    requires forall b :: b in g.index ==> b.addr != StoredPrev(g.blocks, g.stale, p)
    ensures var t, a := StoredPrev(g.blocks, g.stale, p), g.blocks[p].addr;
            M.MergePrev(m, a) == (m, if t == 0 || M.UsedOf(m.mem, t) then Value(a) else Failure(IndexOutOfRange))
  {
    hide M.RemoveFreeBlock;
    assert LinkAt(m.mem, g.blocks, g.stale, p);
    RemoveMissing(m, StoredPrev(g.blocks, g.stale, p));
  }

  lemma FreeKeepsPrev(m: M.Machine, h: Heap, p: nat)
    requires Represents(m, h) && Sound(h) && p < |h.blocks| && h.blocks[p].used && IndexedAt(h, p + 1)
    requires forall b :: b in h.index ==> b.addr != StoredPrev(h.blocks, h.stale, p)
    ensures var t, a, g := StoredPrev(h.blocks, h.stale, p), h.blocks[p].addr, AbsorbNext(Release(h, p), p);
            var m2 := M.MergeNext(m.(mem := m.mem[a + 8 := 0]), a).0;
            && p < |g.blocks| && Represents(m2, g) && Sound(g)
            && m2.mem == AbsorbedMem(m.mem[a + 8 := 0], Release(h, p), p + 1)
            && M.Free(m, h.blocks[p].Payload())
               == if t == 0 || M.UsedOf(m2.mem, t) then (M.AddFreeBlock(m2, a), Value(())) else (m2, Failure(IndexOutOfRange))
  {
    hide M.GetBlockSize, M.MergeNext, M.MergePrev, M.AddFreeBlock, AbsorbNext, LinkRight, IndexedAt;
    AbsorbNextRefines(m, h, p);
    BetweenMerges(h, p);
    assert M.UsedOf(m.mem, h.blocks[p].addr) && 0 < h.blocks[p].addr by {
      HeadersApart(h.blocks, h.base, h.end, p, p);
      assert LinkAt(m.mem, h.blocks, h.stale, p);
    }
    AbsorbNextMembers(h, p);
    PrevStays(M.MergeNext(m.(mem := m.mem[h.blocks[p].addr + 8 := 0]), h.blocks[p].addr).0, AbsorbNext(Release(h, p), p), p);
  }

  lemma AbsorbNextMembers(h: Heap, p: nat)
    requires Sound(h) && p < |h.blocks| && h.blocks[p].used && IndexedAt(h, p + 1)
    ensures forall b :: b in AbsorbNext(Release(h, p), p).index ==> b in h.index
    ensures forall i :: 0 <= i < p && i < |AbsorbNext(Release(h, p), p).blocks| ==> AbsorbNext(Release(h, p), p).blocks[i] == h.blocks[i]
  {
    AbsorbNextIs(h, p);
  }

  // The word that tells whether the named block is in use is not one that the
  // first merge writes.
  lemma NamedWord(mem: map<int, int>, h: Heap, p: nat, t: int)
    requires Tiled(h.blocks, h.base, h.end) && 0 < h.base && p < |h.blocks| && t + M.HEADER <= h.blocks[p].addr
    ensures M.UsedOf(AbsorbedMem(mem[h.blocks[p].addr + 8 := 0], Release(h, p), p + 1), t) == M.UsedOf(mem, t)
  {
    if p + 2 < |h.blocks| {
      HeadersApart(h.blocks, h.base, h.end, p, p + 2);
    }
  }

  // The word that free looks at when the prev link of the block at a is wrong.
  predicate LooksUsed(mem: map<int, int>, a: int) { M.UsedOf(mem, M.PrevOf(mem, a)) }

  lemma NamedInUse(m: M.Machine, h: Heap, p: nat)
    requires Represents(m, h) && Sound(h) && p < |h.blocks| && !LinkRight(h, p)
    ensures var t := StoredPrev(h.blocks, h.stale, p);
            && 0 < t && t + M.HEADER <= h.blocks[p].addr
            && M.UsedOf(m.mem, t) == LinkInUse(h, p, LooksUsed(m.mem, h.blocks[p].addr))
  {
    assert LinkAt(m.mem, h.blocks, h.stale, p);
    var q := Position(h.blocks, StoredPrev(h.blocks, h.stale, p));
    if q < |h.blocks| {
      assert LinkAt(m.mem, h.blocks, h.stale, q);
    }
  }

  lemma NamedBefore(m: M.Machine, h: Heap, p: nat)
    requires Represents(m, h) && Sound(h) && p < |h.blocks| && LinkRight(h, p)
    ensures var t := StoredPrev(h.blocks, h.stale, p);
            && (t == 0 <==> p == 0) && (0 < p ==> M.UsedOf(m.mem, t) == h.blocks[p - 1].used && t + M.HEADER <= h.blocks[p].addr)
  {
    if 0 < p {
      assert LinkAt(m.mem, h.blocks, h.stale, p - 1);
      HeadersApart(h.blocks, h.base, h.end, p - 1, p);
    }
  }

  // free of a live block, whatever its prev link names, reaches the block-level
  // heap and fails exactly where that says, unless it joins across other blocks.
  lemma TryFreeRefines(m: M.Machine, h: Heap, p: nat)
    requires Represents(m, h) && Sound(h) && p < |h.blocks| && h.blocks[p].used && !JoinsFar(h, p)
    ensures var (m', r) := M.Free(m, h.blocks[p].Payload());
            var looksUsed := LooksUsed(m.mem, h.blocks[p].addr);
            && r == (if Succeeds(h, p, looksUsed) then Value(()) else Failure(IndexOutOfRange))
            && Represents(m', TryFree(h, p, looksUsed))
  {
    hide M.Free, Represents, Sound, AbsorbNext, FreedMem, AbsorbedMem, LinkRight, LinkInUse, AddFree, M.UsedOf;
    var looksUsed, t := LooksUsed(m.mem, h.blocks[p].addr), StoredPrev(h.blocks, h.stale, p);
    if !IndexedAt(h, p + 1) {
      FreeBeforeDropped(m, h, p);
    } else if LinkRight(h, p) && UnusedAt(h, p - 1) && IndexedAt(h, p - 1) {
      FreeRefines(m, h, p);
    } else {
      if LinkRight(h, p) {
        NamedBefore(m, h, p);
        BeforeNotIndexed(h, p);
      } else {
        NamedInUse(m, h, p);
      }
      FreeKeepsPrev(m, h, p);
      SoundTiled(h);
      if t != 0 {
        NamedWord(m.mem, h, p, t);
      }
      var m2 := M.MergeNext(m.(mem := m.mem[h.blocks[p].addr + 8 := 0]), h.blocks[p].addr).0;
      var g := AbsorbNext(Release(h, p), p);
      BetweenMerges(h, p);
      AddedIsRepresented(m2, g, p);
    }
  }

  // Where an entry is named, free succeeds and leaves as many entries as there were
  // before its second merge.
  lemma FreeJoinsFar(m: M.Machine, h: Heap, p: nat)
    requires Represents(m, h) && Sound(h) && p < |h.blocks| && h.blocks[p].used && JoinsFar(h, p)
    ensures var (m', r) := M.Free(m, h.blocks[p].Payload());
            r == Value(()) && |m'.free| == |AbsorbNext(Release(h, p), p).index|
  {
    hide M.GetBlockSize, M.Sizes, M.MergeNext, M.AddFreeBlock, AbsorbNext, LinkRight, Without, M.RemoveFreeBlock;
    var a, g, t := h.blocks[p].addr, AbsorbNext(Release(h, p), p), StoredPrev(h.blocks, h.stale, p);
    var b :| b in h.index && b.addr == t;
    AbsorbNextRefines(m, h, p);
    BetweenMerges(h, p);
    NamedEntry(h, p, b);
    var m2 := M.MergeNext(m.(mem := m.mem[a + 8 := 0]), a).0;
    assert M.UsedOf(m.mem, a) && 0 < a by {
      HeadersApart(h.blocks, h.base, h.end, p, p);
      assert LinkAt(m.mem, h.blocks, h.stale, p);
    }
    assert LinkAt(m2.mem, g.blocks, g.stale, p);
    EntryUnused(m2, g, b);
    RemoveFreeRefines(m2, g, b);
    WithoutMembers(g.index, b);
    AddOne(M.MergePrev(m2, a).0, M.MergePrev(m2, a).1.value);
  }

  lemma AddOne(m: M.Machine, a: int)
    requires |m.free| < M.CAPACITY
    ensures |M.AddFreeBlock(m, a).free| == |m.free| + 1
  {
    hide M.GetBlockSize;
  }

  lemma EntryUnused(m: M.Machine, h: Heap, b: Block)
    requires Represents(m, h) && Sound(h) && b in h.index
    ensures !M.UsedOf(m.mem, b.addr) && 0 < b.addr
  {
    var i :| 0 <= i < |h.blocks| && h.blocks[i] == b;
    assert LinkAt(m.mem, h.blocks, h.stale, i);
    HeadersApart(h.blocks, h.base, h.end, i, i);
  }

  // The entry that a wrong link names is still there after the first merge.
  lemma NamedEntry(h: Heap, p: nat, b: Block)
    requires Sound(h) && p < |h.blocks| && h.blocks[p].used && IndexedAt(h, p + 1) && b in h.index
    requires !LinkRight(h, p) && b.addr == StoredPrev(h.blocks, h.stale, p)
    ensures b in AbsorbNext(Release(h, p), p).index
  {
    AbsorbNextIs(h, p);
    HeadersApart(h.blocks, h.base, h.end, p, JoinEnd(h, p) - 1);
  }

  lemma AddedIsRepresented(m: M.Machine, g: Heap, p: nat)
    requires Represents(m, g) && Sound(g) && p < |g.blocks|
    ensures Represents(M.AddFreeBlock(m, g.blocks[p].addr), g.(index := AddFree(g.index, g.blocks[p])))
  {
    AddFreeRefines(m, g, p);
  }

  lemma SoundTiled(h: Heap)
    requires Sound(h)
    ensures Tiled(h.blocks, h.base, h.end) && 0 < h.base
  {
  }

  // With a right link no entry is named unless the block before p has one.
  lemma BeforeNotIndexed(h: Heap, p: nat)
    requires Sound(h) && p < |h.blocks| && LinkRight(h, p) && !(UnusedAt(h, p - 1) && IndexedAt(h, p - 1))
    ensures forall b :: b in h.index ==> b.addr != StoredPrev(h.blocks, h.stale, p)
  {
    forall b | b in h.index
      ensures b.addr != StoredPrev(h.blocks, h.stale, p)
    {
      if 0 < p {
        OtherEntry(h, b, p - 1);
      } else {
        var i :| 0 <= i < |h.blocks| && h.blocks[i] == b;
        HeadersApart(h.blocks, h.base, h.end, i, i);
      }
    }
  }

  // ----- malloc -----

  lemma TakeRefines(m: M.Machine, h: Heap, k: nat, p: nat)
    requires Represents(m, h) && Sound(h) && k < |h.index| && p < |h.blocks| && h.blocks[p] == h.index[k]
    ensures Represents(m.(free := RemoveAt(m.free, k), mem := m.mem[h.blocks[p].addr + 8 := 1]), Take(h, k, p))
  {
    var a, g := h.blocks[p].addr, Take(h, k, p);
    var mem := m.mem[a + 8 := 1];
    forall i | 0 <= i < |g.blocks|
      ensures LinkAt(mem, g.blocks, g.stale, i)
    {
      assert LinkAt(m.mem, h.blocks, h.stale, i);
      HeadersApart(h.blocks, h.base, h.end, i, p);
    }
    assert Addrs(RemoveAt(h.index, k)) == RemoveAt(Addrs(h.index), k);
  }

  // The stores of a split.
  function CutMem(mem: map<int, int>, a: int, padded: int, linksBack: bool): map<int, int> {
    var rest := a + M.HEADER + padded;
    var next := M.NextOf(mem, a);
    var mem' := mem[rest := a][rest + 4 := next][rest + 8 := 0][a + 4 := rest];
    if linksBack && next != 0 then mem'[next := rest] else mem'
  }

  lemma CutFarLinks(mem: map<int, int>, h: Heap, p: nat, padded: int, linksBack: bool, o: nat)
    requires Links(mem, h.blocks, h.stale) && Tiled(h.blocks, h.base, h.end) && 0 < h.base
    requires CanCut(h, p, padded) && o < |h.blocks| && o != p
    ensures var g, mem' := Cut(h, p, padded, linksBack), CutMem(mem, h.blocks[p].addr, padded, linksBack);
            LinkAt(mem', g.blocks, g.stale, if o < p then o else o + 1)
  {
    var a, b := h.blocks[p].addr, h.blocks[o].addr;
    assert LinkAt(mem, h.blocks, h.stale, o) && LinkAt(mem, h.blocks, h.stale, p);
    HeadersApart(h.blocks, h.base, h.end, o, p);
    if p + 1 < |h.blocks| {
      HeadersApart(h.blocks, h.base, h.end, p, p + 1);
      HeadersApart(h.blocks, h.base, h.end, o, p + 1);
    }
  }

  lemma CutRefines(m: M.Machine, h: Heap, p: nat, padded: int, linksBack: bool)
    requires Represents(m, h) && Sound(h) && CanCut(h, p, padded)
    ensures Represents(m.(mem := CutMem(m.mem, h.blocks[p].addr, padded, linksBack)), Cut(h, p, padded, linksBack))
  {
    var g, mem := Cut(h, p, padded, linksBack), CutMem(m.mem, h.blocks[p].addr, padded, linksBack);
    var bs := g.blocks;
    forall i | 0 <= i < |bs|
      ensures LinkAt(mem, bs, g.stale, i)
    {
      if i != p && i != p + 1 {
        CutFarLinks(m.mem, h, p, padded, linksBack, if i < p then i else i - 1);
      } else {
        assert LinkAt(m.mem, h.blocks, h.stale, p);
        HeadersApart(h.blocks, h.base, h.end, p, p);
        if p + 1 < |h.blocks| {
          HeadersApart(h.blocks, h.base, h.end, p, p + 1);
        }
      }
    }
  }

  function MallocResult(h: Heap, size: int): ErrorOr<int> {
    var k := FindFirstGte(SizesOf(h.index), Padded(size));
    if size == 0 then Failure(InvalidArgument)
    else if k == |h.index| then Failure(NoFreeBlocks)
    else Value(h.index[k].Payload())
  }

  // The size test of malloc is the block-level one: nothing wraps.
  lemma SplitTest(m: M.Machine, h: Heap, p: nat, padded: int)
    requires Represents(m, h) && Sound(h) && p < |h.blocks| && 0 <= padded <= h.blocks[p].size
    ensures (M.GetBlockSize(m, h.blocks[p].addr) - padded) % U32 > M.HEADER <==> Splits(h.blocks[p], padded)
  {
    SizeOfBlock(m, h, p);
    HeadersApart(h.blocks, h.base, h.end, p, p);
    var d := h.blocks[p].size - padded;
    assert d % U32 == d;
  }

  lemma SplitRefines(m: M.Machine, h: Heap, p: nat, padded: int, linksBack: bool)
    requires Represents(m, h) && Sound(h) && CanCut(h, p, padded)
    ensures var g := Cut(h, p, padded, linksBack);
            var m' := M.Split(m, h.blocks[p].addr, padded, linksBack);
            && Represents(m', g.(index := AddFree(g.index, g.blocks[p + 1])))
            && m'.mem == CutMem(m.mem, h.blocks[p].addr, padded, linksBack)
  {
    hide M.GetBlockSize, Sound, AddFree, M.AddFreeBlock;
    var m1, g := m.(mem := CutMem(m.mem, h.blocks[p].addr, padded, linksBack)), Cut(h, p, padded, linksBack);
    assert Represents(m1, g) by {
      CutRefines(m, h, p, padded, linksBack);
    }
    assert Sound(g) && g.blocks[p + 1].addr == h.blocks[p].addr + M.HEADER + padded by {
      CutKeepsSound(h, p, padded, linksBack);
      CutPieces(h, p, padded, linksBack);
    }
    AddFreeRefines(m1, g, p + 1);
  }

  // The memory after handing out block p.
  function AllocatedMem(mem: map<int, int>, h: Heap, p: nat, padded: int, linksBack: bool): map<int, int>
    requires p < |h.blocks|
  {
    var a := h.blocks[p].addr;
    var mem1 := mem[a + 8 := 1];
    if Splits(h.blocks[p], padded) then CutMem(mem1, a, padded, linksBack) else mem1
  }

  lemma AllocateRefines(m: M.Machine, h: Heap, k: nat, p: nat, padded: int, linksBack: bool)
    requires Represents(m, h) && Sound(h) && k < |h.index| && p < |h.blocks| && h.blocks[p] == h.index[k]
    requires 0 <= padded <= h.blocks[p].size && padded % 4 == 0
    ensures var a := h.blocks[p].addr;
            var m1 := m.(free := RemoveAt(m.free, k), mem := m.mem[a + 8 := 1]);
            var m2 := if (M.GetBlockSize(m1, a) - padded) % U32 > M.HEADER then M.Split(m1, a, padded, linksBack) else m1;
            Represents(m2, Allocate(h, k, p, padded, linksBack)) && m2.mem == AllocatedMem(m.mem, h, p, padded, linksBack)
  {
    hide M.GetBlockSize, M.Split, Cut, AddFree;
    TakeRefines(m, h, k, p);
    TakeKeepsSound(h, k, p);
    var m1 := m.(free := RemoveAt(m.free, k), mem := m.mem[h.blocks[p].addr + 8 := 1]);
    var h1 := Take(h, k, p);
    SplitTest(m1, h1, p, padded);
    if Splits(h1.blocks[p], padded) {
      SplitRefines(m1, h1, p, padded, linksBack);
    }
  }

  function MallocMem(mem: map<int, int>, h: Heap, size: int, linksBack: bool): map<int, int> {
    var k := FindFirstGte(SizesOf(h.index), Padded(size));
    if size == 0 || k == |h.index| || Chosen(h, k) == |h.blocks| then mem
    else AllocatedMem(mem, h, Chosen(h, k), Padded(size), linksBack)
  }

  // The block behind the entry the search returns.
  lemma ChosenFits(h: Heap, padded: int)
    requires Sound(h) && FindFirstGte(SizesOf(h.index), padded) < |h.index|
    ensures var k := FindFirstGte(SizesOf(h.index), padded);
            var p := Chosen(h, k);
            && p < |h.blocks| && h.blocks[p] == h.index[k] && !h.blocks[p].used && padded <= h.blocks[p].size
  {
    var k := FindFirstGte(SizesOf(h.index), padded);
    ChosenIsEntry(h, k);
    FindFirstGteIsLowerBound(SizesOf(h.index), padded);
    assert padded <= SizesOf(h.index)[k];
  }

  lemma FoundEntry(m: M.Machine, h: Heap, padded: int)
    requires Represents(m, h) && Sound(h)
    ensures FindFirstGte(M.Sizes(m), padded) == FindFirstGte(SizesOf(h.index), padded) <= |h.index|
    ensures |m.free| == |h.index| && m.base != 0
    ensures forall k :: 0 <= k < |h.index| ==> m.free[k] == h.index[k].addr
  {
    SizesAgree(m, h);
  }

  // malloc has exactly the block-level effect, with or without the missing
  // store.
  lemma MallocRefines(m: M.Machine, h: Heap, size: int, linksBack: bool)
    requires Represents(m, h) && Sound(h) && 0 <= size < U32
    ensures var (m', r) := M.Malloc(m, size, linksBack);
            && r == MallocResult(h, size) && Represents(m', Malloc(h, size, linksBack))
            && m'.mem == MallocMem(m.mem, h, size, linksBack)
  {
    hide Allocate, AllocatedMem, M.Split, M.GetBlockSize, M.Sizes, SizesOf, Represents, Sound, Chosen;
    var padded := Padded(size);
    FoundEntry(m, h, padded);
    var k := FindFirstGte(SizesOf(h.index), padded);
    if size != 0 && k < |h.index| {
      ChosenFits(h, padded);
      AllocateRefines(m, h, k, Chosen(h, k), padded, linksBack);
    }
  }
}
