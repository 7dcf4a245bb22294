// Properties of single calls of malloc and free.

module HeapProperties {
  import opened Common
  import opened FreeIndex
  import opened HeapInvariant
  import opened HeapLayout
  import opened HeapModel
  import opened HeapRefinement
  import M = HeapMachine

  // ----- Best fit -----

  // b is an unused block of minimum sufficient size.
  ghost predicate BestFit(h: Heap, b: Block, padded: int) {
    && b in h.blocks && !b.used && padded <= b.size
    && forall c :: c in h.blocks && !c.used && padded <= c.size ==> b.size <= c.size
  }

  lemma IndexSplitsAtSize(h: Heap, padded: int)
    requires Valid(h)
    ensures var k := FindFirstGte(SizesOf(h.index), padded);
            && (k < |h.index| ==> BestFit(h, h.index[k], padded))
            && (k == |h.index| ==> forall b :: b in h.blocks && !b.used ==> b.size < padded)
  {
    var sizes := SizesOf(h.index);
    var k := FindFirstGte(sizes, padded);
    FindFirstGteIsLowerBound(sizes, padded);
    forall c | c in h.blocks && !c.used
      ensures padded <= c.size ==> k < |h.index| && h.index[k].size <= c.size
    {
      assert c in h.index;
      var j :| 0 <= j < |h.index| && h.index[j] == c;
      assert sizes[j] == c.size;
      assert k < j ==> sizes[k] <= sizes[j];
    }
    if k < |h.index| {
      assert h.index[k] in h.index;
      assert sizes[k] == h.index[k].size;
    }
  }

  // malloc fails exactly when no unused block is large enough, and otherwise
  // returns the payload of a best fit.
  lemma MallocIsBestFit(m: M.Machine, h: Heap, size: int, linksBack: bool)
    requires Represents(m, h) && Valid(h) && 0 < size < U32
    ensures var r := M.Malloc(m, size, linksBack).1;
            && (r.Failure? ==> r.error == NoFreeBlocks)
            && (r.Failure? <==> forall b :: b in h.blocks && !b.used ==> b.size < Padded(size))
            && (r.Value? ==> exists b :: BestFit(h, b, Padded(size)) && r.value == b.Payload())
  {
    MallocRefines(m, h, size, linksBack);
    IndexSplitsAtSize(h, Padded(size));
    var k := FindFirstGte(SizesOf(h.index), Padded(size));
    if k < |h.index| {
      assert BestFit(h, h.index[k], Padded(size));
    }
  }

  // ----- What malloc hands out -----

  // The block at which a successful malloc of this size hands out its payload.
  function Granted(h: Heap, size: int): Block
    requires FindFirstGte(SizesOf(h.index), Padded(size)) < |h.index|
  {
    var b := h.index[FindFirstGte(SizesOf(h.index), Padded(size))];
    Block(b.addr, if Splits(b, Padded(size)) then Padded(size) else b.size, true)
  }

  // The pieces that replace the chosen block.
  function Pieces(c: Block, padded: int): seq<Block> {
    if Splits(c, padded) then [Block(c.addr, padded, true), Rest(c, padded)] else [c.(used := true)]
  }

  lemma AllocatedBlocks(h: Heap, k: nat, p: nat, padded: int, linksBack: bool)
    requires k < |h.index| && p < |h.blocks|
    ensures Allocate(h, k, p, padded, linksBack).blocks
         == h.blocks[..p] + Pieces(h.blocks[p], padded) + h.blocks[p + 1..]
  {
    var t := Take(h, k, p).blocks;
    assert t[..p] == h.blocks[..p] && t[p + 1..] == h.blocks[p + 1..];
    assert t == h.blocks[..p] + [t[p]] + h.blocks[p + 1..];
  }

  lemma LiveReplace(l: seq<Block>, c: Block, r: seq<Block>, mid: seq<Block>, b: Block)
    requires !c.used && Live(mid) == [b]
    ensures Live(l + [c] + r) == Live(l) + Live(r)
    ensures Live(l + mid + r) == InsertAt(Live(l + [c] + r), |Live(l)|, b)
  {
    assert Live([c]) == [];
    LiveConcat(l, [c]);
    LiveConcat(l + [c], r);
    LiveConcat(l, mid);
    LiveConcat(l + mid, r);
  }

  // malloc makes one block live and keeps all other live blocks as they are.
  lemma MallocAddsOneLive(h: Heap, size: int, linksBack: bool)
    requires Sound(h) && 0 < size < U32
    requires FindFirstGte(SizesOf(h.index), Padded(size)) < |h.index|
    ensures var g := Malloc(h, size, linksBack);
            exists i :: 0 <= i <= |Live(h.blocks)| && Live(g.blocks) == InsertAt(Live(h.blocks), i, Granted(h, size))
  {
    hide Sound, Allocate, Padded, LinearScan;
    var padded := Padded(size);
    var k := FindFirstGte(SizesOf(h.index), padded);
    var p := Chosen(h, k);
    ChosenIsEntry(h, k);
    AllocatedBlocks(h, k, p, padded, linksBack);
    var b, c := Granted(h, size), h.blocks[p];
    var l, r := h.blocks[..p], h.blocks[p + 1..];
    assert h.blocks == l + [c] + r;
    var mid := Pieces(c, padded);
    assert Live(mid) == [b] by {
      assert Live(mid[1..]) == [];
    }
    LiveReplace(l, c, r, mid, b);
  }

  // The granted block is 4-aligned and at most 12 bytes larger than the padded
  // request.  It holds the request exactly when padding did not wrap.
  lemma GrantedSize(h: Heap, size: int)
    requires Sound(h) && 0 < size < U32
    requires FindFirstGte(SizesOf(h.index), Padded(size)) < |h.index|
    ensures var b := Granted(h, size);
            && b.Payload() % 4 == 0
            && Padded(size) <= b.size <= Padded(size) + M.HEADER
            && (size <= b.size <==> size <= U32 - 4)
  {
    hide Sound, Padded, SizesOf, Chosen, FindFirstGte;
    PaddedBounds(size);
    ChosenFits(h, Padded(size));
    BlockAligned(h, Chosen(h, FindFirstGte(SizesOf(h.index), Padded(size))));
  }

  lemma BlockAligned(h: Heap, p: nat)
    requires Sound(h) && p < |h.blocks|
    ensures h.blocks[p].Payload() % 4 == 0
  {
  }

  lemma PaddedBounds(size: int)
    requires 0 < size < U32
    ensures Padded(size) % 4 == 0
    ensures if size <= U32 - 4 then size <= Padded(size) < size + 4 && Padded(size) < U32 else Padded(size) == 0
  {
    if size <= U32 - 4 {
      SmallestGteMultipleIsLeast(size);
    } else {
      assert size % 4 != 0;
    }
  }

  // ----- What free takes back -----

  lemma LiveOne(b: Block)
    ensures Live([b]) == if b.used then [b] else []
  {
    assert [b][1..] == [];
  }

  lemma {:induction false} LiveAround(bs: seq<Block>, p: nat)
    requires p < |bs|
    ensures Live(bs) == Live(bs[..p]) + (if bs[p].used then [bs[p]] else []) + Live(bs[p + 1..])
    decreases p
  {
    if p != 0 {
      LiveAround(bs[1..], p - 1);
      assert bs[..p][1..] == bs[1..][..p - 1] && bs[p + 1..] == bs[1..][p..];
    }
  }

  // Joining unused neighbours to block p, or not, leaves the other live blocks.
  lemma LiveSpliced(h: Heap, g: Heap, p: nat, lo: nat, hi: nat)
    requires Spliced(h, g, lo, hi) && p < |h.blocks|
    requires lo == p || (lo + 1 == p && !h.blocks[lo].used)
    requires hi == p + 1 || (hi == p + 2 && !h.blocks[p + 1].used)
    ensures Live(g.blocks) == Live(h.blocks[..p]) + Live(h.blocks[p + 1..])
  {
    hide Live, Ordered;
    var bs := h.blocks;
    if lo < p {
      assert bs[..p] == bs[..lo] + [bs[lo]];
      LiveConcat(bs[..lo], [bs[lo]]);
      LiveOne(bs[lo]);
    }
    if p + 1 < hi {
      assert bs[p + 1..] == [bs[p + 1]] + bs[hi..];
      LiveConcat([bs[p + 1]], bs[hi..]);
      LiveOne(bs[p + 1]);
    }
    LiveAround(g.blocks, lo);
    assert g.blocks[..lo] == bs[..lo] && g.blocks[lo + 1..] == bs[hi..];
  }

  // free makes exactly block p not live, whatever it joins and also where it
  // fails.
  lemma FreeDropsOneLive(h: Heap, p: nat, looksUsed: bool)
    requires Sound(h) && p < |h.blocks| && h.blocks[p].used
    ensures Live(TryFree(h, p, looksUsed).blocks) == Live(h.blocks[..p]) + Live(h.blocks[p + 1..])
  {
    hide Live, Sound, Joined, Spliced, AddFree, FreedFrom, FreedTo;
    JoinedIsSpliced(h, p);
    FreedRange(h, p);
    LiveSpliced(h, Joined(h, p).0, p, FreedFrom(h, p), FreedTo(h, p));
  }

  // ----- malloc followed by free -----

  lemma BoundAfterRemoval(s: seq<int>, x: int)
    requires Sorted(s) && FindFirstGte(s, x) < |s|
    ensures var k := FindFirstGte(s, x);
            FindFirstGte(RemoveAt(s, k), s[k]) == k
  {
    var k := FindFirstGte(s, x);
    var r := RemoveAt(s, k);
    FindFirstGteIsLowerBound(s, x);
    FindFirstGteIsLowerBound(r, s[k]);
    var j := FindFirstGte(r, s[k]);
    assert forall i :: 0 <= i < k ==> r[i] == s[i];
    assert j < |r| ==> s[k] <= r[j];
    assert k < |r| ==> r[k] == s[k + 1];
  }

  // Lower-bound removal followed by lower-bound insertion of the same block.
  lemma ReinsertRestores(idx: seq<Block>, padded: int)
    requires Ordered(idx) && FindFirstGte(SizesOf(idx), padded) < |idx|
    ensures var k := FindFirstGte(SizesOf(idx), padded);
            InsertSorted(RemoveAt(idx, k), idx[k]) == idx
  {
    var k := FindFirstGte(SizesOf(idx), padded);
    RemoveAtKeepsSorted(SizesOf(idx), k);
    BoundAfterRemoval(SizesOf(idx), padded);
    assert SizesOf(RemoveAt(idx, k)) == RemoveAt(SizesOf(idx), k);
  }

  lemma InsertThenWithout(idx: seq<Block>, b: Block)
    requires forall c :: c in idx ==> c.addr != b.addr
    ensures Without(InsertSorted(idx, b), b.addr) == idx
  {
    hide FindFirstGte, Position;
    var k := FindFirstGte(SizesOf(idx), b.size);
    InsertedPosition(idx, k, b);
    RemoveInserted(idx, k, b);
  }

  lemma InsertedPosition(idx: seq<Block>, k: nat, b: Block)
    requires k <= |idx| && forall c :: c in idx ==> c.addr != b.addr
    ensures Position(InsertAt(idx, k, b), b.addr) == k
  {
    var r := InsertAt(idx, k, b);
    assert forall i :: 0 <= i < k ==> r[i] == idx[i] && r[i] in idx;
    assert r[k] == b;
  }

  lemma RemoveInserted(idx: seq<Block>, k: nat, b: Block)
    requires k <= |idx|
    ensures RemoveAt(InsertAt(idx, k, b), k) == idx
  {
  }

  lemma PrevOfChosenUsed(h: Heap, k: nat)
    requires Valid(h) && k < |h.index|
    ensures var p := Chosen(h, k); p <= |h.blocks| && (0 < p ==> h.blocks[p - 1].used)
  {
    ChosenIs(h, k);
    var p := Chosen(h, k);
    assert 0 < p ==> Separated(h.blocks, p);
  }

  // The stale links that a cut of block p and the join of its pieces leave.
  function LinksAfter(h: Heap, p: nat, padded: int): map<int, int>
    requires p < |h.blocks|
  {
    if !Splits(h.blocks[p], padded) then h.stale
    else h.stale - {Rest(h.blocks[p], padded).addr} - if p + 1 < |h.blocks| then {h.blocks[p + 1].addr} else {}
  }

  // Rejoining the two pieces of a cut.
  lemma RejoinCut(h: Heap, p: nat, padded: int, idx: seq<Block>)
    requires p < |h.blocks| && Splits(h.blocks[p], padded) && 0 <= padded
    requires p + 1 < |h.blocks| ==> h.blocks[p + 1].addr == h.blocks[p].End()
    ensures var g, a := Cut(h, p, padded, false), Rest(h.blocks[p], padded).addr;
            Join(g.(index := idx), p, a) == h.(index := Without(idx, a), stale := LinksAfter(h, p, padded))
  {
    var g := Cut(h, p, padded, false);
    assert g.blocks[..p] == h.blocks[..p] && g.blocks[p + 2..] == h.blocks[p + 1..];
    assert h.blocks == h.blocks[..p] + [h.blocks[p]] + h.blocks[p + 1..];
    assert JoinedBlocks(g.blocks, p) == h.blocks;
  }

  lemma ReleaseTaken(h: Heap, k: nat, p: nat)
    requires k < |h.index| && p < |h.blocks| && !h.blocks[p].used
    ensures Release(Take(h, k, p), p) == h.(index := RemoveAt(h.index, k))
  {
    assert Release(Take(h, k, p), p).blocks == h.blocks;
  }

  lemma ReleaseCut(h: Heap, p: nat, padded: int)
    requires p < |h.blocks| && h.blocks[p].used
    ensures var g := Cut(h, p, padded, false);
            p < |g.blocks| && Release(g, p) == Cut(Release(h, p), p, padded, false)
  {
    var g, f := Release(Cut(h, p, padded, false), p), Cut(Release(h, p), p, padded, false);
    assert Release(h, p).blocks[..p] == h.blocks[..p] && Release(h, p).blocks[p + 1..] == h.blocks[p + 1..];
    assert g.blocks == f.blocks;
  }

  // Releasing a block just allocated undoes the marking, not the cut.
  lemma ReleaseAllocated(h: Heap, k: nat, p: nat, padded: int)
    requires k < |h.index| && p < |h.blocks| && !h.blocks[p].used
    ensures var g := Allocate(h, k, p, padded, false);
            var c := h.blocks[p];
            && p < |g.blocks|
            && Release(g, p) == if Splits(c, padded) then Cut(h, p, padded, false).(index := AddFree(RemoveAt(h.index, k), Rest(c, padded)))
                                else h.(index := RemoveAt(h.index, k))
  {
    ReleaseTaken(h, k, p);
    if Splits(h.blocks[p], padded) {
      ReleaseCut(Take(h, k, p), p, padded);
      CutOf(h, RemoveAt(h.index, k), p, padded);
      CutPieces(Take(h, k, p), p, padded, false);
    }
  }

  lemma CutOf(h: Heap, idx: seq<Block>, p: nat, padded: int)
    requires p < |h.blocks|
    ensures Cut(h.(index := idx), p, padded, false) == Cut(h, p, padded, false).(index := idx)
  {
  }

  // The remainder of a cut lies apart from every indexed block.
  lemma RestNotIndexed(h: Heap, k: nat, p: nat, padded: int, c: Block)
    requires Valid(h) && k < |h.index| && p < |h.blocks| && h.blocks[p] == h.index[k]
    requires 0 <= padded && Splits(h.blocks[p], padded) && c in h.index
    ensures c.addr != Rest(h.blocks[p], padded).addr
  {
    var i :| 0 <= i < |h.blocks| && h.blocks[i] == c;
    HeadersApart(h.blocks, h.base, h.end, i, p);
  }

  // Releasing and absorbing the remainder leaves only the index entry missing.
  lemma AbsorbNextUndoes(h: Heap, k: nat, p: nat, padded: int)
    requires Valid(h) && k < |h.index| && p < |h.blocks| && h.blocks[p] == h.index[k]
    requires 0 <= padded && !h.blocks[p].used
    requires p + 1 < |h.blocks| ==> h.blocks[p + 1].used
    ensures var g := Allocate(h, k, p, padded, false);
            && p < |g.blocks|
            && AbsorbNext(Release(g, p), p) == h.(index := RemoveAt(h.index, k), stale := LinksAfter(h, p, padded))
  {
    var g, c, idx := Allocate(h, k, p, padded, false), h.blocks[p], RemoveAt(h.index, k);
    ReleaseAllocated(h, k, p, padded);
    hide Allocate;
    if Splits(c, padded) {
      var rest := Rest(c, padded);
      forall b | b in idx
        ensures b.addr != rest.addr
      {
        RemoveAtKeepsOrder(h.index, k);
        RestNotIndexed(h, k, p, padded, b);
      }
      InsertThenWithout(idx, rest);
      assert p + 1 < |h.blocks| ==> Abuts(h.blocks, p + 1);
      hide Valid, InsertSorted;
      RejoinCut(h, p, padded, InsertSorted(idx, rest));
    }
  }

  lemma AllocateFreeRestores(h: Heap, k: nat, p: nat, padded: int)
    requires Valid(h) && k < |h.index| && p < |h.blocks| && h.blocks[p] == h.index[k]
    requires 0 <= padded && k == FindFirstGte(SizesOf(h.index), padded) && !h.blocks[p].used
    requires 0 < p ==> h.blocks[p - 1].used
    requires p + 1 < |h.blocks| ==> h.blocks[p + 1].used
    ensures p < |Allocate(h, k, p, padded, false).blocks|
    ensures FreeAt(Allocate(h, k, p, padded, false), p) == h.(stale := LinksAfter(h, p, padded))
  {
    hide Allocate, Release, AbsorbNext, InsertSorted, SizesOf, LinksAfter;
    AbsorbNextUndoes(h, k, p, padded);
    assert |h.index| <= M.CAPACITY && Ordered(h.index);
    hide Valid;
    ReinsertRestores(h.index, padded);
  }

  // Where malloc leaves the block it hands out.
  lemma AllocatedAt(h: Heap, k: nat, p: nat, padded: int, linksBack: bool)
    requires Sound(h) && k < |h.index| && p < |h.blocks| && 0 <= padded
    ensures var g := Allocate(h, k, p, padded, linksBack);
            && p < |g.blocks| && g.blocks[p].used && g.blocks[p].addr == h.blocks[p].addr
            && (0 < p ==> g.blocks[p - 1] == h.blocks[p - 1])
            && StoredPrev(g.blocks, g.stale, p) == StoredPrev(h.blocks, h.stale, p) && LinkRight(g, p) == LinkRight(h, p)
  {
    AllocatedBlocks(h, k, p, padded, linksBack);
    if p + 1 < |h.blocks| {
      HeadersApart(h.blocks, h.base, h.end, p, p + 1);
    }
  }

  // m holds the blocks and the index of h, element for element; only prev links
  // may have been put right.
  ghost predicate Restored(m: M.Machine, h: Heap) {
    exists s :: SubMap(s, h.stale) && Represents(m, h.(stale := s))
  }

  lemma RestoredCount(m: M.Machine, h: Heap)
    requires Restored(m, h)
    ensures |m.free| == |h.index|
  {
  }

  // A free that does not succeed or joins across blocks does not restore.
  lemma NotUndone(m: M.Machine, g: Heap, h: Heap, p: nat)
    requires Represents(m, g) && Sound(g) && p < |g.blocks| && g.blocks[p].used
    requires JoinsFar(g, p) || !Succeeds(g, p, LooksUsed(m.mem, g.blocks[p].addr))
    requires |AbsorbNext(Release(g, p), p).index| != |h.index|
    ensures var (m', r) := M.Free(m, g.blocks[p].Payload());
            !(r == Value(()) && Restored(m', h))
  {
    hide M.Free, AbsorbNext, JoinsFar, Succeeds, Represents, Sound;
    var m' := M.Free(m, g.blocks[p].Payload()).0;
    if JoinsFar(g, p) {
      FreeJoinsFar(m, g, p);
      if Restored(m', h) {
        RestoredCount(m', h);
      }
    } else {
      TryFreeRefines(m, g, p);
    }
  }

  lemma SubMapAfter(h: Heap, p: nat, padded: int)
    requires p < |h.blocks|
    ensures SubMap(LinksAfter(h, p, padded), h.stale)
  {
  }

  lemma WrongLinkFails(h: Heap, p: nat, looksUsed: bool)
    requires p < |h.blocks| && !LinkRight(h, p) && !LinkInUse(h, p, looksUsed)
    ensures !Succeeds(h, p, looksUsed)
  {
  }

  lemma ValidCounts(h: Heap, k: nat)
    requires Valid(h) && k < |h.index|
    ensures Ordered(h.index) && |RemoveAt(h.index, k)| == |h.index| - 1
  {
  }

  // An entry is not in use.
  lemma FarIsNotInUse(h: Heap, p: nat, looksUsed: bool)
    requires Sound(h) && p < |h.blocks| && JoinsFar(h, p)
    ensures !LinkRight(h, p) && !LinkInUse(h, p, looksUsed)
  {
    var b :| b in h.index && b.addr == StoredPrev(h.blocks, h.stale, p);
    var i :| 0 <= i < |h.blocks| && h.blocks[i] == b;
    HeadersApart(h.blocks, h.base, h.end, i, Position(h.blocks, b.addr));
  }

  // malloc and then free of its result restores the block list and the index,
  // with the code as written, exactly when the prev link of the block that malloc
  // took is right or names a block in use.
  lemma MallocFreeRestoresIff(m: M.Machine, h: Heap, size: int)
    requires Represents(m, h) && Valid(h) && 0 < size < U32
    ensures var k := FindFirstGte(SizesOf(h.index), Padded(size));
            var (m1, r1) := M.Malloc(m, size, false);
            r1.Value? ==>
              && k < |h.index| && Chosen(h, k) < |h.blocks|
              && var p := Chosen(h, k);
                 var (m2, r2) := M.Free(m1, r1.value);
                 var g := Malloc(h, size, false);
                 p < |g.blocks| && (r2 == Value(()) && Restored(m2, h)
                   <==> LinkRight(h, p) || LinkInUse(g, p, LooksUsed(m1.mem, h.blocks[p].addr)))
  {
    hide M.Malloc, M.Free, Allocate, FreeAt, Sound, Valid, Padded, Chosen, AllocatedMem, NeighboursIndexed, LinkRight, LinkInUse;
    hide Represents, AbsorbNext, LinksAfter, TryFree, JoinsFar, Succeeds, LooksUsed, StoredPrev;
    var padded := Padded(size);
    var k := FindFirstGte(SizesOf(h.index), padded);
    ValidIsSound(h, 0);
    PaddedBounds(size);
    MallocRefines(m, h, size, false);
    if M.Malloc(m, size, false).1.Failure? {
      return;
    }
    MallocKeepsValid(h, size, false);
    ChosenIs(h, k);
    PrevOfChosenUsed(h, k);
    var p, g := Chosen(h, k), Malloc(h, size, false);
    var m1 := M.Malloc(m, size, false).0;
    AllocatedAt(h, k, p, padded, false);
    ValidIsSound(g, p);
    if LinkRight(g, p) || LinkInUse(g, p, LooksUsed(m1.mem, h.blocks[p].addr)) {
      if JoinsFar(g, p) {
        FarIsNotInUse(g, p, LooksUsed(m1.mem, h.blocks[p].addr));
      }
      AllocateFreeRestores(h, k, p, padded);
      TryFreeIsFreeAt(g, p, LooksUsed(m1.mem, g.blocks[p].addr));
      TryFreeRefines(m1, g, p);
      SubMapAfter(h, p, padded);
    } else {
      AbsorbNextUndoes(h, k, p, padded);
      ValidCounts(h, k);
      WrongLinkFails(g, p, LooksUsed(m1.mem, g.blocks[p].addr));
      NotUndone(m1, g, h, p);
    }
  }

  // Without stale links it always does.
  lemma MallocFreeRestores(m: M.Machine, h: Heap, size: int)
    requires Represents(m, h) && Valid(h) && h.stale == map[] && 0 < size < U32
    ensures var (m1, r1) := M.Malloc(m, size, false);
            r1.Value? ==>
              var (m2, r2) := M.Free(m1, r1.value);
              r2 == Value(()) && Represents(m2, h) && m2.free == m.free
  {
    hide M.Malloc, M.Free, Valid, LooksUsed, LinkInUse, Malloc;
    MallocFreeRestoresIff(m, h, size);
    if M.Malloc(m, size, false).1.Failure? {
      return;
    }
    var m2 := M.Free(M.Malloc(m, size, false).0, M.Malloc(m, size, false).1.value).0;
    assert Restored(m2, h);
    var s :| SubMap(s, h.stale) && Represents(m2, h.(stale := s));
    assert forall x :: x in s ==> x in h.stale;
    assert s == map[] && h.(stale := s) == h;
  }
}
