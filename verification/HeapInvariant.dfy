// The heap invariant: what it implies, and that malloc and free keep it.

module HeapInvariant {
  import opened Common
  import opened FreeIndex
  import opened HeapModel
  import M = HeapMachine

  // ----- What the invariant gives -----

  lemma {:induction false} Apart(bs: seq<Block>, base: int, end: int, i: nat, j: nat)
    requires Tiled(bs, base, end) && i < j < |bs|
    ensures bs[i].End() <= bs[j].addr
    decreases j - i
  {
    assert Abuts(bs, j);
    if i + 1 < j {
      Apart(bs, base, end, i, j - 1);
    }
  }

  lemma HeadersApart(bs: seq<Block>, base: int, end: int, i: nat, j: nat)
    requires Tiled(bs, base, end) && i < |bs| && j < |bs|
    ensures base <= bs[i].addr && bs[i].End() <= end
    ensures i < j ==> bs[i].End() <= bs[j].addr
    ensures j < i ==> bs[j].End() <= bs[i].addr
  {
    if i < j { Apart(bs, base, end, i, j); }
    if j < i { Apart(bs, base, end, j, i); }
    if 0 < i { Apart(bs, base, end, 0, i); }
    if i + 1 < |bs| { Apart(bs, base, end, i, |bs| - 1); }
  }

  // ----- The free index as a sorted list without repetition -----

  ghost predicate Ordered(idx: seq<Block>) {
    Distinct(idx) && Sorted(SizesOf(idx))
  }

  lemma RemoveAtKeepsSorted(s: seq<int>, k: nat)
    requires Sorted(s) && k < |s|
    ensures Sorted(RemoveAt(s, k))
  {
  }

  lemma InsertKeepsSorted(s: seq<int>, x: int)
    requires Sorted(s)
    ensures Sorted(InsertAt(s, FindFirstGte(s, x), x))
  {
    FindFirstGteIsLowerBound(s, x);
  }

  lemma RemoveAtKeepsOrder(idx: seq<Block>, k: nat)
    requires Ordered(idx) && k < |idx|
    ensures Ordered(RemoveAt(idx, k))
    ensures forall b :: b in RemoveAt(idx, k) <==> b in idx && b != idx[k]
    ensures forall b :: b in RemoveAt(idx, k) ==> b.addr != idx[k].addr
  {
    RemoveAtKeepsSorted(SizesOf(idx), k);
    assert SizesOf(RemoveAt(idx, k)) == RemoveAt(SizesOf(idx), k);
  }

  lemma InsertSortedKeepsOrder(idx: seq<Block>, b: Block)
    requires Ordered(idx)
    requires forall c :: c in idx ==> c.addr != b.addr
    ensures Ordered(InsertSorted(idx, b))
    ensures forall c :: c in InsertSorted(idx, b) <==> c in idx || c == b
  {
    var k := FindFirstGte(SizesOf(idx), b.size);
    InsertKeepsSorted(SizesOf(idx), b.size);
    assert SizesOf(InsertAt(idx, k, b)) == InsertAt(SizesOf(idx), k, b.size);
  }

  lemma WithoutMembers(idx: seq<Block>, c: Block)
    requires Ordered(idx) && c in idx
    ensures Ordered(Without(idx, c.addr)) && |Without(idx, c.addr)| == |idx| - 1
    ensures forall b :: b in Without(idx, c.addr) <==> b in idx && b != c
    ensures forall b :: b in Without(idx, c.addr) ==> b.addr != c.addr
  {
    var j :| 0 <= j < |idx| && idx[j] == c;
    RemoveAtKeepsOrder(idx, j);
  }

  // ----- Closed forms -----

  // The first block, and one past the last block, that freeing block p joins.
  function JoinStart(h: Heap, p: nat): nat { if 0 < p && UnusedAt(h, p - 1) then p - 1 else p }

  function JoinEnd(h: Heap, p: nat): nat { if UnusedAt(h, p + 1) then p + 2 else p + 1 }

  // Blocks lo to hi - 1 as one unused block.
  function Span(bs: seq<Block>, lo: nat, hi: nat): Block
    requires lo < hi <= |bs|
  {
    Block(bs[lo].addr, bs[hi - 1].End() - bs[lo].Payload(), false)
  }

  ghost predicate SubMap(a: map<int, int>, b: map<int, int>) {
    forall x :: x in a ==> x in b && a[x] == b[x]
  }

  // Of what the invariant says, only that the unused successor is indexed.
  lemma AbsorbNextIs(h: Heap, p: nat)
    requires Ordered(h.index) && p < |h.blocks| && h.blocks[p] !in h.index
    requires UnusedAt(h, p + 1) ==> h.blocks[p + 1] in h.index
    ensures var g := AbsorbNext(Release(h, p), p);
            var hi := JoinEnd(h, p);
            && g.blocks == h.blocks[..p] + [Span(h.blocks, p, hi)] + h.blocks[hi..]
            && Ordered(g.index)
            && (forall b :: b in g.index <==> b in h.index && b != h.blocks[hi - 1])
            && |g.index| == |h.index| - (hi - p - 1)
            && g.base == h.base && g.end == h.end && SubMap(g.stale, h.stale)
  {
    var h1 := Release(h, p);
    if UnusedAt(h, p + 1) {
      WithoutMembers(h.index, h.blocks[p + 1]);
      assert h1.blocks[p + 2..] == h.blocks[p + 2..];
    } else {
      assert h1.blocks == h.blocks[..p] + [Span(h.blocks, p, p + 1)] + h.blocks[p + 1..];
    }
  }

  lemma JoinedWithPrev(bs: seq<Block>, p: nat, hi: nat)
    requires 0 < p < hi <= |bs| && !bs[p - 1].used
    ensures JoinedBlocks(bs[..p] + [Span(bs, p, hi)] + bs[hi..], p - 1)
         == bs[..p - 1] + [Span(bs, p - 1, hi)] + bs[hi..]
  {
    var g := bs[..p] + [Span(bs, p, hi)] + bs[hi..];
    assert g[..p - 1] == bs[..p - 1];
    assert g[p + 1..] == bs[hi..];
  }

  // The unused blocks next to block p have index entries.
  predicate NeighboursIndexed(h: Heap, p: nat) {
    IndexedAt(h, p - 1) && IndexedAt(h, p + 1)
  }

  lemma ValidIsSound(h: Heap, p: nat)
    requires Valid(h)
    ensures Sound(h) && NeighboursIndexed(h, p)
  {
  }

  lemma MergedIs(h: Heap, p: nat)
    requires Sound(h) && NeighboursIndexed(h, p) && p < |h.blocks| && h.blocks[p].used
    ensures var (g, q) := Merged(h, p);
            var lo, hi := JoinStart(h, p), JoinEnd(h, p);
            && q == lo
            && g.blocks == h.blocks[..lo] + [Span(h.blocks, lo, hi)] + h.blocks[hi..]
            && Ordered(g.index)
            && (forall b :: b in g.index <==> b in h.index && b != h.blocks[lo] && b != h.blocks[hi - 1])
            && |g.index| == |h.index| - (hi - lo - 1)
            && g.base == h.base && g.end == h.end && SubMap(g.stale, h.stale)
  {
    var g, hi := AbsorbNext(Release(h, p), p), JoinEnd(h, p);
    AbsorbNextIs(h, p);
    assert UnusedAt(g, p - 1) == UnusedAt(h, p - 1);
    if UnusedAt(h, p - 1) {
      var b := h.blocks[p - 1];
      assert b in g.index by {
        HeadersApart(h.blocks, h.base, h.end, p - 1, hi - 1);
      }
      WithoutMembers(g.index, b);
      JoinedWithPrev(h.blocks, p, hi);
    } else {
      assert h.blocks[p] !in h.index;
    }
  }

  // ----- Free keeps the invariant -----

  lemma SpanTiled(bs: seq<Block>, base: int, end: int, lo: nat, hi: nat)
    requires Tiled(bs, base, end) && lo < hi <= |bs|
    ensures Tiled(bs[..lo] + [Span(bs, lo, hi)] + bs[hi..], base, end)
  {
    var r := bs[..lo] + [Span(bs, lo, hi)] + bs[hi..];
    HeadersApart(bs, base, end, lo, hi - 1);
    assert r[lo].End() == bs[hi - 1].End();
    assert |r| == |bs| - (hi - lo - 1);
    forall i | 0 < i < |r|
      ensures Abuts(r, i)
    {
      assert Abuts(bs, if i <= lo then i else i + (hi - lo - 1));
    }
  }

  lemma SpanSeparated(bs: seq<Block>, lo: nat, hi: nat)
    requires lo < hi <= |bs| && NoAdjacentUnused(bs)
    requires 0 < lo ==> bs[lo - 1].used
    requires hi < |bs| ==> bs[hi].used
    ensures NoAdjacentUnused(bs[..lo] + [Span(bs, lo, hi)] + bs[hi..])
  {
    var r := bs[..lo] + [Span(bs, lo, hi)] + bs[hi..];
    forall i | 0 < i < |r|
      ensures Separated(r, i)
    {
      assert Separated(bs, if i <= lo && 0 < lo then i else i + (hi - lo - 1));
    }
  }

  // Freeing block p needs a slot in the index unless it joins a neighbour.
  predicate Room(h: Heap, p: nat) {
    |h.index| < M.CAPACITY || JoinStart(h, p) < p || p + 1 < JoinEnd(h, p)
  }

  // Outside the joined range the blocks are those of before.
  lemma SpanMembers(bs: seq<Block>, base: int, end: int, lo: nat, hi: nat, b: Block)
    requires Tiled(bs, base, end) && lo < hi <= |bs|
    ensures var r := bs[..lo] + [Span(bs, lo, hi)] + bs[hi..];
            b in r <==> b == Span(bs, lo, hi) || exists i :: 0 <= i < |bs| && !(lo <= i < hi) && bs[i] == b
  {
    var r := bs[..lo] + [Span(bs, lo, hi)] + bs[hi..];
    var d := hi - lo - 1;
    assert |r| == |bs| - d && r[lo] == Span(bs, lo, hi);
    assert forall j :: 0 <= j < |r| && j != lo ==> r[j] == bs[if j < lo then j else j + d];
    if i :| 0 <= i < |bs| && !(lo <= i < hi) && bs[i] == b {
      assert r[if i < lo then i else i - d] == b;
    }
  }

  lemma RemainingEntries(h: Heap, p: nat, b: Block)
    requires Valid(h) && p < |h.blocks| && h.blocks[p].used
    ensures var lo, hi := JoinStart(h, p), JoinEnd(h, p);
            b in h.index && b != h.blocks[lo] && b != h.blocks[hi - 1]
            <==> !b.used && exists i :: 0 <= i < |h.blocks| && !(lo <= i < hi) && h.blocks[i] == b
  {
    var lo, hi := JoinStart(h, p), JoinEnd(h, p);
    if b in h.index && b != h.blocks[lo] && b != h.blocks[hi - 1] {
      var i :| 0 <= i < |h.blocks| && h.blocks[i] == b;
      assert !(lo <= i < hi);
    }
    if !b.used {
      if i :| 0 <= i < |h.blocks| && !(lo <= i < hi) && h.blocks[i] == b {
        HeadersApart(h.blocks, h.base, h.end, i, lo);
        HeadersApart(h.blocks, h.base, h.end, i, hi - 1);
      }
    }
  }

  // The entries of the merged heap are the unused blocks other than the merged
  // one, which lies apart from all of them.
  lemma MergedIndex(h: Heap, p: nat)
    requires Valid(h) && p < |h.blocks| && h.blocks[p].used
    ensures var (g, q) := Merged(h, p);
            && q < |g.blocks| && !g.blocks[q].used
            && Tiled(g.blocks, h.base, h.end)
            && Ordered(g.index)
            && (forall b :: b in g.index <==> b in g.blocks && !b.used && b != g.blocks[q])
            && (forall b :: b in g.index ==> b.addr != g.blocks[q].addr)
  {
    var (g, q) := Merged(h, p);
    var lo, hi := JoinStart(h, p), JoinEnd(h, p);
    MergedIs(h, p);
    SpanTiled(h.blocks, h.base, h.end, lo, hi);
    forall b
      ensures b in g.index <==> b in g.blocks && !b.used && b != g.blocks[q]
      ensures b in g.index ==> b.addr != g.blocks[q].addr
    {
      RemainingEntries(h, p, b);
      SpanMembers(h.blocks, h.base, h.end, lo, hi, b);
      if i :| 0 <= i < |h.blocks| && !(lo <= i < hi) && h.blocks[i] == b {
        HeadersApart(h.blocks, h.base, h.end, i, lo);
      }
    }
  }

  lemma JoinedNeighboursUsed(h: Heap, p: nat)
    requires NoAdjacentUnused(h.blocks) && p < |h.blocks| && h.blocks[p].used
    ensures var lo, hi := JoinStart(h, p), JoinEnd(h, p);
            && (0 < lo ==> h.blocks[lo - 1].used)
            && (hi < |h.blocks| ==> h.blocks[hi].used)
  {
    var lo, hi := JoinStart(h, p), JoinEnd(h, p);
    assert 0 < lo ==> Separated(h.blocks, lo);
    assert hi < |h.blocks| ==> Separated(h.blocks, hi);
  }

  lemma MergedSeparated(h: Heap, p: nat)
    requires Valid(h) && p < |h.blocks| && h.blocks[p].used
    ensures NoAdjacentUnused(Merged(h, p).0.blocks)
  {
    MergedIs(h, p);
    JoinedNeighboursUsed(h, p);
    assert NoAdjacentUnused(h.blocks);
    hide Valid, Merged, Tiled, Indexes, Span, NoAdjacentUnused, JoinStart, UnusedAt;
    SpanSeparated(h.blocks, JoinStart(h, p), JoinEnd(h, p));
  }

  // g satisfies the invariant except that its index lacks the unused block q.
  ghost predicate MissingOne(g: Heap, q: nat) {
    && q < |g.blocks| && !g.blocks[q].used
    && 0 < g.base && g.end < U32 && LinksBackward(g)
    && Tiled(g.blocks, g.base, g.end)
    && NoAdjacentUnused(g.blocks)
    && Ordered(g.index)
    && (forall b :: b in g.index <==> b in g.blocks && !b.used && b != g.blocks[q])
    && (forall b :: b in g.index ==> b.addr != g.blocks[q].addr)
    && |g.index| <= M.CAPACITY
  }

  lemma AddFreeCompletes(g: Heap, q: nat)
    requires MissingOne(g, q)
    ensures Valid(g.(index := AddFree(g.index, g.blocks[q]))) <==> |g.index| < M.CAPACITY
  {
    var b := g.blocks[q];
    if |g.index| < M.CAPACITY {
      InsertSortedKeepsOrder(g.index, b);
    } else {
      assert b in g.blocks && b !in g.index;
    }
  }

  lemma MergedMissesOne(h: Heap, p: nat)
    requires Valid(h) && p < |h.blocks| && h.blocks[p].used
    ensures var (g, q) := Merged(h, p);
            MissingOne(g, q) && |g.index| == |h.index| - (JoinEnd(h, p) - JoinStart(h, p) - 1)
  {
    hide Merged, Tiled, NoAdjacentUnused, Ordered, Span, Indexes;
    MergedIs(h, p);
    MergedIndex(h, p);
    MergedSeparated(h, p);
  }

  // free keeps the whole invariant exactly when the index has room for the
  // merged block; the code ignores the refusal of a full index.
  lemma FreeKeepsValidIff(h: Heap, p: nat)
    requires Valid(h) && p < |h.blocks| && h.blocks[p].used
    ensures Valid(FreeAt(h, p)) <==> Room(h, p)
  {
    hide Merged, Valid, MissingOne, AddFree;
    MergedMissesOne(h, p);
    var (g, q) := Merged(h, p);
    MissingOneHasBlock(g, q);
    AddFreeCompletes(g, q);
    ValidIsSound(h, p);
  }

  lemma MissingOneHasBlock(g: Heap, q: nat)
    requires MissingOne(g, q)
    ensures q < |g.blocks|
  {
  }

  // ----- Malloc keeps the invariant -----

  lemma ChosenIs(h: Heap, k: nat)
    requires Valid(h) && k < |h.index|
    ensures var p := Chosen(h, k);
            p < |h.blocks| && h.blocks[p] == h.index[k] && !h.blocks[p].used
    ensures var p := Chosen(h, k);
            p + 1 < |h.blocks| ==> h.blocks[p + 1].used
  {
    var b := h.index[k];
    assert b in h.index;
    var p :| 0 <= p < |h.blocks| && h.blocks[p] == b;
    var q := Chosen(h, k);
    HeadersApart(h.blocks, h.base, h.end, p, q);
    assert p + 1 < |h.blocks| ==> Separated(h.blocks, p + 1);
  }

  lemma TakeTiled(bs: seq<Block>, base: int, end: int, p: nat)
    requires Tiled(bs, base, end) && NoAdjacentUnused(bs) && p < |bs|
    ensures var r := bs[p := bs[p].(used := true)];
            Tiled(r, base, end) && NoAdjacentUnused(r)
  {
    var r := bs[p := bs[p].(used := true)];
    forall i | 0 < i < |r|
      ensures Abuts(r, i) && Separated(r, i)
    {
      assert Abuts(bs, i) && Separated(bs, i);
    }
  }

  lemma TakeKeepsValid(h: Heap, k: nat, p: nat)
    requires Valid(h) && k < |h.index| && p < |h.blocks| && h.blocks[p] == h.index[k]
    ensures Valid(Take(h, k, p))
  {
    var g := Take(h, k, p);
    TakeTiled(h.blocks, h.base, h.end, p);
    RemoveAtKeepsOrder(h.index, k);
    forall b
      ensures b in g.index <==> b in g.blocks && !b.used
    {
      if b in h.blocks && !b.used && b != h.index[k] {
        var i :| 0 <= i < |h.blocks| && h.blocks[i] == b;
        assert g.blocks[i] == b;
      }
      if b in g.blocks && !b.used {
        var i :| 0 <= i < |g.blocks| && g.blocks[i] == b;
        assert h.blocks[i] == b;
        HeadersApart(h.blocks, h.base, h.end, i, p);
      }
    }
  }

  ghost predicate CanCut(h: Heap, p: nat, padded: int) {
    && p < |h.blocks| && h.blocks[p].used && Splits(h.blocks[p], padded)
    && 0 <= padded && padded % 4 == 0
  }

  lemma PiecesTiled(bs: seq<Block>, base: int, end: int, p: nat, b: Block, c: Block)
    requires Tiled(bs, base, end) && p < |bs|
    requires b.addr == bs[p].addr && c.addr == b.End() && c.End() == bs[p].End()
    requires 0 <= b.size && 0 <= c.size && c.addr % 4 == 0
    ensures Tiled(bs[..p] + [b, c] + bs[p + 1..], base, end)
  {
    var r := bs[..p] + [b, c] + bs[p + 1..];
    assert forall i :: 0 <= i < |r| && i != p && i != p + 1 ==> r[i] == bs[if i < p then i else i - 1];
    assert r[p] == b && r[p + 1] == c;
    forall i | 0 < i < |r|
      ensures Abuts(r, i)
    {
      if i != p + 1 {
        assert Abuts(bs, if i < p + 1 then i else i - 1);
      }
    }
  }

  lemma CutTiled(h: Heap, p: nat, padded: int, linksBack: bool)
    requires Tiled(h.blocks, h.base, h.end) && CanCut(h, p, padded)
    ensures Tiled(Cut(h, p, padded, linksBack).blocks, h.base, h.end)
  {
    var b := h.blocks[p];
    assert b.addr % 4 == 0;
    hide Tiled;
    PiecesTiled(h.blocks, h.base, h.end, p, b.(size := padded), Rest(b, padded));
  }

  lemma CutSeparated(h: Heap, p: nat, padded: int, linksBack: bool)
    requires NoAdjacentUnused(h.blocks) && CanCut(h, p, padded)
    requires p + 1 < |h.blocks| ==> h.blocks[p + 1].used
    ensures NoAdjacentUnused(Cut(h, p, padded, linksBack).blocks)
  {
    var bs, r := h.blocks, Cut(h, p, padded, linksBack).blocks;
    assert forall i :: 0 <= i < |r| && i != p && i != p + 1 ==> r[i] == bs[if i < p then i else i - 1];
    forall i | 0 < i < |r|
      ensures Separated(r, i)
    {
      if i != p + 1 {
        assert Separated(bs, if i < p + 1 then i else i - 1);
      }
    }
  }

  lemma CutMissesOne(h: Heap, p: nat, padded: int, linksBack: bool)
    requires Valid(h) && CanCut(h, p, padded)
    requires p + 1 < |h.blocks| ==> h.blocks[p + 1].used
    ensures MissingOne(Cut(h, p, padded, linksBack), p + 1)
  {
    CutSeparated(h, p, padded, linksBack);
    CutKeepsSound(h, p, padded, linksBack);
    var g := Cut(h, p, padded, linksBack);
    forall b | b in g.blocks && !b.used && b != g.blocks[p + 1]
      ensures b in g.index
    {
      var i :| 0 <= i < |g.blocks| && g.blocks[i] == b;
      assert i != p && h.blocks[if i < p then i else i - 1] == b;
    }
    hide Cut, Tiled;
  }

  lemma AllocateKeepsValid(h: Heap, k: nat, p: nat, padded: int, linksBack: bool)
    requires Valid(h) && k < |h.index| && p < |h.blocks| && h.blocks[p] == h.index[k]
    requires 0 <= padded && padded % 4 == 0
    requires p + 1 < |h.blocks| ==> h.blocks[p + 1].used
    ensures Valid(Allocate(h, k, p, padded, linksBack))
  {
    TakeKeepsValid(h, k, p);
    if Splits(h.blocks[p], padded) {
      var g := Take(h, k, p);
      CutMissesOne(g, p, padded, linksBack);
      AddFreeCompletes(Cut(g, p, padded, linksBack), p + 1);
    }
  }

  lemma MallocKeepsValid(h: Heap, size: int, linksBack: bool)
    requires Valid(h) && 0 <= size < U32
    ensures Valid(Malloc(h, size, linksBack))
  {
    var padded := Padded(size);
    var k := FindFirstGte(SizesOf(h.index), padded);
    if size != 0 && k < |h.index| {
      ChosenIs(h, k);
      AllocateKeepsValid(h, k, Chosen(h, k), padded, linksBack);
    }
  }

  // ----- What is kept even when the index drops a block -----

  // Block b, which no entry names, may be inserted.
  lemma AddFreeKeepsSound(g: Heap, q: nat)
    requires Sound(g) && q < |g.blocks| && !g.blocks[q].used
    requires forall c :: c in g.index ==> c.addr != g.blocks[q].addr
    ensures Sound(g.(index := AddFree(g.index, g.blocks[q])))
  {
    if |g.index| < M.CAPACITY {
      InsertSortedKeepsOrder(g.index, g.blocks[q]);
    }
  }

  // No index entry shares the address of a used block.
  lemma NotIndexed(h: Heap, p: nat, c: Block)
    requires Sound(h)
    requires p < |h.blocks| && h.blocks[p].used && c.addr == h.blocks[p].addr
    ensures c !in h.index
  {
    if c in h.index {
      var i :| 0 <= i < |h.blocks| && h.blocks[i] == c;
      HeadersApart(h.blocks, h.base, h.end, i, p);
    }
  }

  // An entry that is not block i names another address.
  lemma OtherEntry(h: Heap, b: Block, i: nat)
    requires Sound(h) && b in h.index && i < |h.blocks| && b != h.blocks[i]
    ensures b.addr != h.blocks[i].addr
  {
    var j :| 0 <= j < |h.blocks| && h.blocks[j] == b;
    HeadersApart(h.blocks, h.base, h.end, i, j);
  }

  // g is h with the blocks lo to hi - 1, none of them indexed in g, joined.
  ghost predicate Spliced(h: Heap, g: Heap, lo: nat, hi: nat) {
    && lo < hi <= |h.blocks|
    && g.blocks == h.blocks[..lo] + [Span(h.blocks, lo, hi)] + h.blocks[hi..]
    && Ordered(g.index) && |g.index| <= |h.index| && g.base == h.base && g.end == h.end
    && (forall b :: b in g.index ==> b in h.index)
    && (forall i :: lo <= i < hi ==> h.blocks[i] !in g.index)
  }

  lemma SplicedEntry(h: Heap, g: Heap, lo: nat, hi: nat, b: Block)
    requires Sound(h) && Spliced(h, g, lo, hi) && b in g.index
    ensures b in g.blocks && !b.used && b.addr != h.blocks[lo].addr
  {
    OtherEntry(h, b, lo);
    SpanMembers(h.blocks, h.base, h.end, lo, hi, b);
  }

  lemma SplicedIsSound(h: Heap, g: Heap, lo: nat, hi: nat)
    requires Sound(h) && Spliced(h, g, lo, hi) && SubMap(g.stale, h.stale)
    ensures Sound(g) && lo < |g.blocks| && !g.blocks[lo].used
    ensures forall b :: b in g.index ==> b.addr != g.blocks[lo].addr
  {
    SpanTiled(h.blocks, h.base, h.end, lo, hi);
    forall b | b in g.index
      ensures b in g.blocks && !b.used && b.addr != h.blocks[lo].addr
    {
      SplicedEntry(h, g, lo, hi, b);
    }
  }

  lemma ReleaseIsSpliced(h: Heap, p: nat)
    requires Sound(h) && p < |h.blocks| && h.blocks[p].used
    ensures Spliced(h, Release(h, p), p, p + 1) && SubMap(Release(h, p).stale, h.stale)
  {
    assert Release(h, p).blocks == h.blocks[..p] + [Span(h.blocks, p, p + 1)] + h.blocks[p + 1..];
  }

  lemma AbsorbNextIsSpliced(h: Heap, p: nat)
    requires Sound(h) && p < |h.blocks| && h.blocks[p].used && IndexedAt(h, p + 1)
    ensures var g := AbsorbNext(Release(h, p), p);
            Spliced(h, g, p, JoinEnd(h, p)) && SubMap(g.stale, h.stale)
  {
    hide AbsorbNext, Ordered, Span, SubMap;
    AbsorbNextIs(h, p);
    NotIndexed(h, p, h.blocks[p]);
  }

  lemma MergedIsSpliced(h: Heap, p: nat)
    requires Sound(h) && NeighboursIndexed(h, p) && p < |h.blocks| && h.blocks[p].used
    ensures var (g, q) := Merged(h, p);
            Spliced(h, g, JoinStart(h, p), JoinEnd(h, p)) && q == JoinStart(h, p) && SubMap(g.stale, h.stale)
  {
    hide Merged, Sound, Ordered, Span, NeighboursIndexed;
    MergedIs(h, p);
    NotIndexed(h, p, h.blocks[p]);
  }

  // The blocks that a free of block p joins.
  function FreedFrom(h: Heap, p: nat): nat
    requires p < |h.blocks|
  {
    if IndexedAt(h, p + 1) && LinkRight(h, p) && IndexedAt(h, p - 1) then JoinStart(h, p) else p
  }

  function FreedTo(h: Heap, p: nat): nat { if IndexedAt(h, p + 1) then JoinEnd(h, p) else p + 1 }

  lemma JoinedIsSpliced(h: Heap, p: nat)
    requires Sound(h) && p < |h.blocks| && h.blocks[p].used
    ensures var (g, q) := Joined(h, p);
            Spliced(h, g, FreedFrom(h, p), FreedTo(h, p)) && q == FreedFrom(h, p) && SubMap(g.stale, h.stale)
  {
    hide Sound, Spliced, Merged, AbsorbNext;
    if !IndexedAt(h, p + 1) {
      ReleaseIsSpliced(h, p);
    } else {
      AbsorbNextIsSpliced(h, p);
      if LinkRight(h, p) && IndexedAt(h, p - 1) {
        MergedIsSpliced(h, p);
      }
    }
  }

  // What free joins lies around p and is unused, p itself excepted.
  lemma FreedRange(h: Heap, p: nat)
    requires p < |h.blocks|
    ensures var lo, hi := FreedFrom(h, p), FreedTo(h, p);
            && lo <= p < hi <= |h.blocks|
            && (lo == p || (lo + 1 == p && !h.blocks[lo].used))
            && (hi == p + 1 || (hi == p + 2 && !h.blocks[p + 1].used))
  {
  }

  // Whatever free meets, the heap stays sound.
  lemma TryFreeKeepsSound(h: Heap, p: nat, looksUsed: bool)
    requires Sound(h) && p < |h.blocks| && h.blocks[p].used
    ensures Sound(TryFree(h, p, looksUsed))
  {
    hide Sound, Spliced, Joined, AddFree, Succeeds;
    JoinedIsSpliced(h, p);
    var (g, q) := Joined(h, p);
    SplicedIsSound(h, g, q, FreedTo(h, p));
    if Succeeds(h, p, looksUsed) {
      AddFreeKeepsSound(g, q);
    }
  }

  lemma TryFreeFrame(h: Heap, p: nat, looksUsed: bool)
    requires Sound(h) && p < |h.blocks| && h.blocks[p].used
    ensures var g := TryFree(h, p, looksUsed); SubMap(g.stale, h.stale) && g.base == h.base && g.end == h.end
  {
    hide Sound, Joined, Succeeds, AddFree;
    JoinedIsSpliced(h, p);
  }

  // The free succeeds, finds room in the index, and leaves no unused block beside
  // the freed one: with a wrong prev link it must be the block before p, and the
  // block its link names, that are in use.
  predicate Clean(h: Heap, p: nat, looksUsed: bool)
    requires p < |h.blocks|
  {
    Room(h, p) && (LinkRight(h, p) || (!UnusedAt(h, p - 1) && LinkInUse(h, p, looksUsed)))
  }

  lemma TryFreeIsFreeAt(h: Heap, p: nat, looksUsed: bool)
    requires NeighboursIndexed(h, p) && p < |h.blocks|
    requires LinkRight(h, p) || (!UnusedAt(h, p - 1) && LinkInUse(h, p, looksUsed))
    ensures TryFree(h, p, looksUsed) == FreeAt(h, p) && Succeeds(h, p, looksUsed)
  {
  }

  // Past a wrong link free leaves block p without an entry, or beside an unused
  // block.
  lemma WrongLinkSpoils(h: Heap, p: nat, looksUsed: bool)
    requires Valid(h) && p < |h.blocks| && h.blocks[p].used && !LinkRight(h, p)
    requires UnusedAt(h, p - 1) || !LinkInUse(h, p, looksUsed)
    ensures !Valid(TryFree(h, p, looksUsed))
  {
    hide Valid, Sound, AbsorbNext, AddFree, LinkInUse, LinkRight;
    ValidIsSound(h, p);
    JoinedIsSpliced(h, p);
    var g := AbsorbNext(Release(h, p), p);
    assert Joined(h, p) == (g, p);
    SplicedIsSound(h, g, p, FreedTo(h, p));
    UnindexedIsInvalid(g, p);
    if UnusedAt(h, p - 1) {
      assert g.blocks[p - 1] == h.blocks[p - 1];
      AdjacentIsInvalid(TryFree(h, p, looksUsed), p);
    }
  }

  lemma UnindexedIsInvalid(g: Heap, p: nat)
    requires p < |g.blocks| && !g.blocks[p].used && forall b :: b in g.index ==> b.addr != g.blocks[p].addr
    ensures !Valid(g)
  {
    assert g.blocks[p] in g.blocks;
  }

  lemma AdjacentIsInvalid(g: Heap, p: nat)
    requires 0 < p < |g.blocks| && !g.blocks[p].used && !g.blocks[p - 1].used
    ensures !Valid(g)
  {
    assert !Separated(g.blocks, p);
  }

  lemma TryFreeKeepsValidIff(h: Heap, p: nat, looksUsed: bool)
    requires Valid(h) && p < |h.blocks| && h.blocks[p].used
    ensures Valid(TryFree(h, p, looksUsed)) <==> Clean(h, p, looksUsed)
  {
    hide Valid, TryFree, Room, LinkRight, LinkInUse;
    if LinkRight(h, p) || (!UnusedAt(h, p - 1) && LinkInUse(h, p, looksUsed)) {
      ValidIsSound(h, p);
      TryFreeIsFreeAt(h, p, looksUsed);
      FreeKeepsValidIff(h, p);
    } else {
      WrongLinkSpoils(h, p, looksUsed);
    }
  }

  lemma ChosenIsEntry(h: Heap, k: nat)
    requires Sound(h) && k < |h.index|
    ensures var p := Chosen(h, k);
            p < |h.blocks| && h.blocks[p] == h.index[k] && !h.blocks[p].used
  {
    var b := h.index[k];
    assert b in h.index;
    var p :| 0 <= p < |h.blocks| && h.blocks[p] == b;
    HeadersApart(h.blocks, h.base, h.end, p, Chosen(h, k));
  }

  lemma TakeKeepsSound(h: Heap, k: nat, p: nat)
    requires Sound(h) && k < |h.index| && p < |h.blocks| && h.blocks[p] == h.index[k]
    ensures Sound(Take(h, k, p))
  {
    var g := Take(h, k, p);
    RemoveAtKeepsOrder(h.index, k);
    forall i | 0 < i < |g.blocks|
      ensures Abuts(g.blocks, i)
    {
      assert Abuts(h.blocks, i);
    }
    forall b | b in g.index
      ensures b in g.blocks
    {
      var i :| 0 <= i < |h.blocks| && h.blocks[i] == b;
      assert g.blocks[i] == b;
    }
  }

  // The remainder of a cut lies apart from every entry.
  lemma CutKeepsSound(h: Heap, p: nat, padded: int, linksBack: bool)
    requires Sound(h) && CanCut(h, p, padded)
    ensures var g := Cut(h, p, padded, linksBack);
            Sound(g) && forall b :: b in g.index ==> b.addr != g.blocks[p + 1].addr
  {
    var g := Cut(h, p, padded, linksBack);
    CutTiled(h, p, padded, linksBack);
    if p + 1 < |h.blocks| {
      HeadersApart(h.blocks, h.base, h.end, p, p + 1);
    }
    forall b | b in g.index
      ensures b in g.blocks && b.addr != g.blocks[p + 1].addr
    {
      var i :| 0 <= i < |h.blocks| && h.blocks[i] == b;
      HeadersApart(h.blocks, h.base, h.end, i, p);
      assert g.blocks[if i < p then i else i + 1] == b;
    }
  }

  lemma AllocateKeepsSound(h: Heap, k: nat, p: nat, padded: int, linksBack: bool)
    requires Sound(h) && k < |h.index| && p < |h.blocks| && h.blocks[p] == h.index[k]
    requires 0 <= padded && padded % 4 == 0
    ensures Sound(Allocate(h, k, p, padded, linksBack))
  {
    hide Sound, Cut, AddFree;
    TakeKeepsSound(h, k, p);
    if Splits(h.blocks[p], padded) {
      var g := Take(h, k, p);
      CutKeepsSound(g, p, padded, linksBack);
      CutPieces(g, p, padded, linksBack);
      AddFreeKeepsSound(Cut(g, p, padded, linksBack), p + 1);
    }
  }

  lemma CutPieces(h: Heap, p: nat, padded: int, linksBack: bool)
    requires p < |h.blocks|
    ensures var g := Cut(h, p, padded, linksBack);
            p + 1 < |g.blocks| && g.blocks[p + 1] == Rest(h.blocks[p], padded)
  {
  }

  lemma MallocKeepsSound(h: Heap, size: int, linksBack: bool)
    requires Sound(h) && 0 <= size < U32
    ensures Sound(Malloc(h, size, linksBack))
  {
    hide Sound, Allocate, Chosen;
    var padded := Padded(size);
    var k := FindFirstGte(SizesOf(h.index), padded);
    if size != 0 && k < |h.index| {
      ChosenIsEntry(h, k);
      AllocateKeepsSound(h, k, Chosen(h, k), padded, linksBack);
    }
  }
}
