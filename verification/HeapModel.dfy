// The kernel heap as a value: the blocks in address order and the free index.
// Block sizes are explicit here; the word-level heap derives them from links.

module HeapModel {
  import opened Common
  import opened FreeIndex
  import M = HeapMachine

  datatype Block = Block(addr: int, size: int, used: bool) {
    function End(): int { addr + M.HEADER + size }

    function Payload(): int { addr + M.HEADER }

    predicate InPayload(w: int) { Payload() <= w && w + 4 <= End() }
  }

  // `stale` holds, by address, the prev links that malloc left behind: what is
  // stored there need not be the address of the block before.
  datatype Heap = Heap(blocks: seq<Block>, index: seq<Block>, stale: map<int, int>, base: int, end: int)

  function NextAddr(bs: seq<Block>, i: nat): int { if i + 1 < |bs| then bs[i + 1].addr else 0 }

  function PrevAddr(bs: seq<Block>, i: nat): int
    requires i <= |bs|
  {
    if 0 < i then bs[i - 1].addr else 0
  }

  // The prev link stored in the header of block i.
  function StoredPrev(bs: seq<Block>, stale: map<int, int>, i: nat): int
    requires i < |bs|
  {
    if bs[i].addr in stale then stale[bs[i].addr] else PrevAddr(bs, i)
  }

  predicate LinkRight(h: Heap, p: nat)
    requires p < |h.blocks|
  {
    StoredPrev(h.blocks, h.stale, p) == PrevAddr(h.blocks, p)
  }

  // ----- Invariant -----

  predicate Abuts(bs: seq<Block>, i: int)
    requires 0 < i < |bs|
  {
    bs[i].addr == bs[i - 1].End()
  }

  predicate Separated(bs: seq<Block>, i: int)
    requires 0 < i < |bs|
  {
    bs[i - 1].used || bs[i].used
  }

  // The blocks tile [base, end): each ends where the next one begins.
  ghost predicate Tiled(bs: seq<Block>, base: int, end: int) {
    && |bs| > 0
    && bs[0].addr == base
    && bs[|bs| - 1].End() == end
    && (forall i :: 0 <= i < |bs| ==> 0 <= bs[i].size && bs[i].addr % 4 == 0)
    && (forall i :: 0 < i < |bs| ==> Abuts(bs, i))
  }

  ghost predicate NoAdjacentUnused(bs: seq<Block>) {
    forall i :: 0 < i < |bs| ==> Separated(bs, i)
  }

  function SizesOf(idx: seq<Block>): seq<int> {
    seq(|idx|, i requires 0 <= i < |idx| => idx[i].size)
  }

  ghost predicate Distinct(idx: seq<Block>) {
    forall i, j :: 0 <= i < j < |idx| ==> idx[i].addr != idx[j].addr
  }

  // The index lists blocks of bs, each once, by increasing size.
  ghost predicate Indexes(idx: seq<Block>, bs: seq<Block>) {
    Distinct(idx) && Sorted(SizesOf(idx)) && forall b :: b in idx ==> b in bs && !b.used
  }

  // A stale link names the header of an earlier block, of the present or the past.
  ghost predicate LinksBackward(h: Heap) {
    forall a :: a in h.stale ==> h.base <= h.stale[a] && h.stale[a] + M.HEADER <= a
  }

  // The part of the invariant that survives even when the index drops a block.
  ghost predicate Sound(h: Heap) {
    && 0 < h.base && h.end < U32 && LinksBackward(h)
    && Tiled(h.blocks, h.base, h.end)
    && Indexes(h.index, h.blocks)
    && |h.index| <= M.CAPACITY
  }

  ghost predicate Valid(h: Heap) {
    && 0 < h.base && h.end < U32 && LinksBackward(h)
    && Tiled(h.blocks, h.base, h.end)
    && NoAdjacentUnused(h.blocks)
    && Indexes(h.index, h.blocks)
    && (forall b :: b in h.blocks && !b.used ==> b in h.index)
    && |h.index| <= M.CAPACITY
  }

  // ----- Operations -----

  function Initial(base: int, end: int): Heap {
    var b := Block(base, end - base - M.HEADER, false);
    Heap([b], [b], map[], base, end)
  }

  // The position of the block at address a; |bs| if there is none.
  function Position(bs: seq<Block>, a: int): (r: nat)
    ensures r <= |bs|
    ensures r < |bs| ==> bs[r].addr == a
    ensures forall i :: 0 <= i < r ==> bs[i].addr != a
  {
    if bs == [] || bs[0].addr == a then 0 else 1 + Position(bs[1..], a)
  }

  function InsertSorted(idx: seq<Block>, b: Block): seq<Block> {
    InsertAt(idx, FindFirstGte(SizesOf(idx), b.size), b)
  }

  function AddFree(idx: seq<Block>, b: Block): seq<Block> {
    if |idx| < M.CAPACITY then InsertSorted(idx, b) else idx
  }

  // idx without the block at address a.
  function Without(idx: seq<Block>, a: int): seq<Block> {
    var j := Position(idx, a);
    if j < |idx| then RemoveAt(idx, j) else idx
  }

  function Padded(size: int): int { SmallestGteMultiple(size, 4) }

  predicate Splits(b: Block, padded: int) { b.size - padded > M.HEADER }

  // Marks block p, entry k of the index, as used.
  function Take(h: Heap, k: nat, p: nat): Heap
    requires k < |h.index| && p < |h.blocks|
  {
    h.(blocks := h.blocks[p := h.blocks[p].(used := true)], index := RemoveAt(h.index, k))
  }

  function Rest(b: Block, padded: int): Block {
    Block(b.addr + M.HEADER + padded, b.size - padded - M.HEADER, false)
  }

  // Cuts block p after padded payload bytes.  The block that follows the cut
  // keeps the prev link it has unless linksBack is set.
  function Cut(h: Heap, p: nat, padded: int, linksBack: bool): Heap
    requires p < |h.blocks|
  {
    var b := h.blocks[p];
    var rest := Rest(b, padded);
    var stale := h.stale - {rest.addr};
    h.(blocks := h.blocks[..p] + [b.(size := padded), rest] + h.blocks[p + 1..],
       stale := if p + 1 == |h.blocks| then stale
                else if linksBack then stale - {h.blocks[p + 1].addr}
                else stale[h.blocks[p + 1].addr := StoredPrev(h.blocks, h.stale, p + 1)])
  }

  function Allocate(h: Heap, k: nat, p: nat, padded: int, linksBack: bool): Heap
    requires k < |h.index| && p < |h.blocks|
  {
    var h1 := Take(h, k, p);
    if Splits(h.blocks[p], padded) then
      var h2 := Cut(h1, p, padded, linksBack);
      h2.(index := AddFree(h2.index, h2.blocks[p + 1]))
    else h1
  }

  // The position of the block behind entry k of the index.
  function Chosen(h: Heap, k: nat): nat
    requires k < |h.index|
  {
    Position(h.blocks, h.index[k].addr)
  }

  function Malloc(h: Heap, size: int, linksBack: bool): Heap {
    if size == 0 then h
    else
      var k := FindFirstGte(SizesOf(h.index), Padded(size));
      if k == |h.index| then h
      else
        var p := Chosen(h, k);
        if p == |h.blocks| then h else Allocate(h, k, p, Padded(size), linksBack)
  }

  function JoinedBlocks(bs: seq<Block>, p: nat): seq<Block>
    requires p + 1 < |bs|
  {
    bs[..p] + [bs[p].(size := bs[p + 1].End() - bs[p].Payload())] + bs[p + 2..]
  }

  // Joins blocks p and p + 1; the one at address gone leaves the index.  The
  // join rewrites the prev link of the block that follows.
  function Join(h: Heap, p: nat, gone: int): Heap
    requires p + 1 < |h.blocks|
  {
    h.(blocks := JoinedBlocks(h.blocks, p),
       index := Without(h.index, gone),
       stale := h.stale - {h.blocks[p + 1].addr} - if p + 2 < |h.blocks| then {h.blocks[p + 2].addr} else {})
  }

  predicate UnusedAt(h: Heap, p: int) {
    0 <= p < |h.blocks| && !h.blocks[p].used
  }

  // Block p is marked unused but not yet indexed.
  function Release(h: Heap, p: nat): Heap
    requires p < |h.blocks|
  {
    h.(blocks := h.blocks[p := h.blocks[p].(used := false)])
  }

  function AbsorbNext(h: Heap, p: nat): Heap
    requires p < |h.blocks|
  {
    if UnusedAt(h, p + 1) then Join(h, p, h.blocks[p + 1].addr) else h
  }

  function AbsorbPrev(h: Heap, p: nat): (Heap, nat)
    requires p < |h.blocks|
  {
    if UnusedAt(h, p - 1) then (Join(h, p - 1, h.blocks[p - 1].addr), p - 1) else (h, p)
  }

  // All of a free except reinserting the merged block.
  function Merged(h: Heap, p: nat): (Heap, nat)
    requires p < |h.blocks|
  {
    AbsorbPrev(AbsorbNext(Release(h, p), p), p)
  }

  function FreeAt(h: Heap, p: nat): Heap
    requires p < |h.blocks|
  {
    var (g, q) := Merged(h, p);
    if q < |g.blocks| then g.(index := AddFree(g.index, g.blocks[q])) else g
  }

  // Block i, if it is there and unused, has an index entry.
  predicate IndexedAt(h: Heap, i: int) {
    UnusedAt(h, i) ==> h.blocks[i] in h.index
  }

  // The block that the stored prev link of block p names is in use.  A link that
  // names no block leads to whatever memory holds there.
  predicate LinkInUse(h: Heap, p: nat, looksUsed: bool)
    requires p < |h.blocks|
  {
    var q := Position(h.blocks, StoredPrev(h.blocks, h.stale, p));
    if q < |h.blocks| then h.blocks[q].used else looksUsed
  }

  // What free does to block p before it indexes it, and the position it then has:
  // free gives up at the first unused neighbour that has no index entry.
  function Joined(h: Heap, p: nat): (Heap, nat)
    requires p < |h.blocks|
  {
    if !IndexedAt(h, p + 1) then (Release(h, p), p)
    else if LinkRight(h, p) && IndexedAt(h, p - 1) then Merged(h, p)
    else (AbsorbNext(Release(h, p), p), p)
  }

  // Free gets as far as indexing the block.
  predicate Succeeds(h: Heap, p: nat, looksUsed: bool)
    requires p < |h.blocks|
  {
    IndexedAt(h, p + 1) && if LinkRight(h, p) then IndexedAt(h, p - 1) else LinkInUse(h, p, looksUsed)
  }

  function TryFree(h: Heap, p: nat, looksUsed: bool): Heap
    requires p < |h.blocks|
  {
    var (g, q) := Joined(h, p);
    if Succeeds(h, p, looksUsed) && q < |g.blocks| then g.(index := AddFree(g.index, g.blocks[q])) else g
  }

  // Freeing block p would join it to an unused block farther down, over the blocks
  // in between; the block-level heap does not describe that.
  predicate JoinsFar(h: Heap, p: nat)
    requires p < |h.blocks|
  {
    IndexedAt(h, p + 1) && !LinkRight(h, p) &&
    exists b :: b in h.index && b.addr == StoredPrev(h.blocks, h.stale, p)
  }

  function Free(h: Heap, payload: int, looksUsed: bool): Heap {
    var p := Position(h.blocks, payload - M.HEADER);
    if p == |h.blocks| || !h.blocks[p].used then h else TryFree(h, p, looksUsed)
  }
}
