// free on a memory of which only the places of the block headers are known: also
// where stale prev links have led an earlier free astray.

module HeapHeaders {
  import opened Common
  import opened FreeIndex
  import opened HeapInvariant
  import opened HeapLayout
  import opened HeapModel
  import opened HeapRefinement
  import M = HeapMachine

  // hs are the addresses of headers that lie apart, and next links and index
  // entries name only these.
  ghost predicate Linked(m: M.Machine, hs: set<int>) {
    && Spaced(hs) && NextsIn(m.mem, hs)
    && (forall i :: 0 <= i < |m.free| ==> m.free[i] in hs)
    && |m.free| <= M.CAPACITY
  }

  ghost predicate Spaced(hs: set<int>) {
    && (forall a :: a in hs ==> 0 < a)
    && (forall a, b :: a in hs && b in hs ==> a == b || a + M.HEADER <= b || b + M.HEADER <= a)
  }

  ghost predicate NextsIn(mem: map<int, int>, hs: set<int>) {
    forall a :: a in hs ==> M.NextOf(mem, a) == 0 || M.NextOf(mem, a) in hs
  }

  ghost predicate InSome(hs: set<int>, w: int) {
    exists a :: a in hs && a <= w < a + M.HEADER
  }

  // Only header words differ, and no used flag.
  ghost predicate SameUse(mem: map<int, int>, mem': map<int, int>, hs: set<int>) {
    && (forall a :: a in hs ==> M.UsedOf(mem', a) == M.UsedOf(mem, a))
    && (forall w :: !InSome(hs, w) ==> M.Word(mem', w) == M.Word(mem, w))
  }

  // ----- Single stores -----

  lemma StoreNext(mem: map<int, int>, hs: set<int>, v: int, x: int)
    requires Spaced(hs) && v in hs
    ensures var mem' := mem[v + 4 := x];
            && SameUse(mem, mem', hs)
            && (forall a :: a in hs ==> M.NextOf(mem', a) == (if a == v then x else M.NextOf(mem, a)) && M.PrevOf(mem', a) == M.PrevOf(mem, a))
  {
    assert InSome(hs, v + 4);
  }

  lemma StorePrev(mem: map<int, int>, hs: set<int>, v: int, x: int)
    requires Spaced(hs) && v in hs
    ensures var mem' := mem[v := x];
            && SameUse(mem, mem', hs)
            && (forall a :: a in hs ==> M.NextOf(mem', a) == M.NextOf(mem, a) && M.PrevOf(mem', a) == if a == v then x else M.PrevOf(mem, a))
  {
    assert InSome(hs, v);
  }

  lemma StoreUnused(mem: map<int, int>, hs: set<int>, v: int)
    requires Spaced(hs) && v in hs
    ensures var mem' := mem[v + 8 := 0];
            && (forall a :: a in hs ==> M.NextOf(mem', a) == M.NextOf(mem, a) && M.UsedOf(mem', a) == (M.UsedOf(mem, a) && a != v))
            && (forall w :: !InSome(hs, w) ==> M.Word(mem', w) == M.Word(mem, w))
  {
    assert InSome(hs, v + 8);
  }

  // ----- The steps of free -----

  // free' is free without one entry x, or free itself.
  ghost predicate Drops(free: seq<int>, free': seq<int>, x: int) {
    free' == free || exists i :: 0 <= i < |free| && free[i] == x && free' == RemoveAt(free, i)
  }

  lemma RemoveDrops(m: M.Machine, x: int)
    ensures var (m', r) := M.RemoveFreeBlock(m, x);
            && m'.mem == m.mem && m'.base == m.base && m'.end == m.end && Drops(m.free, m'.free, x)
            && (r.Value? ==> x in m.free && |m'.free| == |m.free| - 1)
            && (r.Failure? ==> m' == m)
  {
  }

  lemma DropsKeeps(free: seq<int>, free': seq<int>, x: int, hs: set<int>)
    requires Drops(free, free', x) && forall i :: 0 <= i < |free| ==> free[i] in hs
    ensures |free'| <= |free| && forall i :: 0 <= i < |free'| ==> free'[i] in hs
    ensures forall c :: c in free && c != x ==> c in free'
  {
    if free' != free {
      var i :| 0 <= i < |free| && free[i] == x && free' == RemoveAt(free, i);
      forall c | c in free && c != x
        ensures c in free'
      {
        var j :| 0 <= j < |free| && free[j] == c;
        assert free'[if j < i then j else j - 1] == c;
      }
    }
  }

  // A merge writes header words only, and next links only of the unused block v.
  ghost predicate Merges(m: M.Machine, m': M.Machine, hs: set<int>, v: int) {
    && Linked(m', hs) && SameUse(m.mem, m'.mem, hs) && m'.base == m.base && m'.end == m.end
    && (forall a :: a in hs && a != v ==> M.NextOf(m'.mem, a) == M.NextOf(m.mem, a))
  }

  lemma MergeNextWrites(m: M.Machine, hs: set<int>, a: int)
    requires Linked(m, hs) && a in hs
    ensures var (m', r) := M.MergeNext(m, a);
            Merges(m, m', hs, a) && Drops(m.free, m'.free, M.NextOf(m.mem, a))
  {
    hide M.RemoveFreeBlock, M.NextOf, M.PrevOf, M.UsedOf, M.Word, InSome;
    var next := M.NextOf(m.mem, a);
    RemoveDrops(m, next);
    if next != 0 && !M.UsedOf(m.mem, next) {
      var (m1, r) := M.RemoveFreeBlock(m, next);
      DropsKeeps(m.free, m1.free, next, hs);
      if r.Value? {
        var mem := m1.mem[a + 4 := M.NextOf(m1.mem, next)];
        StoreNext(m1.mem, hs, a, M.NextOf(m1.mem, next));
        if M.NextOf(mem, a) != 0 {
          StorePrev(mem, hs, M.NextOf(mem, a), a);
        }
      }
    }
  }

  lemma MergePrevWrites(m: M.Machine, hs: set<int>, a: int)
    requires Linked(m, hs) && a in hs
    ensures var (m', r) := M.MergePrev(m, a);
            var prev := M.PrevOf(m.mem, a);
            && (Merges(m, m', hs, prev) && Drops(m.free, m'.free, prev))
            && (m' == m || (prev in hs && !M.UsedOf(m.mem, prev) && |m'.free| < M.CAPACITY && r == Value(prev)))
            && (m' == m && r.Value? ==> r.value == a)
  {
    hide M.RemoveFreeBlock, M.NextOf, M.UsedOf, M.Word, InSome;
    var prev := M.PrevOf(m.mem, a);
    RemoveDrops(m, prev);
    if prev != 0 && !M.UsedOf(m.mem, prev) {
      var (m1, r) := M.RemoveFreeBlock(m, prev);
      DropsKeeps(m.free, m1.free, prev, hs);
      if r.Value? {
        hide M.PrevOf;
        assert prev in hs;
        var mem := m1.mem[prev + 4 := M.NextOf(m1.mem, a)];
        StoreNext(m1.mem, hs, prev, M.NextOf(m1.mem, a));
        if M.NextOf(mem, a) != 0 {
          StorePrev(mem, hs, M.NextOf(mem, a), M.PrevOf(mem, a));
        }
      }
    }
  }

  lemma AddWrites(m: M.Machine, hs: set<int>, b: int)
    requires Linked(m, hs) && b in hs
    ensures var m' := M.AddFreeBlock(m, b);
            && Linked(m', hs) && m'.mem == m.mem && m'.base == m.base && m'.end == m.end
            && (forall c :: c in m.free ==> c in m'.free) && (|m.free| < M.CAPACITY ==> b in m'.free)
  {
    hide M.Sizes, M.GetBlockSize;
    if |m.free| < M.CAPACITY {
      var k := FindFirstGte(M.Sizes(m), M.GetBlockSize(m, b));
      SizesLength(m);
      var free' := InsertAt(m.free, k, b);
      assert free'[k] == b;
      forall c | c in m.free
        ensures c in free'
      {
        var j :| 0 <= j < |m.free| && m.free[j] == c;
        assert free'[if j < k then j else j + 1] == c;
      }
    }
  }

  // ----- free -----

  // free clears one used flag and writes otherwise header words only.
  ghost predicate FreedOne(m: M.Machine, m': M.Machine, hs: set<int>, a: int) {
    && Linked(m', hs) && m'.base == m.base && m'.end == m.end
    && (forall v :: v in hs ==> M.UsedOf(m'.mem, v) == (M.UsedOf(m.mem, v) && v != a))
    && (forall w :: !InSome(hs, w) ==> M.Word(m'.mem, w) == M.Word(m.mem, w))
  }

  // The steps of a free that does not stop at its second merge.
  lemma FreeSteps(m: M.Machine, a: int)
    requires 0 < a && M.UsedOf(m.mem, a)
    ensures var (m1, r1) := M.MergeNext(m.(mem := m.mem[a + 8 := 0]), a);
            var (m2, r2) := M.MergePrev(m1, a);
            M.Free(m, a + M.HEADER).0 == if r1.Failure? then m1 else if r2.Failure? then m2 else M.AddFreeBlock(m2, r2.value)
  {
    hide M.MergeNext, M.MergePrev, M.AddFreeBlock;
  }

  lemma MergesTwice(m: M.Machine, m1: M.Machine, m2: M.Machine, m3: M.Machine, hs: set<int>, a: int, v: int)
    requires Spaced(hs) && a in hs && m1 == m.(mem := m.mem[a + 8 := 0])
    requires Merges(m1, m2, hs, a) && (m3 == m2 || Merges(m2, m3, hs, v))
    ensures FreedOne(m, m3, hs, a)
  {
    hide M.NextOf, M.Word, InSome, M.UsedOf;
    StoreUnused(m.mem, hs, a);
  }

  lemma FreeWrites(m: M.Machine, hs: set<int>, a: int)
    requires Linked(m, hs) && a in hs && M.UsedOf(m.mem, a)
    ensures FreedOne(m, M.Free(m, a + M.HEADER).0, hs, a)
  {
    hide M.MergeNext, M.MergePrev, M.AddFreeBlock, M.Free, M.PrevOf, InSome, Merges, Drops;
    FreeSteps(m, a);
    ReleaseKeepsLinked(m, hs, a);
    var m1 := m.(mem := m.mem[a + 8 := 0]);
    MergeNextWrites(m1, hs, a);
    var (m2, r2) := M.MergeNext(m1, a);
    assert Linked(m2, hs) by { MergesLinked(m1, m2, hs, a); }
    MergePrevWrites(m2, hs, a);
    var (m3, r3) := M.MergePrev(m2, a);
    var prev := M.PrevOf(m2.mem, a);
    MergesTwice(m, m1, m2, m2, hs, a, prev);
    MergesTwice(m, m1, m2, m3, hs, a, prev);
    if r3.Value? {
      AddWrites(m3, hs, r3.value);
    }
  }

  lemma ReleaseKeepsLinked(m: M.Machine, hs: set<int>, a: int)
    requires Linked(m, hs) && a in hs
    ensures Linked(m.(mem := m.mem[a + 8 := 0]), hs)
  {
    StoreUnused(m.mem, hs, a);
  }

  lemma MergesLinked(m: M.Machine, m': M.Machine, hs: set<int>, v: int)
    requires Merges(m, m', hs, v)
    ensures Linked(m', hs)
  {
  }

  // ----- A boundary that no free removes -----

  // The indexed block c follows no block in use, so no free will join it to the
  // block before.
  ghost predicate Stuck(m: M.Machine, hs: set<int>, c: int) {
    && c in hs && c in m.free && !M.UsedOf(m.mem, c)
    && forall v :: v in hs && M.NextOf(m.mem, v) == c ==> !M.UsedOf(m.mem, v)
  }

  lemma MergesKeepsStuck(m: M.Machine, m': M.Machine, hs: set<int>, v: int, c: int)
    requires Merges(m, m', hs, v) && (v in hs ==> !M.UsedOf(m.mem, v)) && Stuck(m, hs, c)
    requires c in m'.free
    ensures Stuck(m', hs, c)
  {
    hide M.NextOf, M.UsedOf, M.Word, InSome;
  }

  lemma FreeKeepsStuck(m: M.Machine, hs: set<int>, a: int, c: int)
    requires Linked(m, hs) && a in hs && M.UsedOf(m.mem, a) && Stuck(m, hs, c)
    ensures Stuck(M.Free(m, a + M.HEADER).0, hs, c)
  {
    hide M.MergeNext, M.MergePrev, M.AddFreeBlock, M.Free, M.PrevOf, InSome, Merges, Drops;
    FreeSteps(m, a);
    ReleaseKeepsLinked(m, hs, a);
    var m1 := m.(mem := m.mem[a + 8 := 0]);
    MergeNextWrites(m1, hs, a);
    var (m2, r2) := M.MergeNext(m1, a);
    DropsKeeps(m1.free, m2.free, M.NextOf(m1.mem, a), hs);
    MergesKeepsStuck(m1, m2, hs, a, c);
    MergesLinked(m1, m2, hs, a);
    PrevKeepsStuck(m2, hs, a, c);
  }

  // The second merge takes c out of the index only to put it back.
  lemma PrevKeepsStuck(m: M.Machine, hs: set<int>, a: int, c: int)
    requires Linked(m, hs) && a in hs && Stuck(m, hs, c)
    ensures var (m', r) := M.MergePrev(m, a);
            if r.Failure? then Stuck(m', hs, c) else Stuck(M.AddFreeBlock(m', r.value), hs, c)
  {
    hide M.MergePrev, M.AddFreeBlock, InSome, Merges, Drops, M.NextOf, M.UsedOf, M.Word;
    MergePrevWrites(m, hs, a);
    var (m', r) := M.MergePrev(m, a);
    var prev := M.PrevOf(m.mem, a);
    if m' != m {
      DropsKeeps(m.free, m'.free, prev, hs);
      MergesLinked(m, m', hs, prev);
      AddWrites(m', hs, prev);
      StuckAgain(m, m', M.AddFreeBlock(m', prev), hs, prev, c);
    } else if r.Value? {
      AddWrites(m, hs, a);
    }
  }

  lemma StuckAgain(m: M.Machine, m': M.Machine, m'': M.Machine, hs: set<int>, prev: int, c: int)
    requires Merges(m, m', hs, prev) && !M.UsedOf(m.mem, prev) && Stuck(m, hs, c)
    requires m''.mem == m'.mem && c in m''.free
    ensures Stuck(m'', hs, c)
  {
    hide M.NextOf, M.UsedOf, M.Word, InSome;
  }

  // ----- The headers of a heap -----

  function Starts(h: Heap): set<int> { set b | b in h.blocks :: b.addr }

  lemma StartsAre(h: Heap, a: int)
    ensures a in Starts(h) <==> exists i :: 0 <= i < |h.blocks| && h.blocks[i].addr == a
    ensures forall i :: 0 <= i < |h.blocks| ==> h.blocks[i].addr in Starts(h)
  {
    forall i | 0 <= i < |h.blocks|
      ensures h.blocks[i].addr in Starts(h)
    {
      assert h.blocks[i] in h.blocks;
    }
  }

  lemma StartsApart(h: Heap)
    requires Sound(h)
    ensures Spaced(Starts(h))
  {
    forall a, b | a in Starts(h) && b in Starts(h)
      ensures 0 < a && (a == b || a + M.HEADER <= b || b + M.HEADER <= a)
    {
      StartsAre(h, a);
      StartsAre(h, b);
      var i :| 0 <= i < |h.blocks| && h.blocks[i].addr == a;
      var j :| 0 <= j < |h.blocks| && h.blocks[j].addr == b;
      HeadersApart(h.blocks, h.base, h.end, i, j);
    }
  }

  lemma HeapIsLinked(m: M.Machine, h: Heap)
    requires Represents(m, h) && Sound(h)
    ensures Linked(m, Starts(h))
  {
    hide Starts;
    StartsApart(h);
    forall a | a in Starts(h)
      ensures M.NextOf(m.mem, a) == 0 || M.NextOf(m.mem, a) in Starts(h)
    {
      StartsAre(h, a);
      var i :| 0 <= i < |h.blocks| && h.blocks[i].addr == a;
      assert LinkAt(m.mem, h.blocks, h.stale, i);
    }
    forall j | 0 <= j < |m.free|
      ensures m.free[j] in Starts(h)
    {
      assert h.index[j] in h.index;
      var i :| 0 <= i < |h.blocks| && h.blocks[i] == h.index[j];
      StartsAre(h, m.free[j]);
    }
  }

  lemma OutsideHeaders(h: Heap, w: int)
    requires !InHeader(h.blocks, w)
    ensures !InSome(Starts(h), w)
  {
  }
}
