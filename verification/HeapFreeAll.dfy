// Freeing every live block: when each free does what a client expects of it, and
// when the heap is the initial one in the end.

module HeapFreeAll {
  import opened Common
  import opened HeapFrame
  import opened HeapHeaders
  import opened HeapInvariant
  import opened HeapLayout
  import opened HeapLinks
  import opened HeapLoss
  import opened HeapModel
  import opened HeapOverflow
  import opened HeapOverlay
  import opened HeapProperties
  import opened HeapRefinement
  import opened HeapRuns
  import opened HeapTheorems
  import M = HeapMachine

  // ----- An order in which to free -----

  function Frees(order: seq<Block>): (r: seq<Op>)
    ensures |r| == |order|
  {
    seq(|order|, i requires 0 <= i < |order| => CallFree(order[i].Payload()))
  }

  // Live blocks, each once.
  ghost predicate EachOnce(h: Heap, order: seq<Block>) {
    && (forall i, j :: 0 <= i < j < |order| ==> order[i] != order[j])
    && forall b :: b in order ==> b in h.blocks && b.used
  }

  ghost predicate AllLive(h: Heap, order: seq<Block>) {
    forall b :: b in h.blocks && b.used ==> b in order
  }

  lemma PlaceOf(h: Heap, b: Block)
    requires Sound(h) && b in h.blocks && b.used
    ensures var p := Position(h.blocks, b.addr);
            p < |h.blocks| && h.blocks[p] == b && LivePayload(h, b.Payload()) && 0 < b.addr
  {
    var i :| 0 <= i < |h.blocks| && h.blocks[i] == b;
    HeadersApart(h.blocks, h.base, h.end, i, Position(h.blocks, b.addr));
    HeadersApart(h.blocks, h.base, h.end, i, i);
  }

  // What a free of the first block leaves to do.
  lemma FreeRest(h: Heap, order: seq<Block>, looksUsed: bool)
    requires Sound(h) && EachOnce(h, order) && order != []
    ensures order[0] in h.blocks && order[0].used && Frees(order)[1..] == Frees(order[1..])
    ensures Frees(order)[0] == CallFree(order[0].Payload())
    ensures var g := Free(h, order[0].Payload(), looksUsed);
            EachOnce(g, order[1..]) && (AllLive(h, order) ==> AllLive(g, order[1..]))
    ensures forall b :: b in order[1..] ==> b in order && b != order[0]
  {
    hide Sound, TryFree;
    assert order[0] in order;
    PlaceOf(h, order[0]);
    var p := Position(h.blocks, order[0].addr);
    forall b
      ensures b in TryFree(h, p, looksUsed).blocks && b.used <==> b in h.blocks && b.used && b != order[0]
    {
      FreeLiveMembers(h, p, looksUsed, b);
    }
    assert forall b :: b in order[1..] <==> b in order && b != order[0];
  }

  // ----- What a client expects -----

  // Memory that the index offers contains b.
  ghost predicate Offered(m: M.Machine, b: Block) {
    exists a :: a in m.free && a <= b.addr && b.End() <= a + M.HEADER + M.GetBlockSize(m, a)
  }

  // Each free succeeds and makes its block available, but none that is still held.
  ghost predicate FreesWell(m: M.Machine, order: seq<Block>)
    decreases |order|
  {
    order == [] ||
    var (m', r) := M.Free(m, order[0].Payload());
    && r == Value(()) && Offered(m', order[0])
    && (forall b :: b in order[1..] ==> !Overlaid(m', b))
    && FreesWell(m', order[1..])
  }

  // ----- A free that goes well -----

  lemma EntryIsOffered(m: M.Machine, g: Heap, e: Block, b: Block)
    requires Represents(m, g) && Sound(g) && e in g.index && Contains(e, b)
    ensures Offered(m, b)
  {
    hide M.GetBlockSize, Links;
    var j :| 0 <= j < |g.index| && g.index[j] == e;
    var i :| 0 <= i < |g.blocks| && g.blocks[i] == e;
    SizeOfBlock(m, g, i);
    assert m.free[j] == e.addr;
  }

  lemma OfferedIsEntry(m: M.Machine, g: Heap, b: Block) returns (e: Block)
    requires Represents(m, g) && Sound(g) && Offered(m, b)
    ensures e in g.index && Contains(e, b)
  {
    hide M.GetBlockSize, Links;
    var a :| a in m.free && a <= b.addr && b.End() <= a + M.HEADER + M.GetBlockSize(m, a);
    var j :| 0 <= j < |m.free| && m.free[j] == a;
    e := g.index[j];
    assert e in g.index;
    var i :| 0 <= i < |g.blocks| && g.blocks[i] == e;
    SizeOfBlock(m, g, i);
  }

  // In every sound heap free makes its block available exactly when it succeeds and
  // the index has a slot.
  lemma FreedIsOfferedIff(m: M.Machine, h: Heap, p: nat)
    requires Represents(m, h) && Sound(h) && p < |h.blocks| && h.blocks[p].used && !JoinsFar(h, p)
    ensures Offered(M.Free(m, h.blocks[p].Payload()).0, h.blocks[p])
            <==> Succeeds(h, p, LooksUsed(m.mem, h.blocks[p].addr)) && HasSlot(h, p)
  {
    hide M.Free, Represents, Sound, TryFree, Succeeds, HasSlot, JoinsFar, Contains, Freed, LooksUsed, Offered;
    var looksUsed := LooksUsed(m.mem, h.blocks[p].addr);
    var m', g, e := M.Free(m, h.blocks[p].Payload()).0, TryFree(h, p, looksUsed), Freed(h, p);
    TryFreeRefines(m, h, p);
    TryFreeKeepsSound(h, p, looksUsed);
    FreedIsKeptIff(h, p, looksUsed);
    FreedContains(h, p);
    if e in g.index {
      EntryIsOffered(m', g, e, h.blocks[p]);
    } else if Offered(m', h.blocks[p]) {
      var c := OfferedIsEntry(m', g, h.blocks[p]);
      EntryIsBlock(g, c);
      NotBoth(g, c, e, h.blocks[p]);
    }
  }

  lemma EntryIsBlock(g: Heap, c: Block)
    requires Sound(g) && c in g.index
    ensures c in g.blocks
  {
  }

  lemma CleanHasSlot(h: Heap, p: nat, looksUsed: bool)
    requires Valid(h) && p < |h.blocks| && h.blocks[p].used && Clean(h, p, looksUsed)
    ensures Succeeds(h, p, looksUsed) && HasSlot(h, p) && !JoinsFar(h, p)
  {
    hide Valid, Sound, LinkInUse;
    ValidIsSound(h, p);
    if JoinsFar(h, p) {
      FarIsNotInUse(h, p, looksUsed);
    }
  }

  lemma CleanFree(m: M.Machine, h: Heap, p: nat)
    requires Represents(m, h) && Valid(h) && p < |h.blocks| && h.blocks[p].used
    requires Clean(h, p, LooksUsed(m.mem, h.blocks[p].addr))
    ensures var (m', r) := M.Free(m, h.blocks[p].Payload());
            var g := TryFree(h, p, LooksUsed(m.mem, h.blocks[p].addr));
            && r == Value(()) && Offered(m', h.blocks[p]) && Represents(m', g) && Valid(g) && !OverlaysHeld(m', g)
            && g.base == h.base && g.end == h.end
  {
    hide M.Free, Represents, Valid, Sound, TryFree, Clean, Succeeds, HasSlot, JoinsFar, LooksUsed, Offered, OverlaysHeld;
    var looksUsed := LooksUsed(m.mem, h.blocks[p].addr);
    ValidIsSound(h, p);
    CleanHasSlot(h, p, looksUsed);
    TryFreeRefines(m, h, p);
    TryFreeKeepsValidIff(h, p, looksUsed);
    TryFreeFrame(h, p, looksUsed);
    FreedIsOfferedIff(m, h, p);
    ValidIsSound(TryFree(h, p, looksUsed), p);
    NotOverlaid(M.Free(m, h.blocks[p].Payload()).0, TryFree(h, p, looksUsed));
  }

  // ----- A free that does not -----

  // Where it succeeds with a slot after all, it leaves the block behind an unused
  // one for good.
  lemma UncleanWithSlot(h: Heap, p: nat, looksUsed: bool)
    requires Valid(h) && p < |h.blocks| && h.blocks[p].used && !Clean(h, p, looksUsed)
    requires Succeeds(h, p, looksUsed) && HasSlot(h, p)
    ensures !LinkRight(h, p) && 0 < p && !h.blocks[p - 1].used && FreedFrom(h, p) == p
  {
    hide Valid, Sound, LinkInUse;
    ValidIsSound(h, p);
  }

  lemma BecomesStuck(m: M.Machine, h: Heap, p: nat)
    requires Represents(m, h) && Sound(h) && 0 < p < |h.blocks| && h.blocks[p].used && !h.blocks[p - 1].used
    requires !LinkRight(h, p) && !JoinsFar(h, p)
    requires Succeeds(h, p, LooksUsed(m.mem, h.blocks[p].addr)) && HasSlot(h, p)
    ensures var m' := M.Free(m, h.blocks[p].Payload()).0;
            Linked(m', Starts(h)) && Stuck(m', Starts(h), h.blocks[p].addr)
  {
    hide M.Free, Represents, Sound, TryFree, Succeeds, HasSlot, JoinsFar, LooksUsed, Starts, Linked, FreedFrom, FreedTo, LinkRight, InSome;
    var looksUsed, a := LooksUsed(m.mem, h.blocks[p].addr), h.blocks[p].addr;
    var m', g := M.Free(m, h.blocks[p].Payload()).0, TryFree(h, p, looksUsed);
    TryFreeRefines(m, h, p);
    TryFreeKeepsSound(h, p, looksUsed);
    FreedIsKeptIff(h, p, looksUsed);
    LiveIsUsed(m, h, p);
    HeapIsLinked(m, h);
    StartsAre(h, a);
    FreeWrites(m, Starts(h), a);
    FreedAlone(h, p, looksUsed);
    IndexedIsFree(m', g, Freed(h, p));
    forall v | v in Starts(h) && M.NextOf(m'.mem, v) == a
      ensures !M.UsedOf(m'.mem, v)
    {
      if M.UsedOf(m'.mem, v) {
        StartsAre(h, v);
        var i :| 0 <= i < |h.blocks| && h.blocks[i].addr == v;
        LiveIsUsed(m, h, i);
        FreeLiveMembers(h, p, looksUsed, h.blocks[i]);
        FollowedByUsed(m', g, p, h.blocks[i]);
      }
    }
  }

  lemma IndexedIsFree(m: M.Machine, g: Heap, e: Block)
    requires Represents(m, g) && e in g.index
    ensures e.addr in m.free
  {
    var j :| 0 <= j < |g.index| && g.index[j] == e;
    assert m.free[j] == e.addr;
  }

  lemma FreedAlone(h: Heap, p: nat, looksUsed: bool)
    requires Sound(h) && 0 < p < |h.blocks| && h.blocks[p].used && !h.blocks[p - 1].used && !LinkRight(h, p)
    ensures var g := TryFree(h, p, looksUsed);
            && p < |g.blocks| && g.blocks[p].addr == h.blocks[p].addr && !g.blocks[p - 1].used
            && Freed(h, p).addr == h.blocks[p].addr
  {
    hide Sound, Joined, Succeeds, AddFree;
    JoinedIsSpliced(h, p);
    assert FreedFrom(h, p) == p;
    assert Joined(h, p).0.blocks[p - 1] == h.blocks[p - 1];
  }

  // Only the block before p has block p as its next one.
  lemma FollowedByUsed(m: M.Machine, g: Heap, p: nat, b: Block)
    requires Represents(m, g) && Sound(g) && 0 < p < |g.blocks| && b in g.blocks && b.used
    requires M.NextOf(m.mem, b.addr) == g.blocks[p].addr
    ensures g.blocks[p - 1].used
  {
    var i :| 0 <= i < |g.blocks| && g.blocks[i] == b;
    assert LinkAt(m.mem, g.blocks, g.stale, i);
    HeadersApart(g.blocks, g.base, g.end, p, p);
    if i + 1 < |g.blocks| {
      HeadersApart(g.blocks, g.base, g.end, i + 1, p);
    }
  }

  // Blocks in use, at different places among hs.
  ghost predicate InUse(m: M.Machine, hs: set<int>, order: seq<Block>) {
    && (forall i, j :: 0 <= i < j < |order| ==> order[i].addr != order[j].addr)
    && forall b :: b in order ==> b.addr in hs && M.UsedOf(m.mem, b.addr)
  }

  lemma InUseRest(m: M.Machine, m': M.Machine, hs: set<int>, order: seq<Block>)
    requires order != [] && InUse(m, hs, order) && FreedOne(m, m', hs, order[0].addr)
    ensures InUse(m', hs, order[1..]) && Linked(m', hs)
    ensures order[0].addr in hs && M.UsedOf(m.mem, order[0].addr)
  {
    hide M.UsedOf, InSome, Linked;
    assert order[0] in order;
    forall b | b in order[1..]
      ensures b.addr in hs && M.UsedOf(m'.mem, b.addr)
    {
      var i :| 0 <= i < |order[1..]| && order[1..][i] == b;
      assert b == order[i + 1] && b in order;
    }
  }

  lemma {:induction false} StuckThroughout(m: M.Machine, hs: set<int>, order: seq<Block>, c: int)
    requires Linked(m, hs) && Stuck(m, hs, c) && InUse(m, hs, order)
    ensures c in Run(m, Frees(order), false).free
    decreases |order|
  {
    hide M.Free, M.UsedOf, Linked, InSome;
    if order != [] {
      assert order[0] in order;
      var m' := M.Free(m, order[0].Payload()).0;
      assert Frees(order)[1..] == Frees(order[1..]) && Frees(order)[0] == CallFree(order[0].Payload());
      FreeWrites(m, hs, order[0].addr);
      FreeKeepsStuck(m, hs, order[0].addr, c);
      InUseRest(m, m', hs, order);
      StuckThroughout(m', hs, order[1..], c);
    }
  }

  lemma LiveAreInUse(m: M.Machine, h: Heap, p: nat, order: seq<Block>)
    requires Represents(m, h) && Sound(h) && p < |h.blocks| && h.blocks[p].used && EachOnce(h, [h.blocks[p]] + order)
    ensures InUse(m, Starts(h), [h.blocks[p]] + order)
  {
    var all := [h.blocks[p]] + order;
    forall b | b in all
      ensures b.addr in Starts(h) && M.UsedOf(m.mem, b.addr)
    {
      var i :| 0 <= i < |h.blocks| && h.blocks[i] == b;
      LiveIsUsed(m, h, i);
    }
    forall i, j | 0 <= i < j < |all|
      ensures all[i].addr != all[j].addr
    {
      assert all[i] in all && all[j] in all;
      PlaceOf(h, all[i]);
      PlaceOf(h, all[j]);
    }
  }

  lemma NotInitial(m: M.Machine, base: int, end: int, c: int)
    requires c in m.free && c != base
    ensures !Represents(m, Initial(base, end))
  {
    assert Addrs(Initial(base, end).index) == [base];
  }

  lemma StuckIsNotInitial(m: M.Machine, h: Heap, p: nat, rest: seq<Block>)
    requires Represents(m, h) && Valid(h) && p < |h.blocks| && h.blocks[p].used && !JoinsFar(h, p)
    requires !Clean(h, p, LooksUsed(m.mem, h.blocks[p].addr))
    requires Succeeds(h, p, LooksUsed(m.mem, h.blocks[p].addr)) && HasSlot(h, p)
    requires EachOnce(h, [h.blocks[p]] + rest)
    ensures !Represents(Run(M.Free(m, h.blocks[p].Payload()).0, Frees(rest), false), Initial(h.base, h.end))
  {
    hide M.Free, Valid, Sound, JoinsFar, Clean, LooksUsed, Succeeds, HasSlot, Represents, Run, Initial, Stuck, Linked, InUse, EachOnce;
    hide Starts, InSome, M.UsedOf;
    var m' := M.Free(m, h.blocks[p].Payload()).0;
    ValidIsSound(h, p);
    UncleanWithSlot(h, p, LooksUsed(m.mem, h.blocks[p].addr));
    BecomesStuck(m, h, p);
    LiveAreInUse(m, h, p, rest);
    HeapIsLinked(m, h);
    LiveIsUsed(m, h, p);
    StartsAre(h, h.blocks[p].addr);
    FreeWrites(m, Starts(h), h.blocks[p].addr);
    InUseRest(m, m', Starts(h), [h.blocks[p]] + rest);
    assert ([h.blocks[p]] + rest)[1..] == rest;
    StuckThroughout(m', Starts(h), rest, h.blocks[p].addr);
    AboveBase(h, p);
    NotInitial(Run(m', Frees(rest), false), h.base, h.end, h.blocks[p].addr);
  }

  lemma AboveBase(h: Heap, p: nat)
    requires Sound(h) && 0 < p < |h.blocks|
    ensures h.blocks[p].addr != h.base
  {
    HeadersApart(h.blocks, h.base, h.end, 0, p);
  }

  // From a valid heap, a free that is not clean spoils the whole.
  lemma UncleanFree(m: M.Machine, h: Heap, order: seq<Block>)
    requires Represents(m, h) && Valid(h) && EachOnce(h, order) && AllLive(h, order) && order != []
    requires order[0] in h.blocks && order[0].used
    requires !Clean(h, Position(h.blocks, order[0].addr), LooksUsed(m.mem, order[0].addr))
    ensures !(FreesWell(m, order) && Represents(Run(m, Frees(order), false), Initial(h.base, h.end)))
  {
    hide M.Free, Valid, Sound, JoinsFar, Clean, LooksUsed, Succeeds, HasSlot, Represents, Initial, EachOnce, Overlaid, TryFree, Offered;
    ValidIsSound(h, 0);
    PlaceOf(h, order[0]);
    FreeRest(h, order, false);
    var p, rest := Position(h.blocks, order[0].addr), order[1..];
    assert order == [order[0]] + rest;
    var m' := M.Free(m, order[0].Payload()).0;
    if JoinsFar(h, p) {
      FreeOverlaysIff(m, h, p);
      var b :| b in h.blocks && b.used && b != h.blocks[p] && Overlaid(m', b);
      assert b in rest;
    } else if Succeeds(h, p, LooksUsed(m.mem, order[0].addr)) && HasSlot(h, p) {
      StuckIsNotInitial(m, h, p, rest);
    } else {
      TryFreeRefines(m, h, p);
      FreedIsOfferedIff(m, h, p);
    }
  }

  // ----- All frees -----

  lemma NothingLeft(m: M.Machine, h: Heap)
    requires Represents(m, h) && Valid(h) && AllLive(h, [])
    ensures Represents(m, Initial(h.base, h.end))
  {
    assert 1 < |h.blocks| ==> Separated(h.blocks, 1);
    var b := h.blocks[0];
    assert h.blocks == [b] && b in h.index;
    forall i | 0 <= i < |h.index|
      ensures h.index[i] == b
    {
      assert h.index[i] in h.index;
    }
    assert 1 < |h.index| ==> h.index[0].addr != h.index[1].addr;
    assert LinkAt(m.mem, h.blocks, h.stale, 0);
    assert Initial(h.base, h.end) == h.(stale := map[]);
  }

  // Neither of the two ways to go wrong.
  lemma CleanIff(m: M.Machine, h: Heap, b: Block)
    requires Sound(h) && b in h.blocks && b.used
    ensures Clean(h, Position(h.blocks, b.addr), LooksUsed(m.mem, b.addr))
            <==> !Overflows(h, CallFree(b.Payload())) && !Misled(m, h, CallFree(b.Payload()))
  {
    hide Room, LinkRight, LinkInUse, LooksUsed, Sound;
    PlaceOf(h, b);
  }

  // Every free of the live blocks, in any order, succeeds and makes its block, and
  // no block that is still held, available, and they leave one unused block of the
  // original size, exactly when no free on the way overflows the index or is misled
  // by a prev link.
  lemma {:induction false} FreeAllIff(m: M.Machine, h: Heap, order: seq<Block>)
    requires Represents(m, h) && Valid(h) && EachOnce(h, order) && AllLive(h, order)
    ensures FreesWell(m, order) && Represents(Run(m, Frees(order), false), Initial(h.base, h.end))
            <==> NeverOverflows(m, h, Frees(order), false) && NeverMisled(m, h, Frees(order), false)
    decreases |order|
  {
    hide M.Free, Free, Valid, Sound, Clean, LooksUsed, Represents, Initial, EachOnce, AllLive, Overlaid, Offered, Overflows, Misled;
    if order == [] {
      NothingLeft(m, h);
    } else {
      var b, rest := order[0], order[1..];
      var looksUsed := LooksUsed(m.mem, b.addr);
      ValidIsSound(h, 0);
      FreeRest(h, order, looksUsed);
      CleanIff(m, h, b);
      if Clean(h, Position(h.blocks, b.addr), looksUsed) {
        PlaceOf(h, b);
        CleanFree(m, h, Position(h.blocks, b.addr));
        var g := Free(h, b.Payload(), looksUsed);
        var m' := M.Free(m, b.Payload()).0;
        assert g == TryFree(h, Position(h.blocks, b.addr), looksUsed) by { FreeIsTryFree(h, b, looksUsed); }
        HeldStay(m', g, rest);
        FreeAllIff(m', g, rest);
      } else {
        UncleanFree(m, h, order);
      }
    }
  }

  lemma FreeIsTryFree(h: Heap, b: Block, looksUsed: bool)
    requires Sound(h) && b in h.blocks && b.used
    ensures Free(h, b.Payload(), looksUsed) == TryFree(h, Position(h.blocks, b.addr), looksUsed)
  {
    PlaceOf(h, b);
  }

  lemma HeldStay(m: M.Machine, g: Heap, rest: seq<Block>)
    requires !OverlaysHeld(m, g) && EachOnce(g, rest)
    ensures forall b :: b in rest ==> !Overlaid(m, b)
  {
  }

  // ----- Few live blocks, and heaps without stale links -----

  lemma {:induction false} FreesAreProper(m: M.Machine, h: Heap, order: seq<Block>)
    requires Sound(h) && EachOnce(h, order)
    ensures ProperRun(m, h, Frees(order), false)
    ensures |Live(h.blocks)| <= M.CAPACITY ==> NeverManyLive(m, h, Frees(order), false)
    ensures h.stale == map[] ==> NeverFreesFar(m, h, Frees(order), false) && NeverMisled(m, h, Frees(order), false)
    decreases |order|
  {
    hide M.Free, Free, Sound, Live, EachOnce, Proper, FreesFar, Misled, LooksUsed;
    if order != [] {
      var b, looksUsed := order[0], LooksUsed(m.mem, order[0].addr);
      FreeRest(h, order, looksUsed);
      var op := CallFree(b.Payload());
      HeldIsProper(h, b);
      StepKeepsSound(m, h, op, false);
      if h.stale == map[] {
        RightLinksNeverMislead(m, h, op);
        FreeNotStale(h, b.Payload(), looksUsed);
      }
      FewerLive(h, b, looksUsed);
      FreesAreProper(M.Free(m, b.Payload()).0, Free(h, b.Payload(), looksUsed), order[1..]);
    }
  }

  lemma HeldIsProper(h: Heap, b: Block)
    requires Sound(h) && b in h.blocks && b.used
    ensures Proper(h, CallFree(b.Payload()))
  {
    PlaceOf(h, b);
  }

  lemma FewerLive(h: Heap, b: Block, looksUsed: bool)
    requires Sound(h) && b in h.blocks && b.used
    ensures |Live(Free(h, b.Payload(), looksUsed).blocks)| <= |Live(h.blocks)|
  {
    hide Live, TryFree, Sound;
    PlaceOf(h, b);
    var p := Position(h.blocks, b.addr);
    FreeDropsOneLive(h, p, looksUsed);
    LiveAround(h.blocks, p);
  }

  // With a block lost the heap is not the initial one.
  lemma LostIsNotInitial(m: M.Machine, h: Heap, b: Block, base: int, end: int)
    requires Represents(m, h) && Sound(h) && Lost(h, b)
    ensures !Represents(m, Initial(base, end))
  {
    var f := Initial(base, end);
    HeadersApart(h.blocks, h.base, h.end, 0, 0);
    if Represents(m, f) && 1 < |h.blocks| {
      SameWalk(m, h, f, 1);
    }
    assert |h.blocks| == 1 ==> forall c :: c in h.blocks ==> c == b;
    assert h.index != [] ==> h.index[0] in h.index;
  }

  lemma OverflowLoses(h: Heap, b: Block, looksUsed: bool) returns (e: Block)
    requires Valid(h) && h.stale == map[] && b in h.blocks && b.used && Overflows(h, CallFree(b.Payload()))
    ensures Lost(Free(h, b.Payload(), looksUsed), e)
  {
    hide Valid, Sound, TryFree, Lost;
    ValidIsSound(h, 0);
    PlaceOf(h, b);
    var p := Position(h.blocks, b.addr);
    ValidIsSound(h, p);
    FreedIsKeptIff(h, p, looksUsed);
    e := Freed(h, p);
  }

  lemma {:induction false} OverflowSpoils(m: M.Machine, h: Heap, order: seq<Block>) returns (e: Block)
    requires Represents(m, h) && Valid(h) && h.stale == map[] && EachOnce(h, order)
    requires !NeverOverflows(m, h, Frees(order), false)
    ensures Lost(RunHeap(m, h, Frees(order), false), e)
    decreases |order|
  {
    hide M.Free, Free, Valid, Sound, Represents, EachOnce, Overflows, LooksUsed, Lost, Proper, FreesFar, Misled;
    var b, looksUsed := order[0], LooksUsed(m.mem, order[0].addr);
    var op := CallFree(b.Payload());
    ValidIsSound(h, 0);
    FreeRest(h, order, looksUsed);
    HeldIsProper(h, b);
    RightLinksNeverMislead(m, h, op);
    StepRefines(m, h, op, false);
    FreeNotStale(h, b.Payload(), looksUsed);
    var m', g := M.Free(m, b.Payload()).0, Free(h, b.Payload(), looksUsed);
    if Overflows(h, op) {
      e := OverflowLoses(h, b, looksUsed);
      FreesAreProper(m', g, order[1..]);
      LostForever(m', g, Frees(order[1..]), false, e);
    } else {
      StepKeepsValidIff(m, h, op, false);
      e := OverflowSpoils(m', g, order[1..]);
    }
  }

  // From a heap without stale links the frees leave the initial heap exactly when
  // none of them overflows the index.
  lemma FreeAllRestoresIff(m: M.Machine, h: Heap, order: seq<Block>)
    requires Represents(m, h) && Valid(h) && h.stale == map[] && EachOnce(h, order) && AllLive(h, order)
    ensures Represents(Run(m, Frees(order), false), Initial(h.base, h.end))
            <==> NeverOverflows(m, h, Frees(order), false)
  {
    hide M.Free, Valid, Sound, Represents, Initial, EachOnce, AllLive, FreesWell, Lost, ProperRun;
    ValidIsSound(h, 0);
    FreesAreProper(m, h, order);
    if NeverOverflows(m, h, Frees(order), false) {
      FreeAllIff(m, h, order);
    } else {
      var e := OverflowSpoils(m, h, order);
      RunRefines(m, h, Frees(order), false);
      LostIsNotInitial(Run(m, Frees(order), false), RunHeap(m, h, Frees(order), false), e, h.base, h.end);
    }
  }

  // From at most 2048 live blocks everything goes well exactly when no free is
  // misled by a prev link.
  lemma FreeAllFewIff(m: M.Machine, h: Heap, order: seq<Block>)
    requires Represents(m, h) && Valid(h) && |Live(h.blocks)| <= M.CAPACITY
    requires EachOnce(h, order) && AllLive(h, order)
    ensures FreesWell(m, order) && Represents(Run(m, Frees(order), false), Initial(h.base, h.end))
            <==> NeverMisled(m, h, Frees(order), false)
  {
    hide Valid, Represents, Sound, Live, EachOnce, AllLive, Initial, FreesWell, ProperRun, NeverManyLive;
    ValidIsSound(h, 0);
    FreesAreProper(m, h, order);
    if NeverMisled(m, h, Frees(order), false) {
      FewLiveNeverOverflow(m, h, Frees(order), false);
    }
    FreeAllIff(m, h, order);
  }
}
