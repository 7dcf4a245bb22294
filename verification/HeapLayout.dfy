// Consequences of the heap invariant for a client: payloads do not overlap, and
// the block list is a function of the live blocks alone.

module HeapLayout {
  import opened HeapInvariant
  import opened HeapModel

  // ----- Live blocks -----

  // The blocks handed out and not yet freed, in address order.
  function Live(bs: seq<Block>): seq<Block> {
    if bs == [] then []
    else (if bs[0].used then [bs[0]] else []) + Live(bs[1..])
  }

  lemma LiveMembers(bs: seq<Block>, b: Block)
    ensures b in Live(bs) <==> b in bs && b.used
  {
  }

  lemma {:induction false} LiveConcat(bs: seq<Block>, cs: seq<Block>)
    ensures Live(bs + cs) == Live(bs) + Live(cs)
  {
    if bs == [] {
      assert bs + cs == cs;
    } else {
      LiveConcat(bs[1..], cs);
      assert (bs + cs)[0] == bs[0] && (bs + cs)[1..] == bs[1..] + cs;
      assert Live(bs + cs) == (if bs[0].used then [bs[0]] else []) + Live(bs[1..] + cs);
    }
  }

  // A live block is a 4-aligned range of the heap that no other live block and
  // no header touches.
  lemma LivePayloadsDisjoint(h: Heap, i: nat, j: nat)
    requires Sound(h) && i < |h.blocks| && j < |h.blocks| && i != j
    ensures var b, c := h.blocks[i], h.blocks[j];
            && b.Payload() % 4 == 0 && h.base < b.Payload() <= b.End() <= h.end
            && (b.End() <= c.addr || c.End() <= b.addr)
            && (forall w :: b.InPayload(w) ==> !c.InPayload(w) && !InHeader(h.blocks, w))
  {
    HeadersApart(h.blocks, h.base, h.end, i, j);
    forall w | h.blocks[i].InPayload(w)
      ensures !InHeader(h.blocks, w)
    {
      PayloadMissesHeaders(h.blocks, h.base, h.end, i, w);
    }
  }

  ghost predicate InHeader(bs: seq<Block>, w: int) {
    exists b :: b in bs && b.addr <= w < b.Payload()
  }

  lemma PayloadMissesHeaders(bs: seq<Block>, base: int, end: int, i: nat, w: int)
    requires Tiled(bs, base, end) && i < |bs| && bs[i].InPayload(w)
    ensures !InHeader(bs, w)
  {
    forall b | b in bs
      ensures !(b.addr <= w < b.Payload())
    {
      var j :| 0 <= j < |bs| && bs[j] == b;
      HeadersApart(bs, base, end, i, j);
    }
  }

  // ----- The layout is canonical -----

  lemma TailTiled(bs: seq<Block>, base: int, end: int)
    requires Tiled(bs, base, end) && NoAdjacentUnused(bs) && 1 < |bs|
    ensures Tiled(bs[1..], bs[0].End(), end) && NoAdjacentUnused(bs[1..])
  {
    var r := bs[1..];
    assert Abuts(bs, 1);
    forall i | 0 < i < |r|
      ensures Abuts(r, i) && Separated(r, i)
    {
      assert Abuts(bs, i + 1) && Separated(bs, i + 1);
    }
  }

  // After an unused first block comes the first live block, or the end.
  lemma UnusedHead(bs: seq<Block>, base: int, end: int)
    requires Tiled(bs, base, end) && NoAdjacentUnused(bs) && !bs[0].used
    ensures Live(bs) == Live(bs[1..])
    ensures |bs| == 1 <==> Live(bs) == []
    ensures 1 < |bs| ==> bs[1].used && Live(bs)[0] == bs[1] && bs[1].addr == bs[0].End()
  {
    if 1 < |bs| {
      assert Abuts(bs, 1) && Separated(bs, 1);
      assert bs[1..][0] == bs[1];
    }
  }

  lemma {:induction false} CanonicalFrom(bs: seq<Block>, cs: seq<Block>, base: int, end: int)
    requires Tiled(bs, base, end) && NoAdjacentUnused(bs)
    requires Tiled(cs, base, end) && NoAdjacentUnused(cs)
    requires Live(bs) == Live(cs)
    ensures bs == cs
  {
    if !bs[0].used {
      UnusedHead(bs, base, end);
    }
    if !cs[0].used {
      UnusedHead(cs, base, end);
    }
    assert bs[0] == cs[0];
    HeadersApart(bs, base, end, 0, |bs| - 1);
    HeadersApart(cs, base, end, 0, |cs| - 1);
    if 1 < |bs| {
      TailTiled(bs, base, end);
      TailTiled(cs, base, end);
      if bs[0].used {
        assert Live(bs)[1..] == Live(bs[1..]) && Live(cs)[1..] == Live(cs[1..]);
      }
      CanonicalFrom(bs[1..], cs[1..], bs[0].End(), end);
      assert bs == [bs[0]] + bs[1..] && cs == [cs[0]] + cs[1..];
    }
  }

  // Two heaps over the same range with the same live blocks have the same
  // block list: fragmentation never depends on history.
  lemma LayoutIsCanonical(g: Heap, h: Heap)
    requires Valid(g) && Valid(h) && g.base == h.base && g.end == h.end
    requires Live(g.blocks) == Live(h.blocks)
    ensures g.blocks == h.blocks
  {
    CanonicalFrom(g.blocks, h.blocks, g.base, g.end);
  }
}
