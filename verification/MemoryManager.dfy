// The memory manager with its state updated in place
// (src/kernel/memory-manager/manager.cpp).  Every method is proved equal to the
// word-level function of the same name in HeapMachine.

module MemoryManager {
  import opened Common
  import opened FreeIndex
  import opened FcVector
  import M = HeapMachine

  // One entry of the BIOS memory map, and one range kept from it.
  datatype MapEntry = MapEntry(baseAddress: int, length: int, kind: int)
  datatype MemoryRange = MemoryRange(baseAddress: int, length: int)

  const RANGE_CAPACITY := 32

  // The first usable ranges before the terminating zero entry.
  function UsableRanges(table: seq<MapEntry>, room: nat): (r: seq<MemoryRange>)
    ensures |r| <= room
  {
    if table == [] || table[0] == MapEntry(0, 0, 0) || room == 0 then []
    else if table[0].kind % U32 != 1 then UsableRanges(table[1..], room)
    else [MemoryRange(table[0].baseAddress % U32, table[0].length % U32)] + UsableRanges(table[1..], room - 1)
  }

  function RangeEnd(r: MemoryRange): int { (r.baseAddress + r.length) % U32 }

  predicate InRange(r: MemoryRange, a: int) { r.baseAddress <= a < RangeEnd(r) }

  // ----- What is kept of the memory map -----

  predicate IsUsable(e: MapEntry) { e.kind % U32 == 1 }

  // How many of the first p entries are usable.
  function UsableBefore(table: seq<MapEntry>, p: nat): nat
    requires p <= |table|
  {
    if p == 0 then 0 else UsableBefore(table, p - 1) + if IsUsable(table[p - 1]) then 1 else 0
  }

  // Entry p is usable, lies before the zero entry, and is among the first 32 such.
  ghost predicate Kept(table: seq<MapEntry>, p: nat) {
    && p < |table| && IsUsable(table[p]) && UsableBefore(table, p) < 32
    && forall j :: 0 <= j <= p ==> table[j] != MapEntry(0, 0, 0)
  }

  // at lists the positions, from `from` on, of the entries that are kept when there
  // is room for `room` of them.
  ghost predicate Positions(table: seq<MapEntry>, from: nat, room: nat, at: seq<nat>) {
    && (forall i :: 0 <= i < |at| ==> from <= at[i] < |table|)
    && (forall i, j :: 0 <= i < j < |at| ==> at[i] < at[j])
    && (forall p :: from <= p < |table| ==> (p in at <==> KeptFrom(table, from, room, p)))
  }

  ghost predicate KeptFrom(table: seq<MapEntry>, from: nat, room: nat, p: nat)
    requires from <= p < |table|
  {
    && IsUsable(table[p]) && UsableBefore(table, p) - UsableBefore(table, from) < room
    && forall j :: from <= j <= p ==> table[j] != MapEntry(0, 0, 0)
  }

  function RangeOf(e: MapEntry): MemoryRange { MemoryRange(e.baseAddress % U32, e.length % U32) }

  lemma {:induction false} UsableBeforeGrows(table: seq<MapEntry>, p: nat, q: nat)
    requires p <= q <= |table|
    ensures UsableBefore(table, p) <= UsableBefore(table, q)
  {
    if p < q {
      UsableBeforeGrows(table, p, q - 1);
    }
  }

  lemma NothingKept(table: seq<MapEntry>, from: nat, room: nat)
    requires from <= |table| && (from == |table| || table[from] == MapEntry(0, 0, 0) || room == 0)
    ensures Positions(table, from, room, []) && UsableRanges(table[from..], room) == []
  {
    forall p | from <= p < |table|
      ensures !KeptFrom(table, from, room, p)
    {
      UsableBeforeGrows(table, from, p);
    }
  }

  lemma PositionsNext(table: seq<MapEntry>, from: nat, room: nat, rest: seq<nat>)
    requires from < |table| && table[from] != MapEntry(0, 0, 0) && 0 < room
    requires Positions(table, from + 1, if IsUsable(table[from]) then room - 1 else room, rest)
    ensures Positions(table, from, room, if IsUsable(table[from]) then [from] + rest else rest)
  {
    var at := if IsUsable(table[from]) then [from] + rest else rest;
    assert KeptFrom(table, from, room, from) <==> IsUsable(table[from]);
    hide KeptFrom;
    forall p | from <= p < |table|
      ensures p in at <==> KeptFrom(table, from, room, p)
    {
      assert from !in rest;
    }
  }

  lemma {:induction false} KeptPositions(table: seq<MapEntry>, from: nat, room: nat) returns (at: seq<nat>)
    requires from <= |table|
    ensures var ranges := UsableRanges(table[from..], room);
            && Positions(table, from, room, at) && |at| == |ranges|
            && forall i :: 0 <= i < |at| ==> at[i] < |table| && ranges[i] == RangeOf(table[at[i]])
    decreases |table| - from
  {
    hide Positions;
    if from == |table| || table[from] == MapEntry(0, 0, 0) || room == 0 {
      at := [];
      NothingKept(table, from, room);
    } else {
      var rest := KeptPositions(table, from + 1, if IsUsable(table[from]) then room - 1 else room);
      assert table[from..][1..] == table[from + 1..];
      at := if IsUsable(table[from]) then [from] + rest else rest;
      PositionsNext(table, from, room, rest);
    }
  }

  // The ranges read are, in order, the low words of the entries kept: the usable
  // ones before the zero entry, up to the 32nd.
  lemma RangesAreKept(table: seq<MapEntry>) returns (at: seq<nat>)
    ensures var ranges := UsableRanges(table, RANGE_CAPACITY);
            && |at| == |ranges|
            && (forall i, j :: 0 <= i < j < |at| ==> at[i] < at[j])
            && (forall p: nat :: p in at <==> Kept(table, p))
            && (forall i :: 0 <= i < |at| ==>
                  at[i] < |table| &&
                  ranges[i] == MemoryRange(table[at[i]].baseAddress % U32, table[at[i]].length % U32))
  {
    at := KeptPositions(table, 0, RANGE_CAPACITY);
    assert table[0..] == table;
    forall p: nat
      ensures p in at <==> Kept(table, p)
    {
      if p < |table| {
        assert KeptFrom(table, 0, RANGE_CAPACITY, p) <==> Kept(table, p);
      }
    }
  }

  // Entry p is kept, and the heap base lies in its range.
  ghost predicate Holds(table: seq<MapEntry>, p: nat, heapBase: int) {
    Kept(table, p) && table[p].baseAddress % U32 <= heapBase < (table[p].baseAddress + table[p].length) % U32
  }

  lemma SumOfLowWords(a: int, b: int)
    ensures (a % U32 + b % U32) % U32 == (a + b) % U32
  {
  }

  // The first range around the heap base belongs to the first such entry.
  lemma FirstRange(table: seq<MapEntry>, heapBase: int, i: nat) returns (p: nat)
    requires var ranges := UsableRanges(table, RANGE_CAPACITY);
             && i < |ranges| && InRange(ranges[i], heapBase)
             && forall j :: 0 <= j < i ==> !InRange(ranges[j], heapBase)
    ensures Holds(table, p, heapBase) && forall q: nat :: q < p ==> !Holds(table, q, heapBase)
    ensures RangeEnd(UsableRanges(table, RANGE_CAPACITY)[i]) == (table[p].baseAddress + table[p].length) % U32
  {
    var at := RangesAreKept(table);
    p := at[i];
    SumOfLowWords(table[p].baseAddress, table[p].length);
    forall q: nat | q < p
      ensures !Holds(table, q, heapBase)
    {
      if Kept(table, q) {
        var j :| 0 <= j < |at| && at[j] == q;
        SumOfLowWords(table[q].baseAddress, table[q].length);
        assert j < i;
      }
    }
  }

  lemma NoRange(table: seq<MapEntry>, heapBase: int)
    requires var ranges := UsableRanges(table, RANGE_CAPACITY);
             forall j :: 0 <= j < |ranges| ==> !InRange(ranges[j], heapBase)
    ensures forall q: nat :: !Holds(table, q, heapBase)
  {
    var at := RangesAreKept(table);
    forall q: nat
      ensures !Holds(table, q, heapBase)
    {
      if Kept(table, q) {
        var j :| 0 <= j < |at| && at[j] == q;
        SumOfLowWords(table[q].baseAddress, table[q].length);
      }
    }
  }

  method ReadMemoryMap(table: seq<MapEntry>) returns (ranges: seq<MemoryRange>)
    ensures ranges == UsableRanges(table, RANGE_CAPACITY)
  {
    ranges := [];
    var p := 0;
    while p < |table| && table[p] != MapEntry(0, 0, 0) && |ranges| < RANGE_CAPACITY
      invariant 0 <= p <= |table| && |ranges| <= RANGE_CAPACITY
      invariant UsableRanges(table, RANGE_CAPACITY) == ranges + UsableRanges(table[p..], RANGE_CAPACITY - |ranges|)
    {
      if table[p].kind % U32 == 1 {
        ranges := ranges + [MemoryRange(table[p].baseAddress % U32, table[p].length % U32)];
      }
      p := p + 1;
    }
  }

  class Manager {
    var mem: map<int, int>
    var baseNode: int
    var tailNode: int
    var endAddress: int
    var freeBlocks: FCVector<int>
    // false: the code as written; true: with the missing prev store added.
    const linksBack: bool

    ghost predicate Valid()
      reads this, freeBlocks
    {
      freeBlocks.Valid() && freeBlocks.Capacity() == M.CAPACITY
    }

    ghost function State(): M.Machine
      reads this, freeBlocks, freeBlocks.items
      requires Valid()
    {
      M.Machine(mem, freeBlocks.Contents(), baseNode, endAddress)
    }

    // Static storage before initialize(): no heap.
    constructor (mem: map<int, int>, linksBack: bool)
      ensures Valid() && fresh(freeBlocks) && fresh(freeBlocks.items)
      ensures State() == M.Machine(mem, [], 0, 0) && this.linksBack == linksBack
    {
      this.mem := mem;
      this.linksBack := linksBack;
      baseNode, tailNode, endAddress := 0, 0, 0;
      freeBlocks := new FCVector(M.CAPACITY);
    }

    method Initialize(table: seq<MapEntry>, heapBase: int) returns (r: ErrorOr<()>)
      requires Valid()
      modifies this, freeBlocks.items
      ensures Valid() && (freeBlocks == old(freeBlocks) || (fresh(freeBlocks) && fresh(freeBlocks.items)))
      ensures if exists p: nat :: Holds(table, p, heapBase) then
                r == Value(()) &&
                exists p: nat :: Holds(table, p, heapBase) && (forall q: nat :: q < p ==> !Holds(table, q, heapBase)) &&
                  State() == M.Initialized(old(mem), heapBase, (table[p].baseAddress + table[p].length) % U32)
              else
                r == Failure(FailedToFindMemoryRegion) &&
                State() == old(State()).(mem := M.Initialized(old(mem), heapBase, 0).mem)
    {
      var ranges := ReadMemoryMap(table);
      mem := mem[heapBase := 0][heapBase + 4 := 0][heapBase + 8 := 0];
      var i := 0;
      while i < |ranges| && !InRange(ranges[i], heapBase)
        invariant 0 <= i <= |ranges|
        invariant forall j :: 0 <= j < i ==> !InRange(ranges[j], heapBase)
      {
        i := i + 1;
      }
      if i == |ranges| {
        NoRange(table, heapBase);
        return Failure(FailedToFindMemoryRegion);
      }
      ghost var p := FirstRange(table, heapBase, i);
      baseNode, tailNode, endAddress := heapBase, heapBase, RangeEnd(ranges[i]);
      freeBlocks := new FCVector(M.CAPACITY);
      var pushed := freeBlocks.PushBack(heapBase);
      return Value(());
    }

    method FindFirstGteFreeBlock(size: int) returns (r: nat)
      requires Valid()
      ensures r == FindFirstGte(M.Sizes(State()), size)
    {
      ghost var sizes := M.Sizes(State());
      assert forall i :: 0 <= i < |sizes| ==> sizes[i] == GetBlockSize(freeBlocks.items[i]);
      if freeBlocks.count == 0 || size <= GetBlockSize(freeBlocks.items[0]) {
        return 0;
      }
      var start, end := 0, freeBlocks.count;
      var midpoint := (start + end) / 2;
      while start != midpoint
        invariant 0 <= start < end <= freeBlocks.count && midpoint == (start + end) / 2
        invariant Bisect(sizes, size, start, end) == Bisect(sizes, size, 0, |sizes|)
        decreases end - start
      {
        if size > GetBlockSize(freeBlocks.items[midpoint]) {
          start := midpoint;
        } else {
          end := midpoint;
        }
        midpoint := (start + end) / 2;
      }
      return end;
    }

    function GetBlockSize(a: int): (r: int)
      reads this, freeBlocks, freeBlocks.items
      requires Valid()
      ensures r == M.GetBlockSize(State(), a)
    {
      if a == 0 then 0
      else
        var blockEnd := if M.NextOf(mem, a) == 0 then endAddress else M.NextOf(mem, a);
        (blockEnd - a - M.HEADER) % U32
    }

    method AddFreeBlock(a: int)
      requires Valid()
      modifies freeBlocks`count, freeBlocks.items
      ensures Valid() && State() == M.AddFreeBlock(old(State()), a)
    {
      var index := FindFirstGteFreeBlock(GetBlockSize(a));
      var inserted := freeBlocks.Insert(index, a);
    }

    method RemoveFreeBlock(a: int) returns (r: ErrorOr<()>)
      requires Valid()
      modifies freeBlocks`count, freeBlocks.items
      ensures Valid() && (State(), r) == M.RemoveFreeBlock(old(State()), a)
    {
      ghost var m := State();
      var blockSize := GetBlockSize(a);
      var startIndex := FindFirstGteFreeBlock(blockSize);
      var i := startIndex;
      while i < freeBlocks.count && blockSize == GetBlockSize(freeBlocks.items[i])
        invariant startIndex <= i <= freeBlocks.count && Valid() && State() == m
        invariant M.ScanFor(m, a, i) == M.ScanFor(m, a, startIndex)
      {
        if a == freeBlocks.items[i] {
          r := freeBlocks.Remove(i);
          return;
        }
        i := i + 1;
      }
      return Failure(IndexOutOfRange);
    }

    // The two statement groups inside malloc and free, as methods of their own.
    method Split(a: int, padded: int)
      requires Valid()
      modifies this`mem, freeBlocks`count, freeBlocks.items
      ensures Valid() && State() == M.Split(old(State()), a, padded, linksBack)
    {
      var rest := a + M.HEADER + padded;
      var next := M.NextOf(mem, a);
      mem := mem[rest := a][rest + 4 := next][rest + 8 := 0];
      mem := mem[a + 4 := rest];
      if linksBack && next != 0 {
        mem := mem[next := rest];
      }
      AddFreeBlock(rest);
    }

    method Malloc(size: int) returns (r: ErrorOr<int>)
      requires Valid()
      modifies this`mem, freeBlocks`count, freeBlocks.items
      ensures Valid() && (State(), r) == M.Malloc(old(State()), size, linksBack)
      ensures size == 0 ==> r == Failure(InvalidArgument) && State() == old(State())
      ensures size != 0 && old(baseNode) == 0 ==> r == Failure(Uninitialized) && State() == old(State())
    {
      hide M.AddFreeBlock, M.Sizes, M.Split, M.GetBlockSize, SmallestGteMultiple, FindFirstGte;
      if size == 0 {
        return Failure(InvalidArgument);
      }
      if baseNode == 0 {
        return Failure(Uninitialized);
      }
      ghost var m := State();
      var padded := SmallestGteMultiple(size, 4);
      var k := FindFirstGteFreeBlock(padded);
      if k >= freeBlocks.count {
        return Failure(NoFreeBlocks);
      }
      var a := freeBlocks.items[k];
      var removed := freeBlocks.Remove(k);
      mem := mem[a + 8 := 1];
      ghost var m1 := State();
      assert m1 == m.(free := RemoveAt(m.free, k), mem := m.mem[a + 8 := 1]);
      if (GetBlockSize(a) - padded) % U32 > M.HEADER {
        Split(a, padded);
        assert State() == M.Split(m1, a, padded, linksBack);
      }
      return Value(a + M.HEADER);
    }

    method MergeNext(node: int) returns (r: ErrorOr<()>)
      requires Valid()
      modifies this`mem, freeBlocks`count, freeBlocks.items
      ensures Valid() && (State(), r) == M.MergeNext(old(State()), node)
    {
      var next := M.NextOf(mem, node);
      if next != 0 && !M.UsedOf(mem, next) {
        r := RemoveFreeBlock(next);
        if r.Failure? {
          return;
        }
        mem := mem[node + 4 := M.NextOf(mem, M.NextOf(mem, node))];
        if M.NextOf(mem, node) != 0 {
          mem := mem[M.NextOf(mem, node) := node];
        }
      }
      return Value(());
    }

    method MergePrev(node: int) returns (r: ErrorOr<int>)
      requires Valid()
      modifies this`mem, freeBlocks`count, freeBlocks.items
      ensures Valid() && (State(), r) == M.MergePrev(old(State()), node)
    {
      var prev := M.PrevOf(mem, node);
      if prev != 0 && !M.UsedOf(mem, prev) {
        var removed := RemoveFreeBlock(prev);
        if removed.Failure? {
          return Failure(removed.error);
        }
        mem := mem[prev + 4 := M.NextOf(mem, node)];
        if M.NextOf(mem, node) != 0 {
          mem := mem[M.NextOf(mem, node) := M.PrevOf(mem, node)];
        }
        return Value(M.PrevOf(mem, node));
      }
      return Value(node);
    }

    method Free(payload: int) returns (r: ErrorOr<()>)
      requires Valid()
      modifies this`mem, freeBlocks`count, freeBlocks.items
      ensures Valid() && (State(), r) == M.Free(old(State()), payload)
      ensures payload == 0 ==> r == Value(()) && State() == old(State())
    {
      hide M.MergeNext, M.MergePrev, M.AddFreeBlock;
      if payload == 0 {
        return Value(());
      }
      ghost var m := State();
      var node := payload - M.HEADER;
      if !M.UsedOf(mem, node) {
        return Failure(InvalidArgument);
      }
      mem := mem[node + 8 := 0];
      ghost var m0 := State();
      assert m0 == m.(mem := m.mem[node + 8 := 0]);
      r := MergeNext(node);
      ghost var m1 := State();
      assert (m1, r) == M.MergeNext(m0, node);
      if r.Failure? {
        return;
      }
      var merged := MergePrev(node);
      ghost var m2 := State();
      assert (m2, merged) == M.MergePrev(m1, node);
      if merged.Failure? {
        return Failure(merged.error);
      }
      AddFreeBlock(merged.value);
      assert State() == M.AddFreeBlock(m2, merged.value);
      return Value(());
    }
  }
}
