// The kernel heap at the level of memory words
// (src/kernel/memory-manager/manager.cpp).
//
// Memory is a map from the byte address of a 32-bit word to its value; a word
// never written reads as 0.  A BlockHeader at address a occupies the words
// a (prev), a + 4 (next) and a + 8 (used), and address 0 is the null pointer.
// The functions below follow the C++ statement by statement and are defined
// for every memory, including one whose links are broken.

module HeapMachine {
  import opened Common
  import opened FreeIndex

  const HEADER := 12
  const CAPACITY := 2048

  datatype Machine = Machine(mem: map<int, int>, free: seq<int>, base: int, end: int)

  function Word(mem: map<int, int>, a: int): int {
    if a in mem then mem[a] else 0
  }

  function PrevOf(mem: map<int, int>, a: int): int { Word(mem, a) }

  function NextOf(mem: map<int, int>, a: int): int { Word(mem, a + 4) }

  predicate UsedOf(mem: map<int, int>, a: int) { Word(mem, a + 8) != 0 }

  function GetBlockSize(m: Machine, a: int): int {
    if a == 0 then 0
    else
      var endAddress := if NextOf(m.mem, a) == 0 then m.end else NextOf(m.mem, a);
      (endAddress - a - HEADER) % U32
  }

  function Sizes(m: Machine): seq<int> {
    seq(|m.free|, i requires 0 <= i < |m.free| => GetBlockSize(m, m.free[i]))
  }

  // A full vector refuses the block, and the refusal is ignored.
  function AddFreeBlock(m: Machine, a: int): Machine {
    if |m.free| < CAPACITY then
      m.(free := InsertAt(m.free, FindFirstGte(Sizes(m), GetBlockSize(m, a)), a))
    else m
  }

  // The position of a among the entries of its size from i on; |free| if none.
  function ScanFor(m: Machine, a: int, i: nat): (r: nat)
    requires i <= |m.free|
    ensures i <= r <= |m.free|
    ensures r < |m.free| ==> m.free[r] == a
    decreases |m.free| - i
  {
    if i == |m.free| || GetBlockSize(m, a) != GetBlockSize(m, m.free[i]) then |m.free|
    else if a == m.free[i] then i
    else ScanFor(m, a, i + 1)
  }

  function RemoveFreeBlock(m: Machine, a: int): (Machine, ErrorOr<()>) {
    var i := ScanFor(m, a, FindFirstGte(Sizes(m), GetBlockSize(m, a)));
    if i < |m.free| then (m.(free := RemoveAt(m.free, i)), Value(()))
    else (m, Failure(IndexOutOfRange))
  }

  // The split of a block that is too large.  The code as written is
  // linksBack == false; linksBack == true adds the store of the following
  // block's prev link that the code lacks.
  function Split(m: Machine, a: int, padded: int, linksBack: bool): Machine {
    var rest := a + HEADER + padded;
    var next := NextOf(m.mem, a);
    var mem := m.mem[rest := a][rest + 4 := next][rest + 8 := 0][a + 4 := rest];
    var mem' := if linksBack && next != 0 then mem[next := rest] else mem;
    AddFreeBlock(m.(mem := mem'), rest)
  }

  function Malloc(m: Machine, size: int, linksBack: bool): (Machine, ErrorOr<int>) {
    if size == 0 then (m, Failure(InvalidArgument))
    else if m.base == 0 then (m, Failure(Uninitialized))
    else
      var padded := SmallestGteMultiple(size, 4);
      var k := FindFirstGte(Sizes(m), padded);
      if k >= |m.free| then (m, Failure(NoFreeBlocks))
      else
        var a := m.free[k];
        var m1 := m.(free := RemoveAt(m.free, k), mem := m.mem[a + 8 := 1]);
        var m2 := if (GetBlockSize(m1, a) - padded) % U32 > HEADER then Split(m1, a, padded, linksBack) else m1;
        (m2, Value(a + HEADER))
  }

  function MergeNext(m: Machine, a: int): (Machine, ErrorOr<()>) {
    var next := NextOf(m.mem, a);
    if next != 0 && !UsedOf(m.mem, next) then
      var (m1, r) := RemoveFreeBlock(m, next);
      if r.Failure? then (m1, r)
      else
        var mem := m1.mem[a + 4 := NextOf(m1.mem, next)];
        (m1.(mem := if NextOf(mem, a) != 0 then mem[NextOf(mem, a) := a] else mem), r)
    else (m, Value(()))
  }

  // Returns the block that now holds the freed memory.
  function MergePrev(m: Machine, a: int): (Machine, ErrorOr<int>) {
    var prev := PrevOf(m.mem, a);
    if prev != 0 && !UsedOf(m.mem, prev) then
      var (m1, r) := RemoveFreeBlock(m, prev);
      if r.Failure? then (m1, Failure(r.error))
      else
        var mem := m1.mem[prev + 4 := NextOf(m1.mem, a)];
        var mem' := if NextOf(mem, a) != 0 then mem[NextOf(mem, a) := PrevOf(mem, a)] else mem;
        (m1.(mem := mem'), Value(PrevOf(mem', a)))
    else (m, Value(a))
  }

  function Free(m: Machine, payload: int): (Machine, ErrorOr<()>) {
    if payload == 0 then (m, Value(()))
    else
      var a := payload - HEADER;
      if !UsedOf(m.mem, a) then (m, Failure(InvalidArgument))
      else
        var (m1, r1) := MergeNext(m.(mem := m.mem[a + 8 := 0]), a);
        if r1.Failure? then (m1, r1)
        else
          var (m2, r2) := MergePrev(m1, a);
          if r2.Failure? then (m2, Failure(r2.error))
          else (AddFreeBlock(m2, r2.value), Value(()))
  }

  // The state that initialize() leaves: one unused block.
  function Initialized(mem: map<int, int>, base: int, end: int): Machine {
    Machine(mem[base := 0][base + 4 := 0][base + 8 := 0], [base], base, end)
  }
}
