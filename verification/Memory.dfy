// Byte copies within one memory (src/kernel/common.cpp, and memcpy of
// src/bootloader/bootloader.asm).  Addresses are indices into the memory.

module Memory {

  // The effect of copying count bytes one by one from the lowest address up.
  function ForwardCopy(m: seq<int>, dest: nat, src: nat, count: nat): (r: seq<int>)
    requires dest + count <= |m| && src + count <= |m|
    ensures |r| == |m|
    decreases count
  {
    if count == 0 then m
    else
      var r := ForwardCopy(m, dest, src, count - 1);
      r[dest + count - 1 := r[src + count - 1]]
  }

  // m with the range at dest replaced by what the range at src held.
  function Moved(m: seq<int>, dest: nat, src: nat, count: nat): (r: seq<int>)
    requires dest + count <= |m| && src + count <= |m|
    ensures |r| == |m|
  {
    m[..dest] + m[src..src + count] + m[dest + count..]
  }

  lemma MovedAt(m: seq<int>, dest: nat, src: nat, count: nat, a: nat)
    requires dest + count <= |m| && src + count <= |m| && a < |m|
    ensures Moved(m, dest, src, count)[a] == if dest <= a < dest + count then m[src + (a - dest)] else m[a]
  {
  }

  // Moving one more byte, behind the range or in front of it.
  lemma MovedOneMore(m: seq<int>, dest: nat, src: nat, count: nat)
    requires dest + count < |m| && src + count < |m|
    ensures Moved(m, dest, src, count)[dest + count := m[src + count]] == Moved(m, dest, src, count + 1)
  {
    hide Moved;
    var l, r := Moved(m, dest, src, count)[dest + count := m[src + count]], Moved(m, dest, src, count + 1);
    forall a | 0 <= a < |m|
      ensures l[a] == r[a]
    {
      MovedAt(m, dest, src, count, a);
      MovedAt(m, dest, src, count + 1, a);
    }
  }

  lemma MovedOneBefore(m: seq<int>, dest: nat, src: nat, count: nat)
    requires 0 < dest && 0 < src && dest + count <= |m| && src + count <= |m|
    ensures Moved(m, dest, src, count)[dest - 1 := m[src - 1]] == Moved(m, dest - 1, src - 1, count + 1)
  {
    hide Moved;
    var l, r := Moved(m, dest, src, count)[dest - 1 := m[src - 1]], Moved(m, dest - 1, src - 1, count + 1);
    forall a | 0 <= a < |m|
      ensures l[a] == r[a]
    {
      MovedAt(m, dest, src, count, a);
      MovedAt(m, dest - 1, src - 1, count + 1, a);
    }
  }

  // A forward copy is a move whenever no source byte is overwritten before it
  // is read.
  lemma {:induction false} ForwardCopyMoves(m: seq<int>, dest: nat, src: nat, count: nat)
    requires dest + count <= |m| && src + count <= |m|
    requires dest <= src || src + count <= dest
    ensures ForwardCopy(m, dest, src, count) == Moved(m, dest, src, count)
    decreases count
  {
    hide Moved;
    if count == 0 {
      NothingMoved(m, dest, src);
    } else {
      ForwardCopyMoves(m, dest, src, count - 1);
      MovedAt(m, dest, src, count - 1, src + count - 1);
      MovedOneMore(m, dest, src, count - 1);
    }
  }

  lemma NothingMoved(m: seq<int>, dest: nat, src: nat)
    requires dest <= |m| && src <= |m|
    ensures Moved(m, dest, src, 0) == m
  {
  }

  method MemCpy(mem: array<int>, dest: nat, src: nat, count: nat)
    requires dest + count <= mem.Length && src + count <= mem.Length
    modifies mem
    ensures mem[..] == ForwardCopy(old(mem[..]), dest, src, count)
  {
    for i := 0 to count
      invariant mem[..] == ForwardCopy(old(mem[..]), dest, src, i)
    {
      mem[dest + i] := mem[src + i];
    }
  }

  method CopyBackward(mem: array<int>, dest: nat, src: nat, count: nat)
    requires src < dest && dest + count <= mem.Length
    modifies mem
    ensures mem[..] == Moved(old(mem[..]), dest, src, count)
  {
    hide Moved;
    ghost var m := mem[..];
    NothingMoved(m, dest + count, src + count);
    for i := 0 to count
      invariant mem[..] == Moved(m, dest + count - i, src + count - i, i)
    {
      var offset := count - 1 - i;
      MovedAt(m, dest + offset + 1, src + offset + 1, i, src + offset);
      MovedOneBefore(m, dest + offset + 1, src + offset + 1, i);
      assert mem[src + offset] == mem[..][src + offset];
      mem[dest + offset] := mem[src + offset];
    }
  }

  // The ranges may overlap in any way.
  method MemMove(mem: array<int>, dest: nat, src: nat, count: nat)
    requires dest + count <= mem.Length && src + count <= mem.Length
    modifies mem
    ensures mem[..] == Moved(old(mem[..]), dest, src, count)
  {
    if dest < src {
      MemCpy(mem, dest, src, count);
      ForwardCopyMoves(old(mem[..]), dest, src, count);
    } else if dest > src {
      CopyBackward(mem, dest, src, count);
    }
  }
}
