// The ring buffer of src/kernel/data/queue.hpp: SIZE + 1 slots, of which one is
// always free.

module RingBuffer {
  import opened Common

  // The slot after pos in a ring of n slots.
  function NextPosition(pos: nat, n: nat): (r: nat)
    requires pos < n
    ensures r < n && r == (if pos + 1 == n then 0 else pos + 1)
  {
    (pos + 1) % n
  }

  // The slot i places after start.
  function Slot(start: nat, i: nat, n: nat): (r: nat)
    requires start < n && i <= n
    ensures r < n
  {
    if start + i < n then start + i else start + i - n
  }

  function Length(start: nat, end: nat, n: nat): (r: nat)
    requires start < n && end < n
    ensures r < n && Slot(start, r, n) == end
  {
    if start <= end then end - start else end + n - start
  }

  // The elements from start up to, not including, end.
  function Contents<T>(data: seq<T>, start: nat, end: nat): (r: seq<T>)
    requires start < |data| && end < |data|
    ensures |r| == Length(start, end, |data|)
  {
    seq(Length(start, end, |data|), i requires 0 <= i < Length(start, end, |data|) => data[Slot(start, i, |data|)])
  }

  predicate IsFull(start: nat, end: nat, n: nat)
    requires start < n && end < n
  {
    NextPosition(end, n) == start
  }

  class Queue<T(0)> {
    const data: array<T>
    var startIndex: nat
    var endIndex: nat

    ghost predicate Valid()
      reads this
    {
      0 < data.Length && startIndex < data.Length && endIndex < data.Length
    }

    ghost function Elements(): seq<T>
      reads this, data
      requires Valid()
    {
      Contents(data[..], startIndex, endIndex)
    }

    function Capacity(): int { data.Length - 1 }

    constructor (size: nat)
      ensures Valid() && Elements() == [] && Capacity() == size && fresh(data)
    {
      data := new T[size + 1];
      startIndex, endIndex := 0, 0;
    }

    method PushBack(x: T) returns (r: ErrorOr<()>)
      requires Valid()
      modifies this`endIndex, data
      ensures Valid()
      ensures r == if |old(Elements())| == Capacity() then Failure(ContainerIsFull) else Value(())
      ensures Elements() == old(Elements()) + if r.Value? then [x] else []
    {
      if NextPosition(endIndex, data.Length) == startIndex {
        return Failure(ContainerIsFull);
      }
      data[endIndex] := x;
      assert data[..] == old(data[..])[endIndex := x];
      endIndex := NextPosition(endIndex, data.Length);
      return Value(());
    }

    method PopFront() returns (r: ErrorOr<T>)
      requires Valid()
      modifies this`startIndex
      ensures Valid()
      ensures if old(Elements()) == [] then r == Failure(ContainerIsEmpty) && Elements() == []
              else r == Value(old(Elements())[0]) && Elements() == old(Elements())[1..]
    {
      if endIndex == startIndex {
        return Failure(ContainerIsEmpty);
      }
      var result := data[startIndex];
      startIndex := NextPosition(startIndex, data.Length);
      return Value(result);
    }

    // size() as written is the length exactly when the contents do not wrap.
    method Size() returns (r: int)
      requires Valid()
      ensures r == |Elements()| <==> startIndex <= endIndex
      ensures endIndex < startIndex ==> r == |Elements()| - 1
    {
      if endIndex < startIndex {
        r := endIndex + Capacity() - startIndex;
      } else {
        r := endIndex - startIndex;
      }
    }
  }
}
