// Fixed-capacity vector (src/kernel/data/fc_vector.hpp).

module FcVector {
  import opened Common

  class FCVector<T(0)> {
    const items: array<T>
    var count: nat

    ghost predicate Valid()
      reads this
    {
      count <= items.Length
    }

    ghost function Contents(): seq<T>
      reads this, items
      requires Valid()
    {
      items[..count]
    }

    function Capacity(): nat { items.Length }

    constructor (capacity: nat)
      ensures Valid() && fresh(items) && Capacity() == capacity && Contents() == []
    {
      items := new T[capacity];
      count := 0;
    }

    // The shifting loop of Insert; the slot at index keeps its old value.
    method ShiftUp(index: nat)
      requires index < count < items.Length
      modifies items
      ensures items[..index] == old(items[..index])
      ensures items[index + 1..count + 1] == old(items[index..count])
    {
      var i := count - 1;
      while i > index
        invariant index <= i < count
        invariant forall j :: 0 <= j <= i ==> items[j] == old(items[j])
        invariant forall j :: i + 1 < j <= count ==> items[j] == old(items[j - 1])
      {
        items[i + 1] := items[i];
        i := i - 1;
      }
      items[index + 1] := items[index];
    }

    method Insert(index: nat, value: T) returns (r: ErrorOr<()>)
      requires Valid()
      modifies this`count, items
      ensures Valid()
      ensures r == if index > |old(Contents())| then Failure(IndexOutOfRange)
                   else if |old(Contents())| >= Capacity() then Failure(ContainerIsFull)
                   else Value(())
      ensures Contents() == if r.Value? then InsertAt(old(Contents()), index, value) else old(Contents())
    {
      if index > count {
        return Failure(IndexOutOfRange);
      }
      if count >= items.Length {
        return Failure(ContainerIsFull);
      }
      ghost var s := items[..count];
      if index < count {
        ShiftUp(index);
      }
      items[index] := value;
      count := count + 1;
      return Value(());
    }

    // The loop also copies the slot one past the last element.  When the
    // vector is full that slot lies outside the array, so an arbitrary value
    // is read; the result does not depend on it.
    method Remove(index: nat) returns (r: ErrorOr<()>)
      requires Valid()
      modifies this`count, items
      ensures Valid()
      ensures r == if index >= |old(Contents())| then Failure(IndexOutOfRange) else Value(())
      ensures Contents() == if r.Value? then RemoveAt(old(Contents()), index) else old(Contents())
    {
      if index >= count {
        return Failure(IndexOutOfRange);
      }
      ghost var s := items[..count];
      var i := index;
      while i < count
        modifies items
        invariant index <= i <= count
        invariant items[..index] == s[..index]
        invariant forall j :: index <= j < i && j + 1 < count ==> items[j] == s[j + 1]
        invariant items[i..count] == s[i..]
      {
        var successor: T := *;
        if i + 1 < items.Length {
          successor := items[i + 1];
        }
        items[i] := successor;
        i := i + 1;
      }
      count := count - 1;
      return Value(());
    }

    method PushBack(value: T) returns (r: ErrorOr<()>)
      requires Valid()
      modifies this`count, items
      ensures Valid()
      ensures r == if |old(Contents())| >= Capacity() then Failure(ContainerIsFull) else Value(())
      ensures Contents() == old(Contents()) + if r.Value? then [value] else []
    {
      r := Insert(count, value);
    }

    // On an empty vector the index wraps to the largest 32-bit value.
    method PopBack() returns (r: ErrorOr<()>)
      requires Valid()
      requires Capacity() < U32
      modifies this`count, items
      ensures Valid()
      ensures r == if old(Contents()) == [] then Failure(IndexOutOfRange) else Value(())
      ensures old(Contents()) == Contents() + if r.Value? then [old(Contents())[old(count) - 1]] else []
    {
      r := Remove((count - 1) % U32);
    }
  }
}
