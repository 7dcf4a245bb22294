// The result type and the sequence edits shared by all components.

module Common {
  const U32 := 0x1_0000_0000

  // The error codes of src/kernel/error.hpp that the modelled code returns.
  datatype Error =
    | InvalidArgument
    | IndexOutOfRange
    | TimedOut
    | Uninitialized
    | NoFreeBlocks
    | FailedToFindMemoryRegion
    | ContainerIsFull
    | ContainerIsEmpty

  datatype ErrorOr<+T> = Value(value: T) | Failure(error: Error)

  function RemoveAt<T>(s: seq<T>, k: nat): seq<T>
    requires k < |s|
  {
    s[..k] + s[k + 1..]
  }

  function InsertAt<T>(s: seq<T>, k: nat, x: T): seq<T>
    requires k <= |s|
  {
    s[..k] + [x] + s[k..]
  }

  // Rounds up to a multiple, in unsigned 32-bit arithmetic.
  function SmallestGteMultiple(value: int, multiple: int): int
    requires 0 < multiple
  {
    if value % multiple == 0 then value
    else (value + (multiple - value % multiple)) % U32
  }

  lemma SmallestGteMultipleIsLeast(value: int)
    requires 0 <= value <= U32 - 4
    ensures var r := SmallestGteMultiple(value, 4);
            r % 4 == 0 && value <= r < value + 4 && r <= U32 - 4
  {
  }
}
