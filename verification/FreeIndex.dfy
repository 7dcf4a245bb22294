// The bisection used by the free index
// (src/kernel/memory-manager/manager.cpp, find_first_gte_free_block), and the
// linear scan it stands for.

module FreeIndex {
  ghost predicate Sorted(s: seq<int>) {
    forall i, j :: 0 <= i < j < |s| ==> s[i] <= s[j]
  }

  function Bisect(sizes: seq<int>, key: int, start: nat, end: nat): (r: nat)
    requires start < end <= |sizes|
    ensures start < r <= end
    decreases end - start
  {
    var midpoint := (start + end) / 2;
    if start == midpoint then end
    else if key > sizes[midpoint] then Bisect(sizes, key, midpoint, end)
    else Bisect(sizes, key, start, midpoint)
  }

  function FindFirstGte(sizes: seq<int>, key: int): (r: nat)
    ensures r <= |sizes|
  {
    if |sizes| == 0 || key <= sizes[0] then 0 else Bisect(sizes, key, 0, |sizes|)
  }

  function LinearScan(sizes: seq<int>, key: int): (r: nat)
    ensures r <= |sizes|
    ensures forall i :: 0 <= i < r ==> sizes[i] < key
    ensures r < |sizes| ==> key <= sizes[r]
  {
    if sizes == [] || key <= sizes[0] then 0 else 1 + LinearScan(sizes[1..], key)
  }

  lemma {:induction false} BisectIsLowerBound(sizes: seq<int>, key: int, start: nat, end: nat)
    requires Sorted(sizes)
    requires start < end <= |sizes|
    requires sizes[start] < key
    requires end < |sizes| ==> key <= sizes[end]
    ensures var r := Bisect(sizes, key, start, end);
            sizes[r - 1] < key && (r < |sizes| ==> key <= sizes[r])
    decreases end - start
  {
    var midpoint := (start + end) / 2;
    if start != midpoint {
      if key > sizes[midpoint] {
        BisectIsLowerBound(sizes, key, midpoint, end);
      } else {
        BisectIsLowerBound(sizes, key, start, midpoint);
      }
    }
  }

  // On a sorted vector the search splits the sizes exactly at the key.
  lemma FindFirstGteIsLowerBound(sizes: seq<int>, key: int)
    requires Sorted(sizes)
    ensures var r := FindFirstGte(sizes, key);
            && (forall i :: 0 <= i < r ==> sizes[i] < key)
            && (forall i :: r <= i < |sizes| ==> key <= sizes[i])
  {
    if |sizes| != 0 && sizes[0] < key {
      BisectIsLowerBound(sizes, key, 0, |sizes|);
    }
  }

  lemma FindFirstGteIsLinearScan(sizes: seq<int>, key: int)
    requires Sorted(sizes)
    ensures FindFirstGte(sizes, key) == LinearScan(sizes, key)
  {
    FindFirstGteIsLowerBound(sizes, key);
    var r, q := FindFirstGte(sizes, key), LinearScan(sizes, key);
    assert r < |sizes| ==> !(sizes[r] < key);
    assert q < |sizes| ==> !(sizes[q] < key);
  }
}
