// The bootloader's ELF loader (src/bootloader/bootloader.asm,
// load_elf_program_table_entry and load_kernel_elf), over one byte memory.
// Header layout: System V ABI, chapters 4 and 5.

module ElfLoader {
  import opened Memory

  // The little-endian 32-bit word at a.
  function Word(m: seq<int>, a: nat): int
    requires a + 4 <= |m|
  {
    m[a] + 0x100 * m[a + 1] + 0x1_0000 * m[a + 2] + 0x100_0000 * m[a + 3]
  }

  ghost predicate IsMemory(m: seq<int>) {
    forall a :: 0 <= a < |m| ==> 0 <= m[a] < 256
  }

  const PT_LOAD := 1
  const ENTRY_SIZE := 32

  // A program header: type, file offset, address, size in the file and in memory.
  datatype Segment = Segment(kind: int, offset: int, vaddr: int, filesz: int, memsz: int)

  function SegmentAt(m: seq<int>, ph: nat): Segment
    requires ph + ENTRY_SIZE <= |m|
  {
    Segment(Word(m, ph), Word(m, ph + 4), Word(m, ph + 8), Word(m, ph + 16), Word(m, ph + 20))
  }

  // Everything the entry makes the loader touch lies in memory.
  predicate Fits(s: Segment, size: nat, elf: nat) {
    s.kind == PT_LOAD ==>
      && 0 <= s.vaddr && 0 <= s.offset && 0 <= s.filesz && 0 <= s.memsz
      && s.vaddr + s.memsz <= size && s.vaddr + s.filesz <= size && elf + s.offset + s.filesz <= size
  }

  function Zeroed(m: seq<int>, a: nat, count: nat): (r: seq<int>)
    requires a + count <= |m|
    ensures |r| == |m|
  {
    m[..a] + seq(count, _ => 0) + m[a + count..]
  }

  lemma ZeroedSteps(m: seq<int>)
    ensures forall a: nat | a <= |m| :: Zeroed(m, a, 0) == m
    ensures forall a: nat, count: nat | a + count < |m| :: Zeroed(m, a, count)[a + count := 0] == Zeroed(m, a, count + 1)
  {
  }

  // Zero the whole range, then copy the file bytes over its start.
  function Loaded(m: seq<int>, elf: nat, s: Segment): (r: seq<int>)
    requires Fits(s, |m|, elf)
    ensures |r| == |m|
  {
    if s.kind != PT_LOAD then m
    else ForwardCopy(Zeroed(m, s.vaddr, s.memsz), s.vaddr, elf + s.offset, s.filesz)
  }

  method LoadEntry(mem: array<int>, elf: nat, ph: nat)
    requires ph + ENTRY_SIZE <= mem.Length && Fits(SegmentAt(mem[..], ph), mem.Length, elf)
    modifies mem
    ensures mem[..] == Loaded(old(mem[..]), elf, SegmentAt(old(mem[..]), ph))
  {
    hide SegmentAt, ForwardCopy, Zeroed;
    ZeroedSteps(mem[..]);
    var s := SegmentAt(mem[..], ph);
    if s.kind != PT_LOAD {
      return;
    }
    var count, a := s.memsz, s.vaddr;
    while count != 0
      invariant 0 <= count <= s.memsz && a == s.vaddr + s.memsz - count
      invariant mem[..] == Zeroed(old(mem[..]), s.vaddr, s.memsz - count)
      decreases count
    {
      mem[a] := 0;
      count := count - 1;
      a := a + 1;
    }
    MemCpy(mem, s.vaddr, elf + s.offset, s.filesz);
  }

  // ----- One segment -----

  // The byte at a that the loader leaves there on account of this segment.
  predicate Covers(s: Segment, a: int) {
    s.kind == PT_LOAD && s.vaddr <= a < s.vaddr + s.memsz
  }

  lemma SegmentEffect(m: seq<int>, elf: nat, s: Segment, a: nat)
    requires Fits(s, |m|, elf) && (s.kind == PT_LOAD ==> s.filesz <= s.memsz) && a < |m|
    requires s.kind == PT_LOAD ==> elf + s.offset + s.filesz <= s.vaddr || s.vaddr + s.memsz <= elf + s.offset
    ensures Loaded(m, elf, s)[a] == if !Covers(s, a) then m[a]
                                    else if a - s.vaddr < s.filesz then m[elf + s.offset + (a - s.vaddr)] else 0
  {
    if s.kind == PT_LOAD {
      ForwardCopyMoves(Zeroed(m, s.vaddr, s.memsz), s.vaddr, elf + s.offset, s.filesz);
    }
  }

  // ----- The whole table -----

  datatype Image = Image(elf: nat, table: nat, entrySize: nat, count: nat)

  function EntryAddr(im: Image, i: nat): nat {
    if i == 0 then im.table else EntryAddr(im, i - 1) + im.entrySize
  }

  // The file occupies len bytes from im.elf on and holds the program header table
  // and the contents of every segment; segments are loaded outside the file.
  ghost predicate WellPlaced(m: seq<int>, im: Image, len: nat) {
    && im.elf + len <= |m|
    && forall i :: 0 <= i < im.count ==> EntryPlaced(m, im, len, i)
  }

  ghost predicate EntryPlaced(m: seq<int>, im: Image, len: nat, i: nat) {
    var ph := EntryAddr(im, i);
    && im.elf <= ph && ph + ENTRY_SIZE <= im.elf + len <= |m|
    && var s := SegmentAt(m, ph);
       && Fits(s, |m|, im.elf)
       && (s.kind == PT_LOAD ==>
            && s.filesz <= s.memsz && s.offset + s.filesz <= len
            && (s.vaddr + s.memsz <= im.elf || im.elf + len <= s.vaddr))
  }

  function Segments(m: seq<int>, im: Image, i: nat): (s: Segment)
    requires EntryAddr(im, i) + ENTRY_SIZE <= |m|
  {
    SegmentAt(m, EntryAddr(im, i))
  }

  // The byte at a after the first i entries: the last segment that covers it
  // decides.
  ghost function ByteAfter(m: seq<int>, im: Image, len: nat, i: nat, a: nat): int
    requires WellPlaced(m, im, len) && i <= im.count && a < |m|
  {
    if i == 0 then m[a]
    else
      assert EntryPlaced(m, im, len, i - 1);
      var s := Segments(m, im, i - 1);
      if Covers(s, a) then (if a - s.vaddr < s.filesz then m[im.elf + s.offset + (a - s.vaddr)] else 0)
      else ByteAfter(m, im, len, i - 1, a)
  }

  ghost predicate LoadedUpTo(m: seq<int>, im: Image, len: nat, i: nat, r: seq<int>)
    requires WellPlaced(m, im, len) && i <= im.count
  {
    |r| == |m| && forall a :: 0 <= a < |m| ==> r[a] == ByteAfter(m, im, len, i, a)
  }

  lemma {:induction false} FileUntouched(m: seq<int>, im: Image, len: nat, i: nat, a: nat)
    requires WellPlaced(m, im, len) && i <= im.count && im.elf <= a < im.elf + len
    ensures ByteAfter(m, im, len, i, a) == m[a]
  {
    if i != 0 {
      assert EntryPlaced(m, im, len, i - 1);
      FileUntouched(m, im, len, i - 1, a);
    }
  }

  // A program header is the same wherever its bytes are.
  lemma SameHeader(m: seq<int>, r: seq<int>, ph: nat)
    requires |r| == |m| && ph + ENTRY_SIZE <= |m| && forall a :: ph <= a < ph + ENTRY_SIZE ==> r[a] == m[a]
    ensures SegmentAt(r, ph) == SegmentAt(m, ph)
  {
  }

  lemma HeaderUntouched(m: seq<int>, im: Image, len: nat, i: nat, r: seq<int>)
    requires WellPlaced(m, im, len) && i < im.count && LoadedUpTo(m, im, len, i, r)
    ensures EntryPlaced(m, im, len, i) && SegmentAt(r, EntryAddr(im, i)) == Segments(m, im, i)
  {
    hide SegmentAt, Fits;
    assert EntryPlaced(m, im, len, i);
    var ph := EntryAddr(im, i);
    forall a | ph <= a < ph + ENTRY_SIZE
      ensures r[a] == m[a]
    {
      FileUntouched(m, im, len, i, a);
    }
    SameHeader(m, r, ph);
  }

  lemma ByteLoaded(m: seq<int>, im: Image, len: nat, i: nat, r: seq<int>, a: nat)
    requires WellPlaced(m, im, len) && i < im.count && LoadedUpTo(m, im, len, i, r) && a < |m|
    ensures EntryPlaced(m, im, len, i)
    ensures Loaded(r, im.elf, Segments(m, im, i))[a] == ByteAfter(m, im, len, i + 1, a)
  {
    hide SegmentAt, Loaded;
    assert EntryPlaced(m, im, len, i);
    var s := Segments(m, im, i);
    SegmentEffect(r, im.elf, s, a);
    if Covers(s, a) && a - s.vaddr < s.filesz {
      FileUntouched(m, im, len, i, im.elf + s.offset + (a - s.vaddr));
    }
  }

  // Memory after the first i entries, each read when its turn comes.
  function LoadedEntries(m: seq<int>, im: Image, i: nat): (r: seq<int>)
    requires EntriesFit(m, im, i)
    ensures |r| == |m|
    decreases i, 1
  {
    if i == 0 then m
    else
      var r := LoadedEntries(m, im, i - 1);
      Loaded(r, im.elf, SegmentAt(r, EntryAddr(im, i - 1)))
  }

  // Everything the first i entries make the loader touch lies in memory.
  predicate EntriesFit(m: seq<int>, im: Image, i: nat)
    decreases i, 0
  {
    i == 0 ||
    (EntriesFit(m, im, i - 1) &&
     var r, ph := LoadedEntries(m, im, i - 1), EntryAddr(im, i - 1);
     ph + ENTRY_SIZE <= |m| && Fits(SegmentAt(r, ph), |m|, im.elf))
  }

  // When the file holds the table and no segment is loaded over the file, every
  // byte of memory is the one that the table in the file asks for.
  lemma {:induction false} LoadedAsAsked(m: seq<int>, im: Image, len: nat, i: nat)
    requires WellPlaced(m, im, len) && i <= im.count
    ensures EntriesFit(m, im, i) && LoadedUpTo(m, im, len, i, LoadedEntries(m, im, i))
  {
    hide SegmentAt, Loaded, ByteAfter, WellPlaced;
    if i == 0 {
      NothingLoaded(m, im, len);
    } else {
      LoadedAsAsked(m, im, len, i - 1);
      var r := LoadedEntries(m, im, i - 1);
      HeaderUntouched(m, im, len, i - 1, r);
      forall a | 0 <= a < |m|
        ensures LoadedEntries(m, im, i)[a] == ByteAfter(m, im, len, i, a)
      {
        ByteLoaded(m, im, len, i - 1, r, a);
      }
    }
  }

  lemma NothingLoaded(m: seq<int>, im: Image, len: nat)
    requires WellPlaced(m, im, len)
    ensures LoadedUpTo(m, im, len, 0, m)
  {
  }

  // ----- load_kernel_elf -----

  predicate HeaderOk(m: seq<int>, elf: nat)
    requires elf + 52 <= |m|
  {
    && Word(m, elf) == 0x464C457F
    && Word(m, elf + 4) == 0x00010101
    && Word(m, elf + 16) == 0x00030002
    && Word(m, elf + 20) == 0x00000001
  }

  function ImageAt(m: seq<int>, elf: nat): Image
    requires elf + 52 <= |m| && 0 <= Word(m, elf + 28) && 0 <= Word(m, elf + 40)
  {
    Image(elf, elf + Word(m, elf + 28), Word(m, elf + 40) / 0x1_0000, Word(m, elf + 44) % 0x1_0000)
  }

  function EntryPoint(m: seq<int>, elf: nat): int
    requires elf + 52 <= |m|
  {
    Word(m, elf + 24)
  }

  datatype Outcome = Rejected | Entry(address: int)

  // A file with a wrong header changes nothing.
  method LoadKernelElf(mem: array<int>, elf: nat) returns (r: Outcome)
    requires IsMemory(mem[..]) && elf + 52 <= mem.Length
    requires HeaderOk(mem[..], elf) ==> EntriesFit(mem[..], ImageAt(mem[..], elf), ImageAt(mem[..], elf).count)
    modifies mem
    ensures !old(HeaderOk(mem[..], elf)) ==> r == Rejected && mem[..] == old(mem[..])
    ensures old(HeaderOk(mem[..], elf)) ==>
              r == Entry(EntryPoint(old(mem[..]), elf)) &&
              var im := ImageAt(old(mem[..]), elf);
              mem[..] == LoadedEntries(old(mem[..]), im, im.count)
  {
    hide Word, SegmentAt, Fits, Loaded, EntriesFit, LoadedEntries;
    if Word(mem[..], elf) != 0x464C457F { return Rejected; }
    if Word(mem[..], elf + 4) != 0x00010101 { return Rejected; }
    if Word(mem[..], elf + 16) != 0x00030002 { return Rejected; }
    if Word(mem[..], elf + 20) != 0x00000001 { return Rejected; }
    ghost var m := mem[..];
    r := Entry(Word(mem[..], elf + 24));
    var table := elf + Word(mem[..], elf + 28);
    var entrySize := Word(mem[..], elf + 40) / 0x1_0000;
    var remaining := Word(mem[..], elf + 44) % 0x1_0000;
    WordRange(m, elf + 28);
    WordRange(m, elf + 40);
    ghost var im := ImageAt(m, elf);
    NothingToLoad(m, im);
    var ph := table;
    while remaining != 0
      invariant 0 <= remaining <= im.count && ph == EntryAddr(im, im.count - remaining)
      invariant EntriesFit(m, im, im.count - remaining) && mem[..] == LoadedEntries(m, im, im.count - remaining)
    {
      EarlierFit(m, im, im.count - remaining + 1, im.count);
      OneMore(m, im, im.count - remaining);
      LoadEntry(mem, elf, ph);
      ph := ph + entrySize;
      remaining := remaining - 1;
    }
  }

  lemma WordRange(m: seq<int>, a: nat)
    requires IsMemory(m) && a + 4 <= |m|
    ensures 0 <= Word(m, a) < 0x1_0000_0000
  {
  }

  lemma NothingToLoad(m: seq<int>, im: Image)
    ensures EntriesFit(m, im, 0) && LoadedEntries(m, im, 0) == m
  {
  }

  lemma OneMore(m: seq<int>, im: Image, i: nat)
    requires EntriesFit(m, im, i + 1)
    ensures EntriesFit(m, im, i)
    ensures var r, ph := LoadedEntries(m, im, i), EntryAddr(im, i);
            && ph + ENTRY_SIZE <= |m| && Fits(SegmentAt(r, ph), |m|, im.elf)
            && LoadedEntries(m, im, i + 1) == Loaded(r, im.elf, SegmentAt(r, ph))
  {
  }

  lemma {:induction false} EarlierFit(m: seq<int>, im: Image, i: nat, n: nat)
    requires i <= n && EntriesFit(m, im, n)
    ensures EntriesFit(m, im, i)
  {
    if i < n {
      EarlierFit(m, im, i, n - 1);
    }
  }

  // ----- What the kernel finds -----

  ghost predicate SegmentsApart(m: seq<int>, im: Image, len: nat)
    requires WellPlaced(m, im, len)
  {
    forall i, j, a :: 0 <= i < j < im.count ==> !(CoversAt(m, im, i, a) && CoversAt(m, im, j, a))
  }

  ghost predicate CoversAt(m: seq<int>, im: Image, i: nat, a: int) {
    EntryAddr(im, i) + ENTRY_SIZE <= |m| && Covers(Segments(m, im, i), a)
  }

  // With segments apart from each other every loadable segment lies in memory as
  // its file bytes followed by zeros, whatever the other entries are.
  lemma {:induction false} SegmentInPlace(m: seq<int>, im: Image, len: nat, n: nat, i: nat, a: nat)
    requires WellPlaced(m, im, len) && SegmentsApart(m, im, len)
    requires i < n <= im.count && a < |m| && CoversAt(m, im, i, a)
    ensures EntryPlaced(m, im, len, i)
    ensures var s := Segments(m, im, i);
            ByteAfter(m, im, len, n, a) == if a - s.vaddr < s.filesz then m[im.elf + s.offset + (a - s.vaddr)] else 0
  {
    assert EntryPlaced(m, im, len, i) && EntryPlaced(m, im, len, n - 1);
    if i < n - 1 {
      assert !(CoversAt(m, im, i, a) && CoversAt(m, im, n - 1, a));
      SegmentInPlace(m, im, len, n - 1, i, a);
    }
  }

  // Memory that no loadable segment covers keeps its contents.
  lemma {:induction false} RestUnchanged(m: seq<int>, im: Image, len: nat, n: nat, a: nat)
    requires WellPlaced(m, im, len) && n <= im.count && a < |m|
    requires forall i :: 0 <= i < n ==> !CoversAt(m, im, i, a)
    ensures ByteAfter(m, im, len, n, a) == m[a]
  {
    if n != 0 {
      assert EntryPlaced(m, im, len, n - 1) && !CoversAt(m, im, n - 1, a);
      RestUnchanged(m, im, len, n - 1, a);
    }
  }

  // What LoadKernelElf leaves: every segment in place, and the rest of memory as it
  // was.
  lemma KernelInPlace(m: seq<int>, im: Image, len: nat)
    requires WellPlaced(m, im, len) && SegmentsApart(m, im, len)
    ensures EntriesFit(m, im, im.count)
    ensures forall i: nat, a: nat | i < im.count && a < |m| && CoversAt(m, im, i, a) ::
              var s := Segments(m, im, i);
              EntryPlaced(m, im, len, i) &&
              LoadedEntries(m, im, im.count)[a] == if a - s.vaddr < s.filesz then m[im.elf + s.offset + (a - s.vaddr)] else 0
    ensures forall a: nat | a < |m| && (forall i: nat :: i < im.count ==> !CoversAt(m, im, i, a)) ::
              LoadedEntries(m, im, im.count)[a] == m[a]
  {
    hide SegmentAt, Loaded, WellPlaced, SegmentsApart;
    LoadedAsAsked(m, im, len, im.count);
    forall i: nat, a: nat | i < im.count && a < |m| && CoversAt(m, im, i, a)
      ensures var s := Segments(m, im, i);
              EntryPlaced(m, im, len, i) &&
              LoadedEntries(m, im, im.count)[a] == if a - s.vaddr < s.filesz then m[im.elf + s.offset + (a - s.vaddr)] else 0
    {
      SegmentInPlace(m, im, len, im.count, i, a);
    }
    forall a: nat | a < |m| && (forall i: nat :: i < im.count ==> !CoversAt(m, im, i, a))
      ensures LoadedEntries(m, im, im.count)[a] == m[a]
    {
      RestUnchanged(m, im, len, im.count, a);
    }
  }
}
