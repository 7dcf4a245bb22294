// ELF files as bytes, in the layout of the System V ABI (chapter 4, ELF Header, and
// chapter 5, Program Header; 32-bit, little-endian), and what the bootloader makes
// of them.

module ElfFile {
  import opened ElfLoader

  datatype FileHeader = FileHeader(
    entry: nat, phoff: nat, shoff: nat, flags: nat,
    ehsize: nat, phentsize: nat, phnum: nat, shentsize: nat, shnum: nat, shstrndx: nat)

  datatype ProgramHeader = ProgramHeader(
    kind: nat, offset: nat, vaddr: nat, paddr: nat, filesz: nat, memsz: nat, flags: nat, align: nat)

  // ----- Encoding -----

  function Half(v: nat): seq<int> { [v % 0x100, v / 0x100 % 0x100] }

  function Low(v: nat): nat { v % 0x1_0000 }

  function High(v: nat): nat { v / 0x1_0000 }

  function Halves(vs: seq<nat>): (r: seq<int>)
    ensures |r| == 2 * |vs|
  {
    if vs == [] then [] else Half(vs[0]) + Halves(vs[1..])
  }

  // The magic number, 32-bit class, little-endian data, and the version.
  const IDENT: seq<int> := [0x7F, 0x45, 0x4C, 0x46, 1, 1, 1, 0]

  // An executable for the Intel 80386.
  const EXECUTABLE: nat := 2
  const INTEL_80386: nat := 3

  // The fields from the type on, in units of two bytes.
  function HeaderHalves(h: FileHeader): seq<nat> {
    [EXECUTABLE, INTEL_80386, 1, 0, Low(h.entry), High(h.entry), Low(h.phoff), High(h.phoff),
     Low(h.shoff), High(h.shoff), Low(h.flags), High(h.flags),
     h.ehsize, h.phentsize, h.phnum, h.shentsize, h.shnum, h.shstrndx]
  }

  function EncodeFileHeader(h: FileHeader): seq<int> {
    IDENT + [0, 0, 0, 0, 0, 0, 0, 0] + Halves(HeaderHalves(h))
  }

  function EntryHalves(p: ProgramHeader): seq<nat> {
    [Low(p.kind), High(p.kind), Low(p.offset), High(p.offset), Low(p.vaddr), High(p.vaddr), Low(p.paddr), High(p.paddr),
     Low(p.filesz), High(p.filesz), Low(p.memsz), High(p.memsz), Low(p.flags), High(p.flags), Low(p.align), High(p.align)]
  }

  function EncodeProgramHeader(p: ProgramHeader): seq<int> {
    Halves(EntryHalves(p))
  }

  predicate IsHalf(v: nat) { v < 0x1_0000 }

  predicate IsFull(v: nat) { v < 0x1_0000_0000 }

  predicate HeaderFits(h: FileHeader) {
    && IsFull(h.entry) && IsFull(h.phoff) && IsFull(h.shoff) && IsFull(h.flags)
    && IsHalf(h.ehsize) && IsHalf(h.phentsize) && IsHalf(h.phnum)
    && IsHalf(h.shentsize) && IsHalf(h.shnum) && IsHalf(h.shstrndx)
  }

  predicate EntryFits(p: ProgramHeader) {
    && IsFull(p.kind) && IsFull(p.offset) && IsFull(p.vaddr) && IsFull(p.paddr)
    && IsFull(p.filesz) && IsFull(p.memsz) && IsFull(p.flags) && IsFull(p.align)
  }

  // ----- Reading back -----

  ghost predicate HoldsAt(m: seq<int>, a: nat, bytes: seq<int>) {
    a + |bytes| <= |m| && forall k :: 0 <= k < |bytes| ==> m[a + k] == bytes[k]
  }

  lemma HoldsPart(m: seq<int>, a: nat, x: seq<int>, y: seq<int>, z: seq<int>)
    requires HoldsAt(m, a, x + y + z)
    ensures HoldsAt(m, a, x) && HoldsAt(m, a + |x|, y) && HoldsAt(m, a + |x| + |y|, z)
  {
    var all := x + y + z;
    assert forall k :: 0 <= k < |x| ==> m[a + k] == all[k] == x[k];
    forall k | 0 <= k < |y|
      ensures m[a + |x| + k] == y[k]
    {
      assert m[a + (|x| + k)] == all[|x| + k] == y[k];
    }
    forall k | 0 <= k < |z|
      ensures m[a + |x| + |y| + k] == z[k]
    {
      assert m[a + (|x| + |y| + k)] == all[|x| + |y| + k] == z[k];
    }
  }

  lemma {:induction false} HalvesRead(m: seq<int>, a: nat, vs: seq<nat>, i: nat)
    requires HoldsAt(m, a, Halves(vs)) && i + 1 < |vs| && IsHalf(vs[i]) && IsHalf(vs[i + 1])
    ensures a + 2 * i + 4 <= |m| && Word(m, a + 2 * i) == vs[i] + 0x1_0000 * vs[i + 1]
    decreases i
  {
    assert Halves(vs) == [] + Half(vs[0]) + Halves(vs[1..]);
    HoldsPart(m, a, [], Half(vs[0]), Halves(vs[1..]));
    if 0 < i {
      HalvesRead(m, a + 2, vs[1..], i - 1);
    } else {
      assert m[a + 2 + 0] == Halves(vs[1..])[0] == vs[1] % 0x100;
      assert m[a + 2 + 1] == Halves(vs[1..])[1] == vs[1] / 0x100 % 0x100;
      assert m[a + 0] == Half(vs[0])[0] && m[a + 1] == Half(vs[0])[1];
    }
  }

  lemma LowHigh(v: nat)
    requires IsFull(v)
    ensures IsHalf(Low(v)) && IsHalf(High(v)) && Low(v) + 0x1_0000 * High(v) == v
  {
  }

  // The loader reads each field of a program header where the format puts it.
  lemma ProgramHeaderReads(m: seq<int>, ph: nat, p: ProgramHeader)
    requires EntryFits(p) && HoldsAt(m, ph, EncodeProgramHeader(p))
    ensures ph + ENTRY_SIZE <= |m|
    ensures SegmentAt(m, ph) == Segment(p.kind, p.offset, p.vaddr, p.filesz, p.memsz)
  {
    hide Word, Halves, Low, High, IsHalf, IsFull;
    var vs := EntryHalves(p);
    LowHigh(p.kind);
    HalvesRead(m, ph, vs, 0);
    LowHigh(p.offset);
    HalvesRead(m, ph, vs, 2);
    LowHigh(p.vaddr);
    HalvesRead(m, ph, vs, 4);
    LowHigh(p.filesz);
    HalvesRead(m, ph, vs, 8);
    LowHigh(p.memsz);
    HalvesRead(m, ph, vs, 10);
  }

  // The loader accepts exactly the identification, type, machine and version that the
  // encoder writes.
  lemma HeaderOkIff(m: seq<int>, elf: nat)
    requires IsMemory(m) && elf + 52 <= |m|
    ensures HeaderOk(m, elf) <==>
              && HoldsAt(m, elf, IDENT)
              && HoldsAt(m, elf + 16, Half(EXECUTABLE) + Half(INTEL_80386)) && HoldsAt(m, elf + 20, Half(1) + Half(0))
  {
    BytesOfWord(m, elf, 0x7F, 0x45, 0x4C, 0x46);
    BytesOfWord(m, elf + 4, 1, 1, 1, 0);
    BytesOfWord(m, elf + 16, 2, 0, 3, 0);
    BytesOfWord(m, elf + 20, 1, 0, 0, 0);
    FourAndFour(m, elf, [0x7F, 0x45, 0x4C, 0x46], [1, 1, 1, 0]);
    assert IDENT == [0x7F, 0x45, 0x4C, 0x46] + [1, 1, 1, 0];
    assert Half(EXECUTABLE) + Half(INTEL_80386) == [2, 0, 3, 0] && Half(1) + Half(0) == [1, 0, 0, 0];
  }

  lemma BytesOfWord(m: seq<int>, a: nat, b0: nat, b1: nat, b2: nat, b3: nat)
    requires IsMemory(m) && a + 4 <= |m| && b0 < 256 && b1 < 256 && b2 < 256 && b3 < 256
    ensures Word(m, a) == b0 + 0x100 * b1 + 0x1_0000 * b2 + 0x100_0000 * b3 <==> HoldsAt(m, a, [b0, b1, b2, b3])
  {
    var bytes := [b0, b1, b2, b3];
    assert HoldsAt(m, a, bytes) ==> m[a + 0] == b0 && m[a + 1] == b1 && m[a + 2] == b2 && m[a + 3] == b3 by {
      assert bytes[0] == b0 && bytes[1] == b1 && bytes[2] == b2 && bytes[3] == b3;
    }
  }

  lemma FourAndFour(m: seq<int>, a: nat, x: seq<int>, y: seq<int>)
    requires |x| == 4 && |y| == 4 && a + 8 <= |m|
    ensures HoldsAt(m, a, x + y) <==> HoldsAt(m, a, x) && HoldsAt(m, a + 4, y)
  {
    if HoldsAt(m, a, x + y) {
      assert x + y == x + y + [];
      HoldsPart(m, a, x, y, []);
    }
    if HoldsAt(m, a, x) && HoldsAt(m, a + 4, y) {
      forall k | 0 <= k < 8
        ensures m[a + k] == (x + y)[k]
      {
        assert 4 <= k ==> m[a + 4 + (k - 4)] == y[k - 4];
      }
    }
  }

  // ----- A whole file -----

  // The 52 bytes of the file header, field by field.
  lemma FileHeaderReads(m: seq<int>, elf: nat, h: FileHeader)
    requires IsMemory(m) && HeaderFits(h) && HoldsAt(m, elf, EncodeFileHeader(h))
    ensures elf + 52 <= |m| && HeaderOk(m, elf) && EntryPoint(m, elf) == h.entry
    ensures Word(m, elf + 28) == h.phoff && 0 <= Word(m, elf + 40)
    ensures ImageAt(m, elf) == Image(elf, elf + h.phoff, h.phentsize, h.phnum)
  {
    hide Word, Half, Halves, HeaderOk, IsMemory, Low, High, IsHalf, IsFull;
    var vs := HeaderHalves(h);
    HoldsPart(m, elf, IDENT, [0, 0, 0, 0, 0, 0, 0, 0], Halves(vs));
    LowHigh(h.entry);
    HalvesRead(m, elf + 16, vs, 4);
    LowHigh(h.phoff);
    HalvesRead(m, elf + 16, vs, 6);
    HalvesRead(m, elf + 16, vs, 12);
    HalvesRead(m, elf + 16, vs, 14);
    HalvesRead(m, elf + 16, vs, 0);
    HalvesRead(m, elf + 16, vs, 2);
    FourAndFour(m, elf, [0x7F, 0x45, 0x4C, 0x46], [1, 1, 1, 0]);
    assert IDENT == [0x7F, 0x45, 0x4C, 0x46] + [1, 1, 1, 0];
    BytesOfWord(m, elf, 0x7F, 0x45, 0x4C, 0x46);
    BytesOfWord(m, elf + 4, 1, 1, 1, 0);
    AcceptsWords(m, elf);
    Parts(h.ehsize, h.phentsize);
    Parts(h.phnum, h.shentsize);
  }

  lemma AcceptsWords(m: seq<int>, elf: nat)
    requires elf + 52 <= |m| && Word(m, elf) == 0x464C457F && Word(m, elf + 4) == 0x10101
    requires Word(m, elf + 16) == EXECUTABLE + 0x1_0000 * INTEL_80386 && Word(m, elf + 20) == 1
    ensures HeaderOk(m, elf)
  {
    hide Word;
  }

  lemma Parts(lo: nat, hi: nat)
    requires IsHalf(lo)
    ensures (lo + 0x1_0000 * hi) / 0x1_0000 == hi && (lo + 0x1_0000 * hi) % 0x1_0000 == lo
  {
  }

  // The len bytes from elf on begin with this file header and hold these program
  // headers where it says.
  ghost predicate IsFile(m: seq<int>, elf: nat, len: nat, h: FileHeader, ps: seq<ProgramHeader>) {
    && elf + len <= |m| && HeaderFits(h) && HoldsAt(m, elf, EncodeFileHeader(h)) && |ps| == h.phnum
    && forall i :: 0 <= i < |ps| ==> EntryIn(m, elf, len, h, ps[i], i)
  }

  ghost predicate EntryIn(m: seq<int>, elf: nat, len: nat, h: FileHeader, p: ProgramHeader, i: nat) {
    EntryFits(p) && h.phoff + i * h.phentsize + 32 <= len && HoldsAt(m, elf + h.phoff + i * h.phentsize, EncodeProgramHeader(p))
  }

  // A loadable segment has its contents in the file, no more of them than memory, and
  // its memory outside the file.
  predicate IsLoadable(size: nat, elf: nat, len: nat, p: ProgramHeader) {
    p.kind == 1 ==>
      && p.filesz <= p.memsz && p.offset + p.filesz <= len
      && p.vaddr + p.memsz <= size && (p.vaddr + p.memsz <= elf || elf + len <= p.vaddr)
  }

  predicate InMemoryOf(p: ProgramHeader, a: int) { p.kind == 1 && p.vaddr <= a < p.vaddr + p.memsz }

  ghost predicate Apart(ps: seq<ProgramHeader>) {
    forall i, j, a :: 0 <= i < j < |ps| ==> !(InMemoryOf(ps[i], a) && InMemoryOf(ps[j], a))
  }

  lemma {:induction false} EntryAddrIs(im: Image, i: nat)
    ensures EntryAddr(im, i) == im.table + i * im.entrySize
  {
    if 0 < i {
      EntryAddrIs(im, i - 1);
      assert i * im.entrySize == (i - 1) * im.entrySize + im.entrySize;
    }
  }

  lemma EntryReads(m: seq<int>, elf: nat, len: nat, h: FileHeader, ps: seq<ProgramHeader>, i: nat)
    requires IsMemory(m) && IsFile(m, elf, len, h, ps) && i < |ps|
    ensures var im, p := Image(elf, elf + h.phoff, h.phentsize, h.phnum), ps[i];
            && im.elf <= EntryAddr(im, i) && EntryAddr(im, i) + ENTRY_SIZE <= elf + len <= |m|
            && Segments(m, im, i) == Segment(p.kind, p.offset, p.vaddr, p.filesz, p.memsz)
  {
    hide SegmentAt, HeaderFits, HoldsAt, EntryFits;
    assert EntryIn(m, elf, len, h, ps[i], i);
    EntryAddrIs(Image(elf, elf + h.phoff, h.phentsize, h.phnum), i);
    ProgramHeaderReads(m, elf + h.phoff + i * h.phentsize, ps[i]);
  }

  lemma FileIsWellPlaced(m: seq<int>, elf: nat, len: nat, h: FileHeader, ps: seq<ProgramHeader>)
    requires IsMemory(m) && IsFile(m, elf, len, h, ps) && Apart(ps)
    requires forall i :: 0 <= i < |ps| ==> IsLoadable(|m|, elf, len, ps[i])
    ensures var im := Image(elf, elf + h.phoff, h.phentsize, h.phnum);
            && WellPlaced(m, im, len) && SegmentsApart(m, im, len)
            && forall i: nat, a: int :: i < |ps| ==> (CoversAt(m, im, i, a) <==> InMemoryOf(ps[i], a))
  {
    hide SegmentAt, EncodeFileHeader, HoldsAt, Segments;
    var im := Image(elf, elf + h.phoff, h.phentsize, h.phnum);
    forall i | 0 <= i < im.count
      ensures EntryPlaced(m, im, len, i)
    {
      EntryReads(m, elf, len, h, ps, i);
      assert IsLoadable(|m|, elf, len, ps[i]);
      assert Segments(m, im, i) == SegmentAt(m, EntryAddr(im, i)) by { SegmentsIs(m, im, i); }
    }
    forall i: nat, a: int | i < |ps|
      ensures CoversAt(m, im, i, a) <==> InMemoryOf(ps[i], a)
    {
      EntryReads(m, elf, len, h, ps, i);
    }
    forall i, j, a | 0 <= i < j < im.count
      ensures !(CoversAt(m, im, i, a) && CoversAt(m, im, j, a))
    {
      assert CoversAt(m, im, i, a) <==> InMemoryOf(ps[i], a);
      assert CoversAt(m, im, j, a) <==> InMemoryOf(ps[j], a);
    }
  }

  lemma SegmentsIs(m: seq<int>, im: Image, i: nat)
    requires EntryAddr(im, i) + ENTRY_SIZE <= |m|
    ensures Segments(m, im, i) == SegmentAt(m, EntryAddr(im, i))
  {
  }

  // In memory r the segment holds its bytes of the file in m, followed by zeros.
  ghost predicate InPlace(m: seq<int>, r: seq<int>, elf: nat, p: ProgramHeader) {
    && p.vaddr + p.memsz <= |r| && p.filesz <= p.memsz && elf + p.offset + p.filesz <= |m|
    && (forall a :: p.vaddr <= a < p.vaddr + p.filesz ==> r[a] == m[elf + p.offset + (a - p.vaddr)])
    && (forall a :: p.vaddr + p.filesz <= a < p.vaddr + p.memsz ==> r[a] == 0)
  }

  // Where no loadable segment lies, r is m.
  ghost predicate ElsewhereSame(m: seq<int>, r: seq<int>, ps: seq<ProgramHeader>) {
    && |r| == |m|
    && forall a :: 0 <= a < |m| ==> r[a] == m[a] || exists i :: 0 <= i < |ps| && InMemoryOf(ps[i], a)
  }

  lemma AllInPlace(m: seq<int>, elf: nat, len: nat, h: FileHeader, ps: seq<ProgramHeader>)
    requires IsMemory(m) && IsFile(m, elf, len, h, ps) && Apart(ps)
    requires forall i :: 0 <= i < |ps| ==> IsLoadable(|m|, elf, len, ps[i])
    ensures var im := Image(elf, elf + h.phoff, h.phentsize, h.phnum);
            && EntriesFit(m, im, im.count)
            && (forall i :: 0 <= i < |ps| && ps[i].kind == 1 ==> InPlace(m, LoadedEntries(m, im, im.count), elf, ps[i]))
            && ElsewhereSame(m, LoadedEntries(m, im, im.count), ps)
  {
    hide IsMemory, SegmentAt, EncodeFileHeader, EntriesFit, LoadedEntries, WellPlaced, SegmentsApart, IsFile, CoversAt;
    FileParts(m, elf, len, h, ps);
    FileIsWellPlaced(m, elf, len, h, ps);
    var im := Image(elf, elf + h.phoff, h.phentsize, h.phnum);
    KernelInPlace(m, im, len);
    var r := LoadedEntries(m, im, im.count);
    forall i | 0 <= i < |ps| && ps[i].kind == 1
      ensures InPlace(m, r, elf, ps[i])
    {
      var p := ps[i];
      assert IsLoadable(|m|, elf, len, p);
      EntryReads(m, elf, len, h, ps, i);
      forall a | p.vaddr <= a < p.vaddr + p.memsz
        ensures r[a] == if a - p.vaddr < p.filesz then m[elf + p.offset + (a - p.vaddr)] else 0
      {
        assert CoversAt(m, im, i, a);
      }
    }
    forall a | 0 <= a < |m|
      ensures r[a] == m[a] || exists i :: 0 <= i < |ps| && InMemoryOf(ps[i], a)
    {
      if forall i :: 0 <= i < |ps| ==> !InMemoryOf(ps[i], a) {
        assert forall i: nat :: i < im.count ==> !CoversAt(m, im, i, a);
      }
    }
  }

  // A file with these headers is accepted; the loader returns its entry point and
  // leaves each loadable segment, at its address, as its bytes of the file followed
  // by zeros, and the rest of memory as it was.
  lemma FileIsLoaded(m: seq<int>, elf: nat, len: nat, h: FileHeader, ps: seq<ProgramHeader>)
    requires IsMemory(m) && IsFile(m, elf, len, h, ps) && Apart(ps)
    requires forall i :: 0 <= i < |ps| ==> IsLoadable(|m|, elf, len, ps[i])
    ensures elf + 52 <= |m| && HeaderOk(m, elf) && EntryPoint(m, elf) == h.entry
    ensures 0 <= Word(m, elf + 28) && 0 <= Word(m, elf + 40)
    ensures var im := ImageAt(m, elf);
            && EntriesFit(m, im, im.count)
            && (forall i :: 0 <= i < |ps| && ps[i].kind == 1 ==> InPlace(m, LoadedEntries(m, im, im.count), elf, ps[i]))
            && ElsewhereSame(m, LoadedEntries(m, im, im.count), ps)
  {
    hide IsMemory, Word, EncodeFileHeader, EntriesFit, LoadedEntries, HeaderOk, IsFile, InPlace, ElsewhereSame, Apart, IsLoadable;
    FileParts(m, elf, len, h, ps);
    FileHeaderReads(m, elf, h);
    AllInPlace(m, elf, len, h, ps);
  }

  lemma FileParts(m: seq<int>, elf: nat, len: nat, h: FileHeader, ps: seq<ProgramHeader>)
    requires IsFile(m, elf, len, h, ps)
    ensures HeaderFits(h) && HoldsAt(m, elf, EncodeFileHeader(h)) && |ps| == h.phnum && elf + len <= |m|
  {
  }
}
