// Reading sectors through the cylinder buffer
// (src/kernel/drivers/disk/floppy/floppy.cpp, read_data).

module FloppyRead {
  import opened Common
  import opened FloppyGeometry

  const SECTOR_SIZE := 512
  const CYLINDER_BYTES := 0x4800
  const LBA_LIMIT := 256 * CYLINDER_SECTORS

  // How a read ends: OutsideBuffer means that the byte count wrapped, so that the
  // copy runs past the end of the DMA buffer through nearly all of memory.
  datatype Result = Done | Invalid | DriveError | OutsideBuffer

  // The position of the sector within its cylinder, in unsigned arithmetic.
  function SectorIndex(a: Chs): int { (a.h * SECTORS + (a.s - 1)) % U32 }

  // Numbers of sectors to copy, in unsigned arithmetic: from an index to the end
  // of what the code takes for a cylinder, and between two indices.
  function RestOfCylinder(index: int): int { (SECTORS - index - 1) % U32 }

  function Between(start: int, end: int): int { (end - start) % U32 }

  lemma Counts(start: int, end: int)
    requires 0 <= end < CYLINDER_SECTORS && (0 <= start < CYLINDER_SECTORS || start == U32 - 1)
    ensures 0 <= RestOfCylinder(start) < U32 && 0 <= Between(start, end) < U32
    ensures start < SECTORS ==> RestOfCylinder(start) == SECTORS - start - 1
    ensures start == U32 - 1 ==> RestOfCylinder(start) == SECTORS && Between(start, end) == end + 1
    ensures start <= end ==> Between(start, end) == end - start
  {
  }

  // Where a copy from the 32-bit offset starts in the window that consists of the
  // sector in front of the buffer and the buffer.
  function WindowStart(offset: int): int { (offset + SECTOR_SIZE) % U32 }

  const WINDOW_BYTES := SECTOR_SIZE + CYLINDER_BYTES

  function Cylinder(lba: int): int { lba / CYLINDER_SECTORS }

  // The disk bytes of the sectors lo to hi - 1.
  function Sectors(disk: seq<int>, lo: nat, hi: nat): seq<int>
    requires lo <= hi && hi * SECTOR_SIZE <= |disk|
  {
    disk[lo * SECTOR_SIZE..hi * SECTOR_SIZE]
  }

  lemma AddressParts(n: nat)
    requires n < LBA_LIMIT
    ensures var a := LbaToChs(n);
            && a.c == Cylinder(n) && 0 <= a.h < HEADS && 1 <= a.s <= SECTORS
            && SectorIndex(a) == n % CYLINDER_SECTORS == n - CYLINDER_SECTORS * a.c
            && (a.h == 0 && a.s == 1 <==> n % CYLINDER_SECTORS == 0)
  {
    var c, r := n / 36, n % 36;
    assert n == 36 * c + r;
    assert n / 18 == 2 * c + r / 18 && n % 18 == r % 18;
  }

  class Drive {
    const buffer: array<int>
    const disk: seq<int>
    // The cylinders that cannot be read.
    const bad: set<int>

    ghost predicate Valid() {
      buffer.Length == CYLINDER_BYTES && |disk| == LBA_LIMIT * SECTOR_SIZE
    }

    constructor (disk: seq<int>, bad: set<int>)
      requires |disk| == LBA_LIMIT * SECTOR_SIZE
      ensures Valid() && this.disk == disk && this.bad == bad && fresh(buffer)
    {
      this.disk := disk;
      this.bad := bad;
      buffer := new int[CYLINDER_BYTES](_ => 0);
    }

    // A successful transfer fills the buffer with both heads of the cylinder.
    method ReadCylinder(c: int) returns (ok: bool)
      requires Valid() && 0 <= c < 256
      modifies buffer
      ensures ok <==> c !in bad
      ensures ok ==> buffer[..] == Sectors(disk, c * CYLINDER_SECTORS, (c + 1) * CYLINDER_SECTORS)
    {
      if c in bad {
        return false;
      }
      var start := c * CYLINDER_SECTORS * SECTOR_SIZE;
      for i := 0 to CYLINDER_BYTES
        invariant forall j :: 0 <= j < i ==> buffer[j] == disk[start + j]
      {
        buffer[i] := disk[start + i];
      }
      return true;
    }

    // The body shared by both parts of read_data: read a cylinder and copy n of
    // its sectors from sector index `first` on, all in unsigned arithmetic.  What
    // lies in front of the buffer is arbitrary.
    method CopyPart(c: int, first: int, n: int) returns (r: Result, bytes: seq<int>)
      requires Valid() && 0 <= c < 256
      requires 0 <= first < CYLINDER_SECTORS || first == U32 - 1
      requires 0 <= n < U32
      modifies buffer
      ensures r == DriveError <==> c in bad
      ensures r == Done || r == DriveError || r == OutsideBuffer
      ensures c !in bad && first + n <= CYLINDER_SECTORS ==>
                r == Done && bytes == Sectors(disk, c * CYLINDER_SECTORS + first, c * CYLINDER_SECTORS + first + n)
      ensures c !in bad && first == U32 - 1 && 1 <= n <= CYLINDER_SECTORS ==>
                r == Done && ShortPart(disk, bytes, c * CYLINDER_SECTORS, n)
      ensures c !in bad && SECTORS <= first < CYLINDER_SECTORS && n == RestOfCylinder(first) ==> r == OutsideBuffer
    {
      var ok := ReadCylinder(c);
      if !ok {
        return DriveError, [];
      }
      var front: seq<int> :| |front| == SECTOR_SIZE by {
        assert |seq(SECTOR_SIZE, _ => 0)| == SECTOR_SIZE;
      }
      var start, size := WindowStart(first * SECTOR_SIZE % U32), n * SECTOR_SIZE % U32;
      OffsetArithmetic(first, n);
      if WINDOW_BYTES < start + size {
        return OutsideBuffer, [];
      }
      if first + n <= CYLINDER_SECTORS {
        CylinderSlice(disk, c, first, n);
      } else if first == U32 - 1 && 1 <= n <= CYLINDER_SECTORS {
        CylinderSlice(disk, c, 0, n - 1);
      }
      return Done, (front + buffer[..])[start..start + size];
    }

    // read_data as written.  It delivers the requested sectors exactly when the
    // first sector and the one after the last lie in one cylinder.  Any other
    // request that starts under head 1 runs past the buffer; one that starts under
    // head 0 reports success and delivers 18 sectors too few for each cylinder
    // boundary it crosses.
    method ReadData(lba: nat, count: nat) returns (r: Result, out: seq<int>)
      requires Valid() && lba + count < LBA_LIMIT
      modifies buffer
      ensures r == Invalid <==> count == 0
      ensures count != 0 && Cylinder(lba) == Cylinder(lba + count) ==>
                if Cylinder(lba) in bad then r == DriveError
                else r == Done && out == Sectors(disk, lba, lba + count)
      ensures count != 0 && Cylinder(lba) != Cylinder(lba + count) && SECTORS <= lba % CYLINDER_SECTORS ==>
                r == if Cylinder(lba) in bad then DriveError else OutsideBuffer
      ensures count != 0 && Cylinder(lba) != Cylinder(lba + count) && lba % CYLINDER_SECTORS < SECTORS ==>
                if exists c :: c in bad && Cylinder(lba) <= c <= Cylinder(lba + count) then r == DriveError
                else r == Done && ShortRead(disk, out, lba, lba + count)
    {
      hide LbaToChs, SectorIndex, Sectors, ShortPart, Entered, ShortRead, RestOfCylinder, Between;
      out := [];
      if count == 0 {
        return Invalid, [];
      }
      AddressParts(lba);
      AddressParts(lba + count);
      BeforeFirst();
      var end := LbaToChs(lba + count);
      var current := LbaToChs(lba);
      // In each cylinder after the first the sector index wraps.
      while current.c != end.c
        invariant Cylinder(lba) <= current.c <= end.c
        invariant if current.c == Cylinder(lba) then current == LbaToChs(lba) && out == []
                  else current == Chs(current.c, 0, 0) && lba % CYLINDER_SECTORS < SECTORS && Entered(disk, out, lba, current.c)
        invariant forall c :: c in bad && Cylinder(lba) <= c ==> current.c <= c
        decreases end.c - current.c
      {
        var index := SectorIndex(current);
        Counts(index, 0);
        var part;
        r, part := CopyPart(current.c, index, RestOfCylinder(index));
        if r != Done {
          return;
        }
        EnteredNext(disk, out, part, lba, current.c);
        out := out + part;
        current := Chs((current.c + 1) % 256, 0, 0);
      }
      if end.h != 0 || end.s != 0 {
        var startIndex, endIndex := SectorIndex(current), SectorIndex(end);
        Counts(startIndex, endIndex);
        var part;
        r, part := CopyPart(current.c, startIndex, Between(startIndex, endIndex));
        if r != Done {
          return;
        }
        if current.c != Cylinder(lba) {
          LastPart(disk, out, part, lba, lba + count);
        }
        out := out + part;
      }
      r := Done;
    }

    // read_data with three repairs: the next cylinder starts at sector 1, a
    // cylinder has 36 sectors to copy, and nothing is left to read when the end
    // is the first sector of a cylinder.  It delivers every request whose
    // cylinders can be read.
    method ReadDataRepaired(lba: nat, count: nat) returns (r: Result, out: seq<int>)
      requires Valid() && lba + count < LBA_LIMIT
      modifies buffer
      ensures r == Invalid <==> count == 0
      ensures count != 0 ==>
                if exists c :: c in bad && Cylinder(lba) <= c <= Cylinder(lba + count - 1) then r == DriveError
                else r == Done && out == Sectors(disk, lba, lba + count)
    {
      hide LbaToChs, SectorIndex, Sectors;
      out := [];
      if count == 0 {
        return Invalid, [];
      }
      AddressParts(lba);
      AddressParts(lba + count);
      NoSectors(disk, lba);
      var end := LbaToChs(lba + count);
      var current := LbaToChs(lba);
      ghost var at := lba;
      while current.c != end.c
        invariant lba <= at <= lba + count && current == LbaToChs(at) && current.c <= end.c
        invariant out == Sectors(disk, lba, at)
        invariant forall c :: c in bad && Cylinder(lba) <= c ==> Cylinder(at) <= c
        decreases end.c - current.c
      {
        AddressParts(at);
        var index := SectorIndex(current);
        var part;
        r, part := CopyPart(current.c, index, CYLINDER_SECTORS - index);
        if r != Done {
          return;
        }
        ghost var next := (current.c + 1) * CYLINDER_SECTORS;
        SectorsAppend(disk, lba, at, next);
        out := out + part;
        CylinderStart(current.c + 1);
        at := next;
        current := Chs((current.c + 1) % 256, 0, 1);
      }
      AddressParts(at);
      if end.h != 0 || end.s != 1 {
        var startIndex, endIndex := SectorIndex(current), SectorIndex(end);
        var part;
        r, part := CopyPart(current.c, startIndex, endIndex - startIndex);
        if r != Done {
          return;
        }
        SectorsAppend(disk, lba, at, lba + count);
        out := out + part;
      }
      r := Done;
    }
  }

  // ----- What read_data as written delivers across a boundary -----

  // A copy of n sectors that starts one sector in front of the buffer: an
  // arbitrary sector, then n - 1 sectors from lba on.
  predicate ShortPart(disk: seq<int>, part: seq<int>, lba: nat, n: nat)
    requires 1 <= n && (lba + n - 1) * SECTOR_SIZE <= |disk|
  {
    |part| == n * SECTOR_SIZE && part[SECTOR_SIZE..] == Sectors(disk, lba, lba + n - 1)
  }

  ghost predicate OnDisk(disk: seq<int>) { |disk| == LBA_LIMIT * SECTOR_SIZE }

  // out is delivered when the read from lba on comes to the later cylinder c:
  // the rest of the first track, and 18 sectors of each cylinder in between.
  predicate Entered(disk: seq<int>, out: seq<int>, lba: nat, c: int)
    requires OnDisk(disk) && lba % CYLINDER_SECTORS < SECTORS && Cylinder(lba) < c < 256
    decreases c
  {
    var n := SECTORS * SECTOR_SIZE;
    if c == Cylinder(lba) + 1 then out == Sectors(disk, lba, Cylinder(lba) * CYLINDER_SECTORS + SECTORS - 1)
    else n <= |out| && Entered(disk, out[..|out| - n], lba, c - 1)
         && ShortPart(disk, out[|out| - n..], (c - 1) * CYLINDER_SECTORS, SECTORS)
  }

  // The whole result: what is delivered before the last cylinder, then its
  // sectors before `end`, with an arbitrary sector in front of them.
  ghost predicate ShortRead(disk: seq<int>, out: seq<int>, lba: nat, end: nat)
    requires OnDisk(disk) && end < LBA_LIMIT && lba % CYLINDER_SECTORS < SECTORS && Cylinder(lba) < Cylinder(end)
  {
    var n := (end % CYLINDER_SECTORS + 1) * SECTOR_SIZE;
    && n <= |out| && Entered(disk, out[..|out| - n], lba, Cylinder(end))
    && ShortPart(disk, out[|out| - n..], Cylinder(end) * CYLINDER_SECTORS, end % CYLINDER_SECTORS + 1)
  }

  lemma {:induction false} EnteredLength(disk: seq<int>, out: seq<int>, lba: nat, c: int)
    requires OnDisk(disk) && lba % CYLINDER_SECTORS < SECTORS && Cylinder(lba) < c < 256 && Entered(disk, out, lba, c)
    ensures |out| == SECTOR_SIZE * (c * CYLINDER_SECTORS - lba - SECTORS * (c - Cylinder(lba)) - 1)
    decreases c
  {
    if c != Cylinder(lba) + 1 {
      EnteredLength(disk, out[..|out| - SECTORS * SECTOR_SIZE], lba, c - 1);
    }
  }

  // 18 sectors are missing for each boundary crossed, so the result is never the
  // requested data.
  lemma ShortReadLength(disk: seq<int>, out: seq<int>, lba: nat, end: nat)
    requires OnDisk(disk) && end < LBA_LIMIT && lba % CYLINDER_SECTORS < SECTORS && Cylinder(lba) < Cylinder(end)
    requires ShortRead(disk, out, lba, end)
    ensures |out| == SECTOR_SIZE * (end - lba - SECTORS * (Cylinder(end) - Cylinder(lba)))
    ensures out != Sectors(disk, lba, end)
  {
    EnteredLength(disk, out[..|out| - (end % CYLINDER_SECTORS + 1) * SECTOR_SIZE], lba, Cylinder(end));
  }

  lemma EnteredNext(disk: seq<int>, out: seq<int>, part: seq<int>, lba: nat, c: int)
    requires OnDisk(disk) && lba % CYLINDER_SECTORS < SECTORS && Cylinder(lba) <= c < 255
    requires if c == Cylinder(lba) then out == [] && part == Sectors(disk, lba, c * CYLINDER_SECTORS + SECTORS - 1)
             else Entered(disk, out, lba, c) && ShortPart(disk, part, c * CYLINDER_SECTORS, SECTORS)
    ensures Entered(disk, out + part, lba, c + 1)
  {
    if c != Cylinder(lba) {
      assert |part| == SECTORS * SECTOR_SIZE;
      assert (out + part)[..|out|] == out && (out + part)[|out|..] == part;
    } else {
      assert out + part == part;
    }
  }

  lemma LastPart(disk: seq<int>, out: seq<int>, part: seq<int>, lba: nat, end: nat)
    requires OnDisk(disk) && end < LBA_LIMIT && lba % CYLINDER_SECTORS < SECTORS && Cylinder(lba) < Cylinder(end)
    requires Entered(disk, out, lba, Cylinder(end))
    requires ShortPart(disk, part, Cylinder(end) * CYLINDER_SECTORS, end % CYLINDER_SECTORS + 1)
    ensures ShortRead(disk, out + part, lba, end)
  {
    assert (out + part)[..|out|] == out && (out + part)[|out|..] == part;
  }

  // ----- Copies out of the window -----

  lemma OffsetArithmetic(first: int, n: int)
    requires 0 <= first < CYLINDER_SECTORS || first == U32 - 1
    requires 0 <= n < U32
    ensures var start, size := WindowStart(first * SECTOR_SIZE % U32), n * SECTOR_SIZE % U32;
            && (first + n <= CYLINDER_SECTORS ==>
                  start == SECTOR_SIZE + first * SECTOR_SIZE && size == n * SECTOR_SIZE && start + size <= WINDOW_BYTES)
            && (first == U32 - 1 && 1 <= n <= CYLINDER_SECTORS ==>
                  start == 0 && size == n * SECTOR_SIZE && start + size <= WINDOW_BYTES)
            && (SECTORS <= first < CYLINDER_SECTORS && n == (SECTORS - first - 1) % U32 ==> WINDOW_BYTES < start + size)
  {
  }

  lemma CylinderSlice(disk: seq<int>, c: nat, first: nat, n: nat)
    requires c < 256 && first + n <= CYLINDER_SECTORS && |disk| == LBA_LIMIT * SECTOR_SIZE
    ensures Sectors(disk, c * CYLINDER_SECTORS, (c + 1) * CYLINDER_SECTORS)[first * SECTOR_SIZE..(first + n) * SECTOR_SIZE]
         == Sectors(disk, c * CYLINDER_SECTORS + first, c * CYLINDER_SECTORS + first + n)
  {
    SliceOfSlice(disk, c * CYLINDER_SECTORS * SECTOR_SIZE, (c + 1) * CYLINDER_SECTORS * SECTOR_SIZE,
                 first * SECTOR_SIZE, (first + n) * SECTOR_SIZE);
  }

  lemma SliceOfSlice<T>(s: seq<T>, a: nat, b: nat, lo: nat, hi: nat)
    requires a <= b <= |s| && lo <= hi <= b - a
    ensures s[a..b][lo..hi] == s[a + lo..a + hi]
  {
    var l, r := s[a..b][lo..hi], s[a + lo..a + hi];
    assert forall i :: 0 <= i < hi - lo ==> l[i] == s[a..b][lo + i] == s[a + lo + i] == r[i];
  }

  // Sector 0 of head 0 lies before the first sector.
  lemma BeforeFirst()
    ensures forall c :: SectorIndex(Chs(c, 0, 0)) == U32 - 1
  {
  }

  lemma CylinderStart(c: int)
    requires 0 <= c < 256
    ensures LbaToChs(c * CYLINDER_SECTORS) == Chs(c, 0, 1) && Cylinder(c * CYLINDER_SECTORS) == c
  {
  }

  lemma NoSectors(disk: seq<int>, lo: nat)
    requires lo * SECTOR_SIZE <= |disk|
    ensures Sectors(disk, lo, lo) == []
  {
  }

  lemma SectorsAppend(disk: seq<int>, lo: nat, mid: nat, hi: nat)
    requires lo <= mid <= hi && hi * SECTOR_SIZE <= |disk|
    ensures Sectors(disk, lo, mid) + Sectors(disk, mid, hi) == Sectors(disk, lo, hi)
  {
  }
}
