// Loading in real mode (src/bootloader/bootloader.asm): the sector loops and the
// ustar file size.  Every disk read succeeds here.

module Bootloader {
  import opened FloppyGeometry
  import NumberText

  const SECTOR_SIZE := 0x200
  const SECTORS_PER_SEGMENT := 0x80
  const KERNEL_SEGMENT := 0x1000

  // One sector read: where it went in physical memory and where it came from.
  datatype Transfer = Transfer(address: int, sector: Chs)

  // Where the k-th sector of a load starting at segment es goes: 128 sectors per
  // segment, segment registers being 16 bits wide.
  function AddressOf(es: nat, k: nat): int {
    (es + 0x1000 * (k / SECTORS_PER_SEGMENT)) % 0x1_0000 * 0x10 + k % SECTORS_PER_SEGMENT * SECTOR_SIZE
  }

  // The transfers of the sectors lo to hi - 1 of such a load.
  function Transfers(es: nat, start: Chs, lo: nat, hi: nat): (r: seq<Transfer>)
    requires lo <= hi
    ensures |r| == hi - lo
  {
    seq(hi - lo, i requires 0 <= i < hi - lo => Transfer(AddressOf(es, lo + i), Walk(start, lo + i)))
  }

  lemma TransfersAppend(es: nat, start: Chs, lo: nat, mid: nat, hi: nat)
    requires lo <= mid <= hi
    ensures Transfers(es, start, lo, mid) + Transfers(es, start, mid, hi) == Transfers(es, start, lo, hi)
  {
  }

  class BootDisk {
    // The position bytes at 0x6ff4 - 0x6ff6.
    var position: Chs
    var transfers: seq<Transfer>

    constructor (position: Chs)
      ensures this.position == position && transfers == []
    {
      this.position := position;
      transfers := [];
    }

    // Reads n sectors to es:bx upwards; bx is 16 bits wide.
    method ReadSectors(es: nat, n: nat, ghost start: Chs, ghost first: nat, ghost base: nat)
      requires n <= SECTORS_PER_SEGMENT && first % SECTORS_PER_SEGMENT == 0
      requires position == Walk(start, first) && es == (base + 0x1000 * (first / SECTORS_PER_SEGMENT)) % 0x1_0000
      modifies this
      ensures position == Walk(start, first + n)
      ensures transfers == old(transfers) + Transfers(base, start, first, first + n)
    {
      var cx, bx := n, 0;
      ghost var done := 0;
      while cx != 0
        invariant 0 <= cx && done == n - cx && 0 <= done && bx == done * SECTOR_SIZE % 0x1_0000
        invariant position == Walk(start, first + done)
        invariant transfers == old(transfers) + Transfers(base, start, first, first + done)
      {
        SegmentOffset(first, done);
        transfers := transfers + [Transfer(es * 0x10 + bx, position)];
        position := NextPosition(position);
        cx := cx - 1;
        bx := (bx + SECTOR_SIZE) % 0x1_0000;
        done := done + 1;
      }
    }

    // Whole segments first, then the rest.
    method ReadSectorsMultiSegment(segment: nat, count: nat)
      requires segment < 0x1_0000 && count < 0x1_0000
      modifies this
      ensures position == Walk(old(position), count)
      ensures transfers == old(transfers) + Transfers(segment, old(position), 0, count)
    {
      ghost var start, done := position, 0;
      var es, cx := segment, count;
      while cx >= SECTORS_PER_SEGMENT
        invariant done == count - cx && 0 <= done && 0 <= cx && done % SECTORS_PER_SEGMENT == 0
        invariant es == (segment + 0x1000 * (done / SECTORS_PER_SEGMENT)) % 0x1_0000
        invariant position == Walk(start, done)
        invariant transfers == old(transfers) + Transfers(segment, start, 0, done)
      {
        ReadSectors(es, SECTORS_PER_SEGMENT, start, done, segment);
        TransfersAppend(segment, start, 0, done, done + SECTORS_PER_SEGMENT);
        NextSegment(segment, done);
        es := (es + 0x1000) % 0x1_0000;
        cx := cx - SECTORS_PER_SEGMENT;
        done := done + SECTORS_PER_SEGMENT;
      }
      ReadSectors(es, cx, start, done, segment);
      TransfersAppend(segment, start, 0, done, count);
    }
  }

  lemma SegmentOffset(first: nat, done: nat)
    requires first % SECTORS_PER_SEGMENT == 0 && done < SECTORS_PER_SEGMENT
    ensures (first + done) / SECTORS_PER_SEGMENT == first / SECTORS_PER_SEGMENT
    ensures (first + done) % SECTORS_PER_SEGMENT == done
    ensures done * SECTOR_SIZE % 0x1_0000 == done * SECTOR_SIZE
  {
  }

  lemma NextSegment(segment: nat, done: nat)
    requires done % SECTORS_PER_SEGMENT == 0
    ensures (done + SECTORS_PER_SEGMENT) / SECTORS_PER_SEGMENT == done / SECTORS_PER_SEGMENT + 1
    ensures ((segment + 0x1000 * (done / SECTORS_PER_SEGMENT)) % 0x1_0000 + 0x1000) % 0x1_0000
         == (segment + 0x1000 * (done / SECTORS_PER_SEGMENT + 1)) % 0x1_0000
  {
  }

  // Sector k of the kernel lands at 0x10000 + 512 k across every segment change
  // exactly while the segment register does not wrap.
  lemma AddressIsLinearIff(k: nat)
    requires k < 0x1_0000
    ensures AddressOf(KERNEL_SEGMENT, k) == 0x1_0000 + 512 * k <==> k < 15 * 128
  {
    var q, r := k / 128, k % 128;
    assert k == 128 * q + r && 0 <= q < 512;
    var s := 0x1000 + 0x1000 * q;
    if q < 15 {
      assert s % 0x1_0000 == s;
    } else {
      assert s % 0x1_0000 < 0x1_0000 <= s;
    }
  }

  // A kernel of `count` sectors from disk sector n on is loaded in place, every
  // sector in order, exactly when it ends within the first two cylinders.
  lemma KernelLoadedIff(n: nat, count: nat)
    requires n < 2 * CYLINDER_SECTORS && n + count < 256 * CYLINDER_SECTORS
    ensures Transfers(KERNEL_SEGMENT, LbaToChs(n), 0, count)
         == seq(count, k requires 0 <= k => Transfer(0x1_0000 + 512 * k, LbaToChs(n + k)))
       <==> n + count <= 2 * CYLINDER_SECTORS
  {
    hide Walk, LbaToChs, AddressOf;
    var t := Transfers(KERNEL_SEGMENT, LbaToChs(n), 0, count);
    var want := seq(count, k requires 0 <= k => Transfer(0x1_0000 + 512 * k, LbaToChs(n + k)));
    if n + count <= 2 * CYLINDER_SECTORS {
      forall k | 0 <= k < count
        ensures t[k] == want[k]
      {
        WalkIsRightIff(n, k);
        AddressIsLinearIff(k);
      }
    } else {
      var k := 2 * CYLINDER_SECTORS - n;
      WalkIsRightIff(n, k);
      assert t[k].sector != want[k].sector;
    }
  }

  // ----- ustar_read_file_size -----

  // Bitwise or of two naturals.
  function Or(a: nat, b: nat): nat {
    if a == 0 && b == 0 then 0
    else 2 * Or(a / 2, b / 2) + (if a % 2 == 1 || b % 2 == 1 then 1 else 0)
  }

  lemma OrZero(a: nat)
    ensures Or(a, 0) == a
  {
  }

  lemma OrLowBit(a: nat, d: nat)
    requires a % 2 == 0 && d < 2
    ensures Or(a, d) == a + d
  {
    OrZero(a / 2);
  }

  lemma OrLowTwoBits(a: nat, d: nat)
    requires a % 4 == 0 && d < 4
    ensures Or(a, d) == a + d
  {
    OrLowBit(a / 2, d / 2);
  }

  lemma OrDisjoint(a: nat, d: nat)
    requires a % 8 == 0 && d < 8
    ensures Or(a, d) == a + d
  {
    OrLowTwoBits(a / 2, d / 2);
  }

  // Shift the 32-bit register left by three and or the next digit into it; the
  // digit is the character minus '0' in 8 bits.
  function AddOctalDigit(eax: int, c: int): int
    requires 0 <= eax
  {
    Or(eax * 8 % 0x1_0000_0000, (c - 48) % 256)
  }

  function ReadFileSize(field: seq<int>): (r: nat) {
    if field == [] then 0 else AddOctalDigit(ReadFileSize(field[..|field| - 1]), field[|field| - 1])
  }

  // The size field of a ustar header.
  function SizeField(header: seq<int>): seq<int>
    requires 0x7c + 11 <= |header|
  {
    header[0x7c..0x7c + 11]
  }

  method UstarReadFileSize(header: seq<int>) returns (eax: nat)
    requires 0x7c + 11 <= |header|
    ensures eax == ReadFileSize(SizeField(header))
  {
    ghost var field := SizeField(header);
    eax := 0;
    for cx := 0 to 11
      invariant eax == ReadFileSize(field[..cx])
    {
      assert field[..cx + 1][..cx] == field[..cx];
      eax := AddOctalDigit(eax, header[0x7c + cx]);
    }
    assert field[..11] == field;
  }

  // One more octal digit, on a register that holds v modulo 2^32.
  lemma DigitModulo(v: nat, d: nat)
    requires d < 8
    ensures AddOctalDigit(v % 0x1_0000_0000, 48 + d) == (v * 8 + d) % 0x1_0000_0000
  {
    hide Or;
    ShiftModulo(v, d);
    OrDisjoint(v % 0x1_0000_0000 * 8 % 0x1_0000_0000, d);
  }

  lemma ShiftModulo(v: nat, d: nat)
    requires d < 8
    ensures var s := v % 0x1_0000_0000 * 8 % 0x1_0000_0000;
            s % 8 == 0 && (v * 8 + d) % 0x1_0000_0000 == s + d
  {
    var q, r := v / 0x1_0000_0000, v % 0x1_0000_0000;
    var t, s := r * 8 / 0x1_0000_0000, r * 8 % 0x1_0000_0000;
    NumberText.DivUnique(v * 8 + d, 0x1_0000_0000, 8 * q + t, s + d);
  }

  // On octal digits the register holds the number modulo 2^32.
  lemma {:induction false} ReadsModulo(field: seq<int>)
    requires NumberText.IsNumber(field, 8)
    ensures 0 <= NumberText.Value(field, 8)
    ensures ReadFileSize(field) == NumberText.Value(field, 8) % 0x1_0000_0000
  {
    hide AddOctalDigit;
    if field != [] {
      var n := |field| - 1;
      assert forall i :: 0 <= i < n ==> field[..n][i] == field[i];
      ReadsModulo(field[..n]);
      DigitModulo(NumberText.Value(field[..n], 8), NumberText.DigitValue(field[n]));
    }
  }

  // The 11-digit octal size field is inverted exactly for sizes below 2^32.
  lemma FileSizeRoundTripIff(size: nat)
    requires size < NumberText.Pow(8, 11)
    ensures ReadFileSize(NumberText.Digits(size, 8, 11)) == size <==> size < 0x1_0000_0000
  {
    hide ReadFileSize, NumberText.Digits, NumberText.Value, NumberText.Pow;
    NumberText.DigitsReadBack(size, 8, 11);
    ReadsModulo(NumberText.Digits(size, 8, 11));
  }

  // In a header the size stands in octal digits behind the 124 bytes of name, mode,
  // owner and group.
  lemma HeaderSizeIff(before: seq<int>, size: nat, rest: seq<int>)
    requires |before| == 124 && size < NumberText.Pow(8, 11)
    ensures ReadFileSize(SizeField(before + NumberText.Digits(size, 8, 11) + rest)) == size <==> size < 0x1_0000_0000
  {
    hide ReadFileSize, NumberText.Digits, NumberText.Pow;
    var header := before + NumberText.Digits(size, 8, 11) + rest;
    assert SizeField(header) == NumberText.Digits(size, 8, 11);
    FileSizeRoundTripIff(size);
  }
}
