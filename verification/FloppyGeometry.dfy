// Disk addresses: lba_to_chs of src/kernel/drivers/disk/floppy/floppy.cpp and
// the bootloader's walk over the sectors (src/bootloader/bootloader.asm).

module FloppyGeometry {
  const SECTORS := 18
  const HEADS := 2
  const CYLINDER_SECTORS := 36
  const BOOT_CYLINDERS := 80

  datatype Chs = Chs(c: int, h: int, s: int)

  predicate ValidChs(a: Chs) { 0 <= a.c < 256 && 0 <= a.h < HEADS && 1 <= a.s <= SECTORS }

  // Each part is stored in an 8-bit field.
  function LbaToChs(lba: nat): Chs {
    Chs(lba / (SECTORS * HEADS) % 256, lba / SECTORS % HEADS, lba % SECTORS + 1)
  }

  function ChsToLba(a: Chs): int { (a.c * HEADS + a.h) * SECTORS + (a.s - 1) }

  // The address is always a valid one, and it is the right one exactly for the
  // first 256 cylinders.
  lemma LbaRoundTripIff(lba: nat)
    ensures ValidChs(LbaToChs(lba))
    ensures ChsToLba(LbaToChs(lba)) == lba <==> lba < 256 * CYLINDER_SECTORS
  {
    var cylinder, r := lba / 36, lba % 36;
    assert lba == 36 * cylinder + r;
    assert lba / 18 == 2 * cylinder + r / 18;
    assert lba % 18 == r % 18;
  }

  lemma ChsRoundTrip(a: Chs)
    requires ValidChs(a)
    ensures 0 <= ChsToLba(a) < 256 * CYLINDER_SECTORS && LbaToChs(ChsToLba(a)) == a
  {
  }

  // increment_floppy_position as written: where the cylinder should be advanced,
  // the code reloads the head byte it has just cleared.
  function NextPosition(p: Chs): Chs {
    if p.s < SECTORS then p.(s := p.s + 1)
    else if p.h < HEADS - 1 then p.(s := 1, h := p.h + 1)
    else
      var reloaded := 0;
      Chs(if reloaded >= BOOT_CYLINDERS then 0 else reloaded + 1, 0, 1)
  }

  // The step goes to the next sector exactly when it does not have to advance
  // the cylinder, or advances it from 0 to 1.
  lemma StepIsSuccessorIff(n: nat)
    requires n + 1 < 256 * CYLINDER_SECTORS
    ensures NextPosition(LbaToChs(n)) == LbaToChs(n + 1) <==> ((n + 1) % CYLINDER_SECTORS != 0 || n + 1 == CYLINDER_SECTORS)
  {
    StepFrom(n);
    var c, r := n / 36, n % 36;
    assert n == 36 * c + r;
    assert (n + 1) % 36 == 0 <==> r == 35;
    LbaRoundTripIff(n + 1);
    LbaRoundTripIff(36);
  }

  // Where the step goes, for every position on the disk.
  lemma StepFrom(n: nat)
    requires n < 256 * CYLINDER_SECTORS
    ensures NextPosition(LbaToChs(n)) == LbaToChs(if (n + 1) % CYLINDER_SECTORS != 0 then n + 1 else CYLINDER_SECTORS)
  {
    var c, r := n / 36, n % 36;
    assert n == 36 * c + r;
    assert n / 18 == 2 * c + r / 18 && n % 18 == r % 18;
    if r != 35 {
      assert (n + 1) / 36 == c && (n + 1) % 36 == r + 1;
      assert (n + 1) / 18 == 2 * c + (r + 1) / 18 && (n + 1) % 18 == (r + 1) % 18;
    } else {
      assert (n + 1) % 36 == 0;
      assert LbaToChs(36) == Chs(1, 0, 1);
    }
  }

  function Walk(p: Chs, k: nat): Chs {
    if k == 0 then p else NextPosition(Walk(p, k - 1))
  }

  // The sector that the walk is at when it should be at sector n: from cylinder 1
  // on it never leaves that cylinder.
  function Reached(n: nat): nat { if n < CYLINDER_SECTORS then n else CYLINDER_SECTORS + n % CYLINDER_SECTORS }

  lemma {:induction false} WalkReaches(n: nat, k: nat)
    requires n < 2 * CYLINDER_SECTORS
    ensures Walk(LbaToChs(n), k) == LbaToChs(Reached(n + k))
  {
    if k != 0 {
      WalkReaches(n, k - 1);
      var at := Reached(n + k - 1);
      StepFrom(at);
      ReachedNext(n + k - 1);
    }
  }

  lemma ReachedNext(n: nat)
    ensures Reached(n + 1) == if (Reached(n) + 1) % CYLINDER_SECTORS != 0 then Reached(n) + 1 else CYLINDER_SECTORS
  {
  }

  // From a position in the first two cylinders the k-th sector of the walk is the
  // k-th sector of the disk exactly as long as it stays in those cylinders.
  lemma WalkIsRightIff(n: nat, k: nat)
    requires n < 2 * CYLINDER_SECTORS && n + k < 256 * CYLINDER_SECTORS
    ensures Walk(LbaToChs(n), k) == LbaToChs(n + k) <==> n + k < 2 * CYLINDER_SECTORS
  {
    hide Walk, LbaToChs, ChsToLba;
    WalkReaches(n, k);
    LbaRoundTripIff(n + k);
    LbaRoundTripIff(Reached(n + k));
  }
}
