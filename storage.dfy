/**
 * The two collaborators of the indirect blocks that live outside the core:
 * the free-sector bit map (`BitMap`) and the sector store (`FileSystemReal`'s
 * `readSector`/`writeSector`).  Neither class is part of this model; they are
 * given the contracts the block code relies on and the simplest bodies that
 * meet them.
 */
module Storage {
  import opened JavaTypes

  /** Bytes in one disk sector. */
  const SectorSize: nat := 128

  /** Number of clear (free) bits. */
  function CountClear(bits: seq<bool>): (n: nat)
    ensures n <= |bits|
  {
    if |bits| == 0 then 0
    else CountClear(bits[..|bits| - 1]) + (if bits[|bits| - 1] then 0 else 1)
  }

  /** Every bit is marked. */
  ghost predicate Full(bits: seq<bool>) {
    forall x :: 0 <= x < |bits| ==> bits[x]
  }

  /** Sector `x` is in use. */
  ghost predicate Marked(bits: seq<bool>, x: int) {
    0 <= x < |bits| && bits[x]
  }

  /** `after` keeps every mark of `before` (and may add more). */
  ghost predicate Monotone(before: seq<bool>, after: seq<bool>) {
    |before| == |after| && forall x :: 0 <= x < |before| && before[x] ==> after[x]
  }

  lemma {:induction false} CountClearFull(bits: seq<bool>)
    ensures CountClear(bits) == 0 <==> Full(bits)
  {
    if |bits| > 0 {
      var init := bits[..|bits| - 1];
      CountClearFull(init);
      assert Full(bits) <==> Full(init) && bits[|bits| - 1] by {
        if Full(init) && bits[|bits| - 1] {
          forall x | 0 <= x < |bits| ensures bits[x] {
            if x < |bits| - 1 { assert bits[x] == init[x]; }
          }
        }
      }
    }
  }

  /** Flipping one bit changes the clear count by exactly one. */
  lemma {:induction false} CountClearUpdate(bits: seq<bool>, i: int, b: bool)
    requires 0 <= i < |bits|
    ensures CountClear(bits[i := b]) ==
              CountClear(bits) + (if bits[i] then 0 else -1) + (if b then 0 else 1)
  {
    var last := |bits| - 1;
    if i < last {
      assert bits[i := b][..last] == bits[..last][i := b];
      CountClearUpdate(bits[..last], i, b);
    } else {
      assert bits[i := b][..last] == bits[..last];
    }
  }

  /** Marking more bits never increases the clear count. */
  lemma {:induction false} CountClearMonotone(before: seq<bool>, after: seq<bool>)
    requires Monotone(before, after)
    ensures CountClear(after) <= CountClear(before)
  {
    if |before| > 0 {
      var last := |before| - 1;
      CountClearMonotone(before[..last], after[..last]);
    }
  }

  /** The free-sector bit map: `bits[s]` is true when sector `s` is in use. */
  class BitMap {
    var bits: seq<bool>

    /** Sector numbers handed out must fit a Java int. */
    ghost predicate Valid()
      reads this
    {
      |bits| <= Int32Max
    }

    constructor (numBits: nat)
      requires numBits <= Int32Max
      ensures Valid() && bits == seq(numBits, _ => false)
    {
      bits := seq(numBits, _ => false);
    }

    /** `numClear()`: how many sectors are free. */
    function NumClear(): nat
      reads this
    {
      CountClear(bits)
    }

    /** `test(s)`: is sector `s` in use? */
    predicate Test(s: int)
      requires 0 <= s < |bits|
      reads this
    {
      bits[s]
    }

    /**
     * `find()`: mark some free sector and return it, or return -1 and change
     * nothing when every sector is in use.
     */
    method Find() returns (s: int32)
      requires Valid()
      modifies this
      ensures Valid()
      ensures if old(NumClear()) == 0 then s == -1 && bits == old(bits)
              else 0 <= s < |old(bits)| && !old(bits)[s] && bits == old(bits)[s := true]
      ensures NumClear() == if old(NumClear()) == 0 then 0 else old(NumClear()) - 1
    {
      var i := 0;
      while i < |bits| && bits[i]
        invariant 0 <= i <= |bits|
        invariant forall j :: 0 <= j < i ==> bits[j]
      {
        i := i + 1;
      }
      if i == |bits| {
        CountClearFull(bits);
        s := -1;
      } else {
        CountClearUpdate(bits, i, true);
        s := i;
        bits := bits[i := true];
      }
    }

    /** `clear(s)`: give sector `s` back. */
    method Clear(s: int)
      requires 0 <= s < |bits|
      modifies this
      ensures bits == old(bits)[s := false]
      ensures NumClear() == old(NumClear()) + (if old(bits)[s] then 1 else 0)
    {
      CountClearUpdate(bits, s, false);
      bits := bits[s := false];
    }
  }

  /** The sector store: a fixed number of sectors of `SectorSize` bytes each. */
  class Disk {
    var sectors: seq<seq<byte>>

    ghost predicate Valid()
      reads this
    {
      |sectors| <= Int32Max && forall i :: 0 <= i < |sectors| ==> |sectors[i]| == SectorSize
    }

    constructor (numSectors: nat)
      requires numSectors <= Int32Max
      ensures Valid() && |sectors| == numSectors
    {
      sectors := seq(numSectors, _ => seq(SectorSize, _ => 0));
    }

    /** `readSector(sector, buffer, 0)`. */
    method ReadSector(sector: int, buffer: array<byte>)
      requires Valid() && 0 <= sector < |sectors| && buffer.Length == SectorSize
      modifies buffer
      ensures buffer[..] == sectors[sector]
    {
      forall i | 0 <= i < SectorSize {
        buffer[i] := sectors[sector][i];
      }
    }

    /** `writeSector(sector, buffer, 0)`. */
    method WriteSector(sector: int, buffer: array<byte>)
      requires Valid() && 0 <= sector < |sectors| && buffer.Length == SectorSize
      modifies this
      ensures Valid()
      ensures sectors == old(sectors)[sector := buffer[..]]
    {
      sectors := sectors[sector := buffer[..]];
    }
  }
}
