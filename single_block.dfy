/**
 * `singleBlock`: the single-indirect tier of a file header.  One sector holds
 * a table of `NumDirect` sector numbers; the used entries are at the front and
 * every unused entry is -1.  The tier covers the file bytes that follow the
 * header's `DirectSectors` direct sectors.
 */
module SingleBlocks {
  import opened JavaTypes
  import opened Storage
  import opened Layout

  /** Sector numbers in one table: a sector of 4-byte integers (see `TableSizes`). */
  const NumDirect: nat := 32

  /** Bytes one table can address (see `TableSizes`). */
  const MaxBlockSize: nat := 4096

  /** Sectors the file header addresses directly, ahead of this tier. */
  const DirectSectors: nat := 28

  /** First file offset served by this tier (see `TableSizes`). */
  const DirectBytes: nat := 3584

  /** How the sizes of a table follow from the sector size. */
  lemma TableSizes()
    ensures NumDirect == SectorSize / IntBytes && NumDirect * IntBytes == SectorSize
    ensures MaxBlockSize == NumDirect * SectorSize
    ensures DirectBytes == DirectSectors * SectorSize
  {
  }

  /** The "no sector" marker of an unused table entry. */
  const Unused: int32 := -1

  /** Number of sectors needed to hold `bytes` bytes. */
  function SectorsFor(bytes: nat): (n: nat)
    ensures bytes <= n * SectorSize < bytes + SectorSize
  {
    bytes / SectorSize + (if bytes % SectorSize != 0 then 1 else 0)
  }

  /** Length of the used prefix of a table: the index of its first -1. */
  function FirstUnused(t: seq<int32>): (n: nat)
    ensures n <= |t|
    ensures forall j :: 0 <= j < n ==> t[j] != Unused
    ensures n < |t| ==> t[n] == Unused
  {
    if t == [] || t[0] == Unused then 0 else 1 + FirstUnused(t[1..])
  }

  /** No sector number occurs twice. */
  ghost predicate Distinct(s: seq<int32>) {
    forall i, j :: 0 <= i < j < |s| ==> s[i] != s[j]
  }

  lemma DistinctSplit(a: seq<int32>, b: seq<int32>)
    requires Distinct(a + b)
    ensures Distinct(a) && Distinct(b) && forall x :: x in a ==> x !in b
  {
    forall i, j | 0 <= i < j < |a| ensures a[i] != a[j] {
      assert a[i] == (a + b)[i] && a[j] == (a + b)[j];
    }
    forall i, j | 0 <= i < j < |b| ensures b[i] != b[j] {
      assert b[i] == (a + b)[|a| + i] && b[j] == (a + b)[|a| + j];
    }
    forall x | x in a ensures x !in b {
      var i :| 0 <= i < |a| && a[i] == x;
      forall j | 0 <= j < |b| ensures b[j] != x {
        assert a[i] == (a + b)[i] && b[j] == (a + b)[|a| + j];
      }
    }
  }

  /** The entries of a table before its first -1: the sectors it uses. */
  function InUse(t: seq<int32>): (u: seq<int32>)
    ensures |u| == FirstUnused(t) && u == t[..|u|]
  {
    t[..FirstUnused(t)]
  }

  /**
   * A table entry filled by one `find()` between free maps `before` and
   * `after`: a sector that was free before and is in use after, or -1 if the
   * map had run out (in which case it is still full).
   */
  ghost predicate Granted(e: int, before: seq<bool>, after: seq<bool>) {
    || (e == Unused && Full(after))
    || (0 <= e < |after| == |before| && !before[e] && after[e])
  }

  /** Entries `lo..hi` of the table were filled by `find()`; every other entry is unchanged. */
  ghost predicate GrownRange(t0: seq<int32>, t1: seq<int32>, lo: int, hi: int,
                             b0: seq<bool>, b1: seq<bool>) {
    && |t0| == |t1|
    && forall e :: 0 <= e < |t1| ==>
         if lo <= e < hi then Granted(t1[e], b0, b1) else t1[e] == t0[e]
  }

  /**
   * Exactly what `hi - lo` successive `find()` calls storing into entries
   * `lo..hi` do: the entries are distinct free sectors while the map lasts and
   * -1 after, the map marks exactly those sectors, and nothing else changes.
   */
  ghost predicate Grant(t0: seq<int32>, t1: seq<int32>, lo: int, hi: int,
                        b0: seq<bool>, b1: seq<bool>)
    requires 0 <= lo <= hi <= |t1|
  {
    && |b0| == |b1|
    && GrownRange(t0, t1, lo, hi, b0, b1)
    && (forall e :: lo <= e < hi ==> (t1[e] == Unused <==> e - lo >= CountClear(b0)))
    && (forall a, b :: lo <= a < b < hi && t1[a] != Unused ==> t1[a] != t1[b])
    && (forall x :: 0 <= x < |b1| ==> b1[x] == (b0[x] || x in t1[lo..hi]))
    && CountClear(b1) == if CountClear(b0) >= hi - lo then CountClear(b0) - (hi - lo) else 0
  }

  /**
   * The sectors `s` a run of `find()` calls took between maps `b0` and `b1`:
   * each was free before and is in use after (or is -1 once the map is full),
   * no sector occurs twice, and the map marks exactly these sectors besides
   * those it marked before.
   */
  ghost predicate Fresh(s: seq<int32>, b0: seq<bool>, b1: seq<bool>) {
    && |b0| == |b1|
    && (forall e :: 0 <= e < |s| ==> Granted(s[e], b0, b1))
    && (forall a, b :: 0 <= a < b < |s| && s[a] != Unused ==> s[a] != s[b])
    && (forall x {:trigger Marked(b1, x)} {:trigger Marked(b0, x)} ::
          Marked(b1, x) <==> Marked(b0, x) || (x != Unused && x in s))
  }

  /** The entries a `Grant` fills are the sectors it took. */
  lemma GrantFresh(t0: seq<int32>, t1: seq<int32>, lo: int, hi: int, b0: seq<bool>, b1: seq<bool>)
    requires 0 <= lo <= hi <= |t1| && Grant(t0, t1, lo, hi, b0, b1)
    ensures Fresh(t1[lo..hi], b0, b1)
  {
    var s := t1[lo..hi];
    forall e | 0 <= e < |s| ensures Granted(s[e], b0, b1) {
      assert s[e] == t1[lo + e];
    }
    forall a, b | 0 <= a < b < |s| && s[a] != Unused ensures s[a] != s[b] {
      assert s[a] == t1[lo + a] && s[b] == t1[lo + b];
    }
    forall x ensures Marked(b1, x) <==> Marked(b0, x) || (x != Unused && x in s) {
      if x != Unused && x in s {
        var e :| 0 <= e < |s| && s[e] == x;
        assert Granted(s[e], b0, b1);
      }
    }
  }

  /** Two runs of `find()`, one after the other, took the sectors of both, and no sector twice. */
  lemma FreshJoin(p: seq<int32>, q: seq<int32>, b0: seq<bool>, b1: seq<bool>, b2: seq<bool>)
    requires Fresh(p, b0, b1) && Fresh(q, b1, b2)
    ensures Fresh(p + q, b0, b2)
  {
    var s := p + q;
    forall e | 0 <= e < |s| ensures Granted(s[e], b0, b2) {
      if e < |p| {
        assert s[e] == p[e] && Granted(p[e], b0, b1);
        if p[e] == Unused {
          assert Full(b2) by {
            forall x | 0 <= x < |b2| ensures b2[x] { assert Marked(b1, x) && Marked(b2, x); }
          }
        } else {
          assert Marked(b1, p[e]) && Marked(b2, p[e]);
        }
      } else {
        var y := q[e - |p|];
        assert s[e] == y && Granted(y, b1, b2);
        assert Marked(b0, y) ==> Marked(b1, y);
      }
    }
    forall a, b | 0 <= a < b < |s| && s[a] != Unused ensures s[a] != s[b] {
      if b < |p| {
        assert s[a] == p[a] && s[b] == p[b];
      } else if a >= |p| {
        assert s[a] == q[a - |p|] && s[b] == q[b - |p|];
      } else {
        assert s[a] == p[a] && s[b] == q[b - |p|];
        assert Granted(p[a], b0, b1) && Granted(q[b - |p|], b1, b2);
      }
    }
    forall x ensures Marked(b2, x) <==> Marked(b0, x) || (x != Unused && x in s) {
      assert x in s <==> x in p || x in q;
    }
  }

  /**
   * What `allocateAdditional` returns as written: the request fits the table
   * and, once the new sectors are taken, at least as many are still free.
   * That is: at least twice the sectors needed were free before the call.
   */
  function GrowthSucceeds(numBytes: nat, space: nat, freeBefore: nat): bool {
    var add := SectorsFor(numBytes + space) - SectorsFor(numBytes);
    numBytes + space <= MaxBlockSize && freeBefore >= 2 * add
  }

  /** Whether the request can be met at all: it fits the table and enough sectors are free. */
  function GrowthFeasible(numBytes: nat, space: nat, freeBefore: nat): bool {
    var add := SectorsFor(numBytes + space) - SectorsFor(numBytes);
    numBytes + space <= MaxBlockSize && freeBefore >= add
  }

  /**
   * As written, growing an empty table by one byte fails when exactly one
   * sector is free, although one sector is all it needs; the sector found
   * stays marked in the map.
   */
  lemma OneFreeSectorIsNotEnough()
    ensures GrowthFeasible(0, 1, 1) && !GrowthSucceeds(0, 1, 1)
  {
  }

  /** `internalize`: entry `i` of the table is read from bytes `pos + 4i ..` of the buffer. */
  method Internalize(table: array<int32>, buffer: array<byte>, pos: nat)
    requires table.Length == NumDirect && pos + IntBytes * NumDirect <= buffer.Length
    modifies table
    ensures forall i :: 0 <= i < NumDirect ==>
              table[i] == BytesToInt(buffer[pos + IntBytes * i..pos + IntBytes * i + IntBytes])
  {
    for i := 0 to NumDirect
      invariant forall j :: 0 <= j < i ==>
                  table[j] == BytesToInt(buffer[pos + IntBytes * j..pos + IntBytes * j + IntBytes])
    {
      table[i] := BytesToInt(buffer[pos + IntBytes * i..pos + IntBytes * i + IntBytes]);
    }
  }

  /** `externalize`: entry `i` of the table is written to bytes `pos + 4i ..`; no other byte changes. */
  method Externalize(table: array<int32>, buffer: array<byte>, pos: nat)
    requires table.Length == NumDirect && pos + IntBytes * NumDirect <= buffer.Length
    modifies buffer
    ensures forall i :: 0 <= i < NumDirect ==>
              buffer[pos + IntBytes * i..pos + IntBytes * i + IntBytes] == IntToBytes(table[i])
    ensures forall k :: 0 <= k < buffer.Length && !(pos <= k < pos + IntBytes * NumDirect) ==>
              buffer[k] == old(buffer[k])
  {
    for i := 0 to NumDirect
      invariant forall j :: 0 <= j < i ==>
                  buffer[pos + IntBytes * j..pos + IntBytes * j + IntBytes] == IntToBytes(table[j])
      invariant forall k :: 0 <= k < buffer.Length && !(pos <= k < pos + IntBytes * i) ==>
                  buffer[k] == old(buffer[k])
    {
      var b := IntToBytes(table[i]);
      var at := pos + IntBytes * i;
      buffer[at], buffer[at + 1], buffer[at + 2], buffer[at + 3] := b[0], b[1], b[2], b[3];
      assert buffer[at..at + IntBytes] == b;
    }
  }

  /** Read one sector into a new buffer and internalize it from position 0. */
  method ReadTable(table: array<int32>, disk: Disk, sector: int)
    requires table.Length == NumDirect && disk.Valid() && 0 <= sector < |disk.sectors|
    modifies table
    ensures table[..] == Decode(disk.sectors[sector])
  {
    var buffer := new byte[SectorSize];
    disk.ReadSector(sector, buffer);
    Internalize(table, buffer, 0);
    assert buffer[..] == disk.sectors[sector];
    forall i | 0 <= i < NumDirect ensures table[i] == Decode(disk.sectors[sector])[i] {
      DecodeAt(disk.sectors[sector], i);
      assert buffer[IntBytes * i..IntBytes * i + IntBytes] == disk.sectors[sector][IntBytes * i..IntBytes * i + IntBytes];
    }
  }

  /** Externalize the table into a new buffer from position 0 and write it to one sector. */
  method WriteTable(table: array<int32>, disk: Disk, sector: int)
    requires table.Length == NumDirect && disk.Valid() && 0 <= sector < |disk.sectors|
    modifies disk
    ensures disk.Valid()
    ensures disk.sectors == old(disk.sectors)[sector := Encode(table[..])]
  {
    var buffer := new byte[SectorSize];
    Externalize(table, buffer, 0);
    forall i | 0 <= i < NumDirect
      ensures buffer[..][IntBytes * i..IntBytes * i + IntBytes] == IntToBytes(table[..][i])
    {
      assert buffer[..][IntBytes * i..IntBytes * i + IntBytes] == buffer[IntBytes * i..IntBytes * i + IntBytes];
    }
    EncodeUnique(buffer[..], table[..]);
    disk.WriteSector(sector, buffer);
  }

  /** The loop of `deallocate`: the sectors in entries `0..n` of the table are cleared in the free map. */
  method ClearEntries(table: array<int32>, freeMap: BitMap, n: nat)
    requires n <= table.Length && Distinct(table[..n])
    requires forall x :: x in table[..n] ==> 0 <= x < |freeMap.bits| && freeMap.bits[x]
    modifies freeMap
    ensures |freeMap.bits| == |old(freeMap.bits)|
    ensures forall x :: 0 <= x < |freeMap.bits| ==> freeMap.bits[x] == (old(freeMap.bits[x]) && x !in table[..n])
    ensures freeMap.NumClear() == old(freeMap.NumClear()) + n
  {
    ghost var b0 := freeMap.bits;
    for i := 0 to n
      invariant |freeMap.bits| == |b0|
      invariant forall x :: 0 <= x < |b0| ==> freeMap.bits[x] == (b0[x] && x !in table[..i])
      invariant freeMap.NumClear() == CountClear(b0) + i
    {
      assert table[i] in table[..n];
      assert freeMap.Test(table[i]) by {
        assert table[i] !in table[..i] by {
          assert table[..n] == table[..i] + table[i..n];
          DistinctSplit(table[..i], table[i..n]);
          assert table[i] in table[i..n];
        }
      }
      freeMap.Clear(table[i]);
      assert table[..i + 1] == table[..i] + [table[i]];
    }
  }

  /** The loop of `allocateAdditional`: entries `lo..hi` of the table are filled by `freeMap.find()`. */
  method FindSectors(table: array<int32>, freeMap: BitMap, lo: nat, hi: nat)
    requires freeMap.Valid() && lo <= hi <= table.Length
    modifies table, freeMap
    ensures freeMap.Valid()
    ensures Grant(old(table[..]), table[..], lo, hi, old(freeMap.bits), freeMap.bits)
  {
    ghost var t0, b0 := table[..], freeMap.bits;
    var i := lo;
    while i < hi
      invariant lo <= i <= hi
      invariant freeMap.Valid() && |freeMap.bits| == |b0|
      invariant Grant(t0, table[..], lo, i, b0, freeMap.bits)
    {
      ghost var bi := freeMap.bits;
      if CountClear(bi) == 0 { CountClearFull(bi); }
      var s := freeMap.Find();
      table[i] := s;
      i := i + 1;
      assert table[lo..i] == table[lo..i - 1] + [s];
    }
  }

  class SingleBlock {
    /** `dataSectors`: the table. */
    const dataSectors: array<int32>
    /** `filesystem`: where `fetchFrom`/`writeBack` read and write. */
    const disk: Disk

    ghost predicate Valid() {
      dataSectors.Length == NumDirect
    }

    /** A new table has `NumDirect` entries, all -1. */
    constructor (disk: Disk)
      ensures Valid() && this.disk == disk && fresh(dataSectors)
      ensures forall i :: 0 <= i < NumDirect ==> dataSectors[i] == Unused
    {
      this.disk := disk;
      dataSectors := new int32[NumDirect];
      new;
      var i := 0;
      while i < NumDirect
        invariant 0 <= i <= NumDirect
        invariant forall j :: 0 <= j < i ==> dataSectors[j] == Unused
      {
        dataSectors[i] := Unused;
        i := i + 1;
      }
    }

    /** `fetchFrom`: the table becomes the one stored in `sector`. */
    method FetchFrom(sector: int)
      requires Valid() && disk.Valid() && 0 <= sector < |disk.sectors|
      modifies dataSectors
      ensures dataSectors[..] == Decode(disk.sectors[sector])
    {
      ReadTable(dataSectors, disk, sector);
    }

    /** `writeBack`: `sector` now holds the encoded table; no other sector changes. */
    method WriteBack(sector: int)
      requires Valid() && disk.Valid() && 0 <= sector < |disk.sectors|
      modifies disk
      ensures disk.Valid()
      ensures disk.sectors == old(disk.sectors)[sector := Encode(dataSectors[..])]
    {
      WriteTable(dataSectors, disk, sector);
    }

    /**
     * `allocateAdditional`: grow the part of the table in use from `numBytes`
     * bytes by `space` more.  A request past `MaxBlockSize` fails and changes
     * nothing.  Otherwise the sectors for the new bytes are found first and
     * the free count is checked afterwards, so the call can fail after taking
     * sectors, which stay assigned and marked.
     */
    method AllocateAdditional(freeMap: BitMap, space: nat, numBytes: nat) returns (ok: bool)
      requires Valid() && freeMap.Valid() && numBytes + space <= Int32Max
      modifies dataSectors, freeMap
      ensures freeMap.Valid()
      ensures ok == GrowthSucceeds(numBytes, space, old(freeMap.NumClear()))
      ensures Monotone(old(freeMap.bits), freeMap.bits)
      ensures numBytes + space > MaxBlockSize ==>
                dataSectors[..] == old(dataSectors[..]) && freeMap.bits == old(freeMap.bits)
      ensures numBytes + space <= MaxBlockSize ==>
                Grant(old(dataSectors[..]), dataSectors[..], SectorsFor(numBytes), SectorsFor(numBytes + space),
                      old(freeMap.bits), freeMap.bits)
      ensures ok ==> forall e :: SectorsFor(numBytes) <= e < SectorsFor(numBytes + space) ==>
                       dataSectors[e] != Unused
    {
      var numSectors := numBytes / SectorSize;
      if numBytes % SectorSize != 0 {
        numSectors := numSectors + 1;
      }
      var totalSize := numBytes + space;
      if totalSize > MaxBlockSize {
        return false;
      }
      var totalSectors := totalSize / SectorSize;
      if totalSize % SectorSize != 0 {
        totalSectors := totalSectors + 1;
      }
      assert numSectors == SectorsFor(numBytes) && totalSectors == SectorsFor(totalSize);
      var addSectors := totalSectors - numSectors;
      ghost var free0 := freeMap.NumClear();
      if addSectors != 0 {
        FindSectors(dataSectors, freeMap, numSectors, totalSectors);
      } else {
        assert dataSectors[numSectors..totalSectors] == [];
      }
      assert freeMap.NumClear() == if free0 >= addSectors then free0 - addSectors else 0;
      ok := !(freeMap.NumClear() < addSectors || NumDirect < totalSectors);
    }

    /**
     * The same growth with the free count checked before anything is taken:
     * it either takes exactly the sectors the new bytes need and succeeds, or
     * fails and changes nothing.
     */
    method AllocateAdditionalAtomic(freeMap: BitMap, space: nat, numBytes: nat) returns (ok: bool)
      requires Valid() && freeMap.Valid() && numBytes + space <= Int32Max
      modifies dataSectors, freeMap
      ensures freeMap.Valid()
      ensures ok == GrowthFeasible(numBytes, space, old(freeMap.NumClear()))
      ensures !ok ==> dataSectors[..] == old(dataSectors[..]) && freeMap.bits == old(freeMap.bits)
      ensures ok ==> Grant(old(dataSectors[..]), dataSectors[..], SectorsFor(numBytes), SectorsFor(numBytes + space),
                           old(freeMap.bits), freeMap.bits)
      ensures ok ==> forall e :: SectorsFor(numBytes) <= e < SectorsFor(numBytes + space) ==>
                       dataSectors[e] != Unused
    {
      var numSectors := SectorsFor(numBytes);
      var totalSize := numBytes + space;
      if totalSize > MaxBlockSize {
        return false;
      }
      var totalSectors := SectorsFor(totalSize);
      if freeMap.NumClear() < totalSectors - numSectors {
        return false;
      }
      FindSectors(dataSectors, freeMap, numSectors, totalSectors);
      ok := true;
    }

    /**
     * `deallocate`: every entry before the first -1 is cleared in the free
     * map; each must be in use (the source asserts it).  The table itself is
     * left as it is.
     */
    method Deallocate(freeMap: BitMap)
      requires Valid()
      requires Distinct(InUse(dataSectors[..]))
      requires forall x :: x in InUse(dataSectors[..]) ==> 0 <= x < |freeMap.bits| && freeMap.bits[x]
      modifies freeMap
      ensures |freeMap.bits| == |old(freeMap.bits)|
      ensures forall x :: 0 <= x < |freeMap.bits| ==>
                freeMap.bits[x] == (old(freeMap.bits[x]) && x !in InUse(dataSectors[..]))
      ensures freeMap.NumClear() == old(freeMap.NumClear()) + |InUse(dataSectors[..])|
    {
      var numberSectors := 0;
      while numberSectors < dataSectors.Length && dataSectors[numberSectors] != Unused
        invariant 0 <= numberSectors <= dataSectors.Length
        invariant forall j :: 0 <= j < numberSectors ==> dataSectors[j] != Unused
      {
        numberSectors := numberSectors + 1;
      }
      assert dataSectors[..numberSectors] == InUse(dataSectors[..]);
      ClearEntries(dataSectors, freeMap, numberSectors);
    }

    /**
     * `byteToSector`: the sector holding file byte `offset`, which lies in
     * this tier's region: the entry whose sector covers that byte.
     */
    function ByteToSector(offset: int32): (r: int32)
      requires Valid() && DirectBytes <= offset < DirectBytes + MaxBlockSize
      reads dataSectors
      ensures forall i :: (0 <= i < NumDirect &&
                DirectBytes + i * SectorSize <= offset < DirectBytes + (i + 1) * SectorSize) ==>
                r == dataSectors[i]
    {
      dataSectors[offset / SectorSize - DirectSectors]
    }

    /** `byteToSectorForDouble`: entry `sector` of the table, counted from the table's own start. */
    function ByteToSectorForDouble(sector: int): (r: int32)
      requires Valid() && 0 <= sector < NumDirect
      reads dataSectors
      ensures r == dataSectors[..][sector]
    {
      dataSectors[sector]
    }
  }
}
