/**
 * `doubleBlock`: the double-indirect tier of a file header.  One sector holds
 * a table of `NumDirect` sector numbers, each naming the sector of a child
 * `singleBlock`; the used entries are at the front and every unused entry is
 * -1.  The tier covers the file bytes that follow the direct sectors and the
 * single-indirect tier, `MaxBlockSize` bytes per child.
 *
 * Sector numbers inside the tier are counted globally: data sector `g` of
 * the tier is entry `g % NumDirect` of child `g / NumDirect`.
 */
module DoubleBlocks {
  import opened JavaTypes
  import opened Storage
  import opened Layout
  import opened SingleBlocks

  /** First file offset served by this tier: after the direct sectors and one full child (see `TierSizes`). */
  const DoubleBytes: nat := 7680

  /** Bytes the tier can address (see `TierSizes`). */
  const MaxDoubleSize: nat := 131072

  /** How the sizes of the tier follow from those of a table. */
  lemma TierSizes()
    ensures DoubleBytes == (DirectSectors + NumDirect) * SectorSize
    ensures MaxDoubleSize == NumDirect * MaxBlockSize
  {
  }

  /** Number of children needed to hold `bytes` bytes. */
  function ChildrenFor(bytes: nat): (n: nat)
    ensures bytes <= n * MaxBlockSize < bytes + MaxBlockSize
  {
    bytes / MaxBlockSize + (if bytes % MaxBlockSize != 0 then 1 else 0)
  }

  /** `x` cut down to `0..NumDirect`. */
  function Clamp(x: int): (r: nat)
    ensures r <= NumDirect
    ensures 0 <= x <= NumDirect ==> r == x
  {
    if x < 0 then 0 else if x > NumDirect then NumDirect else x
  }

  /** `x` if it is positive, else 0: what is left of a free count after taking more than it holds. */
  function Sat(x: int): (r: nat)
    ensures r >= x
    ensures x >= 0 ==> r == x
  {
    if x < 0 then 0 else x
  }

  /** How many of the tier's first `x` data sectors lie in child `k`. */
  function Share(x: int, k: int): (r: nat)
    ensures r <= NumDirect
  {
    Clamp(x - k * NumDirect)
  }

  /**
   * Children `0..upTo` of `t1` grew from `t0` by the part of the tier's data
   * sectors `lo..hi` that lies in them, with sectors found between maps `b0`
   * and `b1`; every later child is unchanged.
   */
  ghost predicate TablesGrown(t0: seq<seq<int32>>, t1: seq<seq<int32>>, lo: int, hi: int, upTo: int,
                              b0: seq<bool>, b1: seq<bool>)
  {
    && |t0| == |t1| == NumDirect
    && forall k :: 0 <= k < NumDirect ==>
         if k < upTo then GrownRange(t0[k], t1[k], Share(lo, k), Share(hi, k), b0, b1)
         else t1[k] == t0[k]
  }

  /** A grown range stays one when the maps around it are widened by further finds. */
  lemma GrownRangeWiden(t0: seq<int32>, t1: seq<int32>, lo: int, hi: int,
                        c0: seq<bool>, c1: seq<bool>, b0: seq<bool>, b1: seq<bool>)
    requires GrownRange(t0, t1, lo, hi, c0, c1)
    requires Monotone(b0, c0) && Monotone(c1, b1)
    ensures GrownRange(t0, t1, lo, hi, b0, b1)
  {
    forall e | 0 <= e < |t1| && lo <= e < hi
      ensures Granted(t1[e], b0, b1)
    {
      assert Granted(t1[e], c0, c1);
    }
  }

  /** Growing child `c` by its share of the range extends `TablesGrown` by one child. */
  lemma StepChild(t0: seq<seq<int32>>, t1: seq<seq<int32>>, t2: seq<seq<int32>>, c: nat, lo: int, hi: int,
                  b0: seq<bool>, b1: seq<bool>, b2: seq<bool>)
    requires TablesGrown(t0, t1, lo, hi, c, b0, b1) && c < NumDirect
    requires Monotone(b0, b1) && Monotone(b1, b2)
    requires |t2| == NumDirect && forall k :: 0 <= k < NumDirect && k != c ==> t2[k] == t1[k]
    requires GrownRange(t1[c], t2[c], Share(lo, c), Share(hi, c), b1, b2)
    ensures TablesGrown(t0, t2, lo, hi, c + 1, b0, b2)
  {
    forall k | 0 <= k < c
      ensures GrownRange(t0[k], t2[k], Share(lo, k), Share(hi, k), b0, b2)
    {
      GrownRangeWiden(t0[k], t1[k], Share(lo, k), Share(hi, k), b0, b1, b0, b2);
    }
    assert t1[c] == t0[c];
    GrownRangeWiden(t0[c], t2[c], Share(lo, c), Share(hi, c), b1, b2, b0, b2);
  }

  /** Children that lie wholly below the range have nothing to grow. */
  lemma NothingBelow(t0: seq<seq<int32>>, lo: int, hi: int, m: nat, b0: seq<bool>, b1: seq<bool>)
    requires |t0| == NumDirect && m * NumDirect <= lo <= hi
    ensures TablesGrown(t0, t0, lo, hi, m, b0, b1)
  {
    assert NumDirect == 32;
    forall k | 0 <= k < m && k < NumDirect
      ensures GrownRange(t0[k], t0[k], Share(lo, k), Share(hi, k), b0, b1)
    {
      assert (k + 1) * NumDirect <= m * NumDirect;
      assert Share(lo, k) == Share(hi, k) == NumDirect;
    }
  }

  /** Children that lie wholly above the range have nothing to grow. */
  lemma NothingAbove(t0: seq<seq<int32>>, t1: seq<seq<int32>>, lo: int, hi: int, m: nat,
                     b0: seq<bool>, b1: seq<bool>)
    requires TablesGrown(t0, t1, lo, hi, m, b0, b1) && lo <= hi <= m * NumDirect
    ensures TablesGrown(t0, t1, lo, hi, NumDirect, b0, b1)
  {
    assert NumDirect == 32;
    forall k | m <= k < NumDirect
      ensures GrownRange(t0[k], t1[k], Share(lo, k), Share(hi, k), b0, b1)
    {
      assert m * NumDirect <= k * NumDirect;
      assert Share(lo, k) == Share(hi, k) == 0;
      assert t1[k] == t0[k];
    }
  }

  /** Tables of a child's size, as many as the tier has children. */
  ghost predicate TierShaped(t: seq<seq<int32>>) {
    |t| == NumDirect && forall k :: 0 <= k < NumDirect ==> |t[k]| == NumDirect
  }

  /** The entries that hold the tier's data sectors `lo..hi` within children `0..n`, child by child. */
  function NewData(t: seq<seq<int32>>, lo: int, hi: int, n: nat): (s: seq<int32>)
    requires lo <= hi && n <= NumDirect && TierShaped(t)
  {
    if n == 0 then [] else NewData(t, lo, hi, n - 1) + t[n - 1][Share(lo, n - 1)..Share(hi, n - 1)]
  }

  /** `x` cut down to `0..m`. */
  function Cap(x: int, m: int): int {
    if x < 0 then 0 else if x > m then m else x
  }

  /** Children `0..n` hold exactly as many of the data sectors `lo..hi` as lie below `n` whole tables. */
  lemma {:induction false} NewDataLength(t: seq<seq<int32>>, lo: int, hi: int, n: nat)
    requires lo <= hi && n <= NumDirect && TierShaped(t)
    ensures |NewData(t, lo, hi, n)| == Cap(hi, n * NumDirect) - Cap(lo, n * NumDirect)
  {
    if n > 0 {
      NewDataLength(t, lo, hi, n - 1);
    }
  }

  /** `NewData` of children `0..n` depends on those children's tables only. */
  lemma {:induction false} NewDataSame(t1: seq<seq<int32>>, t2: seq<seq<int32>>, lo: int, hi: int, n: nat)
    requires lo <= hi && n <= NumDirect && TierShaped(t1) && TierShaped(t2)
    requires forall k :: 0 <= k < n ==> t1[k] == t2[k]
    ensures NewData(t1, lo, hi, n) == NewData(t2, lo, hi, n)
  {
    if n > 0 {
      NewDataSame(t1, t2, lo, hi, n - 1);
    }
  }

  /** Children that lie wholly below the range hold none of it. */
  lemma {:induction false} NewDataBelow(t: seq<seq<int32>>, lo: int, hi: int, m: nat)
    requires m * NumDirect <= lo <= hi && m <= NumDirect && TierShaped(t)
    ensures NewData(t, lo, hi, m) == []
  {
    if m > 0 {
      NewDataBelow(t, lo, hi, m - 1);
      assert Share(lo, m - 1) == Share(hi, m - 1) == NumDirect;
    }
  }

  /** Children that lie wholly above the range add none of it. */
  lemma {:induction false} NewDataAbove(t: seq<seq<int32>>, lo: int, hi: int, m: nat, n: nat)
    requires lo <= hi <= m * NumDirect && m <= n <= NumDirect && TierShaped(t)
    ensures NewData(t, lo, hi, n) == NewData(t, lo, hi, m)
    decreases n
  {
    if n > m {
      NewDataAbove(t, lo, hi, m, n - 1);
      assert m * NumDirect <= (n - 1) * NumDirect;
      assert Share(lo, n - 1) == Share(hi, n - 1) == 0;
    }
  }

  /** Nothing taken yet. */
  lemma FreshNone(b: seq<bool>)
    ensures Fresh([], b, b)
  {
  }

  /**
   * Growing child `c` by its share of the range extends the sectors taken
   * for children `0..c` by the ones the child took.
   */
  lemma StepFresh(t1: seq<seq<int32>>, t2: seq<seq<int32>>, c: nat, lo: int, hi: int,
                  b0: seq<bool>, b1: seq<bool>, b2: seq<bool>)
    requires lo <= hi && c < NumDirect && TierShaped(t1) && TierShaped(t2)
    requires forall k :: 0 <= k < NumDirect && k != c ==> t2[k] == t1[k]
    requires Fresh(NewData(t1, lo, hi, c), b0, b1)
    requires Fresh(t2[c][Share(lo, c)..Share(hi, c)], b1, b2)
    ensures Fresh(NewData(t2, lo, hi, c + 1), b0, b2)
  {
    NewDataSame(t1, t2, lo, hi, c);
    FreshJoin(NewData(t1, lo, hi, c), t2[c][Share(lo, c)..Share(hi, c)], b0, b1, b2);
  }

  /** Between maps `b0` and `b1`, `n` sectors were taken from the free count, or all of them if fewer were free. */
  ghost predicate Took(b0: seq<bool>, b1: seq<bool>, n: int) {
    CountClear(b1) == Sat(CountClear(b0) - n)
  }

  /** Child `first + i` of children `first..first + count` lies inside data sectors `lo..hi` when they all do. */
  lemma ChildInside(first: nat, i: nat, count: nat, lo: int, hi: int)
    requires i < count && lo <= first * NumDirect && (first + count) * NumDirect <= hi
    ensures lo <= (first + i) * NumDirect && (first + i + 1) * NumDirect <= hi
    ensures i * NumDirect + NumDirect == (i + 1) * NumDirect
  {
  }

  /** Taking `a` and then `b` sectors takes `a + b`. */
  lemma TookChain(b0: seq<bool>, b1: seq<bool>, b2: seq<bool>, a: nat, b: nat)
    requires Took(b0, b1, a) && Took(b1, b2, b)
    ensures Took(b0, b2, a + b)
  {
  }

  /** A child lying wholly inside the data sectors `lo..hi` grows from empty by a whole table. */
  lemma FullShare(lo: int, hi: int, c: nat)
    requires lo <= c * NumDirect && (c + 1) * NumDirect <= hi
    ensures Share(lo, c) == SectorsFor(0) && Share(hi, c) == SectorsFor(0 + MaxBlockSize)
    ensures Share(hi, c) - Share(lo, c) == NumDirect
  {
    assert SectorsFor(MaxBlockSize) == NumDirect;
  }

  /** Moving a byte count by whole children moves its sector count by whole tables. */
  lemma SectorsShift(k: nat, x: nat)
    ensures SectorsFor(k * MaxBlockSize + x) == k * NumDirect + SectorsFor(x)
  {
    assert k * MaxBlockSize + x == (k * NumDirect + x / SectorSize) * SectorSize + x % SectorSize;
  }

  /** Moving a byte count by whole children moves its child count by as many. */
  lemma ChildrenShift(k: nat, x: nat)
    requires x < MaxBlockSize
    ensures ChildrenFor(k * MaxBlockSize + x) == k + (if x != 0 then 1 else 0)
  {
    assert MaxBlockSize == 4096;
    var n := ChildrenFor(k * MaxBlockSize + x);
    assert k * MaxBlockSize + x <= n * MaxBlockSize < k * MaxBlockSize + x + MaxBlockSize;
  }

  /** More bytes never need fewer children. */
  lemma ChildrenMonotone(a: nat, b: nat)
    requires a <= b
    ensures ChildrenFor(a) <= ChildrenFor(b)
  {
    assert MaxBlockSize == 4096;
  }

  /** Free bytes left in the last used child of a tier holding `numBytes` bytes (`remainSpace`). */
  function Remain(numBytes: nat): (n: nat)
    ensures n < MaxBlockSize
  {
    if numBytes % MaxBlockSize != 0 then MaxBlockSize - numBytes % MaxBlockSize else 0
  }

  /** The used children hold the bytes in use and the remaining free space of the last. */
  lemma UsedFacts(numBytes: nat)
    ensures ChildrenFor(numBytes) * MaxBlockSize == numBytes + Remain(numBytes)
    ensures numBytes % MaxBlockSize != 0 ==>
              && ChildrenFor(numBytes) >= 1
              && SectorsFor(numBytes) == (ChildrenFor(numBytes) - 1) * NumDirect + SectorsFor(numBytes % MaxBlockSize)
    ensures numBytes % MaxBlockSize == 0 ==> SectorsFor(numBytes) == ChildrenFor(numBytes) * NumDirect
  {
    var q, r := numBytes / MaxBlockSize, numBytes % MaxBlockSize;
    assert numBytes == q * MaxBlockSize + r;
    SectorsShift(q, r);
  }

  /** The bounds of the one step of a request that needs no new child: the last used child grows. */
  lemma SameChildPlan(numBytes: nat, space: nat)
    requires space > 0 && ChildrenFor(numBytes + space) == ChildrenFor(numBytes) <= NumDirect
    ensures var used, lo, hi := ChildrenFor(numBytes), SectorsFor(numBytes), SectorsFor(numBytes + space);
            && used >= 1 && (used - 1) * NumDirect <= lo <= hi <= used * NumDirect
            && numBytes % MaxBlockSize + space <= MaxBlockSize
            && Share(lo, used - 1) == SectorsFor(numBytes % MaxBlockSize)
            && Share(hi, used - 1) == SectorsFor(numBytes % MaxBlockSize + space)
            && Share(hi, used - 1) - Share(lo, used - 1) == hi - lo
  {
    assert NumDirect == 32 && MaxBlockSize == 4096;
    UsedFacts(numBytes);
    var q, r := numBytes / MaxBlockSize, numBytes % MaxBlockSize;
    assert numBytes == q * MaxBlockSize + r;
    SectorsShift(q, r + space);
    assert SectorsFor(MaxBlockSize) == NumDirect;
  }

  /** A request that needs new children fills the last used one, some full ones and a partial last one. */
  lemma NewChildFacts(numBytes: nat, space: nat)
    requires ChildrenFor(numBytes + space) > ChildrenFor(numBytes)
    ensures space > Remain(numBytes)
    ensures var rest := space - Remain(numBytes);
            var full, last := rest / MaxBlockSize, rest % MaxBlockSize;
            && ChildrenFor(numBytes + space) == ChildrenFor(numBytes) + full + (if last != 0 then 1 else 0)
            && SectorsFor(numBytes + space) == (ChildrenFor(numBytes) + full) * NumDirect + SectorsFor(last)
  {
    UsedFacts(numBytes);
    var used, total := ChildrenFor(numBytes), ChildrenFor(numBytes + space);
    assert MaxBlockSize == 4096;
    assert used * MaxBlockSize == numBytes + Remain(numBytes);
    assert total * MaxBlockSize < numBytes + space + MaxBlockSize;
    assert (used + 1) * MaxBlockSize <= total * MaxBlockSize;
    var rest := space - Remain(numBytes);
    var full, last := rest / MaxBlockSize, rest % MaxBlockSize;
    assert rest == full * MaxBlockSize + last;
    assert numBytes + space == (used + full) * MaxBlockSize + last;
    ChildrenShift(used + full, last);
    SectorsShift(used + full, last);
  }

  /**
   * The bounds of each step of a request that needs new children: `base` is
   * where the first new child starts, in data sectors of the tier, and
   * `fullEnd` where the last completely filled one ends.
   */
  lemma NewChildPlan(numBytes: nat, space: nat) returns (base: nat, fullEnd: nat)
    requires ChildrenFor(numBytes) < ChildrenFor(numBytes + space) <= NumDirect
    ensures var used, total := ChildrenFor(numBytes), ChildrenFor(numBytes + space);
            var lo, hi := SectorsFor(numBytes), SectorsFor(numBytes + space);
            var rest := space - Remain(numBytes);
            var full, last := rest / MaxBlockSize, rest % MaxBlockSize;
            && Remain(numBytes) < space
            && base == used * NumDirect && lo <= base <= fullEnd <= hi <= total * NumDirect
            && fullEnd == (used + full) * NumDirect && full * NumDirect == fullEnd - base
            && total == used + full + (if last != 0 then 1 else 0)
            && SectorsFor(MaxBlockSize) == NumDirect
            && (Remain(numBytes) != 0 ==>
                  && used >= 1 && (used - 1) * NumDirect <= lo
                  && numBytes % MaxBlockSize + Remain(numBytes) == MaxBlockSize
                  && Share(lo, used - 1) == SectorsFor(numBytes % MaxBlockSize)
                  && Share(hi, used - 1) == SectorsFor(numBytes % MaxBlockSize + Remain(numBytes))
                  && Share(hi, used - 1) - Share(lo, used - 1) == base - lo)
            && (Remain(numBytes) == 0 ==> base == lo)
            && (last != 0 ==>
                  && Share(lo, total - 1) == SectorsFor(0)
                  && Share(hi, total - 1) == SectorsFor(0 + last)
                  && Share(hi, total - 1) - Share(lo, total - 1) == hi - fullEnd)
            && (last == 0 ==> hi == fullEnd)
  {
    assert NumDirect == 32 && MaxBlockSize == 4096;
    UsedFacts(numBytes);
    NewChildFacts(numBytes, space);
    var used := ChildrenFor(numBytes);
    var rest := space - Remain(numBytes);
    var full := rest / MaxBlockSize;
    base := used * NumDirect;
    fullEnd := (used + full) * NumDirect;
    assert SectorsFor(MaxBlockSize) == NumDirect;
  }

  /** The bounds `FillLastUsedChild` needs, from those of `NewChildPlan`: the last used child's share, if it is partly filled. */
  lemma LastUsedPlan(numBytes: nat, space: nat)
    requires ChildrenFor(numBytes) < ChildrenFor(numBytes + space) <= NumDirect
    ensures var used, base := ChildrenFor(numBytes), ChildrenFor(numBytes) * NumDirect;
            var lo, hi := SectorsFor(numBytes), SectorsFor(numBytes + space);
            && Remain(numBytes) < space && lo <= base && lo <= hi
            && (Remain(numBytes) != 0 ==>
                  && 1 <= used && (used - 1) * NumDirect <= lo
                  && numBytes % MaxBlockSize + Remain(numBytes) == MaxBlockSize
                  && Share(lo, used - 1) == SectorsFor(numBytes % MaxBlockSize)
                  && Share(hi, used - 1) == SectorsFor(numBytes % MaxBlockSize + Remain(numBytes))
                  && Share(hi, used - 1) - Share(lo, used - 1) == base - lo)
            && (Remain(numBytes) == 0 ==> base == lo)
  {
    var _, _ := NewChildPlan(numBytes, space);
  }

  /** The bounds `GrowNewChildren` passes on to its steps, from those of `NewChildPlan`. */
  lemma NewChildSteps(numBytes: nat, space: nat) returns (base: int, fullEnd: int)
    requires ChildrenFor(numBytes) < ChildrenFor(numBytes + space) <= NumDirect
    ensures var used, total := ChildrenFor(numBytes), ChildrenFor(numBytes + space);
            var lo, hi := SectorsFor(numBytes), SectorsFor(numBytes + space);
            var rest := space - Remain(numBytes);
            var full, last := rest / MaxBlockSize, rest % MaxBlockSize;
            && rest >= 0 && 0 <= last < MaxBlockSize
            && base == used * NumDirect && fullEnd == (used + full) * NumDirect
            && lo <= base <= fullEnd <= hi <= total * NumDirect
            && used + full == total - (if last != 0 then 1 else 0)
            && (last != 0 ==>
                  && Share(lo, total - 1) == SectorsFor(0)
                  && Share(hi, total - 1) == SectorsFor(last)
                  && Share(hi, total - 1) - Share(lo, total - 1) == hi - fullEnd)
            && (last == 0 ==> hi == fullEnd)
  {
    base, fullEnd := NewChildPlan(numBytes, space);
  }

  /**
   * What `allocateAdditional` returns as written: an empty request succeeds;
   * otherwise the request must fit the tier and, after the sectors of the new
   * children and the new data sectors are taken, at least as many sectors as
   * new children must still be free.
   */
  function DoubleGrowthSucceeds(numBytes: nat, space: nat, freeBefore: nat): bool {
    var add := ChildrenFor(numBytes + space) - ChildrenFor(numBytes);
    var data := SectorsFor(numBytes + space) - SectorsFor(numBytes);
    space == 0 || (ChildrenFor(numBytes + space) <= NumDirect && Sat(freeBefore - add - data) >= add)
  }

  /**
   * Once a request that fits has taken its sectors between maps `b0` and
   * `b1`, the check `allocateAdditional` makes gives `DoubleGrowthSucceeds`.
   */
  lemma GrowthOutcome(numBytes: nat, space: nat, b0: seq<bool>, b1: seq<bool>)
    requires space > 0 && ChildrenFor(numBytes + space) <= NumDirect
    requires Took(b0, b1, (ChildrenFor(numBytes + space) - ChildrenFor(numBytes))
                          + (SectorsFor(numBytes + space) - SectorsFor(numBytes)))
    ensures !(CountClear(b1) < ChildrenFor(numBytes + space) - ChildrenFor(numBytes))
              == DoubleGrowthSucceeds(numBytes, space, CountClear(b0))
  {
    ChildrenMonotone(numBytes, numBytes + space);
  }

  /** The data sectors that children `0..n` use, child by child: the entries before each table's first -1. */
  function DataInUse(tables: seq<seq<int32>>, n: nat): (s: seq<int32>)
    requires n <= |tables|
  {
    if n == 0 then [] else DataInUse(tables, n - 1) + InUse(tables[n - 1])
  }

  /** The sectors child `k` uses are among those children `0..n` use, for `k < n`. */
  lemma {:induction false} DataInUseHas(tables: seq<seq<int32>>, k: nat, n: nat)
    requires k < n <= |tables|
    ensures forall x :: x in InUse(tables[k]) ==> x in DataInUse(tables, n)
    decreases n
  {
    if k < n - 1 {
      DataInUseHas(tables, k, n - 1);
    }
  }

  /** A sector is used by children `0..n` exactly when one of them uses it. */
  lemma {:induction false} DataInUseMembers(tables: seq<seq<int32>>, n: nat, x: int32)
    requires n <= |tables|
    ensures x in DataInUse(tables, n) <==> exists k :: 0 <= k < n && x in InUse(tables[k])
    decreases n
  {
    if n > 0 {
      DataInUseMembers(tables, n - 1, x);
    }
  }

  /** The sectors children `0..i` use have no repeats when those of children `0..n` have none. */
  lemma {:induction false} DistinctPrefix(tables: seq<seq<int32>>, i: nat, n: nat)
    requires i <= n <= |tables| && Distinct(DataInUse(tables, n))
    ensures Distinct(DataInUse(tables, i))
    decreases n
  {
    if i < n {
      DistinctSplit(DataInUse(tables, n - 1), InUse(tables[n - 1]));
      DistinctPrefix(tables, i, n - 1);
    }
  }

  /**
   * In a tier whose sectors are all distinct, none of the sectors that hold
   * the children's tables is a data sector of a child, so clearing the data
   * sectors alone leaves every table sector marked.
   */
  lemma TableSectorsNotData(entries: seq<int32>, tables: seq<seq<int32>>)
    requires FirstUnused(entries) <= |tables|
    requires Distinct(InUse(entries) + DataInUse(tables, FirstUnused(entries)))
    ensures forall x :: x in InUse(entries) ==> x !in DataInUse(tables, FirstUnused(entries))
  {
    DistinctSplit(InUse(entries), DataInUse(tables, FirstUnused(entries)));
  }

  /**
   * The disk after `writeBack` has written the tables of children `0..n` to
   * the sectors their entries name, in order.
   */
  function StoreChildren(d: seq<seq<byte>>, entries: seq<int32>, tables: seq<seq<int32>>, n: nat)
    : (r: seq<seq<byte>>)
    requires n <= |entries| && n <= |tables|
    requires forall k :: 0 <= k < n ==> 0 <= entries[k] < |d|
    ensures |r| == |d|
  {
    if n == 0 then d
    else StoreChildren(d, entries, tables, n - 1)[entries[n - 1] := Encode(tables[n - 1])]
  }

  /** A sector that no used entry names keeps its contents. */
  lemma {:induction false} StoreChildrenKeeps(d: seq<seq<byte>>, entries: seq<int32>, tables: seq<seq<int32>>,
                                             n: nat, s: int)
    requires n <= |entries| && n <= |tables|
    requires forall k :: 0 <= k < n ==> 0 <= entries[k] < |d|
    requires 0 <= s < |d| && s !in entries[..n]
    ensures StoreChildren(d, entries, tables, n)[s] == d[s]
  {
    if n > 0 {
      assert entries[..n - 1] == entries[..n][..n - 1];
      StoreChildrenKeeps(d, entries, tables, n - 1, s);
    }
  }

  /** When the used entries are distinct, the sector each names holds that child's encoded table. */
  lemma {:induction false} StoreChildrenStores(d: seq<seq<byte>>, entries: seq<int32>, tables: seq<seq<int32>>,
                                              n: nat, k: nat)
    requires n <= |entries| && n <= |tables|
    requires forall j :: 0 <= j < n ==> 0 <= entries[j] < |d|
    requires Distinct(entries[..n]) && k < n
    ensures StoreChildren(d, entries, tables, n)[entries[k]] == Encode(tables[k])
  {
    if k < n - 1 {
      assert entries[..n] == entries[..n - 1] + [entries[n - 1]];
      DistinctSplit(entries[..n - 1], [entries[n - 1]]);
      assert entries[k] in entries[..n - 1];
      StoreChildrenStores(d, entries, tables, n - 1, k);
    }
  }

  /**
   * Round trip of `writeBack` and `fetchFrom`: after the tier's table is
   * written to `sector` and each used child's table to the sector its entry
   * names, reading `sector` gives the entries back and reading each named
   * sector gives that child's table back, provided all these sectors differ.
   */
  lemma StoreChildrenReadBack(d: seq<seq<byte>>, sector: int, entries: seq<int32>, tables: seq<seq<int32>>)
    requires |entries| == NumDirect && |tables| == NumDirect && 0 <= sector < |d|
    requires forall k :: 0 <= k < NumDirect ==> |tables[k]| == NumDirect
    requires var n := FirstUnused(entries);
             && (forall k :: 0 <= k < n ==> 0 <= entries[k] < |d|)
             && Distinct(entries[..n]) && sector !in entries[..n]
    ensures var n := FirstUnused(entries);
            var r := StoreChildren(d[sector := Encode(entries)], entries, tables, n);
            && Decode(r[sector]) == entries
            && forall k :: 0 <= k < n ==> Decode(r[entries[k]]) == tables[k]
  {
    var n := FirstUnused(entries);
    var d' := d[sector := Encode(entries)];
    var r := StoreChildren(d', entries, tables, n);
    StoreChildrenKeeps(d', entries, tables, n, sector);
    ReadBackAt(r, sector, entries);
    forall k | 0 <= k < n ensures Decode(r[entries[k]]) == tables[k] {
      StoreChildrenStores(d', entries, tables, n, k);
      ReadBackAt(r, entries[k], tables[k]);
    }
  }

  /** A sector holding the encoding of a table reads back as that table. */
  lemma ReadBackAt(r: seq<seq<byte>>, s: int, t: seq<int32>)
    requires 0 <= s < |r| && r[s] == Encode(t)
    ensures Decode(r[s]) == t
  {
    DecodeEncode(t);
  }

  /**
   * The children's tables after `fetchFrom` has read those of children
   * `0..i` from the sectors their entries name; the others keep theirs.
   */
  ghost function Fetched(tables0: seq<seq<int32>>, d: seq<seq<byte>>, entries: seq<int32>, i: nat)
    : (t: seq<seq<int32>>)
    requires i <= |entries| && i <= |tables0|
    requires forall k :: 0 <= k < i ==> 0 <= entries[k] < |d|
    ensures |t| == |tables0|
    ensures forall k :: 0 <= k < |t| ==> t[k] == if k < i then Decode(d[entries[k]]) else tables0[k]
  {
    if i == 0 then tables0 else Fetched(tables0, d, entries, i - 1)[i - 1 := Decode(d[entries[i - 1]])]
  }

  /** Where entry `e` of child `k` falls among the sectors of the tier's region. */
  function RegionIndex(k: nat, e: nat): nat {
    k * NumDirect + e
  }

  /** The sector of the region `byteToSector` computes for an offset is the only one whose bytes hold it. */
  lemma RegionSector(offset: int)
    requires DoubleBytes <= offset < DoubleBytes + MaxDoubleSize
    ensures var loc := offset / SectorSize - 28 - 32;
            && 0 <= loc / 32 < NumDirect
            && forall k, e :: 0 <= k < NumDirect && 0 <= e < NumDirect &&
                 DoubleBytes + RegionIndex(k, e) * SectorSize <= offset < DoubleBytes + (RegionIndex(k, e) + 1) * SectorSize
                 ==> k == loc / 32 && e == loc % 32
  {
    var loc := offset / SectorSize - 28 - 32;
    forall k: nat, e: nat | k < NumDirect && e < NumDirect &&
        DoubleBytes + RegionIndex(k, e) * SectorSize <= offset < DoubleBytes + (RegionIndex(k, e) + 1) * SectorSize
      ensures k == loc / 32 && e == loc % 32
    {
      var s := RegionIndex(k, e);
      assert s * SectorSize <= offset - DoubleBytes < s * SectorSize + SectorSize;
      assert (offset - DoubleBytes) / SectorSize == s;
      assert loc == s;
    }
  }

  class DoubleBlock {
    /** `dataSectors`: the sectors of the children's tables. */
    const dataSectors: array<int32>
    /** `blockArray`: the children, one per entry. */
    const blockArray: array<SingleBlock>
    /** `filesystem`: where `fetchFrom`/`writeBack` read and write. */
    const disk: Disk

    /** The tables of the children, each a separate array on the same disk. */
    ghost predicate Valid()
      reads blockArray
    {
      && dataSectors.Length == NumDirect && blockArray.Length == NumDirect
      && (forall k :: 0 <= k < NumDirect ==>
            blockArray[k].Valid() && blockArray[k].disk == disk && blockArray[k].dataSectors != dataSectors)
      && (forall a, b :: 0 <= a < b < NumDirect ==> blockArray[a].dataSectors != blockArray[b].dataSectors)
    }

    /** The children's tables, the state `allocateAdditional` and `fetchFrom` change. */
    ghost function ChildArrays(): set<array<int32>>
      reads blockArray
    {
      set k | 0 <= k < blockArray.Length :: blockArray[k].dataSectors
    }

    /** The contents of the children's tables. */
    ghost function Tables(): (t: seq<seq<int32>>)
      requires Valid()
      reads blockArray, ChildArrays()
      ensures |t| == NumDirect
      ensures forall k :: 0 <= k < NumDirect ==> t[k] == blockArray[k].dataSectors[..]
    {
      seq(NumDirect, k requires 0 <= k < blockArray.Length reads blockArray, ChildArrays() =>
                       blockArray[k].dataSectors[..])
    }

    /**
     * The sectors that growing the tier by `space` bytes from `numBytes`
     * takes: those of the new children's tables, then the new data sectors,
     * child by child.
     */
    ghost function Added(numBytes: nat, space: nat): (s: seq<int32>)
      requires Valid() && ChildrenFor(numBytes + space) <= NumDirect
      reads blockArray, ChildArrays(), dataSectors
    {
      ChildrenMonotone(numBytes, numBytes + space);
      dataSectors[ChildrenFor(numBytes)..ChildrenFor(numBytes + space)]
        + NewData(Tables(), SectorsFor(numBytes), SectorsFor(numBytes + space), NumDirect)
    }

    /** A new tier: every entry is -1 and every child is a new, empty table. */
    constructor (disk: Disk)
      ensures Valid() && this.disk == disk && fresh(dataSectors) && fresh(blockArray)
      ensures forall i :: 0 <= i < NumDirect ==> dataSectors[i] == Unused
      ensures forall k, e :: 0 <= k < NumDirect && 0 <= e < NumDirect ==> blockArray[k].dataSectors[e] == Unused
      ensures forall k :: 0 <= k < NumDirect ==> fresh(blockArray[k].dataSectors)
    {
      var table := new int32[NumDirect];
      for i := 0 to NumDirect
        invariant forall j :: 0 <= j < i ==> table[j] == Unused
      {
        table[i] := Unused;
      }
      var first := new SingleBlock(disk);
      var children := new SingleBlock[NumDirect](_ => first);
      for i := 0 to NumDirect
        invariant forall j :: 0 <= j < NumDirect ==> table[j] == Unused
        invariant forall j :: 0 <= j < i ==>
                    && children[j].Valid() && children[j].disk == disk && children[j].dataSectors != table
                    && fresh(children[j].dataSectors)
                    && forall e :: 0 <= e < NumDirect ==> children[j].dataSectors[e] == Unused
        invariant forall a, b :: 0 <= a < b < i ==> children[a].dataSectors != children[b].dataSectors
      {
        children[i] := new SingleBlock(disk);
      }
      this.disk := disk;
      dataSectors := table;
      blockArray := children;
    }

    /**
     * Children `0..n` have grown since tables `tables0` and map `b0` by their
     * shares of the tier's data sectors `lo..hi`, taking the sectors
     * `NewData` lists for them, each one fresh.
     */
    ghost predicate GrownTo(freeMap: BitMap, tables0: seq<seq<int32>>, lo: int, hi: int, n: nat, b0: seq<bool>)
      reads blockArray, ChildArrays(), freeMap
    {
      && Valid() && freeMap.Valid() && lo <= hi && n <= NumDirect
      && Monotone(b0, freeMap.bits) && TablesGrown(tables0, Tables(), lo, hi, n, b0, freeMap.bits)
      && Fresh(NewData(Tables(), lo, hi, n), b0, freeMap.bits)
    }

    /** Before any child grows, the children below the first that owns a sector of `lo..hi` have grown by nothing. */
    lemma StartGrowth(freeMap: BitMap, lo: int, hi: int, m: nat)
      requires Valid() && freeMap.Valid() && lo <= hi && m <= NumDirect && m * NumDirect <= lo
      ensures GrownTo(freeMap, Tables(), lo, hi, m, freeMap.bits)
    {
      NothingBelow(Tables(), lo, hi, m, freeMap.bits, freeMap.bits);
      NewDataBelow(Tables(), lo, hi, m);
      FreshNone(freeMap.bits);
    }

    /** Once the children that own a sector of `lo..hi` have grown, all have. */
    lemma FinishGrowth(freeMap: BitMap, tables0: seq<seq<int32>>, lo: int, hi: int, m: nat, b0: seq<bool>)
      requires GrownTo(freeMap, tables0, lo, hi, m, b0) && hi <= m * NumDirect
      ensures GrownTo(freeMap, tables0, lo, hi, NumDirect, b0)
    {
      NothingAbove(tables0, Tables(), lo, hi, m, b0, freeMap.bits);
      NewDataAbove(Tables(), lo, hi, m, NumDirect);
    }

    /**
     * Child `c` grows by `space` bytes from `numBytes`, which is its share of
     * the tier's data sectors `lo..hi`; the children before it have grown,
     * taking the sectors `NewData` lists for them since map `b0`.
     */
    method GrowChild(freeMap: BitMap, c: nat, space: nat, numBytes: nat,
                     ghost tables0: seq<seq<int32>>, ghost lo: int, ghost hi: int, ghost b0: seq<bool>)
      requires c < NumDirect && numBytes + space <= MaxBlockSize && GrownTo(freeMap, tables0, lo, hi, c, b0)
      requires Share(lo, c) == SectorsFor(numBytes) && Share(hi, c) == SectorsFor(numBytes + space)
      modifies blockArray[c].dataSectors, freeMap
      ensures Valid() && freeMap.Valid() && Monotone(old(freeMap.bits), freeMap.bits)
      ensures Grant(old(Tables())[c], Tables()[c], Share(lo, c), Share(hi, c), old(freeMap.bits), freeMap.bits)
      ensures GrownTo(freeMap, tables0, lo, hi, c + 1, b0)
      ensures Took(old(freeMap.bits), freeMap.bits, Share(hi, c) - Share(lo, c))
    {
      ghost var t1, b1 := Tables(), freeMap.bits;
      var _ := blockArray[c].AllocateAdditional(freeMap, space, numBytes);
      StepChild(tables0, t1, Tables(), c, lo, hi, b0, b1, freeMap.bits);
      GrantFresh(t1[c], Tables()[c], Share(lo, c), Share(hi, c), b1, freeMap.bits);
      StepFresh(t1, Tables(), c, lo, hi, b0, b1, freeMap.bits);
    }

    /**
     * `allocateAdditional`: grow the part of the tier in use from `numBytes`
     * bytes by `space` more, whose children are the entries before the first
     * -1.  An empty request succeeds and a request past `MaxDoubleSize` fails,
     * both changing nothing.  Otherwise the sectors for the new children are
     * found first, then each child grows by its share of the new bytes, so the
     * data sectors `SectorsFor(numBytes)..SectorsFor(numBytes + space)` of the
     * tier are filled in order; the children's own results are ignored and the
     * free count is checked only against the new children, after everything
     * was taken.
     */
    method AllocateAdditional(freeMap: BitMap, space: nat, numBytes: nat) returns (ok: bool)
      requires Valid() && freeMap.Valid() && numBytes + space <= Int32Max
      requires FirstUnused(dataSectors[..]) == ChildrenFor(numBytes)
      modifies dataSectors, freeMap, ChildArrays()
      ensures Valid() && freeMap.Valid() && Monotone(old(freeMap.bits), freeMap.bits)
      ensures ok == DoubleGrowthSucceeds(numBytes, space, old(freeMap.NumClear()))
      ensures space == 0 || ChildrenFor(numBytes + space) > NumDirect ==>
                && dataSectors[..] == old(dataSectors[..]) && Tables() == old(Tables())
                && freeMap.bits == old(freeMap.bits)
      ensures space > 0 && ChildrenFor(numBytes + space) <= NumDirect ==>
                && GrownRange(old(dataSectors[..]), dataSectors[..], ChildrenFor(numBytes),
                              ChildrenFor(numBytes + space), old(freeMap.bits), freeMap.bits)
                && TablesGrown(old(Tables()), Tables(), SectorsFor(numBytes), SectorsFor(numBytes + space),
                               NumDirect, old(freeMap.bits), freeMap.bits)
                && Took(old(freeMap.bits), freeMap.bits, (ChildrenFor(numBytes + space) - ChildrenFor(numBytes))
                                                         + (SectorsFor(numBytes + space) - SectorsFor(numBytes)))
                && Fresh(Added(numBytes, space), old(freeMap.bits), freeMap.bits)
    {
      ghost var freeBefore := freeMap.NumClear();
      var numberOfSectors := 0;
      while numberOfSectors < NumDirect && dataSectors[numberOfSectors] != Unused
        invariant 0 <= numberOfSectors <= NumDirect
        invariant forall j :: 0 <= j < numberOfSectors ==> dataSectors[j] != Unused
      {
        numberOfSectors := numberOfSectors + 1;
      }
      assert numberOfSectors == FirstUnused(dataSectors[..]);
      if space == 0 {
        return true;
      }
      var singleBlockSize := MaxBlockSize;
      var totalSize := numBytes + space;
      var totalSectors := totalSize / singleBlockSize;
      if totalSize % singleBlockSize != 0 {
        totalSectors := totalSectors + 1;
      }
      assert totalSectors == ChildrenFor(totalSize);
      if totalSectors > NumDirect {
        return false;
      }
      var addSectors := totalSectors - numberOfSectors;
      ghost var b0 := freeMap.bits;
      Grow(freeMap, numBytes, space);
      GrowthOutcome(numBytes, space, b0, freeMap.bits);
      ok := !(freeMap.NumClear() < addSectors || NumDirect < totalSectors);
    }

    /**
     * The work of `allocateAdditional` once the request is known to fit: the
     * sectors of the new children are found, then the children grow.
     */
    method Grow(freeMap: BitMap, numBytes: nat, space: nat)
      requires Valid() && freeMap.Valid() && space > 0 && ChildrenFor(numBytes + space) <= NumDirect
      modifies dataSectors, freeMap, ChildArrays()
      ensures Valid() && freeMap.Valid() && Monotone(old(freeMap.bits), freeMap.bits)
      ensures GrownRange(old(dataSectors[..]), dataSectors[..], ChildrenFor(numBytes),
                         ChildrenFor(numBytes + space), old(freeMap.bits), freeMap.bits)
      ensures TablesGrown(old(Tables()), Tables(), SectorsFor(numBytes), SectorsFor(numBytes + space),
                          NumDirect, old(freeMap.bits), freeMap.bits)
      ensures Took(old(freeMap.bits), freeMap.bits, (ChildrenFor(numBytes + space) - ChildrenFor(numBytes))
                                                     + (SectorsFor(numBytes + space) - SectorsFor(numBytes)))
      ensures Fresh(Added(numBytes, space), old(freeMap.bits), freeMap.bits)
    {
      var numberOfSectors, totalSectors := ChildrenFor(numBytes), ChildrenFor(numBytes + space);
      ChildrenMonotone(numBytes, numBytes + space);
      ghost var b0, t0 := freeMap.bits, dataSectors[..];
      TakeChildSectors(freeMap, numberOfSectors, totalSectors);
      ghost var tp, bp := dataSectors[..], freeMap.bits;
      GrantFresh(t0, tp, numberOfSectors, totalSectors, b0, bp);
      GrowChildren(freeMap, numBytes, space);
      TookChain(b0, bp, freeMap.bits, totalSectors - numberOfSectors, SectorsFor(numBytes + space) - SectorsFor(numBytes));
      GrownRangeWiden(t0, tp, numberOfSectors, totalSectors, b0, bp, b0, freeMap.bits);
      assert dataSectors[..][numberOfSectors..totalSectors] == tp[numberOfSectors..totalSectors];
      FreshJoin(tp[numberOfSectors..totalSectors],
                NewData(Tables(), SectorsFor(numBytes), SectorsFor(numBytes + space), NumDirect),
                b0, bp, freeMap.bits);
    }

    /** The children grow by their shares of the new data sectors, with or without new children. */
    method GrowChildren(freeMap: BitMap, numBytes: nat, space: nat)
      requires Valid() && freeMap.Valid() && space > 0
      requires ChildrenFor(numBytes) <= ChildrenFor(numBytes + space) <= NumDirect
      modifies freeMap, ChildArrays()
      ensures Valid() && freeMap.Valid() && Monotone(old(freeMap.bits), freeMap.bits)
      ensures TablesGrown(old(Tables()), Tables(), SectorsFor(numBytes), SectorsFor(numBytes + space),
                          NumDirect, old(freeMap.bits), freeMap.bits)
      ensures Took(old(freeMap.bits), freeMap.bits, SectorsFor(numBytes + space) - SectorsFor(numBytes))
      ensures Fresh(NewData(Tables(), SectorsFor(numBytes), SectorsFor(numBytes + space), NumDirect),
                    old(freeMap.bits), freeMap.bits)
    {
      if ChildrenFor(numBytes) == ChildrenFor(numBytes + space) {
        GrowLastChild(freeMap, numBytes, space);
      } else {
        GrowNewChildren(freeMap, numBytes, space);
      }
    }

    /** The loop of `allocateAdditional` that finds a sector for each new child, entries `lo..hi`. */
    method TakeChildSectors(freeMap: BitMap, lo: nat, hi: nat)
      requires Valid() && freeMap.Valid() && lo <= hi <= NumDirect
      modifies dataSectors, freeMap
      ensures Valid() && freeMap.Valid() && Tables() == old(Tables())
      ensures Monotone(old(freeMap.bits), freeMap.bits)
      ensures Grant(old(dataSectors[..]), dataSectors[..], lo, hi, old(freeMap.bits), freeMap.bits)
      ensures Took(old(freeMap.bits), freeMap.bits, hi - lo)
    {
      FindSectors(dataSectors, freeMap, lo, hi);
    }

    /** The branch of `allocateAdditional` for a request that needs no new child: the last used child grows. */
    method GrowLastChild(freeMap: BitMap, numBytes: nat, space: nat)
      requires Valid() && freeMap.Valid() && space > 0
      requires ChildrenFor(numBytes + space) == ChildrenFor(numBytes) <= NumDirect
      modifies freeMap, ChildArrays()
      ensures Valid() && freeMap.Valid() && Monotone(old(freeMap.bits), freeMap.bits)
      ensures TablesGrown(old(Tables()), Tables(), SectorsFor(numBytes), SectorsFor(numBytes + space),
                          NumDirect, old(freeMap.bits), freeMap.bits)
      ensures Took(old(freeMap.bits), freeMap.bits, SectorsFor(numBytes + space) - SectorsFor(numBytes))
      ensures Fresh(NewData(Tables(), SectorsFor(numBytes), SectorsFor(numBytes + space), NumDirect),
                    old(freeMap.bits), freeMap.bits)
    {
      ghost var tables0, b0 := Tables(), freeMap.bits;
      ghost var lo, hi := SectorsFor(numBytes), SectorsFor(numBytes + space);
      var numberOfSectors := ChildrenFor(numBytes);
      SameChildPlan(numBytes, space);
      StartGrowth(freeMap, lo, hi, numberOfSectors - 1);
      GrowChild(freeMap, numberOfSectors - 1, space, numBytes % MaxBlockSize, tables0, lo, hi, b0);
      FinishGrowth(freeMap, tables0, lo, hi, numberOfSectors, b0);
    }

    /**
     * The branch of `allocateAdditional` for a request that needs new
     * children: the last used child is filled up, then each new child but the
     * last is filled completely and the last takes what is left.
     */
    method GrowNewChildren(freeMap: BitMap, numBytes: nat, space: nat)
      requires Valid() && freeMap.Valid()
      requires ChildrenFor(numBytes) < ChildrenFor(numBytes + space) <= NumDirect
      modifies freeMap, ChildArrays()
      ensures Valid() && freeMap.Valid() && Monotone(old(freeMap.bits), freeMap.bits)
      ensures TablesGrown(old(Tables()), Tables(), SectorsFor(numBytes), SectorsFor(numBytes + space),
                          NumDirect, old(freeMap.bits), freeMap.bits)
      ensures Took(old(freeMap.bits), freeMap.bits, SectorsFor(numBytes + space) - SectorsFor(numBytes))
      ensures Fresh(NewData(Tables(), SectorsFor(numBytes), SectorsFor(numBytes + space), NumDirect),
                    old(freeMap.bits), freeMap.bits)
    {
      ghost var tables0, b0 := Tables(), freeMap.bits;
      ghost var lo, hi := SectorsFor(numBytes), SectorsFor(numBytes + space);
      var singleBlockSize := MaxBlockSize;
      var numberOfSectors := ChildrenFor(numBytes);
      var totalSectors := ChildrenFor(numBytes + space);
      var remainSpace := Remain(numBytes);
      ghost var base, fullEnd := NewChildSteps(numBytes, space);
      var numberOfFullBlock := FillLastUsedChild(freeMap, numBytes, space, tables0, lo, hi, base, b0);
      var remainLastSpace := (space - remainSpace) % singleBlockSize;
      FillNewChildren(freeMap, numberOfSectors, numberOfFullBlock, remainLastSpace, totalSectors,
                      tables0, lo, hi, base, fullEnd, b0);
    }

    /**
     * The lines of `allocateAdditional` that fill up the last used child, if it
     * is partly filled, and count the new children to fill completely; the new
     * children start at data sector `base` of the tier.
     */
    method FillLastUsedChild(freeMap: BitMap, numBytes: nat, space: nat, ghost tables0: seq<seq<int32>>,
                             ghost lo: int, ghost hi: int, ghost base: int, ghost b0: seq<bool>)
      returns (numberOfFullBlock: nat)
      requires Valid() && freeMap.Valid()
      requires ChildrenFor(numBytes) < ChildrenFor(numBytes + space) <= NumDirect
      requires tables0 == Tables() && b0 == freeMap.bits
      requires lo == SectorsFor(numBytes) && hi == SectorsFor(numBytes + space)
      requires base == ChildrenFor(numBytes) * NumDirect
      modifies freeMap, ChildArrays()
      ensures numberOfFullBlock == (space - Remain(numBytes)) / MaxBlockSize
      ensures GrownTo(freeMap, tables0, lo, hi, ChildrenFor(numBytes), b0)
      ensures Took(b0, freeMap.bits, base - lo)
    {
      var singleBlockSize := MaxBlockSize;
      var numberOfSectors := ChildrenFor(numBytes);
      var remainSpace := 0;
      if numBytes % singleBlockSize != 0 {
        remainSpace := singleBlockSize - numBytes % singleBlockSize;
      }
      LastUsedPlan(numBytes, space);
      if remainSpace != singleBlockSize && remainSpace != 0 {
        StartGrowth(freeMap, lo, hi, numberOfSectors - 1);
        GrowChild(freeMap, numberOfSectors - 1, remainSpace, numBytes % singleBlockSize, tables0, lo, hi, b0);
        numberOfFullBlock := (space - remainSpace) / singleBlockSize;
      } else {
        StartGrowth(freeMap, lo, hi, numberOfSectors);
        numberOfFullBlock := space / singleBlockSize;
      }
    }

    /**
     * The lines of `allocateAdditional` that fill the new children: the
     * `numberOfFullBlock` children from `numberOfSectors` on completely, then
     * the last one, `totalSectors - 1`, by the `remainLastSpace` bytes left, if
     * any.  In data sectors of the tier the new children start at `base` and
     * the completely filled ones end at `fullEnd`.
     */
    method FillNewChildren(freeMap: BitMap, numberOfSectors: nat, numberOfFullBlock: nat,
                           remainLastSpace: nat, totalSectors: nat, ghost tables0: seq<seq<int32>>,
                           ghost lo: int, ghost hi: int, ghost base: int, ghost fullEnd: int, ghost b0: seq<bool>)
      requires remainLastSpace < MaxBlockSize && totalSectors <= NumDirect
      requires numberOfSectors + numberOfFullBlock == totalSectors - (if remainLastSpace != 0 then 1 else 0)
      requires base == numberOfSectors * NumDirect && fullEnd == (numberOfSectors + numberOfFullBlock) * NumDirect
      requires lo <= base && fullEnd <= hi
      requires remainLastSpace != 0 ==>
                 && Share(lo, totalSectors - 1) == SectorsFor(0)
                 && Share(hi, totalSectors - 1) == SectorsFor(remainLastSpace)
                 && Share(hi, totalSectors - 1) - Share(lo, totalSectors - 1) == hi - fullEnd
      requires remainLastSpace == 0 ==> hi == fullEnd
      requires hi <= totalSectors * NumDirect
      requires GrownTo(freeMap, tables0, lo, hi, numberOfSectors, b0) && Took(b0, freeMap.bits, base - lo)
      modifies freeMap, ChildArrays()
      ensures GrownTo(freeMap, tables0, lo, hi, NumDirect, b0) && Took(b0, freeMap.bits, hi - lo)
    {
      ghost var b1 := freeMap.bits;
      GrowFullChildren(freeMap, numberOfSectors, numberOfFullBlock, tables0, lo, hi, base, fullEnd, b0);
      ghost var b2 := freeMap.bits;
      TookChain(b0, b1, b2, base - lo, fullEnd - base);
      if remainLastSpace != 0 {
        GrowChild(freeMap, totalSectors - 1, remainLastSpace, 0, tables0, lo, hi, b0);
        TookChain(b0, b2, freeMap.bits, fullEnd - lo, hi - fullEnd);
      }
      FinishGrowth(freeMap, tables0, lo, hi, totalSectors, b0);
    }

    /** The loop of `allocateAdditional` that fills children `first..first + count` completely. */
    method GrowFullChildren(freeMap: BitMap, first: nat, count: nat, ghost tables0: seq<seq<int32>>,
                            ghost lo: int, ghost hi: int, ghost from: int, ghost to: int, ghost b0: seq<bool>)
      requires first + count <= NumDirect
      requires from == first * NumDirect && to == (first + count) * NumDirect && lo <= from && to <= hi
      requires GrownTo(freeMap, tables0, lo, hi, first, b0)
      modifies freeMap, ChildArrays()
      ensures GrownTo(freeMap, tables0, lo, hi, first + count, b0)
      ensures Took(old(freeMap.bits), freeMap.bits, to - from)
    {
      ghost var bs := freeMap.bits;
      for i := 0 to count
        invariant GrownTo(freeMap, tables0, lo, hi, first + i, b0)
        invariant Took(bs, freeMap.bits, i * NumDirect)
      {
        ChildInside(first, i, count, lo, hi);
        FillChild(freeMap, first + i, tables0, lo, hi, b0, bs, i * NumDirect);
      }
      assert to - from == count * NumDirect;
    }

    /** One pass of that loop: child `c`, which lies wholly inside `lo..hi`, is filled completely. */
    method FillChild(freeMap: BitMap, c: nat, ghost tables0: seq<seq<int32>>, ghost lo: int, ghost hi: int,
                     ghost b0: seq<bool>, ghost bs: seq<bool>, ghost done: nat)
      requires c < NumDirect && lo <= c * NumDirect && (c + 1) * NumDirect <= hi
      requires GrownTo(freeMap, tables0, lo, hi, c, b0) && Took(bs, freeMap.bits, done)
      modifies blockArray[c].dataSectors, freeMap
      ensures GrownTo(freeMap, tables0, lo, hi, c + 1, b0) && Took(bs, freeMap.bits, done + NumDirect)
    {
      FullShare(lo, hi, c);
      ghost var bi := freeMap.bits;
      GrowChild(freeMap, c, MaxBlockSize, 0, tables0, lo, hi, b0);
      TookChain(bs, bi, freeMap.bits, done, NumDirect);
    }

    /**
     * `deallocate`: every data sector of the used children is cleared in the
     * free map, child by child.  The children's own table sectors, the
     * entries of this tier's table, stay marked.
     */
    method Deallocate(freeMap: BitMap)
      requires Valid()
      requires var used := DataInUse(Tables(), FirstUnused(dataSectors[..]));
               && Distinct(used)
               && forall x :: x in used ==> 0 <= x < |freeMap.bits| && freeMap.bits[x]
      modifies freeMap
      ensures Tables() == old(Tables())
      ensures |freeMap.bits| == |old(freeMap.bits)|
      ensures forall x :: 0 <= x < |freeMap.bits| ==>
                freeMap.bits[x] == (old(freeMap.bits[x]) && x !in DataInUse(Tables(), FirstUnused(dataSectors[..])))
      ensures freeMap.NumClear() == old(freeMap.NumClear()) + |DataInUse(Tables(), FirstUnused(dataSectors[..]))|
    {
      var numberSectors := 0;
      while numberSectors < dataSectors.Length && dataSectors[numberSectors] != Unused
        invariant 0 <= numberSectors <= dataSectors.Length
        invariant forall j :: 0 <= j < numberSectors ==> dataSectors[j] != Unused
      {
        numberSectors := numberSectors + 1;
      }
      assert numberSectors == FirstUnused(dataSectors[..]);
      ghost var tables, b0 := Tables(), freeMap.bits;
      for i := 0 to numberSectors
        invariant Tables() == tables && |freeMap.bits| == |b0|
        invariant forall x :: 0 <= x < |b0| ==> freeMap.bits[x] == (b0[x] && x !in DataInUse(tables, i))
        invariant freeMap.NumClear() == CountClear(b0) + |DataInUse(tables, i)|
      {
        var own := InUse(tables[i]);
        DistinctPrefix(tables, i + 1, numberSectors);
        DistinctSplit(DataInUse(tables, i), own);
        forall e | 0 <= e < FirstUnused(tables[i])
          ensures 0 <= tables[i][e] < |freeMap.bits| && freeMap.bits[tables[i][e]]
        {
          var x := tables[i][e];
          assert x == own[e] && x in own;
          DataInUseHas(tables, i, numberSectors);
        }
        blockArray[i].Deallocate(freeMap);
      }
    }

    /**
     * `deallocate` as evidently intended: the data sectors of the used
     * children and the children's own table sectors are all cleared.
     */
    method DeallocateWithTables(freeMap: BitMap)
      requires Valid()
      requires var all := InUse(dataSectors[..]) + DataInUse(Tables(), FirstUnused(dataSectors[..]));
               && Distinct(all)
               && forall x :: x in all ==> 0 <= x < |freeMap.bits| && freeMap.bits[x]
      modifies freeMap
      ensures |freeMap.bits| == |old(freeMap.bits)|
      ensures forall x :: 0 <= x < |freeMap.bits| ==>
                freeMap.bits[x] == (old(freeMap.bits[x]) && x !in InUse(dataSectors[..])
                                    && x !in DataInUse(Tables(), FirstUnused(dataSectors[..])))
      ensures freeMap.NumClear() ==
                old(freeMap.NumClear()) + FirstUnused(dataSectors[..]) +
                |DataInUse(Tables(), FirstUnused(dataSectors[..]))|
    {
      ghost var own, used := InUse(dataSectors[..]), DataInUse(Tables(), FirstUnused(dataSectors[..]));
      ghost var b0 := freeMap.bits;
      DistinctSplit(own, used);
      assert forall x :: x in used ==> x in own + used;
      Deallocate(freeMap);
      ghost var b1 := freeMap.bits;
      assert forall x :: 0 <= x < |b1| ==> b1[x] == (b0[x] && x !in used);
      var numberSectors := FirstUnused(dataSectors[..]);
      assert dataSectors[..numberSectors] == own;
      forall x | x in own ensures 0 <= x < |b1| && b1[x] {
        assert x in own + used && x !in used;
      }
      ClearEntries(dataSectors, freeMap, numberSectors);
      assert Tables() == old(Tables());
      forall x | 0 <= x < |freeMap.bits|
        ensures freeMap.bits[x] == (b0[x] && x !in own && x !in used)
      {
        assert freeMap.bits[x] == (b1[x] && x !in own);
      }
    }

    /**
     * `fetchFrom`: this tier's table becomes the one stored in `sector`, and
     * each used child's table the one stored in the sector its entry names;
     * the other children keep theirs.
     */
    method FetchFrom(sector: int)
      requires Valid() && disk.Valid() && 0 <= sector < |disk.sectors|
      requires var t := Decode(disk.sectors[sector]);
               forall k :: 0 <= k < FirstUnused(t) ==> 0 <= t[k] < |disk.sectors|
      modifies dataSectors, ChildArrays()
      ensures Valid()
      ensures dataSectors[..] == Decode(disk.sectors[sector])
      ensures forall k :: 0 <= k < NumDirect ==>
                Tables()[k] == if k < FirstUnused(dataSectors[..]) then Decode(disk.sectors[dataSectors[k]])
                               else old(Tables())[k]
    {
      ReadTable(dataSectors, disk, sector);
      FetchChildren();
    }

    /** The loop of `fetchFrom`: each used child reads its table from the sector its entry names. */
    method FetchChildren()
      requires Valid() && disk.Valid()
      requires forall k :: 0 <= k < FirstUnused(dataSectors[..]) ==> 0 <= dataSectors[k] < |disk.sectors|
      modifies ChildArrays()
      ensures Valid() && dataSectors[..] == old(dataSectors[..])
      ensures Tables() == Fetched(old(Tables()), disk.sectors, dataSectors[..], FirstUnused(dataSectors[..]))
    {
      ghost var tables0 := Tables();
      ghost var entries := dataSectors[..];
      ghost var n := FirstUnused(entries);
      var i := 0;
      while i < NumDirect && dataSectors[i] != Unused
        invariant i <= n && Valid() && dataSectors[..] == entries
        invariant forall k :: 0 <= k < n ==> 0 <= entries[k] < |disk.sectors|
        invariant Tables() == Fetched(tables0, disk.sectors, entries, i)
      {
        FetchChild(i);
        i := i + 1;
      }
      assert i == n;
    }

    /** One step of `fetchFrom`: child `i` reads its table from the sector entry `i` names. */
    method FetchChild(i: nat)
      requires Valid() && disk.Valid() && i < NumDirect && 0 <= dataSectors[i] < |disk.sectors|
      modifies blockArray[i].dataSectors
      ensures Valid() && dataSectors[..] == old(dataSectors[..])
      ensures Tables() == old(Tables())[i := Decode(disk.sectors[dataSectors[i]])]
    {
      blockArray[i].FetchFrom(dataSectors[i]);
    }

    /**
     * `writeBack`: `sector` now holds this tier's encoded table and each used
     * child's table is written, in order, to the sector its entry names.
     */
    method WriteBack(sector: int)
      requires Valid() && disk.Valid() && 0 <= sector < |disk.sectors|
      requires forall k :: 0 <= k < FirstUnused(dataSectors[..]) ==> 0 <= dataSectors[k] < |disk.sectors|
      modifies disk
      ensures disk.Valid()
      ensures disk.sectors == StoreChildren(old(disk.sectors)[sector := Encode(dataSectors[..])],
                                            dataSectors[..], Tables(), FirstUnused(dataSectors[..]))
    {
      WriteTable(dataSectors, disk, sector);
      WriteChildren();
    }

    /** The loop of `writeBack`: each used child's table is written, in order, to the sector its entry names. */
    method WriteChildren()
      requires Valid() && disk.Valid()
      requires forall k :: 0 <= k < FirstUnused(dataSectors[..]) ==> 0 <= dataSectors[k] < |disk.sectors|
      modifies disk
      ensures disk.Valid()
      ensures disk.sectors == StoreChildren(old(disk.sectors), dataSectors[..], Tables(), FirstUnused(dataSectors[..]))
    {
      ghost var d0 := disk.sectors;
      ghost var entries := dataSectors[..];
      ghost var tables := Tables();
      ghost var n := FirstUnused(entries);
      var i := 0;
      while i < NumDirect && dataSectors[i] != Unused
        invariant i <= n && disk.Valid() && |disk.sectors| == |d0|
        invariant dataSectors[..] == entries && Tables() == tables
        invariant forall k :: 0 <= k < n ==> 0 <= entries[k] < |d0|
        invariant disk.sectors == StoreChildren(d0, entries, tables, i)
      {
        WriteChild(i);
        i := i + 1;
      }
      assert i == n;
    }

    /** One step of `writeBack`: child `i` writes its table to the sector entry `i` names. */
    method WriteChild(i: nat)
      requires Valid() && disk.Valid() && i < NumDirect && 0 <= dataSectors[i] < |disk.sectors|
      modifies disk
      ensures disk.Valid()
      ensures disk.sectors == old(disk.sectors)[dataSectors[i] := Encode(Tables()[i])]
    {
      blockArray[i].WriteBack(dataSectors[i]);
    }

    /**
     * `byteToSector`: the sector holding file byte `offset`, which lies in
     * this tier's region: entry `e` of child `k` when the offset falls in the
     * `k * NumDirect + e`-th sector of the region.
     */
    function ByteToSector(offset: int32): (r: int32)
      requires Valid() && DoubleBytes <= offset < DoubleBytes + MaxDoubleSize
      reads blockArray, ChildArrays()
      ensures forall k, e :: 0 <= k < NumDirect && 0 <= e < NumDirect &&
                DoubleBytes + RegionIndex(k, e) * SectorSize <= offset < DoubleBytes + (RegionIndex(k, e) + 1) * SectorSize
                ==> r == blockArray[k].dataSectors[e]
    {
      var sectorLocation := offset / SectorSize - 28 - 32;
      var blockLocation := sectorLocation / 32;
      var blockRM := sectorLocation % 32;
      RegionSector(offset);
      blockArray[blockLocation].ByteToSectorForDouble(blockRM)
    }
  }
}
