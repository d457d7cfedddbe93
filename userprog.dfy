/**
 * User-program memory: the physical-page allocator (`MemoryManager`) and the
 * paging side of an address space (`AddrSpace`).  Main memory
 * (`Machine.mainMemory`) is passed in as a byte array; `Machine` itself is
 * not part of this model.
 */
module UserProg {
  import opened JavaTypes

  /** `Machine.PageSize`: `convertPA` splits addresses at bit 7, so pages hold 128 bytes. */
  const PageSize: nat := 128
  /** `UserStackSize`, and the stack size `freeStack`/`freeStackPMP` hard-code. */
  const UserStackSize: nat := 1024
  /** Pages of one user stack. */
  const StackPages: nat := 8

  lemma StackSizes()
    ensures StackPages == UserStackSize / PageSize && StackPages * PageSize == UserStackSize
  {
  }

  // ---------------------------------------------------------------------
  // The allocator's downward scan, as functions on the page array's contents
  // ---------------------------------------------------------------------

  /** The free pages (entries 0) at index `lo` and above, highest first. */
  function FreeAbove(p: seq<int32>, lo: nat): (f: seq<int32>)
    requires |p| <= 0x8000_0000
    decreases |p| - lo
  {
    if lo >= |p| then [] else FreeAbove(p, lo + 1) + (if p[lo] == 0 then [lo as int32] else [])
  }

  lemma {:induction false} FreeAboveMembers(p: seq<int32>, lo: nat, x: int)
    requires |p| <= 0x8000_0000
    ensures x in FreeAbove(p, lo) <==> lo <= x < |p| && p[x] == 0
    decreases |p| - lo
  {
    if lo < |p| {
      FreeAboveMembers(p, lo + 1, x);
    }
  }

  /** The scan meets free pages in strictly decreasing order. */
  lemma {:induction false} FreeAboveDescending(p: seq<int32>, lo: nat)
    requires |p| <= 0x8000_0000
    ensures forall i, j :: 0 <= i < j < |FreeAbove(p, lo)| ==> FreeAbove(p, lo)[i] > FreeAbove(p, lo)[j]
    decreases |p| - lo
  {
    if lo < |p| {
      var g := FreeAbove(p, lo + 1);
      FreeAboveDescending(p, lo + 1);
      forall i | 0 <= i < |g| ensures g[i] > lo {
        FreeAboveMembers(p, lo + 1, g[i]);
      }
      if p[lo] == 0 {
        var f := FreeAbove(p, lo);
        assert f == g + [lo as int32];
        forall i, j | 0 <= i < j < |f| ensures f[i] > f[j] {
          if j < |g| {
            assert f[i] == g[i] && f[j] == g[j] && g[i] > g[j];
          } else {
            assert f[i] == g[i] && f[j] == lo as int32 && g[i] > lo;
          }
        }
      }
    }
  }

  /** Scanning further down only extends what was found above. */
  lemma {:induction false} FreeAbovePrefix(p: seq<int32>, lo: nat, hi: nat)
    requires |p| <= 0x8000_0000 && lo <= hi
    ensures var f := FreeAbove(p, hi); |f| <= |FreeAbove(p, lo)| && FreeAbove(p, lo)[..|f|] == f
    decreases hi - lo
  {
    if lo < hi && lo < |p| {
      FreeAbovePrefix(p, lo + 1, hi);
    }
  }

  /** The pages `allocatePMP(n)` takes: the `n` highest free pages, or all of them if fewer. */
  function Taken(p: seq<int32>, n: nat): (t: seq<int32>)
    requires |p| <= 0x8000_0000
    ensures |t| <= n
  {
    var f := FreeAbove(p, 0);
    if n <= |f| then f[..n] else f
  }

  /** The array `allocatePMP(n)` returns: the pages taken, then zeros for the slots it could not fill. */
  function Picked(p: seq<int32>, n: nat): (r: seq<int32>)
    requires |p| <= 0x8000_0000
    ensures |r| == n
  {
    var t := Taken(p, n);
    t + seq(n - |t|, _ => 0)
  }

  /**
   * The pages taken were free, are distinct and come highest first; fewer
   * than `n` are taken only when no other page is free.
   */
  lemma TakenPages(p: seq<int32>, n: nat)
    requires |p| <= 0x8000_0000
    ensures var t := Taken(p, n);
            && (forall i :: 0 <= i < |t| ==> 0 <= t[i] < |p| as int && p[t[i]] == 0)
            && (forall i, j :: 0 <= i < j < |t| ==> t[i] > t[j])
            && (|t| < n ==> forall x :: 0 <= x < |p| && p[x] == 0 ==> x in t)
  {
    var f := FreeAbove(p, 0);
    FreeAboveDescending(p, 0);
    forall i | 0 <= i < |f| ensures 0 <= f[i] < |p| as int && p[f[i]] == 0 {
      FreeAboveMembers(p, 0, f[i]);
    }
    forall x | 0 <= x < |p| && p[x] == 0 ensures x in f {
      FreeAboveMembers(p, 0, x);
    }
  }

  /** No free page lies above the lowest page taken without being taken too. */
  lemma TakenHighest(p: seq<int32>, n: nat, x: int)
    requires |p| <= 0x8000_0000 && |Taken(p, n)| == n > 0
    requires 0 <= x < |p| && p[x] == 0 && x > Taken(p, n)[n - 1]
    ensures x in Taken(p, n)
  {
    var f := FreeAbove(p, 0);
    FreeAboveMembers(p, 0, x);
    FreeAboveDescending(p, 0);
    var j :| 0 <= j < |f| && f[j] == x;
    assert Taken(p, n) == f[..n];
    forall k | n <= k < |f| ensures f[k] < f[n - 1] {
    }
    assert j < n;
    assert x == f[..n][j];
  }

  // ---------------------------------------------------------------------
  // MemoryManager
  // ---------------------------------------------------------------------

  /**
   * `MemoryManager`: the page array `PMP` (0 = free, 1 = in use) and the two
   * counters.  The source keeps them in static fields; here they are the
   * fields of one manager object.
   */
  class MemoryManager {
    /** `PMP`: one entry per physical page. */
    const pmp: array<int32>
    /** `numberOfPMPLeft`: pages believed free. */
    var numberOfPMPLeft: int
    /** `numberOfPMLeft`: bytes believed free. */
    var numberOfPMLeft: int

    /** A Java array is indexed by an `int`. */
    predicate Valid() {
      pmp.Length <= 0x8000_0000
    }

    /** All `numPhysPages` pages free, and `numPhysPages * PageSize` bytes (`Machine.MemorySize`). */
    constructor (numPhysPages: nat)
      requires numPhysPages <= 0x8000_0000
      ensures Valid() && pmp.Length == numPhysPages && fresh(pmp)
      ensures forall i :: 0 <= i < numPhysPages ==> pmp[i] == 0
      ensures numberOfPMPLeft == numPhysPages && numberOfPMLeft == numPhysPages * PageSize
    {
      pmp := new int32[numPhysPages](_ => 0);
      numberOfPMPLeft := numPhysPages;
      numberOfPMLeft := numPhysPages * PageSize;
    }

    /** `allocatePM`: `size` bytes fewer are free. */
    method AllocatePM(size: int)
      modifies this
      ensures numberOfPMLeft == old(numberOfPMLeft) - size && numberOfPMPLeft == old(numberOfPMPLeft)
    {
      numberOfPMLeft := numberOfPMLeft - size;
    }

    /** `freePM`: `size` bytes more are free; it undoes `AllocatePM(size)`. */
    method FreePM(size: int)
      modifies this
      ensures numberOfPMLeft == old(numberOfPMLeft) + size && numberOfPMPLeft == old(numberOfPMPLeft)
    {
      numberOfPMLeft := numberOfPMLeft + size;
    }

    /**
     * `allocatePMP`: scanning from the highest page down, the first
     * `numPages` free pages are marked 1 and returned in the order found;
     * slots left over stay 0.  The page count drops by `numPages` however
     * many pages were found.
     */
    method AllocatePMP(numPages: int32) returns (result: array<int32>)
      requires Valid() && 0 <= numPages
      modifies this, pmp
      ensures fresh(result) && result[..] == Picked(old(pmp[..]), numPages as nat)
      ensures forall k :: 0 <= k < pmp.Length ==>
                pmp[k] == if k as int32 in Taken(old(pmp[..]), numPages as nat) then 1 else old(pmp[k])
      ensures numberOfPMPLeft == old(numberOfPMPLeft) - numPages && numberOfPMLeft == old(numberOfPMLeft)
    {
      ghost var p0 := pmp[..];
      result := new int32[numPages](_ => 0);
      var count: int32 := 0;
      var i := pmp.Length - 1;
      while i >= 0
        invariant -1 <= i < pmp.Length && count <= numPages
        invariant result[..count] == FreeAbove(p0, i + 1)
        invariant forall k :: count <= k < numPages ==> result[k] == 0
        invariant forall k :: 0 <= k < pmp.Length ==> pmp[k] == if i < k && p0[k] == 0 then 1 else p0[k]
        invariant numberOfPMPLeft == old(numberOfPMPLeft) && numberOfPMLeft == old(numberOfPMLeft)
      {
        if count == numPages {
          break;
        }
        if pmp[i] == 0 {
          ghost var found := result[..count];
          result[count] := i as int32;
          count := count + 1;
          pmp[i] := 1;
          assert result[..count] == found + [i as int32];
        }
        i := i - 1;
      }
      FreeAbovePrefix(p0, 0, i + 1);
      forall k | 0 <= k < pmp.Length
        ensures (i < k && p0[k] == 0) == (k as int32 in Taken(p0, numPages as nat))
      {
        FreeAboveMembers(p0, i + 1, k);
      }
      assert result[..] == result[..count] + result[count..];
      numberOfPMPLeft := numberOfPMPLeft - numPages as int;
    }

    /** The loop of `freePMP`/`freeStackPMP`: every listed page is marked free. */
    method ClearPages(pages: seq<int32>)
      requires Valid()
      requires forall x :: x in pages ==> 0 <= x < pmp.Length as int
      modifies pmp
      ensures forall k :: 0 <= k < pmp.Length ==> pmp[k] == if k as int32 in pages then 0 else old(pmp[k])
    {
      for i := 0 to |pages|
        invariant forall k :: 0 <= k < pmp.Length ==>
                    pmp[k] == if k as int32 in pages[..i] then 0 else old(pmp[k])
      {
        assert pages[..i + 1] == pages[..i] + [pages[i]];
        assert pages[i] in pages;
        pmp[pages[i]] := 0;
      }
      assert pages[..|pages|] == pages;
    }

    /**
     * `freeStackPMP`: the listed pages are free again; the counters gain one
     * page per entry and a whole stack of bytes.
     */
    method FreeStackPMP(pages: seq<int32>)
      requires Valid()
      requires forall x :: x in pages ==> 0 <= x < pmp.Length as int
      modifies this, pmp
      ensures forall k :: 0 <= k < pmp.Length ==> pmp[k] == if k as int32 in pages then 0 else old(pmp[k])
      ensures numberOfPMPLeft == old(numberOfPMPLeft) + |pages|
      ensures numberOfPMLeft == old(numberOfPMLeft) + UserStackSize
    {
      ClearPages(pages);
      numberOfPMPLeft := numberOfPMPLeft + |pages|;
      FreePM(UserStackSize);
    }

    /**
     * `freePMP`: every frame of the space's page table is free again and the
     * space's memory is zeroed (`AddrSpace.free`); the counters gain the
     * table's page count and the space's size.
     */
    method FreePMP(space: AddrSpace, mem: array<byte>)
      requires Valid() && space.currentSize <= Int32Max
      requires forall a: int32 :: 0 <= a < space.currentSize ==> Mapped(space.pageTable, mem, a)
      requires forall x :: x in Frames(space.pageTable) ==> 0 <= x < pmp.Length as int
      modifies this, pmp, mem
      ensures forall k :: 0 <= k < pmp.Length ==>
                pmp[k] == if k as int32 in Frames(space.pageTable) then 0 else old(pmp[k])
      ensures numberOfPMPLeft == old(numberOfPMPLeft) + space.pageTable.Length
      ensures numberOfPMLeft == old(numberOfPMLeft) + space.currentSize
      ensures forall a: int32 :: 0 <= a < space.currentSize ==>
                Mapped(space.pageTable, mem, a) && mem[ConvertPA(space.pageTable, a)] == 0
      ensures forall pa :: 0 <= pa < mem.Length && pa !in Touched(space.pageTable, 0, space.currentSize) ==>
                mem[pa] == old(mem[pa])
    {
      var pages := space.Free(mem);
      ClearPages(pages);
      numberOfPMPLeft := numberOfPMPLeft + |pages|;
      FreePM(space.currentSize);
    }
  }

  // ---------------------------------------------------------------------
  // Address translation
  // ---------------------------------------------------------------------

  /** `(VA >> 7) & 0x1ffffff`: the arithmetic shift is division rounding down. */
  function Vpn(va: int32): (vpn: nat)
    ensures vpn < 0x200_0000
    ensures 0 <= va ==> vpn == va / PageSize
    ensures va < 0 ==> 0x100_0000 <= vpn
  {
    (va / PageSize) % 0x200_0000
  }

  /** A multiple of 128 stays one after 32-bit wrap-around. */
  lemma WrapPage(x: int)
    requires x % PageSize == 0
    ensures Wrap32(x) % PageSize == 0
  {
    var k := (x + 0x8000_0000) / 0x1_0000_0000;
    assert x + 0x8000_0000 == k * 0x1_0000_0000 + (x + 0x8000_0000) % 0x1_0000_0000;
    assert Wrap32(x) == PageSize * (x / PageSize - k * 0x200_0000);
  }

  /**
   * `(PPN << 7) | OFF`: the frame `ppn` with the offset of `va`.  The
   * offset within the page is kept, and for frames below 2^24 the frame
   * number is the page of the result.
   */
  function PhysicalAddress(ppn: int32, va: int32): (pa: int32)
    ensures pa % PageSize == va % PageSize
    ensures 0 <= ppn < 0x100_0000 ==> pa == ppn * PageSize + va % PageSize && pa / PageSize == ppn
  {
    WrapPage(ppn * PageSize);
    Wrap32(ppn * PageSize) + va % PageSize
  }

  /** Different frames below 2^24 share no byte. */
  lemma FramesDisjoint(p: int32, q: int32, va: int32, vb: int32)
    requires 0 <= p < 0x100_0000 && 0 <= q < 0x100_0000 && p != q
    ensures PhysicalAddress(p, va) != PhysicalAddress(q, vb)
  {
    assert PhysicalAddress(p, va) / PageSize == p;
  }

  /** `convertPA` through `table`: the frame of entry `Vpn(va)` with the offset of `va`. */
  function ConvertPA(table: array<TranslationEntry>, va: int32): int32
    requires Vpn(va) < table.Length
    reads table, table[Vpn(va)]
  {
    PhysicalAddress(table[Vpn(va)].physicalPage, va)
  }

  /**
   * `convertPA` keeps the offset of `va` within its page and, for a frame
   * below 2^24, lands in the frame its page-table entry names.
   */
  lemma ConvertPAFrame(table: array<TranslationEntry>, va: int32)
    requires Vpn(va) < table.Length
    ensures ConvertPA(table, va) % PageSize == va % PageSize
    ensures var ppn := table[Vpn(va)].physicalPage;
            0 <= ppn < 0x100_0000 ==> ConvertPA(table, va) == ppn * PageSize + va % PageSize
  {
  }

  /** Translating `va` through `table` neither indexes past the table nor past memory. */
  predicate Mapped(table: array<TranslationEntry>, mem: array<byte>, va: int32)
    reads table, table[..]
  {
    Vpn(va) < table.Length && 0 <= ConvertPA(table, va) < mem.Length
  }

  /** The physical addresses of virtual addresses `lo..hi` under `table`. */
  ghost function Touched(table: array<TranslationEntry>, lo: int, hi: int): set<int>
    reads table, table[..]
  {
    set va: int32 | lo <= va < hi && Vpn(va) < table.Length :: ConvertPA(table, va) as int
  }

  /** The frame of each entry of `table`, in order. */
  ghost function Frames(table: array<TranslationEntry>): (f: seq<int32>)
    reads table, table[..]
    ensures |f| == table.Length && forall i :: 0 <= i < table.Length ==> f[i] == table[i].physicalPage
  {
    seq(table.Length, i reads table, table[..] requires 0 <= i < table.Length => table[i].physicalPage)
  }

  /** Zero the bytes of virtual addresses `lo..hi` under `table`; no other byte changes. */
  method ZeroRange(table: array<TranslationEntry>, mem: array<byte>, lo: int32, hi: int)
    requires hi <= Int32Max
    requires forall a: int32 :: lo <= a < hi ==> Mapped(table, mem, a)
    modifies mem
    ensures forall a: int32 :: lo <= a < hi ==> Mapped(table, mem, a) && mem[ConvertPA(table, a)] == 0
    ensures forall pa :: 0 <= pa < mem.Length && pa !in Touched(table, lo, hi) ==> mem[pa] == old(mem[pa])
  {
    var i := lo;
    while i < hi
      invariant lo <= i && (lo < hi ==> i <= hi)
      invariant forall a: int32 :: lo <= a < i ==> Mapped(table, mem, a) && mem[ConvertPA(table, a)] == 0
      invariant forall pa :: 0 <= pa < mem.Length && pa !in Touched(table, lo, hi) ==> mem[pa] == old(mem[pa])
    {
      assert Mapped(table, mem, i);
      assert ConvertPA(table, i) as int in Touched(table, lo, hi);
      mem[ConvertPA(table, i)] := 0;
      i := i + 1;
    }
  }

  // ---------------------------------------------------------------------
  // Page-table entries and address spaces
  // ---------------------------------------------------------------------

  /** `TranslationEntry`: one page-table entry; entries are shared between tables by reference. */
  class TranslationEntry {
    var virtualPage: int32
    var physicalPage: int32
    var valid: bool
    var use: bool
    var dirty: bool
    var readOnly: bool

    /** A new entry with the six fields set as `exec` and `StackAllocate` set them. */
    constructor (vpn: int32, ppn: int32)
      ensures virtualPage == vpn && physicalPage == ppn && valid && !use && !dirty && !readOnly
    {
      virtualPage, physicalPage := vpn, ppn;
      valid, use, dirty, readOnly := true, false, false, false;
    }
  }

  /** `ThreadCounter`: how many threads run in the space (the semaphore around it is not modelled). */
  class ThreadCounter {
    var counter: int32

    constructor ()
      ensures counter == 1
    {
      counter := 1;
    }

    method Increment()
      modifies this
      ensures counter == Wrap32(old(counter) + 1)
    {
      counter := Wrap32(counter + 1);
    }

    method Decrement()
      modifies this
      ensures counter == Wrap32(old(counter) - 1)
    {
      counter := Wrap32(counter - 1);
    }

    /** True exactly when the counter is 1. */
    method CheckLastThread() returns (isLastThread: bool)
      ensures isLastThread <==> counter == 1
    {
      isLastThread := counter == 1;
    }
  }

  /** A decrement undoes an increment, wrap-around included. */
  lemma IncrementDecrement(c: int32)
    ensures Wrap32(Wrap32(c + 1) - 1) == c
  {
    if c == Int32Max {
      assert Wrap32(c + 1) == Int32Min;
    }
  }

  /** `roundToPage`: Java's long division, which rounds toward zero. */
  function RoundToPage(size: int): (r: int)
    ensures r % PageSize == 0
    ensures 0 <= size ==> size <= r < size + PageSize
  {
    var s := size + (PageSize - 1);
    PageSize * (if s >= 0 then s / PageSize else -((-s) / PageSize))
  }

  /** No multiple of the page size at or above `size` lies below `roundToPage(size)`. */
  lemma RoundToPageLeast(size: int, m: int)
    requires 0 <= size <= m && m % PageSize == 0
    ensures RoundToPage(size) <= m
  {
    var r := RoundToPage(size);
    assert r == PageSize * (r / PageSize) && m == PageSize * (m / PageSize);
  }

  /** The segment sizes a NOFF header gives (`code.size`, `initData.size`, `uninitData.size`). */
  datatype Segments = Segments(codeSize: int32, initDataSize: int32, uninitDataSize: int32)

  /** The size `exec` gives a space: code and data each rounded to pages, plus the stack. */
  function ExecSize(h: Segments): (size: int)
    ensures 0 <= h.codeSize && 0 <= h.initDataSize + h.uninitDataSize <= Int32Max ==>
              size % PageSize == 0 && h.codeSize + h.initDataSize + h.uninitDataSize + UserStackSize <= size
  {
    RoundToPage(h.codeSize) + RoundToPage(Wrap32(h.initDataSize + h.uninitDataSize)) + UserStackSize
  }

  /** `(int)(size / Machine.PageSize)` for the size `exec` computes, rounding toward zero. */
  function ExecPages(h: Segments): int {
    var size := ExecSize(h);
    if size >= 0 then size / PageSize else -((-size) / PageSize)
  }

  /** The outcome of reading a string from user memory. */
  datatype StringRead =
    | Found(s: string)
    /** The address whose translation indexed past the page table or past memory. */
    | Fault(at: int32)

  /** `AddrSpace`: a page table and the size of the space it maps. */
  class AddrSpace {
    /** `pageTable`. */
    var pageTable: array<TranslationEntry>
    /** `currentSize`, in bytes. */
    var currentSize: int
    /** `threadCounter`. */
    const threadCounter: ThreadCounter

    /** An empty space with one thread. */
    constructor ()
      ensures pageTable.Length == 0 && currentSize == 0 && fresh(threadCounter) && threadCounter.counter == 1
    {
      pageTable := new TranslationEntry[0];
      currentSize := 0;
      threadCounter := new ThreadCounter();
    }

    /**
     * The page-table part of `exec`: an unreadable header gives -1 and
     * changes nothing; otherwise the space gets `ExecPages` fresh entries,
     * entry `i` mapping page `i` to the `i`-th page `allocatePMP` returns,
     * and the manager's byte count drops by the space's size.
     */
    method Exec(header: Option<Segments>, mm: MemoryManager) returns (r: int32)
      requires mm.Valid()
      requires header.Some? ==> 0 <= ExecPages(header.value) <= mm.numberOfPMPLeft
      modifies this, mm, mm.pmp
      ensures header.None? ==> r == -1 && unchanged(this, mm, mm.pmp)
      ensures header.Some? ==>
                var n := ExecPages(header.value);
                && r == 0 && currentSize == ExecSize(header.value)
                && fresh(pageTable) && pageTable.Length == n
                && (forall i :: 0 <= i < n ==>
                      && fresh(pageTable[i]) && pageTable[i].virtualPage as int == i
                      && pageTable[i].physicalPage == Picked(old(mm.pmp[..]), n)[i]
                      && pageTable[i].valid && !pageTable[i].use && !pageTable[i].dirty && !pageTable[i].readOnly)
                && mm.numberOfPMPLeft == old(mm.numberOfPMPLeft) - n
                && mm.numberOfPMLeft == old(mm.numberOfPMLeft) - currentSize
                && (forall k :: 0 <= k < mm.pmp.Length ==>
                      mm.pmp[k] == if k as int32 in Taken(old(mm.pmp[..]), n) then 1 else old(mm.pmp[k]))
    {
      if header.None? {
        return -1;
      }
      var size := ExecSize(header.value);
      currentSize := size;
      var numPages: int32 := ExecPages(header.value) as int32;
      var placeholder := new TranslationEntry(0, 0);
      var table := new TranslationEntry[numPages](_ => placeholder);
      var frames := mm.AllocatePMP(numPages);
      for i := 0 to numPages
        modifies table
        invariant forall j :: 0 <= j < i ==>
                    && fresh(table[j]) && table[j].virtualPage as int == j && table[j].physicalPage == frames[j]
                    && table[j].valid && !table[j].use && !table[j].dirty && !table[j].readOnly
      {
        table[i] := new TranslationEntry(i, frames[i]);
      }
      pageTable := table;
      mm.AllocatePM(size);
      return 0;
    }

    /**
     * `StackAllocate`: a table for a forked thread, as long as the space;
     * its entries below the stack are this space's own entry objects, and
     * its `StackPages` stack entries are fresh, mapping page `k` to the
     * pages `allocatePMP(StackPages)` returns.
     */
    method StackAllocate(mm: MemoryManager) returns (table: array<TranslationEntry>)
      requires mm.Valid() && 0 <= currentSize
      requires StackPages <= currentSize / PageSize <= Int32Max
      requires currentSize / PageSize - StackPages <= pageTable.Length
      modifies mm, mm.pmp
      ensures var n := currentSize / PageSize;
              && fresh(table) && table.Length == n
              && (forall i :: 0 <= i < n - StackPages ==> table[i] == pageTable[i])
              && (forall k :: n - StackPages <= k < n ==>
                    && fresh(table[k]) && table[k].virtualPage as int == k
                    && table[k].physicalPage == Picked(old(mm.pmp[..]), StackPages)[k - (n - StackPages)]
                    && table[k].valid && !table[k].use && !table[k].dirty && !table[k].readOnly)
              && mm.numberOfPMPLeft == old(mm.numberOfPMPLeft) - StackPages
              && mm.numberOfPMLeft == old(mm.numberOfPMLeft)
              && (forall k :: 0 <= k < mm.pmp.Length ==>
                    mm.pmp[k] == if k as int32 in Taken(old(mm.pmp[..]), StackPages) then 1 else old(mm.pmp[k]))
    {
      var numPages: int32 := (currentSize / PageSize) as int32;
      var placeholder := new TranslationEntry(0, 0);
      table := new TranslationEntry[numPages](_ => placeholder);
      for i := 0 to numPages - StackPages as int32
        modifies table
        invariant forall j :: 0 <= j < i ==> table[j] == pageTable[j]
      {
        table[i] := pageTable[i];
      }
      ghost var p0 := mm.pmp[..];
      var frames := mm.AllocatePMP(StackPages as int32);
      assert frames[..] == Picked(p0, StackPages);
      for k := numPages - StackPages as int32 to numPages
        modifies table
        invariant forall j :: 0 <= j < numPages - StackPages ==> table[j] == pageTable[j]
        invariant forall j :: numPages - StackPages <= j < k ==>
                    && fresh(table[j]) && table[j].virtualPage as int == j
                    && table[j].physicalPage == frames[j - (numPages - StackPages)]
                    && table[j].valid && !table[j].use && !table[j].dirty && !table[j].readOnly
      {
        table[k] := new TranslationEntry(k, frames[k - numPages + StackPages as int32]);
      }
      assert p0 == old(mm.pmp[..]);
      forall j | 0 <= j < StackPages ensures frames[j] == Picked(p0, StackPages)[j] {
        assert frames[j] == frames[..][j];
      }
    }

    /**
     * `free`: the frame of every entry, in order; the bytes of virtual
     * addresses `0..currentSize` are zeroed.
     */
    method Free(mem: array<byte>) returns (pages: seq<int32>)
      requires currentSize <= Int32Max
      requires forall a: int32 :: 0 <= a < currentSize ==> Mapped(pageTable, mem, a)
      modifies mem
      ensures pages == Frames(pageTable)
      ensures forall a: int32 :: 0 <= a < currentSize ==> Mapped(pageTable, mem, a) && mem[ConvertPA(pageTable, a)] == 0
      ensures forall pa :: 0 <= pa < mem.Length && pa !in Touched(pageTable, 0, currentSize) ==>
                mem[pa] == old(mem[pa])
    {
      pages := [];
      for i := 0 to pageTable.Length
        invariant pages == Frames(pageTable)[..i]
      {
        pages := pages + [pageTable[i].physicalPage];
      }
      ZeroRange(pageTable, mem, 0, currentSize);
    }

    /**
     * `freeStack` as written: the frames of the last `StackPages` entries
     * (below `currentSize / PageSize`) of the given thread table; but the
     * stack bytes are zeroed through this space's own table, not the
     * thread's.
     */
    method FreeStack(table: array<TranslationEntry>, mem: array<byte>) returns (pages: seq<int32>)
      requires UserStackSize <= currentSize <= Int32Max && currentSize / PageSize <= table.Length
      requires forall a: int32 :: currentSize - UserStackSize <= a < currentSize ==> Mapped(pageTable, mem, a)
      modifies mem
      ensures var n := currentSize / PageSize; pages == Frames(table)[n - StackPages..n]
      ensures forall a: int32 :: currentSize - UserStackSize <= a < currentSize ==>
                Mapped(pageTable, mem, a) && mem[ConvertPA(pageTable, a)] == 0
      ensures forall pa :: 0 <= pa < mem.Length && pa !in Touched(pageTable, currentSize - UserStackSize, currentSize) ==>
                mem[pa] == old(mem[pa])
    {
      pages := StackFrames(table);
      ZeroRange(pageTable, mem, (currentSize - UserStackSize) as int32, currentSize);
    }

    /** `freeStack` as intended: the stack bytes are zeroed through the thread's own table. */
    method FreeStackOf(table: array<TranslationEntry>, mem: array<byte>) returns (pages: seq<int32>)
      requires UserStackSize <= currentSize <= Int32Max && currentSize / PageSize <= table.Length
      requires forall a: int32 :: currentSize - UserStackSize <= a < currentSize ==> Mapped(table, mem, a)
      modifies mem
      ensures var n := currentSize / PageSize; pages == Frames(table)[n - StackPages..n]
      ensures forall a: int32 :: currentSize - UserStackSize <= a < currentSize ==>
                Mapped(table, mem, a) && mem[ConvertPA(table, a)] == 0
      ensures forall pa :: 0 <= pa < mem.Length && pa !in Touched(table, currentSize - UserStackSize, currentSize) ==>
                mem[pa] == old(mem[pa])
    {
      pages := StackFrames(table);
      ZeroRange(table, mem, (currentSize - UserStackSize) as int32, currentSize);
    }

    /** The copying loop of `freeStack`: the frames of the stack entries of `table`. */
    method StackFrames(table: array<TranslationEntry>) returns (pages: seq<int32>)
      requires UserStackSize <= currentSize && currentSize / PageSize <= table.Length
      ensures var n := currentSize / PageSize; pages == Frames(table)[n - StackPages..n]
    {
      var numPages := currentSize / PageSize;
      pages := [];
      for i := numPages - StackPages to numPages
        invariant pages == Frames(table)[numPages - StackPages..i]
      {
        pages := pages + [table[i].physicalPage];
      }
    }

    /**
     * `ReadString`: the characters of the bytes from `va` up to the first 0
     * byte; or the first address whose translation fails, if that comes
     * first.  The table covers less than the non-negative 32-bit addresses.
     */
    method ReadString(va: int32, mem: array<byte>) returns (r: StringRead)
      requires pageTable.Length < 0x100_0000
      ensures r.Found? ==>
                && (forall a: int32 :: va <= a < va + |r.s| ==>
                      Mapped(pageTable, mem, a) && mem[ConvertPA(pageTable, a)] != 0
                      && r.s[a - va] == ByteToChar(mem[ConvertPA(pageTable, a)]))
                && va as int + |r.s| <= Int32Max
                && Mapped(pageTable, mem, (va as int + |r.s|) as int32)
                && mem[ConvertPA(pageTable, (va as int + |r.s|) as int32)] == 0
      ensures r.Fault? ==>
                && va <= r.at && !Mapped(pageTable, mem, r.at)
                && forall a: int32 :: va <= a < r.at ==> Mapped(pageTable, mem, a) && mem[ConvertPA(pageTable, a)] != 0
    {
      var s := "";
      var a := va;
      while true
        invariant va <= a && a as int - va as int == |s|
        invariant forall b: int32 :: va <= b < a ==>
                    Mapped(pageTable, mem, b) && mem[ConvertPA(pageTable, b)] != 0
                    && s[b - va] == ByteToChar(mem[ConvertPA(pageTable, b)])
        decreases Int32Max - a
      {
        if !Mapped(pageTable, mem, a) {
          return Fault(a);
        }
        var read := mem[ConvertPA(pageTable, a)];
        if read == 0 {
          return Found(s);
        }
        s := s + [ByteToChar(read)];
        a := a + 1;
      }
    }
  }
}
