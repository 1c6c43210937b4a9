/**
 * The platform-independent part of atom::MemoryRegion: the page record, the
 * constructor's page arithmetic, and the traversal shape shared by SetFlags
 * and ResetFlags on both platforms (visit the pages in list order, stop at the
 * first page whose native call fails).
 */
module Region {
  import opened Wrappers
  import opened Memory

  /** `struct MemoryPage`. */
  datatype MemoryPage = MemoryPage(
    size: nat,
    base: nat,
    committed: bool,
    guarded: bool,
    currentFlags: int,
    previousFlags: int,
    initialFlags: int)

  /** The exceptions and failed asserts of the region code, each naming the page index. */
  datatype Error =
    | ProtectionChangeFailed(index: nat)                   // VirtualProtect / mprotect check
    | UnrepresentableProtection(index: nat, protect: int)  // ConvertFromWinFlags: assert(false)
    | QueryFailed(index: nat)                              // VirtualQuery failed
    | RegionSizeMismatch(index: nat, regionSize: nat)      // assert(page.size == RegionSize)

  /** Which step of ExecuteFunction raised. */
  datatype ExecuteError = SetFailed(cause: Error) | CallbackFailed | ResetFailed(cause: Error)

  /** The arguments of one native protection call: address, length and protection value. */
  datatype ProtectCall = ProtectCall(base: nat, size: nat, protect: int)

  /** The page list of a region: equal-sized pages, each following the previous one. */
  predicate Contiguous(pages: seq<MemoryPage>, pageSize: nat)
  {
    forall i :: 0 <= i < |pages| ==>
      pages[i].size == pageSize && pages[i].base == pages[0].base + i * pageSize
  }

  // ---------------------------------------------------------------------------
  // Constructor arithmetic

  /** `address & ~(PageSize - 1)`. */
  function StartPage(address: nat, pageSize: nat): (r: nat)
    requires IsWord(address) && IsWord(pageSize) && IsPowerOfTwo(pageSize)
    ensures r % pageSize == 0 && r <= address && address - r < pageSize
  {
    AlignDownIsRoundDown(address, pageSize);
    AlignDown(address, pageSize)
  }

  /**
   * The constructor's page count: zero when no size is given, otherwise
   * `((address + size) & ~(PageSize - 1)) - startPage) / PageSize + 1`.
   */
  function PageCount(address: nat, size: nat, pageSize: nat): (r: nat)
    requires IsWord(address + size) && IsWord(pageSize) && IsPowerOfTwo(pageSize)
    ensures size == 0 <==> r == 0
  {
    if size > 0 then
      AlignDownIsRoundDown(address + size, pageSize);
      AlignDownIsRoundDown(address, pageSize);
      RoundDownMonotone(address, address + size, pageSize);
      PagesThrough(StartPage(address, pageSize), AlignDown(address + size, pageSize), pageSize)
    else 0
  }

  /** `(lastPage - firstPage) / pageSize + 1`: the pages from `firstPage` up to and including `lastPage`. */
  function PagesThrough(firstPage: nat, lastPage: nat, pageSize: nat): nat
    requires firstPage <= lastPage && pageSize > 0
  {
    (lastPage - firstPage) / pageSize + 1
  }

  lemma RoundDownMonotone(x: nat, y: nat, p: nat)
    requires x <= y && p > 0
    ensures x - x % p <= y - y % p
  {
    var i, j := x / p, y / p;
    RoundDownFacts(x, p);
    RoundDownFacts(y, p);
    assert x - x % p == p * i && y - y % p == p * j;
    if i > j {
      MulMonotone(p, j + 1, i);
    }
  }

  /** The arithmetic of PageCountCovers, on `address` and `end == address + size`. */
  lemma PagesThroughCovers(address: nat, end: nat, p: nat, start: nat, last: nat, n: nat)
    requires address < end && p > 0
    requires start == address - address % p && last == end - end % p
    requires start <= last && n == PagesThrough(start, last, p)
    ensures n >= 1
    ensures start + (n - 1) * p == last
    ensures last <= end < start + n * p
    ensures end % p == 0 <==> last == end
    ensures n == (end - start + p - 1) / p + (if end % p == 0 then 1 else 0)
  {
    var i, j := QuotientForm(address, end, p, start, last);
    PagesThroughQuotients(p, i, j, start, last, n);
    CeilingDivision(p, j - i, end % p);
  }

  /** Rounded-down values are the multiples `p * (x / p)`. */
  lemma QuotientForm(address: nat, end: nat, p: nat, start: nat, last: nat) returns (i: nat, j: nat)
    requires address <= end && p > 0
    requires start == address - address % p && last == end - end % p
    ensures i <= j && start == p * i && last == p * j
    ensures end - start == p * (j - i) + end % p && end % p < p
  {
    i, j := address / p, end / p;
    assert address == p * i + address % p;
    assert end == p * j + end % p;
    if i > j {
      MulMonotone(p, j + 1, i);
      Distribute(p, j, 1);
      assert false;
    }
    Distribute(p, i, j - i);
  }

  lemma Distribute(p: nat, a: nat, b: nat)
    ensures p * (a + b) == p * a + p * b
  {
  }

  lemma PagesThroughQuotients(p: nat, i: nat, j: nat, start: nat, last: nat, n: nat)
    requires p > 0 && i <= j && start == p * i && last == p * j
    requires n == PagesThrough(start, last, p)
    ensures n == j - i + 1
    ensures start + (n - 1) * p == last && last + p == start + n * p
  {
    Distribute(p, i, j - i);
    ModUnique(last - start, p, j - i, 0);
    Distribute(p, i, j - i + 1);
  }

  /** Rounding `p * m + r` up to whole multiples of `p`. */
  lemma CeilingDivision(p: nat, m: nat, r: nat)
    requires p > 0 && r < p
    ensures (p * m + r + p - 1) / p == m + (if r == 0 then 0 else 1)
  {
    if r == 0 {
      ModUnique(p * m + r + p - 1, p, m, p - 1);
    } else {
      ModUnique(p * m + r + p - 1, p, m + 1, r - 1);
    }
  }

  /**
   * For a non-empty size, the pages cover `[address, address + size)`: the last
   * page holds the byte at `address + size`, so when that address is page
   * aligned the count includes one page past the end. The count is therefore
   * the number of covering pages, plus one exactly in that aligned case.
   */
  lemma PageCountCovers(address: nat, size: nat, pageSize: nat)
    requires IsWord(address + size) && IsWord(pageSize) && IsPowerOfTwo(pageSize)
    requires size > 0
    ensures var start, n := StartPage(address, pageSize), PageCount(address, size, pageSize);
      && n >= 1
      && start + (n - 1) * pageSize == AlignDown(address + size, pageSize)
      && start + (n - 1) * pageSize <= address + size < start + n * pageSize
      && ((address + size) % pageSize == 0 <==> start + (n - 1) * pageSize == address + size)
      && n == (address + size - start + pageSize - 1) / pageSize
              + (if (address + size) % pageSize == 0 then 1 else 0)
  {
    var p, e := pageSize, address + size;
    var start, last := StartPage(address, p), AlignDown(e, p);
    AlignDownIsRoundDown(address, p);
    AlignDownIsRoundDown(e, p);
    RoundDownMonotone(address, e, p);
    var n := PageCount(address, size, p);
    assert n == PagesThrough(start, last, p);
    PagesThroughCovers(address, e, p, start, last, n);
  }

  // ---------------------------------------------------------------------------
  // The page list

  /** The bytes the pages span: the sum of their sizes. */
  function TotalSize(pages: seq<MemoryPage>): nat
  {
    if pages == [] then 0 else TotalSize(pages[..|pages| - 1]) + pages[|pages| - 1].size
  }

  /**
   * A contiguous list of `n` pages of `pageSize` bytes spans `n * pageSize`
   * bytes, from the first page's base to the end of the last page.
   */
  lemma {:induction false} ContiguousSpan(pages: seq<MemoryPage>, pageSize: nat)
    requires Contiguous(pages, pageSize)
    ensures TotalSize(pages) == |pages| * pageSize
    ensures |pages| > 0 ==> pages[|pages| - 1].base + pageSize == pages[0].base + |pages| * pageSize
  {
    if pages != [] {
      var init := pages[..|pages| - 1];
      assert Contiguous(init, pageSize) by {
        forall i | 0 <= i < |init|
          ensures init[i].size == pageSize && init[i].base == init[0].base + i * pageSize
        {
          assert init[i] == pages[i] && init[0] == pages[0];
        }
      }
      ContiguousSpan(init, pageSize);
      Distribute(pageSize, |init|, 1);
    }
  }

  // ---------------------------------------------------------------------------
  // The accessors of MemoryRegion, shared by both platforms

  /** A region's invariant: a power-of-two page size and a contiguous list of pages of that size. */
  predicate ValidPages(pages: seq<MemoryPage>, pageSize: nat)
  {
    IsWord(pageSize) && IsPowerOfTwo(pageSize) && Contiguous(pages, pageSize)
  }

  /** `GetPageCount()`: the number of pages, which for a valid region span the region size. */
  function PageCountOf(pages: seq<MemoryPage>, pageSize: nat): (r: nat)
    ensures ValidPages(pages, pageSize) ==> r * pageSize == TotalSize(pages)
  {
    if ValidPages(pages, pageSize) then ContiguousSpan(pages, pageSize); |pages| else |pages|
  }

  /** `GetRegionSize()`: the bytes the pages span, from the first page's base to the end of the last page. */
  function RegionSizeOf(pages: seq<MemoryPage>, pageSize: nat): (r: nat)
    ensures ValidPages(pages, pageSize) ==> r == TotalSize(pages)
    ensures ValidPages(pages, pageSize) && |pages| > 0 ==> pages[0].base + r == pages[|pages| - 1].base + pageSize
  {
    if ValidPages(pages, pageSize) then ContiguousSpan(pages, pageSize); PageCountOf(pages, pageSize) * pageSize
    else PageCountOf(pages, pageSize) * pageSize
  }

  /** `operator[](index)`: the page `index` pages past the first. */
  function PageAt(pages: seq<MemoryPage>, pageSize: nat, index: nat): (r: MemoryPage)
    requires index < |pages|
    ensures ValidPages(pages, pageSize) ==> r.size == pageSize && r.base == pages[0].base + index * pageSize
  {
    pages[index]
  }

  /** The fields of a page that SetFlags and ResetFlags never write. */
  predicate KeepsFrame(before: MemoryPage, after: MemoryPage)
  {
    && after.size == before.size
    && after.base == before.base
    && after.committed == before.committed
    && after.guarded == before.guarded
    && after.initialFlags == before.initialFlags
  }

  /** Pages that keep their frame keep the page list contiguous. */
  lemma FramePreservesContiguous(before: seq<MemoryPage>, after: seq<MemoryPage>, pageSize: nat)
    requires Contiguous(before, pageSize) && |after| == |before|
    requires forall j :: 0 <= j < |before| ==> KeepsFrame(before[j], after[j])
    ensures Contiguous(after, pageSize)
  {
    forall i | 0 <= i < |after|
      ensures after[i].size == pageSize && after[i].base == after[0].base + i * pageSize
    {
      assert KeepsFrame(before[i], after[i]) && KeepsFrame(before[0], after[0]);
    }
  }

  // ---------------------------------------------------------------------------
  // SetFlags and ResetFlags: one native call per page, in list order, stopping
  // at the first page whose call fails

  /** What one loop iteration does to page `i`: the page as it leaves it, the call it made, the failure it raised. */
  datatype PageStep = PageStep(page: MemoryPage, call: ProtectCall, fault: Option<Error>)

  /** The page list, the native calls made, and the failure that ended the loop, if any. */
  datatype Traversal = Traversal(pages: seq<MemoryPage>, calls: seq<ProtectCall>, fault: Option<Error>)

  /**
   * The loop from page `i` on, with `pages[..i]` already processed and `calls`
   * made so far: page `i` is replaced by its step's page (also when the step
   * fails, since a platform may have written a field before its native call),
   * and the loop ends after the first failing step.
   */
  function Traverse(pages: seq<MemoryPage>, step: (nat, MemoryPage) -> PageStep, i: nat, calls: seq<ProtectCall>): (r: Traversal)
    requires i <= |pages|
    ensures |r.pages| == |pages|
    decreases |pages| - i
  {
    if i == |pages| then Traversal(pages, calls, None)
    else
      var s := step(i, pages[i]);
      if s.fault.Some? then Traversal(pages[i := s.page], calls + [s.call], s.fault)
      else Traverse(pages[i := s.page], step, i + 1, calls + [s.call])
  }

  /** The index of the first page, from `i` on, whose step fails; `|pages|` when none does. */
  function FirstFault(pages: seq<MemoryPage>, step: (nat, MemoryPage) -> PageStep, i: nat): (k: nat)
    requires i <= |pages|
    ensures i <= k <= |pages|
    ensures forall j :: i <= j < k ==> step(j, pages[j]).fault.None?
    ensures k < |pages| ==> step(k, pages[k]).fault.Some?
    decreases |pages| - i
  {
    if i == |pages| then i
    else if step(i, pages[i]).fault.Some? then i
    else FirstFault(pages, step, i + 1)
  }

  /**
   * The pages of a traversal: up to the first failing page `k` every page is
   * its step's page, page `k` is its step's page, the failure is that of page
   * `k`, and every page after `k` is untouched.
   */
  lemma {:induction false} TraversePages(pages: seq<MemoryPage>, step: (nat, MemoryPage) -> PageStep, i: nat, calls: seq<ProtectCall>)
    requires i <= |pages|
    ensures var r, k := Traverse(pages, step, i, calls), FirstFault(pages, step, i);
      && (forall j :: 0 <= j < i ==> r.pages[j] == pages[j])
      && (forall j :: i <= j <= k && j < |pages| ==> r.pages[j] == step(j, pages[j]).page)
      && (forall j :: k < j < |pages| ==> r.pages[j] == pages[j])
      && (r.fault.None? <==> k == |pages|)
      && (k < |pages| ==> r.fault == step(k, pages[k]).fault)
    decreases |pages| - i
  {
    if i < |pages| {
      var s := step(i, pages[i]);
      if s.fault.None? {
        var next := pages[i := s.page];
        TraversePages(next, step, i + 1, calls + [s.call]);
        assert forall j :: i < j < |pages| ==> next[j] == pages[j];
        assert FirstFault(next, step, i + 1) == FirstFault(pages, step, i) by {
          FirstFaultIgnoresDone(pages, next, step, i + 1);
        }
      }
    }
  }

  /** FirstFault from `i` on looks only at the pages from `i` on. */
  lemma {:induction false} FirstFaultIgnoresDone(pages: seq<MemoryPage>, other: seq<MemoryPage>, step: (nat, MemoryPage) -> PageStep, i: nat)
    requires i <= |pages| == |other|
    requires forall j :: i <= j < |pages| ==> other[j] == pages[j]
    ensures FirstFault(other, step, i) == FirstFault(pages, step, i)
    decreases |pages| - i
  {
    if i < |pages| {
      FirstFaultIgnoresDone(pages, other, step, i + 1);
    }
  }

  /**
   * The native calls of a traversal: the calls made before it, then one call
   * per page from `i` up to and including the first failing page, in list order.
   */
  lemma {:induction false} TraverseCalls(pages: seq<MemoryPage>, step: (nat, MemoryPage) -> PageStep, i: nat, calls: seq<ProtectCall>)
    requires i <= |pages|
    ensures var r, k := Traverse(pages, step, i, calls), FirstFault(pages, step, i);
      && |r.calls| == |calls| + (if k < |pages| then k + 1 - i else k - i)
      && r.calls[..|calls|] == calls
      && (forall j :: i <= j <= k && j < |pages| ==> r.calls[|calls| + (j - i)] == step(j, pages[j]).call)
    decreases |pages| - i
  {
    if i < |pages| {
      var s := step(i, pages[i]);
      if s.fault.None? {
        var next := pages[i := s.page];
        TraverseCalls(next, step, i + 1, calls + [s.call]);
        FirstFaultIgnoresDone(pages, next, step, i + 1);
        assert forall j :: i < j < |pages| ==> next[j] == pages[j];
      }
    }
  }

  /** A traversal whose every step keeps the frame of its page keeps the frame of every page. */
  lemma TraverseKeepsFrame(pages: seq<MemoryPage>, step: (nat, MemoryPage) -> PageStep)
    requires forall j: nat, p: MemoryPage :: KeepsFrame(p, step(j, p).page)
    ensures forall j :: 0 <= j < |pages| ==> KeepsFrame(pages[j], Traverse(pages, step, 0, []).pages[j])
  {
    TraversePages(pages, step, 0, []);
  }

  /** A traversal whose every step keeps the frame of its page keeps a contiguous page list contiguous. */
  lemma TraverseKeepsContiguous(pages: seq<MemoryPage>, step: (nat, MemoryPage) -> PageStep, pageSize: nat)
    requires Contiguous(pages, pageSize)
    requires forall j: nat, p: MemoryPage :: KeepsFrame(p, step(j, p).page)
    ensures Contiguous(Traverse(pages, step, 0, []).pages, pageSize)
  {
    TraverseKeepsFrame(pages, step);
    FramePreservesContiguous(pages, Traverse(pages, step, 0, []).pages, pageSize);
  }

  // ---------------------------------------------------------------------------
  // UpdateMemoryPages

  /** The pages built so far, and the failure that ended the fill, if any. */
  datatype Fill = Fill(pages: seq<MemoryPage>, fault: Option<Error>)

  /** The base address of page `i` of a region starting at `startPage`. */
  function PageBase(startPage: nat, pageSize: nat, i: nat): nat
  {
    startPage + pageSize * i
  }
}
