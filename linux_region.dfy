/**
 * atom::MemoryRegion on Linux: the page list is filled from the lines of
 * `/proc/self/maps`, and SetFlags / ResetFlags change each page with
 * `mprotect`, passing the abstract flags through unchanged.
 *
 * The system is an oracle here too: `mprotect` gives the return value of the
 * call made for the page at a given position of the list, and the maps file is
 * a sequence of lines already split into their start address and permission
 * string (the `start-end perms ...` format of proc(5)).
 */
module LinuxRegion {
  import opened Wrappers
  import opened Memory
  import opened Region

  /** One line of the maps file: the start address of the mapping and its permission field, e.g. "r-xp". */
  datatype MapsLine = MapsLine(start: nat, permissions: string)

  // ---------------------------------------------------------------------------
  // The permission field

  /**
   * The `Keys` map, in the order a `std::map<char, ulong>` visits it: by
   * ascending key, 'r' < 'w' < 'x'. The loop compares the key visited `k`-th
   * with character `k` of the permission field.
   */
  const PermissionKeys: seq<(char, FlagSet)> := [('r', Read), ('w', Write), ('x', Execute)]

  /** Character `k` of the field is the `k`-th key. */
  predicate KeyMatches(permissions: string, k: nat)
    requires k < |PermissionKeys|
  {
    k < |permissions| && permissions[k] == PermissionKeys[k].0
  }

  /** One iteration of the key loop: `flags |= key.second` when character `k` is key `k`. */
  function AddKey(permissions: string, flags: FlagSet, k: nat): FlagSet
    requires k < |PermissionKeys|
  {
    if KeyMatches(permissions, k) then Or(flags, PermissionKeys[k].1) else flags
  }

  /** `flags` with the bits of the first `n` matching keys or-ed in. */
  function AddPermissions(permissions: string, flags: FlagSet, n: nat): FlagSet
    requires n <= |PermissionKeys|
  {
    if n == 0 then flags else AddKey(permissions, AddPermissions(permissions, flags, n - 1), n - 1)
  }

  /** The bits a permission field adds: Read for 'r' first, Write for 'w' second, Execute for 'x' third. */
  function PermissionFlags(permissions: string, flags: FlagSet): FlagSet
  {
    AddPermissions(permissions, flags, |PermissionKeys|)
  }

  /**
   * The decode bit by bit: the result holds Read exactly when `flags` does or
   * character 0 is 'r', Write exactly when `flags` does or character 1 is 'w',
   * and Execute exactly when `flags` does or character 2 is 'x'.
   */
  lemma PermissionDecode(permissions: string, flags: FlagSet)
    ensures var r := PermissionFlags(permissions, flags);
      && (Includes(r, Read) <==> Includes(flags, Read) || (|permissions| > 0 && permissions[0] == 'r'))
      && (Includes(r, Write) <==> Includes(flags, Write) || (|permissions| > 1 && permissions[1] == 'w'))
      && (Includes(r, Execute) <==> Includes(flags, Execute) || (|permissions| > 2 && permissions[2] == 'x'))
  {
    var a0 := flags;
    var a1 := AddKey(permissions, a0, 0);
    var a2 := AddKey(permissions, a1, 1);
    var a3 := AddKey(permissions, a2, 2);
    UnfoldPermissions(permissions, flags);
    FlagBits();
    forall bit | bit in {Read, Write, Execute}
      ensures Includes(a1, bit) <==> Includes(a0, bit) || (bit == Read && KeyMatches(permissions, 0))
      ensures Includes(a2, bit) <==> Includes(a1, bit) || (bit == Write && KeyMatches(permissions, 1))
      ensures Includes(a3, bit) <==> Includes(a2, bit) || (bit == Execute && KeyMatches(permissions, 2))
    {
      OrBit(a0, Read, bit);
      OrBit(a1, Write, bit);
      OrBit(a2, Execute, bit);
    }
  }

  /** The key loop written out: the 'r' key first, then 'w', then 'x'. */
  lemma UnfoldPermissions(permissions: string, flags: FlagSet)
    ensures PermissionFlags(permissions, flags)
         == AddKey(permissions, AddKey(permissions, AddKey(permissions, flags, 0), 1), 2)
  {
    assert AddPermissions(permissions, flags, 1) == AddKey(permissions, flags, 0);
    assert AddPermissions(permissions, flags, 2) == AddKey(permissions, AddKey(permissions, flags, 0), 1);
  }

  /** The common fields: "rwxp" decodes to ReadWriteExecute, "r-xp" to Read|Execute, "rw-p" to Read|Write, "---p" to nothing. */
  lemma PermissionExamples()
    ensures PermissionFlags("rwxp", 0) == ReadWriteExecute
    ensures PermissionFlags("r-xp", 0) == Read + Execute
    ensures PermissionFlags("rw-p", 0) == Read + Write
    ensures PermissionFlags("r--p", 0) == Read
    ensures PermissionFlags("---p", 0) == 0
  {
    UnfoldPermissions("rwxp", 0);
    UnfoldPermissions("r-xp", 0);
    UnfoldPermissions("rw-p", 0);
    UnfoldPermissions("r--p", 0);
    UnfoldPermissions("---p", 0);
  }

  // ---------------------------------------------------------------------------
  // UpdateMemoryPages

  /**
   * The `while(getline(...))` loop for one page, from line `cursor` on: a line
   * whose start address is not the page's base is skipped, the others or
   * their permission bits into `flags`. The loop never breaks, so it reads to
   * the end of the file.
   */
  function ScanLines(base: nat, lines: seq<MapsLine>, cursor: nat, flags: FlagSet): FlagSet
    decreases |lines| - cursor
  {
    if cursor >= |lines| then flags
    else if lines[cursor].start != base then ScanLines(base, lines, cursor + 1, flags)
    else ScanLines(base, lines, cursor + 1, PermissionFlags(lines[cursor].permissions, flags))
  }

  /** Some line from `cursor` on starts at `base` and has key `k` in place. */
  ghost predicate SomeLineGrants(base: nat, lines: seq<MapsLine>, cursor: nat, k: nat)
    requires k < |PermissionKeys|
  {
    exists j :: cursor <= j < |lines| && lines[j].start == base && KeyMatches(lines[j].permissions, k)
  }

  /** The bit of key `k` after decoding one field: held before, or the key is in place. */
  lemma PermissionBit(permissions: string, flags: FlagSet, k: nat)
    requires k < |PermissionKeys|
    ensures Includes(PermissionFlags(permissions, flags), PermissionKeys[k].1)
       <==> Includes(flags, PermissionKeys[k].1) || KeyMatches(permissions, k)
  {
    PermissionDecode(permissions, flags);
  }

  /**
   * The scan holds the bit of key `k` exactly when it was already held or some
   * remaining line starting at `base` has that key in place.
   */
  lemma {:induction false} ScanLinesBit(base: nat, lines: seq<MapsLine>, cursor: nat, flags: FlagSet, k: nat)
    requires k < |PermissionKeys|
    ensures Includes(ScanLines(base, lines, cursor, flags), PermissionKeys[k].1)
       <==> Includes(flags, PermissionKeys[k].1) || SomeLineGrants(base, lines, cursor, k)
    decreases |lines| - cursor
  {
    if cursor < |lines| {
      var next := if lines[cursor].start != base then flags else PermissionFlags(lines[cursor].permissions, flags);
      ScanLinesBit(base, lines, cursor + 1, next, k);
      if lines[cursor].start == base {
        PermissionBit(lines[cursor].permissions, flags, k);
      }
      if SomeLineGrants(base, lines, cursor, k) && !SomeLineGrants(base, lines, cursor + 1, k) {
        var j :| cursor <= j < |lines| && lines[j].start == base && KeyMatches(lines[j].permissions, k);
        assert j == cursor;
      }
      if SomeLineGrants(base, lines, cursor + 1, k) {
        var j :| cursor + 1 <= j < |lines| && lines[j].start == base && KeyMatches(lines[j].permissions, k);
        assert cursor <= j;
      }
    }
  }

  /** With no line left to read, the scan adds nothing. */
  lemma ExhaustedScan(base: nat, lines: seq<MapsLine>, cursor: nat, flags: FlagSet)
    requires cursor >= |lines|
    ensures ScanLines(base, lines, cursor, flags) == flags
  {
  }

  /**
   * The fill loop from page `i` on, with the pages `built` so far and the
   * stream at line `cursor`. Each page starts from all flags clear, and after
   * its scan the stream is at its end.
   */
  function FillFrom(startPage: nat, pageCount: nat, pageSize: nat, lines: seq<MapsLine>, i: nat, cursor: nat, built: seq<MemoryPage>): seq<MemoryPage>
    decreases pageCount - i
  {
    if i >= pageCount then built
    else
      var base := PageBase(startPage, pageSize, i);
      var flags := ScanLines(base, lines, cursor, 0);
      FillFrom(startPage, pageCount, pageSize, lines, i + 1, |lines|,
               built + [MemoryPage(pageSize, base, false, false, flags, flags, flags)])
  }

  /** The whole fill of `pageCount` pages from `startPage`, the stream opened at its first line. */
  function UpdatedPages(startPage: nat, pageCount: nat, pageSize: nat, lines: seq<MapsLine>): seq<MemoryPage>
  {
    FillFrom(startPage, pageCount, pageSize, lines, 0, 0, [])
  }

  lemma {:induction false} FillFromShape(startPage: nat, pageCount: nat, pageSize: nat, lines: seq<MapsLine>, i: nat, cursor: nat, built: seq<MemoryPage>)
    requires i <= pageCount && |built| == i
    requires i > 0 ==> cursor >= |lines|
    ensures var r := FillFrom(startPage, pageCount, pageSize, lines, i, cursor, built);
      && |r| == pageCount
      && r[..i] == built
      && (forall j :: i <= j < pageCount ==>
            var base, flags := PageBase(startPage, pageSize, j), ScanLines(PageBase(startPage, pageSize, j), lines, if j == 0 then cursor else |lines|, 0);
            r[j] == MemoryPage(pageSize, base, false, false, flags, flags, flags))
    decreases pageCount - i
  {
    if i < pageCount {
      var base := PageBase(startPage, pageSize, i);
      var flags := ScanLines(base, lines, cursor, 0);
      var next := built + [MemoryPage(pageSize, base, false, false, flags, flags, flags)];
      FillFromShape(startPage, pageCount, pageSize, lines, i + 1, |lines|, next);
      var r := FillFrom(startPage, pageCount, pageSize, lines, i + 1, |lines|, next);
      assert r[..i] == r[..i + 1][..i];
      if i > 0 {
        ExhaustedScan(base, lines, cursor, 0);
        ExhaustedScan(base, lines, |lines|, 0);
      }
    }
  }

  /**
   * UpdateMemoryPages builds exactly `pageCount` contiguous pages, none
   * committed or guarded, each with equal current, previous and initial
   * flags. The first page's flags are those of the lines starting at its base;
   * since the first scan reads the stream to its end and the stream is never
   * rewound, every later page gets no flags at all.
   */
  lemma FillFacts(startPage: nat, pageCount: nat, pageSize: nat, lines: seq<MapsLine>)
    ensures var r := UpdatedPages(startPage, pageCount, pageSize, lines);
      && |r| == pageCount
      && Contiguous(r, pageSize)
      && (forall j :: 0 <= j < pageCount ==>
            && r[j].base == PageBase(startPage, pageSize, j)
            && !r[j].committed && !r[j].guarded
            && r[j].currentFlags == r[j].previousFlags == r[j].initialFlags)
      && (pageCount > 0 ==> r[0].initialFlags == ScanLines(startPage, lines, 0, 0))
      && (forall j :: 1 <= j < pageCount ==> r[j].initialFlags == 0)
  {
    FillFromShape(startPage, pageCount, pageSize, lines, 0, 0, []);
    var r := UpdatedPages(startPage, pageCount, pageSize, lines);
    forall j | 1 <= j < pageCount
      ensures r[j].initialFlags == 0
    {
      ExhaustedScan(PageBase(startPage, pageSize, j), lines, |lines|, 0);
    }
  }

  /**
   * The first page's flags, bit by bit: it holds the bit of key `k` exactly
   * when some line starting at the region's first page has that key in place.
   */
  lemma FirstPageFlags(startPage: nat, pageCount: nat, pageSize: nat, lines: seq<MapsLine>, k: nat)
    requires pageCount > 0 && k < |PermissionKeys|
    ensures var pages := UpdatedPages(startPage, pageCount, pageSize, lines);
      && |pages| == pageCount
      && 0 <= pages[0].initialFlags <= ReadWriteExecute
      && (Includes(pages[0].initialFlags, PermissionKeys[k].1) <==> SomeLineGrants(startPage, lines, 0, k))
  {
    FillFacts(startPage, pageCount, pageSize, lines);
    ScanLinesBit(startPage, lines, 0, 0, k);
    FlagBits();
  }

  // ---------------------------------------------------------------------------
  // SetFlags and ResetFlags

  /**
   * One iteration of either loop: `previousFlags := currentFlags`, then
   * `mprotect(page.base, page.size, target)`, then `currentFlags := target`.
   * The loop throws when `!mprotect(...)` holds, that is when the call
   * returns 0, after `previousFlags` was already written.
   */
  function ProtectStep(i: nat, page: MemoryPage, target: int, result: int): (s: PageStep)
    ensures s.call == ProtectCall(page.base, page.size, target)
    ensures KeepsFrame(page, s.page)
    ensures s.fault.None? <==> result != 0
  {
    var saved := page.(previousFlags := page.currentFlags);
    var call := ProtectCall(page.base, page.size, target);
    if result == 0 then PageStep(saved, call, Some(ProtectionChangeFailed(i)))
    else PageStep(saved.(currentFlags := target), call, None)
  }

  function SetStep(flags: int, mprotect: nat -> int): (nat, MemoryPage) -> PageStep
  {
    (i: nat, page: MemoryPage) => ProtectStep(i, page, flags, mprotect(i))
  }

  /** The flags ResetFlags restores a page to, read before `previousFlags` is overwritten. */
  function ResetTarget(page: MemoryPage, initial: bool): int
  {
    if initial then page.initialFlags else page.previousFlags
  }

  function ResetStep(initial: bool, mprotect: nat -> int): (nat, MemoryPage) -> PageStep
  {
    (i: nat, page: MemoryPage) => ProtectStep(i, page, ResetTarget(page, initial), mprotect(i))
  }

  function SetFlagsSpec(pages: seq<MemoryPage>, flags: int, mprotect: nat -> int): Traversal
  {
    Traverse(pages, SetStep(flags, mprotect), 0, [])
  }

  function ResetFlagsSpec(pages: seq<MemoryPage>, initial: bool, mprotect: nat -> int): Traversal
  {
    Traverse(pages, ResetStep(initial, mprotect), 0, [])
  }

  /** Every one of the first `n` calls returns non-zero, so the loop passes them. */
  ghost predicate Passes(mprotect: nat -> int, n: nat)
  {
    forall j :: 0 <= j < n ==> mprotect(j) != 0
  }

  /**
   * SetFlags visits the pages in order until the first page `k` whose call
   * returns 0. Every page before `k` has its old current flags as previous
   * flags and `flags` as current flags. Page `k` has its previous flags
   * overwritten by its current flags and keeps its current flags. Every page
   * after `k` is unchanged. The loop fails exactly when such a page exists.
   */
  lemma SetFlagsEffect(pages: seq<MemoryPage>, flags: int, mprotect: nat -> int)
    ensures var r, k := SetFlagsSpec(pages, flags, mprotect), FirstFault(pages, SetStep(flags, mprotect), 0);
      && |r.pages| == |pages|
      && Passes(mprotect, k)
      && (k < |pages| ==> mprotect(k) == 0)
      && (forall j :: 0 <= j < k ==>
            r.pages[j] == pages[j].(previousFlags := pages[j].currentFlags, currentFlags := flags))
      && (k < |pages| ==> r.pages[k] == pages[k].(previousFlags := pages[k].currentFlags))
      && (forall j :: k < j < |pages| ==> r.pages[j] == pages[j])
      && (r.fault.None? <==> k == |pages|)
      && (k < |pages| ==> r.fault == Some(ProtectionChangeFailed(k)))
  {
    var step := SetStep(flags, mprotect);
    TraversePages(pages, step, 0, []);
    var k := FirstFault(pages, step, 0);
    forall j | 0 <= j < k
      ensures mprotect(j) != 0
    {
      assert step(j, pages[j]).fault.None?;
    }
    if k < |pages| {
      assert step(k, pages[k]).fault.Some?;
    }
  }

  /** SetFlags calls `mprotect` once per page it reaches, in list order, with `flags` unchanged. */
  lemma SetFlagsCalls(pages: seq<MemoryPage>, flags: int, mprotect: nat -> int)
    ensures var r, k := SetFlagsSpec(pages, flags, mprotect), FirstFault(pages, SetStep(flags, mprotect), 0);
      && |r.calls| == (if k < |pages| then k + 1 else k)
      && (forall j :: 0 <= j < |r.calls| ==> r.calls[j] == ProtectCall(pages[j].base, pages[j].size, flags))
  {
    var step := SetStep(flags, mprotect);
    TraverseCalls(pages, step, 0, []);
    var r := SetFlagsSpec(pages, flags, mprotect);
    forall j | 0 <= j < |r.calls|
      ensures r.calls[j] == ProtectCall(pages[j].base, pages[j].size, flags)
    {
      assert r.calls[j] == step(j, pages[j]).call;
      assert step(j, pages[j]) == ProtectStep(j, pages[j], flags, mprotect(j));
    }
  }

  /**
   * ResetFlags visits the pages in order until the first page `k` whose call
   * returns 0. Every page before `k` has its old current flags as previous
   * flags and its target as current flags. Page `k` has only its previous
   * flags overwritten. Every page after `k` is unchanged.
   */
  lemma ResetFlagsEffect(pages: seq<MemoryPage>, initial: bool, mprotect: nat -> int)
    ensures var r, k := ResetFlagsSpec(pages, initial, mprotect), FirstFault(pages, ResetStep(initial, mprotect), 0);
      && |r.pages| == |pages|
      && Passes(mprotect, k)
      && (k < |pages| ==> mprotect(k) == 0)
      && (forall j :: 0 <= j < k ==>
            r.pages[j] == pages[j].(previousFlags := pages[j].currentFlags, currentFlags := ResetTarget(pages[j], initial)))
      && (k < |pages| ==> r.pages[k] == pages[k].(previousFlags := pages[k].currentFlags))
      && (forall j :: k < j < |pages| ==> r.pages[j] == pages[j])
      && (r.fault.None? <==> k == |pages|)
      && (k < |pages| ==> r.fault == Some(ProtectionChangeFailed(k)))
  {
    var step := ResetStep(initial, mprotect);
    TraversePages(pages, step, 0, []);
    var k := FirstFault(pages, step, 0);
    forall j | 0 <= j < k
      ensures mprotect(j) != 0
    {
      assert step(j, pages[j]).fault.None?;
    }
    if k < |pages| {
      assert step(k, pages[k]).fault.Some?;
    }
  }

  /** ResetFlags calls `mprotect` once per page it reaches, in list order, with that page's own target. */
  lemma ResetFlagsCalls(pages: seq<MemoryPage>, initial: bool, mprotect: nat -> int)
    ensures var r, k := ResetFlagsSpec(pages, initial, mprotect), FirstFault(pages, ResetStep(initial, mprotect), 0);
      && |r.calls| == (if k < |pages| then k + 1 else k)
      && (forall j :: 0 <= j < |r.calls| ==>
            r.calls[j] == ProtectCall(pages[j].base, pages[j].size, ResetTarget(pages[j], initial)))
  {
    var step := ResetStep(initial, mprotect);
    TraverseCalls(pages, step, 0, []);
    var r := ResetFlagsSpec(pages, initial, mprotect);
    forall j | 0 <= j < |r.calls|
      ensures r.calls[j] == ProtectCall(pages[j].base, pages[j].size, ResetTarget(pages[j], initial))
    {
      assert r.calls[j] == step(j, pages[j]).call;
      assert step(j, pages[j]) == ProtectStep(j, pages[j], ResetTarget(pages[j], initial), mprotect(j));
    }
  }

  /** The loops stop at the first page whose call returns 0: when the first call returns 0, only the first page is touched. */
  lemma ZeroReturnStopsAtFirstPage(pages: seq<MemoryPage>, flags: int, mprotect: nat -> int)
    requires |pages| > 0 && mprotect(0) == 0
    ensures var r := SetFlagsSpec(pages, flags, mprotect);
      && r.fault == Some(ProtectionChangeFailed(0))
      && r.pages == [pages[0].(previousFlags := pages[0].currentFlags)] + pages[1..]
      && r.calls == [ProtectCall(pages[0].base, pages[0].size, flags)]
  {
    var r := SetFlagsSpec(pages, flags, mprotect);
    assert FirstFault(pages, SetStep(flags, mprotect), 0) == 0;
    SetFlagsEffect(pages, flags, mprotect);
    SetFlagsCalls(pages, flags, mprotect);
    assert r.pages == [pages[0].(previousFlags := pages[0].currentFlags)] + pages[1..];
  }

  /** SetFlags never writes a page's size, base, committed, guarded or initial flags. */
  lemma SetStepKeepsFrame(flags: int, mprotect: nat -> int)
    ensures forall j: nat, p: MemoryPage :: KeepsFrame(p, SetStep(flags, mprotect)(j, p).page)
  {
    forall j: nat, p: MemoryPage
      ensures KeepsFrame(p, SetStep(flags, mprotect)(j, p).page)
    {
      assert SetStep(flags, mprotect)(j, p) == ProtectStep(j, p, flags, mprotect(j));
    }
  }

  /** ResetFlags never writes a page's size, base, committed, guarded or initial flags. */
  lemma ResetStepKeepsFrame(initial: bool, mprotect: nat -> int)
    ensures forall j: nat, p: MemoryPage :: KeepsFrame(p, ResetStep(initial, mprotect)(j, p).page)
  {
    forall j: nat, p: MemoryPage
      ensures KeepsFrame(p, ResetStep(initial, mprotect)(j, p).page)
    {
      assert ResetStep(initial, mprotect)(j, p) == ProtectStep(j, p, ResetTarget(p, initial), mprotect(j));
    }
  }

  /** A ResetFlags whose calls all pass swaps every page's current and previous flags and changes nothing else. */
  lemma ResetSwaps(pages: seq<MemoryPage>, mprotect: nat -> int)
    requires Passes(mprotect, |pages|)
    ensures var r := ResetFlagsSpec(pages, false, mprotect);
      && r.fault.None? && |r.pages| == |pages|
      && forall j :: 0 <= j < |pages| ==>
           r.pages[j] == pages[j].(currentFlags := pages[j].previousFlags, previousFlags := pages[j].currentFlags)
  {
    ResetFlagsEffect(pages, false, mprotect);
    var k := FirstFault(pages, ResetStep(false, mprotect), 0);
    if k < |pages| {
      assert false;
    }
  }

  /** Two successful `ResetFlags(false)` in a row restore the original pages, current and previous flags included. */
  lemma ResetTwiceRestores(pages: seq<MemoryPage>, first: nat -> int, second: nat -> int)
    requires Passes(first, |pages|) && Passes(second, |pages|)
    ensures ResetFlagsSpec(ResetFlagsSpec(pages, false, first).pages, false, second).pages == pages
  {
    var once := ResetFlagsSpec(pages, false, first).pages;
    ResetSwaps(pages, first);
    ResetSwaps(once, second);
  }

  /** A successful `ResetFlags(true)` leaves every page at its initial flags. */
  lemma ResetToInitial(pages: seq<MemoryPage>, mprotect: nat -> int)
    requires Passes(mprotect, |pages|)
    ensures var r := ResetFlagsSpec(pages, true, mprotect);
      && r.fault.None? && |r.pages| == |pages|
      && forall j :: 0 <= j < |pages| ==>
           r.pages[j].currentFlags == pages[j].initialFlags == r.pages[j].initialFlags
           && r.pages[j].previousFlags == pages[j].currentFlags
  {
    ResetFlagsEffect(pages, true, mprotect);
    var k := FirstFault(pages, ResetStep(true, mprotect), 0);
    if k < |pages| {
      assert false;
    }
  }

  /**
   * ExecuteFunction's three steps, each skipped once a step before it failed:
   * SetFlags(flags), the callback, ResetFlags(false).
   */
  function ExecuteSpec(pages: seq<MemoryPage>, flags: int, callbackFails: bool,
                       setCalls: nat -> int, resetCalls: nat -> int): (seq<MemoryPage>, Option<ExecuteError>)
  {
    var s := SetFlagsSpec(pages, flags, setCalls);
    if s.fault.Some? then (s.pages, Some(SetFailed(s.fault.value)))
    else if callbackFails then (s.pages, Some(CallbackFailed))
    else
      var t := ResetFlagsSpec(s.pages, false, resetCalls);
      (t.pages, if t.fault.Some? then Some(ResetFailed(t.fault.value)) else None)
  }

  /**
   * When every call passes, ExecuteFunction with a callback that returns
   * gives every page back its original current flags, with `flags` as its
   * previous flags. A callback that fails skips the reset and leaves every
   * page at `flags`.
   */
  lemma ExecuteRestores(pages: seq<MemoryPage>, flags: int, callbackFails: bool, setCalls: nat -> int, resetCalls: nat -> int)
    requires Passes(setCalls, |pages|) && Passes(resetCalls, |pages|)
    ensures var (after, err) := ExecuteSpec(pages, flags, callbackFails, setCalls, resetCalls);
      && |after| == |pages|
      && (callbackFails ==> err == Some(CallbackFailed) && forall j :: 0 <= j < |pages| ==> after[j].currentFlags == flags)
      && (!callbackFails ==> err == None && forall j :: 0 <= j < |pages| ==>
            after[j] == pages[j].(previousFlags := flags))
  {
    SetFlagsEffect(pages, flags, setCalls);
    var k := FirstFault(pages, SetStep(flags, setCalls), 0);
    if k < |pages| {
      assert false;
    }
    var s := SetFlagsSpec(pages, flags, setCalls);
    if !callbackFails {
      ResetSwaps(s.pages, resetCalls);
    }
  }

  // ---------------------------------------------------------------------------
  // The region

  class MemoryRegion {
    /** `mPages`. */
    var pages: seq<MemoryPage>
    /** The system page size, `MemoryRegion::PageSize`. */
    const pageSize: nat

    /** The region's invariant, `ValidPages` of its fields. */
    predicate Valid()
      reads this
    {
      ValidPages(pages, pageSize)
    }

    /** An empty region for the given page size; `Create` fills it. */
    constructor (pageSize: nat)
      ensures this.pageSize == pageSize && pages == []
    {
      this.pageSize := pageSize;
      pages := [];
    }

    /** `MemoryRegion(address, size)`: start at the page holding `address` and fill `PageCount(address, size)` pages. */
    static method Create(address: nat, size: nat, pageSize: nat, lines: seq<MapsLine>) returns (region: MemoryRegion)
      requires address != 0
      requires IsWord(address + size) && IsWord(pageSize) && IsPowerOfTwo(pageSize)
      ensures fresh(region) && region.Valid() && region.pageSize == pageSize
      ensures region.pages == UpdatedPages(StartPage(address, pageSize), PageCount(address, size, pageSize), pageSize, lines)
    {
      var startPage := StartPage(address, pageSize);
      var pageCount := 0;
      if size > 0 {
        pageCount := PageCount(address, size, pageSize);
      }
      region := new MemoryRegion(pageSize);
      region.UpdateMemoryPages(startPage, pageCount, lines);
      FillFacts(startPage, pageCount, pageSize, lines);
    }

    /** Replace the page list by `pageCount` pages whose flags are read from the maps lines. */
    method UpdateMemoryPages(startPage: nat, pageCount: nat, lines: seq<MapsLine>)
      modifies this
      ensures pages == UpdatedPages(startPage, pageCount, pageSize, lines)
    {
      pages := [];
      var cursor := 0;
      var i := 0;
      while i < pageCount
        invariant i <= pageCount && |pages| == i && cursor <= |lines|
        invariant FillFrom(startPage, pageCount, pageSize, lines, i, cursor, pages) == UpdatedPages(startPage, pageCount, pageSize, lines)
      {
        var base := startPage + pageSize * i;
        var initialFlags: FlagSet := 0;
        ghost var scan := ScanLines(base, lines, cursor, 0);
        while cursor < |lines|
          invariant cursor <= |lines|
          invariant ScanLines(base, lines, cursor, initialFlags) == scan
        {
          var line := lines[cursor];
          cursor := cursor + 1;
          if line.start != base {
            continue;
          }
          ghost var before := initialFlags;
          var index := 0;
          for k := 0 to |PermissionKeys|
            invariant index == k
            invariant initialFlags == AddPermissions(line.permissions, before, k)
          {
            if index < |line.permissions| && line.permissions[index] == PermissionKeys[k].0 {
              initialFlags := Or(initialFlags, PermissionKeys[k].1);
            }
            index := index + 1;
          }
        }
        pages := pages + [MemoryPage(pageSize, base, false, false, initialFlags, initialFlags, initialFlags)];
        i := i + 1;
      }
    }

    /** Give every page `flags`, after saving its current flags as its previous flags. */
    method SetFlags(flags: int, mprotect: nat -> int) returns (err: Option<Error>, ghost calls: seq<ProtectCall>)
      requires Valid()
      modifies this
      ensures Valid()
      ensures var r := SetFlagsSpec(old(pages), flags, mprotect);
        pages == r.pages && err == r.fault && calls == r.calls
    {
      ghost var step := SetStep(flags, mprotect);
      SetStepKeepsFrame(flags, mprotect);
      calls := [];
      var i := 0;
      while i < |pages|
        invariant i <= |pages| == |old(pages)|
        invariant Traverse(pages, step, i, calls) == SetFlagsSpec(old(pages), flags, mprotect)
      {
        ghost var prior := pages;
        assert step(i, pages[i]) == ProtectStep(i, pages[i], flags, mprotect(i));
        pages := pages[i := pages[i].(previousFlags := pages[i].currentFlags)];
        var result := mprotect(i);
        calls := calls + [ProtectCall(pages[i].base, pages[i].size, flags)];
        if result == 0 {
          err := Some(ProtectionChangeFailed(i));
          TraverseKeepsContiguous(old(pages), step, pageSize);
          return;
        }
        pages := pages[i := pages[i].(currentFlags := flags)];
        assert pages == prior[i := step(i, prior[i]).page];
        i := i + 1;
      }
      err := None;
      TraverseKeepsContiguous(old(pages), step, pageSize);
    }

    /** Restore every page to its initial or its previous flags, saving its current flags as its previous flags. */
    method ResetFlags(initial: bool, mprotect: nat -> int) returns (err: Option<Error>, ghost calls: seq<ProtectCall>)
      requires Valid()
      modifies this
      ensures Valid()
      ensures var r := ResetFlagsSpec(old(pages), initial, mprotect);
        pages == r.pages && err == r.fault && calls == r.calls
    {
      ghost var step := ResetStep(initial, mprotect);
      ResetStepKeepsFrame(initial, mprotect);
      calls := [];
      var i := 0;
      while i < |pages|
        invariant i <= |pages| == |old(pages)|
        invariant Traverse(pages, step, i, calls) == ResetFlagsSpec(old(pages), initial, mprotect)
      {
        var flags := if initial then pages[i].initialFlags else pages[i].previousFlags;
        ghost var prior := pages;
        assert step(i, pages[i]) == ProtectStep(i, pages[i], flags, mprotect(i));
        pages := pages[i := pages[i].(previousFlags := pages[i].currentFlags)];
        var result := mprotect(i);
        calls := calls + [ProtectCall(pages[i].base, pages[i].size, flags)];
        if result == 0 {
          err := Some(ProtectionChangeFailed(i));
          TraverseKeepsContiguous(old(pages), step, pageSize);
          return;
        }
        pages := pages[i := pages[i].(currentFlags := flags)];
        assert pages == prior[i := step(i, prior[i]).page];
        i := i + 1;
      }
      err := None;
      TraverseKeepsContiguous(old(pages), step, pageSize);
    }

    /**
     * `SetFlags(flags)`, then the callback, then `ResetFlags(false)`. There is
     * no try/finally: a failing SetFlags or callback skips the reset.
     */
    method ExecuteFunction(flags: int, callbackFails: bool, setCalls: nat -> int, resetCalls: nat -> int)
      returns (err: Option<ExecuteError>)
      requires Valid()
      modifies this
      ensures Valid()
      ensures (pages, err) == ExecuteSpec(old(pages), flags, callbackFails, setCalls, resetCalls)
    {
      var setErr, _ := SetFlags(flags, setCalls);
      if setErr.Some? {
        return Some(SetFailed(setErr.value));
      }
      if callbackFails {
        return Some(CallbackFailed);
      }
      var resetErr, _ := ResetFlags(false, resetCalls);
      err := if resetErr.Some? then Some(ResetFailed(resetErr.value)) else None;
    }

    /** `GetPageCount()`; its properties are those of `PageCountOf`. */
    function GetPageCount(): nat
      reads this
    {
      PageCountOf(pages, pageSize)
    }

    /** `GetRegionSize()`; its properties are those of `RegionSizeOf`. */
    function GetRegionSize(): nat
      reads this
    {
      RegionSizeOf(pages, pageSize)
    }

    /** `operator[](index)`; its properties are those of `PageAt`. */
    function At(index: nat): MemoryPage
      reads this
      requires index < |pages|
    {
      PageAt(pages, pageSize, index)
    }
  }
}
