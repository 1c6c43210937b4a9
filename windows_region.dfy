/**
 * atom::MemoryRegion on Windows: the page list is filled from VirtualQuery,
 * and SetFlags / ResetFlags change each page with VirtualProtect, translating
 * between the abstract flags and the Win32 levels with the WinConvert codec.
 *
 * The two system calls are oracles: `query` answers VirtualQuery for a page
 * base address, and `reply` answers the VirtualProtect call made for the page
 * at a given position of the list.
 */
module WindowsRegion {
  import opened Wrappers
  import opened Memory
  import opened WinConvert
  import opened Region

  /** What VirtualProtect returns: success, and the page's previous protection level. */
  datatype ProtectReply = ProtectReply(ok: bool, oldProtect: ULong)

  /** What VirtualQuery returns: success, and the `RegionSize` and `Protect` of the block. */
  datatype QueryReply = QueryReply(ok: bool, regionSize: nat, protect: ULong)

  // ---------------------------------------------------------------------------
  // UpdateMemoryPages

  /**
   * One iteration of the fill loop: query page `i`, check that the block is a
   * single page, and decode its protection into all three flag fields.
   */
  function QueryPage(startPage: nat, pageSize: nat, query: nat -> QueryReply, i: nat): (r: Result<MemoryPage, Error>)
    ensures var info := query(PageBase(startPage, pageSize, i));
      r.Success? <==> info.ok && info.regionSize == pageSize && IsKnownProtection(info.protect)
    ensures r.Failure? ==> r.error.index == i
    ensures r.Success? ==> var page := r.value;
      && page.size == pageSize && page.base == PageBase(startPage, pageSize, i)
      && !page.committed && !page.guarded
      && page.currentFlags == page.previousFlags == page.initialFlags
      && ConvertFromWinFlags(query(page.base).protect) == Some(page.initialFlags)
  {
    var base := PageBase(startPage, pageSize, i);
    var info := query(base);
    if !info.ok then Failure(QueryFailed(i))
    else if info.regionSize != pageSize then Failure(RegionSizeMismatch(i, info.regionSize))
    else match ConvertFromWinFlags(info.protect)
      case None => Failure(UnrepresentableProtection(i, info.protect))
      case Some(flags) => Success(MemoryPage(pageSize, base, false, false, flags, flags, flags))
  }

  /** The fill loop from page `i` on, with the pages `built` so far. */
  function FillFrom(startPage: nat, pageCount: nat, pageSize: nat, query: nat -> QueryReply, i: nat, built: seq<MemoryPage>): Fill
    decreases pageCount - i
  {
    if i >= pageCount then Fill(built, None)
    else match QueryPage(startPage, pageSize, query, i)
      case Failure(e) => Fill(built, Some(e))
      case Success(page) => FillFrom(startPage, pageCount, pageSize, query, i + 1, built + [page])
  }

  /** The whole fill of `pageCount` pages from `startPage`. */
  function UpdatedPages(startPage: nat, pageCount: nat, pageSize: nat, query: nat -> QueryReply): Fill
  {
    FillFrom(startPage, pageCount, pageSize, query, 0, [])
  }

  /**
   * The fill keeps the pages it has built, adds one page per successful query
   * in order, and stops at the first page whose query fails.
   */
  lemma {:induction false} FillFromShape(startPage: nat, pageCount: nat, pageSize: nat, query: nat -> QueryReply, i: nat, built: seq<MemoryPage>)
    requires i <= pageCount && |built| == i
    ensures var r := FillFrom(startPage, pageCount, pageSize, query, i, built);
      && i <= |r.pages| <= pageCount
      && r.pages[..i] == built
      && (forall j :: i <= j < |r.pages| ==> QueryPage(startPage, pageSize, query, j) == Success(r.pages[j]))
      && (r.fault.None? <==> |r.pages| == pageCount)
      && (r.fault.Some? ==> QueryPage(startPage, pageSize, query, |r.pages|) == Failure(r.fault.value))
    decreases pageCount - i
  {
    if i < pageCount {
      var q := QueryPage(startPage, pageSize, query, i);
      if q.Success? {
        var next := built + [q.value];
        FillFromShape(startPage, pageCount, pageSize, query, i + 1, next);
        var r := FillFrom(startPage, pageCount, pageSize, query, i + 1, next);
        assert r.pages[..i] == r.pages[..i + 1][..i];
      }
    }
  }

  /**
   * UpdateMemoryPages builds exactly `pageCount` pages when every query
   * succeeds, and otherwise stops with the failure of the first page that
   * does not. Page `j` has the page size, the base `startPage + j * pageSize`,
   * is neither committed nor guarded, and holds the decoded protection as its
   * current, previous and initial flags; the pages are contiguous.
   */
  lemma FillFacts(startPage: nat, pageCount: nat, pageSize: nat, query: nat -> QueryReply)
    ensures var r := UpdatedPages(startPage, pageCount, pageSize, query);
      && |r.pages| <= pageCount
      && (r.fault.None? <==> |r.pages| == pageCount)
      && (forall j :: 0 <= j < |r.pages| ==>
            && query(PageBase(startPage, pageSize, j)).ok
            && query(PageBase(startPage, pageSize, j)).regionSize == pageSize
            && r.pages[j].size == pageSize && r.pages[j].base == PageBase(startPage, pageSize, j)
            && !r.pages[j].committed && !r.pages[j].guarded
            && r.pages[j].currentFlags == r.pages[j].previousFlags == r.pages[j].initialFlags
            && ConvertFromWinFlags(query(r.pages[j].base).protect) == Some(r.pages[j].initialFlags))
      && (r.fault.Some? ==> r.fault.value.index == |r.pages|)
      && Contiguous(r.pages, pageSize)
  {
    FillFromShape(startPage, pageCount, pageSize, query, 0, []);
    var r := UpdatedPages(startPage, pageCount, pageSize, query);
    forall j | 0 <= j < |r.pages|
      ensures query(PageBase(startPage, pageSize, j)).ok
      ensures query(PageBase(startPage, pageSize, j)).regionSize == pageSize
      ensures r.pages[j].size == pageSize && r.pages[j].base == PageBase(startPage, pageSize, j)
      ensures !r.pages[j].committed && !r.pages[j].guarded
      ensures r.pages[j].currentFlags == r.pages[j].previousFlags == r.pages[j].initialFlags
      ensures ConvertFromWinFlags(query(r.pages[j].base).protect) == Some(r.pages[j].initialFlags)
      ensures r.pages[j].base == r.pages[0].base + j * pageSize
    {
      assert QueryPage(startPage, pageSize, query, 0) == Success(r.pages[0]);
      assert QueryPage(startPage, pageSize, query, j) == Success(r.pages[j]);
    }
  }

  /** With no pages to fill (the constructor's `size == 0`), the list is empty and nothing is queried. */
  lemma EmptyFill(startPage: nat, pageSize: nat, query: nat -> QueryReply)
    ensures UpdatedPages(startPage, 0, pageSize, query) == Fill([], None)
  {
  }

  // ---------------------------------------------------------------------------
  // SetFlags and ResetFlags

  /** A VirtualProtect answer the loop accepts: the call succeeded and the old level decodes. */
  predicate Accepted(answer: ProtectReply)
  {
    answer.ok && IsKnownProtection(answer.oldProtect)
  }

  /**
   * One iteration of either loop: `VirtualProtect(page.base, page.size, protect,
   * &previousFlags)`, then `previousFlags` decoded and `currentFlags` set to
   * `target`. A failed call, or an old level the decoder rejects, leaves the
   * page untouched.
   */
  function ProtectStep(i: nat, page: MemoryPage, protect: ULong, target: int, answer: ProtectReply): (s: PageStep)
    ensures s.call == ProtectCall(page.base, page.size, protect)
    ensures KeepsFrame(page, s.page)
    ensures s.fault.None? <==> Accepted(answer)
  {
    var call := ProtectCall(page.base, page.size, protect);
    if !answer.ok then PageStep(page, call, Some(ProtectionChangeFailed(i)))
    else match ConvertFromWinFlags(answer.oldProtect)
      case None => PageStep(page, call, Some(UnrepresentableProtection(i, answer.oldProtect)))
      case Some(previous) => PageStep(page.(previousFlags := previous, currentFlags := target), call, None)
  }

  /** SetFlags's step: every page gets the one level `ConvertToWinFlags(flags)` and `currentFlags == flags`. */
  function SetStep(flags: int, reply: nat -> ProtectReply): (nat, MemoryPage) -> PageStep
  {
    var native := ConvertToWinFlags(flags);
    (i: nat, page: MemoryPage) => ProtectStep(i, page, native, flags, reply(i))
  }

  /** The flags ResetFlags restores a page to. */
  function ResetTarget(page: MemoryPage, initial: bool): int
  {
    if initial then page.initialFlags else page.previousFlags
  }

  /** ResetFlags's step: each page gets the level of its own target. */
  function ResetStep(initial: bool, reply: nat -> ProtectReply): (nat, MemoryPage) -> PageStep
  {
    (i: nat, page: MemoryPage) =>
      var target := ResetTarget(page, initial);
      ProtectStep(i, page, ConvertToWinFlags(target), target, reply(i))
  }

  function SetFlagsSpec(pages: seq<MemoryPage>, flags: int, reply: nat -> ProtectReply): Traversal
  {
    Traverse(pages, SetStep(flags, reply), 0, [])
  }

  function ResetFlagsSpec(pages: seq<MemoryPage>, initial: bool, reply: nat -> ProtectReply): Traversal
  {
    Traverse(pages, ResetStep(initial, reply), 0, [])
  }

  /**
   * SetFlags visits the pages in order until the first page `k` whose answer
   * is not accepted. Every page before `k` has `currentFlags == flags` and the
   * decoded old level as `previousFlags`; page `k` and every later page are
   * unchanged, because the assignments follow the call. The loop fails exactly
   * when such a page exists, with that page's error.
   */
  lemma SetFlagsEffect(pages: seq<MemoryPage>, flags: int, reply: nat -> ProtectReply)
    ensures var r, k := SetFlagsSpec(pages, flags, reply), FirstFault(pages, SetStep(flags, reply), 0);
      && |r.pages| == |pages|
      && (forall j :: 0 <= j < k ==> Accepted(reply(j)))
      && (k < |pages| ==> !Accepted(reply(k)))
      && (forall j :: 0 <= j < k ==>
            r.pages[j] == pages[j].(previousFlags := ConvertFromWinFlags(reply(j).oldProtect).value, currentFlags := flags))
      && (forall j :: k <= j < |pages| ==> r.pages[j] == pages[j])
      && (r.fault.None? <==> k == |pages|)
      && (k < |pages| ==> r.fault == Some(
            if !reply(k).ok then ProtectionChangeFailed(k) else UnrepresentableProtection(k, reply(k).oldProtect)))
  {
    var step := SetStep(flags, reply);
    TraversePages(pages, step, 0, []);
    var k := FirstFault(pages, step, 0);
    forall j | 0 <= j < k
      ensures Accepted(reply(j))
    {
      assert step(j, pages[j]).fault.None?;
    }
    if k < |pages| {
      assert step(k, pages[k]).fault.Some?;
    }
  }

  /**
   * SetFlags encodes `flags` once and makes one VirtualProtect call per page
   * it reaches, in list order, each with that page's base and size and the
   * same level.
   */
  lemma SetFlagsCalls(pages: seq<MemoryPage>, flags: int, reply: nat -> ProtectReply)
    ensures var r, k := SetFlagsSpec(pages, flags, reply), FirstFault(pages, SetStep(flags, reply), 0);
      && |r.calls| == (if k < |pages| then k + 1 else k)
      && (forall j :: 0 <= j < |r.calls| ==>
            r.calls[j] == ProtectCall(pages[j].base, pages[j].size, ConvertToWinFlags(flags)))
  {
    var step := SetStep(flags, reply);
    TraverseCalls(pages, step, 0, []);
    var r := SetFlagsSpec(pages, flags, reply);
    forall j | 0 <= j < |r.calls|
      ensures r.calls[j] == ProtectCall(pages[j].base, pages[j].size, ConvertToWinFlags(flags))
    {
      assert r.calls[j] == step(j, pages[j]).call;
      assert step(j, pages[j]) == ProtectStep(j, pages[j], ConvertToWinFlags(flags), flags, reply(j));
    }
  }

  /**
   * ResetFlags visits the pages in order until the first page `k` whose answer
   * is not accepted. Every page before `k` is set to its target (its initial
   * flags when `initial`, else its previous flags) with the decoded old level
   * as `previousFlags`; page `k` and every later page are unchanged. Each call
   * asks for the level of that page's own target.
   */
  lemma ResetFlagsEffect(pages: seq<MemoryPage>, initial: bool, reply: nat -> ProtectReply)
    ensures var r, k := ResetFlagsSpec(pages, initial, reply), FirstFault(pages, ResetStep(initial, reply), 0);
      && |r.pages| == |pages|
      && (forall j :: 0 <= j < k ==> Accepted(reply(j)))
      && (k < |pages| ==> !Accepted(reply(k)))
      && (forall j :: 0 <= j < k ==>
            r.pages[j] == pages[j].(previousFlags := ConvertFromWinFlags(reply(j).oldProtect).value,
                                    currentFlags := ResetTarget(pages[j], initial)))
      && (forall j :: k <= j < |pages| ==> r.pages[j] == pages[j])
      && (r.fault.None? <==> k == |pages|)
      && (k < |pages| ==> r.fault == Some(
            if !reply(k).ok then ProtectionChangeFailed(k) else UnrepresentableProtection(k, reply(k).oldProtect)))
  {
    var step := ResetStep(initial, reply);
    TraversePages(pages, step, 0, []);
    var k := FirstFault(pages, step, 0);
    forall j | 0 <= j < k
      ensures Accepted(reply(j))
    {
      assert step(j, pages[j]).fault.None?;
    }
    if k < |pages| {
      assert step(k, pages[k]).fault.Some?;
    }
  }

  /** ResetFlags makes one VirtualProtect call per page it reaches, in list order, each for that page's own target. */
  lemma ResetFlagsCalls(pages: seq<MemoryPage>, initial: bool, reply: nat -> ProtectReply)
    ensures var r, k := ResetFlagsSpec(pages, initial, reply), FirstFault(pages, ResetStep(initial, reply), 0);
      && |r.calls| == (if k < |pages| then k + 1 else k)
      && (forall j :: 0 <= j < |r.calls| ==>
            r.calls[j] == ProtectCall(pages[j].base, pages[j].size, ConvertToWinFlags(ResetTarget(pages[j], initial))))
  {
    var step := ResetStep(initial, reply);
    TraverseCalls(pages, step, 0, []);
    var r := ResetFlagsSpec(pages, initial, reply);
    forall j | 0 <= j < |r.calls|
      ensures r.calls[j] == ProtectCall(pages[j].base, pages[j].size, ConvertToWinFlags(ResetTarget(pages[j], initial)))
    {
      assert r.calls[j] == step(j, pages[j]).call;
      var target := ResetTarget(pages[j], initial);
      assert step(j, pages[j]) == ProtectStep(j, pages[j], ConvertToWinFlags(target), target, reply(j));
    }
  }

  /** SetFlags never writes a page's size, base, committed, guarded or initial flags. */
  lemma SetStepKeepsFrame(flags: int, reply: nat -> ProtectReply)
    ensures forall j: nat, p: MemoryPage :: KeepsFrame(p, SetStep(flags, reply)(j, p).page)
  {
    forall j: nat, p: MemoryPage
      ensures KeepsFrame(p, SetStep(flags, reply)(j, p).page)
    {
      assert SetStep(flags, reply)(j, p) == ProtectStep(j, p, ConvertToWinFlags(flags), flags, reply(j));
    }
  }

  /** ResetFlags never writes a page's size, base, committed, guarded or initial flags. */
  lemma ResetStepKeepsFrame(initial: bool, reply: nat -> ProtectReply)
    ensures forall j: nat, p: MemoryPage :: KeepsFrame(p, ResetStep(initial, reply)(j, p).page)
  {
    forall j: nat, p: MemoryPage
      ensures KeepsFrame(p, ResetStep(initial, reply)(j, p).page)
    {
      var target := ResetTarget(p, initial);
      assert ResetStep(initial, reply)(j, p) == ProtectStep(j, p, ConvertToWinFlags(target), target, reply(j));
    }
  }

  /** The old level VirtualProtect reports for each page is the level of its current flags. */
  ghost predicate ReportsCurrent(pages: seq<MemoryPage>, reply: nat -> ProtectReply)
  {
    forall j :: 0 <= j < |pages| ==>
      reply(j).ok && reply(j).oldProtect == ConvertToWinFlags(pages[j].currentFlags)
  }

  /**
   * ExecuteFunction's three steps, each skipped once a step before it failed:
   * SetFlags(flags), the callback, ResetFlags(false).
   */
  function ExecuteSpec(pages: seq<MemoryPage>, flags: int, callbackFails: bool,
                       setReply: nat -> ProtectReply, resetReply: nat -> ProtectReply): (seq<MemoryPage>, Option<ExecuteError>)
  {
    var s := SetFlagsSpec(pages, flags, setReply);
    if s.fault.Some? then (s.pages, Some(SetFailed(s.fault.value)))
    else if callbackFails then (s.pages, Some(CallbackFailed))
    else
      var t := ResetFlagsSpec(s.pages, false, resetReply);
      (t.pages, if t.fault.Some? then Some(ResetFailed(t.fault.value)) else None)
  }

  /**
   * When VirtualProtect reports each page's real level and every reset call
   * succeeds, ExecuteFunction with a callback that returns leaves each page's
   * current flags at `ConvertFromWinFlags(ConvertToWinFlags(f))` of its
   * original flags `f`: exactly `f` for the five representable combinations,
   * and ReadWriteExecute for Execute, Write and Write|Execute. A callback
   * that fails skips the reset, leaving every page at `flags`.
   */
  lemma ExecuteRestores(pages: seq<MemoryPage>, flags: int, callbackFails: bool,
                        setReply: nat -> ProtectReply, resetReply: nat -> ProtectReply)
    requires ReportsCurrent(pages, setReply)
    requires forall j :: 0 <= j < |pages| ==> Accepted(resetReply(j))
    ensures var (after, err) := ExecuteSpec(pages, flags, callbackFails, setReply, resetReply);
      && |after| == |pages|
      && (callbackFails ==> err == Some(CallbackFailed) && forall j :: 0 <= j < |pages| ==> after[j].currentFlags == flags)
      && (!callbackFails ==> err == None && forall j :: 0 <= j < |pages| ==>
            Some(after[j].currentFlags) == ConvertFromWinFlags(ConvertToWinFlags(pages[j].currentFlags)))
      && (forall j :: 0 <= j < |pages| && pages[j].currentFlags in {0, Read, Read + Write, Read + Execute, ReadWriteExecute} ==>
            !callbackFails ==> after[j].currentFlags == pages[j].currentFlags)
  {
    var s := SetFlagsSpec(pages, flags, setReply);
    SetFlagsEffect(pages, flags, setReply);
    var k := FirstFault(pages, SetStep(flags, setReply), 0);
    if k < |pages| {
      assert false;
    }
    forall j | 0 <= j < |pages|
      ensures Some(s.pages[j].previousFlags) == ConvertFromWinFlags(ConvertToWinFlags(pages[j].currentFlags))
    {
      assert Accepted(setReply(j));
    }
    if !callbackFails {
      ResetFlagsEffect(s.pages, false, resetReply);
      var t := ResetFlagsSpec(s.pages, false, resetReply);
      var m := FirstFault(s.pages, ResetStep(false, resetReply), 0);
      if m < |pages| {
        assert false;
      }
      forall j | 0 <= j < |pages| && pages[j].currentFlags in {0, Read, Read + Write, Read + Execute, ReadWriteExecute}
        ensures t.pages[j].currentFlags == pages[j].currentFlags
      {
        DecodeEncodeExact(pages[j].currentFlags);
      }
    }
  }

  /**
   * When every old level VirtualProtect reports decodes to the page's recorded
   * current flags (as right after construction, whose flags are the decoded
   * VirtualQuery levels) and every reset call succeeds, ExecuteFunction with a
   * callback that returns leaves every page at exactly its original current
   * flags, whatever level they stand for. A callback that fails skips the
   * reset, leaving every page at `flags`.
   */
  lemma ExecuteRestoresRecorded(pages: seq<MemoryPage>, flags: int, callbackFails: bool,
                                setReply: nat -> ProtectReply, resetReply: nat -> ProtectReply)
    requires forall j :: 0 <= j < |pages| ==>
      setReply(j).ok && ConvertFromWinFlags(setReply(j).oldProtect) == Some(pages[j].currentFlags)
    requires forall j :: 0 <= j < |pages| ==> Accepted(resetReply(j))
    ensures var (after, err) := ExecuteSpec(pages, flags, callbackFails, setReply, resetReply);
      && |after| == |pages|
      && (callbackFails ==> err == Some(CallbackFailed) && forall j :: 0 <= j < |pages| ==> after[j].currentFlags == flags)
      && (!callbackFails ==> err == None && forall j :: 0 <= j < |pages| ==> after[j].currentFlags == pages[j].currentFlags)
  {
    SetFlagsEffect(pages, flags, setReply);
    var k := FirstFault(pages, SetStep(flags, setReply), 0);
    if k < |pages| {
      assert false;
    }
    if !callbackFails {
      var s := SetFlagsSpec(pages, flags, setReply);
      ResetFlagsEffect(s.pages, false, resetReply);
      var m := FirstFault(s.pages, ResetStep(false, resetReply), 0);
      if m < |pages| {
        assert false;
      }
    }
  }

  // ---------------------------------------------------------------------------
  // The region

  class MemoryRegion {
    /** `mPages`. */
    var pages: seq<MemoryPage>
    /** The system page size, `Memory::GetPageSize()`. */
    const pageSize: nat

    /** The region's invariant, `ValidPages` of its fields. */
    predicate Valid()
      reads this
    {
      ValidPages(pages, pageSize)
    }

    /** An empty region for the given page size; `Create` fills it. */
    constructor (pageSize: nat)
      ensures this.pageSize == pageSize && pages == []
    {
      this.pageSize := pageSize;
      pages := [];
    }

    /**
     * `MemoryRegion(address, size)`: start at the page holding `address` and
     * fill `PageCount(address, size)` pages. An exception thrown by the fill
     * is a Failure: no region is constructed.
     */
    static method Create(address: nat, size: nat, pageSize: nat, query: nat -> QueryReply) returns (r: Result<MemoryRegion, Error>)
      requires address != 0
      requires IsWord(address + size) && IsWord(pageSize) && IsPowerOfTwo(pageSize)
      ensures var f := UpdatedPages(StartPage(address, pageSize), PageCount(address, size, pageSize), pageSize, query);
        match r
        case Success(region) =>
          f.fault.None? && fresh(region) && region.Valid()
          && region.pageSize == pageSize && region.pages == f.pages
        case Failure(e) => f.fault == Some(e)
    {
      var startPage := StartPage(address, pageSize);
      var pageCount := 0;
      if size > 0 {
        pageCount := PageCount(address, size, pageSize);
      }
      var region := new MemoryRegion(pageSize);
      var err := region.UpdateMemoryPages(startPage, pageCount, query);
      if err.Some? {
        return Failure(err.value);
      }
      FillFacts(startPage, pageCount, pageSize, query);
      r := Success(region);
    }

    /** Replace the page list by one page per successful VirtualQuery, stopping at the first failure. */
    method UpdateMemoryPages(startPage: nat, pageCount: nat, query: nat -> QueryReply) returns (err: Option<Error>)
      modifies this
      ensures var f := UpdatedPages(startPage, pageCount, pageSize, query);
        pages == f.pages && err == f.fault
    {
      pages := [];
      var i := 0;
      while i < pageCount
        invariant i <= pageCount && |pages| == i
        invariant FillFrom(startPage, pageCount, pageSize, query, i, pages) == UpdatedPages(startPage, pageCount, pageSize, query)
      {
        var base := startPage + pageSize * i;
        var info := query(base);
        if !info.ok {
          return Some(QueryFailed(i));
        }
        if info.regionSize != pageSize {
          return Some(RegionSizeMismatch(i, info.regionSize));
        }
        var flags := ConvertFromWinFlags(info.protect);
        if flags.None? {
          return Some(UnrepresentableProtection(i, info.protect));
        }
        pages := pages + [MemoryPage(pageSize, base, false, false, flags.value, flags.value, flags.value)];
        i := i + 1;
      }
      err := None;
    }

    /** Give every page the level of `flags`, recording the decoded old level as its previous flags. */
    method SetFlags(flags: int, reply: nat -> ProtectReply) returns (err: Option<Error>, ghost calls: seq<ProtectCall>)
      requires Valid()
      modifies this
      ensures Valid()
      ensures var r := SetFlagsSpec(old(pages), flags, reply);
        pages == r.pages && err == r.fault && calls == r.calls
    {
      var native := ConvertToWinFlags(flags);
      ghost var step := SetStep(flags, reply);
      SetStepKeepsFrame(flags, reply);
      calls := [];
      var i := 0;
      while i < |pages|
        invariant i <= |pages| == |old(pages)|
        invariant Traverse(pages, step, i, calls) == SetFlagsSpec(old(pages), flags, reply)
      {
        var answer := reply(i);
        calls := calls + [ProtectCall(pages[i].base, pages[i].size, native)];
        assert step(i, pages[i]) == ProtectStep(i, pages[i], native, flags, answer);
        assert pages[i := pages[i]] == pages;
        if !answer.ok {
          err := Some(ProtectionChangeFailed(i));
          TraverseKeepsContiguous(old(pages), step, pageSize);
          return;
        }
        var previous := ConvertFromWinFlags(answer.oldProtect);
        if previous.None? {
          err := Some(UnrepresentableProtection(i, answer.oldProtect));
          TraverseKeepsContiguous(old(pages), step, pageSize);
          return;
        }
        pages := pages[i := pages[i].(previousFlags := previous.value, currentFlags := flags)];
        i := i + 1;
      }
      err := None;
      TraverseKeepsContiguous(old(pages), step, pageSize);
    }

    /** Restore every page to its initial or its previous flags. */
    method ResetFlags(initial: bool, reply: nat -> ProtectReply) returns (err: Option<Error>, ghost calls: seq<ProtectCall>)
      requires Valid()
      modifies this
      ensures Valid()
      ensures var r := ResetFlagsSpec(old(pages), initial, reply);
        pages == r.pages && err == r.fault && calls == r.calls
    {
      ghost var step := ResetStep(initial, reply);
      ResetStepKeepsFrame(initial, reply);
      calls := [];
      var i := 0;
      while i < |pages|
        invariant i <= |pages| == |old(pages)|
        invariant Traverse(pages, step, i, calls) == ResetFlagsSpec(old(pages), initial, reply)
      {
        var flags := if initial then pages[i].initialFlags else pages[i].previousFlags;
        var answer := reply(i);
        calls := calls + [ProtectCall(pages[i].base, pages[i].size, ConvertToWinFlags(flags))];
        assert step(i, pages[i]) == ProtectStep(i, pages[i], ConvertToWinFlags(flags), flags, answer);
        assert pages[i := pages[i]] == pages;
        if !answer.ok {
          err := Some(ProtectionChangeFailed(i));
          TraverseKeepsContiguous(old(pages), step, pageSize);
          return;
        }
        var previous := ConvertFromWinFlags(answer.oldProtect);
        if previous.None? {
          err := Some(UnrepresentableProtection(i, answer.oldProtect));
          TraverseKeepsContiguous(old(pages), step, pageSize);
          return;
        }
        pages := pages[i := pages[i].(previousFlags := previous.value, currentFlags := flags)];
        i := i + 1;
      }
      err := None;
      TraverseKeepsContiguous(old(pages), step, pageSize);
    }

    /**
     * `SetFlags(flags)`, then the callback, then `ResetFlags(false)`. There is
     * no try/finally: a failing SetFlags or callback skips the reset.
     */
    method ExecuteFunction(flags: int, callbackFails: bool, setReply: nat -> ProtectReply, resetReply: nat -> ProtectReply)
      returns (err: Option<ExecuteError>)
      requires Valid()
      modifies this
      ensures Valid()
      ensures (pages, err) == ExecuteSpec(old(pages), flags, callbackFails, setReply, resetReply)
    {
      var setErr, _ := SetFlags(flags, setReply);
      if setErr.Some? {
        return Some(SetFailed(setErr.value));
      }
      if callbackFails {
        return Some(CallbackFailed);
      }
      var resetErr, _ := ResetFlags(false, resetReply);
      err := if resetErr.Some? then Some(ResetFailed(resetErr.value)) else None;
    }

    /** `GetPageCount()`; its properties are those of `PageCountOf`. */
    function GetPageCount(): nat
      reads this
    {
      PageCountOf(pages, pageSize)
    }

    /** `GetRegionSize()`; its properties are those of `RegionSizeOf`. */
    function GetRegionSize(): nat
      reads this
    {
      RegionSizeOf(pages, pageSize)
    }

    /** `operator[](index)`; its properties are those of `PageAt`. */
    function At(index: nat): MemoryPage
      reads this
      requires index < |pages|
    {
      PageAt(pages, pageSize, index)
    }
  }
}
