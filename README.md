# atom-memory: page regions and protection flags

A Dafny model of the core of atom-memory, a small C++ library. The library looks up the operating-system pages behind an address, records each page's current, previous and initial protection, and changes and restores that protection.

It models:

- The abstract permission bits and `AlignTo` (`Memory`).
- The Win32 protection-level codec: `ConvertToWinFlags` and `ConvertFromWinFlags` (`WinConvert`), plus an older copy of the same codec (`WinLegacyConvert`).
- The platform-independent part of `MemoryRegion` (`Region`):
  - the `MemoryPage` record;
  - the constructor's start-page and page-count arithmetic;
  - the page loop that `SetFlags` and `ResetFlags` share. It calls the system once per page, in list order, and stops at the first failing page.
- `MemoryRegion` on Windows (`WindowsRegion`), a class over a `seq<MemoryPage>`:
  - pages are filled from VirtualQuery;
  - SetFlags and ResetFlags go through VirtualProtect and the codec;
  - ExecuteFunction composes them.
- The same class on Linux (`LinuxRegion`):
  - pages are filled from the lines of `/proc/self/maps`, with one stream cursor shared by all pages;
  - SetFlags and ResetFlags go through `mprotect`, with the flags passed through unchanged.

## How it is modelled

**System calls are oracle parameters.** Each is a function from a call's position to its answer:

- VirtualProtect: `nat -> ProtectReply`;
- `mprotect`'s return value: `nat -> int`;
- the maps file: a sequence of lines already split into a start address and a permission field (`MapsLine`);
- VirtualQuery: a function of the page address.

**Each loop is a method proved against a specification function.** The loop's `ensures` equates the new page list, the error and the calls made with that function. The properties are then proved about the specification functions as lemmas, without reference to any one method.

**A C++ exception is an error value.** This covers `ATOM_WINDOWS_ASSERT`, a `throw`, and an `assert(false)` in the decoder. The value is an `Error` naming the page index, and the loop exits at once, leaving the pages exactly as the C++ leaves them at that point. The constructor becomes `MemoryRegion.Create`, which returns a `Result` because a throwing constructor yields no object.

**Words are 64 bits.** Addresses and sizes are naturals below 2^64. `&` is written out as `BitAnd`, and `~x` as `2^64 - 1 - x`. The lemma `AlignDownIsRoundDown` proves that `x & ~(P - 1) == x - x % P` for a power of two `P`.

**Where the code and the documented behaviour differ, the model follows the code:**

- **Page count.** The count is `(lastPage - startPage) / P + 1`. `PageCountCovers` proves it is one more than the number of covering pages exactly when `address + size` is page aligned.
- **ExecuteFunction.** It has no try/finally, so a failing SetFlags or callback skips `ResetFlags(false)`.
- **Linux `mprotect` test.** The Linux loops throw when `!mprotect(...)` holds, i.e. when the call returns 0, which is what `mprotect` returns on success. `ZeroReturnStopsAtFirstPage` shows the effect: when the first call returns 0, only the first page is touched.
- **Maps scan.** The Linux scan reads the maps stream to its end for the first page and never rewinds it. Every later page therefore gets no flags (`FillFacts`).
- **Maps line match.** A line matches a page only when its start address equals the page base exactly. A line whose range merely contains the page does not match. A page that no line matches gets flags 0, and the fill does not fail.
- **Windows fill.** It makes one VirtualQuery per page and requires the reported `RegionSize` to be one page. It does not use range queries.

## Model

| member | source | states |
|---|---|---|
| Memory.FlagBits | atom-memory/Memory.hpp:6-10 | Execute, Write and Read are the single bits 1, 2 and 4, and none includes another |
| Memory.ReadWriteExecuteIsAll | atom-memory/Memory.hpp:46 | ReadWriteExecute is Read \| Write \| Execute and includes every permission set |
| Memory.OrBit | atom-memory/Memory.hpp:6-10 | a bit is in `a \| b` exactly when it is in `a` or in `b` |
| Memory.SameBitsSameSet | atom-memory/Memory.hpp:6-10 | a permission set is determined by which of the three bits it holds |
| Memory.AlignDownIsRoundDown | atom-memory/Memory.hpp:42 | for a power-of-two `P`, `x & ~(P - 1)` is `x - x % P`: a multiple of `P`, at most `x`, less than `P` below it |
| Memory.AlignToRoundsUp | atom-memory/Memory.hpp:40-43 | without overflow, AlignTo gives a multiple of the alignment, at least `base`, less than one alignment above it |
| Memory.AlignToKeepsAligned | atom-memory/Memory.hpp:42 | an already aligned `base` is returned unchanged |
| Memory.AlignToIdempotent | atom-memory/Memory.hpp:42 | on every 64-bit word and every power-of-two alignment, the result is a word and AlignTo applied twice equals AlignTo applied once, also when the first addition wraps |
| WinConvert.ConvertToWinFlags | atom-memory/src/windows/Convert.cpp:8-24 | the result is one of the five encodable levels, and it is PAGE_EXECUTE_READWRITE exactly when the input is not Read, Read\|Write, Read\|Execute or 0 |
| WinConvert.ConvertFromWinFlags | atom-memory/src/windows/Convert.cpp:26-53 | the decode succeeds exactly on the eight known levels, and every result is a subset of ReadWriteExecute |
| WinConvert.DecodeTable | atom-memory/src/windows/Convert.cpp:30-48 | the fall-through switch gives NOACCESS 0, EXECUTE_READ 5, EXECUTE 1, EXECUTE_READWRITE and EXECUTE_WRITECOPY 7, READWRITE and WRITECOPY 6, READONLY 4 |
| WinConvert.GuardedLevelRejected | atom-memory/src/windows/Convert.cpp:49 | a known level with PAGE_GUARD or-ed in reaches `assert(false)` |
| WinConvert.DecodeEncodeExact | atom-memory/src/windows/Convert.cpp:8-53 | decoding an encoding gives back the input exactly when the input is 0, 4, 5, 6 or 7 |
| WinConvert.DecodeEncodeWidens | atom-memory/src/windows/Convert.cpp:19-41 | for every permission set, decoding its encoding keeps every bit, and 1, 2 and 3 come back as 7 |
| WinConvert.EncodeDecodeExact | atom-memory/src/windows/Convert.cpp:8-53 | encoding a decoded level gives it back exactly for the five encodable levels; WRITECOPY comes back as READWRITE, EXECUTE and EXECUTE_WRITECOPY as EXECUTE_READWRITE |
| WinConvert.EncodeIsExactOrWidest | atom-memory/src/windows/Convert.cpp:8-24 | the encoder picks a level that decodes to exactly the input whenever one exists, and PAGE_EXECUTE_READWRITE otherwise |
| WinLegacyConvert.ConvertToWinFlags | atom-memory/src/windows/Windows.cpp:4-20 | the older encoder agrees with WinConvert.ConvertToWinFlags on every int |
| WinLegacyConvert.ConvertFromWinFlags | atom-memory/src/windows/Windows.cpp:22-49 | the older decoder agrees with WinConvert.ConvertFromWinFlags on every level |
| WinLegacyConvert.LegacyRoundTrip | atom-memory/src/windows/Windows.cpp:4-49 | the older pair round-trips 0, 4, 5, 6 and 7 exactly and widens 1, 2 and 3 to 7 |
| Region.StartPage | atom-memory/MemoryRegion.hpp:110 | the start page is a multiple of the page size, at most `address`, less than one page below it |
| Region.PageCount | atom-memory/MemoryRegion.hpp:111-115 | the page count is zero exactly when no size is given |
| Region.PageCountCovers | atom-memory/MemoryRegion.hpp:113-115 | for `size > 0`: at least one page; the last page starts at `alignDown(address + size)`; the pages cover `address + size`; the count is the covering count plus one exactly when `address + size` is page aligned |
| Region.ContiguousSpan | atom-memory/MemoryRegion.hpp:133-135 | `n` contiguous pages of `P` bytes span `n * P` bytes, from the first base to the end of the last page |
| Region.PageCountOf | atom-memory/MemoryRegion.hpp:129-131 | `GetPageCount()` of both platforms' regions: for a valid region, the page count times the page size is the total size of the pages |
| Region.RegionSizeOf | atom-memory/MemoryRegion.hpp:133-135 | `GetRegionSize()` of both platforms' regions: for a valid region, the sum of the page sizes and the span from the first base to the end of the last page |
| Region.PageAt | atom-memory/MemoryRegion.hpp:137-139 | `operator[]` of both platforms' regions: defined for indices below the page count; for a valid region, page `i` has the page size and lies `i` pages past the first |
| Region.TraversePages | atom-memory/src/windows/MemoryRegion.cpp:10-17 | the page loop: pages up to and including the first failing one take their step's result, later pages are untouched, and the loop fails exactly when some step fails |
| Region.TraverseCalls | atom-memory/src/linux/MemoryRegion.cpp:16-24 | the page loop makes one native call per page, in list order, up to and including the first failing page |
| Region.FirstFault | atom-memory/src/windows/MemoryRegion.cpp:10-13 | the index where the loop stops: no step before it fails, and the step at it does |
| WindowsRegion.QueryPage | atom-memory/src/windows/MemoryRegion.cpp:37-50 | a page is built exactly when VirtualQuery succeeds, reports a one-page region and a known level; it has size `P`, base `startPage + i * P`, is neither committed nor guarded, and holds the decoded level in all three flag fields |
| WindowsRegion.FillFromShape | atom-memory/src/windows/MemoryRegion.cpp:36-53 | the fill keeps the pages built so far, appends one page per successful query in order, and stops at the first failing query |
| WindowsRegion.FillFacts | atom-memory/src/windows/MemoryRegion.cpp:33-54 | exactly `pageCount` pages when no query fails, otherwise the first failing page's error; every page is built from its query and the list is contiguous |
| WindowsRegion.EmptyFill | atom-memory/MemoryRegion.hpp:111-120 | with `size == 0` the page count is 0 and the region has no pages |
| WindowsRegion.ProtectStep | atom-memory/src/windows/MemoryRegion.cpp:11-16 | one iteration calls VirtualProtect on the page's base and size, keeps the page's frame, and fails exactly when the answer is not accepted |
| WindowsRegion.SetFlagsEffect | atom-memory/src/windows/MemoryRegion.cpp:7-18 | pages before the first rejected answer get `currentFlags == flags` and the decoded old level as `previousFlags`; that page and every later one are unchanged; the error is that page's |
| WindowsRegion.SetFlagsCalls | atom-memory/src/windows/MemoryRegion.cpp:8-13 | every call made passes the same level `ConvertToWinFlags(flags)`, with the pages in list order |
| WindowsRegion.ResetFlagsEffect | atom-memory/src/windows/MemoryRegion.cpp:20-31 | pages before the first rejected answer get their target (initial or previous flags) as current flags and the decoded old level as previous flags; that page and every later one are unchanged; the error is that page's rejected call or its undecodable old level |
| WindowsRegion.ResetFlagsCalls | atom-memory/src/windows/MemoryRegion.cpp:21-26 | each call asks for the level of that page's own target, in list order |
| WindowsRegion.SetStepKeepsFrame | atom-memory/src/windows/MemoryRegion.cpp:7-18 | SetFlags never writes size, base, committed, guarded or initialFlags |
| WindowsRegion.ResetStepKeepsFrame | atom-memory/src/windows/MemoryRegion.cpp:20-31 | ResetFlags never writes size, base, committed, guarded or initialFlags |
| WindowsRegion.ExecuteRestores | atom-memory/MemoryRegion.hpp:123-127 | for pages whose level the library set, where VirtualProtect reports the encoding of the current flags, a returning callback leaves every page at the decode of its original flags' encoding, exactly its original flags for 0, 4, 5, 6 and 7; a failing callback skips the reset and leaves every page at `flags` |
| WindowsRegion.ExecuteRestoresRecorded | atom-memory/MemoryRegion.hpp:123-127 | when every old level VirtualProtect reports decodes to the page's recorded flags (as right after construction) and every reset passes, a returning callback gives no error and leaves every page at exactly its original current flags; a failing callback skips the reset and leaves every page at `flags` |
| WindowsRegion.MemoryRegion.Create | atom-memory/MemoryRegion.hpp:105-121 | a non-null address; the region is the fill from the start page for the page count, and construction fails exactly when the fill does |
| WindowsRegion.MemoryRegion.UpdateMemoryPages | atom-memory/src/windows/MemoryRegion.cpp:33-54 | the page list and the error are those of the fill specification |
| WindowsRegion.MemoryRegion.SetFlags | atom-memory/src/windows/MemoryRegion.cpp:7-18 | the new pages, the error and the calls are those of the SetFlags specification, and the region stays valid |
| WindowsRegion.MemoryRegion.ResetFlags | atom-memory/src/windows/MemoryRegion.cpp:20-31 | the new pages, the error and the calls are those of the ResetFlags specification, and the region stays valid |
| WindowsRegion.MemoryRegion.ExecuteFunction | atom-memory/MemoryRegion.hpp:123-127 | SetFlags, then the callback, then ResetFlags(false), each skipped once an earlier step failed |
| LinuxRegion.PermissionDecode | atom-memory/src/linux/MemoryRegion.cpp:78-90 | Read is added exactly when character 0 is 'r', Write when character 1 is 'w', Execute when character 2 is 'x' |
| LinuxRegion.UnfoldPermissions | atom-memory/src/linux/MemoryRegion.cpp:86-90 | the key loop visits 'r', then 'w', then 'x' |
| LinuxRegion.PermissionExamples | atom-memory/src/linux/MemoryRegion.cpp:78-90 | "rwxp" decodes to 7, "r-xp" to 5, "rw-p" to 6, "r--p" to 4 and "---p" to 0 |
| LinuxRegion.PermissionBit | atom-memory/src/linux/MemoryRegion.cpp:86-90 | decoding one field sets a key's bit exactly when it was set or the key is in place |
| LinuxRegion.ScanLinesBit | atom-memory/src/linux/MemoryRegion.cpp:63-91 | the scan holds a bit exactly when it was held or some remaining line starting at the page base grants it |
| LinuxRegion.ExhaustedScan | atom-memory/src/linux/MemoryRegion.cpp:63 | a stream already at its end adds no flags |
| LinuxRegion.FillFromShape | atom-memory/src/linux/MemoryRegion.cpp:57-96 | the fill appends one page per index, the first scanned from the current cursor and the rest from the end of the stream |
| LinuxRegion.FillFacts | atom-memory/src/linux/MemoryRegion.cpp:50-97 | exactly `pageCount` contiguous pages with equal current, previous and initial flags; the first page's flags come from the lines starting at its base, and every later page has none because the stream is not rewound |
| LinuxRegion.FirstPageFlags | atom-memory/src/linux/MemoryRegion.cpp:57-95 | the first page holds a key's bit exactly when some line starting at the region's first page grants it |
| LinuxRegion.ProtectStep | atom-memory/src/linux/MemoryRegion.cpp:17-23 | one iteration calls `mprotect` with the target unchanged, keeps the page's frame, and fails exactly when the call returns 0 |
| LinuxRegion.SetFlagsEffect | atom-memory/src/linux/MemoryRegion.cpp:15-25 | pages before the first zero return get their old current flags as previous and `flags` as current; that page gets only its previous flags overwritten; later pages are untouched |
| LinuxRegion.SetFlagsCalls | atom-memory/src/linux/MemoryRegion.cpp:16-19 | one call per page reached, in list order, each with `flags` unchanged |
| LinuxRegion.ResetFlagsEffect | atom-memory/src/linux/MemoryRegion.cpp:27-38 | pages before the first zero return get their old current flags as previous and their target as current; that page gets only its previous flags overwritten; later pages are untouched; the error names that page |
| LinuxRegion.ResetFlagsCalls | atom-memory/src/linux/MemoryRegion.cpp:28-32 | the target read before `previousFlags` is overwritten is the one passed to `mprotect` |
| LinuxRegion.ZeroReturnStopsAtFirstPage | atom-memory/src/linux/MemoryRegion.cpp:19-21 | when the first call returns 0 (POSIX success), SetFlags fails at page 0 after overwriting only its previous flags and making one call |
| LinuxRegion.SetStepKeepsFrame | atom-memory/src/linux/MemoryRegion.cpp:15-25 | SetFlags never writes size, base, committed, guarded or initialFlags |
| LinuxRegion.ResetStepKeepsFrame | atom-memory/src/linux/MemoryRegion.cpp:27-38 | ResetFlags never writes size, base, committed, guarded or initialFlags |
| LinuxRegion.ResetSwaps | atom-memory/src/linux/MemoryRegion.cpp:29-36 | a passing ResetFlags(false) swaps every page's current and previous flags and changes nothing else |
| LinuxRegion.ResetTwiceRestores | atom-memory/src/linux/MemoryRegion.cpp:27-38 | two passing ResetFlags(false) in a row restore the original page list |
| LinuxRegion.ResetToInitial | atom-memory/src/linux/MemoryRegion.cpp:27-38 | a passing ResetFlags(true) leaves every page at its initial flags, and initialFlags unchanged |
| LinuxRegion.ExecuteRestores | atom-memory/MemoryRegion.hpp:123-127 | with every call passing, a returning callback restores every page's current flags, with `flags` as previous flags; a failing callback skips the reset |
| LinuxRegion.MemoryRegion.Create | atom-memory/MemoryRegion.hpp:105-121 | a non-null address; the region is valid and its pages are the fill from the start page for the page count |
| LinuxRegion.MemoryRegion.UpdateMemoryPages | atom-memory/src/linux/MemoryRegion.cpp:50-97 | the page list is that of the fill specification |
| LinuxRegion.MemoryRegion.SetFlags | atom-memory/src/linux/MemoryRegion.cpp:15-25 | the new pages, the error and the calls are those of the SetFlags specification, and the region stays valid |
| LinuxRegion.MemoryRegion.ResetFlags | atom-memory/src/linux/MemoryRegion.cpp:27-38 | the new pages, the error and the calls are those of the ResetFlags specification, and the region stays valid |
| LinuxRegion.MemoryRegion.ExecuteFunction | atom-memory/MemoryRegion.hpp:123-127 | SetFlags, then the callback, then ResetFlags(false), each skipped once an earlier step failed |

## Left out

- **System calls.** VirtualProtect, VirtualQuery and `mprotect` are oracle parameters, and so are the reads of the page size (`Memory::GetPageSize`, `sysconf`). Page-size retrieval, with its cached static, is a constructor parameter. Both platforms' regions are created with a power-of-two page size.
- **Memory.cpp files.** Both only wrap allocation and page-size calls; the only logic they hold, AlignTo, is modelled.
- **Windows.hpp.** It holds declarations only.
- **Maps-file parsing.**
  - Opening `/proc/self/maps`, the regex and the hex `stoul` are left out: each line comes already split into its start address and permission field.
  - The dereference of `++it` past the regex's only match has undefined behaviour in C++. The model reads the line's permission field instead.
  - A permission character past the end of the field counts as no match.
- **Auto-extension.** The header's doc comment promises that a region given no size extends over the run of pages sharing the same permissions. No code implements this: with `size == 0` the page count is 0 and the region is empty (`EmptyFill`).
- **Exceptions.**
  - The exception classes (`ATOM_DEFINE_EXCEPTION`, `ATOM_WINDOWS_ASSERT`) are replaced by the error values described above.
  - A release build ignores `assert(false)` in the decoder, which then returns 0, and ignores the RegionSize check. Neither variant is modelled; both are failures here.
  - A failing fill leaves a partly filled page list that has no observer, since no region is constructed.
- **The callback of ExecuteFunction.** It is a boolean saying whether it fails. Its own effect on the pages is not modelled.
- **Concurrency.** Changes to page protection by other threads or processes are left out.
- **Integer conversions.** The `int`/`ulong` round trips of the flag values (`ulong flags` in ResetFlags, the `int prot` of `mprotect`) are treated as the identity. Values outside 0..7 pass through unchanged.
- **Loop counters.** The 32-bit `uint` counter of the fill loops is not modelled, so page counts of 2^32 or more are not covered.
- **Overflow.**
  - Region.PageCount: `address + size` must stay within a word, so pointer wrap-around is not modelled.
  - Memory.AlignToRoundsUp: the same holds for `base + alignment - 1`.
- **Win32 constants.** The levels use their winnt.h values, and PAGE_GUARD stands for any level modifier. Other modifiers (PAGE_NOCACHE and others) are left out.
