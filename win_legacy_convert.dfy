/**
 * An older copy of the Windows codec, written against the permission constants
 * of an earlier MemoryRegion header (`MemoryRegion::Read` and the rest). That
 * header is not part of this model; its constants are taken to be the Memory
 * ones, as the Linux source of the same era defines
 * `MemoryRegion::ReadWriteExecute` as `Execute | Write | Read`.
 */
module WinLegacyConvert {
  import opened Wrappers
  import opened Memory
  import opened WinConvert

  /** Same if/else chain as WinConvert.ConvertToWinFlags, default PAGE_EXECUTE_READWRITE. */
  function ConvertToWinFlags(flags: int): (r: ULong)
    ensures r == WinConvert.ConvertToWinFlags(flags)
  {
    if flags == Read then PAGE_READONLY
    else if flags == Or(Read, Write) then PAGE_READWRITE
    else if flags == Or(Read, Execute) then PAGE_EXECUTE_READ
    else if flags == 0 then PAGE_NOACCESS
    else PAGE_EXECUTE_READWRITE
  }

  /** Same fall-through switch as WinConvert.ConvertFromWinFlags, None for `assert(false)`. */
  function ConvertFromWinFlags(n: ULong): (r: Option<FlagSet>)
    ensures r == WinConvert.ConvertFromWinFlags(n)
  {
    if n == PAGE_NOACCESS then Some(0)
    else if n == PAGE_EXECUTE_READ then Some(Or(Or(0, Read), Execute))
    else if n == PAGE_EXECUTE then Some(Or(0, Execute))
    else if n == PAGE_EXECUTE_READWRITE || n == PAGE_EXECUTE_WRITECOPY then Some(ReadWriteExecute)
    else if n == PAGE_READWRITE || n == PAGE_WRITECOPY then Some(Or(Or(0, Write), Read))
    else if n == PAGE_READONLY then Some(Or(0, Read))
    else None
  }

  /** The older converters round-trip the five representable combinations, and widen the rest. */
  lemma LegacyRoundTrip(f: FlagSet)
    ensures f in {0, Read, Read + Write, Read + Execute, ReadWriteExecute} ==>
              ConvertFromWinFlags(ConvertToWinFlags(f)) == Some(f)
    ensures f in {Execute, Write, Write + Execute} ==>
              ConvertFromWinFlags(ConvertToWinFlags(f)) == Some(ReadWriteExecute)
  {
    DecodeEncodeExact(f);
    DecodeEncodeWidens(f);
  }
}
