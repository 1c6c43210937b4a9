/**
 * The Windows protection-flag codec: `ConvertToWinFlags` and
 * `ConvertFromWinFlags` map between the abstract permission bits of Memory and
 * the fixed list of Win32 `PAGE_*` protection constants.
 *
 * Win32 has no independent read, write and execute bits, so the map is lossy:
 * every combination that is not one of the five representable levels widens to
 * PAGE_EXECUTE_READWRITE, and the decoder folds the copy-on-write levels into
 * their plain counterparts.
 */
module WinConvert {
  import opened Wrappers
  import opened Memory

  /** A Win32 `DWORD` / `unsigned long` (32 bits on Windows). */
  type ULong = n: int | 0 <= n < 0x1_0000_0000

  /** The Win32 memory-protection constants (winnt.h). */
  const PAGE_NOACCESS: ULong := 0x01
  const PAGE_READONLY: ULong := 0x02
  const PAGE_READWRITE: ULong := 0x04
  const PAGE_WRITECOPY: ULong := 0x08
  const PAGE_EXECUTE: ULong := 0x10
  const PAGE_EXECUTE_READ: ULong := 0x20
  const PAGE_EXECUTE_READWRITE: ULong := 0x40
  const PAGE_EXECUTE_WRITECOPY: ULong := 0x80
  /** A modifier that VirtualQuery reports or-ed into the level of a guard page. */
  const PAGE_GUARD: ULong := 0x100

  /** The protection levels the decoder understands. */
  predicate IsKnownProtection(n: ULong)
  {
    n in {PAGE_NOACCESS, PAGE_READONLY, PAGE_READWRITE, PAGE_WRITECOPY,
          PAGE_EXECUTE, PAGE_EXECUTE_READ, PAGE_EXECUTE_READWRITE, PAGE_EXECUTE_WRITECOPY}
  }

  /** The levels the encoder can produce. */
  predicate IsEncodable(n: ULong)
  {
    n in {PAGE_NOACCESS, PAGE_READONLY, PAGE_READWRITE, PAGE_EXECUTE_READ, PAGE_EXECUTE_READWRITE}
  }

  /**
   * Abstract flags to a Win32 level: the four exact combinations by an if/else
   * chain, everything else (any int) to PAGE_EXECUTE_READWRITE.
   */
  function ConvertToWinFlags(flags: int): (r: ULong)
    ensures IsEncodable(r)
    ensures r == PAGE_EXECUTE_READWRITE <==> flags !in {Read, Read + Write, Read + Execute, 0}
  {
    if flags == Read then PAGE_READONLY
    else if flags == Or(Read, Write) then PAGE_READWRITE
    else if flags == Or(Read, Execute) then PAGE_EXECUTE_READ
    else if flags == 0 then PAGE_NOACCESS
    else PAGE_EXECUTE_READWRITE
  }

  /**
   * A Win32 level to abstract flags. The switch relies on fall-through:
   * PAGE_EXECUTE_READ adds Read and falls into PAGE_EXECUTE, which adds
   * Execute; PAGE_READWRITE and PAGE_WRITECOPY add Write and fall into
   * PAGE_READONLY, which adds Read. Any other value reaches `assert(false)`,
   * modelled as None.
   */
  function ConvertFromWinFlags(n: ULong): (r: Option<FlagSet>)
    ensures r.Some? <==> IsKnownProtection(n)
    ensures r.Some? ==> Includes(ReadWriteExecute, r.value)
  {
    if n == PAGE_NOACCESS then Some(0)
    else if n == PAGE_EXECUTE_READ then Some(Or(Or(0, Read), Execute))
    else if n == PAGE_EXECUTE then Some(Or(0, Execute))
    else if n == PAGE_EXECUTE_READWRITE || n == PAGE_EXECUTE_WRITECOPY then Some(ReadWriteExecute)
    else if n == PAGE_READWRITE || n == PAGE_WRITECOPY then Some(Or(Or(0, Write), Read))
    else if n == PAGE_READONLY then Some(Or(0, Read))
    else None
  }

  /** The decoder's table, written out. */
  lemma DecodeTable()
    ensures ConvertFromWinFlags(PAGE_NOACCESS) == Some(0)
    ensures ConvertFromWinFlags(PAGE_EXECUTE_READ) == Some(Read + Execute)
    ensures ConvertFromWinFlags(PAGE_EXECUTE) == Some(Execute)
    ensures ConvertFromWinFlags(PAGE_EXECUTE_READWRITE) == Some(ReadWriteExecute)
    ensures ConvertFromWinFlags(PAGE_EXECUTE_WRITECOPY) == Some(ReadWriteExecute)
    ensures ConvertFromWinFlags(PAGE_READWRITE) == Some(Read + Write)
    ensures ConvertFromWinFlags(PAGE_WRITECOPY) == Some(Read + Write)
    ensures ConvertFromWinFlags(PAGE_READONLY) == Some(Read)
  {
  }

  /** A level carrying the PAGE_GUARD modifier is not understood by the decoder. */
  lemma GuardedLevelRejected(n: ULong)
    requires IsKnownProtection(n)
    ensures n + PAGE_GUARD < 0x1_0000_0000 && ConvertFromWinFlags(n + PAGE_GUARD) == None
  {
  }

  /** Encoding then decoding is exact precisely on the five representable combinations. */
  lemma DecodeEncodeExact(f: int)
    ensures ConvertFromWinFlags(ConvertToWinFlags(f)) == Some(f)
        <==> f in {0, Read, Read + Write, Read + Execute, ReadWriteExecute}
  {
  }

  /**
   * Widening: for every combination of the three bits, encoding then decoding
   * keeps every bit of the input; Execute, Write and Write|Execute come back as
   * ReadWriteExecute.
   */
  lemma DecodeEncodeWidens(f: FlagSet)
    ensures ConvertFromWinFlags(ConvertToWinFlags(f)).Some?
    ensures Includes(ConvertFromWinFlags(ConvertToWinFlags(f)).value, f)
    ensures f in {Execute, Write, Write + Execute} ==>
              ConvertFromWinFlags(ConvertToWinFlags(f)) == Some(ReadWriteExecute)
  {
  }

  /**
   * Decoding then encoding gives back the native level exactly for the five
   * encodable levels; the copy-on-write levels and PAGE_EXECUTE come back as a
   * different level.
   */
  lemma EncodeDecodeExact(n: ULong)
    requires IsKnownProtection(n)
    ensures ConvertToWinFlags(ConvertFromWinFlags(n).value) == n <==> IsEncodable(n)
    ensures n == PAGE_WRITECOPY ==> ConvertToWinFlags(ConvertFromWinFlags(n).value) == PAGE_READWRITE
    ensures n == PAGE_EXECUTE_WRITECOPY || n == PAGE_EXECUTE ==>
              ConvertToWinFlags(ConvertFromWinFlags(n).value) == PAGE_EXECUTE_READWRITE
  {
  }

  /** Some encodable level decodes to exactly `f`. */
  ghost predicate HasExactLevel(f: int)
  {
    exists n: ULong :: IsEncodable(n) && ConvertFromWinFlags(n) == Some(f)
  }

  /**
   * The encoder as a reference definition: it picks the level that decodes to
   * exactly the requested flags when there is one, and PAGE_EXECUTE_READWRITE
   * otherwise.
   */
  lemma EncodeIsExactOrWidest(f: int)
    ensures HasExactLevel(f) ==> ConvertFromWinFlags(ConvertToWinFlags(f)) == Some(f)
    ensures !HasExactLevel(f) ==> ConvertToWinFlags(f) == PAGE_EXECUTE_READWRITE
  {
    if !(f in {0, Read, Read + Write, Read + Execute, ReadWriteExecute}) {
      forall n: ULong | IsEncodable(n)
        ensures ConvertFromWinFlags(n) != Some(f)
      {
      }
    } else {
      assert IsEncodable(ConvertToWinFlags(f));
    }
  }
}
