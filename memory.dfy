/**
 * The permission flags and the alignment arithmetic of atom::Memory.
 *
 * Addresses and sizes are unsigned machine words (`size_t`, `uintptr_t`) of
 * `WordBits` bits. They are modelled as naturals below `WordModulus`, and the
 * C++ bit operators on them are written out: `&` is `BitAnd`, `~x` is
 * `Complement(x)`, and unsigned `+`/`-` wrap modulo `WordModulus`.
 */
module Memory {

  /** The abstract permission bits (`enum Flag`). */
  const Execute: int := 1
  const Write: int := 2
  const Read: int := 4

  /** `Read | Write | Execute`. */
  const ReadWriteExecute: int := 7

  /** A combination of the three permission bits. */
  type FlagSet = f: int | 0 <= f <= 7

  /** `a | b` on permission sets. */
  function Or(a: FlagSet, b: FlagSet): (r: FlagSet)
  {
    ((a as bv3) | (b as bv3)) as int
  }

  /** Every bit of `g` is set in `f`. */
  predicate Includes(f: FlagSet, g: FlagSet)
  {
    (f as bv3) & (g as bv3) == g as bv3
  }

  /** A permission set is determined by which of the three bits it holds. */
  lemma SameBitsSameSet(f: FlagSet, g: FlagSet)
    requires Includes(f, Read) == Includes(g, Read)
    requires Includes(f, Write) == Includes(g, Write)
    requires Includes(f, Execute) == Includes(g, Execute)
    ensures f == g
  {
  }

  /** A bit is in `a | b` exactly when it is in `a` or in `b`. */
  lemma OrBit(a: FlagSet, b: FlagSet, bit: FlagSet)
    requires bit == Read || bit == Write || bit == Execute
    ensures Includes(Or(a, b), bit) <==> Includes(a, bit) || Includes(b, bit)
  {
  }

  /** The flag values are the distinct single bits 0, 1 and 2. */
  lemma FlagBits()
    ensures Execute == Pow2(0) && Write == Pow2(1) && Read == Pow2(2)
    ensures !Includes(Execute, Write) && !Includes(Execute, Read) && !Includes(Write, Read)
    ensures !Includes(Write, Execute) && !Includes(Read, Execute) && !Includes(Read, Write)
  {
  }

  /** ReadWriteExecute is `Read | Write | Execute`, and every permission set is a subset of it. */
  lemma ReadWriteExecuteIsAll()
    ensures ReadWriteExecute == Or(Or(Read, Write), Execute)
    ensures forall f: FlagSet :: Includes(ReadWriteExecute, f)
  {
  }

  // ---------------------------------------------------------------------------
  // Machine words

  function Pow2(n: nat): (r: nat)
    ensures r >= 1
  {
    if n == 0 then 1 else 2 * Pow2(n - 1)
  }

  /** Width of `size_t` and `uintptr_t` on the targets modelled here. */
  const WordBits: nat := 64

  /** `Pow2(WordBits)`: one more than the largest word. */
  const WordModulus: nat := 0x1_0000_0000_0000_0000

  lemma WordModulusIsPow2(w: nat)
    requires w == WordBits
    ensures WordModulus == Pow2(w)
  {
    assert Pow2(2) == 4;
    Pow2Add(2, 2);
    Pow2Add(4, 4);
    Pow2Add(8, 8);
    Pow2Add(16, 16);
    Pow2Add(32, 32);
  }

  lemma {:induction false} Pow2Add(a: nat, b: nat)
    ensures Pow2(a + b) == Pow2(a) * Pow2(b)
  {
    if a > 0 {
      Pow2Add(a - 1, b);
    }
  }

  predicate IsWord(x: int)
  {
    0 <= x < WordModulus
  }

  predicate IsPowerOfTwo(n: nat)
    decreases n
  {
    n == 1 || (n >= 2 && n % 2 == 0 && IsPowerOfTwo(n / 2))
  }

  /** Bitwise `a & b` on naturals. */
  function BitAnd(a: nat, b: nat): nat
    decreases a
  {
    if a == 0 || b == 0 then 0
    else 2 * BitAnd(a / 2, b / 2) + (if a % 2 == 1 && b % 2 == 1 then 1 else 0)
  }

  /** `~x` on a word. */
  function Complement(x: nat): nat
    requires IsWord(x)
  {
    WordModulus - 1 - x
  }

  /** `alignment - 1` on a word, wrapping for `alignment == 0`. */
  function Predecessor(alignment: nat): nat
    requires IsWord(alignment)
  {
    if alignment == 0 then WordModulus - 1 else alignment - 1
  }

  /** The mask step `x & ~(alignment - 1)`, shared by AlignTo and the region constructor. */
  function AlignDown(x: nat, alignment: nat): nat
    requires IsWord(x) && IsWord(alignment)
  {
    BitAnd(x, Complement(Predecessor(alignment)))
  }

  /** `(base + (alignment - 1)) & ~(alignment - 1)`, with the word addition wrapping. */
  function AlignTo(base: nat, alignment: nat): nat
    requires IsWord(base) && IsWord(alignment)
  {
    AlignDown((base + Predecessor(alignment)) % WordModulus, alignment)
  }

  // ---------------------------------------------------------------------------
  // Arithmetic facts behind the mask

  lemma ModUnique(x: nat, d: nat, q: nat, m: nat)
    requires d > 0 && x == d * q + m && m < d
    ensures x % d == m && x / d == q
  {
    var q', m' := x / d, x % d;
    assert x == d * q' + m';
    if q' < q {
      assert d * q' + d <= d * q by { MulMonotone(d, q' + 1, q); }
    } else if q' > q {
      assert d * q + d <= d * q' by { MulMonotone(d, q + 1, q'); }
    }
  }

  lemma MulMonotone(d: nat, a: nat, b: nat)
    requires a <= b
    ensures d * a <= d * b
  {
  }

  /** For even `p`, the remainder modulo `p` is built from the remainder of `x / 2` modulo `p / 2`. */
  lemma ModHalf(x: nat, p: nat)
    requires p >= 2 && p % 2 == 0
    ensures x % p == 2 * ((x / 2) % (p / 2)) + x % 2
  {
    var h, q, r := p / 2, x / 2, x % 2;
    var s, t := q % h, q / h;
    assert q == h * t + s;
    assert x == p * t + (2 * s + r);
    ModUnique(x, p, t, 2 * s + r);
  }

  lemma {:induction false} AndOnes(x: nat, w: nat)
    requires x < Pow2(w)
    ensures BitAnd(x, Pow2(w) - 1) == x
  {
    if w > 0 && x > 0 {
      AndOnes(x / 2, w - 1);
      assert (Pow2(w) - 1) / 2 == Pow2(w - 1) - 1;
    }
  }

  /** Clearing the bits below a power of two `p` rounds down to a multiple of `p`. */
  lemma {:induction false} AndHighMask(x: nat, p: nat, w: nat)
    requires IsPowerOfTwo(p) && p <= Pow2(w) && x < Pow2(w)
    ensures BitAnd(x, Pow2(w) - p) == x - x % p
  {
    if p == 1 {
      AndOnes(x, w);
    } else if x == 0 {
      ModUnique(x, p, 0, 0);
    } else if Pow2(w) == p {
      ModUnique(x, p, 0, x);
    } else {
      assert w > 0;
      var mask := Pow2(w) - p;
      assert mask % 2 == 0 && mask / 2 == Pow2(w - 1) - p / 2;
      var half := BitAnd(x / 2, mask / 2);
      assert BitAnd(x, mask) == 2 * half;
      AndHighMask(x / 2, p / 2, w - 1);
      var s := (x / 2) % (p / 2);
      assert half == x / 2 - s;
      ModHalf(x, p);
      assert x % p == 2 * s + x % 2;
      assert x == 2 * (x / 2) + x % 2;
    }
  }

  lemma RoundDownFacts(x: nat, p: nat)
    requires p > 0
    ensures (x - x % p) % p == 0 && x - x % p <= x && x % p < p
  {
    var q, m := x / p, x % p;
    assert x == p * q + m && 0 <= m < p;
    ModUnique(x - m, p, q, 0);
  }

  /** `x & ~(P - 1)` is `x` rounded down to a multiple of the power of two `P`. */
  lemma AlignDownIsRoundDown(x: nat, p: nat)
    requires IsWord(x) && IsWord(p) && IsPowerOfTwo(p)
    ensures AlignDown(x, p) == x - x % p
    ensures AlignDown(x, p) % p == 0 && AlignDown(x, p) <= x && x - AlignDown(x, p) < p
  {
    var w := WordBits;
    WordModulusIsPow2(w);
    AndHighMask(x, p, w);
    RoundDownFacts(x, p);
  }

  /**
   * For a power-of-two alignment and no word overflow, AlignTo rounds up to the
   * next multiple of the alignment.
   */
  lemma AlignToRoundsUp(base: nat, alignment: nat)
    requires IsWord(alignment) && IsPowerOfTwo(alignment)
    requires IsWord(base + alignment - 1)
    ensures AlignTo(base, alignment) % alignment == 0
    ensures base <= AlignTo(base, alignment) < base + alignment
    ensures AlignTo(base, alignment) - base < alignment
  {
    var y := base + alignment - 1;
    NoWrap(base, alignment);
    AlignDownIsRoundDown(y, alignment);
  }

  /** Without overflow, AlignTo masks `base + alignment - 1` itself. */
  lemma NoWrap(base: nat, alignment: nat)
    requires IsWord(alignment) && alignment > 0 && IsWord(base + alignment - 1)
    ensures AlignTo(base, alignment) == AlignDown(base + alignment - 1, alignment)
  {
    var y := base + alignment - 1;
    ModUnique(y, WordModulus, 0, y);
  }

  /** An already aligned value is returned unchanged. */
  lemma AlignToKeepsAligned(base: nat, alignment: nat)
    requires IsWord(alignment) && IsPowerOfTwo(alignment)
    requires IsWord(base + alignment - 1)
    requires base % alignment == 0
    ensures AlignTo(base, alignment) == base
  {
    var y := base + alignment - 1;
    NoWrap(base, alignment);
    AlignDownIsRoundDown(y, alignment);
    AlignedRemainder(base, alignment);
  }

  /** One short of the next multiple of `p` leaves the remainder `p - 1`. */
  lemma AlignedRemainder(base: nat, p: nat)
    requires p > 0 && base % p == 0
    ensures (base + p - 1) % p == p - 1
  {
    var q := base / p;
    assert base == p * q;
    ModUnique(base + p - 1, p, q, p - 1);
  }

  /** A power of two no larger than `Pow2(w)` divides it. */
  lemma {:induction false} PowerOfTwoDivides(p: nat, w: nat)
    requires IsPowerOfTwo(p) && p <= Pow2(w)
    ensures Pow2(w) % p == 0
  {
    if p == 1 {
      ModUnique(Pow2(w), 1, Pow2(w), 0);
    } else {
      assert w > 0;
      PowerOfTwoDivides(p / 2, w - 1);
      var q := Pow2(w - 1) / (p / 2);
      assert Pow2(w - 1) == (p / 2) * q;
      assert Pow2(w) == p * q;
      ModUnique(Pow2(w), p, q, 0);
    }
  }

  /** Between two multiples of `p`, the smaller lies at least `p` below the larger. */
  lemma MultipleGap(a: nat, m: nat, p: nat)
    requires p > 0 && a % p == 0 && m % p == 0 && a < m
    ensures a + p <= m
  {
    var i, j := a / p, m / p;
    assert a == p * i && m == p * j;
    if j <= i {
      MulMonotone(p, j, i);
      assert false;
    }
    MulMonotone(p, i + 1, j);
  }

  /**
   * AlignTo is idempotent on every word: even when `base + alignment - 1`
   * wraps, the result is a multiple of the alignment, and a multiple of a
   * power of two below 2^64 leaves room for `alignment - 1` more.
   */
  lemma AlignToIdempotent(base: nat, alignment: nat)
    requires IsWord(base) && IsWord(alignment) && IsPowerOfTwo(alignment)
    ensures IsWord(AlignTo(base, alignment))
    ensures AlignTo(AlignTo(base, alignment), alignment) == AlignTo(base, alignment)
  {
    var y := (base + Predecessor(alignment)) % WordModulus;
    var a := AlignTo(base, alignment);
    AlignDownIsRoundDown(y, alignment);
    assert a % alignment == 0 && a <= y;
    WordModulusIsPow2(WordBits);
    PowerOfTwoDivides(alignment, WordBits);
    MultipleGap(a, WordModulus, alignment);
    AlignToKeepsAligned(a, alignment);
  }
}
