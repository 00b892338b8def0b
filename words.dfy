/** Machine words of a 64-bit target: addresses (`uintptr_t`, `const void*`) and
    sizes (`size_t`) are unsigned 64-bit values whose subtraction wraps around. */
module Words {

  const WordModulus: int := 0x1_0000_0000_0000_0000

  /** An unsigned 64-bit value. */
  type Word = x: int | 0 <= x < WordModulus

  /** Size of a native pointer on the target (`sizeof(void*)`). */
  const PointerSize: Word := 8

  /** Alignment of every managed heap object (`kObjectAlignment`). */
  const ObjectAlignment: Word := 8

  /** Unsigned subtraction `a - b` as C++ computes it on `uintptr_t`: modulo 2^64. */
  function WrapSub(a: Word, b: Word): Word
  {
    (a - b) % WordModulus
  }

  /** The address `k` bytes past `base`, wrapping around the top of the address space. */
  function Advance(base: Word, k: Word): Word
  {
    (base + k) % WordModulus
  }

  /** `IsAligned<n>(x)`: the low bits of `x` below the power of two `n` are zero. */
  predicate Aligned(x: Word, n: Word)
    requires n > 0
  {
    x % n == 0
  }

  /** Subtracting `base` undoes advancing from `base`. */
  lemma WrapSubAdvance(base: Word, k: Word)
    ensures WrapSub(Advance(base, k), base) == k
  {
    var s := base + k;
    if s < WordModulus {
      assert Advance(base, k) == s;
    } else {
      assert Advance(base, k) == s - WordModulus;
      assert WrapSub(Advance(base, k), base) == (k - WordModulus) % WordModulus;
    }
  }

  /** Advancing from `base` by the wrapped difference lands back on `a`. */
  lemma AdvanceWrapSub(base: Word, a: Word)
    ensures Advance(base, WrapSub(a, base)) == a
  {
    if a >= base {
      assert WrapSub(a, base) == a - base;
    } else {
      assert WrapSub(a, base) == a - base + WordModulus;
      assert Advance(base, WrapSub(a, base)) == (a + WordModulus) % WordModulus;
    }
  }

  /** The single unsigned test `pc - start < size` holds exactly when `pc` is one of the
      `size` consecutive addresses starting at `start` (counting across the wrap). */
  lemma WrapTestIsOffset(pc: Word, start: Word, size: Word)
    ensures WrapSub(pc, start) < size <==> exists k: Word :: k < size && pc == Advance(start, k)
  {
    if WrapSub(pc, start) < size {
      AdvanceWrapSub(start, pc);
    }
    if exists k: Word :: k < size && pc == Advance(start, k) {
      var k: Word :| k < size && pc == Advance(start, k);
      WrapSubAdvance(start, k);
    }
  }

  /** When a region does not run past the top of the address space, the single
      wraparound test covers both ends of the half-open interval `[start, start + size)`. */
  lemma WrapTestIsInterval(pc: Word, start: Word, size: Word)
    requires start + size <= WordModulus
    ensures WrapSub(pc, start) < size <==> start <= pc < start + size
  {
    if pc >= start {
      assert WrapSub(pc, start) == pc - start;
    } else {
      assert WrapSub(pc, start) == pc - start + WordModulus;
    }
  }
}
