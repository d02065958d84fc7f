/**
 The machine the C code runs on: bytes, the two widths of `size_t` it is built for, the `int` that
 an unsigned amount becomes, and `mem_sbrk`, which moves the end of the region a heap grows in.
 */
module Machine {

  type byte = x: int | 0 <= x < 256

  const TWO32: int := 0x1_0000_0000
  const TWO64: int := 0x1_0000_0000_0000_0000
  const INT_MAX: int := 0x7FFF_FFFF

  /** The null pointer, where pointers are numbers of nodes counted from 0. */
  const NULL: int := -1

  function Min(x: int, y: int): int { if x < y then x else y }

  datatype Width = Bits32 | Bits64 {
    /** The number of values of `size_t`. */
    function Modulus(): int { if Bits32? then TWO32 else TWO64 }
  }

  const INT_MIN: int := -0x8000_0000

  /** A C `int`. */
  type int32 = x: int | INT_MIN <= x <= INT_MAX

  /** The `int` that a sum or a difference of two of them becomes. */
  function Wrap32(n: int): (r: int32)
    ensures INT_MIN <= n <= INT_MAX ==> r == n
  {
    (n - INT_MIN) % TWO32 + INT_MIN
  }

  /**
   What the allocators are built for and run in: the width of `size_t` and of addresses, the address
   of the region's first byte, and its size.
   */
  datatype System = System(width: Width, base: int, limit: int)

  /** The value an unsigned argument has as the `int` parameter of `mem_sbrk`. */
  function ToInt32(n: nat): (r: int32) {
    var r := n % TWO32;
    if r <= INT_MAX then r else r - TWO32
  }

  /** The address after the `incr` bytes behind offset `brk`. */
  function Address(sys: System, brk: int, incr: int): int { (sys.base + brk + incr) % sys.width.Modulus() }

  /** The test of `mem_sbrk`, on addresses. */
  predicate SbrkAccepts(sys: System, brk: int, incr: int) {
    incr >= 0 && Address(sys, brk, incr) <= sys.base + sys.limit
  }

  /** The address sum wraps around. */
  predicate Strays(sys: System, brk: int, incr: int) { sys.base + brk + incr >= sys.width.Modulus() }

  /** `mem_sbrk` accepts what fits below the end of the region, and what wraps past the end of memory. */
  lemma AcceptsExactly(sys: System, brk: int, incr: int)
    requires 0 < sys.base && 0 <= brk <= sys.limit && sys.base + sys.limit < sys.width.Modulus() && incr <= INT_MAX
    ensures SbrkAccepts(sys, brk, incr) <==> incr >= 0 && (brk + incr <= sys.limit || Strays(sys, brk, incr))
    ensures 0 <= incr && !Strays(sys, brk, incr) ==> Address(sys, brk, incr) == sys.base + brk + incr
    ensures 0 <= incr && Strays(sys, brk, incr) && sys.limit <= INT_MAX ==> Address(sys, brk, incr) < sys.base
  {
    var a, n := sys.base + brk + incr, sys.width.Modulus();
    if 0 <= incr {
      if a >= n { assert a % n == a - n; } else { assert a % n == a; }
    }
  }

  /** `mem_sbrk`: the old break and the new one, or -1 and the break left where it is.  Both are offsets from the base. */
  method Sbrk(sys: System, brk: int, incr: int32) returns (p: int, newBrk: int)
    requires 0 < sys.base && 0 <= brk <= sys.limit && sys.base + sys.limit < sys.width.Modulus()
    ensures if incr >= 0 && (brk + incr <= sys.limit || Strays(sys, brk, incr)) then
        p == brk && newBrk == brk + incr - (if Strays(sys, brk, incr) then sys.width.Modulus() else 0)
      else p == -1 && newBrk == brk
  {
    AcceptsExactly(sys, brk, incr);
    p := brk;
    if incr < 0 || Address(sys, brk, incr) > sys.base + sys.limit { return -1, brk; }
    newBrk := Address(sys, brk, incr) - sys.base;
  }
}
