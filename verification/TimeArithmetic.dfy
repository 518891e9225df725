/** 64-by-32-bit division by shifting and subtracting, and what the wall clock does with it. */
module TimeArithmetic {
  import opened Bits

  /** Machine words: a variable of one of these types is checked for its range at every assignment. */
  type Word64 = x: int | 0 <= x < 0x1_0000_0000_0000_0000
  type Word32 = x: int | 0 <= x < 0x1_0000_0000

  const S63: int := 0x8000_0000_0000_0000
  const NSEC_PER_SEC: nat := 1_000_000_000

  /** A quotient and remainder so far: n is res * base + rem, all within 64 bits. */
  ghost predicate Partial(n: nat, base: nat, res: nat, rem: nat) {
    n < U64 && 0 < base < U32 && n == res * base + rem
  }

  lemma PartialFits(n: nat, base: nat, res: nat, rem: nat)
    requires Partial(n, base, res, rem)
    ensures res < U64 && rem < U64
  {
    assert res * base >= res by { assert res * (base - 1) >= 0; }
  }

  lemma Swapped(a: nat, b: nat, c: nat)
    ensures a * b * c == a * c * b
  {
  }

  /** The first reduction: divide the high half, and take out what that accounts for. */
  lemma HighHalf(n: nat, base: nat, high: nat, q: nat)
    requires n < U64 && 0 < base < U32 && high == n / U32 && q == high / base
    ensures q * base <= high < U32 && q * base * U32 <= n && q * U32 <= n
    ensures Partial(n, base, q * U32, n - q * base * U32)
  {
    Division(high, base);
    CountBelow(base, q);
    Swapped(q, U32, base);
  }

  lemma Subtract(n: nat, base: nat, res: nat, rem: nat, d: nat)
    requires Partial(n, base, res, rem) && rem >= base * d
    ensures Partial(n, base, res + d, rem - base * d)
  {
    assert (res + d) * base == res * base + base * d;
  }

  lemma Unique(n: nat, base: nat, res: nat, rem: nat)
    requires Partial(n, base, res, rem) && rem < base
    ensures res == n / base && rem == n % base
  {
    DivModUnique(n, base, res, rem);
  }

  lemma Doubling(base: nat, d: nat)
    requires IsPow2(d)
    ensures base * (d + d) == base * d + base * d && IsPow2(d + d)
  {
    var k: nat :| d == Pow2(k);
    assert d + d == Pow2(k + 1);
  }

  lemma Halving(base: nat, d: nat)
    requires IsPow2(d)
    ensures d > 1 ==> IsPow2(d / 2) && base * (d / 2) == base * d / 2 && base * d % 2 == 0
  {
    if d > 1 {
      var k: nat :| d == Pow2(k);
      var h := Pow2(k - 1);
      assert d == h + h && d / 2 == h;
      Doubled(base, h);
    }
  }

  lemma Doubled(base: nat, h: nat)
    ensures base * (h + h) == 2 * (base * h)
  {
  }

  lemma Start(n: nat, base: nat)
    requires n < U64 && 0 < base < U32
    ensures Partial(n, base, 0, n) && IsPow2(1) && base * 1 == base
  {
    assert Pow2(0) == 1;
  }

  lemma CountBelow(base: nat, d: nat)
    requires base > 0
    ensures d <= base * d
  {
    assert (base - 1) * d >= 0;
  }

  /** __div64_32: quotient left in *n, remainder returned. Every value fits its C type. */
  method Div64(n: Word64, base: Word32) returns (quotient: Word64, remainder: Word32)
    requires base != 0
    ensures quotient == n / base && remainder == n % base
  {
    hide Partial, IsPow2;
    var rem: Word64, b: Word64, res: Word64, d: Word64 := n, base, 0, 1;
    Start(n, base);
    var high: Word32 := rem / U32;
    if high >= base {
      HighHalf(n, base, high, high / base);
      high := high / base;
      var taken: Word32 := high * base;
      res := high * U32;
      rem := rem - taken * U32;
    }
    while 0 < b < S63 && b < rem
      invariant Partial(n, base, res, rem)
      invariant b == base * d && 0 < d && b < U64 && IsPow2(d)
      decreases rem - b
    {
      Doubling(base, d);
      CountBelow(base, d + d);
      b := b + b;
      d := d + d;
    }
    PartialFits(n, base, res, rem);
    while true
      invariant Partial(n, base, res, rem)
      invariant 0 < d && IsPow2(d) && b == base * d && rem < 2 * b
      decreases d
    {
      if rem >= b {
        Subtract(n, base, res, rem, d);
        PartialFits(n, base, res + d, rem - b);
        rem := rem - b;
        res := res + d;
      }
      Halving(base, d);
      b := b / 2;
      d := d / 2;
      if d == 0 {
        break;
      }
    }
    Unique(n, base, res, rem);
    quotient, remainder := res, rem;
  }

  /** The do_div macro: 32-bit dividends take a shortcut. */
  method DoDiv(n: Word64, base: Word32) returns (quotient: Word64, remainder: Word32)
    requires base != 0
    ensures quotient == n / base && remainder == n % base
  {
    if n / U32 == 0 {
      remainder := n % base;
      quotient := n / base;
    } else {
      quotient, remainder := Div64(n, base);
    }
  }

  // ---- set_normalized_timespec

  /** A signed 64-bit number as the unsigned one with the same bits. */
  function Unsigned(x: int): (u: nat)
    requires -S63 <= x < S63
    ensures u < U64
  {
    if x < 0 then x + U64 else x
  }

  function Signed(u: nat): (x: int)
    requires u < U64
    ensures -S63 <= x < S63 && Unsigned(x) == u
  {
    if u < S63 then u else u - U64
  }

  /** The second loop of set_normalized_timespec, which on its own handles negative values. */
  method BorrowSeconds(sec0: int, nsec0: int) returns (sec: int, nsec: int)
    requires nsec0 < NSEC_PER_SEC
    ensures 0 <= nsec < NSEC_PER_SEC && sec <= sec0
    ensures nsec0 >= 0 ==> sec == sec0
    ensures sec * NSEC_PER_SEC + nsec == sec0 * NSEC_PER_SEC + nsec0
  {
    sec, nsec := sec0, nsec0;
    while nsec < 0
      invariant nsec < NSEC_PER_SEC && sec <= sec0 && (nsec0 >= 0 ==> sec == sec0 && nsec == nsec0)
      invariant sec * NSEC_PER_SEC + nsec == sec0 * NSEC_PER_SEC + nsec0
      decreases -nsec
    {
      nsec := nsec + NSEC_PER_SEC;
      sec := sec - 1;
    }
  }

  /** The first loop compares as unsigned, because NSEC_PER_SEC is: a negative nsec counts as a huge
      one. So seconds and nanoseconds keep their total exactly if nsec is not negative; otherwise
      2^64 nanoseconds are added. */
  method SetNormalizedTimespec(sec0: int, nsec0: int) returns (sec: int, nsec: int)
    requires -S63 <= nsec0 < S63 && -S63 <= sec0 < S63 - U64 / NSEC_PER_SEC
    ensures 0 <= nsec < NSEC_PER_SEC && -S63 <= sec < S63
    ensures sec * NSEC_PER_SEC + nsec == sec0 * NSEC_PER_SEC + Unsigned(nsec0)
    ensures sec * NSEC_PER_SEC + nsec == sec0 * NSEC_PER_SEC + nsec0 <==> nsec0 >= 0
  {
    sec, nsec := sec0, nsec0;
    while Unsigned(nsec) >= NSEC_PER_SEC
      invariant -S63 <= nsec < S63 && sec0 <= sec
      invariant sec * NSEC_PER_SEC + Unsigned(nsec) == sec0 * NSEC_PER_SEC + Unsigned(nsec0)
      decreases Unsigned(nsec)
    {
      nsec := Signed(Unsigned(nsec) - NSEC_PER_SEC);
      sec := sec + 1;
    }
    sec, nsec := BorrowSeconds(sec, nsec);
  }

  /** The arithmetic of pvclock_read_wallclock: boot wall-clock time plus time since boot. */
  method WallClock(bootSec: nat, bootNsec: nat, sinceBoot: nat) returns (sec: int, nsec: int)
    requires bootSec < U32 && bootNsec < U32 && sinceBoot < U64
    ensures 0 <= nsec < NSEC_PER_SEC
    ensures sec * NSEC_PER_SEC + nsec == (sinceBoot + bootSec * NSEC_PER_SEC + bootNsec) % U64
  {
    var delta := (sinceBoot + (bootSec * NSEC_PER_SEC + bootNsec)) % U64;
    var quotient, remainder := DoDiv(delta, NSEC_PER_SEC);
    sec, nsec := SetNormalizedTimespec(quotient, remainder);
  }
}
