/** Bitwise operators on natural numbers, and the arithmetic they amount to for the masks used by
    the runtime: contiguous runs of ones, their complements, and disjoint unions. */
module Bits {

  const U64: nat := 0x1_0000_0000_0000_0000
  const U32: nat := 0x1_0000_0000

  function Pow2(k: nat): (r: nat)
    ensures r > 0
  {
    if k == 0 then 1 else 2 * Pow2(k - 1)
  }

  function And(a: nat, b: nat): nat {
    if a == 0 || b == 0 then 0 else (if a % 2 == 1 && b % 2 == 1 then 1 else 0) + 2 * And(a / 2, b / 2)
  }

  function Or(a: nat, b: nat): nat
    decreases a + b
  {
    if a == 0 then b
    else if b == 0 then a
    else (if a % 2 + b % 2 == 0 then 0 else 1) + 2 * Or(a / 2, b / 2)
  }

  /** The complement of a 64-bit word. */
  function Not64(m: nat): nat
    requires m < U64
  {
    U64 - 1 - m
  }

  /** Left shift of a 64-bit word: bits pushed past bit 63 are lost. */
  function Shl64(x: nat, k: nat): nat {
    x * Pow2(k) % U64
  }

  /** ALIGN(x, a) of libcflat.h for 64-bit operands, with wrap-around of the addition. */
  function Align64(x: nat, a: nat): nat
    requires 0 < a <= U64
  {
    And((x + (a - 1)) % U64, Not64(a - 1))
  }

  ghost predicate IsPow2(n: nat) {
    exists k: nat :: n == Pow2(k)
  }

  // Euclidean division, from the defining equation.
  lemma DivModUnique(x: int, d: int, q: int, r: int)
    requires 0 <= r < d && x == q * d + r
    ensures x / d == q && x % d == r
  {
    assert x == (x / d) * d + x % d;
    NonzeroMultiple(q - x / d, d);
  }

  lemma NonzeroMultiple(t: int, d: int)
    requires d > 0
    ensures t > 0 ==> t * d >= d
    ensures t < 0 ==> t * d <= -d
  {
    if t > 0 {
      assert (t - 1) * d >= 0;
    } else if t < 0 {
      assert (-t - 1) * d >= 0;
    }
  }

  lemma HalvingMod(x: nat, p: nat)
    requires p > 0
    ensures x % (2 * p) == x % 2 + 2 * (x / 2 % p)
    ensures x / (2 * p) == x / 2 / p
  {
    var q, u := x / 2 / p, x / 2 % p;
    assert x / 2 == q * p + u;
    assert x == q * (2 * p) + (2 * u + x % 2);
    DivModUnique(x, 2 * p, q, 2 * u + x % 2);
  }

  /** Division in two stages. */
  lemma NestedDivision(x: nat, s: nat, t: nat, ts: nat)
    requires s > 0 && t > 0 && ts == t * s
    ensures ts > 0
    ensures x / ts == x / s / t
    ensures x % ts == x / s % t * s + x % s
  {
    Division(x, s);
    Division(x / s, t);
    NestedDigits(x, s, t, ts, x / s, x / s / t, x / s % t, x % s);
  }

  lemma Division(x: nat, d: nat)
    requires d > 0
    ensures x == x / d * d + x % d && 0 <= x % d < d && x / d >= 0
  {
  }

  lemma NestedDigits(x: nat, s: nat, t: nat, ts: nat, n: nat, a: nat, b: nat, c: nat)
    requires s > 0 && t > 0 && ts == t * s && b < t && c < s
    requires x == n * s + c && n == a * t + b
    ensures ts > 0 && x / ts == a && x % ts == b * s + c
  {
    SmallDigit(b, t, s);
    Regroup(a, t, b, s);
    DivModUnique(x, ts, a, b * s + c);
  }

  lemma Regroup(a: nat, t: nat, b: nat, s: nat)
    ensures (a * t + b) * s == a * (t * s) + b * s
  {
    assert a * t * s == a * (t * s);
  }

  lemma {:induction false} SmallDigit(b: nat, t: nat, s: nat)
    requires b < t
    ensures b * s + s <= t * s
    decreases t
  {
    assert t * s == (t - 1) * s + s;
    if b < t - 1 {
      SmallDigit(b, t - 1, s);
    }
  }

  lemma {:induction false} Pow2Add(j: nat, k: nat)
    ensures Pow2(j + k) == Pow2(j) * Pow2(k)
  {
    if j > 0 { Pow2Add(j - 1, k); }
  }

  lemma {:induction false} Pow2Monotone(j: nat, k: nat)
    requires j <= k
    ensures Pow2(j) <= Pow2(k)
    decreases k - j
  {
    if j < k { Pow2Monotone(j + 1, k); }
  }

  lemma Pow2Values()
    ensures Pow2(12) == 0x1000 && Pow2(40) == 0x100_0000_0000 && Pow2(52) == 0x10_0000_0000_0000
    ensures Pow2(3) == 8 && Pow2(7) == 128 && Pow2(16) == 0x1_0000 && Pow2(32) == U32 && Pow2(64) == U64
  {
    assert Pow2(8) == 0x100;
    Pow2Add(8, 8);
    Pow2Add(16, 16);
    Pow2Add(32, 32);
    Pow2Add(4, 8);
    Pow2Add(8, 32);
    Pow2Add(12, 40);
  }

  lemma {:induction false} AndLowMask(x: nat, k: nat)
    ensures And(x, Pow2(k) - 1) == x % Pow2(k)
  {
    if k == 0 {
    } else {
      var p := Pow2(k - 1);
      HalvingMod(x, p);
      AndLowMask(x / 2, k - 1);
      AndUnfold(x, 2 * p - 1);
    }
  }

  // Multiplication by 2^k, one doubling at a time.
  function Doubled(m: nat, k: nat): nat {
    if k == 0 then m else 2 * Doubled(m, k - 1)
  }

  lemma {:induction false} DoubledIsProduct(m: nat, k: nat)
    ensures Doubled(m, k) == m * Pow2(k)
  {
    if k > 0 { DoubledIsProduct(m, k - 1); }
  }

  // Division by 2^k, one halving at a time.
  function Halved(x: nat, k: nat): nat {
    if k == 0 then x else Halved(x / 2, k - 1)
  }

  lemma {:induction false} HalvedIsQuotient(x: nat, k: nat)
    ensures Halved(x, k) == x / Pow2(k)
  {
    if k > 0 {
      HalvedIsQuotient(x / 2, k - 1);
      HalvingMod(x, Pow2(k - 1));
    }
  }

  lemma {:induction false} AndDoubled(x: nat, m: nat, k: nat)
    ensures And(x, Doubled(m, k)) == Doubled(And(Halved(x, k), m), k)
  {
    if k > 0 {
      AndDoubled(x / 2, m, k - 1);
      AndUnfold(x, Doubled(m, k));
    }
  }

  /** A mask of `width` ones starting at bit `low` extracts that field, in place. */
  lemma AndField(x: nat, mask: nat, low: nat, width: nat)
    requires mask == (Pow2(width) - 1) * Pow2(low)
    ensures And(x, mask) == x / Pow2(low) % Pow2(width) * Pow2(low)
  {
    var ones, y := Pow2(width) - 1, Halved(x, low);
    DoubledIsProduct(ones, low);
    AndDoubled(x, ones, low);
    AndLowMask(y, width);
    HalvedIsQuotient(x, low);
    DoubledIsProduct(y % Pow2(width), low);
  }

  lemma HalfComplement(p: nat, m: nat)
    requires m < 2 * p
    ensures m / 2 < p && (2 * p - 1 - m) / 2 == p - 1 - m / 2
    ensures (2 * p - 1 - m) % 2 == 1 - m % 2
  {
  }

  // The low bit of x goes with m or with its complement c, the others with the halves u and v.
  lemma BitSplit(x: nat, m: nat, c: nat, u: nat, v: nat)
    requires c % 2 == 1 - m % 2 && u + v == x / 2
    ensures ((if x % 2 == 1 && c % 2 == 1 then 1 else 0) + 2 * u) +
            ((if x % 2 == 1 && m % 2 == 1 then 1 else 0) + 2 * v) == x
  {
  }

  lemma {:induction false} AndComplement(x: nat, m: nat, k: nat)
    requires x < Pow2(k) && m < Pow2(k)
    ensures And(x, Pow2(k) - 1 - m) == x - And(x, m)
    ensures And(x, m) <= x
  {
    if k == 0 {
      assert And(0, 0) == 0;
    } else {
      var p := Pow2(k - 1);
      assert Pow2(k) == 2 * p;
      hide And, Pow2;
      var c := 2 * p - 1 - m;
      HalfComplement(p, m);
      AndComplement(x / 2, m / 2, k - 1);
      AndUnfold(x, c);
      AndUnfold(x, m);
      BitSplit(x, m, c, And(x / 2, c / 2), And(x / 2, m / 2));
    }
  }

  lemma AndUnfold(a: nat, b: nat)
    ensures And(a, b) == (if a % 2 == 1 && b % 2 == 1 then 1 else 0) + 2 * And(a / 2, b / 2)
  {
  }

  lemma OrUnfold(a: nat, b: nat)
    ensures Or(a, b) == (if a % 2 + b % 2 == 0 then 0 else 1) + 2 * Or(a / 2, b / 2)
  {
  }

  /** Words without a common one-bit: their union is their sum. */
  lemma {:induction false} OrDisjoint(a: nat, b: nat)
    requires And(a, b) == 0
    ensures Or(a, b) == a + b
    decreases a + b
  {
    if a != 0 && b != 0 {
      AndUnfold(a, b);
      OrUnfold(a, b);
      OrDisjoint(a / 2, b / 2);
    }
  }

  /** A multiple of 2^k and a word below 2^k have no common one-bit. */
  lemma {:induction false} AndApart(a: nat, b: nat, k: nat)
    requires b < Pow2(k) && a % Pow2(k) == 0
    ensures And(a, b) == 0 && And(b, a) == 0
  {
    if k == 0 || a == 0 || b == 0 {
    } else {
      HalvingMod(a, Pow2(k - 1));
      AndApart(a / 2, b / 2, k - 1);
      AndUnfold(a, b);
      AndUnfold(b, a);
    }
  }

  lemma AndParts(a: nat, b: nat)
    ensures And(a, b) % 2 == (if a % 2 == 1 && b % 2 == 1 then 1 else 0)
    ensures And(a, b) / 2 == And(a / 2, b / 2)
  {
    AndUnfold(a, b);
  }

  lemma {:induction false} AndAssoc(a: nat, b: nat, c: nat)
    ensures And(And(a, b), c) == And(a, And(b, c))
  {
    if a != 0 && b != 0 && c != 0 {
      AndAssoc(a / 2, b / 2, c / 2);
      AndParts(a, b);
      AndParts(b, c);
      AndParts(And(a, b), c);
      AndParts(a, And(b, c));
    }
  }

  lemma {:induction false} AndIdempotent(a: nat)
    ensures And(a, a) == a
  {
    if a != 0 {
      AndIdempotent(a / 2);
      AndUnfold(a, a);
    }
  }

  lemma {:induction false} AndCommutes(a: nat, b: nat)
    ensures And(a, b) == And(b, a)
  {
    if a != 0 && b != 0 {
      AndCommutes(a / 2, b / 2);
    }
  }

  lemma {:induction false} OrCommutes(a: nat, b: nat)
    ensures Or(a, b) == Or(b, a)
    decreases a + b
  {
    if a != 0 && b != 0 {
      OrCommutes(a / 2, b / 2);
    }
  }

  lemma {:induction false} AndBound(a: nat, b: nat)
    ensures And(a, b) <= a && And(a, b) <= b
  {
    if a != 0 && b != 0 {
      AndBound(a / 2, b / 2);
    }
  }

  lemma RoundDown(s: nat, a: nat)
    requires a > 0
    ensures 0 <= s - s % a && (s - s % a) % a == 0
  {
    DivModUnique(s - s % a, a, s / a, 0);
  }

  /** Clearing the low k bits of a 64-bit word rounds it down to a multiple of 2^k. */
  lemma ClearLow(s: nat, a: nat, k: nat)
    requires a == Pow2(k) && k <= 64 && s < U64
    ensures a <= U64
    ensures var r := And(s, Not64(a - 1)); r == s - s % a && r % a == 0 && r <= s < r + a
  {
    hide And, Pow2;
    Pow2Values();
    Pow2Monotone(k, 64);
    AndComplement(s, a - 1, 64);
    AndLowMask(s, k);
    RoundDown(s, a);
  }

  lemma NoWrap(v: nat)
    requires v < U64
    ensures v % U64 == v
  {
  }

  /** ALIGN rounds up to the next multiple of a power of two, when the sum does not wrap. */
  lemma AlignRoundsUp(x: nat, a: nat, k: nat)
    requires a == Pow2(k) && k <= 64 && x + a - 1 < U64
    ensures a <= U64 && Align64(x, a) % a == 0
    ensures x <= Align64(x, a) < x + a
  {
    var s := x + (a - 1);
    NoWrap(s);
    ClearLow(s, a, k);
    assert Align64(x, a) == And(s, Not64(a - 1));
  }

  /** A high part and a low part are united by adding them. */
  lemma OrApart(a: nat, b: nat, k: nat, p: nat)
    requires p == Pow2(k) && b < p
    ensures Or(a * p, b) == a * p + b
  {
    DivModUnique(a * p, p, a, 0);
    AndApart(a * p, b, k);
    OrDisjoint(a * p, b);
  }
}
