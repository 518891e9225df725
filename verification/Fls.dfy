/** Find-last-set and the choice of a page order. */
module Fls {
  import opened Bits

  /** The test !(word & (~0ul << k)). */
  predicate HighClear(w: nat, k: nat)
    requires k <= 64
  {
    Pow2(k) <= U64 && And(w, Not64(Pow2(k) - 1)) == 0
  }

  lemma HighClearIff(w: nat, k: nat)
    requires k <= 64 && w < U64
    ensures HighClear(w, k) <==> w < Pow2(k)
  {
    ClearLow(w, Pow2(k), k);
    Division(w, Pow2(k));
    if w < Pow2(k) {
      DivModUnique(w, Pow2(k), 0, w);
    }
  }

  /** w is `word` shifted left so that its bit `num` is now bit 63. */
  ghost predicate Shifted(word: nat, w: nat, num: nat) {
    num <= 63 && w == word * Pow2(63 - num) && w < U64
  }

  lemma ShiftStep(word: nat, w: nat, num: nat, k: nat)
    requires Shifted(word, w, num) && k <= num && HighClear(w, 64 - k)
    ensures Shl64(w, k) == w * Pow2(k) && Shifted(word, Shl64(w, k), num - k)
  {
    HighClearIff(w, 64 - k);
    ShlExact(w, k);
    Pow2Add(63 - num, k);
    Grouped(word, Pow2(63 - num), Pow2(k));
  }

  lemma ShlExact(w: nat, k: nat)
    requires k <= 64 && w < Pow2(64 - k)
    ensures Shl64(w, k) == w * Pow2(k) < U64
  {
    ShlBound(w, k, Pow2(64 - k), Pow2(k));
    ShlOf(w, k, w * Pow2(k));
  }

  lemma ShlBound(w: nat, k: nat, a: nat, b: nat)
    requires k <= 64 && a == Pow2(64 - k) && b == Pow2(k) && w < a
    ensures w * b < U64
  {
    Pow2Values();
    Pow2Add(64 - k, k);
    BelowProduct(w, a, b);
  }

  lemma ShlOf(w: nat, k: nat, m: nat)
    requires m == w * Pow2(k) && m < U64
    ensures Shl64(w, k) == m
  {
    NoWrap(m);
  }

  lemma Grouped(a: nat, b: nat, c: nat)
    ensures a * b * c == a * (b * c)
  {
  }

  lemma BelowProduct(a: nat, b: nat, c: nat)
    requires a < b && c > 0
    ensures a * c < b * c
  {
  }

  lemma AtLeastProduct(a: nat, b: nat, c: nat)
    requires a >= b
    ensures a * c >= b * c
  {
  }

  /** Bit `num` is the highest one-bit of word. */
  ghost predicate IsTopBit(word: nat, num: nat) {
    Pow2(num) <= word < Pow2(num + 1)
  }

  lemma TopBitFromShift(word: nat, w: nat, num: nat)
    requires Shifted(word, w, num) && w >= Pow2(63)
    ensures IsTopBit(word, num)
  {
    var p := Pow2(63 - num);
    Pow2Values();
    Pow2Add(num, 63 - num);
    Pow2Add(num + 1, 63 - num);
    if word < Pow2(num) { BelowProduct(word, Pow2(num), p); }
    if word >= Pow2(num + 1) { AtLeastProduct(word, Pow2(num + 1), p); }
  }

  method Fls(word: nat) returns (num: nat)
    requires word < U64
    ensures word == 0 ==> num == 0
    ensures word > 0 ==> num < 64 && IsTopBit(word, num)
  {
    var w := word;
    num := 63;
    Pow2Values();
    assert Shifted(word, w, num);
    w, num := FlsStep(word, w, num, 32);
    w, num := FlsStep(word, w, num, 16);
    w, num := FlsStep(word, w, num, 8);
    w, num := FlsStep(word, w, num, 4);
    w, num := FlsStep(word, w, num, 2);
    HighClearIff(w, 63);
    if HighClear(w, 63) {
      ShiftStep(word, w, num, 1);
      num := num - 1;
      w := Shl64(w, 1);
      assert Pow2(63) == 2 * Pow2(62);
    }
    if word > 0 {
      TopBitFromShift(word, w, num);
    }
  }

  /** One narrowing step: if the top k bits of the window are clear, look k bits further down. */
  method FlsStep(ghost word: nat, w: nat, num: nat, k: nat) returns (w': nat, num': nat)
    requires Shifted(word, w, num) && 0 < k <= num && 2 * k <= 64
    requires word > 0 ==> w >= Pow2(64 - 2 * k)
    ensures Shifted(word, w', num') && num - k <= num' <= num
    ensures word > 0 ==> w' >= Pow2(64 - k)
    ensures word == 0 ==> num' == num - k && w' == 0
  {
    HighClearIff(w, 64 - k);
    if HighClear(w, 64 - k) {
      ShiftStep(word, w, num, k);
      w', num' := Shl64(w, k), num - k;
      if word > 0 {
        Pow2Add(64 - 2 * k, k);
        AtLeastProduct(w, Pow2(64 - 2 * k), Pow2(k));
      }
    } else {
      w', num' := w, num;
    }
  }

  // ---- the order of a page allocation

  /** is_power_of_2 of libcflat.h. */
  predicate IsPowerOf2(n: nat) {
    n != 0 && And(n, n - 1) == 0
  }

  lemma DropZeroBit(n: nat)
    requires n > 0 && n % 2 == 0
    ensures IsPowerOf2(n) <==> IsPowerOf2(n / 2)
    ensures IsPow2(n) <==> IsPow2(n / 2)
  {
    AndUnfold(n, n - 1);
    assert (n - 1) / 2 == n / 2 - 1;
    if k: nat :| n / 2 == Pow2(k) {
      assert n == Pow2(k + 1);
    }
    if k: nat :| n == Pow2(k) {
      assert n / 2 == Pow2(k - 1);
    }
  }

  lemma OddPower(n: nat)
    requires n % 2 == 1
    ensures IsPowerOf2(n) <==> n == 1
    ensures IsPow2(n) <==> n == 1
  {
    AndUnfold(n, n - 1);
    assert (n - 1) / 2 == n / 2;
    AndIdempotent(n / 2);
    assert Pow2(0) == 1;
    if k: nat :| n == Pow2(k) {
      assert k == 0;
    }
  }

  /** The bit trick recognises exactly the powers of two. */
  lemma {:induction false} IsPowerOf2Iff(n: nat)
    ensures IsPowerOf2(n) <==> IsPow2(n)
  {
    if n % 2 == 1 {
      OddPower(n);
    } else if n > 0 {
      DropZeroBit(n);
      IsPowerOf2Iff(n / 2);
    }
  }

  /** The choice of order in page_memalign is the least one whose block holds n pages. */
  method PageOrder(n: nat) returns (order: nat)
    requires 0 < n < U64
    ensures Pow2(order) >= n && forall j: nat :: Pow2(j) >= n ==> order <= j
  {
    var top := Fls(n);
    IsPowerOf2Iff(n);
    if IsPowerOf2(n) {
      order := top;
      ghost var k: nat :| n == Pow2(k);
      if k > top { Pow2Monotone(top + 1, k); }
      if k < top { Pow2Monotone(k + 1, top); }
    } else {
      order := top + 1;
      assert n != Pow2(top);
    }
    forall j: nat | Pow2(j) >= n
      ensures order <= j
    {
      if j < order { Pow2Monotone(j, order - 1); }
    }
  }
}
