/** Base address registers: what the hardware does with them, and how their size is found out. */
module PciBar {
  import opened Bits

  const PCI_BAR_NUM: nat := 6
  const SPACE_IO: nat := 1
  const TYPE_MASK: nat := 6
  const TYPE_64: nat := 4
  const MEM_MASK: nat := 0xFFFF_FFF0
  const IO_MASK: nat := 0xFFFF_FFFC
  const ALL_ONES: nat := 0xFFFF_FFFF

  /** One 32-bit register: the low k bits are hardwired to `fixed`, the others are held as the number
      they form (PCI Local Bus Specification 3.0, section 6.2.5.1). */
  datatype Reg = Reg(k: nat, fixed: nat, upper: nat) {
    ghost predicate Ok() {
      k <= 32 && fixed < Pow2(k) && upper < Pow2(32 - k)
    }

    /** The part that can be written. */
    function Latch(): nat { upper * Pow2(k) }

    function Read(): nat { Latch() + fixed }

    function Write(v: nat): Reg { this.(upper := Halved(v, k)) }
  }

  lemma WriteOk(r: Reg, v: nat)
    requires r.Ok() && v < U32
    ensures r.Write(v).Ok()
    ensures r.Write(v).Latch() == v - v % Pow2(r.k)
  {
    Pow2Values();
    Pow2Add(32 - r.k, r.k);
    HalvedIsQuotient(v, r.k);
    Division(v, Pow2(r.k));
    QuotientBound(v, Pow2(32 - r.k), Pow2(r.k));
  }

  lemma QuotientBound(v: nat, n: nat, d: nat)
    requires d > 0 && v < n * d
    ensures v / d < n
  {
    Division(v, d);
    Product(v / d, n, d);
  }

  lemma Product(a: nat, b: nat, d: nat)
    ensures a >= b ==> a * d >= b * d
    ensures a < b ==> a * d + d <= b * d
    ensures a <= b ==> (b - a) * d == b * d - a * d
  {
    if a >= b {
      Subtract(a, b, d);
    } else {
      Subtract(b, a, d);
      Subtract(b - a, 1, d);
    }
  }

  lemma Subtract(a: nat, b: nat, d: nat)
    requires b <= a
    ensures (a - b) * d == a * d - b * d >= 0
  {
  }

  /** Writing back what was read changes nothing. */
  lemma WriteBack(r: Reg)
    requires r.Ok()
    ensures r.Read() < U32 && r.Write(r.Read()) == r
  {
    Pow2Values();
    Pow2Add(32 - r.k, r.k);
    Product(r.upper, Pow2(32 - r.k), Pow2(r.k));
    DivModUnique(r.Read(), Pow2(r.k), r.upper, r.fixed);
    HalvedIsQuotient(r.Read(), r.k);
  }

  /** All ones read back as ones above the hardwired bits. */
  lemma WriteOnes(r: Reg)
    requires r.Ok()
    ensures Pow2(r.k) <= U32 && r.Write(ALL_ONES).Read() == U32 - Pow2(r.k) + r.fixed
  {
    Pow2Values();
    Pow2Add(32 - r.k, r.k);
    OnesParts(Pow2(32 - r.k), Pow2(r.k));
    DivModUnique(ALL_ONES, Pow2(r.k), Pow2(32 - r.k) - 1, Pow2(r.k) - 1);
    HalvedIsQuotient(ALL_ONES, r.k);
  }

  lemma OnesParts(n: nat, p: nat)
    requires n > 0 && p > 0 && n * p == U32
    ensures p <= U32 && ALL_ONES == (n - 1) * p + (p - 1) && (n - 1) * p == U32 - p
  {
    Subtract(n, 1, p);
  }

  // ---- layouts

  predicate IsIo(r: Reg) { And(r.Read(), SPACE_IO) != 0 }

  predicate Is64(r: Reg) { !IsIo(r) && And(r.Read(), TYPE_MASK) == TYPE_64 }

  function Mask(bar: nat): nat { if And(bar, SPACE_IO) != 0 then IO_MASK else MEM_MASK }

  /** Not implemented: reads as zero whatever is written. */
  predicate Absent(r: Reg) { r.k == 32 && r.fixed == 0 }

  /** Register i starts a BAR as the PCI specification lays them out: information bits below, a size
      that is a power of two, and for a 64-bit BAR the upper half in the next register. */
  ghost predicate BarOk(regs: seq<Reg>, i: nat) {
    && i < |regs| && regs[i].Ok()
    && (Absent(regs[i]) ||
        (IsIo(regs[i]) && regs[i].fixed < 4 && 2 <= regs[i].k < 32) ||
        (!IsIo(regs[i]) && !Is64(regs[i]) && regs[i].fixed < 16 && 4 <= regs[i].k < 32) ||
        (Is64(regs[i]) && regs[i].fixed < 16 && i + 1 < |regs| && regs[i + 1].Ok() && regs[i + 1].fixed == 0 &&
         if regs[i].k < 32 then 4 <= regs[i].k && regs[i + 1].k == 0 else regs[i + 1].k < 32))
  }

  /** The exponent of the size of an implemented BAR. */
  function Exponent(regs: seq<Reg>, i: nat): nat
    requires i < |regs|
  {
    if Is64(regs[i]) && regs[i].k >= 32 && i + 1 < |regs| then 32 + regs[i + 1].k else regs[i].k
  }

  /** The number of bytes a BAR decodes, 0 if it is not implemented. */
  function TrueSize(regs: seq<Reg>, i: nat): nat
    requires i < |regs|
  {
    if Absent(regs[i]) then 0 else Pow2(Exponent(regs, i))
  }

  /** The bus address a BAR decodes. */
  function Decoded(regs: seq<Reg>, i: nat): nat
    requires i < |regs|
  {
    if Is64(regs[i]) && i + 1 < |regs| then regs[i].Latch() + regs[i + 1].Latch() * U32 else regs[i].Latch()
  }

  lemma MaskedSize(size: nat, io: bool, k: nat, fixed: nat)
    requires if io then fixed < 4 && 2 <= k <= 32 else fixed < 16 && 4 <= k <= 32
    requires size == U32 - Pow2(k) + fixed && Pow2(k) <= U32
    ensures And(size, if io then IO_MASK else MEM_MASK) == U32 - Pow2(k)
  {
    hide And, Pow2;
    var low := if io then 2 else 4;
    SmallPowers();
    Pow2Values();
    Pow2Add(k - low, low);
    Pow2Add(32 - low, low);
    ClearField(size, k, low, fixed, Pow2(32 - low), Pow2(k - low), Pow2(low));
    ClearInfo(size, low);
  }

  lemma SmallPowers()
    ensures Pow2(1) == 2 && Pow2(2) == 4 && Pow2(3) == 8 && Pow2(4) == 16
  {
  }

  /** The mask of a BAR clears its information bits. */
  lemma ClearInfo(x: nat, low: nat)
    requires x < U32 && low <= 32
    ensures Pow2(low) <= U32 && And(x, U32 - Pow2(low)) == x - x % Pow2(low)
  {
    hide And, Pow2;
    Pow2Values();
    Pow2Monotone(low, 32);
    AndComplement(x, Pow2(low) - 1, 32);
    AndLowMask(x, low);
  }

  lemma ClearField(size: nat, k: nat, low: nat, fixed: nat, n: nat, m: nat, d: nat)
    requires fixed < d && m * d <= n * d && size == n * d - m * d + fixed
    ensures size % d == fixed
  {
    Product(m, n, d);
    Product(n, m, d);
    DivModUnique(size, d, n - m, fixed);
  }

  // ---- the information bits

  lemma LowBits(r: Reg, j: nat)
    requires r.Ok() && j <= r.k
    ensures r.Read() % Pow2(j) == r.fixed % Pow2(j)
  {
    Pow2Add(r.k - j, j);
    Regroup(r.upper, Pow2(r.k - j), 0, Pow2(j));
    Division(r.fixed, Pow2(j));
    var q, t := r.upper * Pow2(r.k - j), r.fixed / Pow2(j);
    Regroup(q, 1, t, Pow2(j));
    DivModUnique(r.Read(), Pow2(j), q + t, r.fixed % Pow2(j));
  }

  /** The kind of a BAR is hardwired: nothing written to it changes it. */
  lemma KindIsFixed(r: Reg)
    requires r.Ok() && r.k >= 2
    ensures IsIo(r) <==> r.fixed % 2 == 1
    ensures r.k >= 4 ==> (Is64(r) <==> r.fixed % 8 == 4)
  {
    hide And;
    LowBits(r, 1);
    assert Pow2(1) == 2 && Pow2(2) == 4 && Pow2(3) == 8;
    AndLowMask(r.Read(), 1);
    if r.k >= 4 {
      LowBits(r, 3);
      AndField(r.Read(), TYPE_MASK, 1, 2);
      TypeField(r.Read(), r.fixed);
    }
  }

  lemma TypeField(x: nat, fixed: nat)
    requires x % 8 == fixed % 8
    ensures x % 2 == fixed % 2 && x / 2 % 4 == fixed / 2 % 4
    ensures fixed % 2 == 0 ==> (fixed / 2 % 4 * 2 == 4 <==> fixed % 8 == 4)
  {
    DivModUnique(x, 2, x / 8 * 4 + x % 8 / 2, x % 8 % 2);
    DivModUnique(fixed, 2, fixed / 8 * 4 + fixed % 8 / 2, fixed % 8 % 2);
    DivModUnique(x / 2, 4, x / 8, x % 8 / 2);
    DivModUnique(fixed / 2, 4, fixed / 8, fixed % 8 / 2);
  }
}
