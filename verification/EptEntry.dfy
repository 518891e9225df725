/** EPT entry words: the fields the runtime reads, and what its mask arithmetic does to them. */
module EptEntry {
  import opened Bits

  const EPT_PRESENT: nat := 7               // read | write | execute
  const EPT_LARGE_PAGE: nat := 0x80
  const EPT_ADDR_MASK: nat := 0x000F_FFFF_FFFF_F000
  const PAGE_MASK: nat := 0xFFFF_FFFF_FFFF_F000
  const PAGE_SIZE: nat := 0x1000
  const PAGE_SIZE_2M: nat := 0x20_0000
  const PAGE_SIZE_1G: nat := 0x4000_0000
  const PHYS_LIMIT: nat := 0x10_0000_0000_0000
  const GPA_LIMIT: nat := 0x1_0000_0000_0000

  function Rwx(w: nat): nat { And(w, EPT_PRESENT) }

  predicate Present(w: nat) { Rwx(w) != 0 }

  predicate IsLarge(w: nat) { And(w, EPT_LARGE_PAGE) != 0 }

  function Addr(w: nat): nat { And(w, EPT_ADDR_MASK) }

  function WithoutAddr(w: nat): nat { And(w, Not64(EPT_ADDR_MASK)) }

  function WithoutLarge(w: nat): nat { And(w, Not64(EPT_LARGE_PAGE)) }

  /** The attribute bits that every piece of a split leaf inherits. */
  function SplitPrototype(pte: nat, level: nat): nat {
    if level == 2 then WithoutLarge(WithoutAddr(pte)) else WithoutAddr(pte)
  }

  /** The word that replaces a split leaf: it points at the new table. */
  function SplitParent(pte: nat, table: nat): nat {
    Or(WithoutAddr(WithoutLarge(pte)), table)
  }

  /** The word that links a freshly created, empty table. */
  function TableEntry(table: nat): nat { Or(table, EPT_PRESENT) }

  /** A mapping word as install_ept, install_2m_ept and install_1g_ept build it. */
  function LeafEntry(phys: nat, perm: nat, large: bool): nat {
    var w := Or(And(phys, PAGE_MASK), perm);
    if large then Or(w, EPT_LARGE_PAGE) else w
  }

  /** The masks of the runtime as digits of the word: permissions in bits 2..0, the size bit 7, and the
      frame address in bits 51..12 (Intel SDM Vol. 3C, 28.2.2). */
  lemma EntryDigits(w: nat)
    ensures Rwx(w) == w % 8
    ensures IsLarge(w) <==> w / 0x80 % 2 == 1
    ensures Addr(w) == w / 0x1000 % 0x100_0000_0000 * 0x1000
  {
    hide And;
    Pow2Values();
    assert Pow2(1) == 2;
    AndLowMask(w, 3);
    AndField(w, EPT_LARGE_PAGE, 7, 1);
    AndField(w, EPT_ADDR_MASK, 12, 40);
  }

  /** A word cut at the boundaries of the fields in use:
      bits 63..52, the frame number, bits 11..8, the size bit, and bits 6..0. */
  datatype Parts = Parts(high: nat, frame: nat, mid: nat, large: nat, low: nat) {
    ghost predicate Valid() {
      high < 0x1000 && frame < 0x100_0000_0000 && mid < 16 && large < 2 && low < 128
    }

    ghost function Word(): nat {
      high * PHYS_LIMIT + frame * PAGE_SIZE + mid * 256 + large * 128 + low
    }
  }

  ghost function Cut(w: nat): (p: Parts)
    requires w < U64
    ensures p.Valid() && p.Word() == w
  {
    var n, r := w / PAGE_SIZE, w % PAGE_SIZE;
    Parts(n / 0x100_0000_0000, n % 0x100_0000_0000, r / 256, r % 256 / 128, r % 128)
  }

  lemma Quotients(p: Parts)
    requires p.Valid()
    ensures var w := p.Word();
            w < U64 && w / PAGE_SIZE % 0x100_0000_0000 == p.frame && w / 128 % 2 == p.large && w % 8 == p.low % 8
  {
    var w := p.Word();
    var low8 := p.large * 128 + p.low;
    DivModUnique(w, PAGE_SIZE, p.high * 0x100_0000_0000 + p.frame, p.mid * 256 + low8);
    DivModUnique(w / PAGE_SIZE, 0x100_0000_0000, p.high, p.frame);
    var above := p.high * 0x1000_0000_0000 + p.frame * 16 + p.mid;
    DivModUnique(w, 128, above * 2 + p.large, p.low);
    DivModUnique(w / 128, 2, above, p.large);
    DivModUnique(w, 8, (above * 2 + p.large) * 16 + p.low / 8, p.low % 8);
  }

  /** What the masks of the runtime read off a word. */
  lemma Fields(p: Parts)
    requires p.Valid()
    ensures var w := p.Word();
            w < U64 && Addr(w) == p.frame * PAGE_SIZE && Rwx(w) == p.low % 8 && (IsLarge(w) <==> p.large == 1)
  {
    var w := p.Word();
    Quotients(p);
    Pow2Values();
    AndLowMask(w, 3);
    assert Pow2(1) == 2;
    AndField(w, EPT_LARGE_PAGE, 7, 1);
    AndField(w, EPT_ADDR_MASK, 12, 40);
  }

  /** Clearing one field of a word takes its value off the word. */
  lemma ClearedPart(p: Parts)
    requires p.Valid()
    ensures p.(frame := 0).Word() == p.Word() - p.frame * PAGE_SIZE
    ensures p.(large := 0).Word() == p.Word() - p.large * 128
  {
  }

  lemma ClearedAddr(w: nat)
    requires w < U64
    ensures WithoutAddr(w) == w - Addr(w) && Addr(WithoutAddr(w)) == 0
    ensures Rwx(WithoutAddr(w)) == Rwx(w) && IsLarge(WithoutAddr(w)) == IsLarge(w)
  {
    AddrComplement(w);
    hide And, Parts.Word, WithoutAddr, Rwx, IsLarge, Addr;
    var p := Cut(w);
    Fields(p);
    ClearedPart(p);
    Fields(p.(frame := 0));
  }

  lemma AddrComplement(w: nat)
    requires w < U64
    ensures WithoutAddr(w) == w - Addr(w)
  {
    hide And;
    Pow2Values();
    AndComplement(w, EPT_ADDR_MASK, 64);
  }

  /** The size bit as the mask reads it. */
  lemma LargeBit(p: Parts)
    requires p.Valid()
    ensures And(p.Word(), EPT_LARGE_PAGE) == p.large * 128
    ensures WithoutLarge(p.Word()) == p.Word() - p.large * 128
  {
    hide And, Parts.Word;
    Quotients(p);
    Pow2Values();
    assert Pow2(1) == 2;
    AndField(p.Word(), EPT_LARGE_PAGE, 7, 1);
    AndComplement(p.Word(), EPT_LARGE_PAGE, 64);
  }

  lemma ClearedLarge(w: nat)
    requires w < U64
    ensures WithoutLarge(w) == w - (if IsLarge(w) then 0x80 else 0) && !IsLarge(WithoutLarge(w))
    ensures Rwx(WithoutLarge(w)) == Rwx(w) && Addr(WithoutLarge(w)) == Addr(w)
  {
    hide And, Parts.Word, WithoutLarge, Rwx, IsLarge, Addr;
    var p := Cut(w);
    LargeBit(p);
    ClearedPart(p);
    Fields(p);
    Fields(p.(large := 0));
  }

  predicate IsFrame(a: nat) { a % PAGE_SIZE == 0 && a < PHYS_LIMIT }

  /** Filling an empty address field with a frame address disturbs no other field. */
  lemma FillAddr(w: nat, a: nat)
    requires w < U64 && Addr(w) == 0 && IsFrame(a)
    ensures Or(w, a) == w + a < U64
    ensures Addr(Or(w, a)) == a && Rwx(Or(w, a)) == Rwx(w) && IsLarge(Or(w, a)) == IsLarge(w)
  {
    Fields(Cut(w));
    FrameIsAddr(a);
    AndAssoc(w, EPT_ADDR_MASK, a);
    AndCommutes(EPT_ADDR_MASK, a);
    OrDisjoint(w, a);
    Fields(Cut(w).(frame := a / PAGE_SIZE));
  }

  lemma FrameIsAddr(a: nat)
    requires IsFrame(a)
    ensures Addr(a) == a && Rwx(a) == 0 && !IsLarge(a)
  {
    Fields(Parts(0, a / PAGE_SIZE, 0, 0, 0));
  }

  lemma SplitChildFields(pte: nat, level: nat, a: nat)
    requires pte < U64 && IsLarge(pte) && 2 <= level <= 3 && IsFrame(a)
    ensures var c := Or(SplitPrototype(pte, level), a);
            && c < U64 && Addr(c) == a && Rwx(c) == Rwx(pte) && (IsLarge(c) <==> level == 3)
            && c == pte - Addr(pte) + a - if level == 2 then 0x80 else 0
  {
    ClearedAddr(pte);
    ClearedLarge(WithoutAddr(pte));
    FillAddr(SplitPrototype(pte, level), a);
  }

  lemma SplitParentFields(pte: nat, table: nat)
    requires pte < U64 && IsFrame(table)
    ensures var p := SplitParent(pte, table);
            && p < U64 && Addr(p) == table && Rwx(p) == Rwx(pte) && !IsLarge(p)
            && p == pte - Addr(pte) + table - if IsLarge(pte) then 0x80 else 0
  {
    ClearedLarge(pte);
    ClearedAddr(WithoutLarge(pte));
    FillAddr(WithoutAddr(WithoutLarge(pte)), table);
  }

  lemma TableEntryFields(table: nat)
    requires IsFrame(table)
    ensures var e := TableEntry(table);
            e == table + 7 < U64 && Addr(e) == table && Rwx(e) == 7 && !IsLarge(e)
  {
    FrameIsAddr(table);
    OrDisjoint(table, EPT_PRESENT);
    Fields(Parts(0, table / PAGE_SIZE, 0, 0, 7));
  }

  /** Permission words carry no address bits and no size bit. */
  predicate IsPerm(perm: nat) { perm < U64 && Addr(perm) == 0 && !IsLarge(perm) }

  lemma SetLarge(w: nat)
    requires w < U64 && !IsLarge(w)
    ensures var e := Or(w, EPT_LARGE_PAGE);
            e == w + 0x80 < U64 && IsLarge(e) && Addr(e) == Addr(w) && Rwx(e) == Rwx(w)
  {
    OrDisjoint(w, EPT_LARGE_PAGE);
    Fields(Cut(w));
    Fields(Cut(w).(large := 1));
  }

  /** The address of the page that a lies in. */
  function Frame(a: nat): nat { a - a % PAGE_SIZE }

  lemma FrameUnderMask(a: nat)
    requires a < PHYS_LIMIT
    ensures And(a, PAGE_MASK) == Frame(a) && IsFrame(Frame(a))
  {
    Pow2Values();
    ClearLow(a, PAGE_SIZE, 12);
    DivModUnique(Frame(a), PAGE_SIZE, a / PAGE_SIZE, 0);
  }

  lemma LeafEntryFields(phys: nat, perm: nat, large: bool)
    requires phys < PHYS_LIMIT && IsPerm(perm)
    ensures var e := LeafEntry(phys, perm, large);
            && e < U64 && Addr(e) == Frame(phys) && Rwx(e) == Rwx(perm) && IsLarge(e) == large
            && e == phys - phys % 0x1000 + perm + if large then 0x80 else 0
  {
    var frame := Frame(phys);
    FrameUnderMask(phys);
    OrCommutes(frame, perm);
    FillAddr(perm, frame);
    SetLarge(perm + frame);
  }
}
