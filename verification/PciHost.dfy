/** The generic PCI host: sizing every BAR and handing out window space to it. */
module PciHost {
  import opened Bits
  import opened PciBar

  const WINDOW_LIMIT: nat := 0x8000_0000_0000_0000

  datatype Window = Window(pciStart: nat, start: nat, size: nat, taken: nat, kind: nat)

  /** A BAR that has been given the bytes from addr to addr + size, in a window. */
  datatype Placement = Placement(dev: nat, bar: nat, window: nat, addr: nat, size: nat)

  /** pci_bar_type, with the prefetch bit ignored where a width is given. */
  function WantedKind(bar: nat): nat {
    if And(bar, SPACE_IO) != 0 then SPACE_IO
    else
      var t := And(bar, 14);
      if And(t, TYPE_MASK) != 0 then And(t, 0xFFFF_FFF7) else t
  }

  /** The kind of window for a BAR, by the digits of its information bits (PCI Local Bus Specification
      3.0, section 6.2.5.1): I/O by bit 0, else the width in bits 2 and 1, else, for an ordinary 32-bit
      BAR, the prefetch bit 3. */
  function KindOf(fixed: nat): nat {
    if fixed % 2 == 1 then 1
    else if fixed / 2 % 4 != 0 then fixed / 2 % 4 * 2
    else fixed / 8 % 2 * 8
  }

  /** The same, case by case. */
  predicate Suits(kind: nat, fixed: nat) {
    && (fixed % 2 == 1 ==> kind == 1)                 // I/O
    && (fixed % 8 == 4 ==> kind == 4)                 // 64 bits wide, prefetchable or not
    && (fixed % 16 == 0 ==> kind == 0)                // 32 bits wide
    && (fixed % 16 == 8 ==> kind == 8)                // 32 bits wide, prefetchable
    && (fixed % 8 == 2 ==> kind == 2)                 // below 1M
  }

  lemma KindSuits(fixed: nat)
    ensures Suits(KindOf(fixed), fixed)
  {
    Bits4(fixed);
  }

  // The digits of the four information bits.
  lemma Bits4(x: nat)
    ensures x % 2 == x % 16 % 2 && x % 8 == x % 16 % 8
    ensures x / 2 % 8 == x % 16 / 2 && x / 2 % 4 == x % 16 / 2 % 4 && x / 8 % 2 == x % 16 / 8
  {
    var q, r := x / 16, x % 16;
    DivModUnique(x, 2, q * 8 + r / 2, r % 2);
    DivModUnique(x, 8, q * 2 + r / 8, r % 8);
    DivModUnique(x / 2, 8, q, r / 2);
    DivModUnique(x / 2, 4, q * 2 + r / 2 / 4, r / 2 % 4);
    DivModUnique(x / 8, 2, q, r / 8);
  }

  /** What the code computes from the word it reads is the kind of the hardwired bits. */
  lemma WantedKindIs(r: Reg)
    requires r.Ok() && r.k >= 2 && (r.k >= 4 || IsIo(r))
    ensures WantedKind(r.Read()) == KindOf(r.fixed)
  {
    KindIsFixed(r);
    KindByDigits(r.Read());
    if r.k >= 4 {
      hide And, WantedKind;
      LowBits(r, 4);
      SmallPowers();
      Bits4(r.Read());
      Bits4(r.fixed);
    }
  }

  lemma KindByDigits(bar: nat)
    ensures And(bar, SPACE_IO) != 0 ==> WantedKind(bar) == 1
    ensures And(bar, SPACE_IO) == 0 ==>
      WantedKind(bar) == if bar / 2 % 4 != 0 then bar / 2 % 4 * 2 else bar / 8 % 2 * 8
  {
    hide And;
    SmallPowers();
    var t := And(bar, 14);
    AndField(bar, 14, 1, 3);
    AndField(t, TYPE_MASK, 1, 2);
    Pow2Values();
    AndComplement(t, 8, 32);
    AndField(t, 8, 3, 1);
    Bits4(bar);
    ThreeBits(bar / 2 % 8, t);
  }

  lemma ThreeBits(x: nat, t: nat)
    requires x < 8 && t == x * 2
    ensures t / 2 % 4 == x % 4 && t / 8 % 2 == x / 4 && t == x % 4 * 2 + x / 4 * 8 && t < U32
  {
  }

  // ---- devices

  function Width(r: seq<Reg>, i: nat): nat
    requires i < |r|
  {
    if Is64(r[i]) then 2 else 1
  }

  /** From register i on, BAR after BAR is well formed. */
  ghost predicate LayoutOk(r: seq<Reg>, i: nat)
    decreases |r| - i
  {
    i < |r| ==> BarOk(r, i) && LayoutOk(r, i + Width(r, i))
  }

  /** Register i begins a BAR, when the BARs are walked from register j on. */
  predicate Begins(r: seq<Reg>, j: nat, i: nat)
    decreases |r| - j
  {
    j < |r| && (i == j || Begins(r, j + Width(r, j), i))
  }

  /** The two devices differ at most in what has been written to them. */
  ghost predicate SameShape(r: seq<Reg>, r': seq<Reg>) {
    |r'| == |r| &&
    forall i :: 0 <= i < |r| ==> r[i].Ok() && r'[i].Ok() && r'[i].k == r[i].k && r'[i].fixed == r[i].fixed
  }

  lemma ShapeKeepsBar(r: seq<Reg>, r': seq<Reg>, i: nat)
    requires SameShape(r, r') && BarOk(r, i)
    ensures BarOk(r', i) && Width(r', i) == Width(r, i) && TrueSize(r', i) == TrueSize(r, i)
    ensures IsIo(r'[i]) == IsIo(r[i]) && Is64(r'[i]) == Is64(r[i])
  {
    hide IsIo, Is64, Reg.Read;
    SameKind(r[i], r'[i]);
  }

  lemma SameKind(a: Reg, b: Reg)
    requires a.Ok() && b.Ok() && a.k == b.k >= 2 && a.fixed == b.fixed
    requires a.k >= 4 || IsIo(a)
    ensures IsIo(a) == IsIo(b) && Is64(a) == Is64(b)
  {
    KindIsFixed(a);
    KindIsFixed(b);
  }

  lemma {:induction false} ShapeKeepsLayout(r: seq<Reg>, r': seq<Reg>, j: nat)
    requires SameShape(r, r') && LayoutOk(r, j)
    ensures LayoutOk(r', j)
    ensures forall i :: Begins(r', j, i) <==> Begins(r, j, i)
    decreases |r| - j
  {
    if j < |r| {
      ShapeKeepsBar(r, r', j);
      ShapeKeepsLayout(r, r', j + Width(r, j));
    }
  }

  lemma {:induction false} BeginsBar(r: seq<Reg>, j: nat, i: nat)
    requires LayoutOk(r, j) && Begins(r, j, i)
    ensures j <= i < |r| && BarOk(r, i) && LayoutOk(r, i)
    decreases |r| - j
  {
    if i != j {
      BeginsBar(r, j + Width(r, j), i);
    }
  }

  // ---- windows

  ghost predicate WindowOk(w: Window) {
    w.pciStart + w.size <= WINDOW_LIMIT && w.taken <= w.size
  }

  ghost predicate InWindow(p: Placement, w: Window) {
    && 0 < p.size && p.addr % p.size == 0
    && w.pciStart <= p.addr && p.addr + p.size <= w.pciStart + w.taken
  }

  ghost predicate Apart(p: Placement, q: Placement) {
    p.addr + p.size <= q.addr || q.addr + q.size <= p.addr
  }

  /** Everything placed lies aligned in the used part of its window, clear of everything else there. */
  ghost predicate Packed(windows: seq<Window>, placed: seq<Placement>) {
    && (forall i :: 0 <= i < |windows| ==> WindowOk(windows[i]))
    && (forall i :: 0 <= i < |placed| ==>
          placed[i].window < |windows| && InWindow(placed[i], windows[placed[i].window]))
    && (forall i, j :: 0 <= i < j < |placed| && placed[i].window == placed[j].window ==> Apart(placed[i], placed[j]))
  }

  /** Every device register that a placement is about decodes just that placement. */
  ghost predicate Programmed(regs: seq<seq<Reg>>, placed: seq<Placement>) {
    forall i :: 0 <= i < |placed| ==>
      var p := placed[i];
      p.dev < |regs| && BarOk(regs[p.dev], p.bar) &&
      Decoded(regs[p.dev], p.bar) == p.addr && TrueSize(regs[p.dev], p.bar) == p.size
  }

  ghost predicate HasWindow(windows: seq<Window>, kind: nat) {
    exists i :: 0 <= i < |windows| && windows[i].kind == kind
  }

  /** Window w is the one the host takes for a kind: the first of that kind. */
  ghost predicate FirstOfKind(windows: seq<Window>, w: nat, kind: nat) {
    w < |windows| && windows[w].kind == kind && forall j :: 0 <= j < w ==> windows[j].kind != kind
  }

  /** Everything placed is a BAR of its device, in the window for its kind. */
  ghost predicate RightWindows(regs: seq<seq<Reg>>, windows: seq<Window>, placed: seq<Placement>) {
    forall i :: 0 <= i < |placed| ==>
      var p := placed[i];
      p.dev < |regs| && Begins(regs[p.dev], 0, p.bar) && p.bar < |regs[p.dev]| &&
      FirstOfKind(windows, p.window, KindOf(regs[p.dev][p.bar].fixed))
  }

  /** The windows are those of before, apart from how much of each is taken. */
  ghost predicate SameWindows(a: seq<Window>, b: seq<Window>) {
    |b| == |a| && forall i :: 0 <= i < |a| ==> b[i] == a[i].(taken := b[i].taken)
  }

  /** How much of window w is taken once the given placements have been made, in order. */
  ghost function TakenAfter(initial: seq<Window>, placed: seq<Placement>, w: nat): int
    requires w < |initial|
  {
    if placed == [] then initial[w].taken
    else
      var p := placed[|placed| - 1];
      if p.window == w then p.addr + p.size - initial[w].pciStart
      else TakenAfter(initial, placed[..|placed| - 1], w)
  }

  /** Exactly the placements have used window space: each window is taken up to the end of the last
      placement in it. */
  ghost predicate UsedBy(initial: seq<Window>, windows: seq<Window>, placed: seq<Placement>) {
    SameWindows(initial, windows) &&
    forall w :: 0 <= w < |initial| ==> windows[w].taken == TakenAfter(initial, placed, w)
  }

  /** Each placement took the first multiple of its size in what the earlier ones had left free. */
  ghost predicate FirstFit(initial: seq<Window>, placed: seq<Placement>) {
    forall i :: 0 <= i < |placed| && placed[i].window < |initial| ==>
      var p := placed[i];
      var from := initial[p.window].pciStart + TakenAfter(initial, placed[..i], p.window);
      p.size > 0 && p.addr % p.size == 0 && from <= p.addr < from + p.size
  }

  /** Placements are made device by device, BAR by BAR. */
  ghost predicate Ordered(placed: seq<Placement>) {
    forall i, j :: 0 <= i < j < |placed| ==> Before(placed[i], placed[j])
  }

  predicate Before(p: Placement, q: Placement) {
    p.dev < q.dev || (p.dev == q.dev && p.bar < q.bar)
  }

  /** No aligned range of this size in the free part of the window suits a BAR of this width. */
  ghost predicate NoRoom(w: Window, size: nat, wide: bool)
    requires size > 0
  {
    forall a: nat :: a % size == 0 && w.pciStart + w.taken <= a && a + size <= w.pciStart + w.size ==>
      !wide && a >= U32
  }

  ghost predicate IsPlaced(placed: seq<Placement>, d: nat, i: nat) {
    exists j :: 0 <= j < |placed| && placed[j].dev == d && placed[j].bar == i
  }

  // ---- single steps, on values

  /** Taking size bytes, a power of two, from the first aligned address on. */
  lemma BumpKeepsPacked(windows: seq<Window>, placed: seq<Placement>, w: nat, p: Placement, k: nat)
    requires Packed(windows, placed) && w < |windows| && p.window == w && k <= 63 && p.size == Pow2(k)
    requires var from := windows[w].pciStart + windows[w].taken;
             p.addr % p.size == 0 && from <= p.addr && p.addr + p.size <= windows[w].pciStart + windows[w].size
    ensures var windows' := windows[w := windows[w].(taken := p.addr + p.size - windows[w].pciStart)];
            Packed(windows', placed + [p])
  {
    var windows' := windows[w := windows[w].(taken := p.addr + p.size - windows[w].pciStart)];
    var placed' := placed + [p];
    forall i | 0 <= i < |placed'|
      ensures placed'[i].window < |windows'| && InWindow(placed'[i], windows'[placed'[i].window])
    {
      if i < |placed| {
        assert InWindow(placed[i], windows[placed[i].window]);
      }
    }
    forall i, j | 0 <= i < j < |placed'| && placed'[i].window == placed'[j].window
      ensures Apart(placed'[i], placed'[j])
    {
      assert InWindow(placed[i], windows[placed[i].window]);
      if j < |placed| {
        assert Apart(placed[i], placed[j]);
      }
    }
  }

  /** Window i is the first one to cover the address. */
  ghost predicate FirstCover(windows: seq<Window>, i: nat, a: nat)
    requires i < |windows|
  {
    Covers(windows[i], a) && forall j :: 0 <= j < i ==> !Covers(windows[j], a)
  }

  /** pci_host_bridge_get_paddr: the CPU address of a bus address, in the first window that has it. */
  function GetPaddr(windows: seq<Window>, a: nat): (r: int)
    ensures (exists i :: 0 <= i < |windows| && Covers(windows[i], a)) ==>
              exists i :: 0 <= i < |windows| && Covers(windows[i], a) &&
                          r == windows[i].start + (a - windows[i].pciStart)
    ensures !(exists i :: 0 <= i < |windows| && Covers(windows[i], a)) ==> r == U64 - 1
  {
    if windows == [] then U64 - 1
    else if Covers(windows[0], a) then windows[0].start + (a - windows[0].pciStart)
    else
      var r := GetPaddr(windows[1..], a);
      assert forall i :: 1 <= i < |windows| ==> windows[1..][i - 1] == windows[i];
      r
  }

  /** How much of the windows is taken does not matter for translating addresses. */
  lemma {:induction false} SamePaddr(a: seq<Window>, b: seq<Window>, x: nat)
    requires SameWindows(a, b)
    ensures GetPaddr(a, x) == GetPaddr(b, x)
    decreases |a|
  {
    if a != [] {
      assert SameWindows(a[1..], b[1..]);
      SamePaddr(a[1..], b[1..], x);
    }
  }

  /** Every BAR of a device decodes an address that reaches the CPU's memory map. */
  ghost predicate Reaches(windows: seq<Window>, r: seq<Reg>) {
    forall i :: 0 <= i < |r| && Begins(r, 0, i) && !Absent(r[i]) ==> GetPaddr(windows, Decoded(r, i)) != U64 - 1
  }

  predicate Covers(w: Window, a: nat) { w.pciStart <= a < w.pciStart + w.size }

  ghost predicate DisjointWindows(windows: seq<Window>) {
    forall i, j :: 0 <= i < j < |windows| ==>
      var v, w := windows[i], windows[j];
      && (v.pciStart + v.size <= w.pciStart || w.pciStart + w.size <= v.pciStart)
      && (v.start + v.size <= w.start || w.start + w.size <= v.start)
  }

  /** Bytes of different placements reach different CPU addresses, when the host's windows do not
      overlap, neither on the bus nor for the CPU. */
  lemma DisjointForCpu(windows: seq<Window>, placed: seq<Placement>, i: nat, j: nat, a: nat, b: nat)
    requires Packed(windows, placed) && DisjointWindows(windows) && i < j < |placed|
    requires placed[i].addr <= a < placed[i].addr + placed[i].size
    requires placed[j].addr <= b < placed[j].addr + placed[j].size
    ensures GetPaddr(windows, a) != GetPaddr(windows, b)
    ensures GetPaddr(windows, a) == windows[placed[i].window].start + (a - windows[placed[i].window].pciStart)
  {
    var v, w := placed[i].window, placed[j].window;
    assert InWindow(placed[i], windows[v]) && InWindow(placed[j], windows[w]);
    assert Covers(windows[v], a) && Covers(windows[w], b);
    OnlyWindow(windows, v, a);
    OnlyWindow(windows, w, b);
    if v == w {
      assert Apart(placed[i], placed[j]);
    }
  }

  /** Any two placements keep clear of each other, on the bus and for the CPU. */
  ghost predicate AllApart(windows: seq<Window>, placed: seq<Placement>) {
    forall i, j :: 0 <= i < j < |placed| ==>
      Apart(placed[i], placed[j]) && ApartForCpu(windows, placed[i], placed[j])
  }

  ghost predicate ApartForCpu(windows: seq<Window>, p: Placement, q: Placement) {
    forall a: nat, b: nat :: p.addr <= a < p.addr + p.size && q.addr <= b < q.addr + q.size ==>
      GetPaddr(windows, a) != GetPaddr(windows, b)
  }

  lemma PackedApart(windows: seq<Window>, placed: seq<Placement>)
    requires Packed(windows, placed) && DisjointWindows(windows)
    ensures AllApart(windows, placed)
  {
    forall i, j | 0 <= i < j < |placed|
      ensures Apart(placed[i], placed[j]) && ApartForCpu(windows, placed[i], placed[j])
    {
      assert InWindow(placed[i], windows[placed[i].window]) && InWindow(placed[j], windows[placed[j].window]);
      forall a: nat, b: nat | placed[i].addr <= a < placed[i].addr + placed[i].size &&
                              placed[j].addr <= b < placed[j].addr + placed[j].size
        ensures GetPaddr(windows, a) != GetPaddr(windows, b)
      {
        DisjointForCpu(windows, placed, i, j, a, b);
      }
    }
  }

  lemma OnlyWindow(windows: seq<Window>, v: nat, a: nat)
    requires DisjointWindows(windows) && v < |windows| && Covers(windows[v], a)
    ensures GetPaddr(windows, a) == windows[v].start + (a - windows[v].pciStart)
  {
    var i :| 0 <= i < |windows| && Covers(windows[i], a) &&
             GetPaddr(windows, a) == windows[i].start + (a - windows[i].pciStart);
    if i < v {
      var first, second := windows[i], windows[v];
      assert first.pciStart + first.size <= second.pciStart || second.pciStart + second.size <= first.pciStart;
    }
  }
}
