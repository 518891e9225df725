/** The probe of the generic PCI host, over the registers of all devices. */
module PciProbe {
  import opened Bits
  import opened PciBar
  import opened PciHost

  ghost predicate DeviceOk(r: seq<Reg>) {
    |r| == PCI_BAR_NUM && LayoutOk(r, 0) && forall i :: 0 <= i < |r| ==> r[i].Ok()
  }

  /** Only registers i to i + n may differ, and only in what was written to them. */
  ghost predicate Rewritten(r: seq<Reg>, r': seq<Reg>, i: nat, n: nat) {
    SameShape(r, r') && forall j :: 0 <= j < |r| && !(i <= j < i + n) ==> r'[j] == r[j]
  }

  ghost predicate SameKinds(a: seq<Window>, b: seq<Window>) {
    |a| == |b| && forall i :: 0 <= i < |a| ==> a[i].kind == b[i].kind
  }

  lemma DecodedElsewhere(r: seq<Reg>, r': seq<Reg>, i: nat, n: nat, j: nat)
    requires Rewritten(r, r', i, n) && BarOk(r, j) && j + Width(r, j) <= i
    ensures BarOk(r', j) && Decoded(r', j) == Decoded(r, j) && TrueSize(r', j) == TrueSize(r, j)
  {
    ShapeKeepsBar(r, r', j);
  }

  lemma RewrittenDevice(r: seq<Reg>, r': seq<Reg>, i: nat, n: nat)
    requires DeviceOk(r) && Rewritten(r, r', i, n)
    ensures DeviceOk(r') && forall j :: Begins(r', 0, j) <==> Begins(r, 0, j)
  {
    ShapeKeepsLayout(r, r', 0);
  }

  lemma Bounds(k: nat, fixed: nat, io: bool)
    requires fixed < Pow2(k) && if io then 2 <= k <= 32 else 4 <= k <= 32
    ensures (if io then 4 else 16) <= Pow2(k) <= U32 && (k < 32 ==> Pow2(k) < U32)
  {
    Pow2Values();
    assert Pow2(4) == 16 && Pow2(2) == 4;
    Pow2Monotone(k, 32);
    Pow2Monotone(if io then 2 else 4, k);
    if k < 32 {
      Pow2Monotone(k + 1, 32);
    }
  }

  /** What pci_bar_size makes of the first sizing read. */
  lemma LowRead(r: seq<Reg>, i: nat)
    requires BarOk(r, i) && !Absent(r[i])
    ensures var low := U32 - Pow2(r[i].k) + r[i].fixed;
            Pow2(r[i].k) <= U32 && 0 < low < U32 && And(low, Mask(r[i].Read())) == U32 - Pow2(r[i].k)
    ensures !Is64(r[i]) ==> r[i].k < 32
  {
    hide And, IsIo, Pow2;
    Bounds(r[i].k, r[i].fixed, IsIo(r[i]));
    KindIsFixed(r[i]);
    MaskOf(r[i]);
    MaskedSize(U32 - Pow2(r[i].k) + r[i].fixed, IsIo(r[i]), r[i].k, r[i].fixed);
  }

  /** What pci_bar_size computes from what the two sizing reads give. */
  lemma SizeFromReads(r: seq<Reg>, i: nat)
    requires BarOk(r, i) && !Absent(r[i])
    ensures !Is64(r[i]) ==>
              Pow2(r[i].k) <= U32 && (ALL_ONES - (U32 - Pow2(r[i].k)) + 1) % U32 == TrueSize(r, i)
    ensures Is64(r[i]) ==>
              Pow2(r[i].k) <= U32 && Pow2(r[i + 1].k) < U32 &&
              (U64 - ((U32 - Pow2(r[i + 1].k)) * U32 + (U32 - Pow2(r[i].k)))) % U64 == TrueSize(r, i)
  {
    hide And, IsIo, Pow2;
    LowRead(r, i);
    Bounds(r[i].k, r[i].fixed, IsIo(r[i]));
    if Is64(r[i]) {
      Size64(r[i].k, r[i + 1].k);
    }
  }

  lemma Size64(k: nat, h: nat)
    requires if k < 32 then h == 0 else k == 32 && h < 32
    ensures Pow2(k) <= U32 && Pow2(h) < U32
    ensures (U64 - ((U32 - Pow2(h)) * U32 + (U32 - Pow2(k)))) % U64 == Pow2(if k < 32 then k else 32 + h)
  {
    Pow2Values();
    if k < 32 {
      Pow2Monotone(k + 1, 32);
      NoWrap(Pow2(k));
    } else {
      Pow2Add(32, h);
      Pow2Monotone(h + 1, 32);
      NoWrap(Pow2(h) * U32);
    }
  }

  lemma MaskOf(r: Reg)
    ensures Mask(r.Read()) == if IsIo(r) then IO_MASK else MEM_MASK
  {
  }

  /** Storing an address that is a multiple of the BAR's size makes the BAR decode it. */
  lemma StoreDecodes(r: seq<Reg>, i: nat, addr: nat)
    requires DeviceOk(r) && BarOk(r, i) && !Absent(r[i]) && addr < U64
    requires addr % TrueSize(r, i) == 0 && (Is64(r[i]) || addr < U32)
    ensures var r1 := r[i := r[i].Write(addr % U32)];
            var r2 := if Is64(r[i]) then r1[i + 1 := r1[i + 1].Write(addr / U32)] else r1;
            Rewritten(r, r2, i, Width(r, i)) && Decoded(r2, i) == addr
  {
    hide And, IsIo, Pow2;
    var lo, hi := addr % U32, addr / U32;
    WriteOk(r[i], lo);
    KindStays(r, i, lo);
    LowRead(r, i);
    if Is64(r[i]) {
      WriteOk(r[i + 1], hi);
      Halves(r[i].k, r[i + 1].k, addr);
    } else {
      NoWrap32(addr);
    }
  }

  lemma MaskedReg(r: Reg, low: nat)
    requires r.Ok() && low <= r.k && r.fixed < Pow2(low) && r.Read() < U32 && low <= 32
    ensures Pow2(low) <= U32 && And(r.Read(), U32 - Pow2(low)) == r.Latch()
  {
    hide And, Pow2;
    LowBits(r, low);
    DivModUnique(r.fixed, Pow2(low), 0, r.fixed);
    ClearInfo(r.Read(), low);
  }

  /** Masking the information bits off a BAR leaves the address it holds. */
  lemma MaskedAddr(r: seq<Reg>, i: nat)
    requires BarOk(r, i) && !Absent(r[i])
    ensures And(r[i].Read(), Mask(r[i].Read())) == r[i].Latch() < U32
  {
    hide And, IsIo, Pow2, Mask;
    SmallPowers();
    KindIsFixed(r[i]);
    MaskOf(r[i]);
    WriteBack(r[i]);
    MaskedReg(r[i], if IsIo(r[i]) then 2 else 4);
  }

  /** What __pci_bar_get_addr puts together. */
  lemma BarAddr(r: seq<Reg>, i: nat)
    requires BarOk(r, i) && !Absent(r[i])
    ensures var low := And(r[i].Read(), Mask(r[i].Read()));
            Decoded(r, i) == if Is64(r[i]) then Or(low, r[i + 1].Read() * U32) else low
  {
    hide And, Or, IsIo, Pow2, Mask;
    MaskedAddr(r, i);
    if Is64(r[i]) {
      Pow2Values();
      var high := r[i + 1].Read();
      OrApart(high, r[i].Latch(), 32, U32);
      OrCommutes(high * U32, r[i].Latch());
    }
  }

  lemma NoWrap32(v: nat)
    requires v < U32
    ensures v % U32 == v
  {
  }

  lemma KindStays(r: seq<Reg>, i: nat, v: nat)
    requires BarOk(r, i) && v < U32
    ensures Is64(r[i].Write(v)) == Is64(r[i])
  {
    WriteOk(r[i], v);
    if r[i].k >= 4 || IsIo(r[i]) {
      SameKind(r[i], r[i].Write(v));
    }
  }

  // Both halves of a 64-bit address are multiples of what their registers hold.
  lemma Halves(k: nat, h: nat, addr: nat)
    requires if k < 32 then h == 0 else k == 32 && h < 32
    requires addr % Pow2(if k < 32 then k else 32 + h) == 0
    ensures addr % U32 % Pow2(k) == 0 && addr / U32 % Pow2(h) == 0
  {
    Pow2Values();
    if k < 32 {
      ModMod(addr, 32 - k, k);
    } else {
      Pow2Add(h, 32);
      NestedDivision(addr, U32, Pow2(h), Pow2(32 + h));
      Zero(addr / U32 % Pow2(h), U32, addr % U32);
      NoWrap32(0);
    }
  }

  lemma Zero(q: nat, d: nat, r: nat)
    requires d > 0 && q * d + r == 0
    ensures q == 0 && r == 0
  {
  }

  lemma ModMod(x: nat, j: nat, k: nat)
    requires j + k == 32 && x % Pow2(k) == 0
    ensures x % U32 % Pow2(k) == 0
  {
    Pow2Values();
    Pow2Add(j, k);
    NestedDivision(x, Pow2(k), Pow2(j), U32);
    DivModUnique(x % U32, Pow2(k), x / Pow2(k) % Pow2(j), 0);
  }

  /** The devices, the windows and the placements fit together: each placement is programmed, in the
      window for its kind, at the first place left free, and nothing else has used window space. */
  ghost predicate Consistent(initial: seq<Window>, regs: seq<seq<Reg>>, windows: seq<Window>, placed: seq<Placement>) {
    && (forall d :: 0 <= d < |regs| ==> DeviceOk(regs[d]))
    && Packed(windows, placed) && Programmed(regs, placed) && RightWindows(regs, windows, placed)
    && UsedBy(initial, windows, placed) && FirstFit(initial, placed) && Ordered(placed)
  }

  /** Why a probe stops at device d: with every earlier BAR of the device dealt with, the next one has
      a window, and what the placements made so far leave of it has no room that suits the BAR. */
  ghost predicate Stopped(initial: seq<Window>, regs: seq<seq<Reg>>, placed: seq<Placement>, d: nat) {
    d < |regs| && exists windows, i, w :: StoppedAt(initial, regs, windows, placed, d, i, w)
  }

  ghost predicate StoppedAt(initial: seq<Window>, regs: seq<seq<Reg>>, windows: seq<Window>,
                            placed: seq<Placement>, d: nat, i: nat, w: nat)
    requires d < |regs|
  {
    && Consistent(initial, regs, windows, placed)
    && Begins(regs[d], 0, i) && Done(regs[d], placed, d, i) && AllPlaced(regs[d], i, windows, placed, d)
    && Stuck(regs[d], windows, i, w)
  }

  /** Every BAR placed is in the first window of a kind that suits its information bits. */
  ghost predicate AllSuit(regs: seq<seq<Reg>>, windows: seq<Window>, placed: seq<Placement>) {
    forall j :: 0 <= j < |placed| ==>
      var p := placed[j];
      && p.dev < |regs| && p.bar < |regs[p.dev]| && p.window < |windows|
      && Suits(windows[p.window].kind, regs[p.dev][p.bar].fixed)
      && forall v :: 0 <= v < p.window ==> windows[v].kind != windows[p.window].kind
  }

  lemma PlacedSuit(regs: seq<seq<Reg>>, windows: seq<Window>, placed: seq<Placement>)
    requires RightWindows(regs, windows, placed)
    ensures AllSuit(regs, windows, placed)
  {
    hide KindOf, Suits;
    forall j | 0 <= j < |placed|
      ensures Suits(windows[placed[j].window].kind, regs[placed[j].dev][placed[j].bar].fixed)
    {
      KindSuits(regs[placed[j].dev][placed[j].bar].fixed);
    }
  }

  lemma BarWantsKind(r: seq<Reg>, i: nat)
    requires BarOk(r, i) && !Absent(r[i])
    ensures WantedKind(r[i].Read()) == KindOf(r[i].fixed)
  {
    hide And, WantedKind, KindOf;
    WantedKindIs(r[i]);
  }

  /** Device e has been dealt with: the addresses its BARs held were reachable, and they are placed. */
  ghost predicate Settled(initial: seq<Window>, was: seq<seq<Reg>>, regs: seq<seq<Reg>>, placed: seq<Placement>, e: nat)
    requires e < |was| == |regs|
  {
    Reaches(initial, was[e]) && AllPlaced(regs[e], |regs[e]|, initial, placed, e)
  }

  /** Why and where a probe stops: all devices before d are dealt with; device d either has a BAR whose
      address reaches no window, and nothing of it has been placed, or one for which there is no room. */
  ghost predicate Halted(initial: seq<Window>, was: seq<seq<Reg>>, regs: seq<seq<Reg>>, windows: seq<Window>,
                         placed: seq<Placement>, d: nat)
  {
    && d < |was| == |regs|
    && (forall e :: 0 <= e < d ==> Settled(initial, was, regs, placed, e))
    && if Reaches(initial, was[d]) then Stopped(initial, regs, placed, d)
       else Consistent(initial, regs, windows, placed) && forall p :: p in placed ==> p.dev < d
  }

  class Host {
    var regs: seq<seq<Reg>>           // the BARs of every device
    var windows: seq<Window>
    ghost var placed: seq<Placement>
    ghost const initial: seq<Window>

    ghost predicate Valid()
      reads this
    {
      Consistent(initial, regs, windows, placed)
    }

    constructor (regs: seq<seq<Reg>>, windows: seq<Window>)
      requires forall d :: 0 <= d < |regs| ==> DeviceOk(regs[d])
      requires forall i :: 0 <= i < |windows| ==> WindowOk(windows[i]) && windows[i].taken == 0
      ensures Valid() && this.regs == regs && this.windows == initial == windows && placed == []
    {
      this.regs, this.windows, placed, initial := regs, windows, [], windows;
    }

    /** pci_bar_size_helper: what register i reads as after all ones are written; it is restored. */
    method BarSizeHelper(d: nat, i: nat) returns (val: nat)
      requires d < |regs| && i < |regs[d]| && regs[d][i].Ok()
      modifies this`regs
      ensures regs == old(regs)
      ensures Pow2(regs[d][i].k) <= U32 && val == U32 - Pow2(regs[d][i].k) + regs[d][i].fixed
    {
      hide Pow2, Reg.Read, Reg.Write;
      ghost var r := regs[d][i];
      WriteOnes(r);
      WriteBack(r);
      var bar := regs[d][i].Read();
      regs := regs[d := regs[d][i := regs[d][i].Write(ALL_ONES)]];
      val := regs[d][i].Read();
      WriteTwice(r, ALL_ONES, bar);
      regs := regs[d := regs[d][i := regs[d][i].Write(bar)]];
      assert regs[d] == old(regs)[d];
    }

    /** pci_bar_size: the true size, and nothing is changed. */
    method BarSize(d: nat, i: nat) returns (size: nat)
      requires d < |regs| && BarOk(regs[d], i)
      modifies this`regs
      ensures regs == old(regs) && size == TrueSize(regs[d], i)
    {
      hide And, IsIo, Pow2, Mask, Reg.Read;
      var low := BarSizeHelper(d, i);
      if low == 0 {
        ZeroRead(regs[d], i);
        return 0;
      }
      NonzeroRead(regs[d], i);
      LowRead(regs[d], i);
      SizeFromReads(regs[d], i);
      var bar := regs[d][i].Read();
      low := And(low, Mask(bar));
      if Is64(regs[d][i]) {
        var high := BarSizeHelper(d, i + 1);
        var size64 := high * U32 + low;
        return (U64 - 1 - size64 + 1) % U64;
      } else {
        return (ALL_ONES - low + 1) % U32;
      }
    }

    /** pci_alloc_resource: window space for one BAR. ok is false where the code stops the run because
        the window is full; found is false where it finds nothing to place. */
    method AllocResource(d: nat, i: nat) returns (ok: bool, found: bool, addr: nat, ghost w: nat)
      requires Valid() && d < |regs| && BarOk(regs[d], i)
      modifies this`regs, this`windows
      ensures regs == old(regs)
      ensures ok && found ==> Bumped(old(windows), windows, w, addr, TrueSize(regs[d], i))
      ensures !ok || found ==>
        && !Absent(regs[d][i]) && TrueSize(regs[d], i) > 0
        && w < |windows| && FirstOfKind(windows, w, KindOf(regs[d][i].fixed))
        && Suits(windows[w].kind, regs[d][i].fixed)
      ensures !ok ==> windows == old(windows) && NoRoom(windows[w], TrueSize(regs[d], i), true)
      ensures ok && !found ==>
        windows == old(windows) &&
        (Absent(regs[d][i]) || !HasWindow(windows, KindOf(regs[d][i].fixed)))
    {
      hide And, IsIo, Is64, Pow2, Reg.Read, Packed, Programmed, LayoutOk, RightWindows, UsedBy, FirstFit, Ordered;
      addr := U64 - 1;
      w := 0;
      var size := BarSize(d, i);
      if size == 0 {
        return true, false, addr, w;
      }
      BarWantsKind(regs[d], i);
      var kind := WantedKind(regs[d][i].Read());
      KindSuits(regs[d][i].fixed);
      var n := 0;
      while n < |windows| && windows[n].kind != kind
        invariant 0 <= n <= |windows|
        invariant forall j :: 0 <= j < n ==> windows[j].kind != kind
      {
        n := n + 1;
      }
      if n == |windows| {
        return true, false, addr, w;
      }
      w := n;
      SizeIsPow2(regs[d], i);
      ghost var k := Exponent(regs[d], i);
      PackedWindow(windows, placed, n);
      var from := windows[n].pciStart + windows[n].taken;
      AlignSum(from, k);
      AlignRoundsUp(from, size, k);
      addr := Align64(from, size);
      var total := size + (addr - from);
      LeastMultiple(windows[n], addr, size);
      if windows[n].taken + total > windows[n].size {
        return false, true, addr, w;
      }
      windows := windows[n := windows[n].(taken := windows[n].taken + total)];
      return true, true, addr, w;
    }

    /** pci_bar_set_addr, on the registers; ok is false where the code stops the run because the
        address does not fit a 32-bit BAR. */
    method SetAddr(d: nat, i: nat, addr: nat) returns (ok: bool)
      requires d < |regs| && DeviceOk(regs[d]) && BarOk(regs[d], i) && !Absent(regs[d][i])
      requires addr < U64 && addr % TrueSize(regs[d], i) == 0
      modifies this`regs
      ensures ok <==> Is64(old(regs)[d][i]) || addr < U32
      ensures !ok ==> regs == old(regs)
      ensures ok ==> |regs| == |old(regs)| && regs == old(regs)[d := regs[d]]
      ensures ok ==> Rewritten(old(regs)[d], regs[d], i, Width(old(regs)[d], i)) && Decoded(regs[d], i) == addr
    {
      hide And, IsIo, Is64, Pow2, Reg.Write, Decoded, Rewritten, TrueSize;
      if !Is64(regs[d][i]) && addr >= U32 {
        return false;
      }
      StoreDecodes(regs[d], i, addr);
      KindStays(regs[d], i, addr % U32);
      Next(regs[d], i);
      regs := regs[d := regs[d][i := regs[d][i].Write(addr % U32)]];
      if Is64(regs[d][i]) {
        regs := regs[d := regs[d][i + 1 := regs[d][i + 1].Write(addr / U32)]];
      }
      return true;
    }

    /** __pci_bar_get_addr, up to the translation. */
    method BarGetAddr(d: nat, i: nat) returns (addr: nat)
      requires d < |regs| && BarOk(regs[d], i) && !Absent(regs[d][i])
      ensures addr == Decoded(regs[d], i)
    {
      hide And, Or, IsIo, Decoded, Mask;
      BarAddr(regs[d], i);
      var bar := regs[d][i].Read();
      addr := And(bar, Mask(bar));
      if Is64(regs[d][i]) {
        addr := Or(addr, regs[d][i + 1].Read() * U32);
      }
    }

    /** pci_dev_init: size every BAR and translate the address it holds. The run is over (ok is false)
        exactly if one of them reaches no window. */
    method DevInit(d: nat) returns (ok: bool)
      requires d < |regs| && DeviceOk(regs[d])
      modifies this`regs
      ensures regs == old(regs)
      ensures ok <==> Reaches(windows, regs[d])
    {
      hide And, IsIo, Pow2, Decoded, Begins, LayoutOk, BarOk, Reg.Read;
      ghost var r := regs[d];
      var i := 0;
      Reflexive(r);
      while i < PCI_BAR_NUM
        invariant regs == old(regs) && AtStart(r, i)
        invariant forall j :: 0 <= j < i && j < |r| && Begins(r, 0, j) && !Absent(r[j]) ==>
                    GetPaddr(windows, Decoded(r, j)) != U64 - 1
        decreases PCI_BAR_NUM - i
      {
        AtBar(r, i);
        Next(r, i);
        NextStarts(r, i);
        var size := BarSize(d, i);
        if size != 0 {
          var addr := BarGetAddr(d, i);
          var paddr := HostPaddr(addr);
          if paddr == U64 - 1 {
            return false;
          }
        } else {
          SizeZero(r, i);
        }
        i := i + Width(regs[d], i);
      }
      return true;
    }

    /** The part of pci_probe for one device: walk its BARs, place each one and program it. */
    method ProbeDevice(d: nat) returns (ok: bool)
      requires Valid() && d < |regs|
      requires forall p :: p in placed ==> p.dev < d
      modifies this
      ensures |regs| == |old(regs)| && forall e :: 0 <= e < |regs| && e != d ==> regs[e] == old(regs)[e]
      ensures SameShape(old(regs)[d], regs[d]) && SameWindows(old(windows), windows)
      ensures old(placed) <= placed && forall p :: p in placed ==> p.dev <= d
      ensures OnlyPlacedWritten(old(regs)[d], regs[d], placed, d)
      ensures ok ==> Valid() && AllPlaced(regs[d], |regs[d]|, windows, placed, d)
      ensures !ok ==> Stopped(initial, regs, placed, d)
    {
      hide And, IsIo, Is64, Pow2, Packed, Programmed, LayoutOk, Decoded, KindOf, Absent, BarOk, Begins;
      hide AllPlaced, TrueSize, SameShape, RightWindows, FirstOfKind, NoRoom, UsedBy, FirstFit, Ordered;
      hide SameWindows, Stuck, Bumped, OnlyPlacedWritten;
      var i := 0;
      Reflexive(regs[d]);
      ReflexiveWindows(windows);
      NonePlaced(regs[d], windows, placed, d);
      NoneWritten(regs[d], placed, d);
      while i < PCI_BAR_NUM
        invariant Valid() && |regs| == |old(regs)|
        invariant forall e :: 0 <= e < |regs| && e != d ==> regs[e] == old(regs)[e]
        invariant SameShape(old(regs)[d], regs[d]) && SameWindows(old(windows), windows)
        invariant old(placed) <= placed && Done(regs[d], placed, d, i)
        invariant OnlyPlacedWritten(old(regs)[d], regs[d], placed, d)
        invariant AtStart(regs[d], i) && AllPlaced(regs[d], i, windows, placed, d)
        decreases PCI_BAR_NUM - i
      {
        AtBar(regs[d], i);
        ghost var was, before, wasPlaced := regs, windows, placed;
        var more, found, addr;
        ghost var w;
        more, found, addr, w := AllocResource(d, i);
        if !more {
          NoRoomLeft(regs[d], windows, i, w);
          assert StoppedAt(initial, regs, windows, placed, d, i, w);
          return false;
        }
        if found {
          ghost var size := TrueSize(regs[d], i);
          BumpedFits(before, windows, w, addr, size, placed);
          BumpKeepsWindows(old(windows), before, windows, w, addr, size);
          var stored := SetAddr(d, i, addr);
          if !stored {
            NoNarrowRoom(regs[d], before, windows, i, w, addr);
            assert StoppedAt(initial, regs, before, placed, d, i, w);
            return false;
          }
          placed := placed + [Placement(d, i, w, addr, size)];
          PlaceKeeps(initial, was, regs, before, windows, wasPlaced, d, i, w, addr);
          PlaceWrites(old(regs)[d], was[d], regs[d], wasPlaced, placed, d, i);
          TransitiveShape(old(regs)[d], was[d], regs[d]);
        } else {
          Reflexive(regs[d]);
        }
        Advance(was[d], regs[d], before, windows, wasPlaced, placed, d, i, found);
        i := i + Width(regs[d], i);
      }
      Finished(regs[d], i, windows, placed, d);
      return true;
    }

    /** pci_probe over all normal devices. The run is over (ok is false) exactly at the first device that
        has a BAR whose address reaches no window before it is placed, or a BAR for which there is no
        room. */
    method Probe() returns (ok: bool)
      requires Valid() && placed == []
      modifies this
      ensures |regs| == |old(regs)| && forall d :: 0 <= d < |regs| ==> SameShape(old(regs)[d], regs[d])
      ensures forall d :: 0 <= d < |regs| ==> OnlyPlacedWritten(old(regs)[d], regs[d], placed, d)
      ensures SameWindows(old(windows), windows)
      ensures ok ==> Valid() && forall d :: 0 <= d < |regs| ==>
        AllPlaced(regs[d], |regs[d]|, windows, placed, d) && Reaches(old(windows), old(regs)[d])
      ensures ok ==> AllSuit(regs, windows, placed)
      ensures ok && DisjointWindows(old(windows)) ==> AllApart(windows, placed)
      ensures !ok ==> exists d :: 0 <= d < |regs| && Halted(initial, old(regs), regs, windows, placed, d)
    {
      hide And, IsIo, Is64, Pow2, Packed, Programmed, LayoutOk, KindOf, Absent, BarOk, Begins;
      hide AllPlaced, SameShape, RightWindows, Stopped, UsedBy, FirstFit, Ordered, SameWindows;
      hide DisjointWindows, AllApart, OnlyPlacedWritten, Reaches, Settled, AllSuit;
      ReflexiveWindows(windows);
      NoWrites(regs, placed);
      ReflexiveAll(initial, regs, windows, placed);
      InitialWindows(initial, windows, placed);
      for d := 0 to |regs|
        invariant Valid() && |regs| == |old(regs)|
        invariant SameWindows(old(windows), windows) && SameWindows(initial, windows)
        invariant forall e :: d <= e < |regs| ==> SameShape(old(regs)[e], regs[e])
        invariant forall e :: 0 <= e < |regs| ==> OnlyPlacedWritten(old(regs)[e], regs[e], placed, e)
        invariant forall e :: d <= e < |regs| ==> regs[e] == old(regs)[e]
        invariant forall p :: p in placed ==> p.dev < d
        invariant forall e :: 0 <= e < d ==>
          && SameShape(old(regs)[e], regs[e]) && AllPlaced(regs[e], |regs[e]|, windows, placed, e)
          && Reaches(old(windows), old(regs)[e])
      {
        ghost var before, wasPlaced := windows, placed;
        assert regs[d] == old(regs)[d];
        SameReach(old(windows), windows, regs[d]);
        SameReach(initial, windows, regs[d]);
        var known := DevInit(d);
        if !known {
          forall e | 0 <= e < d
            ensures Settled(initial, old(regs), regs, placed, e)
          {
            SettledAt(initial, old(windows), old(regs), regs, windows, placed, e);
          }
          assert Halted(initial, old(regs), regs, windows, placed, d);
          return false;
        }
        var more := ProbeDevice(d);
        forall e | 0 <= e < |regs| && e != d
          ensures OnlyPlacedWritten(old(regs)[e], regs[e], placed, e)
        {
          WrittenMore(old(regs)[e], regs[e], wasPlaced, placed, e);
        }
        TransitiveWindows(old(windows), before, windows);
        TransitiveWindows(initial, before, windows);
        if !more {
          forall e | 0 <= e < d
            ensures Settled(initial, old(regs), regs, placed, e)
          {
            PlacedMore(regs[e], |regs[e]|, before, windows, wasPlaced, placed, e);
            SettledAt(initial, old(windows), old(regs), regs, windows, placed, e);
          }
          assert Halted(initial, old(regs), regs, windows, placed, d);
          return false;
        }
        forall e | 0 <= e < d
          ensures AllPlaced(regs[e], |regs[e]|, windows, placed, e)
        {
          PlacedMore(regs[e], |regs[e]|, before, windows, wasPlaced, placed, e);
        }
      }
      PlacedSuit(regs, windows, placed);
      SameDisjoint(old(windows), windows);
      if DisjointWindows(windows) {
        PackedApart(windows, placed);
      }
      return true;
    }

    /** pci_host_bridge_get_paddr. */
    method HostPaddr(pciAddr: nat) returns (paddr: int)
      ensures paddr == GetPaddr(windows, pciAddr)
      ensures forall i :: 0 <= i < |windows| && FirstCover(windows, i, pciAddr) ==>
                paddr == windows[i].start + (pciAddr - windows[i].pciStart)
      ensures (forall i :: 0 <= i < |windows| ==> !Covers(windows[i], pciAddr)) ==> paddr == U64 - 1
    {
      var i := 0;
      while i < |windows|
        invariant 0 <= i <= |windows|
        invariant GetPaddr(windows[i..], pciAddr) == GetPaddr(windows, pciAddr)
        invariant forall j :: 0 <= j < i ==> !Covers(windows[j], pciAddr)
      {
        var w := windows[i];
        if w.pciStart <= pciAddr && pciAddr < w.pciStart + w.size {
          return w.start + (pciAddr - w.pciStart);
        }
        assert windows[i..][1..] == windows[i + 1..];
        i := i + 1;
      }
      return U64 - 1;
    }
  }

  /** Every BAR of device d that begins before register i and for which the host has a window of its
      kind has been placed. */
  ghost predicate AllPlaced(r: seq<Reg>, i: nat, windows: seq<Window>, placed: seq<Placement>, d: nat) {
    forall j: nat :: j < i && j < |r| && Begins(r, 0, j) && !Absent(r[j]) &&
                     HasWindow(windows, KindOf(r[j].fixed)) ==>
      IsPlaced(placed, d, j)
  }

  /** Only the registers of BARs that were placed have been written. */
  ghost predicate OnlyPlacedWritten(r: seq<Reg>, r': seq<Reg>, placed: seq<Placement>, d: nat) {
    |r'| == |r| && forall j: nat :: j < |r| && r'[j] != r[j] ==> exists k :: Covered(r, placed, d, j, k)
  }

  /** Register j belongs to the BAR that the k-th placement is about. */
  ghost predicate Covered(r: seq<Reg>, placed: seq<Placement>, d: nat, j: nat, k: int) {
    0 <= k < |placed| && placed[k].dev == d && placed[k].bar < |r| &&
    placed[k].bar <= j < placed[k].bar + Width(r, placed[k].bar)
  }

  lemma NoneWritten(r: seq<Reg>, placed: seq<Placement>, d: nat)
    ensures OnlyPlacedWritten(r, r, placed, d)
  {
  }

  lemma NoWrites(regs: seq<seq<Reg>>, placed: seq<Placement>)
    ensures forall d :: 0 <= d < |regs| ==> OnlyPlacedWritten(regs[d], regs[d], placed, d)
  {
  }

  lemma WrittenMore(r: seq<Reg>, r': seq<Reg>, placed: seq<Placement>, placed': seq<Placement>, d: nat)
    requires OnlyPlacedWritten(r, r', placed, d) && placed <= placed'
    ensures OnlyPlacedWritten(r, r', placed', d)
  {
    forall j: nat | j < |r| && r'[j] != r[j]
      ensures exists k :: Covered(r, placed', d, j, k)
    {
      var k :| Covered(r, placed, d, j, k);
      assert Covered(r, placed', d, j, k);
    }
  }

  lemma PlaceWrites(r0: seq<Reg>, r: seq<Reg>, r': seq<Reg>, placed: seq<Placement>, placed': seq<Placement>,
                    d: nat, i: nat)
    requires OnlyPlacedWritten(r0, r, placed, d) && SameShape(r0, r) && BarOk(r, i)
    requires Rewritten(r, r', i, Width(r, i))
    requires |placed'| == |placed| + 1 && placed <= placed' && placed'[|placed|].dev == d && placed'[|placed|].bar == i
    ensures OnlyPlacedWritten(r0, r', placed', d)
  {
    hide BarOk;
    ShapeKeepsBar(r, r0, i);
    WrittenMore(r0, r, placed, placed', d);
    forall j: nat | j < |r0| && r'[j] != r0[j]
      ensures exists k :: Covered(r0, placed', d, j, k)
    {
      if i <= j < i + Width(r, i) {
        assert Covered(r0, placed', d, j, |placed|);
      } else {
        assert r[j] != r0[j];
      }
    }
  }

  /** The walk is at the start of a BAR, or past the last one. */
  ghost predicate AtStart(r: seq<Reg>, i: nat) {
    i < |r| ==> Begins(r, 0, i)
  }

  /** What has been placed of device d are BARs that begin before register i. */
  ghost predicate Done(r: seq<Reg>, placed: seq<Placement>, d: nat, i: nat) {
    forall p :: p in placed ==> p.dev <= d && (p.dev == d ==> p.bar < i && Begins(r, 0, p.bar))
  }

  lemma Reflexive(r: seq<Reg>)
    requires DeviceOk(r)
    ensures SameShape(r, r) && AtStart(r, 0)
  {
  }

  lemma TransitiveShape(a: seq<Reg>, b: seq<Reg>, c: seq<Reg>)
    requires SameShape(a, b) && SameShape(b, c)
    ensures SameShape(a, c)
  {
  }

  lemma NonePlaced(r: seq<Reg>, windows: seq<Window>, placed: seq<Placement>, d: nat)
    requires forall p :: p in placed ==> p.dev < d
    ensures Done(r, placed, d, 0) && AllPlaced(r, 0, windows, placed, d)
  {
  }

  lemma AtBar(r: seq<Reg>, i: nat)
    requires DeviceOk(r) && AtStart(r, i) && i < PCI_BAR_NUM
    ensures BarOk(r, i)
  {
    BeginsBar(r, 0, i);
  }

  lemma ReflexiveWindows(windows: seq<Window>)
    ensures SameWindows(windows, windows)
  {
  }

  lemma TransitiveWindows(a: seq<Window>, b: seq<Window>, c: seq<Window>)
    requires SameWindows(a, b) && SameWindows(b, c)
    ensures SameWindows(a, c) && SameKinds(b, c)
  {
  }

  lemma SameDisjoint(a: seq<Window>, b: seq<Window>)
    requires SameWindows(a, b)
    ensures DisjointWindows(a) <==> DisjointWindows(b)
  {
    if DisjointWindows(a) {
      forall i, j | 0 <= i < j < |b|
        ensures var v, w := b[i], b[j];
                && (v.pciStart + v.size <= w.pciStart || w.pciStart + w.size <= v.pciStart)
                && (v.start + v.size <= w.start || w.start + w.size <= v.start)
      {
        var v, w := a[i], a[j];
        assert v.pciStart + v.size <= w.pciStart || w.pciStart + w.size <= v.pciStart;
      }
    }
    if DisjointWindows(b) {
      forall i, j | 0 <= i < j < |a|
        ensures var v, w := a[i], a[j];
                && (v.pciStart + v.size <= w.pciStart || w.pciStart + w.size <= v.pciStart)
                && (v.start + v.size <= w.start || w.start + w.size <= v.start)
      {
        var v, w := b[i], b[j];
        assert v.pciStart + v.size <= w.pciStart || w.pciStart + w.size <= v.pciStart;
      }
    }
  }

  lemma ReflexiveAll(initial: seq<Window>, regs: seq<seq<Reg>>, windows: seq<Window>, placed: seq<Placement>)
    requires Consistent(initial, regs, windows, placed)
    ensures forall d :: 0 <= d < |regs| ==> SameShape(regs[d], regs[d])
  {
  }

  lemma InitialWindows(initial: seq<Window>, windows: seq<Window>, placed: seq<Placement>)
    requires UsedBy(initial, windows, placed)
    ensures SameWindows(initial, windows)
  {
  }

  lemma SameReach(a: seq<Window>, b: seq<Window>, r: seq<Reg>)
    requires SameWindows(a, b)
    ensures Reaches(a, r) <==> Reaches(b, r)
  {
    forall x: nat
      ensures GetPaddr(a, x) == GetPaddr(b, x)
    {
      SamePaddr(a, b, x);
    }
  }

  lemma SettledAt(initial: seq<Window>, first: seq<Window>, was: seq<seq<Reg>>, regs: seq<seq<Reg>>,
                  windows: seq<Window>, placed: seq<Placement>, e: nat)
    requires e < |was| == |regs| && SameWindows(initial, first) && SameWindows(initial, windows)
    requires Reaches(first, was[e]) && AllPlaced(regs[e], |regs[e]|, windows, placed, e)
    ensures Settled(initial, was, regs, placed, e)
  {
    SameReach(initial, first, was[e]);
    PlacedMore(regs[e], |regs[e]|, windows, initial, placed, placed, e);
  }

  lemma BumpedFits(windows: seq<Window>, windows': seq<Window>, w: nat, addr: nat, size: nat, placed: seq<Placement>)
    requires Packed(windows, placed) && Bumped(windows, windows', w, addr, size)
    ensures addr < U64 && addr % size == 0
  {
    PackedWindow(windows, placed, w);
  }

  /** The placement joins the account of window space. */
  lemma PlaceUses(initial: seq<Window>, windows: seq<Window>, windows': seq<Window>, placed: seq<Placement>,
                  p: Placement)
    requires UsedBy(initial, windows, placed) && FirstFit(initial, placed)
    requires Bumped(windows, windows', p.window, p.addr, p.size)
    ensures UsedBy(initial, windows', placed + [p]) && FirstFit(initial, placed + [p])
  {
    var placed' := placed + [p];
    assert placed'[..|placed|] == placed;
    forall i | 0 <= i < |placed'| && placed'[i].window < |initial|
      ensures var q := placed'[i];
              var from := initial[q.window].pciStart + TakenAfter(initial, placed'[..i], q.window);
              q.size > 0 && q.addr % q.size == 0 && from <= q.addr < from + q.size
    {
      if i < |placed| {
        assert placed'[..i] == placed[..i];
      }
    }
  }

  lemma PlaceOrdered(r: seq<Reg>, placed: seq<Placement>, p: Placement)
    requires Ordered(placed) && Done(r, placed, p.dev, p.bar)
    ensures Ordered(placed + [p])
  {
    forall i | 0 <= i < |placed|
      ensures Before(placed[i], p)
    {
      assert placed[i] in placed;
    }
  }

  /** Placing and programming one BAR keeps everything in order. */
  lemma PlaceKeeps(initial: seq<Window>, regs: seq<seq<Reg>>, regs': seq<seq<Reg>>, windows: seq<Window>,
                   windows': seq<Window>, placed: seq<Placement>, d: nat, i: nat, w: nat, addr: nat)
    requires Consistent(initial, regs, windows, placed)
    requires d < |regs| && BarOk(regs[d], i) && !Absent(regs[d][i])
    requires Done(regs[d], placed, d, i) && AtStart(regs[d], i)
    requires FirstOfKind(windows, w, KindOf(regs[d][i].fixed))
    requires Bumped(windows, windows', w, addr, TrueSize(regs[d], i))
    requires |regs'| == |regs| && regs' == regs[d := regs'[d]]
    requires Rewritten(regs[d], regs'[d], i, Width(regs[d], i)) && Decoded(regs'[d], i) == addr
    ensures var p := Placement(d, i, w, addr, TrueSize(regs[d], i));
            Consistent(initial, regs', windows', placed + [p])
  {
    hide Decoded, Absent, TrueSize, LayoutOk, Reg.Read, And, Is64, IsIo, Pow2, Packed, UsedBy, FirstFit, Ordered;
    var p := Placement(d, i, w, addr, TrueSize(regs[d], i));
    PlaceUses(initial, windows, windows', placed, p);
    PlaceOrdered(regs[d], placed, p);
    var k: nat :| k <= 63 && p.size == Pow2(k);
    BumpKeepsPacked(windows, placed, w, p, k);
    RewrittenDevice(regs[d], regs'[d], i, Width(regs[d], i));
    PlaceKeepsKinds(regs, regs', windows, windows', placed, d, i, w, addr);
    ShapeKeepsBar(regs[d], regs'[d], i);
    forall j | 0 <= j < |placed|
      ensures var q := placed[j];
              BarOk(regs'[q.dev], q.bar) && Decoded(regs'[q.dev], q.bar) == q.addr &&
              TrueSize(regs'[q.dev], q.bar) == q.size
    {
      var q := placed[j];
      if q.dev == d {
        assert q in placed;
        BeginsBar(regs[d], 0, q.bar);
        BeginsOrder(regs[d], 0, q.bar, i);
        DecodedElsewhere(regs[d], regs'[d], i, Width(regs[d], i), q.bar);
      }
    }
  }

  /** The windows of all placements stay right, for no write changes the kind of a BAR. */
  lemma PlaceKeepsKinds(regs: seq<seq<Reg>>, regs': seq<seq<Reg>>, windows: seq<Window>, windows': seq<Window>,
                        placed: seq<Placement>, d: nat, i: nat, w: nat, addr: nat)
    requires (forall e :: 0 <= e < |regs| ==> DeviceOk(regs[e])) && d < |regs| && i < |regs[d]| && BarOk(regs[d], i)
    requires Done(regs[d], placed, d, i) && AtStart(regs[d], i) && |regs'| == |regs| && regs' == regs[d := regs'[d]]
    requires RightWindows(regs, windows, placed) && FirstOfKind(windows, w, KindOf(regs[d][i].fixed))
    requires Bumped(windows, windows', w, addr, TrueSize(regs[d], i))
    requires SameShape(regs[d], regs'[d])
    ensures RightWindows(regs', windows', placed + [Placement(d, i, w, addr, TrueSize(regs[d], i))])
  {
    hide TrueSize, LayoutOk, Reg.Read, KindOf, Pow2, BarOk, SameShape;
    BumpKeepsKinds(windows, windows', w, addr, TrueSize(regs[d], i));
    ShapeKeepsBar(regs[d], regs'[d], i);
    ShapeKeepsLayout(regs[d], regs'[d], 0);
    SameLength(regs[d], regs'[d]);
    var placed' := placed + [Placement(d, i, w, addr, TrueSize(regs[d], i))];
    forall j | 0 <= j < |placed|
      ensures var p := placed'[j];
              p.dev < |regs'| && Begins(regs'[p.dev], 0, p.bar) && p.bar < |regs'[p.dev]| &&
              FirstOfKind(windows', p.window, KindOf(regs'[p.dev][p.bar].fixed))
    {
      var p := placed[j];
      assert p in placed;
      if p.dev == d {
        BeginsBar(regs[d], 0, p.bar);
        ShapeKeepsBar(regs[d], regs'[d], p.bar);
      }
    }
  }

  lemma SameLength(r: seq<Reg>, r': seq<Reg>)
    requires SameShape(r, r')
    ensures |r'| == |r| && forall i :: 0 <= i < |r| ==> r'[i].fixed == r[i].fixed
  {
  }

  lemma BumpKeepsKinds(windows: seq<Window>, windows': seq<Window>, w: nat, addr: nat, size: nat)
    requires Bumped(windows, windows', w, addr, size)
    ensures SameKinds(windows, windows') && w < |windows'| && size > 0
    ensures addr < windows'[w].pciStart + windows'[w].taken + size && addr % size == 0
    ensures forall v, kind :: FirstOfKind(windows, v, kind) <==> FirstOfKind(windows', v, kind)
  {
  }

  /** A BAR of this device has its window, but the window has no room left that suits the BAR. */
  ghost predicate Stuck(r: seq<Reg>, windows: seq<Window>, i: nat, w: nat) {
    && BarOk(r, i) && !Absent(r[i]) && TrueSize(r, i) > 0
    && FirstOfKind(windows, w, KindOf(r[i].fixed))
    && NoRoom(windows[w], TrueSize(r, i), Is64(r[i]))
  }

  lemma NoRoomLeft(r: seq<Reg>, windows: seq<Window>, i: nat, w: nat)
    requires BarOk(r, i) && !Absent(r[i]) && TrueSize(r, i) > 0
    requires FirstOfKind(windows, w, KindOf(r[i].fixed)) && NoRoom(windows[w], TrueSize(r, i), true)
    ensures Stuck(r, windows, i, w)
  {
  }

  /** The first place left free is beyond 32 bits, and so are all others. */
  lemma NoNarrowRoom(r: seq<Reg>, windows: seq<Window>, windows': seq<Window>, i: nat, w: nat, addr: nat)
    requires BarOk(r, i) && !Absent(r[i]) && !Is64(r[i]) && addr >= U32
    requires Bumped(windows, windows', w, addr, TrueSize(r, i))
    requires FirstOfKind(windows', w, KindOf(r[i].fixed))
    ensures Stuck(r, windows, i, w)
  {
    hide TrueSize, Absent, Is64, KindOf, Pow2;
    BumpKeepsKinds(windows, windows', w, addr, TrueSize(r, i));
    LeastMultiple(windows[w], addr, TrueSize(r, i));
  }

  lemma BumpKeepsWindows(was: seq<Window>, windows: seq<Window>, windows': seq<Window>, w: nat, addr: nat, size: nat)
    requires SameWindows(was, windows) && Bumped(windows, windows', w, addr, size)
    ensures SameWindows(was, windows') && SameKinds(windows, windows')
    ensures forall v, kind :: FirstOfKind(windows, v, kind) <==> FirstOfKind(windows', v, kind)
  {
    BumpKeepsKinds(windows, windows', w, addr, size);
  }

  lemma PlacedMore(r: seq<Reg>, i: nat, windows: seq<Window>, windows': seq<Window>,
                   placed: seq<Placement>, placed': seq<Placement>, d: nat)
    requires AllPlaced(r, i, windows, placed, d) && SameKinds(windows, windows') && placed <= placed'
    ensures AllPlaced(r, i, windows', placed', d)
  {
    forall j: nat | j < i && j < |r| && Begins(r, 0, j) && !Absent(r[j]) && HasWindow(windows', KindOf(r[j].fixed))
      ensures IsPlaced(placed', d, j)
    {
      var n :| 0 <= n < |windows'| && windows'[n].kind == KindOf(r[j].fixed);
      assert windows[n].kind == KindOf(r[j].fixed);
      var k :| 0 <= k < |placed| && placed[k].dev == d && placed[k].bar == j;
      assert placed'[k] == placed[k];
    }
  }

  /** No BAR begins inside another one, and the next one begins where it ends. */
  lemma {:induction false} BeginsOrder(r: seq<Reg>, j: nat, i: nat, k: nat)
    requires Begins(r, j, i) && i < |r|
    ensures i + Width(r, i) < |r| ==> Begins(r, j, i + Width(r, i))
    ensures Begins(r, j, k) ==> j <= k && (k <= i || k >= i + Width(r, i))
    decreases |r| - j
  {
    BeginsAfter(r, j, i);
    BeginsAfter(r, j, k);
    if i != j {
      BeginsOrder(r, j + Width(r, j), i, k);
    } else {
      BeginsAfter(r, j + Width(r, j), k);
    }
  }

  lemma {:induction false} BeginsAfter(r: seq<Reg>, j: nat, i: nat)
    ensures Begins(r, j, i) ==> j <= i < |r|
    decreases |r| - j
  {
    if j < |r| && i != j {
      BeginsAfter(r, j + Width(r, j), i);
    }
  }

  /** Nothing begins inside a BAR, and the walk goes on where it ends. */
  lemma NextStarts(r: seq<Reg>, i: nat)
    requires DeviceOk(r) && AtStart(r, i) && i < PCI_BAR_NUM
    ensures AtStart(r, i + Width(r, i))
    ensures forall j :: i < j < i + Width(r, i) ==> !Begins(r, 0, j)
  {
    forall j | i < j < i + Width(r, i)
      ensures !Begins(r, 0, j)
    {
      BeginsOrder(r, 0, i, j);
    }
    BeginsOrder(r, 0, i, i);
  }

  lemma SizeZero(r: seq<Reg>, i: nat)
    requires i < |r|
    ensures TrueSize(r, i) == 0 <==> Absent(r[i])
  {
  }

  /** One turn of the walk. */
  lemma Advance(r: seq<Reg>, r': seq<Reg>, windows: seq<Window>, windows': seq<Window>,
                placed: seq<Placement>, placed': seq<Placement>, d: nat, i: nat, found: bool)
    requires DeviceOk(r) && SameShape(r, r') && AtStart(r, i) && BarOk(r, i) && i < PCI_BAR_NUM
    requires AllPlaced(r, i, windows, placed, d) && Done(r, placed, d, i) && SameKinds(windows, windows')
    requires if found then |placed'| == |placed| + 1 && placed <= placed' &&
                           placed'[|placed|].dev == d && placed'[|placed|].bar == i
             else placed' == placed && (Absent(r[i]) || !HasWindow(windows', KindOf(r[i].fixed)))
    ensures i + Width(r', i) <= |r'| && AtStart(r', i + Width(r', i))
    ensures Done(r', placed', d, i + Width(r', i))
    ensures AllPlaced(r', i + Width(r', i), windows', placed', d)
  {
    hide And, IsIo, Pow2, KindOf, Absent, Reg.Read, Begins, LayoutOk;
    ShapeKeepsBar(r, r', i);
    ShapeKeepsLayout(r, r', 0);
    Next(r, i);
    BeginsOrder(r, 0, i, i);
    forall j: nat | j < i + Width(r', i) && j < |r'| && Begins(r', 0, j) && !Absent(r'[j]) &&
                    HasWindow(windows', KindOf(r'[j].fixed))
      ensures IsPlaced(placed', d, j)
    {
      BeginsOrder(r, 0, i, j);
      BeginsBar(r, 0, j);
      ShapeKeepsBar(r, r', j);
      SameAbsent(r[j], r'[j]);
      if j < i {
        PlacedStill(r, i, windows, windows', placed, placed', d, j);
      } else {
        assert placed'[|placed|].dev == d && placed'[|placed|].bar == j;
      }
    }
  }

  lemma SameAbsent(a: Reg, b: Reg)
    requires a.k == b.k && a.fixed == b.fixed
    ensures Absent(a) == Absent(b)
  {
  }

  lemma PlacedStill(r: seq<Reg>, i: nat, windows: seq<Window>, windows': seq<Window>,
                    placed: seq<Placement>, placed': seq<Placement>, d: nat, j: nat)
    requires AllPlaced(r, i, windows, placed, d) && SameKinds(windows, windows') && placed <= placed'
    requires j < i && j < |r| && Begins(r, 0, j) && !Absent(r[j]) && HasWindow(windows', KindOf(r[j].fixed))
    ensures IsPlaced(placed', d, j)
  {
    PlacedMore(r, i, windows, windows', placed, placed', d);
  }

  lemma Finished(r: seq<Reg>, i: nat, windows: seq<Window>, placed: seq<Placement>, d: nat)
    requires |r| == PCI_BAR_NUM <= i && AllPlaced(r, i, windows, placed, d)
    ensures AllPlaced(r, |r|, windows, placed, d)
  {
  }

  /** addr is the first multiple of size in the free part of window w, and the window has been
      advanced past it. */
  ghost predicate Bumped(was: seq<Window>, windows: seq<Window>, w: nat, addr: nat, size: nat) {
    && w < |was| && size > 0 && (exists k: nat :: k <= 63 && size == Pow2(k))
    && addr % size == 0
    && was[w].pciStart + was[w].taken <= addr < was[w].pciStart + was[w].taken + size
    && addr + size <= was[w].pciStart + was[w].size
    && windows == was[w := was[w].(taken := addr + size - was[w].pciStart)]
  }

  lemma SizeIsPow2(r: seq<Reg>, i: nat)
    requires BarOk(r, i) && !Absent(r[i])
    ensures TrueSize(r, i) == Pow2(Exponent(r, i)) && Exponent(r, i) <= 63
  {
    LowRead(r, i);
  }

  lemma PackedWindow(windows: seq<Window>, placed: seq<Placement>, n: nat)
    requires Packed(windows, placed) && n < |windows|
    ensures WindowOk(windows[n])
  {
  }

  /** What does not fit at the first multiple of its size does not fit at any other. */
  lemma LeastMultiple(w: Window, addr: nat, size: nat)
    requires size > 0 && addr % size == 0 && addr < w.pciStart + w.taken + size
    ensures addr + size > w.pciStart + w.size ==> NoRoom(w, size, true)
    ensures addr >= U32 ==> NoRoom(w, size, false)
  {
    forall a: nat | a % size == 0 && w.pciStart + w.taken <= a
      ensures a >= addr
    {
      Division(a, size);
      Division(addr, size);
      Product(a / size, addr / size, size);
    }
  }

  lemma AlignSum(from: nat, k: nat)
    requires from <= WINDOW_LIMIT && k <= 63
    ensures from + Pow2(k) - 1 < U64
  {
    Pow2Values();
    Pow2Monotone(k, 63);
    assert Pow2(64) == 2 * Pow2(63);
  }

  lemma Next(r: seq<Reg>, i: nat)
    requires BarOk(r, i)
    ensures Is64(r[i]) ==> i + 1 < |r|
  {
  }

  lemma WriteTwice(r: Reg, v: nat, w: nat)
    ensures r.Write(v).Write(w) == r.Write(w)
  {
  }

  lemma ZeroRead(r: seq<Reg>, i: nat)
    requires BarOk(r, i) && U32 - Pow2(r[i].k) + r[i].fixed == 0
    ensures TrueSize(r, i) == 0
  {
    if !Absent(r[i]) {
      LowRead(r, i);
    }
  }

  lemma NonzeroRead(r: seq<Reg>, i: nat)
    requires BarOk(r, i) && U32 - Pow2(r[i].k) + r[i].fixed != 0
    ensures !Absent(r[i])
  {
    Pow2Values();
  }
}
