/** The page allocator: a free list threaded through the first word of each free page. */
module PageAlloc {
  import opened Bits
  import opened Lists

  const PAGE_SIZE: nat := 4096

  ghost predicate IsPage(p: nat) {
    0 < p < U64 && p % PAGE_SIZE == 0
  }

  ghost function Range(first: nat, n: nat): (s: seq<nat>)
    ensures |s| == n
    ensures forall i :: 0 <= i < n ==> s[i] == first + i * PAGE_SIZE
  {
    seq(n, i requires 0 <= i < n => first + i * PAGE_SIZE)
  }

  ghost function SetOf(s: seq<nat>): set<nat> {
    set x | x in s
  }

  /** Each page of `a` links to the next, the last one to `tail`. */
  ghost predicate Threaded(a: seq<nat>, tail: nat, mem: map<nat, nat>) {
    && (forall i :: 0 <= i < |a| ==> a[i] in mem)
    && (forall i, j :: 0 <= i < j < |a| && j == i + 1 ==> mem[a[i]] == a[j])
    && (a != [] ==> mem[a[|a| - 1]] == tail)
  }

  /** Following the links from `head` visits exactly `chain`, then NULL. */
  ghost predicate Linked(head: nat, mem: map<nat, nat>, chain: seq<nat>) {
    head == (if chain == [] then 0 else chain[0]) && Threaded(chain, 0, mem)
  }

  // ---- which run the first-fit scan of alloc_pages takes

  /** The mask (n << PAGE_SHIFT) - 1 that alloc_pages tests addresses with, n being 2^order; the
      shift drops bits past bit 63, and the subtraction wraps. */
  function AlignMask(order: nat): nat {
    (Pow2(order) * PAGE_SIZE % U64 + U64 - 1) % U64
  }

  lemma MaskValue(order: nat)
    requires order < 64
    ensures AlignMask(order) == if order < 52 then Pow2(order + 12) - 1 else U64 - 1
  {
    BlockBytes(order);
    var bytes := Pow2(order + 12);
    if order < 52 {
      NoWrap(bytes);
      NoWrap(bytes - 1);
    } else {
      DivModUnique(bytes, U64, Pow2(order - 52), 0);
    }
  }

  lemma BlockBytes(order: nat)
    ensures Pow2(order + 12) == Pow2(order) * PAGE_SIZE
    ensures order < 52 ==> Pow2(order + 12) < U64
    ensures order >= 52 ==> Pow2(order + 12) == Pow2(order - 52) * U64 >= U64
  {
    Pow2Values();
    Pow2Add(order, 12);
    if order < 52 {
      Pow2Monotone(order + 13, 64);
    } else {
      Pow2Add(order - 52, 64);
    }
  }

  /** The test accepts exactly the pages at multiples of the size of the block. */
  lemma MaskMeansAligned(pa: nat, order: nat)
    requires 0 < pa < U64 && order < 64
    ensures And(pa, AlignMask(order)) == 0 <==> pa % Pow2(order + 12) == 0
  {
    MaskValue(order);
    if order < 52 {
      AndLowMask(pa, order + 12);
    } else {
      BlockBytes(order);
      Pow2Values();
      AndLowMask(pa, 64);
      NoWrap(pa);
      DivModUnique(pa, Pow2(order + 12), 0, pa);
    }
  }

  /** Which pages may begin a block of 2^order pages. */
  ghost function Starts(order: nat): nat -> bool {
    (pa: nat) => And(pa, AlignMask(order)) == 0
  }

  lemma StartsIff(pa: nat, order: nat)
    requires 0 < pa < U64 && order < 64
    ensures Starts(order)(pa) <==> pa % Pow2(order + 12) == 0
  {
    MaskMeansAligned(pa, order);
  }

  /** n pages at index s of the list, consecutive in memory, the first one fit to begin a block. */
  ghost predicate BlockAt(chain: seq<nat>, s: nat, n: nat, starts: nat -> bool)
    requires n > 0
  {
    s + n <= |chain| && starts(chain[s]) &&
    forall j :: s <= j < s + n ==> chain[j] == chain[s] + (j - s) * PAGE_SIZE
  }

  /** The run after page i, given a run of r pages just before it. */
  ghost function NextRun(chain: seq<nat>, i: nat, r: nat, starts: nat -> bool): (r': nat)
    requires r <= i < |chain|
    ensures r' <= i + 1
  {
    if r == 0 then (if starts(chain[i]) then 1 else 0)
    else if chain[i] == chain[i - r] + r * PAGE_SIZE then r + 1
    else 0
  }

  /** Length of the run in progress after the first i pages of the list have been looked at. */
  ghost function Run(chain: seq<nat>, i: nat, starts: nat -> bool): (r: nat)
    requires i <= |chain|
    ensures r <= i
  {
    if i == 0 then 0 else NextRun(chain, i - 1, Run(chain, i - 1, starts), starts)
  }

  /** The pages of a run are consecutive, and the first one is fit to begin a block. */
  lemma {:induction false} RunPages(chain: seq<nat>, i: nat, starts: nat -> bool)
    requires i <= |chain|
    ensures var r := Run(chain, i, starts);
            (r > 0 ==> starts(chain[i - r])) &&
            forall j :: i - r <= j < i ==> chain[j] == chain[i - r] + (j - (i - r)) * PAGE_SIZE
  {
    if i > 0 {
      RunPages(chain, i - 1, starts);
    }
  }

  ghost predicate Found(chain: seq<nat>, i: nat, n: nat, starts: nat -> bool) {
    i <= |chain| && Run(chain, i, starts) == n
  }

  /** A run starts where none was in progress. */
  lemma {:induction false} RunStart(chain: seq<nat>, i: nat, starts: nat -> bool)
    requires i <= |chain|
    ensures Run(chain, i - Run(chain, i, starts), starts) == 0
  {
    if i > 0 && Run(chain, i, starts) > 1 {
      RunStart(chain, i - 1, starts);
    }
  }

  lemma {:induction false} RunThroughBlock(chain: seq<nat>, s: nat, j: nat, n: nat, starts: nat -> bool)
    requires 0 < n && j <= n && BlockAt(chain, s, n, starts) && Run(chain, s, starts) == 0
    ensures Run(chain, s + j, starts) == j
  {
    if j > 0 {
      RunThroughBlock(chain, s, j - 1, n, starts);
      assert chain[s + j - 1] == chain[s] + (j - 1) * PAGE_SIZE;
    }
  }

  lemma RunIsBlock(chain: seq<nat>, i: nat, n: nat, starts: nat -> bool)
    requires n > 0 && Found(chain, i, n, starts)
    ensures n <= i && BlockAt(chain, i - n, n, starts) && Run(chain, i - n, starts) == 0
  {
    RunStart(chain, i, starts);
    RunPages(chain, i, starts);
  }

  /** Exactly when the scan finds a block: an aligned block must start where no other run is still
      in progress, because a page that breaks a run is not tried as a new start. */
  lemma ScanFindsIff(chain: seq<nat>, n: nat, starts: nat -> bool)
    requires n > 0
    ensures (exists i: nat :: Found(chain, i, n, starts)) <==>
            (exists s: nat :: BlockAt(chain, s, n, starts) && Run(chain, s, starts) == 0)
  {
    if i: nat :| Found(chain, i, n, starts) {
      RunIsBlock(chain, i, n, starts);
    }
    if s: nat :| BlockAt(chain, s, n, starts) && Run(chain, s, starts) == 0 {
      RunThroughBlock(chain, s, n, n, starts);
      assert Found(chain, s + n, n, starts);
    }
  }

  // ---- the scan as a parse of the list

  /** How many pages from index i on are consecutive in memory, n at most. */
  ghost function Stretch(chain: seq<nat>, i: nat, n: nat): (m: nat)
    requires i < |chain| && n > 0
    ensures 1 <= m <= n && i + m <= |chain|
    ensures forall j :: i <= j < i + m ==> chain[j] == chain[i] + (j - i) * PAGE_SIZE
    ensures m < n && i + m < |chain| ==> chain[i + m] != chain[i] + m * PAGE_SIZE
    decreases n
  {
    if n == 1 then 1
    else
      var m := Stretch(chain, i, n - 1);
      if m == n - 1 && i + m < |chain| && chain[i + m] == chain[i] + m * PAGE_SIZE then n else m
  }

  /** Index of the block that is taken from a list parsed from index i on: a page that cannot begin a
      block is passed over; from one that can, either n pages in a row are the block, or the stretch
      is passed over together with the page that ends it. -1 if the list ends. */
  ghost function Parse(chain: seq<nat>, i: nat, n: nat, starts: nat -> bool): int
    requires n > 0
    decreases |chain| - i
  {
    if i >= |chain| then -1
    else if !starts(chain[i]) then Parse(chain, i + 1, n, starts)
    else
      var m := Stretch(chain, i, n);
      if m == n then i else Parse(chain, i + m + 1, n, starts)
  }

  lemma {:induction false} ParseRange(chain: seq<nat>, i: nat, n: nat, starts: nat -> bool)
    requires n > 0
    ensures -1 <= Parse(chain, i, n, starts)
    decreases |chain| - i
  {
    if i < |chain| {
      if !starts(chain[i]) {
        ParseRange(chain, i + 1, n, starts);
      } else if Stretch(chain, i, n) < n {
        ParseRange(chain, i + Stretch(chain, i, n) + 1, n, starts);
      }
    }
  }

  /** Nothing is found up to index i, and no run is in progress there. */
  ghost predicate Fresh(chain: seq<nat>, i: nat, n: nat, starts: nat -> bool) {
    && (i <= |chain| ==> Run(chain, i, starts) == 0)
    && forall j: nat :: j <= i ==> !Found(chain, j, n, starts)
  }

  lemma {:induction false} RunInStretch(chain: seq<nat>, i: nat, n: nat, starts: nat -> bool, j: nat)
    requires i < |chain| && n > 0 && starts(chain[i]) && Run(chain, i, starts) == 0
    requires 1 <= j <= Stretch(chain, i, n)
    ensures Run(chain, i + j, starts) == j
    decreases j
  {
    if j > 1 {
      RunInStretch(chain, i, n, starts, j - 1);
      assert chain[i + j - 1] == chain[i] + (j - 1) * PAGE_SIZE;
    }
  }

  /** The scan takes the block that the parse gives, and none if the parse gives none. */
  lemma {:induction false} ScanIsParse(chain: seq<nat>, i: nat, n: nat, starts: nat -> bool)
    requires n > 0 && Fresh(chain, i, n, starts)
    ensures var k := Parse(chain, i, n, starts);
            if k < 0 then forall j: nat :: !Found(chain, j, n, starts)
            else Found(chain, k + n, n, starts) && forall j: nat :: j < k + n ==> !Found(chain, j, n, starts)
    decreases |chain| - i
  {
    hide Found, Run, Fresh;
    if i >= |chain| {
      PassEnd(chain, i, n, starts);
    } else {
      if starts(chain[i]) {
        PassStretch(chain, i, n, starts);
        if Stretch(chain, i, n) < n {
          ScanIsParse(chain, i + Stretch(chain, i, n) + 1, n, starts);
        }
      } else {
        PassPage(chain, i, n, starts);
        ScanIsParse(chain, i + 1, n, starts);
      }
    }
  }

  lemma PassEnd(chain: seq<nat>, i: nat, n: nat, starts: nat -> bool)
    requires i >= |chain| && Fresh(chain, i, n, starts)
    ensures forall j: nat :: !Found(chain, j, n, starts)
  {
    hide Run;
  }

  lemma PassPage(chain: seq<nat>, i: nat, n: nat, starts: nat -> bool)
    requires n > 0 && i < |chain| && Fresh(chain, i, n, starts) && !starts(chain[i])
    ensures Fresh(chain, i + 1, n, starts)
  {
  }

  /** What the scan makes of a stretch and the page after it. */
  lemma PassStretch(chain: seq<nat>, i: nat, n: nat, starts: nat -> bool)
    requires n > 0 && i < |chain| && Fresh(chain, i, n, starts) && starts(chain[i])
    ensures var m := Stretch(chain, i, n);
            if m == n then Found(chain, i + n, n, starts) && forall j: nat :: j < i + n ==> !Found(chain, j, n, starts)
            else Fresh(chain, i + m + 1, n, starts)
  {
    var m := Stretch(chain, i, n);
    forall j: nat | i < j <= i + m
      ensures Run(chain, j, starts) == j - i
    {
      RunInStretch(chain, i, n, starts, j - i);
    }
  }

  /** Lists on which a pair is overlooked: the aligned page q is only used to break the run that
      page p began, so the pair q, q + 1 is missed. Pages 2, 4, 5 make such a list. */
  lemma OverlooksBlock(p: nat, q: nat)
    requires 0 < p < U64 && p % 0x2000 == 0
    requires 0 < q < U64 - 0x1000 && q % 0x2000 == 0 && p != q
    ensures var chain := [p, q, q + 0x1000];
            Distinct(chain) && BlockAt(chain, 1, 2, Starts(1)) && !exists i: nat :: Found(chain, i, 2, Starts(1))
  {
    assert Pow2(13) == 0x2000 by { Pow2Values(); }
    StartsIff(p, 1);
    StartsIff(q, 1);
    StartsIff(q + 0x1000, 1);
    Overlooked([p, q, q + 0x1000], Starts(1));
  }

  lemma Overlooked(chain: seq<nat>, starts: nat -> bool)
    requires |chain| == 3 && starts(chain[0]) && starts(chain[1]) && !starts(chain[2])
    requires chain[1] != chain[0] + PAGE_SIZE && chain[2] == chain[1] + PAGE_SIZE
    ensures BlockAt(chain, 1, 2, starts) && !exists i: nat :: Found(chain, i, 2, starts)
  {
    assert Run(chain, 0, starts) == 0;
    assert Run(chain, 1, starts) == 1;
    assert Run(chain, 2, starts) == 0;
    assert Run(chain, 3, starts) == 0;
  }

  /** On the list that one free_pages call makes, the scan is complete. */
  lemma FreshListComplete(first: nat, count: nat, n: nat, starts: nat -> bool)
    requires n > 0
    ensures (exists i: nat :: Found(Range(first, count), i, n, starts)) <==>
            (exists s: nat :: BlockAt(Range(first, count), s, n, starts))
  {
    ScanFindsIff(Range(first, count), n, starts);
    if s: nat :| BlockAt(Range(first, count), s, n, starts) {
      var k := EarlierStart(first, count, s, n, starts);
    }
  }

  /** The same by arithmetic: alloc_pages finds a block on such a list if and only if the range contains
      one, that is, 2^order pages from a multiple of their size on. */
  lemma FreshRangeIff(first: nat, count: nat, order: nat)
    requires 0 < first && first % 4096 == 0 && first + count * 4096 <= U64 && order < 64
    ensures var bytes := Pow2(order) * 4096;
            (exists i: nat :: Found(Range(first, count), i, Pow2(order), Starts(order))) <==>
            (exists a: nat :: IsRoom(first, count, bytes, a))
  {
    hide Found, Run;
    var n, chain := Pow2(order), Range(first, count);
    FreshListComplete(first, count, n, Starts(order));
    if s: nat :| BlockAt(chain, s, n, Starts(order)) {
      BlockIsRoom(first, count, order, s);
    }
    if a: nat :| IsRoom(first, count, n * 4096, a) {
      RoomIsBlock(first, count, order, a);
    }
  }

  /** The bytes from a on are a naturally aligned block within the range of pages. */
  ghost predicate IsRoom(first: nat, count: nat, bytes: nat, a: nat) {
    bytes > 0 && a % bytes == 0 && first <= a && a + bytes <= first + count * 4096
  }

  lemma BlockIsRoom(first: nat, count: nat, order: nat, s: nat)
    requires 0 < first && first % 4096 == 0 && first + count * 4096 <= U64 && order < 64
    requires BlockAt(Range(first, count), s, Pow2(order), Starts(order))
    ensures IsRoom(first, count, Pow2(order) * 4096, first + s * 4096)
  {
    hide Found, Run, Starts;
    StartsIff(first + s * 4096, order);
    BlockBytes(order);
  }

  lemma RoomIsBlock(first: nat, count: nat, order: nat, a: nat)
    requires 0 < first && first % 4096 == 0 && first + count * 4096 <= U64 && order < 64
    requires IsRoom(first, count, Pow2(order) * 4096, a)
    ensures exists s: nat :: BlockAt(Range(first, count), s, Pow2(order), Starts(order))
  {
    BlockBytes(order);
    StartsIff(a, order);
    hide Found, Run, Starts, Pow2;
    var n := Pow2(order);
    WholePage(a, n);
    var s := (a - first) / 4096;
    PageIndex(first, a);
    assert Range(first, count)[s] == a;
    assert BlockAt(Range(first, count), s, n, Starts(order));
  }

  lemma PageIndex(first: nat, a: nat)
    requires first % 4096 == 0 && a % 4096 == 0 && first <= a
    ensures a == first + (a - first) / 4096 * 4096
  {
  }

  lemma WholePage(a: nat, n: nat)
    requires n > 0 && a % (n * 4096) == 0
    ensures a % 4096 == 0
  {
    Division(a, n * 4096);
    Regroup(a / (n * 4096), n, 0, 4096);
    DivModUnique(a, 4096, a / (n * 4096) * n, 0);
  }

  lemma EarlierStart(first: nat, count: nat, s: nat, n: nat, starts: nat -> bool) returns (k: nat)
    requires n > 0 && BlockAt(Range(first, count), s, n, starts)
    ensures BlockAt(Range(first, count), k, n, starts) && Run(Range(first, count), k, starts) == 0
  {
    var r := Run(Range(first, count), s, starts);
    k := s - r;
    RunStart(Range(first, count), s, starts);
    RunPages(Range(first, count), s, starts);
    InRange(first, count, k, n, starts);
  }

  lemma InRange(first: nat, count: nat, k: nat, n: nat, starts: nat -> bool)
    requires 0 < n && k + n <= count && starts(Range(first, count)[k])
    ensures BlockAt(Range(first, count), k, n, starts)
  {
  }

  /** A single page is found on every list that has one. */
  lemma SinglePageComplete(chain: seq<nat>)
    requires forall i :: 0 <= i < |chain| ==> IsPage(chain[i])
    ensures (exists i: nat :: Found(chain, i, 1, Starts(0))) <==> chain != []
  {
    if chain != [] {
      Pow2Values();
      StartsIff(chain[0], 0);
      assert Run(chain, 0, Starts(0)) == 0;
      assert Found(chain, 1, 1, Starts(0));
    }
  }
}
