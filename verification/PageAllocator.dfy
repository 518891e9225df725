/** The allocator object: a global list head and the links stored in the free pages themselves. */
module PageAllocator {
  import opened Bits
  import opened Lists
  import opened Memory
  import opened PageAlloc

  class Allocator {
    var freelist: nat                 // NULL is 0
    const ram: Ram                    // a free page's first word is its link
    ghost var chain: seq<nat>         // the free pages, in list order
    ghost var held: set<nat>          // pages that clients hold
    ghost var donated: set<nat>       // all pages ever donated and not dropped

    ghost predicate Valid()
      reads this, ram
    {
      && Linked(freelist, ram.words, chain)
      && Distinct(chain)
      && (forall i :: 0 <= i < |chain| ==> IsPage(chain[i]))
      && held !! SetOf(chain)
      && donated == held + SetOf(chain)
    }

    constructor (ram: Ram)
      ensures Valid() && this.ram == ram && chain == [] && held == {} && donated == {}
    {
      freelist := 0;
      this.ram := ram;
      chain, held, donated := [], {}, {};
    }

    /** Donate `size` bytes at `start`; with size 0 the whole list is dropped instead. */
    method FreePages(start: nat, size: nat)
      requires Valid()
      requires start % PAGE_SIZE == 0 && size % PAGE_SIZE == 0
      requires size > 0 ==> 0 < start && start + size <= U64
      requires SetOf(Range(start, size / PAGE_SIZE)) !! SetOf(chain)
      modifies this, ram
      ensures Valid()
      ensures KeptOutside(old(ram.words), ram.words, SetOf(Range(start, size / PAGE_SIZE)))
      ensures size > 0 ==> chain == Range(start, size / PAGE_SIZE) + old(chain)
      ensures size > 0 ==> donated == old(donated) + SetOf(Range(start, size / PAGE_SIZE))
      ensures size > 0 ==> held == old(held) - SetOf(Range(start, size / PAGE_SIZE))
      ensures size == 0 ==> chain == [] && held == old(held) && donated == old(held)
    {
      if size == 0 {
        freelist := 0;
        chain, donated := [], held;
        return;
      }
      ghost var range := Range(start, size / PAGE_SIZE);
      RangePages(start, size / PAGE_SIZE);
      var oldFreelist := freelist;
      freelist := start;
      Thread(start, (start + size) % U64, oldFreelist, size / PAGE_SIZE);
      Donated(range, chain, oldFreelist, old(ram.words), ram.words);
      chain := range + chain;
      held := held - SetOf(range);
      donated := donated + SetOf(range);
    }

    /** The loop of free_pages: thread the pages from `start` up to `end` onto one another, and the
        last one onto `tail`. */
    method Thread(start: nat, end: nat, tail: nat, ghost n: nat)
      requires 0 < start && start % PAGE_SIZE == 0 && 0 < n
      requires start + n * PAGE_SIZE <= U64 && end == (start + n * PAGE_SIZE) % U64
      modifies ram
      ensures Threaded(Range(start, n), tail, ram.words)
      ensures KeptOutside(old(ram.words), ram.words, SetOf(Range(start, n)))
    {
      hide KeptOutside, SetOf;
      ghost var range := Range(start, n);
      var page := start;
      ghost var i: nat := 0;
      RangeMembers(start, n);
      KeptSame(ram.words, SetOf(range));
      NotYetEnd(start, n, 0);
      while (page + PAGE_SIZE) % U64 != end
        invariant i < n && page == range[i] == start + i * PAGE_SIZE
        invariant (page + PAGE_SIZE) % U64 == end <==> i + 1 == n
        invariant forall j :: 0 <= j < i ==>
                    range[j] in ram.words && ram.words[range[j]] == range[j] + PAGE_SIZE
        invariant KeptOutside(old(ram.words), ram.words, SetOf(range))
        decreases n - i
      {
        KeptStep(old(ram.words), ram.words, SetOf(range), page, page + PAGE_SIZE);
        ram.words := ram.words[page := page + PAGE_SIZE];
        page := page + PAGE_SIZE;
        i := i + 1;
        NotYetEnd(start, n, i);
      }
      KeptStep(old(ram.words), ram.words, SetOf(range), page, tail);
      ram.words := ram.words[page := tail];
    }

    method AllocPage() returns (p: nat)
      requires Valid()
      modifies this
      ensures Valid() && donated == old(donated)
      ensures old(chain) == [] ==> p == 0 && unchanged(this)
      ensures old(chain) != [] ==>
        p == old(chain)[0] && chain == old(chain)[1..] && held == old(held) + {p}
    {
      if freelist == 0 {
        return 0;
      }
      p := freelist;
      freelist := ram.words[freelist];
      SplitOff(chain, 0, 1);
      chain, held := chain[1..], held + {p};
    }

    method FreePage(page: nat)
      requires Valid() && IsPage(page) && page !in SetOf(chain)
      modifies this, ram
      ensures Valid() && chain == [page] + old(chain)
      ensures KeptOutside(old(ram.words), ram.words, {page})
      ensures held == old(held) - {page} && donated == old(donated) + {page}
    {
      ram.words := ram.words[page := freelist];
      freelist := page;
      assert SetOf([page]) == {page};
      Donated([page], chain, old(freelist), old(ram.words), ram.words);
      chain, held, donated := [page] + chain, held - {page}, donated + {page};
    }

    /** Take the first run of 2^order naturally aligned pages that the scan completes off the list;
        `at` is its index. NULL if there is none. */
    method AllocPages(order: nat) returns (p: nat, ghost at: nat)
      requires Valid() && order < 64
      modifies this, ram
      ensures Valid() && donated == old(donated)
      ensures KeptOutside(old(ram.words), ram.words, SetOf(chain))
      ensures p == 0 ==>
        unchanged(this) && unchanged(ram) && forall i: nat :: !Found(old(chain), i, Pow2(order), Starts(order))
      ensures p != 0 ==> Took(old(chain), chain, p, at, Pow2(order), Starts(order))
      ensures p != 0 ==> held == old(held) + SetOf(old(chain)[at..at + Pow2(order)])
      ensures Parse(old(chain), 0, Pow2(order), Starts(order)) == if p == 0 then -1 else at
    {
      hide Found, Parse, FirstFound, Starts, Pow2, KeptOutside, SetOf;
      var runPrev, next;
      p, runPrev, next, at := FindRun(order);
      ParseGives(chain, Pow2(order), Starts(order), p != 0, at);
      if p == 0 {
        KeptSame(ram.words, SetOf(chain));
      } else {
        Unlink(runPrev, next, at, Pow2(order));
      }
    }

    /** The list traversal of alloc_pages: the first page of the run it completes, the page before
        that run and the page after it. */
    method FindRun(order: nat) returns (runStart: nat, runPrev: nat, next: nat, ghost at: nat)
      requires Valid() && order < 64
      ensures runStart == 0 ==> forall i: nat :: !Found(chain, i, Pow2(order), Starts(order))
      ensures runStart != 0 ==>
        && at + Pow2(order) <= |chain|
        && FirstFound(chain, at + Pow2(order), Pow2(order), Starts(order))
        && runStart == chain[at] && runPrev == Before(chain, at) && next == From(chain, at + Pow2(order))
    {
      hide Found, Run, NoneFound, FirstFound, Describes, Starts, Distinct, SetOf;
      var prev, curr := 0, 0;
      next := freelist;
      var run := Progress(0, 0, 0, 0);
      var n, alignMask := Pow2(order), AlignMask(order);
      ghost var i: nat := 0;
      ghost var starts := Starts(order);
      ScanStart(chain, n, starts);
      while true
        invariant i <= |chain| && curr == Before(chain, i) && next == From(chain, i)
        invariant NoneFound(chain, i, n, starts)
        invariant run.length < n && Describes(run, chain, i, starts)
        decreases |chain| - i
      {
        prev := curr;
        curr := next;
        if curr == 0 {
          NothingFound(chain, i, n, starts);
          return 0, 0, 0, 0;
        }
        next := ram.words[curr];
        var aligned := PassesMask(curr, alignMask, order);
        ScanStep(chain, i, n, starts, run, aligned);
        run := run.Advance(prev, curr, aligned);
        i := i + 1;
        if run.length == n {
          RunEnds(chain, i, n, starts, run);
          return run.start, run.prev, next, i - n;
        }
      }
    }

    /** The test !(pa & align_mask). */
    static method PassesMask(pa: nat, mask: nat, ghost order: nat) returns (ok: bool)
      requires mask == AlignMask(order)
      ensures ok == Starts(order)(pa)
    {
      ok := And(pa, mask) == 0;
    }

    /** Take n pages out of the list, given the pages before and after them. */
    method Unlink(runPrev: nat, next: nat, ghost at: nat, ghost n: nat)
      requires Valid() && 0 < n && at + n <= |chain|
      requires runPrev == Before(chain, at) && next == From(chain, at + n)
      modifies this, ram
      ensures Valid() && donated == old(donated)
      ensures KeptOutside(old(ram.words), ram.words, SetOf(chain))
      ensures chain == old(chain)[..at] + old(chain)[at + n..]
      ensures held == old(held) + SetOf(old(chain)[at..at + n])
    {
      if runPrev != 0 {
        ram.words := ram.words[runPrev := next];
      } else {
        freelist := next;
      }
      SplitOff(chain, at, n);
      Unlinked(old(freelist), freelist, old(ram.words), ram.words, chain, at, n);
      held := held + SetOf(chain[at..at + n]);
      chain := chain[..at] + chain[at + n..];
    }
  }

  ghost predicate NoneFound(chain: seq<nat>, i: nat, n: nat, starts: nat -> bool) {
    forall j: nat :: j <= i ==> !Found(chain, j, n, starts)
  }

  /** The scan completes its first block with page i - 1. */
  ghost predicate FirstFound(chain: seq<nat>, i: nat, n: nat, starts: nat -> bool) {
    0 < i && Found(chain, i, n, starts) && NoneFound(chain, i - 1, n, starts)
  }

  /** The parse gives the block that the scan takes. */
  lemma ParseGives(chain: seq<nat>, n: nat, starts: nat -> bool, took: bool, at: nat)
    requires n > 0
    requires if took then FirstFound(chain, at + n, n, starts) else forall i: nat :: !Found(chain, i, n, starts)
    ensures Parse(chain, 0, n, starts) == if took then at else -1
  {
    ScanIsParse(chain, 0, n, starts);
    hide Found, Parse;
    ParseRange(chain, 0, n, starts);
    var k := Parse(chain, 0, n, starts);
    if k >= 0 && took {
      assert Found(chain, k + n, n, starts) && Found(chain, at + n, n, starts);
    }
  }

  /** What alloc_pages keeps about the run it is looking at: its length, its first page, the page
      before that one in the list, and the address that would extend it. */
  datatype Progress = Progress(length: nat, start: nat, prev: nat, nextPa: nat) {
    function Advance(before: nat, pa: nat, aligned: bool): Progress {
      if length == 0 then
        if aligned then Progress(1, pa, before, pa + PAGE_SIZE) else this
      else if pa == nextPa then this.(length := length + 1, nextPa := nextPa + PAGE_SIZE)
      else this.(length := 0)
    }
  }

  ghost predicate Describes(run: Progress, chain: seq<nat>, i: nat, starts: nat -> bool) {
    var r := run.length;
    i <= |chain| && r == Run(chain, i, starts) &&
    (r > 0 ==>
       run.start == chain[i - r] && run.prev == Before(chain, i - r) && run.nextPa == run.start + r * PAGE_SIZE)
  }

  lemma ScanStart(chain: seq<nat>, n: nat, starts: nat -> bool)
    requires n > 0
    ensures NoneFound(chain, 0, n, starts) && Describes(Progress(0, 0, 0, 0), chain, 0, starts)
  {
  }

  lemma RunEnds(chain: seq<nat>, i: nat, n: nat, starts: nat -> bool, run: Progress)
    requires n > 0 && FirstFound(chain, i, n, starts) && Describes(run, chain, i, starts)
    ensures n <= i <= |chain| && run.start == chain[i - n] && run.prev == Before(chain, i - n)
  {
  }

  lemma NothingFound(chain: seq<nat>, i: nat, n: nat, starts: nat -> bool)
    requires i == |chain| && NoneFound(chain, i, n, starts)
    ensures forall j: nat :: !Found(chain, j, n, starts)
  {
  }

  /** One more page of the scan. */
  lemma ScanStep(chain: seq<nat>, i: nat, n: nat, starts: nat -> bool, run: Progress, aligned: bool)
    requires i < |chain| && NoneFound(chain, i, n, starts)
    requires Describes(run, chain, i, starts) && aligned == starts(chain[i])
    ensures var run' := run.Advance(Before(chain, i), chain[i], aligned);
            Describes(run', chain, i + 1, starts) && run'.length <= run.length + 1 &&
            if run'.length == n then FirstFound(chain, i + 1, n, starts) else NoneFound(chain, i + 1, n, starts)
  {
  }

  /** The page before index i of the list, NULL at its front. */
  ghost function Before(chain: seq<nat>, i: nat): nat
    requires i <= |chain|
  {
    if i == 0 then 0 else chain[i - 1]
  }

  /** The page at index i of the list, NULL past its end. */
  ghost function From(chain: seq<nat>, i: nat): nat {
    if i < |chain| then chain[i] else 0
  }

  /** p is the block at index `at`, the first one the scan completes, and the list has lost exactly
      the pages of that block. */
  ghost predicate Took(was: seq<nat>, chain: seq<nat>, p: nat, at: nat, n: nat, starts: nat -> bool)
    requires n > 0
  {
    && at + n <= |was|
    && FirstFound(was, at + n, n, starts)
    && p == was[at]
    && chain == was[..at] + was[at + n..]
  }

  /** What AllocPages hands out: a naturally aligned block of consecutive pages. */
  lemma TookBlock(was: seq<nat>, chain: seq<nat>, p: nat, at: nat, order: nat)
    requires order < 64 && forall i :: 0 <= i < |was| ==> IsPage(was[i])
    requires Took(was, chain, p, at, Pow2(order), Starts(order))
    ensures p % Pow2(order + 12) == 0
    ensures was[at..at + Pow2(order)] == Range(p, Pow2(order))
  {
    BlockIsRange(was, at, Pow2(order), Starts(order));
    StartsIff(p, order);
  }

  lemma BlockIsRange(was: seq<nat>, at: nat, n: nat, starts: nat -> bool)
    requires n > 0 && at + n <= |was| && FirstFound(was, at + n, n, starts)
    ensures starts(was[at]) && was[at..at + n] == Range(was[at], n)
  {
    RunIsBlock(was, at + n, n, starts);
  }

  lemma Unlinked(head: nat, head': nat, mem: map<nat, nat>, mem': map<nat, nat>, chain: seq<nat>, s: nat, n: nat)
    requires Linked(head, mem, chain) && Distinct(chain) && s + n <= |chain| && n > 0
    requires s == 0 ==> head' == From(chain, n) && mem' == mem
    requires s > 0 ==> head' == head && mem' == mem[chain[s - 1] := From(chain, s + n)]
    ensures Linked(head', mem', chain[..s] + chain[s + n..])
  {
  }

  lemma NotYetEnd(start: nat, n: nat, i: nat)
    requires 0 < start && start + n * PAGE_SIZE <= U64 && i < n
    ensures (start + i * PAGE_SIZE + PAGE_SIZE) % U64 == (start + n * PAGE_SIZE) % U64 <==> i + 1 == n
  {
    var a, b := start + i * PAGE_SIZE + PAGE_SIZE, start + n * PAGE_SIZE;
    if i + 1 < n {
      NoWrap(a);
      if b < U64 { NoWrap(b); }
    }
  }

  lemma RangeMembers(start: nat, n: nat)
    ensures forall i :: 0 <= i < n ==> Range(start, n)[i] in SetOf(Range(start, n))
  {
  }

  lemma RangePages(start: nat, n: nat)
    requires 0 < start && start % PAGE_SIZE == 0 && start + n * PAGE_SIZE <= U64
    ensures Distinct(Range(start, n))
    ensures forall i :: 0 <= i < n ==> IsPage(Range(start, n)[i])
  {
  }

  lemma Prepended(a: seq<nat>, b: seq<nat>)
    ensures SetOf(a + b) == SetOf(a) + SetOf(b)
    ensures Distinct(a) && Distinct(b) && SetOf(a) !! SetOf(b) ==> Distinct(a + b)
  {
    forall x
      ensures x in a + b <==> x in a || x in b
    {
    }
    if SetOf(a) !! SetOf(b) {
      forall i, j | 0 <= i < |a| && 0 <= j < |b|
        ensures a[i] != b[j]
      {
        assert a[i] in SetOf(a) && b[j] in SetOf(b);
      }
    }
  }

  /** Pages threaded onto the old head extend the list at its front. */
  lemma Donated(a: seq<nat>, b: seq<nat>, head: nat, mem: map<nat, nat>, mem': map<nat, nat>)
    requires a != [] && Distinct(a) && Distinct(b) && SetOf(a) !! SetOf(b) && Linked(head, mem, b)
    requires Threaded(a, head, mem')
    requires KeptOutside(mem, mem', SetOf(a))
    ensures Linked(a[0], mem', a + b) && Distinct(a + b) && SetOf(a + b) == SetOf(a) + SetOf(b)
  {
    Prepended(a, b);
    forall k | 0 <= k < |b|
      ensures b[k] in mem' && mem'[b[k]] == mem[b[k]]
    {
      assert b[k] in SetOf(b);
      assert b[k] !in SetOf(a);
    }
  }

  /** Cutting n elements out of a list without duplicates. */
  lemma SplitOff(chain: seq<nat>, s: nat, n: nat)
    requires Distinct(chain) && s + n <= |chain|
    ensures var rest := chain[..s] + chain[s + n..];
            Distinct(rest) && SetOf(rest) !! SetOf(chain[s..s + n]) &&
            SetOf(rest) + SetOf(chain[s..s + n]) == SetOf(chain)
  {
    var cut, rest := chain[s..s + n], chain[..s] + chain[s + n..];
    forall x | x in chain
      ensures x in rest || x in cut
    {
      var i :| 0 <= i < |chain| && chain[i] == x;
      if i < s {
        assert rest[i] == x;
      } else if i < s + n {
        assert cut[i - s] == x;
      } else {
        assert rest[i - n] == x;
      }
    }
    forall i | 0 <= i < |rest|
      ensures rest[i] == chain[if i < s then i else i + n]
    {
    }
  }
}
