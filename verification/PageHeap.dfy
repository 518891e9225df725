/** malloc backed by the page allocator. */
module PageHeap {
  import opened Bits
  import opened Lists
  import opened Memory
  import opened PageAlloc
  import opened PageAllocator
  import opened Heap
  import Fls

  /** Pages that a request of `size` bytes is rounded up to. */
  function PageCount(size: nat): nat
    requires size + PAGE_SIZE - 1 < U64
  {
    Align64(size, PAGE_SIZE) / PAGE_SIZE
  }

  lemma PageCountCovers(size: nat)
    requires 0 < size && size + PAGE_SIZE - 1 < U64
    ensures var n := PageCount(size); 0 < n <= 0x10_0000_0000_0000 && (n - 1) * PAGE_SIZE < size <= n * PAGE_SIZE
    ensures size % PAGE_SIZE == 0 ==> PageCount(size) * PAGE_SIZE == size
  {
    Pow2Values();
    AlignRoundsUp(size, PAGE_SIZE, 12);
    Division(Align64(size, PAGE_SIZE), PAGE_SIZE);
    Division(size, PAGE_SIZE);
  }

  /** page_memalign: the least power-of-two block of pages that holds the request. The alignment
      argument is not looked at. */
  method PageMemalign(a: Allocator, alignment: nat, size: nat) returns (p: nat, ghost at: nat, ghost order: nat)
    requires a.Valid() && size + PAGE_SIZE - 1 < U64
    modifies a, a.ram
    ensures a.Valid() && a.donated == old(a.donated)
    ensures KeptOutside(old(a.ram.words), a.ram.words, SetOf(a.chain))
    ensures size == 0 ==> p == 0
    ensures p == 0 ==> unchanged(a) && unchanged(a.ram)
    ensures size > 0 ==> order < 64 && IsLeastOrder(order, PageCount(size))
    ensures size > 0 && p == 0 ==> NoBlock(old(a.chain), order)
    ensures p != 0 ==> Took(old(a.chain), a.chain, p, at, Pow2(order), Starts(order))
    ensures p != 0 ==> a.held == old(a.held) + SetOf(old(a.chain)[at..at + Pow2(order)])
  {
    hide And, Pow2, Align64, KeptOutside, Linked, Distinct, IsPage, Took, SetOf;
    var n := PageCount(size);
    if size == 0 {
      KeptSame(a.ram.words, SetOf(a.chain));
      return 0, 0, 0;
    }
    PageCountCovers(size);
    var o := Fls.PageOrder(n);
    OrderBound(n, o);
    order := o;
    p, at := a.AllocPages(o);
  }

  /** The scan of alloc_pages completes no block of 2^order pages on this list. */
  ghost predicate NoBlock(chain: seq<nat>, order: nat) {
    forall i: nat :: !Found(chain, i, Pow2(order), Starts(order))
  }

  ghost predicate IsLeastOrder(order: nat, n: nat) {
    Pow2(order) >= n && forall j: nat :: Pow2(j) >= n ==> order <= j
  }

  lemma OrderBound(n: nat, order: nat)
    requires n <= 0x10_0000_0000_0000 && IsLeastOrder(order, n)
    ensures order < 64
  {
    Pow2Values();
  }

  /** The blocks of the page backend are as aligned as memalign asked, whatever the alignment. */
  lemma BackendAligns(alignment: nat, size: nat, p: nat, order: nat)
    requires Sane(alignment, size, PAGE_SIZE) && 0 < p
    requires p % Pow2(order + 12) == 0 && p + Pow2(order) * PAGE_SIZE <= U64
    requires Pow2(order) * PAGE_SIZE >= BlockSize(alignment, size, PAGE_SIZE)
    ensures IsBlock(alignment, size, PAGE_SIZE, p)
  {
    hide And, Pow2, Align64;
    Pow2Values();
    Sizes(alignment, size, PAGE_SIZE);
    var k := EffectiveIsPow2(alignment);
    if Effective(alignment) > PAGE_SIZE {
      AlignsLarge(alignment, size, p, order, k);
    } else {
      Pow2Divides(12, order + 12, p);
      AlignsPage(alignment, size, k);
    }
  }

  /** Up to the size of a page, aligning the payload stays within the bytes that every block has. */
  lemma AlignsPage(alignment: nat, size: nat, k: nat)
    requires Sane(alignment, size, PAGE_SIZE) && Effective(alignment) == Pow2(k) <= PAGE_SIZE
    ensures METADATA_EXTRA + Pow2(k) - 1 < BlockSize(alignment, size, PAGE_SIZE)
  {
    hide And, Pow2, Align64;
    Pow2Values();
    Sizes(alignment, size, PAGE_SIZE);
    if k >= 12 {
      Pow2Monotone(12, k);
    } else {
      Pow2Monotone(k + 1, 12);
      assert Pow2(k + 1) == 2 * Pow2(k) by { PowerStep(k); }
    }
  }

  lemma PowerStep(k: nat)
    ensures Pow2(k + 1) == 2 * Pow2(k)
  {
  }

  /** A block that holds the request is at least as long as the alignment, which adds to its size. */
  lemma AlignsLarge(alignment: nat, size: nat, p: nat, order: nat, k: nat)
    requires Sane(alignment, size, PAGE_SIZE) && Effective(alignment) == Pow2(k) > PAGE_SIZE
    requires p % Pow2(order + 12) == 0
    requires Pow2(order) * PAGE_SIZE >= BlockSize(alignment, size, PAGE_SIZE)
    ensures p % Pow2(k) == 0 && METADATA_EXTRA + Pow2(k) - 1 < Pow2(order) * PAGE_SIZE
  {
    hide And, Pow2, Align64;
    EvenBlock(alignment, size);
    BlockBytes(order);
    if k > order + 12 { Pow2Monotone(order + 12, k); }
    Pow2Divides(k, order + 12, p);
  }

  // With no payload the needed size is odd, so the block is longer by at least a byte.
  lemma EvenBlock(alignment: nat, size: nat)
    requires Sane(alignment, size, PAGE_SIZE) && Effective(alignment) > PAGE_SIZE
    ensures METADATA_EXTRA + Effective(alignment) - 1 < BlockSize(alignment, size, PAGE_SIZE)
  {
    Sizes(alignment, size, PAGE_SIZE);
    var k: nat :| alignment == Pow2(k);
    assert k > 0;
    var s := BlockSize(alignment, size, PAGE_SIZE);
    assert s == s / PAGE_SIZE * PAGE_SIZE;
    assert alignment == 2 * Pow2(k - 1);
  }

  /** The block that memalign got out of the list `was` for a request, leaving `chain`. */
  ghost predicate Acquired(was: seq<nat>, chain: seq<nat>, p: nat, at: nat, order: nat, bytes: nat)
    requires bytes + PAGE_SIZE - 1 < U64
  {
    && IsLeastOrder(order, PageCount(bytes))
    && at + Pow2(order) <= |was| && was[at..at + Pow2(order)] == Range(p, Pow2(order))
    && chain == was[..at] + was[at + Pow2(order)..]
  }

  /** No word outside the bytes from lo to hi was written. */
  ghost predicate KeptOutsideBytes(was: map<nat, nat>, words: map<nat, nat>, lo: nat, hi: nat) {
    forall a :: a in was && !(lo <= a < hi) ==> a in words && words[a] == was[a]
  }

  lemma PageOfBlock(x: nat, p: nat, n: nat)
    requires x % PAGE_SIZE == 0 && p % PAGE_SIZE == 0
    ensures p <= x < p + n * PAGE_SIZE ==> x in SetOf(Range(p, n))
  {
    if p <= x < p + n * PAGE_SIZE {
      assert Range(p, n)[(x - p) / PAGE_SIZE] == x;
    }
  }

  /** What is written inside a block that clients hold does not touch the links of the free list. */
  lemma LinksKept(head: nat, was: map<nat, nat>, words: map<nat, nat>, chain: seq<nat>, p: nat, n: nat)
    requires Linked(head, was, chain) && KeptOutsideBytes(was, words, p, p + n * PAGE_SIZE)
    requires forall i :: 0 <= i < |chain| ==> IsPage(chain[i])
    requires p % PAGE_SIZE == 0 && SetOf(Range(p, n)) !! SetOf(chain)
    ensures Linked(head, words, chain)
  {
    forall i | 0 <= i < |chain|
      ensures !(p <= chain[i] < p + n * PAGE_SIZE)
    {
      assert chain[i] in SetOf(chain);
      PageOfBlock(chain[i], p, n);
    }
  }

  lemma MetadataInBlock(was: map<nat, nat>, words: map<nat, nat>, mem: nat, p: nat, hi: nat)
    requires p + METADATA_EXTRA <= mem <= hi && KeptOutside(was, words, {mem - METADATA_EXTRA, mem - WORD})
    ensures KeptOutsideBytes(was, words, p, hi)
  {
  }

  /** memalign with the page backend; a request that the backend cannot serve ends in p == 0. */
  method Acquire(a: Allocator, alignment: nat, size: nat)
    returns (mem: nat, ghost p: nat, ghost at: nat, ghost order: nat)
    requires a.Valid() && Sane(alignment, size, PAGE_SIZE)
    requires BlockSize(alignment, size, PAGE_SIZE) + PAGE_SIZE - 1 < U64
    modifies a, a.ram
    ensures a.Valid() && a.donated == old(a.donated)
    ensures p == 0 ==> mem == 0 && unchanged(a) && unchanged(a.ram)
    ensures IsLeastOrder(order, PageCount(BlockSize(alignment, size, PAGE_SIZE)))
    ensures p == 0 ==> NoBlock(old(a.chain), order)
    ensures p != 0 ==> Acquired(old(a.chain), a.chain, p, at, order, BlockSize(alignment, size, PAGE_SIZE))
    ensures p != 0 ==> a.held == old(a.held) + SetOf(Range(p, Pow2(order)))
    ensures p != 0 ==>
      mem % Effective(alignment) == 0 && p + METADATA_EXTRA <= mem && mem + size <= p + Pow2(order) * PAGE_SIZE
    ensures p != 0 ==>
      && Slack(a.ram.words, mem) == mem - p
      && SizeWord(a.ram.words, mem) == BlockSize(alignment, size, PAGE_SIZE)
    ensures p != 0 ==> KeptElsewhere(old(a.ram.words), a.ram.words, a.chain, p, Pow2(order))
  {
    hide Linked, KeptOutside, KeptOutsideBytes, Align64, And, Pow2;
    var blkalign, blksize := BlockAlign(alignment, PAGE_SIZE), BlockSize(alignment, size, PAGE_SIZE);
    Sizes(alignment, size, PAGE_SIZE);
    PageCountCovers(blksize);
    var block;
    block, at, order := PageMemalign(a, blkalign, blksize);
    p := block;
    if block == 0 {
      return 0, p, at, order;
    }
    ghost var words := a.ram.words;
    TookBlock(old(a.chain), a.chain, p, at, order);
    BlockFits(old(a.chain), p, at, order);
    BackendAligns(alignment, size, block, order);
    SplitOff(old(a.chain), at, Pow2(order));
    mem := Memalign(a.ram, alignment, size, PAGE_SIZE, block);
    MetadataInBlock(words, a.ram.words, mem, p, p + Pow2(order) * PAGE_SIZE);
    LinksKept(a.freelist, words, a.ram.words, a.chain, p, Pow2(order));
    KeptBoth(old(a.ram.words), words, a.ram.words, a.chain, p, Pow2(order));
  }

  /** Words of other blocks are as they were: only links of free pages and words inside the block of n
      pages at p have been written. */
  ghost predicate KeptElsewhere(was: map<nat, nat>, words: map<nat, nat>, chain: seq<nat>, p: nat, n: nat) {
    forall a :: a in was && a !in SetOf(chain) && !(p <= a < p + n * PAGE_SIZE) ==> a in words && words[a] == was[a]
  }

  lemma KeptBoth(w0: map<nat, nat>, w1: map<nat, nat>, w2: map<nat, nat>, chain: seq<nat>, p: nat, n: nat)
    requires KeptOutside(w0, w1, SetOf(chain)) && KeptOutsideBytes(w1, w2, p, p + n * PAGE_SIZE)
    ensures KeptElsewhere(w0, w2, chain, p, n)
  {
  }

  /** Use of the payload at mem, which lies in a block of n pages at p that clients hold. */
  method UseBlock(a: Allocator, mem: nat, size: nat, use: seq<map<nat, nat>>, ghost p: nat, ghost n: nat)
    requires a.Valid() && InPayload(use, size) && p % PAGE_SIZE == 0 && SetOf(Range(p, n)) !! SetOf(a.chain)
    requires p + METADATA_EXTRA <= mem && mem + size <= p + n * PAGE_SIZE
    requires 0 < Slack(a.ram.words, mem) && 0 < SizeWord(a.ram.words, mem)
    modifies a.ram
    ensures a.Valid() && KeptOutsideBytes(old(a.ram.words), a.ram.words, p, p + n * PAGE_SIZE)
    ensures Slack(a.ram.words, mem) == old(Slack(a.ram.words, mem))
    ensures SizeWord(a.ram.words, mem) == old(SizeWord(a.ram.words, mem))
  {
    hide Linked;
    UsePayload(a.ram, mem, size, use);
    PayloadInBlock(old(a.ram.words), a.ram.words, mem, size, p, p + n * PAGE_SIZE);
    LinksKept(a.freelist, old(a.ram.words), a.ram.words, a.chain, p, n);
  }

  /** free with the page backend: the pages from p on that the size word tells of go back to the list. */
  method Release(a: Allocator, mem: nat, ghost p: nat, ghost n: nat)
    requires a.Valid() && p + METADATA_EXTRA <= mem
    requires Slack(a.ram.words, mem) == mem - p && SizeWord(a.ram.words, mem) == n * PAGE_SIZE
    requires 0 < n && 0 < p && p % PAGE_SIZE == 0 && p + n * PAGE_SIZE <= U64
    requires SetOf(Range(p, n)) !! SetOf(a.chain)
    modifies a, a.ram
    ensures a.Valid() && a.chain == Range(p, n) + old(a.chain)
    ensures a.held == old(a.held) - SetOf(Range(p, n)) && a.donated == old(a.donated) + SetOf(Range(p, n))
    ensures KeptOutside(old(a.ram.words), a.ram.words, SetOf(Range(p, n)))
  {
    hide Linked, KeptOutside, Distinct;
    var base, bytes := Free(a.ram, mem);
    assert bytes / PAGE_SIZE == n && bytes % PAGE_SIZE == 0;
    a.FreePages(base, bytes);
  }

  /** One memalign, any use of the payload, and one free. The block leaves the list as 2^order pages, of
      which free gives back only the first n, in front of the list; the other pages stay with nobody.
      Everything is given back if and only if n is a power of two. */
  method AllocFreeCycle(a: Allocator, alignment: nat, size: nat, use: seq<map<nat, nat>>)
    returns (ghost p: nat, ghost at: nat, ghost order: nat, ok: bool)
    requires a.Valid() && Sane(alignment, size, PAGE_SIZE) && InPayload(use, size)
    requires BlockSize(alignment, size, PAGE_SIZE) + PAGE_SIZE - 1 < U64
    modifies a, a.ram
    ensures a.Valid() && a.donated == old(a.donated)
    ensures IsLeastOrder(order, PageCount(BlockSize(alignment, size, PAGE_SIZE)))
    ensures !ok ==> unchanged(a) && unchanged(a.ram) && NoBlock(old(a.chain), order)
    ensures ok ==>
      var n, block := PageCount(BlockSize(alignment, size, PAGE_SIZE)), Range(p, Pow2(order));
      var was := old(a.chain);
      && n <= Pow2(order) && at + Pow2(order) <= |was|
      && was[at..at + Pow2(order)] == block
      && a.chain == block[..n] + (was[..at] + was[at + Pow2(order)..])
      && a.held == old(a.held) + SetOf(block[n..])
    ensures ok ==>
      (a.held == old(a.held) <==> IsPow2(PageCount(BlockSize(alignment, size, PAGE_SIZE))))
    ensures ok ==> KeptElsewhere(old(a.ram.words), a.ram.words, old(a.chain), p, Pow2(order))
  {
    hide And, Pow2, Distinct, Linked, IsPage, Align64, KeptOutside, KeptOutsideBytes, KeptElsewhere, IsPow2;
    hide SetOf, Slack, SizeWord, PageCount, BlockSize, NoBlock;
    var mem;
    mem, p, at, order := Acquire(a, alignment, size);
    if mem == 0 {
      return p, at, order, false;
    }
    ghost var w1, chain1 := a.ram.words, a.chain;
    Sizes(alignment, size, PAGE_SIZE);
    PageCountCovers(BlockSize(alignment, size, PAGE_SIZE));
    BlockFits(old(a.chain), p, at, order);
    ghost var n := PageCount(BlockSize(alignment, size, PAGE_SIZE));
    CycleSets(old(a.chain), old(a.held), a.held, p, at, order, n);
    UseBlock(a, mem, size, use, p, Pow2(order));
    ghost var w2 := a.ram.words;
    Release(a, mem, p, n);
    KeptThrough(old(a.ram.words), w1, w2, a.ram.words, old(a.chain), chain1, p, at, order, n);
    LeftOver(old(a.chain), old(a.held), p, at, order, n);
    ok := true;
  }

  lemma PayloadInBlock(was: map<nat, nat>, words: map<nat, nat>, mem: nat, size: nat, p: nat, hi: nat)
    requires p <= mem && mem + size <= hi
    requires forall a :: a in was && !(mem <= a && a + WORD <= mem + size) ==> a in words && words[a] == was[a]
    ensures KeptOutsideBytes(was, words, p, hi)
  {
  }

  lemma KeptThrough(w0: map<nat, nat>, w1: map<nat, nat>, w2: map<nat, nat>, w3: map<nat, nat>, was: seq<nat>,
                    chain: seq<nat>, p: nat, at: nat, order: nat, n: nat)
    requires at + Pow2(order) <= |was| && chain == was[..at] + was[at + Pow2(order)..] && n <= Pow2(order)
    requires KeptElsewhere(w0, w1, chain, p, Pow2(order))
    requires KeptOutsideBytes(w1, w2, p, p + Pow2(order) * PAGE_SIZE)
    requires KeptOutside(w2, w3, SetOf(Range(p, n)))
    ensures KeptElsewhere(w0, w3, was, p, Pow2(order))
  {
    assert SetOf(chain) <= SetOf(was);
    forall x | x in SetOf(Range(p, n))
      ensures p <= x < p + Pow2(order) * PAGE_SIZE
    {
      var i :| 0 <= i < n && Range(p, n)[i] == x;
    }
  }

  /** A cycle keeps no pages exactly if the pages needed are a power of two. */
  lemma LeftOver(was: seq<nat>, held: set<nat>, p: nat, at: nat, order: nat, n: nat)
    requires IsLeastOrder(order, n) && n <= Pow2(order) && held !! SetOf(was)
    requires at + Pow2(order) <= |was| && was[at..at + Pow2(order)] == Range(p, Pow2(order))
    ensures held + SetOf(Range(p, Pow2(order))[n..]) == held <==> IsPow2(n)
  {
    var m := Pow2(order);
    var rest := Range(p, m)[n..];
    if n < m {
      assert rest[0] == was[at..at + m][n] == was[at + n];
      assert was[at + n] in SetOf(was);
      assert rest[0] in SetOf(rest) && rest[0] !in held;
      if k: nat :| n == Pow2(k) {
        Pow2Monotone(order, k);
      }
    } else {
      assert rest == [];
    }
  }

  /** A request whose block is three pages long: of the four pages taken it gives three back. */
  lemma LosesPage()
    ensures var s := BlockSize(8, 8192, PAGE_SIZE);
            Sane(8, 8192, PAGE_SIZE) && s == 3 * PAGE_SIZE && PageCount(s) == 3
    ensures IsLeastOrder(2, 3) && Pow2(2) == 4 && !IsPow2(3)
  {
    hide Align64, Pow2;
    Pow2Values();
    assert PAGE_SIZE == Pow2(12);
    Sizes(8, 8192, PAGE_SIZE);
    PageCountCovers(BlockSize(8, 8192, PAGE_SIZE));
    ThreeNeedsFour();
  }

  lemma ThreeNeedsFour()
    ensures IsLeastOrder(2, 3) && Pow2(2) == 4 && !IsPow2(3)
  {
    assert Pow2(0) == 1 && Pow2(1) == 2 && Pow2(2) == 4;
    forall j: nat
      ensures Pow2(j) != 3 && (Pow2(j) >= 3 ==> 2 <= j)
    {
      if j > 2 { Pow2Monotone(2, j); }
    }
  }

  lemma BlockFits(was: seq<nat>, p: nat, at: nat, order: nat)
    requires forall i :: 0 <= i < |was| ==> IsPage(was[i])
    requires at + Pow2(order) <= |was| && was[at..at + Pow2(order)] == Range(p, Pow2(order))
    ensures p % PAGE_SIZE == 0 && 0 < p && p + Pow2(order) * PAGE_SIZE <= U64
  {
    var n := Pow2(order);
    assert was[at..at + n][n - 1] == Range(p, n)[n - 1];
    assert was[at..at + n][0] == Range(p, n)[0];
    assert IsPage(was[at]) && IsPage(was[at + n - 1]);
  }

  lemma CycleSets(was: seq<nat>, held0: set<nat>, held: set<nat>, p: nat, at: nat, order: nat, n: nat)
    requires Distinct(was) && held0 !! SetOf(was) && at + Pow2(order) <= |was| && n <= Pow2(order)
    requires was[at..at + Pow2(order)] == Range(p, Pow2(order)) && held == held0 + SetOf(Range(p, Pow2(order)))
    ensures Range(p, n) == Range(p, Pow2(order))[..n]
    ensures SetOf(Range(p, n)) !! SetOf(was[..at] + was[at + Pow2(order)..])
    ensures SetOf(Range(p, Pow2(order))) !! SetOf(was[..at] + was[at + Pow2(order)..])
    ensures held - SetOf(Range(p, n)) == held0 + SetOf(Range(p, Pow2(order))[n..])
    ensures SetOf(Range(p, n)) <= held
  {
    var m := Pow2(order);
    var block := Range(p, m);
    SplitOff(was, at, m);
    assert Range(p, n) == block[..n];
    assert block == block[..n] + block[n..];
    Prepended(block[..n], block[n..]);
    assert SetOf(block) <= SetOf(was);
    assert SetOf(block[..n]) !! SetOf(block[n..]) by {
      forall i, j | 0 <= i < n && n <= j < m
        ensures block[i] != block[j]
      {
      }
    }
  }
}
