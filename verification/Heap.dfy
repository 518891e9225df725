/** malloc on top of a block allocator: memalign hides where the block began and how long it is in
    the two words before the pointer it returns, and free reads them back. */
module Heap {
  import opened Bits
  import opened Memory

  const WORD: nat := 8
  const METADATA_EXTRA: nat := 16

  /** memalign never works with an alignment below that of a word. */
  function Effective(alignment: nat): nat {
    if alignment <= WORD then WORD else alignment
  }

  /** Bytes needed before rounding: payload, slack for aligning it, and metadata. */
  function Needed(alignment: nat, size: nat): nat {
    (if alignment <= WORD then size else size + (alignment - 1)) + METADATA_EXTRA
  }

  /** The alignment memalign asks of the backend. */
  function BlockAlign(alignment: nat, alignMin: nat): nat {
    if Effective(alignment) > alignMin then Effective(alignment) else alignMin
  }

  /** The size memalign asks of the backend. */
  function BlockSize(alignment: nat, size: nat, alignMin: nat): nat
    requires 0 < alignMin <= U64
  {
    Align64(Needed(alignment, size), alignMin)
  }

  ghost predicate Sane(alignment: nat, size: nat, alignMin: nat) {
    && (alignment > WORD ==> IsPow2(alignment))
    && IsPow2(alignMin)
    && Needed(alignment, size) + alignMin - 1 < U64
  }

  lemma Sizes(alignment: nat, size: nat, alignMin: nat)
    requires Sane(alignment, size, alignMin)
    ensures 0 < alignMin <= U64
    ensures var s := BlockSize(alignment, size, alignMin);
            s % alignMin == 0 && Needed(alignment, size) <= s < Needed(alignment, size) + alignMin
  {
    var k: nat :| alignMin == Pow2(k);
    Exponent(k);
    AlignRoundsUp(Needed(alignment, size), alignMin, k);
  }

  // A power of two that fits in 64 bits has an exponent below 64.
  lemma Exponent(k: nat)
    ensures Pow2(k) < U64 ==> k < 64
  {
    Pow2Values();
    if k >= 64 { Pow2Monotone(64, k); }
  }

  lemma EffectiveIsPow2(alignment: nat) returns (k: nat)
    requires alignment > WORD ==> IsPow2(alignment)
    ensures Effective(alignment) == Pow2(k)
    ensures k >= 3
  {
    Pow2Values();
    if alignment <= WORD {
      k := 3;
    } else {
      k :| alignment == Pow2(k);
      if k < 3 { Pow2Monotone(k, 3); }
    }
  }

  /** Powers of two divide the larger ones. */
  lemma Pow2Divides(j: nat, k: nat, x: nat)
    requires j <= k && x % Pow2(k) == 0
    ensures x % Pow2(j) == 0
  {
    Pow2Add(k - j, j);
    Division(x, Pow2(k));
    var q := x / Pow2(k);
    Regroup(q, Pow2(k - j), 0, Pow2(j));
    DivModUnique(x, Pow2(j), q * Pow2(k - j), 0);
  }

  lemma BlockIsWordAligned(alignment: nat, alignMin: nat, p: nat)
    requires alignment > WORD ==> IsPow2(alignment)
    requires IsPow2(alignMin) && p % BlockAlign(alignment, alignMin) == 0
    ensures p % WORD == 0
  {
    var k := EffectiveIsPow2(alignment);
    var m: nat :| alignMin == Pow2(m);
    Pow2Values();
    if Effective(alignment) > alignMin {
      Pow2Divides(3, k, p);
    } else {
      if m < 3 { Pow2Monotone(m + 1, k); }
      Pow2Divides(3, m, p);
    }
  }

  /** Where memalign puts the payload in a block at p: room for the metadata first, then ALIGN. */
  function Payload(alignment: nat, p: nat): nat
    requires Effective(alignment) <= U64
  {
    Align64(p + METADATA_EXTRA, Effective(alignment))
  }

  /** p is a non-NULL block as memalign asked the backend for it. */
  ghost predicate IsBlock(alignment: nat, size: nat, alignMin: nat, p: nat) {
    && Sane(alignment, size, alignMin) && 0 < alignMin <= U64 && Effective(alignment) <= U64
    && p != 0 && p % BlockAlign(alignment, alignMin) == 0
    && p + BlockSize(alignment, size, alignMin) <= U64
    && p + METADATA_EXTRA + Effective(alignment) - 1 < U64     // the ALIGN of the payload does not wrap
  }

  /** The payload is aligned, has both metadata words before it, and lies inside the block. */
  lemma PayloadFits(alignment: nat, size: nat, alignMin: nat, p: nat)
    requires IsBlock(alignment, size, alignMin, p)
    ensures var mem := Payload(alignment, p);
            mem % Effective(alignment) == 0 && p + METADATA_EXTRA <= mem &&
            mem + size <= p + BlockSize(alignment, size, alignMin)
  {
    hide And;
    Sizes(alignment, size, alignMin);
    if alignment <= WORD {
      BlockIsWordAligned(alignment, alignMin, p);
      AlreadyAligned(p + METADATA_EXTRA);
    } else {
      var k: nat :| alignment == Pow2(k);
      Exponent(k);
      AlignRoundsUp(p + METADATA_EXTRA, alignment, k);
    }
  }

  /** The block asked for is the least multiple of the backend's unit that holds the payload, two words,
      and what aligning it may skip; the payload is at the first aligned address after two words. */
  lemma JustEnough(alignment: nat, size: nat, alignMin: nat, p: nat)
    requires IsBlock(alignment, size, alignMin, p)
    ensures var need := size + 16 + if alignment > 8 then alignment - 1 else 0;
            var s := BlockSize(alignment, size, alignMin);
            s % alignMin == 0 && need <= s < need + alignMin
    ensures var unit := if alignment > 8 then alignment else 8;
            var mem := Payload(alignment, p);
            mem % unit == 0 && p + 16 <= mem < p + 16 + unit
  {
    hide And;
    Sizes(alignment, size, alignMin);
    PayloadFits(alignment, size, alignMin, p);
    var k := EffectiveIsPow2(alignment);
    Exponent(k);
    AlignRoundsUp(p + METADATA_EXTRA, Effective(alignment), k);
  }

  lemma AlreadyAligned(x: nat)
    requires x < U64 && x % WORD == 0
    ensures Align64(x, WORD) == x
  {
    hide And;
    Pow2Values();
    AlignRoundsUp(x, WORD, 3);
    DivModUnique(Align64(x, WORD), WORD, x / WORD, Align64(x, WORD) - x);
  }

  // ---- the metadata words

  function Word(words: map<nat, nat>, a: int): nat {
    if a in words then words[a] else 0
  }

  /** How far before ptr its block begins. */
  function Slack(words: map<nat, nat>, ptr: nat): nat { Word(words, ptr - METADATA_EXTRA) }

  function SizeWord(words: map<nat, nat>, ptr: nat): nat { Word(words, ptr - WORD) }

  /** memalign, given the block p that the backend returned for BlockAlign and BlockSize. */
  method Memalign(ram: Ram, alignment: nat, size: nat, alignMin: nat, p: nat) returns (mem: nat)
    requires IsBlock(alignment, size, alignMin, p)
    modifies ram
    ensures mem == Payload(alignment, p) && mem % Effective(alignment) == 0
    ensures p <= mem - METADATA_EXTRA && mem + size <= p + BlockSize(alignment, size, alignMin)
    ensures Slack(ram.words, mem) == mem - p && SizeWord(ram.words, mem) == BlockSize(alignment, size, alignMin)
    ensures KeptOutside(old(ram.words), ram.words, {mem - METADATA_EXTRA, mem - WORD})
  {
    PayloadFits(alignment, size, alignMin, p);
    mem := p + METADATA_EXTRA;
    mem := Align64(mem, Effective(alignment));
    assert mem == Payload(alignment, p);
    ram.words := ram.words[mem - METADATA_EXTRA := mem - p];
    ram.words := ram.words[mem - WORD := BlockSize(alignment, size, alignMin)];
  }

  /** free: what it hands back to the backend. */
  method Free(ram: Ram, ptr: nat) returns (base: nat, size: nat)
    requires METADATA_EXTRA <= ptr && Slack(ram.words, ptr) <= ptr
    ensures base == ptr - Slack(ram.words, ptr) && size == SizeWord(ram.words, ptr)
  {
    base := ptr - Slack(ram.words, ptr);
    size := SizeWord(ram.words, ptr);
  }

  /** Contents that a client may store, by offset into its payload of `size` bytes. */
  ghost predicate InPayload(use: seq<map<nat, nat>>, size: nat) {
    forall i, o :: 0 <= i < |use| && o in use[i] ==> o + WORD <= size
  }

  function Shifted(mem: nat, offsets: set<nat>): (s: set<nat>)
    ensures forall a: nat :: a in s <==> a >= mem && a - mem in offsets
  {
    set o | o in offsets :: mem + o
  }

  /** The words of memory that hold the given contents of a payload at mem. */
  function Stored(mem: nat, contents: map<nat, nat>): (words: map<nat, nat>)
    ensures forall a: nat :: a in words <==> a >= mem && a - mem in contents
    ensures forall a: nat :: a in words ==> words[a] == contents[a - mem]
  {
    map a: nat | a in Shifted(mem, contents.Keys) :: contents[a - mem]
  }

  /** Any use of the payload: its words change as the client likes, as often as it likes. */
  method UsePayload(ram: Ram, mem: nat, size: nat, use: seq<map<nat, nat>>)
    requires InPayload(use, size)
    modifies ram
    ensures forall a :: a in old(ram.words) && !(mem <= a && a + WORD <= mem + size) ==>
      a in ram.words && ram.words[a] == old(ram.words)[a]
    ensures forall a :: a in ram.words && a !in old(ram.words) ==> mem <= a && a + WORD <= mem + size
  {
    for i := 0 to |use|
      invariant forall a :: a in old(ram.words) && !(mem <= a && a + WORD <= mem + size) ==>
        a in ram.words && ram.words[a] == old(ram.words)[a]
      invariant forall a :: a in ram.words && a !in old(ram.words) ==> mem <= a && a + WORD <= mem + size
    {
      ram.words := ram.words + Stored(mem, use[i]);
    }
  }

  /** memalign, any use of the payload, free: the backend gets back exactly its block. */
  method AllocUseFree(ram: Ram, alignment: nat, size: nat, alignMin: nat, p: nat, use: seq<map<nat, nat>>)
    returns (mem: nat, base: nat, freed: nat)
    requires IsBlock(alignment, size, alignMin, p) && InPayload(use, size)
    modifies ram
    ensures base == p && freed == BlockSize(alignment, size, alignMin)
  {
    mem := Memalign(ram, alignment, size, alignMin, p);
    UsePayload(ram, mem, size, use);
    base, freed := Free(ram, mem);
  }
}
