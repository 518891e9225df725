/** A split virtqueue as a value: what the driver and the device keep in memory, what has happened
    so far, and the invariant that ties the two together. */
module VirtqueueState {
  import opened Bits
  import opened Lists

  const VRING_DESC_F_NEXT: nat := 1
  const U16: nat := 0x1_0000

  datatype Desc = Desc(addr: nat, len: nat, flags: nat, next: nat)
  datatype UsedElem = UsedElem(id: nat, len: nat)

  /** Everything the code reads or writes. data[i] == 0 stands for NULL. */
  datatype Ring = Ring(
    desc: seq<Desc>, data: seq<nat>, numFree: nat, freeHead: nat,
    avail: seq<nat>, availIdx: nat,
    used: seq<UsedElem>, usedIdx: nat, lastUsedIdx: nat)

  /** What has happened: the k-th buffer added, its length and the descriptor it got, how many available entries
      the device has taken, the descriptors and lengths it has published as used, and which addition
      each retrieval answered. `chain` is the free list, `owner` the addition that holds a
      descriptor in flight. */
  datatype Log = Log(
    chain: seq<nat>, owner: map<nat, nat>,
    bufs: seq<nat>, lens: seq<nat>, heads: seq<nat>,
    taken: nat, published: seq<UsedElem>, returned: seq<nat>)

  ghost predicate HasNext(d: Desc) { And(d.flags, VRING_DESC_F_NEXT) != 0 }

  /** Each descriptor of s links to the next one. */
  ghost predicate Linked(desc: seq<Desc>, s: seq<nat>) {
    (forall i :: 0 <= i < |s| ==> s[i] < |desc|) &&
    forall i, j :: 0 <= i < j < |s| && j == i + 1 ==> desc[s[i]].next == s[j]
  }

  ghost predicate FreeOk(num: nat, r: Ring, g: Log) {
    && r.numFree == |g.chain|
    && (r.numFree > 0 ==> r.freeHead == g.chain[0])
    && Linked(r.desc, g.chain) && Distinct(g.chain)
    && (forall h: nat :: h < num ==> (h in g.chain <==> h !in g.owner))
    && r.numFree + |g.owner| == num
  }

  ghost predicate FlightOk(num: nat, r: Ring, g: Log)
    requires |r.desc| == |r.data| == num
  {
    && |g.heads| == |g.bufs| == |g.lens|
    && (forall h :: h in g.owner ==>
          h < num && g.owner[h] < |g.bufs| && g.heads[g.owner[h]] == h)
    && (forall h :: h in g.owner ==>
          var d := r.desc[h]; d.flags == 0 && d.addr == g.bufs[g.owner[h]] && d.len == g.lens[g.owner[h]])
    && (forall h: nat :: h < num ==> r.data[h] == if h in g.owner then g.bufs[g.owner[h]] else 0)
    && (forall k :: 0 <= k < |g.bufs| ==> g.bufs[k] != 0)
  }

  /** Every addition is in flight or has been returned, never both, and never returned twice. */
  ghost predicate ReturnedOk(g: Log)
    requires |g.heads| == |g.bufs|
  {
    && Distinct(g.returned)
    && (forall i :: 0 <= i < |g.returned| ==> g.returned[i] < g.taken)
    && (forall k :: 0 <= k < |g.bufs| ==>
          (InFlight(g, k) <==> k !in g.returned))
  }

  ghost predicate InFlight(g: Log, k: nat)
    requires k < |g.heads|
  {
    g.heads[k] in g.owner && g.owner[g.heads[k]] == k
  }

  /** No available entry is overwritten before the device has taken it. */
  ghost predicate AvailOk(num: nat, r: Ring, g: Log)
    requires |g.heads| == |g.bufs| && num > 0 && |r.avail| == num
  {
    && r.availIdx == |g.bufs| % U16
    && g.taken <= |g.bufs| <= g.taken + num
    && forall k :: g.taken <= k < |g.bufs| ==> r.avail[k % num] == g.heads[k]
  }

  /** No used entry is overwritten before the driver has read it; the entries it has not read name
      distinct descriptors in flight that the device had taken. */
  ghost predicate UsedOk(num: nat, r: Ring, g: Log)
    requires num > 0 && |r.used| == num
  {
    var got := |g.returned|;
    && r.usedIdx == |g.published| % U16 && r.lastUsedIdx == got % U16
    && got <= |g.published| <= got + num
    && (forall k :: got <= k < |g.published| ==> r.used[k % num] == g.published[k])
    && (forall k :: got <= k < |g.published| ==>
          g.published[k].id in g.owner && g.owner[g.published[k].id] < g.taken)
    && (forall i, j :: got <= i < j < |g.published| ==> g.published[i].id != g.published[j].id)
  }

  ghost predicate Shape(num: nat, r: Ring) {
    && (exists k: nat :: k <= 16 && num == Pow2(k))
    && |r.desc| == |r.data| == |r.avail| == |r.used| == num
  }

  ghost predicate Inv(num: nat, r: Ring, g: Log) {
    && num > 0 && Shape(num, r)
    && FreeOk(num, r, g) && FlightOk(num, r, g) && ReturnedOk(g)
    && AvailOk(num, r, g) && UsedOk(num, r, g)
  }

  // ---- arithmetic of ring indices

  /** The index of a ring: idx & (num - 1), for a power of two num and a 16-bit counter that has
      counted c steps. */
  lemma SlotOf(c: nat, num: nat)
    requires exists k: nat :: k <= 16 && num == Pow2(k)
    ensures num > 0 && And(c % U16, num - 1) == c % num
  {
    var k: nat :| k <= 16 && num == Pow2(k);
    AndLowMask(c % U16, k);
    Pow2Values();
    Pow2Add(16 - k, k);
    ModOfMod(c, num, Pow2(16 - k), U16);
  }

  lemma ModOfMod(c: nat, d: nat, q: nat, m: nat)
    requires d > 0 && q > 0 && m == q * d
    ensures m > 0 && c % m % d == c % d
  {
    NestedDivision(c, d, q, m);
    ModOfSum(c / d % q, d, c % d);
  }

  lemma ModOfSum(q: nat, d: nat, r: nat)
    requires 0 <= r < d
    ensures (q * d + r) % d == r
  {
    DivModUnique(q * d + r, d, q, r);
  }

  lemma CounterStep(c: nat)
    ensures (c % U16 + 1) % U16 == (c + 1) % U16
  {
  }

  /** Slots of different counts less than num apart differ. */
  lemma SlotsDiffer(i: nat, j: nat, num: nat)
    requires num > 0 && i < j < i + num
    ensures i % num != j % num
  {
    if i % num == j % num {
      Division(i, num);
      Division(j, num);
      NonzeroMultiple(j / num - i / num, num);
      Distribute(j / num, i / num, num);
      assert false;
    }
  }

  lemma Distribute(a: int, b: int, n: int)
    ensures (a - b) * n == a * n - b * n
  {
  }

  // ---- the four things that happen

  /** virtqueue_add_outbuf with a free descriptor at hand. */
  function AddRing(r: Ring, num: nat, buf: nat, len: nat): Ring
    requires num > 0 && |r.desc| == |r.data| == |r.avail| == num && r.freeHead < num && r.numFree > 0
    requires And(r.availIdx, num - 1) < num
  {
    var head := r.freeHead;
    r.(numFree := r.numFree - 1,
       desc := r.desc[head := Desc(buf, len, 0, r.desc[head].next)],
       freeHead := r.desc[head].next,
       data := r.data[head := buf],
       avail := r.avail[And(r.availIdx, num - 1) := head],
       availIdx := (r.availIdx + 1) % U16)
  }

  ghost function AddLog(g: Log, buf: nat, len: nat): Log
    requires g.chain != []
  {
    g.(chain := g.chain[1..], owner := g.owner[g.chain[0] := |g.bufs|],
       bufs := g.bufs + [buf], lens := g.lens + [len], heads := g.heads + [g.chain[0]])
  }

  /** virtqueue_get_buf, where descriptor i is a whole chain of its own. */
  function GetRing(r: Ring, i: nat): Ring
    requires i < |r.desc| == |r.data|
  {
    r.(data := r.data[i := 0],
       desc := r.desc[i := r.desc[i].(next := r.freeHead)],
       freeHead := i,
       numFree := r.numFree + 1,
       lastUsedIdx := (r.lastUsedIdx + 1) % U16)
  }

  ghost function GetLog(g: Log, i: nat): Log {
    if i !in g.owner then g
    else g.(chain := [i] + g.chain, owner := g.owner - {i}, returned := g.returned + [g.owner[i]])
  }

  /** The device publishes descriptor e.id as used. */
  function PublishRing(r: Ring, num: nat, e: UsedElem): Ring
    requires num > 0 && |r.used| == num && And(r.usedIdx, num - 1) < num
  {
    r.(used := r.used[And(r.usedIdx, num - 1) := e], usedIdx := (r.usedIdx + 1) % U16)
  }

  lemma AddSlot(num: nat, r: Ring, g: Log)
    requires Inv(num, r, g)
    ensures And(r.availIdx, num - 1) == |g.bufs| % num < num
    ensures And(r.usedIdx, num - 1) == |g.published| % num < num
    ensures And(r.lastUsedIdx, num - 1) == |g.returned| % num < num
  {
    SlotOf(|g.bufs|, num);
    SlotOf(|g.published|, num);
    SlotOf(|g.returned|, num);
  }

  // ---- counting

  /** Pairwise different members of a set are at most as many as the set has. */
  lemma {:induction false} DistinctFit(s: seq<nat>, t: set<nat>)
    requires Distinct(s) && forall x :: x in s ==> x in t
    ensures |s| <= |t|
    decreases |s|
  {
    if s != [] {
      var last := s[|s| - 1];
      assert last in s;
      DistinctFit(s[..|s| - 1], t - {last});
    }
  }

  /** Descriptors that different additions hold are different. */
  lemma HeldApart(heads: seq<nat>, owner: map<nat, nat>, lo: nat)
    requires lo <= |heads| && forall k :: lo <= k < |heads| ==> heads[k] in owner && owner[heads[k]] == k
    ensures Distinct(heads[lo..]) && forall x :: x in heads[lo..] ==> x in owner.Keys
  {
    var s := heads[lo..];
    forall i | 0 <= i < |s|
      ensures s[i] in owner && owner[s[i]] == lo + i
    {
      assert s[i] == heads[lo + i];
    }
  }

  /** What the device has not taken is in flight, so there is a free available slot whenever there is
      a free descriptor. */
  lemma UntakenFit(num: nat, r: Ring, g: Log)
    requires Inv(num, r, g)
    ensures |g.bufs| - g.taken <= |g.owner|
  {
    hide FreeOk, UsedOk, And;
    forall k | g.taken <= k < |g.bufs|
      ensures g.heads[k] in g.owner && g.owner[g.heads[k]] == k
    {
      assert InFlight(g, k);
    }
    HeldApart(g.heads, g.owner, g.taken);
    DistinctFit(g.heads[g.taken..], g.owner.Keys);
  }

  ghost function Ids(s: seq<UsedElem>): (t: seq<nat>)
    ensures |t| == |s| && forall i :: 0 <= i < |s| ==> t[i] == s[i].id
  {
    seq(|s|, i requires 0 <= i < |s| => s[i].id)
  }

  /** Unread used entries, and one more descriptor in flight, fit the ring. */
  lemma UnreadFit(num: nat, r: Ring, g: Log, h: nat)
    requires Inv(num, r, g) && h in g.owner
    requires forall k :: |g.returned| <= k < |g.published| ==> g.published[k].id != h
    ensures |g.published| - |g.returned| < num
  {
    var s := Ids(g.published[|g.returned|..]);
    forall x | x in s
      ensures x in g.owner.Keys - {h}
    {
      var i :| 0 <= i < |s| && s[i] == x;
      assert s[i] == g.published[|g.returned| + i].id;
    }
    DistinctFit(s, g.owner.Keys - {h});
  }

  // ---- every event keeps the invariant

  lemma AddKeepsFree(num: nat, r: Ring, g: Log, buf: nat, len: nat)
    requires Inv(num, r, g) && r.numFree > 0
    ensures g.chain != [] && r.freeHead < num && r.freeHead == g.chain[0] && r.freeHead !in g.owner
    ensures And(r.availIdx, num - 1) < num
    ensures FreeOk(num, AddRing(r, num, buf, len), AddLog(g, buf, len))
  {
    AddSlot(num, r, g);
    assert g.chain[0] in g.chain;
    forall h: nat | h < num
      ensures h in g.chain[1..] <==> h in g.chain && h != g.chain[0]
    {
      if h in g.chain && h != g.chain[0] {
        var i :| 0 <= i < |g.chain| && g.chain[i] == h;
        assert g.chain[1..][i - 1] == h;
      }
    }
  }

  lemma AddKeepsFlight(num: nat, r: Ring, g: Log, buf: nat, len: nat)
    requires Inv(num, r, g) && r.numFree > 0 && buf != 0
    requires r.freeHead < num && r.freeHead == g.chain[0] && r.freeHead !in g.owner
    requires And(r.availIdx, num - 1) < num
    ensures FlightOk(num, AddRing(r, num, buf, len), AddLog(g, buf, len))
  {
    hide ReturnedOk, AvailOk, UsedOk, And;
  }

  lemma AddKeepsReturned(num: nat, r: Ring, g: Log, buf: nat, len: nat)
    requires Inv(num, r, g) && r.numFree > 0 && g.chain[0] !in g.owner
    ensures ReturnedOk(AddLog(g, buf, len))
  {
    var g' := AddLog(g, buf, len);
    forall k | 0 <= k < |g'.bufs|
      ensures InFlight(g', k) <==> k !in g'.returned
    {
      if k < |g.bufs| {
        assert InFlight(g, k) <==> k !in g.returned;
        if g.heads[k] == g.chain[0] {
          assert !InFlight(g, k);
        }
      }
    }
  }

  lemma AddKeepsAvail(num: nat, r: Ring, g: Log, buf: nat, len: nat)
    requires Inv(num, r, g) && r.numFree > 0
    requires r.freeHead < num && r.freeHead == g.chain[0]
    requires And(r.availIdx, num - 1) == |g.bufs| % num < num
    ensures AvailOk(num, AddRing(r, num, buf, len), AddLog(g, buf, len))
  {
    hide ReturnedOk, UsedOk, And;
    UntakenFit(num, r, g);
    CounterStep(|g.bufs|);
    forall k | g.taken <= k < |g.bufs|
      ensures k % num != |g.bufs| % num
    {
      SlotsDiffer(k, |g.bufs|, num);
    }
  }

  lemma AddKeepsUsed(num: nat, r: Ring, g: Log, buf: nat, len: nat)
    requires Inv(num, r, g) && r.numFree > 0 && g.chain[0] !in g.owner
    requires r.freeHead < num && And(r.availIdx, num - 1) < num
    ensures UsedOk(num, AddRing(r, num, buf, len), AddLog(g, buf, len))
  {
    hide ReturnedOk, AvailOk, FlightOk, And;
  }

  lemma AddKeeps(num: nat, r: Ring, g: Log, buf: nat, len: nat)
    requires Inv(num, r, g) && r.numFree > 0 && buf != 0
    ensures g.chain != [] && |r.desc| == |r.data| == |r.avail| == num
    ensures r.freeHead < num && r.freeHead == g.chain[0] && And(r.availIdx, num - 1) == |g.bufs| % num < num
    ensures Inv(num, AddRing(r, num, buf, len), AddLog(g, buf, len))
  {
    hide FreeOk, FlightOk, ReturnedOk, AvailOk, UsedOk, And;
    AddSlot(num, r, g);
    AddKeepsFree(num, r, g, buf, len);
    AddKeepsFlight(num, r, g, buf, len);
    AddKeepsReturned(num, r, g, buf, len);
    AddKeepsAvail(num, r, g, buf, len);
    AddKeepsUsed(num, r, g, buf, len);
  }

  /** The used entry the driver looks at next, when the device has published it. */
  ghost predicate Ready(g: Log) { |g.returned| < |g.published| }

  ghost function NextUsed(g: Log): UsedElem
    requires Ready(g)
  {
    g.published[|g.returned|]
  }

  lemma GetKeepsFree(num: nat, r: Ring, g: Log, i: nat)
    requires Inv(num, r, g) && i in g.owner && i < num
    ensures FreeOk(num, GetRing(r, i), GetLog(g, i))
  {
    hide FlightOk, ReturnedOk, AvailOk, UsedOk, And;
    assert i !in g.chain;
    forall h: nat | h < num
      ensures h in [i] + g.chain <==> h == i || h in g.chain
    {
    }
    assert |g.owner - {i}| == |g.owner| - 1 by {
      assert (g.owner - {i}).Keys == g.owner.Keys - {i};
    }
  }

  lemma GetKeepsFlight(num: nat, r: Ring, g: Log, i: nat)
    requires Inv(num, r, g) && i in g.owner && i < num
    ensures FlightOk(num, GetRing(r, i), GetLog(g, i))
  {
    hide FreeOk, ReturnedOk, AvailOk, UsedOk, And;
  }

  lemma GetKeepsReturned(num: nat, r: Ring, g: Log, i: nat)
    requires Inv(num, r, g) && i in g.owner && g.owner[i] < g.taken
    ensures ReturnedOk(GetLog(g, i))
  {
    var g' := GetLog(g, i);
    var a := g.owner[i];
    assert InFlight(g, a);
    forall k | 0 <= k < |g'.bufs|
      ensures InFlight(g', k) <==> k !in g'.returned
    {
      assert InFlight(g, k) <==> k !in g.returned;
      assert k in g'.returned <==> k in g.returned || k == a;
    }
  }

  lemma GetKeepsRings(num: nat, r: Ring, g: Log, i: nat)
    requires Inv(num, r, g) && Ready(g) && i == NextUsed(g).id
    requires i in g.owner && i < num
    ensures AvailOk(num, GetRing(r, i), GetLog(g, i))
    ensures UsedOk(num, GetRing(r, i), GetLog(g, i))
  {
    CounterStep(|g.returned|);
  }

  lemma HandsBack(num: nat, r: Ring, g: Log, i: nat)
    requires Inv(num, r, g) && i in g.owner
    ensures i < num && g.owner[i] < |g.bufs| && g.owner[i] !in g.returned
    ensures r.data[i] == g.bufs[g.owner[i]] != 0 && !HasNext(r.desc[i])
  {
    assert InFlight(g, g.owner[i]);
  }

  lemma GetKeeps(num: nat, r: Ring, g: Log)
    requires Inv(num, r, g) && Ready(g)
    ensures var i := NextUsed(g).id;
            && |r.desc| == |r.data| == |r.used| == num
            && i < num && i in g.owner && And(r.lastUsedIdx, num - 1) == |g.returned| % num < num
            && r.used[And(r.lastUsedIdx, num - 1)] == NextUsed(g)
            && g.owner[i] < |g.bufs| && g.owner[i] !in g.returned
            && r.data[i] == g.bufs[g.owner[i]] != 0 && !HasNext(r.desc[i])
            && Inv(num, GetRing(r, i), GetLog(g, i))
  {
    hide FreeOk, ReturnedOk, AvailOk, And;
    AddSlot(num, r, g);
    var i := NextUsed(g).id;
    HandsBack(num, r, g, i);
    GetKeepsFree(num, r, g, i);
    GetKeepsFlight(num, r, g, i);
    GetKeepsReturned(num, r, g, i);
    GetKeepsRings(num, r, g, i);
  }

  /** The device takes the next available entry. */
  lemma TakeKeeps(num: nat, r: Ring, g: Log)
    requires Inv(num, r, g) && g.taken < |g.bufs|
    ensures And(g.taken % U16, num - 1) == g.taken % num < num
    ensures (g.taken % U16 + 1) % U16 == (g.taken + 1) % U16
    ensures r.avail[g.taken % num] == g.heads[g.taken]
    ensures Inv(num, r, g.(taken := g.taken + 1))
  {
    var g' := g.(taken := g.taken + 1);
    SlotOf(g.taken, num);
    CounterStep(g.taken);
    forall k | 0 <= k < |g.bufs|
      ensures InFlight(g', k) <==> InFlight(g, k)
    {
    }
  }

  /** A descriptor the device has taken and not yet published. */
  ghost predicate AtDevice(g: Log, h: nat) {
    && h in g.owner && g.owner[h] < g.taken
    && forall k :: |g.returned| <= k < |g.published| ==> g.published[k].id != h
  }

  lemma PublishKeepsUsed(num: nat, r: Ring, g: Log, e: UsedElem)
    requires Inv(num, r, g) && AtDevice(g, e.id)
    requires And(r.usedIdx, num - 1) == |g.published| % num < num
    ensures UsedOk(num, PublishRing(r, num, e), g.(published := g.published + [e]))
  {
    hide FreeOk, FlightOk, ReturnedOk, AvailOk, And;
    UnreadFit(num, r, g, e.id);
    UsedGrows(num, r, g, e);
  }

  lemma UsedGrows(num: nat, r: Ring, g: Log, e: UsedElem)
    requires num > 0 && |r.used| == num && UsedOk(num, r, g) && AtDevice(g, e.id)
    requires And(r.usedIdx, num - 1) == |g.published| % num < num && |g.published| < |g.returned| + num
    ensures UsedOk(num, PublishRing(r, num, e), g.(published := g.published + [e]))
  {
    hide And;
    CounterStep(|g.published|);
    forall k | |g.returned| <= k < |g.published|
      ensures k % num != |g.published| % num
    {
      SlotsDiffer(k, |g.published|, num);
    }
  }

  lemma PublishKeeps(num: nat, r: Ring, g: Log, e: UsedElem)
    requires Inv(num, r, g) && AtDevice(g, e.id)
    ensures |r.used| == num && And(r.usedIdx, num - 1) == |g.published| % num < num
    ensures Inv(num, PublishRing(r, num, e), g.(published := g.published + [e]))
  {
    var g' := g.(published := g.published + [e]);
    AddSlot(num, r, g);
    PublishKeepsUsed(num, r, g, e);
    forall k | 0 <= k < |g.bufs|
      ensures InFlight(g', k) <==> InFlight(g, k)
    {
    }
  }

  // ---- what the invariant means

  /** The descriptors met by following `next` n times. */
  function Follow(desc: seq<Desc>, head: nat, n: nat): seq<nat>
    decreases n
  {
    if n == 0 then [] else if head >= |desc| then [head]
    else [head] + Follow(desc, desc[head].next, n - 1)
  }

  lemma {:induction false} FollowLinked(desc: seq<Desc>, s: seq<nat>)
    requires Linked(desc, s)
    ensures s != [] ==> Follow(desc, s[0], |s|) == s
  {
    if |s| > 1 {
      FollowLinked(desc, s[1..]);
      assert desc[s[0]].next == s[1];
    } else if |s| == 1 {
      assert Follow(desc, desc[s[0]].next, 0) == [];
    }
  }

  /** The first num_free links from free_head are different descriptors, none of them in flight, and
      together with those in flight they are all the descriptors there are. */
  lemma FreeChain(num: nat, r: Ring, g: Log)
    requires Inv(num, r, g) && r.numFree > 0
    ensures var s := Follow(r.desc, r.freeHead, r.numFree);
            && |s| == r.numFree && Distinct(s)
            && (forall h: nat :: h < num ==> (h in s <==> r.data[h] == 0))
            && r.numFree + |g.owner| == num
  {
    FollowLinked(r.desc, g.chain);
  }

  /** When the queue is idle again, every buffer has been handed back exactly once. */
  lemma ExactlyOnce(num: nat, r: Ring, g: Log, k: nat)
    requires Inv(num, r, g) && k < |g.bufs|
    ensures |g.owner| == 0 ==> k in g.returned
    ensures multiset(g.returned)[k] <= 1
    ensures InFlight(g, k) <==> multiset(g.returned)[k] == 0
  {
    assert InFlight(g, k) <==> k !in g.returned;
    CountDistinct(g.returned, k);
  }

  lemma {:induction false} CountDistinct(s: seq<nat>, k: nat)
    requires Distinct(s)
    ensures multiset(s)[k] == if k in s then 1 else 0
  {
    if s != [] {
      CountDistinct(s[1..], k);
      assert s == [s[0]] + s[1..];
    }
  }
}
