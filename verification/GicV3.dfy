/** Software-generated interrupts to a set of CPUs, grouped into register writes by cluster. */
module GicV3 {
  import opened Bits

  // ---- single bits

  predicate Bit(x: nat, j: nat) {
    if j == 0 then x % 2 == 1 else Bit(x / 2, j - 1)
  }

  lemma {:induction false} OrBit(a: nat, b: nat, j: nat)
    ensures Bit(Or(a, b), j) <==> Bit(a, j) || Bit(b, j)
    decreases j
  {
    OrUnfold(a, b);
    if j > 0 {
      OrBit(a / 2, b / 2, j - 1);
    }
  }

  lemma {:induction false} Pow2Bit(i: nat, j: nat)
    ensures Bit(Pow2(i), j) <==> i == j
    decreases i + j
  {
    if i > 0 && j > 0 {
      Pow2Bit(i - 1, j - 1);
    } else if i == 0 && j > 0 {
      ZeroBits(j - 1);
    }
  }

  lemma {:induction false} ZeroBits(j: nat)
    ensures !Bit(0, j)
  {
    if j > 0 { ZeroBits(j - 1); }
  }

  lemma {:induction false} OrBound(a: nat, b: nat, k: nat)
    requires a < Pow2(k) && b < Pow2(k)
    ensures Or(a, b) < Pow2(k)
  {
    if k > 0 {
      OrUnfold(a, b);
      OrBound(a / 2, b / 2, k - 1);
    }
  }

  // ---- affinities and the register word

  /** Affinity level of an MPIDR: levels 0, 1 and 2 are adjacent bytes, level 3 is byte 4. */
  function Aff(mpidr: nat, level: nat): (a: nat)
    requires level <= 3
    ensures a < 256
  {
    if level == 0 then mpidr % 256
    else if level == 1 then mpidr / 0x100 % 256
    else if level == 2 then mpidr / 0x1_0000 % 256
    else mpidr / U32 % 256
  }

  /** Which bits the levels are. */
  lemma AffDigits(m: nat)
    ensures Aff(m, 0) == m % 256 && Aff(m, 1) == m / 0x100 % 256
    ensures Aff(m, 2) == m / 0x1_0000 % 256 && Aff(m, 3) == m / 0x1_0000_0000 % 256
  {
  }

  /** mpidr & ~0xff */
  function ClusterId(mpidr: nat): nat { mpidr - mpidr % 256 }

  predicate SameCluster(m: nat, n: nat) {
    Aff(m, 1) == Aff(n, 1) && Aff(m, 2) == Aff(n, 2) && Aff(m, 3) == Aff(n, 3)
  }

  /** Two MPIDRs name the same PE: bits 39..32, 23..16, 15..8 and 7..0 agree. */
  predicate SameAffinity(m: nat, n: nat) {
    && m / 0x1_0000_0000 % 256 == n / 0x1_0000_0000 % 256
    && m / 0x1_0000 % 256 == n / 0x1_0000 % 256
    && m / 0x100 % 256 == n / 0x100 % 256
    && m % 256 == n % 256
  }

  lemma SameAffinityIff(m: nat, n: nat)
    ensures SameAffinity(m, n) <==> Aff(m, 0) == Aff(n, 0) && SameCluster(m, n)
  {
  }

  lemma ClusterAffinity(m: nat)
    ensures SameCluster(m, ClusterId(m))
  {
    var q := m / 256;
    assert ClusterId(m) == q * 256;
    Shifted(m, q, 0x100);
    Shifted(m, q, 0x100_0000);
  }

  // Dividing by 256 * d does not see the last byte.
  lemma Shifted(m: nat, q: nat, d: nat)
    requires d > 0 && q == m / 256
    ensures m / 0x100 == q * 256 / 0x100
    ensures m / (d * 256) == q * 256 / (d * 256)
  {
    NestedDivision(m, 256, d, d * 256);
    NestedDivision(q * 256, 256, d, d * 256);
    DivModUnique(q * 256, 256, q, 0);
  }

  /** The ICC_SGI1R value for one cluster, as the code puts it together. */
  function Sgi1r(cluster: nat, irq: nat, tlist: nat): nat {
    Or(Or(Or(Or(Aff(cluster, 3) * 0x1_0000_0000_0000, Aff(cluster, 2) * U32), irq * 0x100_0000),
          Aff(cluster, 1) * 0x1_0000), tlist)
  }

  /** What the register means (GICv3 architecture specification, ICC_SGI1R_EL1): the write interrupts
      the PE whose affinities 3, 2 and 1, bits 39..32, 23..16 and 15..8 of its MPIDR, it has in bits
      55..48, 39..32 and 23..16, and whose affinity 0, bits 7..0, is in its target list. */
  predicate Interrupts(w: nat, m: nat) {
    && w / 0x1_0000_0000_0000 % 256 == m / 0x1_0000_0000 % 256
    && w / 0x1_0000_0000 % 256 == m / 0x1_0000 % 256
    && w / 0x1_0000 % 256 == m / 0x100 % 256
    && m % 256 < 16 && Bit(w % 0x1_0000, m % 256)
  }

  lemma InterruptsIff(w: nat, m: nat)
    ensures Interrupts(w, m) <==>
            && w / 0x1_0000_0000_0000 % 256 == Aff(m, 3)
            && w / U32 % 256 == Aff(m, 2)
            && w / 0x1_0000 % 256 == Aff(m, 1)
            && Aff(m, 0) < 16 && Bit(w % 0x1_0000, Aff(m, 0))
  {
    hide Bit;
  }

  function IntId(w: nat): nat { w / 0x100_0000 % 16 }

  lemma WordFields(cluster: nat, irq: nat, tlist: nat)
    requires irq < 16 && tlist < 0x1_0000
    ensures var w := Sgi1r(cluster, irq, tlist);
            && w / 0x1_0000_0000_0000 % 256 == cluster / 0x1_0000_0000 % 256
            && w / 0x1_0000_0000 % 256 == cluster / 0x1_0000 % 256
            && w / 0x1_0000 % 256 == cluster / 0x100 % 256
            && w % 0x1_0000 == tlist && w / 0x100_0000 % 16 == irq
  {
    hide And, Or;
    AffDigits(cluster);
    var a3, a2, a1 := Aff(cluster, 3), Aff(cluster, 2), Aff(cluster, 1);
    WordIsSum(a3, a2, irq, a1, tlist);
    SumDigits(a3, a2, irq, a1, tlist);
  }

  lemma WordIsSum(a3: nat, a2: nat, irq: nat, a1: nat, tlist: nat)
    requires a3 < 256 && a2 < 256 && irq < 16 && a1 < 256 && tlist < 0x1_0000
    ensures Or(Or(Or(Or(a3 * 0x1_0000_0000_0000, a2 * U32), irq * 0x100_0000), a1 * 0x1_0000), tlist) ==
            a3 * 0x1_0000_0000_0000 + a2 * U32 + irq * 0x100_0000 + a1 * 0x1_0000 + tlist
  {
    hide And, Or;
    Pow2Values();
    Pow2Add(16, 32);
    Pow2Add(8, 16);
    assert Pow2(8) == 256;
    OrApart(a3, a2 * U32, 48, 0x1_0000_0000_0000);
    OrApart(a3 * 0x1_0000 + a2, irq * 0x100_0000, 32, U32);
    OrApart(a3 * 0x100_0000 + a2 * 256 + irq, a1 * 0x1_0000, 24, 0x100_0000);
    OrApart(a3 * 0x1_0000_0000 + a2 * 0x1_0000 + irq * 256 + a1, tlist, 16, 0x1_0000);
  }

  lemma SumDigits(a3: nat, a2: nat, irq: nat, a1: nat, tlist: nat)
    requires a3 < 256 && a2 < 256 && irq < 16 && a1 < 256 && tlist < 0x1_0000
    ensures var w := a3 * 0x1_0000_0000_0000 + a2 * U32 + irq * 0x100_0000 + a1 * 0x1_0000 + tlist;
            && w / 0x1_0000_0000_0000 % 256 == a3 && w / U32 % 256 == a2
            && w / 0x1_0000 % 256 == a1 && w % 0x1_0000 == tlist && w / 0x100_0000 % 16 == irq
  {
    var w := a3 * 0x1_0000_0000_0000 + a2 * U32 + irq * 0x100_0000 + a1 * 0x1_0000 + tlist;
    DivModUnique(w, 0x1_0000_0000_0000, a3, a2 * U32 + irq * 0x100_0000 + a1 * 0x1_0000 + tlist);
    DivModUnique(w, U32, a3 * 0x1_0000 + a2, irq * 0x100_0000 + a1 * 0x1_0000 + tlist);
    DivModUnique(w / U32, 256, a3 * 256, a2);
    DivModUnique(w, 0x1_0000, a3 * U32 + a2 * 0x1_0000 + irq * 256 + a1, tlist);
    DivModUnique(w / 0x1_0000, 256, a3 * 0x100_0000 + a2 * 256 + irq, a1);
    DivModUnique(w, 0x100_0000, a3 * 0x100_0000 + a2 * 256 + irq, a1 * 0x1_0000 + tlist);
    DivModUnique(w / 0x100_0000, 16, a3 * 0x10_0000 + a2 * 16, irq);
  }

  // ---- who gets interrupted

  /** How many of the writes interrupt the PE with MPIDR m. */
  ghost function Hits(writes: seq<nat>, m: nat): nat {
    if writes == [] then 0
    else Hits(writes[..|writes| - 1], m) + (if Interrupts(writes[|writes| - 1], m) then 1 else 0)
  }

  /** m is a destination among CPUs lo to hi that a target list can express. */
  ghost predicate IsTarget(cpus: seq<nat>, dest: set<nat>, lo: nat, hi: nat, m: nat) {
    m % 256 < 16 && exists c :: lo <= c < hi <= |cpus| && c in dest && SameAffinity(cpus[c], m)
  }

  ghost predicate DistinctCpus(cpus: seq<nat>) {
    forall c, d :: 0 <= c < d < |cpus| ==> !SameAffinity(cpus[c], cpus[d])
  }

  /** The destinations before `done`, and no PE else, have been interrupted, once each. */
  ghost predicate Served(writes: seq<nat>, cpus: seq<nat>, dest: set<nat>, done: nat, irq: nat) {
    && done <= |cpus|
    && (forall m :: Hits(writes, m) == if IsTarget(cpus, dest, 0, done, m) then 1 else 0)
    && (forall i :: 0 <= i < |writes| ==> IntId(writes[i]) == irq)
  }

  /** tlist has exactly the affinities 0 of the destinations from lo to hi, all in one cluster. */
  ghost predicate Collected(tlist: nat, cluster: nat, cpus: seq<nat>, dest: set<nat>, lo: nat, hi: nat) {
    && lo <= hi <= |cpus| && tlist < 0x1_0000
    && (forall c :: lo <= c < hi && c in dest ==> ClusterId(cpus[c]) == cluster && Aff(cpus[c], 0) < 16)
    && (forall j: nat :: j < 16 ==>
          (Bit(tlist, j) <==> exists c :: lo <= c < hi && c in dest && Aff(cpus[c], 0) == j))
  }

  lemma CollectOne(tlist: nat, cluster: nat, cpus: seq<nat>, dest: set<nat>, lo: nat, cpu: nat, hi: nat)
    requires Collected(tlist, cluster, cpus, dest, lo, cpu) && cpu < hi <= |cpus| && cpu in dest
    requires ClusterId(cpus[cpu]) == cluster && Aff(cpus[cpu], 0) < 16
    requires forall c :: cpu < c < hi ==> c !in dest
    ensures Collected(Or(tlist, Pow2(Aff(cpus[cpu], 0))), cluster, cpus, dest, lo, hi)
  {
    hide Or, Bit, Aff, ClusterId;
    var a := Aff(cpus[cpu], 0);
    var tlist' := Or(tlist, Pow2(a));
    Pow2Values();
    Pow2Monotone(a + 1, 16);
    OrBound(tlist, Pow2(a), 16);
    forall j: nat | j < 16
      ensures Bit(tlist', j) <==> exists c :: lo <= c < hi && c in dest && Aff(cpus[c], 0) == j
    {
      OrBit(tlist, Pow2(a), j);
      Pow2Bit(a, j);
      if j == a {
        assert Aff(cpus[cpu], 0) == j;
      }
    }
  }

  /** A write for a collected cluster interrupts exactly the collected destinations. */
  lemma WriteServes(tlist: nat, cluster: nat, irq: nat, cpus: seq<nat>, dest: set<nat>, lo: nat, hi: nat, m: nat)
    requires irq < 16 && Collected(tlist, cluster, cpus, dest, lo, hi)
    requires exists c :: 0 <= c < |cpus| && cluster == ClusterId(cpus[c])
    ensures Interrupts(Sgi1r(cluster, irq, tlist), m) <==> IsTarget(cpus, dest, lo, hi, m)
  {
    hide Sgi1r, Aff, Bit;
    WordFields(cluster, irq, tlist);
    AffDigits(cluster);
    forall c | lo <= c < hi && c in dest
      ensures SameCluster(cpus[c], cluster)
      ensures SameAffinity(cpus[c], m) <==> Aff(cpus[c], 0) == Aff(m, 0) && SameCluster(cpus[c], m)
    {
      ClusterAffinity(cpus[c]);
      SameAffinityIff(cpus[c], m);
    }
    AffDigits(m);
    InterruptsIff(Sgi1r(cluster, irq, tlist), m);
    hide Interrupts, SameAffinity;
    var w := Sgi1r(cluster, irq, tlist);
    if Interrupts(w, m) {
      var c :| lo <= c < hi && c in dest && Aff(cpus[c], 0) == Aff(m, 0);
      assert SameAffinity(cpus[c], m);
    }
  }

  lemma ServeMore(writes: seq<nat>, w: nat, cpus: seq<nat>, dest: set<nat>, lo: nat, hi: nat, done: nat, irq: nat)
    requires DistinctCpus(cpus) && Served(writes, cpus, dest, lo, irq) && lo <= hi <= done <= |cpus|
    requires IntId(w) == irq
    requires forall m :: Interrupts(w, m) <==> IsTarget(cpus, dest, lo, hi, m)
    requires forall c :: hi <= c < done && c in dest ==> Aff(cpus[c], 0) >= 16
    ensures Served(writes + [w], cpus, dest, done, irq)
  {
    hide Aff, Interrupts, SameCluster, IntId;
    assert (writes + [w])[..|writes|] == writes;
    forall m
      ensures Hits(writes + [w], m) == if IsTarget(cpus, dest, 0, done, m) then 1 else 0
    {
      SplitTargets(cpus, dest, lo, hi, done, m);
      assert Interrupts(w, m) <==> IsTarget(cpus, dest, lo, hi, m);
    }
  }

  lemma SplitTargets(cpus: seq<nat>, dest: set<nat>, lo: nat, hi: nat, done: nat, m: nat)
    requires DistinctCpus(cpus) && lo <= hi <= done <= |cpus|
    requires forall c :: hi <= c < done && c in dest ==> Aff(cpus[c], 0) >= 16
    ensures IsTarget(cpus, dest, 0, done, m) <==> IsTarget(cpus, dest, 0, lo, m) || IsTarget(cpus, dest, lo, hi, m)
    ensures !(IsTarget(cpus, dest, 0, lo, m) && IsTarget(cpus, dest, lo, hi, m))
  {
    hide Aff;
    if IsTarget(cpus, dest, 0, done, m) {
      var c :| 0 <= c < done && c in dest && SameAffinity(cpus[c], m);
      AffDigits(cpus[c]);
      assert c < hi;
    }
  }

  // ---- how many writes there are

  /** c is a destination like the one before it in the mask, which a target list could express: it goes
      into the same write. */
  ghost predicate Joins(cpus: seq<nat>, dest: set<nat>, c: nat)
    requires c < |cpus|
  {
    exists p :: 0 <= p < c && IsBefore(dest, p, c) && Aff(cpus[p], 0) < 16 && ClusterId(cpus[p]) == ClusterId(cpus[c])
  }

  /** p is the last destination before c. */
  ghost predicate IsBefore(dest: set<nat>, p: nat, c: nat) {
    p < c && p in dest && forall q :: p < q < c ==> q !in dest
  }

  /** The destinations below hi that begin a write, in order. */
  ghost function Leaders(cpus: seq<nat>, dest: set<nat>, hi: nat): (s: seq<nat>)
    requires hi <= |cpus|
    ensures forall j :: 0 <= j < |s| ==> s[j] < hi && s[j] in dest
  {
    if hi == 0 then []
    else
      var most := Leaders(cpus, dest, hi - 1);
      if hi - 1 in dest && !Joins(cpus, dest, hi - 1) then most + [hi - 1] else most
  }

  /** The write names the cluster of m, digit by digit. */
  predicate Names(w: nat, m: nat) {
    && w / 0x1_0000_0000_0000 % 256 == m / 0x1_0000_0000 % 256
    && w / 0x1_0000_0000 % 256 == m / 0x1_0000 % 256
    && w / 0x1_0000 % 256 == m / 0x100 % 256
  }

  /** There is one write for each leader, and it names the leader's cluster. */
  ghost predicate WritesFor(writes: seq<nat>, cpus: seq<nat>, leaders: seq<nat>) {
    && |writes| == |leaders|
    && forall j :: 0 <= j < |leaders| ==> leaders[j] < |cpus| && Names(writes[j], cpus[leaders[j]])
  }

  lemma FirstLeads(cpus: seq<nat>, dest: set<nat>, c: nat)
    requires c <= |cpus| && forall q :: 0 <= q < c ==> q !in dest
    ensures c < |cpus| ==> !Joins(cpus, dest, c)
    ensures Leaders(cpus, dest, c) == []
  {
    if c > 0 {
      FirstLeads(cpus, dest, c - 1);
    }
  }

  lemma JoinsIff(cpus: seq<nat>, dest: set<nat>, p: nat, c: nat)
    requires c < |cpus| && IsBefore(dest, p, c)
    ensures Joins(cpus, dest, c) <==> Aff(cpus[p], 0) < 16 && ClusterId(cpus[p]) == ClusterId(cpus[c])
  {
    forall q | 0 <= q < c && IsBefore(dest, q, c)
      ensures q == p
    {
    }
  }

  /** Between two leaders there are none. */
  lemma {:induction false} NoLeaders(cpus: seq<nat>, dest: set<nat>, lo: nat, hi: nat)
    requires lo <= hi <= |cpus| && forall c :: lo <= c < hi && c in dest ==> Joins(cpus, dest, c)
    ensures Leaders(cpus, dest, hi) == Leaders(cpus, dest, lo)
    decreases hi
  {
    if lo < hi {
      NoLeaders(cpus, dest, lo, hi - 1);
    }
  }

  lemma OneMoreWrite(writes: seq<nat>, w: nat, cpus: seq<nat>, dest: set<nat>, lo: nat, hi: nat)
    requires lo < hi <= |cpus| && lo in dest && !Joins(cpus, dest, lo)
    requires forall c :: lo < c < hi && c in dest ==> Joins(cpus, dest, c)
    requires WritesFor(writes, cpus, Leaders(cpus, dest, lo)) && Names(w, cpus[lo])
    ensures WritesFor(writes + [w], cpus, Leaders(cpus, dest, hi))
  {
    hide Names, Joins;
    NoLeaders(cpus, dest, lo + 1, hi);
  }

  lemma WordNames(m: nat, irq: nat, tlist: nat)
    requires irq < 16 && tlist < 0x1_0000
    ensures Names(Sgi1r(ClusterId(m), irq, tlist), m)
  {
    hide Sgi1r, Aff;
    WordFields(ClusterId(m), irq, tlist);
    AffDigits(ClusterId(m));
    ClusterAffinity(m);
    AffDigits(m);
  }

  /** How many of the leaders are of cluster k. */
  ghost function OfCluster(cpus: seq<nat>, leaders: seq<nat>, k: nat): nat
    requires forall j :: 0 <= j < |leaders| ==> leaders[j] < |cpus|
  {
    if leaders == [] then 0
    else
      var mine := ClusterId(cpus[leaders[|leaders| - 1]]) == k;
      OfCluster(cpus, leaders[..|leaders| - 1], k) + (if mine then 1 else 0)
  }

  lemma OneMoreLeader(cpus: seq<nat>, dest: set<nat>, c: nat, k: nat)
    requires c < |cpus|
    ensures OfCluster(cpus, Leaders(cpus, dest, c + 1), k) == OfCluster(cpus, Leaders(cpus, dest, c), k) +
              if c in dest && !Joins(cpus, dest, c) && ClusterId(cpus[c]) == k then 1 else 0
  {
    hide Joins, ClusterId;
    var most := Leaders(cpus, dest, c);
    assert (most + [c])[..|most|] == most;
  }

  ghost predicate HasDest(cpus: seq<nat>, dest: set<nat>, hi: nat, k: nat) {
    exists c :: 0 <= c < hi <= |cpus| && c in dest && ClusterId(cpus[c]) == k
  }

  /** The destinations of cluster k below hi are neighbours in the order of the mask, and a target list
      can express all of them but perhaps the last. */
  ghost predicate Neighbours(cpus: seq<nat>, dest: set<nat>, hi: nat, k: nat) {
    forall a, b, c :: 0 <= a <= b < c < hi <= |cpus| && a in dest && b in dest && c in dest &&
                      ClusterId(cpus[a]) == k && ClusterId(cpus[c]) == k ==>
      ClusterId(cpus[b]) == k && Aff(cpus[b], 0) < 16
  }

  lemma LastBefore(dest: set<nat>, a: nat, c: nat) returns (p: nat)
    requires a < c && a in dest
    ensures a <= p && IsBefore(dest, p, c)
  {
    p := c - 1;
    while p !in dest
      invariant a <= p < c && forall q :: p < q < c ==> q !in dest
      decreases p
    {
      p := p - 1;
    }
  }

  /** A cluster with destinations gets exactly one write if and only if they are neighbours. */
  lemma {:induction false} OneWriteIff(cpus: seq<nat>, dest: set<nat>, hi: nat, k: nat)
    requires hi <= |cpus|
    ensures var n := OfCluster(cpus, Leaders(cpus, dest, hi), k);
            && (n > 0 <==> HasDest(cpus, dest, hi, k))
            && (n <= 1 <==> Neighbours(cpus, dest, hi, k))
  {
    hide HasDest, Neighbours, Joins, ClusterId, Leaders, OfCluster;
    if hi == 0 {
      NoCluster(cpus, dest, k);
    } else {
      OneWriteIff(cpus, dest, hi - 1, k);
      OneMoreLeader(cpus, dest, hi - 1, k);
      OneMore(cpus, dest, hi - 1, k);
    }
  }

  lemma NoCluster(cpus: seq<nat>, dest: set<nat>, k: nat)
    ensures OfCluster(cpus, Leaders(cpus, dest, 0), k) == 0
    ensures !HasDest(cpus, dest, 0, k) && Neighbours(cpus, dest, 0, k)
  {
  }

  /** What one more CPU means for the destinations of cluster k. */
  lemma OneMore(cpus: seq<nat>, dest: set<nat>, c: nat, k: nat)
    requires c < |cpus|
    ensures var mine := c in dest && ClusterId(cpus[c]) == k;
            && (HasDest(cpus, dest, c + 1, k) <==> HasDest(cpus, dest, c, k) || mine)
            && (Neighbours(cpus, dest, c + 1, k) <==>
                  Neighbours(cpus, dest, c, k) && (mine && HasDest(cpus, dest, c, k) ==> Joins(cpus, dest, c)))
            && (mine && Joins(cpus, dest, c) ==> HasDest(cpus, dest, c, k))
  {
    MoreDest(cpus, dest, c, k);
    hide Aff, ClusterId, Neighbours, Joins;
    if c in dest && ClusterId(cpus[c]) == k {
      if HasDest(cpus, dest, c, k) {
        var a :| 0 <= a < c && a in dest && ClusterId(cpus[a]) == k;
        var p := LastBefore(dest, a, c);
        JoinsIff(cpus, dest, p, c);
        MoreNeighbours(cpus, dest, a, p, c, k);
      } else {
        SameNeighbours(cpus, dest, c, k);
      }
    } else {
      SameNeighbours(cpus, dest, c, k);
    }
  }

  lemma MoreDest(cpus: seq<nat>, dest: set<nat>, c: nat, k: nat)
    requires c < |cpus|
    ensures var mine := c in dest && ClusterId(cpus[c]) == k;
            && (HasDest(cpus, dest, c + 1, k) <==> HasDest(cpus, dest, c, k) || mine)
            && (mine && Joins(cpus, dest, c) ==> HasDest(cpus, dest, c, k))
  {
    hide Aff, ClusterId;
  }

  lemma SameNeighbours(cpus: seq<nat>, dest: set<nat>, c: nat, k: nat)
    requires c < |cpus| && !(c in dest && ClusterId(cpus[c]) == k && HasDest(cpus, dest, c, k))
    ensures Neighbours(cpus, dest, c + 1, k) <==> Neighbours(cpus, dest, c, k)
  {
    hide Aff, ClusterId;
  }

  lemma MoreNeighbours(cpus: seq<nat>, dest: set<nat>, a: nat, p: nat, c: nat, k: nat)
    requires a <= p && c < |cpus| && IsBefore(dest, p, c) && a in dest && c in dest
    requires ClusterId(cpus[a]) == k && ClusterId(cpus[c]) == k
    ensures Neighbours(cpus, dest, c + 1, k) <==>
              Neighbours(cpus, dest, c, k) && ClusterId(cpus[p]) == k && Aff(cpus[p], 0) < 16
  {
    hide Aff, ClusterId;
  }

  /** Three CPUs that take three writes, though they are of two clusters: the second one, of another
      cluster, comes between the two of the first. */
  lemma ThreeWrites()
    ensures var cpus := [0x000, 0x100, 0x001];
            && DistinctCpus(cpus) && Leaders(cpus, {0, 1, 2}, 3) == [0, 1, 2]
            && OfCluster(cpus, [0, 1, 2], 0) == 2 && !Neighbours(cpus, {0, 1, 2}, 3, 0)
  {
    var cpus: seq<nat>, dest: set<nat> := [0x000, 0x100, 0x001], {0, 1, 2};
    assert ClusterId(cpus[0]) == 0 && ClusterId(cpus[1]) == 0x100 && ClusterId(cpus[2]) == 0;
    hide Joins, Neighbours, ClusterId;
    assert IsBefore(dest, 0, 1) && IsBefore(dest, 1, 2);
    JoinsIff(cpus, dest, 0, 1);
    JoinsIff(cpus, dest, 1, 2);
    ThreeLeaders(cpus, dest);
    ThreeDistinct();
    hide DistinctCpus, Leaders, OfCluster, HasDest, IsBefore;
    OneWriteIff(cpus, dest, 3, 0);
    ThreeOfCluster(cpus);
  }

  lemma ThreeDistinct()
    ensures DistinctCpus([0x000, 0x100, 0x001])
  {
  }

  lemma ThreeLeaders(cpus: seq<nat>, dest: set<nat>)
    requires |cpus| == 3 && 0 in dest && 1 in dest && 2 in dest
    requires !Joins(cpus, dest, 1) && !Joins(cpus, dest, 2)
    ensures Leaders(cpus, dest, 3) == [0, 1, 2]
  {
    FirstLeads(cpus, dest, 0);
    hide Joins;
    assert Leaders(cpus, dest, 1) == [0];
    assert Leaders(cpus, dest, 2) == [0, 1];
  }

  lemma ThreeOfCluster(cpus: seq<nat>)
    requires |cpus| == 3
    requires ClusterId(cpus[0]) == 0 && ClusterId(cpus[1]) != 0 && ClusterId(cpus[2]) == 0
    ensures OfCluster(cpus, [0, 1, 2], 0) == 2
  {
    hide ClusterId;
    assert [0, 1, 2][..2] == [0, 1] && [0, 1][..1] == [0] && [0][..0] == [];
    assert OfCluster(cpus, [0], 0) == 1;
    assert OfCluster(cpus, [0, 1], 0) == 1;
  }

  // ---- the code

  /** cpumask_next: the least member of the mask above cpu, else nr. */
  method CpumaskNext(cpu: int, mask: set<nat>, nr: nat) returns (next: int)
    requires -1 <= cpu <= nr
    ensures cpu <= next <= nr && 0 <= next
    ensures cpu < nr ==> cpu < next
    ensures next < nr ==> next in mask
    ensures forall c: nat :: cpu < c < next ==> c !in mask
  {
    next := cpu;
    while next < nr
      invariant cpu <= next <= nr
      invariant forall c: nat :: cpu < c <= next && c < nr ==> c !in mask
      decreases nr - next
    {
      next := next + 1;
      if next in mask {
        return;
      }
    }
  }

  lemma NothingCollected(cluster: nat, cpus: seq<nat>, dest: set<nat>, lo: nat)
    requires lo <= |cpus|
    ensures Collected(0, cluster, cpus, dest, lo, lo)
  {
    forall j: nat
      ensures !Bit(0, j)
    {
      ZeroBits(j);
    }
  }

  lemma NoWrites(cpus: seq<nat>)
    ensures WritesFor([], cpus, [])
  {
  }

  lemma NothingServed(cpus: seq<nat>, dest: set<nat>, first: nat, irq: nat)
    requires first <= |cpus| && forall c :: 0 <= c < first ==> c !in dest
    ensures Served([], cpus, dest, first, irq)
  {
  }

  /** gicv3_ipi_send_mask: `writes` are the values written to ICC_SGI1R_EL1, in order. */
  method IpiSendMask(irq: nat, dest: set<nat>, cpus: seq<nat>) returns (writes: seq<nat>)
    requires irq < 16 && DistinctCpus(cpus)
    ensures Served(writes, cpus, dest, |cpus|, irq)
    ensures WritesFor(writes, cpus, Leaders(cpus, dest, |cpus|))
  {
    hide Aff, Bit, Or, Sgi1r, Served, Collected, Joins, Leaders, WritesFor, Names;
    hide DistinctCpus, SameAffinity, ClusterId;
    var nr := |cpus|;
    writes := [];
    var cpu := CpumaskNext(-1, dest, nr);
    NothingServed(cpus, dest, cpu, irq);
    FirstLeads(cpus, dest, cpu);
    NoWrites(cpus);
    while cpu < nr
      invariant 0 <= cpu <= nr && (cpu < nr ==> cpu in dest)
      invariant Served(writes, cpus, dest, cpu, irq)
      invariant WritesFor(writes, cpus, Leaders(cpus, dest, cpu)) && (cpu < nr ==> !Joins(cpus, dest, cpu))
      decreases nr - cpu
    {
      ghost var start, collected, done: nat, last: nat := cpu, cpu, cpu, cpu;
      var mpidr := cpus[cpu];
      var clusterId := ClusterId(mpidr);
      var tlist := 0;
      NothingCollected(clusterId, cpus, dest, start);
      while cpu < nr
        invariant start <= cpu < nr && cpu in dest && mpidr == cpus[cpu] && ClusterId(mpidr) == clusterId
        invariant forall c :: start < c <= cpu && c in dest ==> Joins(cpus, dest, c)
        invariant collected == cpu && Collected(tlist, clusterId, cpus, dest, start, collected)
        decreases nr - cpu
      {
        if Aff(mpidr, 0) >= 16 {
          done, last := cpu + 1, cpu;
          break;
        }
        var next := CpumaskNext(cpu, dest, nr);
        CollectOne(tlist, clusterId, cpus, dest, start, cpu, next);
        last := cpu;
        if next < nr { JoinsIff(cpus, dest, cpu, next); }
        tlist := Or(tlist, Pow2(Aff(mpidr, 0) % 16));
        cpu, collected, done := next, next, next;
        if cpu >= nr {
          break;
        }
        mpidr := cpus[cpu];
        if clusterId != ClusterId(mpidr) {
          cpu := cpu - 1;
          break;
        }
      }
      WordServes(writes, tlist, clusterId, irq, cpus, dest, start, collected, done);
      writes := writes + [Sgi1r(clusterId, irq, tlist)];
      cpu := CpumaskNext(cpu, dest, nr);
      SkipServed(writes, cpus, dest, done, cpu, irq);
      if cpu < nr { JoinsIff(cpus, dest, last, cpu); }
      WordNames(cpus[start], irq, tlist);
      OneMoreWrite(writes[..|writes| - 1], writes[|writes| - 1], cpus, dest, start, cpu);
    }
  }

  lemma WordServes(writes: seq<nat>, tlist: nat, cluster: nat, irq: nat, cpus: seq<nat>, dest: set<nat>,
                   lo: nat, hi: nat, done: nat)
    requires irq < 16 && DistinctCpus(cpus) && lo < done && hi <= done <= |cpus| && cluster == ClusterId(cpus[lo])
    requires Served(writes, cpus, dest, lo, irq) && Collected(tlist, cluster, cpus, dest, lo, hi)
    requires forall c :: hi <= c < done && c in dest ==> Aff(cpus[c], 0) >= 16
    ensures Served(writes + [Sgi1r(cluster, irq, tlist)], cpus, dest, done, irq) && tlist < 0x1_0000
  {
    hide Sgi1r, Served, Aff;
    var w := Sgi1r(cluster, irq, tlist);
    WordFields(cluster, irq, tlist);
    forall m
      ensures Interrupts(w, m) <==> IsTarget(cpus, dest, lo, hi, m)
    {
      WriteServes(tlist, cluster, irq, cpus, dest, lo, hi, m);
    }
    ServeMore(writes, w, cpus, dest, lo, hi, done, irq);
  }

  lemma SkipServed(writes: seq<nat>, cpus: seq<nat>, dest: set<nat>, done: nat, next: nat, irq: nat)
    requires Served(writes, cpus, dest, done, irq) && done <= next <= |cpus|
    requires forall c :: done <= c < next ==> c !in dest
    ensures Served(writes, cpus, dest, next, irq)
  {
    forall m
      ensures IsTarget(cpus, dest, 0, next, m) <==> IsTarget(cpus, dest, 0, done, m)
    {
    }
  }
}
