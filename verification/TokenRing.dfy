/** The round-robin test: CPUs hand a token around a ring by comparing and bumping counters that
    nothing protects. */
module TokenRing {
  import opened Bits

  /** Where a CPU is. Each step is one load or one store of the shared counters; a value it has loaded
      is part of its place. */
  datatype Pc =
    | Waiting                 // about to load its n1, to compare it
    | Seen(v: int)            // has n1, about to load its n2 and compare
    | Past                    // out of the spin, about to load its n1 again
    | Loaded(v: int)          // about to store that in its n2
    | Copied                  // n2 = n1 done, about to load its neighbour's n1
    | Adding(v: int)          // about to store that plus one

  predicate Spins(pc: Pc) { pc.Waiting? || pc.Seen? }

  /** `order` records which CPU completed each pass. */
  datatype State = State(n1: seq<int>, n2: seq<int>, pc: seq<Pc>, order: seq<nat>)

  ghost predicate Shape(s: State, n: nat) {
    n > 0 && |s.n1| == |s.n2| == |s.pc| == n
  }

  ghost predicate Init(s: State, n: nat) {
    && Shape(s, n) && s.order == []
    && (forall i :: 0 <= i < n ==> s.n1[i] == (if i == 0 then -1 else 0) && s.n2[i] == 0 && s.pc[i] == Waiting)
  }

  function Neighbour(c: nat, n: nat): nat {
    if c + 1 == n then 0 else c + 1
  }

  /** One step of CPU c. */
  function Step(s: State, n: nat, c: nat): State
    requires Shape(s, n) && c < n
  {
    var you := Neighbour(c, n);
    match s.pc[c]
    case Waiting => s.(pc := s.pc[c := Seen(s.n1[c])])
    case Seen(v) => s.(pc := s.pc[c := if v == s.n2[c] then Waiting else Past])
    case Past => s.(pc := s.pc[c := Loaded(s.n1[c])])
    case Loaded(v) => s.(n2 := s.n2[c := v], pc := s.pc[c := Copied])
    case Copied => s.(pc := s.pc[c := Adding(s.n1[you])])
    case Adding(v) => s.(n1 := s.n1[you := v + 1], pc := s.pc[c := Waiting], order := s.order + [c])
  }

  // ---- the invariant

  /** Passes CPU i has completed when the token is with CPU h in round r. */
  function Passes(h: nat, r: nat, i: nat): nat { if i < h then r + 1 else r }

  /** n2 of CPU i after its last pass. */
  function Rest(passes: nat, i: nat): int {
    if i > 0 then passes else if passes == 0 then 0 else passes - 2
  }

  /** n1 of CPU i. */
  function Given(n: nat, h: nat, r: nat, i: nat): int
    requires n > 0
  {
    if i > 0 then Passes(h, r, i - 1) else Passes(h, r, n - 1) - 1
  }

  /** The CPU with the token: what it has loaded is current, save that the spin may still hold the n1
      of before the token came. */
  ghost predicate HolderOk(s: State, n: nat, h: nat, r: nat)
    requires Shape(s, n) && h < n
  {
    match s.pc[h]
    case Seen(v) => s.n2[h] == Rest(r, h) && (v == s.n1[h] || v == s.n2[h])
    case Loaded(v) => s.n2[h] == Rest(r, h) && v == s.n1[h]
    case Copied => s.n2[h] == s.n1[h]
    case Adding(v) => s.n2[h] == s.n1[h] && v == s.n1[Neighbour(h, n)]
    case _ => s.n2[h] == Rest(r, h)
  }

  ghost predicate InvAt(s: State, n: nat, h: nat, r: nat) {
    && Shape(s, n) && h < n && OrderOk(s.order, n, h, r)
    && (forall i :: 0 <= i < n ==> s.n1[i] == Given(n, h, r, i))
    && (forall i :: 0 <= i < n && i != h ==> OtherOk(s, n, h, r, i))
    && HolderOk(s, n, h, r)
  }

  /** The passes so far went round the ring: r rounds, and h more. */
  ghost predicate OrderOk(order: seq<nat>, n: nat, h: nat, r: nat)
    requires n > 0
  {
    |order| == r * n + h && forall k :: 0 <= k < |order| ==> order[k] == k % n
  }

  /** A CPU without the token: it spins, for its counters are equal. */
  ghost predicate OtherOk(s: State, n: nat, h: nat, r: nat, i: nat)
    requires Shape(s, n) && i < n
  {
    Spins(s.pc[i]) && s.n2[i] == Rest(Passes(h, r, i), i) && (s.pc[i].Seen? ==> s.pc[i].v == s.n1[i])
  }

  lemma InitInv(s: State, n: nat)
    requires Init(s, n)
    ensures InvAt(s, n, 0, 0)
  {
  }

  /** How many of its own steps the holder still needs for its pass. */
  function Left(s: State, h: nat): nat
    requires h < |s.pc| && h < |s.n1|
  {
    match s.pc[h]
    case Seen(v) => if v == s.n1[h] then 5 else 7
    case Waiting => 6
    case Past => 4
    case Loaded(_) => 3
    case Copied => 2
    case Adding(_) => 1
  }

  /** CPUs that do not have the token keep spinning and write nothing. */
  lemma OtherStep(s: State, n: nat, c: nat, h: nat, r: nat)
    requires InvAt(s, n, h, r) && c < n && c != h
    ensures var s' := Step(s, n, c);
            && InvAt(s', n, h, r) && s'.n1 == s.n1 && s'.n2 == s.n2 && s'.order == s.order
            && Left(s', h) == Left(s, h)
  {
    hide OrderOk;
    assert OtherOk(s, n, h, r, c);
    assert s.n1[c] == Given(n, h, r, c) == s.n2[c];
    var s' := Step(s, n, c);
    forall i | 0 <= i < n && i != h
      ensures OtherOk(s', n, h, r, i)
    {
      assert OtherOk(s, n, h, r, i);
    }
  }

  /** The CPU that has the token comes closer to the end of its pass with every step. */
  lemma HolderStep(s: State, n: nat, h: nat, r: nat)
    requires InvAt(s, n, h, r) && !s.pc[h].Adding?
    ensures var s' := Step(s, n, h);
            InvAt(s', n, h, r) && s'.order == s.order && Left(s', h) < Left(s, h)
  {
    hide OrderOk;
    assert s.n1[h] == Given(n, h, r, h) != Rest(r, h);
    var s' := Step(s, n, h);
    forall i | 0 <= i < n && i != h
      ensures OtherOk(s', n, h, r, i)
    {
      assert OtherOk(s, n, h, r, i);
    }
  }

  /** Whose turn it is after CPU h, and in which round. */
  function NextRound(h: nat, r: nat, n: nat): nat { if h + 1 == n then r + 1 else r }

  /** The last step of a pass hands the token to the neighbour. */
  lemma PassKeepsInv(s: State, n: nat, h: nat, r: nat)
    requires InvAt(s, n, h, r) && s.pc[h].Adding?
    ensures var s' := Step(s, n, h);
            s'.order == s.order + [h] && InvAt(s', n, Neighbour(h, n), NextRound(h, r, n))
  {
    hide OrderOk;
    var s' := Step(s, n, h);
    var h', r' := Neighbour(h, n), NextRound(h, r, n);
    NextInOrder(s.order, n, h, r);
    GivenNext(n, h, r);
    forall i | 0 <= i < n && i != h'
      ensures OtherOk(s', n, h', r', i)
    {
      if i != h { assert OtherOk(s, n, h, r, i); }
    }
    if h' != h { assert OtherOk(s, n, h, r, h'); }
  }

  /** A pass raises the neighbour's n1 by one, and no other. */
  lemma GivenNext(n: nat, h: nat, r: nat)
    requires h < n
    ensures var h', r' := Neighbour(h, n), NextRound(h, r, n);
            forall i: nat :: i < n ==> Given(n, h', r', i) == Given(n, h, r, i) + if i == h' then 1 else 0
  {
  }

  lemma NextInOrder(order: seq<nat>, n: nat, h: nat, r: nat)
    requires h < n && OrderOk(order, n, h, r)
    ensures OrderOk(order + [h], n, Neighbour(h, n), NextRound(h, r, n))
  {
    DivModUnique(|order|, n, r, h);
    assert (r + 1) * n == r * n + n;
  }

  // ---- whole runs

  /** The state after the CPUs named in `moves` have taken one step each, in that order. */
  function Run(s: State, n: nat, moves: seq<nat>): (t: State)
    requires Shape(s, n)
    ensures Shape(t, n)
    decreases |moves|
  {
    if moves == [] then s
    else
      var before := Run(s, n, moves[..|moves| - 1]);
      var c := moves[|moves| - 1];
      if c < n then Step(before, n, c) else before
  }

  lemma {:induction false} RunInv(s: State, n: nat, moves: seq<nat>) returns (h: nat, r: nat)
    requires Init(s, n)
    ensures InvAt(Run(s, n, moves), n, h, r)
    decreases |moves|
  {
    if moves == [] {
      InitInv(s, n);
      h, r := 0, 0;
    } else {
      h, r := RunInv(s, n, moves[..|moves| - 1]);
      var before, c := Run(s, n, moves[..|moves| - 1]), moves[|moves| - 1];
      hide Step, InvAt, OrderOk;
      if c < n && c != h {
        OtherStep(before, n, c, h, r);
      } else if c < n && !before.pc[h].Adding? {
        HolderStep(before, n, h, r);
      } else if c < n {
        PassKeepsInv(before, n, h, r);
        h, r := Neighbour(h, n), NextRound(h, r, n);
      }
    }
  }

  /** In every interleaving at most one CPU is past its wait. */
  lemma MutualExclusion(s: State, n: nat, moves: seq<nat>, i: nat, j: nat)
    requires Init(s, n) && i < n && j < n
    ensures var t := Run(s, n, moves); !Spins(t.pc[i]) && !Spins(t.pc[j]) ==> i == j
  {
    var h, r := RunInv(s, n, moves);
    assert i != h ==> OtherOk(Run(s, n, moves), n, h, r, i);
    assert j != h ==> OtherOk(Run(s, n, moves), n, h, r, j);
  }

  /** No update is lost: a CPU that is about to store the neighbour's counter has loaded its current
      value, and nobody else is about to store it. */
  lemma NoLostUpdate(s: State, n: nat, moves: seq<nat>, c: nat)
    requires Init(s, n) && c < n && Run(s, n, moves).pc[c].Adding?
    ensures var t := Run(s, n, moves);
            && t.pc[c].v == t.n1[Neighbour(c, n)]
            && forall d :: 0 <= d < n && t.pc[d].Adding? ==> d == c
  {
    var h, r := RunInv(s, n, moves);
    forall d | 0 <= d < n && d != h
      ensures Spins(Run(s, n, moves).pc[d])
    {
      assert OtherOk(Run(s, n, moves), n, h, r, d);
    }
  }

  /** In every interleaving the k-th pass is that of CPU k mod n. */
  lemma RingOrder(s: State, n: nat, moves: seq<nat>, k: nat)
    requires Init(s, n) && k < |Run(s, n, moves).order|
    ensures Run(s, n, moves).order[k] == k % n
  {
    var h, r := RunInv(s, n, moves);
  }

  /** Passes of CPU i so far. */
  function CountOf(order: seq<nat>, i: nat): nat {
    if order == [] then 0
    else CountOf(order[..|order| - 1], i) + (if order[|order| - 1] == i then 1 else 0)
  }

  lemma {:induction false} CountRing(order: seq<nat>, n: nat, h: nat, r: nat, i: nat)
    requires n > 0 && h < n && i < n && |order| == r * n + h
    requires forall k :: 0 <= k < |order| ==> order[k] == k % n
    ensures CountOf(order, i) == Passes(h, r, i)
    decreases |order|
  {
    if h > 0 {
      DivModUnique(|order| - 1, n, r, h - 1);
      CountRing(order[..|order| - 1], n, h - 1, r, i);
    } else if r > 0 {
      assert r * n == (r - 1) * n + n;
      DivModUnique(|order| - 1, n, r - 1, n - 1);
      CountRing(order[..|order| - 1], n, n - 1, r - 1, i);
    } else {
      assert r * n == 0;
    }
  }

  /** In every interleaving the pass counts fall along the ring, and by at most one. */
  lemma CountsFall(s: State, n: nat, moves: seq<nat>, i: nat, j: nat)
    requires Init(s, n) && i <= j < n
    ensures var order := Run(s, n, moves).order;
            CountOf(order, j) <= CountOf(order, i) <= CountOf(order, j) + 1
  {
    var h, r := RunInv(s, n, moves);
    CountRing(Run(s, n, moves).order, n, h, r, i);
    CountRing(Run(s, n, moves).order, n, h, r, j);
  }

  /** What further steps do to the pass under way: they complete it, or each step of the holder among
      them has brought it closer to its end. */
  lemma {:induction false} Progress(s: State, n: nat, moves: seq<nat>, more: seq<nat>, h: nat, r: nat)
    requires Init(s, n) && InvAt(Run(s, n, moves), n, h, r)
    ensures var t, t' := Run(s, n, moves), Run(s, n, moves + more);
            if t'.order == t.order then InvAt(t', n, h, r) && Left(t', h) + CountOf(more, h) <= Left(t, h)
            else t.order + [h] <= t'.order
    decreases |more|
  {
    if more == [] {
      assert moves + more == moves;
    } else {
      var most := more[..|more| - 1];
      Progress(s, n, moves, most, h, r);
      assert (moves + more)[..|moves + more| - 1] == moves + most;
      var t, c := Run(s, n, moves + most), more[|more| - 1];
      if c < n {
        var h', r' := RunInv(s, n, moves + most);
        if t.order == Run(s, n, moves).order {
          DivModUnique(|t.order|, n, r, h);
          DivModUnique(|t.order|, n, r', h');
        }
        if c != h' {
          OtherStep(t, n, c, h', r');
        } else if !t.pc[c].Adding? {
          HolderStep(t, n, c, r');
        }
      }
    }
  }

  /** The ring never stalls: from every reachable state, whatever the other CPUs do, the CPU whose turn
      it is has completed its pass by its seventh step. */
  lemma NeverStalls(s: State, n: nat, moves: seq<nat>, more: seq<nat>)
    requires Init(s, n)
    ensures var order := Run(s, n, moves).order;
            var c := |order| % n;
            CountOf(more, c) >= 7 ==> order + [c] <= Run(s, n, moves + more).order
  {
    var h, r := RunInv(s, n, moves);
    DivModUnique(|Run(s, n, moves).order|, n, r, h);
    Progress(s, n, moves, more, h, r);
  }
}
