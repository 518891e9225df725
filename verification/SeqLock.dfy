/** The version protocol of pvclock: a writer that makes the version odd, changes fields one at a
    time and makes it even again, against a reader that copies the fields and retries. */
module SeqLock {
  import opened Bits

  /** pvclock_clocksource_read clears the low bit of the version it starts from;
      pvclock_read_wallclock keeps the version and tests its low bit afterwards. */
  datatype Flavour = PerCpu | WallClock

  datatype Reader =
    | Idle
    | Copying(version: nat, start: nat, copy: seq<int>)
    | Checking(version: nat, start: nat, copy: seq<int>)     // the low bit was found clear
    | Accepted(start: nat, copy: seq<int>, end: nat)

  /** `count` is the number of version changes so far; the version field holds its low 32 bits.
      history[k] is what the k-th completed update left in the fields. */
  datatype State = State(count: nat, fields: seq<int>, history: seq<seq<int>>, reader: Reader)

  function Version(s: State): nat { s.count % U32 }

  datatype Action =
    | Open                              // writer: make the version odd
    | Write(i: nat, value: int)         // writer: store one field
    | Close                             // writer: make the version even
    | Begin                             // reader: read the version
    | Copy                              // reader: read the next field
    | TestLowBit                        // reader: wall clock only
    | Compare                           // reader: read the version again

  predicate Enabled(s: State, a: Action, f: Flavour) {
    match a
    case Open => s.count % 2 == 0
    case Write(i, _) => s.count % 2 == 1 && i < |s.fields|
    case Close => s.count % 2 == 1
    case Begin => s.reader.Idle? || s.reader.Accepted?
    case Copy => s.reader.Copying? && |s.reader.copy| < |s.fields|
    case TestLowBit => f == WallClock && s.reader.Copying? && |s.reader.copy| == |s.fields|
    case Compare =>
      if f == PerCpu then s.reader.Copying? && |s.reader.copy| == |s.fields| else s.reader.Checking?
  }

  /** The state after action a; a failed test sends the reader back to its start. */
  function Step(s: State, a: Action, f: Flavour): State
    requires Enabled(s, a, f)
  {
    match a
    case Open => s.(count := s.count + 1)
    case Write(i, value) => s.(fields := s.fields[i := value])
    case Close => s.(count := s.count + 1, history := s.history + [s.fields])
    case Begin =>
      var v := if f == PerCpu then Version(s) - Version(s) % 2 else Version(s);
      s.(reader := Copying(v, s.count, []))
    case Copy => s.(reader := Copying(s.reader.version, s.reader.start, s.reader.copy + [s.fields[|s.reader.copy|]]))
    case TestLowBit =>
      if Version(s) % 2 == 1 then s.(reader := Idle)
      else s.(reader := Checking(s.reader.version, s.reader.start, s.reader.copy))
    case Compare =>
      if s.reader.version == Version(s) then s.(reader := Accepted(s.reader.start, s.reader.copy, s.count))
      else s.(reader := Idle)
  }

  ghost predicate Init(s: State) {
    s.count == 0 && s.history == [s.fields] && s.reader == Idle
  }

  // ---- the invariant

  /** While the version has not moved since an even start, the copy is a prefix of the fields. */
  ghost predicate CopyOk(s: State, version: nat, start: nat, copy: seq<int>, f: Flavour) {
    && start <= s.count && |copy| <= |s.fields|
    && version == (if f == PerCpu then start % U32 - start % U32 % 2 else start % U32)
    && (start == s.count && start % 2 == 0 ==> copy == s.fields[..|copy|])
  }

  /** From how many version changes on a read can be fooled. The per-CPU reader rounds the version it
      starts from down to an even one, which costs it one change. */
  function Bound(f: Flavour): nat {
    if f == PerCpu then U32 - 1 else U32
  }

  /** What the reader copied is one completed update, the one in force when it compared. */
  ghost predicate Snapshot(s: State, copy: seq<int>, end: nat) {
    end % 2 == 0 && end / 2 < |s.history| && copy == s.history[end / 2]
  }

  /** What the reader accepted is a snapshot, unless the version went all the way round meanwhile. */
  ghost predicate AcceptedOk(s: State, start: nat, copy: seq<int>, end: nat, f: Flavour) {
    end >= start + Bound(f) || (start == end && Snapshot(s, copy, end))
  }

  ghost predicate ReaderOk(s: State, f: Flavour) {
    match s.reader
    case Idle => true
    case Copying(version, start, copy) => CopyOk(s, version, start, copy, f)
    case Checking(version, start, copy) =>
      && f == WallClock && |copy| == |s.fields| && CopyOk(s, version, start, copy, f)
      && (start == s.count ==> start % 2 == 0)
    case Accepted(start, copy, end) => start <= end <= s.count && AcceptedOk(s, start, copy, end, f)
  }

  ghost predicate Inv(s: State, f: Flavour) {
    && |s.history| == s.count / 2 + 1
    && (s.count % 2 == 0 ==> s.history[s.count / 2] == s.fields)
    && ReaderOk(s, f)
  }

  /** Two counts with the same low 32 bits are equal or 2^32 apart at least. */
  lemma SameVersion(a: nat, b: nat)
    requires a <= b && a % U32 == b % U32
    ensures a == b || b >= a + U32
  {
  }

  lemma SameParity(a: nat)
    ensures a % U32 % 2 == a % 2
  {
  }

  lemma VersionBelow(a: nat)
    requires a % 2 == 1
    ensures (a - 1) % U32 == a % U32 - 1
  {
    SameParity(a);
    Division(a, U32);
    DivModUnique(a - 1, U32, a / U32, a % U32 - 1);
  }

  lemma CompareSound(s: State, f: Flavour)
    requires Inv(s, f) && Enabled(s, Compare, f) && s.reader.version == Version(s)
    ensures AcceptedOk(s, s.reader.start, s.reader.copy, s.count, f)
  {
    var start, copy := s.reader.start, s.reader.copy;
    if f == PerCpu && start % 2 == 1 {
      SameParity(start);
      VersionBelow(start);
      SameVersion(start - 1, s.count);
    } else {
      SameParity(start);
      SameVersion(start, s.count);
    }
  }

  lemma StepKeepsInv(s: State, a: Action, f: Flavour)
    requires Inv(s, f) && Enabled(s, a, f)
    ensures Inv(Step(s, a, f), f) && |Step(s, a, f).fields| == |s.fields|
  {
    if a.Compare? && s.reader.version == Version(s) {
      CompareSound(s, f);
    } else if a.TestLowBit? {
      assert s.count % 2 == 0 ==> s.count % U32 % 2 == 0;
      assert s.count % 2 == 1 ==> s.count % U32 % 2 == 1;
    }
  }

  // ---- whole runs

  /** The state after the given actions, in order, if each is enabled when its turn comes. */
  datatype Outcome = Stuck | At(state: State)

  function Run(s: State, actions: seq<Action>, f: Flavour): Outcome
    decreases |actions|
  {
    if actions == [] then At(s)
    else
      match Run(s, actions[..|actions| - 1], f)
      case Stuck => Stuck
      case At(t) =>
        var a := actions[|actions| - 1];
        if Enabled(t, a, f) then At(Step(t, a, f)) else Stuck
  }

  lemma {:induction false} RunKeepsInv(s: State, actions: seq<Action>, f: Flavour)
    requires Init(s) && Run(s, actions, f).At?
    ensures var t := Run(s, actions, f).state; Inv(t, f) && |t.fields| == |s.fields|
    decreases |actions|
  {
    if actions != [] {
      RunKeepsInv(s, actions[..|actions| - 1], f);
      StepKeepsInv(Run(s, actions[..|actions| - 1], f).state, actions[|actions| - 1], f);
    }
  }

  /** In every interleaving, a read that leaves its retry loop has copied one completed update, the
      one in force when it left, unless the version changed as often as the bound meanwhile. */
  lemma ReadsAreSnapshots(s: State, actions: seq<Action>, f: Flavour)
    requires Init(s) && Run(s, actions, f).At? && Run(s, actions, f).state.reader.Accepted?
    ensures var t := Run(s, actions, f).state;
            t.reader.end - t.reader.start < Bound(f) ==>
              t.reader.start == t.reader.end && Snapshot(t, t.reader.copy, t.reader.end)
  {
    RunKeepsInv(s, actions, f);
  }

  /** Every accepted read during which the version changed at most n times is a snapshot. */
  ghost predicate SafeUpTo(f: Flavour, n: nat) {
    forall s: State, actions: seq<Action> ::
      Init(s) && Run(s, actions, f).At? && Run(s, actions, f).state.reader.Accepted? ==>
        var t := Run(s, actions, f).state;
        t.reader.end - t.reader.start <= n ==> Snapshot(t, t.reader.copy, t.reader.end)
  }

  /** Exactly how far the protocol can be trusted. */
  lemma ExactBound(f: Flavour, n: nat)
    ensures SafeUpTo(f, n) <==> n < Bound(f)
  {
    hide Run, Snapshot;
    if n < Bound(f) {
      forall s: State, actions: seq<Action> |
        Init(s) && Run(s, actions, f).At? && Run(s, actions, f).state.reader.Accepted?
        ensures var t := Run(s, actions, f).state;
                t.reader.end - t.reader.start <= n ==> Snapshot(t, t.reader.copy, t.reader.end)
      {
        ReadsAreSnapshots(s, actions, f);
      }
    } else {
      var actions := TornAtBound(f);
    }
  }

  // ---- undisturbed reads and whole updates

  lemma RunMore(s: State, actions: seq<Action>, a: Action, f: Flavour)
    requires Run(s, actions, f).At? && Enabled(Run(s, actions, f).state, a, f)
    ensures Run(s, actions + [a], f) == At(Step(Run(s, actions, f).state, a, f))
  {
    assert (actions + [a])[..|actions|] == actions;
  }

  function Copies(n: nat): (actions: seq<Action>)
    ensures |actions| == n && forall i :: 0 <= i < n ==> actions[i] == Copy
  {
    seq(n, _ => Copy)
  }

  lemma {:induction false} RunCopies(s: State, actions: seq<Action>, n: nat, f: Flavour)
    requires Run(s, actions, f).At? && n <= |Run(s, actions, f).state.fields|
    requires var r := Run(s, actions, f).state.reader; r.Copying? && r.copy == []
    ensures var t := Run(s, actions, f).state;
            Run(s, actions + Copies(n), f) ==
            At(t.(reader := Copying(t.reader.version, t.reader.start, t.fields[..n])))
    decreases n
  {
    var t := Run(s, actions, f).state;
    if n == 0 {
      assert actions + Copies(0) == actions;
      assert t.fields[..0] == [];
    } else {
      RunCopies(s, actions, n - 1, f);
      assert actions + Copies(n) == actions + Copies(n - 1) + [Copy];
      RunMore(s, actions + Copies(n - 1), Copy, f);
      assert t.fields[..n] == t.fields[..n - 1] + [t.fields[n - 1]];
    }
  }

  /** What a reader does from its first access to its last, for n fields. */
  function ReadOnce(n: nat, f: Flavour): seq<Action> {
    [Begin] + Copies(n) + (if f == PerCpu then [Compare] else [TestLowBit, Compare])
  }

  /** A read that begins while no update is under way, and that no writer disturbs, is accepted at its
      first attempt, with the fields as they are, whatever the version. */
  lemma UndisturbedRead(s: State, actions: seq<Action>, f: Flavour)
    requires Init(s) && Run(s, actions, f).At?
    requires var t := Run(s, actions, f).state; t.count % 2 == 0 && (t.reader.Idle? || t.reader.Accepted?)
    ensures var t := Run(s, actions, f).state;
            Run(s, actions + ReadOnce(|t.fields|, f), f) == At(t.(reader := Accepted(t.count, t.fields, t.count)))
  {
    hide Run, Step, Copies;
    var t := Run(s, actions, f).state;
    var n := |t.fields|;
    RunMore(s, actions, Begin, f);
    var begun := actions + [Begin];
    BeginsEven(t, f);
    RunCopies(s, begun, n, f);
    assert t.fields[..n] == t.fields;
    var copied := begun + Copies(n);
    var u := Run(s, copied, f).state;
    EndsEven(u, f);
    if f == WallClock {
      RunMore(s, copied, TestLowBit, f);
      RunMore(s, copied + [TestLowBit], Compare, f);
      assert copied + [TestLowBit] + [Compare] == actions + ReadOnce(n, f);
    } else {
      RunMore(s, copied, Compare, f);
      assert copied + [Compare] == actions + ReadOnce(n, f);
    }
  }

  lemma BeginsEven(t: State, f: Flavour)
    requires t.count % 2 == 0 && Enabled(t, Begin, f)
    ensures Step(t, Begin, f) == t.(reader := Copying(Version(t), t.count, []))
  {
    assert t.count % U32 % 2 == 0;
  }

  lemma EndsEven(u: State, f: Flavour)
    requires u.count % 2 == 0 && u.reader == Copying(Version(u), u.count, u.fields)
    ensures f == PerCpu ==>
      Enabled(u, Compare, f) && Step(u, Compare, f) == u.(reader := Accepted(u.count, u.fields, u.count))
    ensures f == WallClock ==>
      && Enabled(u, TestLowBit, f)
      && var v := Step(u, TestLowBit, f);
         Enabled(v, Compare, f) && Step(v, Compare, f) == u.(reader := Accepted(u.count, u.fields, u.count))
  {
    assert u.count % U32 % 2 == 0;
  }

  /** The stores of an update that sets the fields to `values`, from field 0 up to field n. */
  function Writes(values: seq<int>, n: nat): (actions: seq<Action>)
    requires n <= |values|
    ensures |actions| == n
  {
    if n == 0 then [] else Writes(values, n - 1) + [Write(n - 1, values[n - 1])]
  }

  lemma OneMoreField(values: seq<int>, fields: seq<int>, n: nat)
    requires 0 < n <= |values| == |fields|
    ensures (values[..n - 1] + fields[n - 1..])[n - 1 := values[n - 1]] == values[..n] + fields[n..]
  {
  }

  lemma {:induction false} RunWrites(s: State, actions: seq<Action>, values: seq<int>, n: nat, f: Flavour)
    requires Run(s, actions, f).At? && Run(s, actions, f).state.count % 2 == 1
    requires |values| == |Run(s, actions, f).state.fields| && n <= |values|
    ensures var t := Run(s, actions, f).state;
            Run(s, actions + Writes(values, n), f) == At(t.(fields := values[..n] + t.fields[n..]))
    decreases n
  {
    var t := Run(s, actions, f).state;
    if n == 0 {
      assert actions + Writes(values, 0) == actions;
      assert values[..0] + t.fields[0..] == t.fields;
    } else {
      RunWrites(s, actions, values, n - 1, f);
      hide Run;
      var w := Write(n - 1, values[n - 1]);
      assert actions + Writes(values, n) == actions + Writes(values, n - 1) + [w];
      RunMore(s, actions + Writes(values, n - 1), w, f);
      OneMoreField(values, t.fields, n);
    }
  }

  lemma WriterSteps(t: State, f: Flavour)
    ensures t.count % 2 == 0 ==> Enabled(t, Open, f) && Step(t, Open, f) == t.(count := t.count + 1)
    ensures t.count % 2 == 1 ==>
      && Enabled(t, Close, f)
      && Step(t, Close, f) == t.(count := t.count + 1, history := t.history + [t.fields])
  {
  }

  /** A whole update leaves its values in the fields and in the history, two version changes on, whatever
      the reader is doing. */
  lemma WholeUpdate(s: State, actions: seq<Action>, values: seq<int>, f: Flavour)
    requires Init(s) && Run(s, actions, f).At? && Run(s, actions, f).state.count % 2 == 0
    requires |values| == |Run(s, actions, f).state.fields|
    ensures var t := Run(s, actions, f).state;
            Run(s, actions + [Open] + Writes(values, |values|) + [Close], f) ==
            At(State(t.count + 2, values, t.history + [values], t.reader))
  {
    hide Run, Writes, Step;
    var t := Run(s, actions, f).state;
    RunMore(s, actions, Open, f);
    WriterSteps(t, f);
    WriterSteps(State(t.count + 1, values, t.history, t.reader), f);
    RunWrites(s, actions + [Open], values, |values|, f);
    assert values[..|values|] + t.fields[|values|..] == values;
    RunMore(s, actions + [Open] + Writes(values, |values|), Close, f);
  }

  // ---- the exception is real

  /** n more complete updates, each of which stores v in field 1. */
  function Updates(n: nat, v: int): seq<Action> {
    if n == 0 then [] else Updates(n - 1, v) + [Open, Write(1, v), Close]
  }

  lemma {:induction false} RunAppend(s: State, xs: seq<Action>, ys: seq<Action>, f: Flavour)
    requires Run(s, xs, f).At?
    ensures Run(s, xs + ys, f) == Run(Run(s, xs, f).state, ys, f)
    decreases |ys|
  {
    if ys == [] {
      assert xs + ys == xs;
    } else {
      var most := ys[..|ys| - 1];
      RunAppend(s, xs, most, f);
      assert (xs + ys)[..|xs + ys| - 1] == xs + most;
    }
  }

  lemma OneUpdate(s: State, v: int, f: Flavour)
    requires s.count % 2 == 0 && |s.fields| == 2
    ensures var fields := [s.fields[0], v];
            Run(s, [Open, Write(1, v), Close], f) ==
            At(State(s.count + 2, fields, s.history + [fields], s.reader))
  {
    RunThree(s, Open, Write(1, v), Close, f);
    assert s.fields[1 := v] == [s.fields[0], v];
  }

  lemma {:induction false} RunUpdates(s: State, n: nat, v: int, f: Flavour)
    requires s.count % 2 == 0 && |s.fields| == 2
    ensures var o := Run(s, Updates(n, v), f);
            && o.At? && o.state.count == s.count + 2 * n && o.state.reader == s.reader
            && o.state.fields == (if n == 0 then s.fields else [s.fields[0], v])
            && |o.state.history| == |s.history| + n
            && (forall k :: |s.history| <= k < |s.history| + n ==> o.state.history[k] == [s.fields[0], v])
            && s.history <= o.state.history
  {
    if n > 0 {
      hide Step;
      RunUpdates(s, n - 1, v, f);
      var xs, ys := Updates(n - 1, v), [Open, Write(1, v), Close];
      var t := Run(s, xs, f).state;
      RunAppend(s, xs, ys, f);
      OneUpdate(t, v, f);
    }
  }

  lemma RunThree(s: State, a: Action, b: Action, c: Action, f: Flavour)
    requires Enabled(s, a, f) && Enabled(Step(s, a, f), b, f)
    requires Enabled(Step(Step(s, a, f), b, f), c, f)
    ensures Run(s, [a, b, c], f) == At(Step(Step(Step(s, a, f), b, f), c, f))
  {
    assert [a, b, c][..2] == [a, b] && [a, b][..1] == [a] && [a][..0] == [];
    assert Run(s, [a], f) == At(Step(s, a, f));
    assert Run(s, [a, b], f) == At(Step(Step(s, a, f), b, f));
  }

  lemma RunTwo(s: State, a: Action, b: Action, f: Flavour)
    requires Enabled(s, a, f) && Enabled(Step(s, a, f), b, f)
    ensures Run(s, [a, b], f) == At(Step(Step(s, a, f), b, f))
  {
    assert [a, b][..1] == [a] && [a][..0] == [];
    assert Run(s, [a], f) == At(Step(s, a, f));
  }

  const START := State(0, [0, 0], [[0, 0]], Idle)

  /** The wall-clock reader begins before the updates, the per-CPU reader within the first one, when
      the version is odd already; it has copied field 0 when the others take place. */
  lemma HeadRun(f: Flavour) returns (head: seq<Action>)
    ensures Run(START, head, f) ==
            At(State(2, [2, 2], [[0, 0], [2, 2]], Copying(0, if f == PerCpu then 1 else 0, [0])))
  {
    var a := if f == PerCpu then [Open, Begin, Copy] else [Begin, Copy, Open];
    var b := [Write(0, 2), Write(1, 2), Close];
    var t := START.(count := 1, reader := Copying(0, if f == PerCpu then 1 else 0, [0]));
    var none: seq<int> := [];
    assert none + [0] == [0];
    RunThree(START, a[0], a[1], a[2], f);
    assert Run(START, a, f) == At(t);
    RunThree(t, Write(0, 2), Write(1, 2), Close, f);
    assert [0, 0][0 := 2][1 := 2] == [2, 2];
    assert [[0, 0]] + [[2, 2]] == [[0, 0], [2, 2]];
    RunAppend(START, a, b, f);
    head := a + b;
  }

  /** The reader copies field 1, and finds the version it began with. */
  lemma TailRun(s: State, f: Flavour) returns (tail: seq<Action>)
    requires |s.fields| == 2 && s.count == U32 && s.reader.Copying?
    requires s.reader.version == 0 && s.reader.copy == [0]
    ensures Run(s, tail, f) == At(s.(reader := Accepted(s.reader.start, [0, s.fields[1]], U32)))
  {
    var t := s.(reader := Copying(s.reader.version, s.reader.start, [0, s.fields[1]]));
    assert [0] + [s.fields[1]] == [0, s.fields[1]];
    if f == PerCpu {
      tail := [Copy, Compare];
      RunTwo(s, Copy, Compare, f);
    } else {
      tail := [Copy, TestLowBit, Compare];
      RunThree(s, Copy, TestLowBit, Compare, f);
    }
  }

  /** A run in which the reader copies field 0, then 2^31 updates take place, the first of which sets
      both fields to 2 and the others field 1 to 1, and then it copies field 1. */
  lemma TornRun(f: Flavour) returns (actions: seq<Action>, history: seq<seq<int>>)
    ensures Run(START, actions, f) ==
            At(State(U32, [2, 1], history, Accepted(if f == PerCpu then 1 else 0, [0, 1], U32)))
    ensures [0, 1] !in history
  {
    hide Run, Step, Updates;
    var head := HeadRun(f);
    var s1 := Run(START, head, f).state;
    var n := U32 / 2 - 1;
    RunUpdates(s1, n, 1, f);
    RunAppend(START, head, Updates(n, 1), f);
    var s2 := Run(s1, Updates(n, 1), f).state;
    var tail := TailRun(s2, f);
    RunAppend(START, head + Updates(n, 1), tail, f);
    actions, history := head + Updates(n, 1) + tail, s2.history;
    forall k | 0 <= k < |history|
      ensures history[k] != [0, 1]
    {
      if k == 0 {
        assert history[0] == s1.history[0] && [0, 0][1] != [0, 1][1];
      } else if k == 1 {
        assert history[1] == s1.history[1] && [2, 2][0] != [0, 1][0];
      } else {
        assert history[k] == [2, 1] && [2, 1][0] != [0, 1][0];
      }
    }
  }

  /** At the bound a reader accepts one field from before the updates and one from after them: fields
      that no update ever left together. */
  lemma TornAtBound(f: Flavour) returns (actions: seq<Action>)
    ensures Init(START) && Run(START, actions, f).At? && Run(START, actions, f).state.reader.Accepted?
    ensures var t := Run(START, actions, f).state;
            && t.reader.end - t.reader.start == Bound(f)
            && t.reader.copy !in t.history && !Snapshot(t, t.reader.copy, t.reader.end)
  {
    hide Run;
    var history;
    actions, history := TornRun(f);
  }
}
