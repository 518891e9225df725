/** The monotonic part of pvclock_clocksource_read, run by any number of CPUs at once: one global
    accumulator, read once and then raised by compare-and-exchange. */
module ClockMonotonic {

  /** Where a CPU is in the call. `ret` is its own reading, `last` what it believes the accumulator
      to be. For the record only: `before`, how many calls had returned when this one began; `low`,
      the accumulator when it was first read; `tries`, compare-and-exchanges done; `won`, whether
      one of them stored `ret`; `others`, how often other CPUs have raised the accumulator since. */
  datatype Cpu =
    | Idle
    | Began(ret: nat, before: nat)
    | Testing(ret: nat, last: nat, call: Call)
    | Swapping(ret: nat, last: nat, call: Call)

  datatype Call = Call(before: nat, low: nat, tries: nat, won: bool, others: nat)

  /** A finished call. */
  datatype Result = Result(value: nat, ret: nat, call: Call, high: nat)

  /** The accumulator, the CPUs, and all calls that have returned, in order. */
  datatype State = State(lastValue: nat, cpus: seq<Cpu>, results: seq<Result>)

  ghost predicate Init(s: State) {
    s.results == [] && forall c :: 0 <= c < |s.cpus| ==> s.cpus[c] == Idle
  }

  function Record(s: State, value: nat, ret: nat, call: Call): State {
    s.(results := s.results + [Result(value, ret, call, s.lastValue)])
  }

  /** CPU c saw another CPU raise the accumulator. */
  function Overtaken(cpu: Cpu): Cpu {
    match cpu
    case Testing(ret, last, call) => Testing(ret, last, call.(others := call.others + 1))
    case Swapping(ret, last, call) => Swapping(ret, last, call.(others := call.others + 1))
    case _ => cpu
  }

  /** The successful store of v by CPU c. */
  function Store(s: State, c: nat, v: nat): State
    requires c < |s.cpus|
  {
    if v > s.lastValue then
      State(v,
            seq(|s.cpus|, i requires 0 <= i < |s.cpus| => if i == c then s.cpus[i] else Overtaken(s.cpus[i])),
            s.results)
    else s
  }

  /** The part of a compare-and-exchange after the memory operation: `last` is its result. */
  function AfterSwap(s: State, c: nat, ret: nat, last: nat, call: Call): State
    requires c < |s.cpus|
  {
    if last == ret then Record(s, ret, ret, call).(cpus := s.cpus[c := Idle])
    else s.(cpus := s.cpus[c := Testing(ret, last, call)])
  }

  /** One atomic step of CPU c; `reading` is the reading it brings when it begins a call. */
  function Step(s: State, c: nat, reading: nat): State
    requires c < |s.cpus|
  {
    match s.cpus[c]
    case Idle => s.(cpus := s.cpus[c := Began(reading, |s.results|)])
    case Began(ret, before) =>
      s.(cpus := s.cpus[c := Testing(ret, s.lastValue, Call(before, s.lastValue, 0, false, 0))])
    case Testing(ret, last, call) =>
      if ret < last then Record(s, last, ret, call).(cpus := s.cpus[c := Idle])
      else s.(cpus := s.cpus[c := Swapping(ret, last, call)])
    case Swapping(ret, last, call) =>
      var found := s.lastValue;
      var call' := call.(tries := call.tries + 1, won := call.won || found == last);
      if found == last then AfterSwap(Store(s, c, ret), c, ret, found, call')
      else AfterSwap(s, c, ret, found, call')
  }

  // ---- the invariant

  /** How many times others must have raised the accumulator, given what this CPU has seen. */
  ghost predicate Accounted(ret: nat, last: nat, call: Call, lastValue: nat) {
    if !call.won then call.others >= call.tries + (if last == lastValue then 0 else 1)
    else if last < ret then
      && call.tries > 0 && ret <= lastValue
      && call.others >= call.tries - 1 + (if lastValue == ret then 0 else 1)
    else call.tries > 0 && last > ret && call.others >= call.tries - 1
  }

  ghost predicate CpuOk(s: State, cpu: Cpu) {
    match cpu
    case Idle => true
    case Began(_, before) => before <= |s.results|
    case Testing(ret, last, call) =>
      call.before <= |s.results| && call.low <= last <= s.lastValue && AboveEarlier(s, call.before, call.low) &&
      Accounted(ret, last, call, s.lastValue)
    case Swapping(ret, last, call) =>
      call.before <= |s.results| && call.low <= last <= s.lastValue && AboveEarlier(s, call.before, call.low) &&
      last <= ret && Accounted(ret, last, call, s.lastValue)
  }

  /** The first n calls to return all returned at most v. */
  ghost predicate AboveEarlier(s: State, n: nat, v: nat) {
    n <= |s.results| && forall k :: 0 <= k < n ==> s.results[k].value <= v
  }

  ghost predicate ResultOk(s: State, k: nat)
    requires k < |s.results|
  {
    var r := s.results[k];
    && r.call.low <= r.value <= r.high <= s.lastValue
    && r.ret <= r.value
    && r.call.before <= k && AboveEarlier(s, r.call.before, r.value)
    && r.call.others + 2 >= r.call.tries
  }

  ghost predicate Inv(s: State) {
    && (forall c :: 0 <= c < |s.cpus| ==> CpuOk(s, s.cpus[c]))
    && (forall k :: 0 <= k < |s.results| ==> ResultOk(s, k))
  }

  lemma ResultsBelow(s: State)
    requires Inv(s)
    ensures AboveEarlier(s, |s.results|, s.lastValue)
  {
    forall k | 0 <= k < |s.results|
      ensures s.results[k].value <= s.lastValue
    {
      assert ResultOk(s, k);
    }
  }

  /** A step only adds results, and never lowers the accumulator. */
  lemma StepGrows(s: State, c: nat, reading: nat)
    requires Inv(s) && c < |s.cpus|
    ensures var s' := Step(s, c, reading);
            |s'.cpus| == |s.cpus| && s.lastValue <= s'.lastValue && s.results <= s'.results
  {
    assert CpuOk(s, s.cpus[c]);
  }

  lemma StepKeepsResults(s: State, c: nat, reading: nat)
    requires Inv(s) && c < |s.cpus|
    ensures var s' := Step(s, c, reading); forall k :: 0 <= k < |s'.results| ==> ResultOk(s', k)
  {
    var s' := Step(s, c, reading);
    StepGrows(s, c, reading);
    assert CpuOk(s, s.cpus[c]);
    forall k | 0 <= k < |s'.results|
      ensures ResultOk(s', k)
    {
      if k < |s.results| {
        assert ResultOk(s, k);
      }
    }
  }

  /** What the CPU that takes the step knows afterwards. */
  lemma StepKeepsOwn(s: State, c: nat, reading: nat)
    requires Inv(s) && c < |s.cpus|
    ensures var s' := Step(s, c, reading); |s'.cpus| == |s.cpus| && CpuOk(s', s'.cpus[c])
  {
    StepGrows(s, c, reading);
    ResultsBelow(s);
    assert CpuOk(s, s.cpus[c]);
  }

  /** Another CPU sees at most that the accumulator was raised. */
  lemma StepSeen(s: State, c: nat, reading: nat, i: nat)
    requires Inv(s) && c < |s.cpus| && i < |s.cpus| && i != c
    ensures var s' := Step(s, c, reading);
            && |s'.cpus| == |s.cpus|
            && if s'.lastValue == s.lastValue then s'.cpus[i] == s.cpus[i]
               else s'.cpus[i] == Overtaken(s.cpus[i])
  {
    assert CpuOk(s, s.cpus[c]);
  }

  lemma SeenKeepsCpu(s: State, s': State, cpu: Cpu)
    requires CpuOk(s, cpu) && s.lastValue <= s'.lastValue && s.results <= s'.results
    ensures CpuOk(s', if s'.lastValue == s.lastValue then cpu else Overtaken(cpu))
  {
  }

  lemma StepKeepsCpu(s: State, c: nat, reading: nat, i: nat)
    requires Inv(s) && c < |s.cpus| && i < |s.cpus|
    ensures var s' := Step(s, c, reading); |s'.cpus| == |s.cpus| && CpuOk(s', s'.cpus[i])
  {
    if i == c {
      StepKeepsOwn(s, c, reading);
    } else {
      StepGrows(s, c, reading);
      StepSeen(s, c, reading, i);
      assert CpuOk(s, s.cpus[i]);
      hide Step, CpuOk, Overtaken;
      SeenKeepsCpu(s, Step(s, c, reading), s.cpus[i]);
    }
  }

  lemma StepKeepsInv(s: State, c: nat, reading: nat)
    requires Inv(s) && c < |s.cpus|
    ensures Inv(Step(s, c, reading))
  {
    StepKeepsResults(s, c, reading);
    StepGrows(s, c, reading);
    forall i | 0 <= i < |s.cpus|
      ensures CpuOk(Step(s, c, reading), Step(s, c, reading).cpus[i])
    {
      StepKeepsCpu(s, c, reading, i);
    }
  }

  // ---- whole runs

  datatype Move = Move(cpu: nat, reading: nat)

  /** The state after the given moves, in order; moves of CPUs that do not exist change nothing. */
  function Run(s: State, moves: seq<Move>): State
    decreases |moves|
  {
    if moves == [] then s
    else
      var before := Run(s, moves[..|moves| - 1]);
      var m := moves[|moves| - 1];
      if m.cpu < |before.cpus| then Step(before, m.cpu, m.reading) else before
  }

  lemma {:induction false} RunKeepsInv(s: State, moves: seq<Move>)
    requires Init(s)
    ensures Inv(Run(s, moves))
    decreases |moves|
  {
    if moves != [] {
      RunKeepsInv(s, moves[..|moves| - 1]);
      var before := Run(s, moves[..|moves| - 1]);
      var m := moves[|moves| - 1];
      if m.cpu < |before.cpus| {
        StepKeepsInv(before, m.cpu, m.reading);
      }
    }
  }

  /** In every interleaving the accumulator never goes back, and results once given stay given. */
  lemma {:induction false} RunMonotone(s: State, moves: seq<Move>, n: nat)
    requires Init(s) && n <= |moves|
    ensures Run(s, moves[..n]).lastValue <= Run(s, moves).lastValue
    ensures Run(s, moves[..n]).results <= Run(s, moves).results
    decreases |moves|
  {
    if n < |moves| {
      var most := moves[..|moves| - 1];
      assert most[..n] == moves[..n];
      RunMonotone(s, most, n);
      RunKeepsInv(s, most);
      var m := moves[|moves| - 1];
      if m.cpu < |Run(s, most).cpus| {
        StepGrows(Run(s, most), m.cpu, m.reading);
      }
    } else {
      assert moves[..n] == moves;
    }
  }

  /** In every interleaving: a call returns a value between the accumulator at its first read and the
      accumulator at its return, no less than its own reading, and no less than what any call that
      had returned before it began returned. */
  lemma NeverBackwards(s: State, moves: seq<Move>, k: nat)
    requires Init(s) && k < |Run(s, moves).results|
    ensures var results := Run(s, moves).results;
            var r := results[k];
            && r.call.low <= r.value <= r.high <= Run(s, moves).lastValue
            && r.ret <= r.value
            && r.call.before <= k
            && forall j :: 0 <= j < r.call.before ==> results[j].value <= r.value
  {
    RunKeepsInv(s, moves);
    assert ResultOk(Run(s, moves), k);
  }

  /** Retries are not wasted: before a third compare-and-exchange another CPU has raised the
      accumulator, and each further one needs another such raise. */
  lemma RetriesAreCaused(s: State, moves: seq<Move>, c: nat)
    requires Init(s) && c < |Run(s, moves).cpus|
    ensures var cpu := Run(s, moves).cpus[c];
            (cpu.Testing? || cpu.Swapping?) && cpu.call.tries >= 1 ==> cpu.call.others >= cpu.call.tries - 1
  {
    RunKeepsInv(s, moves);
    assert CpuOk(Run(s, moves), Run(s, moves).cpus[c]);
  }

  // ---- where the values come from

  /** v is the accumulator's first value, or a reading that one of the moves brought. */
  ghost predicate Brought(s: State, moves: seq<Move>, v: nat) {
    v == s.lastValue || exists j :: 0 <= j < |moves| && moves[j].reading == v
  }

  ghost predicate CpuBrought(s: State, moves: seq<Move>, cpu: Cpu) {
    match cpu
    case Idle => true
    case Began(ret, _) => Brought(s, moves, ret)
    case Testing(ret, last, _) => Brought(s, moves, ret) && Brought(s, moves, last)
    case Swapping(ret, last, _) => Brought(s, moves, ret) && Brought(s, moves, last)
  }

  ghost predicate AllBrought(s: State, moves: seq<Move>, t: State) {
    && Brought(s, moves, t.lastValue)
    && (forall c :: 0 <= c < |t.cpus| ==> CpuBrought(s, moves, t.cpus[c]))
    && (forall k :: 0 <= k < |t.results| ==> Brought(s, moves, t.results[k].value))
  }

  lemma BroughtMore(s: State, moves: seq<Move>, m: Move, v: nat)
    requires Brought(s, moves, v) || v == m.reading
    ensures Brought(s, moves + [m], v)
  {
    if v == m.reading {
      assert (moves + [m])[|moves|].reading == v;
    } else if v != s.lastValue {
      var j :| 0 <= j < |moves| && moves[j].reading == v;
      assert (moves + [m])[j].reading == v;
    }
  }

  lemma AllBroughtMore(s: State, moves: seq<Move>, m: Move, t: State)
    requires AllBrought(s, moves, t)
    ensures AllBrought(s, moves + [m], t)
  {
    forall v: nat | Brought(s, moves, v)
      ensures Brought(s, moves + [m], v)
    {
      BroughtMore(s, moves, m, v);
    }
  }

  lemma StepBrings(s: State, moves: seq<Move>, t: State, c: nat, reading: nat)
    requires AllBrought(s, moves, t) && Brought(s, moves, reading) && c < |t.cpus|
    ensures AllBrought(s, moves, Step(t, c, reading))
  {
    hide Brought;
    assert CpuBrought(s, moves, t.cpus[c]);
  }

  /** Nothing is made up: in every interleaving the accumulator and each value returned are the
      accumulator's first value or a reading that some CPU has brought. */
  lemma {:induction false} ComesFrom(s: State, moves: seq<Move>)
    requires Init(s)
    ensures AllBrought(s, moves, Run(s, moves))
    decreases |moves|
  {
    if moves != [] {
      var most, m := moves[..|moves| - 1], moves[|moves| - 1];
      assert most + [m] == moves;
      ComesFrom(s, most);
      AllBroughtMore(s, most, m, Run(s, most));
      BroughtMore(s, most, m, m.reading);
      if m.cpu < |Run(s, most).cpus| {
        StepBrings(s, moves, Run(s, most), m.cpu, m.reading);
      }
    }
  }

  // ---- one call

  lemma RunMore(s: State, moves: seq<Move>, m: Move)
    requires m.cpu < |Run(s, moves).cpus|
    ensures Run(s, moves + [m]) == Step(Run(s, moves), m.cpu, m.reading)
  {
    assert (moves + [m])[..|moves|] == moves;
  }

  lemma {:induction false} SameCpus(s: State, moves: seq<Move>)
    requires Init(s)
    ensures |Run(s, moves).cpus| == |s.cpus|
    decreases |moves|
  {
    if moves != [] {
      SameCpus(s, moves[..|moves| - 1]);
      RunKeepsInv(s, moves[..|moves| - 1]);
      var m := moves[|moves| - 1];
      if m.cpu < |s.cpus| {
        StepGrows(Run(s, moves[..|moves| - 1]), m.cpu, m.reading);
      }
    }
  }

  /** CPU c is in a call for which it brought v. */
  ghost predicate Carries(cpu: Cpu, v: nat) { !cpu.Idle? && cpu.ret == v }

  /** The moves `during` follow the one with which CPU c begins a call, and up to the last of them the
      call is under way. */
  ghost predicate UnderWay(s: State, before: seq<Move>, c: nat, reading: nat, during: seq<Move>) {
    && c < |s.cpus| == |Run(s, before).cpus| && Run(s, before).cpus[c] == Idle
    && forall j :: 0 <= j < |during| ==>
         var t := Run(s, before + [Move(c, reading)] + during[..j]); c < |t.cpus| && !t.cpus[c].Idle?
  }

  lemma {:induction false} KeepsReading(s: State, before: seq<Move>, c: nat, reading: nat, during: seq<Move>)
    requires Init(s) && UnderWay(s, before, c, reading, during)
    ensures var t := Run(s, before + [Move(c, reading)] + during);
            |t.cpus| == |s.cpus| && (t.cpus[c].Idle? || Carries(t.cpus[c], reading))
    decreases |during|
  {
    var start := before + [Move(c, reading)];
    SameCpus(s, start + during);
    if during == [] {
      assert start + during == start;
      RunMore(s, before, Move(c, reading));
    } else {
      var most, m := during[..|during| - 1], during[|during| - 1];
      assert forall j :: 0 <= j < |most| ==> most[..j] == during[..j];
      KeepsReading(s, before, c, reading, most);
      SameCpus(s, start + most);
      assert start + during == start + most + [m];
      var t := Run(s, start + most);
      assert during[..|most|] == most;
      if m.cpu < |t.cpus| {
        RunMore(s, start + most, m);
        StepCarries(t, m.cpu, m.reading, c, reading);
      } else {
        assert (start + most + [m])[..|start + most|] == start + most;
      }
    }
  }

  lemma StepCarries(t: State, m: nat, brought: nat, c: nat, reading: nat)
    requires m < |t.cpus| && c < |t.cpus| && Carries(t.cpus[c], reading)
    ensures var t' := Step(t, m, brought);
            |t'.cpus| == |t.cpus| && (t'.cpus[c].Idle? || Carries(t'.cpus[c], reading))
  {
  }

  /** A call returns at least the reading that its CPU brought with the move that began it. */
  lemma AtLeastReading(s: State, before: seq<Move>, c: nat, reading: nat, during: seq<Move>)
    requires Init(s) && UnderWay(s, before, c, reading, during) && during != []
    requires var t := Run(s, before + [Move(c, reading)] + during); c < |t.cpus| && t.cpus[c].Idle?
    ensures var t := Run(s, before + [Move(c, reading)] + during);
            t.results != [] && t.results[|t.results| - 1].value >= reading
  {
    var start, most, m := before + [Move(c, reading)], during[..|during| - 1], during[|during| - 1];
    StillUnderWay(s, before, c, reading, during);
    KeepsReading(s, before, c, reading, most);
    assert start + during == start + most + [m];
    hide Step, Run, UnderWay;
    var t := Run(s, start + most);
    if m.cpu < |t.cpus| {
      RunMore(s, start + most, m);
      StepReturns(t, m.cpu, m.reading, c, reading);
    } else {
      NoSuchCpu(s, start + most, m);
    }
  }

  lemma StillUnderWay(s: State, before: seq<Move>, c: nat, reading: nat, during: seq<Move>)
    requires UnderWay(s, before, c, reading, during) && during != []
    ensures var most := during[..|during| - 1];
            && UnderWay(s, before, c, reading, most)
            && var t := Run(s, before + [Move(c, reading)] + most); c < |t.cpus| && !t.cpus[c].Idle?
  {
    hide Run;
    var most := during[..|during| - 1];
    assert forall j :: 0 <= j < |most| ==> most[..j] == during[..j];
  }

  lemma NoSuchCpu(s: State, moves: seq<Move>, m: Move)
    requires m.cpu >= |Run(s, moves).cpus|
    ensures Run(s, moves + [m]) == Run(s, moves)
  {
    assert (moves + [m])[..|moves|] == moves;
  }

  lemma StepReturns(t: State, m: nat, brought: nat, c: nat, reading: nat)
    requires m < |t.cpus| && c < |t.cpus| && Carries(t.cpus[c], reading) && Step(t, m, brought).cpus[c].Idle?
    ensures var t' := Step(t, m, brought);
            t'.results != [] && t'.results[|t'.results| - 1].value >= reading
  {
  }

  function Times(m: Move, n: nat): (moves: seq<Move>)
    ensures |moves| == n && forall i :: 0 <= i < n ==> moves[i] == m
  {
    seq(n, _ => m)
  }

  /** n steps of CPU c with no other CPU between. */
  function Alone(t: State, c: nat, reading: nat, n: nat): (t': State)
    requires c < |t.cpus|
    ensures |t'.cpus| == |t.cpus|
  {
    if n == 0 then t
    else
      assert |Step(Alone(t, c, reading, n - 1), c, reading).cpus| == |t.cpus|;
      Step(Alone(t, c, reading, n - 1), c, reading)
  }

  lemma {:induction false} RunAlone(s: State, moves: seq<Move>, c: nat, reading: nat, n: nat)
    requires c < |Run(s, moves).cpus|
    ensures Run(s, moves + Times(Move(c, reading), n)) == Alone(Run(s, moves), c, reading, n)
  {
    hide Step;
    var m := Move(c, reading);
    if n == 0 {
      assert moves + Times(m, 0) == moves;
    } else {
      RunAlone(s, moves, c, reading, n - 1);
      assert moves + Times(m, n) == moves + Times(m, n - 1) + [m];
      RunMore(s, moves + Times(m, n - 1), m);
    }
  }

  /** From t to t', CPU c has gone through a call that returned v, and the accumulator is v now. */
  ghost predicate Returned(t: State, t': State, c: nat, v: nat) {
    && c < |t'.cpus| && t'.cpus[c] == Idle && t'.lastValue == v
    && |t'.results| == |t.results| + 1 && t.results <= t'.results
    && t'.results[|t.results|].value == v
  }

  /** A call that no other CPU disturbs ends after at most six steps of its own; it returns the greater
      of its reading and the accumulator, which is what the accumulator holds then. */
  lemma Undisturbed(s: State, moves: seq<Move>, c: nat, reading: nat) returns (n: nat)
    requires c < |Run(s, moves).cpus| && Run(s, moves).cpus[c] == Idle
    ensures 3 <= n <= 6
    ensures var t := Run(s, moves);
            Returned(t, Run(s, moves + Times(Move(c, reading), n)), c,
                     if reading >= t.lastValue then reading else t.lastValue)
  {
    hide Run, Alone, Returned;
    n := CallAlone(Run(s, moves), c, reading);
    RunAlone(s, moves, c, reading, n);
  }

  lemma CallAlone(t: State, c: nat, reading: nat) returns (n: nat)
    requires c < |t.cpus| && t.cpus[c] == Idle
    ensures 3 <= n <= 6
    ensures Returned(t, Alone(t, c, reading, n), c, if reading >= t.lastValue then reading else t.lastValue)
  {
    hide Step, Alone;
    AloneStep(t, c, reading, 1);
    AloneStep(t, c, reading, 2);
    AloneStep(t, c, reading, 3);
    Begins(t, c, reading);
    var t2 := Alone(t, c, reading, 2);
    if reading < t.lastValue {
      GivesUp(t2, c, reading);
      n := 3;
    } else {
      AloneStep(t, c, reading, 4);
      Swaps(t2, c, reading);
      if reading == t.lastValue {
        n := 4;
      } else {
        AloneStep(t, c, reading, 5);
        AloneStep(t, c, reading, 6);
        SwapsAgain(Alone(t, c, reading, 4), c, reading);
        n := 6;
      }
    }
  }

  lemma AloneStep(t: State, c: nat, reading: nat, n: nat)
    requires c < |t.cpus| && n > 0
    ensures Alone(t, c, reading, n) == Step(Alone(t, c, reading, n - 1), c, reading)
    ensures Alone(t, c, reading, 0) == t
  {
  }

  /** The first two steps of a call: bring a reading, read the accumulator. */
  lemma Begins(t: State, c: nat, reading: nat)
    requires c < |t.cpus| && t.cpus[c] == Idle
    ensures var t2 := Step(Step(t, c, reading), c, reading);
            && t2.lastValue == t.lastValue && t2.results == t.results && |t2.cpus| == |t.cpus|
            && t2.cpus[c].Testing? && t2.cpus[c].ret == reading && t2.cpus[c].last == t.lastValue
  {
  }

  lemma GivesUp(t: State, c: nat, reading: nat)
    requires c < |t.cpus| && t.cpus[c].Testing? && t.cpus[c].ret == reading < t.cpus[c].last == t.lastValue
    ensures var t' := Step(t, c, reading);
            && t'.lastValue == t.lastValue && |t'.cpus| == |t.cpus| && t'.cpus[c] == Idle
            && |t'.results| == |t.results| + 1 && t.results <= t'.results
            && t'.results[|t.results|].value == t.lastValue
  {
  }

  /** The test and an exchange that succeeds. */
  lemma Swaps(t: State, c: nat, reading: nat)
    requires c < |t.cpus| && t.cpus[c].Testing? && t.cpus[c].ret == reading >= t.cpus[c].last == t.lastValue
    ensures var t' := Step(Step(t, c, reading), c, reading);
            && t'.lastValue == reading && |t'.cpus| == |t.cpus|
            && if reading == t.lastValue then
                 && t'.cpus[c] == Idle && |t'.results| == |t.results| + 1 && t.results <= t'.results
                 && t'.results[|t.results|].value == reading
               else
                 && t'.results == t.results && t'.cpus[c].Testing?
                 && t'.cpus[c].ret == reading && t'.cpus[c].last == t.lastValue
  {
  }

  /** The exchange after that finds what the call itself has stored. */
  lemma SwapsAgain(t: State, c: nat, reading: nat)
    requires c < |t.cpus| && t.cpus[c].Testing? && t.cpus[c].ret == reading > t.cpus[c].last
    requires t.lastValue == reading
    ensures var t' := Step(Step(t, c, reading), c, reading);
            && t'.lastValue == reading && |t'.cpus| == |t.cpus| && t'.cpus[c] == Idle
            && |t'.results| == |t.results| + 1 && t.results <= t'.results
            && t'.results[|t.results|].value == reading
  {
  }
}
