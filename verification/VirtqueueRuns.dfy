/** Whole runs of a virtqueue: any sequence of additions, device steps and retrievals. */
module VirtqueueRuns {
  import opened Bits
  import opened Lists
  import opened VirtqueueState

  datatype Queue = Queue(ring: Ring, log: Log)

  /** The free list 0, 1, ..., n - 1 of a new queue. */
  ghost function Upto(n: nat): (s: seq<nat>)
    ensures |s| == n && forall i :: 0 <= i < n ==> s[i] == i
  {
    seq(n, i requires 0 <= i < n => i)
  }

  /** A queue as vring_init_virtqueue leaves it. */
  ghost predicate IsNew(num: nat, q: Queue) {
    var r := q.ring;
    && (exists k: nat :: k <= 16 && num == Pow2(k))
    && |r.desc| == |r.data| == |r.avail| == |r.used| == num
    && (forall i :: 0 <= i < num - 1 ==> r.desc[i].next == i + 1)
    && (forall i :: 0 <= i < num ==> r.data[i] == 0)
    && r.numFree == num && r.freeHead == 0 && r.availIdx == 0 && r.usedIdx == 0 && r.lastUsedIdx == 0
    && q.log == Log(Upto(num), map[], [], [], [], 0, [], [])
  }

  lemma InitInv(num: nat, q: Queue)
    requires IsNew(num, q)
    ensures Inv(num, q.ring, q.log)
  {
    forall h: nat | h < num
      ensures h in Upto(num)
    {
      assert Upto(num)[h] == h;
    }
  }

  /** What can happen to a queue. An addition that finds no free descriptor changes nothing. */
  datatype Event =
    | Add(buf: nat, len: nat)
    | Take                              // the device takes the next available entry
    | Publish(e: UsedElem)              // the device completes any descriptor it has taken
    | Get

  ghost predicate Enabled(q: Queue, event: Event) {
    match event
    case Add(buf, _) => buf != 0
    case Take => q.log.taken < |q.log.bufs|
    case Publish(e) => AtDevice(q.log, e.id)
    case Get => Ready(q.log)
  }

  ghost function Next(num: nat, q: Queue, event: Event): (q': Queue)
    requires Inv(num, q.ring, q.log) && Enabled(q, event)
    ensures Inv(num, q'.ring, q'.log)
  {
    hide Inv, And, AtDevice;
    match event
    case Add(buf, len) =>
      if q.ring.numFree == 0 then q
      else
        AddKeeps(num, q.ring, q.log, buf, len);
        Queue(AddRing(q.ring, num, buf, len), AddLog(q.log, buf, len))
    case Take =>
      TakeKeeps(num, q.ring, q.log);
      q.(log := q.log.(taken := q.log.taken + 1))
    case Publish(e) =>
      PublishKeeps(num, q.ring, q.log, e);
      Queue(PublishRing(q.ring, num, e), q.log.(published := q.log.published + [e]))
    case Get =>
      GetKeeps(num, q.ring, q.log);
      Queue(GetRing(q.ring, NextUsed(q.log).id), GetLog(q.log, NextUsed(q.log).id))
  }

  datatype Outcome = Stuck | At(queue: Queue)

  /** The queue after the given events, in order, if each is possible when its turn comes. */
  ghost function Run(num: nat, q: Queue, events: seq<Event>): (o: Outcome)
    requires Inv(num, q.ring, q.log)
    ensures o.At? ==> Inv(num, o.queue.ring, o.queue.log)
    decreases |events|
  {
    if events == [] then At(q)
    else
      match Run(num, q, events[..|events| - 1])
      case Stuck => Stuck
      case At(t) =>
        var event := events[|events| - 1];
        if Enabled(t, event) then At(Next(num, t, event)) else Stuck
  }

  /** A run from a new queue. */
  ghost function RunNew(num: nat, q: Queue, events: seq<Event>): (o: Outcome)
    requires IsNew(num, q)
    ensures o.At? ==> Inv(num, o.queue.ring, o.queue.log)
  {
    InitInv(num, q);
    Run(num, q, events)
  }

  ghost function Gets(events: seq<Event>): nat {
    if events == [] then 0
    else Gets(events[..|events| - 1]) + (if events[|events| - 1].Get? then 1 else 0)
  }

  /** Additions minus retrievals are in flight, and every Get event retrieved something. */
  lemma {:induction false} Balance(num: nat, q: Queue, events: seq<Event>)
    requires IsNew(num, q) && RunNew(num, q, events).At?
    ensures var g := RunNew(num, q, events).queue.log;
            |g.bufs| == |g.returned| + |g.owner| && |g.returned| == Gets(events)
    decreases |events|
  {
    if events != [] {
      var most := events[..|events| - 1];
      Balance(num, q, most);
      NextBalance(num, RunNew(num, q, most).queue, events[|events| - 1]);
    }
  }

  lemma NextBalance(num: nat, q: Queue, event: Event)
    requires Inv(num, q.ring, q.log) && Enabled(q, event)
    ensures var g, g' := q.log, Next(num, q, event).log;
            && |g'.bufs| - |g'.returned| - |g'.owner| == |g.bufs| - |g.returned| - |g.owner|
            && |g'.returned| == |g.returned| + (if event.Get? then 1 else 0)
  {
    hide And;
    match event
    case Add(_, _) =>
      if q.ring.numFree > 0 {
        AddKeepsFree(num, q.ring, q.log, event.buf, event.len);
      }
    case Get =>
      GetKeeps(num, q.ring, q.log);
      var i := NextUsed(q.log).id;
      assert (q.log.owner - {i}).Keys == q.log.owner.Keys - {i};
    case _ =>
  }

  /** In every run from a new queue, in whatever order the device completes: the free chain has as
      many different descriptors as num_free says, exactly those that hold no token; num_free and the
      additions not yet retrieved make num; each descriptor in flight still describes its buffer; and
      the k-th addition has been handed back once if it is not in flight, and never otherwise. */
  lemma EveryRun(num: nat, q: Queue, events: seq<Event>, k: nat)
    requires IsNew(num, q) && RunNew(num, q, events).At?
    ensures var Queue(r, g) := RunNew(num, q, events).queue;
            && |r.data| == num && |g.bufs| == |g.heads| == |g.lens|
            && (r.numFree > 0 ==>
                  var s := Follow(r.desc, r.freeHead, r.numFree);
                  |s| == r.numFree && Distinct(s) && forall h: nat :: h < num ==> (h in s <==> r.data[h] == 0))
            && r.numFree + (|g.bufs| - Gets(events)) == num
            && (k < |g.bufs| ==>
                  if InFlight(g, k) then
                    multiset(g.returned)[k] == 0 && g.heads[k] < |r.desc| && r.data[g.heads[k]] == g.bufs[k] &&
                    r.desc[g.heads[k]].addr == g.bufs[k] && r.desc[g.heads[k]].len == g.lens[k]
                  else multiset(g.returned)[k] == 1)
  {
    var t := RunNew(num, q, events).queue;
    Balance(num, q, events);
    if t.ring.numFree > 0 {
      FreeChain(num, t.ring, t.log);
    }
    if k < |t.log.bufs| {
      ExactlyOnce(num, t.ring, t.log, k);
    }
  }

  /** In every run the device takes buffers in the order they were added, across any number of turns
      of the ring and of the 16-bit counters: its next available entry is the k-th addition's. */
  lemma InOrder(num: nat, q: Queue, events: seq<Event>)
    requires IsNew(num, q) && RunNew(num, q, events).At?
    ensures var Queue(r, g) := RunNew(num, q, events).queue;
            && num > 0 && |r.avail| == num && |g.heads| == |g.bufs|
            && r.availIdx == |g.bufs| % U16 && r.lastUsedIdx == Gets(events) % U16
            && (g.taken < |g.bufs| ==> r.avail[g.taken % num] == g.heads[g.taken])
            && |g.bufs| - g.taken <= num && |g.published| - Gets(events) <= num
  {
    Balance(num, q, events);
  }

  // ---- what a run has recorded, by its events alone

  /** The buffers and lengths of the additions that found a free descriptor: those that came when fewer
      than num buffers had been added and not retrieved. */
  ghost function Taken(num: nat, events: seq<Event>): seq<(nat, nat)> {
    if events == [] then []
    else
      var most, e := events[..|events| - 1], events[|events| - 1];
      var before := Taken(num, most);
      if e.Add? && |before| - Gets(most) < num then before + [(e.buf, e.len)] else before
  }

  /** What the device has published, in order. */
  ghost function Published(events: seq<Event>): seq<UsedElem> {
    if events == [] then []
    else
      var e := events[|events| - 1];
      Published(events[..|events| - 1]) + (if e.Publish? then [e.e] else [])
  }

  ghost function Takes(events: seq<Event>): nat {
    if events == [] then 0
    else Takes(events[..|events| - 1]) + (if events[|events| - 1].Take? then 1 else 0)
  }

  /** The log holds what the events were about, and each retrieval has handed back the addition that got
      the descriptor which the device published. */
  ghost predicate Recorded(g: Log, added: seq<(nat, nat)>, published: seq<UsedElem>, takes: nat) {
    && |g.bufs| == |g.lens| == |g.heads| == |added|
    && (forall k :: 0 <= k < |added| ==> g.bufs[k] == added[k].0 && g.lens[k] == added[k].1)
    && g.published == published && g.taken == takes
    && |g.returned| <= |published|
    && forall i :: 0 <= i < |g.returned| ==>
         g.returned[i] < |g.heads| && g.heads[g.returned[i]] == published[i].id
  }

  lemma NextRecords(num: nat, q: Queue, event: Event, added: seq<(nat, nat)>, published: seq<UsedElem>, takes: nat)
    requires Inv(num, q.ring, q.log) && Enabled(q, event) && Recorded(q.log, added, published, takes)
    ensures var free := q.ring.numFree > 0;
            Recorded(Next(num, q, event).log,
                     added + (if event.Add? && free then [(event.buf, event.len)] else []),
                     published + (if event.Publish? then [event.e] else []),
                     takes + if event.Take? then 1 else 0)
  {
    NextLog(num, q, event);
    Same(added);
    Same(published);
    hide And, Inv, Enabled, Next, Recorded;
    match event
    case Add(buf, len) =>
      if q.ring.numFree > 0 {
        AddRecords(q.log, buf, len, added, published, takes);
      }
    case Get =>
      GetRecords(q.log, NextUsed(q.log).id, added, published, takes);
    case _ =>
      DeviceRecords(q.log, event, added, published, takes);
  }

  /** What an event does to the log. */
  lemma NextLog(num: nat, q: Queue, event: Event)
    requires Inv(num, q.ring, q.log) && Enabled(q, event)
    ensures var g, g' := q.log, Next(num, q, event).log;
            match event
            case Add(buf, len) =>
              if q.ring.numFree > 0 then g.chain != [] && g' == AddLog(g, buf, len) else g' == g
            case Take => g' == g.(taken := g.taken + 1)
            case Publish(e) => g' == g.(published := g.published + [e])
            case Get =>
              && Ready(g) && g' == GetLog(g, NextUsed(g).id)
              && var i := NextUsed(g).id;
                 i in g.owner && g.owner[i] < |g.heads| && g.heads[g.owner[i]] == i
  {
    hide And;
    if event.Get? {
      GetKeeps(num, q.ring, q.log);
    }
  }

  lemma AddRecords(g: Log, buf: nat, len: nat, added: seq<(nat, nat)>, published: seq<UsedElem>, takes: nat)
    requires Recorded(g, added, published, takes) && g.chain != []
    ensures Recorded(AddLog(g, buf, len), added + [(buf, len)], published, takes)
  {
  }

  lemma GetRecords(g: Log, i: nat, added: seq<(nat, nat)>, published: seq<UsedElem>, takes: nat)
    requires Recorded(g, added, published, takes) && Ready(g) && NextUsed(g).id == i
    requires i in g.owner && g.owner[i] < |g.heads| && g.heads[g.owner[i]] == i
    ensures Recorded(GetLog(g, i), added, published, takes)
  {
  }

  lemma DeviceRecords(g: Log, event: Event, added: seq<(nat, nat)>, published: seq<UsedElem>, takes: nat)
    requires Recorded(g, added, published, takes)
    ensures event.Take? ==> Recorded(g.(taken := g.taken + 1), added, published, takes + 1)
    ensures event.Publish? ==>
      Recorded(g.(published := g.published + [event.e]), added, published + [event.e], takes)
  {
  }

  /** In every run from a new queue, what was added, taken, published and handed back is what the events
      say, in their order. */
  lemma {:induction false} HistoryIs(num: nat, q: Queue, events: seq<Event>)
    requires IsNew(num, q) && RunNew(num, q, events).At?
    ensures var g := RunNew(num, q, events).queue.log;
            Recorded(g, Taken(num, events), Published(events), Takes(events)) && |g.returned| == Gets(events)
    decreases |events|
  {
    Balance(num, q, events);
    if events != [] {
      var most, e := events[..|events| - 1], events[|events| - 1];
      HistoryIs(num, q, most);
      var t := RunNew(num, q, most).queue;
      FreeLeft(num, q, most);
      NextRecords(num, t, e, Taken(num, most), Published(most), Takes(most));
      Same(Taken(num, most));
      Same(Published(most));
    }
  }

  lemma Same<T>(s: seq<T>)
    ensures s + [] == s
  {
  }

  lemma FreeLeft(num: nat, q: Queue, events: seq<Event>)
    requires IsNew(num, q) && RunNew(num, q, events).At?
    ensures var Queue(r, g) := RunNew(num, q, events).queue; r.numFree + (|g.bufs| - Gets(events)) == num
  {
    Balance(num, q, events);
  }
}
