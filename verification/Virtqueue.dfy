/** The virtqueue driver, and the device it shares its rings with. */
module Virtqueue {
  import opened Bits
  import opened Lists
  import opened VirtqueueState
  import opened VirtqueueRuns

  /** A chain of descriptors as VRING_DESC_F_NEXT delimits it. */
  ghost predicate IsChain(desc: seq<Desc>, s: seq<nat>) {
    && s != [] && Linked(desc, s)
    && (forall i :: 0 <= i < |s| - 1 ==> HasNext(desc[s[i]]))
    && !HasNext(desc[s[|s| - 1]])
  }

  /** Putting a whole chain back in front of the free list leaves a well-linked free list. */
  lemma DetachSplices(desc: seq<Desc>, s: seq<nat>, chain: seq<nat>, freeHead: nat)
    requires IsChain(desc, s) && Linked(desc, chain) && Distinct(s + chain)
    requires chain != [] ==> freeHead == chain[0]
    ensures var last := s[|s| - 1];
            Linked(desc[last := desc[last].(next := freeHead)], s + chain)
  {
    var last := s[|s| - 1];
    var desc' := desc[last := desc[last].(next := freeHead)];
    var t := s + chain;
    assert t[|s| - 1] == last;
    forall i, j | 0 <= i < j < |t| && j == i + 1
      ensures desc'[t[i]].next == t[j]
    {
      if i < |s| - 1 {
        assert t[i] == s[i] && t[j] == s[j];
      } else if i >= |s| {
        assert t[i] == chain[i - |s|] && t[j] == chain[j - |s|];
      }
    }
  }

  /** buf is the buffer of an addition that had not been returned before, and now has. */
  ghost predicate HandedBack(was: Log, log: Log, buf: nat) {
    log.returned != [] &&
    var k := log.returned[|log.returned| - 1];
    k !in was.returned && k < |log.bufs| && buf == log.bufs[k] != 0
  }

  class Virtqueue {
    const num: nat
    const desc: array<Desc>
    const data: array<nat>
    const avail: array<nat>
    const used: array<UsedElem>
    var numFree: nat
    var freeHead: nat
    var availIdx: nat
    var usedIdx: nat
    var lastUsedIdx: nat
    var deviceIdx: nat                // the device's own count of available entries
    ghost var log: Log

    ghost function Abs(): Ring
      reads this, desc, data, avail, used
    {
      Ring(desc[..], data[..], numFree, freeHead, avail[..], availIdx, used[..], usedIdx, lastUsedIdx)
    }

    ghost function State(): Queue
      reads this, desc, data, avail, used
    {
      Queue(Abs(), log)
    }

    ghost predicate Valid()
      reads this, desc, data, avail, used
    {
      data != avail && Inv(num, Abs(), log) && deviceIdx == log.taken % U16
    }

    /** The queue as the event leaves it. */
    ghost function After(event: Event): Queue
      requires Valid() && Enabled(State(), event)
      reads this, desc, data, avail, used
    {
      Next(num, State(), event)
    }

    /** vring_init_virtqueue on zeroed ring memory. */
    constructor (num: nat)
      requires exists k: nat :: k <= 16 && num == Pow2(k)
      ensures Valid() && this.num == num && IsNew(num, State())
      ensures fresh(desc) && fresh(data) && fresh(avail) && fresh(used)
    {
      this.num := num;
      desc := new Desc[num](_ => Desc(0, 0, 0, 0));
      data := new nat[num];
      avail := new nat[num];
      used := new UsedElem[num];
      numFree, freeHead := num, 0;
      availIdx, usedIdx, lastUsedIdx, deviceIdx := 0, 0, 0, 0;
      log := Log(Upto(num), map[], [], [], [], 0, [], []);
      new;
      var i := 0;
      while i < num - 1
        invariant 0 <= i <= num - 1
        invariant forall j :: 0 <= j < i ==> desc[j].next == j + 1 && data[j] == 0
        modifies desc, data
      {
        desc[i] := desc[i].(next := i + 1);
        data[i] := 0;
        i := i + 1;
      }
      data[i] := 0;
      InitInv(num, Queue(Abs(), log));
    }

    /** Queue a buffer; -1 if no descriptor is free. */
    method AddOutbuf(buf: nat, len: nat) returns (result: int)
      requires Valid() && buf != 0 && len != 0
      modifies this, desc, data, avail
      ensures Valid()
      ensures old(numFree) == 0 ==> result == -1 && unchanged(this, desc, data, avail)
      ensures old(numFree) > 0 ==>
        result == 0 && log.bufs == old(log).bufs + [buf] && log.lens == old(log).lens + [len]
      ensures State() == old(After(Add(buf, len)))
    {
      if numFree == 0 {
        return -1;
      }
      Enqueue(buf, len);
      return 0;
    }

    /** The rest of virtqueue_add_outbuf, once a free descriptor is known to exist. */
    method Enqueue(buf: nat, len: nat)
      requires Valid() && buf != 0 && numFree > 0
      modifies this, desc, data, avail
      ensures State() == old(After(Add(buf, len)))
      ensures log.bufs == old(log).bufs + [buf] && log.lens == old(log).lens + [len]
      ensures Valid()
    {
      hide Inv, FreeOk, AddRing, And;
      ghost var was := Abs();
      AddKeeps(num, was, log, buf, len);
      Expose(buf, len);
      log := AddLog(log, buf, len);
    }

    /** The writes of virtqueue_add_outbuf: descriptor, token, available entry. */
    method Expose(buf: nat, len: nat)
      requires 0 < num == desc.Length == data.Length == avail.Length && data != avail
      requires 0 < numFree && freeHead < num && And(availIdx, num - 1) < num
      modifies this`numFree, this`freeHead, this`availIdx, desc, data, avail
      ensures Abs() == AddRing(old(Abs()), num, buf, len)
    {
      numFree := numFree - 1;
      var head := freeHead;
      desc[head] := desc[head].(flags := 0, addr := buf, len := len);
      freeHead := desc[head].next;
      data[head] := buf;
      var slot := And(availIdx, num - 1);
      avail[slot] := head;
      availIdx := (availIdx + 1) % U16;
    }

    /** Give the descriptors of the chain `s` that starts at head back to the free list. */
    method DetachBuf(head: nat, ghost s: seq<nat>)
      requires desc.Length == data.Length && IsChain(desc[..], s) && s[0] == head
      modifies this`numFree, this`freeHead, desc, data
      ensures numFree == old(numFree) + |s| && freeHead == head
      ensures data[..] == old(data[..])[head := 0]
      ensures var last := s[|s| - 1];
              desc[..] == old(desc[..])[last := old(desc[..])[last].(next := old(freeHead))]
    {
      var i := head;
      ghost var k := 0;
      data[head] := 0;
      while And(desc[i].flags, VRING_DESC_F_NEXT) != 0
        invariant 0 <= k < |s| && i == s[k] && numFree == old(numFree) + k
        invariant freeHead == old(freeHead) && desc[..] == old(desc[..])
        invariant data[..] == old(data[..])[head := 0]
        decreases |s| - k
      {
        ghost var j := k + 1;
        assert desc[..][s[k]].next == s[j];
        i := desc[i].next;
        numFree := numFree + 1;
        k := k + 1;
      }
      desc[i] := desc[i].(next := freeHead);
      freeHead := head;
      numFree := numFree + 1;
    }

    /** Retrieve the buffer of the used entry at last_used_idx, which the device must have published. */
    method GetBuf() returns (buf: nat, len: nat)
      requires Valid() && Ready(log)
      modifies this, desc, data
      ensures State() == old(After(Get))
      ensures log == GetLog(old(log), old(NextUsed(log)).id)
      ensures len == old(NextUsed(log)).len
      ensures HandedBack(old(log), log, buf)
      ensures Valid()
    {
      hide Inv, And;
      ghost var was := Abs();
      GetKeeps(num, was, log);
      var slot := And(lastUsedIdx, num - 1);
      var i := used[slot].id;
      len := used[slot].len;
      buf := data[i];
      DetachBuf(i, [i]);
      lastUsedIdx := (lastUsedIdx + 1) % U16;
      log := GetLog(log, i);
      assert Abs() == GetRing(was, i);
    }

    /** The device takes the next available entry, in order. */
    method DeviceTake() returns (head: nat)
      requires Valid() && log.taken < |log.bufs|
      modifies this`log, this`deviceIdx
      ensures Valid() && Abs() == old(Abs()) && log == old(log).(taken := old(log).taken + 1)
      ensures State() == old(After(Take))
      ensures head == log.heads[old(log).taken]
    {
      hide FreeOk, FlightOk, ReturnedOk, AvailOk, UsedOk, And;
      TakeKeeps(num, Abs(), log);
      head := avail[And(deviceIdx, num - 1)];
      deviceIdx := (deviceIdx + 1) % U16;
      log := log.(taken := log.taken + 1);
    }

    /** The device completes any descriptor that it has taken. */
    method DevicePublish(head: nat, len: nat)
      requires Valid() && AtDevice(log, head)
      modifies this`usedIdx, this`log, used
      ensures Valid() && log == old(log).(published := old(log).published + [UsedElem(head, len)])
      ensures State() == old(After(Publish(UsedElem(head, len))))
    {
      ghost var was := Abs();
      hide FreeOk, FlightOk, ReturnedOk, AvailOk, UsedOk, And;
      PublishKeeps(num, was, log, UsedElem(head, len));
      used[And(usedIdx, num - 1)] := UsedElem(head, len);
      usedIdx := (usedIdx + 1) % U16;
      log := log.(published := log.published + [UsedElem(head, len)]);
      assert Abs() == PublishRing(was, num, UsedElem(head, len));
    }
  }
}
