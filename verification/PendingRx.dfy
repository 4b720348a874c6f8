/** Unicast data held briefly until its sender is known, in bounded space and time. */
module PendingRx {
  import opened ByteSeqs

  const MAX_AGE_US: nat := 250_000
  const MAX_PACKETS: nat := 16
  const MAX_BYTES: nat := 65_536

  datatype Delivery = Delivery(source: nat, frames: seq<seq<Byte>>, unicast: bool)

  datatype Pending = Pending(delivery: Delivery, channel: nat, receivedUs: nat, bytes: nat)

  function Size(frames: seq<seq<Byte>>): nat {
    if frames == [] then 0 else |frames[0]| + Size(frames[1..])
  }

  function Sum(queue: seq<Pending>): nat {
    if queue == [] then 0 else queue[0].bytes + Sum(queue[1..])
  }

  predicate IsHeld(d: Delivery, channel: nat) {
    d.unicast && channel != 0 && 0 < Size(d.frames) <= MAX_BYTES
  }

  predicate HasRoom(queue: seq<Pending>, bytes: nat) {
    |queue| < MAX_PACKETS && Sum(queue) + bytes <= MAX_BYTES
  }

  /** How many of the oldest entries must go to make room: as few as possible. */
  function Crowded(queue: seq<Pending>, bytes: nat): (k: nat)
    requires bytes <= MAX_BYTES
    ensures k <= |queue| && HasRoom(queue[k..], bytes)
    ensures forall j :: 0 <= j < k ==> !HasRoom(queue[j..], bytes)
  {
    if HasRoom(queue, bytes) then
      assert queue[0..] == queue;
      0
    else
      var k := Crowded(queue[1..], bytes);
      assert queue[1..][k..] == queue[k + 1..];
      assert forall j :: 0 < j <= k ==> queue[1..][j - 1..] == queue[j..];
      assert forall j :: 0 < j <= k ==> !HasRoom(queue[j..], bytes) by {
        forall j | 0 < j <= k ensures !HasRoom(queue[j..], bytes) {
          assert !HasRoom(queue[1..][j - 1..], bytes);
        }
      }
      assert queue[0..] == queue;
      k + 1
  }

  predicate IsStale(p: Pending, now: nat) {
    now >= p.receivedUs && now - p.receivedUs >= MAX_AGE_US
  }

  predicate Leaves(p: Pending, now: nat, established: set<nat>) {
    IsStale(p, now) || p.delivery.source in established
  }

  function Released(queue: seq<Pending>, now: nat, established: set<nat>): seq<Pending> {
    if queue == [] then []
    else if !IsStale(queue[0], now) && queue[0].delivery.source in established then
      [queue[0]] + Released(queue[1..], now, established)
    else Released(queue[1..], now, established)
  }

  function Waiting(queue: seq<Pending>, now: nat, established: set<nat>): seq<Pending> {
    if queue == [] then []
    else if Leaves(queue[0], now, established) then Waiting(queue[1..], now, established)
    else [queue[0]] + Waiting(queue[1..], now, established)
  }

  lemma {:induction false} SumParts(a: seq<Pending>, b: seq<Pending>)
    ensures Sum(a + b) == Sum(a) + Sum(b)
  {
    if a == [] {
      assert a + b == b;
    } else {
      assert (a + b)[1..] == a[1..] + b;
      SumParts(a[1..], b);
    }
  }

  class HoldQueue {
    var queue: seq<Pending>
    var bytes: nat

    /** The byte count is the sum of the entries, all of them held for a reason, within both bounds. */
    ghost predicate Valid()
      reads this
    {
      && bytes == Sum(queue) && |queue| <= MAX_PACKETS && bytes <= MAX_BYTES
      && forall p :: p in queue ==> IsHeld(p.delivery, p.channel) && p.bytes == Size(p.delivery.frames)
    }

    constructor ()
      ensures Valid() && queue == []
    {
      queue, bytes := [], 0;
    }

    method Push(d: Delivery, channel: nat, now: nat) returns (held: bool)
      requires Valid()
      modifies this
      ensures Valid()
      ensures held == IsHeld(d, channel)
      ensures queue == if held then
                old(queue)[Crowded(old(queue), Size(d.frames))..] + [Pending(d, channel, now, Size(d.frames))]
              else old(queue)
    {
      var size := Measure(d.frames);
      hide Crowded, Size;
      if !d.unicast || channel == 0 || size == 0 || size > MAX_BYTES {
        return false;
      }
      assert IsHeld(d, channel);
      hide IsHeld;
      ghost var before := queue;
      ghost var gone := 0;
      while |queue| >= MAX_PACKETS || bytes + size > MAX_BYTES
        invariant Valid()
        invariant gone <= Crowded(before, size) && queue == before[gone..]
        decreases |queue|
      {
        assert !HasRoom(before[gone..], size) && queue != [];
        assert queue[1..] == before[gone + 1..];
        var oldest := queue[0];
        queue := queue[1..];
        bytes := bytes - oldest.bytes;
        gone := gone + 1;
      }
      assert HasRoom(before[gone..], size);
      var item := Pending(d, channel, now, size);
      SumParts(queue, [item]);
      assert Sum([item]) == size;
      hide Sum, HasRoom;
      bytes := bytes + size;
      queue := queue + [item];
      return true;
    }

    static method Measure(frames: seq<seq<Byte>>) returns (size: nat)
      ensures size == Size(frames)
    {
      size := 0;
      for i := 0 to |frames|
        invariant size + Size(frames[i..]) == Size(frames)
      {
        size := size + |frames[i]|;
      }
    }

    method Ready(now: nat, established: set<nat>) returns (ready: seq<Pending>)
      requires Valid()
      modifies this
      ensures Valid()
      ensures ready == Released(old(queue), now, established)
      ensures queue == Waiting(old(queue), now, established)
    {
      ready := [];
      var waiting: seq<Pending> := [];
      while |queue| > 0
        invariant bytes == Sum(queue) + Sum(waiting) && |queue| + |waiting| <= MAX_PACKETS && bytes <= MAX_BYTES
        invariant forall p :: p in queue || p in waiting ==>
                                IsHeld(p.delivery, p.channel) && p.bytes == Size(p.delivery.frames)
        invariant ready + Released(queue, now, established) == Released(old(queue), now, established)
        invariant waiting + Waiting(queue, now, established) == Waiting(old(queue), now, established)
        decreases |queue|
      {
        var item := queue[0];
        var rest := queue[1..];
        SumParts(waiting, [item]);
        Associates(ready, [item], Released(rest, now, established), []);
        Associates(waiting, [item], Waiting(rest, now, established), []);
        queue := rest;
        if IsStale(item, now) {
          bytes := bytes - item.bytes;
        } else if item.delivery.source in established {
          bytes := bytes - item.bytes;
          ready := ready + [item];
        } else {
          waiting := waiting + [item];
        }
      }
      queue := waiting;
    }
  }

  // ---- Whole runs ----

  datatype Fate = Evicted | Expired | Delivered

  datatype Departure = Departure(item: Pending, how: Fate, at: nat)

  datatype Op = Push(d: Delivery, channel: nat, now: nat) | Ready(now: nat, established: set<nat>)

  /** The queue, every entry it ever took and how entries left it. */
  datatype State = State(queue: seq<Pending>, accepted: seq<Pending>, log: seq<Departure>)

  function Evictions(items: seq<Pending>, now: nat): seq<Departure> {
    if items == [] then [] else [Departure(items[0], Evicted, now)] + Evictions(items[1..], now)
  }

  function Departures(queue: seq<Pending>, now: nat, established: set<nat>): seq<Departure> {
    if queue == [] then []
    else if Leaves(queue[0], now, established) then
      [Departure(queue[0], if IsStale(queue[0], now) then Expired else Delivered, now)]
      + Departures(queue[1..], now, established)
    else Departures(queue[1..], now, established)
  }

  function Step(t: State, op: Op): State {
    match op
    case Push(d, channel, now) =>
      if !IsHeld(d, channel) then t
      else
        var p, k := Pending(d, channel, now, Size(d.frames)), Crowded(t.queue, Size(d.frames));
        State(t.queue[k..] + [p], t.accepted + [p], t.log + Evictions(t.queue[..k], now))
    case Ready(now, established) =>
      State(Waiting(t.queue, now, established), t.accepted, t.log + Departures(t.queue, now, established))
  }

  function Run(t: State, ops: seq<Op>): State
    decreases |ops|
  {
    if ops == [] then t else Run(Step(t, ops[0]), ops[1..])
  }

  predicate NeverBack(ops: seq<Op>, clock: nat) {
    ops == [] || (clock <= ops[0].now && NeverBack(ops[1..], ops[0].now))
  }

  function Items(log: seq<Departure>): seq<Pending> {
    if log == [] then [] else [log[0].item] + Items(log[1..])
  }

  /** The entries from one sender. */
  function From(source: nat, ps: seq<Pending>): seq<Pending> {
    if ps == [] then []
    else if ps[0].delivery.source == source then [ps[0]] + From(source, ps[1..])
    else From(source, ps[1..])
  }

  ghost predicate InOrder(ps: seq<Pending>, clock: nat) {
    && (forall i, j :: 0 <= i < j < |ps| ==> ps[i].receivedUs <= ps[j].receivedUs)
    && forall i :: 0 <= i < |ps| ==> ps[i].receivedUs <= clock
  }

  /** What expired was too old when it left, what was released was not. */
  predicate IsFair(d: Departure) {
    && (d.how.Expired? ==> d.at >= d.item.receivedUs + 250_000)
    && (d.how.Delivered? ==> d.at < d.item.receivedUs + 250_000)
  }

  /** Of each sender, what was taken is what left, in that order, and then what is queued. */
  ghost predicate IsFifo(t: State) {
    forall source :: From(source, t.accepted) == From(source, Items(t.log)) + From(source, t.queue)
  }

  ghost predicate Inv(t: State, clock: nat) {
    && IsFifo(t) && InOrder(t.queue, clock)
    && |t.queue| <= MAX_PACKETS && Sum(t.queue) <= MAX_BYTES
    && forall d :: d in t.log ==> IsFair(d)
  }

  lemma {:induction false} FromParts(source: nat, a: seq<Pending>, b: seq<Pending>)
    ensures From(source, a + b) == From(source, a) + From(source, b)
  {
    if a == [] {
      assert a + b == b;
    } else {
      assert (a + b)[1..] == a[1..] + b;
      FromParts(source, a[1..], b);
    }
  }

  lemma {:induction false} ItemsParts(a: seq<Departure>, b: seq<Departure>)
    ensures Items(a + b) == Items(a) + Items(b)
  {
    if a == [] {
      assert a + b == b;
    } else {
      assert (a + b)[1..] == a[1..] + b;
      ItemsParts(a[1..], b);
    }
  }

  lemma {:induction false} EvictionsItems(items: seq<Pending>, now: nat)
    ensures Items(Evictions(items, now)) == items
    ensures forall d :: d in Evictions(items, now) ==> IsFair(d)
  {
    if items != [] {
      EvictionsItems(items[1..], now);
      assert Evictions(items, now)[1..] == Evictions(items[1..], now);
    }
  }

  lemma InOrderTail(ps: seq<Pending>, clock: nat)
    requires InOrder(ps, clock) && ps != []
    ensures InOrder(ps[1..], clock) && forall p :: p in ps[1..] ==> ps[0].receivedUs <= p.receivedUs
  {
  }

  /** Of a sender that is not established nobody leaves while everyone is young enough. */
  lemma {:induction false} NobodyLeaves(queue: seq<Pending>, source: nat, now: nat, established: set<nat>)
    requires source !in established && forall p :: p in queue ==> !IsStale(p, now)
    ensures From(source, Items(Departures(queue, now, established))) == []
  {
    if queue != [] {
      NobodyLeaves(queue[1..], source, now, established);
      if Leaves(queue[0], now, established) {
        assert Departures(queue, now, established)[1..] == Departures(queue[1..], now, established);
      }
    }
  }

  lemma FirstOfQueue(queue: seq<Pending>, now: nat, established: set<nat>)
    requires queue != []
    ensures Items(Departures(queue, now, established))
            == (if Leaves(queue[0], now, established) then [queue[0]] else [])
               + Items(Departures(queue[1..], now, established))
    ensures Waiting(queue, now, established)
            == (if Leaves(queue[0], now, established) then [] else [queue[0]]) + Waiting(queue[1..], now, established)
  {
    hide Leaves, IsStale;
    var gone := Departures(queue[1..], now, established);
    if Leaves(queue[0], now, established) {
      var first := Departure(queue[0], if IsStale(queue[0], now) then Expired else Delivered, now);
      assert Departures(queue, now, established) == [first] + gone && ([first] + gone)[1..] == gone;
    }
  }

  lemma FromOne(source: nat, p: Pending, rest: seq<Pending>)
    ensures From(source, [p] + rest) == (if p.delivery.source == source then [p] else []) + From(source, rest)
  {
    assert ([p] + rest)[1..] == rest;
  }

  /** Releasing and expiring takes the entries of one sender from the front. */
  lemma {:induction false} ReadyIsFifo(queue: seq<Pending>, source: nat, now: nat, established: set<nat>)
    requires InOrder(queue, now)
    ensures From(source, Items(Departures(queue, now, established))) + From(source, Waiting(queue, now, established))
            == From(source, queue)
  {
    if queue != [] {
      var p, rest := queue[0], queue[1..];
      var gone, kept := Departures(rest, now, established), Waiting(rest, now, established);
      InOrderTail(queue, now);
      assert queue == [p] + rest && (!IsStale(p, now) ==> forall q :: q in rest ==> !IsStale(q, now));
      hide InOrder, From, Items, Departures, Waiting, IsStale;
      FirstOfQueue(queue, now, established);
      ReadyIsFifo(rest, source, now, established);
      FromOne(source, p, rest);
      if Leaves(p, now, established) {
        FromOne(source, p, Items(gone));
        Associates(if p.delivery.source == source then [p] else [], From(source, Items(gone)), From(source, kept), []);
      } else {
        FromOne(source, p, kept);
        if p.delivery.source == source {
          NobodyLeaves(rest, source, now, established);
        }
      }
    }
  }

  lemma InOrderCons(p: Pending, ps: seq<Pending>, clock: nat)
    requires InOrder(ps, clock) && p.receivedUs <= clock && forall q :: q in ps ==> p.receivedUs <= q.receivedUs
    ensures InOrder([p] + ps, clock)
  {
  }

  lemma {:induction false} ReadyShrinks(queue: seq<Pending>, now: nat, established: set<nat>, clock: nat)
    requires InOrder(queue, clock)
    ensures InOrder(Waiting(queue, now, established), clock)
    ensures |Waiting(queue, now, established)| <= |queue| && Sum(Waiting(queue, now, established)) <= Sum(queue)
    ensures forall p :: p in Waiting(queue, now, established) ==> p in queue
    ensures forall d :: d in Departures(queue, now, established) ==> IsFair(d)
  {
    if queue != [] {
      var kept := Waiting(queue[1..], now, established);
      InOrderTail(queue, clock);
      assert queue[0].receivedUs <= clock;
      hide InOrder;
      ReadyShrinks(queue[1..], now, established, clock);
      if !Leaves(queue[0], now, established) {
        InOrderCons(queue[0], kept, clock);
        SumParts([queue[0]], kept);
      }
    }
  }

  lemma Associates<T>(a: seq<T>, b: seq<T>, c: seq<T>, d: seq<T>)
    ensures (a + b) + (c + d) == (a + (b + c)) + d
    ensures (a + b) + c == a + (b + c)
  {
  }

  lemma PushIsFifo(t: State, k: nat, p: Pending, now: nat, source: nat)
    requires IsFifo(t) && k <= |t.queue|
    ensures From(source, t.accepted + [p])
            == From(source, Items(t.log + Evictions(t.queue[..k], now))) + From(source, t.queue[k..] + [p])
  {
    var gone, kept := t.queue[..k], t.queue[k..];
    hide From, Items, Evictions;
    assert From(source, t.accepted) == From(source, Items(t.log)) + From(source, t.queue);
    assert gone + kept == t.queue;
    EvictionsItems(gone, now);
    ItemsParts(t.log, Evictions(gone, now));
    FromParts(source, t.accepted, [p]);
    FromParts(source, Items(t.log), gone);
    FromParts(source, kept, [p]);
    FromParts(source, gone, kept);
    Associates(From(source, Items(t.log)), From(source, gone), From(source, kept), From(source, [p]));
  }

  lemma InOrderPushed(queue: seq<Pending>, clock: nat, k: nat, p: Pending)
    requires InOrder(queue, clock) && k <= |queue| && clock <= p.receivedUs
    ensures InOrder(queue[k..] + [p], p.receivedUs)
  {
  }

  lemma PushKeepsInv(t: State, d: Delivery, channel: nat, now: nat, clock: nat)
    requires Inv(t, clock) && clock <= now && IsHeld(d, channel)
    ensures Inv(Step(t, Push(d, channel, now)), now)
  {
    var p, k := Pending(d, channel, now, Size(d.frames)), Crowded(t.queue, Size(d.frames));
    var s := Step(t, Push(d, channel, now));
    assert IsFifo(s) by {
      forall source ensures From(source, s.accepted) == From(source, Items(s.log)) + From(source, s.queue) {
        PushIsFifo(t, k, p, now, source);
      }
    }
    SumParts(t.queue[k..], [p]);
    EvictionsItems(t.queue[..k], now);
    InOrderPushed(t.queue, clock, k, p);
    hide IsFifo, InOrder, From, Items, Crowded, Evictions, IsFair;
  }

  lemma ReadyKeepsInv(t: State, now: nat, established: set<nat>, clock: nat)
    requires Inv(t, clock) && clock <= now
    ensures Inv(Step(t, Ready(now, established)), now)
  {
    var s := Step(t, Ready(now, established));
    assert InOrder(t.queue, now);
    hide InOrder, From, Items, Sum, Departures, Waiting, IsFair;
    ReadyShrinks(t.queue, now, established, now);
    assert IsFifo(s) by {
      ItemsParts(t.log, Departures(t.queue, now, established));
      forall source ensures From(source, s.accepted) == From(source, Items(s.log)) + From(source, s.queue) {
        var gone, kept := Departures(t.queue, now, established), Waiting(t.queue, now, established);
        ReadyIsFifo(t.queue, source, now, established);
        FromParts(source, Items(t.log), Items(gone));
        Associates(From(source, Items(t.log)), From(source, Items(gone)), From(source, kept), []);
      }
    }
    hide IsFifo;
  }

  /** The entries of a list of departures that were handed on. */
  function DeliveredOf(log: seq<Departure>): seq<Pending> {
    if log == [] then []
    else if log[0].how.Delivered? then [log[0].item] + DeliveredOf(log[1..])
    else DeliveredOf(log[1..])
  }

  /** What the call returns is what left it alive: exactly the young entries of established senders. */
  lemma {:induction false} ReadyReturnsDelivered(queue: seq<Pending>, now: nat, established: set<nat>)
    ensures Released(queue, now, established) == DeliveredOf(Departures(queue, now, established))
    ensures forall p :: p in Released(queue, now, established) <==>
                        p in queue && now < p.receivedUs + 250_000 && p.delivery.source in established
    ensures forall p :: p in Waiting(queue, now, established) <==>
                        p in queue && now < p.receivedUs + 250_000 && p.delivery.source !in established
  {
    if queue != [] {
      ReadyReturnsDelivered(queue[1..], now, established);
      if Leaves(queue[0], now, established) {
        assert Departures(queue, now, established)[1..] == Departures(queue[1..], now, established);
      }
    }
  }

  /**
   * Over any run with a clock that does not go back: the bounds hold; of each sender the entries taken are
   * those that left, in arrival order and each once, and then those still queued; what was released was
   * younger than a quarter of a second, and what expired was not.
   */
  lemma {:induction false} RunKeepsInv(t: State, ops: seq<Op>, clock: nat) returns (last: nat)
    requires Inv(t, clock) && NeverBack(ops, clock)
    ensures Inv(Run(t, ops), last)
    decreases |ops|
  {
    if ops == [] {
      last := clock;
    } else {
      match ops[0] {
        case Push(d, channel, now) =>
          if IsHeld(d, channel) {
            PushKeepsInv(t, d, channel, now, clock);
          }
        case Ready(now, established) => ReadyKeepsInv(t, now, established, clock);
      }
      assert Inv(Step(t, ops[0]), ops[0].now);
      hide Inv, Step;
      last := RunKeepsInv(Step(t, ops[0]), ops[1..], ops[0].now);
    }
  }

  lemma EveryRunIsFifo(ops: seq<Op>)
    requires NeverBack(ops, 0)
    ensures var t := Run(State([], [], []), ops);
            && IsFifo(t) && |t.queue| <= 16 && Sum(t.queue) <= 65536
            && forall d :: d in t.log ==> IsFair(d)
  {
    var last := RunKeepsInv(State([], [], []), ops, 0);
    assert Inv(Run(State([], [], []), ops), last);
  }

  /**
   * After any run, a delivery is taken exactly when it is unicast, came on a channel, and is not empty nor over
   * 64 KiB; the oldest make room for it, as few as possible, so that no more than 16 and 64 KiB are held.
   */
  lemma HeldIff(ops: seq<Op>, d: Delivery, channel: nat, now: nat) returns (k: nat)
    ensures var t := Run(State([], [], []), ops);
            var queue, after := t.queue, Step(t, Push(d, channel, now)).queue;
            if d.unicast && channel > 0 && 0 < Size(d.frames) <= 65536 then
              && k <= |queue| && after == queue[k..] + [Pending(d, channel, now, Size(d.frames))]
              && |queue| - k < 16 && Sum(queue[k..]) + Size(d.frames) <= 65536
              && forall j :: 0 <= j < k ==> |queue| - j >= 16 || Sum(queue[j..]) + Size(d.frames) > 65536
            else after == queue
  {
    var queue := Run(State([], [], []), ops).queue;
    k := if IsHeld(d, channel) then Crowded(queue, Size(d.frames)) else 0;
    hide Run, Size, Sum, Crowded;
    if IsHeld(d, channel) {
      forall j | 0 <= j < k
        ensures |queue| - j >= 16 || Sum(queue[j..]) + Size(d.frames) > 65536
      {
        assert !HasRoom(queue[j..], Size(d.frames));
      }
      assert HasRoom(queue[k..], Size(d.frames));
    }
  }
}
