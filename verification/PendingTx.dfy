/**
 * The bounded unicast backlog: one rotating queue that serves each destination as a FIFO of its own.
 */
module PendingTx {
  import opened ByteSeqs

  const MAX_PACKETS: nat := 32
  const MAX_PER_PEER: nat := 8
  const MAX_BYTES: nat := 64 * 1024
  const TU_US: nat := 1024
  const HOP_CYCLE_US: nat := 16 * 64 * TU_US
  const MAX_AGE_US: nat := 2 * HOP_CYCLE_US

  type Peer = a: seq<Byte> | |a| == 6 witness [0, 0, 0, 0, 0, 0]

  datatype Frame = Frame(octets: seq<Byte>, dst: Peer, number: nat)

  datatype Entry = Entry(queued: nat, frame: Frame)

  datatype Decision = Send | Hold | Drop

  /** A frame offered to the sender, and the sender's answer. */
  datatype Offer = Offer(entry: Entry, answer: Decision)

  /** The sender: its answer to its n-th call, whatever frame it is shown. */
  type Answers = nat -> Decision

  // ---- The queue as a value ----

  function Age(now: nat, queued: nat): nat {
    if now >= queued then now - queued else 0
  }

  predicate IsLive(e: Entry, now: nat) {
    Age(now, e.queued) < MAX_AGE_US
  }

  function Live(es: seq<Entry>, now: nat): seq<Entry> {
    if es == [] then [] else (if IsLive(es[0], now) then [es[0]] else []) + Live(es[1..], now)
  }

  function Expired(es: seq<Entry>, now: nat): seq<Entry> {
    if es == [] then [] else (if IsLive(es[0], now) then [] else [es[0]]) + Expired(es[1..], now)
  }

  function Total(es: seq<Entry>): nat {
    if es == [] then 0 else |es[0].frame.octets| + Total(es[1..])
  }

  /** The entries for one destination, in order. */
  function For(es: seq<Entry>, dst: Peer): seq<Entry> {
    if es == [] then [] else (if es[0].frame.dst == dst then [es[0]] else []) + For(es[1..], dst)
  }

  predicate HasRoom(es: seq<Entry>, frame: Frame) {
    && 0 < |frame.octets| <= MAX_BYTES
    && |es| < MAX_PACKETS
    && Total(es) + |frame.octets| <= MAX_BYTES
    && |For(es, frame.dst)| < MAX_PER_PEER
  }

  function Pushed(es: seq<Entry>, frame: Frame, now: nat): seq<Entry> {
    var live := Live(es, now);
    if HasRoom(live, frame) then live + [Entry(now, frame)] else live
  }

  /** One pass of the sender over the entries: what is kept, and the offers made. */
  function Pass(es: seq<Entry>, blocked: set<Peer>, calls: nat, answers: Answers): (seq<Entry>, seq<Offer>) {
    if es == [] then ([], [])
    else
      var e := es[0];
      if e.frame.dst in blocked then
        var (kept, offers) := Pass(es[1..], blocked, calls, answers);
        ([e] + kept, offers)
      else if answers(calls) == Hold then
        var (kept, offers) := Pass(es[1..], blocked + {e.frame.dst}, calls + 1, answers);
        ([e] + kept, [Offer(e, Hold)] + offers)
      else
        var (kept, offers) := Pass(es[1..], blocked, calls + 1, answers);
        (kept, [Offer(e, answers(calls))] + offers)
  }

  lemma {:induction false} TotalConcat(a: seq<Entry>, b: seq<Entry>)
    ensures Total(a + b) == Total(a) + Total(b)
  {
    if a == [] {
      assert a + b == b;
    } else {
      assert (a + b)[1..] == a[1..] + b;
      TotalConcat(a[1..], b);
    }
  }

  lemma {:induction false} ForConcat(a: seq<Entry>, b: seq<Entry>, dst: Peer)
    ensures For(a + b, dst) == For(a, dst) + For(b, dst)
  {
    if a == [] {
      assert a + b == b && [] + For(b, dst) == For(b, dst);
    } else {
      var head := if a[0].frame.dst == dst then [a[0]] else [];
      assert (a + b)[0] == a[0] && (a + b)[1..] == a[1..] + b;
      ForConcat(a[1..], b, dst);
      assert head + (For(a[1..], dst) + For(b, dst)) == head + For(a[1..], dst) + For(b, dst);
    }
  }

  lemma ForOne(e: Entry, dst: Peer)
    ensures For([e], dst) == if e.frame.dst == dst then [e] else []
    ensures Total([e]) == |e.frame.octets|
  {
    assert [e][1..] == [];
  }

  // ---- The queue in place ----

  class Backlog {
    var frames: seq<Entry>
    var bytes: nat

    ghost predicate Valid()
      reads this
    {
      bytes == Total(frames)
    }

    constructor ()
      ensures Valid() && frames == []
    {
      frames, bytes := [], 0;
    }

    method Expire(now: nat)
      requires Valid()
      modifies this
      ensures Valid() && frames == Live(old(frames), now)
    {
      hide Live, IsLive, Total;
      var kept: seq<Entry> := [];
      var i := 0;
      assert frames[0..] == frames && [] + Live(frames, now) == Live(frames, now);
      TotalNone();
      while i < |frames|
        invariant i <= |frames| && frames == old(frames)
        invariant Live(frames, now) == kept + Live(frames[i..], now)
        invariant bytes == Total(kept) + Total(frames[i..])
      {
        var e := frames[i];
        ExpireStep(kept, e, frames[i + 1..], now);
        assert frames[i..] == [e] + frames[i + 1..];
        if IsLive(e, now) {
          kept := kept + [e];
        } else {
          bytes := bytes - |e.frame.octets|;
        }
        i := i + 1;
      }
      assert frames[|frames|..] == [];
      LiveNone(now);
      TotalNone();
      assert kept + [] == kept;
      frames := kept;
    }

    /** Newest frames are rejected on overflow; the answer says whether the frame was taken. */
    method Push(frame: Frame, now: nat) returns (taken: bool)
      requires Valid()
      modifies this
      ensures Valid() && frames == Pushed(old(frames), frame, now)
      ensures taken == HasRoom(Live(old(frames), now), frame)
    {
      hide Live, Total, For;
      Expire(now);
      var size := |frame.octets|;
      var queued := CountFor(frame.dst);
      if size == 0 || size > MAX_BYTES || |frames| >= MAX_PACKETS || bytes + size > MAX_BYTES
        || queued >= MAX_PER_PEER {
        return false;
      }
      TotalConcat(frames, [Entry(now, frame)]);
      ForOne(Entry(now, frame), frame.dst);
      bytes := bytes + size;
      frames := frames + [Entry(now, frame)];
      return true;
    }

    method CountFor(dst: Peer) returns (n: nat)
      ensures n == |For(frames, dst)|
    {
      hide For;
      n := 0;
      assert frames[0..] == frames;
      for i := 0 to |frames|
        invariant |For(frames, dst)| == n + |For(frames[i..], dst)|
      {
        assert frames[i..] == [frames[i]] + frames[i + 1..];
        ForConcat([frames[i]], frames[i + 1..], dst);
        ForOne(frames[i], dst);
        if frames[i].frame.dst == dst {
          n := n + 1;
        }
      }
      assert frames[|frames|..] == [];
      ForConcat([], [], dst);
      assert |For([], dst)| == 0 by {
        ForNone(dst);
      }
    }

    /** Every entry is popped once; held ones go to the back, so one pass restores their order. */
    method Drain(now: nat, answers: Answers) returns (ghost offers: seq<Offer>)
      requires Valid()
      modifies this
      ensures Valid() && (frames, offers) == Pass(Live(old(frames), now), {}, 0, answers)
    {
      hide Live, Total, Pass;
      Expire(now);
      ghost var es := frames;
      offers := [];
      var blocked: set<Peer> := {};
      var calls := 0;
      ghost var kept: seq<Entry> := [];
      assert es[0..] == es && es + [] == es;
      JoinedNothing(Pass(es, {}, 0, answers));
      var count := |frames|;
      for i := 0 to count
        invariant frames == es[i..] + kept && bytes == Total(frames)
        invariant Pass(es, {}, 0, answers) == Joined(kept, offers, Pass(es[i..], blocked, calls, answers))
      {
        ghost var rest := es[i + 1..];
        var e := frames[0];
        assert es[i..] == [e] + rest;
        PassFirst(e, rest, blocked, calls, answers);
        PopFront(e, rest, kept);
        frames := frames[1..];
        if e.frame.dst in blocked {
          JoinedTwice(kept, offers, [e], [], Pass(rest, blocked, calls, answers));
          assert offers + [] == offers;
          PushBack(e, rest, kept);
          frames := frames + [e];
          kept := kept + [e];
        } else {
          var answer := answers(calls);
          calls := calls + 1;
          if answer == Hold {
            blocked := blocked + {e.frame.dst};
            JoinedTwice(kept, offers, [e], [Offer(e, Hold)], Pass(rest, blocked, calls, answers));
            PushBack(e, rest, kept);
            frames := frames + [e];
            kept := kept + [e];
          } else {
            JoinedTwice(kept, offers, [], [Offer(e, answer)], Pass(rest, blocked, calls, answers));
            assert kept + [] == kept;
            bytes := bytes - |e.frame.octets|;
          }
          offers := offers + [Offer(e, answer)];
        }
      }
      assert es[|es|..] == [] && [] + kept == kept;
      PassEnd(blocked, calls, answers);
      assert kept + [] == kept && offers + [] == offers;
    }
  }

  lemma TotalNone()
    ensures Total([]) == 0
  {
  }

  lemma ExpireStep(kept: seq<Entry>, e: Entry, rest: seq<Entry>, now: nat)
    ensures kept + Live([e] + rest, now) == (if IsLive(e, now) then kept + [e] else kept) + Live(rest, now)
    ensures Total([e] + rest) == |e.frame.octets| + Total(rest)
    ensures Total(kept + [e]) == Total(kept) + |e.frame.octets|
  {
    hide Live, IsLive, Total;
    LiveFirst(e, rest, now);
    TotalConcat([e], rest);
    TotalConcat(kept, [e]);
    ForOne(e, e.frame.dst);
    assert kept + ([e] + Live(rest, now)) == kept + [e] + Live(rest, now);
    assert [] + Live(rest, now) == Live(rest, now);
  }

  lemma LiveFirst(e: Entry, rest: seq<Entry>, now: nat)
    ensures Live([e] + rest, now) == (if IsLive(e, now) then [e] else []) + Live(rest, now)
    ensures Expired([e] + rest, now) == (if IsLive(e, now) then [] else [e]) + Expired(rest, now)
  {
    assert ([e] + rest)[1..] == rest;
  }

  lemma LiveNone(now: nat)
    ensures Live([], now) == [] && Expired([], now) == []
  {
  }

  lemma ForNone(dst: Peer)
    ensures For([], dst) == []
  {
  }

  lemma PopFront(e: Entry, rest: seq<Entry>, kept: seq<Entry>)
    ensures (([e] + rest) + kept)[1..] == rest + kept && (([e] + rest) + kept)[0] == e
    ensures Total(([e] + rest) + kept) == |e.frame.octets| + Total(rest + kept)
  {
    assert (([e] + rest) + kept)[1..] == rest + kept;
  }

  lemma PushBack(e: Entry, rest: seq<Entry>, kept: seq<Entry>)
    ensures rest + kept + [e] == rest + (kept + [e])
    ensures Total(rest + kept + [e]) == Total(rest + kept) + |e.frame.octets|
  {
    TotalConcat(rest + kept, [e]);
    ForOne(e, e.frame.dst);
  }

  function Joined(kept: seq<Entry>, offers: seq<Offer>, r: (seq<Entry>, seq<Offer>)): (seq<Entry>, seq<Offer>) {
    (kept + r.0, offers + r.1)
  }

  lemma JoinedNothing(r: (seq<Entry>, seq<Offer>))
    ensures Joined([], [], r) == r
  {
    assert [] + r.0 == r.0 && [] + r.1 == r.1;
  }

  lemma JoinedTwice(k: seq<Entry>, o: seq<Offer>, k': seq<Entry>, o': seq<Offer>, r: (seq<Entry>, seq<Offer>))
    ensures Joined(k, o, Joined(k', o', r)) == Joined(k + k', o + o', r)
  {
    assert k + (k' + r.0) == k + k' + r.0 && o + (o' + r.1) == o + o' + r.1;
  }

  lemma PassFirst(e: Entry, rest: seq<Entry>, blocked: set<Peer>, calls: nat, answers: Answers)
    ensures Pass([e] + rest, blocked, calls, answers) ==
            if e.frame.dst in blocked then Joined([e], [], Pass(rest, blocked, calls, answers))
            else if answers(calls) == Hold then
              Joined([e], [Offer(e, Hold)], Pass(rest, blocked + {e.frame.dst}, calls + 1, answers))
            else Joined([], [Offer(e, answers(calls))], Pass(rest, blocked, calls + 1, answers))
  {
    assert ([e] + rest)[1..] == rest;
    var next := if e.frame.dst in blocked then Pass(rest, blocked, calls, answers)
                else if answers(calls) == Hold then Pass(rest, blocked + {e.frame.dst}, calls + 1, answers)
                else Pass(rest, blocked, calls + 1, answers);
    assert [] + next.0 == next.0 && [] + next.1 == next.1;
  }

  lemma PassEnd(blocked: set<Peer>, calls: nat, answers: Answers)
    ensures Pass([], blocked, calls, answers) == ([], [])
  {
  }

  // ---- One pass is one FIFO service per destination ----

  function OffersFor(offers: seq<Offer>, dst: Peer): seq<Offer> {
    if offers == [] then []
    else (if offers[0].entry.frame.dst == dst then [offers[0]] else []) + OffersFor(offers[1..], dst)
  }

  function Entries(offers: seq<Offer>): seq<Entry> {
    seq(|offers|, i requires 0 <= i < |offers| => offers[i].entry)
  }

  /** The entries that left: those offered and not held. */
  function Gone(offers: seq<Offer>): seq<Entry> {
    if offers == [] then [] else (if offers[0].answer == Hold then [] else [offers[0].entry]) + Gone(offers[1..])
  }

  /** A FIFO of one destination, served until it is empty, held, or no answer is left. */
  function Serve(q: seq<Entry>, answers: seq<Decision>): seq<Entry> {
    if q == [] || answers == [] || answers[0] == Hold then q else Serve(q[1..], answers[1..])
  }

  function AnswersIn(offers: seq<Offer>): seq<Decision> {
    seq(|offers|, i requires 0 <= i < |offers| => offers[i].answer)
  }

  /** What one pass does for a destination: a plain FIFO's head is offered until held. */
  ghost predicate ServedAsFifo(q: seq<Entry>, kept: seq<Entry>, offers: seq<Offer>) {
    && q == Gone(offers) + kept
    && kept == Serve(q, AnswersIn(offers))
    && Entries(offers) == Gone(offers) + (if kept == [] then [] else [kept[0]])
    && (kept != [] ==> offers != [] && offers[|offers| - 1].answer == Hold)
  }

  lemma OffersForFirst(o: Offer, rest: seq<Offer>, dst: Peer)
    ensures OffersFor([o] + rest, dst) == (if o.entry.frame.dst == dst then [o] else []) + OffersFor(rest, dst)
  {
    assert ([o] + rest)[1..] == rest;
  }

  /** A destination held earlier in the pass keeps its queue and gets no offer. */
  lemma {:induction false} PassBlocked(es: seq<Entry>, blocked: set<Peer>, calls: nat, answers: Answers, dst: Peer)
    requires dst in blocked
    ensures var (kept, offers) := Pass(es, blocked, calls, answers);
            For(kept, dst) == For(es, dst) && OffersFor(offers, dst) == []
    decreases |es|
  {
    hide For, OffersFor, Pass;
    if es == [] {
      PassEnd(blocked, calls, answers);
      NoOffers(dst);
    } else {
      var e, rest := es[0], es[1..];
      assert es == [e] + rest;
      PassFirst(e, rest, blocked, calls, answers);
      var next := if e.frame.dst in blocked then Pass(rest, blocked, calls, answers)
                  else if answers(calls) == Hold then Pass(rest, blocked + {e.frame.dst}, calls + 1, answers)
                  else Pass(rest, blocked, calls + 1, answers);
      if e.frame.dst in blocked {
        PassBlocked(rest, blocked, calls, answers, dst);
      } else if answers(calls) == Hold {
        PassBlocked(rest, blocked + {e.frame.dst}, calls + 1, answers, dst);
      } else {
        PassBlocked(rest, blocked, calls + 1, answers, dst);
      }
      ForConcat([e], rest, dst);
      ForConcat([e], next.0, dst);
      ForOne(e, dst);
      OffersForFirst(Offer(e, answers(calls)), next.1, dst);
      assert [] + next.0 == next.0 && [] + next.1 == next.1;
    }
  }

  lemma NoOffers(dst: Peer)
    ensures OffersFor([], dst) == [] && For([], dst) == [] && Gone([]) == [] && Entries([]) == []
  {
  }

  /** In one pass every destination not held before is served exactly as a FIFO of its own. */
  lemma {:induction false} PassServes(es: seq<Entry>, blocked: set<Peer>, calls: nat, answers: Answers, dst: Peer)
    requires dst !in blocked
    ensures var (kept, offers) := Pass(es, blocked, calls, answers);
            ServedAsFifo(For(es, dst), For(kept, dst), OffersFor(offers, dst))
    decreases |es|
  {
    hide For, OffersFor, Pass, ServedAsFifo;
    if es == [] {
      PassEnd(blocked, calls, answers);
      NoOffers(dst);
      ServedNothing([]);
    } else {
      var e, rest := es[0], es[1..];
      assert es == [e] + rest && [] + For(rest, dst) == For(rest, dst);
      PassFirst(e, rest, blocked, calls, answers);
      ForConcat([e], rest, dst);
      ForOne(e, dst);
      if e.frame.dst in blocked {
        var (kept, offers) := Pass(rest, blocked, calls, answers);
        PassServes(rest, blocked, calls, answers, dst);
        ForConcat([e], kept, dst);
        assert [] + offers == offers && [] + For(kept, dst) == For(kept, dst) && [] + For(rest, dst) == For(rest, dst);
      } else if answers(calls) == Hold {
        var (kept, offers) := Pass(rest, blocked + {e.frame.dst}, calls + 1, answers);
        ForConcat([e], kept, dst);
        OffersForFirst(Offer(e, Hold), offers, dst);
        if e.frame.dst == dst {
          PassBlocked(rest, blocked + {dst}, calls + 1, answers, dst);
          ServedHeld(e, For(rest, dst));
          assert [Offer(e, Hold)] + [] == [Offer(e, Hold)];
        } else {
          PassServes(rest, blocked + {e.frame.dst}, calls + 1, answers, dst);
          assert [] + For(kept, dst) == For(kept, dst) && [] + OffersFor(offers, dst) == OffersFor(offers, dst);
        }
      } else {
        var (kept, offers) := Pass(rest, blocked, calls + 1, answers);
        PassServes(rest, blocked, calls + 1, answers, dst);
        OffersForFirst(Offer(e, answers(calls)), offers, dst);
        assert [] + kept == kept;
        if e.frame.dst == dst {
          ServedFirst(Offer(e, answers(calls)), For(rest, dst), For(kept, dst), OffersFor(offers, dst));
        } else {
          assert [] + OffersFor(offers, dst) == OffersFor(offers, dst);
        }
      }
    }
  }

  lemma ServedNothing(q: seq<Entry>)
    requires q == []
    ensures ServedAsFifo(q, q, [])
  {
  }

  lemma ServedHeld(e: Entry, rest: seq<Entry>)
    ensures ServedAsFifo([e] + rest, [e] + rest, [Offer(e, Hold)])
  {
    var offers := [Offer(e, Hold)];
    assert offers[1..] == [];
    assert Gone(offers) == [];
    assert AnswersIn(offers)[0] == Hold;
    assert Entries(offers) == [e];
    assert [] + ([e] + rest) == [e] + rest;
  }

  lemma ServedFirst(o: Offer, q: seq<Entry>, kept: seq<Entry>, offers: seq<Offer>)
    requires o.answer != Hold && ServedAsFifo(q, kept, offers)
    ensures ServedAsFifo([o.entry] + q, kept, [o] + offers)
  {
    hide Gone, Serve, AnswersIn, Entries;
    var all := [o] + offers;
    GoneFirst(o, offers);
    ServeFirst(o, offers, q);
    EntriesFirst(o, offers);
    assert [o.entry] + (Gone(offers) + kept) == [o.entry] + Gone(offers) + kept;
    var head := if kept == [] then [] else [kept[0]];
    assert [o.entry] + (Gone(offers) + head) == [o.entry] + Gone(offers) + head;
    assert offers != [] ==> all[|all| - 1] == offers[|offers| - 1];
  }

  lemma GoneFirst(o: Offer, offers: seq<Offer>)
    ensures Gone([o] + offers) == (if o.answer == Hold then [] else [o.entry]) + Gone(offers)
  {
    assert ([o] + offers)[1..] == offers;
  }

  lemma ServeFirst(o: Offer, offers: seq<Offer>, q: seq<Entry>)
    requires o.answer != Hold
    ensures Serve([o.entry] + q, AnswersIn([o] + offers)) == Serve(q, AnswersIn(offers))
  {
    assert AnswersIn([o] + offers)[0] == o.answer && AnswersIn([o] + offers)[1..] == AnswersIn(offers);
    assert ([o.entry] + q)[1..] == q;
  }

  lemma EntriesFirst(o: Offer, offers: seq<Offer>)
    ensures Entries([o] + offers) == [o.entry] + Entries(offers)
  {
  }

  // ---- Whole runs ----

  datatype Cause = Sent | Dropped | TimedOut

  datatype Departure = Departure(entry: Entry, cause: Cause)

  /** An offer with the time it was made. */
  datatype Timed = Timed(offer: Offer, at: nat)

  /** The queue with the history of everything taken, everything that left, and every offer. */
  datatype State = State(
    frames: seq<Entry>, clock: nat, taken: seq<Entry>, left: seq<Departure>, offers: seq<Timed>)

  const EMPTY: State := State([], 0, [], [], [])

  datatype Op = Push(frame: Frame, now: nat) | Drain(now: nat, answers: Answers)

  function LeftTimedOut(es: seq<Entry>): seq<Departure> {
    seq(|es|, i requires 0 <= i < |es| => Departure(es[i], TimedOut))
  }

  function LeftServed(offers: seq<Offer>): seq<Departure> {
    if offers == [] then []
    else
      var o := offers[0];
      (if o.answer == Hold then [] else [Departure(o.entry, if o.answer == Send then Sent else Dropped)])
      + LeftServed(offers[1..])
  }

  function At(offers: seq<Offer>, now: nat): seq<Timed> {
    seq(|offers|, i requires 0 <= i < |offers| => Timed(offers[i], now))
  }

  function Step(s: State, op: Op): State {
    var live, out := Live(s.frames, op.now), s.left + LeftTimedOut(Expired(s.frames, op.now));
    match op
    case Push(frame, now) =>
      if HasRoom(live, frame) then State(live + [Entry(now, frame)], now, s.taken + [Entry(now, frame)], out, s.offers)
      else State(live, now, s.taken, out, s.offers)
    case Drain(now, answers) =>
      var (kept, offers) := Pass(live, {}, 0, answers);
      State(kept, now, s.taken, out + LeftServed(offers), s.offers + At(offers, now))
  }

  function Run(s: State, ops: seq<Op>): State
    decreases |ops|
  {
    if ops == [] then s else Run(Step(s, ops[0]), ops[1..])
  }

  /** The clock readings of a run never go back. */
  ghost predicate Monotone(from: nat, ops: seq<Op>)
    decreases |ops|
  {
    ops == [] || (from <= ops[0].now && Monotone(ops[0].now, ops[1..]))
  }

  function LeftEntries(left: seq<Departure>): seq<Entry> {
    seq(|left|, i requires 0 <= i < |left| => left[i].entry)
  }

  /** Entries queued in the order of their times, none in the future. */
  ghost predicate InOrder(es: seq<Entry>, clock: nat) {
    && (forall i, j :: 0 <= i < j < |es| ==> es[i].queued <= es[j].queued)
    && forall i :: 0 <= i < |es| ==> es[i].queued <= clock
  }

  ghost predicate Bounded(es: seq<Entry>) {
    && |es| <= 32 && Total(es) <= 65536
    && forall dst: Peer :: |For(es, dst)| <= 8
  }

  function Strip(offers: seq<Timed>): seq<Offer> {
    seq(|offers|, i requires 0 <= i < |offers| => offers[i].offer)
  }

  /** The departures that are not timeouts. */
  function Served(left: seq<Departure>): seq<Departure> {
    if left == [] then [] else (if left[0].cause == TimedOut then [] else [left[0]]) + Served(left[1..])
  }

  /**
   * What holds after every run: the bounds; for each destination, what was taken is what left and
   * then what is queued, in order; every departure but a timeout is one answer other than Hold;
   * and nothing is offered after its time.
   */
  ghost predicate Inv(s: State) {
    && Bounded(s.frames) && InOrder(s.frames, s.clock)
    && (forall dst: Peer :: For(s.taken, dst) == For(LeftEntries(s.left), dst) + For(s.frames, dst))
    && Served(s.left) == LeftServed(Strip(s.offers))
    && (forall i :: 0 <= i < |s.offers| ==> IsYoung(s.offers[i].offer.entry, s.offers[i].at))
  }

  /** Less than two hop cycles, that is 2.097152 seconds, in the queue. */
  predicate IsYoung(e: Entry, now: nat) {
    now < e.queued + 2_097_152
  }

  lemma LiveIsYoung(e: Entry, now: nat)
    ensures IsLive(e, now) <==> IsYoung(e, now)
  {
  }

  // Lemmas on parts of a queue.

  lemma {:induction false} LivePrefix(es: seq<Entry>, clock: nat, now: nat)
    requires InOrder(es, clock) && clock <= now
    ensures es == Expired(es, now) + Live(es, now)
    decreases |es|
  {
    hide IsLive, Live, Expired, InOrder;
    if es == [] {
      LiveNone(now);
    } else {
      var e, rest := es[0], es[1..];
      assert es == [e] + rest;
      OrderTail(es, clock);
      LivePrefix(rest, clock, now);
      LiveFirst(e, rest, now);
      if IsLive(e, now) {
        OrderFirst(es, clock);
        AllLive(rest, e, now);
      } else {
        assert [e] + (Expired(rest, now) + Live(rest, now)) == [e] + Expired(rest, now) + Live(rest, now);
      }
      assert [] + Live(rest, now) == Live(rest, now) && [] + Expired(rest, now) == Expired(rest, now);
      assert [] + es == es;
    }
  }

  lemma OrderFirst(es: seq<Entry>, clock: nat)
    requires es != [] && InOrder(es, clock)
    ensures forall i :: 0 <= i < |es[1..]| ==> es[1..][i].queued >= es[0].queued
  {
  }

  lemma {:induction false} AllLive(es: seq<Entry>, first: Entry, now: nat)
    requires IsLive(first, now) && forall i :: 0 <= i < |es| ==> es[i].queued >= first.queued
    ensures Expired(es, now) == [] && Live(es, now) == es
    decreases |es|
  {
    if es != [] {
      assert es[0].queued >= first.queued;
      assert forall i :: 0 <= i < |es[1..]| ==> es[1..][i] == es[i + 1];
      AllLive(es[1..], first, now);
    }
  }

  lemma {:induction false} AllAreLive(es: seq<Entry>, now: nat)
    ensures forall i :: 0 <= i < |Live(es, now)| ==> IsLive(Live(es, now)[i], now)
    decreases |es|
  {
    if es != [] {
      AllAreLive(es[1..], now);
    }
  }

  /** The entries of `a` all stand in `b`, in the same order. */
  ghost predicate Within(a: seq<Entry>, b: seq<Entry>) {
    a == [] || (b != [] && if a[0] == b[0] && Within(a[1..], b[1..]) then true else Within(a, b[1..]))
  }

  /** A pass keeps some of the entries in their order. */
  lemma {:induction false} PassKeeps(es: seq<Entry>, blocked: set<Peer>, calls: nat, answers: Answers)
    ensures Within(Pass(es, blocked, calls, answers).0, es)
    ensures forall o :: o in Pass(es, blocked, calls, answers).1 ==> o.entry in es
    decreases |es|
  {
    hide Pass;
    if es == [] {
      PassEnd(blocked, calls, answers);
    } else {
      var e, rest := es[0], es[1..];
      assert es == [e] + rest;
      PassFirst(e, rest, blocked, calls, answers);
      var next := if e.frame.dst in blocked then Pass(rest, blocked, calls, answers)
                  else if answers(calls) == Hold then Pass(rest, blocked + {e.frame.dst}, calls + 1, answers)
                  else Pass(rest, blocked, calls + 1, answers);
      if e.frame.dst in blocked {
        PassKeeps(rest, blocked, calls, answers);
      } else if answers(calls) == Hold {
        PassKeeps(rest, blocked + {e.frame.dst}, calls + 1, answers);
      } else {
        PassKeeps(rest, blocked, calls + 1, answers);
      }
      assert [] + next.0 == next.0 && [] + next.1 == next.1;
      assert ([e] + next.0)[1..] == next.0;
    }
  }

  lemma {:induction false} WithinKeeps(a: seq<Entry>, b: seq<Entry>, clock: nat)
    requires Within(a, b)
    ensures |a| <= |b| && Total(a) <= Total(b)
    ensures forall dst: Peer :: |For(a, dst)| <= |For(b, dst)|
    ensures forall e :: e in a ==> e in b
    ensures InOrder(b, clock) ==> InOrder(a, clock)
    decreases |b|
  {
    if a != [] {
      if a[0] == b[0] && Within(a[1..], b[1..]) {
        WithinKeeps(a[1..], b[1..], clock);
        assert a == [a[0]] + a[1..] && b == [b[0]] + b[1..];
        if InOrder(b, clock) {
          OrderTail(b, clock);
          OrderCons(a, b, clock);
        }
      } else {
        WithinKeeps(a, b[1..], clock);
        if InOrder(b, clock) {
          OrderTail(b, clock);
        }
      }
    }
  }

  lemma OrderTail(b: seq<Entry>, clock: nat)
    requires InOrder(b, clock) && b != []
    ensures InOrder(b[1..], clock)
  {
    assert forall i :: 0 <= i < |b[1..]| ==> b[1..][i] == b[i + 1];
  }

  lemma OrderCons(a: seq<Entry>, b: seq<Entry>, clock: nat)
    requires a != [] && b != [] && a[0] == b[0] && InOrder(b, clock) && InOrder(a[1..], clock)
    requires forall e :: e in a[1..] ==> e in b[1..]
    ensures InOrder(a, clock)
  {
    forall i, j | 0 <= i < j < |a|
      ensures a[i].queued <= a[j].queued
    {
      assert a[j] == a[1..][j - 1];
      if i == 0 {
        assert a[1..][j - 1] in b[1..];
        var k :| 0 <= k < |b[1..]| && b[1..][k] == a[j];
        assert b[k + 1] == a[j];
      } else {
        assert a[i] == a[1..][i - 1];
      }
    }
    forall i | 0 <= i < |a|
      ensures a[i].queued <= clock
    {
      assert i > 0 ==> a[i] == a[1..][i - 1];
    }
  }

  // Lemmas on the history.

  lemma LeftEntriesConcat(a: seq<Departure>, b: seq<Departure>)
    ensures LeftEntries(a + b) == LeftEntries(a) + LeftEntries(b)
  {
  }

  lemma LeftTimedOutEntries(es: seq<Entry>)
    ensures LeftEntries(LeftTimedOut(es)) == es
  {
  }

  lemma {:induction false} ServedConcat(a: seq<Departure>, b: seq<Departure>)
    ensures Served(a + b) == Served(a) + Served(b)
  {
    if a == [] {
      assert a + b == b;
    } else {
      assert (a + b)[1..] == a[1..] + b;
      ServedConcat(a[1..], b);
    }
  }

  lemma {:induction false} TimedOutNotServed(es: seq<Entry>)
    ensures Served(LeftTimedOut(es)) == []
  {
    if es != [] {
      assert LeftTimedOut(es)[1..] == LeftTimedOut(es[1..]);
      TimedOutNotServed(es[1..]);
    }
  }

  lemma {:induction false} LeftServedConcat(a: seq<Offer>, b: seq<Offer>)
    ensures LeftServed(a + b) == LeftServed(a) + LeftServed(b)
  {
    if a == [] {
      assert a + b == b;
    } else {
      assert (a + b)[1..] == a[1..] + b;
      LeftServedConcat(a[1..], b);
    }
  }

  lemma {:induction false} ServedAll(offers: seq<Offer>)
    ensures Served(LeftServed(offers)) == LeftServed(offers) && LeftEntries(LeftServed(offers)) == Gone(offers)
  {
    if offers != [] {
      ServedAll(offers[1..]);
      var o := offers[0];
      var first := if o.answer == Hold then [] else [Departure(o.entry, if o.answer == Send then Sent else Dropped)];
      ServedConcat(first, LeftServed(offers[1..]));
      LeftEntriesConcat(first, LeftServed(offers[1..]));
      ServedFew(first);
    }
  }

  lemma ServedFew(ds: seq<Departure>)
    requires |ds| <= 1 && forall i :: 0 <= i < |ds| ==> ds[i].cause != TimedOut
    ensures Served(ds) == ds
  {
    if |ds| == 1 {
      var none: seq<Departure> := [];
      assert ds[1..] == none && ds == [ds[0]];
    }
  }

  lemma {:induction false} GoneFor(offers: seq<Offer>, dst: Peer)
    ensures For(Gone(offers), dst) == Gone(OffersFor(offers, dst))
  {
    hide For;
    if offers == [] {
      ForNone(dst);
    } else {
      var o, rest := offers[0], offers[1..];
      GoneFor(rest, dst);
      assert offers == [o] + rest;
      var first := if o.answer == Hold then [] else [o.entry];
      ForConcat(first, Gone(rest), dst);
      ForNone(dst);
      ForOne(o.entry, dst);
      GoneFirst(o, OffersFor(rest, dst));
      assert [] + Gone(rest) == Gone(rest) && [] + OffersFor(rest, dst) == OffersFor(rest, dst);
      assert [] + Gone(OffersFor(rest, dst)) == Gone(OffersFor(rest, dst));
    }
  }

  lemma LiveBounded(a: seq<Entry>, b: seq<Entry>, clock: nat, now: nat)
    requires Bounded(a + b) && InOrder(a + b, clock) && clock <= now
    ensures Bounded(b) && InOrder(b, now)
  {
    TotalConcat(a, b);
    forall dst: Peer
      ensures |For(b, dst)| <= MAX_PER_PEER
    {
      ForConcat(a, b, dst);
      assert |For(a + b, dst)| <= MAX_PER_PEER;
    }
    assert forall i :: 0 <= i < |b| ==> b[i] == (a + b)[|a| + i];
  }

  lemma RoomKeepsBounds(es: seq<Entry>, frame: Frame, now: nat)
    requires Bounded(es) && InOrder(es, now) && HasRoom(es, frame)
    ensures Bounded(es + [Entry(now, frame)]) && InOrder(es + [Entry(now, frame)], now)
  {
    hide Total, For;
    var e := Entry(now, frame);
    TotalConcat(es, [e]);
    forall dst: Peer
      ensures |For(es + [e], dst)| <= MAX_PER_PEER
    {
      ForConcat(es, [e], dst);
      ForOne(e, dst);
    }
    ForOne(e, frame.dst);
  }

  lemma PassKeepsBounds(es: seq<Entry>, now: nat, answers: Answers)
    requires Bounded(es) && InOrder(es, now)
    ensures var kept := Pass(es, {}, 0, answers).0; Bounded(kept) && InOrder(kept, now)
  {
    hide Total, For, Pass, Within, InOrder;
    PassKeeps(es, {}, 0, answers);
    var kept := Pass(es, {}, 0, answers).0;
    WithinKeeps(kept, es, now);
    forall dst: Peer
      ensures |For(kept, dst)| <= MAX_PER_PEER
    {
      assert |For(kept, dst)| <= |For(es, dst)|;
    }
  }

  /** The step every operation begins with: what timed out leaves from the front of the queue. */
  lemma ExpiryKeeps(s: State, now: nat)
    requires Inv(s) && s.clock <= now
    ensures var live, out := Live(s.frames, now), s.left + LeftTimedOut(Expired(s.frames, now));
            Inv(State(live, now, s.taken, out, s.offers))
  {
    hide Live, Expired, For, Total, InOrder, Served, LeftServed, IsLive;
    var gone, live := Expired(s.frames, now), Live(s.frames, now);
    LivePrefix(s.frames, s.clock, now);
    LiveBounded(gone, live, s.clock, now);
    LeftTimedOutEntries(gone);
    LeftEntriesConcat(s.left, LeftTimedOut(gone));
    forall dst: Peer
      ensures For(s.taken, dst) == For(LeftEntries(s.left + LeftTimedOut(gone)), dst) + For(live, dst)
    {
      ForConcat(gone, live, dst);
      ForConcat(LeftEntries(s.left), gone, dst);
      var a, b, c := For(LeftEntries(s.left), dst), For(gone, dst), For(live, dst);
      assert a + (b + c) == a + b + c;
    }
    ServedConcat(s.left, LeftTimedOut(gone));
    TimedOutNotServed(gone);
    assert Served(s.left) + [] == Served(s.left);
  }

  lemma PushKeeps(s: State, frame: Frame)
    requires Inv(s) && HasRoom(s.frames, frame)
    ensures var e := Entry(s.clock, frame);
            Inv(s.(frames := s.frames + [e], taken := s.taken + [e]))
  {
    hide For, Total, InOrder, Served, LeftServed, HasRoom;
    var e := Entry(s.clock, frame);
    RoomKeepsBounds(s.frames, frame, s.clock);
    forall dst: Peer
      ensures For(s.taken + [e], dst) == For(LeftEntries(s.left), dst) + For(s.frames + [e], dst)
    {
      ForConcat(s.taken, [e], dst);
      ForConcat(s.frames, [e], dst);
      var a, b, c := For(LeftEntries(s.left), dst), For(s.frames, dst), For([e], dst);
      assert a + b + c == a + (b + c);
    }
  }

  lemma PassStepKeeps(s: State, answers: Answers)
    requires Inv(s) && forall i :: 0 <= i < |s.frames| ==> IsLive(s.frames[i], s.clock)
    ensures var (kept, offers) := Pass(s.frames, {}, 0, answers);
            Inv(State(kept, s.clock, s.taken, s.left + LeftServed(offers), s.offers + At(offers, s.clock)))
  {
    hide For, Total, InOrder, Served, LeftServed, Pass, OffersFor, Gone, IsLive, IsYoung, Serve, AnswersIn, Bounded;
    var (kept, offers) := Pass(s.frames, {}, 0, answers);
    PassKeepsBounds(s.frames, s.clock, answers);
    PassKeeps(s.frames, {}, 0, answers);
    ServedAll(offers);
    LeftEntriesConcat(s.left, LeftServed(offers));
    forall dst: Peer
      ensures For(s.taken, dst) == For(LeftEntries(s.left + LeftServed(offers)), dst) + For(kept, dst)
    {
      PassServes(s.frames, {}, 0, answers, dst);
      GoneFor(offers, dst);
      ForConcat(LeftEntries(s.left), Gone(offers), dst);
      var a, b, c := For(LeftEntries(s.left), dst), For(Gone(offers), dst), For(kept, dst);
      assert a + (b + c) == a + b + c;
    }
    ServedConcat(s.left, LeftServed(offers));
    LeftServedConcat(Strip(s.offers), offers);
    assert Strip(s.offers + At(offers, s.clock)) == Strip(s.offers) + offers;
    var all := s.offers + At(offers, s.clock);
    forall i | 0 <= i < |all|
      ensures IsYoung(all[i].offer.entry, all[i].at)
    {
      if i >= |s.offers| {
        assert all[i].offer == offers[i - |s.offers|];
        assert offers[i - |s.offers|] in offers;
        LiveIsYoung(all[i].offer.entry, all[i].at);
      }
    }
  }

  lemma StepKeepsInv(s: State, op: Op)
    requires Inv(s) && s.clock <= op.now
    ensures Inv(Step(s, op)) && Step(s, op).clock == op.now
  {
    hide Live, Expired, Inv, Pass, LeftServed, HasRoom;
    ExpiryKeeps(s, op.now);
    var live, out := Live(s.frames, op.now), s.left + LeftTimedOut(Expired(s.frames, op.now));
    var t := State(live, op.now, s.taken, out, s.offers);
    match op
    case Push(frame, now) =>
      if HasRoom(live, frame) {
        PushKeeps(t, frame);
      }
    case Drain(now, answers) =>
      AllAreLive(s.frames, now);
      PassStepKeeps(t, answers);
  }

  /** Every run with a clock that does not go back, and any answers of the sender. */
  lemma {:induction false} RunsKeepInv(s: State, ops: seq<Op>)
    requires Inv(s) && Monotone(s.clock, ops)
    ensures Inv(Run(s, ops))
    decreases |ops|
  {
    hide Inv, Step;
    if ops != [] {
      StepKeepsInv(s, ops[0]);
      RunsKeepInv(Step(s, ops[0]), ops[1..]);
    }
  }

  lemma EmptyInv()
    ensures Inv(EMPTY)
  {
    forall dst: Peer
      ensures For(EMPTY.taken, dst) == For(LeftEntries(EMPTY.left), dst) + For(EMPTY.frames, dst)
      ensures |For(EMPTY.frames, dst)| <= MAX_PER_PEER
    {
      ForNone(dst);
    }
  }

  lemma RunsFromEmpty(ops: seq<Op>)
    requires Monotone(0, ops)
    ensures Inv(Run(EMPTY, ops))
  {
    EmptyInv();
    RunsKeepInv(EMPTY, ops);
  }

  /** In every pass of every run each destination is served as a FIFO of its own. */
  lemma EveryPassServes(ops: seq<Op>, now: nat, answers: Answers, dst: Peer)
    ensures var queue := Live(Run(EMPTY, ops).frames, now);
            var (kept, offers) := Pass(queue, {}, 0, answers);
            && Run(EMPTY, ops + [Drain(now, answers)]).frames == kept
            && ServedAsFifo(For(queue, dst), For(kept, dst), OffersFor(offers, dst))
  {
    hide ServedAsFifo, Pass, Live, For, OffersFor;
    RunSnoc(EMPTY, ops, Drain(now, answers));
    PassServes(Live(Run(EMPTY, ops).frames, now), {}, 0, answers, dst);
  }

  lemma {:induction false} RunSnoc(s: State, ops: seq<Op>, op: Op)
    ensures Run(s, ops + [op]) == Step(Run(s, ops), op)
    decreases |ops|
  {
    hide Step;
    if ops == [] {
      assert ops + [op] == [op] && [op][1..] == ops;
    } else {
      assert (ops + [op])[1..] == ops[1..] + [op];
      RunSnoc(Step(s, ops[0]), ops[1..], op);
    }
  }

  /** What times out is exactly what is no longer young: it is in front of the rest. */
  lemma {:induction false} ExpiryIs(es: seq<Entry>, clock: nat, now: nat) returns (n: nat)
    requires InOrder(es, clock) && clock <= now
    ensures n <= |es| && Live(es, now) == es[n..] && Expired(es, now) == es[..n]
    ensures forall i :: 0 <= i < |es| ==> (IsYoung(es[i], now) <==> n <= i)
    decreases |es|
  {
    LivePrefix(es, clock, now);
    n := |Expired(es, now)|;
    AllAreLive(es, now);
    NoneIsLive(es, now);
    hide Live, Expired, IsLive, IsYoung, InOrder;
    assert forall i :: n <= i < |es| ==> es[i] == Live(es, now)[i - n];
    forall i | 0 <= i < |es|
      ensures IsYoung(es[i], now) <==> n <= i
    {
      LiveIsYoung(es[i], now);
    }
  }

  lemma {:induction false} NoneIsLive(es: seq<Entry>, now: nat)
    ensures forall i :: 0 <= i < |Expired(es, now)| ==> !IsLive(Expired(es, now)[i], now)
    decreases |es|
  {
    if es != [] {
      NoneIsLive(es[1..], now);
    }
  }

  /**
   * In every run a frame is taken exactly when it is not empty, and with the frames still young there is room for
   * it: 32 in all, 64 KiB in all, eight for its destination. Everything young stays, everything else goes.
   */
  lemma TakenIff(ops: seq<Op>, frame: Frame, now: nat) returns (n: nat)
    requires Monotone(0, ops) && Run(EMPTY, ops).clock <= now
    ensures var q := Run(EMPTY, ops).frames;
            && n <= |q| && (forall i :: 0 <= i < |q| ==> (IsYoung(q[i], now) <==> n <= i))
            && var taken := 1 <= |frame.octets| && |q| - n < 32 && Total(q[n..]) + |frame.octets| <= 65536
                            && |For(q[n..], frame.dst)| < 8;
               Run(EMPTY, ops + [Push(frame, now)]).frames == q[n..] + if taken then [Entry(now, frame)] else []
  {
    RunsFromEmpty(ops);
    RunSnoc(EMPTY, ops, Push(frame, now));
    var s := Run(EMPTY, ops);
    n := ExpiryIs(s.frames, s.clock, now);
    hide Live, Expired, Total, For, Run, IsYoung, InOrder;
    assert s.frames[n..] + [] == s.frames[n..];
  }

  lemma OffersPass(e: Entry, first: seq<Offer>, offers: seq<Offer>, rest: seq<Entry>)
    requires Within(Entries(offers), rest)
    requires first == [] || (|first| == 1 && first[0].entry == e)
    ensures Within(Entries(first + offers), [e] + rest)
  {
    var all := Entries(first + offers);
    assert ([e] + rest)[1..] == rest;
    if first == [] {
      assert all == Entries(offers);
    } else {
      assert all == [e] + Entries(offers) && all[1..] == Entries(offers);
    }
  }

  lemma {:induction false} PassOffers(es: seq<Entry>, blocked: set<Peer>, calls: nat, answers: Answers)
    ensures Within(Entries(Pass(es, blocked, calls, answers).1), es)
    decreases |es|
  {
    hide Pass, Within, Entries;
    if es == [] {
      PassEnd(blocked, calls, answers);
      PassKeeps(es, blocked, calls, answers);
      NoOffers([0, 0, 0, 0, 0, 0]);
    } else {
      var e, rest := es[0], es[1..];
      assert es == [e] + rest;
      PassFirst(e, rest, blocked, calls, answers);
      if e.frame.dst in blocked {
        PassOffers(rest, blocked, calls, answers);
        OffersPass(e, [], Pass(rest, blocked, calls, answers).1, rest);
      } else if answers(calls) == Hold {
        PassOffers(rest, blocked + {e.frame.dst}, calls + 1, answers);
        OffersPass(e, [Offer(e, Hold)], Pass(rest, blocked + {e.frame.dst}, calls + 1, answers).1, rest);
      } else {
        PassOffers(rest, blocked, calls + 1, answers);
        OffersPass(e, [Offer(e, answers(calls))], Pass(rest, blocked, calls + 1, answers).1, rest);
      }
    }
  }

  lemma {:induction false} PassAnswers(es: seq<Entry>, blocked: set<Peer>, calls: nat, answers: Answers)
    ensures var offers := Pass(es, blocked, calls, answers).1;
            forall i :: 0 <= i < |offers| ==> offers[i].answer == answers(calls + i)
    decreases |es|
  {
    hide Pass;
    if es == [] {
      PassEnd(blocked, calls, answers);
    } else {
      var e, rest := es[0], es[1..];
      assert es == [e] + rest;
      PassFirst(e, rest, blocked, calls, answers);
      if e.frame.dst in blocked {
        PassAnswers(rest, blocked, calls, answers);
      } else if answers(calls) == Hold {
        PassAnswers(rest, blocked + {e.frame.dst}, calls + 1, answers);
      } else {
        PassAnswers(rest, blocked, calls + 1, answers);
      }
    }
  }

  /**
   * Over all destinations together, a pass offers entries in the order of the queue, its calls are answered one
   * after the other, and what it keeps stays in the order of the queue.
   */
  lemma PassInOrder(es: seq<Entry>, answers: Answers)
    ensures var (kept, offers) := Pass(es, {}, 0, answers);
            && Within(kept, es) && Within(Entries(offers), es)
            && forall i :: 0 <= i < |offers| ==> offers[i].answer == answers(i)
  {
    PassKeeps(es, {}, 0, answers);
    PassOffers(es, {}, 0, answers);
    PassAnswers(es, {}, 0, answers);
  }
}
