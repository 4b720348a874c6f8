/** Correlating asynchronous transmit statuses with requests by cookie. */
module TxTracker {
  import opened Wrappers
  import opened TxEvents

  const CAP: nat := 128
  const TIMEOUT_MS: nat := 5000

  datatype Pending = Pending(cookie: nat, at: nat)

  /** A status that came before its cookie was known. */
  datatype Early = Early(cookie: nat, acked: bool)

  datatype Stats = Stats(acked: nat, noAck: nat, statusMissing: nat, cookieMissing: nat, pending: nat)

  /** The request being made: its sequence number, and its cookie once known. */
  datatype Request = Request(seqNo: nat, cookie: Option<nat>)

  datatype State = State(
    ifindex: nat, request: Option<Request>, pending: seq<Pending>, early: seq<Early>, stats: Stats)

  // ---- The transitions as functions ----

  function FindPending(ps: seq<Pending>, cookie: nat): (i: Option<nat>)
    ensures i.Some? ==> i.value < |ps| && ps[i.value].cookie == cookie
    ensures i.Some? ==> forall j :: 0 <= j < i.value ==> ps[j].cookie != cookie
    ensures i.None? ==> forall j :: 0 <= j < |ps| ==> ps[j].cookie != cookie
  {
    if ps == [] then None
    else if ps[0].cookie == cookie then Some(0)
    else match FindPending(ps[1..], cookie)
      case None => None
      case Some(k) => Some(k + 1)
  }

  function FindEarly(es: seq<Early>, cookie: nat): (i: Option<nat>)
    ensures i.Some? ==> i.value < |es| && es[i.value].cookie == cookie
    ensures i.Some? ==> forall j :: 0 <= j < i.value ==> es[j].cookie != cookie
    ensures i.None? ==> forall j :: 0 <= j < |es| ==> es[j].cookie != cookie
  {
    if es == [] then None
    else if es[0].cookie == cookie then Some(0)
    else match FindEarly(es[1..], cookie)
      case None => None
      case Some(k) => Some(k + 1)
  }

  function Record(stats: Stats, acked: bool): Stats {
    if acked then stats.(acked := stats.acked + 1) else stats.(noAck := stats.noAck + 1)
  }

  function Missed(stats: Stats, n: nat): Stats {
    stats.(statusMissing := stats.statusMissing + n)
  }

  predicate IsTimedOut(p: Pending, now: nat) {
    now >= p.at && now - p.at >= TIMEOUT_MS
  }

  /** How many entries the expiry takes off the front. */
  function TimedOutInFront(ps: seq<Pending>, now: nat): (n: nat)
    ensures n <= |ps| && forall i :: 0 <= i < n ==> IsTimedOut(ps[i], now)
    ensures n < |ps| ==> !IsTimedOut(ps[n], now)
  {
    if ps != [] && IsTimedOut(ps[0], now) then 1 + TimedOutInFront(ps[1..], now) else 0
  }

  function Expired(t: State, now: nat): State {
    var n := TimedOutInFront(t.pending, now);
    t.(pending := t.pending[n..], stats := Missed(t.stats, n))
  }

  function Begun(t: State, seqNo: nat): State {
    t.(request := Some(Request(seqNo, None)), early := [])
  }

  /** A pending entry at the back, the oldest one given up when there is no room. */
  function Queued(t: State, p: Pending): State {
    if |t.pending| == CAP then t.(pending := t.pending[1..] + [p], stats := Missed(t.stats, 1))
    else t.(pending := t.pending + [p])
  }

  function Without<T>(s: seq<T>, i: nat): seq<T>
    requires i < |s|
  {
    s[..i] + s[i + 1..]
  }

  /** An accepted request with a known cookie: its status is here already, or is waited for. */
  function Settled(t: State, cookie: nat, now: nat): State {
    match FindEarly(t.early, cookie)
    case Some(i) => t.(stats := Record(t.stats, t.early[i].acked))
    case None => Queued(t, Pending(cookie, now))
  }

  function Finished(t: State, accepted: bool, now: nat): State {
    var u := match t.request
             case Some(r) =>
               if !accepted then t
               else (match r.cookie
                     case Some(cookie) => Settled(t, cookie, now)
                     case None => t.(stats := t.stats.(cookieMissing := t.stats.cookieMissing + 1)))
             case None => t;
    u.(request := None, early := [])
  }

  function Kept(early: seq<Early>, e: Early): seq<Early> {
    if |early| == CAP then early[1..] + [e] else early + [e]
  }

  function Matched(t: State, cookie: nat, acked: bool): State {
    match FindPending(t.pending, cookie)
    case Some(i) => t.(pending := Without(t.pending, i), stats := Record(t.stats, acked))
    case None => if t.request.Some? then t.(early := Kept(t.early, Early(cookie, acked))) else t
  }

  function Seen(t: State, e: Event, now: nat): State {
    var u := Expired(t, now);
    match e
    case Cookie(seqNo, cookie) =>
      if u.request.Some? && u.request.value.seqNo == seqNo then u.(request := Some(Request(seqNo, Some(cookie)))) else u
    case Status(ifindex, cookie, acked) => if ifindex == u.ifindex then Matched(u, cookie, acked) else u
    case _ => u
  }

  // ---- The transitions in place ----

  class Tracker {
    const ifindex: nat
    var request: Option<Request>
    var pending: seq<Pending>
    var early: seq<Early>
    var stats: Stats

    ghost function Value(): State
      reads this
    {
      State(ifindex, request, pending, early, stats)
    }

    constructor (ifindex: nat)
      ensures Value() == State(ifindex, None, [], [], Stats(0, 0, 0, 0, 0))
    {
      this.ifindex := ifindex;
      request, pending, early := None, [], [];
      stats := Stats(0, 0, 0, 0, 0);
    }

    method Begin(seqNo: nat)
      modifies this
      ensures Value() == Begun(old(Value()), seqNo)
    {
      request := Some(Request(seqNo, None));
      early := [];
    }

    method Finish(accepted: bool, now: nat)
      modifies this
      ensures Value() == Finished(old(Value()), accepted, now)
    {
      var taken := request;
      request := None;
      if taken.Some? && accepted {
        if taken.value.cookie.Some? {
          var cookie := taken.value.cookie.value;
          var i := FindEarly(early, cookie);
          if i.Some? {
            Count(early[i.value].acked);
          } else {
            if |pending| == CAP {
              pending := pending[1..];
              stats := stats.(statusMissing := stats.statusMissing + 1);
            }
            pending := pending + [Pending(cookie, now)];
          }
        } else {
          stats := stats.(cookieMissing := stats.cookieMissing + 1);
        }
      }
      early := [];
    }

    method OnEvent(e: Event, now: nat)
      modifies this
      ensures Value() == Seen(old(Value()), e, now)
    {
      Expire(now);
      match e {
        case Cookie(seqNo, cookie) =>
          if request.Some? && request.value.seqNo == seqNo {
            request := Some(Request(seqNo, Some(cookie)));
          }
        case Status(index, cookie, acked) =>
          if index == ifindex {
            var i := FindPending(pending, cookie);
            if i.Some? {
              pending := pending[..i.value] + pending[i.value + 1..];
              Count(acked);
            } else if request.Some? {
              if |early| == CAP {
                early := early[1..];
              }
              early := early + [Early(cookie, acked)];
            }
          }
        case _ =>
      }
    }

    method Count(acked: bool)
      modifies this`stats
      ensures stats == Record(old(stats), acked)
    {
      if acked {
        stats := stats.(acked := stats.acked + 1);
      } else {
        stats := stats.(noAck := stats.noAck + 1);
      }
    }

    method Expire(now: nat)
      modifies this`pending, this`stats
      ensures Value() == Expired(old(Value()), now)
    {
      ghost var n := TimedOutInFront(pending, now);
      ghost var before := pending;
      ghost var k := 0;
      while |pending| > 0 && IsTimedOut(pending[0], now)
        invariant k <= n && pending == before[k..]
        invariant stats == Missed(old(stats), k)
        decreases |pending|
      {
        assert pending[0] == before[k];
        pending := pending[1..];
        stats := stats.(statusMissing := stats.statusMissing + 1);
        k := k + 1;
      }
      assert |pending| > 0 ==> pending[0] == before[k];
    }

    method Snapshot(now: nat) returns (s: Stats)
      modifies this`pending, this`stats
      ensures Value() == Expired(old(Value()), now)
      ensures s == stats.(pending := |pending|)
    {
      Expire(now);
      s := stats.(pending := |pending|);
    }
  }

  // ---- Confluence of a status and the end of its request ----

  /** Entries in the order of their times, none in the future: what a clock that does not go back leaves. */
  ghost predicate InOrder(ps: seq<Pending>, clock: nat) {
    && (forall i, j :: 0 <= i < j < |ps| ==> ps[i].at <= ps[j].at)
    && forall i :: 0 <= i < |ps| ==> ps[i].at <= clock
  }

  /** With entries in order, those timed out are exactly those in front. */
  lemma FrontOnly(ps: seq<Pending>, clock: nat, now: nat)
    requires InOrder(ps, clock) && clock <= now
    ensures forall i :: TimedOutInFront(ps, now) <= i < |ps| ==> !IsTimedOut(ps[i], now)
    ensures InOrder(ps[TimedOutInFront(ps, now)..], now)
  {
  }

  function Found(es: seq<Early>, cookie: nat): Option<bool> {
    match FindEarly(es, cookie)
    case None => None
    case Some(i) => Some(es[i].acked)
  }

  /**
   * When the order of a status for `cookie` and the accepted end of a request with cookie `own` matters:
   * the queue is full of live entries and the status frees a place in it, or the early buffer is full
   * and the status pushes the request's own early status out of it for a different answer.
   */
  predicate Clash(t: State, cookie: nat, acked: bool, accepted: bool, now: nat) {
    && accepted && t.request.Some? && t.request.value.cookie.Some?
    && var own := t.request.value.cookie.value;
       || (|t.pending| == CAP && !IsTimedOut(t.pending[0], now) && Found(t.early, own) == None
           && (cookie == own || FindPending(t.pending, cookie).Some?))
       || PushedOut(t.early, own, FindPending(Expired(t, now).pending, cookie), cookie, acked)
  }

  /** Keeping one more early status loses the only one that answered `own` the way it did. */
  predicate PushedOut(early: seq<Early>, own: nat, found: Option<nat>, cookie: nat, acked: bool) {
    && found == None && |early| == CAP && early[0].cookie == own
    && Found(early[1..] + [Early(cookie, acked)], own) != Some(early[0].acked)
  }

  lemma FindEarlySnoc(es: seq<Early>, e: Early, cookie: nat)
    ensures Found(es + [e], cookie) ==
            if Found(es, cookie).Some? then Found(es, cookie) else if e.cookie == cookie then Some(e.acked) else None
  {
    var all := es + [e];
    var i, j := FindEarly(es, cookie), FindEarly(all, cookie);
    assert all[|es|] == e;
    if i.Some? {
      assert all[i.value] == es[i.value];
      assert j.value == i.value;
    } else if e.cookie == cookie {
      assert j.value == |es|;
    }
  }

  lemma FindEarlyFirst(es: seq<Early>, cookie: nat)
    requires es != []
    ensures Found(es, cookie) == if es[0].cookie == cookie then Some(es[0].acked) else Found(es[1..], cookie)
  {
    if es[0].cookie != cookie && FindEarly(es[1..], cookie).Some? {
      assert es[1..][FindEarly(es[1..], cookie).value] == es[1 + FindEarly(es[1..], cookie).value];
    }
  }

  lemma FindPendingSnoc(ps: seq<Pending>, p: Pending, cookie: nat)
    ensures FindPending(ps + [p], cookie) ==
            if FindPending(ps, cookie).Some? then FindPending(ps, cookie)
            else if p.cookie == cookie then Some(|ps|) else None
  {
    var all := ps + [p];
    var i, j := FindPending(ps, cookie), FindPending(all, cookie);
    assert all[|ps|] == p;
    if i.Some? {
      assert all[i.value] == ps[i.value];
      assert j.value == i.value;
    } else if p.cookie == cookie {
      assert j.value == |ps|;
    }
  }

  lemma {:induction false} FrontSnoc(ps: seq<Pending>, p: Pending, now: nat)
    requires !IsTimedOut(p, now)
    ensures TimedOutInFront(ps + [p], now) == TimedOutInFront(ps, now)
  {
    if ps == [] {
      assert ps + [p] == [p];
    } else {
      assert (ps + [p])[1..] == ps[1..] + [p] && (ps + [p])[0] == ps[0];
      FrontSnoc(ps[1..], p, now);
    }
  }

  lemma FrontUnfold(ps: seq<Pending>, now: nat)
    requires ps != []
    ensures TimedOutInFront(ps, now) == if IsTimedOut(ps[0], now) then 1 + TimedOutInFront(ps[1..], now) else 0
  {
  }

  lemma ExpireQueuedFull(t: State, p: Pending, now: nat)
    requires InOrder(t.pending, now) && !IsTimedOut(p, now) && |t.pending| == CAP
    ensures Expired(Queued(t, p), now) == Queued(Expired(t, now), p)
  {
    var ps := t.pending;
    var n := TimedOutInFront(ps, now);
    var rest := ps[1..];
    FrontOnly(ps, now, now);
    FrontSnoc(rest, p, now);
    FrontUnfold(ps, now);
    hide InOrder, TimedOutInFront, IsTimedOut;
    if n == 0 {
      assert !IsTimedOut(ps[1], now) && rest[0] == ps[1];
      FrontUnfold(rest, now);
      assert TimedOutInFront(rest, now) == 0;
      assert (rest + [p])[0..] == rest + [p] && ps[0..] == ps;
    } else {
      assert TimedOutInFront(rest, now) == n - 1;
      assert (rest + [p])[n - 1..] == ps[n..] + [p];
    }
  }

  /** Expiry after queueing a live entry is expiry before it: an entry given up either way is counted once. */
  lemma ExpireQueued(t: State, p: Pending, now: nat)
    requires InOrder(t.pending, now) && !IsTimedOut(p, now) && |t.pending| <= CAP
    ensures Expired(Queued(t, p), now) == Queued(Expired(t, now), p)
  {
    if |t.pending| == CAP {
      ExpireQueuedFull(t, p, now);
    } else {
      var n := TimedOutInFront(t.pending, now);
      FrontSnoc(t.pending, p, now);
      assert (t.pending + [p])[n..] == t.pending[n..] + [p];
    }
  }

  lemma ExpireFinished(t: State, accepted: bool, now: nat)
    requires InOrder(t.pending, now) && |t.pending| <= CAP
    ensures Expired(Finished(t, accepted, now), now) == Finished(Expired(t, now), accepted, now)
  {
    if accepted && t.request.Some? && t.request.value.cookie.Some?
      && FindEarly(t.early, t.request.value.cookie.value).None? {
      var p := Pending(t.request.value.cookie.value, now);
      ExpireQueued(t, p, now);
      hide InOrder, TimedOutInFront, FindEarly;
      assert Finished(t, accepted, now) == Queued(t, p).(request := None, early := []);
    } else {
      hide InOrder, TimedOutInFront, FindEarly;
    }
  }

  /** Removing an entry and adding one at the back do not interfere. */
  lemma WithoutSnoc<T>(s: seq<T>, x: T, i: nat)
    requires i < |s|
    ensures Without(s + [x], i) == Without(s, i) + [x]
    ensures Without(s + [x], |s|) == s
  {
    assert (s + [x])[i + 1..] == s[i + 1..] + [x];
    assert (s + [x])[..i] == s[..i];
    assert (s + [x])[..|s|] == s;
  }

  /** Of a request whose status is already here: only losing that status can matter. */
  lemma SettledEarly(u: State, own: nat, cookie: nat, acked: bool, now: nat)
    requires u.request.Some? && u.request.value.cookie == Some(own) && Found(u.early, own).Some? && |u.early| <= CAP
    ensures Finished(Matched(u, cookie, acked), true, now) == Matched(Finished(u, true, now), cookie, acked)
            <==> !PushedOut(u.early, own, FindPending(u.pending, cookie), cookie, acked)
  {
    var e := Early(cookie, acked);
    if FindPending(u.pending, cookie).None? {
      FindEarlySnoc(u.early, e, own);
      FindEarlyFirst(u.early, own);
      FindEarlySnoc(u.early[1..], e, own);
      assert Matched(Finished(u, true, now), cookie, acked) == Finished(u, true, now);
    }
    hide FindPending, FindEarly;
  }

  /** Of a request still without its status: only a full queue can matter. */
  lemma SettledLate(u: State, own: nat, cookie: nat, acked: bool, now: nat)
    requires u.request.Some? && u.request.value.cookie == Some(own) && Found(u.early, own).None?
    requires |u.early| <= CAP && |u.pending| <= CAP
    ensures Finished(Matched(u, cookie, acked), true, now) == Matched(Finished(u, true, now), cookie, acked)
            <==> !(|u.pending| == CAP && (cookie == own || FindPending(u.pending, cookie).Some?))
  {
    var p, e := Pending(own, now), Early(cookie, acked);
    FindPendingSnoc(u.pending, p, cookie);
    FindEarlySnoc(u.early, e, own);
    if u.early != [] {
      FindEarlyFirst(u.early, own);
      FindEarlySnoc(u.early[1..], e, own);
    }
    if |u.pending| == CAP {
      LateFull(u, own, cookie, acked, now);
    } else {
      hide FindPending, FindEarly;
      match FindPending(u.pending, cookie) {
        case Some(i) => WithoutSnoc(u.pending, p, i);
        case None => assert Without(u.pending + [p], |u.pending|) == u.pending;
      }
    }
  }

  lemma LateFull(u: State, own: nat, cookie: nat, acked: bool, now: nat)
    requires u.request.Some? && u.request.value.cookie == Some(own) && Found(u.early, own).None?
    requires Found(Kept(u.early, Early(cookie, acked)), own) == if cookie == own then Some(acked) else None
    requires |u.early| <= CAP && |u.pending| == CAP
    ensures Finished(Matched(u, cookie, acked), true, now) == Matched(Finished(u, true, now), cookie, acked)
            <==> !(cookie == own || FindPending(u.pending, cookie).Some?)
  {
    var p := Pending(own, now);
    var rest := u.pending[1..];
    var v := Finished(u, true, now);
    FindPendingSnoc(rest, p, cookie);
    assert v.pending == rest + [p] && v.stats == Missed(u.stats, 1);
    if FindPending(u.pending, cookie).None? {
      assert forall j :: 0 <= j < |rest| ==> rest[j] == u.pending[j + 1];
      assert FindPending(rest, cookie).None?;
    }
    hide FindPending, FindEarly;
  }

  /** A queue is full after expiry exactly when it is full of live entries before it. */
  lemma FullAfterExpiry(t: State, now: nat)
    requires |t.pending| <= CAP
    ensures |Expired(t, now).pending| == CAP <==> |t.pending| == CAP && !IsTimedOut(t.pending[0], now)
    ensures |Expired(t, now).pending| == CAP ==> Expired(t, now).pending == t.pending
  {
  }

  /** A request that leaves nothing to wait for: the order does not matter. */
  lemma NothingSettled(u: State, cookie: nat, acked: bool, accepted: bool, now: nat)
    requires !(accepted && u.request.Some? && u.request.value.cookie.Some?)
    ensures Finished(Matched(u, cookie, acked), accepted, now) == Matched(Finished(u, accepted, now), cookie, acked)
  {
    hide FindPending, FindEarly;
  }

  /** The expired state clashes just when the state before does. */
  lemma ClashAfterExpiry(t: State, own: nat, cookie: nat, acked: bool, now: nat)
    requires |t.pending| <= CAP && t.request.Some? && t.request.value.cookie == Some(own)
    ensures var u := Expired(t, now);
            var full := |u.pending| == CAP && (cookie == own || FindPending(u.pending, cookie).Some?);
            var pushed := PushedOut(u.early, own, FindPending(u.pending, cookie), cookie, acked);
            Clash(t, cookie, acked, true, now) <==> if Found(u.early, own).Some? then pushed else full
  {
    FullAfterExpiry(t, now);
    if |t.early| == CAP {
      FindEarlyFirst(t.early, own);
    }
    hide IsTimedOut, TimedOutInFront, FindPending, FindEarly;
  }

  /**
   * A status and the accepted end of a request may be taken in either order, with the same counters,
   * the same pending queue and the same everything else, exactly when they do not clash. A status of
   * another interface never matters.
   */
  lemma ConfluentIff(t: State, ifindex: nat, cookie: nat, acked: bool, accepted: bool, now: nat)
    requires InOrder(t.pending, now) && |t.pending| <= CAP && |t.early| <= CAP
    ensures Finished(Seen(t, Status(ifindex, cookie, acked), now), accepted, now)
            == Seen(Finished(t, accepted, now), Status(ifindex, cookie, acked), now)
            <==> !(ifindex == t.ifindex && Clash(t, cookie, acked, accepted, now))
  {
    var u := Expired(t, now);
    ExpireFinished(t, accepted, now);
    if ifindex != t.ifindex {
    } else if accepted && t.request.Some? && t.request.value.cookie.Some? {
      var own := t.request.value.cookie.value;
      ClashAfterExpiry(t, own, cookie, acked, now);
      if Found(u.early, own).Some? {
        SettledEarly(u, own, cookie, acked, now);
      } else {
        SettledLate(u, own, cookie, acked, now);
      }
    } else {
      NothingSettled(u, cookie, acked, accepted, now);
    }
    hide InOrder, Matched, Found, Settled, TimedOutInFront, PushedOut, FindPending, FindEarly;
  }

  // ---- Conservation over whole runs ----

  datatype Op =
    | Begin(seqNo: nat)
    | Finish(accepted: bool, now: nat)
    | OnEvent(e: Event, now: nat)
    | Snapshot(now: nat)

  /**
   * What an observer of the calls has counted: requests ended as accepted, and statuses of this interface
   * with and without an acknowledgement.
   */
  datatype Tally = Tally(accepted: nat, acks: nat, losses: nat)

  function Step(t: State, op: Op): State {
    match op
    case Begin(seqNo) => Begun(t, seqNo)
    case Finish(accepted, now) => Finished(t, accepted, now)
    case OnEvent(e, now) => Seen(t, e, now)
    case Snapshot(now) => Expired(t, now)
  }

  function Counted(y: Tally, acked: bool): Tally {
    if acked then y.(acks := y.acks + 1) else y.(losses := y.losses + 1)
  }

  /** How many early statuses say `acked`. */
  function Saying(early: seq<Early>, acked: bool): nat {
    if early == [] then 0 else (if early[0].acked == acked then 1 else 0) + Saying(early[1..], acked)
  }

  lemma {:induction false} SayingSnoc(early: seq<Early>, e: Early, acked: bool)
    ensures Saying(early + [e], acked) == Saying(early, acked) + if e.acked == acked then 1 else 0
  {
    if early == [] {
      assert early + [e] == [e];
    } else {
      assert (early + [e])[1..] == early[1..] + [e];
      SayingSnoc(early[1..], e, acked);
    }
  }

  lemma {:induction false} SayingHas(early: seq<Early>, i: nat)
    requires i < |early|
    ensures Saying(early, early[i].acked) > 0
  {
    if i > 0 {
      SayingHas(early[1..], i - 1);
    }
  }

  function Observed(t: State, y: Tally, op: Op): Tally {
    match op
    case Finish(true, _) => if t.request.Some? then y.(accepted := y.accepted + 1) else y
    case OnEvent(Status(ifindex, _, acked), _) => if ifindex == t.ifindex then Counted(y, acked) else y
    case _ => y
  }

  function Clock(op: Op, clock: nat): nat {
    if op.Begin? then clock else op.now
  }

  predicate NeverBack(ops: seq<Op>, clock: nat) {
    ops == [] || (clock <= Clock(ops[0], clock) && NeverBack(ops[1..], Clock(ops[0], clock)))
  }

  function Run(t: State, ops: seq<Op>): State
    decreases |ops|
  {
    if ops == [] then t else Run(Step(t, ops[0]), ops[1..])
  }

  function Watched(t: State, y: Tally, ops: seq<Op>): Tally
    decreases |ops|
  {
    if ops == [] then y else Watched(Step(t, ops[0]), Observed(t, y, ops[0]), ops[1..])
  }

  /** The last clock reading of a run. */
  function LastClock(ops: seq<Op>, clock: nat): nat {
    if ops == [] then clock else LastClock(ops[1..], Clock(ops[0], clock))
  }

  ghost predicate Inv(t: State, y: Tally, clock: nat) {
    && t.stats.acked + t.stats.noAck + t.stats.statusMissing + t.stats.cookieMissing + |t.pending| == y.accepted
    && t.stats.acked + Saying(t.early, true) <= y.acks && t.stats.noAck + Saying(t.early, false) <= y.losses
    && (t.request.None? ==> t.early == [])
    && |t.pending| <= CAP && |t.early| <= CAP
    && InOrder(t.pending, clock)
  }

  lemma ExpiredKeepsInv(t: State, y: Tally, clock: nat, now: nat)
    requires Inv(t, y, clock) && clock <= now
    ensures Inv(Expired(t, now), y, now)
    ensures forall p :: p in Expired(t, now).pending ==> !IsTimedOut(p, now)
  {
    FrontOnly(t.pending, clock, now);
  }

  lemma InOrderSnoc(ps: seq<Pending>, clock: nat, p: Pending)
    requires InOrder(ps, clock) && clock <= p.at
    ensures InOrder(ps + [p], p.at)
    ensures ps != [] ==> InOrder(ps[1..] + [p], p.at)
  {
  }

  lemma InOrderWithout(ps: seq<Pending>, clock: nat, i: nat)
    requires InOrder(ps, clock) && i < |ps|
    ensures InOrder(Without(ps, i), clock)
  {
  }

  lemma FinishKeepsInv(t: State, y: Tally, accepted: bool, now: nat, clock: nat)
    requires Inv(t, y, clock) && clock <= now
    ensures Inv(Finished(t, accepted, now), Observed(t, y, Finish(accepted, now)), now)
  {
    if accepted && t.request.Some? && t.request.value.cookie.Some? {
      var i := FindEarly(t.early, t.request.value.cookie.value);
      if i.Some? {
        SayingHas(t.early, i.value);
      }
      InOrderSnoc(t.pending, clock, Pending(t.request.value.cookie.value, now));
      hide InOrder, FindEarly;
    } else {
      assert InOrder(t.pending, now);
      hide InOrder, FindEarly;
    }
  }

  lemma MatchKeepsInv(t: State, y: Tally, cookie: nat, acked: bool, clock: nat)
    requires Inv(t, y, clock)
    ensures Inv(Matched(t, cookie, acked), Counted(y, acked), clock)
  {
    var i := FindPending(t.pending, cookie);
    if i.Some? {
      InOrderWithout(t.pending, clock, i.value);
    } else if t.request.Some? {
      var e := Early(cookie, acked);
      var rest := if |t.early| == CAP then t.early[1..] else t.early;
      SayingSnoc(rest, e, true);
      SayingSnoc(rest, e, false);
      assert Saying(rest, true) <= Saying(t.early, true) && Saying(rest, false) <= Saying(t.early, false);
    }
    hide InOrder, FindPending, Saying;
  }

  lemma StepKeepsInv(t: State, y: Tally, op: Op, clock: nat)
    requires Inv(t, y, clock) && clock <= Clock(op, clock)
    ensures Inv(Step(t, op), Observed(t, y, op), Clock(op, clock))
  {
    match op {
      case Begin(_) => hide InOrder;
      case Finish(accepted, now) => FinishKeepsInv(t, y, accepted, now, clock);
      case OnEvent(e, now) =>
        ExpiredKeepsInv(t, y, clock, now);
        if e.Status? {
          MatchKeepsInv(Expired(t, now), y, e.cookie, e.acked, now);
        }
        hide InOrder, TimedOutInFront, Matched;
      case Snapshot(now) => ExpiredKeepsInv(t, y, clock, now);
    }
  }

  /**
   * After any run with a clock that does not go back: the requests acknowledged, unacknowledged, given up and
   * without cookie and those pending add up to the requests ended as accepted; there are no more answers of
   * either kind than statuses of that kind; nothing is buffered without an open request; both buffers are bounded.
   */
  lemma {:induction false} RunKeepsInv(t: State, y: Tally, ops: seq<Op>, clock: nat)
    requires Inv(t, y, clock) && NeverBack(ops, clock)
    ensures Inv(Run(t, ops), Watched(t, y, ops), LastClock(ops, clock))
    decreases |ops|
  {
    if ops == [] {
    } else {
      StepKeepsInv(t, y, ops[0], clock);
      hide Inv, Step, Observed, Clock;
      RunKeepsInv(Step(t, ops[0]), Observed(t, y, ops[0]), ops[1..], Clock(ops[0], clock));
    }
  }

  /** From a new tracker, with a last snapshot: the books balance and no pending entry is timed out. */
  lemma BooksBalance(ifindex: nat, ops: seq<Op>, now: nat)
    requires NeverBack(ops, 0) && LastClock(ops, 0) <= now
    ensures var t0 := State(ifindex, None, [], [], Stats(0, 0, 0, 0, 0));
            var t, y := Expired(Run(t0, ops), now), Watched(t0, Tally(0, 0, 0), ops);
            && t.stats.acked + t.stats.noAck + t.stats.statusMissing + t.stats.cookieMissing + |t.pending| == y.accepted
            && t.stats.acked <= y.acks && t.stats.noAck <= y.losses
            && |t.pending| <= 128 && |t.early| <= 128
            && forall p :: p in t.pending ==> p.at <= now < p.at + 5000
  {
    var t0 := State(ifindex, None, [], [], Stats(0, 0, 0, 0, 0));
    RunKeepsInv(t0, Tally(0, 0, 0), ops, 0);
    ExpiredKeepsInv(Run(t0, ops), Watched(t0, Tally(0, 0, 0), ops), LastClock(ops, 0), now);
  }
}
