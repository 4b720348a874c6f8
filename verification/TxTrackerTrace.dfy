/** The tracker's counters read off the calls: what is counted as what, without looking at its state. */
module TxTrackerTrace {
  import opened Wrappers
  import opened TxEvents
  import opened TxTracker

  const NO_STATS := Stats(0, 0, 0, 0, 0)

  function StateAt(ifindex: nat, ops: seq<Op>, n: nat): State
    requires n <= |ops|
  {
    Run(State(ifindex, None, [], [], NO_STATS), ops[..n])
  }

  lemma {:induction false} RunSnoc(t: State, ops: seq<Op>, op: Op)
    ensures Run(t, ops + [op]) == Step(Run(t, ops), op)
    decreases |ops|
  {
    hide Step;
    if ops == [] {
      var none: seq<Op> := [];
      assert ops + [op] == [op] && [op][1..] == none;
    } else {
      assert (ops + [op])[0] == ops[0] && (ops + [op])[1..] == ops[1..] + [op];
      RunSnoc(Step(t, ops[0]), ops[1..], op);
    }
  }

  lemma StateStep(ifindex: nat, ops: seq<Op>, n: nat)
    requires n < |ops|
    ensures StateAt(ifindex, ops, n + 1) == Step(StateAt(ifindex, ops, n), ops[n])
  {
    hide Step, Run;
    assert ops[..n + 1] == ops[..n] + [ops[n]];
    RunSnoc(State(ifindex, None, [], [], NO_STATS), ops[..n], ops[n]);
  }

  lemma StateStart(ifindex: nat, ops: seq<Op>)
    ensures StateAt(ifindex, ops, 0) == State(ifindex, None, [], [], NO_STATS)
  {
    var none: seq<Op> := [];
    assert ops[..0] == none;
  }

  // ---- Requests, read off the calls ----

  /** The request begun at `b` has not been ended before call `t`. */
  ghost predicate IsOpen(ops: seq<Op>, b: nat, t: nat)
    requires t <= |ops|
  {
    b < t && ops[b].Begin? && forall n: nat :: b < n < t ==> !ops[n].Begin? && !ops[n].Finish?
  }

  ghost predicate HasOpen(ops: seq<Op>, t: nat)
    requires t <= |ops|
  {
    exists b: nat :: IsOpen(ops, b, t)
  }

  /** A reply that gives the request of a sequence number its cookie. */
  predicate Replies(op: Op, seqNo: nat) {
    op.OnEvent? && op.e.Cookie? && op.e.seqNo == seqNo
  }

  ghost predicate IsUnanswered(ops: seq<Op>, b: nat, t: nat)
    requires b < t <= |ops| && ops[b].Begin?
  {
    forall n: nat :: b < n < t ==> !Replies(ops[n], ops[b].seqNo)
  }

  /** Reply `r` is the last one to the request begun at `b`. */
  ghost predicate IsLastReply(ops: seq<Op>, b: nat, r: nat, t: nat)
    requires b < t <= |ops| && ops[b].Begin?
  {
    && b < r < t && Replies(ops[r], ops[b].seqNo)
    && forall n: nat :: r < n < t ==> !Replies(ops[n], ops[b].seqNo)
  }

  /** Call `t` ends an open request as accepted. */
  ghost predicate EndsAccepted(ops: seq<Op>, t: nat)
    requires t < |ops|
  {
    ops[t].Finish? && ops[t].accepted && HasOpen(ops, t)
  }

  /** It does so without any reply having come since the request was begun. */
  ghost predicate EndsBare(ops: seq<Op>, t: nat)
    requires t < |ops|
  {
    ops[t].Finish? && ops[t].accepted && exists b: nat :: IsOpen(ops, b, t) && IsUnanswered(ops, b, t)
  }

  predicate IsStatus(op: Op, ifindex: nat) {
    op.OnEvent? && op.e.Status? && op.e.ifindex == ifindex
  }

  predicate IsStatusOf(op: Op, ifindex: nat, cookie: nat) {
    IsStatus(op, ifindex) && op.e.cookie == cookie
  }

  /** How many of the calls from `m` up to `n` end a request as accepted. */
  ghost function Ends(ops: seq<Op>, m: nat, n: nat): nat
    requires n <= |ops|
  {
    if n <= m then 0 else Ends(ops, m, n - 1) + if EndsAccepted(ops, n - 1) then 1 else 0
  }

  ghost function BareEnds(ops: seq<Op>, n: nat): nat
    requires n <= |ops|
  {
    if n == 0 then 0 else BareEnds(ops, n - 1) + if EndsBare(ops, n - 1) then 1 else 0
  }

  /** How many of the calls from `m` up to `n` report a status of the interface. */
  function Statuses(ifindex: nat, ops: seq<Op>, m: nat, n: nat): nat
    requires n <= |ops|
  {
    if n <= m then 0 else Statuses(ifindex, ops, m, n - 1) + if IsStatus(ops[n - 1], ifindex) then 1 else 0
  }

  /** Of the first `n` calls, those that report a status of the interface that says `acked`. */
  function Saids(ifindex: nat, ops: seq<Op>, n: nat, acked: bool): nat
    requires n <= |ops|
  {
    if n == 0 then 0
    else Saids(ifindex, ops, n - 1, acked)
         + if IsStatus(ops[n - 1], ifindex) && ops[n - 1].e.acked == acked then 1 else 0
  }

  lemma OpenNext(ops: seq<Op>, t: nat, u: nat)
    requires u == t + 1 <= |ops|
    ensures forall b: nat :: IsOpen(ops, b, u) <==>
                               (b == t && ops[t].Begin?) || (IsOpen(ops, b, t) && !ops[t].Begin? && !ops[t].Finish?)
    ensures HasOpen(ops, u) <==> ops[t].Begin? || (HasOpen(ops, t) && !ops[t].Finish?)
  {
    forall b: nat
      ensures IsOpen(ops, b, u) <==>
              (b == t && ops[t].Begin?) || (IsOpen(ops, b, t) && !ops[t].Begin? && !ops[t].Finish?)
    {
    }
    if HasOpen(ops, t) && !ops[t].Begin? && !ops[t].Finish? {
      var b: nat :| IsOpen(ops, b, t);
      assert IsOpen(ops, b, u);
    }
    if ops[t].Begin? {
      assert IsOpen(ops, t, u);
    }
  }

  lemma OneOpen(ops: seq<Op>, a: nat, b: nat, t: nat)
    requires t <= |ops| && IsOpen(ops, a, t) && IsOpen(ops, b, t)
    ensures a == b
  {
  }

  lemma ReplyNext(ops: seq<Op>, b: nat, t: nat, u: nat)
    requires b < t && u == t + 1 <= |ops| && ops[b].Begin?
    ensures IsUnanswered(ops, b, u) <==> IsUnanswered(ops, b, t) && !Replies(ops[t], ops[b].seqNo)
    ensures forall r: nat :: IsLastReply(ops, b, r, u) <==>
                               if Replies(ops[t], ops[b].seqNo) then r == t else IsLastReply(ops, b, r, t)
  {
    hide Replies;
    if !Replies(ops[t], ops[b].seqNo) {
      forall r: nat
        ensures IsLastReply(ops, b, r, u) <==> IsLastReply(ops, b, r, t)
      {
      }
    }
  }

  // ---- The open request is what the calls say ----

  ghost predicate IsRequest(ops: seq<Op>, t: nat, request: Option<Request>, b: nat)
    requires t <= |ops| && IsOpen(ops, b, t)
  {
    && request.Some? && request.value.seqNo == ops[b].seqNo
    && (request.value.cookie.None? <==> IsUnanswered(ops, b, t))
    && forall r: nat :: IsLastReply(ops, b, r, t) ==> request.value.cookie == Some(ops[r].e.cookie)
  }

  ghost predicate IsTracked(ops: seq<Op>, t: nat, request: Option<Request>)
    requires t <= |ops|
  {
    && (request.Some? <==> HasOpen(ops, t))
    && forall b: nat :: IsOpen(ops, b, t) ==> IsRequest(ops, t, request, b)
  }

  lemma RequestStep(s: State, op: Op)
    ensures Step(s, op).ifindex == s.ifindex
    ensures Step(s, op).request ==
            match op
            case Begin(seqNo) => Some(Request(seqNo, None))
            case Finish(_, _) => None
            case OnEvent(Cookie(seqNo, cookie), _) =>
              if s.request.Some? && s.request.value.seqNo == seqNo then Some(Request(seqNo, Some(cookie)))
              else s.request
            case _ => s.request
  {
    hide FindPending, FindEarly, TimedOutInFront;
  }

  lemma {:induction false} RequestIs(ifindex: nat, ops: seq<Op>, t: nat)
    requires t <= |ops|
    ensures StateAt(ifindex, ops, t).ifindex == ifindex && IsTracked(ops, t, StateAt(ifindex, ops, t).request)
    decreases t
  {
    if t == 0 {
      StateStart(ifindex, ops);
    } else {
      RequestIs(ifindex, ops, t - 1);
      StateStep(ifindex, ops, t - 1);
      RequestStep(StateAt(ifindex, ops, t - 1), ops[t - 1]);
      hide StateAt, Step;
      TrackedStep(ops, t - 1, StateAt(ifindex, ops, t - 1).request, StateAt(ifindex, ops, t).request);
    }
  }

  lemma TrackedStep(ops: seq<Op>, t: nat, before: Option<Request>, after: Option<Request>)
    requires t < |ops| && IsTracked(ops, t, before)
    requires after == match ops[t]
                      case Begin(seqNo) => Some(Request(seqNo, None))
                      case Finish(_, _) => None
                      case OnEvent(Cookie(seqNo, cookie), _) =>
                        if before.Some? && before.value.seqNo == seqNo then Some(Request(seqNo, Some(cookie)))
                        else before
                      case _ => before
    ensures IsTracked(ops, t + 1, after)
  {
    hide IsUnanswered, IsLastReply, HasOpen, IsOpen;
    var u := t + 1;
    OpenNext(ops, t, u);
    forall b: nat | IsOpen(ops, b, u)
      ensures b < u && IsRequest(ops, u, after, b)
    {
      OpenBegins(ops, b, u);
      if b == t {
        JustBegun(ops, t, u);
      } else {
        OpenBegins(ops, b, t);
        ReplyNext(ops, b, t, u);
      }
    }
  }

  lemma OpenBegins(ops: seq<Op>, b: nat, t: nat)
    requires t <= |ops| && IsOpen(ops, b, t)
    ensures b < t && ops[b].Begin?
  {
  }

  lemma JustBegun(ops: seq<Op>, t: nat, u: nat)
    requires u == t + 1 <= |ops| && ops[t].Begin?
    ensures IsUnanswered(ops, t, u) && forall r: nat :: !IsLastReply(ops, t, r, u)
  {
  }

  // ---- Counters ----

  lemma CookieMissingStep(s: State, op: Op)
    ensures Step(s, op).stats.cookieMissing == s.stats.cookieMissing +
            if op.Finish? && op.accepted && s.request.Some? && s.request.value.cookie.None? then 1 else 0
  {
    hide FindPending, FindEarly, TimedOutInFront;
  }

  /** Requests without cookie are counted exactly: accepted ends that no reply came before. */
  lemma {:induction false} CookieMissingIs(ifindex: nat, ops: seq<Op>, n: nat)
    requires n <= |ops|
    ensures StateAt(ifindex, ops, n).stats.cookieMissing == BareEnds(ops, n)
    decreases n
  {
    if n == 0 {
      StateStart(ifindex, ops);
    } else {
      var m := n - 1;
      var s := StateAt(ifindex, ops, m);
      CookieMissingIs(ifindex, ops, m);
      StateStep(ifindex, ops, m);
      CookieMissingStep(s, ops[m]);
      RequestIs(ifindex, ops, m);
      hide StateAt, Step, IsUnanswered, IsOpen;
    }
  }

  lemma {:induction false} WatchedSnoc(t: State, y: Tally, ops: seq<Op>, op: Op)
    ensures Watched(t, y, ops + [op]) == Observed(Run(t, ops), Watched(t, y, ops), op)
    decreases |ops|
  {
    hide Step, Observed;
    if ops == [] {
      var none: seq<Op> := [];
      assert ops + [op] == [op] && [op][1..] == none;
    } else {
      assert (ops + [op])[0] == ops[0] && (ops + [op])[1..] == ops[1..] + [op];
      WatchedSnoc(Step(t, ops[0]), Observed(t, y, ops[0]), ops[1..], op);
    }
  }

  /** What the books are balanced against is what the calls say. */
  lemma {:induction false} TallyIs(ifindex: nat, ops: seq<Op>, n: nat)
    requires n <= |ops|
    ensures Watched(State(ifindex, None, [], [], NO_STATS), Tally(0, 0, 0), ops[..n]) ==
            Tally(Ends(ops, 0, n), Saids(ifindex, ops, n, true), Saids(ifindex, ops, n, false))
    decreases n
  {
    if n == 0 {
      var none: seq<Op> := [];
      assert ops[..0] == none;
    } else {
      var m := n - 1;
      TallyIs(ifindex, ops, m);
      assert ops[..n] == ops[..m] + [ops[m]];
      WatchedSnoc(State(ifindex, None, [], [], NO_STATS), Tally(0, 0, 0), ops[..m], ops[m]);
      RequestIs(ifindex, ops, m);
      hide Run, Watched, IsOpen, IsUnanswered;
    }
  }

  /**
   * From a new tracker, with a last snapshot: the requests ended as accepted are acknowledged, not acknowledged,
   * given up, pending, or were ended before any reply to them came; no pending one is five seconds old.
   */
  lemma CountersBalance(ifindex: nat, ops: seq<Op>, now: nat)
    requires NeverBack(ops, 0) && LastClock(ops, 0) <= now
    ensures var t, n := Expired(StateAt(ifindex, ops, |ops|), now), |ops|;
            && t.stats.acked + t.stats.noAck + t.stats.statusMissing + |t.pending| + BareEnds(ops, n) == Ends(ops, 0, n)
            && t.stats.cookieMissing == BareEnds(ops, n)
            && t.stats.acked <= Saids(ifindex, ops, n, true) && t.stats.noAck <= Saids(ifindex, ops, n, false)
            && |t.pending| <= 128 && forall p :: p in t.pending ==> p.at <= now < p.at + 5000
  {
    BooksBalance(ifindex, ops, now);
    CookieMissingIs(ifindex, ops, |ops|);
    TallyIs(ifindex, ops, |ops|);
    assert ops[..|ops|] == ops;
    hide Run, Watched, BareEnds, Ends, Saids, TimedOutInFront;
  }

  // ---- A status finds its request ----

  lemma SizesStep(s: State, op: Op)
    requires |s.pending| <= CAP && |s.early| <= CAP
    ensures |Step(s, op).pending| <= CAP && |Step(s, op).early| <= CAP
  {
    hide FindPending, FindEarly, TimedOutInFront;
  }

  lemma {:induction false} Sizes(ifindex: nat, ops: seq<Op>, n: nat)
    requires n <= |ops|
    ensures |StateAt(ifindex, ops, n).pending| <= CAP && |StateAt(ifindex, ops, n).early| <= CAP
    decreases n
  {
    if n == 0 {
      StateStart(ifindex, ops);
    } else {
      Sizes(ifindex, ops, n - 1);
      StateStep(ifindex, ops, n - 1);
      SizesStep(StateAt(ifindex, ops, n - 1), ops[n - 1]);
    }
  }

  /** An entry with at most `later` entries behind it. */
  ghost predicate Waits(ps: seq<Pending>, p: Pending, later: nat) {
    exists i :: 0 <= i < |ps| && ps[i] == p && |ps| - 1 - i <= later
  }

  lemma WaitsExpired(t: State, p: Pending, later: nat, now: nat)
    requires Waits(t.pending, p, later) && now < p.at + 5000
    ensures Waits(Expired(t, now).pending, p, later)
  {
    var n := TimedOutInFront(t.pending, now);
    var i :| 0 <= i < |t.pending| && t.pending[i] == p && |t.pending| - 1 - i <= later;
    assert n <= i;
    assert t.pending[n..][i - n] == p;
  }

  lemma WaitsQueued(t: State, p: Pending, later: nat, q: Pending)
    requires Waits(t.pending, p, later) && later < 127 && |t.pending| <= CAP
    ensures Waits(Queued(t, q).pending, p, later + 1)
  {
    var i :| 0 <= i < |t.pending| && t.pending[i] == p && |t.pending| - 1 - i <= later;
    if |t.pending| == CAP {
      assert (t.pending[1..] + [q])[i - 1] == p;
    } else {
      assert (t.pending + [q])[i] == p;
    }
  }

  lemma WaitsWithout(ps: seq<Pending>, p: Pending, later: nat, j: nat)
    requires Waits(ps, p, later) && j < |ps| && ps[j].cookie != p.cookie
    ensures Waits(Without(ps, j), p, later)
  {
    var i :| 0 <= i < |ps| && ps[i] == p && |ps| - 1 - i <= later;
    assert Without(ps, j)[if i < j then i else i - 1] == p;
  }

  lemma WaitsMore(ps: seq<Pending>, p: Pending, later: nat, more: nat)
    requires Waits(ps, p, later) && later <= more
    ensures Waits(ps, p, more)
  {
  }

  lemma WaitsStep(s: State, op: Op, p: Pending, later: nat)
    requires Waits(s.pending, p, later) && |s.pending| <= CAP
    requires !op.Begin? ==> op.now < p.at + 5000
    requires !IsStatusOf(op, s.ifindex, p.cookie)
    requires var ends := op.Finish? && op.accepted && s.request.Some?; ends ==> later < 127
    ensures var ends := op.Finish? && op.accepted && s.request.Some?;
            Waits(Step(s, op).pending, p, if ends then later + 1 else later)
  {
    hide Waits, FindEarly, FindPending, TimedOutInFront;
    match op {
      case Begin(_) =>
      case Snapshot(now) => WaitsExpired(s, p, later, now);
      case OnEvent(e, now) =>
        WaitsExpired(s, p, later, now);
        var t := Expired(s, now);
        if e.Status? && FindPending(t.pending, e.cookie).Some? && e.ifindex == s.ifindex {
          WaitsWithout(t.pending, p, later, FindPending(t.pending, e.cookie).value);
        }
      case Finish(accepted, now) =>
        if accepted && s.request.Some? {
          WaitsMore(s.pending, p, later, later + 1);
          if s.request.value.cookie.Some? {
            WaitsQueued(s, p, later, Pending(s.request.value.cookie.value, now));
          }
        }
    }
  }

  /** Every early status of an open request came since it was begun; without one there are none. */
  ghost predicate EarlyIsFrom(ifindex: nat, ops: seq<Op>, t: nat, early: seq<Early>)
    requires t <= |ops|
  {
    && (!HasOpen(ops, t) ==> early == [])
    && forall b: nat, x :: IsOpen(ops, b, t) && x in early ==> CameSince(ifindex, ops, b, t, x)
  }

  ghost predicate CameSince(ifindex: nat, ops: seq<Op>, b: nat, t: nat, x: Early)
    requires t <= |ops|
  {
    exists n: nat :: b < n < t && IsStatusOf(ops[n], ifindex, x.cookie) && ops[n].e.acked == x.acked
  }

  lemma CameStill(ifindex: nat, ops: seq<Op>, b: nat, t: nat, u: nat, x: Early)
    requires t <= u <= |ops| && CameSince(ifindex, ops, b, t, x)
    ensures CameSince(ifindex, ops, b, u, x)
  {
    var n: nat :| b < n < t && IsStatusOf(ops[n], ifindex, x.cookie) && ops[n].e.acked == x.acked;
  }

  lemma EarlyStep(s: State, op: Op)
    ensures var u := Step(s, op);
            && (op.Begin? || op.Finish? ==> u.early == [])
            && (!op.Begin? && !op.Finish? ==>
                  forall x :: x in u.early ==>
                    x in s.early || (IsStatusOf(op, s.ifindex, x.cookie) && op.e.acked == x.acked && s.request.Some?))
  {
    hide FindPending, FindEarly, TimedOutInFront;
  }

  lemma {:induction false} EarlyIs(ifindex: nat, ops: seq<Op>, t: nat)
    requires t <= |ops|
    ensures EarlyIsFrom(ifindex, ops, t, StateAt(ifindex, ops, t).early)
    decreases t
  {
    if t == 0 {
      StateStart(ifindex, ops);
    } else {
      var m := t - 1;
      var s := StateAt(ifindex, ops, m);
      EarlyIs(ifindex, ops, m);
      StateStep(ifindex, ops, m);
      EarlyStep(s, ops[m]);
      RequestIs(ifindex, ops, m);
      OpenNext(ops, m, t);
      hide StateAt, Step, IsOpen;
      var u := StateAt(ifindex, ops, t);
      forall b: nat, x | IsOpen(ops, b, t) && x in u.early
        ensures CameSince(ifindex, ops, b, t, x)
      {
        OpenBegins(ops, b, m);
        if x in s.early {
          CameStill(ifindex, ops, b, m, t, x);
        }
      }
    }
  }

  lemma {:induction false} EndsGrow(ops: seq<Op>, m: nat, n: nat, p: nat)
    requires n <= p <= |ops|
    ensures Ends(ops, m, n) <= Ends(ops, m, p)
    decreases p
  {
    hide EndsAccepted;
    if n < p {
      EndsGrow(ops, m, n, p - 1);
    }
  }

  lemma {:induction false} StatusesGrow(ifindex: nat, ops: seq<Op>, m: nat, n: nat, p: nat)
    requires n <= p <= |ops|
    ensures Statuses(ifindex, ops, m, n) <= Statuses(ifindex, ops, m, p)
    decreases p
  {
    hide IsStatus;
    if n < p {
      StatusesGrow(ifindex, ops, m, n, p - 1);
    }
  }

  lemma {:induction false} TimesGrow(ops: seq<Op>, clock: nat)
    requires NeverBack(ops, clock)
    ensures forall i :: 0 <= i < |ops| && !ops[i].Begin? ==> clock <= ops[i].now
    ensures forall i, j :: 0 <= i < j < |ops| && !ops[i].Begin? && !ops[j].Begin? ==> ops[i].now <= ops[j].now
    decreases |ops|
  {
    if ops != [] {
      TimesGrow(ops[1..], Clock(ops[0], clock));
      assert forall i :: 0 < i < |ops| ==> ops[i] == ops[1..][i - 1];
    }
  }

  /** Between its end and a status in time the request stays in the queue. */
  lemma {:induction false} StillWaits(ifindex: nat, ops: seq<Op>, from: nat, n: nat, p: nat, entry: Pending)
    requires NeverBack(ops, 0) && from <= n <= p < |ops| && !ops[p].Begin?
    requires Waits(StateAt(ifindex, ops, from).pending, entry, 0)
    requires ops[p].now < entry.at + 5000 && Ends(ops, from, p) < 128
    requires forall m: nat :: from <= m < p ==> !IsStatusOf(ops[m], ifindex, entry.cookie)
    ensures Waits(StateAt(ifindex, ops, n).pending, entry, Ends(ops, from, n))
    decreases n
  {
    if n > from {
      var m := n - 1;
      StillWaits(ifindex, ops, from, m, p, entry);
      Sizes(ifindex, ops, m);
      RequestIs(ifindex, ops, m);
      StateStep(ifindex, ops, m);
      TimesGrow(ops, 0);
      EndsGrow(ops, from, n, p);
      hide StateAt, Waits, Step, IsOpen, IsStatusOf, NeverBack;
      WaitsStep(StateAt(ifindex, ops, m), ops[m], entry, Ends(ops, from, m));
    }
  }

  /** One more request with the answer it got, none fewer without cookie. */
  predicate IsCounted(before: Stats, after: Stats, acked: bool) {
    && after.acked == before.acked + (if acked then 1 else 0)
    && after.noAck == before.noAck + (if acked then 0 else 1)
    && after.cookieMissing == before.cookieMissing
  }

  lemma FoundIsCounted(s: State, entry: Pending, later: nat, op: Op)
    requires Waits(s.pending, entry, later) && IsStatusOf(op, s.ifindex, entry.cookie) && op.now < entry.at + 5000
    ensures IsCounted(s.stats, Step(s, op).stats, op.e.acked)
  {
    WaitsExpired(s, entry, later, op.now);
    hide TimedOutInFront;
  }

  /** The end of a request without early status puts it at the back of the queue. */
  lemma EndedWaits(s: State, cookie: nat, now: nat)
    requires s.request.Some? && s.request.value.cookie == Some(cookie) && FindEarly(s.early, cookie).None?
    ensures Waits(Step(s, Finish(true, now)).pending, Pending(cookie, now), 0)
  {
    var u := Queued(s, Pending(cookie, now));
    assert u.pending[|u.pending| - 1] == Pending(cookie, now);
  }

  /** Request `b` is ended as accepted at `f`, with reply `r` the last before. */
  ghost predicate IsEnded(ops: seq<Op>, b: nat, r: nat, f: nat)
    requires f < |ops|
  {
    IsOpen(ops, b, f) && IsLastReply(ops, b, r, f) && ops[f].Finish? && ops[f].accepted
  }

  lemma CookieAtEnd(ifindex: nat, ops: seq<Op>, b: nat, r: nat, f: nat)
    requires f < |ops| && IsEnded(ops, b, r, f)
    ensures b < r < f && ops[r].OnEvent? && ops[r].e.Cookie? && StateAt(ifindex, ops, f).ifindex == ifindex
    ensures var request := StateAt(ifindex, ops, f).request;
            request.Some? && request.value.cookie == Some(ops[r].e.cookie)
  {
    RequestIs(ifindex, ops, f);
    hide StateAt, IsUnanswered, HasOpen;
  }

  /**
   * A request that has been replied to is counted by the first status of its cookie after it was ended, as what
   * that status says, when it comes within five seconds and before 128 more requests are ended.
   */
  lemma AnsweredAfterEnd(ifindex: nat, ops: seq<Op>, b: nat, r: nat, f: nat, p: nat)
    requires NeverBack(ops, 0) && f < p < |ops| && IsEnded(ops, b, r, f) && b < r < f
    requires ops[r].OnEvent? && ops[r].e.Cookie? && IsStatusOf(ops[p], ifindex, ops[r].e.cookie)
    requires forall n: nat :: b < n < p ==> !IsStatusOf(ops[n], ifindex, ops[r].e.cookie)
    requires ops[p].now < ops[f].now + 5000 && Ends(ops, f + 1, p) < 128
    ensures IsCounted(StateAt(ifindex, ops, p).stats, StateAt(ifindex, ops, p + 1).stats, ops[p].e.acked)
  {
    var cookie := ops[r].e.cookie;
    var entry, s := Pending(cookie, ops[f].now), StateAt(ifindex, ops, f);
    CookieAtEnd(ifindex, ops, b, r, f);
    NotYetHere(ifindex, ops, b, f, cookie);
    EndedWaits(s, cookie, ops[f].now);
    StateStep(ifindex, ops, f);
    hide StateAt, Step, Waits, IsEnded, IsStatusOf, NeverBack, Ends;
    StillWaits(ifindex, ops, f + 1, p, p, entry);
    RequestIs(ifindex, ops, p);
    StateStep(ifindex, ops, p);
    FoundIsCounted(StateAt(ifindex, ops, p), entry, Ends(ops, f + 1, p), ops[p]);
  }

  lemma NotYetHere(ifindex: nat, ops: seq<Op>, b: nat, f: nat, cookie: nat)
    requires f <= |ops| && IsOpen(ops, b, f)
    requires forall n: nat :: b < n < f ==> !IsStatusOf(ops[n], ifindex, cookie)
    ensures FindEarly(StateAt(ifindex, ops, f).early, cookie).None?
  {
    EarlyIs(ifindex, ops, f);
    var early := StateAt(ifindex, ops, f).early;
    hide StateAt, IsOpen;
    forall x | x in early
      ensures x.cookie != cookie
    {
      assert CameSince(ifindex, ops, b, f, x);
    }
    assert forall i :: 0 <= i < |early| ==> early[i] in early;
  }

  // ---- A status that comes before the end ----

  predicate Gives(op: Op, cookie: nat) {
    op.OnEvent? && op.e.Cookie? && op.e.cookie == cookie
  }

  ghost predicate Lacks(s: State, cookie: nat) {
    && (forall x :: x in s.pending ==> x.cookie != cookie)
    && (s.request.Some? ==> s.request.value.cookie != Some(cookie))
  }

  lemma LacksStep(s: State, op: Op, cookie: nat)
    requires Lacks(s, cookie) && !Gives(op, cookie)
    ensures Lacks(Step(s, op), cookie)
  {
    hide FindPending, FindEarly, TimedOutInFront;
  }

  /** A cookie that no reply gave is not waited for. */
  lemma {:induction false} NeverGiven(ifindex: nat, ops: seq<Op>, t: nat, cookie: nat)
    requires t <= |ops| && forall n: nat :: n < t ==> !Gives(ops[n], cookie)
    ensures Lacks(StateAt(ifindex, ops, t), cookie)
    decreases t
  {
    if t == 0 {
      StateStart(ifindex, ops);
    } else {
      NeverGiven(ifindex, ops, t - 1, cookie);
      StateStep(ifindex, ops, t - 1);
      hide StateAt, Step, Gives;
      LacksStep(StateAt(ifindex, ops, t - 1), ops[t - 1], cookie);
    }
  }

  lemma PendingShrinks(s: State, op: Op)
    requires !op.Finish?
    ensures forall x :: x in Step(s, op).pending ==> x in s.pending
  {
    hide FindPending, FindEarly, TimedOutInFront;
  }

  lemma {:induction false} NotWaitedFor(ifindex: nat, ops: seq<Op>, b: nat, n: nat, cookie: nat)
    requires b <= n <= |ops| && forall m: nat :: m < b ==> !Gives(ops[m], cookie)
    requires forall m: nat :: b <= m < n ==> !ops[m].Finish?
    ensures forall x :: x in StateAt(ifindex, ops, n).pending ==> x.cookie != cookie
    decreases n
  {
    if n == b {
      NeverGiven(ifindex, ops, b, cookie);
    } else {
      NotWaitedFor(ifindex, ops, b, n - 1, cookie);
      StateStep(ifindex, ops, n - 1);
      hide StateAt, Step;
      PendingShrinks(StateAt(ifindex, ops, n - 1), ops[n - 1]);
    }
  }

  /** A status with at most `later` behind it. */
  ghost predicate Keeps(es: seq<Early>, e: Early, later: nat) {
    exists i :: 0 <= i < |es| && es[i] == e && |es| - 1 - i <= later
  }

  lemma KeptStatus(s: State, op: Op, cookie: nat)
    requires IsStatusOf(op, s.ifindex, cookie) && s.request.Some? && forall x :: x in s.pending ==> x.cookie != cookie
    ensures Keeps(Step(s, op).early, Early(cookie, op.e.acked), 0)
  {
    var u, n := Step(s, op), TimedOutInFront(s.pending, op.now);
    var rest := s.pending[n..];
    assert forall i :: 0 <= i < |rest| ==> rest[i] == s.pending[n + i] && s.pending[n + i] in s.pending;
    assert FindPending(rest, cookie).None?;
    assert u.early[|u.early| - 1] == Early(cookie, op.e.acked);
    hide FindPending, TimedOutInFront;
  }

  lemma KeepsStep(s: State, op: Op, e: Early, later: nat)
    requires Keeps(s.early, e, later) && |s.early| <= CAP && !op.Begin? && !op.Finish?
    requires IsStatus(op, s.ifindex) ==> later < 127
    ensures Keeps(Step(s, op).early, e, later + if IsStatus(op, s.ifindex) then 1 else 0)
  {
    hide FindPending, TimedOutInFront;
    var i :| 0 <= i < |s.early| && s.early[i] == e && |s.early| - 1 - i <= later;
    var early := Step(s, op).early;
    if early == s.early {
    } else if |s.early| == CAP {
      assert early[i - 1] == e;
    } else {
      assert early[i] == e;
    }
  }

  lemma {:induction false} StillKept(ifindex: nat, ops: seq<Op>, from: nat, n: nat, f: nat, e: Early)
    requires from <= n <= f < |ops| && Keeps(StateAt(ifindex, ops, from).early, e, 0)
    requires Statuses(ifindex, ops, from, f) < 128
    requires forall m: nat :: from <= m < f ==> !ops[m].Begin? && !ops[m].Finish?
    ensures Keeps(StateAt(ifindex, ops, n).early, e, Statuses(ifindex, ops, from, n))
    decreases n
  {
    if n > from {
      var m := n - 1;
      StillKept(ifindex, ops, from, m, f, e);
      Sizes(ifindex, ops, m);
      RequestIs(ifindex, ops, m);
      StateStep(ifindex, ops, m);
      StatusesGrow(ifindex, ops, from, n, f);
      hide StateAt, Keeps, Step, IsStatus, IsTracked;
      KeepsStep(StateAt(ifindex, ops, m), ops[m], e, Statuses(ifindex, ops, from, m));
    }
  }

  lemma EarlyIsCounted(s: State, e: Early, later: nat, now: nat)
    requires Keeps(s.early, e, later) && s.request.Some? && s.request.value.cookie == Some(e.cookie)
    requires forall x :: x in s.early && x.cookie == e.cookie ==> x == e
    ensures IsCounted(s.stats, Step(s, Finish(true, now)).stats, e.acked)
    ensures Step(s, Finish(true, now)).stats.statusMissing == s.stats.statusMissing
    ensures Step(s, Finish(true, now)).pending == s.pending
  {
    var i := FindEarly(s.early, e.cookie);
    assert i.Some? && s.early[i.value] in s.early;
    hide FindEarly;
  }

  /**
   * The same when the status comes before the end, and even before the reply: the end counts it, as long as no
   * earlier reply gave that cookie and fewer than 128 statuses follow it before the end.
   */
  lemma AnsweredBeforeEnd(ifindex: nat, ops: seq<Op>, b: nat, r: nat, f: nat, p: nat)
    requires f < |ops| && IsEnded(ops, b, r, f) && b < r < f && b < p < f
    requires ops[r].OnEvent? && ops[r].e.Cookie? && IsStatusOf(ops[p], ifindex, ops[r].e.cookie)
    requires forall n: nat :: b < n < f && n != p ==> !IsStatusOf(ops[n], ifindex, ops[r].e.cookie)
    requires forall n: nat :: n < b ==> !Gives(ops[n], ops[r].e.cookie)
    requires Statuses(ifindex, ops, p + 1, f) < 128
    ensures var s, t := StateAt(ifindex, ops, f), StateAt(ifindex, ops, f + 1);
            IsCounted(s.stats, t.stats, ops[p].e.acked) && t.stats.statusMissing == s.stats.statusMissing
            && t.pending == s.pending
  {
    var cookie := ops[r].e.cookie;
    var e, s := Early(cookie, ops[p].e.acked), StateAt(ifindex, ops, f);
    OpenBetween(ops, b, p, f);
    NotWaitedFor(ifindex, ops, b, p, cookie);
    RequestIs(ifindex, ops, p);
    KeptStatus(StateAt(ifindex, ops, p), ops[p], cookie);
    StateStep(ifindex, ops, p);
    StillKept(ifindex, ops, p + 1, f, f, e);
    CookieAtEnd(ifindex, ops, b, r, f);
    OnlyThatStatus(ifindex, ops, b, f, p, cookie);
    EarlyIsCounted(s, e, Statuses(ifindex, ops, p + 1, f), ops[f].now);
    StateStep(ifindex, ops, f);
    hide StateAt, Step, Keeps, IsOpen, IsStatusOf, IsStatus, Gives, IsLastReply;
  }

  lemma OpenBetween(ops: seq<Op>, b: nat, p: nat, f: nat)
    requires b < p < f <= |ops| && IsOpen(ops, b, f)
    ensures IsOpen(ops, b, p) && HasOpen(ops, p)
    ensures forall m: nat :: b < m < f ==> !ops[m].Begin? && !ops[m].Finish?
    ensures !ops[b].Finish?
  {
    assert IsOpen(ops, b, p);
  }

  lemma OnlyThatStatus(ifindex: nat, ops: seq<Op>, b: nat, f: nat, p: nat, cookie: nat)
    requires b < p < f <= |ops| && IsOpen(ops, b, f) && IsStatusOf(ops[p], ifindex, cookie)
    requires forall n: nat :: b < n < f && n != p ==> !IsStatusOf(ops[n], ifindex, cookie)
    ensures forall x :: x in StateAt(ifindex, ops, f).early && x.cookie == cookie ==> x == Early(cookie, ops[p].e.acked)
  {
    EarlyIs(ifindex, ops, f);
    var early := StateAt(ifindex, ops, f).early;
    hide StateAt, IsOpen;
    forall x | x in early && x.cookie == cookie
      ensures x == Early(cookie, ops[p].e.acked)
    {
      assert CameSince(ifindex, ops, b, f, x);
    }
  }
}
