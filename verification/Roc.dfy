/** One bounded channel reservation, matched by cookie, frequency and interface. */
module Roc {
  import opened Wrappers
  import opened TxEvents

  const MAX_TIME: nat := 0xFFFF_FFFF_FFFF_FFFF
  const MAX_EARLY: nat := 8
  const GUARD_US: nat := 10_000
  const NO_READY_US: nat := 500_000

  /** A READY or EXPIRED that came before the cookie was known. */
  datatype Early = Early(cookie: nat, ready: bool, at: nat)

  datatype Request = Request(
    seqNo: nat, ifindex: nat, frequency: nat, durationUs: nat, requestedUs: nat,
    accepted: bool, cookie: Option<nat>, early: seq<Early>, readyUntil: Option<nat>, ended: bool)

  datatype Timed = Timed(e: Event, at: nat)

  // ---- The transitions as functions ----

  /** A sum of times that stops at the largest one. */
  function Later(at: nat, us: nat): (end: nat)
    ensures end <= at + us && end <= 0xFFFF_FFFF_FFFF_FFFF
    ensures end == at + us || end == 0xFFFF_FFFF_FFFF_FFFF
  {
    if at + us <= MAX_TIME then at + us else MAX_TIME
  }

  function Started(seqNo: nat, ifindex: nat, frequency: nat, durationMs: nat, now: nat): (r: Option<Request>)
    ensures r.Some? <==> ifindex > 0 && frequency in {2437, 5220, 5745} && 1 <= durationMs <= 200
    ensures r.Some? ==> IsNew(r.value) && r.value.durationUs <= 200_000
    ensures r.Some? ==>
              && r.value.seqNo == seqNo && r.value.ifindex == ifindex && r.value.frequency == frequency
              && r.value.durationUs == 1000 * durationMs && r.value.requestedUs == now
  {
    if ifindex == 0 || frequency !in {2437, 5220, 5745} || durationMs == 0 || durationMs > 200 then None
    else Some(Request(seqNo, ifindex, frequency, durationMs * 1000, now, false, None, [], None, false))
  }

  function Applied(r: Request, ready: bool, at: nat): Request {
    if !ready then r.(ended := true, readyUntil := None)
    else if !r.ended && r.readyUntil.None? then r.(readyUntil := Some(Later(at, r.durationUs)))
    else r
  }

  function Replayed(r: Request, es: seq<Early>, cookie: nat): Request
    decreases |es|
  {
    if es == [] then r
    else Replayed(if es[0].cookie == cookie then Applied(r, es[0].ready, es[0].at) else r, es[1..], cookie)
  }

  function Next(r: Request, e: Event, now: nat): Request {
    match e
    case Ack(seqNo, error) =>
      if seqNo == r.seqNo then r.(accepted := error == 0, ended := r.ended || error != 0) else r
    case RocCookie(seqNo, cookie) =>
      if seqNo == r.seqNo then Replayed(r.(cookie := Some(cookie), early := []), r.early, cookie) else r
    case Roc(ifindex, cookie, frequency, ready) =>
      if ifindex != r.ifindex || frequency != r.frequency then r
      else if r.cookie == Some(cookie) then Applied(r, ready, now)
      else if r.cookie.None? && |r.early| < MAX_EARLY then r.(early := r.early + [Early(cookie, ready, now)])
      else r
    case _ => r
  }

  function Run(r: Request, es: seq<Timed>): Request
    decreases |es|
  {
    if es == [] then r else Run(Next(r, es[0].e, es[0].at), es[1..])
  }

  function Active(r: Request, now: nat): Option<nat> {
    if r.accepted && !r.ended && r.readyUntil.Some?
      && now + GUARD_US < r.readyUntil.value then Some(r.frequency) else None
  }

  predicate Over(r: Request, now: nat) {
    r.ended || now >= (if r.readyUntil.Some? then r.readyUntil.value else Later(r.requestedUs, NO_READY_US))
  }

  // ---- The transitions in place ----

  class Reservation {
    var request: Option<Request>

    constructor ()
      ensures request == None
    {
      request := None;
    }

    method Start(seqNo: nat, ifindex: nat, frequency: nat, durationMs: nat, now: nat) returns (started: bool)
      modifies this
      ensures started == (old(request).None? && Started(seqNo, ifindex, frequency, durationMs, now).Some?)
      ensures request == if started then Started(seqNo, ifindex, frequency, durationMs, now) else old(request)
    {
      if request.Some? || ifindex == 0 || (frequency != 2437 && frequency != 5220 && frequency != 5745)
         || durationMs == 0 || durationMs > 200 {
        return false;
      }
      request := Some(Request(seqNo, ifindex, frequency, durationMs * 1000, now, false, None, [], None, false));
      started := true;
    }

    method OnEvent(e: Event, now: nat)
      modifies this
      ensures request == if old(request).None? then None else Some(Next(old(request).value, e, now))
    {
      if request.None? {
        return;
      }
      var r := request.value;
      match e {
        case Ack(seqNo, error) =>
          if seqNo == r.seqNo {
            r := r.(accepted := error == 0);
            if error != 0 {
              r := r.(ended := true);
            }
          }
        case RocCookie(seqNo, cookie) =>
          if seqNo == r.seqNo {
            var taken := r.early;
            r := r.(cookie := Some(cookie), early := []);
            ghost var whole := Replayed(r, taken, cookie);
            for i := 0 to |taken|
              invariant Replayed(r, taken[i..], cookie) == whole
            {
              if taken[i].cookie == cookie {
                r := Apply(r, taken[i].ready, taken[i].at);
              }
            }
          }
        case Roc(ifindex, cookie, frequency, ready) =>
          if ifindex == r.ifindex && frequency == r.frequency {
            if r.cookie == Some(cookie) {
              r := Apply(r, ready, now);
            } else if r.cookie.None? && |r.early| < MAX_EARLY {
              r := r.(early := r.early + [Early(cookie, ready, now)]);
            }
          }
        case _ =>
      }
      request := Some(r);
    }

    static method Apply(r: Request, ready: bool, at: nat) returns (s: Request)
      ensures s == Applied(r, ready, at)
    {
      s := r;
      if !ready {
        s := s.(ended := true);
        s := s.(readyUntil := None);
      } else if !s.ended && s.readyUntil.None? {
        s := s.(readyUntil := Some(Later(at, s.durationUs)));
      }
    }

    function ActiveFrequency(now: nat): (f: Option<nat>)
      reads this
      ensures f.Some? ==> request.Some? && request.value.accepted && !Finished(now)
    {
      if request.None? then None else Active(request.value, now)
    }

    predicate Finished(now: nat)
      reads this
    {
      request.Some? && Over(request.value, now)
    }

    function KnownCookie(): Option<nat>
      reads this
    {
      if request.None? then None else request.value.cookie
    }

    predicate IsPending()
      reads this
    {
      request.Some?
    }

    method Clear()
      modifies this
      ensures request == None
    {
      request := None;
    }
  }

  // ---- What a list of events says ----

  /** The last answer of the kernel to the request, `before` when there is none. */
  function Acked(before: bool, seqNo: nat, es: seq<Timed>): bool
    decreases |es|
  {
    if es == [] then before
    else Acked(if es[0].e.Ack? && es[0].e.seqNo == seqNo then es[0].e.error == 0 else before, seqNo, es[1..])
  }

  ghost predicate Refused(seqNo: nat, es: seq<Timed>) {
    exists i :: 0 <= i < |es| && es[i].e.Ack? && es[i].e.seqNo == seqNo && es[i].e.error != 0
  }

  /** No cookie reply to the request. */
  ghost predicate NoReply(seqNo: nat, es: seq<Timed>) {
    forall i :: 0 <= i < |es| && es[i].e.RocCookie? ==> es[i].e.seqNo != seqNo
  }

  /** The READY and EXPIRED events on the interface and frequency, whatever their cookie. */
  function Heard(ifindex: nat, frequency: nat, es: seq<Timed>): seq<Early>
    decreases |es|
  {
    if es == [] then []
    else if Hears(ifindex, frequency, es[0].e) then
      [Early(es[0].e.cookie, es[0].e.ready, es[0].at)] + Heard(ifindex, frequency, es[1..])
    else Heard(ifindex, frequency, es[1..])
  }

  predicate Hears(ifindex: nat, frequency: nat, e: Event) {
    e.Roc? && e.ifindex == ifindex && e.frequency == frequency
  }

  predicate Expires(es: seq<Early>, cookie: nat) {
    es != [] && ((es[0].cookie == cookie && !es[0].ready) || Expires(es[1..], cookie))
  }

  /** The time of the first READY for the cookie. */
  function FirstReady(es: seq<Early>, cookie: nat): Option<nat> {
    if es == [] then None
    else if es[0].cookie == cookie && es[0].ready then Some(es[0].at)
    else FirstReady(es[1..], cookie)
  }

  function Held(es: seq<Early>): seq<Early> {
    if |es| <= 8 then es else es[..8]
  }

  function Dropped(es: seq<Early>): seq<Early> {
    if |es| <= 8 then [] else es[8..]
  }

  /** Whether `r`, which was `before`, has taken in the events `es` for the cookie. */
  ghost predicate Took(r: Request, before: Request, es: seq<Early>, cookie: nat, refused: bool) {
    && r.ended == (before.ended || refused || Expires(es, cookie))
    && (!r.ended ==> r.readyUntil == if before.readyUntil.Some? then before.readyUntil
                                     else match FirstReady(es, cookie)
                                          case None => None
                                          case Some(at) => Some(Later(at, before.durationUs)))
  }

  /** What no event changes. */
  predicate SameRequest(r: Request, s: Request) {
    r.seqNo == s.seqNo && r.ifindex == s.ifindex && r.frequency == s.frequency && r.durationUs == s.durationUs
    && r.requestedUs == s.requestedUs
  }

  lemma {:induction false} ReplayTakes(r: Request, es: seq<Early>, cookie: nat)
    ensures Took(Replayed(r, es, cookie), r, es, cookie, false)
    ensures SameRequest(Replayed(r, es, cookie), r) && Replayed(r, es, cookie).accepted == r.accepted
    ensures Replayed(r, es, cookie).cookie == r.cookie && Replayed(r, es, cookie).early == r.early
    decreases |es|
  {
    if es != [] {
      ReplayTakes(if es[0].cookie == cookie then Applied(r, es[0].ready, es[0].at) else r, es[1..], cookie);
    }
  }

  lemma RefusedUnfold(seqNo: nat, es: seq<Timed>)
    requires es != []
    ensures Refused(seqNo, es) <==>
            (es[0].e.Ack? && es[0].e.seqNo == seqNo && es[0].e.error != 0) || Refused(seqNo, es[1..])
    ensures NoReply(seqNo, es) ==> NoReply(seqNo, es[1..])
  {
    if i :| 0 <= i < |es| && es[i].e.Ack? && es[i].e.seqNo == seqNo && es[i].e.error != 0 && i > 0 {
      assert es[1..][i - 1] == es[i];
    }
    if Refused(seqNo, es[1..]) {
      var i :| 0 <= i < |es[1..]| && es[1..][i].e.Ack? && es[1..][i].e.seqNo == seqNo && es[1..][i].e.error != 0;
      assert es[1 + i] == es[1..][i];
    }
  }

  /** A request without cookie after an event that is not its reply. */
  lemma WithoutCookie(r: Request, e: Event, now: nat)
    requires r.cookie.None? && !(e.RocCookie? && e.seqNo == r.seqNo)
    ensures var hers := e.Ack? && e.seqNo == r.seqNo;
            var kept := Hears(r.ifindex, r.frequency, e) && |r.early| < MAX_EARLY;
            Next(r, e, now) == r.(
              accepted := if hers then e.error == 0 else r.accepted, ended := r.ended || (hers && e.error != 0),
              early := if kept then r.early + [Early(e.cookie, e.ready, now)] else r.early)
  {
  }

  lemma HeldCons(es: seq<Early>, x: Early, rest: seq<Early>)
    requires |es| <= MAX_EARLY
    ensures Held(es + ([x] + rest)) == Held(if |es| < MAX_EARLY then (es + [x]) + rest else es + rest)
  {
    assert es + ([x] + rest) == (es + [x]) + rest;
    if |es| == MAX_EARLY {
      assert (es + ([x] + rest))[..MAX_EARLY] == es;
      assert (es + rest)[..MAX_EARLY] == es;
    }
  }

  /** Before the reply, a request only remembers the answer and the first ROC events. */
  lemma {:induction false} BeforeReply(r: Request, es: seq<Timed>)
    requires r.cookie.None? && |r.early| <= MAX_EARLY && NoReply(r.seqNo, es)
    ensures Run(r, es) == r.(
              accepted := Acked(r.accepted, r.seqNo, es), ended := r.ended || Refused(r.seqNo, es),
              early := Held(r.early + Heard(r.ifindex, r.frequency, es)))
    decreases |es|
  {
    if es == [] {
      assert r.early + Heard(r.ifindex, r.frequency, es) == r.early;
    } else {
      var e := es[0].e;
      var s := Next(r, e, es[0].at);
      WithoutCookie(r, e, es[0].at);
      RefusedUnfold(r.seqNo, es);
      if Hears(r.ifindex, r.frequency, e) {
        HeldCons(r.early, Early(e.cookie, e.ready, es[0].at), Heard(r.ifindex, r.frequency, es[1..]));
      }
      hide Next, Refused, NoReply, Held;
      BeforeReply(s, es[1..]);
    }
  }

  lemma FirstOf(x: Early, rest: seq<Early>, cookie: nat)
    ensures Expires([x] + rest, cookie) == ((x.cookie == cookie && !x.ready) || Expires(rest, cookie))
    ensures FirstReady([x] + rest, cookie) == if x.cookie == cookie && x.ready then Some(x.at)
        else FirstReady(rest, cookie)
  {
    assert ([x] + rest)[1..] == rest;
  }

  /** A request that knows its cookie takes in every ROC event as it comes. */
  lemma {:induction false} WithCookie(r: Request, es: seq<Timed>, cookie: nat)
    requires r.cookie == Some(cookie) && r.early == [] && NoReply(r.seqNo, es)
    ensures var s := Run(r, es);
            && SameRequest(s, r) && s.cookie == r.cookie && s.early == []
            && s.accepted == Acked(r.accepted, r.seqNo, es)
            && Took(s, r, Heard(r.ifindex, r.frequency, es), cookie, Refused(r.seqNo, es))
    decreases |es|
  {
    if es != [] {
      var e := es[0].e;
      var s := Next(r, e, es[0].at);
      RefusedUnfold(r.seqNo, es);
      if Hears(r.ifindex, r.frequency, e) {
        FirstOf(Early(e.cookie, e.ready, es[0].at), Heard(r.ifindex, r.frequency, es[1..]), cookie);
      }
      hide Refused, NoReply, Expires, FirstReady;
      WithCookie(s, es[1..], cookie);
    }
  }

  // ---- Waiting for the cookie against knowing it from the start ----

  /** Requests that differ at most in the deadline of one that has ended. */
  predicate Same(r: Request, s: Request) {
    && SameRequest(r, s) && r.accepted == s.accepted && r.cookie == s.cookie && r.early == s.early
    && r.ended == s.ended && (!r.ended ==> r.readyUntil == s.readyUntil)
  }

  lemma {:induction false} RunParts(r: Request, es: seq<Timed>, fs: seq<Timed>)
    ensures Run(r, es + fs) == Run(Run(r, es), fs)
    decreases |es|
  {
    if es == [] {
      assert es + fs == fs;
    } else {
      assert (es + fs)[1..] == es[1..] + fs;
      RunParts(Next(r, es[0].e, es[0].at), es[1..], fs);
    }
  }

  lemma {:induction false} ReplaySame(r: Request, s: Request, es: seq<Early>, cookie: nat)
    requires Same(r, s)
    ensures Same(Replayed(r, es, cookie), Replayed(s, es, cookie))
    decreases |es|
  {
    if es != [] {
      var x, y := Applied(r, es[0].ready, es[0].at), Applied(s, es[0].ready, es[0].at);
      if es[0].cookie == cookie {
        ReplaySame(x, y, es[1..], cookie);
      } else {
        ReplaySame(r, s, es[1..], cookie);
      }
    }
  }

  lemma {:induction false} SameForever(r: Request, s: Request, es: seq<Timed>)
    requires Same(r, s)
    ensures Same(Run(r, es), Run(s, es))
    decreases |es|
  {
    if es != [] {
      if es[0].e.RocCookie? {
        var cookie := Some(es[0].e.cookie);
        ReplaySame(r.(cookie := cookie, early := []), s.(cookie := cookie, early := []), r.early, es[0].e.cookie);
      }
      hide Replayed;
      SameForever(Next(r, es[0].e, es[0].at), Next(s, es[0].e, es[0].at), es[1..]);
    }
  }

  /** What a caller sees at `now` after more events. */
  function Shown(r: Request, es: seq<Timed>, now: nat): (Option<nat>, bool) {
    (Active(Run(r, es), now), Over(Run(r, es), now))
  }

  /** A caller sees the same of both, at every instant and after every further events. */
  ghost predicate Agree(r: Request, s: Request) {
    forall es, now :: Shown(r, es, now) == Shown(s, es, now)
  }

  lemma SameAgree(r: Request, s: Request)
    requires Same(r, s)
    ensures Agree(r, s)
  {
    forall es, now ensures Shown(r, es, now) == Shown(s, es, now) {
      SameForever(r, s, es);
    }
  }

  lemma {:induction false} ByParts(es: seq<Early>, fs: seq<Early>, cookie: nat)
    ensures Expires(es + fs, cookie) == (Expires(es, cookie) || Expires(fs, cookie))
    ensures FirstReady(es + fs, cookie) ==
            if FirstReady(es, cookie).Some? then FirstReady(es, cookie) else FirstReady(fs, cookie)
  {
    if es == [] {
      assert es + fs == fs;
    } else {
      assert es + fs == [es[0]] + (es[1..] + fs) && es == [es[0]] + es[1..];
      FirstOf(es[0], es[1..] + fs, cookie);
      ByParts(es[1..], fs, cookie);
    }
  }

  /**
   * The events before the reply that did not fit the buffer matter: the request is not over without
   * them, and they hold an EXPIRED, or the only READY.
   */
  ghost predicate Lossy(r: Request, es: seq<Timed>, cookie: nat) {
    var heard := Heard(r.ifindex, r.frequency, es);
    && !Refused(r.seqNo, es) && !Expires(Held(heard), cookie)
    && (Expires(Dropped(heard), cookie)
        || (FirstReady(Held(heard), cookie).None? && FirstReady(Dropped(heard), cookie).Some?))
  }

  /** The request just after its reply, having waited for it. */
  function Waited(r: Request, es: seq<Timed>, cookie: nat, at: nat): Request {
    Run(r, es + [Timed(RocCookie(r.seqNo, cookie), at)])
  }

  lemma LastStep(r: Request, es: seq<Timed>, e: Timed)
    ensures Run(r, es + [e]) == Next(Run(r, es), e.e, e.at)
  {
    RunParts(r, es, [e]);
    var none: seq<Timed> := [];
    assert [e][1..] == none;
  }

  ghost predicate IsNew(r: Request) {
    r.cookie.None? && r.early == [] && r.readyUntil.None? && !r.ended && !r.accepted && r.durationUs >= 1000
  }

  lemma WaitedTakes(r: Request, es: seq<Timed>, cookie: nat, at: nat)
    requires IsNew(r) && NoReply(r.seqNo, es)
    ensures var m := Waited(r, es, cookie, at);
            && SameRequest(m, r) && m.cookie == Some(cookie) && m.early == [] && m.accepted == Acked(false, r.seqNo, es)
            && Took(m, r, Held(Heard(r.ifindex, r.frequency, es)), cookie, Refused(r.seqNo, es))
  {
    LastStep(r, es, Timed(RocCookie(r.seqNo, cookie), at));
    BeforeReply(r, es);
    var heard := Heard(r.ifindex, r.frequency, es);
    assert r.early + heard == heard;
    ReplayTakes(Run(r, es).(cookie := Some(cookie), early := []), Held(heard), cookie);
    hide Heard, Held, Expires, FirstReady, Refused, NoReply, Acked, Run, Replayed;
  }

  lemma KnewTakes(r: Request, es: seq<Timed>, cookie: nat, at: nat)
    requires IsNew(r) && NoReply(r.seqNo, es)
    ensures var o := Waited(r.(cookie := Some(cookie)), es, cookie, at);
            && SameRequest(o, r) && o.cookie == Some(cookie) && o.early == [] && o.accepted == Acked(false, r.seqNo, es)
            && Took(o, r, Heard(r.ifindex, r.frequency, es), cookie, Refused(r.seqNo, es))
  {
    var k := r.(cookie := Some(cookie));
    LastStep(k, es, Timed(RocCookie(r.seqNo, cookie), at));
    WithCookie(k, es, cookie);
  }

  /** Different deadlines can be told apart, at once or after an acknowledgement. */
  lemma DeadlineShows(r: Request, s: Request)
    requires !r.ended && !s.ended && r.readyUntil.None? && s.readyUntil.Some? && s.readyUntil.value > 0
    ensures !Agree(r, s)
  {
    var limit, end := Later(r.requestedUs, NO_READY_US), s.readyUntil.value;
    var none: seq<Timed> := [];
    if limit != end {
      var now := if limit < end then limit else end;
      assert Shown(r, none, now) != Shown(s, none, now);
    } else {
      var es := [Timed(Ack(s.seqNo, 0), 0)];
      assert es == none + es;
      LastStep(r, none, es[0]);
      LastStep(s, none, es[0]);
      assert Shown(r, es, 0) != Shown(s, es, 0);
    }
  }

  /**
   * Waiting for the cookie shows the caller the same as knowing it from the start, at every instant
   * after the reply and whatever comes later, exactly when the events that did not fit do not matter.
   */
  lemma AgreesIff(r: Request, es: seq<Timed>, cookie: nat, at: nat)
    requires IsNew(r) && NoReply(r.seqNo, es)
    ensures Agree(Waited(r, es, cookie, at), Waited(r.(cookie := Some(cookie)), es, cookie, at))
        <==> !Lossy(r, es, cookie)
  {
    var m, o := Waited(r, es, cookie, at), Waited(r.(cookie := Some(cookie)), es, cookie, at);
    var heard := Heard(r.ifindex, r.frequency, es);
    WaitedTakes(r, es, cookie, at);
    KnewTakes(r, es, cookie, at);
    assert heard == Held(heard) + Dropped(heard);
    ByParts(Held(heard), Dropped(heard), cookie);
    hide Heard, Held, Dropped, Expires, FirstReady, Refused, NoReply, Waited;
    if !Lossy(r, es, cookie) {
      SameAgree(m, o);
    } else if o.ended {
      var none: seq<Timed> := [];
      assert Shown(m, none, 0) != Shown(o, none, 0);
    } else {
      DeadlineShows(m, o);
    }
  }

  /** With at most eight ROC events before the reply nothing is lost. */
  lemma EightSuffice(r: Request, es: seq<Timed>, cookie: nat, at: nat)
    requires IsNew(r) && NoReply(r.seqNo, es) && |Heard(r.ifindex, r.frequency, es)| <= 8
    ensures Agree(Waited(r, es, cookie, at), Waited(r.(cookie := Some(cookie)), es, cookie, at))
  {
    AgreesIff(r, es, cookie, at);
  }

  lemma NoReplyParts(seqNo: nat, es: seq<Timed>, fs: seq<Timed>)
    requires NoReply(seqNo, es) && NoReply(seqNo, fs)
    ensures NoReply(seqNo, es + fs)
  {
  }

  /**
   * What a caller sees after the reply and any further events, in terms of the events alone: permission on
   * the last acknowledgement, without refusal or EXPIRED, until the guard before the first READY's end;
   * the end on a refusal, an EXPIRED, that end, or half a second without READY.
   */
  lemma PermissionIff(r: Request, es: seq<Timed>, cookie: nat, at: nat, later: seq<Timed>, now: nat)
    requires IsNew(r) && NoReply(r.seqNo, es) && NoReply(r.seqNo, later)
    requires |Heard(r.ifindex, r.frequency, es)| <= 8
    ensures var s := Run(Waited(r, es, cookie, at), later);
            var heard := Heard(r.ifindex, r.frequency, es + later);
            var over := Refused(r.seqNo, es + later) || Expires(heard, cookie);
            var ready := FirstReady(heard, cookie);
            && (Active(s, now) == Some(r.frequency) <==>
                && Acked(false, r.seqNo, es + later) && !over
                && ready.Some? && now + 10_000 < Later(ready.value, r.durationUs))
            && (Over(s, now) <==> over || now >= (if ready.Some? then Later(ready.value, r.durationUs)
                                                  else Later(r.requestedUs, 500_000)))
  {
    var k := r.(cookie := Some(cookie));
    var o := Waited(k, es, cookie, at);
    EightSuffice(r, es, cookie, at);
    assert Shown(Waited(r, es, cookie, at), later, now) == Shown(o, later, now);
    LastStep(k, es, Timed(RocCookie(r.seqNo, cookie), at));
    WithCookie(k, es, cookie);
    assert o == Run(k, es);
    RunParts(k, es, later);
    NoReplyParts(r.seqNo, es, later);
    WithCookie(k, es + later, cookie);
    hide Run, Waited, Heard, Refused, NoReply, Expires, FirstReady, Acked, Agree;
  }

  /** Before the reply there is no permission, and the end comes on a refusal or after half a second. */
  lemma NotYetReplied(r: Request, es: seq<Timed>, now: nat)
    requires IsNew(r) && NoReply(r.seqNo, es)
    ensures Active(Run(r, es), now) == None
    ensures Over(Run(r, es), now) <==> Refused(r.seqNo, es) || now >= Later(r.requestedUs, 500_000)
  {
    BeforeReply(r, es);
    hide Run, Refused, NoReply, Held, Heard, Acked;
  }

  // ---- No permission without an answer, a cookie and a READY ----

  ghost predicate HasReply(r: Request, past: set<Timed>, cookie: nat) {
    exists at :: Timed(RocCookie(r.seqNo, cookie), at) in past
  }

  ghost predicate HasReady(r: Request, past: set<Timed>, cookie: nat, at: nat) {
    Timed(Roc(r.ifindex, cookie, r.frequency, true), at) in past
  }

  /** Everything the request believes comes from an event of its past. */
  ghost predicate Backed(r: Request, past: set<Timed>) {
    && (r.accepted ==> exists at :: Timed(Ack(r.seqNo, 0), at) in past)
    && (!r.ended ==> forall t :: t in past && t.e.Ack? && t.e.seqNo == r.seqNo ==> t.e.error == 0)
    && (r.cookie.Some? ==> HasReply(r, past, r.cookie.value))
    && (r.readyUntil.Some? ==> BackedDeadline(r, past, r.readyUntil.value))
    && (forall x :: x in r.early && x.ready ==> HasReady(r, past, x.cookie, x.at))
  }

  ghost predicate BackedDeadline(r: Request, past: set<Timed>, end: nat) {
    exists cookie, at :: HasReady(r, past, cookie, at) && HasReply(r, past, cookie) && end == Later(at, r.durationUs)
  }

  lemma AppliedKeepsBacked(r: Request, x: Early, cookie: nat, past: set<Timed>)
    requires Backed(r, past) && HasReply(r, past, cookie)
    requires x.ready ==> HasReady(r, past, x.cookie, x.at)
    ensures x.cookie == cookie ==> Backed(Applied(r, x.ready, x.at), past)
  {
    var s := Applied(r, x.ready, x.at);
    if s.readyUntil == r.readyUntil {
      DeadlineStays(r, s, past);
    } else if s.readyUntil.Some? && x.cookie == cookie {
      assert HasReady(s, past, cookie, x.at) && HasReply(s, past, cookie);
    }
    forall y | y in s.early && y.ready ensures HasReady(s, past, y.cookie, y.at) {
      assert HasReady(r, past, y.cookie, y.at);
    }
  }

  lemma {:induction false} ReplayKeepsBacked(r: Request, es: seq<Early>, cookie: nat, past: set<Timed>)
    requires Backed(r, past) && HasReply(r, past, cookie)
    requires forall x :: x in es && x.ready ==> HasReady(r, past, x.cookie, x.at)
    ensures Backed(Replayed(r, es, cookie), past) && SameRequest(Replayed(r, es, cookie), r)
    decreases |es|
  {
    if es != [] {
      var s := if es[0].cookie == cookie then Applied(r, es[0].ready, es[0].at) else r;
      if es[0].ready {
        assert HasReady(r, past, es[0].cookie, es[0].at);
      }
      AppliedKeepsBacked(r, es[0], cookie, past);
      assert HasReply(s, past, cookie);
      forall x | x in es[1..] && x.ready ensures HasReady(s, past, x.cookie, x.at) {
        assert HasReady(r, past, x.cookie, x.at);
      }
      hide Backed, HasReply;
      ReplayKeepsBacked(s, es[1..], cookie, past);
    }
  }

  lemma BackedGrows(r: Request, past: set<Timed>, t: Timed)
    requires Backed(r, past) && !(t.e.Ack? && t.e.seqNo == r.seqNo)
    ensures Backed(r, past + {t})
  {
    if r.readyUntil.Some? {
      var cookie, at :| HasReady(r, past, cookie, at) && HasReply(r, past, cookie)
        && r.readyUntil.value == Later(at, r.durationUs);
      assert HasReady(r, past + {t}, cookie, at) && HasReply(r, past + {t}, cookie);
    }
    forall x | x in r.early && x.ready ensures HasReady(r, past + {t}, x.cookie, x.at) {
      assert HasReady(r, past, x.cookie, x.at);
    }
  }

  lemma AnswerKeepsBacked(r: Request, past: set<Timed>, t: Timed)
    requires Backed(r, past) && t.e.Ack? && t.e.seqNo == r.seqNo
    ensures Backed(Next(r, t.e, t.at), past + {t})
  {
    var s := Next(r, t.e, t.at);
    var now := past + {t};
    if s.accepted {
      assert t == Timed(Ack(s.seqNo, 0), t.at) && t in now;
    }
    if s.readyUntil.Some? {
      var cookie, at :| HasReady(r, past, cookie, at) && HasReply(r, past, cookie)
        && r.readyUntil.value == Later(at, r.durationUs);
      assert HasReady(s, now, cookie, at) && HasReply(s, now, cookie);
    }
    forall x | x in s.early && x.ready ensures HasReady(s, now, x.cookie, x.at) {
      assert HasReady(r, past, x.cookie, x.at);
    }
  }

  lemma NextKeepsBacked(r: Request, past: set<Timed>, t: Timed)
    requires Backed(r, past)
    ensures Backed(Next(r, t.e, t.at), past + {t}) && SameRequest(Next(r, t.e, t.at), r)
  {
    var now := past + {t};
    if t.e.Ack? && t.e.seqNo == r.seqNo {
      AnswerKeepsBacked(r, past, t);
      hide Backed;
    } else {
      BackedGrows(r, past, t);
      if t.e.RocCookie? && t.e.seqNo == r.seqNo {
        ReplyKeepsBacked(r, now, t);
        hide Backed, Replayed;
      } else if Hears(r.ifindex, r.frequency, t.e) {
        assert t.e.ready ==> HasReady(r, now, t.e.cookie, t.at);
        HeardKeepsBacked(r, now, t);
        hide Backed;
      }
    }
  }

  lemma ReplyKeepsBacked(r: Request, now: set<Timed>, t: Timed)
    requires Backed(r, now) && t in now && t.e.RocCookie? && t.e.seqNo == r.seqNo
    ensures Backed(Next(r, t.e, t.at), now) && SameRequest(Next(r, t.e, t.at), r)
  {
    var s := r.(cookie := Some(t.e.cookie), early := []);
    assert t == Timed(RocCookie(r.seqNo, t.e.cookie), t.at);
    assert HasReply(s, now, t.e.cookie);
    forall x | x in r.early && x.ready ensures HasReady(s, now, x.cookie, x.at) {
      assert HasReady(r, now, x.cookie, x.at);
    }
    assert Backed(s, now) by {
      DeadlineStays(r, s, now);
    }
    hide Backed;
    ReplayKeepsBacked(s, r.early, t.e.cookie, now);
  }

  /** The deadline only depends on what no event changes. */
  lemma DeadlineStays(r: Request, s: Request, past: set<Timed>)
    requires SameRequest(r, s) && r.readyUntil == s.readyUntil
    requires r.readyUntil.Some? ==> BackedDeadline(r, past, r.readyUntil.value)
    ensures s.readyUntil.Some? ==> BackedDeadline(s, past, s.readyUntil.value)
  {
    if r.readyUntil.Some? {
      var cookie, at :| HasReady(r, past, cookie, at) && HasReply(r, past, cookie)
        && r.readyUntil.value == Later(at, r.durationUs);
      assert HasReady(s, past, cookie, at) && HasReply(s, past, cookie);
    }
  }

  lemma HeardKeepsBacked(r: Request, now: set<Timed>, t: Timed)
    requires Backed(r, now) && Hears(r.ifindex, r.frequency, t.e)
    requires t.e.ready ==> HasReady(r, now, t.e.cookie, t.at)
    ensures Backed(Next(r, t.e, t.at), now) && SameRequest(Next(r, t.e, t.at), r)
  {
    var s := Next(r, t.e, t.at);
    if s.readyUntil == r.readyUntil {
      DeadlineStays(r, s, now);
    } else if s.readyUntil.Some? {
      assert HasReady(s, now, t.e.cookie, t.at) && HasReply(s, now, t.e.cookie);
    }
    forall x | x in s.early && x.ready ensures HasReady(s, now, x.cookie, x.at) {
      if x in r.early {
        assert HasReady(r, now, x.cookie, x.at);
      }
    }
  }

  ghost function Past(es: seq<Timed>): set<Timed> {
    set t | t in es
  }

  lemma {:induction false} RunKeepsBacked(r: Request, past: set<Timed>, es: seq<Timed>)
    requires Backed(r, past)
    ensures Backed(Run(r, es), past + Past(es)) && SameRequest(Run(r, es), r)
    decreases |es|
  {
    if es == [] {
      assert past + Past(es) == past;
    } else {
      NextKeepsBacked(r, past, es[0]);
      assert past + Past(es) == past + {es[0]} + Past(es[1..]);
      hide Backed, Next;
      RunKeepsBacked(Next(r, es[0].e, es[0].at), past + {es[0]}, es[1..]);
    }
  }

  /**
   * Permission to transmit is never given on an acknowledgement alone: over any run of a new request,
   * there were an acknowledgement, no refusal, a reply with a cookie and a READY for that cookie, on the
   * interface and frequency asked for, less than the duration ago by more than the guard.
   */
  lemma ActiveIsEarned(r: Request, es: seq<Timed>, now: nat)
    requires IsNew(r) && Active(Run(r, es), now).Some?
    ensures Active(Run(r, es), now) == Some(r.frequency)
    ensures exists at :: Timed(Ack(r.seqNo, 0), at) in es
    ensures forall t :: t in es && t.e.Ack? && t.e.seqNo == r.seqNo ==> t.e.error == 0
    ensures exists cookie, at: nat :: HasReply(r, Past(es), cookie) && HasReady(r, Past(es), cookie, at)
                                 && now + 10_000 < at + r.durationUs
  {
    var none: set<Timed> := {};
    RunKeepsBacked(r, none, es);
    assert none + Past(es) == Past(es);
    var s := Run(r, es);
    var cookie, at :| HasReady(s, Past(es), cookie, at) && HasReply(s, Past(es), cookie)
      && s.readyUntil.value == Later(at, s.durationUs);
    assert HasReply(r, Past(es), cookie) && HasReady(r, Past(es), cookie, at);
    var acked :| Timed(Ack(s.seqNo, 0), acked) in Past(es);
    assert Timed(Ack(r.seqNo, 0), acked) in es;
  }

  /** A reservation is over at the latest 500 ms after the request and the last event. */
  lemma EveryReservationEnds(r: Request, es: seq<Timed>, last: nat, now: nat)
    requires IsNew(r) && r.durationUs <= 200_000 && r.requestedUs <= last
    requires forall t :: t in es ==> t.at <= last
    requires last + 500_000 <= now
    ensures Over(Run(r, es), now) && Active(Run(r, es), now).None?
  {
    var none: set<Timed> := {};
    RunKeepsBacked(r, none, es);
    var s := Run(r, es);
    if s.readyUntil.Some? {
      var cookie, at :| HasReady(s, none + Past(es), cookie, at) && s.readyUntil.value == Later(at, s.durationUs);
      assert Timed(Roc(s.ifindex, cookie, s.frequency, true), at) in es;
    }
  }
}
