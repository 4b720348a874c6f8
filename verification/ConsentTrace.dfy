/** Consent read off what the connections do: which steps are logged, for which peer, and what they decide. */
module ConsentTrace {
  import opened Wrappers
  import opened Consent

  function WorldAt(ops: seq<Timed>, n: nat, cleaning: bool): World
    requires n <= |ops|
  {
    Run(START, ops[..n], cleaning)
  }

  function LogAt(ops: seq<Timed>, n: nat, cleaning: bool): seq<Entry>
    requires n <= |ops|
  {
    WorldAt(ops, n, cleaning).log
  }

  /** What step `n` adds to the log. */
  function Added(ops: seq<Timed>, n: nat, cleaning: bool): Option<Entry>
    requires n < |ops|
  {
    var before, after := LogAt(ops, n, cleaning), LogAt(ops, n + 1, cleaning);
    if |before| < |after| then Some(after[|before|]) else None
  }

  // ---- Connections, read off the steps ----

  predicate Opens(op: Op, c: nat) {
    op.Open? && op.connection == c
  }

  predicate Approves(op: Op, c: nat) {
    op.AskApproved? && op.connection == c
  }

  /** Step `n` ends connection `c`: it is closed, or its upload is refused. */
  predicate Ends(ops: seq<Timed>, n: nat, c: nat, cleaning: bool)
    requires n < |ops|
  {
    ops[n].op == Close(c)
    || (ops[n].op == UploadArrives(c) && Added(ops, n, cleaning).Some?
        && Added(ops, n, cleaning).value.Attempted? && !Added(ops, n, cleaning).value.admitted)
  }

  ghost predicate EndedSince(ops: seq<Timed>, q: nat, t: nat, c: nat, cleaning: bool)
    requires t <= |ops|
  {
    exists n: nat :: q < n < t && Ends(ops, n, c, cleaning)
  }

  /** Every opening of `c` before step `t` has been ended. */
  ghost predicate IsClosed(ops: seq<Timed>, t: nat, c: nat, cleaning: bool)
    requires t <= |ops|
  {
    forall q: nat :: q < t && Opens(ops[q].op, c) ==> EndedSince(ops, q, t, c, cleaning)
  }

  /** Step `o` opened `c`, and it has not been ended before step `t`. */
  ghost predicate InForce(ops: seq<Timed>, o: nat, t: nat, c: nat, cleaning: bool)
    requires t <= |ops|
  {
    && o < t && Opens(ops[o].op, c) && IsClosed(ops, o, c, cleaning)
    && forall n: nat :: o < n < t ==> !Ends(ops, n, c, cleaning)
  }

  ghost predicate OpenedBy(ops: seq<Timed>, t: nat, c: nat, peer: nat, cleaning: bool)
    requires t <= |ops|
  {
    exists o: nat :: InForce(ops, o, t, c, cleaning) && ops[o].op.peer == peer
  }

  /** Step `m` is an ask of `c` that was logged and is neither answered nor closed before step `t`. */
  ghost predicate Asks(ops: seq<Timed>, m: nat, t: nat, c: nat, cleaning: bool)
    requires t <= |ops|
  {
    && m < t && ops[m].op == AskArrives(c) && Added(ops, m, cleaning).Some?
    && forall n: nat :: m < n < t ==> ops[n].op != Close(c) && !Approves(ops[n].op, c)
  }

  ghost predicate HasAsk(ops: seq<Timed>, t: nat, c: nat, cleaning: bool)
    requires t <= |ops|
  {
    exists m: nat :: Asks(ops, m, t, c, cleaning)
  }

  /** Step `m` is an upload of `c` that was admitted and is neither served nor closed before step `t`. */
  ghost predicate Receives(ops: seq<Timed>, m: nat, t: nat, c: nat, cleaning: bool)
    requires t <= |ops|
  {
    && m < t && ops[m].op == UploadArrives(c) && Added(ops, m, cleaning).Some?
    && Added(ops, m, cleaning).value.Attempted? && Added(ops, m, cleaning).value.admitted
    && forall n: nat :: m < n < t ==> ops[n].op != Close(c) && ops[n].op != Served(c)
  }

  ghost predicate HasUpload(ops: seq<Timed>, t: nat, c: nat, cleaning: bool)
    requires t <= |ops|
  {
    exists m: nat :: Receives(ops, m, t, c, cleaning)
  }

  /** Nothing asked or uploaded on `c` is still to be answered or served. */
  ghost predicate IsFree(ops: seq<Timed>, t: nat, c: nat, cleaning: bool)
    requires t <= |ops|
  {
    !HasAsk(ops, t, c, cleaning) && !HasUpload(ops, t, c, cleaning)
  }

  /** The last entry of the peer is a grant less than two minutes old. */
  ghost predicate Approved(log: seq<Entry>, peer: nat, now: nat) {
    exists i :: 0 <= i < |log| && IsLastOf(log, i, peer) && log[i].Granted? && now < log[i].at + 120_000_000_000
  }

  ghost predicate IsLastOf(log: seq<Entry>, i: nat, peer: nat)
    requires i < |log|
  {
    log[i].peer == peer && forall k :: i < k < |log| ==> log[k].peer != peer
  }

  /** What step `t` should add to the log when `peer` opened its connection. */
  ghost function Due(ops: seq<Timed>, t: nat, peer: nat, cleaning: bool): Option<Entry>
    requires t < |ops|
  {
    var c, now := ops[t].op.connection, ops[t].now;
    match ops[t].op
    case AskArrives(_) => if IsFree(ops, t, c, cleaning) then Some(Asked(c, peer)) else None
    case AskApproved(_, _) => if HasAsk(ops, t, c, cleaning) then Some(Granted(c, peer, now)) else None
    case UploadArrives(_) =>
      if IsFree(ops, t, c, cleaning) then Some(Attempted(c, peer, now, Approved(LogAt(ops, t, cleaning), peer, now)))
      else None
    case _ => None
  }

  // ---- One step at a time ----

  lemma {:induction false} RunSnoc(w: World, ops: seq<Timed>, t: Timed, cleaning: bool)
    ensures Run(w, ops + [t], cleaning) == Step(Run(w, ops, cleaning), t.op, t.now, cleaning)
    decreases |ops|
  {
    hide Step;
    if ops == [] {
      var none: seq<Timed> := [];
      assert ops + [t] == [t] && [t][1..] == none;
    } else {
      assert (ops + [t])[0] == ops[0] && (ops + [t])[1..] == ops[1..] + [t];
      RunSnoc(Step(w, ops[0].op, ops[0].now, cleaning), ops[1..], t, cleaning);
    }
  }

  lemma WorldStep(ops: seq<Timed>, n: nat, cleaning: bool)
    requires n < |ops|
    ensures WorldAt(ops, n + 1, cleaning) == Step(WorldAt(ops, n, cleaning), ops[n].op, ops[n].now, cleaning)
  {
    hide Step, Run;
    assert ops[..n + 1] == ops[..n] + [ops[n]];
    RunSnoc(START, ops[..n], ops[n], cleaning);
  }

  lemma AddedIs(ops: seq<Timed>, n: nat, cleaning: bool)
    requires n < |ops|
    ensures var w, op, now := WorldAt(ops, n, cleaning), ops[n].op, ops[n].now;
            var c := op.connection;
            Added(ops, n, cleaning) ==
            if c !in w.connections then None
            else
              var k := w.connections[c];
              if op.AskArrives? && k.phase.Reading? then Some(Asked(c, k.peer))
              else if op.AskApproved? && k.phase.Asking? then Some(Granted(c, k.peer, now))
              else if op.UploadArrives? && k.phase.Reading? then
                Some(Attempted(c, k.peer, now, IsLive(w.approvals, k.peer, now)))
              else None
    ensures LogAt(ops, n + 1, cleaning) ==
            LogAt(ops, n, cleaning) + if Added(ops, n, cleaning).Some? then [Added(ops, n, cleaning).value] else []
  {
    WorldStep(ops, n, cleaning);
    hide Run, WorldAt, Granting, IsLive, Taking;
  }

  lemma EndedNext(ops: seq<Timed>, t: nat, q: nat, c: nat, cleaning: bool)
    requires q < t < |ops|
    ensures EndedSince(ops, q, t + 1, c, cleaning) <==>
            Ends(ops, t, c, cleaning) || EndedSince(ops, q, t, c, cleaning)
  {
    hide Ends;
  }

  lemma ClosedNext(ops: seq<Timed>, t: nat, c: nat, cleaning: bool)
    requires t < |ops|
    ensures IsClosed(ops, t + 1, c, cleaning) <==>
            Ends(ops, t, c, cleaning) || (IsClosed(ops, t, c, cleaning) && !Opens(ops[t].op, c))
  {
    if Ends(ops, t, c, cleaning) {
      assert !Opens(ops[t].op, c);
    }
    hide Ends, Opens, EndedSince;
    forall q: nat | q < t
      ensures EndedSince(ops, q, t + 1, c, cleaning) <==>
              Ends(ops, t, c, cleaning) || EndedSince(ops, q, t, c, cleaning)
    {
      EndedNext(ops, t, q, c, cleaning);
    }
  }

  lemma OpenedNext(ops: seq<Timed>, t: nat, c: nat, peer: nat, cleaning: bool)
    requires t < |ops|
    ensures OpenedBy(ops, t + 1, c, peer, cleaning) <==>
            || (OpenedBy(ops, t, c, peer, cleaning) && !Ends(ops, t, c, cleaning))
            || (ops[t].op == Open(c, peer) && IsClosed(ops, t, c, cleaning))
  {
    hide Ends, IsClosed;
    if OpenedBy(ops, t, c, peer, cleaning) && !Ends(ops, t, c, cleaning) {
      var o: nat :| InForce(ops, o, t, c, cleaning) && ops[o].op.peer == peer;
      assert InForce(ops, o, t + 1, c, cleaning);
    }
    if ops[t].op == Open(c, peer) && IsClosed(ops, t, c, cleaning) {
      assert InForce(ops, t, t + 1, c, cleaning);
    }
    if OpenedBy(ops, t + 1, c, peer, cleaning) {
      var o: nat :| InForce(ops, o, t + 1, c, cleaning) && ops[o].op.peer == peer;
      if o < t {
        assert InForce(ops, o, t, c, cleaning);
      }
    }
  }

  lemma AskNext(ops: seq<Timed>, t: nat, c: nat, cleaning: bool)
    requires t < |ops|
    ensures HasAsk(ops, t + 1, c, cleaning) <==>
            || (HasAsk(ops, t, c, cleaning) && ops[t].op != Close(c) && !Approves(ops[t].op, c))
            || (ops[t].op == AskArrives(c) && Added(ops, t, cleaning).Some?)
  {
    hide Added, Approves;
    if HasAsk(ops, t, c, cleaning) && ops[t].op != Close(c) && !Approves(ops[t].op, c) {
      var m: nat :| Asks(ops, m, t, c, cleaning);
      assert Asks(ops, m, t + 1, c, cleaning);
    }
    if ops[t].op == AskArrives(c) && Added(ops, t, cleaning).Some? {
      assert Asks(ops, t, t + 1, c, cleaning);
    }
    if HasAsk(ops, t + 1, c, cleaning) {
      var m: nat :| Asks(ops, m, t + 1, c, cleaning);
      assert m < t ==> Asks(ops, m, t, c, cleaning);
    }
  }

  lemma UploadNext(ops: seq<Timed>, t: nat, c: nat, cleaning: bool)
    requires t < |ops|
    ensures HasUpload(ops, t + 1, c, cleaning) <==>
            || (HasUpload(ops, t, c, cleaning) && ops[t].op != Close(c) && ops[t].op != Served(c))
            || (ops[t].op == UploadArrives(c) && Added(ops, t, cleaning).Some?
                && Added(ops, t, cleaning).value.Attempted? && Added(ops, t, cleaning).value.admitted)
  {
    hide Added;
    if HasUpload(ops, t, c, cleaning) && ops[t].op != Close(c) && ops[t].op != Served(c) {
      var m: nat :| Receives(ops, m, t, c, cleaning);
      assert Receives(ops, m, t + 1, c, cleaning);
    }
    if ops[t].op == UploadArrives(c) && Added(ops, t, cleaning).Some?
      && Added(ops, t, cleaning).value.Attempted? && Added(ops, t, cleaning).value.admitted {
      assert Receives(ops, t, t + 1, c, cleaning);
    }
    if HasUpload(ops, t + 1, c, cleaning) {
      var m: nat :| Receives(ops, m, t + 1, c, cleaning);
      assert m < t ==> Receives(ops, m, t, c, cleaning);
    }
  }

  // ---- What the program knows of a connection is what the steps say ----

  ghost predicate IsTracked(ops: seq<Timed>, t: nat, c: nat, cleaning: bool)
    requires t <= |ops|
  {
    var conns := WorldAt(ops, t, cleaning).connections;
    && (c in conns <==> !IsClosed(ops, t, c, cleaning))
    && (c in conns ==> OpenedBy(ops, t, c, conns[c].peer, cleaning))
    && (HasAsk(ops, t, c, cleaning) <==> c in conns && conns[c].phase.Asking?)
    && (HasUpload(ops, t, c, cleaning) <==> c in conns && conns[c].phase.Receiving?)
  }

  /** A step of another connection leaves this one as it is. */
  lemma TrackedPast(ops: seq<Timed>, t: nat, c: nat, cleaning: bool)
    requires t < |ops| && IsTracked(ops, t, c, cleaning) && ops[t].op.connection != c
    ensures IsTracked(ops, t + 1, c, cleaning)
  {
    var w := WorldAt(ops, t, cleaning);
    WorldStep(ops, t, cleaning);
    ClosedNext(ops, t, c, cleaning);
    AskNext(ops, t, c, cleaning);
    UploadNext(ops, t, c, cleaning);
    if c in w.connections {
      OpenedNext(ops, t, c, w.connections[c].peer, cleaning);
    }
    hide Added, WorldAt, LogAt, IsClosed, OpenedBy, HasAsk, HasUpload, Granting, Taking, IsLive;
  }

  lemma TrackedStep(ops: seq<Timed>, t: nat, c: nat, cleaning: bool)
    requires t < |ops| && IsTracked(ops, t, c, cleaning) && ops[t].op.connection == c
    ensures IsTracked(ops, t + 1, c, cleaning)
  {
    var w, op := WorldAt(ops, t, cleaning), ops[t].op;
    AddedIs(ops, t, cleaning);
    WorldStep(ops, t, cleaning);
    ClosedNext(ops, t, c, cleaning);
    AskNext(ops, t, c, cleaning);
    UploadNext(ops, t, c, cleaning);
    var peer := if c in w.connections then w.connections[c].peer else if op.Open? then op.peer else 0;
    OpenedNext(ops, t, c, peer, cleaning);
    hide Added, WorldAt, LogAt, IsClosed, OpenedBy, HasAsk, HasUpload, Granting, Taking, IsLive, Run;
  }

  lemma {:induction false} AllTracked(ops: seq<Timed>, t: nat, c: nat, cleaning: bool)
    requires t <= |ops|
    ensures IsTracked(ops, t, c, cleaning)
    decreases t
  {
    if t == 0 {
      var none: seq<Timed> := [];
      assert ops[..0] == none;
      hide Added, Ends;
    } else {
      AllTracked(ops, t - 1, c, cleaning);
      if ops[t - 1].op.connection == c {
        TrackedStep(ops, t - 1, c, cleaning);
      } else {
        TrackedPast(ops, t - 1, c, cleaning);
      }
    }
  }

  lemma OneOpening(ops: seq<Timed>, t: nat, c: nat, cleaning: bool)
    requires t <= |ops|
    ensures forall o: nat, p: nat :: InForce(ops, o, t, c, cleaning) && InForce(ops, p, t, c, cleaning) ==> o == p
    ensures IsClosed(ops, t, c, cleaning) ==> forall o: nat :: !InForce(ops, o, t, c, cleaning)
  {
    hide Ends;
  }

  // ---- The log, read off the steps ----

  lemma ApprovedIff(log: seq<Entry>, peer: nat, now: nat)
    ensures Allowed(log, peer, now) <==> Approved(log, peer, now)
  {
    var e := LastOf(log, peer);
    if e.Some? {
      var j := LastAt(log, (x: Entry) => x.peer == peer);
      assert IsLastOf(log, j, peer);
    } else {
      NoneOf(log, peer);
    }
    hide Last, LastOf;
  }

  lemma {:induction false} NoneOf(log: seq<Entry>, peer: nat)
    requires LastOf(log, peer).None?
    ensures forall i :: 0 <= i < |log| ==> log[i].peer != peer
  {
    if log != [] {
      NoneOf(log[..|log| - 1], peer);
      assert forall i :: 0 <= i < |log| - 1 ==> log[i] == log[..|log| - 1][i];
    }
  }

  lemma {:induction false} NeverBackPrefix(ops: seq<Timed>, clock: nat, n: nat)
    requires n <= |ops| && NeverBack(ops, clock)
    ensures NeverBack(ops[..n], clock)
    ensures forall i :: 0 <= i < |ops| ==> clock <= ops[i].now
    ensures forall i, j :: 0 <= i < j < |ops| ==> ops[i].now <= ops[j].now
    decreases |ops|
  {
    if ops != [] {
      NeverBackPrefix(ops[1..], ops[0].now, if n > 0 then n - 1 else 0);
      assert forall i :: 0 < i < |ops| ==> ops[i] == ops[1..][i - 1];
      if n > 0 {
        assert ops[..n][0] == ops[0] && ops[..n][1..] == ops[1..][..n - 1];
      }
    }
  }

  lemma LiveIsApproved(ops: seq<Timed>, t: nat, peer: nat, cleaning: bool)
    requires NeverBack(ops, 0) && t < |ops|
    ensures IsLive(WorldAt(ops, t, cleaning).approvals, peer, ops[t].now)
            <==> Approved(LogAt(ops, t, cleaning), peer, ops[t].now)
  {
    NeverBackPrefix(ops, 0, t);
    NeverBackPrefix(ops, 0, t + 1);
    var last := LastClockKeepsInv(ops[..t], cleaning, ops[t].now);
    LiveIsAllowed(WorldAt(ops, t, cleaning), last, peer, ops[t].now);
    ApprovedIff(LogAt(ops, t, cleaning), peer, ops[t].now);
    hide Inv, Run, IsLive, Allowed, Approved;
  }

  /** The invariant at a clock that is not past the next step's. */
  lemma LastClockKeepsInv(ops: seq<Timed>, cleaning: bool, now: nat) returns (last: nat)
    requires NeverBack(ops, 0) && forall i :: 0 <= i < |ops| ==> ops[i].now <= now
    ensures Inv(Run(START, ops, cleaning), last) && last <= now
  {
    last := RunKeepsInv(START, ops, cleaning, 0);
  }

  /**
   * The log is determined by what the connections do: an ask or an upload is logged exactly when its connection
   * is open and nothing on it is to be answered or served, an approval exactly when an ask is, always under the
   * peer that opened the connection; and an upload is admitted exactly when the last entry of that peer is a grant
   * less than two minutes old.
   */
  lemma LogIsDetermined(ops: seq<Timed>, t: nat, cleaning: bool)
    requires NeverBack(ops, 0) && t < |ops|
    ensures forall peer :: OpenedBy(ops, t, ops[t].op.connection, peer, cleaning) ==>
                             Added(ops, t, cleaning) == Due(ops, t, peer, cleaning)
    ensures IsClosed(ops, t, ops[t].op.connection, cleaning) ==> Added(ops, t, cleaning) == None
    ensures LogAt(ops, t + 1, cleaning) ==
            LogAt(ops, t, cleaning) + if Added(ops, t, cleaning).Some? then [Added(ops, t, cleaning).value] else []
  {
    var c, w := ops[t].op.connection, WorldAt(ops, t, cleaning);
    AddedIs(ops, t, cleaning);
    AllTracked(ops, t, c, cleaning);
    OneOpening(ops, t, c, cleaning);
    if c in w.connections {
      LiveIsApproved(ops, t, w.connections[c].peer, cleaning);
    }
    hide Added, WorldAt, LogAt, IsClosed, InForce, HasAsk, HasUpload, IsLive, Approved, NeverBack, Run;
  }

  /** The step that put entry `i` in the log; later steps only put later entries there. */
  lemma {:induction false} StepOfEntry(ops: seq<Timed>, t: nat, i: nat, cleaning: bool) returns (n: nat)
    requires t <= |ops| && i < |LogAt(ops, t, cleaning)|
    ensures n < t && |LogAt(ops, n, cleaning)| == i && Added(ops, n, cleaning) == Some(LogAt(ops, t, cleaning)[i])
    ensures LogAt(ops, n, cleaning) == LogAt(ops, t, cleaning)[..i]
    ensures forall m: nat :: n < m < t && Added(ops, m, cleaning).Some? ==>
                               exists k :: i < k < |LogAt(ops, t, cleaning)|
                                           && LogAt(ops, t, cleaning)[k] == Added(ops, m, cleaning).value
    decreases t
  {
    hide Run, Inv;
    if t == 0 {
      NothingLogged(ops, cleaning);
    } else {
      AddedIs(ops, t - 1, cleaning);
      var before, after := LogAt(ops, t - 1, cleaning), LogAt(ops, t, cleaning);
      hide WorldAt, LogAt;
      if i < |before| {
        n := StepOfEntry(ops, t - 1, i, cleaning);
        assert after[..i] == before[..i];
        forall m: nat | n < m < t && Added(ops, m, cleaning).Some?
          ensures exists k :: i < k < |after| && after[k] == Added(ops, m, cleaning).value
        {
          if m < t - 1 {
            var k :| i < k < |before| && before[k] == Added(ops, m, cleaning).value;
            assert after[k] == before[k];
          } else {
            assert after[|before|] == Added(ops, m, cleaning).value;
          }
        }
      } else {
        n := t - 1;
        assert after[..i] == before;
      }
    }
  }

  lemma NothingLogged(ops: seq<Timed>, cleaning: bool)
    ensures LogAt(ops, 0, cleaning) == []
  {
    var none: seq<Timed> := [];
    assert ops[..0] == none;
  }

  /** An open ask was made after its connection was opened. */
  lemma AskAfterOpening(ops: seq<Timed>, o: nat, a: nat, t: nat, c: nat, cleaning: bool)
    requires t <= |ops| && InForce(ops, o, t, c, cleaning) && Asks(ops, a, t, c, cleaning)
    ensures o < a && ops[o].op.Open? && InForce(ops, o, a, c, cleaning)
  {
    if a < o {
      assert Asks(ops, a, o, c, cleaning);
      AllTracked(ops, o, c, cleaning);
    }
    hide Ends, Added, IsClosed;
  }

  /**
   * An admitted upload, all in terms of the steps: the peer that opened its connection was granted an ask on a
   * connection it opened, perhaps another, less than two minutes before, and nothing of that peer was logged since.
   */
  lemma AdmittedIsAsked(ops: seq<Timed>, t: nat, cleaning: bool) returns (o: nat, grant: nat, ask: nat, d: nat)
    requires NeverBack(ops, 0) && t < |ops| && ops[t].op.UploadArrives?
    requires var e := Added(ops, t, cleaning); e.Some? && e.value.Attempted? && e.value.admitted
    ensures o < t && ops[o].op.Open? && InForce(ops, o, t, ops[t].op.connection, cleaning)
    ensures d < ask < grant < t && ops[grant].op.AskApproved?
    ensures ops[ask].op == AskArrives(ops[grant].op.connection)
    ensures InForce(ops, d, grant, ops[grant].op.connection, cleaning)
    ensures ops[d].op.Open? && ops[d].op.peer == ops[o].op.peer
    ensures Asks(ops, ask, grant, ops[grant].op.connection, cleaning)
    ensures ops[grant].now <= ops[t].now < ops[grant].now + 120_000_000_000
    ensures forall n: nat :: grant < n < t && Added(ops, n, cleaning).Some? ==>
                               Added(ops, n, cleaning).value.peer != ops[o].op.peer
  {
    hide Added, LogAt, InForce, HasUpload, IsClosed, NeverBack, Asks;
    var c, log := ops[t].op.connection, LogAt(ops, t, cleaning);
    LogIsDetermined(ops, t, cleaning);
    AllTracked(ops, t, c, cleaning);
    var peer := Added(ops, t, cleaning).value.peer;
    o := OpeningOf(ops, t, c, cleaning);
    assert peer == ops[o].op.peer;
    var i :| 0 <= i < |log| && IsLastOf(log, i, peer) && log[i].Granted? && ops[t].now < log[i].at + 120_000_000_000;
    grant := StepOfEntry(ops, t, i, cleaning);
    LogIsDetermined(ops, grant, cleaning);
    AllTracked(ops, grant, ops[grant].op.connection, cleaning);
    d := OpeningOf(ops, grant, ops[grant].op.connection, cleaning);
    ask :| Asks(ops, ask, grant, ops[grant].op.connection, cleaning);
    AskAfterOpening(ops, d, ask, grant, ops[grant].op.connection, cleaning);
    AskIs(ops, ask, grant, ops[grant].op.connection, cleaning);
    NeverBackPrefix(ops, 0, 0);
  }

  lemma OpeningOf(ops: seq<Timed>, t: nat, c: nat, cleaning: bool) returns (o: nat)
    requires t <= |ops| && !IsClosed(ops, t, c, cleaning) && IsTracked(ops, t, c, cleaning)
    ensures o < t && InForce(ops, o, t, c, cleaning) && ops[o].op.Open? && OpenedBy(ops, t, c, ops[o].op.peer, cleaning)
  {
    hide IsClosed, Ends, Added, WorldAt;
    o :| InForce(ops, o, t, c, cleaning);
  }

  lemma AskIs(ops: seq<Timed>, m: nat, t: nat, c: nat, cleaning: bool)
    requires t <= |ops| && Asks(ops, m, t, c, cleaning)
    ensures m < t && ops[m].op == AskArrives(c)
  {
  }
}
