/** Consent to receive: the approvals shared by all connections, and the gate they put before uploads. */
module Consent {
  import opened Wrappers

  // Times are in nanoseconds of a clock that does not go back.
  const APPROVAL_TTL: nat := 120_000_000_000

  type Registry = map<nat, nat>

  function Elapsed(at: nat, now: nat): nat {
    if now >= at then now - at else 0
  }

  /** The clock as read for the entry of a peer, on the way to `now`. */
  function ReadFor(readings: map<nat, nat>, peer: nat, now: nat): nat {
    if peer in readings then readings[peer] else now
  }

  /** The clock is read for every entry before it is read for the new one. */
  predicate AreEarlier(readings: map<nat, nat>, now: nat) {
    forall p :: p in readings ==> readings[p] <= now
  }

  /** The registry after a grant: entries past their time go, the peer's entry is new. */
  function Granting(approvals: Registry, peer: nat, readings: map<nat, nat>, now: nat): Registry {
    var live := map p | p in approvals && Elapsed(approvals[p], ReadFor(readings, p, now)) < APPROVAL_TTL
                :: approvals[p];
    live[peer := now]
  }

  function Taking(approvals: Registry, peer: nat): Registry {
    approvals - {peer}
  }

  predicate IsLive(approvals: Registry, peer: nat, now: nat) {
    peer in approvals && Elapsed(approvals[peer], now) < APPROVAL_TTL
  }

  /** The registry behind its lock: each call is one critical section. */
  class Approvals {
    var entries: map<nat, nat>

    constructor ()
      ensures entries == map[]
    {
      entries := map[];
    }

    method Grant(peer: nat, readings: map<nat, nat>, now: nat)
      modifies this
      ensures entries == Granting(old(entries), peer, readings, now)
    {
      entries := map p | p in entries && Elapsed(entries[p], ReadFor(readings, p, now)) < APPROVAL_TTL :: entries[p];
      entries := entries[peer := now];
    }

    method Take(peer: nat, now: nat) returns (valid: bool)
      modifies this
      ensures entries == Taking(old(entries), peer)
      ensures valid == IsLive(old(entries), peer, now)
    {
      if peer in entries {
        var at := entries[peer];
        entries := entries - {peer};
        return Elapsed(at, now) < APPROVAL_TTL;
      }
      assert entries - {peer} == entries;
      return false;
    }
  }

  // ---- Connections, one step at a time ----

  datatype Phase = Reading | Asking | Receiving

  datatype Connection = Connection(peer: nat, phase: Phase)

  /** What happened, in the order of the critical sections. */
  datatype Entry =
    | Asked(connection: nat, peer: nat)
    | Granted(connection: nat, peer: nat, at: nat)
    | Attempted(connection: nat, peer: nat, at: nat, admitted: bool)

  datatype World = World(approvals: Registry, connections: map<nat, Connection>, log: seq<Entry>)

  /** The next thing one of the connections does. */
  datatype Op =
    | Open(connection: nat, peer: nat)
    | AskArrives(connection: nat)
    | AskApproved(connection: nat, readings: map<nat, nat>)
    | UploadArrives(connection: nat)
    | Served(connection: nat)
    | Close(connection: nat)

  datatype Timed = Timed(op: Op, now: nat)

  function Moved(w: World, c: nat, phase: Phase): map<nat, Connection>
    requires c in w.connections
  {
    w.connections[c := w.connections[c].(phase := phase)]
  }

  /** One step; a connection that is not where the step starts does nothing. */
  function Step(w: World, op: Op, now: nat, cleaning: bool): World {
    var c := op.connection;
    if op.Open? then
      if c in w.connections then w else w.(connections := w.connections[c := Connection(op.peer, Reading)])
    else if c !in w.connections then w
    else
      var peer, phase := w.connections[c].peer, w.connections[c].phase;
      match op
      case AskArrives(_) =>
        if phase != Reading then w
        else World(Taking(w.approvals, peer), Moved(w, c, Asking), w.log + [Asked(c, peer)])
      case AskApproved(_, readings) =>
        if phase != Asking then w
        else World(if cleaning then Granting(w.approvals, peer, readings, now) else w.approvals[peer := now],
                   Moved(w, c, Reading), w.log + [Granted(c, peer, now)])
      case UploadArrives(_) =>
        if phase != Reading then w
        else
          var admitted := IsLive(w.approvals, peer, now);
          World(Taking(w.approvals, peer), if admitted then Moved(w, c, Receiving) else w.connections - {c},
                w.log + [Attempted(c, peer, now, admitted)])
      case Served(_) => if phase != Receiving then w else w.(connections := Moved(w, c, Reading))
      case _ => w.(connections := w.connections - {c})
  }

  function Run(w: World, ops: seq<Timed>, cleaning: bool): World
    decreases |ops|
  {
    if ops == [] then w else Run(Step(w, ops[0].op, ops[0].now, cleaning), ops[1..], cleaning)
  }

  predicate NeverBack(ops: seq<Timed>, clock: nat) {
    ops == [] || (clock <= ops[0].now && IsTimely(ops[0].op, ops[0].now) && NeverBack(ops[1..], ops[0].now))
  }

  predicate IsTimely(op: Op, now: nat) {
    op.AskApproved? ==> AreEarlier(op.readings, now)
  }

  const START := World(map[], map[], [])

  // ---- The rule the gate should follow, from the log alone ----

  /** The last entry that matches. */
  function Last(log: seq<Entry>, matches: Entry -> bool): (e: Option<Entry>)
    ensures e.Some? ==> e.value in log && matches(e.value)
  {
    if log == [] then None
    else if matches(log[|log| - 1]) then Some(log[|log| - 1])
    else Last(log[..|log| - 1], matches)
  }

  function LastOf(log: seq<Entry>, peer: nat): Option<Entry> {
    Last(log, (e: Entry) => e.peer == peer)
  }

  function LastBy(log: seq<Entry>, connection: nat): Option<Entry> {
    Last(log, (e: Entry) => e.connection == connection)
  }

  /** An upload is allowed when the last thing the peer did was to be granted one, not too long ago. */
  predicate Allowed(log: seq<Entry>, peer: nat, now: nat) {
    var e := LastOf(log, peer);
    e.Some? && e.value.Granted? && Elapsed(e.value.at, now) < APPROVAL_TTL
  }

  /** Every attempt in the log was decided by the rule. */
  ghost predicate Ruled(log: seq<Entry>) {
    forall i :: 0 <= i < |log| && log[i].Attempted? ==> log[i].admitted == Allowed(log[..i], log[i].peer, log[i].at)
  }

  /** Every grant in the log answers an ask that is the last thing its connection did, by the same peer. */
  ghost predicate Answered(log: seq<Entry>) {
    forall i :: 0 <= i < |log| && log[i].Granted? ==>
                  LastBy(log[..i], log[i].connection) == Some(Asked(log[i].connection, log[i].peer))
  }

  /** The registry says of a peer what the log says, forgetting at most what no longer counts. */
  ghost predicate Tells(approvals: Registry, log: seq<Entry>, clock: nat, peer: nat) {
    var e := LastOf(log, peer);
    if peer in approvals then
      e.Some? && e.value.Granted? && e.value.at == approvals[peer] && approvals[peer] <= clock
    else
      e.Some? && e.value.Granted? ==> clock >= e.value.at + APPROVAL_TTL
  }

  ghost predicate Inv(w: World, clock: nat) {
    && (forall peer :: Tells(w.approvals, w.log, clock, peer))
    && (forall c :: c in w.connections && w.connections[c].phase.Asking?
                    ==> LastBy(w.log, c) == Some(Asked(c, w.connections[c].peer)))
    && Ruled(w.log) && Answered(w.log)
  }

  lemma LastSnoc(log: seq<Entry>, e: Entry, matches: Entry -> bool)
    ensures Last(log + [e], matches) == if matches(e) then Some(e) else Last(log, matches)
  {
    assert (log + [e])[..|log|] == log;
  }

  lemma LastOfSnoc(log: seq<Entry>, e: Entry, peer: nat, connection: nat)
    ensures LastOf(log + [e], peer) == if e.peer == peer then Some(e) else LastOf(log, peer)
    ensures LastBy(log + [e], connection) == if e.connection == connection then Some(e) else LastBy(log, connection)
  {
    LastSnoc(log, e, (x: Entry) => x.peer == peer);
    LastSnoc(log, e, (x: Entry) => x.connection == connection);
  }

  /** The log stays ruled when what is added to it is. */
  lemma LogGrows(log: seq<Entry>, e: Entry)
    requires Ruled(log) && Answered(log)
    requires e.Attempted? ==> e.admitted == Allowed(log, e.peer, e.at)
    requires e.Granted? ==> LastBy(log, e.connection) == Some(Asked(e.connection, e.peer))
    ensures Ruled(log + [e]) && Answered(log + [e])
  {
    var all := log + [e];
    assert all[..|log|] == log;
    forall i | 0 <= i < |log|
      ensures all[..i] == log[..i] && all[i] == log[i]
    {
    }
    hide Allowed, LastBy;
  }

  lemma TellsAfter(approvals: Registry, after: Registry, log: seq<Entry>, e: Entry,
                   readings: map<nat, nat>, clock: nat, now: nat)
    requires forall peer :: Tells(approvals, log, clock, peer)
    requires clock <= now && AreEarlier(readings, now)
    requires if e.Granted? then
               e.at == now && (after == Granting(approvals, e.peer, readings, now) || after == approvals[e.peer := now])
             else after == Taking(approvals, e.peer)
    ensures forall peer :: Tells(after, log + [e], now, peer)
  {
    forall peer ensures Tells(after, log + [e], now, peer) {
      LastOfSnoc(log, e, peer, 0);
      assert Tells(approvals, log, clock, peer);
      hide LastOf;
    }
  }

  lemma TellsLater(approvals: Registry, log: seq<Entry>, clock: nat, now: nat)
    requires forall peer :: Tells(approvals, log, clock, peer)
    requires clock <= now
    ensures forall peer :: Tells(approvals, log, now, peer)
  {
    forall peer ensures Tells(approvals, log, now, peer) {
      assert Tells(approvals, log, clock, peer);
    }
  }

  lemma AskingAfter(w: World, connections: map<nat, Connection>, e: Entry, clock: nat)
    requires Inv(w, clock)
    requires forall c :: c in connections && c != e.connection ==>
                           c in w.connections && connections[c] == w.connections[c]
    requires e.connection in connections && connections[e.connection].phase.Asking?
             ==> e == Asked(e.connection, connections[e.connection].peer)
    ensures forall c :: c in connections && connections[c].phase.Asking?
                        ==> LastBy(w.log + [e], c) == Some(Asked(c, connections[c].peer))
  {
    forall c | c in connections && connections[c].phase.Asking?
      ensures LastBy(w.log + [e], c) == Some(Asked(c, connections[c].peer))
    {
      LastOfSnoc(w.log, e, 0, c);
    }
  }

  lemma StepKeepsInv(w: World, op: Op, now: nat, cleaning: bool, clock: nat)
    requires Inv(w, clock) && clock <= now && IsTimely(op, now)
    ensures Inv(Step(w, op, now, cleaning), now)
  {
    var c := op.connection;
    var x := Step(w, op, now, cleaning);
    TellsLater(w.approvals, w.log, clock, now);
    if |x.log| != |w.log| {
      var peer := w.connections[c].peer;
      var e := x.log[|w.log|];
      assert x.log == w.log + [e];
      assert Tells(w.approvals, w.log, clock, peer) && Tells(w.approvals, w.log, now, peer);
      LogGrows(w.log, e);
      var readings := if op.AskApproved? then op.readings else map[];
      TellsAfter(w.approvals, x.approvals, w.log, e, readings, clock, now);
      AskingAfter(w, x.connections, e, clock);
      hide Ruled, Answered, Tells, LastOf, LastBy;
    } else {
      hide Ruled, Answered, Tells, LastOf, LastBy;
    }
  }

  lemma {:induction false} RunKeepsInv(w: World, ops: seq<Timed>, cleaning: bool, clock: nat) returns (last: nat)
    requires Inv(w, clock) && NeverBack(ops, clock)
    ensures Inv(Run(w, ops, cleaning), last)
    ensures last == if ops == [] then clock else ops[|ops| - 1].now
    decreases |ops|
  {
    if ops == [] {
      last := clock;
    } else {
      StepKeepsInv(w, ops[0].op, ops[0].now, cleaning, clock);
      hide Inv, Step;
      last := RunKeepsInv(Step(w, ops[0].op, ops[0].now, cleaning), ops[1..], cleaning, ops[0].now);
    }
  }

  /**
   * Whatever the connections do and in whatever order: an upload is admitted exactly when the last of its
   * peer's asks, grants and attempts is a grant less than two minutes old, and every grant answers the
   * open ask of its own connection.
   */
  lemma EveryRunIsRuled(ops: seq<Timed>, cleaning: bool)
    requires NeverBack(ops, 0)
    ensures Ruled(Run(START, ops, cleaning).log) && Answered(Run(START, ops, cleaning).log)
  {
    var last := RunKeepsInv(START, ops, cleaning, 0);
    assert Inv(Run(START, ops, cleaning), last);
  }

  /** The last entry that matches, and where it is. */
  lemma {:induction false} LastAt(log: seq<Entry>, matches: Entry -> bool) returns (j: nat)
    requires Last(log, matches).Some?
    ensures j < |log| && log[j] == Last(log, matches).value && matches(log[j])
    ensures forall k :: j < k < |log| ==> !matches(log[k])
  {
    if matches(log[|log| - 1]) {
      j := |log| - 1;
    } else {
      j := LastAt(log[..|log| - 1], matches);
    }
  }

  lemma TraceBack(log: seq<Entry>, i: nat) returns (ask: nat, grant: nat)
    requires Ruled(log) && Answered(log) && i < |log| && log[i].Attempted? && log[i].admitted
    ensures ask < grant < i && log[grant].Granted? && log[grant].peer == log[i].peer
    ensures Elapsed(log[grant].at, log[i].at) < APPROVAL_TTL
    ensures forall k :: grant < k < i ==> log[k].peer != log[i].peer
    ensures log[ask] == Asked(log[grant].connection, log[i].peer)
    ensures forall k :: ask < k < grant ==> log[k].connection != log[grant].connection
  {
    hide Last;
    var before := log[..i];
    assert Allowed(before, log[i].peer, log[i].at);
    grant := LastAt(before, (e: Entry) => e.peer == log[i].peer);
    assert log[grant] == before[grant];
    var earlier := log[..grant];
    assert LastBy(earlier, log[grant].connection) == Some(Asked(log[grant].connection, log[grant].peer));
    hide Ruled, Answered, Allowed;
    ask := LastAt(earlier, (e: Entry) => e.connection == log[grant].connection);
    assert forall k :: 0 <= k < i ==> log[k] == before[k];
    assert forall k :: 0 <= k < grant ==> log[k] == earlier[k];
  }

  /**
   * An admitted upload goes back to a grant of the same peer less than two minutes before it with no
   * ask, grant or attempt of that peer in between, and that grant to an ask of the same connection and peer.
   */
  lemma AdmittedIsApproved(ops: seq<Timed>, cleaning: bool, i: nat) returns (ask: nat, grant: nat)
    requires NeverBack(ops, 0)
    requires var log := Run(START, ops, cleaning).log; i < |log| && log[i].Attempted? && log[i].admitted
    ensures var log := Run(START, ops, cleaning).log;
            && ask < grant < i
            && log[grant].Granted? && log[grant].peer == log[i].peer
            && Elapsed(log[grant].at, log[i].at) < APPROVAL_TTL
            && (forall k :: grant < k < i ==> log[k].peer != log[i].peer)
            && log[ask] == Asked(log[grant].connection, log[i].peer)
            && (forall k :: ask < k < grant ==> log[k].connection != log[grant].connection)
  {
    EveryRunIsRuled(ops, cleaning);
    ask, grant := TraceBack(Run(START, ops, cleaning).log, i);
  }

  function Grants(log: seq<Entry>, peer: nat): nat {
    if log == [] then 0
    else Grants(log[..|log| - 1], peer) + if log[|log| - 1].Granted? && log[|log| - 1].peer == peer then 1 else 0
  }

  function Admissions(log: seq<Entry>, peer: nat): nat {
    if log == [] then 0
    else Admissions(log[..|log| - 1], peer)
         + if log[|log| - 1].Attempted? && log[|log| - 1].admitted && log[|log| - 1].peer == peer then 1 else 0
  }

  /** A grant is used at most once. */
  lemma {:induction false} UsedOnce(log: seq<Entry>, peer: nat)
    requires Ruled(log)
    ensures var open := LastOf(log, peer);
            Admissions(log, peer) + (if open.Some? && open.value.Granted? then 1 else 0) <= Grants(log, peer)
  {
    if log != [] {
      var before := log[..|log| - 1];
      assert Ruled(before) by {
        forall i | 0 <= i < |before| && before[i].Attempted?
          ensures before[i].admitted == Allowed(before[..i], before[i].peer, before[i].at)
        {
          assert before[..i] == log[..i] && before[i] == log[i];
        }
      }
      UsedOnce(before, peer);
    }
  }

  /** Admitted uploads and the outstanding grant of a peer are never more than its approved asks. */
  lemma NeverMoreThanGranted(ops: seq<Timed>, cleaning: bool, peer: nat)
    requires NeverBack(ops, 0)
    ensures var w := Run(START, ops, cleaning);
            Admissions(w.log, peer) + (if peer in w.approvals then 1 else 0) <= Grants(w.log, peer)
  {
    var last := RunKeepsInv(START, ops, cleaning, 0);
    var w := Run(START, ops, cleaning);
    assert Tells(w.approvals, w.log, last, peer);
    UsedOnce(w.log, peer);
  }

  /** Worlds a peer cannot tell apart. */
  predicate SameToPeers(w: World, v: World) {
    w.connections == v.connections && w.log == v.log
  }

  lemma LiveIsAllowed(w: World, clock: nat, peer: nat, now: nat)
    requires Inv(w, clock) && clock <= now
    ensures IsLive(w.approvals, peer, now) == Allowed(w.log, peer, now)
  {
    assert Tells(w.approvals, w.log, clock, peer);
  }

  lemma {:induction false} CleaningDoesNotShow(w: World, v: World, ops: seq<Timed>, clock: nat)
    requires Inv(w, clock) && Inv(v, clock) && SameToPeers(w, v) && NeverBack(ops, clock)
    ensures SameToPeers(Run(w, ops, true), Run(v, ops, false))
    decreases |ops|
  {
    if ops != [] {
      var op, now := ops[0].op, ops[0].now;
      if op.connection in w.connections {
        LiveIsAllowed(w, clock, w.connections[op.connection].peer, now);
        LiveIsAllowed(v, clock, w.connections[op.connection].peer, now);
      }
      StepKeepsInv(w, op, now, true, clock);
      StepKeepsInv(v, op, now, false, clock);
      hide Inv, IsLive, Allowed;
      assert SameToPeers(Step(w, op, now, true), Step(v, op, now, false));
      hide Step;
      CleaningDoesNotShow(Step(w, op, now, true), Step(v, op, now, false), ops[1..], now);
    }
  }

  /** Forgetting old entries when granting never changes a decision, nor anything else a peer can see. */
  lemma CleaningNeverMatters(ops: seq<Timed>)
    requires NeverBack(ops, 0)
    ensures SameToPeers(Run(START, ops, true), Run(START, ops, false))
  {
    CleaningDoesNotShow(START, START, ops, 0);
  }
}
