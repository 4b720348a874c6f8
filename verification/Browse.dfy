/** Turning repeated service resolutions into a stream of changes of the list of peers. */
module Browse {

  datatype Peer = Peer(name: string, addresses: seq<nat>, port: nat)

  /** What the discovery stream gives: a resolution, a removal, anything else or nothing yet, or its end. */
  datatype Receipt = Resolved(peer: Peer) | Removed(name: string) | Nothing | Disconnected

  datatype Event = Started | Found(peer: Peer) | Lost(name: string)

  type Rows = map<string, Peer>

  function AddressSet(p: Peer): set<nat> {
    set a | a in p.addresses
  }

  /** Two resolutions that a list of peers shows alike. */
  predicate ShowsAlike(p: Peer, q: Peer) {
    p.port == q.port && AddressSet(p) == AddressSet(q)
  }

  predicate IsNewOrChanged(known: Rows, peer: Peer) {
    peer.name !in known || !ShowsAlike(known[peer.name], peer)
  }

  // ---- The loop as functions ----

  function Known(known: Rows, inputs: seq<Receipt>): Rows
    decreases |inputs|
  {
    if inputs == [] || inputs[0].Disconnected? then known
    else
      match inputs[0]
      case Resolved(peer) =>
        Known(if IsNewOrChanged(known, peer) then known[peer.name := peer] else known, inputs[1..])
      case Removed(name) => Known(known - {name}, inputs[1..])
      case Nothing => Known(known, inputs[1..])
  }

  function Changes(known: Rows, inputs: seq<Receipt>): seq<Event>
    decreases |inputs|
  {
    if inputs == [] || inputs[0].Disconnected? then []
    else
      match inputs[0]
      case Resolved(peer) =>
        if IsNewOrChanged(known, peer) then [Found(peer)] + Changes(known[peer.name := peer], inputs[1..])
        else Changes(known, inputs[1..])
      case Removed(name) =>
        (if name in known then [Lost(name)] else []) + Changes(known - {name}, inputs[1..])
      case Nothing => Changes(known, inputs[1..])
  }

  /** The list a consumer of the events shows. */
  function Replay(rows: Rows, events: seq<Event>): Rows
    decreases |events|
  {
    if events == [] then rows
    else
      match events[0]
      case Started => Replay(map[], events[1..])
      case Found(peer) => Replay(rows[peer.name := peer], events[1..])
      case Lost(name) => Replay(rows - {name}, events[1..])
  }

  /** Every event changes what is shown: no row is found as it was, or lost when it is not there. */
  predicate EachMatters(rows: Rows, events: seq<Event>)
    decreases |events|
  {
    events == [] ||
    match events[0]
    case Started => false
    case Found(peer) => IsNewOrChanged(rows, peer) && EachMatters(rows[peer.name := peer], events[1..])
    case Lost(name) => name in rows && EachMatters(rows - {name}, events[1..])
  }

  /** The removals at the end: every row once, in some order. */
  function Losses(names: seq<string>): seq<Event> {
    if names == [] then [] else [Lost(names[0])] + Losses(names[1..])
  }

  /** The names in `s`, each once. */
  ghost predicate IsListing(names: seq<string>, s: set<string>) {
    (forall i, j :: 0 <= i < j < |names| ==> names[i] != names[j]) && (forall n :: n in s <==> n in names)
  }

  /** The events of a whole session: the reset, the changes, and a loss for every row left, in some order. */
  ghost predicate IsSession(events: seq<Event>, inputs: seq<Receipt>) {
    exists names :: IsListing(names, Known(map[], inputs).Keys)
                    && events == [Started] + Changes(map[], inputs) + Losses(names)
  }

  // ---- The loop ----

  method BrowseLoop(inputs: seq<Receipt>) returns (events: seq<Event>)
    ensures IsSession(events, inputs)
  {
    var known: map<string, Peer> := map[];
    events := [Started];
    var i := 0;
    while i < |inputs|
      invariant i <= |inputs|
      invariant events + Changes(known, inputs[i..]) == [Started] + Changes(map[], inputs)
      invariant Known(known, inputs[i..]) == Known(map[], inputs)
    {
      ghost var rest := inputs[i..];
      assert rest[1..] == inputs[i + 1..];
      match inputs[i] {
        case Resolved(peer) =>
          if IsNewOrChanged(known, peer) {
            known := known[peer.name := peer];
            Joined(events, Found(peer), Changes(known, inputs[i + 1..]));
            events := events + [Found(peer)];
          }
        case Removed(name) =>
          if name in known {
            known := known - {name};
            Joined(events, Lost(name), Changes(known, inputs[i + 1..]));
            events := events + [Lost(name)];
          } else {
            assert known - {name} == known;
          }
        case Nothing =>
        case Disconnected => break;
      }
      i := i + 1;
    }
    ghost var before := events;
    assert before == [Started] + Changes(map[], inputs);
    ghost var names: seq<string> := [];
    var left := known.Keys;
    while left != {}
      invariant IsListing(names, known.Keys - left) && left <= known.Keys
      invariant events == before + Losses(names)
      decreases |left|
    {
      var name :| name in left;
      left := left - {name};
      LossesSnoc(names, name);
      events := events + [Lost(name)];
      names := names + [name];
    }
    assert known.Keys - left == known.Keys;
  }

  lemma Joined(events: seq<Event>, e: Event, rest: seq<Event>)
    ensures events + ([e] + rest) == events + [e] + rest
  {
  }

  lemma {:induction false} LossesSnoc(names: seq<string>, name: string)
    ensures Losses(names + [name]) == Losses(names) + [Lost(name)]
  {
    if names == [] {
      assert names + [name] == [name];
    } else {
      assert (names + [name])[1..] == names[1..] + [name];
      LossesSnoc(names[1..], name);
    }
  }

  // ---- What the stream says ----

  /** The latest resolution of each name since its last removal. */
  function Latest(rows: Rows, inputs: seq<Receipt>): Rows
    decreases |inputs|
  {
    if inputs == [] || inputs[0].Disconnected? then rows
    else
      match inputs[0]
      case Resolved(peer) => Latest(rows[peer.name := peer], inputs[1..])
      case Removed(name) => Latest(rows - {name}, inputs[1..])
      case Nothing => Latest(rows, inputs[1..])
  }

  /** The same port, and the same addresses in whatever order and however often. */
  ghost predicate SamePlace(p: Peer, q: Peer) {
    p.port == q.port && forall a :: a in p.addresses <==> a in q.addresses
  }

  lemma AlikeIsSamePlace(p: Peer, q: Peer)
    ensures ShowsAlike(p, q) <==> SamePlace(p, q)
  {
    var s, t := AddressSet(p), AddressSet(q);
    assert forall a :: (a in s <==> a in p.addresses) && (a in t <==> a in q.addresses);
    if SamePlace(p, q) {
      assert forall a :: a in s <==> a in t;
    }
  }

  ghost predicate AreAlike(r: Rows, s: Rows) {
    r.Keys == s.Keys && forall n :: n in r ==> SamePlace(r[n], s[n])
  }

  /** The loop knows, of every name, the latest resolution or one that shows alike. */
  lemma {:induction false} KnownIsLatest(known: Rows, rows: Rows, inputs: seq<Receipt>)
    requires AreAlike(known, rows)
    ensures AreAlike(Known(known, inputs), Latest(rows, inputs))
    decreases |inputs|
  {
    if inputs != [] && !inputs[0].Disconnected? {
      match inputs[0] {
        case Resolved(peer) =>
          var next := if IsNewOrChanged(known, peer) then known[peer.name := peer] else known;
          if peer.name in known {
            AlikeIsSamePlace(known[peer.name], peer);
          }
          assert AreAlike(next, rows[peer.name := peer]);
          KnownIsLatest(next, rows[peer.name := peer], inputs[1..]);
        case Removed(name) =>
          assert AreAlike(known - {name}, rows - {name});
          KnownIsLatest(known - {name}, rows - {name}, inputs[1..]);
        case Nothing => KnownIsLatest(known, rows, inputs[1..]);
      }
    }
  }

  /** Replaying the changes shows what the loop knows, and every change matters. */
  lemma {:induction false} ReplayIsKnown(known: Rows, inputs: seq<Receipt>)
    ensures Replay(known, Changes(known, inputs)) == Known(known, inputs)
    ensures EachMatters(known, Changes(known, inputs))
    decreases |inputs|
  {
    if inputs != [] && !inputs[0].Disconnected? {
      var rest := inputs[1..];
      match inputs[0] {
        case Resolved(peer) =>
          if IsNewOrChanged(known, peer) {
            assert Changes(known, inputs)[1..] == Changes(known[peer.name := peer], rest);
            ReplayIsKnown(known[peer.name := peer], rest);
          } else {
            ReplayIsKnown(known, rest);
          }
        case Removed(name) =>
          ReplayIsKnown(known - {name}, rest);
          if name in known {
            assert Changes(known, inputs)[1..] == Changes(known - {name}, rest);
          } else {
            assert known - {name} == known;
            assert Changes(known, inputs) == Changes(known - {name}, rest);
          }
        case Nothing => ReplayIsKnown(known, rest);
      }
    }
  }

  /** More receipts only add changes. */
  lemma {:induction false} ChangesGrow(known: Rows, inputs: seq<Receipt>, n: nat)
    requires n <= |inputs|
    ensures Changes(known, inputs[..n]) <= Changes(known, inputs)
    decreases n
  {
    if n > 0 && !inputs[0].Disconnected? {
      var rest := inputs[1..];
      assert inputs[..n][1..] == rest[..n - 1];
      match inputs[0] {
        case Resolved(peer) =>
          ChangesGrow(if IsNewOrChanged(known, peer) then known[peer.name := peer] else known, rest, n - 1);
        case Removed(name) => ChangesGrow(known - {name}, rest, n - 1);
        case Nothing => ChangesGrow(known, rest, n - 1);
      }
    }
  }

  /**
   * After any number of receipts, the events so far show a consumer of the stream exactly what the loop
   * knows, which is the latest state of every peer; every event matters; the later events only continue them.
   */
  lemma EveryStepIsFaithful(inputs: seq<Receipt>, n: nat)
    requires n <= |inputs|
    ensures Replay(map[], Changes(map[], inputs[..n])) == Known(map[], inputs[..n])
    ensures AreAlike(Replay(map[], Changes(map[], inputs[..n])), Latest(map[], inputs[..n]))
    ensures EachMatters(map[], Changes(map[], inputs[..n])) && Changes(map[], inputs[..n]) <= Changes(map[], inputs)
  {
    ReplayIsKnown(map[], inputs[..n]);
    KnownIsLatest(map[], map[], inputs[..n]);
    ChangesGrow(map[], inputs, n);
  }

  lemma {:induction false} ReplayParts(rows: Rows, a: seq<Event>, b: seq<Event>)
    ensures Replay(rows, a + b) == Replay(Replay(rows, a), b)
    ensures EachMatters(rows, a) && EachMatters(Replay(rows, a), b) ==> EachMatters(rows, a + b)
    decreases |a|
  {
    if a == [] {
      assert a + b == b;
    } else {
      assert (a + b)[1..] == a[1..] + b;
      match a[0] {
        case Started => ReplayParts(map[], a[1..], b);
        case Found(peer) => ReplayParts(rows[peer.name := peer], a[1..], b);
        case Lost(name) => ReplayParts(rows - {name}, a[1..], b);
      }
    }
  }

  lemma {:induction false} LossesEmpty(rows: Rows, names: seq<string>)
    requires IsListing(names, rows.Keys)
    ensures Replay(rows, Losses(names)) == map[] && EachMatters(rows, Losses(names))
    decreases |names|
  {
    if names == [] {
      assert rows.Keys == {};
    } else {
      var rest := names[1..];
      assert IsListing(rest, (rows - {names[0]}).Keys) by {
        assert forall n :: n in names <==> n == names[0] || n in rest;
      }
      assert names[0] in rows;
      LossesEmpty(rows - {names[0]}, rest);
      assert Losses(names)[1..] == Losses(rest);
    }
  }

  /** A whole session: the reset comes first, every later event matters, and the list ends empty. */
  lemma SessionEndsEmpty(events: seq<Event>, inputs: seq<Receipt>)
    requires IsSession(events, inputs)
    ensures events != [] && events[0] == Started
    ensures EachMatters(map[], events[1..]) && Replay(map[], events[1..]) == map[]
  {
    var names :| IsListing(names, Known(map[], inputs).Keys)
                 && events == [Started] + Changes(map[], inputs) + Losses(names);
    ReplayIsKnown(map[], inputs);
    LossesEmpty(Known(map[], inputs), names);
    ReplayParts(map[], Changes(map[], inputs), Losses(names));
    assert events[1..] == Changes(map[], inputs) + Losses(names);
  }

  /** Between two findings of one name without a loss in between, port or addresses differ. */
  lemma {:induction false} FindingsDiffer(rows: Rows, events: seq<Event>, i: nat, j: nat)
    requires EachMatters(rows, events) && i < j < |events| && events[i].Found? && events[j].Found?
    requires events[i].peer.name == events[j].peer.name
    requires forall k :: i < k < j ==> !events[k].Found? || events[k].peer.name != events[i].peer.name
    requires forall k :: i < k < j ==> events[k] != Lost(events[i].peer.name)
    ensures !SamePlace(events[i].peer, events[j].peer)
    decreases i
  {
    var next := if events[0].Found? then rows[events[0].peer.name := events[0].peer] else rows - {events[0].name};
    if i > 0 {
      FindingsDiffer(next, events[1..], i - 1, j - 1);
    } else {
      RowStays(next, events[1..], events[0].peer, j - 1);
    }
  }

  lemma {:induction false} RowStays(rows: Rows, events: seq<Event>, peer: Peer, j: nat)
    requires EachMatters(rows, events) && j < |events| && events[j].Found? && events[j].peer.name == peer.name
    requires peer.name in rows && rows[peer.name] == peer
    requires forall k :: 0 <= k < j ==> !events[k].Found? || events[k].peer.name != peer.name
    requires forall k :: 0 <= k < j ==> events[k] != Lost(peer.name)
    ensures !SamePlace(peer, events[j].peer)
    decreases j
  {
    if j > 0 {
      match events[0] {
        case Found(p) => RowStays(rows[p.name := p], events[1..], peer, j - 1);
        case Lost(name) => RowStays(rows - {name}, events[1..], peer, j - 1);
      }
    } else {
      AlikeIsSamePlace(peer, events[0].peer);
    }
  }

  // ---- Which receipts are reported ----

  ghost predicate Mentions(r: Receipt, name: string) {
    (r.Resolved? && r.peer.name == name) || r == Removed(name)
  }

  /** Receipt `m` is the last before `n` that mentions the name. */
  ghost predicate LastMention(inputs: seq<Receipt>, m: nat, n: nat, name: string) {
    m < n <= |inputs| && Mentions(inputs[m], name) && forall k :: m < k < n ==> !Mentions(inputs[k], name)
  }

  /** What one more receipt makes of what is known. */
  function Noted(known: Rows, r: Receipt): Rows {
    match r
    case Resolved(peer) => if IsNewOrChanged(known, peer) then known[peer.name := peer] else known
    case Removed(name) => known - {name}
    case _ => known
  }

  function Reported(known: Rows, r: Receipt): seq<Event> {
    match r
    case Resolved(peer) => if IsNewOrChanged(known, peer) then [Found(peer)] else []
    case Removed(name) => if name in known then [Lost(name)] else []
    case _ => []
  }

  function Updated(rows: Rows, r: Receipt): Rows {
    match r
    case Resolved(peer) => rows[peer.name := peer]
    case Removed(name) => rows - {name}
    case _ => rows
  }

  lemma {:induction false} LatestSnoc(rows: Rows, inputs: seq<Receipt>, r: Receipt)
    requires forall k :: 0 <= k < |inputs| ==> !inputs[k].Disconnected?
    ensures Latest(rows, inputs + [r]) == Updated(Latest(rows, inputs), r)
    decreases |inputs|
  {
    if inputs == [] {
      var none: seq<Receipt> := [];
      assert inputs + [r] == [r] && [r][1..] == none;
    } else {
      assert (inputs + [r])[0] == inputs[0] && (inputs + [r])[1..] == inputs[1..] + [r];
      LatestSnoc(Updated(rows, inputs[0]), inputs[1..], r);
    }
  }

  lemma ChangesStep(known: Rows, inputs: seq<Receipt>)
    requires inputs != [] && !inputs[0].Disconnected?
    ensures Changes(known, inputs) == Reported(known, inputs[0]) + Changes(Noted(known, inputs[0]), inputs[1..])
    ensures Known(known, inputs) == Known(Noted(known, inputs[0]), inputs[1..])
  {
    hide IsNewOrChanged;
    if inputs[0].Removed? && inputs[0].name !in known {
      assert known - {inputs[0].name} == known;
    }
  }

  lemma NoChanges(known: Rows)
    ensures Changes(known, []) == [] && Known(known, []) == known
  {
  }

  lemma {:induction false} ChangesSnoc(known: Rows, inputs: seq<Receipt>, r: Receipt)
    requires !r.Disconnected? && forall k :: 0 <= k < |inputs| ==> !inputs[k].Disconnected?
    ensures Changes(known, inputs + [r]) == Changes(known, inputs) + Reported(Known(known, inputs), r)
    decreases |inputs|
  {
    hide Changes, Known, Noted, Reported;
    ChangesStep(known, inputs + [r]);
    NoChanges(known);
    if inputs == [] {
      var none: seq<Receipt> := [];
      assert inputs + [r] == [r] && [r][1..] == none;
      NoChanges(Noted(known, r));
    } else {
      assert (inputs + [r])[0] == inputs[0] && (inputs + [r])[1..] == inputs[1..] + [r];
      ChangesStep(known, inputs);
      ChangesSnoc(Noted(known, inputs[0]), inputs[1..], r);
    }
  }

  /** The last mention of the name before `n` is a resolution. */
  ghost predicate IsThere(inputs: seq<Receipt>, n: nat, name: string) {
    exists m: nat :: LastMention(inputs, m, n, name) && inputs[m].Resolved?
  }

  /** The latest row of a name is what its last mention says. */
  lemma {:induction false} LatestIs(inputs: seq<Receipt>, n: nat, name: string)
    requires n <= |inputs| && forall k :: 0 <= k < n ==> !inputs[k].Disconnected?
    ensures (name in Latest(map[], inputs[..n])) <==> IsThere(inputs, n, name)
    ensures forall m: nat :: LastMention(inputs, m, n, name) && inputs[m].Resolved? ==>
                name in Latest(map[], inputs[..n]) && Latest(map[], inputs[..n])[name] == inputs[m].peer
    decreases n
  {
    if n > 0 {
      var r := inputs[n - 1];
      LatestIs(inputs, n - 1, name);
      assert inputs[..n] == inputs[..n - 1] + [r];
      LatestSnoc(map[], inputs[..n - 1], r);
      hide Latest;
      forall m: nat | m < n - 1
        ensures LastMention(inputs, m, n, name) <==> LastMention(inputs, m, n - 1, name) && !Mentions(r, name)
      {
      }
      assert LastMention(inputs, n - 1, n, name) <==> Mentions(r, name);
      if Mentions(r, name) {
        assert forall m: nat :: LastMention(inputs, m, n, name) ==> m == n - 1;
      } else if IsThere(inputs, n - 1, name) {
        var m: nat :| LastMention(inputs, m, n - 1, name) && inputs[m].Resolved?;
        assert LastMention(inputs, m, n, name);
      }
      hide LastMention, Mentions;
    } else {
      assert inputs[..0] == [];
    }
  }

  /** The last mention of the peer's name before `n` is a resolution to the same port and addresses. */
  ghost predicate Repeats(inputs: seq<Receipt>, n: nat, peer: Peer) {
    exists m: nat :: LastMention(inputs, m, n, peer.name) && inputs[m].Resolved? && SamePlace(inputs[m].peer, peer)
  }

  lemma KnownWhenThere(inputs: seq<Receipt>, n: nat, peer: Peer)
    requires n <= |inputs| && forall k :: 0 <= k < n ==> !inputs[k].Disconnected?
    ensures (peer.name in Known(map[], inputs[..n])) <==> IsThere(inputs, n, peer.name)
    ensures IsNewOrChanged(Known(map[], inputs[..n]), peer) <==> !Repeats(inputs, n, peer)
  {
    KnownIsLatest(map[], map[], inputs[..n]);
    LatestIs(inputs, n, peer.name);
    if peer.name in Known(map[], inputs[..n]) {
      AlikeIsSamePlace(Known(map[], inputs[..n])[peer.name], peer);
    }
    hide Known, Latest, LastMention, ShowsAlike;
  }

  /**
   * A resolution is reported unless it repeats the last mention of its name, and a removal is exactly when the
   * last mention of the name is a resolution; nothing else is.
   */
  lemma ReportedIff(inputs: seq<Receipt>, n: nat)
    requires n < |inputs| && forall k :: 0 <= k <= n ==> !inputs[k].Disconnected?
    ensures var before, after, r := Changes(map[], inputs[..n]), Changes(map[], inputs[..n + 1]), inputs[n];
            after == before + if r.Resolved? && !Repeats(inputs, n, r.peer) then [Found(r.peer)]
                              else if r.Removed? && IsThere(inputs, n, r.name) then [Lost(r.name)]
                              else []
  {
    assert inputs[..n + 1] == inputs[..n] + [inputs[n]];
    ChangesSnoc(map[], inputs[..n], inputs[n]);
    if inputs[n].Resolved? {
      KnownWhenThere(inputs, n, inputs[n].peer);
    } else if inputs[n].Removed? {
      KnownWhenThere(inputs, n, Peer(inputs[n].name, [], 0));
    }
    hide Changes, Known, Repeats, IsThere, IsNewOrChanged;
  }

  /** Nothing after the end of the stream is looked at. */
  lemma {:induction false} NothingAfterTheEnd(known: Rows, inputs: seq<Receipt>, k: nat)
    requires k < |inputs| && inputs[k].Disconnected?
    ensures Changes(known, inputs) == Changes(known, inputs[..k]) && Known(known, inputs) == Known(known, inputs[..k])
    decreases k
  {
    hide Noted, Reported;
    if inputs[0].Disconnected? {
      NoChanges(known);
      if k > 0 {
        assert inputs[..k][0] == inputs[0];
      }
    } else {
      ChangesStep(known, inputs);
      assert inputs[..k][0] == inputs[0] && inputs[..k][1..] == inputs[1..][..k - 1];
      ChangesStep(known, inputs[..k]);
      hide Changes, Known;
      NothingAfterTheEnd(Noted(known, inputs[0]), inputs[1..], k - 1);
    }
  }
}
