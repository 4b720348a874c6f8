/** The rewriting of a whole TLV 2 payload: idempotence, identity, and what the result shows. */
module TlvTwo {
  import opened Wrappers
  import opened Joining
  import opened ByteSeqs
  import opened ServiceRecords
  import opened RecordRewrite

  datatype Emit = Emitted(payload: seq<Byte>) | Unencodable | Panicked

  /** What a name record says about the rdata records after it. */
  datatype Context = Context(kind: Byte, service: bool)

  const START: Context := Context(0, false)

  // ---- One body ----

  function After(body: seq<Byte>, c: Context): Context {
    if IsNameRecord(body) then Context(body[|body| - 1], NamesService(body)) else c
  }

  predicate BodyPanics(body: seq<Byte>, c: Context, id: Identity) {
    !IsNameRecord(body) && Panics(body, c.kind, id, c.service)
  }

  function NewBody(body: seq<Byte>, c: Context, id: Identity): seq<Byte> {
    if IsNameRecord(body) then NewName(body, id.host) else NewRdata(body, c.kind, id, c.service)
  }

  lemma NewBodyTwice(body: seq<Byte>, c: Context, id: Identity)
    requires !BodyPanics(body, c, id)
    ensures var b := NewBody(body, c, id);
            After(b, c) == After(body, c) && !BodyPanics(b, c, id) && NewBody(b, c, id) == b
  {
    hide IsNameRecord, NamesService, NewName, NewRdata, Panics;
    if IsNameRecord(body) {
      NewNameParts(body, id.host);
    } else {
      NewRdataTwice(body, c.kind, id, c.service);
    }
  }

  // ---- All bodies ----

  /** The bodies rewritten one after another; none if one of them panics. */
  function NewBodies(bodies: seq<seq<Byte>>, c: Context, id: Identity): (r: Option<seq<seq<Byte>>>)
    ensures r.Some? ==> |r.value| == |bodies|
  {
    if bodies == [] then Some([])
    else if BodyPanics(bodies[0], c, id) then None
    else match NewBodies(bodies[1..], After(bodies[0], c), id)
      case None => None
      case Some(rest) => Some([NewBody(bodies[0], c, id)] + rest)
  }

  function AfterAll(bodies: seq<seq<Byte>>, c: Context): Context {
    if bodies == [] then c else AfterAll(bodies[1..], After(bodies[0], c))
  }

  lemma {:induction false} NewBodiesTwice(bodies: seq<seq<Byte>>, c: Context, id: Identity)
    requires NewBodies(bodies, c, id).Some?
    ensures var out := NewBodies(bodies, c, id).value;
            NewBodies(out, c, id) == Some(out) && AfterAll(out, c) == AfterAll(bodies, c)
  {
    hide After, NewBody, BodyPanics;
    if bodies != [] {
      NewBodyTwice(bodies[0], c, id);
      NewBodiesTwice(bodies[1..], After(bodies[0], c), id);
      var out := NewBodies(bodies, c, id).value;
      assert out[1..] == NewBodies(bodies[1..], After(bodies[0], c), id).value;
    }
  }

  lemma {:induction false} NewBodiesConcat(a: seq<seq<Byte>>, b: seq<seq<Byte>>, c: Context, id: Identity)
    ensures NewBodies(a + b, c, id) ==
            match NewBodies(a, c, id)
            case None => None
            case Some(x) =>
              match NewBodies(b, AfterAll(a, c), id)
              case None => None
              case Some(y) => Some(x + y)
  {
    hide After, NewBody, BodyPanics;
    if a == [] {
      assert a + b == b;
      if NewBodies(b, c, id).Some? {
        assert [] + NewBodies(b, c, id).value == NewBodies(b, c, id).value;
      }
    } else {
      assert (a + b)[0] == a[0] && (a + b)[1..] == a[1..] + b;
      NewBodiesConcat(a[1..], b, After(a[0], c), id);
      var x, y := NewBodies(a[1..], After(a[0], c), id), NewBodies(b, AfterAll(a, c), id);
      if x.Some? && y.Some? {
        var n := [NewBody(a[0], c, id)];
        assert n + (x.value + y.value) == n + x.value + y.value;
      }
    }
  }

  // ---- Emission ----

  /** Each body behind its length; the last one's length leaves out two octets when there was a tail. */
  function EmitBodies(bodies: seq<seq<Byte>>, hasTail: bool): Option<seq<Byte>> {
    if bodies == [] then Some([])
    else
      var short := if |bodies| == 1 && hasTail then 2 else 0;
      if |bodies[0]| < short || |bodies[0]| - short > 0xffff then None
      else match EmitBodies(bodies[1..], hasTail)
        case None => None
        case Some(rest) => Some(U16LeBytes(|bodies[0]| - short) + bodies[0] + rest)
  }

  /** The record bodies, the last one running on through the tail. */
  function JoinTail(recs: seq<seq<Byte>>, tail: seq<Byte>): (bodies: seq<seq<Byte>>)
    requires recs != []
    ensures |bodies| == |recs|
  {
    if tail == [] then recs else recs[..|recs| - 1] + [recs[|recs| - 1] + tail]
  }

  function Rewrite(v: seq<Byte>, id: Identity): Emit {
    var (recs, tail) := Records(v);
    if recs == [] then Emitted(v)
    else match NewBodies(JoinTail(recs, tail), START, id)
      case None => Panicked
      case Some(bodies) =>
        match EmitBodies(bodies, tail != [])
        case None => Unencodable
        case Some(w) => Emitted(w)
  }

  method RewriteTlv2(v: seq<Byte>, id: Identity) returns (r: Emit)
    ensures r == Rewrite(v, id)
  {
    hide Records, NewBody, BodyPanics, IsNameRecord, NamesService, NewName, NewRdata, Panics, Labels;
    var recs, tail := ParseRecords(v);
    if recs == [] {
      return Emitted(v);
    }
    var hasTail := tail != [];
    var bodies := recs;
    if hasTail {
      var last := |bodies| - 1;
      bodies := bodies[last := bodies[last] + tail];
      assert bodies == JoinTail(recs, tail);
    }
    var rewritten: seq<seq<Byte>> := [];
    var kind: Byte, service := 0, false;
    assert bodies[0..] == bodies;
    OntoNothing(NewBodies(bodies, START, id), rewritten);
    for i := 0 to |bodies|
      invariant |rewritten| == i
      invariant NewBodies(bodies, START, id) == Onto(rewritten, NewBodies(bodies[i..], Context(kind, service), id))
    {
      var body := bodies[i];
      NewBodiesStep(bodies[i..], Context(kind, service), id);
      assert bodies[i..][1..] == bodies[i + 1..];
      var out;
      if IsNameRecord(body) {
        NameRecordLength(body);
        kind := body[|body| - 1];
        service := NamesService(body);
        out := RewriteNameRecord(body, id.host);
      } else {
        var rdata := RewriteRdata(body, kind, id, service);
        if rdata.None? {
          return Panicked;
        }
        out := rdata.value;
      }
      OntoTwice(rewritten, [out], NewBodies(bodies[i + 1..], Context(kind, service), id));
      rewritten := rewritten + [out];
    }
    assert bodies[|bodies|..] == [] && rewritten + [] == rewritten;
    r := EmitAll(rewritten, hasTail);
  }

  lemma NameRecordLength(body: seq<Byte>)
    requires IsNameRecord(body)
    ensures |body| >= 3
  {
  }

  lemma NewBodiesStep(bodies: seq<seq<Byte>>, c: Context, id: Identity)
    requires bodies != []
    ensures NewBodies(bodies, c, id) ==
            if BodyPanics(bodies[0], c, id) then None
            else Onto([NewBody(bodies[0], c, id)], NewBodies(bodies[1..], After(bodies[0], c), id))
    ensures BodyPanics(bodies[0], c, id) == (!IsNameRecord(bodies[0]) && Panics(bodies[0], c.kind, id, c.service))
    ensures NewBody(bodies[0], c, id) ==
            if IsNameRecord(bodies[0]) then NewName(bodies[0], id.host) else NewRdata(bodies[0], c.kind, id, c.service)
  {
    hide IsNameRecord, NamesService, NewName, NewRdata, Panics;
  }

  method EmitAll(bodies: seq<seq<Byte>>, hasTail: bool) returns (r: Emit)
    ensures r == match EmitBodies(bodies, hasTail) case None => Unencodable case Some(w) => Emitted(w)
  {
    hide U16LeBytes, EmitBodies;
    var out: seq<Byte> := [];
    assert bodies[0..] == bodies;
    if EmitBodies(bodies, hasTail).Some? {
      assert [] + EmitBodies(bodies, hasTail).value == EmitBodies(bodies, hasTail).value;
    }
    for i := 0 to |bodies|
      invariant EmitBodies(bodies, hasTail) ==
                match EmitBodies(bodies[i..], hasTail) case None => None case Some(w) => Some(out + w)
    {
      var body, last := bodies[i], i == |bodies| - 1;
      assert bodies[i..][1..] == bodies[i + 1..];
      EmitStep(bodies[i..], hasTail);
      var declared := |body|;
      if last && hasTail {
        if declared < 2 {
          return Unencodable;
        }
        declared := declared - 2;
      }
      if declared > 0xffff {
        return Unencodable;
      }
      ghost var rest := EmitBodies(bodies[i + 1..], hasTail);
      if rest.Some? {
        assert out + (U16LeBytes(declared) + body + rest.value) == out + (U16LeBytes(declared) + body) + rest.value;
      }
      out := out + (U16LeBytes(declared) + body);
    }
    assert bodies[|bodies|..] == [] && out + [] == out;
    EmitNothing(hasTail);
    return Emitted(out);
  }

  lemma EmitNothing(hasTail: bool)
    ensures EmitBodies([], hasTail) == Some([])
  {
  }

  lemma EmitStep(bodies: seq<seq<Byte>>, hasTail: bool)
    requires bodies != []
    ensures var short := if |bodies| == 1 && hasTail then 2 else 0;
            EmitBodies(bodies, hasTail) ==
            if |bodies[0]| < short || |bodies[0]| - short > 0xffff then None
            else match EmitBodies(bodies[1..], hasTail)
              case None => None
              case Some(rest) => Some(U16LeBytes(|bodies[0]| - short) + bodies[0] + rest)
  {
  }

  // ---- Parsing what was emitted ----

  lemma FirstRecord(body: seq<Byte>, rest: seq<Byte>)
    requires |body| <= 0xffff
    ensures Records(U16LeBytes(|body|) + body + rest) == ([body] + Records(rest).0, Records(rest).1)
  {
    hide U16Le, U16LeBytes;
    var v := U16LeBytes(|body|) + body + rest;
    assert v[..2] == U16LeBytes(|body|) && v[2..2 + |body|] == body && v[2 + |body|..] == rest;
  }

  lemma {:induction false} RecordsOfExact(bodies: seq<seq<Byte>>)
    requires EmitBodies(bodies, false).Some?
    ensures Records(EmitBodies(bodies, false).value) == (bodies, [])
  {
    hide Records, U16LeBytes;
    if bodies == [] {
      NoRecords([]);
    } else {
      RecordsOfExact(bodies[1..]);
      FirstRecord(bodies[0], EmitBodies(bodies[1..], false).value);
      assert [bodies[0]] + bodies[1..] == bodies;
    }
  }

  /** The last body without its last two octets, and those octets. */
  function CutLast(bodies: seq<seq<Byte>>): (r: (seq<seq<Byte>>, seq<Byte>))
    requires bodies != [] && |bodies[|bodies| - 1]| >= 2
    ensures |r.0| == |bodies| && |r.1| == 2
  {
    var last := bodies[|bodies| - 1];
    (bodies[..|bodies| - 1] + [last[..|last| - 2]], last[|last| - 2..])
  }

  const ZEROS: seq<Byte> := [0, 0]
  const ONE_EMPTY: seq<seq<Byte>> := [[]]

  /** What parsing gives when the last body was emitted with a short length. */
  function Reparsed(bodies: seq<seq<Byte>>): (seq<seq<Byte>>, seq<Byte>)
    requires bodies != [] && |bodies[|bodies| - 1]| >= 2
  {
    var (recs, tail) := CutLast(bodies);
    if tail == ZEROS then (recs + ONE_EMPTY, []) else (recs, tail)
  }

  lemma ReparsedOne(b: seq<Byte>)
    requires 2 <= |b| && |b| - 2 <= 0xffff
    ensures Records(U16LeBytes(|b| - 2) + b) == Reparsed([b])
  {
    hide *;
    var body, tail := b[..|b| - 2], b[|b| - 2..];
    assert U16LeBytes(|body|) + b == U16LeBytes(|body|) + body + tail;
    FirstRecord(body, tail);
    RecordsOfTwo(tail);
    ReparsedOneIs(b);
  }

  lemma ReparsedOneIs(b: seq<Byte>)
    requires |b| >= 2
    ensures var body, tail := b[..|b| - 2], b[|b| - 2..];
            Reparsed([b]) == if tail == ZEROS then ([body] + ONE_EMPTY, []) else ([body] + [], tail)
  {
    var none: seq<seq<Byte>> := [];
    assert [b][..0] == none;
    assert [b][..0] + [b[..|b| - 2]] == [b[..|b| - 2]];
    assert [b[..|b| - 2]] + none == [b[..|b| - 2]];
  }

  lemma ReparsedCons(b: seq<Byte>, bodies: seq<seq<Byte>>)
    requires bodies != [] && |bodies[|bodies| - 1]| >= 2
    ensures Reparsed([b] + bodies) == ([b] + Reparsed(bodies).0, Reparsed(bodies).1)
  {
    var (recs, tail) := CutLast(bodies);
    assert ([b] + bodies)[..|bodies|] == [b] + bodies[..|bodies| - 1];
    assert CutLast([b] + bodies).0 == [b] + recs;
    assert [b] + (recs + ONE_EMPTY) == [b] + recs + ONE_EMPTY;
  }

  /** Two zero octets at the end come back as an empty record, any other two as the tail. */
  lemma {:induction false} RecordsOfTailed(bodies: seq<seq<Byte>>)
    requires bodies != [] && EmitBodies(bodies, true).Some?
    ensures |bodies[|bodies| - 1]| >= 2
    ensures var w := EmitBodies(bodies, true).value;
            Records(w) == Reparsed(bodies) && |w| >= 2 && w[|w| - 2..] == CutLast(bodies).1
  {
    hide Records, U16LeBytes, Reparsed;
    var w := EmitBodies(bodies, true).value;
    var b := bodies[0];
    if |bodies| == 1 {
      assert bodies[1..] == [] && bodies == [b];
      assert w == U16LeBytes(|b| - 2) + b;
      ReparsedOne(b);
    } else {
      var rest := EmitBodies(bodies[1..], true).value;
      RecordsOfTailed(bodies[1..]);
      assert bodies == [b] + bodies[1..];
      ReparsedCons(b, bodies[1..]);
      FirstRecord(b, rest);
      assert w[|w| - 2..] == rest[|rest| - 2..];
    }
  }

  lemma RecordsOfTwo(t: seq<Byte>)
    requires |t| == 2
    ensures Records(t) == if t == ZEROS then (ONE_EMPTY, []) else ([], t)
  {
    assert t[..2] == t;
    if t == ZEROS {
      assert t[2..2] == [] && t[2..] == [];
      NoRecords([]);
      assert ONE_EMPTY + [] == ONE_EMPTY;
    } else {
      assert t[0] != 0 || t[1] != 0;
    }
  }

  lemma JoinCut(bodies: seq<seq<Byte>>)
    requires bodies != [] && |bodies[|bodies| - 1]| >= 2
    ensures var (recs, tail) := CutLast(bodies); JoinTail(recs, tail) == bodies
  {
    var last := bodies[|bodies| - 1];
    assert last == last[..|last| - 2] + last[|last| - 2..];
  }

  /** Emitting the cut body exactly and an empty record after it gives the same octets. */
  lemma {:induction false} EmitCut(bodies: seq<seq<Byte>>)
    requires bodies != [] && EmitBodies(bodies, true).Some? && |bodies[|bodies| - 1]| >= 2
    requires CutLast(bodies).1 == ZEROS
    ensures EmitBodies(CutLast(bodies).0 + ONE_EMPTY, false) == EmitBodies(bodies, true)
  {
    hide U16LeBytes;
    var cut := CutLast(bodies).0 + ONE_EMPTY;
    if |bodies| == 1 {
      var b := bodies[0];
      assert bodies[1..] == [] && cut == [b[..|b| - 2], []] && cut[1..] == ONE_EMPTY;
      assert cut[1..][1..] == bodies[1..];
      EmitEmpty();
      assert b == b[..|b| - 2] + ZEROS;
      assert U16LeBytes(|b| - 2) + b[..|b| - 2] + ZEROS == U16LeBytes(|b| - 2) + b + [];
    } else {
      EmitCut(bodies[1..]);
      assert cut == [bodies[0]] + (CutLast(bodies[1..]).0 + ONE_EMPTY);
      assert cut[1..] == CutLast(bodies[1..]).0 + ONE_EMPTY;
    }
  }

  lemma EmitEmpty()
    ensures EmitBodies(ONE_EMPTY, false) == Some(ZEROS)
  {
    assert U16LeBytes(0) == ZEROS;
    assert ONE_EMPTY[1..] == [];
    assert U16LeBytes(0) + [] + [] == ZEROS;
  }

  // ---- What a payload shows, and when it already shows us ----

  /** The complete strings of TXT rdata. */
  function Strings(rd: seq<Byte>): seq<seq<Byte>> {
    if rd == [] || 1 + rd[0] as int > |rd| then [] else [rd[1..1 + rd[0]]] + Strings(rd[1 + rd[0]..])
  }

  /** A string under one of our keys carries our value, unless that value is missing or too long. */
  predicate IsOurs(s: seq<Byte>, id: Identity) {
    && (SID_KEY <= s && id.sid != [] && |id.sid| <= 251 ==> s == SID_KEY + id.sid)
    && (AT_KEY <= s && id.at != [] && |id.at| <= 252 ==> s == AT_KEY + id.at)
    && (DNM_KEY <= s && id.display != [] && |id.display| <= 251 ==> s == DNM_KEY + id.display)
  }

  /** Hostname, display name, session, capabilities and UUID of a body, where it has them, are ours. */
  ghost predicate Shows(body: seq<Byte>, c: Context, id: Identity) {
    if IsNameRecord(body) then
      HostAt(Labels(body)).Some? && Usable(id.host) ==> Labels(body)[HostAt(Labels(body)).value] == id.host
    else if HasRdata(body) && c.service then
      var rd := body[2..];
      && (c.kind == TYPE_PTR && Usable(id.display) && |Labels(rd)| == 1 ==> Labels(rd)[0] == id.display)
      && (c.kind == TYPE_TXT ==> forall i :: 0 <= i < |Strings(rd)| ==> IsOurs(Strings(rd)[i], id))
      && (c.kind == TYPE_SRV && IsUuid(id.uuid) && FindUuid(rd, 0).Some? ==>
            rd[FindUuid(rd, 0).value..FindUuid(rd, 0).value + UUID_LEN] == id.uuid)
    else true
  }

  lemma OursIsFixed(s: seq<Byte>, id: Identity)
    requires |s| < 256
    ensures IsOurs(s, id) <==> Swapped(s, id) == s
  {
    assert SID_KEY[0] != AT_KEY[0] && AT_KEY[0] != DNM_KEY[0] && SID_KEY[0] != DNM_KEY[0];
    if SID_KEY <= s {
      assert s[0] == SID_KEY[0] && |SID_KEY + id.sid| == 4 + |id.sid|;
    } else if AT_KEY <= s {
      assert s[0] == AT_KEY[0] && |AT_KEY + id.at| == 3 + |id.at|;
    } else if DNM_KEY <= s {
      assert s[0] == DNM_KEY[0] && |DNM_KEY + id.display| == 4 + |id.display|;
    }
  }

  lemma {:induction false} TextIsFixed(rd: seq<Byte>, id: Identity)
    ensures (forall i :: 0 <= i < |Strings(rd)| ==> IsOurs(Strings(rd)[i], id)) <==> NewText(rd, id) == rd
    decreases |rd|
  {
    hide Swapped, IsOurs;
    if rd != [] && 1 + rd[0] as int <= |rd| {
      var s, rest := rd[1..1 + rd[0]], rd[1 + rd[0]..];
      TextIsFixed(rest, id);
      OursIsFixed(s, id);
      assert Strings(rd)[0] == s && Strings(rd)[1..] == Strings(rest);
      assert rd == LabelText(s) + rest;
      SameText(s, rest, Swapped(s, id), NewText(rest, id));
      var all := Strings(rd);
      assert forall i :: 0 < i < |all| ==> all[i] == Strings(rest)[i - 1];
    }
  }

  lemma SameText(s: seq<Byte>, rest: seq<Byte>, t: seq<Byte>, more: seq<Byte>)
    requires |s| < 256 && |t| < 256
    ensures LabelText(t) + more == LabelText(s) + rest <==> s == t && rest == more
  {
    var a, b := LabelText(t) + more, LabelText(s) + rest;
    if a == b {
      assert a[0] == |t| && b[0] == |s|;
      assert a[1..1 + |t|] == t && b[1..1 + |s|] == s && a[1 + |t|..] == more && b[1 + |s|..] == rest;
    }
  }

  lemma DisplayIsFixed(rd: seq<Byte>, display: seq<Byte>)
    ensures (Usable(display) && |Labels(rd)| == 1 ==> Labels(rd)[0] == display) <==> NewDisplay(rd, display) == rd
  {
    if Usable(display) && |Labels(rd)| == 1 {
      FirstOfName(rd);
      assert Labels(rd)[1..] == Labels(rd[1 + rd[0]..]);
      assert Stop(rd) == rd[1 + rd[0]..];
      SameText(Labels(rd)[0], Stop(rd), display, Stop(rd));
    }
  }

  lemma UuidIsFixed(rd: seq<Byte>, uuid: seq<Byte>)
    requires |uuid| == UUID_LEN
    ensures (FindUuid(rd, 0).Some? ==> rd[FindUuid(rd, 0).value..FindUuid(rd, 0).value + UUID_LEN] == uuid)
            <==> NewUuid(rd, uuid) == rd
  {
    if FindUuid(rd, 0).Some? {
      var at := FindUuid(rd, 0).value;
      assert rd == rd[..at] + rd[at..at + UUID_LEN] + rd[at + UUID_LEN..];
      assert NewUuid(rd, uuid)[at..at + UUID_LEN] == uuid;
    }
  }

  lemma NameIsFixed(body: seq<Byte>, host: seq<Byte>)
    ensures (HostAt(Labels(body)).Some? && Usable(host) ==> Labels(body)[HostAt(Labels(body)).value] == host)
            <==> NewName(body, host) == body
  {
    hide Labels, Stop, LabelsText, IsServiceLabel;
    NameParts(body);
    if HostAt(Labels(body)).Some? && Usable(host) {
      var k, labels := HostAt(Labels(body)).value, Labels(body);
      PartsOfName(labels[k := host], Stop(body));
      if labels[k] == host {
        assert labels[k := host] == labels;
      }
    }
  }

  /** A body shows our identity exactly when the rewriting leaves it as it is. */
  lemma ShowsIsFixed(body: seq<Byte>, c: Context, id: Identity)
    ensures Shows(body, c, id) <==> NewBody(body, c, id) == body
  {
    hide IsNameRecord, Labels, Stop, FindUuid, NewText, NewUuid, NewDisplay, NewName, IsOurs, Strings, LastService;
    if IsNameRecord(body) {
      NameIsFixed(body, id.host);
    } else if HasRdata(body) && c.service {
      var rd := body[2..];
      assert body == body[..2] + rd;
      DisplayIsFixed(rd, id.display);
      TextIsFixed(rd, id);
      if IsUuid(id.uuid) {
        UuidIsFixed(rd, id.uuid);
      }
    }
  }

  ghost predicate AllShow(bodies: seq<seq<Byte>>, c: Context, id: Identity) {
    bodies == [] || (Shows(bodies[0], c, id) && AllShow(bodies[1..], After(bodies[0], c), id))
  }

  lemma {:induction false} AllShowIsFixed(bodies: seq<seq<Byte>>, c: Context, id: Identity)
    requires NewBodies(bodies, c, id).Some?
    ensures AllShow(bodies, c, id) <==> NewBodies(bodies, c, id) == Some(bodies)
  {
    hide Shows, After, NewBody, BodyPanics;
    if bodies != [] {
      ShowsIsFixed(bodies[0], c, id);
      AllShowIsFixed(bodies[1..], After(bodies[0], c), id);
      var out := NewBodies(bodies, c, id).value;
      assert out[1..] == NewBodies(bodies[1..], After(bodies[0], c), id).value;
      assert bodies == [bodies[0]] + bodies[1..];
    }
  }

  // ---- Rewriting again ----

  predicate EndsInZeros(w: seq<Byte>) {
    |w| >= 2 && w[|w| - 2..] == ZEROS
  }

  /** The last body, short of its last two octets, is left alone by the rewriting. */
  predicate CutIsLeft(bodies: seq<seq<Byte>>, id: Identity)
    requires bodies != [] && |bodies[|bodies| - 1]| >= 2
  {
    var n := |bodies| - 1;
    var cut, c := bodies[n][..|bodies[n]| - 2], AfterAll(bodies[..n], START);
    !BodyPanics(cut, c, id) && NewBody(cut, c, id) == cut
  }

  /** The bodies `v` is rewritten to. */
  function Rewritten(v: seq<Byte>, id: Identity): Option<seq<seq<Byte>>>
    requires Records(v).0 != []
  {
    NewBodies(JoinTail(Records(v).0, Records(v).1), START, id)
  }

  lemma EmptyBody(c: Context, id: Identity)
    ensures NewBodies(ONE_EMPTY, c, id) == Some(ONE_EMPTY)
  {
    assert ONE_EMPTY[1..] == [];
    var none: seq<Byte> := [];
    assert !IsNameRecord(none) && NewBody(none, c, id) == none;
    assert NewBodies([], After(none, c), id) == Some([]);
    assert [none] + [] == ONE_EMPTY;
  }

  /** The second rewriting when the first one's output ends in two zero octets. */
  lemma CutBodiesAgain(out: seq<seq<Byte>>, id: Identity)
    requires out != [] && |out[|out| - 1]| >= 2 && NewBodies(out, START, id) == Some(out)
    ensures var again := NewBodies(CutLast(out).0 + ONE_EMPTY, START, id);
            again == Some(CutLast(out).0 + ONE_EMPTY) <==> CutIsLeft(out, id)
  {
    hide BodyPanics, NewBody, After;
    var n := |out| - 1;
    var cut, c := out[n][..|out[n]| - 2], AfterAll(out[..n], START);
    var front := out[..n];
    assert out == front + [out[n]];
    NewBodiesConcat(front, [out[n]], START, id);
    assert NewBodies(front, START, id) == Some(front) by {
      var x := NewBodies(front, START, id).value;
      assert x == out[..n];
    }
    assert CutLast(out).0 + ONE_EMPTY == front + ([cut] + ONE_EMPTY);
    NewBodiesConcat(front, [cut] + ONE_EMPTY, START, id);
    assert ([cut] + ONE_EMPTY)[0] == cut && ([cut] + ONE_EMPTY)[1..] == ONE_EMPTY;
    EmptyBody(After(cut, c), id);
    if !BodyPanics(cut, c, id) {
      var again := front + ([NewBody(cut, c, id)] + ONE_EMPTY);
      assert NewBodies(CutLast(out).0 + ONE_EMPTY, START, id) == Some(again);
      assert again[n] == NewBody(cut, c, id) && (front + ([cut] + ONE_EMPTY))[n] == cut;
    }
  }

  /** Rewriting the output of a rewriting, in terms of that output. */
  lemma RewriteAgainByCut(v: seq<Byte>, id: Identity, w: seq<Byte>)
    requires Rewrite(v, id) == Emitted(w) && Records(v).0 != []
    ensures Records(v).1 != [] ==> |Rewritten(v, id).value[|Rewritten(v, id).value| - 1]| >= 2
    ensures Rewrite(w, id) == Emitted(w) <==>
            Records(v).1 == [] || !EndsInZeros(w) || CutIsLeft(Rewritten(v, id).value, id)
  {
    hide Records, NewBodies, EmitBodies, CutIsLeft;
    var (recs, tail) := Records(v);
    var bodies := JoinTail(recs, tail);
    var out := NewBodies(bodies, START, id).value;
    NewBodiesTwice(bodies, START, id);
    if tail == [] {
      RecordsOfExact(out);
    } else {
      RecordsOfTailed(out);
      if CutLast(out).1 != ZEROS {
        JoinCut(out);
      } else {
        CutBodiesAgain(out, id);
        EmitCut(out);
        var cut := CutLast(out).0 + ONE_EMPTY;
        var again := NewBodies(cut, START, id);
        if again.Some? && EmitBodies(again.value, false).Some? {
          RecordsOfExact(again.value);
        }
      }
    }
  }

  /** The last body is rewritten in the context the others leave, before and after rewriting. */
  lemma LastNewBody(bodies: seq<seq<Byte>>, id: Identity)
    requires bodies != [] && NewBodies(bodies, START, id).Some?
    ensures var n, out := |bodies| - 1, NewBodies(bodies, START, id).value;
            var c := AfterAll(bodies[..n], START);
            && !BodyPanics(bodies[n], c, id) && out[n] == NewBody(bodies[n], c, id)
            && AfterAll(out[..n], START) == c
  {
    hide BodyPanics, NewBody, After;
    var n := |bodies| - 1;
    var front := bodies[..n];
    assert bodies == front + [bodies[n]];
    NewBodiesConcat(front, [bodies[n]], START, id);
    NewBodiesTwice(front, START, id);
    var x := NewBodies(front, START, id).value;
    assert NewBodies(bodies, START, id).value[..n] == x;
  }

  lemma DisplayChanged(rd: seq<Byte>, display: seq<Byte>)
    requires NewDisplay(rd, display) != rd
    ensures |rd| >= 2 && Usable(display) && |Labels(rd)| == 1
  {
  }

  lemma TextChanged(rd: seq<Byte>, id: Identity)
    requires NewText(rd, id) != rd
    ensures |rd| >= 2
  {
    if |rd| < 2 {
      ShortText(rd, id);
    }
  }

  function LastTwo(s: seq<Byte>): seq<Byte>
    requires |s| >= 2
  {
    s[|s| - 2..]
  }

  /** A body without its last two octets. */
  function Cut(s: seq<Byte>): seq<Byte>
    requires |s| >= 2
  {
    s[..|s| - 2]
  }

  /** A name record without its type and what is before it is neither a name record nor rdata. */
  lemma CutNameIsLeft(b: seq<Byte>, c: Context, id: Identity)
    requires IsNameRecord(b)
    ensures !BodyPanics(Cut(b), c, id) && NewBody(Cut(b), c, id) == Cut(b)
  {
    hide LabelsText, Labels, Stop, NewName, NewDisplay, NewText, NewUuid, IsUuid;
    NameParts(b);
    var labels, rest, cut := Labels(b), Stop(b), Cut(b);
    var kept := if rest[0] == 0 then [] else [rest[0]];
    assert cut == LabelsText(labels) + kept;
    PartsOfName(labels, kept);
    assert !IsNameRecord(cut);
    if b[0] == 0 {
      NoLabels(b);
    }
  }

  /** Where replacing the UUID makes two zeros the end, the UUID is still there, and ours, without them. */
  lemma UuidCut(rd: seq<Byte>, uuid: seq<Byte>)
    requires IsUuid(uuid) && NewUuid(rd, uuid) != rd
    requires var t := NewUuid(rd, uuid); |t| >= 2 && LastTwo(t) == ZEROS
    ensures var cut := Cut(NewUuid(rd, uuid)); |cut| >= UUID_LEN && NewUuid(cut, uuid) == cut
  {
    hide IsUuid, IsHex;
    FirstUuidStays(rd, uuid);
    NewUuidIs(rd, uuid);
    UuidEnd(uuid);
    var t := NewUuid(rd, uuid);
    var at, cut := FindUuid(rd, 0).value, Cut(t);
    assert UuidAt(rd, at) && t[at..at + UUID_LEN] == uuid;
    hide FindUuid, NewUuid, UuidAt;
    ZerosAfterUuid(t, at, uuid);
    FirstUuidOfCut(t, at);
    NewUuidIs(cut, uuid);
    CutAround(cut, 0, at, at + UUID_LEN);
    assert cut[0..] == cut && cut[0..at] == cut[..at];
  }

  /** Zeros at the end are none of the UUID's characters. */
  lemma ZerosAfterUuid(t: seq<Byte>, at: nat, uuid: seq<Byte>)
    requires |t| >= 2 && LastTwo(t) == ZEROS && |uuid| == UUID_LEN && uuid[35] != 0
    requires at + UUID_LEN <= |t| && t[at..at + UUID_LEN] == uuid
    ensures at + UUID_LEN <= |Cut(t)| && Cut(t)[at..at + UUID_LEN] == uuid
  {
    assert t[at + 35] == uuid[35];
    assert t[|t| - 1] == LastTwo(t)[1] && t[|t| - 2] == LastTwo(t)[0];
  }

  lemma FirstUuidOfCut(t: seq<Byte>, at: nat)
    requires |t| >= 2 && FindUuid(t, 0) == Some(at) && at + UUID_LEN <= |t| - 2
    ensures FindUuid(Cut(t), 0) == Some(at)
  {
    hide IsUuid;
    var cut := Cut(t);
    forall k: nat | k + UUID_LEN <= |cut|
      ensures UuidAt(cut, k) == UuidAt(t, k)
    {
      assert cut[k..k + UUID_LEN] == t[k..k + UUID_LEN];
    }
    assert UuidAt(cut, at);
  }

  lemma UuidEnd(uuid: seq<Byte>)
    requires IsUuid(uuid)
    ensures |uuid| == UUID_LEN && uuid[35] != 0
  {
    assert IsHex(uuid[35]);
  }

  /** Rdata that the rewriting changed stays as it is when it loses two zeros at its end. */
  lemma CutRdataIsLeft(body: seq<Byte>, c: Context, id: Identity)
    requires !IsNameRecord(body) && !BodyPanics(body, c, id) && NewBody(body, c, id) != body
    requires var b := NewBody(body, c, id); |b| >= 2 && LastTwo(b) == ZEROS
    ensures var cut := Cut(NewBody(body, c, id)); !BodyPanics(cut, c, id) && NewBody(cut, c, id) == cut
  {
    hide NewText, NewDisplay, NewUuid, FindUuid, IsUuid, Labels, Stop, IsNameRecord;
    var b, rd := NewBody(body, c, id), body[2..];
    var t, cut := b[2..], Cut(b);
    assert body == body[..2] + rd && b[..2] == body[..2];
    if c.kind == TYPE_SRV {
      assert t == NewUuid(rd, id.uuid);
      FirstUuidStays(rd, id.uuid);
      assert LastTwo(t) == LastTwo(b);
      UuidCut(rd, id.uuid);
    } else if c.kind == TYPE_PTR {
      DisplayChanged(rd, id.display);
      NewDisplayCut(rd, id.display);
    } else {
      TextChanged(rd, id);
      NewTextCut(rd, id);
    }
    assert cut[2..] == Cut(t) && cut[..2] == body[..2];
    ZeroIsNoName(cut);
  }

  /** A body ends in two zeros, shows us, and does not (or cannot be rewritten) without them. */
  ghost predicate ZerosMatter(body: seq<Byte>, c: Context, id: Identity) {
    && |body| >= 2 && LastTwo(body) == ZEROS && Shows(body, c, id)
    && (BodyPanics(Cut(body), c, id) || !Shows(Cut(body), c, id))
  }

  /** What the loss of two zeros does to a rewritten body, in terms of the body before. */
  lemma CutOfRewritten(body: seq<Byte>, c: Context, id: Identity)
    requires !BodyPanics(body, c, id)
    requires var b := NewBody(body, c, id); |b| >= 2 && LastTwo(b) == ZEROS
    ensures var cut := Cut(NewBody(body, c, id));
            && (!BodyPanics(cut, c, id) && NewBody(cut, c, id) == cut <==> !ZerosMatter(body, c, id))
            && (Shows(cut, c, id) <==> !(ZerosMatter(body, c, id) && !Shows(Cut(body), c, id)))
  {
    hide BodyPanics, NewBody, Shows, IsNameRecord;
    var b := NewBody(body, c, id);
    ShowsIsFixed(body, c, id);
    ShowsIsFixed(Cut(b), c, id);
    if b != body {
      RewrittenCutIsLeft(body, c, id);
    }
  }

  lemma RewrittenCutIsLeft(body: seq<Byte>, c: Context, id: Identity)
    requires !BodyPanics(body, c, id) && NewBody(body, c, id) != body
    requires var b := NewBody(body, c, id); |b| >= 2 && LastTwo(b) == ZEROS
    ensures var cut := Cut(NewBody(body, c, id)); !BodyPanics(cut, c, id) && NewBody(cut, c, id) == cut
  {
    if IsNameRecord(body) {
      hide IsNameRecord, NewName, NewRdata, Panics;
      NewNameParts(body, id.host);
      CutNameIsLeft(NewName(body, id.host), c, id);
    } else {
      hide IsNameRecord, NewName, NewRdata, Panics;
      CutRdataIsLeft(body, c, id);
    }
  }

  /** The last record with the tail that runs on from it, and the context it is read in. */
  function LastBody(v: seq<Byte>): seq<Byte>
    requires Records(v).0 != []
  {
    var (recs, tail) := Records(v);
    recs[|recs| - 1] + tail
  }

  function LastContext(v: seq<Byte>): Context
    requires Records(v).0 != []
  {
    var recs := Records(v).0;
    AfterAll(recs[..|recs| - 1], START)
  }

  /** A second rewriting sees something else than the first: there is a tail, and its zeros matter. */
  ghost predicate HidesZeros(v: seq<Byte>, id: Identity) {
    Records(v).0 != [] && Records(v).1 != [] && ZerosMatter(LastBody(v), LastContext(v), id)
  }

  lemma LastOfPayload(v: seq<Byte>)
    requires Records(v).0 != []
    ensures var bodies := JoinTail(Records(v).0, Records(v).1);
            var n := |bodies| - 1;
            bodies[n] == LastBody(v) && AfterAll(bodies[..n], START) == LastContext(v)
  {
    hide Records, AfterAll;
    var (recs, tail) := Records(v);
    var bodies := JoinTail(recs, tail);
    assert bodies[..|bodies| - 1] == recs[..|recs| - 1];
    assert tail == [] ==> recs[|recs| - 1] + tail == recs[|recs| - 1];
  }

  /** What the rewritten payload ends in, and how that relates to the payload before. */
  lemma EndOfRewritten(v: seq<Byte>, id: Identity, w: seq<Byte>)
    requires Rewrite(v, id) == Emitted(w) && Records(v).0 != [] && Records(v).1 != []
    ensures var out := Rewritten(v, id).value;
            var b := out[|out| - 1];
            && |b| >= 2 && |w| >= 2 && LastTwo(w) == LastTwo(b)
            && !BodyPanics(LastBody(v), LastContext(v), id) && b == NewBody(LastBody(v), LastContext(v), id)
            && AfterAll(out[..|out| - 1], START) == LastContext(v)
  {
    hide Records, NewBodies, EmitBodies, NewBody, BodyPanics, AfterAll, LastBody, LastContext, JoinTail, Reparsed;
    LastOfPayload(v);
    LastNewBody(JoinTail(Records(v).0, Records(v).1), id);
    RecordsOfTailed(Rewritten(v, id).value);
  }

  /**
   * Rewriting what a rewriting gave changes nothing, except exactly when the payload has a tail whose two
   * zeros at the end matter: the second rewriting reads them as a record of their own.
   */
  lemma RewriteAgain(v: seq<Byte>, id: Identity, w: seq<Byte>)
    requires Rewrite(v, id) == Emitted(w)
    ensures Rewrite(w, id) == Emitted(w) <==> !HidesZeros(v, id)
  {
    hide Records, NewBodies, EmitBodies, JoinTail, NewBody, BodyPanics, AfterAll, LastBody, LastContext, Shows;
    if Records(v).0 != [] {
      RewriteAgainByCut(v, id, w);
      if Records(v).1 != [] {
        EndOfRewritten(v, id, w);
        ZerosAreLast(v, id);
        if EndsInZeros(w) {
          CutOfRewritten(LastBody(v), LastContext(v), id);
        }
      }
    }
  }

  /** Zeros that matter are still at the end after the rewriting. */
  lemma ZerosAreLast(v: seq<Byte>, id: Identity)
    requires Records(v).0 != []
    ensures var b, c := LastBody(v), LastContext(v);
            ZerosMatter(b, c, id) ==> NewBody(b, c, id) == b && LastTwo(b) == ZEROS
  {
    hide Records, NewBody, BodyPanics, AfterAll, LastBody, LastContext, Shows;
    ShowsIsFixed(LastBody(v), LastContext(v), id);
  }

  lemma {:induction false} TailIsShort(v: seq<Byte>)
    ensures var tail := Records(v).1; |tail| < 2 || 2 + U16Le(tail[..2]) > |tail|
    decreases |v|
  {
    hide U16Le;
    if |v| >= 2 && 2 + U16Le(v[..2]) <= |v| {
      TailIsShort(v[2 + U16Le(v[..2])..]);
    }
  }

  lemma TwoOctetTail(v: seq<Byte>)
    requires |Records(v).1| == 2
    ensures Records(v).1 != ZEROS
  {
    hide Records;
    TailIsShort(v);
    assert Records(v).1[..2] == Records(v).1;
  }

  /** With no tail, or one of two octets, there is nothing to hide. */
  lemma UsualTailHidesNothing(v: seq<Byte>, id: Identity)
    requires |Records(v).1| == 0 || |Records(v).1| == 2
    ensures !HidesZeros(v, id)
  {
    hide Records, BodyPanics, Shows, LastContext;
    if Records(v).0 != [] && |Records(v).1| == 2 {
      TwoOctetTail(v);
      assert LastTwo(LastBody(v)) == Records(v).1;
    }
  }

  /**
   * On payloads with the two trailing octets seen on the air, and on those with none, the rewriting
   * is idempotent.
   */
  lemma RewriteIdempotent(v: seq<Byte>, id: Identity, w: seq<Byte>)
    requires Rewrite(v, id) == Emitted(w)
    requires |Records(v).1| == 0 || |Records(v).1| == 2
    ensures Rewrite(w, id) == Emitted(w)
  {
    hide Rewrite, HidesZeros, Records;
    RewriteAgain(v, id, w);
    UsualTailHidesNothing(v, id);
  }

  // A hostname "h" before a service label, and the compression pointer after it.
  const SAMPLE_LABELS: seq<seq<Byte>> := [[104], PREPAIR]
  const SAMPLE_POINTER: seq<Byte> := [0xc0, 0x0c]

  function SampleName(): seq<Byte> {
    LabelsText(SAMPLE_LABELS) + SAMPLE_POINTER
  }

  lemma SampleParts(more: seq<Byte>)
    ensures var b := SampleName() + more;
            && Labels(b) == SAMPLE_LABELS && Stop(b) == SAMPLE_POINTER + more
            && |b| == 19 + |more| && b[0] == 1 && b[1] == 104
    ensures var b := SampleName() + more; NameEnd(b) == Some(19)
  {
    hide Labels, Stop;
    var l := LabelsText(SAMPLE_LABELS);
    assert SAMPLE_LABELS == [[104]] + [PREPAIR];
    LabelsTextCons([104], [PREPAIR]);
    LabelsTextOfOne(PREPAIR);
    assert l == [1, 104] + LabelText(PREPAIR);
    assert SampleName() + more == l + (SAMPLE_POINTER + more);
    PartsOfName(SAMPLE_LABELS, SAMPLE_POINTER + more);
  }

  /** With another tail it need not be: zeros at the end hide a name record from the first rewriting only. */
  lemma RewriteNotIdempotent()
    ensures var v := U16LeBytes(19) + SampleName() + [5, 0, 0];
            var id := Identity(NO_ADDR, NO_ADDR, [], [120], [], [], []);
            && |Records(v).1| == 3
            && Rewrite(v, id).Emitted? && Rewrite(Rewrite(v, id).payload, id) != Rewrite(v, id)
  {
    hide SampleName, Records, Labels, Stop, LabelsText, EmitBodies, CutIsLeft;
    var id := Identity(NO_ADDR, NO_ADDR, [], [120], [], [], []);
    var tail: seq<Byte> := [5, 0, 0];
    var v := U16LeBytes(19) + SampleName() + tail;
    var body := SampleName() + tail;
    SampleParts([]);
    assert SampleName() + [] == SampleName();
    FirstRecord(SampleName(), tail);
    OddTail();
    assert [SampleName()] + [] == [SampleName()];
    assert JoinTail([SampleName()], tail) == [body];
    SampleParts(tail);
    assert !IsNameRecord(body) && NewBody(body, START, id) == body;
    NewBodiesOfOne(body, START, id);
    assert NewBodies([body], START, id) == Some([body]);
    EmitStep([body], true);
    EmitNothing(true);
    var w := U16LeBytes(|body| - 2) + body + [];
    assert Rewrite(v, id) == Emitted(w);
    assert w[|w| - 2..] == ZEROS;
    RewriteAgainByCut(v, id, w);
    SampleCut(id);
    assert body[..|body| - 2] == SampleName() + [5];
    CutIsLeftOfOne(body, id);
  }

  lemma OddTail()
    ensures Records([5, 0, 0]) == ([], [5, 0, 0])
  {
    var t: seq<Byte> := [5, 0, 0];
    assert t[..2] == [5, 0];
  }

  lemma CutIsLeftOfOne(body: seq<Byte>, id: Identity)
    requires |body| >= 2
    ensures CutIsLeft([body], id) ==> NewBody(body[..|body| - 2], START, id) == body[..|body| - 2]
  {
    hide NewBody, BodyPanics;
    var none: seq<seq<Byte>> := [];
    assert [body][..0] == none;
  }

  lemma NewBodiesOfOne(body: seq<Byte>, c: Context, id: Identity)
    requires !BodyPanics(body, c, id)
    ensures NewBodies([body], c, id) == Some([NewBody(body, c, id)])
  {
    hide BodyPanics, NewBody;
    NewBodiesStep([body], c, id);
    var none: seq<seq<Byte>> := [];
    assert [body][1..] == none;
    assert [NewBody(body, c, id)] + none == [NewBody(body, c, id)];
  }

  lemma SampleCut(id: Identity)
    requires id.host == [120]
    ensures NewBody(SampleName() + [5], START, id) != SampleName() + [5]
  {
    hide SampleName, Labels, Stop, LabelsText;
    var cut := SampleName() + [5];
    SampleParts([5]);
    assert cut[17] == 0xc0 by {
      NameParts(cut);
      assert cut == LabelsText(Labels(cut)) + Stop(cut);
    }
    assert IsNameRecord(cut);
    var labels := SAMPLE_LABELS;
    assert labels[1] == PREPAIR && LastService(labels) == Some(1);
    var edited := labels[0 := id.host];
    assert edited == [[120]] + [PREPAIR];
    LabelsTextCons([120], [PREPAIR]);
    assert (LabelsText(edited) + Stop(cut))[1] == 120;
  }

  // ---- What the rewritten payload shows ----

  /** A payload with records that the rewriting leaves as it is shows us. */
  lemma FixedShowsUs(w: seq<Byte>, id: Identity)
    requires Rewrite(w, id) == Emitted(w) && Records(w).0 != []
    ensures AllShow(JoinTail(Records(w).0, Records(w).1), START, id)
    ensures |Records(w).1| == 0 || |Records(w).1| == 2
  {
    hide Records, NewBodies, EmitBodies, AllShow;
    var (recs, tail) := Records(w);
    var bodies := JoinTail(recs, tail);
    var out := NewBodies(bodies, START, id).value;
    if tail == [] {
      RecordsOfExact(out);
    } else {
      RecordsOfTailed(out);
      JoinCut(out);
    }
    AllShowIsFixed(bodies, START, id);
  }

  lemma {:induction false} AllShowConcat(a: seq<seq<Byte>>, b: seq<seq<Byte>>, c: Context, id: Identity)
    ensures AllShow(a + b, c, id) <==> AllShow(a, c, id) && AllShow(b, AfterAll(a, c), id)
  {
    hide Shows, After;
    if a == [] {
      assert a + b == b;
    } else {
      assert (a + b)[0] == a[0] && (a + b)[1..] == a[1..] + b;
      AllShowConcat(a[1..], b, After(a[0], c), id);
    }
  }

  lemma OneAndEmpty(body: seq<Byte>, c: Context, id: Identity)
    ensures AllShow([body] + ONE_EMPTY, c, id) <==> Shows(body, c, id)
  {
    hide After;
    var bodies := [body] + ONE_EMPTY;
    var none: seq<seq<Byte>> := [];
    assert bodies[0] == body && bodies[1..] == ONE_EMPTY && ONE_EMPTY[1..] == none;
    hide Shows;
    var d := After(body, c);
    EmptyShows(d, id);
    assert AllShow(none, After(ONE_EMPTY[0], d), id);
    assert AllShow(ONE_EMPTY, d, id);
  }

  lemma EmptyShows(c: Context, id: Identity)
    ensures Shows([], c, id)
  {
  }

  /** The bodies of a payload whose last body was emitted short and ended in zeros. */
  lemma CutShows(out: seq<seq<Byte>>, id: Identity)
    requires out != [] && |out[|out| - 1]| >= 2 && NewBodies(out, START, id) == Some(out)
    ensures var c := AfterAll(out[..|out| - 1], START);
            AllShow(CutLast(out).0 + ONE_EMPTY, START, id) <==> Shows(Cut(out[|out| - 1]), c, id)
  {
    hide Shows, NewBodies, AllShow, AfterAll;
    var n := |out| - 1;
    var front, cut := out[..n], Cut(out[n]);
    assert out == front + [out[n]];
    AllShowIsFixed(out, START, id);
    AllShowConcat(front, [out[n]], START, id);
    assert CutLast(out).0 + ONE_EMPTY == front + ([cut] + ONE_EMPTY);
    AllShowConcat(front, [cut] + ONE_EMPTY, START, id);
    OneAndEmpty(cut, AfterAll(front, START), id);
  }

  /** The records of a rewritten payload: the rewritten bodies, or those with two zeros cut off the last. */
  lemma BodiesOfRewritten(v: seq<Byte>, id: Identity, w: seq<Byte>)
    requires Rewrite(v, id) == Emitted(w) && Records(v).0 != []
    ensures Records(w).0 != [] && NewBodies(Rewritten(v, id).value, START, id) == Rewritten(v, id)
    ensures Records(v).1 == [] || !EndsInZeros(w) ==>
              JoinTail(Records(w).0, Records(w).1) == Rewritten(v, id).value
    ensures Records(v).1 != [] && EndsInZeros(w) ==>
              var out := Rewritten(v, id).value;
              |out[|out| - 1]| >= 2 && JoinTail(Records(w).0, Records(w).1) == CutLast(out).0 + ONE_EMPTY
  {
    hide Records, NewBodies, EmitBodies;
    var (recs, tail) := Records(v);
    var out := Rewritten(v, id).value;
    NewBodiesTwice(JoinTail(recs, tail), START, id);
    if tail == [] {
      RecordsOfExact(out);
    } else {
      RecordsOfTailed(out);
      if !EndsInZeros(w) {
        JoinCut(out);
      }
    }
  }

  /**
   * After a rewriting every record that carries an identity carries ours, except exactly when two zeros
   * were hidden at the end and what is before them does not show us; with a usual tail always.
   */
  lemma RewriteShowsUs(v: seq<Byte>, id: Identity, w: seq<Byte>)
    requires Rewrite(v, id) == Emitted(w) && Records(v).0 != []
    ensures Records(w).0 != []
    ensures AllShow(JoinTail(Records(w).0, Records(w).1), START, id)
            <==> !(HidesZeros(v, id) && !Shows(Cut(LastBody(v)), LastContext(v), id))
    ensures |Records(v).1| == 0 || |Records(v).1| == 2 ==>
              AllShow(JoinTail(Records(w).0, Records(w).1), START, id)
  {
    hide Records, NewBodies, EmitBodies, JoinTail, NewBody, BodyPanics, AfterAll, LastBody, LastContext, Shows, AllShow;
    var out := Rewritten(v, id).value;
    BodiesOfRewritten(v, id, w);
    if |Records(v).1| == 0 || |Records(v).1| == 2 {
      UsualTailHidesNothing(v, id);
    }
    AllShowIsFixed(out, START, id);
    if Records(v).1 != [] {
      EndOfRewritten(v, id, w);
      ZerosAreLast(v, id);
      if EndsInZeros(w) {
        CutShows(out, id);
        CutOfRewritten(LastBody(v), LastContext(v), id);
      }
    }
  }

  /**
   * A payload comes out as it is exactly when it has no records, or when all of them show us already and the tail
   * has zero or two octets.
   */
  lemma RewriteIdentity(v: seq<Byte>, id: Identity)
    ensures Rewrite(v, id) == Emitted(v) <==>
            || Records(v).0 == []
            || (AllShow(JoinTail(Records(v).0, Records(v).1), START, id) && Rewrite(v, id) != Panicked
                && (|Records(v).1| == 0 || |Records(v).1| == 2))
  {
    hide NewBodies, EmitBodies, AllShow, Records;
    var (recs, tail) := Records(v);
    if recs == [] {
    } else if Rewrite(v, id) == Emitted(v) {
      FixedShowsUs(v, id);
    } else if Rewrite(v, id) != Panicked && (|tail| == 0 || |tail| == 2) {
      AllShowIsFixed(JoinTail(recs, tail), START, id);
      RecordsText(v);
      EmitJoined(recs, tail);
    }
  }

  // ---- When there is no rewriting ----

  /** Some body panics where it stands. */
  ghost predicate SomePanics(bodies: seq<seq<Byte>>, c: Context, id: Identity) {
    exists k :: 0 <= k < |bodies| && BodyPanics(bodies[k], AfterAll(bodies[..k], c), id)
  }

  /** The context before a body further on. */
  lemma ContextStep(bodies: seq<seq<Byte>>, k: nat, c: Context)
    requires 0 < k <= |bodies|
    ensures AfterAll(bodies[..k], c) == AfterAll(bodies[1..][..k - 1], After(bodies[0], c))
  {
    hide After;
    assert bodies[..k][0] == bodies[0] && bodies[..k][1..] == bodies[1..][..k - 1];
  }

  lemma {:induction false} PanicsIff(bodies: seq<seq<Byte>>, c: Context, id: Identity)
    ensures NewBodies(bodies, c, id).None? <==> SomePanics(bodies, c, id)
  {
    hide BodyPanics, After, NewBody;
    if bodies != [] {
      var rest, d := bodies[1..], After(bodies[0], c);
      PanicsIff(rest, d, id);
      assert AfterAll(bodies[..0], c) == c;
      if SomePanics(rest, d, id) {
        var k :| 0 <= k < |rest| && BodyPanics(rest[k], AfterAll(rest[..k], d), id);
        ContextStep(bodies, k + 1, c);
        assert rest[k] == bodies[k + 1];
        assert BodyPanics(bodies[k + 1], AfterAll(bodies[..k + 1], c), id);
      }
      if SomePanics(bodies, c, id) {
        var k :| 0 <= k < |bodies| && BodyPanics(bodies[k], AfterAll(bodies[..k], c), id);
        if k > 0 {
          ContextStep(bodies, k, c);
          assert rest[k - 1] == bodies[k];
          assert BodyPanics(rest[k - 1], AfterAll(rest[..k - 1], d), id);
        }
      }
    }
  }

  lemma {:induction false} NewBodyAt(bodies: seq<seq<Byte>>, c: Context, id: Identity, k: nat)
    requires NewBodies(bodies, c, id).Some? && k < |bodies|
    ensures NewBodies(bodies, c, id).value[k] == NewBody(bodies[k], AfterAll(bodies[..k], c), id)
  {
    hide BodyPanics, After, NewBody;
    if k == 0 {
      assert AfterAll(bodies[..0], c) == c;
    } else {
      NewBodyAt(bodies[1..], After(bodies[0], c), id, k - 1);
      ContextStep(bodies, k, c);
    }
  }

  /** The length of body `k` can be declared. */
  predicate Declares(bodies: seq<seq<Byte>>, hasTail: bool, k: nat)
    requires k < |bodies|
  {
    var short := if k == |bodies| - 1 && hasTail then 2 else 0;
    short <= |bodies[k]| <= 0xffff + short
  }

  ghost predicate AllDeclare(bodies: seq<seq<Byte>>, hasTail: bool) {
    forall k :: 0 <= k < |bodies| ==> Declares(bodies, hasTail, k)
  }

  lemma {:induction false} EmitsIff(bodies: seq<seq<Byte>>, hasTail: bool)
    ensures EmitBodies(bodies, hasTail).Some? <==> AllDeclare(bodies, hasTail)
  {
    hide U16LeBytes;
    if bodies != [] {
      var rest := bodies[1..];
      EmitsIff(rest, hasTail);
      EmitStep(bodies, hasTail);
      assert forall k :: 0 <= k < |rest| ==> Declares(rest, hasTail, k) == Declares(bodies, hasTail, k + 1);
      assert EmitBodies(bodies, hasTail).Some? <==> Declares(bodies, hasTail, 0) && EmitBodies(rest, hasTail).Some?;
      forall k | 0 < k < |bodies|
        ensures Declares(bodies, hasTail, k) == Declares(rest, hasTail, k - 1)
      {
      }
    }
  }

  /**
   * The rewriting panics exactly when some record is SRV rdata too short for the window search, and refuses
   * exactly when, without a panic, the length of some rewritten record cannot be declared.
   */
  lemma RewriteOutcome(v: seq<Byte>, id: Identity)
    requires Records(v).0 != []
    ensures var bodies, hasTail := JoinTail(Records(v).0, Records(v).1), Records(v).1 != [];
            && (Rewrite(v, id) == Panicked <==> SomePanics(bodies, START, id))
            && (Rewrite(v, id) == Unencodable <==>
                  Rewritten(v, id).Some? && !AllDeclare(Rewritten(v, id).value, hasTail))
    ensures Rewritten(v, id).Some? ==>
              var bodies := JoinTail(Records(v).0, Records(v).1);
              forall k :: 0 <= k < |bodies| ==>
                Rewritten(v, id).value[k] == NewBody(bodies[k], AfterAll(bodies[..k], START), id)
  {
    hide Records, JoinTail, NewBodies, EmitBodies, SomePanics, NewBody, AfterAll, AllDeclare;
    var (recs, tail) := Records(v);
    var bodies := JoinTail(recs, tail);
    PanicsIff(bodies, START, id);
    if Rewritten(v, id).Some? {
      EmitsIff(Rewritten(v, id).value, tail != []);
      forall k | 0 <= k < |bodies|
        ensures Rewritten(v, id).value[k] == NewBody(bodies[k], AfterAll(bodies[..k], START), id)
      {
        NewBodyAt(bodies, START, id, k);
      }
    }
  }

  /** The octets of records behind their lengths. */
  function RecordsBytes(recs: seq<seq<Byte>>): seq<Byte>
    requires forall i :: 0 <= i < |recs| ==> |recs[i]| <= 0xffff
  {
    if recs == [] then [] else U16LeBytes(|recs[0]|) + recs[0] + RecordsBytes(recs[1..])
  }

  lemma {:induction false} RecordsText(v: seq<Byte>)
    ensures var (recs, tail) := Records(v);
            (forall i :: 0 <= i < |recs| ==> |recs[i]| <= 0xffff) && v == RecordsBytes(recs) + tail
    decreases |v|
  {
    if |v| >= 2 && 2 + U16Le(v[..2]) <= |v| {
      hide U16Le, U16LeBytes;
      var n := U16Le(v[..2]);
      RecordsText(v[2 + n..]);
      U16LeInjective(v[..2]);
      var (recs, tail) := Records(v[2 + n..]);
      assert Records(v).0 == [v[2..2 + n]] + recs;
      assert Records(v).0[1..] == recs;
      CutAround(v, 0, 2, 2 + n);
      assert v == v[0..] && v[0..2] == v[..2];
      var head := v[..2] + v[2..2 + n];
      assert head + (RecordsBytes(recs) + tail) == head + RecordsBytes(recs) + tail;
    } else {
      assert RecordsBytes([]) + v == v;
    }
  }

  lemma {:induction false} EmitJoined(recs: seq<seq<Byte>>, tail: seq<Byte>)
    requires recs != [] && forall i :: 0 <= i < |recs| ==> |recs[i]| <= 0xffff
    requires |tail| == 0 || |tail| == 2
    ensures EmitBodies(JoinTail(recs, tail), tail != []) == Some(RecordsBytes(recs) + tail)
    decreases |recs|
  {
    hide U16LeBytes, EmitBodies;
    var bodies := JoinTail(recs, tail);
    var first, rest := recs[0], recs[1..];
    var head := U16LeBytes(|first|) + first;
    EmitStep(bodies, tail != []);
    if |recs| == 1 {
      var none: seq<seq<Byte>> := [];
      assert tail == [] ==> first + tail == first;
      assert bodies == [first + tail] && bodies[1..] == none && rest == none;
      EmitNothing(tail != []);
      assert U16LeBytes(|first|) + (first + tail) + [] == head + [] + tail;
    } else {
      assert bodies[0] == first && bodies[1..] == JoinTail(rest, tail);
      hide JoinTail;
      EmitJoined(rest, tail);
      assert head + (RecordsBytes(rest) + tail) == head + RecordsBytes(rest) + tail;
    }
  }
}
