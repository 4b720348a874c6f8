/** What the rewriting of TLV 2 does to each record and what it leaves to be seen, read off the octets. */
module ShownIdentity {
  import opened Wrappers
  import opened ByteSeqs
  import opened ServiceRecords
  import opened RecordRewrite
  import opened TlvTwo

  lemma Constants()
    ensures PREPAIR == Octets("_appsvcprepair") && PAIRING == Octets("_applicationservicepairing")
    ensures SID_KEY == Octets("sid=") && AT_KEY == Octets("at=") && DNM_KEY == Octets("dnm=")
  {
  }

  // ---- Name records ----

  /** Labels, a pointer of two octets and a type; or a root label after an octet that could begin a pointer. */
  ghost predicate IsNameText(b: seq<Byte>, labels: seq<seq<Byte>>, end: seq<Byte>) {
    && ValidLabels(labels) && b == LabelsText(labels) + end
    && ((|end| == 3 && end[0] >= 0xc0)
        || (|end| == 2 && end[0] == 0 && labels != []
            && labels[|labels| - 1][|labels[|labels| - 1]| - 1] >= 0xc0))
  }

  lemma NameRecordIff(b: seq<Byte>)
    ensures IsNameRecord(b) <==> exists labels, end :: IsNameText(b, labels, end)
  {
    hide LabelsText, Labels, Stop;
    if IsNameRecord(b) {
      NameParts(b);
      if |Stop(b)| == 2 {
        NoLabelsText(Stop(b));
        EndOfLabels(Labels(b));
      }
      assert IsNameText(b, Labels(b), Stop(b));
    }
    if exists labels, end :: IsNameText(b, labels, end) {
      var labels, end :| IsNameText(b, labels, end);
      PartsOfName(labels, end);
      if |end| == 2 {
        EndOfLabels(labels);
      }
    }
  }

  // ---- The name in force ----

  /** Record `j` is the last name record before record `k`. */
  ghost predicate IsNamedBy(bodies: seq<seq<Byte>>, j: nat, k: nat)
    requires k <= |bodies|
  {
    j < k && IsNameRecord(bodies[j]) && forall i: nat :: j < i < k ==> !IsNameRecord(bodies[i])
  }

  predicate NamesAirDrop(name: seq<Byte>) {
    Octets("_appsvcprepair") in Labels(name) || Octets("_applicationservicepairing") in Labels(name)
  }

  lemma NamesServiceIff(b: seq<Byte>)
    ensures NamesService(b) <==> NamesAirDrop(b)
  {
    Constants();
    hide Labels;
    var labels := Labels(b);
    if i :| 0 <= i < |labels| && IsServiceLabel(labels[i]) {
      assert labels[i] in labels;
    }
  }

  lemma {:induction false} AfterAllSnoc(bodies: seq<seq<Byte>>, body: seq<Byte>, c: Context)
    ensures AfterAll(bodies + [body], c) == After(body, AfterAll(bodies, c))
    decreases |bodies|
  {
    hide After;
    if bodies == [] {
      var none: seq<seq<Byte>> := [];
      assert bodies + [body] == [body] && [body][1..] == none;
    } else {
      assert (bodies + [body])[0] == bodies[0] && (bodies + [body])[1..] == bodies[1..] + [body];
      AfterAllSnoc(bodies[1..], body, After(bodies[0], c));
    }
  }

  lemma NamedNext(bodies: seq<seq<Byte>>, k: nat, u: nat)
    requires u == k + 1 <= |bodies|
    ensures forall j: nat :: IsNamedBy(bodies, j, u) <==>
                               if IsNameRecord(bodies[k]) then j == k else IsNamedBy(bodies, j, k)
  {
    hide IsNameRecord;
    if !IsNameRecord(bodies[k]) {
      forall j: nat
        ensures IsNamedBy(bodies, j, u) <==> IsNamedBy(bodies, j, k)
      {
      }
    }
  }

  /** Record `k` is rewritten as the last name record before it says; without one it is not rewritten at all. */
  lemma {:induction false} ContextIs(bodies: seq<seq<Byte>>, k: nat)
    requires k <= |bodies|
    ensures forall j: nat :: IsNamedBy(bodies, j, k) ==>
                var name := bodies[j];
                |name| >= 3 && AfterAll(bodies[..k], START) == Context(name[|name| - 1], NamesAirDrop(name))
    ensures (forall j: nat :: !IsNamedBy(bodies, j, k)) ==> AfterAll(bodies[..k], START) == Context(0, false)
    decreases k
  {
    if k > 0 {
      var m, body := k - 1, bodies[k - 1];
      ContextIs(bodies, m);
      assert bodies[..k] == bodies[..m] + [body];
      AfterAllSnoc(bodies[..m], body, START);
      NamedNext(bodies, m, k);
      NamesServiceIff(body);
      AfterIs(body, AfterAll(bodies[..m], START));
      hide After, AfterAll, NamesAirDrop, IsNamedBy, IsNameRecord, NamesService;
      if IsNameRecord(body) {
        assert IsNamedBy(bodies, m, k);
      } else if forall j: nat :: !IsNamedBy(bodies, j, k) {
        assert forall j: nat :: IsNamedBy(bodies, j, m) ==> IsNamedBy(bodies, j, k);
      }
    } else {
      assert bodies[..0] == [];
    }
  }

  lemma AfterIs(body: seq<Byte>, c: Context)
    ensures IsNameRecord(body) ==> |body| >= 3 && After(body, c) == Context(body[|body| - 1], NamesService(body))
    ensures !IsNameRecord(body) ==> After(body, c) == c
  {
    hide NamesService, NameEnd;
  }

  // ---- What is looked for ----

  predicate IsHexDigit(b: Byte) {
    '0' as int <= b <= '9' as int || 'A' as int <= b <= 'F' as int || 'a' as int <= b <= 'f' as int
  }

  ghost predicate LooksLikeUuid(b: seq<Byte>) {
    && |b| == 36
    && forall i :: 0 <= i < 36 ==>
                     if i == 8 || i == 13 || i == 18 || i == 23 then b[i] == '-' as int
                     else IsHexDigit(b[i])
  }

  lemma UuidIff(b: seq<Byte>)
    ensures IsUuid(b) <==> LooksLikeUuid(b)
  {
    if |b| == 36 {
      forall i | 0 <= i < 36
        ensures IsHex(b[i]) <==> IsHexDigit(b[i])
      {
      }
    }
    hide IsHex, IsHexDigit;
  }

  ghost predicate UuidStandsAt(rd: seq<Byte>, at: nat) {
    at + 36 <= |rd| && LooksLikeUuid(rd[at..at + 36])
  }

  /** The first window of 36 octets that looks like a UUID. */
  ghost predicate IsFirstUuid(rd: seq<Byte>, at: nat) {
    UuidStandsAt(rd, at) && forall k: nat :: k < at ==> !UuidStandsAt(rd, k)
  }

  lemma FirstUuidIs(rd: seq<Byte>)
    ensures forall at: nat :: IsFirstUuid(rd, at) <==> FindUuid(rd, 0) == Some(at)
  {
    forall k: nat
      ensures UuidAt(rd, k) <==> UuidStandsAt(rd, k)
    {
      if k + 36 <= |rd| {
        UuidIff(rd[k..k + 36]);
      }
    }
    hide UuidStandsAt, UuidAt;
    forall at: nat
      ensures IsFirstUuid(rd, at) <==> FindUuid(rd, 0) == Some(at)
    {
    }
  }

  /** Label `i` is the hostname: the one after it is the last service label. */
  ghost predicate IsHostLabel(labels: seq<seq<Byte>>, i: nat) {
    && i + 1 < |labels|
    && labels[i + 1] in [Octets("_appsvcprepair"), Octets("_applicationservicepairing")]
    && forall k :: i + 1 < k < |labels| ==>
                     labels[k] !in [Octets("_appsvcprepair"), Octets("_applicationservicepairing")]
  }

  lemma HostLabelIs(labels: seq<seq<Byte>>)
    ensures forall i: nat :: IsHostLabel(labels, i) <==> HostAt(labels) == Some(i)
  {
    Constants();
    forall k | 0 <= k < |labels|
      ensures IsServiceLabel(labels[k]) <==>
              labels[k] in [Octets("_appsvcprepair"), Octets("_applicationservicepairing")]
    {
    }
    hide IsServiceLabel, Octets;
    forall i: nat
      ensures IsHostLabel(labels, i) <==> HostAt(labels) == Some(i)
    {
      if IsHostLabel(labels, i) {
        LastServiceIs(labels, i + 1);
      }
    }
  }

  /** What follows the complete strings of TXT rdata. */
  function TextRest(rd: seq<Byte>): (rest: seq<Byte>)
    ensures rest == [] || 1 + rest[0] as int > |rest|
  {
    if rd == [] || 1 + rd[0] as int > |rd| then rd else TextRest(rd[1 + rd[0]..])
  }

  lemma StringFirst(s: seq<Byte>, rest: seq<Byte>)
    requires |s| < 256
    ensures var rd := LabelText(s) + rest;
            Strings(rd) == [s] + Strings(rest) && TextRest(rd) == TextRest(rest)
  {
    var rd := LabelText(s) + rest;
    assert rd[1..1 + |s|] == s && rd[1 + |s|..] == rest;
  }

  lemma NoStrings(rd: seq<Byte>)
    requires rd == [] || 1 + rd[0] as int > |rd|
    ensures Strings(rd) == [] && TextRest(rd) == rd && LabelsText([]) + rd == rd
  {
  }

  ghost predicate AreShort(strings: seq<seq<Byte>>) {
    forall i :: 0 <= i < |strings| ==> |strings[i]| < 256
  }

  lemma StringsCons(s: seq<Byte>, strings: seq<seq<Byte>>)
    requires |s| < 256 && AreShort(strings)
    ensures AreShort([s] + strings) && LabelsText([s] + strings) == LabelText(s) + LabelsText(strings)
  {
    assert ([s] + strings)[1..] == strings;
  }

  /** TXT rdata is its strings behind their lengths, and what follows them. */
  lemma {:induction false} TextParts(rd: seq<Byte>)
    ensures AreShort(Strings(rd)) && rd == LabelsText(Strings(rd)) + TextRest(rd)
    decreases |rd|
  {
    hide Strings, TextRest, LabelsText;
    if rd != [] && 1 + rd[0] as int <= |rd| {
      var s, rest := rd[1..1 + rd[0]], rd[1 + rd[0]..];
      TextParts(rest);
      assert rd == LabelText(s) + rest;
      StringFirst(s, rest);
      StringsCons(s, Strings(rest));
      assert LabelText(s) + (LabelsText(Strings(rest)) + TextRest(rest)) ==
             LabelText(s) + LabelsText(Strings(rest)) + TextRest(rest);
    } else {
      NoStrings(rd);
    }
  }

  // ---- What each record becomes ----

  predicate Fits(text: seq<Byte>) {
    1 <= |text| <= 60
  }

  ghost predicate NameBecomes(b: seq<Byte>, now: seq<Byte>, host: seq<Byte>) {
    && (forall i: nat :: IsHostLabel(Labels(b), i) && Fits(host) ==>
                           Labels(now) == Labels(b)[i := host] && Stop(now) == Stop(b))
    && ((forall i: nat :: !IsHostLabel(Labels(b), i)) || !Fits(host) ==> now == b)
  }

  /** A string under one of our keys becomes ours, unless our value is missing or too long. */
  predicate StringBecomes(s: seq<Byte>, now: seq<Byte>, id: Identity) {
    if Octets("sid=") <= s && id.sid != [] then now == if |id.sid| <= 251 then Octets("sid=") + id.sid else s
    else if Octets("at=") <= s && id.at != [] then now == if |id.at| <= 252 then Octets("at=") + id.at else s
    else if Octets("dnm=") <= s && id.display != [] then
      now == if |id.display| <= 251 then Octets("dnm=") + id.display else s
    else now == s
  }

  ghost predicate TextBecomes(rd: seq<Byte>, now: seq<Byte>, id: Identity) {
    && |Strings(now)| == |Strings(rd)| && TextRest(now) == TextRest(rd)
    && forall i :: 0 <= i < |Strings(rd)| ==> StringBecomes(Strings(rd)[i], Strings(now)[i], id)
  }

  ghost predicate UuidBecomes(rd: seq<Byte>, now: seq<Byte>, uuid: seq<Byte>) {
    && (forall at: nat :: LooksLikeUuid(uuid) && IsFirstUuid(rd, at) ==> now == rd[..at] + uuid + rd[at + 36..])
    && (!LooksLikeUuid(uuid) || (forall at: nat :: !IsFirstUuid(rd, at)) ==> now == rd)
  }

  /** The rdata after a name record of the given type. */
  ghost predicate RdataBecomes(kind: Byte, rd: seq<Byte>, now: seq<Byte>, id: Identity) {
    if kind == 0x0c then
      if Fits(id.display) && |Labels(rd)| == 1 then Labels(now) == [id.display] && Stop(now) == Stop(rd) else now == rd
    else if kind == 0x10 then TextBecomes(rd, now, id)
    else if kind == 0x21 then UuidBecomes(rd, now, id.uuid)
    else now == rd
  }

  /** Two zeros and the rdata. */
  predicate IsRdata(b: seq<Byte>) {
    !IsNameRecord(b) && |b| >= 2 && b[0] == 0 && b[1] == 0
  }

  /** Record `k` is rdata under the AirDrop name record `j`. */
  ghost predicate IsOurRdata(bodies: seq<seq<Byte>>, j: nat, k: nat)
    requires k < |bodies|
  {
    IsRdata(bodies[k]) && IsNamedBy(bodies, j, k) && NamesAirDrop(bodies[j])
  }

  function LastOctet(b: seq<Byte>): Byte {
    if b == [] then 0 else b[|b| - 1]
  }

  /** What record `k` is rewritten to. */
  ghost predicate Becomes(bodies: seq<seq<Byte>>, k: nat, now: seq<Byte>, id: Identity)
    requires k < |bodies|
  {
    var b := bodies[k];
    if IsNameRecord(b) then NameBecomes(b, now, id.host)
    else
      && (forall j: nat :: IsOurRdata(bodies, j, k) ==>
                             |now| >= 2 && now[..2] == b[..2]
                             && RdataBecomes(LastOctet(bodies[j]), b[2..], now[2..], id))
      && ((forall j: nat :: !IsOurRdata(bodies, j, k)) ==> now == b)
  }

  lemma NewNameBecomes(b: seq<Byte>, host: seq<Byte>)
    ensures NameBecomes(b, NewName(b, host), host)
  {
    HostLabelIs(Labels(b));
    NameParts(b);
    hide IsHostLabel, Labels, Stop, LabelsText, HostAt;
    var labels := Labels(b);
    if HostAt(labels).Some? && Usable(host) {
      PartsOfName(labels[HostAt(labels).value := host], Stop(b));
    }
  }

  lemma SwappedBecomes(s: seq<Byte>, id: Identity)
    requires |s| < 256
    ensures StringBecomes(s, Swapped(s, id), id)
  {
    Constants();
    hide Octets;
  }

  lemma {:induction false} NewTextBecomes(rd: seq<Byte>, id: Identity)
    ensures TextBecomes(rd, NewText(rd, id), id)
    decreases |rd|
  {
    hide StringBecomes, Swapped;
    if rd != [] && 1 + rd[0] as int <= |rd| {
      var s, rest := rd[1..1 + rd[0]], rd[1 + rd[0]..];
      NewTextBecomes(rest, id);
      SwappedBecomes(s, id);
      StringFirst(Swapped(s, id), NewText(rest, id));
      StringFirst(s, rest);
      assert rd == LabelText(s) + rest;
      hide TextRest, NewText, Strings;
    } else {
      assert NewText(rd, id) == rd;
    }
  }

  lemma NewUuidBecomes(rd: seq<Byte>, uuid: seq<Byte>)
    ensures UuidBecomes(rd, if IsUuid(uuid) then NewUuid(rd, uuid) else rd, uuid)
  {
    UuidIff(uuid);
    FirstUuidIs(rd);
    hide IsUuid, LooksLikeUuid, IsFirstUuid, FindUuid;
  }

  lemma NewRdataBecomes(b: seq<Byte>, kind: Byte, id: Identity)
    requires HasRdata(b)
    ensures var now := NewRdata(b, kind, id, true);
            |now| >= 2 && now[..2] == b[..2] && RdataBecomes(kind, b[2..], now[2..], id)
  {
    var rd, now := b[2..], NewRdata(b, kind, id, true);
    assert b == b[..2] + rd;
    NewUuidBecomes(rd, id.uuid);
    NewTextBecomes(rd, id);
    hide NewText, NewUuid, TextBecomes, UuidBecomes, IsUuid, Labels, Stop;
    assert b[..2] + now[2..] == now;
    if kind == 0x0c && Fits(id.display) && |Labels(rd)| == 1 {
      FirstLabel(id.display, Stop(rd));
      StopHasNoLabels(rd);
      assert now[2..] == LabelText(id.display) + Stop(rd);
    }
  }

  lemma StopHasNoLabels(b: seq<Byte>)
    ensures Labels(Stop(b)) == [] && Stop(Stop(b)) == Stop(b)
  {
    NoLabels(Stop(b));
  }

  /** Every record is rewritten as its own octets and the last name record before it say. */
  lemma EveryRecordBecomes(v: seq<Byte>, id: Identity, k: nat)
    requires Records(v).0 != [] && Rewritten(v, id).Some? && k < |Records(v).0|
    ensures |Rewritten(v, id).value| == |Records(v).0|
    ensures Becomes(JoinTail(Records(v).0, Records(v).1), k, Rewritten(v, id).value[k], id)
  {
    hide Records, Becomes, NewBody, JoinTail;
    var bodies := JoinTail(Records(v).0, Records(v).1);
    NewBodyAt(bodies, START, id, k);
    NewBodyBecomes(bodies, k, id);
  }

  lemma NewBodyIs(b: seq<Byte>, c: Context, id: Identity)
    ensures IsNameRecord(b) ==> NewBody(b, c, id) == NewName(b, id.host)
    ensures !IsNameRecord(b) ==> NewBody(b, c, id) == NewRdata(b, c.kind, id, c.service)
    ensures IsRdata(b) <==> !IsNameRecord(b) && HasRdata(b)
    ensures !HasRdata(b) || !c.service ==> NewRdata(b, c.kind, id, c.service) == b
  {
    hide NewName, IsNameRecord, NewText, NewUuid, NewDisplay, IsUuid;
  }

  /** The context of a record, when some name record is in force. */
  lemma OurRdataContext(bodies: seq<seq<Byte>>, k: nat)
    requires k < |bodies|
    ensures forall j: nat :: IsOurRdata(bodies, j, k) ==>
                               AfterAll(bodies[..k], START) == Context(LastOctet(bodies[j]), true)
    ensures IsRdata(bodies[k]) && (forall j: nat :: !IsOurRdata(bodies, j, k)) ==> !AfterAll(bodies[..k], START).service
  {
    ContextIs(bodies, k);
    hide IsNamedBy, IsNameRecord, NamesAirDrop, AfterAll, IsRdata;
    if j: nat :| IsNamedBy(bodies, j, k) {
      assert AfterAll(bodies[..k], START).service ==> (IsRdata(bodies[k]) ==> IsOurRdata(bodies, j, k));
    }
  }

  lemma NewBodyBecomes(bodies: seq<seq<Byte>>, k: nat, id: Identity)
    requires k < |bodies|
    ensures Becomes(bodies, k, NewBody(bodies[k], AfterAll(bodies[..k], START), id), id)
  {
    var b, c := bodies[k], AfterAll(bodies[..k], START);
    NewBodyIs(b, c, id);
    OurRdataContext(bodies, k);
    if IsNameRecord(b) {
      NewNameBecomes(b, id.host);
    } else if HasRdata(b) {
      NewRdataBecomes(b, c.kind, id);
    }
    hide NewBody, NewName, NewRdata, NameBecomes, RdataBecomes, IsNameRecord, HasRdata, AfterAll, IsRdata;
    assert forall j: nat :: IsOurRdata(bodies, j, k) ==> IsRdata(b);
    hide IsOurRdata;
  }

  /** The rewriting panics exactly on SRV rdata of ours that has no room for the UUID it is to carry. */
  lemma PanicsIffShort(v: seq<Byte>, id: Identity)
    requires Records(v).0 != []
    ensures Rewrite(v, id) == Panicked <==>
            var bodies := JoinTail(Records(v).0, Records(v).1);
            LooksLikeUuid(id.uuid)
            && exists k: nat, j: nat :: k < |bodies| && IsOurRdata(bodies, j, k)
                                        && LastOctet(bodies[j]) == 0x21 && |bodies[k]| < 38
  {
    RewriteOutcome(v, id);
    hide Records, Rewrite, JoinTail;
    var bodies := JoinTail(Records(v).0, Records(v).1);
    hide AfterAll, IsUuid, LooksLikeUuid, IsOurRdata;
    UuidIff(id.uuid);
    forall k: nat | k < |bodies|
      ensures BodyPanics(bodies[k], AfterAll(bodies[..k], START), id) <==>
              LooksLikeUuid(id.uuid)
              && exists j: nat :: IsOurRdata(bodies, j, k) && LastOctet(bodies[j]) == 0x21 && |bodies[k]| < 38
    {
      BodyPanicsIff(bodies, k, id);
    }
  }

  lemma BodyPanicsIff(bodies: seq<seq<Byte>>, k: nat, id: Identity)
    requires k < |bodies|
    ensures BodyPanics(bodies[k], AfterAll(bodies[..k], START), id) <==>
            LooksLikeUuid(id.uuid)
            && exists j: nat :: IsOurRdata(bodies, j, k) && LastOctet(bodies[j]) == 0x21 && |bodies[k]| < 38
  {
    UuidIff(id.uuid);
    NewBodyIs(bodies[k], AfterAll(bodies[..k], START), id);
    OurRdataContext(bodies, k);
    OursIsRdata(bodies, k);
    hide IsUuid, LooksLikeUuid, IsOurRdata, AfterAll, IsNameRecord, HasRdata, IsRdata, NewRdata, NewBody;
  }

  lemma OursIsRdata(bodies: seq<seq<Byte>>, k: nat)
    requires k < |bodies|
    ensures forall j: nat :: IsOurRdata(bodies, j, k) ==> IsRdata(bodies[k])
  {
  }

  // ---- What is shown ----

  /** The rdata after a name record of the given type carries our display name, values or UUID, where it has them. */
  ghost predicate RdataIsOurs(kind: Byte, rd: seq<Byte>, id: Identity) {
    && (kind == 0x0c && Fits(id.display) && |Labels(rd)| == 1 ==> Labels(rd) == [id.display])
    && (kind == 0x10 ==> forall s :: s in Strings(rd) ==> StringBecomes(s, s, id))
    && (kind == 0x21 && LooksLikeUuid(id.uuid) ==>
          forall at: nat :: IsFirstUuid(rd, at) ==> rd[at..at + 36] == id.uuid)
  }

  /** The hostname among the labels, when there is one, is `host`. */
  ghost predicate HostIs(labels: seq<seq<Byte>>, host: seq<Byte>) {
    forall i: nat :: IsHostLabel(labels, i) ==> labels[i] == host
  }

  /** Record `k` carries no identity but ours. */
  ghost predicate CarriesUs(bodies: seq<seq<Byte>>, k: nat, id: Identity)
    requires k < |bodies|
  {
    var b := bodies[k];
    && (IsNameRecord(b) && Fits(id.host) ==> HostIs(Labels(b), id.host))
    && (IsRdata(b) ==> forall j: nat :: IsOurRdata(bodies, j, k) ==> RdataIsOurs(LastOctet(bodies[j]), b[2..], id))
  }

  lemma StringIsOurs(s: seq<Byte>, id: Identity)
    requires |s| < 256
    ensures IsOurs(s, id) <==> StringBecomes(s, s, id)
  {
    OursIsFixed(s, id);
    SwappedBecomes(s, id);
    if StringBecomes(s, s, id) {
      SameString(s, s, Swapped(s, id), id);
    }
    hide IsOurs, Swapped, StringBecomes;
  }

  lemma SameString(s: seq<Byte>, t: seq<Byte>, u: seq<Byte>, id: Identity)
    requires StringBecomes(s, t, id) && StringBecomes(s, u, id)
    ensures t == u
  {
    hide Octets;
  }

  lemma StringsAreOurs(rd: seq<Byte>, id: Identity)
    ensures (forall i :: 0 <= i < |Strings(rd)| ==> IsOurs(Strings(rd)[i], id)) <==>
            forall s :: s in Strings(rd) ==> StringBecomes(s, s, id)
  {
    TextParts(rd);
    var all := Strings(rd);
    forall s | s in all
      ensures IsOurs(s, id) <==> StringBecomes(s, s, id)
    {
      StringIsOurs(s, id);
    }
    hide IsOurs, StringBecomes, Strings;
    assert forall i :: 0 <= i < |all| ==> all[i] in all;
  }

  lemma ShownRdata(body: seq<Byte>, kind: Byte, id: Identity)
    requires IsRdata(body)
    ensures Shows(body, Context(kind, true), id) <==> RdataIsOurs(kind, body[2..], id)
  {
    var rd := body[2..];
    UuidIff(id.uuid);
    FirstUuidIs(rd);
    StringsAreOurs(rd, id);
    hide IsNameRecord, IsUuid, LooksLikeUuid, IsFirstUuid, FindUuid, Labels, Strings, IsOurs, StringBecomes;
    assert |Labels(rd)| == 1 ==> Labels(rd) == [Labels(rd)[0]];
  }

  lemma ShownName(body: seq<Byte>, c: Context, id: Identity)
    requires IsNameRecord(body)
    ensures Shows(body, c, id) <==>
            (Fits(id.host) ==> HostIs(Labels(body), id.host))
  {
    HostLabelIs(Labels(body));
    hide IsNameRecord, Labels, IsHostLabel, HostAt;
    var at := HostAt(Labels(body));
    assert at.Some? ==> IsHostLabel(Labels(body), at.value);
  }

  lemma NameCarriesUs(bodies: seq<seq<Byte>>, k: nat, id: Identity, c: Context)
    requires k < |bodies| && IsNameRecord(bodies[k])
    ensures Shows(bodies[k], c, id) <==> CarriesUs(bodies, k, id)
  {
    ShownName(bodies[k], c, id);
    hide IsNameRecord, Shows, Fits, HostIs, RdataIsOurs, IsOurRdata;
  }

  lemma RdataCarriesUs(bodies: seq<seq<Byte>>, k: nat, id: Identity, c: Context)
    requires k < |bodies| && IsRdata(bodies[k])
    requires forall j: nat :: IsOurRdata(bodies, j, k) ==> c == Context(LastOctet(bodies[j]), true)
    requires (forall j: nat :: !IsOurRdata(bodies, j, k)) ==> !c.service
    ensures Shows(bodies[k], c, id) <==> CarriesUs(bodies, k, id)
  {
    if c.service {
      assert c == Context(c.kind, true);
      ShownRdata(bodies[k], c.kind, id);
      hide Shows, RdataIsOurs, IsOurRdata, Labels, IsHostLabel, Fits, IsNameRecord;
    } else {
      hide RdataIsOurs, IsOurRdata, Labels, IsHostLabel, Fits, IsNameRecord;
    }
  }

  lemma ShowsIff(bodies: seq<seq<Byte>>, k: nat, id: Identity)
    requires k < |bodies|
    ensures Shows(bodies[k], AfterAll(bodies[..k], START), id) <==> CarriesUs(bodies, k, id)
  {
    var c := AfterAll(bodies[..k], START);
    if IsNameRecord(bodies[k]) {
      NameCarriesUs(bodies, k, id, c);
    } else if IsRdata(bodies[k]) {
      OurRdataContext(bodies, k);
      RdataCarriesUs(bodies, k, id, c);
    }
    hide IsNameRecord, AfterAll, IsOurRdata, RdataIsOurs, IsHostLabel, Labels;
  }

  lemma {:induction false} AllShowAt(bodies: seq<seq<Byte>>, c: Context, id: Identity)
    ensures AllShow(bodies, c, id) <==>
            forall k :: 0 <= k < |bodies| ==> Shows(bodies[k], AfterAll(bodies[..k], c), id)
  {
    hide Shows, After;
    if bodies != [] {
      var rest, d := bodies[1..], After(bodies[0], c);
      AllShowAt(rest, d, id);
      assert AfterAll(bodies[..0], c) == c;
      forall k | 0 < k < |bodies|
        ensures bodies[k] == rest[k - 1] && AfterAll(bodies[..k], c) == AfterAll(rest[..k - 1], d)
      {
        ContextStep(bodies, k, c);
      }
    }
  }

  /** A payload shows us, in the sense of the rewriting, exactly when each of its records carries us. */
  lemma AllShowIff(bodies: seq<seq<Byte>>, id: Identity)
    ensures AllShow(bodies, START, id) <==> forall k :: 0 <= k < |bodies| ==> CarriesUs(bodies, k, id)
  {
    AllShowAt(bodies, START, id);
    forall k | 0 <= k < |bodies|
      ensures Shows(bodies[k], AfterAll(bodies[..k], START), id) <==> CarriesUs(bodies, k, id)
    {
      ShowsIff(bodies, k, id);
    }
    hide Shows, CarriesUs, AfterAll;
  }

  /** After a rewriting of a payload with a usual tail, every record of the result carries us. */
  lemma RewrittenCarriesUs(v: seq<Byte>, id: Identity, w: seq<Byte>, k: nat)
    requires Rewrite(v, id) == Emitted(w) && Records(v).0 != [] && (|Records(v).1| == 0 || |Records(v).1| == 2)
    requires k < |Records(w).0|
    ensures CarriesUs(JoinTail(Records(w).0, Records(w).1), k, id)
  {
    hide Rewrite, Records, JoinTail, AllShow, CarriesUs, HidesZeros, Shows;
    RewriteShowsUs(v, id, w);
    AllShowIff(JoinTail(Records(w).0, Records(w).1), id);
  }
}
