/** The messages the kernel sends, and what the parser makes of them. */
module KernelMessages {
  import opened Wrappers
  import opened Joining
  import opened ByteSeqs
  import opened TxEvents
  import opened Netlink
  import opened FrameTx

  function MessageBytes(kind: nat, seqNo: nat, body: seq<Byte>): seq<Byte>
    requires kind < 0x1_0000 && seqNo < 0x1_0000_0000 && MESSAGE_HEADER + |body| < 0x1_0000_0000
  {
    var length := MESSAGE_HEADER + |body|;
    U32LeBytes(length) + U16LeBytes(kind) + U16LeBytes(0) + U32LeBytes(seqNo) + U32LeBytes(0) + body
    + Zeros((4 - length % 4) % 4)
  }

  /** An event with values that fit their wire formats; an acknowledgement carries no positive number. */
  predicate IsWire(e: Event) {
    match e
    case Ack(seqNo, error) => seqNo < 0x1_0000_0000 && -0x8000_0000 <= error <= 0
    case Cookie(seqNo, cookie) => seqNo < 0x1_0000_0000 && cookie < 0x1_0000_0000_0000_0000
    case Status(ifindex, cookie, _) => ifindex < 0x1_0000_0000 && cookie < 0x1_0000_0000_0000_0000
    case RocCookie(seqNo, cookie) => seqNo < 0x1_0000_0000 && cookie < 0x1_0000_0000_0000_0000
    case Roc(ifindex, cookie, frequency, _) =>
      ifindex < 0x1_0000_0000 && cookie < 0x1_0000_0000_0000_0000 && frequency < 0x1_0000_0000
  }

  function I32LeBytes(n: int): (b: seq<Byte>)
    requires -0x8000_0000 <= n < 0x8000_0000
    ensures |b| == 4 && I32Le(b) == n
  {
    U32LeBytes(if n >= 0 then n else n + 0x1_0000_0000)
  }

  function EventCommand(e: Event): Byte
    requires !e.Ack?
  {
    match e
    case Cookie(_, _) => CMD_FRAME
    case Status(_, _, _) => CMD_FRAME_TX_STATUS
    case RocCookie(_, _) => CMD_REMAIN_ON_CHANNEL
    case Roc(_, _, _, ready) => if ready then CMD_REMAIN_ON_CHANNEL else CMD_CANCEL_REMAIN_ON_CHANNEL
  }

  function EventFields(e: Event): (fields: seq<Attr>)
    requires !e.Ack? && IsWire(e)
    ensures forall f :: f in fields ==> f.kind < 0x4000 && |f.value| <= 8
    ensures 1 <= |fields| <= 3
  {
    match e
    case Status(ifindex, cookie, acked) =>
      [Attr(ATTR_IFINDEX, U32LeBytes(ifindex)), Attr(ATTR_COOKIE, U64LeBytes(cookie))]
      + if acked then [Attr(ATTR_ACK, [])] else []
    case Roc(ifindex, cookie, frequency, _) =>
      [Attr(ATTR_COOKIE, U64LeBytes(cookie)), Attr(ATTR_IFINDEX, U32LeBytes(ifindex)),
       Attr(ATTR_FREQ, U32LeBytes(frequency))]
    case Cookie(_, cookie) => [Attr(ATTR_COOKIE, U64LeBytes(cookie))]
    case RocCookie(_, cookie) => [Attr(ATTR_COOKIE, U64LeBytes(cookie))]
  }

  function EventSeqNo(e: Event): (seqNo: nat)
    requires IsWire(e)
    ensures seqNo < 0x1_0000_0000
  {
    if e.Status? || e.Roc? then 0 else e.seqNo
  }

  lemma {:induction false} EncodeShort(fields: seq<Attr>)
    requires forall f :: f in fields ==> f.kind < 0x1_0000 && |f.value| <= 8
    ensures |Encode(fields)| <= 12 * |fields|
  {
    EncodeUnfold(fields);
    if fields != [] {
      EncodeShort(fields[1..]);
    }
  }

  function EventBody(e: Event): (body: seq<Byte>)
    requires IsWire(e)
    ensures |body| <= 40
  {
    if e.Ack? then I32LeBytes(e.error)
    else
      EncodeShort(EventFields(e));
      [EventCommand(e), 1, 0, 0] + Encode(EventFields(e))
  }

  function Messages(es: seq<Event>, family: nat): seq<Byte>
    requires family < 0x1_0000 && forall e :: e in es ==> IsWire(e)
  {
    if es == [] then []
    else MessageBytes(if es[0].Ack? then NLMSG_ERROR
      else family, EventSeqNo(es[0]), EventBody(es[0])) + Messages(es[1..], family)
  }

  lemma HeaderParts(a: seq<Byte>, b: seq<Byte>, c: seq<Byte>, d: seq<Byte>, e: seq<Byte>)
    requires |a| == 4 && |b| == 2 && |c| == 2 && |d| == 4 && |e| == 4
    ensures var h := a + b + c + d + e;
            |h| == MESSAGE_HEADER && h[..4] == a && h[4..6] == b && h[8..12] == d
  {
  }

  lemma AfterHeader(h: seq<Byte>, body: seq<Byte>, pad: seq<Byte>)
    requires |h| == MESSAGE_HEADER
    ensures var d := h + body + pad;
            && d[..4] == h[..4] && d[4..6] == h[4..6] && d[8..12] == h[8..12]
            && d[MESSAGE_HEADER..MESSAGE_HEADER + |body|] == body
  {
  }

  lemma MessageLayout(kind: nat, seqNo: nat, body: seq<Byte>)
    requires kind < 0x1_0000 && seqNo < 0x1_0000_0000 && MESSAGE_HEADER + |body| < 0x1_0000_0000
    ensures var d := MessageBytes(kind, seqNo, body);
            && |d| == Align(MESSAGE_HEADER + |body|) && |d| % 4 == 0
            && d[..4] == U32LeBytes(MESSAGE_HEADER + |body|) && d[4..6] == U16LeBytes(kind)
            && d[8..12] == U32LeBytes(seqNo) && d[MESSAGE_HEADER..MESSAGE_HEADER + |body|] == body
  {
    hide U16LeBytes, U32LeBytes;
    var length := MESSAGE_HEADER + |body|;
    var a, b, c, d, e := U32LeBytes(length), U16LeBytes(kind), U16LeBytes(0), U32LeBytes(seqNo), U32LeBytes(0);
    PadsToFour(length);
    hide Align;
    var pad := Zeros((4 - length % 4) % 4);
    HeaderParts(a, b, c, d, e);
    AfterHeader(a + b + c + d + e, body, pad);
    assert MessageBytes(kind, seqNo, body) == a + b + c + d + e + body + pad;
  }

  lemma MessageReadsBack(kind: nat, seqNo: nat, body: seq<Byte>, family: nat)
    requires kind < 0x1_0000 && seqNo < 0x1_0000_0000 && MESSAGE_HEADER + |body| < 0x1_0000_0000
    ensures Parse(MessageBytes(kind, seqNo, body), family) == Events(kind, seqNo, body, family)
    ensures |MessageBytes(kind, seqNo, body)| % 4 == 0
  {
    var length := MESSAGE_HEADER + |body|;
    var d := MessageBytes(kind, seqNo, body);
    MessageLayout(kind, seqNo, body);
    ParseUnfold(d, family);
    hide MessageBytes, Parse, Events;
    assert Extent(|d|, length, MESSAGE_HEADER) == Some(|d|);
    var none: seq<Byte> := [];
    assert d[|d|..] == none;
    NoMessages(family);
    if FirstEvents(d, family).Some? {
      OntoNothing(FirstEvents(d, family), FirstEvents(d, family).value);
    }
  }

  /** The fields of an event are read as its values. */
  lemma FieldsReadBack(e: Event, seqNo: nat)
    requires IsWire(e) && !e.Ack? && (e.Cookie? || e.RocCookie? ==> seqNo == e.seqNo)
    ensures e.Cookie? || e.Status? ==> FrameEvents(EventCommand(e), seqNo, EventFields(e)) == Some([e])
    ensures e.RocCookie? || e.Roc? ==> RocEvents(EventCommand(e), seqNo, EventFields(e)) == Some([e])
  {
    var fields := EventFields(e);
    CountFew(fields, ATTR_COOKIE);
    CountFew(fields, ATTR_IFINDEX);
    CountFew(fields, ATTR_FREQ);
    CountFew(fields, ATTR_ACK);
    hide Count, First, U32LeBytes, U64LeBytes;
  }

  lemma EventReadsBack(e: Event, family: nat)
    requires IsWire(e) && family != NLMSG_ERROR
    ensures Events(if e.Ack? then NLMSG_ERROR else family, EventSeqNo(e), EventBody(e), family) == Some([e])
  {
    if e.Ack? {
      var b := I32LeBytes(e.error);
      assert b[..4] == b;
    } else {
      var body := EventBody(e);
      assert body[0] == EventCommand(e) && body[4..] == Encode(EventFields(e));
      AttrsUndoEncode(EventFields(e));
      FieldsReadBack(e, EventSeqNo(e));
      hide Attrs, Encode, EventFields, EventBody, RocEvents, FrameEvents, IsWire, EventSeqNo;
    }
  }

  /** A datagram of any number of kernel messages gives their events, all of them and in order. */
  lemma {:induction false} MessagesReadBack(es: seq<Event>, family: nat)
    requires family < 0x1_0000 && family != NLMSG_ERROR
    requires forall e :: e in es ==> IsWire(e)
    ensures Parse(Messages(es, family), family) == Some(es)
    decreases |es|
  {
    hide Parse, Events, EventBody, IsWire, MessageBytes, Onto, EventSeqNo;
    if es == [] {
      NoMessages(family);
    } else {
      var e := es[0];
      var kind := if e.Ack? then NLMSG_ERROR else family;
      MessageReadsBack(kind, EventSeqNo(e), EventBody(e), family);
      EventReadsBack(e, family);
      MessagesReadBack(es[1..], family);
      ParseJoin(MessageBytes(kind, EventSeqNo(e), EventBody(e)), Messages(es[1..], family), family);
      OntoSome([e], es[1..]);
      assert [e] + es[1..] == es;
    }
  }

  // ---- What attributes say ----

  ghost predicate IsOnly(fields: seq<Attr>, i: nat, kind: nat) {
    i < |fields| && fields[i].kind == kind && forall j :: 0 <= j < |fields| && j != i ==> fields[j].kind != kind
  }

  /** There is exactly one attribute of the kind, and this is its value. */
  ghost predicate HasOne(fields: seq<Attr>, kind: nat, value: seq<Byte>) {
    exists i: nat :: IsOnly(fields, i, kind) && fields[i].value == value
  }

  ghost predicate HasNone(fields: seq<Attr>, kind: nat) {
    forall j :: 0 <= j < |fields| ==> fields[j].kind != kind
  }

  lemma {:induction false} CountNone(fields: seq<Attr>, kind: nat)
    ensures Count(fields, kind) == 0 <==> HasNone(fields, kind)
    decreases |fields|
  {
    if fields != [] {
      CountNone(fields[1..], kind);
      assert forall j :: 0 < j < |fields| ==> fields[j] == fields[1..][j - 1];
    }
  }

  lemma {:induction false} CountOne(fields: seq<Attr>, kind: nat) returns (i: nat)
    requires Count(fields, kind) == 1
    ensures IsOnly(fields, i, kind) && First(fields, kind) == Some(fields[i].value)
    decreases |fields|
  {
    assert forall j :: 0 < j < |fields| ==> fields[j] == fields[1..][j - 1];
    if fields[0].kind == kind {
      i := 0;
      CountNone(fields[1..], kind);
    } else {
      var k := CountOne(fields[1..], kind);
      i := k + 1;
    }
  }

  lemma {:induction false} OnlyCounts(fields: seq<Attr>, i: nat, kind: nat)
    requires IsOnly(fields, i, kind)
    ensures Count(fields, kind) == 1 && First(fields, kind) == Some(fields[i].value)
    decreases |fields|
  {
    var rest := fields[1..];
    assert forall j :: 0 <= j < |rest| ==> rest[j] == fields[j + 1];
    if i == 0 {
      CountNone(rest, kind);
    } else {
      OnlyCounts(rest, i - 1, kind);
    }
  }

  /** An attribute is found exactly when it is there once; twice is as good as not at all. */
  lemma FieldIff(fields: seq<Attr>, kind: nat, value: seq<Byte>)
    ensures Field(fields, kind) == Some(value) <==> HasOne(fields, kind, value)
  {
    hide Count, First;
    if Count(fields, kind) == 1 {
      var i := CountOne(fields, kind);
      assert HasOne(fields, kind, fields[i].value);
    }
    if HasOne(fields, kind, value) {
      var i: nat :| IsOnly(fields, i, kind) && fields[i].value == value;
      OnlyCounts(fields, i, kind);
    }
  }

  lemma TwoHalves(lo: nat, hi: nat)
    requires lo < 0x1_0000 && hi < 0x1_0000
    ensures U32LeBytes(lo + 0x1_0000 * hi) == U16LeBytes(lo) + U16LeBytes(hi)
  {
    hide U16Le, U16LeBytes, U32Le;
    var n := lo + 0x1_0000 * hi;
    assert n % 0x1_0000 == lo && n / 0x1_0000 == hi;
  }

  lemma WordIs(b: seq<Byte>)
    requires |b| == 4
    ensures U32Le(b) == U16Le(b[..2]) + 0x1_0000 * U16Le(b[2..])
  {
    hide U16Le;
  }

  lemma WordInjective(b: seq<Byte>)
    requires |b| == 4
    ensures U32LeBytes(U32Le(b)) == b
  {
    hide *;
    var lo, hi := b[..2], b[2..];
    WordIs(b);
    TwoHalves(U16Le(lo), U16Le(hi));
    U16LeInjective(lo);
    U16LeInjective(hi);
    assert b == lo + hi;
  }

  lemma TwoWords(lo: nat, hi: nat)
    requires lo < 0x1_0000_0000 && hi < 0x1_0000_0000
    ensures U64LeBytes(lo + 0x1_0000_0000 * hi) == U32LeBytes(lo) + U32LeBytes(hi)
  {
    hide U32Le, U32LeBytes;
    var n := lo + 0x1_0000_0000 * hi;
    assert n % 0x1_0000_0000 == lo && n / 0x1_0000_0000 == hi;
  }

  lemma LongIs(b: seq<Byte>)
    requires |b| == 8
    ensures U64Le(b) == U32Le(b[..4]) + 0x1_0000_0000 * U32Le(b[4..])
  {
    hide U32Le;
  }

  lemma LongInjective(b: seq<Byte>)
    requires |b| == 8
    ensures U64LeBytes(U64Le(b)) == b
  {
    hide U32Le, U32LeBytes, U64Le, U64LeBytes;
    var lo, hi := b[..4], b[4..];
    WordInjective(lo);
    WordInjective(hi);
    LongIs(b);
    TwoWords(U32Le(lo), U32Le(hi));
    assert b == lo + hi;
  }

  lemma WordFieldIff(fields: seq<Attr>, kind: nat, n: nat)
    requires n < 0x1_0000_0000
    ensures U32Field(fields, kind) == Some(n) <==> HasOne(fields, kind, U32LeBytes(n))
  {
    hide Field, HasOne, U32Le, U32LeBytes;
    FieldIff(fields, kind, U32LeBytes(n));
    if Field(fields, kind).Some? {
      var v := Field(fields, kind).value;
      if |v| == 4 {
        WordInjective(v);
      }
    }
  }

  lemma LongFieldIff(fields: seq<Attr>, kind: nat, n: nat)
    requires n < 0x1_0000_0000_0000_0000
    ensures U64Field(fields, kind) == Some(n) <==> HasOne(fields, kind, U64LeBytes(n))
  {
    hide Field, HasOne, U64Le, U64LeBytes;
    FieldIff(fields, kind, U64LeBytes(n));
    if Field(fields, kind).Some? {
      var v := Field(fields, kind).value;
      if |v| == 8 {
        LongInjective(v);
      }
    }
  }

  // ---- What messages say ----

  /**
   * A transmit status says what its attributes say, each there once, and is acknowledged exactly when the flag
   * is there; it is malformed otherwise.
   */
  lemma StatusIff(fields: seq<Attr>, seqNo: nat, ifindex: nat, cookie: nat, acked: bool)
    requires ifindex < 0x1_0000_0000 && cookie < 0x1_0000_0000_0000_0000
    ensures FrameEvents(60, seqNo, fields) == Some([Status(ifindex, cookie, acked)]) <==>
            && HasOne(fields, 88, U64LeBytes(cookie)) && HasOne(fields, 3, U32LeBytes(ifindex))
            && if acked then HasOne(fields, 92, []) else HasNone(fields, 92)
    ensures FrameEvents(60, seqNo, fields).Some? ==>
              |FrameEvents(60, seqNo, fields).value| == 1 && FrameEvents(60, seqNo, fields).value[0].Status?
  {
    LongFieldIff(fields, 88, cookie);
    WordFieldIff(fields, 3, ifindex);
    FieldIff(fields, 92, []);
    CountNone(fields, 92);
    hide HasOne, HasNone, U32Field, U64Field, First, U64LeBytes, U32LeBytes;
  }

  lemma CookieIff(fields: seq<Attr>, seqNo: nat, cookie: nat)
    requires cookie < 0x1_0000_0000_0000_0000
    ensures FrameEvents(59, seqNo, fields) == Some([Cookie(seqNo, cookie)]) <==> HasOne(fields, 88, U64LeBytes(cookie))
    ensures FrameEvents(59, seqNo, fields).Some? ==>
              |FrameEvents(59, seqNo, fields).value| == 1 && FrameEvents(59, seqNo, fields).value[0].Cookie?
  {
    LongFieldIff(fields, 88, cookie);
    hide HasOne, U64Field, U64LeBytes;
  }

  /** A reservation message is an event when it names its interface, else the reply to a request, or nothing. */
  lemma RocIff(fields: seq<Attr>, cmd: nat, seqNo: nat, ifindex: nat, cookie: nat, frequency: nat)
    requires ifindex < 0x1_0000_0000 && cookie < 0x1_0000_0000_0000_0000 && frequency < 0x1_0000_0000
    requires cmd == 55 || cmd == 56
    ensures RocEvents(cmd, seqNo, fields) == Some([Roc(ifindex, cookie, frequency, cmd == 55)]) <==>
            && HasOne(fields, 88, U64LeBytes(cookie))
            && HasOne(fields, 3, U32LeBytes(ifindex)) && HasOne(fields, 38, U32LeBytes(frequency))
    ensures RocEvents(cmd, seqNo, fields) == Some([RocCookie(seqNo, cookie)]) <==>
            cmd == 55 && HasOne(fields, 88, U64LeBytes(cookie)) && forall v :: !HasOne(fields, 3, v)
    ensures RocEvents(cmd, seqNo, fields).Some? && RocEvents(cmd, seqNo, fields).value == [] ==> cmd == 56
    ensures cmd == 56 && HasOne(fields, 88, U64LeBytes(cookie)) && (forall v :: !HasOne(fields, 3, v)) ==>
              RocEvents(cmd, seqNo, fields) == Some([])
  {
    LongFieldIff(fields, 88, cookie);
    WordFieldIff(fields, 3, ifindex);
    WordFieldIff(fields, 38, frequency);
    forall v
      ensures Field(fields, 3) == Some(v) <==> HasOne(fields, 3, v)
    {
      FieldIff(fields, 3, v);
    }
    hide HasOne, Field, U64Field, U64LeBytes, U32LeBytes;
  }

  /**
   * Which messages are rejected, and which are passed over: those of another kind than an error or the family's,
   * and those of another command than the four.
   */
  lemma MessageIff(kind: nat, seqNo: nat, body: seq<Byte>, family: nat)
    requires family != 2
    ensures kind == 2 ==> (Events(kind, seqNo, body, family).Some? <==>
                           |body| >= 4 && (body[3] >= 128 || body[..4] == [0, 0, 0, 0]))
    ensures kind != 2 && kind != family ==> Events(kind, seqNo, body, family) == Some([])
    ensures kind == family && body != [] && body[0] !in {55, 56, 59, 60} ==>
              Events(kind, seqNo, body, family) == Some([])
    ensures kind == family && (body == [] || (body[0] in {55, 56, 59, 60} && |body| < 4)) ==>
              Events(kind, seqNo, body, family) == None
    ensures kind == family && |body| >= 4 && body[0] in {55, 56, 59, 60} ==>
              match Attrs(body[4..])
              case None => Events(kind, seqNo, body, family) == None
              case Some(fields) =>
                Events(kind, seqNo, body, family) ==
                if body[0] in {59, 60} then FrameEvents(body[0], seqNo, fields) else RocEvents(body[0], seqNo, fields)
  {
    if kind == 2 && |body| >= 4 {
      SignOf(body[..4]);
    }
    hide Attrs, FrameEvents, RocEvents, I32Le;
  }

  lemma SignOf(b: seq<Byte>)
    requires |b| == 4
    ensures I32Le(b) <= 0 <==> b[3] >= 128 || b == [0, 0, 0, 0]
  {
    if b != [0, 0, 0, 0] {
      assert b[0] > 0 || b[1] > 0 || b[2] > 0 || b[3] > 0;
    }
  }

  /** A message that gives no events changes nothing, wherever it stands, and a malformed one rejects everything. */
  lemma InTheMiddle(a: seq<Byte>, kind: nat, seqNo: nat, body: seq<Byte>, b: seq<Byte>, family: nat)
    requires |a| % 4 == 0 && Parse(a, family).Some?
    requires kind < 0x1_0000 && seqNo < 0x1_0000_0000 && MESSAGE_HEADER + |body| < 0x1_0000_0000
    ensures var d := a + (MessageBytes(kind, seqNo, body) + b);
            match Events(kind, seqNo, body, family)
            case None => Parse(d, family) == None
            case Some(events) => Parse(d, family) == Onto(Parse(a, family).value + events, Parse(b, family))
  {
    hide Parse, Events, MessageBytes;
    var m := MessageBytes(kind, seqNo, body);
    MessageReadsBack(kind, seqNo, body, family);
    ParseJoin(a, m + b, family);
    if Events(kind, seqNo, body, family).Some? {
      ParseJoin(m, b, family);
      OntoTwice(Parse(a, family).value, Events(kind, seqNo, body, family).value, Parse(b, family));
    } else {
      MalformedFirst(kind, seqNo, body, b, family);
    }
  }

  lemma MalformedFirst(kind: nat, seqNo: nat, body: seq<Byte>, b: seq<Byte>, family: nat)
    requires kind < 0x1_0000 && seqNo < 0x1_0000_0000 && MESSAGE_HEADER + |body| < 0x1_0000_0000
    requires Events(kind, seqNo, body, family).None?
    ensures Parse(MessageBytes(kind, seqNo, body) + b, family) == None
  {
    hide Parse, Events, MessageBytes, U32Le, U16Le;
    var m, length := MessageBytes(kind, seqNo, body), MESSAGE_HEADER + |body|;
    MessageLayout(kind, seqNo, body);
    PartsOfJoin(m, b, length);
    assert (m + b)[..4] == m[..4] && (m + b)[4..6] == m[4..6] && (m + b)[8..12] == m[8..12];
    assert (m + b)[MESSAGE_HEADER..length] == m[MESSAGE_HEADER..length];
    ParseUnfold(m + b, family);
  }

  /** The two highest bits of an attribute's kind are flags, and not part of what it is. */
  lemma FlagsAreMasked(kind: nat, value: seq<Byte>)
    requires kind < 0x1_0000 && 4 + |value| < 0x1_0000
    ensures Attrs(AttrBytes(kind, value)) == Some([Attr(kind % 0x4000, value)])
  {
    var length := 4 + |value|;
    var b := AttrBytes(kind, value);
    AttrLayout(kind, value);
    AttrsUnfold(b);
    hide AttrBytes, Attrs;
    assert Extent(|b|, length, ATTR_HEADER) == Some(|b|);
    var none: seq<Byte> := [];
    assert b[|b|..] == none;
    NoAttrs();
    OntoNothing(Some([Attr(kind % 0x4000, value)]), [Attr(kind % 0x4000, value)]);
  }
}
