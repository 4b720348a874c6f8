/** Parsing of nl80211 datagrams into events, all of a datagram or nothing. */
module Netlink {
  import opened Wrappers
  import opened Joining
  import opened ByteSeqs
  import opened TxEvents

  datatype Attr = Attr(kind: nat, value: seq<Byte>)

  const ATTR_HEADER: nat := 4
  const MESSAGE_HEADER: nat := 16
  const NLMSG_ERROR: nat := 2

  const CMD_REMAIN_ON_CHANNEL: nat := 55
  const CMD_CANCEL_REMAIN_ON_CHANNEL: nat := 56
  const CMD_FRAME: nat := 59
  const CMD_FRAME_TX_STATUS: nat := 60

  const ATTR_IFINDEX: nat := 3
  const ATTR_FREQ: nat := 38
  const ATTR_COOKIE: nat := 88
  const ATTR_ACK: nat := 92

  function Align(n: nat): nat {
    (n + 3) / 4 * 4
  }

  function U64Le(b: seq<Byte>): (n: nat)
    requires |b| == 8
    ensures n < 0x1_0000_0000_0000_0000
  {
    U32Le(b[..4]) + 0x1_0000_0000 * U32Le(b[4..])
  }

  function U64LeBytes(n: nat): (b: seq<Byte>)
    requires n < 0x1_0000_0000_0000_0000
    ensures |b| == 8 && U64Le(b) == n
  {
    var lo, hi := U32LeBytes(n % 0x1_0000_0000), U32LeBytes(n / 0x1_0000_0000);
    assert (lo + hi)[..4] == lo && (lo + hi)[4..] == hi;
    lo + hi
  }

  function I32Le(b: seq<Byte>): (n: int)
    requires |b| == 4
    ensures -0x8000_0000 <= n < 0x8000_0000
  {
    if U32Le(b) < 0x8000_0000 then U32Le(b) else U32Le(b) - 0x1_0000_0000
  }

  // ---- The parser as functions ----

  /** Where the item after one of `length` octets starts, when there is one of at least `header` octets. */
  function Extent(total: nat, length: nat, header: nat): (next: Option<nat>)
    ensures next.Some? ==> header <= length <= next.value <= total
  {
    if length < header || total < length then None
    else if length == total then Some(total)
    else if Align(length) <= total then Some(Align(length))
    else None
  }

  function Attrs(b: seq<Byte>): Option<seq<Attr>>
    decreases |b|
  {
    if b == [] then Some([])
    else if |b| < ATTR_HEADER then None
    else
      var next :- Extent(|b|, U16Le(b[..2]), ATTR_HEADER);
      var rest :- Attrs(b[next..]);
      Some([FirstAttr(b)] + rest)
  }

  function FirstAttr(b: seq<Byte>): Attr
    requires |b| >= ATTR_HEADER && ATTR_HEADER <= U16Le(b[..2]) <= |b|
  {
    Attr(U16Le(b[2..4]) % 0x4000, b[ATTR_HEADER..U16Le(b[..2])])
  }

  function Count(fields: seq<Attr>, kind: nat): nat {
    if fields == [] then 0 else (if fields[0].kind == kind then 1 else 0) + Count(fields[1..], kind)
  }

  function First(fields: seq<Attr>, kind: nat): (v: Option<seq<Byte>>)
    ensures v.Some? <==> Count(fields, kind) > 0
  {
    if fields == [] then None else if fields[0].kind == kind then Some(fields[0].value) else First(fields[1..], kind)
  }

  /** The value of an attribute that is there exactly once. */
  function Field(fields: seq<Attr>, kind: nat): Option<seq<Byte>> {
    if Count(fields, kind) == 1 then First(fields, kind) else None
  }

  function U32Field(fields: seq<Attr>, kind: nat): Option<nat> {
    var v :- Field(fields, kind);
    if |v| == 4 then Some(U32Le(v)) else None
  }

  function U64Field(fields: seq<Attr>, kind: nat): Option<nat> {
    var v :- Field(fields, kind);
    if |v| == 8 then Some(U64Le(v)) else None
  }

  /** A reply or event on a channel reservation. */
  function RocEvents(cmd: nat, seqNo: nat, fields: seq<Attr>): Option<seq<Event>> {
    var cookie :- U64Field(fields, ATTR_COOKIE);
    if Field(fields, ATTR_IFINDEX).Some? then
      var ifindex :- U32Field(fields, ATTR_IFINDEX);
      var frequency :- U32Field(fields, ATTR_FREQ);
      Some([Roc(ifindex, cookie, frequency, cmd == CMD_REMAIN_ON_CHANNEL)])
    else if cmd == CMD_REMAIN_ON_CHANNEL then Some([RocCookie(seqNo, cookie)])
    else Some([])
  }

  /** A reply or event on a transmitted frame. */
  function FrameEvents(cmd: nat, seqNo: nat, fields: seq<Attr>): Option<seq<Event>> {
    var cookie :- U64Field(fields, ATTR_COOKIE);
    if cmd == CMD_FRAME then Some([Cookie(seqNo, cookie)])
    else
      var ifindex :- U32Field(fields, ATTR_IFINDEX);
      if Count(fields, ATTR_ACK) > 1 then None
      else match Field(fields, ATTR_ACK)
        case Some(v) => if v == [] then Some([Status(ifindex, cookie, true)]) else None
        case None => Some([Status(ifindex, cookie, false)])
  }

  /** The events of one message, `None` when it is malformed. */
  function Events(kind: nat, seqNo: nat, body: seq<Byte>, family: nat): Option<seq<Event>> {
    if kind == NLMSG_ERROR then
      if |body| < 4 || I32Le(body[..4]) > 0 then None else Some([Ack(seqNo, I32Le(body[..4]))])
    else if kind != family then Some([])
    else if body == [] then None
    else
      var cmd := body[0];
      if cmd !in {CMD_REMAIN_ON_CHANNEL, CMD_CANCEL_REMAIN_ON_CHANNEL, CMD_FRAME, CMD_FRAME_TX_STATUS} then Some([])
      else if |body| < 4 then None
      else
        var fields :- Attrs(body[4..]);
        if cmd == CMD_FRAME || cmd == CMD_FRAME_TX_STATUS then FrameEvents(cmd, seqNo, fields)
        else RocEvents(cmd, seqNo, fields)
  }

  function Parse(d: seq<Byte>, family: nat): Option<seq<Event>>
    decreases |d|
  {
    if d == [] then Some([])
    else if |d| < MESSAGE_HEADER then None
    else
      var next :- Extent(|d|, U32Le(d[..4]), MESSAGE_HEADER);
      var events :- FirstEvents(d, family);
      var rest :- Parse(d[next..], family);
      Some(events + rest)
  }

  function FirstEvents(d: seq<Byte>, family: nat): Option<seq<Event>>
    requires |d| >= MESSAGE_HEADER && MESSAGE_HEADER <= U32Le(d[..4]) <= |d|
  {
    Events(U16Le(d[4..6]), U32Le(d[8..12]), d[MESSAGE_HEADER..U32Le(d[..4])], family)
  }

  // ---- The parser as loops ----

  lemma AttrsUnfold(b: seq<Byte>)
    requires |b| >= ATTR_HEADER
    ensures Attrs(b) == match Extent(|b|, U16Le(b[..2]), ATTR_HEADER)
                        case None => None
                        case Some(next) => Onto([FirstAttr(b)], Attrs(b[next..]))
  {
  }

  lemma TooShort(b: seq<Byte>, family: nat)
    ensures 0 < |b| < ATTR_HEADER ==> Attrs(b).None?
    ensures 0 < |b| < MESSAGE_HEADER ==> Parse(b, family).None?
  {
  }

  lemma ParseUnfold(d: seq<Byte>, family: nat)
    requires |d| >= MESSAGE_HEADER
    ensures Parse(d, family) == match Extent(|d|, U32Le(d[..4]), MESSAGE_HEADER)
                                case None => None
                                case Some(next) => match FirstEvents(d, family)
                                                   case None => None
                                                   case Some(events) => Onto(events, Parse(d[next..], family))
  {
  }

  method ParseAttrs(payload: seq<Byte>) returns (r: Option<seq<Attr>>)
    ensures r == Attrs(payload)
  {
    var bytes := payload;
    var out: seq<Attr> := [];
    OntoNothing(Attrs(bytes), out);
    while bytes != []
      invariant Onto(out, Attrs(bytes)) == Attrs(payload)
      decreases |bytes|
    {
      if |bytes| < ATTR_HEADER {
        return None;
      }
      var length := U16Le(bytes[..2]);
      if length < ATTR_HEADER || |bytes| < length {
        return None;
      }
      AttrsUnfold(bytes);
      ghost var next := Extent(|bytes|, length, ATTR_HEADER);
      if next.Some? {
        OntoTwice(out, [FirstAttr(bytes)], Attrs(bytes[next.value..]));
      }
      out := out + [Attr(U16Le(bytes[2..4]) % 0x4000, bytes[ATTR_HEADER..length])];
      if length == |bytes| {
        break;
      }
      if |bytes| < Align(length) {
        return None;
      }
      bytes := bytes[Align(length)..];
    }
    OntoNothing(Some(out), out);
    return Some(out);
  }

  method ParseDatagram(datagram: seq<Byte>, family: nat) returns (r: Option<seq<Event>>)
    ensures r == Parse(datagram, family)
  {
    var bytes := datagram;
    var out: seq<Event> := [];
    OntoNothing(Parse(bytes, family), out);
    while bytes != []
      invariant Onto(out, Parse(bytes, family)) == Parse(datagram, family)
      decreases |bytes|
    {
      if |bytes| < MESSAGE_HEADER {
        return None;
      }
      var length := U32Le(bytes[..4]);
      if length < MESSAGE_HEADER || |bytes| < length {
        return None;
      }
      var events := ParseMessage(U16Le(bytes[4..6]), U32Le(bytes[8..12]), bytes[MESSAGE_HEADER..length], family);
      if events.None? {
        return None;
      }
      ParseUnfold(bytes, family);
      ghost var next := Extent(|bytes|, length, MESSAGE_HEADER);
      if next.Some? {
        OntoTwice(out, events.value, Parse(bytes[next.value..], family));
      }
      out := out + events.value;
      if length == |bytes| {
        break;
      }
      if |bytes| < Align(length) {
        return None;
      }
      bytes := bytes[Align(length)..];
    }
    OntoNothing(Some(out), out);
    return Some(out);
  }

  method ParseMessage(kind: nat, seqNo: nat, body: seq<Byte>, family: nat) returns (r: Option<seq<Event>>)
    ensures r == Events(kind, seqNo, body, family)
  {
    if kind == NLMSG_ERROR {
      if |body| < 4 || I32Le(body[..4]) > 0 {
        return None;
      }
      return Some([Ack(seqNo, I32Le(body[..4]))]);
    }
    if kind != family {
      return Some([]);
    }
    if body == [] {
      return None;
    }
    var cmd: nat := body[0];
    if cmd == 55 || cmd == 56 || cmd == 59 || cmd == 60 {
      if |body| < 4 {
        return None;
      }
      var fields := ParseAttrs(body[4..]);
      if fields.None? {
        return None;
      }
      if cmd == 59 || cmd == 60 {
        return FrameEvents(cmd, seqNo, fields.value);
      }
      return RocEvents(cmd, seqNo, fields.value);
    }
    return Some([]);
  }

  // ---- Datagrams put together, and cut ----

  lemma ExtentGrows(total: nat, length: nat, header: nat, more: nat)
    requires total % 4 == 0 && Extent(total, length, header).Some?
    ensures Extent(total + more, length, header) == Extent(total, length, header)
    ensures Extent(total, length, header).value % 4 == 0
  {
  }

  lemma PartsOfJoin<T>(a: seq<T>, b: seq<T>, n: nat)
    requires n <= |a|
    ensures (a + b)[..n] == a[..n] && (a + b)[n..] == a[n..] + b
  {
  }

  lemma SameFirstAttr(b: seq<Byte>, c: seq<Byte>, length: nat)
    requires ATTR_HEADER <= length <= |b| && length <= |c|
    requires b[..length] == c[..length] && U16Le(b[..2]) == length
    ensures U16Le(c[..2]) == length && FirstAttr(b) == FirstAttr(c)
  {
    forall k, m | 0 <= k <= m <= length
      ensures b[k..m] == c[k..m]
    {
      assert b[k..m] == b[..length][k..m] == c[..length][k..m] == c[k..m];
    }
    hide U16Le;
    assert b[..2] == b[0..2] && c[..2] == c[0..2];
  }

  lemma AttrsJoinStep(a: seq<Byte>, b: seq<Byte>, next: nat)
    requires |a| % 4 == 0 && |a| >= ATTR_HEADER && Extent(|a|, U16Le(a[..2]), ATTR_HEADER) == Some(next)
    ensures Attrs(a + b) == Onto([FirstAttr(a)], Attrs(a[next..] + b))
  {
    hide Attrs, U16Le, Extent, FirstAttr, Align;
    var length := U16Le(a[..2]);
    ExtentGrows(|a|, length, ATTR_HEADER, |b|);
    PartsOfJoin(a, b, length);
    PartsOfJoin(a, b, next);
    SameFirstAttr(a, a + b, length);
    AttrsUnfold(a + b);
  }

  lemma AttrsSplit(a: seq<Byte>) returns (next: nat)
    requires |a| % 4 == 0 && a != [] && Attrs(a).Some?
    ensures |a| >= ATTR_HEADER && Extent(|a|, U16Le(a[..2]), ATTR_HEADER) == Some(next) && 0 < next <= |a|
    ensures Attrs(a[next..]).Some? && Attrs(a) == Onto([FirstAttr(a)], Attrs(a[next..]))
    ensures |a[next..]| % 4 == 0
  {
    hide Attrs, U16Le, Extent, FirstAttr, Align;
    TooShort(a, 0);
    AttrsUnfold(a);
    next := Extent(|a|, U16Le(a[..2]), ATTR_HEADER).value;
    ExtentGrows(|a|, U16Le(a[..2]), ATTR_HEADER, 0);
  }

  /** Attributes one after the other are read one after the other. */
  lemma {:induction false} AttrsJoin(a: seq<Byte>, b: seq<Byte>)
    requires |a| % 4 == 0 && Attrs(a).Some?
    ensures Attrs(a + b) == Onto(Attrs(a).value, Attrs(b))
    decreases |a|
  {
    if a == [] {
      assert a + b == b;
      OntoNothing(Attrs(b), []);
    } else {
      hide *;
      var next := AttrsSplit(a);
      var one, rest := [FirstAttr(a)], Attrs(a[next..]).value;
      AttrsJoinStep(a, b, next);
      AttrsJoin(a[next..], b);
      OntoTwice(one, rest, Attrs(b));
      OntoSome(one, rest);
    }
  }

  lemma SameFirstEvents(d: seq<Byte>, e: seq<Byte>, length: nat, family: nat)
    requires |d| >= MESSAGE_HEADER && |e| >= MESSAGE_HEADER && MESSAGE_HEADER <= length <= |d| && length <= |e|
    requires d[..length] == e[..length] && U32Le(d[..4]) == length
    ensures U32Le(e[..4]) == length && FirstEvents(d, family) == FirstEvents(e, family)
  {
    forall k, m | 0 <= k <= m <= length
      ensures d[k..m] == e[k..m]
    {
      assert d[k..m] == d[..length][k..m] == e[..length][k..m] == e[k..m];
    }
    hide U16Le, U32Le, Events;
    assert d[..4] == d[0..4] && e[..4] == e[0..4];
  }

  lemma ParseJoinStep(a: seq<Byte>, b: seq<Byte>, next: nat, family: nat)
    requires |a| % 4 == 0 && |a| >= MESSAGE_HEADER && Extent(|a|, U32Le(a[..4]), MESSAGE_HEADER) == Some(next)
    requires FirstEvents(a, family).Some?
    ensures Parse(a + b, family) == Onto(FirstEvents(a, family).value, Parse(a[next..] + b, family))
  {
    hide Parse, U32Le, Extent, FirstEvents, Align;
    var length := U32Le(a[..4]);
    ExtentGrows(|a|, length, MESSAGE_HEADER, |b|);
    PartsOfJoin(a, b, length);
    PartsOfJoin(a, b, next);
    SameFirstEvents(a, a + b, length, family);
    ParseUnfold(a + b, family);
  }

  lemma ParseSplit(a: seq<Byte>, family: nat) returns (next: nat)
    requires |a| % 4 == 0 && a != [] && Parse(a, family).Some?
    ensures |a| >= MESSAGE_HEADER && Extent(|a|, U32Le(a[..4]), MESSAGE_HEADER) == Some(next) && 0 < next <= |a|
    ensures FirstEvents(a, family).Some? && Parse(a[next..], family).Some?
    ensures Parse(a, family) == Onto(FirstEvents(a, family).value, Parse(a[next..], family))
    ensures |a[next..]| % 4 == 0
  {
    hide Parse, U32Le, Extent, FirstEvents, Align;
    TooShort(a, family);
    ParseUnfold(a, family);
    next := Extent(|a|, U32Le(a[..4]), MESSAGE_HEADER).value;
    ExtentGrows(|a|, U32Le(a[..4]), MESSAGE_HEADER, 0);
  }

  /** Datagrams one after the other give the events one after the other, or none when one is malformed. */
  lemma {:induction false} ParseJoin(a: seq<Byte>, b: seq<Byte>, family: nat)
    requires |a| % 4 == 0 && Parse(a, family).Some?
    ensures Parse(a + b, family) == Onto(Parse(a, family).value, Parse(b, family))
    decreases |a|
  {
    if a == [] {
      assert a + b == b;
      OntoNothing(Parse(b, family), []);
    } else {
      hide *;
      var next := ParseSplit(a, family);
      var one, rest := FirstEvents(a, family).value, Parse(a[next..], family).value;
      ParseJoinStep(a, b, next, family);
      ParseJoin(a[next..], b, family);
      OntoTwice(one, rest, Parse(b, family));
      OntoSome(one, rest);
    }
  }

  /** Where a cut of a datagram falls between messages: before or after the padding of one. */
  predicate IsBoundary(d: seq<Byte>, n: nat)
    decreases |d|
  {
    n == 0 || (|d| >= MESSAGE_HEADER
               && var length := U32Le(d[..4]);
                  var next := Extent(|d|, length, MESSAGE_HEADER);
                  next.Some? && (n == length || (n >= next.value && IsBoundary(d[next.value..], n - next.value))))
  }

  lemma ExtentCut(total: nat, length: nat, header: nat, n: nat)
    requires Extent(total, length, header).Some? && n <= total
    ensures Extent(n, length, header) ==
            if n == length then Some(n)
            else if n >= Extent(total, length, header).value then Extent(total, length, header)
            else None
  {
  }

  lemma BoundaryUnfold(d: seq<Byte>, n: nat, next: nat)
    requires |d| >= MESSAGE_HEADER && Extent(|d|, U32Le(d[..4]), MESSAGE_HEADER) == Some(next)
    ensures IsBoundary(d, n) <==> n == 0 || n == U32Le(d[..4]) || (n >= next && IsBoundary(d[next..], n - next))
  {
  }

  /** The first message of a cut datagram: whole, whole with more after it, or not whole. */
  lemma CutFirst(d: seq<Byte>, n: nat, next: nat, family: nat)
    requires MESSAGE_HEADER <= n <= |d| && Extent(|d|, U32Le(d[..4]), MESSAGE_HEADER) == Some(next)
    requires FirstEvents(d, family).Some?
    ensures Parse(d[..n], family) == if n == U32Le(d[..4]) then FirstEvents(d, family)
                                     else if n >= next then Onto(FirstEvents(d, family).value,
                                       Parse(d[next..][..n - next], family))
                                     else None
  {
    hide Parse, Extent, Align, FirstEvents, Onto;
    var p := d[..n];
    var length := U32Le(d[..4]);
    assert p[..4] == d[..4];
    ExtentCut(|d|, length, MESSAGE_HEADER, n);
    ParseUnfold(p, family);
    if n >= length {
      assert p[..length] == d[..length];
      SameFirstEvents(d, p, length, family);
      if n == length {
        var none: seq<Byte> := [];
        assert p[n..] == none;
        NoMessages(family);
        OntoNothing(Some(FirstEvents(d, family).value), FirstEvents(d, family).value);
      } else if n >= next {
        assert p[next..] == d[next..][..n - next];
      }
    }
  }

  lemma OntoPrefix<T>(a: seq<T>, b: Option<seq<T>>, c: seq<T>)
    requires b.Some? ==> b.value <= c
    ensures Onto(a, b).Some? <==> b.Some?
    ensures b.Some? ==> Onto(a, b).value <= a + c
    ensures Onto(a, Some(c)) == Some(a + c) && a <= a + c
  {
  }

  lemma BoundaryShort(d: seq<Byte>, n: nat)
    requires n < MESSAGE_HEADER
    ensures IsBoundary(d, n) <==> n == 0
  {
  }

  /** A part of a valid datagram is accepted exactly when it ends between messages. */
  lemma {:induction false} PartParsesIff(d: seq<Byte>, n: nat, family: nat)
    requires Parse(d, family).Some? && n <= |d|
    ensures Parse(d[..n], family).Some? <==> IsBoundary(d, n)
    ensures Parse(d[..n], family).Some? ==> Parse(d[..n], family).value <= Parse(d, family).value
    decreases |d|
  {
    hide Parse, U32Le, FirstEvents, Extent, Align, IsBoundary;
    if n < MESSAGE_HEADER {
      BoundaryShort(d, n);
      TooShort(d[..n], family);
      if n == 0 {
        NoMessages(family);
      }
    } else {
      ParseUnfold(d, family);
      var next := Extent(|d|, U32Le(d[..4]), MESSAGE_HEADER).value;
      var one, rest := FirstEvents(d, family).value, Parse(d[next..], family).value;
      CutFirst(d, n, next, family);
      BoundaryUnfold(d, n, next);
      if n >= next {
        PartParsesIff(d[next..], n - next, family);
        OntoPrefix(one, Parse(d[next..][..n - next], family), rest);
      } else {
        OntoPrefix(one, None, rest);
      }
    }
  }

  lemma NoMessages(family: nat)
    ensures Parse([], family) == Some([])
  {
  }
}
