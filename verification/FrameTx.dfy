/** Encoding of frame transmission requests, and of the messages the kernel answers with. */
module FrameTx {
  import opened Wrappers
  import opened Joining
  import opened ByteSeqs
  import opened Netlink

  const ATTR_FRAME: nat := 51
  const ATTR_DONT_WAIT_FOR_ACK: nat := 142
  const MIN_FRAME: nat := 24
  const MAX_FRAME: nat := 2304

  function Zeros(n: nat): (z: seq<Byte>)
    ensures |z| == n
  {
    seq(n, _ => 0)
  }

  /** An attribute with its padding; the length is stored in two octets, whatever it is. */
  function AttrBytes(kind: nat, value: seq<Byte>): seq<Byte>
    requires kind < 0x1_0000
  {
    var length := 4 + |value|;
    U16LeBytes(length % 0x1_0000) + U16LeBytes(kind) + value + Zeros((4 - length % 4) % 4)
  }

  function Encode(fields: seq<Attr>): seq<Byte>
    requires forall f :: f in fields ==> f.kind < 0x1_0000
  {
    if fields == [] then [] else AttrBytes(fields[0].kind, fields[0].value) + Encode(fields[1..])
  }

  /** A group address: the lowest bit of the first octet of address 1. */
  predicate IsGroup(frame: seq<Byte>)
    requires |frame| >= MIN_FRAME
  {
    frame[4] % 2 != 0
  }

  function RequestFields(ifindex: nat, frequency: nat, frame: seq<Byte>): (fields: seq<Attr>)
    requires ifindex < 0x1_0000_0000 && frequency < 0x1_0000_0000 && |frame| >= MIN_FRAME
    ensures forall f :: f in fields ==> f.kind < 0x4000
  {
    [Attr(ATTR_IFINDEX, U32LeBytes(ifindex)), Attr(ATTR_FREQ, U32LeBytes(frequency)), Attr(ATTR_FRAME, frame)]
    + if IsGroup(frame) then [Attr(ATTR_DONT_WAIT_FOR_ACK, [])] else []
  }

  predicate IsAccepted(ifindex: nat, frequency: nat, frame: seq<Byte>) {
    ifindex > 0 && frequency > 0 && 24 <= |frame| <= 2304
  }

  method AppendAttr(buffer: seq<Byte>, kind: nat, value: seq<Byte>) returns (out: seq<Byte>)
    requires kind < 0x1_0000
    ensures out == buffer + AttrBytes(kind, value)
  {
    var length := 4 + |value|;
    out := buffer + U16LeBytes(length % 0x1_0000);
    out := out + U16LeBytes(kind);
    out := out + value;
    out := out + Zeros((4 - length % 4) % 4);
  }

  method BuildRequest(ifindex: nat, frequency: nat, frame: seq<Byte>) returns (payload: Option<seq<Byte>>)
    requires ifindex < 0x1_0000_0000 && frequency < 0x1_0000_0000
    ensures payload.Some? <==> IsAccepted(ifindex, frequency, frame)
    ensures payload.Some? ==> payload.value == [CMD_FRAME, 1, 0, 0] + Encode(RequestFields(ifindex, frequency, frame))
  {
    if ifindex == 0 || frequency == 0 || |frame| < MIN_FRAME || |frame| > MAX_FRAME {
      return None;
    }
    ghost var fields := RequestFields(ifindex, frequency, frame);
    var head: seq<Byte> := [CMD_FRAME, 1, 0, 0];
    var out := AppendAttr(head, ATTR_IFINDEX, U32LeBytes(ifindex));
    out := AppendAttr(out, ATTR_FREQ, U32LeBytes(frequency));
    out := AppendAttr(out, ATTR_FRAME, frame);
    if frame[4] % 2 != 0 {
      out := AppendAttr(out, ATTR_DONT_WAIT_FOR_ACK, []);
    }
    EncodeRequest(head, ifindex, frequency, frame);
    return Some(out);
  }

  lemma Flatten(head: seq<Byte>, a: seq<Byte>, b: seq<Byte>, c: seq<Byte>, d: seq<Byte>)
    ensures head + (a + (b + (c + d))) == head + a + b + c + d
  {
  }

  lemma EncodeRequest(head: seq<Byte>, ifindex: nat, frequency: nat, frame: seq<Byte>)
    requires ifindex < 0x1_0000_0000 && frequency < 0x1_0000_0000 && |frame| >= MIN_FRAME
    ensures var a, b, c := AttrBytes(ATTR_IFINDEX, U32LeBytes(ifindex)), AttrBytes(ATTR_FREQ,
        U32LeBytes(frequency)), AttrBytes(ATTR_FRAME, frame);
            head + Encode(RequestFields(ifindex, frequency, frame))
            == if IsGroup(frame) then head + a + b + c + AttrBytes(ATTR_DONT_WAIT_FOR_ACK, []) else head + a + b + c
  {
    var fields := RequestFields(ifindex, frequency, frame);
    var a, b, c := AttrBytes(ATTR_IFINDEX, U32LeBytes(ifindex)), AttrBytes(ATTR_FREQ, U32LeBytes(frequency)),
      AttrBytes(ATTR_FRAME, frame);
    var last: seq<Attr> := if IsGroup(frame) then [Attr(ATTR_DONT_WAIT_FOR_ACK, [])] else [];
    var none: seq<Attr> := [];
    assert fields[1..] == fields[1..3] + last && fields[1..][1..] == fields[2..3] + last;
    assert fields[1..][1..][1..] == last;
    EncodeUnfold(fields);
    EncodeUnfold(fields[1..]);
    EncodeUnfold(fields[1..][1..]);
    EncodeUnfold(last);
    if IsGroup(frame) {
      assert last[1..] == none;
    }
    var d := Encode(last);
    hide Encode, AttrBytes, U32LeBytes;
    assert Encode(fields) == a + (b + (c + d));
    Flatten(head, a, b, c, d);
    assert IsGroup(frame) ==> d == AttrBytes(ATTR_DONT_WAIT_FOR_ACK, []);
    assert !IsGroup(frame) ==> head + a + b + c + d == head + a + b + c;
  }

  lemma EncodeUnfold(fields: seq<Attr>)
    requires forall f :: f in fields ==> f.kind < 0x1_0000
    ensures fields != [] ==> Encode(fields) == AttrBytes(fields[0].kind, fields[0].value) + Encode(fields[1..])
    ensures Encode([]) == []
  {
  }

  lemma PadsToFour(length: nat)
    ensures length + (4 - length % 4) % 4 == Align(length) && Align(length) % 4 == 0
  {
  }

  lemma AttrLayout(kind: nat, value: seq<Byte>)
    requires kind < 0x1_0000 && 4 + |value| < 0x1_0000
    ensures var b := AttrBytes(kind, value);
            && |b| == Align(4 + |value|) && |b| % 4 == 0
            && b[..2] == U16LeBytes(4 + |value|) && b[2..4] == U16LeBytes(kind) && b[4..4 + |value|] == value
  {
    hide U16LeBytes, Zeros, Align;
    var length := 4 + |value|;
    PadsToFour(length);
    assert length % 0x1_0000 == length;
    FourParts(U16LeBytes(length), U16LeBytes(kind), value, Zeros((4 - length % 4) % 4));
  }

  lemma FourParts(a: seq<Byte>, b: seq<Byte>, c: seq<Byte>, d: seq<Byte>)
    requires |a| == 2 && |b| == 2
    ensures var s := a + b + c + d;
            s[..2] == a && s[2..4] == b && s[4..4 + |c|] == c
  {
  }

  /** One encoded attribute reads back as itself. */
  lemma AttrReadsBack(kind: nat, value: seq<Byte>)
    requires kind < 0x4000 && 4 + |value| < 0x1_0000
    ensures Attrs(AttrBytes(kind, value)) == Some([Attr(kind, value)])
    ensures |AttrBytes(kind, value)| % 4 == 0
  {
    var length := 4 + |value|;
    var b := AttrBytes(kind, value);
    AttrLayout(kind, value);
    AttrsUnfold(b);
    hide AttrBytes, Attrs;
    assert Extent(|b|, length, ATTR_HEADER) == Some(|b|);
    var none: seq<Byte> := [];
    assert b[|b|..] == none;
    NoAttrs();
    OntoNothing(Some([Attr(kind, value)]), [Attr(kind, value)]);
  }

  lemma NoAttrs()
    ensures Attrs([]) == Some([])
  {
  }

  /** Reading attributes undoes writing them. */
  lemma {:induction false} AttrsUndoEncode(fields: seq<Attr>)
    requires forall f :: f in fields ==> f.kind < 0x4000 && 4 + |f.value| < 0x1_0000
    ensures Attrs(Encode(fields)) == Some(fields)
    ensures |Encode(fields)| % 4 == 0
  {
    hide *;
    EncodeUnfold(fields);
    if fields == [] {
      NoAttrs();
    } else {
      var one := fields[0];
      AttrReadsBack(one.kind, one.value);
      AttrsUndoEncode(fields[1..]);
      AttrsJoin(AttrBytes(one.kind, one.value), Encode(fields[1..]));
      OntoSome([one], fields[1..]);
      assert [one] + fields[1..] == fields;
    }
  }

  /**
   * A request that is encoded reads back as its interface, frequency and frame, with the flag that waives
   * the acknowledgement exactly for a group address.
   */
  lemma RequestReadsBack(ifindex: nat, frequency: nat, frame: seq<Byte>)
    requires ifindex < 0x1_0000_0000 && frequency < 0x1_0000_0000 && IsAccepted(ifindex, frequency, frame)
    ensures var fields := Attrs(Encode(RequestFields(ifindex, frequency, frame)));
            && fields.Some?
            && U32Field(fields.value, 3) == Some(ifindex)
            && U32Field(fields.value, 38) == Some(frequency)
            && Field(fields.value, 51) == Some(frame)
            && (Count(fields.value, 142) > 0 <==> frame[4] % 2 == 1)
  {
    var fields := RequestFields(ifindex, frequency, frame);
    AttrsUndoEncode(fields);
    hide Attrs, Encode;
    CountFour(fields, ATTR_IFINDEX);
    CountFour(fields, ATTR_FREQ);
    CountFour(fields, ATTR_FRAME);
    CountFour(fields, ATTR_DONT_WAIT_FOR_ACK);
  }

  /** Counting and looking up in a short list. */
  lemma CountFour(fields: seq<Attr>, kind: nat)
    requires 1 <= |fields| <= 4
    ensures Count(fields, kind) == (if fields[0].kind == kind then 1 else 0)
                                   + (if |fields| > 1 && fields[1].kind == kind then 1 else 0)
                                   + (if |fields| > 2 && fields[2].kind == kind then 1 else 0)
                                   + (if |fields| > 3 && fields[3].kind == kind then 1 else 0)
    ensures First(fields, kind) == if fields[0].kind == kind then Some(fields[0].value)
                                   else if |fields| > 1 && fields[1].kind == kind then Some(fields[1].value)
                                   else if |fields| > 2 && fields[2].kind == kind then Some(fields[2].value)
                                   else if |fields| > 3 && fields[3].kind == kind then Some(fields[3].value)
                                   else None
  {
    if |fields| > 1 {
      CountFew(fields[1..], kind);
    }
  }

  lemma CountFew(fields: seq<Attr>, kind: nat)
    requires 1 <= |fields| <= 3
    ensures Count(fields, kind) == (if fields[0].kind == kind then 1 else 0)
                                   + (if |fields| > 1 && fields[1].kind == kind then 1 else 0)
                                   + (if |fields| > 2 && fields[2].kind == kind then 1 else 0)
    ensures First(fields, kind) == if fields[0].kind == kind then Some(fields[0].value)
                                   else if |fields| > 1 && fields[1].kind == kind then Some(fields[1].value)
                                   else if |fields| > 2 && fields[2].kind == kind then Some(fields[2].value)
                                   else None
  {
    if |fields| > 1 {
      assert fields[1..][0] == fields[1];
      assert Count(fields[1..], kind) == (if fields[1].kind == kind then 1 else 0) + Count(fields[1..][1..], kind);
      if |fields| > 2 {
        assert fields[1..][1..][0] == fields[2];
        assert fields[1..][1..][1..] == [];
      } else {
        assert fields[1..][1..] == [];
      }
    }
  }
}
