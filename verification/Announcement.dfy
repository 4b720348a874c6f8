/** Building an AWDL announcement from a captured frame: header patched, TLV chain re-emitted. */
module Announcement {
  import opened Wrappers
  import opened Joining
  import opened ByteSeqs
  import opened ServiceRecords
  import opened TlvTwo

  const TLV_START: nat := 40
  const ADDR2: nat := 10
  const SEQ_CONTROL: nat := 22
  const PHY_TX: nat := 32
  const TARGET_TX: nat := 36

  type U16 = n: nat | n < 0x1_0000
  type U32 = n: nat | n < 0x1_0000_0000

  datatype Timing = Timing(
    seqControl: U16, phyTx: U32, targetTx: U32, awCounter: U16, timeToNextAw: U16, masterCounter: U32)

  // ---- The TLV chain ----

  datatype Tlv = Tlv(kind: Byte, value: seq<Byte>)

  /** The TLVs of a chain and the one or two octets that may dangle after it. */
  function Chain(b: seq<Byte>): Option<(seq<Tlv>, seq<Byte>)>
    decreases |b|
  {
    if |b| < 3 then Some(([], b))
    else
      var n := U16Le(b[1..3]);
      if n > |b| - 3 then None
      else
        match Chain(b[3 + n..])
        case None => None
        case Some((rest, tail)) => Some(([Tlv(b[0], b[3..3 + n])] + rest, tail))
  }

  predicate Fits(t: Tlv) {
    |t.value| < 0x1_0000
  }

  function TlvBytes(t: Tlv): seq<Byte>
    requires Fits(t)
  {
    [t.kind] + U16LeBytes(|t.value|) + t.value
  }

  ghost predicate AllFit(ts: seq<Tlv>) {
    forall i :: 0 <= i < |ts| ==> Fits(ts[i])
  }

  function ChainBytes(ts: seq<Tlv>): seq<Byte>
    requires forall i :: 0 <= i < |ts| ==> Fits(ts[i])
  {
    if ts == [] then [] else TlvBytes(ts[0]) + ChainBytes(ts[1..])
  }

  lemma FirstTlv(t: Tlv, rest: seq<Byte>)
    requires Fits(t)
    ensures Chain(TlvBytes(t) + rest) ==
            match Chain(rest) case None => None case Some((ts, tail)) => Some(([t] + ts, tail))
  {
    hide U16Le, U16LeBytes;
    var b := TlvBytes(t) + rest;
    assert b[1..3] == U16LeBytes(|t.value|) && b[3..3 + |t.value|] == t.value && b[3 + |t.value|..] == rest;
  }

  lemma {:induction false} ChainOfBytes(ts: seq<Tlv>, tail: seq<Byte>)
    requires AllFit(ts) && |tail| < 3
    ensures Chain(ChainBytes(ts) + tail) == Some((ts, tail))
  {
    hide TlvBytes, Chain;
    if ts == [] {
      assert ChainBytes(ts) + tail == tail;
      ChainEnd(tail);
    } else {
      ChainOfBytes(ts[1..], tail);
      FirstTlv(ts[0], ChainBytes(ts[1..]) + tail);
      assert ChainBytes(ts) + tail == TlvBytes(ts[0]) + (ChainBytes(ts[1..]) + tail);
      assert [ts[0]] + ts[1..] == ts;
    }
  }

  lemma ChainEnd(tail: seq<Byte>)
    requires |tail| < 3
    ensures Chain(tail) == Some(([], tail))
  {
  }

  lemma {:induction false} BytesOfChain(b: seq<Byte>)
    ensures Chain(b).Some? ==>
              var (ts, tail) := Chain(b).value; AllFit(ts) && |tail| < 3 && b == ChainBytes(ts) + tail
    decreases |b|
  {
    hide Chain, ChainBytes, TlvBytes, U16Le, Fits;
    if |b| < 3 {
      ChainEnd(b);
      NoTlvBytes(b);
    } else if Chain(b).Some? {
      ChainInFront(b);
      var n := U16Le(b[1..3]);
      var t, rest := Tlv(b[0], b[3..3 + n]), b[3 + n..];
      var (ts, tail) := Chain(rest).value;
      BytesOfChain(rest);
      TlvInFront(b, t);
      AllFitCons(t, ts);
      assert b == b[..3 + n] + rest;
      DoneTwice(TlvBytes(t), ChainBytes(ts), tail);
    }
  }

  lemma NoTlvBytes(b: seq<Byte>)
    ensures AllFit([]) && ChainBytes([]) + b == b
  {
  }

  lemma ChainInFront(b: seq<Byte>)
    requires |b| >= 3 && Chain(b).Some?
    ensures var n := U16Le(b[1..3]);
            && 3 + n <= |b| && Chain(b[3 + n..]).Some?
            && Chain(b) == Some(([Tlv(b[0], b[3..3 + n])] + Chain(b[3 + n..]).value.0, Chain(b[3 + n..]).value.1))
  {
    hide U16Le;
  }

  lemma TlvInFront(b: seq<Byte>, t: Tlv)
    requires |b| >= 3 && 3 + U16Le(b[1..3]) <= |b| && t == Tlv(b[0], b[3..3 + U16Le(b[1..3])])
    ensures Fits(t) && TlvBytes(t) == b[..3 + U16Le(b[1..3])]
  {
    U16LeInjective(b[1..3]);
    hide U16Le, U16LeBytes;
  }

  lemma AllFitCons(t: Tlv, ts: seq<Tlv>)
    requires Fits(t) && AllFit(ts)
    ensures AllFit([t] + ts) && ChainBytes([t] + ts) == TlvBytes(t) + ChainBytes(ts)
  {
    hide TlvBytes;
    assert ([t] + ts)[1..] == ts;
  }

  datatype Span = Span(kind: Byte, start: nat, len: nat)

  function SpanEnd(spans: seq<Span>): nat {
    if spans == [] then TLV_START else spans[|spans| - 1].start + spans[|spans| - 1].len
  }

  ghost predicate SpanShows(frame: seq<Byte>, s: Span, at: nat, t: Tlv) {
    && s.start == at + 3 && s.start + s.len <= |frame| && U16Le(frame[at + 1..at + 3]) == s.len
    && t == Tlv(s.kind, frame[s.start..s.start + s.len]) && frame[at] == s.kind
  }

  /** The spans tile the frame from the start of the chain, and show the chain's TLVs. */
  ghost predicate SpansShow(frame: seq<Byte>, spans: seq<Span>, ts: seq<Tlv>) {
    && |spans| == |ts|
    && forall k :: 0 <= k < |spans| ==> SpanShows(frame, spans[k], SpanEnd(spans[..k]), ts[k])
  }

  method Spans(frame: seq<Byte>) returns (r: Option<seq<Span>>)
    ensures r.Some? <==> |frame| >= TLV_START && Chain(frame[TLV_START..]).Some?
    ensures r.Some? ==>
              var (ts, tail) := Chain(frame[TLV_START..]).value;
              SpansShow(frame, r.value, ts) && SpanEnd(r.value) <= |frame| && tail == frame[SpanEnd(r.value)..]
  {
    hide U16Le, Chain, SpansShow, SpanEnd;
    if |frame| < TLV_START {
      return None;
    }
    NoSpans(frame);
    var spans: seq<Span> := [];
    ghost var seen: seq<Tlv> := [];
    var off := TLV_START;
    ghost var whole := Chain(frame[TLV_START..]);
    OntoFirstNothing(whole);
    while |frame| - off >= 3
      invariant off <= |frame| && off == SpanEnd(spans) && SpansShow(frame, spans, seen)
      invariant whole == OntoFirst(seen, Chain(frame[off..]))
    {
      var kind := frame[off];
      var len := U16Le(frame[off + 1..off + 3]);
      ChainAt(frame, off);
      if len > |frame| - off - 3 {
        return None;
      }
      ghost var t := Tlv(kind, frame[off + 3..off + 3 + len]);
      OntoFirstTwice(seen, [t], Chain(frame[off + 3 + len..]));
      SpansSnoc(frame, spans, seen, len);
      spans := spans + [Span(kind, off + 3, len)];
      seen := seen + [t];
      off := off + 3 + len;
    }
    ChainEnd(frame[off..]);
    assert seen + [] == seen;
    return Some(spans);
  }

  lemma NoSpans(frame: seq<Byte>)
    ensures SpansShow(frame, [], []) && SpanEnd([]) == TLV_START
  {
  }

  lemma SpansSnoc(frame: seq<Byte>, spans: seq<Span>, ts: seq<Tlv>, len: nat)
    requires SpansShow(frame, spans, ts) && SpanEnd(spans) + 3 + len <= |frame|
    requires U16Le(frame[SpanEnd(spans) + 1..SpanEnd(spans) + 3]) == len
    ensures var off := SpanEnd(spans);
            var more := spans + [Span(frame[off], off + 3, len)];
            && SpansShow(frame, more, ts + [Tlv(frame[off], frame[off + 3..off + 3 + len])])
            && SpanEnd(more) == off + 3 + len
  {
    hide SpanShows;
    var off := SpanEnd(spans);
    var s, t := Span(frame[off], off + 3, len), Tlv(frame[off], frame[off + 3..off + 3 + len]);
    var more, all := spans + [s], ts + [t];
    assert SpanShows(frame, s, off, t) by {
      NextShows(frame, off, len);
    }
    assert more[..|spans|] == spans;
    forall k | 0 <= k < |more|
      ensures SpanShows(frame, more[k], SpanEnd(more[..k]), all[k])
    {
      assert k < |spans| ==> more[..k] == spans[..k] && more[k] == spans[k] && all[k] == ts[k];
    }
    assert more[|spans|] == s;
  }

  lemma NextShows(frame: seq<Byte>, off: nat, len: nat)
    requires off + 3 + len <= |frame| && U16Le(frame[off + 1..off + 3]) == len
    ensures SpanShows(frame, Span(frame[off], off + 3, len), off, Tlv(frame[off], frame[off + 3..off + 3 + len]))
  {
  }

  lemma ChainAt(frame: seq<Byte>, off: nat)
    requires off + 3 <= |frame|
    ensures var n := U16Le(frame[off + 1..off + 3]);
            Chain(frame[off..]) ==
            if n > |frame| - off - 3 then None
            else OntoFirst([Tlv(frame[off], frame[off + 3..off + 3 + n])], Chain(frame[off + 3 + n..]))
  {
    hide U16Le;
    SliceFrom(frame, off, 1, 3);
    var n := U16Le(frame[off + 1..off + 3]);
    if n <= |frame| - off - 3 {
      SliceFrom(frame, off, 3, 3 + n);
      SliceFrom(frame, off, 3 + n, 3 + n);
    }
  }

  // ---- Patching ----

  function Put(v: seq<Byte>, at: nat, octets: seq<Byte>): (r: seq<Byte>)
    requires at + |octets| <= |v|
    ensures |r| == |v|
    ensures r[at..at + |octets|] == octets
    ensures forall i :: 0 <= i < |v| && !(at <= i < at + |octets|) ==> r[i] == v[i]
  {
    v[..at] + octets + v[at + |octets|..]
  }

  /** The ARPA name of TLV 16. */
  function ArpaValue(id: Identity): Option<seq<Byte>> {
    if |id.uuid| > 255 then None else Some([0x03, |id.uuid|] + id.uuid + [0xc0, 0x0c])
  }

  function NewValue(t: Tlv, id: Identity, timing: Timing): Emit {
    var v := t.value;
    if t.kind == 4 && |v| >= 31 then
      Emitted(Put(Put(Put(v, 1, U16LeBytes(timing.timeToNextAw)), 21, id.masterAddr), 29, U16LeBytes(timing.awCounter)))
    else if t.kind == 5 && |v| >= 21 then Emitted(Put(v, 5, id.masterAddr))
    else if t.kind == 24 && |v| >= 40 then
      Emitted(Put(Put(Put(Put(v, 0, id.masterAddr), 6, id.masterAddr), 12, U32LeBytes(timing.masterCounter)),
                  36, U32LeBytes(timing.awCounter)))
    else if t.kind == 12 && |v| >= 21 then Emitted(Put(v, 15, id.selfAddr))
    else if t.kind == 16 then
      match ArpaValue(id)
      case None => Unencodable
      case Some(arpa) => Emitted(arpa)
    else if t.kind == 2 then Rewrite(v, id)
    else Emitted(v)
  }

  /** The patched TLVs, or the first failure met along the chain. */
  function NewChain(ts: seq<Tlv>, id: Identity, timing: Timing): (r: Wrappers.Result<seq<Tlv>, Emit>)
    ensures r.Success? ==> |r.value| == |ts| && AllFit(r.value)
    ensures r.Failure? ==> !r.error.Emitted?
  {
    if ts == [] then Success([])
    else
      match NewValue(ts[0], id, timing)
      case Emitted(v) =>
        if |v| > 0xffff then Failure(Unencodable)
        else
          (match NewChain(ts[1..], id, timing)
           case Failure(e) => Failure(e)
           case Success(rest) => Success([Tlv(ts[0].kind, v)] + rest))
      case e => Failure(e)
  }

  function NewHeader(h: seq<Byte>, id: Identity, timing: Timing): (r: seq<Byte>)
    requires |h| == TLV_START
    ensures |r| == TLV_START
  {
    Put(Put(Put(Put(h, ADDR2, id.selfAddr), SEQ_CONTROL, U16LeBytes(timing.seqControl)),
            PHY_TX, U32LeBytes(timing.phyTx)), TARGET_TX, U32LeBytes(timing.targetTx))
  }

  function Build(template: seq<Byte>, id: Identity, timing: Timing): Emit {
    if |template| < TLV_START then Unencodable
    else
      match Chain(template[TLV_START..])
      case None => Unencodable
      case Some((ts, tail)) =>
        match NewChain(ts, id, timing)
        case Failure(e) => e
        case Success(edited) => Emitted(NewHeader(template[..TLV_START], id, timing) + ChainBytes(edited) + tail)
  }

  /** The live announcement: the frame rebuilt without its service records. */
  function LinkAnnouncement(template: seq<Byte>, id: Identity, timing: Timing): Emit {
    match Build(template, id, timing)
    case Emitted(frame) => WithoutServices(frame)
    case e => e
  }

  function WithoutServices(frame: seq<Byte>): Emit {
    if |frame| < TLV_START then Unencodable
    else
      match Chain(frame[TLV_START..])
      case None => Unencodable
      case Some((ts, tail)) =>
        BytesOfChain(frame[TLV_START..]);
        KeepFit(ts);
        Emitted(frame[..TLV_START] + ChainBytes(KeepLink(ts)) + tail)
  }

  function KeepLink(ts: seq<Tlv>): seq<Tlv> {
    if ts == [] then [] else (if ts[0].kind == 2 then [] else [ts[0]]) + KeepLink(ts[1..])
  }

  lemma {:induction false} KeepFit(ts: seq<Tlv>)
    requires AllFit(ts)
    ensures AllFit(KeepLink(ts))
  {
    if ts != [] {
      KeepFit(ts[1..]);
    }
  }

  // ---- The builders, in place ----

  method CopyInto(a: array<Byte>, at: nat, octets: seq<Byte>)
    requires at + |octets| <= a.Length
    modifies a
    ensures a[..] == Put(old(a[..]), at, octets)
  {
    for i := 0 to |octets|
      invariant a[..] == Put(old(a[..]), at, octets[..i])
    {
      a[at + i] := octets[i];
      assert octets[..i + 1] == octets[..i] + [octets[i]];
    }
    assert octets[..|octets|] == octets;
  }

  method ArrayOf(s: seq<Byte>) returns (a: array<Byte>)
    ensures a[..] == s
    ensures fresh(a)
  {
    a := new Byte[|s|](i requires 0 <= i < |s| => s[i]);
  }

  method PatchValue(kind: Byte, value: seq<Byte>, id: Identity, timing: Timing) returns (r: Emit)
    ensures r == NewValue(Tlv(kind, value), id, timing)
  {
    hide Put, U16LeBytes, U32LeBytes, Rewrite;
    if kind == 16 {
      return if |id.uuid| > 255 then Unencodable else Emitted([0x03, |id.uuid|] + id.uuid + [0xc0, 0x0c]);
    }
    if kind == 2 {
      r := RewriteTlv2(value, id);
      return;
    }
    var v := ArrayOf(value);
    if kind == 4 && v.Length >= 31 {
      CopyInto(v, 1, U16LeBytes(timing.timeToNextAw));
      CopyInto(v, 21, id.masterAddr);
      CopyInto(v, 29, U16LeBytes(timing.awCounter));
    } else if kind == 5 && v.Length >= 21 {
      CopyInto(v, 5, id.masterAddr);
    } else if kind == 24 && v.Length >= 40 {
      CopyInto(v, 0, id.masterAddr);
      CopyInto(v, 6, id.masterAddr);
      CopyInto(v, 12, U32LeBytes(timing.masterCounter));
      CopyInto(v, 36, U32LeBytes(timing.awCounter));
    } else if kind == 12 && v.Length >= 21 {
      CopyInto(v, 15, id.selfAddr);
    }
    return Emitted(v[..]);
  }

  method PatchHeader(template: seq<Byte>, id: Identity, timing: Timing) returns (frame: array<Byte>)
    requires |template| >= TLV_START
    ensures frame[..] == NewHeader(template[..TLV_START], id, timing) + template[TLV_START..]
    ensures fresh(frame)
  {
    hide Put, U16LeBytes, U32LeBytes, NewHeader;
    frame := ArrayOf(template);
    CopyInto(frame, ADDR2, id.selfAddr);
    CopyInto(frame, SEQ_CONTROL, U16LeBytes(timing.seqControl));
    CopyInto(frame, PHY_TX, U32LeBytes(timing.phyTx));
    CopyInto(frame, TARGET_TX, U32LeBytes(timing.targetTx));
    HeaderInPlace(template, id, timing);
  }

  method BuildFrame(template: seq<Byte>, id: Identity, timing: Timing) returns (r: Emit)
    ensures r == Build(template, id, timing)
  {
    hide Put, U16LeBytes, U32LeBytes, Chain, NewValue, NewChain, ChainBytes, SpansShow, SpanEnd;
    var parsed := Spans(template);
    if parsed.None? {
      return Unencodable;
    }
    var spans := parsed.value;
    var frame := PatchHeader(template, id, timing);
    ghost var (ts, tail) := Chain(template[TLV_START..]).value;
    ghost var header := NewHeader(template[..TLV_START], id, timing);
    var out := frame[..TLV_START];
    assert out == frame[..][..TLV_START] == header;
    var chainEnd := TLV_START;
    ghost var done: seq<Tlv> := [];
    NoTlvs(ts, id, timing);
    NoSpans(template);
    SpansLength(template, spans, ts);
    assert spans[..0] == [];
    assert header + [] == header;
    for k := 0 to |spans|
      invariant |spans| == |ts| && SpansShow(template, spans, ts)
      invariant frame[..] == header + template[TLV_START..]
      invariant AllFit(done) && out == header + ChainBytes(done)
      invariant NewChain(ts, id, timing) == Prepend(done, NewChain(ts[k..], id, timing))
      invariant TLV_START <= chainEnd == SpanEnd(spans[..k])
    {
      SpanAt(template, spans, ts, k);
      var value := frame[spans[k].start..spans[k].start + spans[k].len];
      assert value == ts[k].value;
      ChainStep(ts, k, id, timing);
      var patched := PatchValue(spans[k].kind, value, id, timing);
      if !patched.Emitted? {
        return patched;
      }
      if |patched.payload| > 0xffff {
        return Unencodable;
      }
      ghost var t := Tlv(ts[k].kind, patched.payload);
      PrependTwice(done, [t], NewChain(ts[k + 1..], id, timing));
      ChainSnoc(done, t);
      out := out + ([spans[k].kind] + U16LeBytes(|patched.payload|) + patched.payload);
      assert header + (ChainBytes(done) + TlvBytes(t)) == header + ChainBytes(done) + TlvBytes(t);
      done := done + [t];
      chainEnd := spans[k].start + spans[k].len;
      SpanEndAt(spans, k);
    }
    assert spans[..|spans|] == spans;
    NoTlvs([], id, timing);
    assert ts[|ts|..] == [] && done + [] == done;
    InTheRest(header, template, chainEnd);
    assert frame[chainEnd..] == frame[..][chainEnd..];
    return Emitted(out + frame[chainEnd..]);
  }

  lemma InTheRest(header: seq<Byte>, template: seq<Byte>, at: nat)
    requires |header| == TLV_START <= at <= |template|
    ensures (header + template[TLV_START..])[at..] == template[at..]
  {
  }

  lemma HeaderInPlace(template: seq<Byte>, id: Identity, timing: Timing)
    requires |template| >= TLV_START
    ensures Put(Put(Put(Put(template, ADDR2, id.selfAddr), SEQ_CONTROL, U16LeBytes(timing.seqControl)),
                    PHY_TX, U32LeBytes(timing.phyTx)), TARGET_TX, U32LeBytes(timing.targetTx))
            == NewHeader(template[..TLV_START], id, timing) + template[TLV_START..]
  {
    hide Put, U16LeBytes, U32LeBytes;
    var h, rest := template[..TLV_START], template[TLV_START..];
    assert template == h + rest;
    PutInFront(h, rest, ADDR2, id.selfAddr);
    var h1 := Put(h, ADDR2, id.selfAddr);
    PutInFront(h1, rest, SEQ_CONTROL, U16LeBytes(timing.seqControl));
    var h2 := Put(h1, SEQ_CONTROL, U16LeBytes(timing.seqControl));
    PutInFront(h2, rest, PHY_TX, U32LeBytes(timing.phyTx));
    var h3 := Put(h2, PHY_TX, U32LeBytes(timing.phyTx));
    PutInFront(h3, rest, TARGET_TX, U32LeBytes(timing.targetTx));
  }

  lemma PutInFront(h: seq<Byte>, rest: seq<Byte>, at: nat, octets: seq<Byte>)
    requires at + |octets| <= |h|
    ensures Put(h + rest, at, octets) == Put(h, at, octets) + rest
  {
  }

  lemma NoTlvs(ts: seq<Tlv>, id: Identity, timing: Timing)
    ensures Prepend([], NewChain(ts[0..], id, timing)) == NewChain(ts, id, timing)
    ensures ts == [] ==> NewChain(ts, id, timing) == Success([])
    ensures AllFit([]) && ChainBytes([]) == []
  {
    assert ts[0..] == ts;
    if NewChain(ts, id, timing).Success? {
      assert [] + NewChain(ts, id, timing).value == NewChain(ts, id, timing).value;
    }
  }

  lemma ChainStep(ts: seq<Tlv>, k: nat, id: Identity, timing: Timing)
    requires k < |ts|
    ensures NewChain(ts[k..], id, timing) ==
            match NewValue(ts[k], id, timing)
            case Emitted(v) =>
              if |v| > 0xffff then Failure(Unencodable)
              else Prepend([Tlv(ts[k].kind, v)], NewChain(ts[k + 1..], id, timing))
            case e => Failure(e)
  {
    hide NewValue;
    assert ts[k..][1..] == ts[k + 1..];
  }

  lemma SpanAt(frame: seq<Byte>, spans: seq<Span>, ts: seq<Tlv>, k: nat)
    requires SpansShow(frame, spans, ts) && k < |spans|
    ensures |spans| == |ts| && SpanShows(frame, spans[k], SpanEnd(spans[..k]), ts[k])
        && SpanEnd(spans[..k]) >= TLV_START
  {
    if k > 0 {
      assert spans[..k][k - 1] == spans[k - 1];
      SpanAt(frame, spans, ts, k - 1);
    }
  }

  lemma SpansLength(frame: seq<Byte>, spans: seq<Span>, ts: seq<Tlv>)
    requires SpansShow(frame, spans, ts)
    ensures |spans| == |ts|
  {
  }

  lemma SpanEndAt(spans: seq<Span>, k: nat)
    requires k < |spans|
    ensures SpanEnd(spans[..k + 1]) == spans[k].start + spans[k].len
  {
    assert spans[..k + 1][k] == spans[k];
  }

  lemma {:induction false} ChainSnoc(ts: seq<Tlv>, t: Tlv)
    requires AllFit(ts) && Fits(t)
    ensures AllFit(ts + [t]) && ChainBytes(ts + [t]) == ChainBytes(ts) + TlvBytes(t)
  {
    hide TlvBytes;
    if ts == [] {
      assert [t][1..] == [];
      assert ts + [t] == [t];
    } else {
      assert (ts + [t])[1..] == ts[1..] + [t];
      ChainSnoc(ts[1..], t);
    }
  }

  method BuildLinkAnnouncement(template: seq<Byte>, id: Identity, timing: Timing) returns (r: Emit)
    ensures r == LinkAnnouncement(template, id, timing)
  {
    hide Chain, Build, ChainBytes, KeepLink, SpansShow, SpanEnd, TlvBytes, U16LeBytes, U16Le;
    var built := BuildFrame(template, id, timing);
    if !built.Emitted? {
      return built;
    }
    var frame := built.payload;
    var parsed := Spans(frame);
    if parsed.None? {
      return Unencodable;
    }
    var spans := parsed.value;
    ghost var (ts, tail) := Chain(frame[TLV_START..]).value;
    var out, chainEnd := frame[..TLV_START], TLV_START;
    ghost var kept: seq<Tlv> := [];
    BytesOfChain(frame[TLV_START..]);
    KeepFit(ts);
    SpansLength(frame, spans, ts);
    NoSpans(frame);
    assert spans[..0] == [] && ts[..0] == [];
    KeepNone();
    assert out + [] == out;
    for k := 0 to |spans|
      invariant |spans| == |ts| && kept == KeepLink(ts[..k]) && AllFit(kept)
      invariant out == frame[..TLV_START] + ChainBytes(kept)
      invariant TLV_START <= chainEnd == SpanEnd(spans[..k])
    {
      SpanAt(frame, spans, ts, k);
      SpanEndAt(spans, k);
      KeepSnoc(ts, k);
      var end := spans[k].start + spans[k].len;
      if spans[k].kind != 2 {
        TlvInFrame(frame, spans[k], ts[k]);
        ChainSnoc(kept, ts[k]);
        var h := frame[..TLV_START];
        assert h + (ChainBytes(kept) + TlvBytes(ts[k])) == h + ChainBytes(kept) + TlvBytes(ts[k]);
        out := out + frame[spans[k].start - 3..end];
        kept := kept + [ts[k]];
      }
      chainEnd := end;
    }
    assert spans[..|spans|] == spans && ts[..|ts|] == ts;
    return Emitted(out + frame[chainEnd..]);
  }

  lemma KeepNone()
    ensures KeepLink([]) == [] && AllFit([]) && ChainBytes([]) == []
  {
  }

  lemma {:induction false} KeepConcat(a: seq<Tlv>, b: seq<Tlv>)
    ensures KeepLink(a + b) == KeepLink(a) + KeepLink(b)
  {
    if a == [] {
      assert a + b == b;
    } else {
      assert (a + b)[1..] == a[1..] + b;
      KeepConcat(a[1..], b);
    }
  }

  lemma KeepSnoc(ts: seq<Tlv>, k: nat)
    requires k < |ts|
    ensures KeepLink(ts[..k + 1]) == KeepLink(ts[..k]) + if ts[k].kind == 2 then [] else [ts[k]]
  {
    assert ts[..k + 1] == ts[..k] + [ts[k]];
    KeepConcat(ts[..k], [ts[k]]);
    assert KeepLink([ts[k]][1..]) == [];
  }

  /** The octets a span covers, its header included, are the TLV's. */
  lemma TlvInFrame(frame: seq<Byte>, s: Span, t: Tlv)
    requires s.start >= TLV_START + 3 && SpanShows(frame, s, s.start - 3, t)
    ensures Fits(t) && frame[s.start - 3..s.start + s.len] == TlvBytes(t)
  {
    hide U16Le, U16LeBytes;
    var at := s.start - 3;
    U16LeInjective(frame[at + 1..at + 3]);
    assert frame[at..s.start + s.len] == [frame[at]] + frame[at + 1..at + 3] + frame[s.start..s.start + s.len];
  }

  // ---- What the builders keep ----

  /** The octets of a TLV value that carry the transmitter's or the master's identity or timing. */
  predicate InPatch(kind: Byte, len: nat, i: nat) {
    || (kind == 4 && len >= 31 && (1 <= i < 3 || 21 <= i < 27 || 29 <= i < 31))
    || (kind == 5 && len >= 21 && 5 <= i < 11)
    || (kind == 24 && len >= 40 && (i < 16 || 36 <= i < 40))
    || (kind == 12 && len >= 21 && 15 <= i < 21)
  }

  function Field(v: seq<Byte>, at: nat, n: nat): seq<Byte>
    requires at + n <= |v|
  {
    v[at..at + n]
  }

  /** The identity and timing a TLV value carries are the given ones. */
  ghost predicate Carries(kind: Byte, v: seq<Byte>, id: Identity, timing: Timing) {
    && (kind == 4 && |v| >= 31 ==>
          Field(v, 1, 2) == U16LeBytes(timing.timeToNextAw) && Field(v, 21, 6) == id.masterAddr
          && Field(v, 29, 2) == U16LeBytes(timing.awCounter))
    && (kind == 5 && |v| >= 21 ==> Field(v, 5, 6) == id.masterAddr)
    && (kind == 24 && |v| >= 40 ==>
          Field(v, 0, 6) == id.masterAddr && Field(v, 6, 6) == id.masterAddr
          && Field(v, 12, 4) == U32LeBytes(timing.masterCounter) && Field(v, 36, 4) == U32LeBytes(timing.awCounter))
    && (kind == 12 && |v| >= 21 ==> Field(v, 15, 6) == id.selfAddr)
  }

  /** How a rebuilt TLV relates to the captured one. */
  ghost predicate Rebuilt(was: Tlv, now: Tlv, id: Identity, timing: Timing) {
    && now.kind == was.kind
    && (was.kind == 2 ==> Rewrite(was.value, id) == Emitted(now.value))
    && (was.kind == 16 ==> |id.uuid| <= 255 && now.value == [0x03, |id.uuid|] + id.uuid + [0xc0, 0x0c])
    && (was.kind != 2 && was.kind != 16 ==>
          |now.value| == |was.value|
          && forall i :: 0 <= i < |was.value| && !InPatch(was.kind, |was.value|, i) ==> now.value[i] == was.value[i])
    && (was.kind !in {2, 4, 5, 12, 16, 24} ==> now.value == was.value)
    && (was.kind != 2 && was.kind != 16 ==> Carries(was.kind, now.value, id, timing))
  }

  /** A later patch of other octets leaves a field as it is. */
  lemma FieldKept(v: seq<Byte>, at: nat, n: nat, other: nat, octets: seq<Byte>)
    requires at + n <= |v| && other + |octets| <= |v| && (at + n <= other || other + |octets| <= at)
    ensures Field(Put(v, other, octets), at, n) == Field(v, at, n)
  {
    hide Put;
  }

  lemma ValueCarries(t: Tlv, id: Identity, timing: Timing)
    requires NewValue(t, id, timing).Emitted? && t.kind != 2 && t.kind != 16
    ensures Carries(t.kind, NewValue(t, id, timing).payload, id, timing)
  {
    hide Put, U16LeBytes, U32LeBytes, Rewrite;
    var v := t.value;
    if t.kind == 4 && |v| >= 31 {
      var a := Put(v, 1, U16LeBytes(timing.timeToNextAw));
      var b := Put(a, 21, id.masterAddr);
      FieldKept(a, 1, 2, 21, id.masterAddr);
      FieldKept(b, 1, 2, 29, U16LeBytes(timing.awCounter));
      FieldKept(b, 21, 6, 29, U16LeBytes(timing.awCounter));
    } else if t.kind == 24 && |v| >= 40 {
      var a := Put(v, 0, id.masterAddr);
      var b := Put(a, 6, id.masterAddr);
      var c := Put(b, 12, U32LeBytes(timing.masterCounter));
      FieldKept(a, 0, 6, 6, id.masterAddr);
      FieldKept(b, 0, 6, 12, U32LeBytes(timing.masterCounter));
      FieldKept(b, 6, 6, 12, U32LeBytes(timing.masterCounter));
      FieldKept(c, 0, 6, 36, U32LeBytes(timing.awCounter));
      FieldKept(c, 6, 6, 36, U32LeBytes(timing.awCounter));
      FieldKept(c, 12, 4, 36, U32LeBytes(timing.awCounter));
    }
  }

  lemma ValueRebuilt(t: Tlv, id: Identity, timing: Timing)
    requires NewValue(t, id, timing).Emitted?
    ensures Rebuilt(t, Tlv(t.kind, NewValue(t, id, timing).payload), id, timing)
  {
    hide Rewrite, Put, U16LeBytes, U32LeBytes, Carries;
    if t.kind != 2 && t.kind != 16 {
      ValueCarries(t, id, timing);
    }
  }

  lemma {:induction false} ChainRebuilt(ts: seq<Tlv>, id: Identity, timing: Timing)
    requires NewChain(ts, id, timing).Success?
    ensures var now := NewChain(ts, id, timing).value;
            forall k :: 0 <= k < |ts| ==> Rebuilt(ts[k], now[k], id, timing)
  {
    hide NewValue, Rebuilt;
    if ts != [] {
      ValueRebuilt(ts[0], id, timing);
      ChainRebuilt(ts[1..], id, timing);
      var now := NewChain(ts, id, timing).value;
      assert now[1..] == NewChain(ts[1..], id, timing).value;
      forall k | 0 < k < |ts|
        ensures Rebuilt(ts[k], now[k], id, timing)
      {
        assert ts[k] == ts[1..][k - 1] && now[k] == now[1..][k - 1];
      }
    }
  }

  /** Octets of the action header that are patched. */
  predicate InHeaderPatch(i: nat) {
    10 <= i < 16 || 22 <= i < 24 || 32 <= i < 40
  }

  /** The transmitter's address, the sequence control and both times, where the frame format has them. */
  ghost predicate HeaderCarries(h: seq<Byte>, id: Identity, timing: Timing)
    requires |h| >= 40
  {
    && Field(h, 10, 6) == id.selfAddr && Field(h, 22, 2) == U16LeBytes(timing.seqControl)
    && Field(h, 32, 4) == U32LeBytes(timing.phyTx) && Field(h, 36, 4) == U32LeBytes(timing.targetTx)
  }

  lemma HeaderRebuilt(h: seq<Byte>, id: Identity, timing: Timing)
    requires |h| == TLV_START
    ensures var r := NewHeader(h, id, timing);
            (forall i :: 0 <= i < 40 && !InHeaderPatch(i) ==> r[i] == h[i]) && HeaderCarries(r, id, timing)
  {
    hide U16LeBytes, U32LeBytes, Put;
    var a := Put(h, ADDR2, id.selfAddr);
    var b := Put(a, SEQ_CONTROL, U16LeBytes(timing.seqControl));
    var c := Put(b, PHY_TX, U32LeBytes(timing.phyTx));
    FieldKept(a, 10, 6, SEQ_CONTROL, U16LeBytes(timing.seqControl));
    FieldKept(b, 10, 6, PHY_TX, U32LeBytes(timing.phyTx));
    FieldKept(b, 22, 2, PHY_TX, U32LeBytes(timing.phyTx));
    FieldKept(c, 10, 6, TARGET_TX, U32LeBytes(timing.targetTx));
    FieldKept(c, 22, 2, TARGET_TX, U32LeBytes(timing.targetTx));
    FieldKept(c, 32, 4, TARGET_TX, U32LeBytes(timing.targetTx));
  }

  lemma SameFields(frame: seq<Byte>, h: seq<Byte>, id: Identity, timing: Timing)
    requires |frame| >= 40 && h == frame[..40] && HeaderCarries(h, id, timing)
    ensures HeaderCarries(frame, id, timing)
  {
    hide U16LeBytes, U32LeBytes;
    assert h[10..16] == frame[10..16] && h[22..24] == frame[22..24];
    assert h[32..36] == frame[32..36] && h[36..40] == frame[36..40];
  }

  /** What can go wrong with one TLV: a UUID too long, or service records that cannot be rewritten or have grown. */
  ghost predicate Fails(t: Tlv, id: Identity) {
    || (t.kind == 16 && |id.uuid| > 255)
    || (t.kind == 2 && !(Rewrite(t.value, id).Emitted? && |Rewrite(t.value, id).payload| <= 65535))
  }

  lemma ValueFails(t: Tlv, id: Identity, timing: Timing)
    requires Fits(t)
    ensures Fails(t, id) <==>
            !(NewValue(t, id, timing).Emitted? && |NewValue(t, id, timing).payload| <= 65535)
  {
    hide Rewrite, Put, U16LeBytes, U32LeBytes;
  }

  lemma {:induction false} ChainFails(ts: seq<Tlv>, id: Identity, timing: Timing)
    requires AllFit(ts)
    ensures NewChain(ts, id, timing).Failure? <==> exists k :: 0 <= k < |ts| && Fails(ts[k], id)
    decreases |ts|
  {
    hide NewValue, Fails, Fits;
    if ts != [] {
      var rest := ts[1..];
      assert forall k :: 0 < k < |ts| ==> ts[k] == rest[k - 1];
      ValueFails(ts[0], id, timing);
      ChainFails(rest, id, timing);
      if k :| 0 <= k < |rest| && Fails(rest[k], id) {
        assert Fails(ts[k + 1], id);
      }
    }
  }

  /** A frame is built exactly when it has a header and a chain, and none of its TLVs fails. */
  lemma BuildsIff(template: seq<Byte>, id: Identity, timing: Timing)
    ensures Build(template, id, timing).Emitted? <==>
            && |template| >= 40 && Chain(template[40..]).Some?
            && forall t :: t in Chain(template[40..]).value.0 ==> !Fails(t, id)
  {
    hide Chain, NewChain, ChainBytes, NewHeader, Fails, Fits;
    if |template| >= 40 && Chain(template[40..]).Some? {
      BytesOfChain(template[40..]);
      ChainFails(Chain(template[40..]).value.0, id, timing);
    }
  }

  /**
   * A rebuilt frame parses to the template's TLV kinds in order, every value outside the patched
   * kinds unchanged, with the same dangling octets, and a header changed in four fields only.
   */
  lemma BuildKeepsChain(template: seq<Byte>, id: Identity, timing: Timing, frame: seq<Byte>)
    requires Build(template, id, timing) == Emitted(frame)
    ensures |template| >= TLV_START && Chain(template[TLV_START..]).Some?
    ensures |frame| >= TLV_START && Chain(frame[TLV_START..]).Some?
    ensures var (ts, tail) := Chain(template[TLV_START..]).value;
            var (now, end) := Chain(frame[TLV_START..]).value;
            && |now| == |ts| && end == tail && forall k :: 0 <= k < |ts| ==> Rebuilt(ts[k], now[k], id, timing)
    ensures forall i :: 0 <= i < 40 && !InHeaderPatch(i) ==> frame[i] == template[i]
    ensures HeaderCarries(frame, id, timing) && frame[..TLV_START] == NewHeader(template[..TLV_START], id, timing)
  {
    hide Chain, ChainBytes, NewChain, NewHeader, Rebuilt, U16LeBytes, U32LeBytes;
    var (ts, tail) := Chain(template[TLV_START..]).value;
    BytesOfChain(template[TLV_START..]);
    ChainRebuilt(ts, id, timing);
    var now := NewChain(ts, id, timing).value;
    ChainOfBytes(now, tail);
    var h := NewHeader(template[..TLV_START], id, timing);
    assert frame == h + (ChainBytes(now) + tail);
    assert frame[TLV_START..] == ChainBytes(now) + tail && frame[..TLV_START] == h;
    HeaderRebuilt(template[..TLV_START], id, timing);
    forall i | 0 <= i < 40 && !InHeaderPatch(i)
      ensures frame[i] == template[i]
    {
      assert frame[i] == h[i] && template[i] == template[..TLV_START][i];
    }
    SameFields(frame, h, id, timing);
  }

  /** The live announcement parses to the rebuilt frame's chain without its kind 2, and nothing else changes. */
  lemma LinkKeepsChain(template: seq<Byte>, id: Identity, timing: Timing, frame: seq<Byte>)
    requires Build(template, id, timing) == Emitted(frame)
    ensures |frame| >= TLV_START && Chain(frame[TLV_START..]).Some?
    ensures LinkAnnouncement(template, id, timing).Emitted?
    ensures var out := LinkAnnouncement(template, id, timing).payload;
            var (ts, tail) := Chain(frame[TLV_START..]).value;
            && |out| >= TLV_START && out[..TLV_START] == frame[..TLV_START]
            && Chain(out[TLV_START..]) == Some((KeepLink(ts), tail))
  {
    hide Chain, ChainBytes, Build, KeepLink;
    BuildKeepsChain(template, id, timing, frame);
    var (ts, tail) := Chain(frame[TLV_START..]).value;
    BytesOfChain(frame[TLV_START..]);
    KeepFit(ts);
    ChainOfBytes(KeepLink(ts), tail);
    var out := LinkAnnouncement(template, id, timing).payload;
    assert out == frame[..TLV_START] + (ChainBytes(KeepLink(ts)) + tail);
    assert out[TLV_START..] == ChainBytes(KeepLink(ts)) + tail;
  }

  /** The kept TLVs are those of another kind, in order. */
  lemma {:induction false} KeepLinkKinds(ts: seq<Tlv>)
    ensures forall t :: t in KeepLink(ts) <==> t in ts && t.kind != 2
    ensures (forall t :: t in ts ==> t.kind != 2) ==> KeepLink(ts) == ts
  {
    if ts != [] {
      KeepLinkKinds(ts[1..]);
      assert ts == [ts[0]] + ts[1..];
    }
  }

  // ---- Rebuilding a rebuilt frame ----

  lemma PutSame(v: seq<Byte>, at: nat, octets: seq<Byte>)
    requires at + |octets| <= |v| && Field(v, at, |octets|) == octets
    ensures Put(v, at, octets) == v
  {
  }

  lemma CarriesIsFixed(t: Tlv, id: Identity, timing: Timing)
    requires t.kind != 2 && t.kind != 16 && Carries(t.kind, t.value, id, timing)
    ensures NewValue(t, id, timing) == Emitted(t.value)
  {
    hide Put, U16LeBytes, U32LeBytes, Rewrite, Field;
    var v := t.value;
    if t.kind == 4 && |v| >= 31 {
      PutSame(v, 1, U16LeBytes(timing.timeToNextAw));
      PutSame(v, 21, id.masterAddr);
      PutSame(v, 29, U16LeBytes(timing.awCounter));
    } else if t.kind == 5 && |v| >= 21 {
      PutSame(v, 5, id.masterAddr);
    } else if t.kind == 24 && |v| >= 40 {
      PutSame(v, 0, id.masterAddr);
      PutSame(v, 6, id.masterAddr);
      PutSame(v, 12, U32LeBytes(timing.masterCounter));
      PutSame(v, 36, U32LeBytes(timing.awCounter));
    } else if t.kind == 12 && |v| >= 21 {
      PutSame(v, 15, id.selfAddr);
    }
  }

  /** No service records of the chain have zeros at their end that a second rewriting reads otherwise. */
  ghost predicate HidesNothing(ts: seq<Tlv>, id: Identity) {
    forall i :: 0 <= i < |ts| ==> IsPlain(ts[i], id)
  }

  ghost predicate IsPlain(t: Tlv, id: Identity) {
    t.kind == 2 ==> !HidesZeros(t.value, id)
  }

  lemma RebuiltIsFixed(was: Tlv, now: Tlv, id: Identity, timing: Timing)
    requires Rebuilt(was, now, id, timing)
    ensures NewValue(now, id, timing) == Emitted(now.value) <==> IsPlain(was, id)
  {
    hide Rewrite, Carries, HidesZeros;
    if was.kind == 2 {
      RewriteAgain(was.value, id, now.value);
    } else if was.kind != 16 {
      CarriesIsFixed(now, id, timing);
    }
  }

  lemma {:induction false} ChainIsFixed(ts: seq<Tlv>, now: seq<Tlv>, id: Identity, timing: Timing)
    requires |ts| == |now| && AllFit(now)
    requires forall k :: 0 <= k < |ts| ==> Rebuilt(ts[k], now[k], id, timing)
    ensures NewChain(now, id, timing) == Success(now) <==> HidesNothing(ts, id)
    decreases |ts|
  {
    hide NewValue, Rebuilt, IsPlain;
    if ts != [] {
      RebuiltIsFixed(ts[0], now[0], id, timing);
      assert forall k :: 0 <= k < |ts| - 1 ==> ts[1..][k] == ts[k + 1] && now[1..][k] == now[k + 1];
      ChainIsFixed(ts[1..], now[1..], id, timing);
      assert [now[0]] + now[1..] == now;
      HidesCons(ts, id);
      SameChain(now, id, timing);
    }
  }

  lemma HidesCons(ts: seq<Tlv>, id: Identity)
    requires ts != []
    ensures HidesNothing(ts, id) <==> IsPlain(ts[0], id) && HidesNothing(ts[1..], id)
  {
    hide IsPlain;
    if HidesNothing(ts[1..], id) {
      assert forall i :: 0 < i < |ts| ==> ts[i] == ts[1..][i - 1];
    }
  }

  /** A chain is left as it is when its first TLV and the rest are. */
  lemma SameChain(now: seq<Tlv>, id: Identity, timing: Timing)
    requires now != [] && AllFit(now)
    ensures NewChain(now, id, timing) == Success(now) <==>
            NewValue(now[0], id, timing) == Emitted(now[0].value) && NewChain(now[1..], id, timing) == Success(now[1..])
  {
    hide NewValue;
    assert [now[0]] + now[1..] == now;
    var again := NewChain(now, id, timing);
    if again == Success(now) {
      var v, rest := NewValue(now[0], id, timing).payload, NewChain(now[1..], id, timing).value;
      assert now == [Tlv(now[0].kind, v)] + rest;
      assert now[0] == Tlv(now[0].kind, v) && now[1..] == rest;
    }
  }

  lemma HeaderIsFixed(h: seq<Byte>, id: Identity, timing: Timing)
    requires |h| == TLV_START
    ensures NewHeader(NewHeader(h, id, timing), id, timing) == NewHeader(h, id, timing)
  {
    hide Put, U16LeBytes, U32LeBytes;
    HeaderRebuilt(h, id, timing);
    var r := NewHeader(h, id, timing);
    PutSame(r, ADDR2, id.selfAddr);
    PutSame(r, SEQ_CONTROL, U16LeBytes(timing.seqControl));
    PutSame(r, PHY_TX, U32LeBytes(timing.phyTx));
    PutSame(r, TARGET_TX, U32LeBytes(timing.targetTx));
  }

  /**
   * Rebuilding a frame we built, with the same identity and timing, changes nothing exactly when no service
   * records of the template hide zeros at their end.
   */
  lemma BuildAgain(template: seq<Byte>, id: Identity, timing: Timing, frame: seq<Byte>)
    requires Build(template, id, timing) == Emitted(frame)
    ensures Build(frame, id, timing) == Emitted(frame) <==> HidesNothing(Chain(template[TLV_START..]).value.0, id)
  {
    hide Chain, ChainBytes, NewChain, NewHeader, Rebuilt, HidesNothing;
    BuildKeepsChain(template, id, timing, frame);
    var (ts, tail) := Chain(template[TLV_START..]).value;
    var (now, _) := Chain(frame[TLV_START..]).value;
    BytesOfChain(frame[TLV_START..]);
    ChainIsFixed(ts, now, id, timing);
    HeaderIsFixed(template[..TLV_START], id, timing);
    var h := frame[..TLV_START];
    assert frame == h + frame[TLV_START..];
    var again := NewChain(now, id, timing);
    if again.Success? {
      assert h + ChainBytes(again.value) + tail == h + (ChainBytes(again.value) + tail);
      ChainOfBytes(again.value, tail);
      SameAfter(h, ChainBytes(again.value) + tail, frame[TLV_START..]);
    }
  }

  lemma SameAfter<T>(h: seq<T>, a: seq<T>, b: seq<T>)
    ensures h + a == h + b <==> a == b
  {
    if h + a == h + b {
      assert (h + a)[|h|..] == a && (h + b)[|h|..] == b;
    }
  }

  /** With no tail in the service records, or the two octets seen on the air, it never changes anything. */
  lemma BuildIdempotent(template: seq<Byte>, id: Identity, timing: Timing, frame: seq<Byte>)
    requires Build(template, id, timing) == Emitted(frame)
    requires forall t :: t in Chain(template[TLV_START..]).value.0 && t.kind == 2 ==>
                           |Records(t.value).1| == 0 || |Records(t.value).1| == 2
    ensures Build(frame, id, timing) == Emitted(frame)
  {
    BuildAgain(template, id, timing, frame);
    var ts := Chain(template[TLV_START..]).value.0;
    hide Chain, Build, Records, HidesZeros;
    forall i | 0 <= i < |ts|
      ensures IsPlain(ts[i], id)
    {
      assert ts[i] in ts;
      if ts[i].kind == 2 {
        UsualTailHidesNothing(ts[i].value, id);
      }
    }
  }
}
