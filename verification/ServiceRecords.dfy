/**
 * TLV 2 of an AWDL announcement: the service records that name the peer, and their rewriting.
 * A payload is a chain of records behind 16-bit lengths, the last of which runs past its length.
 */
module ServiceRecords {
  import opened Wrappers
  import opened ByteSeqs

  const TYPE_PTR: Byte := 0x0c
  const TYPE_TXT: Byte := 0x10
  const TYPE_SRV: Byte := 0x21
  const UUID_LEN: nat := 36
  const MAX_LABEL: nat := 60

  // _appsvcprepair
  const PREPAIR: seq<Byte> := [95, 97, 112, 112, 115, 118, 99, 112, 114, 101, 112, 97, 105, 114]
  // _applicationservicepairing
  const PAIRING: seq<Byte> := [95, 97, 112, 112, 108, 105, 99, 97, 116, 105, 111, 110, 115, 101, 114, 118, 105, 99, 101,
                               112, 97, 105, 114, 105, 110, 103]
  const SID_KEY: seq<Byte> := [115, 105, 100, 61]
  const AT_KEY: seq<Byte> := [97, 116, 61]
  const DNM_KEY: seq<Byte> := [100, 110, 109, 61]

  type Mac = a: seq<Byte> | |a| == 6 witness [0, 0, 0, 0, 0, 0]

  const NO_ADDR: Mac := [0, 0, 0, 0, 0, 0]

  /** The parts of an announcement that identify its sender. */
  datatype Identity = Identity(
    selfAddr: Mac, masterAddr: Mac,
    uuid: seq<Byte>, host: seq<Byte>, display: seq<Byte>, sid: seq<Byte>, at: seq<Byte>)

  // ---- Records ----

  /** The record bodies of a payload and the octets after the last complete record. */
  function Records(v: seq<Byte>): (r: (seq<seq<Byte>>, seq<Byte>))
    decreases |v|
  {
    if |v| < 2 || 2 + U16Le(v[..2]) > |v| then ([], v)
    else
      var n := U16Le(v[..2]);
      var (recs, tail) := Records(v[2 + n..]);
      ([v[2..2 + n]] + recs, tail)
  }

  method ParseRecords(v: seq<Byte>) returns (recs: seq<seq<Byte>>, tail: seq<Byte>)
    ensures (recs, tail) == Records(v)
  {
    hide *;
    recs := [];
    var off := 0;
    assert v[0..] == v;
    assert recs + Records(v).0 == Records(v).0;
    while off + 2 <= |v|
      invariant off <= |v|
      invariant Records(v) == (recs + Records(v[off..]).0, Records(v[off..]).1)
    {
      var n := U16Le(v[off..off + 2]);
      RecordsAt(v, off);
      if off + 2 + n > |v| {
        break;
      }
      ghost var rest := Records(v[off + 2 + n..]).0;
      assert recs + ([v[off + 2..off + 2 + n]] + rest) == recs + [v[off + 2..off + 2 + n]] + rest;
      recs := recs + [v[off + 2..off + 2 + n]];
      off := off + 2 + n;
    }
    tail := v[off..];
    assert recs + [] == recs;
    if off + 2 <= |v| {
      RecordsAt(v, off);
    } else {
      NoRecords(v[off..]);
    }
  }

  lemma NoRecords(v: seq<Byte>)
    requires |v| < 2
    ensures Records(v) == ([], v)
  {
  }

  lemma RecordsAt(v: seq<Byte>, off: nat)
    requires off + 2 <= |v|
    ensures var n := U16Le(v[off..off + 2]);
            Records(v[off..]) ==
            if off + 2 + n > |v| then ([], v[off..])
            else ([v[off + 2..off + 2 + n]] + Records(v[off + 2 + n..]).0, Records(v[off + 2 + n..]).1)
  {
    hide U16Le;
    var u := v[off..];
    assert u[..2] == v[off..off + 2];
    var n := U16Le(u[..2]);
    if off + 2 + n <= |v| {
      SliceFrom(v, off, 2, 2 + n);
      SliceFrom(v, off, 2 + n, 2 + n);
    }
  }

  // ---- Names ----

  /** A name cannot go on at the front of `b`: root label, pointer, overrun, or nothing left. */
  predicate StopsAt(b: seq<Byte>) {
    b == [] || b[0] == 0 || b[0] >= 0xc0 || 1 + b[0] as int > |b|
  }

  /** The leading labels of a record body. */
  function Labels(b: seq<Byte>): seq<seq<Byte>> {
    if StopsAt(b) then [] else [b[1..1 + b[0]]] + Labels(b[1 + b[0]..])
  }

  /** What follows the leading labels. */
  function Stop(b: seq<Byte>): (rest: seq<Byte>)
    ensures StopsAt(rest) && |rest| <= |b|
  {
    if StopsAt(b) then b else Stop(b[1 + b[0]..])
  }

  /** Offset just past the name, when it does not run off the end of the body. */
  function NameEnd(b: seq<Byte>): Option<nat> {
    var rest := Stop(b);
    var at := |b| - |rest|;
    if rest == [] then Some(|b|)
    else if rest[0] == 0 then Some(at + 1)
    else if rest[0] >= 0xc0 then Some(at + 2)
    else None
  }

  function LabelText(text: seq<Byte>): seq<Byte>
    requires |text| < 256
  {
    [|text|] + text
  }

  ghost predicate ValidLabels(labels: seq<seq<Byte>>) {
    forall i :: 0 <= i < |labels| ==> 1 <= |labels[i]| < 0xc0
  }

  function LabelsText(labels: seq<seq<Byte>>): seq<Byte>
    requires forall i :: 0 <= i < |labels| ==> |labels[i]| < 256
  {
    if labels == [] then [] else LabelText(labels[0]) + LabelsText(labels[1..])
  }

  lemma ValidLabelsCons(first: seq<Byte>, rest: seq<seq<Byte>>)
    requires 1 <= |first| < 0xc0 && ValidLabels(rest)
    ensures ValidLabels([first] + rest)
  {
  }

  lemma LabelsTextCons(first: seq<Byte>, rest: seq<seq<Byte>>)
    requires |first| < 256 && ValidLabels(rest)
    ensures LabelsText([first] + rest) == LabelText(first) + LabelsText(rest)
  {
    assert ([first] + rest)[1..] == rest;
  }

  lemma FirstOfName(b: seq<Byte>)
    requires !StopsAt(b)
    ensures var n := b[0] as int;
            var first, rest := b[1..1 + n], b[1 + n..];
            && 1 <= |first| < 0xc0 && b == LabelText(first) + rest
            && Labels(b) == [first] + Labels(rest) && Stop(b) == Stop(rest)
  {
  }

  lemma NoLabels(b: seq<Byte>)
    requires StopsAt(b)
    ensures Labels(b) == [] && ValidLabels([]) && Stop(b) == b && LabelsText([]) + b == b
  {
  }

  lemma {:induction false} NameParts(b: seq<Byte>)
    ensures ValidLabels(Labels(b)) && b == LabelsText(Labels(b)) + Stop(b)
  {
    hide LabelsText, Labels, Stop, LabelText;
    if StopsAt(b) {
      NoLabels(b);
    } else {
      var n := b[0] as int;
      var first, rest := b[1..1 + n], b[1 + n..];
      FirstOfName(b);
      NameParts(rest);
      LabelsTextCons(first, Labels(rest));
      ValidLabelsCons(first, Labels(rest));
      assert LabelText(first) + (LabelsText(Labels(rest)) + Stop(rest)) ==
             LabelText(first) + LabelsText(Labels(rest)) + Stop(rest);
    }
  }

  lemma {:induction false} PartsOfName(labels: seq<seq<Byte>>, rest: seq<Byte>)
    requires ValidLabels(labels) && StopsAt(rest)
    ensures Labels(LabelsText(labels) + rest) == labels && Stop(LabelsText(labels) + rest) == rest
  {
    if labels == [] {
      assert LabelsText(labels) + rest == rest;
    } else {
      var after := LabelsText(labels[1..]) + rest;
      PartsOfName(labels[1..], rest);
      assert LabelsText(labels) + rest == LabelText(labels[0]) + after;
      FirstLabel(labels[0], after);
    }
  }

  lemma FirstLabel(first: seq<Byte>, after: seq<Byte>)
    requires 1 <= |first| < 0xc0
    ensures Labels(LabelText(first) + after) == [first] + Labels(after)
    ensures Stop(LabelText(first) + after) == Stop(after)
  {
    var b := LabelText(first) + after;
    assert b[0] == |first| && b[1..1 + |first|] == first && b[1 + |first|..] == after;
  }

  lemma {:induction false} LabelsTextConcat(a: seq<seq<Byte>>, b: seq<seq<Byte>>)
    requires ValidLabels(a) && ValidLabels(b)
    ensures LabelsText(a + b) == LabelsText(a) + LabelsText(b)
  {
    if a == [] {
      assert a + b == b;
    } else {
      assert (a + b)[1..] == a[1..] + b;
      LabelsTextConcat(a[1..], b);
    }
  }

  /** Offset of the length octet of label `k`. */
  ghost function OffsetOf(labels: seq<seq<Byte>>, k: nat): nat
    requires ValidLabels(labels) && k <= |labels|
  {
    |LabelsText(labels[..k])|
  }

  /** `split_name`: each label as offset and length, and the end of the name. */
  method SplitName(b: seq<Byte>) returns (spans: seq<(nat, nat)>, end: Option<nat>)
    ensures ValidLabels(Labels(b)) && |spans| == |Labels(b)|
    ensures forall k :: 0 <= k < |spans| ==>
              spans[k].0 == OffsetOf(Labels(b), k) && spans[k].1 == |Labels(b)[k]|
    ensures end == NameEnd(b)
  {
    hide LabelsText, Labels, Stop;
    NameParts(b);
    spans := [];
    var i := 0;
    ghost var labels := Labels(b);
    OffsetZero(labels);
    assert b[0..] == b && labels[0..] == labels;
    while i < |b|
      invariant i <= |b| && |spans| <= |labels|
      invariant i == OffsetOf(labels, |spans|)
      invariant labels[|spans|..] == Labels(b[i..]) && Stop(b) == Stop(b[i..])
      invariant forall k :: 0 <= k < |spans| ==> spans[k].0 == OffsetOf(labels, k) && spans[k].1 == |labels[k]|
    {
      var n := b[i] as int;
      NameStep(b, i);
      if n == 0 {
        return spans, Some(i + 1);
      }
      if n >= 0xc0 {
        return spans, Some(i + 2);
      }
      if i + 1 + n > |b| {
        return spans, None;
      }
      ghost var k := |spans|;
      assert labels[k + 1..] == labels[k..][1..];
      assert labels[k] == labels[k..][0];
      OffsetNext(labels, k);
      spans := spans + [(i, n)];
      i := i + 1 + n;
    }
    assert b[i..] == [];
    NameOfNothing();
    return spans, Some(|b|);
  }

  lemma NameOfNothing()
    ensures Labels([]) == [] && Stop([]) == []
  {
  }

  lemma NameStep(b: seq<Byte>, i: nat)
    requires i < |b|
    ensures var n := b[i] as int;
            if n == 0 || n >= 0xc0 || i + 1 + n > |b| then Labels(b[i..]) == [] && Stop(b[i..]) == b[i..]
            else
              && Labels(b[i..]) == [b[i + 1..i + 1 + n]] + Labels(b[i + 1 + n..])
              && Stop(b[i..]) == Stop(b[i + 1 + n..])
  {
    var n := b[i] as int;
    assert b[i..][0] == b[i];
    if i + 1 + n <= |b| {
      SliceFrom(b, i, 1, 1 + n);
      SliceFrom(b, i, 1 + n, 1 + n);
    }
  }

  lemma OffsetZero(labels: seq<seq<Byte>>)
    requires ValidLabels(labels)
    ensures OffsetOf(labels, 0) == 0
  {
    assert labels[..0] == [];
  }

  lemma OffsetNext(labels: seq<seq<Byte>>, k: nat)
    requires ValidLabels(labels) && k < |labels|
    ensures OffsetOf(labels, k + 1) == OffsetOf(labels, k) + 1 + |labels[k]|
  {
    assert labels[..k + 1] == labels[..k] + [labels[k]];
    LabelsTextConcat(labels[..k], [labels[k]]);
    LabelsTextOfOne(labels[k]);
  }

  lemma LabelsTextOfOne(text: seq<Byte>)
    requires |text| < 256
    ensures LabelsText([text]) == LabelText(text)
  {
    assert [text][1..] == [];
  }

  /** Records that name something: the name ends right before a last octet, which is the record's type. */
  predicate IsNameRecord(b: seq<Byte>) {
    |b| >= 3 && NameEnd(b) == Some(|b| - 1) && b[|b| - 3] >= 0xc0
  }

  predicate IsServiceLabel(text: seq<Byte>) {
    text == PREPAIR || text == PAIRING
  }

  predicate HasService(labels: seq<seq<Byte>>) {
    exists i :: 0 <= i < |labels| && IsServiceLabel(labels[i])
  }

  predicate NamesService(b: seq<Byte>) {
    HasService(Labels(b))
  }

  // ---- Name records ----

  /** Position of the last service label. */
  function LastService(labels: seq<seq<Byte>>): (at: Option<nat>)
    ensures at.Some? ==> at.value < |labels| && IsServiceLabel(labels[at.value])
    ensures at.Some? ==> forall i :: at.value < i < |labels| ==> !IsServiceLabel(labels[i])
    ensures at.None? ==> forall i :: 0 <= i < |labels| ==> !IsServiceLabel(labels[i])
  {
    if labels == [] then None
    else if IsServiceLabel(labels[|labels| - 1]) then Some(|labels| - 1)
    else LastService(labels[..|labels| - 1])
  }

  /** Position of the hostname: the label right before the last service label. */
  function HostAt(labels: seq<seq<Byte>>): (at: Option<nat>)
    ensures at.Some? ==> at.value + 1 < |labels|
  {
    match LastService(labels)
    case Some(i) => if i == 0 then None else Some(i - 1)
    case None => None
  }

  predicate Usable(text: seq<Byte>) {
    text != [] && |text| <= MAX_LABEL
  }

  function NewName(body: seq<Byte>, host: seq<Byte>): seq<Byte> {
    NameParts(body);
    match HostAt(Labels(body))
    case Some(i) => if Usable(host) then LabelsText(Labels(body)[i := host]) + Stop(body) else body
    case None => body
  }

  method RewriteNameRecord(body: seq<Byte>, host: seq<Byte>) returns (out: seq<Byte>)
    ensures out == NewName(body, host)
  {
    hide *;
    if host == [] || |host| > MAX_LABEL {
      NewNameUnchanged(body, host);
      return body;
    }
    var spans, _ := SplitName(body);
    ghost var labels := Labels(body);
    if |spans| < 2 {
      NewNameUnchanged(body, host);
      return body;
    }
    var i := |spans|;
    while i > 0
      invariant 0 <= i <= |spans|
      invariant forall k :: i <= k < |spans| ==> !IsServiceLabel(labels[k])
    {
      i := i - 1;
      LabelAt(body, i);
      var (at, size) := spans[i];
      if IsServiceLabel(body[at + 1..at + 1 + size]) {
        NewNameAt(body, host, i);
        if i == 0 {
          return body;
        }
        var (off, n) := spans[i - 1];
        out := body[..off] + [|host|] + host + body[off + 1 + n..];
        return;
      }
    }
    NewNameUnchanged(body, host);
    return body;
  }

  /** A service label with none after it is the last one. */
  lemma LastServiceIs(labels: seq<seq<Byte>>, i: nat)
    requires i < |labels| && IsServiceLabel(labels[i])
    requires forall k :: i < k < |labels| ==> !IsServiceLabel(labels[k])
    ensures LastService(labels) == Some(i)
  {
    hide IsServiceLabel;
  }

  lemma NewNameUnchanged(body: seq<Byte>, host: seq<Byte>)
    requires var labels := Labels(body);
             host == [] || |host| > MAX_LABEL || |labels| < 2
             || forall i :: 0 <= i < |labels| ==> !IsServiceLabel(labels[i])
    ensures NewName(body, host) == body
  {
    hide LabelsText, Labels, Stop, IsServiceLabel;
  }

  /** The replacement by offsets is the replacement by labels. */
  lemma NewNameAt(body: seq<Byte>, host: seq<Byte>, i: nat)
    requires ValidLabels(Labels(body)) && i < |Labels(body)| && IsServiceLabel(Labels(body)[i])
    requires forall k :: i < k < |Labels(body)| ==> !IsServiceLabel(Labels(body)[k])
    requires 0 < |host| <= MAX_LABEL
    ensures i == 0 ==> NewName(body, host) == body
    ensures i > 0 ==>
              var off, n := OffsetOf(Labels(body), i - 1), |Labels(body)[i - 1]|;
              off + 1 + n <= |body| && NewName(body, host) == body[..off] + [|host|] + host + body[off + 1 + n..]
  {
    hide LabelsText, Labels, Stop, IsServiceLabel, LastService, OffsetOf;
    LastServiceIs(Labels(body), i);
    if i > 0 {
      ReplacedLabel(body, i - 1, host);
      NewNameIs(body, host, i - 1);
    }
  }

  lemma NewNameIs(body: seq<Byte>, host: seq<Byte>, k: nat)
    requires ValidLabels(Labels(body)) && k < |Labels(body)| && HostAt(Labels(body)) == Some(k) && Usable(host)
    ensures NewName(body, host) == LabelsText(Labels(body)[k := host]) + Stop(body)
  {
    hide LabelsText, Labels, Stop, HostAt;
  }

  lemma LabelAt(body: seq<Byte>, k: nat)
    requires ValidLabels(Labels(body)) && k < |Labels(body)|
    ensures var off, text := OffsetOf(Labels(body), k), Labels(body)[k];
            && off + 1 + |text| <= |body| && body[off + 1..off + 1 + |text|] == text
            && body[..off] == LabelsText(Labels(body)[..k])
            && body[off + 1 + |text|..] == LabelsText(Labels(body)[k + 1..]) + Stop(body)
  {
    hide LabelsText, Labels, Stop;
    var labels := Labels(body);
    NameParts(body);
    var a, l, c := labels[..k], labels[k], labels[k + 1..];
    assert labels == a + ([l] + c);
    LabelsTextConcat(a, [l] + c);
    LabelsTextConcat([l], c);
    LabelsTextOfOne(l);
    assert body == LabelsText(a) + [|l|] + l + (LabelsText(c) + Stop(body));
  }

  lemma ReplacedLabel(body: seq<Byte>, k: nat, host: seq<Byte>)
    requires ValidLabels(Labels(body)) && k < |Labels(body)| && Usable(host)
    ensures var off, n := OffsetOf(Labels(body), k), |Labels(body)[k]|;
            && off + 1 + n <= |body|
            && body[..off] + [|host|] + host + body[off + 1 + n..] == LabelsText(Labels(body)[k := host]) + Stop(body)
  {
    hide LabelsText, Labels, Stop;
    LabelAt(body, k);
    var labels := Labels(body);
    var a, c := labels[..k], labels[k + 1..];
    assert labels[k := host] == a + ([host] + c);
    LabelsTextConcat(a, [host] + c);
    LabelsTextConcat([host], c);
    LabelsTextOfOne(host);
  }

  /** The rewritten record is a name record of the same type and service, and carries our hostname. */
  lemma NewNameParts(body: seq<Byte>, host: seq<Byte>)
    requires IsNameRecord(body)
    ensures var b := NewName(body, host);
            && IsNameRecord(b) && b[|b| - 1] == body[|body| - 1] && b[|b| - 2] == body[|body| - 2]
            && NamesService(b) == NamesService(body)
            && NewName(b, host) == b
  {
    hide LabelsText, Labels, Stop, IsServiceLabel;
    NameParts(body);
    var labels, rest := Labels(body), Stop(body);
    if HostAt(labels).Some? && Usable(host) {
      var k := HostAt(labels).value;
      var edited := labels[k := host];
      assert NewName(body, host) == LabelsText(edited) + rest;
      PartsOfName(edited, rest);
      ServiceKept(labels, k, host);
      LastLabelKept(labels, edited, rest);
      assert edited[k := host] == edited;
    }
  }

  lemma ServiceKept(labels: seq<seq<Byte>>, k: nat, host: seq<Byte>)
    requires HostAt(labels) == Some(k)
    ensures HostAt(labels[k := host]) == Some(k)
    ensures HasService(labels) && HasService(labels[k := host])
  {
    hide IsServiceLabel;
    assert LastService(labels) == Some(k + 1);
    var edited := labels[k := host];
    assert edited[k + 1] == labels[k + 1];
    var at := LastService(edited);
    assert forall j :: k < j < |labels| ==> edited[j] == labels[j];
    assert at.Some? && at.value <= k + 1;
    assert at.value >= k + 1;
  }

  /** Replacing a label that is not the last leaves the end of the body as it was. */
  lemma LastLabelKept(a: seq<seq<Byte>>, b: seq<seq<Byte>>, rest: seq<Byte>)
    requires ValidLabels(a) && ValidLabels(b) && |a| == |b| >= 1 && a[|a| - 1] == b[|b| - 1]
    ensures var s, t := LabelsText(a) + rest, LabelsText(b) + rest;
            |s| >= |rest| + 2 && |t| >= |rest| + 2 && s[|s| - |rest| - 1] == t[|t| - |rest| - 1]
  {
    hide LabelsText;
    EndOfLabels(a);
    EndOfLabels(b);
  }

  lemma EndOfLabels(a: seq<seq<Byte>>)
    requires ValidLabels(a) && a != []
    ensures var s, last := LabelsText(a), a[|a| - 1]; |s| >= 2 && s[|s| - 1] == last[|last| - 1]
  {
    hide LabelsText;
    var n := |a| - 1;
    assert a == a[..n] + [a[n]];
    LabelsTextConcat(a[..n], [a[n]]);
    LabelsTextOfOne(a[n]);
  }
}
