/** Rewriting one rdata record with our identity: TXT strings, display name and UUID. */
module RecordRewrite {
  import opened Wrappers
  import opened ByteSeqs
  import opened ServiceRecords

  // ---- TXT rdata ----

  function Prefixed(key: seq<Byte>, value: seq<Byte>): seq<Byte> {
    key + value
  }

  /** Our string in place of `s`, when its key is one of ours and it fits its length octet. */
  function Swapped(s: seq<Byte>, id: Identity): (r: seq<Byte>)
    requires |s| < 256
    ensures |r| < 256
  {
    var swap := if SID_KEY <= s && id.sid != [] then Some(Prefixed(SID_KEY, id.sid))
                else if AT_KEY <= s && id.at != [] then Some(Prefixed(AT_KEY, id.at))
                else if DNM_KEY <= s && id.display != [] then Some(Prefixed(DNM_KEY, id.display))
                else None;
    if swap.Some? && |swap.value| <= 255 then swap.value else s
  }

  function NewText(rd: seq<Byte>, id: Identity): seq<Byte> {
    if rd == [] then []
    else if 1 + rd[0] as int > |rd| then rd
    else LabelText(Swapped(rd[1..1 + rd[0]], id)) + NewText(rd[1 + rd[0]..], id)
  }

  lemma SwappedTwice(s: seq<Byte>, id: Identity)
    requires |s| < 256
    ensures Swapped(Swapped(s, id), id) == Swapped(s, id)
  {
    assert SID_KEY[0] != AT_KEY[0] && AT_KEY[0] != DNM_KEY[0] && SID_KEY[0] != DNM_KEY[0];
  }

  lemma NewTextFirst(s: seq<Byte>, rest: seq<Byte>, id: Identity)
    requires |s| < 256
    ensures NewText(LabelText(s) + rest, id) == LabelText(Swapped(s, id)) + NewText(rest, id)
  {
    hide Swapped;
    var rd := LabelText(s) + rest;
    assert rd[1..1 + |s|] == s && rd[1 + |s|..] == rest;
  }

  lemma {:induction false} NewTextTwice(rd: seq<Byte>, id: Identity)
    ensures NewText(NewText(rd, id), id) == NewText(rd, id)
    decreases |rd|
  {
    hide Swapped;
    if rd != [] && 1 + rd[0] as int <= |rd| {
      var s, rest := rd[1..1 + rd[0]], rd[1 + rd[0]..];
      NewTextTwice(rest, id);
      SwappedTwice(s, id);
      NewTextFirst(Swapped(s, id), NewText(rest, id), id);
    }
  }

  /** Strings that lose their last two octets are not touched again. */
  lemma {:induction false} NewTextCut(rd: seq<Byte>, id: Identity)
    requires |rd| >= 2
    ensures |NewText(rd, id)| >= 2
    ensures var cut := NewText(rd, id)[..|NewText(rd, id)| - 2]; NewText(cut, id) == cut
    decreases |rd|
  {
    hide Swapped;
    var t := NewText(rd, id);
    if 1 + rd[0] as int <= |rd| {
      var s, rest := rd[1..1 + rd[0]], rd[1 + rd[0]..];
      var u := Swapped(s, id);
      var more := NewText(rest, id);
      if |rest| >= 2 {
        NewTextCut(rest, id);
        assert t[..|t| - 2] == LabelText(u) + more[..|more| - 2];
        SwappedTwice(s, id);
        NewTextFirst(u, more[..|more| - 2], id);
      } else {
        ShortText(rest, id);
        SwappedKeepsShort(s, id);
        CutInsideText(u, rest, id);
      }
    } else {
      assert t == rd;
      if |rd| > 2 {
        assert rd[..|rd| - 2][0] == rd[0];
      }
    }
  }

  lemma ShortText(rest: seq<Byte>, id: Identity)
    requires |rest| < 2
    ensures NewText(rest, id) == rest
  {
    if |rest| == 1 && rest[0] == 0 {
      assert rest[1..1] == [] && rest[1..] == [];
      assert Swapped([], id) == [];
      assert LabelText([]) + [] == rest;
    }
  }

  lemma SwappedKeepsShort(s: seq<Byte>, id: Identity)
    requires |s| < 256
    ensures |Swapped(s, id)| >= |s| || |Swapped(s, id)| >= 2
  {
  }

  lemma CutInsideText(s: seq<Byte>, rest: seq<Byte>, id: Identity)
    requires |s| < 256 && |rest| < 2 && 1 + |s| + |rest| >= 2
    ensures var t := LabelText(s) + rest; NewText(t[..|t| - 2], id) == t[..|t| - 2]
  {
    var t := LabelText(s) + rest;
    if |t| > 2 {
      assert t[..|t| - 2][0] == |s|;
    }
  }

  method RewriteText(rd: seq<Byte>, id: Identity) returns (out: seq<Byte>)
    ensures out == NewText(rd, id)
  {
    hide Swapped, NewText;
    out := [];
    var i := 0;
    assert rd[0..] == rd;
    while i < |rd|
      invariant i <= |rd| && NewText(rd, id) == out + NewText(rd[i..], id)
    {
      var n := rd[i] as int;
      NewTextAt(rd, i, id);
      if i + 1 + n > |rd| {
        return out + rd[i..];
      }
      var s := Swapped(rd[i + 1..i + 1 + n], id);
      assert out + (LabelText(s) + NewText(rd[i + 1 + n..], id)) == out + LabelText(s) + NewText(rd[i + 1 + n..], id);
      out := out + LabelText(s);
      i := i + 1 + n;
    }
    ShortText(rd[i..], id);
    assert out + [] == out;
  }

  lemma NewTextAt(rd: seq<Byte>, i: nat, id: Identity)
    requires i < |rd|
    ensures var n := rd[i] as int;
            NewText(rd[i..], id) ==
            if i + 1 + n > |rd| then rd[i..]
            else LabelText(Swapped(rd[i + 1..i + 1 + n], id)) + NewText(rd[i + 1 + n..], id)
  {
    hide Swapped;
    var n := rd[i] as int;
    assert rd[i..][0] == rd[i];
    if i + 1 + n <= |rd| {
      SliceFrom(rd, i, 1, 1 + n);
      SliceFrom(rd, i, 1 + n, 1 + n);
    }
  }

  // ---- SRV rdata ----

  predicate IsHex(b: Byte) {
    48 <= b <= 57 || 65 <= b <= 70 || 97 <= b <= 102
  }

  predicate IsUuid(b: seq<Byte>) {
    && |b| == UUID_LEN
    && forall i :: 0 <= i < UUID_LEN ==> if i in {8, 13, 18, 23} then b[i] == 45 else IsHex(b[i])
  }

  predicate UuidAt(rd: seq<Byte>, k: nat) {
    k + UUID_LEN <= |rd| && IsUuid(rd[k..k + UUID_LEN])
  }

  /** The first UUID-shaped window at or after `start`. */
  function FindUuid(rd: seq<Byte>, start: nat): (at: Option<nat>)
    ensures at.Some? ==> start <= at.value && UuidAt(rd, at.value)
    ensures at.Some? ==> forall k :: start <= k < at.value ==> !UuidAt(rd, k)
    ensures at.None? ==> forall k :: start <= k ==> !UuidAt(rd, k)
    decreases |rd| - start
  {
    if start + UUID_LEN > |rd| then None
    else if UuidAt(rd, start) then Some(start)
    else FindUuid(rd, start + 1)
  }

  function NewUuid(rd: seq<Byte>, uuid: seq<Byte>): seq<Byte> {
    match FindUuid(rd, 0)
    case None => rd
    case Some(at) => rd[..at] + uuid + rd[at + UUID_LEN..]
  }

  predicate SameClass(a: Byte, b: Byte) {
    (a == 45 <==> b == 45) && (IsHex(a) <==> IsHex(b))
  }

  /** Whether a window is UUID-shaped depends on the class of its characters only. */
  lemma SameClasses(a: seq<Byte>, b: seq<Byte>)
    requires |a| == |b| && forall i :: 0 <= i < |a| ==> SameClass(a[i], b[i])
    ensures IsUuid(a) == IsUuid(b)
  {
    if |a| == UUID_LEN {
      forall i | 0 <= i < UUID_LEN
        ensures (if i in {8, 13, 18, 23} then a[i] == 45 else IsHex(a[i])) ==
                if i in {8, 13, 18, 23} then b[i] == 45 else IsHex(b[i])
      {
        assert SameClass(a[i], b[i]);
      }
    }
  }

  lemma UuidClasses(a: seq<Byte>, b: seq<Byte>)
    requires IsUuid(a) && IsUuid(b)
    ensures |a| == UUID_LEN && |b| == UUID_LEN
    ensures forall i :: 0 <= i < UUID_LEN ==> SameClass(a[i], b[i])
  {
  }

  /** Replacing the first UUID by another leaves every window's shape, so the first UUID stays the first. */
  lemma FirstUuidStays(rd: seq<Byte>, uuid: seq<Byte>)
    requires IsUuid(uuid)
    ensures |NewUuid(rd, uuid)| == |rd| && FindUuid(NewUuid(rd, uuid), 0) == FindUuid(rd, 0)
    ensures NewUuid(NewUuid(rd, uuid), uuid) == NewUuid(rd, uuid)
  {
    hide IsUuid, IsHex;
    UuidClasses(uuid, uuid);
    var out := NewUuid(rd, uuid);
    if FindUuid(rd, 0).Some? {
      var at := FindUuid(rd, 0).value;
      assert UuidAt(rd, at);
      forall k: nat
        ensures UuidAt(out, k) == UuidAt(rd, k)
      {
        if k + UUID_LEN <= |rd| {
          WindowClasses(rd, uuid, at, k);
        }
      }
      SameFirstUuid(rd, out, 0);
      assert out[..at] == rd[..at] && out[at + UUID_LEN..] == rd[at + UUID_LEN..];
    }
  }

  lemma WindowClasses(rd: seq<Byte>, uuid: seq<Byte>, at: nat, k: nat)
    requires UuidAt(rd, at) && k + UUID_LEN <= |rd| && IsUuid(uuid)
    ensures UuidAt(rd[..at] + uuid + rd[at + UUID_LEN..], k) == UuidAt(rd, k)
  {
    hide IsUuid, IsHex;
    UuidClasses(uuid, uuid);
    var out := rd[..at] + uuid + rd[at + UUID_LEN..];
    var a, b := out[k..k + UUID_LEN], rd[k..k + UUID_LEN];
    UuidClasses(rd[at..at + UUID_LEN], uuid);
    forall i | 0 <= i < UUID_LEN
      ensures SameClass(a[i], b[i])
    {
      var j := k + i;
      assert a[i] == out[j] && b[i] == rd[j];
      if j < at {
        assert out[j] == rd[..at][j];
      } else if j < at + UUID_LEN {
        assert out[j] == uuid[j - at] && rd[j] == rd[at..at + UUID_LEN][j - at];
        assert SameClass(rd[at..at + UUID_LEN][j - at], uuid[j - at]);
      } else {
        assert out[j] == rd[at + UUID_LEN..][j - at - UUID_LEN];
      }
    }
    SameClasses(a, b);
  }

  lemma {:induction false} SameFirstUuid(a: seq<Byte>, b: seq<Byte>, start: nat)
    requires |a| == |b| && forall k: nat :: UuidAt(a, k) == UuidAt(b, k)
    ensures FindUuid(a, start) == FindUuid(b, start)
    decreases |a| - start
  {
    hide UuidAt;
    if start + UUID_LEN <= |a| {
      SameFirstUuid(a, b, start + 1);
    }
  }

  // ---- Rdata records ----

  function NewDisplay(rd: seq<Byte>, display: seq<Byte>): seq<Byte> {
    if !Usable(display) || |Labels(rd)| != 1 then rd else LabelText(display) + Stop(rd)
  }

  lemma NewDisplayTwice(rd: seq<Byte>, display: seq<Byte>)
    ensures NewDisplay(NewDisplay(rd, display), display) == NewDisplay(rd, display)
  {
    if Usable(display) && |Labels(rd)| == 1 {
      FirstLabel(display, Stop(rd));
    }
  }

  /** A display name that loses its last two octets is not touched again. */
  lemma NewDisplayCut(rd: seq<Byte>, display: seq<Byte>)
    requires |rd| >= 2 && Usable(display) && |Labels(rd)| == 1
    ensures var t := NewDisplay(rd, display); |t| >= 2 && NewDisplay(t[..|t| - 2], display) == t[..|t| - 2]
  {
    var rest := Stop(rd);
    var t := NewDisplay(rd, display);
    if |rest| >= 2 {
      var cut := rest[..|rest| - 2];
      assert t[..|t| - 2] == LabelText(display) + cut;
      assert StopsAt(cut);
      FirstLabel(display, cut);
    } else if |t| > 2 {
      assert t[..|t| - 2][0] == |display|;
      assert StopsAt(t[..|t| - 2]);
    }
  }

  /** Record bodies that may carry rdata of ours: two zero octets in front, under a service name. */
  predicate HasRdata(body: seq<Byte>) {
    |body| >= 2 && body[0] == 0 && body[1] == 0
  }

  /** The window search slices 36 octets even out of a shorter SRV rdata, which panics. */
  predicate Panics(body: seq<Byte>, kind: Byte, id: Identity, service: bool) {
    HasRdata(body) && service && kind == TYPE_SRV && IsUuid(id.uuid) && |body| < 2 + UUID_LEN
  }

  function NewRdata(body: seq<Byte>, kind: Byte, id: Identity, service: bool): seq<Byte> {
    if !HasRdata(body) || !service then body
    else if kind == TYPE_PTR then body[..2] + NewDisplay(body[2..], id.display)
    else if kind == TYPE_TXT then body[..2] + NewText(body[2..], id)
    else if kind == TYPE_SRV && IsUuid(id.uuid) then body[..2] + NewUuid(body[2..], id.uuid)
    else body
  }

  method RewriteDisplay(rd: seq<Byte>, display: seq<Byte>) returns (out: seq<Byte>)
    ensures out == NewDisplay(rd, display)
  {
    hide NewDisplay, Labels, Stop, LabelsText;
    NewDisplayCases(rd, display);
    if display == [] || |display| > MAX_LABEL {
      return rd;
    }
    var spans, _ := SplitName(rd);
    if |spans| != 1 {
      return rd;
    }
    var (off, n) := spans[0];
    LabelAt(rd, 0);
    OffsetZero(Labels(rd));
    assert Labels(rd)[1..] == [];
    NoLabelsText(Stop(rd));
    return [|display|] + display + rd[off + 1 + n..];
  }

  /** The window search; none when it slices past the end. */
  method RewriteUuid(rd: seq<Byte>, uuid: seq<Byte>) returns (out: Option<seq<Byte>>)
    ensures out == if |rd| < UUID_LEN then None else Some(NewUuid(rd, uuid))
  {
    hide FindUuid, IsUuid, NewUuid;
    NewUuidIs(rd, uuid);
    var start := 0;
    while start <= if |rd| < UUID_LEN then 0 else |rd| - UUID_LEN
      invariant 0 <= start && FindUuid(rd, 0) == FindUuid(rd, start)
      invariant |rd| < UUID_LEN ==> start == 0
    {
      if start + UUID_LEN > |rd| {
        return None;
      }
      FindUuidStep(rd, start);
      if IsUuid(rd[start..start + UUID_LEN]) {
        return Some(rd[..start] + uuid + rd[start + UUID_LEN..]);
      }
      start := start + 1;
    }
    FindUuidEnds(rd, start);
    return Some(rd);
  }

  /** None stands for the panic of the window search. */
  method RewriteRdata(body: seq<Byte>, kind: Byte, id: Identity, service: bool) returns (out: Option<seq<Byte>>)
    ensures out == if Panics(body, kind, id, service) then None else Some(NewRdata(body, kind, id, service))
  {
    hide NewText, NewUuid, NewDisplay, IsUuid;
    if |body| < 2 || body[0] != 0 || body[1] != 0 || !service {
      return Some(body);
    }
    var rd := body[2..];
    if kind == TYPE_PTR {
      var display := RewriteDisplay(rd, id.display);
      return Some(body[..2] + display);
    } else if kind == TYPE_TXT {
      var text := RewriteText(rd, id);
      return Some(body[..2] + text);
    } else if kind == TYPE_SRV && IsUuid(id.uuid) {
      var target := RewriteUuid(rd, id.uuid);
      if target.None? {
        return None;
      }
      return Some(body[..2] + target.value);
    }
    return Some(body);
  }

  lemma NoLabelsText(rest: seq<Byte>)
    ensures LabelsText([]) + rest == rest
  {
  }

  lemma NewDisplayCases(rd: seq<Byte>, display: seq<Byte>)
    ensures NewDisplay(rd, display) == if !Usable(display) || |Labels(rd)| != 1 then rd
        else LabelText(display) + Stop(rd)
  {
  }

  lemma FindUuidStep(rd: seq<Byte>, start: nat)
    requires start + UUID_LEN <= |rd|
    ensures FindUuid(rd, start) == if IsUuid(rd[start..start + UUID_LEN]) then Some(start) else FindUuid(rd, start + 1)
  {
    hide IsUuid;
  }

  lemma FindUuidEnds(rd: seq<Byte>, start: nat)
    requires start + UUID_LEN > |rd|
    ensures FindUuid(rd, start) == None
  {
  }

  lemma NewUuidIs(rd: seq<Byte>, uuid: seq<Byte>)
    ensures NewUuid(rd, uuid) ==
            match FindUuid(rd, 0) case None => rd case Some(at) => rd[..at] + uuid + rd[at + UUID_LEN..]
  {
  }

  /** Rewriting rdata twice is rewriting it once, and never makes a name record of it. */
  lemma NewRdataTwice(body: seq<Byte>, kind: Byte, id: Identity, service: bool)
    requires !IsNameRecord(body) && !Panics(body, kind, id, service)
    ensures var b := NewRdata(body, kind, id, service);
            && !IsNameRecord(b) && !Panics(b, kind, id, service)
            && NewRdata(b, kind, id, service) == b
  {
    hide NewText, NewUuid, NewDisplay, FindUuid, IsUuid, IsNameRecord;
    if HasRdata(body) && service {
      var b, rd := NewRdata(body, kind, id, service), body[2..];
      assert body == body[..2] + rd;
      ZeroIsNoName(b);
      if kind == TYPE_PTR {
        assert b[..2] == body[..2] && b[2..] == NewDisplay(rd, id.display);
        NewDisplayTwice(rd, id.display);
      } else if kind == TYPE_TXT {
        assert b[..2] == body[..2] && b[2..] == NewText(rd, id);
        NewTextTwice(rd, id);
      } else if kind == TYPE_SRV && IsUuid(id.uuid) {
        assert b[..2] == body[..2] && b[2..] == NewUuid(rd, id.uuid);
        FirstUuidStays(rd, id.uuid);
      }
    }
  }

  lemma ZeroIsNoName(b: seq<Byte>)
    requires b != [] && b[0] == 0
    ensures !IsNameRecord(b)
  {
  }
}
