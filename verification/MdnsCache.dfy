/** Which locally sent mDNS responses may be replayed, and for how long. */
module MdnsCache {
  import opened Wrappers
  import opened ByteSeqs

  datatype Decision = Keep | Replace(maxAgeUs: nat) | Clear

  const DNS_HEADER: nat := 12
  const MAX_NAME: nat := 255
  const MAX_TTL: nat := 0xFFFF_FFFF
  const MDNS_PORT: nat := 5353

  // ---- The parser as functions ----

  function U16At(b: seq<Byte>, at: nat): (v: Option<nat>)
    ensures v.Some? <==> at + 2 <= |b|
    ensures v.Some? ==> v.value < 0x1_0000
  {
    if at + 2 <= |b| then Some(U16Be(b[at..at + 2])) else None
  }

  /** Where the name that began at `start` ends, from `at` on. */
  function NameFrom(b: seq<Byte>, start: nat, at: nat): (end: Option<nat>)
    requires start <= at
    ensures end.Some? ==> at < end.value <= |b| && end.value - start <= MAX_NAME + 1
    decreases |b| - at
  {
    if at >= |b| || at + 1 - start > MAX_NAME then None
    else
      var n: int := b[at];
      if n == 0 then Some(at + 1)
      else if n <= 63 then if at + 1 + n <= |b| then NameFrom(b, start, at + 1 + n) else None
      else if n >= 0xc0 then
        if at + 1 >= |b| then None
        else
          var target := (n - 0xc0) * 256 + b[at + 1];
          if target < DNS_HEADER || target >= at then None else Some(at + 2)
      else None
  }

  function NameEnd(b: seq<Byte>, at: nat): Option<nat> {
    NameFrom(b, at, at)
  }

  function QuestionEnd(dns: seq<Byte>, at: nat): (end: Option<nat>)
    ensures end.Some? ==> at < end.value <= |dns|
  {
    var named :- NameEnd(dns, at);
    if named + 4 <= |dns| then Some(named + 4) else None
  }

  function QuestionsEnd(dns: seq<Byte>, at: nat, count: nat): (end: Option<nat>)
    requires at <= |dns|
    ensures end.Some? ==> at <= end.value <= |dns|
    decreases count
  {
    if count == 0 then Some(at)
    else
      var next :- QuestionEnd(dns, at);
      QuestionsEnd(dns, next, count - 1)
  }

  datatype Span = Span(ttl: nat, end: nat)

  function RecordSpan(dns: seq<Byte>, at: nat): (s: Option<Span>)
    ensures s.Some? ==> at < s.value.end <= |dns| && s.value.ttl <= MAX_TTL
  {
    var named :- NameEnd(dns, at);
    if named + 10 > |dns| then None
    else
      var end := named + 10 + U16Be(dns[named + 8..named + 10]);
      if end <= |dns| then Some(Span(U32Be(dns[named + 4..named + 8]), end)) else None
  }

  /** The shortest time to live of `count` records from `at` on, at most `least`, and where they end. */
  function RecordsSpan(dns: seq<Byte>, at: nat, count: nat, least: nat): (s: Option<Span>)
    requires at <= |dns|
    ensures s.Some? ==> at <= s.value.end <= |dns|
    decreases count
  {
    if count == 0 then Some(Span(least, at))
    else
      var one :- RecordSpan(dns, at);
      RecordsSpan(dns, one.end, count - 1, Min(least, one.ttl))
  }

  predicate IsResponse(flags: nat) {
    flags / 0x8000 % 2 == 1
  }

  /** A standard query or response, complete and without error. */
  predicate IsSuccess(flags: nat) {
    flags / 0x800 % 16 == 0 && flags / 0x200 % 2 == 0 && flags % 16 == 0
  }

  function Answer(least: nat): Decision {
    if least == 0 then Clear else Replace(Min(least, 45) * 1_000_000)
  }

  function DnsDecision(dns: seq<Byte>): Option<Decision> {
    var flags :- U16At(dns, 2);
    var questions :- U16At(dns, 4);
    var a :- U16At(dns, 6);
    var n :- U16At(dns, 8);
    var x :- U16At(dns, 10);
    Decided(dns, flags, questions, a + n + x)
  }

  /** The decision once the header is read. */
  function Decided(dns: seq<Byte>, flags: nat, questions: nat, records: nat): Option<Decision>
    requires |dns| >= DNS_HEADER
  {
    if !IsResponse(flags) then Some(Keep)
    else if !IsSuccess(flags) then None
    else
      var at :- QuestionsEnd(dns, DNS_HEADER, questions);
      var s :- RecordsSpan(dns, at, records, MAX_TTL);
      if s.end != |dns| || records == 0 then None else Some(Answer(s.ttl))
  }

  /** Where the IP payload of a frame is, as its own headers declare it. */
  function IpPayload(frame: seq<Byte>): Option<(nat, nat)> {
    var ethertype :- U16At(frame, 12);
    if ethertype == 0x86dd then
      if |frame| <= 20 || frame[14] / 16 != 6 || frame[20] != 17 then None
      else Some((54, 54 + U16Be(frame[18..20])))
    else if ethertype == 0x0800 then
      if |frame| <= 23 || frame[14] / 16 != 4 || frame[23] != 17 then None
      else
        var ihl := frame[14] % 16 * 4;
        if ihl < 20 || U16Be(frame[20..22]) % 0x4000 != 0 then None
        else Some((14 + ihl, 14 + U16Be(frame[16..18])))
    else None
  }

  /** The DNS message a frame carries. */
  function DnsPayload(frame: seq<Byte>): Option<seq<Byte>> {
    var span :- IpPayload(frame);
    if span.0 > span.1 || span.1 > |frame| then None
    else
      var udp := frame[span.0..span.1];
      if |udp| < 6 || U16Be(udp[..2]) != MDNS_PORT || U16Be(udp[2..4]) != MDNS_PORT || U16Be(udp[4..6]) != |udp|
         || |udp| < 8
      then None
      else Some(udp[8..])
  }

  function Classify(frame: seq<Byte>): Decision {
    var dns := DnsPayload(frame);
    if dns.None? then Clear else
    var decision := DnsDecision(dns.value);
    if decision.None? then Clear else decision.value
  }

  // ---- The parser as loops ----

  method FindNameEnd(bytes: seq<Byte>, start: nat) returns (end: Option<nat>)
    ensures end == NameEnd(bytes, start)
  {
    var offset := start;
    while true
      invariant start <= offset && NameFrom(bytes, start, offset) == NameEnd(bytes, start)
      decreases |bytes| - offset
    {
      if offset >= |bytes| {
        return None;
      }
      var n: nat := bytes[offset];
      offset := offset + 1;
      if offset - start > 255 {
        return None;
      }
      if n == 0 {
        return Some(offset);
      } else if 1 <= n <= 63 {
        offset := offset + n;
        if offset > |bytes| {
          return None;
        }
      } else if 0xc0 <= n <= 0xff {
        if offset >= |bytes| {
          return None;
        }
        var target: nat := (n - 0xc0) * 0x100 + bytes[offset];
        if target < 12 || target >= offset - 1 {
          return None;
        }
        return Some(offset + 1);
      } else {
        return None;
      }
    }
  }

  lemma QuestionsUnfold(dns: seq<Byte>, at: nat, count: nat)
    requires at <= |dns| && count > 0
    ensures QuestionsEnd(dns, at, count) == match QuestionEnd(dns, at)
                                            case None => None
                                            case Some(next) => QuestionsEnd(dns, next, count - 1)
  {
  }

  lemma RecordsUnfold(dns: seq<Byte>, at: nat, count: nat, least: nat)
    requires at <= |dns| && count > 0
    ensures RecordsSpan(dns, at, count, least) == match RecordSpan(dns, at)
                                                  case None => None
                                                  case Some(one) =>
                                                    RecordsSpan(dns, one.end, count - 1, Min(least, one.ttl))
  {
  }

  method SkipQuestions(dns: seq<Byte>, questions: nat) returns (end: Option<nat>)
    requires |dns| >= DNS_HEADER
    ensures end == QuestionsEnd(dns, DNS_HEADER, questions)
  {
    var offset: nat := DNS_HEADER;
    for i := 0 to questions
      invariant offset <= |dns|
      invariant QuestionsEnd(dns, offset, questions - i) == QuestionsEnd(dns, DNS_HEADER, questions)
    {
      QuestionsUnfold(dns, offset, questions - i);
      hide QuestionsEnd, NameEnd;
      var named := FindNameEnd(dns, offset);
      if named.None? || named.value + 4 > |dns| {
        return None;
      }
      offset := named.value + 4;
    }
    return Some(offset);
  }

  method ReadRecord(dns: seq<Byte>, start: nat) returns (s: Option<Span>)
    requires start <= |dns|
    ensures s == RecordSpan(dns, start)
  {
    var named := FindNameEnd(dns, start);
    hide NameEnd, U16Be, U32Be;
    if named.None? || named.value + 10 > |dns| {
      return None;
    }
    var offset := named.value;
    var ttl := U32Be(dns[offset + 4..offset + 8]);
    offset := offset + 10 + U16Be(dns[offset + 8..offset + 10]);
    if offset > |dns| {
      return None;
    }
    return Some(Span(ttl, offset));
  }

  method ScanRecords(dns: seq<Byte>, start: nat, records: nat) returns (s: Option<Span>)
    requires start <= |dns|
    ensures s == RecordsSpan(dns, start, records, MAX_TTL)
  {
    var offset: nat, minTtl: nat := start, MAX_TTL;
    for i := 0 to records
      invariant offset <= |dns|
      invariant RecordsSpan(dns, offset, records - i, minTtl) == RecordsSpan(dns, start, records, MAX_TTL)
    {
      RecordsUnfold(dns, offset, records - i, minTtl);
      hide RecordsSpan, RecordSpan, Min;
      var one := ReadRecord(dns, offset);
      if one.None? {
        return None;
      }
      minTtl := Min(minTtl, one.value.ttl);
      offset := one.value.end;
    }
    return Some(Span(minTtl, offset));
  }

  method DecideDns(dns: seq<Byte>) returns (d: Option<Decision>)
    ensures d == DnsDecision(dns)
  {
    hide U16Be, IsResponse, IsSuccess, QuestionsEnd, RecordsSpan;
    if |dns| < DNS_HEADER {
      return None;
    }
    var flags, questions := U16Be(dns[2..4]), U16Be(dns[4..6]);
    var records := U16Be(dns[6..8]) + U16Be(dns[8..10]) + U16Be(dns[10..12]);
    if !IsResponse(flags) {
      return Some(Keep);
    }
    if !IsSuccess(flags) {
      return None;
    }
    var at := SkipQuestions(dns, questions);
    if at.None? {
      return None;
    }
    var s := ScanRecords(dns, at.value, records);
    if s.None? || s.value.end != |dns| || records == 0 {
      return None;
    }
    if s.value.ttl == 0 {
      return Some(Clear);
    }
    return Some(Replace(Min(s.value.ttl, 45) * 1_000_000));
  }

  // ---- Messages as they are written ----

  /** Labels, and the earlier place they go on from when the name is compressed. */
  datatype Name = Name(labels: seq<seq<Byte>>, pointer: Option<nat>)

  datatype Question = Question(name: Name, kind: seq<Byte>)

  datatype Record = Record(name: Name, kind: seq<Byte>, ttl: nat, data: seq<Byte>)

  datatype Message = Message(
    id: seq<Byte>, flags: nat, answers: nat, authorities: nat, questions: seq<Question>, records: seq<Record>)

  predicate AreLabels(labels: seq<seq<Byte>>) {
    forall l :: l in labels ==> 1 <= |l| <= 63
  }

  function WriteLabel(l: seq<Byte>): seq<Byte> {
    [(|l| % 256) as Byte] + l
  }

  function WriteLabels(labels: seq<seq<Byte>>): seq<Byte> {
    if labels == [] then [] else WriteLabel(labels[0]) + WriteLabels(labels[1..])
  }

  function Ending(pointer: Option<nat>): seq<Byte> {
    match pointer
    case None => [0]
    case Some(target) => [0xc0 + target / 256 % 64, target % 256]
  }

  function WriteName(n: Name): seq<Byte> {
    WriteLabels(n.labels) + Ending(n.pointer)
  }

  /** `part` stands in `b` at `at`. */
  predicate StandsAt(b: seq<Byte>, at: nat, part: seq<Byte>) {
    at + |part| <= |b| && b[at..at + |part|] == part
  }

  lemma StandsAtParts(b: seq<Byte>, at: nat, p: seq<Byte>, q: seq<Byte>)
    ensures StandsAt(b, at, p + q) <==> StandsAt(b, at, p) && StandsAt(b, at + |p|, q)
  {
    if at + |p| + |q| <= |b| {
      var s := b[at..at + |p| + |q|];
      assert s[..|p|] == b[at..at + |p|] && s[|p|..] == b[at + |p|..at + |p| + |q|];
      assert s == s[..|p|] + s[|p|..];
      if s == p + q {
        assert s[..|p|] == p && s[|p|..] == q;
      }
    }
  }

  /** The rest of a name that began at `start` can stand at `at`: not too long, pointing back past the header. */
  predicate CanStand(n: Name, start: nat, at: nat) {
    && AreLabels(n.labels) && at + |WriteLabels(n.labels)| - start < MAX_NAME
    && (n.pointer.Some? ==> DNS_HEADER <= n.pointer.value < 0x4000 && n.pointer.value < at + |WriteLabels(n.labels)|)
  }

  lemma NoLabels(n: Name, start: nat, at: nat)
    requires n.labels == [] && CanStand(n, start, at)
    ensures at - start < MAX_NAME && WriteName(n) == Ending(n.pointer)
    ensures n.pointer.Some? ==> DNS_HEADER <= n.pointer.value < 0x4000 && n.pointer.value < at
  {
  }

  /** A written name is walked to its end. */
  lemma {:induction false} NameIsWalked(b: seq<Byte>, start: nat, at: nat, n: Name)
    requires start <= at && CanStand(n, start, at) && StandsAt(b, at, WriteName(n))
    ensures NameFrom(b, start, at) == Some(at + |WriteName(n)|)
    decreases |n.labels|
  {
    hide WriteName, WriteLabels, NameFrom, Ending, StandsAt;
    if n.labels == [] {
      NoLabels(n, start, at);
      EndingIsWalked(b, start, at, n.pointer);
    } else {
      var l, m := n.labels[0], n.(labels := n.labels[1..]);
      LabelThenName(n, start, at);
      var first := WriteLabel(l);
      StandsAtParts(b, at, first, WriteName(m));
      LabelIsWalked(b, start, at, l);
      NameIsWalked(b, start, at + |first|, m);
    }
  }

  lemma LabelThenName(n: Name, start: nat, at: nat)
    requires AreLabels(n.labels) && (n.pointer.Some? ==> n.pointer.value < 0x4000) && n.labels != []
    ensures var l, m := n.labels[0], n.(labels := n.labels[1..]);
            && 1 <= |l| <= 63 && AreLabels(m.labels) && WriteName(n) == WriteLabel(l) + WriteName(m)
            && (CanStand(n, start, at) <==> CanStand(m, start, at + 1 + |l|))
            && (CanStand(n, start, at) ==> at + 1 - start < MAX_NAME)
  {
    var rest, ending := WriteLabels(n.labels[1..]), Ending(n.pointer);
    var first := WriteLabel(n.labels[0]);
    assert first + rest + ending == first + (rest + ending);
  }

  lemma LabelIsWalked(b: seq<Byte>, start: nat, at: nat, l: seq<Byte>)
    requires start <= at && 1 <= |l| <= 63 && at + 1 - start <= MAX_NAME && StandsAt(b, at, WriteLabel(l))
    ensures NameFrom(b, start, at) == NameFrom(b, start, at + 1 + |l|)
  {
    assert b[at] == b[at..at + 1 + |l|][0];
  }

  lemma EndingIsWalked(b: seq<Byte>, start: nat, at: nat, pointer: Option<nat>)
    requires start <= at && at - start < MAX_NAME
    requires pointer.Some? ==> DNS_HEADER <= pointer.value < 0x4000 && pointer.value < at
    requires StandsAt(b, at, Ending(pointer))
    ensures NameFrom(b, start, at) == Some(at + |Ending(pointer)|)
  {
    var ending := Ending(pointer);
    assert b[at] == b[at..at + |ending|][0] == ending[0];
    assert |ending| == 2 ==> b[at + 1] == b[at..at + |ending|][1] == ending[1];
  }

  /** A name that is walked ends at once or goes on with a label. */
  lemma WalkedEnds(b: seq<Byte>, start: nat, at: nat) returns (n: Name)
    requires start <= at && NameFrom(b, start, at).Some? && !(0 < b[at] < 0xc0)
    ensures CanStand(n, start, at) && StandsAt(b, at, WriteName(n))
    ensures NameFrom(b, start, at).value == at + |WriteName(n)|
  {
    var k: int := b[at];
    if k == 0 {
      n := Name([], None);
      assert b[at..at + 1] == [b[at]] == WriteName(n);
    } else {
      n := Name([], Some((k - 0xc0) * 256 + b[at + 1]));
      assert b[at..at + 2] == [b[at], b[at + 1]] == WriteName(n);
    }
  }

  lemma WalkedGoesOn(b: seq<Byte>, start: nat, at: nat)
    requires start <= at && NameFrom(b, start, at).Some?
    ensures at < |b|
    ensures 0 < b[at] < 0xc0 ==>
              && b[at] <= 63 && at + 1 + b[at] as int <= |b|
              && NameFrom(b, start, at) == NameFrom(b, start, at + 1 + b[at] as int)
  {
  }

  /** What is walked as a name is a written one. */
  lemma {:induction false} WalkedIsName(b: seq<Byte>, start: nat, at: nat) returns (n: Name)
    requires start <= at && NameFrom(b, start, at).Some?
    ensures CanStand(n, start, at) && StandsAt(b, at, WriteName(n))
    ensures NameFrom(b, start, at).value == at + |WriteName(n)|
    decreases |b| - at
  {
    hide *;
    WalkedGoesOn(b, start, at);
    var k: int := b[at];
    if 0 < k < 0xc0 {
      var m := WalkedIsName(b, start, at + 1 + k);
      n := LabelBefore(b, start, at, m);
    } else {
      n := WalkedEnds(b, start, at);
    }
  }

  lemma LabelBefore(b: seq<Byte>, start: nat, at: nat, m: Name) returns (n: Name)
    requires at < |b| && 1 <= b[at] <= 63 && at + 1 + b[at] as int <= |b|
    requires CanStand(m, start, at + 1 + b[at] as int) && StandsAt(b, at + 1 + b[at] as int, WriteName(m))
    ensures CanStand(n, start, at) && StandsAt(b, at, WriteName(n))
    ensures |WriteName(n)| == 1 + b[at] as int + |WriteName(m)|
  {
    hide CanStand, StandsAt, WriteName, WriteLabels, WriteLabel;
    var l := b[at + 1..at + 1 + b[at]];
    n := m.(labels := [l] + m.labels);
    LabelInFront(n, m, l, start, at + 1 + |l|);
    LabelThenName(n, start, at);
    LabelStands(b, at);
    StandsAtParts(b, at, WriteLabel(l), WriteName(m));
  }

  lemma LabelInFront(n: Name, m: Name, l: seq<Byte>, start: nat, after: nat)
    requires n == m.(labels := [l] + m.labels) && 1 <= |l| <= 63 && CanStand(m, start, after)
    ensures n.labels != [] && n.labels[0] == l && n.(labels := n.labels[1..]) == m
    ensures AreLabels(n.labels) && (n.pointer.Some? ==> n.pointer.value < 0x4000)
  {
    assert n.labels[1..] == m.labels;
  }

  lemma LabelStands(b: seq<Byte>, at: nat)
    requires at < |b| && 1 <= b[at] <= 63 && at + 1 + b[at] as int <= |b|
    ensures var first := WriteLabel(b[at + 1..at + 1 + b[at]]);
            |first| == 1 + b[at] as int && StandsAt(b, at, first)
  {
    var first := WriteLabel(b[at + 1..at + 1 + b[at]]);
    assert first == b[at..at + 1 + b[at]];
  }

  function WriteQuestion(q: Question): seq<Byte> {
    WriteName(q.name) + q.kind
  }

  function WriteQuestions(qs: seq<Question>): seq<Byte> {
    if qs == [] then [] else WriteQuestion(qs[0]) + WriteQuestions(qs[1..])
  }

  function WriteRecord(r: Record): seq<Byte> {
    WriteName(r.name) + (r.kind + U32BeBytes(r.ttl % 0x1_0000_0000) + U16BeBytes(|r.data| % 0x1_0000) + r.data)
  }

  function WriteRecords(rs: seq<Record>): seq<Byte> {
    if rs == [] then [] else WriteRecord(rs[0]) + WriteRecords(rs[1..])
  }

  predicate QuestionsFit(qs: seq<Question>, at: nat) {
    qs == [] || (CanStand(qs[0].name, at, at) && |qs[0].kind| == 4
      && QuestionsFit(qs[1..], at + |WriteQuestion(qs[0])|))
  }

  predicate RecordFits(r: Record, at: nat) {
    CanStand(r.name, at, at) && |r.kind| == 4 && r.ttl <= MAX_TTL && |r.data| < 0x1_0000
  }

  predicate RecordsFit(rs: seq<Record>, at: nat) {
    rs == [] || (RecordFits(rs[0], at) && RecordsFit(rs[1..], at + |WriteRecord(rs[0])|))
  }

  function Least(rs: seq<Record>, least: nat): nat {
    if rs == [] then least else Least(rs[1..], Min(least, rs[0].ttl))
  }

  lemma QuestionIsRead(dns: seq<Byte>, at: nat, q: Question)
    requires CanStand(q.name, at, at) && |q.kind| == 4 && StandsAt(dns, at, WriteQuestion(q))
    ensures QuestionEnd(dns, at) == Some(at + |WriteQuestion(q)|)
  {
    StandsAtParts(dns, at, WriteName(q.name), q.kind);
    NameIsWalked(dns, at, at, q.name);
    hide NameFrom, CanStand, WriteName;
  }

  lemma QuestionsCons(q: Question, rest: seq<Question>, at: nat)
    ensures WriteQuestions([q] + rest) == WriteQuestion(q) + WriteQuestions(rest)
    ensures QuestionsFit([q] + rest, at) <==>
            CanStand(q.name, at, at) && |q.kind| == 4 && QuestionsFit(rest, at + |WriteQuestion(q)|)
  {
    hide WriteQuestion, CanStand;
    var qs := [q] + rest;
    assert qs[1..] == rest && qs[0] == q && qs != [];
  }

  lemma NoQuestions(dns: seq<Byte>, at: nat)
    ensures WriteQuestions([]) == [] && QuestionsFit([], at)
    ensures at <= |dns| ==> QuestionsEnd(dns, at, 0) == Some(at)
  {
  }

  lemma StandsWithin(b: seq<Byte>, at: nat, part: seq<Byte>)
    ensures StandsAt(b, at, part) ==> at + |part| <= |b|
    ensures StandsAt(b, at, []) <==> at <= |b|
  {
  }

  lemma {:induction false} QuestionsAreRead(dns: seq<Byte>, at: nat, qs: seq<Question>)
    requires QuestionsFit(qs, at) && StandsAt(dns, at, WriteQuestions(qs))
    ensures QuestionsEnd(dns, at, |qs|) == Some(at + |WriteQuestions(qs)|)
    decreases |qs|
  {
    hide *;
    StandsWithin(dns, at, WriteQuestions(qs));
    if qs == [] {
      NoQuestions(dns, at);
    } else {
      var one, rest := WriteQuestion(qs[0]), qs[1..];
      assert qs == [qs[0]] + rest;
      QuestionsCons(qs[0], rest, at);
      StandsAtParts(dns, at, one, WriteQuestions(rest));
      QuestionIsRead(dns, at, qs[0]);
      QuestionsUnfold(dns, at, |qs|);
      QuestionsAreRead(dns, at + |one|, rest);
    }
  }

  lemma QuestionIsWritten(dns: seq<Byte>, at: nat) returns (q: Question)
    requires QuestionEnd(dns, at).Some?
    ensures CanStand(q.name, at, at) && |q.kind| == 4
    ensures StandsAt(dns, at, WriteQuestion(q)) && QuestionEnd(dns, at).value == at + |WriteQuestion(q)|
  {
    var name := WalkedIsName(dns, at, at);
    var named := at + |WriteName(name)|;
    q := Question(name, dns[named..named + 4]);
    hide NameFrom, CanStand, WriteName;
    StandsAtParts(dns, at, WriteName(name), q.kind);
  }

  lemma {:induction false} QuestionsAreWritten(dns: seq<Byte>, at: nat, count: nat) returns (qs: seq<Question>)
    requires at <= |dns| && QuestionsEnd(dns, at, count).Some?
    ensures |qs| == count && QuestionsFit(qs, at) && StandsAt(dns, at, WriteQuestions(qs))
    ensures QuestionsEnd(dns, at, count).value == at + |WriteQuestions(qs)|
    decreases count
  {
    hide *;
    if count == 0 {
      qs := [];
      NoQuestions(dns, at);
      StandsWithin(dns, at, []);
    } else {
      QuestionsUnfold(dns, at, count);
      var q := QuestionIsWritten(dns, at);
      var rest := QuestionsAreWritten(dns, at + |WriteQuestion(q)|, count - 1);
      qs := [q] + rest;
      QuestionsCons(q, rest, at);
      StandsAtParts(dns, at, WriteQuestion(q), WriteQuestions(rest));
    }
  }

  /** The fixed part of a record after its name, and its data. */
  lemma TailIsRead(dns: seq<Byte>, named: nat, r: Record)
    requires |r.kind| == 4 && r.ttl <= MAX_TTL && |r.data| < 0x1_0000
    ensures StandsAt(dns, named, r.kind + U32BeBytes(r.ttl) + U16BeBytes(|r.data|) + r.data) ==>
              && named + 10 + |r.data| <= |dns| && U32Be(dns[named + 4..named + 8]) == r.ttl
              && U16Be(dns[named + 8..named + 10]) == |r.data|
  {
    TailParts(dns, named, r.kind, U32BeBytes(r.ttl), U16BeBytes(|r.data|), r.data);
    hide StandsAt, U16Be, U32Be;
  }

  lemma RecordParts(r: Record, at: nat)
    requires RecordFits(r, at)
    ensures var tail := r.kind + U32BeBytes(r.ttl) + U16BeBytes(|r.data|) + r.data;
            WriteRecord(r) == WriteName(r.name) + tail && |tail| == 10 + |r.data|
  {
    hide WriteName, CanStand, U16BeBytes, U32BeBytes;
    assert r.ttl % 0x1_0000_0000 == r.ttl && |r.data| % 0x1_0000 == |r.data|;
  }

  lemma RecordIsRead(dns: seq<Byte>, at: nat, r: Record)
    requires RecordFits(r, at) && StandsAt(dns, at, WriteRecord(r))
    ensures RecordSpan(dns, at) == Some(Span(r.ttl, at + |WriteRecord(r)|))
  {
    hide StandsAt, NameFrom, CanStand, WriteName, WriteRecord, U16Be, U32Be, U16BeBytes, U32BeBytes;
    RecordParts(r, at);
    StandsAtParts(dns, at, WriteName(r.name), r.kind + U32BeBytes(r.ttl) + U16BeBytes(|r.data|) + r.data);
    NameIsWalked(dns, at, at, r.name);
    TailIsRead(dns, at + |WriteName(r.name)|, r);
  }

  lemma TailParts(b: seq<Byte>, at: nat, kind: seq<Byte>, ttl: seq<Byte>, length: seq<Byte>, data: seq<Byte>)
    requires |kind| == 4 && |ttl| == 4 && |length| == 2
    ensures StandsAt(b, at, kind + ttl + length + data) <==>
            && at + 10 + |data| <= |b| && b[at..at + 4] == kind && b[at + 4..at + 8] == ttl
            && b[at + 8..at + 10] == length && b[at + 10..at + 10 + |data|] == data
  {
    StandsAtParts(b, at, kind + ttl + length, data);
    StandsAtParts(b, at, kind + ttl, length);
    StandsAtParts(b, at, kind, ttl);
  }

  lemma RecordsCons(r: Record, rest: seq<Record>, at: nat, least: nat)
    ensures WriteRecords([r] + rest) == WriteRecord(r) + WriteRecords(rest)
    ensures RecordsFit([r] + rest, at) <==> RecordFits(r, at) && RecordsFit(rest, at + |WriteRecord(r)|)
    ensures Least([r] + rest, least) == Least(rest, Min(least, r.ttl))
  {
    hide WriteRecord, RecordFits, Min;
    var rs := [r] + rest;
    assert rs[1..] == rest && rs[0] == r && rs != [];
  }

  lemma NoRecords(dns: seq<Byte>, at: nat, least: nat)
    ensures WriteRecords([]) == [] && RecordsFit([], at) && Least([], least) == least
    ensures at <= |dns| ==> RecordsSpan(dns, at, 0, least) == Some(Span(least, at))
  {
  }

  lemma {:induction false} RecordsAreRead(dns: seq<Byte>, at: nat, rs: seq<Record>, least: nat)
    requires RecordsFit(rs, at) && StandsAt(dns, at, WriteRecords(rs))
    ensures RecordsSpan(dns, at, |rs|, least) == Some(Span(Least(rs, least), at + |WriteRecords(rs)|))
    decreases |rs|
  {
    hide *;
    StandsWithin(dns, at, WriteRecords(rs));
    if rs == [] {
      NoRecords(dns, at, least);
    } else {
      var one, rest := WriteRecord(rs[0]), rs[1..];
      assert rs == [rs[0]] + rest;
      RecordsCons(rs[0], rest, at, least);
      StandsAtParts(dns, at, one, WriteRecords(rest));
      RecordIsRead(dns, at, rs[0]);
      RecordsUnfold(dns, at, |rs|, least);
      RecordsAreRead(dns, at + |one|, rest, Min(least, rs[0].ttl));
    }
  }

  lemma TailIsWritten(dns: seq<Byte>, named: nat) returns (kind: seq<Byte>, ttl: nat, data: seq<Byte>)
    requires named + 10 <= |dns| && named + 10 + U16Be(dns[named + 8..named + 10]) <= |dns|
    ensures |kind| == 4 && ttl == U32Be(dns[named + 4..named + 8]) && |data| == U16Be(dns[named + 8..named + 10])
    ensures ttl <= MAX_TTL && StandsAt(dns, named, kind + U32BeBytes(ttl) + U16BeBytes(|data|) + data)
  {
    var length := U16Be(dns[named + 8..named + 10]);
    kind, ttl, data := dns[named..named + 4], U32Be(dns[named + 4..named + 8]), dns[named + 10..named + 10 + length];
    U32BeInjective(dns[named + 4..named + 8]);
    U16BeInjective(dns[named + 8..named + 10]);
    hide StandsAt, U16Be, U32Be, U16BeBytes, U32BeBytes;
    TailParts(dns, named, kind, U32BeBytes(ttl), U16BeBytes(|data|), data);
  }

  lemma RecordIsWritten(dns: seq<Byte>, at: nat) returns (r: Record)
    requires RecordSpan(dns, at).Some?
    ensures RecordFits(r, at) && StandsAt(dns, at, WriteRecord(r))
    ensures RecordSpan(dns, at) == Some(Span(r.ttl, at + |WriteRecord(r)|))
  {
    hide StandsAt, NameFrom, CanStand, WriteName, WriteRecord, U16Be, U32Be, U16BeBytes, U32BeBytes;
    var name := WalkedIsName(dns, at, at);
    var kind, ttl, data := TailIsWritten(dns, at + |WriteName(name)|);
    r := Record(name, kind, ttl, data);
    RecordParts(r, at);
    StandsAtParts(dns, at, WriteName(name), kind + U32BeBytes(ttl) + U16BeBytes(|data|) + data);
  }

  lemma {:induction false} RecordsAreWritten(dns: seq<Byte>, at: nat, count: nat, least: nat) returns (rs: seq<Record>)
    requires at <= |dns| && RecordsSpan(dns, at, count, least).Some?
    ensures |rs| == count && RecordsFit(rs, at) && StandsAt(dns, at, WriteRecords(rs))
    ensures RecordsSpan(dns, at, count, least) == Some(Span(Least(rs, least), at + |WriteRecords(rs)|))
    decreases count
  {
    hide *;
    if count == 0 {
      rs := [];
      NoRecords(dns, at, least);
      StandsWithin(dns, at, []);
    } else {
      RecordsUnfold(dns, at, count, least);
      var r := RecordIsWritten(dns, at);
      var rest := RecordsAreWritten(dns, at + |WriteRecord(r)|, count - 1, Min(least, r.ttl));
      rs := [r] + rest;
      RecordsCons(r, rest, at, least);
      StandsAtParts(dns, at, WriteRecord(r), WriteRecords(rest));
    }
  }

  // ---- The decision on whole messages ----

  predicate IsMessage(m: Message) {
    && |m.id| == 2 && m.flags < 0x1_0000 && |m.questions| < 0x1_0000
    && m.answers < 0x1_0000 && m.authorities < 0x1_0000
    && m.answers + m.authorities <= |m.records| < m.answers + m.authorities + 0x1_0000
    && QuestionsFit(m.questions, DNS_HEADER)
    && RecordsFit(m.records, DNS_HEADER + |WriteQuestions(m.questions)|)
  }

  /** The twelve octets of a header. */
  function WriteHeader(id: seq<Byte>, flags: nat, questions: nat, answers: nat, authorities: nat,
                       additionals: nat): seq<Byte> {
    id + U16BeBytes(flags % 0x1_0000) + U16BeBytes(questions % 0x1_0000) + U16BeBytes(answers % 0x1_0000)
    + U16BeBytes(authorities % 0x1_0000) + U16BeBytes(additionals % 0x1_0000)
  }

  function HeaderOf(m: Message): seq<Byte>
    requires IsMessage(m)
  {
    WriteHeader(m.id, m.flags, |m.questions|, m.answers, m.authorities, |m.records| - m.answers - m.authorities)
  }

  function Write(m: Message): seq<Byte>
    requires IsMessage(m)
  {
    HeaderOf(m) + (WriteQuestions(m.questions) + WriteRecords(m.records))
  }

  /** What the cache should do about a message: keep on a query, drop on an error, or the shortest time. */
  function Expected(m: Message): Option<Decision> {
    var high, low := m.flags / 256 % 256, m.flags % 256;
    if high < 128 then Some(Keep)
    else if high % 128 >= 8 || high % 4 >= 2 || low % 16 != 0 || m.records == [] then None
    else
      var seconds := Least(m.records, 0xFFFF_FFFF);
      Some(if seconds == 0 then Clear else if seconds > 45 then Replace(45_000_000) else Replace(seconds * 1_000_000))
  }

  /** The shortest time to live is the least of all. */
  lemma {:induction false} LeastIsLeast(rs: seq<Record>, least: nat)
    ensures Least(rs, least) <= least && forall r :: r in rs ==> Least(rs, least) <= r.ttl
    ensures Least(rs, least) == least || exists r :: r in rs && Least(rs, least) == r.ttl
    decreases |rs|
  {
    if rs != [] {
      LeastIsLeast(rs[1..], Min(least, rs[0].ttl));
    }
  }

  lemma NumberIsRead(dns: seq<Byte>, at: nat, v: nat)
    requires v < 0x1_0000 && StandsAt(dns, at, U16BeBytes(v))
    ensures U16At(dns, at) == Some(v)
  {
  }

  lemma HeaderIsRead(dns: seq<Byte>, id: seq<Byte>, flags: nat, questions: nat, a: nat, n: nat, x: nat)
    requires |id| == 2 && flags < 0x1_0000 && questions < 0x1_0000 && a < 0x1_0000 && n < 0x1_0000 && x < 0x1_0000
    requires StandsAt(dns, 0, WriteHeader(id, flags, questions, a, n, x))
    ensures |WriteHeader(id, flags, questions, a, n, x)| == DNS_HEADER
    ensures U16At(dns, 2) == Some(flags) && U16At(dns, 4) == Some(questions)
    ensures U16At(dns, 6) == Some(a) && U16At(dns, 8) == Some(n) && U16At(dns, 10) == Some(x)
  {
    hide U16Be, U16BeBytes, StandsAt, U16At;
    var f, q, b, c, d := U16BeBytes(flags), U16BeBytes(questions), U16BeBytes(a), U16BeBytes(n), U16BeBytes(x);
    StandsAtParts(dns, 0, id + f + q + b + c, d);
    StandsAtParts(dns, 0, id + f + q + b, c);
    StandsAtParts(dns, 0, id + f + q, b);
    StandsAtParts(dns, 0, id + f, q);
    StandsAtParts(dns, 0, id, f);
    NumberIsRead(dns, 2, flags);
    NumberIsRead(dns, 4, questions);
    NumberIsRead(dns, 6, a);
    NumberIsRead(dns, 8, n);
    NumberIsRead(dns, 10, x);
  }

  /** Written questions and records are read to the end. */
  lemma BodyIsRead(dns: seq<Byte>, flags: nat, qs: seq<Question>, rs: seq<Record>)
    requires |dns| == DNS_HEADER + |WriteQuestions(qs)| + |WriteRecords(rs)|
    requires StandsAt(dns, DNS_HEADER, WriteQuestions(qs) + WriteRecords(rs))
    requires QuestionsFit(qs, DNS_HEADER) && RecordsFit(rs, DNS_HEADER + |WriteQuestions(qs)|)
    ensures Decided(dns, flags, |qs|, |rs|) == if !IsResponse(flags) then Some(Keep)
                                               else if !IsSuccess(flags) || rs == [] then None
                                               else Some(Answer(Least(rs, MAX_TTL)))
  {
    hide StandsAt, QuestionsEnd, RecordsSpan, QuestionsFit, RecordsFit, WriteQuestions, WriteRecords, Least,
      IsResponse, IsSuccess, Answer;
    StandsAtParts(dns, DNS_HEADER, WriteQuestions(qs), WriteRecords(rs));
    QuestionsAreRead(dns, DNS_HEADER, qs);
    RecordsAreRead(dns, DNS_HEADER + |WriteQuestions(qs)|, rs, MAX_TTL);
  }

  lemma JoinStands(head: seq<Byte>, body: seq<Byte>)
    ensures StandsAt(head + body, 0, head) && StandsAt(head + body, |head|, body)
  {
  }

  lemma WrittenParts(m: Message) returns (records: nat)
    requires IsMessage(m)
    ensures records == |m.records| && |Write(m)| >= DNS_HEADER
    ensures DnsDecision(Write(m)) == Decided(Write(m), m.flags, |m.questions|, records)
    ensures |Write(m)| == DNS_HEADER + |WriteQuestions(m.questions)| + |WriteRecords(m.records)|
    ensures StandsAt(Write(m), DNS_HEADER, WriteQuestions(m.questions) + WriteRecords(m.records))
  {
    hide StandsAt, U16At, WriteHeader, Decided, QuestionsFit, RecordsFit, WriteQuestions, WriteRecords;
    var additionals := |m.records| - m.answers - m.authorities;
    records := m.answers + m.authorities + additionals;
    JoinStands(HeaderOf(m), WriteQuestions(m.questions) + WriteRecords(m.records));
    HeaderIsRead(Write(m), m.id, m.flags, |m.questions|, m.answers, m.authorities, additionals);
  }

  /** Every written message is decided as expected. */
  lemma WrittenIsDecided(m: Message)
    requires IsMessage(m)
    ensures DnsDecision(Write(m)) == Expected(m)
  {
    hide StandsAt, DnsDecision, Decided, Write, QuestionsFit, RecordsFit, WriteQuestions, WriteRecords, Least,
      IsResponse, IsSuccess, Answer;
    var records := WrittenParts(m);
    BodyIsRead(Write(m), m.flags, m.questions, m.records);
    FlagOctets(m.flags, m.flags / 256, m.flags % 256);
    AnswerIs(Least(m.records, MAX_TTL));
  }

  lemma AnswerIs(least: nat)
    ensures Answer(least) == if least == 0 then Clear
                             else if least > 45 then Replace(45_000_000) else Replace(least * 1_000_000)
  {
  }

  lemma FlagOctets(flags: nat, high: Byte, low: Byte)
    requires flags == 256 * high as int + low as int
    ensures IsResponse(flags) <==> high >= 128
    ensures IsSuccess(flags) <==> high % 128 < 8 && high % 4 < 2 && low % 16 == 0
  {
    assert flags / 0x8000 == high / 128;
    assert flags / 0x800 == high / 8 && flags / 0x200 == high / 2;
  }

  lemma SixParts<T>(s: seq<T>)
    requires |s| >= 12
    ensures s[..12] == s[..2] + s[2..4] + s[4..6] + s[6..8] + s[8..10] + s[10..12]
  {
  }

  lemma NumberIsWritten(dns: seq<Byte>, at: nat, v: nat)
    requires U16At(dns, at) == Some(v)
    ensures at + 2 <= |dns| && dns[at..at + 2] == U16BeBytes(v % 0x1_0000)
  {
    U16BeInjective(dns[at..at + 2]);
    hide U16Be, U16BeBytes;
    assert v % 0x1_0000 == v;
  }

  lemma HeaderIsWritten(dns: seq<Byte>, flags: nat, questions: nat, a: nat, n: nat, x: nat)
    requires U16At(dns, 2) == Some(flags) && U16At(dns, 4) == Some(questions)
    requires U16At(dns, 6) == Some(a) && U16At(dns, 8) == Some(n) && U16At(dns, 10) == Some(x)
    ensures |WriteHeader(dns[..2], flags, questions, a, n, x)| == DNS_HEADER
    ensures dns[..DNS_HEADER] == WriteHeader(dns[..2], flags, questions, a, n, x)
  {
    hide U16At, U16BeBytes;
    NumberIsWritten(dns, 2, flags);
    NumberIsWritten(dns, 4, questions);
    NumberIsWritten(dns, 6, a);
    NumberIsWritten(dns, 8, n);
    NumberIsWritten(dns, 10, x);
    SixParts(dns);
  }

  lemma BodyIsWritten(dns: seq<Byte>, flags: nat, questions: nat, records: nat)
    returns (qs: seq<Question>, rs: seq<Record>)
    requires |dns| >= DNS_HEADER && Decided(dns, flags, questions, records).Some? && IsResponse(flags)
    ensures IsSuccess(flags) && |qs| == questions && |rs| == records > 0
    ensures QuestionsFit(qs, DNS_HEADER) && RecordsFit(rs, DNS_HEADER + |WriteQuestions(qs)|)
    ensures dns[DNS_HEADER..] == WriteQuestions(qs) + WriteRecords(rs)
  {
    hide StandsAt, QuestionsEnd, RecordsSpan, QuestionsFit, RecordsFit, WriteQuestions, WriteRecords, Least,
      IsResponse, IsSuccess, Answer;
    qs := QuestionsAreWritten(dns, DNS_HEADER, questions);
    rs := RecordsAreWritten(dns, DNS_HEADER + |WriteQuestions(qs)|, records, MAX_TTL);
    StandsAtParts(dns, DNS_HEADER, WriteQuestions(qs), WriteRecords(rs));
    StandsToEnd(dns, DNS_HEADER, WriteQuestions(qs) + WriteRecords(rs));
  }

  lemma StandsToEnd(b: seq<Byte>, at: nat, part: seq<Byte>)
    requires StandsAt(b, at, part) && at + |part| == |b|
    ensures b[at..] == part
  {
  }

  lemma QueryIsKept(dns: seq<Byte>, flags: nat, questions: nat, records: nat)
    requires |dns| >= DNS_HEADER && Decided(dns, flags, questions, records).Some?
    ensures !IsResponse(flags) <==> Decided(dns, flags, questions, records) == Some(Keep)
  {
    hide IsResponse, IsSuccess, QuestionsEnd, RecordsSpan, Min;
  }

  /** Only written messages, complete to the last octet, make the cache replace or clear what it has. */
  lemma DecidedIsWritten(dns: seq<Byte>) returns (m: Message)
    requires DnsDecision(dns).Some? && DnsDecision(dns).value != Keep
    ensures IsMessage(m) && Write(m) == dns && m.records != [] && IsResponse(m.flags) && IsSuccess(m.flags)
  {
    hide U16Be, IsResponse, IsSuccess, Decided, StandsAt, WriteQuestions, WriteRecords, QuestionsFit, RecordsFit,
      WriteHeader;
    var flags, questions := U16At(dns, 2).value, U16At(dns, 4).value;
    var a, n, x := U16At(dns, 6).value, U16At(dns, 8).value, U16At(dns, 10).value;
    hide U16At;
    QueryIsKept(dns, flags, questions, a + n + x);
    var qs, rs := BodyIsWritten(dns, flags, questions, a + n + x);
    HeaderIsWritten(dns, flags, questions, a, n, x);
    m := Message(dns[..2], flags, a, n, qs, rs);
    assert dns == dns[..DNS_HEADER] + dns[DNS_HEADER..];
  }

  // ---- Frames ----

  /** Cutting a frame before the end its IP header declares clears the cache; what is after that end is ignored. */
  lemma CutFrame(frame: seq<Byte>, n: nat)
    requires n <= |frame|
    ensures IpPayload(frame).None? ==> Classify(frame[..n]) == Clear
    ensures IpPayload(frame).Some? ==>
              Classify(frame[..n]) == if n < IpPayload(frame).value.1 then Clear else Classify(frame)
  {
    CutHeaders(frame, n);
    hide IpPayload, DnsDecision, U16Be;
    if IpPayload(frame).Some? && IpPayload(frame[..n]).Some? {
      var start, end := IpPayload(frame).value.0, IpPayload(frame).value.1;
      if start <= end <= n {
        assert frame[..n][start..end] == frame[start..end];
      }
    }
  }

  /** A cut frame declares the same payload as the whole one, or none; too short a declared payload is none at all. */
  lemma CutHeaders(frame: seq<Byte>, n: nat)
    requires n <= |frame|
    ensures IpPayload(frame[..n]).Some? ==> IpPayload(frame[..n]) == IpPayload(frame)
    ensures IpPayload(frame).Some? && IpPayload(frame[..n]).None? ==>
              n < IpPayload(frame).value.1 || IpPayload(frame).value.1 < IpPayload(frame).value.0
  {
    var p := frame[..n];
    if n > 23 {
      assert p[12..14] == frame[12..14] && p[16..18] == frame[16..18];
      assert p[18..20] == frame[18..20] && p[20..22] == frame[20..22];
    } else if n >= 14 {
      assert p[12..14] == frame[12..14];
      if n > 20 {
        assert p[18..20] == frame[18..20];
      }
    }
    hide U16Be;
  }

  /** An IPv6 header before `length` octets of UDP. */
  predicate IsV6Header(h: seq<Byte>, length: nat) {
    |h| == 40 && h[0] / 16 == 6 && U16Be(h[4..6]) == length && h[6] == 17
  }

  /** An IPv4 header, with or without options, of an unfragmented packet with `length` octets of UDP. */
  predicate IsV4Header(h: seq<Byte>, length: nat) {
    && |h| >= 20 && h[0] / 16 == 4 && |h| == h[0] % 16 * 4 && U16Be(h[2..4]) == |h| + length
    && U16Be(h[6..8]) % 0x4000 == 0 && h[9] == 17
  }

  function WriteUdp(checksum: seq<Byte>, dns: seq<Byte>): seq<Byte>
    requires 8 + |dns| < 0x1_0000
  {
    [0x14, 0xe9] + [0x14, 0xe9] + U16BeBytes(8 + |dns|) + checksum + dns
  }

  function WriteFrame(link: seq<Byte>, ip: seq<Byte>, udp: seq<Byte>, padding: seq<Byte>): seq<Byte> {
    link + (if |ip| > 0 && ip[0] / 16 == 6 then [0x86, 0xdd] else [0x08, 0x00]) + ip + udp + padding
  }

  lemma PortOctets()
    ensures U16BeBytes(MDNS_PORT) == [0x14, 0xe9]
  {
  }

  lemma UdpIsRead(frame: seq<Byte>, start: nat, checksum: seq<Byte>, dns: seq<Byte>)
    requires 8 + |dns| < 0x1_0000 && |checksum| == 2
    requires IpPayload(frame) == Some((start, start + 8 + |dns|)) && StandsAt(frame, start, WriteUdp(checksum, dns))
    ensures DnsPayload(frame) == Some(dns)
  {
    hide IpPayload, U16Be, U16BeBytes;
    var udp := WriteUdp(checksum, dns);
    PortOctets();
    assert udp[..2] == U16BeBytes(MDNS_PORT) && udp[2..4] == U16BeBytes(MDNS_PORT);
    assert udp[4..6] == U16BeBytes(8 + |dns|);
    assert udp[8..] == dns;
    hide WriteUdp;
  }

  /** The DNS message of a written frame is read back, whatever its addresses, options, checksum and padding. */
  lemma FrameIsRead(link: seq<Byte>, ip: seq<Byte>, checksum: seq<Byte>, dns: seq<Byte>, padding: seq<Byte>)
    requires |link| == 12 && |checksum| == 2 && 8 + |dns| < 0x1_0000
    requires IsV6Header(ip, 8 + |dns|) || IsV4Header(ip, 8 + |dns|)
    ensures DnsPayload(WriteFrame(link, ip, WriteUdp(checksum, dns), padding)) == Some(dns)
  {
    var udp := WriteUdp(checksum, dns);
    var kind: seq<Byte> := if ip[0] / 16 == 6 then [0x86, 0xdd] else [0x08, 0x00];
    var frame := WriteFrame(link, ip, udp, padding);
    assert |udp| == 8 + |dns|;
    hide WriteUdp;
    FrameParts(link, kind, ip, udp, padding);
    IpIsRead(frame, kind, ip, 8 + |dns|);
    hide IpPayload, WriteFrame, StandsAt, IsV4Header, IsV6Header;
    UdpIsRead(frame, 14 + |ip|, checksum, dns);
  }

  lemma FrameParts(link: seq<Byte>, kind: seq<Byte>, ip: seq<Byte>, udp: seq<Byte>, padding: seq<Byte>)
    requires |link| == 12 && |kind| == 2
    ensures var frame := link + kind + ip + udp + padding;
            StandsAt(frame, 12, kind) && StandsAt(frame, 14, ip) && StandsAt(frame, 14 + |ip|, udp)
  {
    var frame := link + kind + ip + udp + padding;
    assert StandsAt(frame, 0, frame);
    hide StandsAt;
    StandsAtParts(frame, 0, link + kind + ip + udp, padding);
    StandsAtParts(frame, 0, link + kind + ip, udp);
    StandsAtParts(frame, 0, link + kind, ip);
    StandsAtParts(frame, 0, link, kind);
  }

  lemma IpIsRead(frame: seq<Byte>, kind: seq<Byte>, ip: seq<Byte>, length: nat)
    requires IsV6Header(ip, length) || IsV4Header(ip, length)
    requires kind == if ip[0] / 16 == 6 then [0x86, 0xdd] else [0x08, 0x00]
    requires StandsAt(frame, 12, kind) && StandsAt(frame, 14, ip)
    ensures IpPayload(frame) == Some((14 + |ip|, 14 + |ip| + length))
  {
    var h := frame[14..14 + |ip|];
    assert U16Be(kind) == if ip[0] / 16 == 6 then 0x86dd else 0x0800;
    hide U16Be;
    assert forall i :: 0 <= i < |ip| ==> frame[14 + i] == h[i];
    assert frame[18..20] == h[4..6] && frame[16..18] == h[2..4] && frame[20..22] == h[6..8];
    assert frame[14] == h[0] && frame[20] == h[6] && frame[23] == h[9];
  }

  /** A frame with a written message is decided by its message alone. */
  lemma WrittenFrameIsClassified(m: Message, link: seq<Byte>, ip: seq<Byte>, checksum: seq<Byte>, padding: seq<Byte>)
    requires IsMessage(m) && |link| == 12 && |checksum| == 2 && 8 + |Write(m)| < 0x1_0000
    requires IsV6Header(ip, 8 + |Write(m)|) || IsV4Header(ip, 8 + |Write(m)|)
    ensures Classify(WriteFrame(link, ip, WriteUdp(checksum, Write(m)), padding))
            == if Expected(m).Some? then Expected(m).value else Clear
  {
    WrittenIsDecided(m);
    FrameIsRead(link, ip, checksum, Write(m), padding);
    hide DnsPayload, DnsDecision, Expected, Write, IsMessage, IsV4Header, IsV6Header, WriteFrame, WriteUdp;
  }

  /** Replaying needs a frame whose payload is, to its last octet, a written response with records that all live. */
  lemma ReplaceIsWritten(frame: seq<Byte>) returns (m: Message)
    requires Classify(frame).Replace?
    ensures IsMessage(m) && DnsPayload(frame) == Some(Write(m))
    ensures m.flags >= 0x8000 && m.records != [] && forall r :: r in m.records ==> r.ttl > 0
    ensures var seconds := Least(m.records, 0xFFFF_FFFF);
            Classify(frame) == Replace(if seconds > 45 then 45_000_000 else seconds * 1_000_000)
  {
    hide DnsPayload, DnsDecision, Write, IsMessage, Least, IsResponse, IsSuccess;
    m := DecidedIsWritten(DnsPayload(frame).value);
    WrittenIsDecided(m);
    LeastIsLeast(m.records, 0xFFFF_FFFF);
    FlagsBelow(m);
  }

  lemma FlagsBelow(m: Message)
    requires IsMessage(m)
    ensures m.flags / 256 % 256 >= 128 <==> m.flags >= 0x8000
  {
  }

  // ---- On the octets ----

  /**
   * Of a complete header the first flag octet alone tells queries, which keep what is cached, from responses;
   * anything else is decided of standard responses only: no other opcode, not truncated, no error.
   */
  lemma DecisionOnOctets(dns: seq<Byte>)
    ensures |dns| < 12 ==> DnsDecision(dns) == None
    ensures |dns| >= 12 ==> (DnsDecision(dns) == Some(Keep) <==> dns[2] < 128)
    ensures DnsDecision(dns).Some? && DnsDecision(dns).value != Keep ==>
              && |dns| >= 12 && dns[2] >= 128
              && dns[2] % 128 < 8 && dns[2] % 4 < 2 && dns[3] % 16 == 0
    ensures DnsDecision(dns).Some? && DnsDecision(dns).value.Replace? ==>
              1_000_000 <= DnsDecision(dns).value.maxAgeUs <= 45_000_000
  {
    hide QuestionsEnd, RecordsSpan;
    if |dns| >= 12 {
      var flags := U16Be(dns[2..4]);
      assert flags / 256 == dns[2] && flags % 256 == dns[3];
      FlagOctets(flags, dns[2], dns[3]);
      hide U16Be, IsResponse, IsSuccess;
    }
  }

  /** A frame with a message to read is a written one: one of the two headers, unfragmented, and both ports. */
  lemma FrameIsWritten(frame: seq<Byte>, dns: seq<Byte>)
    returns (link: seq<Byte>, ip: seq<Byte>, checksum: seq<Byte>, padding: seq<Byte>)
    requires DnsPayload(frame) == Some(dns)
    ensures |link| == 12 && |checksum| == 2 && 8 + |dns| < 0x1_0000
    ensures IsV6Header(ip, 8 + |dns|) || IsV4Header(ip, 8 + |dns|)
    ensures frame == WriteFrame(link, ip, WriteUdp(checksum, dns), padding)
  {
    hide U16Be, IpPayload, IsV6Header, IsV4Header, WriteUdp;
    var (start, end) := IpPayload(frame).value;
    var udp := frame[start..end];
    ip := IpIsWritten(frame, start, end);
    link, checksum, padding := frame[..12], udp[6..8], frame[end..];
    UdpIsWritten(udp, dns);
    FiveParts(frame, start, end);
  }

  lemma FiveParts<T>(s: seq<T>, start: nat, end: nat)
    requires 14 <= start <= end <= |s|
    ensures s == s[..12] + s[12..14] + s[14..start] + s[start..end] + s[end..]
  {
  }

  lemma IpIsWritten(frame: seq<Byte>, start: nat, end: nat) returns (ip: seq<Byte>)
    requires IpPayload(frame) == Some((start, end)) && start <= end <= |frame|
    ensures 14 <= start && ip == frame[14..start]
    ensures IsV6Header(ip, end - start) || IsV4Header(ip, end - start)
    ensures frame[12..14] == if |ip| > 0 && ip[0] / 16 == 6 then [0x86, 0xdd] else [0x08, 0x00]
  {
    U16BeInjective(frame[12..14]);
    ip := frame[14..start];
    assert forall i :: 0 <= i < |ip| ==> ip[i] == frame[14 + i];
    assert ip[4..6] == frame[18..20] && ip[2..4] == frame[16..18] && ip[6..8] == frame[20..22];
  }

  lemma UdpIsWritten(udp: seq<Byte>, dns: seq<Byte>)
    requires |udp| >= 8 && U16Be(udp[..2]) == MDNS_PORT && U16Be(udp[2..4]) == MDNS_PORT && U16Be(udp[4..6]) == |udp|
    requires dns == udp[8..]
    ensures 8 + |dns| < 0x1_0000 && udp == WriteUdp(udp[6..8], dns)
  {
    PortOctets();
    U16BeInjective(udp[..2]);
    U16BeInjective(udp[2..4]);
    U16BeInjective(udp[4..6]);
    assert udp == udp[..2] + udp[2..4] + udp[4..6] + udp[6..8] + udp[8..];
  }
}
