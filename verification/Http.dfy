/** HTTP/1.1 requests as the AirDrop sender prints them and the receiver parses them. */
module Http {
  import opened Wrappers
  import opened ByteSeqs
  import opened Text
  import opened Chunked

  const SPACE: Byte := 32
  const COLON: Byte := 58
  const DASH: Byte := 45
  const SLASH: Byte := 47
  const HTTP_1_0: seq<Byte> := [72, 84, 84, 80, 47, 49, 46, 48]
  const HTTP_1_1: seq<Byte> := [72, 84, 84, 80, 47, 49, 46, 49]
  const CHUNKED: seq<Byte> := [99, 104, 117, 110, 107, 101, 100]
  // content-length
  const CONTENT_LENGTH: seq<Byte> := [99, 111, 110, 116, 101, 110, 116, 45, 108, 101, 110, 103, 116, 104]
  // transfer-encoding
  const TRANSFER_ENCODING: seq<Byte> :=
    [116, 114, 97, 110, 115, 102, 101, 114, 45, 101, 110, 99, 111, 100, 105, 110, 103]

  datatype HttpError =
    | BadRequestLine
    | NoHeaderTerminator
    | BadHeaderLine(line: seq<Byte>)
    | BadChunks(cause: ChunkedError)
    | BadContentLength(value: seq<Byte>)
    | ShortBody

  type Headers = map<seq<Byte>, seq<Byte>>

  datatype Request = Request(verb: seq<Byte>, path: seq<Byte>, headers: Headers, body: seq<Byte>)

  // ---- Octet classes ----

  predicate IsUpper(b: Byte) {
    65 <= b <= 90
  }

  function LowerByte(b: Byte): Byte {
    if IsUpper(b) then b + 32 else b
  }

  function UpperByte(b: Byte): Byte {
    if 97 <= b <= 122 then b - 32 else b
  }

  function Lower(s: seq<Byte>): seq<Byte> {
    seq(|s|, i requires 0 <= i < |s| => LowerByte(s[i]))
  }

  predicate IsControl(b: Byte) {
    b < 32 || b == 127
  }

  // ---- Splitting ----

  /** Offset of the blank line that ends the header section. */
  function FindTerminator(s: seq<Byte>): (at: Option<nat>)
    ensures at.Some? ==> at.value + 4 <= |s|
  {
    if |s| < 4 then None
    else if s[..4] == CRLF + CRLF then Some(0)
    else match FindTerminator(s[1..])
      case None => None
      case Some(k) => Some(k + 1)
  }

  function SplitLines(s: seq<Byte>): (lines: seq<seq<Byte>>)
    ensures lines != []
    decreases |s|
  {
    match FindCrlf(s)
    case None => [s]
    case Some(k) => [s[..k]] + SplitLines(s[k + 2..])
  }

  function SplitWords(s: seq<Byte>): (words: seq<seq<Byte>>)
    ensures words != []
    decreases |s|
  {
    var word := Before(s, SPACE);
    if |word| == |s| then [s] else [word] + SplitWords(s[|word| + 1..])
  }

  // ---- Parsing ----

  function ParseRequestLine(line: seq<Byte>): Result<(seq<Byte>, seq<Byte>), HttpError> {
    var words := SplitWords(line);
    if |words| != 3 then Failure(BadRequestLine)
    else if !ValidVerb(words[0]) || !ValidPath(words[1])
      || words[2] !in {HTTP_1_0, HTTP_1_1} then Failure(BadRequestLine)
    else Success((words[0], words[1]))
  }

  predicate ValidVerb(verb: seq<Byte>) {
    verb != [] && forall i :: 0 <= i < |verb| ==> IsUpper(verb[i])
  }

  predicate ValidPath(path: seq<Byte>) {
    && path != [] && path[0] == SLASH
    && forall i :: 0 <= i < |path| ==> path[i] != SPACE && !IsControl(path[i])
  }

  /** One header line: name lower-cased, both sides trimmed. */
  function ParseHeader(line: seq<Byte>): Option<(seq<Byte>, seq<Byte>)> {
    var name := Before(line, COLON);
    if |name| == |line| then None else Some((Lower(Trim(name)), Trim(line[|name| + 1..])))
  }

  /** The header lines added to `headers` in turn; blank lines are ignored, a repeated name wins. */
  function ParseHeaders(lines: seq<seq<Byte>>, headers: Headers): Result<Headers, HttpError>
    decreases |lines|
  {
    if lines == [] then Success(headers)
    else if lines[0] == [] then ParseHeaders(lines[1..], headers)
    else match ParseHeader(lines[0])
      case None => Failure(BadHeaderLine(lines[0]))
      case Some((k, v)) => ParseHeaders(lines[1..], headers[k := v])
  }

  predicate Contains(s: seq<Byte>, needle: seq<Byte>) {
    exists i :: 0 <= i <= |s| && needle <= s[i..]
  }

  /** The body after the header section, framed as the headers say. */
  function ParseBody(headers: Headers, rest: seq<Byte>): Result<seq<Byte>, HttpError> {
    if TRANSFER_ENCODING in headers then
      if !Contains(Lower(headers[TRANSFER_ENCODING]), CHUNKED) then Success([])
      else match Decode(rest)
        case Failure(e) => Failure(BadChunks(e))
        case Success(body) => Success(body)
    else if CONTENT_LENGTH in headers then
      match FromStrRadix(headers[CONTENT_LENGTH], 10)
      case None => Failure(BadContentLength(headers[CONTENT_LENGTH]))
      case Some(n) => if n > |rest| then Failure(ShortBody) else Success(rest[..n])
    else Success([])
  }

  function Parse(raw: seq<Byte>): Result<Request, HttpError> {
    match FindTerminator(raw)
    case None => Failure(NoHeaderTerminator)
    case Some(sep) => ParseHead(raw[..sep], raw[sep + 4..])
  }

  function ParseHead(head: seq<Byte>, rest: seq<Byte>): Result<Request, HttpError> {
    if !IsUtf8(head) then Failure(BadRequestLine)
    else
      var lines := SplitLines(head);
      var (verb, path) :- ParseRequestLine(lines[0]);
      var headers :- ParseHeaders(lines[1..], map[]);
      var body :- ParseBody(headers, rest);
      Success(Request(verb, path, headers, body))
  }

  method ParseRequest(raw: seq<Byte>) returns (r: Result<Request, HttpError>)
    ensures r == Parse(raw)
  {
    hide ParseHeader, Trim, ParseRequestLine, IsUtf8, SplitLines, FindTerminator, ParseBody;
    var sep := FindTerminator(raw);
    if sep.None? {
      return Failure(NoHeaderTerminator);
    }
    var head := raw[..sep.value];
    if !IsUtf8(head) {
      return Failure(BadRequestLine);
    }
    var lines := SplitLines(head);
    var line := ParseRequestLine(lines[0]);
    if line.Failure? {
      return Failure(line.error);
    }
    var headers: Headers := map[];
    assert lines[1..] == lines[1..][0..];
    for i := 1 to |lines|
      invariant ParseHeaders(lines[1..], map[]) == ParseHeaders(lines[i..], headers)
    {
      assert lines[i..][1..] == lines[i + 1..];
      if lines[i] == [] {
        continue;
      }
      var header := ParseHeader(lines[i]);
      if header.None? {
        return Failure(BadHeaderLine(lines[i]));
      }
      headers := headers[header.value.0 := header.value.1];
    }
    assert lines[|lines|..] == [];
    var body := ParseBody(headers, raw[sep.value + 4..]);
    if body.Failure? {
      return Failure(body.error);
    }
    return Success(Request(line.value.0, line.value.1, headers, body.value));
  }

  // ---- Printing ----

  /** `content-type` printed as `Content-Type`: the first letter of every dash-separated word. */
  function Title(name: seq<Byte>, wordStart: bool): (t: seq<Byte>)
    ensures |t| == |name|
  {
    if name == [] then []
    else [if wordStart then UpperByte(name[0]) else name[0]] + Title(name[1..], name[0] == DASH)
  }

  function HeaderLine(name: seq<Byte>, value: seq<Byte>): seq<Byte> {
    Title(name, true) + [COLON, SPACE] + value
  }

  function HeaderLines(order: seq<seq<Byte>>, headers: Headers): seq<seq<Byte>>
    requires forall i :: 0 <= i < |order| ==> order[i] in headers
  {
    seq(|order|, i requires 0 <= i < |order| => HeaderLine(order[i], headers[order[i]]))
  }

  function Lines(lines: seq<seq<Byte>>): seq<Byte> {
    if lines == [] then [] else lines[0] + CRLF + Lines(lines[1..])
  }

  function RequestLine(req: Request): seq<Byte> {
    req.verb + [SPACE] + req.path + [SPACE] + HTTP_1_1
  }

  predicate HasTransferEncoding(headers: Headers) {
    exists k :: k in headers && Lower(k) == TRANSFER_ENCODING
  }

  /** All lines of the head: request line, headers in some order, and the length unless chunked. */
  function HeadLines(req: Request, order: seq<seq<Byte>>): seq<seq<Byte>>
    requires forall i :: 0 <= i < |order| ==> order[i] in req.headers
  {
    [RequestLine(req)] + HeaderLines(order, req.headers)
    + if HasTransferEncoding(req.headers) then [] else [HeaderLine(CONTENT_LENGTH, Numeral(|req.body|, 10))]
  }

  function Print(req: Request, order: seq<seq<Byte>>): seq<Byte>
    requires forall i :: 0 <= i < |order| ==> order[i] in req.headers
  {
    Lines(HeadLines(req, order)) + CRLF + req.body
  }

  method FormatRequest(req: Request, order: seq<seq<Byte>>) returns (out: seq<Byte>)
    requires forall i :: 0 <= i < |order| ==> order[i] in req.headers
    ensures out == Print(req, order)
  {
    hide Lines, Title, Numeral, HasTransferEncoding;
    out := req.verb + [SPACE] + req.path + [SPACE] + HTTP_1_1 + CRLF;
    LinesOfOne(RequestLine(req));
    assert [RequestLine(req)] + HeaderLines(order, req.headers)[..0] == [RequestLine(req)];
    for i := 0 to |order|
      invariant out == Lines([RequestLine(req)] + HeaderLines(order, req.headers)[..i])
    {
      var line := Title(order[i], true) + [COLON, SPACE] + req.headers[order[i]];
      ghost var all := HeaderLines(order, req.headers);
      LinesOfOne(line);
      LinesConcat([RequestLine(req)] + all[..i], [line]);
      assert all[..i + 1] == all[..i] + [line];
      assert [RequestLine(req)] + all[..i + 1] == [RequestLine(req)] + all[..i] + [line];
      out := out + (line + CRLF);
    }
    ghost var all := HeaderLines(order, req.headers);
    assert all[..|order|] == all;
    if !HasTransferEncoding(req.headers) {
      var line := HeaderLine(CONTENT_LENGTH, Numeral(|req.body|, 10));
      LinesOfOne(line);
      LinesConcat([RequestLine(req)] + all, [line]);
      out := out + (line + CRLF);
    } else {
      assert [RequestLine(req)] + all + [] == [RequestLine(req)] + all;
    }
    out := out + CRLF;
    out := out + req.body;
  }

  lemma LinesOfOne(line: seq<Byte>)
    ensures Lines([line]) == line + CRLF
  {
    assert [line][1..] == [];
  }

  lemma {:induction false} LinesConcat(a: seq<seq<Byte>>, b: seq<seq<Byte>>)
    ensures Lines(a + b) == Lines(a) + Lines(b)
  {
    if a == [] {
      assert a + b == b;
    } else {
      assert (a + b)[1..] == a[1..] + b;
      LinesConcat(a[1..], b);
    }
  }

  // ---- Parsing what was printed ----

  /** The lines with CR LF between them, and none after the last. */
  function Joined(lines: seq<seq<Byte>>): seq<Byte>
    requires lines != []
  {
    if |lines| == 1 then lines[0] else lines[0] + CRLF + Joined(lines[1..])
  }

  lemma {:induction false} LinesAreJoined(lines: seq<seq<Byte>>)
    requires lines != []
    ensures Lines(lines) == Joined(lines) + CRLF
  {
    if |lines| > 1 {
      LinesAreJoined(lines[1..]);
    } else {
      assert lines[1..] == [];
    }
  }

  function Shift(at: Option<nat>, n: nat): Option<nat> {
    match at
    case None => None
    case Some(k) => Some(k + n)
  }

  lemma SkipByte(s: seq<Byte>)
    requires s != [] && (s[0] != CR || (|s| >= 3 && s[2] != CR))
    ensures FindTerminator(s) == Shift(FindTerminator(s[1..]), 1)
  {
    if |s| >= 4 {
      assert s[..4][0] == s[0] && s[..4][2] == s[2] && (CRLF + CRLF)[0] == (CRLF + CRLF)[2] == CR;
    }
  }

  /** A line followed by a line that is not blank is not the end of the head. */
  lemma {:induction false} SkipLine(line: seq<Byte>, rest: seq<Byte>)
    requires CR !in line && rest != [] && rest[0] != CR
    ensures FindTerminator(line + CRLF + rest) == Shift(FindTerminator(rest), |line| + 2)
    decreases |line|
  {
    hide FindTerminator;
    var s := line + CRLF + rest;
    SkipByte(s);
    if line == [] {
      assert s[1..] == [LF] + rest;
      SkipByte([LF] + rest);
      assert ([LF] + rest)[1..] == rest;
    } else {
      assert s[1..] == line[1..] + CRLF + rest;
      SkipLine(line[1..], rest);
    }
  }

  lemma {:induction false} BlankLine(line: seq<Byte>, body: seq<Byte>)
    requires CR !in line
    ensures FindTerminator(line + CRLF + CRLF + body) == Some(|line|)
    decreases |line|
  {
    var s := line + CRLF + CRLF + body;
    if line == [] {
      assert s[..4] == CRLF + CRLF;
    } else {
      SkipByte(s);
      assert s[1..] == line[1..] + CRLF + CRLF + body;
      BlankLine(line[1..], body);
    }
  }

  ghost predicate ProperLines(lines: seq<seq<Byte>>) {
    forall i :: 0 <= i < |lines| ==> lines[i] != [] && CR !in lines[i] && IsUtf8(lines[i])
  }

  lemma {:induction false} HeadEnds(lines: seq<seq<Byte>>, body: seq<Byte>)
    requires lines != [] && ProperLines(lines)
    ensures FindTerminator(Joined(lines) + CRLF + CRLF + body) == Some(|Joined(lines)|)
    decreases |lines|
  {
    hide FindTerminator;
    if |lines| == 1 {
      BlankLine(lines[0], body);
    } else {
      var rest := Joined(lines[1..]) + CRLF + CRLF + body;
      assert Joined(lines) + CRLF + CRLF + body == lines[0] + CRLF + rest;
      assert rest[0] == lines[1][0];
      SkipLine(lines[0], rest);
      HeadEnds(lines[1..], body);
    }
  }

  lemma {:induction false} HeadSplits(lines: seq<seq<Byte>>)
    requires lines != [] && ProperLines(lines)
    ensures SplitLines(Joined(lines)) == lines && IsUtf8(Joined(lines))
    decreases |lines|
  {
    hide IsUtf8, FindCrlf;
    if |lines| == 1 {
      FindCrlfNone(lines[0]);
    } else {
      var head := Joined(lines);
      HeadSplits(lines[1..]);
      FindCrlfAt(lines[0], Joined(lines[1..]));
      assert head[..|lines[0]|] == lines[0] && head[|lines[0]| + 2..] == Joined(lines[1..]);
      AsciiIsUtf8(CRLF);
      Utf8Concat(lines[0], CRLF);
      Utf8Concat(lines[0] + CRLF, Joined(lines[1..]));
    }
  }

  lemma PrintedHead(lines: seq<seq<Byte>>, body: seq<Byte>)
    requires lines != [] && ProperLines(lines)
    ensures Parse(Lines(lines) + CRLF + body) == ParseHead(Joined(lines), body)
  {
    hide FindTerminator, ParseHead;
    LinesAreJoined(lines);
    HeadEnds(lines, body);
    var raw := Joined(lines) + CRLF + CRLF + body;
    assert Lines(lines) + CRLF + body == raw;
    assert raw[..|Joined(lines)|] == Joined(lines) && raw[|Joined(lines)| + 4..] == body;
  }

  lemma PrintedRequestLine(req: Request)
    requires ValidVerb(req.verb) && ValidPath(req.path)
    ensures ParseRequestLine(RequestLine(req)) == Success((req.verb, req.path))
    ensures CR !in RequestLine(req) && RequestLine(req) != []
  {
    hide SplitWords;
    assert SPACE !in req.verb && SPACE !in req.path;
    assert CR !in req.verb && CR !in req.path;
    SplitThree(req.verb, req.path, HTTP_1_1);
  }

  lemma SplitThree(a: seq<Byte>, b: seq<Byte>, c: seq<Byte>)
    requires SPACE !in a && SPACE !in b && SPACE !in c
    ensures SplitWords(a + [SPACE] + b + [SPACE] + c) == [a, b, c]
  {
    hide Before;
    SplitOne(a, b + [SPACE] + c);
    SplitOne(b, c);
    BeforeFirst(c, SPACE, []);
    assert a + [SPACE] + b + [SPACE] + c == a + [SPACE] + (b + [SPACE] + c);
  }

  lemma SplitOne(a: seq<Byte>, rest: seq<Byte>)
    requires SPACE !in a
    ensures SplitWords(a + [SPACE] + rest) == [a] + SplitWords(rest)
  {
    hide Before;
    BeforeFirst(a, SPACE, rest);
    assert (a + [SPACE] + rest)[|a| + 1..] == rest;
  }

  // ---- Header names and values ----

  ghost predicate ValidName(name: seq<Byte>) {
    && IsUtf8(name) && IsTrimmed(name)
    && forall i :: 0 <= i < |name| ==> name[i] != CR && name[i] != COLON && !IsUpper(name[i])
  }

  ghost predicate ValidValue(value: seq<Byte>) {
    IsUtf8(value) && IsTrimmed(value) && CR !in value
  }

  lemma {:induction false} TitleBytes(name: seq<Byte>, wordStart: bool)
    ensures var t := Title(name, wordStart);
            forall i :: 0 <= i < |t| ==> t[i] == name[i] || (97 <= name[i] <= 122 && t[i] == name[i] - 32)
  {
    if name != [] {
      TitleBytes(name[1..], name[0] == DASH);
    }
  }

  /** Octet strings that differ in ASCII characters only are UTF-8 together. */
  lemma {:induction false} SameShape(a: seq<Byte>, b: seq<Byte>)
    requires |a| == |b| && IsUtf8(a)
    requires forall i :: 0 <= i < |a| ==> a[i] == b[i] || (a[i] < 0x80 && b[i] < 0x80)
    ensures IsUtf8(b)
    decreases |a|
  {
    if a != [] {
      var n := CharLen(a);
      assert CharLen(b) == n;
      SameShape(a[n..], b[n..]);
    }
  }

  lemma TitleTrimmed(name: seq<Byte>)
    requires IsTrimmed(name)
    ensures IsTrimmed(Title(name, true))
  {
    hide Title;
    TitleBytes(name, true);
    var t := Title(name, true);
    if |name| >= 3 {
      assert name[..3][0] == name[0] && name[..3][1] == name[1] && name[..3][2] == name[2];
      assert t[..3][0] == t[0] && t[..3][1] == t[1] && t[..3][2] == t[2];
      var a, b := name[..3], t[..3];
      assert !IsWideSpace(a);
      assert IsWideSpace(b) ==> a == b;
      var n, m := name[|name| - 3..], t[|name| - 3..];
      assert n[0] == name[|name| - 3] && n[1] == name[|name| - 2] && n[2] == name[|name| - 1];
      assert m[0] == t[|name| - 3] && m[1] == t[|name| - 2] && m[2] == t[|name| - 1];
      assert IsWideSpace(m) ==> m == n;
    }
  }

  lemma TrimTrimmed(s: seq<Byte>)
    requires IsTrimmed(s)
    ensures Trim(s) == s && Trim([SPACE] + s) == s
  {
    hide IsWideSpace;
    assert SpaceAtStart([SPACE] + s) == 1;
    assert ([SPACE] + s)[1..] == s;
  }

  lemma PrintedHeader(name: seq<Byte>, value: seq<Byte>)
    requires ValidName(name) && ValidValue(value)
    ensures ParseHeader(HeaderLine(name, value)) == Some((name, value))
    ensures var line := HeaderLine(name, value); line != [] && CR !in line && IsUtf8(line)
  {
    hide Title, Trim, IsUtf8, Before, IsTrimmed;
    var t := Title(name, true);
    var line := HeaderLine(name, value);
    TitleBytes(name, true);
    forall i | 0 <= i < |t|
      ensures t[i] != COLON && t[i] != CR
    {
      assert name[i] != COLON && name[i] != CR;
    }
    assert line == t + [COLON] + ([SPACE] + value);
    BeforeFirst(t, COLON, [SPACE] + value);
    assert line[|t| + 1..] == [SPACE] + value;
    TitleTrimmed(name);
    TrimTrimmed(t);
    TrimTrimmed(value);
    assert Lower(t) == name;
    SameShape(name, t);
    AsciiIsUtf8([COLON, SPACE]);
    Utf8Concat(t, [COLON, SPACE]);
    Utf8Concat(t + [COLON, SPACE], value);
  }

  ghost predicate ValidHeaders(headers: Headers) {
    forall k :: k in headers ==> ValidName(k) && ValidValue(headers[k])
  }

  function Listed(order: seq<seq<Byte>>, headers: Headers): Headers {
    map k | k in order && k in headers :: headers[k]
  }

  /** Parsing the printed headers, in any order, adds exactly the headers printed. */
  lemma {:induction false} PrintedHeaders(order: seq<seq<Byte>>, headers: Headers, more: seq<seq<Byte>>, got: Headers)
    requires ValidHeaders(headers) && forall i :: 0 <= i < |order| ==> order[i] in headers
    ensures ParseHeaders(HeaderLines(order, headers) + more, got) ==
            ParseHeaders(more, got + Listed(order, headers))
    decreases |order|
  {
    hide ParseHeader, HeaderLine, ValidName, ValidValue;
    var lines := HeaderLines(order, headers) + more;
    if order == [] {
      assert lines == more;
      assert got + Listed(order, headers) == got;
    } else {
      var k := order[0];
      PrintedHeader(k, headers[k]);
      assert lines[0] == HeaderLine(k, headers[k]);
      assert lines[1..] == HeaderLines(order[1..], headers) + more;
      PrintedHeaders(order[1..], headers, more, got[k := headers[k]]);
      assert got[k := headers[k]] + Listed(order[1..], headers) == got + Listed(order, headers);
    }
  }

  // ---- The round trip ----

  /** A request whose parts can stand in a head, and whose headers are listed in some order. */
  ghost predicate Printable(req: Request, order: seq<seq<Byte>>) {
    && ValidVerb(req.verb) && ValidPath(req.path) && IsUtf8(req.path)
    && ValidHeaders(req.headers)
    && (forall k :: k in order <==> k in req.headers)
    && |req.body| <= USIZE_MAX
  }

  lemma LengthHeader(n: nat)
    requires n <= USIZE_MAX
    ensures ValidName(CONTENT_LENGTH) && ValidValue(Numeral(n, 10))
  {
    hide Numeral, IsUtf8, IsTrimmed, Trim;
    assert forall i :: 0 <= i < |CONTENT_LENGTH| ==> 45 <= CONTENT_LENGTH[i] <= 122 && !IsUpper(CONTENT_LENGTH[i])
                                                     && CONTENT_LENGTH[i] != COLON;
    AsciiIsUtf8(CONTENT_LENGTH);
    TrimSolid(CONTENT_LENGTH);
    NumeralParses(n, 10);
    NumeralDigits(n, 10);
  }

  lemma HeadIsProper(req: Request, order: seq<seq<Byte>>)
    requires Printable(req, order)
    ensures ProperLines(HeadLines(req, order))
  {
    hide Numeral, HeaderLine, IsUtf8, ValidName, ValidValue;
    PrintedRequestLine(req);
    VerbIsAscii(req);
    LengthHeader(|req.body|);
    PrintedHeader(CONTENT_LENGTH, Numeral(|req.body|, 10));
    forall i | 0 <= i < |order|
      ensures var line := HeaderLine(order[i], req.headers[order[i]]); line != [] && CR !in line && IsUtf8(line)
    {
      PrintedHeader(order[i], req.headers[order[i]]);
    }
  }

  lemma VerbIsAscii(req: Request)
    requires ValidVerb(req.verb) && IsUtf8(req.path)
    ensures IsUtf8(RequestLine(req))
  {
    hide IsUtf8;
    AsciiIsUtf8(req.verb + [SPACE]);
    AsciiIsUtf8([SPACE] + HTTP_1_1);
    Utf8Concat(req.verb + [SPACE], req.path);
    Utf8Concat(req.verb + [SPACE] + req.path, [SPACE] + HTTP_1_1);
    assert RequestLine(req) == req.verb + [SPACE] + req.path + ([SPACE] + HTTP_1_1);
  }

  /** The headers the receiver sees: those of the request, and the length when it is printed. */
  function SeenHeaders(req: Request): Headers {
    if HasTransferEncoding(req.headers) then req.headers
    else req.headers[CONTENT_LENGTH := Numeral(|req.body|, 10)]
  }

  lemma ParsedHeaders(req: Request, order: seq<seq<Byte>>)
    requires Printable(req, order)
    ensures ParseHeaders(HeadLines(req, order)[1..], map[]) == Success(SeenHeaders(req))
  {
    hide Numeral, HeaderLine, IsUtf8, ValidName, ValidValue, ParseHeader, HasTransferEncoding;
    var length := HeaderLine(CONTENT_LENGTH, Numeral(|req.body|, 10));
    var more := if HasTransferEncoding(req.headers) then [] else [length];
    assert HeadLines(req, order)[1..] == HeaderLines(order, req.headers) + more;
    PrintedHeaders(order, req.headers, more, map[]);
    var none: Headers := map[];
    assert none + Listed(order, req.headers) == req.headers;
    if more != [] {
      LengthHeader(|req.body|);
      PrintedHeader(CONTENT_LENGTH, Numeral(|req.body|, 10));
      assert more[1..] == [];
    }
  }

  /** Parsing what was printed yields the request line, the headers, and the body as the headers frame it. */
  lemma ParsePrinted(req: Request, order: seq<seq<Byte>>)
    requires Printable(req, order)
    ensures Parse(Print(req, order)) ==
            match ParseBody(SeenHeaders(req), req.body)
            case Failure(e) => Failure(e)
            case Success(body) => Success(Request(req.verb, req.path, SeenHeaders(req), body))
  {
    hide Parse, ParseBody, SeenHeaders, ParseHeaders, ParseRequestLine, RequestLine, HeaderLines, IsUtf8, SplitLines;
    var lines := HeadLines(req, order);
    HeadIsProper(req, order);
    PrintedHead(lines, req.body);
    HeadSplits(lines);
    PrintedRequestLine(req);
    ParsedHeaders(req, order);
  }

  /** The round trip of a request with a declared length. */
  lemma RequestRoundTrip(req: Request, order: seq<seq<Byte>>)
    requires Printable(req, order) && TRANSFER_ENCODING !in req.headers
    ensures Parse(Print(req, order)) ==
            Success(req.(headers := req.headers[CONTENT_LENGTH := Numeral(|req.body|, 10)]))
  {
    hide Parse, Print, Numeral, ValidValue, IsUtf8, IsTrimmed;
    ParsePrinted(req, order);
    forall k | k in req.headers
      ensures Lower(k) == k
    {
      assert ValidName(k);
    }
    assert SeenHeaders(req) == req.headers[CONTENT_LENGTH := Numeral(|req.body|, 10)];
    assert CONTENT_LENGTH != TRANSFER_ENCODING;
    NumeralParses(|req.body|, 10);
    assert req.body[..|req.body|] == req.body;
  }

  /** The round trip of a chunked request: the receiver gets the payload out of the sender's framing. */
  lemma ChunkedRoundTrip(req: Request, order: seq<seq<Byte>>, payload: seq<Byte>)
    requires Printable(req, order) && req.body == SingleChunk(payload).Text()
    requires TRANSFER_ENCODING in req.headers && Contains(Lower(req.headers[TRANSFER_ENCODING]), CHUNKED)
    ensures Parse(Print(req, order)) == Success(req.(body := payload))
  {
    hide Parse, Print, ValidName, ValidValue, Contains, Decode;
    ParsePrinted(req, order);
    assert Lower(TRANSFER_ENCODING) == TRANSFER_ENCODING;
    PayloadFits(payload);
    SingleChunkValid(payload);
    DecodeBody(SingleChunk(payload), CRLF);
  }

  lemma PayloadFits(payload: seq<Byte>)
    ensures |payload| <= |SingleChunk(payload).Text()|
  {
    if payload != [] {
      var b := SingleChunk(payload);
      assert |b.Head()| == |b.chunks[0].Text()| + |b.Rest().Head()|;
    }
  }

  // ---- What is accepted, and as what ----

  lemma Constants()
    ensures HTTP_1_0 == Octets("HTTP/1.0") && HTTP_1_1 == Octets("HTTP/1.1") && CHUNKED == Octets("chunked")
    ensures CONTENT_LENGTH == Octets("content-length") && TRANSFER_ENCODING == Octets("transfer-encoding")
  {
  }

  predicate IsVerb(verb: seq<Byte>) {
    verb != [] && forall i :: 0 <= i < |verb| ==> 'A' as int <= verb[i] <= 'Z' as int
  }

  predicate IsPath(path: seq<Byte>) {
    path != [] && path[0] == '/' as int && forall i :: 0 <= i < |path| ==> path[i] > 32 && path[i] != 127
  }

  /** A request line: a verb in capitals, a path from the root without white space or control characters, a version. */
  ghost predicate IsRequestLine(line: seq<Byte>, verb: seq<Byte>, path: seq<Byte>) {
    && IsVerb(verb) && IsPath(path)
    && exists version :: version in [Octets("HTTP/1.0"), Octets("HTTP/1.1")]
                         && line == verb + [32] + path + [32] + version
  }

  lemma VerbAndPath(text: seq<Byte>)
    ensures ValidVerb(text) <==> IsVerb(text)
    ensures ValidPath(text) <==> IsPath(text)
    ensures IsVerb(text) || IsPath(text) ==> SPACE !in text
  {
  }

  lemma ThreeWords(line: seq<Byte>)
    requires |SplitWords(line)| == 3
    ensures var w := SplitWords(line); line == w[0] + [SPACE] + w[1] + [SPACE] + w[2]
  {
    hide SplitWords, Before;
    var w := SplitWords(line);
    WordsFirst(line);
    var a := |Before(line, SPACE)|;
    if a < |line| {
      var rest := line[a + 1..];
      WordsFirst(rest);
      assert SplitWords(rest) == w[1..] && w[1] == w[1..][0];
      var b := |Before(rest, SPACE)|;
      if b < |rest| {
        var last := rest[b + 1..];
        WordsFirst(last);
        assert SplitWords(last) == w[1..][1..] && w[2] == w[1..][1..][0] && |SplitWords(last)| == 1;
        BackTogether(w[0], w[1], last);
      }
    }
  }

  lemma BackTogether(a: seq<Byte>, b: seq<Byte>, c: seq<Byte>)
    ensures a + [SPACE] + (b + [SPACE] + c) == a + [SPACE] + b + [SPACE] + c
  {
  }

  lemma WordsFirst(s: seq<Byte>)
    ensures var word := Before(s, SPACE);
            if |word| == |s| then SplitWords(s) == [s]
            else s == word + [SPACE] + s[|word| + 1..] && SplitWords(s) == [word] + SplitWords(s[|word| + 1..])
  {
  }

  /** The request line is read exactly when it is one, and as its verb and path. */
  lemma RequestLineIff(line: seq<Byte>, verb: seq<Byte>, path: seq<Byte>)
    ensures ParseRequestLine(line) == Success((verb, path)) <==> IsRequestLine(line, verb, path)
  {
    Constants();
    VerbAndPath(verb);
    VerbAndPath(path);
    hide SplitWords, Octets, ValidVerb, ValidPath, IsVerb, IsPath;
    if ParseRequestLine(line) == Success((verb, path)) {
      ThreeWords(line);
    }
    if IsRequestLine(line, verb, path) {
      var version :| version in [HTTP_1_0, HTTP_1_1] && line == verb + [32] + path + [32] + version;
      VersionHasNoSpace();
      SplitThree(verb, path, version);
    }
  }

  lemma VersionHasNoSpace()
    ensures SPACE !in HTTP_1_0 && SPACE !in HTTP_1_1
  {
  }

  /** A blank line: two line ends. */
  predicate IsBlankAt(s: seq<Byte>, k: nat) {
    k + 4 <= |s| && s[k] == 13 && s[k + 1] == 10 && s[k + 2] == 13 && s[k + 3] == 10
  }

  /** The head ends at the first blank line. */
  lemma {:induction false} TerminatorIs(s: seq<Byte>)
    ensures forall at: nat :: FindTerminator(s) == Some(at) <==>
                                IsBlankAt(s, at) && forall k: nat :: k < at ==> !IsBlankAt(s, k)
    decreases |s|
  {
    if |s| >= 4 {
      var rest := s[1..];
      TerminatorIs(rest);
      FirstBlank(s);
      forall k: nat | k > 0
        ensures IsBlankAt(s, k) <==> IsBlankAt(rest, k - 1)
      {
      }
      hide IsBlankAt;
      forall at: nat
        ensures FindTerminator(s) == Some(at) <==>
                IsBlankAt(s, at) && forall k: nat :: k < at ==> !IsBlankAt(s, k)
      {
        if at > 0 && !IsBlankAt(s, 0) {
          assert FindTerminator(rest) == Some(at - 1) <==> FindTerminator(s) == Some(at);
          assert (forall k: nat :: k < at ==> !IsBlankAt(s, k)) <==>
                 forall k: nat :: k < at - 1 ==> !IsBlankAt(rest, k) by {
            forall k: nat | k < at - 1
              ensures IsBlankAt(rest, k) <==> IsBlankAt(s, k + 1)
            {
            }
          }
        }
      }
    }
  }

  lemma FirstBlank(s: seq<Byte>)
    requires |s| >= 4
    ensures IsBlankAt(s, 0) <==> s[..4] == CRLF + CRLF
  {
  }

  /** The lines of a head are what is between its line ends, which are in none of them. */
  lemma {:induction false} SplitsIntoLines(s: seq<Byte>)
    ensures Joined(SplitLines(s)) == s && forall line :: line in SplitLines(s) ==> IsOneLine(line)
    decreases |s|
  {
    var at := FindCrlf(s);
    if at.Some? {
      LineFound(s, at.value);
      SplitsIntoLines(s[at.value + 2..]);
      assert SplitLines(s)[1..] == SplitLines(s[at.value + 2..]);
    } else {
      assert IsOneLine(s);
    }
  }

  /** A header is a name before the first colon, in lower case, and a value after it, both trimmed. */
  lemma HeaderIff(line: seq<Byte>)
    ensures ParseHeader(line).None? <==> ':' as int !in line
    ensures forall i :: 0 <= i < |line| && line[i] == ':' as int && ':' as int !in line[..i] ==>
                          ParseHeader(line) == Some((Lower(Trim(line[..i])), Trim(line[i + 1..])))
  {
    hide Trim, Lower;
    forall i | 0 <= i < |line| && line[i] == ':' as int && ':' as int !in line[..i]
      ensures Before(line, COLON) == line[..i]
    {
      assert line == line[..i] + [COLON] + line[i + 1..];
      BeforeFirst(line[..i], COLON, line[i + 1..]);
    }
    hide Before;
    if ':' as int in line {
      assert |Before(line, COLON)| < |line| by {
        assert Before(line, COLON) <= line && COLON !in Before(line, COLON);
      }
    }
  }

  /** The last line of a name that is neither blank nor malformed decides; the rest is what was there before. */
  lemma {:induction false} LastHeaderWins(lines: seq<seq<Byte>>, headers: Headers, k: seq<Byte>)
    ensures ParseHeaders(lines, headers).Success? <==>
            forall i :: 0 <= i < |lines| ==> lines[i] == [] || ParseHeader(lines[i]).Some?
    ensures ParseHeaders(lines, headers).Success? ==>
              var got := ParseHeaders(lines, headers).value;
              && (forall i :: 0 <= i < |lines| && IsLastOf(lines, i, k) ==>
                                k in got && got[k] == ParseHeader(lines[i]).value.1)
              && ((forall i :: 0 <= i < |lines| ==> !Names(lines[i], k)) ==>
                    (k in got <==> k in headers) && (k in got ==> got[k] == headers[k]))
    decreases |lines|
  {
    hide ParseHeader;
    if lines != [] {
      var rest := lines[1..];
      assert forall i :: 0 < i < |lines| ==> lines[i] == rest[i - 1];
      var next := if lines[0] == [] || ParseHeader(lines[0]).None? then headers
                  else headers[ParseHeader(lines[0]).value.0 := ParseHeader(lines[0]).value.1];
      LastHeaderWins(rest, next, k);
      assert forall i :: 0 < i < |lines| && IsLastOf(lines, i, k) ==> IsLastOf(rest, i - 1, k);
    }
  }

  predicate Names(line: seq<Byte>, k: seq<Byte>) {
    line != [] && ParseHeader(line).Some? && ParseHeader(line).value.0 == k
  }

  ghost predicate IsLastOf(lines: seq<seq<Byte>>, i: nat, k: seq<Byte>)
    requires i < |lines|
  {
    Names(lines[i], k) && forall j :: i < j < |lines| ==> !Names(lines[j], k)
  }

  /** How the headers frame the body: a transfer encoding before a length, and nothing without either. */
  lemma BodyIsFramed(headers: Headers, rest: seq<Byte>)
    ensures Octets("transfer-encoding") in headers ==>
              ParseBody(headers, rest) ==
              if forall i :: 0 <= i <= |headers[Octets("transfer-encoding")]| ==>
                               !(Octets("chunked") <= Lower(headers[Octets("transfer-encoding")])[i..])
              then Success([])
              else match Decode(rest) case Failure(e) => Failure(BadChunks(e)) case Success(body) => Success(body)
    ensures Octets("transfer-encoding") !in headers && Octets("content-length") in headers ==>
              ParseBody(headers, rest) ==
              match FromStrRadix(headers[Octets("content-length")], 10)
              case None => Failure(BadContentLength(headers[Octets("content-length")]))
              case Some(n) => if n > |rest| then Failure(ShortBody) else Success(rest[..n])
    ensures Octets("transfer-encoding") !in headers && Octets("content-length") !in headers ==>
              ParseBody(headers, rest) == Success([])
  {
    Constants();
    hide Decode, FromStrRadix, Octets;
  }

  /** Header names are printed with the first letter and those after dashes in capitals. */
  lemma {:induction false} TitleIs(name: seq<Byte>, wordStart: bool)
    ensures forall i :: 0 <= i < |name| ==>
                Title(name, wordStart)[i] ==
                if (if i == 0 then wordStart else name[i - 1] == '-' as int)
                   && 'a' as int <= name[i] <= 'z' as int then name[i] - 32 else name[i]
    decreases |name|
  {
    if name != [] {
      TitleIs(name[1..], name[0] == DASH);
      assert Title(name, wordStart)[1..] == Title(name[1..], name[0] == DASH);
    }
  }

  lemma LowerIs(s: seq<Byte>)
    ensures |Lower(s)| == |s|
    ensures forall i :: 0 <= i < |s| ==> Lower(s)[i] == if 'A' as int <= s[i] <= 'Z' as int then s[i] + 32 else s[i]
  {
  }
}
