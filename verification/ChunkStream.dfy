/** The streaming reader of chunked bodies, which keeps the framing for `Chunked` to decode. */
module ChunkStream {
  import opened Wrappers
  import opened Joining
  import opened ByteSeqs
  import opened Text
  import opened Chunked

  const MAX_BODY: nat := 128 * 1024 * 1024
  const MAX_LINE: nat := 1024

  datatype StreamError =
    | NotUtf8
    | HeaderTooLarge
    | EofBeforeLastChunk
    | MalformedSize(line: seq<Byte>)
    | BodyTooLarge
    | UnexpectedEof

  /** The octets a `read_line` over at most `limit` octets takes: through the first LF, or all of them. */
  function LineAt(s: seq<Byte>, limit: nat): (line: seq<Byte>)
    ensures line <= s && |line| <= limit
    ensures limit > 0 && s != [] ==> line != []
  {
    if s == [] || limit == 0 then []
    else if s[0] == LF then [LF]
    else [s[0]] + LineAt(s[1..], limit - 1)
  }

  /** A buffered connection: the octets not read yet; after them, end of file. */
  class ByteStream {
    var unread: seq<Byte>

    constructor (octets: seq<Byte>)
      ensures unread == octets
    {
      unread := octets;
    }

    method ReadLine(limit: nat) returns (r: Result<seq<Byte>, StreamError>)
      modifies this
      ensures var line := LineAt(old(unread), limit);
              && unread == old(unread)[|line|..]
              && r == (if IsUtf8(line) then Success(line) else Failure(NotUtf8))
    {
      var line := LineAt(unread, limit);
      unread := unread[|line|..];
      r := if IsUtf8(line) then Success(line) else Failure(NotUtf8);
    }

    method ReadExact(n: nat) returns (r: Result<seq<Byte>, StreamError>)
      modifies this
      ensures n <= |old(unread)| ==> r == Success(old(unread)[..n]) && unread == old(unread)[n..]
      ensures n > |old(unread)| ==> r == Failure(UnexpectedEof) && unread == []
    {
      if n <= |unread| {
        r, unread := Success(unread[..n]), unread[n..];
      } else {
        r, unread := Failure(UnexpectedEof), [];
      }
    }
  }

  /** The size announced by a line as it was read, line ending included. */
  function TokenSize(line: seq<Byte>): Option<nat> {
    FromStrRadix(Trim(Before(Trim(line), SEMICOLON)), 16)
  }

  /** The framed body taken from `input` after `kept` octets were kept already, and how much of `input` is left. */
  function ReadFrom(input: seq<Byte>, kept: nat): Result<(seq<Byte>, seq<Byte>), StreamError>
    decreases |input|
  {
    var line := LineAt(input, MAX_LINE + 1);
    var rest := input[|line|..];
    if !IsUtf8(line) then Failure(NotUtf8)
    else if |line| > MAX_LINE then Failure(HeaderTooLarge)
    else if line == [] then Failure(EofBeforeLastChunk)
    else match TokenSize(line)
      case None => Failure(MalformedSize(Trim(line)))
      case Some(size) =>
        if size == 0 then
          var trailer := LineAt(rest, |rest|);
          if !IsUtf8(trailer) then Failure(NotUtf8)
          else Success((line + trailer, rest[|trailer|..]))
        else if kept + |line| + size > MAX_BODY then Failure(BodyTooLarge)
        else if size + 2 > |rest| then Failure(UnexpectedEof)
        else PrependFirst(line + rest[..size + 2], ReadFrom(rest[size + 2..], kept + |line| + size + 2))
  }

  /** One step of the reader, as a relation between what was unread before it and after it. */
  lemma ReadFromChunk(input: seq<Byte>, kept: nat, line: seq<Byte>, data: seq<Byte>, rest: seq<Byte>)
    requires line == LineAt(input, MAX_LINE + 1) && input == line + data + rest
    requires IsUtf8(line) && 0 < |line| <= MAX_LINE && |data| > 2
    requires TokenSize(line) == Some(|data| - 2) && kept + |line| + |data| - 2 <= MAX_BODY
    ensures ReadFrom(input, kept) == PrependFirst(line + data, ReadFrom(rest, kept + |line| + |data|))
  {
    hide IsUtf8, TokenSize, LineAt;
    assert input[|line|..] == data + rest;
    assert (data + rest)[..|data|] == data && (data + rest)[|data|..] == rest;
  }

  // Octets read between two progress reports.
  const RECV_CHUNK: nat := 64 * 1024

  /** One chunk's payload, read slice by slice, and the CR LF after it. */
  method ReadChunkData(reader: ByteStream, size: nat) returns (r: Result<seq<Byte>, StreamError>)
    modifies reader
    ensures size + 2 <= |old(reader.unread)| ==>
              r == Success(old(reader.unread)[..size + 2]) && reader.unread == old(reader.unread)[size + 2..]
    ensures size + 2 > |old(reader.unread)| ==> r == Failure(UnexpectedEof)
  {
    var data: seq<Byte> := [];
    while |data| < size
      invariant |data| <= size && |data| <= |old(reader.unread)|
      invariant data == old(reader.unread)[..|data|] && reader.unread == old(reader.unread)[|data|..]
    {
      var want := if size - |data| < RECV_CHUNK then size - |data| else RECV_CHUNK;
      var slice := reader.ReadExact(want);
      if slice.Failure? {
        return Failure(UnexpectedEof);
      }
      data := data + slice.value;
    }
    var crlf := reader.ReadExact(2);
    if crlf.Failure? {
      return Failure(UnexpectedEof);
    }
    assert data + crlf.value == old(reader.unread)[..size + 2];
    return Success(data + crlf.value);
  }

  method ReadChunkedStream(reader: ByteStream) returns (r: Result<seq<Byte>, StreamError>)
    modifies reader
    ensures match ReadFrom(old(reader.unread), 0)
            case Failure(e) => r == Failure(e)
            case Success((raw, rest)) => r == Success(raw) && reader.unread == rest
  {
    hide IsUtf8, TokenSize, LineAt, ReadFrom;
    var raw: seq<Byte> := [];
    ghost var input := reader.unread;
    PrependFirstNothing(ReadFrom(input, 0));
    while true
      invariant ReadFrom(input, 0) == PrependFirst(raw, ReadFrom(reader.unread, |raw|))
      decreases |reader.unread|
    {
      ghost var before, start := reader.unread, raw;
      ReadFromEnds(before, |start|);
      var read := reader.ReadLine(MAX_LINE + 1);
      if read.Failure? {
        return Failure(read.error);
      }
      var line := read.value;
      if |line| > MAX_LINE {
        return Failure(HeaderTooLarge);
      }
      if line == [] {
        return Failure(EofBeforeLastChunk);
      }
      raw := raw + line;
      var size := TokenSize(line);
      if size.None? {
        return Failure(MalformedSize(Trim(line)));
      }
      if size.value == 0 {
        var trailer := reader.ReadLine(|reader.unread|);
        if trailer.Failure? {
          return Failure(trailer.error);
        }
        Regroup(start, line, trailer.value);
        return Success(raw + trailer.value);
      }
      if size.value + |raw| > MAX_BODY {
        return Failure(BodyTooLarge);
      }
      var data := ReadChunkData(reader, size.value);
      if data.Failure? {
        return Failure(UnexpectedEof);
      }
      raw := raw + data.value;
      Regroup(start, line, data.value);
      assert before == line + data.value + reader.unread;
      ReadFromChunk(before, |start|, line, data.value, reader.unread);
      PrependFirstTwice(start, line + data.value, ReadFrom(reader.unread, |raw|));
    }
  }

  lemma Regroup(a: seq<Byte>, b: seq<Byte>, c: seq<Byte>)
    ensures a + b + c == a + (b + c)
  {
  }

  /** How the reader ends when it does not go on to another chunk. */
  lemma ReadFromEnds(input: seq<Byte>, kept: nat)
    ensures var line := LineAt(input, MAX_LINE + 1);
            var rest := input[|line|..];
            var trailer := LineAt(rest, |rest|);
            if !IsUtf8(line) then ReadFrom(input, kept) == Failure(NotUtf8)
            else if |line| > MAX_LINE then ReadFrom(input, kept) == Failure(HeaderTooLarge)
            else if line == [] then ReadFrom(input, kept) == Failure(EofBeforeLastChunk)
            else if TokenSize(line) == None then ReadFrom(input, kept) == Failure(MalformedSize(Trim(line)))
            else if TokenSize(line) == Some(0) then
              ReadFrom(input, kept) ==
              if IsUtf8(trailer) then Success((line + trailer, rest[|trailer|..])) else Failure(NotUtf8)
            else if kept + |line| + TokenSize(line).value > MAX_BODY then ReadFrom(input, kept) == Failure(BodyTooLarge)
            else TokenSize(line).value + 2 > |rest| ==> ReadFrom(input, kept) == Failure(UnexpectedEof)
  {
    hide TokenSize, LineAt, CharLen;
  }

  // ---- Agreement with the decoder ----

  lemma {:induction false} LineThroughLf(line: seq<Byte>, rest: seq<Byte>, limit: nat)
    requires LF !in line && |line| + 2 <= limit
    ensures LineAt(line + CRLF + rest, limit) == line + CRLF
  {
    if line != [] {
      assert (line + CRLF + rest)[1..] == line[1..] + CRLF + rest;
      LineThroughLf(line[1..], rest, limit - 1);
    } else {
      assert CRLF + rest == [CR, LF] + rest;
      assert (CRLF + rest)[1..] == [LF] + rest;
    }
  }

  lemma {:induction false} LineWithoutLf(s: seq<Byte>, limit: nat)
    requires LF !in s
    ensures |s| <= limit ==> LineAt(s, limit) == s
    ensures |s| > limit ==> |LineAt(s, limit)| == limit
  {
    if s != [] && limit > 0 {
      LineWithoutLf(s[1..], limit - 1);
    }
  }

  lemma TrimLineEnd(d: seq<Byte>)
    requires d != [] && IsSolid(d[0]) && IsSolid(d[|d| - 1])
    ensures Trim(d + CRLF) == d
  {
    hide TrimEnd, TrimStart, IsWideSpace;
    TrimEndKeeps(d, CRLF);
    var t := TrimEnd(d + CRLF);
    SolidStart(d + CRLF);
    assert t[|t| - 1] == (d + CRLF)[|t| - 1];
  }

  lemma TrimBeforeExtension(d: seq<Byte>, ext: seq<Byte>)
    requires d != [] && IsSolid(d[0]) && SEMICOLON !in d
    ensures Before(Trim(d + [SEMICOLON] + ext), SEMICOLON) == d
  {
    hide TrimEnd, TrimStart, IsWideSpace;
    var p := d + [SEMICOLON];
    TrimEndKeeps(p, ext);
    SolidStart(p + ext);
    var t := TrimEnd(p + ext);
    assert t == d + [SEMICOLON] + t[|p|..];
    BeforeFirst(d, SEMICOLON, t[|p|..]);
  }

  /** The reader sees the same size in a line with its line ending as the decoder without. */
  lemma TokenOfLine(l: SizeLine, size: nat)
    requires l.Denotes(size)
    ensures TokenSize(l.Text() + CRLF) == Some(size)
  {
    hide FromStrRadix, Value, IsUtf8, Trim, Before;
    HexDigitBytes(l.digits);
    SizeTokenParses(l, size);
    if l.ext == [] {
      assert l.Text() + CRLF == l.digits + CRLF;
      TrimLineEnd(l.digits);
      BeforeFirst(l.digits, SEMICOLON, []);
    } else {
      assert l.Text() + CRLF == l.digits + [SEMICOLON] + (l.ext[1..] + CRLF);
      TrimBeforeExtension(l.digits, l.ext[1..] + CRLF);
    }
  }

  /** Every size line is within the reader's line limit. */
  ghost predicate ShortLines(b: Body) {
    && (forall i :: 0 <= i < |b.chunks| ==> |b.chunks[i].line.Text()| + 2 <= 1024)
    && |b.last.Text()| + 2 <= 1024
  }

  lemma ReadsLastLine(l: SizeLine, next: seq<Byte>, kept: nat)
    requires l.Denotes(0) && |l.Text()| + 2 <= MAX_LINE
    ensures ReadFrom(l.Text() + CRLF + CRLF + next, kept) == Success((l.Text() + CRLF + CRLF, next))
  {
    hide IsUtf8, LineAt, TokenSize, ReadFrom;
    LineOfBody(l, 0);
    TokenOfLine(l, 0);
    var line := l.Text() + CRLF;
    var input := line + CRLF + next;
    assert input == l.Text() + CRLF + (CRLF + next);
    LineThroughLf(l.Text(), CRLF + next, MAX_LINE + 1);
    assert input[|line|..] == CRLF + next;
    assert [] + CRLF == CRLF;
    LineThroughLf([], next, |CRLF + next|);
    ReadFromEnds(input, kept);
    AsciiIsUtf8(CRLF);
    assert (CRLF + next)[2..] == next;
  }

  /** On a well-formed body the reader takes exactly the body and leaves the next request unread. */
  lemma {:induction false} ReadsExactlyTheBody(b: Body, next: seq<Byte>, kept: nat)
    requires b.Valid() && ShortLines(b) && kept + |b.Text()| <= 134_217_728
    ensures ReadFrom(b.Text() + next, kept) == Success((b.Text(), next))
    decreases |b.chunks|
  {
    hide IsUtf8, LineAt, TokenSize, ReadFrom;
    if b.chunks == [] {
      ReadsLastLine(b.last, next, kept);
    } else {
      var c := b.chunks[0];
      var l, data, tail := c.line.Text() + CRLF, c.data + CRLF, b.Rest().Text();
      LineOfBody(c.line, |c.data|);
      TokenOfLine(c.line, |c.data|);
      TextOfChunk(b);
      Reassociate(l, data, tail, next);
      LineThroughLf(c.line.Text(), data + (tail + next), MAX_LINE + 1);
      ReadFromChunk(b.Text() + next, kept, l, data, tail + next);
      ReadsExactlyTheBody(b.Rest(), next, kept + |l| + |data|);
    }
  }

  lemma TextOfChunk(b: Body)
    requires b.chunks != []
    ensures b.Text() == (b.chunks[0].line.Text() + CRLF) + (b.chunks[0].data + CRLF) + b.Rest().Text()
  {
  }

  lemma Reassociate(a: seq<Byte>, b: seq<Byte>, c: seq<Byte>, d: seq<Byte>)
    ensures a + b + c + d == a + (b + (c + d)) == a + b + (c + d)
  {
  }

  lemma LineOfBody(l: SizeLine, size: nat)
    requires l.Denotes(size)
    ensures LF !in l.Text() && CR !in l.Text() && IsUtf8(l.Text() + CRLF)
  {
    SizeLineBytes(l, size);
    AsciiIsUtf8(CRLF);
    Utf8Concat(l.Text(), CRLF);
  }

  /** Whatever a cut body lets the reader keep is the cut body itself, nothing shorter. */
  lemma {:induction false} ReadsCut(b: Body, n: nat, kept: nat)
    requires b.Valid() && ShortLines(b) && n < |b.Head()|
    ensures ReadFrom(b.Head()[..n], kept).Success? ==> ReadFrom(b.Head()[..n], kept).value == (b.Head()[..n], [])
    decreases |b.chunks|
  {
    hide IsUtf8, LineAt, TokenSize, ReadFrom;
    if b.chunks == [] {
      LineOfBody(b.last, 0);
      CutLine(b.last.Text(), n);
      ReadsUnterminated(b.Head()[..n], kept);
    } else {
      var line, data := b.chunks[0].line.Text(), b.chunks[0].data + CRLF;
      var tail := b.Rest().Head();
      LineOfBody(b.chunks[0].line, |data| - 2);
      assert b.Head() == line + CRLF + (data + tail);
      if n < |line| + 2 {
        assert b.Head()[..n] == (line + CRLF)[..n];
        CutLine(line, n);
        ReadsUnterminated(b.Head()[..n], kept);
      } else {
        PrefixOfConcat(line + CRLF, data + tail, n);
        var after := (data + tail)[..n - |line| - 2];
        TokenOfLine(b.chunks[0].line, |data| - 2);
        if |data| <= |after| {
          PrefixOfConcat(data, tail, |after|);
          ReadsCut(b.Rest(), |after| - |data|, kept + |line + CRLF| + |data|);
        }
        ReadsCutChunk(line, data, after, if |data| <= |after| then tail[..|after| - |data|] else [], kept);
      }
    }
  }

  /** One chunk of a cut body: either the cut is inside the chunk, or the rest is read on. */
  lemma ReadsCutChunk(line: seq<Byte>, data: seq<Byte>, after: seq<Byte>, tail: seq<Byte>, kept: nat)
    requires LF !in line && |line| + 2 <= MAX_LINE && IsUtf8(line + CRLF)
    requires |data| > 2 && TokenSize(line + CRLF) == Some(|data| - 2)
    requires |after| < |data| || after == data + tail
    requires var r := ReadFrom(tail, kept + |line + CRLF| + |data|);
             |after| >= |data| && r.Success? ==> r.value == (tail, [])
    ensures var r := ReadFrom(line + CRLF + after, kept);
            r.Success? ==> r.value == (line + CRLF + after, [])
  {
    hide IsUtf8, LineAt, TokenSize, ReadFrom;
    var l := line + CRLF;
    LineThroughLf(line, after, MAX_LINE + 1);
    assert (l + after)[|l|..] == after;
    if kept + |l| + |data| - 2 > MAX_BODY || |data| > |after| {
      ReadFromEnds(l + after, kept);
    } else {
      assert l + after == l + data + tail;
      ReadFromChunk(l + after, kept, l, data, tail);
    }
  }

  /** Without a line ending the reader can only stop at a zero size, keeping everything. */
  lemma ReadsUnterminated(s: seq<Byte>, kept: nat)
    requires LF !in s
    ensures ReadFrom(s, kept).Success? ==> ReadFrom(s, kept).value == (s, [])
  {
    hide IsUtf8, TokenSize;
    LineWithoutLf(s, MAX_LINE + 1);
    ReadFromEnds(s, kept);
    if |s| <= MAX_LINE {
      assert s[|s|..] == [];
      assert LineAt([], 0) == [];
      assert s + [] == s;
    }
  }

  /** The receive path: the reader keeps the framing, the decoder then removes it. */
  function TwoStage(input: seq<Byte>): Option<seq<Byte>> {
    match ReadFrom(input, 0)
    case Failure(_) => None
    case Success((raw, _)) =>
      match Decode(raw)
      case Failure(_) => None
      case Success(body) => Some(body)
  }

  /** The two stages agree on every well-formed body, and the next request stays unread. */
  lemma StagesAgree(b: Body, next: seq<Byte>)
    requires b.Valid() && ShortLines(b) && |b.Text()| <= 134_217_728
    ensures ReadFrom(b.Text() + next, 0) == Success((b.Text(), next))
    ensures Decode(b.Text()) == Success(b.Payload())
    ensures TwoStage(b.Text() + next) == Some(b.Payload())
  {
    hide ReadFrom, Decode, IsUtf8;
    ReadsExactlyTheBody(b, next, 0);
    DecodeBody(b, CRLF);
  }

  /** A body cut before its last-chunk line is complete is an error of the receive path, never a shorter body. */
  lemma CutIsAnError(b: Body, n: nat)
    requires b.Valid() && ShortLines(b) && n < |b.Head()|
    ensures TwoStage(b.Text()[..n]) == None
  {
    hide ReadFrom, Decode, IsUtf8;
    assert b.Text()[..n] == b.Head()[..n];
    ReadsCut(b, n, 0);
    DecodeCut(b, n);
  }

  // ---- All that is read, and nothing else ----

  /** A line with its ending; only the end of the stream may take the place of one. */
  predicate IsStreamLine(line: seq<Byte>, rest: seq<Byte>) {
    (forall i :: 0 <= i < |line| - 1 ==> line[i] != LF) && (rest != [] ==> line != [] && line[|line| - 1] == LF)
  }

  lemma {:induction false} LineIs(line: seq<Byte>, rest: seq<Byte>, limit: nat)
    requires IsStreamLine(line, rest) && |line| <= limit
    ensures LineAt(line + rest, limit) == line
    decreases |line|
  {
    if line == [] {
      assert line + rest == [];
    } else {
      assert (line + rest)[0] == line[0] && (line + rest)[1..] == line[1..] + rest;
      if line[0] == LF {
        assert line == [LF];
      } else {
        LineIs(line[1..], rest, limit - 1);
      }
    }
  }

  /** A size line as the reader takes it: not empty nor too long, and text. */
  predicate IsSizeLine(line: seq<Byte>, rest: seq<Byte>) {
    IsStreamLine(line, rest) && 1 <= |line| <= 1024 && IsUtf8(line)
  }

  ghost predicate Tells(line: seq<Byte>, size: nat) {
    IsSizeToken(Trim(Before(Trim(line), SEMICOLON)), size)
  }

  lemma TellsIff(line: seq<Byte>, size: nat)
    ensures TokenSize(line) == Some(size) <==> Tells(line, size)
  {
    SizeTokenIff(Trim(Before(Trim(line), SEMICOLON)), size);
    hide FromStrRadix, IsSizeToken;
  }

  /** A size line, and the data it announces with the two octets after it. */
  datatype Part = Part(line: seq<Byte>, data: seq<Byte>) {
    function Text(): seq<Byte> {
      line + data
    }

    /** It can be read after `kept` octets, within the limit of 128 MiB. */
    ghost predicate Fits(kept: nat) {
      && |data| > 2 && IsSizeLine(line, data) && Tells(line, |data| - 2)
      && kept + |line| + |data| - 2 <= 134_217_728
    }
  }

  function PartsText(ps: seq<Part>): seq<Byte> {
    if ps == [] then [] else ps[0].Text() + PartsText(ps[1..])
  }

  ghost predicate AllFit(ps: seq<Part>, kept: nat) {
    ps == [] || (ps[0].Fits(kept) && AllFit(ps[1..], kept + |ps[0].Text()|))
  }

  lemma LineBefore(line: seq<Byte>, data: seq<Byte>, rest: seq<Byte>)
    requires IsSizeLine(line, data) && data != []
    ensures LineAt(line + data + rest, 1025) == line
  {
    hide IsUtf8, LineAt;
    LineIs(line, data + rest, 1025);
    assert line + data + rest == line + (data + rest);
  }

  /** Parts in front are kept, and the rest decides. */
  lemma {:induction false} ReadParts(ps: seq<Part>, rest: seq<Byte>, kept: nat)
    requires AllFit(ps, kept)
    ensures ReadFrom(PartsText(ps) + rest, kept) ==
            PrependFirst(PartsText(ps), ReadFrom(rest, kept + |PartsText(ps)|))
    decreases |ps|
  {
    hide ReadFrom, LineAt, IsUtf8, Tells, TokenSize;
    if ps == [] {
      assert [] + rest == rest;
      PrependFirstNothing(ReadFrom(rest, kept));
    } else {
      var p, more := ps[0], PartsText(ps[1..]) + rest;
      ReadParts(ps[1..], rest, kept + |p.Text()|);
      LineBefore(p.line, p.data, more);
      TellsIff(p.line, |p.data| - 2);
      assert PartsText(ps) + rest == p.line + p.data + more;
      ReadFromChunk(p.line + p.data + more, kept, p.line, p.data, more);
      PrependFirstTwice(p.Text(), PartsText(ps[1..]), ReadFrom(rest, kept + |PartsText(ps)|));
    }
  }

  /** After any parts, a size line that tells no size is an error, whatever follows: never the last chunk. */
  lemma BadSizeFails(ps: seq<Part>, line: seq<Byte>, rest: seq<Byte>)
    requires AllFit(ps, 0) && IsSizeLine(line, rest) && forall size: nat :: !Tells(line, size)
    ensures ReadFrom(PartsText(ps) + (line + rest), 0) == Failure(MalformedSize(Trim(line)))
  {
    hide ReadFrom, LineAt, IsUtf8, Tells, TokenSize, Trim;
    ReadParts(ps, line + rest, 0);
    LineIs(line, rest, 1025);
    if TokenSize(line).Some? {
      TellsIff(line, TokenSize(line).value);
    }
    ReadFromEnds(line + rest, |PartsText(ps)|);
  }

  /** What is kept: parts within the limit, a size line that tells zero, and one line after it. */
  ghost predicate IsKept(ps: seq<Part>, last: seq<Byte>, trailer: seq<Byte>, rest: seq<Byte>, kept: nat) {
    && AllFit(ps, kept) && IsSizeLine(last, trailer + rest) && Tells(last, 0)
    && IsStreamLine(trailer, rest) && IsUtf8(trailer)
  }

  lemma ReadLast(last: seq<Byte>, trailer: seq<Byte>, rest: seq<Byte>, kept: nat)
    requires IsSizeLine(last, trailer + rest) && Tells(last, 0) && IsStreamLine(trailer, rest) && IsUtf8(trailer)
    ensures ReadFrom(last + (trailer + rest), kept) == Success((last + trailer, rest))
  {
    hide LineAt, IsUtf8, Tells, TokenSize, ReadFrom;
    LineIs(last, trailer + rest, 1025);
    TellsIff(last, 0);
    LineIs(trailer, rest, |trailer + rest|);
    var input := last + (trailer + rest);
    assert input[|last|..] == trailer + rest && (trailer + rest)[|trailer|..] == rest;
    ReadFromEnds(input, kept);
  }

  lemma {:induction false} LineEnds(s: seq<Byte>, limit: nat)
    ensures var line := LineAt(s, limit);
            && (forall i :: 0 <= i < |line| - 1 ==> line[i] != LF)
            && (|line| == limit || |line| == |s| || (line != [] && line[|line| - 1] == LF))
    decreases |s|
  {
    if s != [] && limit > 0 && s[0] != LF {
      LineEnds(s[1..], limit - 1);
    }
  }

  lemma FirstLine(input: seq<Byte>, limit: nat)
    requires limit > 0
    ensures var line := LineAt(input, limit); var rest := input[|line|..];
            input == line + rest && (|line| < limit || |line| == |input| ==> IsStreamLine(line, rest))
  {
    LineEnds(input, limit);
    hide LineAt;
  }

  /** What is read begins with a size line that tells the end, or a part and something that is read. */
  lemma ReadFirst(input: seq<Byte>, kept: nat) returns (line: seq<Byte>, data: seq<Byte>, rest: seq<Byte>)
    requires ReadFrom(input, kept).Success?
    ensures input == line + (data + rest) && IsSizeLine(line, data + rest)
    ensures Tells(line, 0) ==>
              IsStreamLine(data, rest) && IsUtf8(data) && ReadFrom(input, kept).value == (line + data, rest)
    ensures !Tells(line, 0) ==> Part(line, data).Fits(kept)
    ensures !Tells(line, 0) ==> ReadFrom(rest, kept + |line| + |data|).Success?
    ensures !Tells(line, 0) ==>
              ReadFrom(input, kept) == PrependFirst(line + data, ReadFrom(rest, kept + |line| + |data|))
  {
    hide LineAt, IsUtf8, Tells, TokenSize, ReadFrom;
    ReadFromEnds(input, kept);
    FirstLine(input, MAX_LINE + 1);
    line := LineAt(input, MAX_LINE + 1);
    var after := input[|line|..];
    var size := TokenSize(line).value;
    TellsIff(line, size);
    TellsIff(line, 0);
    if size == 0 {
      data := LineAt(after, |after|);
      rest := after[|data|..];
      if after == [] {
        assert data == [] && rest == [];
      } else {
        FirstLine(after, |after|);
      }
    } else {
      data, rest := after[..size + 2], after[size + 2..];
      assert after == data + rest && input == line + data + rest;
      ReadFromChunk(input, kept, line, data, rest);
      SizeLineBefore(line, data, rest);
    }
  }

  lemma SizeLineBefore(line: seq<Byte>, data: seq<Byte>, rest: seq<Byte>)
    requires IsSizeLine(line, data + rest) && data != []
    ensures IsSizeLine(line, data)
  {
    hide IsUtf8;
    assert data + rest != [];
  }

  lemma {:induction false} ReadBack(input: seq<Byte>, kept: nat)
    returns (ps: seq<Part>, last: seq<Byte>, trailer: seq<Byte>, rest: seq<Byte>)
    requires ReadFrom(input, kept).Success?
    ensures IsKept(ps, last, trailer, rest, kept) && input == PartsText(ps) + (last + (trailer + rest))
    ensures ReadFrom(input, kept).value == (PartsText(ps) + (last + trailer), rest)
    decreases |input|
  {
    hide ReadFrom, IsSizeLine, IsStreamLine, IsUtf8, Tells;
    var line, data, after := ReadFirst(input, kept);
    if Tells(line, 0) {
      ps, last, trailer, rest := [], line, data, after;
      assert [] + (last + trailer) == last + trailer && [] + input == input;
    } else {
      var more, p := [], Part(line, data);
      more, last, trailer, rest := ReadBack(after, kept + |line| + |data|);
      ps := [p] + more;
      assert ps[1..] == more && PartsText(ps) == p.Text() + PartsText(more);
      assert input == p.Text() + (PartsText(more) + (last + (trailer + rest)));
      assert p.Text() + (PartsText(more) + (last + trailer)) == PartsText(ps) + (last + trailer);
    }
  }

  ghost predicate IsBody(input: seq<Byte>, ps: seq<Part>, last: seq<Byte>, trailer: seq<Byte>, rest: seq<Byte>) {
    IsKept(ps, last, trailer, rest, 0) && input == PartsText(ps) + (last + (trailer + rest))
  }

  lemma BodyIsRead(input: seq<Byte>, ps: seq<Part>, last: seq<Byte>, trailer: seq<Byte>, rest: seq<Byte>)
    requires IsBody(input, ps, last, trailer, rest)
    ensures ReadFrom(input, 0) == Success((PartsText(ps) + (last + trailer), rest))
  {
    hide ReadFrom, PartsText, AllFit, IsSizeLine, IsStreamLine, Tells, IsUtf8;
    ReadParts(ps, last + (trailer + rest), 0);
    ReadLast(last, trailer, rest, |PartsText(ps)|);
  }

  lemma KeptAndLeft(parts: seq<Byte>, last: seq<Byte>, trailer: seq<Byte>, rest: seq<Byte>)
    ensures parts + (last + (trailer + rest)) == parts + (last + trailer) + rest
  {
  }

  /**
   * The reader succeeds exactly on what is such parts, a last size line and one more line; it keeps every octet of
   * these and leaves every octet after them.
   */
  lemma ReadIff(input: seq<Byte>)
    ensures ReadFrom(input, 0).Success? <==> exists ps, last, trailer, rest :: IsBody(input, ps, last, trailer, rest)
    ensures ReadFrom(input, 0).Success? ==> input == ReadFrom(input, 0).value.0 + ReadFrom(input, 0).value.1
  {
    hide ReadFrom, PartsText, IsKept;
    if ReadFrom(input, 0).Success? {
      var ps, last, trailer, rest := ReadBack(input, 0);
      assert IsBody(input, ps, last, trailer, rest);
      KeptAndLeft(PartsText(ps), last, trailer, rest);
    }
    hide IsBody;
    if exists ps, last, trailer, rest :: IsBody(input, ps, last, trailer, rest) {
      var ps, last, trailer, rest :| IsBody(input, ps, last, trailer, rest);
      BodyIsRead(input, ps, last, trailer, rest);
    }
  }
}
