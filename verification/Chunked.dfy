/** The HTTP/1.1 chunked body (section 4.1 of RFC 7230): its grammar, its decoder, its framer. */
module Chunked {
  import opened Wrappers
  import opened Joining
  import opened ByteSeqs
  import opened Text

  const SEMICOLON: Byte := 59

  datatype ChunkedError =
    | InvalidSizeLine(line: seq<Byte>)
    | Truncated(needed: nat)
    | MissingCrlf

  // ---- The decoder ----

  /** The size a line announces, once the chunk extension is cut off. */
  function LineSize(line: seq<Byte>): Option<nat> {
    if IsUtf8(line) then FromStrRadix(Trim(Before(line, SEMICOLON)), 16) else None
  }

  /** What decoding `input` yields; the bytes after the last-chunk line are never looked at. */
  function Decode(input: seq<Byte>): Result<seq<Byte>, ChunkedError>
    decreases |input|, 1
  {
    match FindCrlf(input)
    case None => Failure(MissingCrlf)
    case Some(at) =>
      match LineSize(input[..at])
      case None => Failure(InvalidSizeLine(input[..at]))
      case Some(size) => DecodeData(size, input[at + 2..])
  }

  /** The rest of the decoding once a size line has announced `size` octets. */
  function DecodeData(size: nat, rest: seq<Byte>): Result<seq<Byte>, ChunkedError>
    decreases |rest|, 2
  {
    if size == 0 then Success([])
    else if size > |rest| then Failure(Truncated(size - |rest|))
    else if size + 2 > |rest| || rest[size..size + 2] != CRLF then Failure(MissingCrlf)
    else Prepend(rest[..size], Decode(rest[size + 2..]))
  }

  /** One step of the decoder at cursor `pos`, in the cursor's terms. */
  lemma DecodeAt(input: seq<Byte>, pos: nat, at: nat)
    requires pos <= |input| && FindCrlf(input[pos..]) == Some(at)
    ensures var start := pos + at + 2;
            Decode(input[pos..]) ==
            match LineSize(input[pos..pos + at])
            case None => Failure(InvalidSizeLine(input[pos..pos + at]))
            case Some(size) => DecodeData(size, input[start..])
  {
    hide LineSize, FindCrlf, DecodeData;
    SliceFrom(input, pos, 0, at);
    SliceFrom(input, pos, at + 2, at + 2);
    assert input[pos..][0..at] == input[pos..][..at];
  }

  method DecodeChunked(input: seq<Byte>) returns (r: Result<seq<Byte>, ChunkedError>)
    ensures r == Decode(input)
  {
    hide LineSize, FindCrlf, Decode;
    var out: seq<Byte> := [];
    var pos := 0;
    assert input[0..] == input;
    PrependNothing(Decode(input));
    while true
      invariant pos <= |input|
      invariant Decode(input) == Prepend(out, Decode(input[pos..]))
      decreases |input| - pos
    {
      var found := FindCrlf(input[pos..]);
      if found.None? {
        DecodeNoLine(input[pos..]);
        return Failure(MissingCrlf);
      }
      DecodeAt(input, pos, found.value);
      var line := input[pos..pos + found.value];
      pos := pos + found.value + 2;
      var size := LineSize(line);
      if size.None? {
        return Failure(InvalidSizeLine(line));
      }
      if size.value == 0 {
        assert out + [] == out;
        return Success(out);
      }
      if size.value > |input| - pos {
        return Failure(Truncated(size.value - (|input| - pos)));
      }
      var end := pos + size.value;
      if end + 2 > |input| {
        return Failure(MissingCrlf);
      }
      SliceFrom(input, pos, size.value, size.value + 2);
      if input[end..end + 2] != CRLF {
        return Failure(MissingCrlf);
      }
      CutAround(input, pos, end, end + 2);
      DecodeDataStep(input[pos..end], input[end + 2..]);
      PrependTwice(out, input[pos..end], Decode(input[end + 2..]));
      out := out + input[pos..end];
      pos := end + 2;
    }
  }

  lemma DecodeNoLine(input: seq<Byte>)
    requires FindCrlf(input) == None
    ensures Decode(input) == Failure(MissingCrlf)
  {
  }

  lemma DecodeDataStep(data: seq<Byte>, rest: seq<Byte>)
    requires data != []
    ensures DecodeData(|data|, data + CRLF + rest) == Prepend(data, Decode(rest))
  {
    var s := data + CRLF + rest;
    assert s[..|data|] == data && s[|data|..|data| + 2] == CRLF && s[|data| + 2..] == rest;
  }

  lemma DecodeLineStep(line: seq<Byte>, size: nat, rest: seq<Byte>)
    requires CR !in line && LineSize(line) == Some(size)
    ensures Decode(line + CRLF + rest) == DecodeData(size, rest)
  {
    var s := line + CRLF + rest;
    FindCrlfAt(line, rest);
    assert s[..|line|] == line && s[|line| + 2..] == rest;
  }

  // ---- The grammar ----

  /** `1*HEXDIG [ chunk-ext ]`, any spelling of the size and any extension. */
  datatype SizeLine = SizeLine(digits: seq<Byte>, ext: seq<Byte>) {
    function Text(): seq<Byte> {
      digits + ext
    }

    ghost predicate Denotes(size: nat) {
      && digits != [] && AreDigits(digits, 16) && Value(digits, 16) == size <= 0xffff_ffff_ffff_ffff
      && (ext != [] ==> ext[0] == SEMICOLON)
      && CR !in ext && LF !in ext && IsUtf8(ext)
    }
  }

  datatype Chunk = Chunk(line: SizeLine, data: seq<Byte>) {
    function Text(): seq<Byte> {
      line.Text() + CRLF + data + CRLF
    }
  }

  /** A chunked body without trailer fields. */
  datatype Body = Body(chunks: seq<Chunk>, last: SizeLine) {
    ghost predicate Valid() {
      && (forall i :: 0 <= i < |chunks| ==> chunks[i].data != [] && chunks[i].line.Denotes(|chunks[i].data|))
      && last.Denotes(0)
    }

    /** The octets through the last-chunk line. */
    function Head(): seq<Byte>
      decreases |chunks|
    {
      if chunks == [] then last.Text() + CRLF
      else chunks[0].Text() + Body(chunks[1..], last).Head()
    }

    function Text(): seq<Byte> {
      Head() + CRLF
    }

    function Payload(): seq<Byte>
      decreases |chunks|
    {
      if chunks == [] then [] else chunks[0].data + Body(chunks[1..], last).Payload()
    }

    function Rest(): Body
      requires chunks != []
    {
      Body(chunks[1..], last)
    }
  }

  lemma HexDigitBytes(digits: seq<Byte>)
    requires AreDigits(digits, 16)
    ensures forall i :: 0 <= i < |digits| ==> IsSolid(digits[i]) && digits[i] != SEMICOLON && digits[i] != 43
    ensures IsUtf8(digits)
  {
    forall i | 0 <= i < |digits|
      ensures IsSolid(digits[i]) && digits[i] != SEMICOLON && digits[i] != 43
    {
      assert DigitValue(digits[i]) < 16;
    }
    AsciiIsUtf8(digits);
  }

  lemma SizeLineBytes(l: SizeLine, size: nat)
    requires l.Denotes(size)
    ensures CR !in l.Text() && LF !in l.Text() && IsUtf8(l.Text())
  {
    HexDigitBytes(l.digits);
    Utf8Concat(l.digits, l.ext);
  }

  /** A token made of the size's digits is read as the size. */
  lemma SizeTokenParses(l: SizeLine, size: nat)
    requires l.Denotes(size)
    ensures FromStrRadix(Trim(l.digits), 16) == Some(size)
  {
    HexDigitBytes(l.digits);
    TrimSolid(l.digits);
    DigitsParse(l.digits, 16, size);
  }

  lemma SizeLineParses(l: SizeLine, size: nat)
    requires l.Denotes(size)
    ensures LineSize(l.Text()) == Some(size)
  {
    assert IsUtf8(l.Text()) by {
      SizeLineBytes(l, size);
    }
    assert Before(l.Text(), SEMICOLON) == l.digits by {
      HexDigitBytes(l.digits);
      if l.ext != [] {
        assert l.Text() == l.digits + [SEMICOLON] + l.ext[1..];
        BeforeFirst(l.digits, SEMICOLON, l.ext[1..]);
      } else {
        assert l.Text() == l.digits;
        BeforeFirst(l.digits, SEMICOLON, []);
      }
    }
    SizeTokenParses(l, size);
  }

  /** Decoding a well-formed body, whatever follows its last-chunk line, gives the chunks' data. */
  lemma {:induction false} DecodeBody(b: Body, rest: seq<Byte>)
    requires b.Valid()
    ensures Decode(b.Head() + rest) == Success(b.Payload())
    decreases |b.chunks|
  {
    if b.chunks == [] {
      SizeLineBytes(b.last, 0);
      SizeLineParses(b.last, 0);
      DecodeLineStep(b.last.Text(), 0, rest);
    } else {
      var c := b.chunks[0];
      var after := b.Rest().Head() + rest;
      assert b.Head() + rest == c.line.Text() + CRLF + (c.data + CRLF + after);
      DecodeBody(b.Rest(), rest);
      SizeLineBytes(c.line, |c.data|);
      SizeLineParses(c.line, |c.data|);
      DecodeLineStep(c.line.Text(), |c.data|, c.data + CRLF + after);
      DecodeDataStep(c.data, after);
    }
  }

  /** A body cut anywhere before its last-chunk line is complete never decodes, not even to a shorter body. */
  lemma {:induction false} DecodeCut(b: Body, n: nat)
    requires b.Valid() && n < |b.Head()|
    ensures Decode(b.Head()[..n]).Failure?
    decreases |b.chunks|
  {
    hide LineSize, Decode, FindCrlf, IsUtf8, Value;
    if b.chunks == [] {
      SizeLineBytes(b.last, 0);
      CutLine(b.last.Text(), n);
      FindCrlfNone(b.Head()[..n]);
      DecodeNoLine(b.Head()[..n]);
    } else {
      var c := b.chunks[0];
      var line, size := c.line.Text(), |c.data|;
      var k := |line| + 2;
      var after := c.data + CRLF + b.Rest().Head();
      assert b.Head() == line + CRLF + after;
      SizeLineBytes(c.line, size);
      if n < k {
        CutLine(line, n);
        assert b.Head()[..n] == (line + CRLF)[..n];
        FindCrlfNone(b.Head()[..n]);
        DecodeNoLine(b.Head()[..n]);
      } else {
        SizeLineParses(c.line, size);
        PrefixOfConcat(line + CRLF, after, n);
        DecodeLineStep(line, size, after[..n - k]);
        if size + 2 <= n - k {
          var m := n - k - size - 2;
          PrefixOfConcat(c.data + CRLF, b.Rest().Head(), n - k);
          DecodeDataStep(c.data, b.Rest().Head()[..m]);
          DecodeCut(b.Rest(), m);
        }
      }
    }
  }

  lemma CutLine(line: seq<Byte>, n: nat)
    requires LF !in line && n < |line| + 2
    ensures LF !in (line + CRLF)[..n]
  {
  }

  // ---- The framer of the sender ----

  /** The body `chunk_frame` writes: one chunk, or none for an empty payload. */
  function SingleChunk(body: seq<Byte>): Body {
    var zero := SizeLine([48], []);
    if body == [] then Body([], zero)
    else Body([Chunk(SizeLine(Numeral(|body|, 16), []), body)], zero)
  }

  method ChunkFrame(body: seq<Byte>) returns (out: seq<Byte>)
    ensures out == SingleChunk(body).Text()
  {
    out := [];
    if body != [] {
      out := out + (Numeral(|body|, 16) + CRLF);
      out := out + body;
      out := out + CRLF;
    }
    ghost var framed := out;
    out := out + [48, 13, 10, 13, 10];
    var b := SingleChunk(body);
    assert out == framed + ([48] + [] + CRLF) + CRLF;
    if body != [] {
      assert b.Rest().Head() == [48] + [] + CRLF;
      assert Numeral(|body|, 16) + [] == Numeral(|body|, 16);
      assert b.Head() == framed + b.Rest().Head();
    }
  }

  lemma SingleChunkValid(body: seq<Byte>)
    requires |body| <= USIZE_MAX
    ensures SingleChunk(body).Valid()
    ensures SingleChunk(body).Payload() == body
  {
    hide Value, Numeral, IsUtf8;
    var b := SingleChunk(body);
    NumeralDenotes(0);
    if body != [] {
      NumeralDenotes(|body|);
      assert b.Rest().Payload() == [];
      assert body + [] == body;
    }
  }

  lemma NumeralDenotes(size: nat)
    requires size <= USIZE_MAX
    ensures SizeLine(Numeral(size, 16), []).Denotes(size)
    ensures Numeral(0, 16) == [48]
  {
    NumeralDigits(size, 16);
    NumeralValue(size, 16);
  }

  // ---- All that is decoded, and nothing else ----

  predicate IsHexDigit(b: Byte) {
    '0' as int <= b <= '9' as int || 'a' as int <= b <= 'f' as int || 'A' as int <= b <= 'F' as int
  }

  predicate AreHexDigits(digits: seq<Byte>) {
    forall i :: 0 <= i < |digits| ==> IsHexDigit(digits[i])
  }

  /** What a size token is: hexadecimal digits, perhaps behind a plus sign, of a number that fits 64 bits. */
  ghost predicate IsSizeToken(token: seq<Byte>, size: nat) {
    var digits := if token != [] && token[0] == '+' as int then token[1..] else token;
    && digits != [] && AreHexDigits(digits)
    && Value(digits, 16) == size <= 0xffff_ffff_ffff_ffff
  }

  lemma SizeTokenIff(token: seq<Byte>, size: nat)
    ensures FromStrRadix(token, 16) == Some(size) <==> IsSizeToken(token, size)
  {
    ParsesIff(token, 16, size);
    HexDigitsIff(if token != [] && token[0] == '+' as int then token[1..] else token);
    hide FromStrRadix, AreDigits, AreHexDigits;
  }

  lemma HexDigitsIff(digits: seq<Byte>)
    ensures AreDigits(digits, 16) <==> AreHexDigits(digits)
  {
    forall i | 0 <= i < |digits|
      ensures DigitValue(digits[i]) < 16 <==> IsHexDigit(digits[i])
    {
    }
    hide DigitValue, IsHexDigit;
  }

  /** No CR LF pair inside. */
  predicate IsOneLine(line: seq<Byte>) {
    forall k :: 0 <= k < |line| - 1 ==> line[k] != CR || line[k + 1] != LF
  }

  /** A size line as the decoder reads it: text, with a size token in white space before any extension. */
  ghost predicate Announces(line: seq<Byte>, size: nat) {
    IsOneLine(line) && IsUtf8(line) && IsSizeToken(Trim(Before(line, SEMICOLON)), size)
  }

  /** A chunk as the decoder reads it, whatever its size line looks like. */
  datatype Piece = Piece(line: seq<Byte>, data: seq<Byte>) {
    function Text(): seq<Byte> {
      line + CRLF + data + CRLF
    }

    ghost predicate Valid() {
      data != [] && Announces(line, |data|)
    }
  }

  function Texts(ps: seq<Piece>): seq<Byte> {
    if ps == [] then [] else ps[0].Text() + Texts(ps[1..])
  }

  function Datas(ps: seq<Piece>): seq<Byte> {
    if ps == [] then [] else ps[0].data + Datas(ps[1..])
  }

  ghost predicate AllValid(ps: seq<Piece>) {
    forall i :: 0 <= i < |ps| ==> ps[i].Valid()
  }

  lemma LineOfPiece(line: seq<Byte>, rest: seq<Byte>)
    requires IsOneLine(line)
    ensures FindCrlf(line + CRLF + rest) == Some(|line|)
  {
    var s := line + CRLF + rest;
    assert s[|line|] == CR && s[|line| + 1] == LF;
    assert forall k :: 0 <= k < |line| ==> s[k] == line[k];
    assert forall k :: 0 <= k < |line| ==> s[k] != CR || s[k + 1] != LF;
  }

  lemma LineFound(s: seq<Byte>, at: nat)
    requires FindCrlf(s) == Some(at)
    ensures IsOneLine(s[..at]) && s == s[..at] + CRLF + s[at + 2..]
  {
  }

  lemma LineSizeIff(line: seq<Byte>, size: nat)
    requires IsOneLine(line)
    ensures LineSize(line) == Some(size) <==> Announces(line, size)
  {
    hide FromStrRadix, IsUtf8, IsSizeToken;
    SizeTokenIff(Trim(Before(line, SEMICOLON)), size);
  }

  /** One line and what is after it. */
  lemma DecodeLine(line: seq<Byte>, rest: seq<Byte>)
    requires IsOneLine(line)
    ensures Decode(line + CRLF + rest) ==
            match LineSize(line)
            case None => Failure(InvalidSizeLine(line))
            case Some(size) => DecodeData(size, rest)
  {
    hide LineSize, DecodeData, FindCrlf;
    LineOfPiece(line, rest);
    var s := line + CRLF + rest;
    assert s[..|line|] == line && s[|line| + 2..] == rest;
  }

  /** Chunks in front give their data, and the rest decides. */
  lemma {:induction false} DecodePieces(ps: seq<Piece>, rest: seq<Byte>)
    requires AllValid(ps)
    ensures Decode(Texts(ps) + rest) == Prepend(Datas(ps), Decode(rest))
    decreases |ps|
  {
    hide Decode, LineSize, Announces;
    if ps == [] {
      assert [] + rest == rest;
      PrependNothing(Decode(rest));
    } else {
      var p, more := ps[0], Texts(ps[1..]) + rest;
      DecodePieces(ps[1..], rest);
      assert p.Valid();
      AnnouncesOneLine(p.line, |p.data|);
      LineSizeIff(p.line, |p.data|);
      assert Texts(ps) + rest == p.line + CRLF + (p.data + CRLF + more);
      DecodeLine(p.line, p.data + CRLF + more);
      DecodeDataStep(p.data, more);
      PrependTwice(p.data, Datas(ps[1..]), Decode(rest));
    }
  }

  lemma AnnouncesOneLine(line: seq<Byte>, size: nat)
    requires Announces(line, size)
    ensures IsOneLine(line)
  {
  }

  /** After any chunks, a line that announces no size is an error, whatever follows: never the last chunk. */
  lemma BadLineFails(ps: seq<Piece>, line: seq<Byte>, rest: seq<Byte>)
    requires AllValid(ps) && IsOneLine(line) && forall size: nat :: !Announces(line, size)
    ensures Decode(Texts(ps) + (line + CRLF + rest)) == Failure(InvalidSizeLine(line))
  {
    DecodePieces(ps, line + CRLF + rest);
    DecodeLine(line, rest);
    hide Decode, Announces;
    if LineSize(line).Some? {
      LineSizeIff(line, LineSize(line).value);
    }
    hide LineSize;
  }

  lemma DecodeDataFails(size: nat, rest: seq<Byte>)
    requires size > 0
    ensures size > |rest| ==> DecodeData(size, rest) == Failure(Truncated(size - |rest|))
    ensures size <= |rest| && !(size + 2 <= |rest| && rest[size] == CR && rest[size + 1] == LF) ==>
              DecodeData(size, rest) == Failure(MissingCrlf)
  {
    hide Decode;
    if size + 2 <= |rest| {
      var two := rest[size..size + 2];
      assert two[0] == rest[size] && two[1] == rest[size + 1];
    }
  }

  /** A chunk that is cut, or not closed at once after its data, is an error. */
  lemma BadDataFails(ps: seq<Piece>, line: seq<Byte>, size: nat, rest: seq<Byte>)
    requires AllValid(ps) && Announces(line, size) && size > 0
    ensures size > |rest| ==> Decode(Texts(ps) + (line + CRLF + rest)) == Failure(Truncated(size - |rest|))
    ensures size <= |rest| && !(size + 2 <= |rest| && rest[size] == CR && rest[size + 1] == LF) ==>
              Decode(Texts(ps) + (line + CRLF + rest)) == Failure(MissingCrlf)
  {
    hide Decode, DecodeData, LineSize, Announces, Texts, Datas, AllValid;
    AnnouncesOneLine(line, size);
    DecodePieces(ps, line + CRLF + rest);
    DecodeLine(line, rest);
    LineSizeIff(line, size);
    DecodeDataFails(size, rest);
  }

  ghost predicate IsDecoded(input: seq<Byte>, ps: seq<Piece>, last: seq<Byte>, rest: seq<Byte>) {
    AllValid(ps) && Announces(last, 0) && input == Texts(ps) + (last + CRLF + rest)
  }

  lemma DataDecodes(size: nat, rest: seq<Byte>)
    requires DecodeData(size, rest).Success? && size > 0
    ensures size + 2 <= |rest| && rest == rest[..size] + CRLF + rest[size + 2..] && Decode(rest[size + 2..]).Success?
  {
    hide Decode;
  }

  /** What decodes begins with a line that announces the last chunk, or a chunk and something that decodes. */
  lemma DecodedFirst(input: seq<Byte>) returns (line: seq<Byte>, data: seq<Byte>, next: seq<Byte>)
    requires Decode(input).Success?
    ensures Announces(line, |data|)
    ensures data == [] ==> input == line + CRLF + next
    ensures data != [] ==> input == line + CRLF + (data + CRLF + next) && Decode(next).Success?
  {
    hide LineSize, Announces, Decode, DecodeData, FindCrlf;
    if FindCrlf(input).None? {
      DecodeNoLine(input);
    }
    var at := FindCrlf(input).value;
    var after := input[at + 2..];
    line := input[..at];
    LineFound(input, at);
    DecodeLine(line, after);
    var size := LineSize(line).value;
    LineSizeIff(line, size);
    if size == 0 {
      data, next := [], after;
    } else {
      DataDecodes(size, after);
      data, next := after[..size], after[size + 2..];
    }
  }

  lemma {:induction false} DecodedParts(input: seq<Byte>) returns (ps: seq<Piece>, last: seq<Byte>, rest: seq<Byte>)
    requires Decode(input).Success?
    ensures IsDecoded(input, ps, last, rest)
    decreases |input|
  {
    hide Decode, Announces;
    var line, data, next := DecodedFirst(input);
    if data == [] {
      ps, last, rest := [], line, next;
      assert input == [] + (last + CRLF + rest);
    } else {
      var more;
      more, last, rest := DecodedParts(next);
      var p := Piece(line, data);
      ps := [p] + more;
      assert ps[1..] == more && p.Valid();
      assert input == p.Text() + (Texts(more) + (last + CRLF + rest));
    }
  }

  /** What decodes is exactly what is chunks up to a line that announces zero, and it decodes to their data. */
  lemma DecodeIff(input: seq<Byte>)
    ensures Decode(input).Success? <==> exists ps, last, rest :: IsDecoded(input, ps, last, rest)
    ensures forall ps, last, rest :: IsDecoded(input, ps, last, rest) ==> Decode(input) == Success(Datas(ps))
  {
    if Decode(input).Success? {
      var ps, last, rest := DecodedParts(input);
    }
    forall ps, last, rest | IsDecoded(input, ps, last, rest)
      ensures Decode(input) == Success(Datas(ps))
    {
      DecodePieces(ps, last + CRLF + rest);
      DecodeLine(last, rest);
      LineSizeIff(last, 0);
      hide Decode, LineSize, Announces;
      assert Datas(ps) + [] == Datas(ps);
    }
  }
}
