/** An upload from the sender's files to the receiver's: archive, dvzip, chunks, HTTP, and back. */
module Upload {
  import opened Wrappers
  import opened ByteSeqs
  import opened Text
  import opened Chunked
  import opened ChunkStream
  import opened Dvzip
  import Cpio
  import Http

  // application/x-dvzip
  const X_DVZIP: seq<Byte> := [97, 112, 112, 108, 105, 99, 97, 116, 105, 111, 110, 47, 120, 45, 100, 118, 122, 105, 112]
  // application/x-cpio
  const X_CPIO: seq<Byte> := [97, 112, 112, 108, 105, 99, 97, 116, 105, 111, 110, 47, 120, 45, 99, 112, 105, 111]
  // POST
  const POST: seq<Byte> := [80, 79, 83, 84]
  // /Upload
  const UPLOAD: seq<Byte> := [47, 85, 112, 108, 111, 97, 100]
  // host
  const HOST: seq<Byte> := [104, 111, 115, 116]
  // airdrop._tcp.local.
  const HOST_VALUE: seq<Byte> :=
    [97, 105, 114, 100, 114, 111, 112, 46, 95, 116, 99, 112, 46, 108, 111, 99, 97, 108, 46]
  // content-type
  const CONTENT_TYPE: seq<Byte> := [99, 111, 110, 116, 101, 110, 116, 45, 116, 121, 112, 101]

  // expect
  const EXPECT: seq<Byte> := [101, 120, 112, 101, 99, 116]
  // 100-continue
  const CONTINUE: seq<Byte> := [49, 48, 48, 45, 99, 111, 110, 116, 105, 110, 117, 101]

  // ---- The receiver ----

  /** The files in an upload body: nothing unless the archive is complete. */
  function DecodeUpload(contentType: seq<Byte>, body: seq<Byte>, inflate: Inflate): seq<Cpio.File> {
    var cpio := if Http.Lower(contentType) == X_DVZIP then Expand(Blocks(body), inflate, []) else body;
    if !Cpio.Complete(cpio) then []
    else
      var entries := Cpio.ReadOdc(cpio);
      seq(|entries|, i requires 0 <= i < |entries| => Cpio.File(entries[i].name, entries[i].data))
  }

  datatype Handled = Handled(status: nat, files: seq<Cpio.File>)

  function HandleUpload(req: Http.Request, inflate: Inflate): Handled {
    var contentType := if CONTENT_TYPE in req.headers then req.headers[CONTENT_TYPE] else [];
    if Http.Lower(contentType) != X_DVZIP && Http.Lower(contentType) != X_CPIO then Handled(406, [])
    else
      var files := DecodeUpload(contentType, req.body, inflate);
      if files == [] then Handled(400, []) else Handled(200, files)
  }

  // ---- The sender ----

  /** The dvzip payload of the files in `numBlocks` blocks. */
  function Payload(files: seq<Cpio.File>, dotDir: bool, numBlocks: nat, deflate: Deflate): seq<Byte> {
    FrameAll(Slices(Cpio.Archive(files, dotDir), numBlocks), deflate)
  }

  function UploadRequest(files: seq<Cpio.File>, deflate: Deflate): Http.Request {
    Http.Request(POST, UPLOAD, map[HOST := HOST_VALUE, CONTENT_TYPE := X_DVZIP], Payload(files, false, 1, deflate))
  }

  // ---- End to end ----

  ghost predicate Sendable(files: seq<Cpio.File>, dotDir: bool) {
    && (forall i :: 0 <= i < |files| ==> files[i].Deliverable())
    && |Cpio.Archive(files, dotDir)| <= 134_217_728
  }

  lemma LowerDvzip()
    ensures Http.Lower(X_DVZIP) == X_DVZIP
  {
  }

  /** Decoding a payload gives back the files, names and octets in order. */
  lemma PayloadDecodes(files: seq<Cpio.File>, dotDir: bool, numBlocks: nat, deflate: Deflate, inflate: Inflate)
    requires IsZlibPair(deflate, inflate) && Sendable(files, dotDir)
    ensures DecodeUpload(X_DVZIP, Payload(files, dotDir, numBlocks, deflate), inflate) == files
  {
    hide Cpio.ReadOdc, Cpio.Complete, Cpio.Archive, Blocks, Expand, FrameAll, Slices, IsUtf8;
    LowerDvzip();
    DvzipRoundTrip(Cpio.Archive(files, dotDir), numBlocks, deflate, inflate);
    Cpio.BuiltIsComplete(files, dotDir);
    Cpio.ReadUndoesBuild(files, dotDir);
  }

  /**
   * The files survive every block count and every split of the payload into chunks: the receive path
   * takes exactly the body off the connection, and decoding what it kept gives the files back.
   */
  lemma UploadArrives(files: seq<Cpio.File>, dotDir: bool, numBlocks: nat, deflate: Deflate, inflate: Inflate,
                      body: Body, next: seq<Byte>)
    requires IsZlibPair(deflate, inflate) && Sendable(files, dotDir)
    requires body.Valid() && ShortLines(body) && |body.Text()| <= 134_217_728
    requires body.Payload() == Payload(files, dotDir, numBlocks, deflate)
    ensures ReadFrom(body.Text() + next, 0) == Success((body.Text(), next))
    ensures TwoStage(body.Text() + next).Some?
    ensures DecodeUpload(X_DVZIP, TwoStage(body.Text() + next).value, inflate) == files
  {
    hide ReadFrom, Decode, DecodeUpload, Payload, IsUtf8, Cpio.Archive;
    StagesAgree(body, next);
    PayloadDecodes(files, dotDir, numBlocks, deflate, inflate);
  }

  /** A payload cut anywhere delivers nothing at all, never some of the files. */
  lemma TruncatedDeliversNothing(files: seq<Cpio.File>, dotDir: bool, numBlocks: nat,
                                 deflate: Deflate, inflate: Inflate, n: nat)
    requires IsZlibPair(deflate, inflate) && Sendable(files, dotDir)
    requires n < |Payload(files, dotDir, numBlocks, deflate)|
    ensures DecodeUpload(X_DVZIP, Payload(files, dotDir, numBlocks, deflate)[..n], inflate) == []
  {
    hide Cpio.ReadOdc, Cpio.Complete, Cpio.Archive, Blocks, Expand, FrameAll, Slices, IsUtf8;
    var archive := Cpio.Archive(files, dotDir);
    LowerDvzip();
    Cpio.BuiltIsComplete(files, dotDir);
    ArchiveNonempty(files, dotDir);
    var m := CutExpandsToPrefix(archive, numBlocks, deflate, inflate, n);
  }

  lemma ArchiveNonempty(files: seq<Cpio.File>, dotDir: bool)
    ensures Cpio.Archive(files, dotDir) != []
  {
    hide Cpio.Header;
    if |files| == 0 {
      Cpio.TrailerWalk();
    }
  }

  /** The request as it is built, before it is framed in chunks: printed with its length it would arrive too. */
  lemma BuiltRequestArrives(files: seq<Cpio.File>, order: seq<seq<Byte>>, deflate: Deflate, inflate: Inflate)
    requires IsZlibPair(deflate, inflate) && Sendable(files, false) && files != []
    requires forall k :: k in order <==> k in UploadRequest(files, deflate).headers
    ensures var sent := UploadRequest(files, deflate);
            && Http.Parse(Http.Print(sent, order)).Success?
            && HandleUpload(Http.Parse(Http.Print(sent, order)).value, inflate) == Handled(200, files)
  {
    hide Http.Parse, Http.Print, DecodeUpload, Payload, Http.ValidHeaders, IsUtf8, Http.Lower, IsZlibPair, Cpio.Archive;
    hide Numeral;
    var sent := UploadRequest(files, deflate);
    UploadHeadersValid();
    PayloadFits(files, deflate, inflate);
    AsciiIsUtf8(UPLOAD);
    Http.RequestRoundTrip(sent, order);
    PayloadDecodes(files, false, 1, deflate, inflate);
    LowerDvzip();
    assert CONTENT_TYPE != Http.CONTENT_LENGTH by {
      assert |CONTENT_TYPE| != |Http.CONTENT_LENGTH|;
    }
  }

  /** What the sender sends: the request built above, its body framed in one chunk. */
  function SentRequest(files: seq<Cpio.File>, deflate: Deflate): Http.Request {
    var built := UploadRequest(files, deflate);
    built.(headers := built.headers[Http.TRANSFER_ENCODING := Http.CHUNKED][EXPECT := CONTINUE],
           body := SingleChunk(built.body).Text())
  }

  /**
   * A whole transfer: what the sender prints, the receiver parses, accepts and turns back into the files,
   * and its stream reader takes exactly the sent body off the connection, if that is within the limit.
   */
  lemma SentFilesArrive(files: seq<Cpio.File>, order: seq<seq<Byte>>, deflate: Deflate, inflate: Inflate,
                        next: seq<Byte>)
    requires IsZlibPair(deflate, inflate) && Sendable(files, false) && files != []
    requires forall k :: k in order <==> k in SentRequest(files, deflate).headers
    ensures var sent := SentRequest(files, deflate);
            && Http.Parse(Http.Print(sent, order)).Success?
            && HandleUpload(Http.Parse(Http.Print(sent, order)).value, inflate) == Handled(200, files)
    ensures var sent := SentRequest(files, deflate);
            |sent.body| <= 134_217_728 ==> ReadFrom(sent.body + next, 0) == Success((sent.body, next))
  {
    hide Http.Parse, Http.Print, DecodeUpload, Payload, Http.ValidHeaders, IsUtf8, Http.Lower, IsZlibPair, Cpio.Archive;
    hide Numeral, ReadFrom;
    var sent, payload := SentRequest(files, deflate), Payload(files, false, 1, deflate);
    SentHeadersValid();
    PayloadFits(files, deflate, inflate);
    OneChunkFits(payload);
    AsciiIsUtf8(UPLOAD);
    ChunkedIsChunked();
    assert |EXPECT| != |CONTENT_TYPE| && |EXPECT| != |Http.TRANSFER_ENCODING|;
    Http.ChunkedRoundTrip(sent, order, payload);
    PayloadDecodes(files, false, 1, deflate, inflate);
    LowerDvzip();
    assert |CONTENT_TYPE| != |Http.TRANSFER_ENCODING| && |CONTENT_TYPE| != |EXPECT|;
    if |sent.body| <= MAX_BODY {
      SingleChunkValid(payload);
      ReadsExactlyTheBody(SingleChunk(payload), next, 0);
    }
  }

  lemma ChunkedIsChunked()
    ensures Http.Contains(Http.Lower(Http.CHUNKED), Http.CHUNKED)
  {
    assert Http.Lower(Http.CHUNKED) == Http.CHUNKED;
    assert Http.CHUNKED <= Http.CHUNKED[0..];
  }

  lemma PowersOfSixteen()
    ensures Power(16, 9) == 0x10_0000_0000
  {
    assert Power(16, 1) == 16 && Power(16, 2) == 256 && Power(16, 3) == 0x1000 && Power(16, 4) == 0x1_0000;
    assert Power(16, 5) == 0x10_0000 && Power(16, 6) == 0x100_0000 && Power(16, 7) == 0x1000_0000;
    assert Power(16, 8) == 0x1_0000_0000;
  }

  /** The framing adds few octets, in short lines. */
  lemma OneChunkFits(payload: seq<Byte>)
    requires |payload| < 0x10_0000_0000
    ensures |SingleChunk(payload).Text()| <= |payload| + 20 && ShortLines(SingleChunk(payload))
  {
    hide Numeral, Power;
    PowersOfSixteen();
    NumeralFits(|payload|, 16, 9);
    var b := SingleChunk(payload);
    if payload != [] {
      assert b.Rest() == SingleChunk([]);
      assert |b.Head()| == |b.chunks[0].Text()| + |b.Rest().Head()|;
    }
  }

  lemma PlainHeaderText(s: seq<Byte>)
    requires s != [] && forall i :: 0 <= i < |s| ==> 33 <= s[i] < 127 && !Http.IsUpper(s[i])
    ensures Http.ValidValue(s)
    ensures Http.COLON !in s ==> Http.ValidName(s)
  {
    hide IsUtf8, IsTrimmed, Trim;
    AsciiIsUtf8(s);
    TrimSolid(s);
  }

  lemma UploadHeadersValid()
    ensures Http.ValidHeaders(map[HOST := HOST_VALUE, CONTENT_TYPE := X_DVZIP])
    ensures Http.TRANSFER_ENCODING !in {HOST, CONTENT_TYPE}
  {
    hide Http.ValidName, Http.ValidValue;
    PlainHeaderText(HOST);
    PlainHeaderText(CONTENT_TYPE);
    PlainHeaderText(HOST_VALUE);
    PlainHeaderText(X_DVZIP);
    assert |HOST| == 4 && |CONTENT_TYPE| == 12 && |Http.TRANSFER_ENCODING| == 17;
  }

  lemma OneMoreHeader(headers: Http.Headers, name: seq<Byte>, value: seq<Byte>)
    requires Http.ValidHeaders(headers) && Http.ValidName(name) && Http.ValidValue(value)
    ensures Http.ValidHeaders(headers[name := value])
  {
    hide Http.ValidName, Http.ValidValue;
  }

  lemma SentHeadersValid()
    ensures Http.ValidHeaders(map[HOST := HOST_VALUE, CONTENT_TYPE := X_DVZIP][Http.TRANSFER_ENCODING := Http.CHUNKED]
                                 [EXPECT := CONTINUE])
  {
    hide Http.ValidName, Http.ValidValue, Http.ValidHeaders;
    UploadHeadersValid();
    var built: Http.Headers := map[HOST := HOST_VALUE, CONTENT_TYPE := X_DVZIP];
    PlainHeaderText(Http.TRANSFER_ENCODING);
    PlainHeaderText(Http.CHUNKED);
    OneMoreHeader(built, Http.TRANSFER_ENCODING, Http.CHUNKED);
    PlainHeaderText(EXPECT);
    PlainHeaderText(CONTINUE);
    OneMoreHeader(built[Http.TRANSFER_ENCODING := Http.CHUNKED], EXPECT, CONTINUE);
  }

  lemma PayloadFits(files: seq<Cpio.File>, deflate: Deflate, inflate: Inflate)
    requires IsZlibPair(deflate, inflate) && Sendable(files, false)
    ensures |Payload(files, false, 1, deflate)| < 0x10_0000_0000
  {
    hide Cpio.Archive;
    var archive := Cpio.Archive(files, false);
    ArchiveNonempty(files, false);
    assert Clamp(1, |archive|) == 1;
    assert Slices(archive, 1) == [archive];
    FrameOne(archive, deflate);
  }

  // ---- What is refused ----

  lemma DvzipText()
    ensures X_DVZIP == Octets("application/x-dvzip")
  {
  }

  lemma CpioText()
    ensures X_CPIO == Octets("application/x-cpio")
  {
  }

  lemma ContentTypeText()
    ensures CONTENT_TYPE == Octets("content-type")
  {
  }

  lemma Constants()
    ensures X_DVZIP == Octets("application/x-dvzip") && X_CPIO == Octets("application/x-cpio")
    ensures CONTENT_TYPE == Octets("content-type")
  {
    hide *;
    DvzipText();
    CpioText();
    ContentTypeText();
  }

  /** The content type of a request, in lower case. */
  function TypeOf(req: Http.Request): seq<Byte> {
    if Octets("content-type") in req.headers then Http.Lower(req.headers[Octets("content-type")]) else []
  }

  /**
   * An upload is answered with 406 unless its content type is one of the two, with 200 and all the entries of
   * the archive when that is complete and has any, else with 400; files are only delivered with 200.
   */
  lemma AnswerIff(req: Http.Request, inflate: Inflate)
    ensures var r, kind := HandleUpload(req, inflate), TypeOf(req);
            var archive := if kind == Octets("application/x-dvzip") then Expand(Blocks(req.body), inflate, [])
                           else req.body;
            var entries := Cpio.ReadOdc(archive);
            if kind != Octets("application/x-dvzip") && kind != Octets("application/x-cpio") then r == Handled(406, [])
            else if !Cpio.Complete(archive) || entries == [] then r == Handled(400, [])
            else
              && r.status == 200 && |r.files| == |entries|
              && forall i :: 0 <= i < |entries| ==> r.files[i] == Cpio.File(entries[i].name, entries[i].data)
  {
    Constants();
    hide Octets, Http.Lower, Cpio.Complete, Cpio.ReadOdc, Expand, Blocks;
    if CONTENT_TYPE !in req.headers {
      NoText();
    }
  }

  lemma NoText()
    ensures Http.Lower([]) == []
  {
  }

  /** A payload cut anywhere is answered with 400. */
  lemma TruncatedIsRefused(files: seq<Cpio.File>, dotDir: bool, numBlocks: nat,
                           deflate: Deflate, inflate: Inflate, n: nat, req: Http.Request)
    requires IsZlibPair(deflate, inflate) && Sendable(files, dotDir)
    requires n < |Payload(files, dotDir, numBlocks, deflate)|
    requires TypeOf(req) == Octets("application/x-dvzip")
    requires req.body == Payload(files, dotDir, numBlocks, deflate)[..n]
    ensures HandleUpload(req, inflate) == Handled(400, [])
  {
    TruncatedDeliversNothing(files, dotDir, numBlocks, deflate, inflate, n);
    Constants();
    LowerDvzip();
    hide Octets, Payload, Cpio.Complete, Cpio.ReadOdc, Cpio.Archive, Expand, Blocks, IsZlibPair;
    SameAsDvzip(req, inflate);
  }

  /** Only the lower-cased content type matters. */
  lemma SameAsDvzip(req: Http.Request, inflate: Inflate)
    requires TypeOf(req) == X_DVZIP
    ensures HandleUpload(req, inflate) ==
            if DecodeUpload(X_DVZIP, req.body, inflate) == [] then Handled(400, [])
            else Handled(200, DecodeUpload(X_DVZIP, req.body, inflate))
  {
    Constants();
    LowerDvzip();
    hide Octets, Cpio.Complete, Cpio.ReadOdc, Expand, Blocks;
  }
}
