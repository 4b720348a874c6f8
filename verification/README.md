# Models of the AWDL link daemon and the AirDrop transfer layer

A Dafny model of the protocol cores of two Rust crates, with proofs of what they are for.

* `filin-rs`, the link daemon: rebuilding captured announcement frames with our own identity, the bounded queues
  before transmission and after reception, matching transmit statuses to requests, reserving a channel, and deciding
  which mDNS responses may be replayed.
* `luftlift-rs`, the transfer layer: the layers of an upload (HTTP request, chunked framing, dvzip blocks, CPIO
  archive), the consent that must precede an upload, the list of nearby peers and the progress reports.

Code that works in place is modelled in place: classes for the queues, the tracker, the reservation, the approvals and
the throttle, methods with loops for the parsers and writers. Every such method is proved equal to a function of its
inputs or of the old state, and the properties are proved of those functions, over all inputs and all runs. What those
functions mean is in turn proved in terms they do not use: octets and characters, the steps of a run, and plain numbers.

| files | what they model |
|---|---|
| `ByteSeqs`, `Text`, `Unicode`, `Wrappers`, `Joining` | octets and numbers on the wire, text and numerals, optional results and what is put in front of them |
| `Chunked`, `ChunkStream` | chunked framing: decoder, writer, stream reader |
| `Dvzip`, `Cpio`, `Upload` | block framing, archive writer, reader and completeness gate, whole uploads |
| `Http` | request printing and parsing |
| `ServiceRecords`, `RecordRewrite`, `TlvTwo`, `ShownIdentity`, `Announcement` | TLV 2 records, their rewriting and what is seen of it, TLV chains, frame rebuilding |
| `PendingTx`, `PendingRx` | the transmit backlog and the receive hold queue |
| `TxEvents`, `TxTracker`, `TxTrackerTrace`, `Netlink`, `FrameTx`, `KernelMessages`, `Roc` | kernel events, transmit statuses, netlink messages both ways, channel reservation |
| `MdnsCache` | replay decisions on mDNS frames |
| `Consent`, `ConsentTrace`, `Browse`, `Progress` | approvals and connections, the list of peers, the report throttle |

Where a property holds only under a condition, the condition is proved exact and the failing case is given:

* The reader of archives stops at a name that is `TRAILER!!!` plus NULs although the gate goes on (`ReaderStopsEarly`);
  `ReaderDeliversAll` says exactly when nothing is lost.
* TLV 2 rewriting is idempotent for tails of no or two octets without further condition; with other tails it can fail
  (`RewriteNotIdempotent`), and `RewriteAgain` says exactly when, in terms of the payload before the rewriting. The
  comment at `announce_template.rs:178-184` describes the two-octet tail only; the code also takes other tails. The
  program only rewrites its two compiled-in templates, so the three-octet tail of the example needs another template.
* A status and the end of its request commute except in the two overflow cases named by `Clash` (`ConfluentIff`).
* Buffering ROC events before the cookie is as good as knowing the cookie except when more than eight events came and
  the lost ones mattered (`Lossy`, `AgreesIff`).

Conventions: octets are integers below 256, wire integers are little-endian where the source uses native order, and
`usize` has 64 bits, as on the target. Clocks are parameters; properties over runs ask that they do not go back.

## Model

| member | source | states |
|---|---|---|
| `Chunked.DecodeChunked` | native/airdrop/crates/luftlift-rs/src/chunked.rs:35-80 | The loop returns the data of all chunks, or the error of the first bad size line, missing data or missing chunk end, exactly as the recursive decoder `Decode` does |
| `Chunked.DecodeBody` | native/airdrop/crates/luftlift-rs/src/chunked.rs:35-80 | Every body of the grammar of section 4.1 of RFC 7230 (sizes in any spelling, chunk extensions, any number of chunks) decodes to its concatenated data, whatever follows the last-chunk line |
| `Chunked.DecodeCut` | native/airdrop/crates/luftlift-rs/src/chunked.rs:35-80 | The same body cut anywhere before the end of its last-chunk line is an error, never a shorter body |
| `Chunked.SingleChunkValid` | native/airdrop/crates/luftlift-rs/src/client.rs:21-30 | The sender's one-chunk framing is a body of that grammar and carries exactly the given octets, also when there are none |
| `Chunked.ChunkFrame` | native/airdrop/crates/luftlift-rs/src/client.rs:21-30 | The sender's framing written step by step is that body's text |
| `Chunked.DecodeIff` | native/airdrop/crates/luftlift-rs/src/chunked.rs:35-80 | An input decodes if and only if it is chunks, whatever their size lines look like, up to a line that announces zero, and then it decodes to their data; what a line announces is said on its characters |
| `Chunked.BadLineFails` | native/airdrop/crates/luftlift-rs/src/chunked.rs:44-50 | After any chunks, a line that announces no size is the error that names it, whatever follows; it is never taken for the last chunk |
| `Chunked.BadDataFails` | native/airdrop/crates/luftlift-rs/src/chunked.rs:57-78 | After any chunks, a chunk that is cut gives the number of missing octets, and one that is not closed right after its data a missing line end |
| `Unicode.Utf8Iff` | native/airdrop/crates/luftlift-rs/src/chunked.rs:44-46 | Octets are read as text if and only if they are the encoding of some characters, as RFC 3629 writes them |
| `Unicode.TrimIs` | native/airdrop/crates/luftlift-rs/src/chunked.rs:48 | Trimming octets is trimming characters: exactly the white space at both ends goes |
| `Unicode.DigitIs` | native/airdrop/crates/luftlift-rs/src/chunked.rs:49-50 | The value of a digit is its place among the digits, in either case, and other characters have none |
| `ChunkStream.ReadChunkedStream` | native/airdrop/crates/luftlift-rs/src/server.rs:542-617 | Reading lines and data from a stream keeps the raw framing and leaves unread what `ReadFrom` says, with its errors for bad sizes, long lines, short data and bodies over the limit |
| `ChunkStream.ReadChunkData` | native/airdrop/crates/luftlift-rs/src/server.rs:601-617 | Reading a chunk in pieces takes exactly the chunk and its line end off the stream, or reports the end of the stream |
| `ChunkStream.ReadsExactlyTheBody` | native/airdrop/crates/luftlift-rs/src/server.rs:542-617 | On a well-formed body without trailer fields followed by any octets the reader takes exactly the body and leaves the next request unread |
| `ChunkStream.ReadsCut` | native/airdrop/crates/luftlift-rs/src/server.rs:542-617 | On a cut body the reader either fails or has kept all of what there was, with nothing left |
| `ChunkStream.StagesAgree` | native/airdrop/crates/luftlift-rs/src/server.rs:542-617 | Reader and decoder in sequence give the concatenated chunks of every well-formed body, and leave the next request unread |
| `ChunkStream.CutIsAnError` | native/airdrop/crates/luftlift-rs/src/server.rs:542-617 | The two stages in sequence give an error on a body cut before its last-chunk line is complete |
| `ChunkStream.ReadIff` | native/airdrop/crates/luftlift-rs/src/server.rs:542-590 | The reader succeeds if and only if the stream is parts within the line and size limits, a size line that tells zero and one more line; it keeps every octet of these and leaves every octet after them |
| `ChunkStream.BadSizeFails` | native/airdrop/crates/luftlift-rs/src/server.rs:551-571 | After any parts, a size line that tells no size is an error, whatever follows; it never ends the body |
| `Cpio.ReadOdcCpio` | native/airdrop/crates/luftlift-rs/src/cpio.rs:73-119 | The cursor loop delivers what the recursive reader `ReadOdc` delivers; `DeliveredIff` says which members of an accepted archive these are |
| `Cpio.DeliveredIff` | native/airdrop/crates/luftlift-rs/src/cpio.rs:73-119 | Of an accepted archive exactly those members are delivered, in order and with their names, octets and modes, that come before the first trailer-like name, whose mode has a type digit other than 4, and whose name is neither `.` nor `..` |
| `Cpio.ReadUndoesPack` | native/airdrop/crates/luftlift-rs/src/cpio.rs:73-145 | Of any files and directories packed with any modes, exactly the files come back, in order, with their modes |
| `Cpio.EntryNameIs` | native/airdrop/crates/luftlift-rs/src/cpio.rs:91-94 | A name is its field without the NULs at the end, and nothing when the field is not text |
| `Cpio.PaddingIsTolerated` | native/airdrop/crates/luftlift-rs/src/cpio.rs:122-129 | White space and NULs around the digits of a field do not matter to the reader |
| `Cpio.StrictIsLenient` | native/airdrop/crates/luftlift-rs/src/cpio.rs:122-129 | Where the gate reads an octal field, the lenient reader reads the same number |
| `Cpio.TrailerNames` | native/airdrop/crates/luftlift-rs/src/cpio.rs:96-112 | The reader takes a name for the trailer's exactly when it is `TRAILER!!!` followed by any number of NULs |
| `Cpio.TrailerLikeIsFirst` | native/airdrop/crates/luftlift-rs/src/cpio.rs:110-112 | The place where the reader stops is the first member with such a name |
| `Cpio.CompleteCpio` | native/airdrop/crates/luftlift-rs/src/guard.rs:85-102 | The gate accepts exactly the octets that are valid members followed by a trailer, whatever is after it |
| `Cpio.StrictIff` | native/airdrop/crates/luftlift-rs/src/guard.rs:90 | The gate reads a field if and only if it is octal digits only, at least one, behind at most a plus sign |
| `Cpio.CompleteIff` | native/airdrop/crates/luftlift-rs/src/guard.rs:85-102 | The gate accepts if and only if the octets are valid members one after another and a trailer behind them |
| `Cpio.ReaderFollowsGate` | native/airdrop/crates/luftlift-rs/src/guard.rs:85-102 | When the gate accepts, the reader walks the same members and delivers the files among them up to the first name it takes for the trailer's |
| `Cpio.ReaderDeliversAll` | native/airdrop/crates/luftlift-rs/src/guard.rs:85-102 | So it delivers all files of an accepted archive if and only if the first member of such a name and all after it are directories |
| `Cpio.NoFilesIff` | native/airdrop/crates/luftlift-rs/src/cpio.rs:104-111 | Members deliver nothing if and only if all of them are directories, by their modes or names |
| `Cpio.ReaderStopsEarly` | native/airdrop/crates/luftlift-rs/src/cpio.rs:110-112 | A concrete archive that the gate accepts and of which the reader delivers nothing |
| `Cpio.WalkIsPrefixStable` | native/airdrop/crates/luftlift-rs/src/guard.rs:85-102 | Acceptance depends only on the octets through the trailer |
| `Cpio.CutIsIncomplete` | native/airdrop/crates/luftlift-rs/src/guard.rs:85-102 | An archive that ends with its trailer is rejected when cut anywhere |
| `Cpio.HeaderFields` | native/airdrop/crates/luftlift-rs/src/cpio.rs:136-151 | A written header carries the magic, and its mode and both sizes read back from their octal fields |
| `Cpio.OtherFields` | native/airdrop/crates/luftlift-rs/src/cpio.rs:136-151 | The other fields of a written header: the inode number modulo its field, one link, and zeros |
| `Cpio.BuildOdcCpio` | native/airdrop/crates/luftlift-rs/src/cpio.rs:167-190 | The builder writes, member by member, the archive defined by `Archive` |
| `Cpio.BuiltIsComplete` | native/airdrop/crates/luftlift-rs/src/cpio.rs:167-190 | Every archive the sender builds is accepted by the gate and walked to its last octet, and every proper prefix of it is rejected |
| `Cpio.ReadUndoesBuild` | native/airdrop/crates/luftlift-rs/src/cpio.rs:73-190 | Reading a built archive gives back the names and octets of all files in order, without the directory entry |
| `Dvzip.DvzipToCpio` | native/airdrop/crates/luftlift-rs/src/dvzip.rs:31-57 | The block loop gives what inflating block by block gives: it stops at a short or damaged block and gives nothing over the size limit |
| `Dvzip.CpioToDvzipBlocks` | native/airdrop/crates/luftlift-rs/src/dvzip.rs:74-104 | The writer cuts the archive into the requested number of blocks, clamped to what there is, and frames each |
| `Dvzip.SlicesAre` | native/airdrop/crates/luftlift-rs/src/dvzip.rs:74-104 | There are as many blocks as asked for, but at least one and at most one an octet, and all but the last are of equal length |
| `Dvzip.BlocksAre` | native/airdrop/crates/luftlift-rs/src/dvzip.rs:31-47 | Every payload is the frames of its blocks followed by something that stops the loop: too little for a length, a length of zero, or one of more than is left |
| `Dvzip.BlocksIff` | native/airdrop/crates/luftlift-rs/src/dvzip.rs:31-47 | And the blocks of any such payload are those in front of where it stops |
| `Dvzip.ExpandClean` | native/airdrop/crates/luftlift-rs/src/dvzip.rs:31-57 | Without a damaged block the result is the whole output, or nothing when it is over the limit |
| `Dvzip.DamagedIsSkipped` | native/airdrop/crates/luftlift-rs/src/dvzip.rs:49-54 | A damaged block is skipped with all it gave, wherever it stands, unless that alone was over the limit: then there is no output |
| `Dvzip.DvzipRoundTrip` | native/airdrop/crates/luftlift-rs/src/dvzip.rs:31-104 | Given that inflating undoes deflating, decoding undoes encoding for every archive within the limit and every block count |
| `Dvzip.CutExpandsToPrefix` | native/airdrop/crates/luftlift-rs/src/dvzip.rs:31-57 | A payload cut anywhere expands to a proper prefix of what it carried, never to all of it |
| `Http.ParseRequest` | native/airdrop/crates/luftlift-rs/src/http.rs:76-112 | The parser with its header loop gives the request, or the error of the first bad part, exactly as `Parse` does |
| `Http.TerminatorIs` | native/airdrop/crates/luftlift-rs/src/http.rs:77 | The head ends at the first blank line |
| `Http.SplitsIntoLines` | native/airdrop/crates/luftlift-rs/src/http.rs:80 | The lines of a head are what is between its line ends, which are in none of them |
| `Http.RequestLineIff` | native/airdrop/crates/luftlift-rs/src/http.rs:60-72 | A request line is read if and only if it is a verb in capitals, a path from the root without white space or control characters, and one of two versions, with single spaces between them |
| `Http.HeaderIff` | native/airdrop/crates/luftlift-rs/src/http.rs:91-92 | A header line needs a colon; its name is what is before the first, in lower case, its value what is after it, both trimmed |
| `Http.LastHeaderWins` | native/airdrop/crates/luftlift-rs/src/http.rs:86-93 | The headers are read if and only if every line that is not blank has a colon, and of each name the last line decides |
| `Http.BodyIsFramed` | native/airdrop/crates/luftlift-rs/src/http.rs:95-109 | A transfer encoding goes before a length: chunked in any spelling is decoded, any other gives no body; else the length is cut off, or refused when it is no number or more than there is |
| `Http.FormatRequest` | native/airdrop/crates/luftlift-rs/src/http.rs:157-172 | Printing, for any order of the headers, writes the text of `Print` |
| `Http.TitleIs` | native/airdrop/crates/luftlift-rs/src/http.rs:175-187 | Header names are printed with the first letter and every letter after a dash in capitals, and nothing else changed |
| `Http.ParsePrinted` | native/airdrop/crates/luftlift-rs/src/http.rs:76-172 | Parsing a printed request, in any header order, gives its line, its headers with the length added where there is no transfer encoding, and the body those headers frame |
| `Http.RequestRoundTrip` | native/airdrop/crates/luftlift-rs/src/http.rs:76-172 | Without a transfer encoding it gives the same request with the right content length |
| `Http.ChunkedRoundTrip` | native/airdrop/crates/luftlift-rs/src/http.rs:76-172 | With chunked encoding and the sender's framing it gives the payload without the framing |
| `Upload.PayloadDecodes` | native/airdrop/crates/luftlift-rs/src/handlers.rs:50-62 | Decoding a sent payload gives the files, names and octets in order |
| `Upload.UploadArrives` | native/airdrop/crates/luftlift-rs/src/handlers.rs:50-62 | End to end for any file list, block count and split into chunks: the receive path takes exactly the body off the connection and decoding what it kept gives exactly the files |
| `Upload.TruncatedDeliversNothing` | native/airdrop/crates/luftlift-rs/src/handlers.rs:50-62 | A payload cut anywhere delivers no file at all |
| `Upload.AnswerIff` | native/airdrop/crates/luftlift-rs/src/handlers.rs:90-118 | An upload is answered with 406 exactly for another content type, with 400 exactly when the archive is incomplete or has no files, and else with 200 and all its entries |
| `Upload.TruncatedIsRefused` | native/airdrop/crates/luftlift-rs/src/handlers.rs:90-118 | So a payload cut anywhere is answered with 400 |
| `Upload.BuiltRequestArrives` | native/airdrop/crates/luftlift-rs/src/client.rs:182-197 | The upload request as built, before it is framed in chunks, would be parsed, answered with 200 and turned back into the files when printed with its length |
| `Upload.SentFilesArrive` | native/airdrop/crates/luftlift-rs/src/client.rs:288-303 | The request that goes on the wire, chunked and with the expect header, is parsed by the receiver, answered with 200 and turned back into the sent files, and within the size limit the stream reader takes exactly its body |
| `ServiceRecords.ParseRecords` | native/airdrop/crates/filin-rs/src/announce_template.rs:185-200 | The cursor loop splits a TLV 2 payload into records and tail |
| `ServiceRecords.SplitName` | native/airdrop/crates/filin-rs/src/announce_template.rs:204-223 | The label loop gives offset and length of every leading label and where the name ends |
| `ServiceRecords.PartsOfName` | native/airdrop/crates/filin-rs/src/announce_template.rs:204-223 | A written name is split into exactly its labels, and the rest is found |
| `ServiceRecords.RewriteNameRecord` | native/airdrop/crates/filin-rs/src/announce_template.rs:251-275 | Rebuilding a name record with our host gives the record `NewName` |
| `ServiceRecords.NewNameParts` | native/airdrop/crates/filin-rs/src/announce_template.rs:251-275 | A rewritten name record is still a name record of the same type and service, and rewriting it again changes nothing |
| `ShownIdentity.NameRecordIff` | native/airdrop/crates/filin-rs/src/announce_template.rs:230-238 | A record is a name record if and only if it is labels, a pointer and a type, or ends in a root label behind an octet that could begin a pointer, and a type |
| `RecordRewrite.FirstUuidStays` | native/airdrop/crates/filin-rs/src/announce_template.rs:286-387 | Replacing the first UUID-shaped window by a UUID keeps the length and leaves that window the first one |
| `RecordRewrite.NewTextTwice` | native/airdrop/crates/filin-rs/src/announce_template.rs:326-364 | Rewriting TXT strings twice is rewriting them once |
| `RecordRewrite.NewDisplayTwice` | native/airdrop/crates/filin-rs/src/announce_template.rs:309-325 | Rewriting a display name twice is rewriting it once |
| `RecordRewrite.NewRdataTwice` | native/airdrop/crates/filin-rs/src/announce_template.rs:303-387 | Rewriting rdata never makes a name record of it, never panics a second time, and twice is once |
| `RecordRewrite.RewriteText` | native/airdrop/crates/filin-rs/src/announce_template.rs:326-364 | The loop over length-prefixed strings replaces exactly the session and capability values |
| `RecordRewrite.RewriteDisplay` | native/airdrop/crates/filin-rs/src/announce_template.rs:309-325 | The display name of a PTR record is replaced only when it is its single label |
| `RecordRewrite.RewriteUuid` | native/airdrop/crates/filin-rs/src/announce_template.rs:365-384 | The window search replaces the first UUID and panics exactly on rdata shorter than a UUID |
| `RecordRewrite.RewriteRdata` | native/airdrop/crates/filin-rs/src/announce_template.rs:303-387 | One rdata record: rewritten by the type of its name record, or the panic of the window search |
| `TlvTwo.RewriteTlv2` | native/airdrop/crates/filin-rs/src/announce_template.rs:401-443 | The whole rewriting with its loops gives the payload, the refusal or the panic that `Rewrite` gives; `ShownIdentity.EveryRecordBecomes` says what each record becomes |
| `ShownIdentity.ContextIs` | native/airdrop/crates/filin-rs/src/announce_template.rs:413-424 | A record is rewritten under the type, which is the last octet, and the AirDrop labels of the last name record before it; before the first name record nothing is |
| `ShownIdentity.EveryRecordBecomes` | native/airdrop/crates/filin-rs/src/announce_template.rs:251-387 | What every record becomes, from its own octets and the last name record before it: the label before the last service label becomes our host; rdata under an AirDrop name has its single label, its session, capability and name strings, or its first UUID replaced by ours, each when ours fits; everything else stays |
| `ShownIdentity.PanicsIffShort` | native/airdrop/crates/filin-rs/src/announce_template.rs:365-372 | The rewriting panics if and only if our UUID is one and some SRV rdata under an AirDrop name has fewer than 36 octets |
| `ShownIdentity.RewrittenCarriesUs` | native/airdrop/crates/filin-rs/src/announce_template.rs:401-443 | For tails of no or two octets, every record of the rewritten payload carries our host, display name, values and UUID wherever it has such, again by the last name record before it |
| `ShownIdentity.AllShowIff` | native/airdrop/crates/filin-rs/src/announce_template.rs:251-387 | A payload shows us, in the sense of the rows below, if and only if each of its records does by its own octets and the last name record before it |
| `TlvTwo.RecordsOfTailed` | native/airdrop/crates/filin-rs/src/announce_template.rs:185-200 | What a re-emitted payload with a tail parses to: two zero octets at the end come back as an empty record |
| `TlvTwo.RewriteOutcome` | native/airdrop/crates/filin-rs/src/announce_template.rs:401-443 | The rewriting panics exactly when some record is SRV rdata too short for the window search in the context before it, and refuses exactly when, without a panic, the length of a rewritten record cannot be declared; otherwise every record is rewritten in the context the earlier ones leave |
| `TlvTwo.RewriteAgain` | native/airdrop/crates/filin-rs/src/announce_template.rs:401-443 | For every payload: rewriting an output again changes nothing, except exactly when the payload has a tail, its last record with that tail ends in two zeros and shows us, and without the two zeros it would not show us or would panic |
| `TlvTwo.RewriteIdempotent` | native/airdrop/crates/filin-rs/src/announce_template.rs:401-443 | For tails of no or two octets the rewriting is idempotent, also when the payload ends in zeros |
| `TlvTwo.RewriteNotIdempotent` | native/airdrop/crates/filin-rs/src/announce_template.rs:401-443 | A concrete payload with a three-octet tail on which it is not |
| `TlvTwo.ShowsIsFixed` | native/airdrop/crates/filin-rs/src/announce_template.rs:251-387 | A record shows our identity if and only if the rewriting leaves it as it is |
| `TlvTwo.RewriteShowsUs` | native/airdrop/crates/filin-rs/src/announce_template.rs:401-443 | After a rewriting every record that carries an identity carries ours, always for tails of no or two octets, and for any other tail except exactly when two hidden zeros leave a last record that does not |
| `TlvTwo.FixedShowsUs` | native/airdrop/crates/filin-rs/src/announce_template.rs:401-443 | A payload with records that the rewriting leaves as it is shows us, and has a tail of no or two octets |
| `TlvTwo.RewriteIdentity` | native/airdrop/crates/filin-rs/src/announce_template.rs:401-443 | A payload is re-emitted octet by octet if and only if it has no records, or it shows us, nothing panics and its tail has no or two octets |
| `Announcement.Spans` | native/airdrop/crates/filin-rs/src/announce_template.rs:151-171 | The chain walk finds every TLV of a frame in order with its extent, and fails exactly on a TLV that runs over the end |
| `Announcement.BuildFrame` | native/airdrop/crates/filin-rs/src/announce_template.rs:465-541 | The frame patched in place and appended to is the frame `Build` defines |
| `Announcement.BuildsIff` | native/airdrop/crates/filin-rs/src/announce_template.rs:465-541 | A frame is built if and only if the template has a header and a well-formed chain, and no UUID is too long, no service records fail to be rewritten or grow over 65535 octets |
| `Announcement.BuildLinkAnnouncement` | native/airdrop/crates/filin-rs/src/announce_template.rs:547-565 | The live announcement copied piece by piece is the one `LinkAnnouncement` defines |
| `Announcement.PatchHeader` | native/airdrop/crates/filin-rs/src/announce_template.rs:470-478 | The header is patched in the copied frame in place, the rest of the frame is as captured |
| `Announcement.PatchValue` | native/airdrop/crates/filin-rs/src/announce_template.rs:487-532 | One TLV value is patched by its kind, with the failures and the panic of the source |
| `Announcement.BuildKeepsChain` | native/airdrop/crates/filin-rs/src/announce_template.rs:465-541 | A rebuilt frame parses to the same kinds in order, with every value outside the patched kinds and every header octet outside the four patched fields as captured, the patched ones carrying the given identity and timing |
| `Announcement.LinkKeepsChain` | native/airdrop/crates/filin-rs/src/announce_template.rs:547-565 | The live announcement parses to exactly that chain without kind 2, with the same header and dangling octets |
| `Announcement.KeepLinkKinds` | native/airdrop/crates/filin-rs/src/announce_template.rs:547-565 | The TLVs kept are exactly those of another kind |
| `Announcement.BuildAgain` | native/airdrop/crates/filin-rs/src/announce_template.rs:465-541 | Rebuilding a rebuilt frame with the same identity and timing changes nothing if and only if no service records of the template hide zeros at their end |
| `Announcement.BuildIdempotent` | native/airdrop/crates/filin-rs/src/announce_template.rs:465-541 | So it changes nothing when those records have no tail or the two octets seen on the air |
| `PendingTx.Backlog.Push` | native/airdrop/crates/filin-rs/src/pending_tx.rs:27-46 | A frame is taken exactly when the packet, byte and per-destination bounds allow it after expiry, and then queued last |
| `PendingTx.Backlog.Expire` | native/airdrop/crates/filin-rs/src/pending_tx.rs:48-58 | The entries that stay are the young ones in order, and the byte count stays their sum |
| `PendingTx.Backlog.Drain` | native/airdrop/crates/filin-rs/src/pending_tx.rs:63-75 | Rotating the queue once keeps the held entries in their order and makes the offers of one pass |
| `PendingTx.PassServes` | native/airdrop/crates/filin-rs/src/pending_tx.rs:63-75 | In one pass every destination not held before is served exactly as a FIFO of its own |
| `PendingTx.StepKeepsInv` | native/airdrop/crates/filin-rs/src/pending_tx.rs:27-75 | Every call keeps: the bounds; per destination, what was taken is what left and then what is queued, in order; every departure but a timeout is one answer other than Hold; nothing is offered after its time |
| `PendingTx.RunsFromEmpty` | native/airdrop/crates/filin-rs/src/pending_tx.rs:27-75 | So all of this holds after every run with a clock that does not go back and any send decisions |
| `PendingTx.EveryPassServes` | native/airdrop/crates/filin-rs/src/pending_tx.rs:63-75 | In every pass of every run each destination is served as a FIFO of its own |
| `PendingTx.TakenIff` | native/airdrop/crates/filin-rs/src/pending_tx.rs:27-46 | In every run a frame is taken if and only if it has an octet, and with the frames younger than 2.097152 s there are fewer than 32, at most 65536 octets with it, and fewer than eight for its destination; all those young frames stay, all others go |
| `PendingTx.PassInOrder` | native/airdrop/crates/filin-rs/src/pending_tx.rs:63-75 | Over all destinations together a pass makes its offers in the order of the queue, each with the next answer of the sender, and what it keeps stays in that order |
| `TxTracker.Tracker.Finish` | native/airdrop/crates/filin-rs/src/tx_status.rs:171-191 | The end of a request settles it by an early status, queues it, or counts its missing cookie |
| `TxTracker.Tracker.OnEvent` | native/airdrop/crates/filin-rs/src/tx_status.rs:192-215 | An event expires first and then sets the cookie, settles a pending entry or is kept as early, as the transition `Seen`; `TxTrackerTrace` says over whole runs what comes of it |
| `TxTracker.Tracker.Expire` | native/airdrop/crates/filin-rs/src/tx_status.rs:223-232 | The loop takes the timed-out entries off the front and counts each |
| `TxTracker.ExpireQueued` | native/airdrop/crates/filin-rs/src/tx_status.rs:179-183 | Queueing and expiring at one instant commute, also when the queue is full |
| `TxTracker.ConfluentIff` | native/airdrop/crates/filin-rs/src/tx_status.rs:171-232 | A status and the end of its request give the same counters, the same queue and the same everything in either order if and only if they do not clash: a full queue of live entries that the status touches, or a full early buffer that loses the answer. Below the bounds the order never matters |
| `TxTracker.StepKeepsInv` | native/airdrop/crates/filin-rs/src/tx_status.rs:167-239 | Every call keeps the books, the bounds, the order of the queue and the empty early buffer without a request |
| `TxTracker.BooksBalance` | native/airdrop/crates/filin-rs/src/tx_status.rs:147-239 | After any run with a clock that does not go back, the counts of acknowledged, unacknowledged, given up and cookie-less requests and the number pending add up to the number of requests ended as accepted; answers of either kind are no more than statuses of that kind; and no pending entry anywhere is timed out |
| `TxTrackerTrace.RequestIs` | native/airdrop/crates/filin-rs/src/tx_status.rs:167-197 | After any calls, the open request and its cookie are what the calls say: the last request begun and not ended, and the last reply to its number since |
| `TxTrackerTrace.CookieMissingIs` | native/airdrop/crates/filin-rs/src/tx_status.rs:184-191 | Over any run, the requests counted as without cookie are exactly the accepted ends that no reply to their number came before since they were begun |
| `TxTrackerTrace.CountersBalance` | native/airdrop/crates/filin-rs/src/tx_status.rs:147-239 | The balance of the counters with every count taken from the calls alone: accepted ends, ends without reply, statuses of either kind; nothing pending is five seconds old |
| `TxTrackerTrace.AnsweredAfterEnd` | native/airdrop/crates/filin-rs/src/tx_status.rs:192-215 | A request that was replied to is counted, as what it says, by the first status of its cookie within five seconds after its end and before 128 more requests end |
| `TxTrackerTrace.AnsweredBeforeEnd` | native/airdrop/crates/filin-rs/src/tx_status.rs:171-215 | And when the status comes before the end, or before the reply, the end counts it, as long as fewer than 128 statuses come in between |
| `Roc.Reservation.Start` | native/airdrop/crates/filin-rs/src/roc.rs:85-114 | A reservation starts only when none is open, on one of three frequencies and for 1 to 200 ms |
| `Roc.Started` | native/airdrop/crates/filin-rs/src/roc.rs:85-114 | A started reservation has the caller's number, interface, frequency, duration and time, and one starts only within the limits |
| `Roc.Reservation.OnEvent` | native/airdrop/crates/filin-rs/src/roc.rs:116-152 | Answer, cookie reply with replay of the buffered events, and READY or EXPIRED act as the transition `Next` |
| `Roc.AgreesIff` | native/airdrop/crates/filin-rs/src/roc.rs:116-189 | Waiting for the cookie shows the caller the same permission and the same end, at every instant and after every further events, as knowing it from the start, if and only if the events beyond the eighth held neither the EXPIRED nor the only READY of a request not yet refused or expired |
| `Roc.EightSuffice` | native/airdrop/crates/filin-rs/src/roc.rs:146-148 | With at most eight ROC events before the reply it always does, for every interleaving with answers and other events |
| `Roc.PermissionIff` | native/airdrop/crates/filin-rs/src/roc.rs:154-168 | With at most eight ROC events before the reply, and whatever comes after it, permission and end are exactly what the events alone say: the last acknowledgement, no refusal, no EXPIRED, and the deadline of the first READY or half a second without one |
| `Roc.NotYetReplied` | native/airdrop/crates/filin-rs/src/roc.rs:154-168 | Before the reply there is no permission, and the end comes exactly on a refusal or after half a second |
| `Roc.ActiveIsEarned` | native/airdrop/crates/filin-rs/src/roc.rs:154-158 | Permission to transmit needs an acknowledgement, no refusal, a cookie reply and a READY for that cookie on the interface and frequency asked for, recent enough, over any run |
| `Roc.EveryReservationEnds` | native/airdrop/crates/filin-rs/src/roc.rs:160-168 | A reservation is over at the latest half a second after its request and its last event |
| `Netlink.ParseAttrs` | native/airdrop/crates/filin-rs/src/tx_status.rs:24-41 | The attribute loop reads all attributes or none |
| `Netlink.ParseMessage` | native/airdrop/crates/filin-rs/src/tx_status.rs:78-121 | One message gives its event, nothing when it is of no interest, or the rejection of the datagram |
| `Netlink.ParseDatagram` | native/airdrop/crates/filin-rs/src/tx_status.rs:67-128 | The message loop gives the events of all messages, or none |
| `Netlink.AttrsJoin` | native/airdrop/crates/filin-rs/src/tx_status.rs:24-41 | Padded attributes one after the other are read one after the other |
| `Netlink.ParseJoin` | native/airdrop/crates/filin-rs/src/tx_status.rs:67-128 | Padded datagrams one after the other give the events one after the other, or none when the second is malformed |
| `Netlink.PartParsesIff` | native/airdrop/crates/filin-rs/src/tx_status.rs:67-128 | A prefix of a valid datagram is accepted if and only if it ends between two messages, before or after the padding, and then gives a prefix of the events |
| `FrameTx.BuildRequest` | native/airdrop/crates/filin-rs/src/frame_tx.rs:23-35 | A request is encoded exactly for a non-zero interface and frequency and a frame of 24 to 2304 octets, as its command and its attributes |
| `FrameTx.AppendAttr` | native/airdrop/crates/filin-rs/src/frame_tx.rs:11-17 | An attribute is appended with its length, kind, value and padding |
| `FrameTx.AttrsUndoEncode` | native/airdrop/crates/filin-rs/src/frame_tx.rs:11-17 | Reading attributes undoes writing them |
| `FrameTx.RequestReadsBack` | native/airdrop/crates/filin-rs/src/frame_tx.rs:23-35 | Every accepted request reads back as its interface, frequency and frame, with the flag that waives the acknowledgement exactly for group addresses |
| `KernelMessages.MessagesReadBack` | native/airdrop/crates/filin-rs/src/tx_status.rs:67-128 | Any list of kernel messages, written after one another, is parsed to exactly its events in order |
| `KernelMessages.MessageIff` | native/airdrop/crates/filin-rs/src/tx_status.rs:77-118 | Which messages are rejected and which are passed over: those of another kind or command give no event and reject nothing, positive error numbers and cut or malformed bodies reject |
| `KernelMessages.InTheMiddle` | native/airdrop/crates/filin-rs/src/tx_status.rs:67-128 | A message adds its events where it stands; one without events changes nothing, and a malformed one rejects the datagram |
| `KernelMessages.StatusIff` | native/airdrop/crates/filin-rs/src/tx_status.rs:99-114 | A transmit status is one if and only if cookie and interface are there once and of the right length, and it is acknowledged if and only if the flag is there once and empty; with no flag it is not |
| `KernelMessages.CookieIff` | native/airdrop/crates/filin-rs/src/tx_status.rs:99-103 | A frame reply gives its cookie if and only if that is there once |
| `KernelMessages.RocIff` | native/airdrop/crates/filin-rs/src/tx_status.rs:86-98 | A reservation message is an event when its interface, cookie and frequency are there once, a reply when it has no single interface, and nothing when that is a cancellation |
| `KernelMessages.FlagsAreMasked` | native/airdrop/crates/filin-rs/src/tx_status.rs:33 | The two flag bits of an attribute kind are not part of what it is |
| `Consent.Approvals.Grant` | native/airdrop/crates/luftlift-rs/src/server.rs:42-50 | A grant forgets what is past its time, by a clock reading of its own for every entry, and records the peer |
| `Consent.Approvals.Take` | native/airdrop/crates/luftlift-rs/src/server.rs:56-64 | An approval is consumed by every attempt, and valid within its time |
| `Consent.EveryRunIsRuled` | native/airdrop/crates/luftlift-rs/src/server.rs:379-446 | For all interleavings of connections, on the log: an upload is admitted if and only if the last of its peer's asks, grants and attempts is a grant less than two minutes old, and every grant answers the open ask of its own connection; `LogIsDetermined` ties the log to the steps |
| `Consent.AdmittedIsApproved` | native/airdrop/crates/luftlift-rs/src/server.rs:379-446 | Every admitted upload goes back to such a grant with nothing of that peer in between, and the grant to an ask of the same peer |
| `ConsentTrace.LogIsDetermined` | native/airdrop/crates/luftlift-rs/src/server.rs:348-446 | The log follows from the steps alone: an ask or upload is logged exactly when its connection is open and nothing on it is to be answered or served, an approval exactly when an ask is, always under the peer that opened the connection, and an upload as admitted exactly when the last entry of that peer is a grant less than two minutes old |
| `ConsentTrace.AdmittedIsAsked` | native/airdrop/crates/luftlift-rs/src/server.rs:348-446 | Every admitted upload, in terms of the steps: the peer that opened its connection was granted, less than two minutes before, an ask it made on a connection it opened, and nothing of that peer was logged since |
| `Consent.NeverMoreThanGranted` | native/airdrop/crates/luftlift-rs/src/server.rs:52-64 | Admitted uploads and the outstanding grant of a peer are never more than its approved asks |
| `Consent.CleaningNeverMatters` | native/airdrop/crates/luftlift-rs/src/server.rs:44-46 | The opportunistic cleanup, whatever its clock readings up to the grant, changes no decision and nothing a peer can see |
| `MdnsCache.FindNameEnd` | native/airdrop/crates/filin-rs/src/mdns_cache.rs:16-41 | The name walk always advances, stays in bounds and ends where `NameEnd` says |
| `MdnsCache.NameFrom` | native/airdrop/crates/filin-rs/src/mdns_cache.rs:16-41 | A name ends after where it began, within the message and within 256 octets |
| `MdnsCache.DecideDns` | native/airdrop/crates/filin-rs/src/mdns_cache.rs:43-78 | The question and record loops give the decision `DnsDecision`; `DecisionOnOctets`, `WrittenIsDecided` and `DecidedIsWritten` say what that is |
| `MdnsCache.DecisionOnOctets` | native/airdrop/crates/filin-rs/src/mdns_cache.rs:43-56 | Of a message with a header, Keep is decided if and only if the highest bit of its third octet is clear; anything else needs it set, opcode and response code zero and no truncation; a time is 1 to 45 s |
| `MdnsCache.NameIsWalked` | native/airdrop/crates/filin-rs/src/mdns_cache.rs:16-41 | Every written name, compressed or not, is walked to its end |
| `MdnsCache.WalkedIsName` | native/airdrop/crates/filin-rs/src/mdns_cache.rs:16-41 | Everything that is walked as a name is a written name |
| `MdnsCache.LeastIsLeast` | native/airdrop/crates/filin-rs/src/mdns_cache.rs:60-65 | The time to live kept is the least of all records |
| `MdnsCache.WrittenIsDecided` | native/airdrop/crates/filin-rs/src/mdns_cache.rs:43-78 | Every written message is decided as it should be: Keep on queries, nothing on errors, Clear when a time to live is zero, and else Replace for the shortest time but at most 45 s |
| `MdnsCache.DecidedIsWritten` | native/airdrop/crates/filin-rs/src/mdns_cache.rs:43-78 | Only written successful responses with records, complete to the last octet, replace or clear |
| `MdnsCache.WrittenFrameIsClassified` | native/airdrop/crates/filin-rs/src/mdns_cache.rs:82-114 | A frame with a written message is decided by the message, over IPv6 or over unfragmented IPv4 with any options |
| `MdnsCache.FrameIsWritten` | native/airdrop/crates/filin-rs/src/mdns_cache.rs:84-112 | A message is only read from a frame that is one: IPv6 or unfragmented IPv4 around UDP between the mDNS ports, with lengths that agree |
| `MdnsCache.ReplaceIsWritten` | native/airdrop/crates/filin-rs/src/mdns_cache.rs:82-114 | Replace implies that the payload is, to its last octet, a written response whose records all live, and gives their shortest time |
| `MdnsCache.CutFrame` | native/airdrop/crates/filin-rs/src/mdns_cache.rs:82-114 | A frame cut before its IP-declared end clears; what is after that end never matters |
| `PendingRx.Crowded` | native/airdrop/crates/filin-rs/src/pending_rx.rs:29-33 | The entries evicted are the shortest oldest prefix that makes room |
| `PendingRx.HoldQueue.Push` | native/airdrop/crates/filin-rs/src/pending_rx.rs:24-42 | Only non-empty unicast on a channel and within the limit is held; the eviction loop ends because the byte count is the queued sum |
| `PendingRx.HeldIff` | native/airdrop/crates/filin-rs/src/pending_rx.rs:24-42 | After any run a delivery is taken if and only if it is unicast, came on a channel, and has 1 to 65536 octets; as few of the oldest go as leave fewer than 16 entries and 65536 octets with it |
| `PendingRx.HoldQueue.Ready` | native/airdrop/crates/filin-rs/src/pending_rx.rs:46-61 | Expired entries are dropped, those of established senders are returned in arrival order, the others wait |
| `PendingRx.ReadyReturnsDelivered` | native/airdrop/crates/filin-rs/src/pending_rx.rs:46-61 | What a call returns is exactly what left the queue alive, and that is exactly the young entries of established senders; those that wait are exactly the young entries of the others |
| `PendingRx.EveryRunIsFifo` | native/airdrop/crates/filin-rs/src/pending_rx.rs:24-61 | Over any run: the bounds hold; of each sender the entries taken are those that left, each once and in arrival order, and then those queued; what was released was younger than 250 ms and what expired was not |
| `Browse.BrowseLoop` | native/airdrop/crates/luftlift-rs/src/mdns.rs:395-436 | The loop emits a session: the reset, then the changes, then one loss for every row left, in any order |
| `Browse.EveryStepIsFaithful` | native/airdrop/crates/luftlift-rs/src/mdns.rs:404-429 | After every receipt, replaying the events shows what the loop knows, which is the latest state of every peer up to the order of addresses; no event is without effect |
| `Browse.FindingsDiffer` | native/airdrop/crates/luftlift-rs/src/mdns.rs:444-456 | Two findings of a name without a loss in between differ in port or address set |
| `Browse.ReportedIff` | native/airdrop/crates/luftlift-rs/src/mdns.rs:404-456 | A resolution is reported unless the last mention of its name before it is a resolution to the same port and the same set of addresses, a removal if and only if that is a resolution, and nothing else is |
| `Browse.NothingAfterTheEnd` | native/airdrop/crates/luftlift-rs/src/mdns.rs:404-429 | Nothing after the end of the stream is looked at |
| `Browse.SessionEndsEmpty` | native/airdrop/crates/luftlift-rs/src/mdns.rs:430-436 | In a whole session the reset comes first, every later event changes what is shown, and the list ends empty |
| `Progress.Sink.Report` | native/airdrop/crates/luftlift-rs/src/progress.rs:214-236 | A report goes out exactly when the throttle says so or the transfer is complete, and updates the throttle only then |
| `Progress.Percent` | native/airdrop/crates/luftlift-rs/src/progress.rs:300-305 | A percentage is the whole number of hundredths received, rounded down, 100 exactly at completion, and -1 for an unknown total |
| `Progress.PercentGrows` | native/airdrop/crates/luftlift-rs/src/progress.rs:300-305 | It never goes back when more is received |
| `Progress.ReportedIsCurrent` | native/airdrop/crates/luftlift-rs/src/progress.rs:214-236 | With a known total what was last reported is always the current percentage |
| `Progress.ReportsAreFrequent` | native/airdrop/crates/luftlift-rs/src/progress.rs:307-326 | After every call the last report is less than 250 ms old |
| `Progress.ReportedIff` | native/airdrop/crates/luftlift-rs/src/progress.rs:214-236 | Which calls are reported, from the calls alone: the first, every one at completion, every change of the percentage, and every one 250 ms or more after all reports before it |
| `Progress.ReportsAreBounded` | native/airdrop/crates/luftlift-rs/src/progress.rs:307-326 | Before completion there are at most 100 reports and one for every full 250 ms of the transfer; with an unknown total one and those |

## Left out

- Sockets, TLS, netlink and packet I/O, files, threads and processes: only their effects, as inputs, results and interleavings.
- zlib: a pair of function parameters of which inflating undoes deflating; the block writer and reader around it are modelled.
- The captured frames `psf.bin` and `mif.bin`: a parameter, so the results hold for every template.
- Lossy error texts, log lines and response bodies: errors are values that name the failing part.
- The check that a peer's address is loopback or link-local before its connection is served: only connections that pass it are opened in the model.
- Panics: the window search over short SRV rdata is modelled as a panic result; a panic inside a held lock is not.
- Time: the clock is a parameter, read once per call, and in a grant once more for every entry looked at.
- Overflow of 64-bit counters and of `now + 10_000` in the reservation near the end of the 64-bit range.
- Overflow of the body start plus a huge declared content length in the request parser.
- ChunkStream.StagesAgree: only bodies without trailer fields, because the reader takes a single line after the last chunk.
- ChunkStream.ReadsExactlyTheBody: size lines within the reader's line limit and bodies within its size limit; beyond them the reader fails, as `ReadFrom` says.
- HTTP response parsing and printing, interim responses and the discover and ask bodies: property lists and JSON are library behaviour.
- `HashMap` iteration order: a parameter of request printing, and any order of the last losses in `Browse.BrowseLoop`.
- Sorting of resolved addresses: receipts carry the sorted list, and only its set matters to the results.
- `read_headers`, `read_body` with a declared length and `read_full_response`: plain reads without a property of their own.
- The request path is taken from one parse of the head; the gate and the dispatcher of a connection see the same path in the model.
- The retry loops that save received files and ask the user: they are about the file system and a user process.
- `apply_runtime_state`, `remaining_slot_us`, the schedule decisions and `data_rx.rs`: they rest on modules about clocks and radio that are not part of this model; send decisions and established peers are parameters.
- `sequence` and `opclass` of the reservation and `mlme_group`: expressions that would only add easy members.
- Request counters and the subscription flag in the tracker's statistics: no method of the tracker changes them.
- Debug assertions on the rebuilt frame.
- Nothing here was executed; every statement is a proof about the model.
